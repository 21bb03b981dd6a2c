/** What holds of every run of pzip3: queue safety, completion, the output, and what empty files do. */
module Pzip3Runs {
  import opened Rle
  import opened Records
  import opened Pzip3Pages
  import opened Pzip3Work
  import opened Pzip3Protocol
  import opened Pzip3Invariant
  import opened Pzip3History
  import Wzip

  /** Head, tail and size agree, nothing is put on a full ring and nothing taken from an empty one. */
  ghost predicate RingSafe(s: State) {
    && s.ring.head == (s.ring.tail + s.ring.size) % 10 && 0 <= s.ring.size <= 10
    && (s.prod.PPut? ==> s.ring.size < 10)
    && forall c :: 0 <= c < |s.cons| && s.cons[c].CDecide? && !(s.isComplete && s.ring.size == 0) ==> s.ring.size > 0
  }

  /** What was put is what was taken followed by what the ring holds: pages leave in the order they entered, none lost,
      none twice, and they enter in the order of files and pages.  Although the full test is an earlier critical
      section, `put` meets a ring with room; `get` meets one with a page; the head is `size` slots after the tail. */
  lemma QueueSafety(cfg: Config, steps: seq<Step>)
    requires ConfigOk(cfg)
    ensures var s, put, got := Exec(cfg, steps), Puts(cfg, steps), Gets(cfg, steps);
      put == got + Queued(s.ring) && put <= All(cfg) && RingSafe(s)
  {
    QueueInOrder(cfg, steps);
    RunInv(cfg, steps);
    RingFacts(cfg, Exec(cfg, steps));
  }

  lemma RingFacts(cfg: Config, s: State)
    requires Inv(cfg, s)
    ensures RingSafe(s)
  {
    RingParts(cfg, s);
  }

  lemma RingParts(cfg: Config, s: State)
    requires ConfigOk(cfg) && Shape(cfg, s) && RingValid(s.ring) && ProducerInv(cfg, s) && ConsumerInv(s)
    ensures RingSafe(s)
  {
  }

  lemma TakeAll<T>(all: seq<T>, n: int)
    requires n == |all|
    ensures all[..n] == all
  {
  }

  /** `isComplete` means every page was put; a consumer that has returned means every page was taken, and each is
      written or in another consumer's hands. */
  lemma Completion(cfg: Config, steps: seq<Step>)
    requires ConfigOk(cfg)
    ensures var s := Exec(cfg, steps);
      && (s.isComplete ==> Puts(cfg, steps) == All(cfg) && s.totalPages == |All(cfg)|)
      && (forall c :: 0 <= c < |s.cons| && s.cons[c].CDone? ==>
            && s.isComplete && Gets(cfg, steps) == All(cfg)
            && multiset(All(cfg)) == multiset(Writes(cfg, steps)) + InHands(s.cons))
  {
    RunInv(cfg, steps);
    QueueHistory(cfg, steps);
    PagesConserved(cfg, steps);
    CompletionCounts(cfg, Exec(cfg, steps));
    var s := Exec(cfg, steps);
    if s.isComplete {
      TakeAll(All(cfg), Enqueued(cfg, s.prod));
      if Dequeued(cfg, s) == |All(cfg)| {
        TakeAll(All(cfg), Dequeued(cfg, s));
      }
    }
  }

  lemma CompletionCounts(cfg: Config, s: State)
    requires Inv(cfg, s)
    ensures s.isComplete ==> Enqueued(cfg, s.prod) == |All(cfg)| == s.totalPages
    ensures forall c :: 0 <= c < |s.cons| && s.cons[c].CDone? ==> s.isComplete && Dequeued(cfg, s) == |All(cfg)|
  {
  }

  /** Once all consumers have returned, every page's output has been stored exactly once in the run. */
  lemma EveryPageWrittenOnce(cfg: Config, steps: seq<Step>)
    requires ConfigOk(cfg) && AllReturned(Exec(cfg, steps))
    ensures multiset(Writes(cfg, steps)) == multiset(All(cfg))
    ensures forall x, y :: 0 <= x < y < |All(cfg)| ==> All(cfg)[x] != All(cfg)[y]
  {
    Completion(cfg, steps);
    assert Exec(cfg, steps).cons[0].CDone?;
    NoHands(Exec(cfg, steps).cons);
    forall x, y | 0 <= x < y < |All(cfg)| ensures All(cfg)[x] != All(cfg)[y] {
      var i, j := PageLookup(cfg.files, cfg.pageSize, |cfg.files|, x);
      var k, l := PageLookup(cfg.files, cfg.pageSize, |cfg.files|, y);
    }
  }

  /** A consumer that is about to store its output stores it in the page's own slot, which nobody has written. */
  lemma EverySlotOnce(cfg: Config, steps: seq<Step>, c: nat)
    requires ConfigOk(cfg) && Numbered(cfg)
    requires c < |Exec(cfg, steps).cons| && Exec(cfg, steps).cons[c].CWork?
    ensures var s := Exec(cfg, steps);
      var slot := Position(s.pagesPerFile, s.cons[c].page);
      0 <= slot < |All(cfg)| && All(cfg)[slot] == s.cons[c].page && slot !in s.out
  {
    RunInv(cfg, steps);
    HeldSlot(cfg, Exec(cfg, steps), c);
  }

  lemma HeldSlot(cfg: Config, s: State, c: nat)
    requires ConfigOk(cfg) && Numbered(cfg) && Shape(cfg, s)
    requires ProducerInv(cfg, s) && HandsInv(cfg, s) && FreshInv(cfg, s)
    requires c < |s.cons| && s.cons[c].CWork?
    ensures var slot := Position(s.pagesPerFile, s.cons[c].page);
      0 <= slot < |All(cfg)| && All(cfg)[slot] == s.cons[c].page && slot !in s.out
  {
    var page := s.cons[c].page;
    SumsAgree(cfg, s.pagesPerFile, page.file);
    NumberedAt(cfg, Index(cfg, page));
  }

  /** `main` joins the consumers before it prints. */
  ghost predicate AllReturned(s: State) {
    |s.cons| > 0 && forall c :: 0 <= c < |s.cons| ==> s.cons[c].CDone?
  }

  /** Once all consumers have returned, `out[0..total_pages)` is filled, slot by slot, with the compressed pages. */
  lemma OutputFilled(cfg: Config, steps: seq<Step>)
    requires ConfigOk(cfg) && Numbered(cfg) && AllReturned(Exec(cfg, steps))
    ensures var s := Exec(cfg, steps);
      && s.totalPages == |All(cfg)|
      && (forall k :: k in s.out <==> 0 <= k < |All(cfg)|)
      && (forall k :: 0 <= k < |All(cfg)| ==> s.out[k] == Encode(Content(cfg.files, All(cfg)[k])))
  {
    var s := Exec(cfg, steps);
    RunInv(cfg, steps);
    assert s.cons[0].CDone?;
    forall k | 0 <= k < |All(cfg)| ensures k in s.out {
      NumberedAt(cfg, k);
      assert Accounted(cfg, s, k);
    }
    forall k | k in s.out
      ensures 0 <= k < |All(cfg)| && s.out[k] == Encode(Content(cfg.files, All(cfg)[k]))
    {
      var x :| 0 <= x < |All(cfg)| && x < Dequeued(cfg, s) && Fills(cfg, x, k, s.out[k]);
      NumberedAt(cfg, x);
    }
  }

  /** The record lists `printOutput` is given. */
  function OutList(s: State): (r: seq<seq<Run>>)
    requires forall k :: 0 <= k < s.totalPages ==> k in s.out
    ensures |r| == if s.totalPages > 0 then s.totalPages else 0
    ensures forall k :: 0 <= k < |r| ==> r[k] == s.out[k]
  {
    if s.totalPages > 0 then seq(s.totalPages, k requires 0 <= k < s.totalPages && k in s.out => s.out[k]) else []
  }

  /** The main theorem: whatever the interleaving, the number of consumers and the page size, if the positions number
      the pages, what the consumers left meets the requirements of `printOutput`, and the merged file is the canonical
      compression of all files laid end to end -- for a nonempty input the very bytes `wzip` writes. */
  lemma AnyScheduleCompresses(cfg: Config, steps: seq<Step>)
    requires ConfigOk(cfg) && Numbered(cfg) && AllReturned(Exec(cfg, steps))
    ensures var s := Exec(cfg, steps);
      var input := Flatten(cfg.files);
      && (forall k :: 0 <= k < s.totalPages ==> k in s.out && 0 < |s.out[k]| <= cfg.pageSize)
      && Serialize(Stitch(OutList(s))) == Serialize(Encode(input))
      && (input != [] <==> Serialize(Stitch(OutList(s))) == Serialize(Wzip.InputRuns(input)))
  {
    var s := Exec(cfg, steps);
    OutputFilled(cfg, steps);
    var pages := PageContents(cfg.files, All(cfg));
    assert OutList(s) == EncodeEach(pages);
    PagesStitch(cfg);
    PageSizes(cfg);
  }

  lemma PagesStitch(cfg: Config)
    requires ConfigOk(cfg)
    ensures Stitch(EncodeEach(PageContents(cfg.files, All(cfg)))) == Encode(Flatten(cfg.files))
  {
    StitchCorrect(PageContents(cfg.files, All(cfg)));
    PagesTile(cfg.files, cfg.pageSize, |cfg.files|);
    assert cfg.files[..|cfg.files|] == cfg.files;
  }

  lemma PageSizes(cfg: Config)
    requires ConfigOk(cfg)
    ensures forall k :: 0 <= k < |All(cfg)| ==> 0 < |Encode(Content(cfg.files, All(cfg)[k]))| <= cfg.pageSize
  {
    AllInFile(cfg.files, cfg.pageSize, |cfg.files|);
    forall k | 0 <= k < |All(cfg)| ensures 0 < |Encode(Content(cfg.files, All(cfg)[k]))| <= cfg.pageSize {
      EncodeCorrect(Content(cfg.files, All(cfg)[k]));
    }
  }

  // ---- empty files

  /** The entries of `pages_per_file` that the producer never sets, added up over the files before `k`. */
  function StrayEntries(cfg: Config, k: nat): int
    requires ConfigOk(cfg) && k <= |cfg.files|
  {
    if k == 0 then 0 else StrayEntries(cfg, k - 1) + if cfg.files[k - 1] == [] then cfg.garbage[k - 1] else 0
  }

  lemma {:induction false} StrayEntriesShift(cfg: Config, k: nat)
    requires ConfigOk(cfg) && k <= |cfg.files|
    ensures SumEntries(cfg, k) == FirstPage(cfg.files, cfg.pageSize, k) + StrayEntries(cfg, k)
  {
    if k == 0 {
    } else {
      StrayEntriesShift(cfg, k - 1);
      PageArithmetic(|cfg.files[k - 1]|, cfg.pageSize);
    }
  }

  /** The positions number the pages exactly when, before every nonempty file, the entries of the empty files add up to
      nothing. */
  lemma NumberedExactly(cfg: Config)
    requires ConfigOk(cfg)
    ensures Numbered(cfg) <==> forall f :: 0 <= f < |cfg.files| && cfg.files[f] != [] ==> StrayEntries(cfg, f) == 0
  {
    if Numbered(cfg) {
      forall f | 0 <= f < |cfg.files| && cfg.files[f] != [] ensures StrayEntries(cfg, f) == 0 {
        PageArithmetic(|cfg.files[f]|, cfg.pageSize);
        NextPageIs(cfg, f, 0);
        NumberedAt(cfg, FirstPage(cfg.files, cfg.pageSize, f));
        StrayEntriesShift(cfg, f);
      }
    }
    if forall f :: 0 <= f < |cfg.files| && cfg.files[f] != [] ==> StrayEntries(cfg, f) == 0 {
      forall x | 0 <= x < |All(cfg)| ensures Slot(cfg, All(cfg)[x]) == x {
        var i, j := PageLookup(cfg.files, cfg.pageSize, |cfg.files|, x);
        PageArithmetic(|cfg.files[i]|, cfg.pageSize);
        StrayEntriesShift(cfg, i);
      }
    }
  }

  lemma {:induction false} NoStrayEntries(cfg: Config, k: nat)
    requires ConfigOk(cfg) && k <= |cfg.files|
    requires forall i :: 0 <= i < k && cfg.files[i] == [] ==> cfg.garbage[i] == 0
    ensures StrayEntries(cfg, k) == 0
  {
    if k == 0 {
    } else {
      NoStrayEntries(cfg, k - 1);
    }
  }

  /** So it is when empty files come last, and when the memory `malloc` returned was zero at the empty files. */
  lemma NumberedWhen(cfg: Config)
    requires ConfigOk(cfg)
    requires EmptyFilesLast(cfg.files) || forall i :: 0 <= i < |cfg.files| && cfg.files[i] == [] ==> cfg.garbage[i] == 0
    ensures Numbered(cfg)
  {
    forall f | 0 <= f < |cfg.files| && cfg.files[f] != [] ensures StrayEntries(cfg, f) == 0 {
      NoStrayEntries(cfg, f);
    }
    NumberedExactly(cfg);
  }

  /** No empty file comes before a nonempty one. */
  ghost predicate EmptyFilesLast(files: seq<seq<byte>>) {
    forall i, k :: 0 <= i < k < |files| && files[i] == [] ==> files[k] == []
  }

  /** Files that hide an empty one before a nonempty one: the first such empty file. */
  lemma FirstHole(files: seq<seq<byte>>) returns (z: nat, k: nat)
    requires !EmptyFilesLast(files)
    ensures z < k < |files| && files[z] == [] && files[k] != []
    ensures forall i, f :: 0 <= i < z && i < f < |files| && files[i] == [] ==> files[f] == []
  {
    var i, f :| 0 <= i < f < |files| && files[i] == [] && files[f] != [];
    z, k := i, f;
    while exists i, f :: 0 <= i < z && i < f < |files| && files[i] == [] && files[f] != []
      invariant z < k < |files| && files[z] == [] && files[k] != []
      decreases z
    {
      var i, f :| 0 <= i < z && i < f < |files| && files[i] == [] && files[f] != [];
      z, k := i, f;
    }
  }

  /** The configuration in which `malloc` left a large number in every entry. */
  ghost function LargeGarbage(files: seq<seq<byte>>, pageSize: nat, consumers: nat): (cfg: Config)
    requires pageSize > 0
    ensures ConfigOk(cfg)
  {
    Config(files, pageSize, consumers, seq(|files|, _ => TotalPages(files, pageSize)))
  }

  lemma {:induction false} SlotsMissHole(cfg: Config, z: nat, f: nat)
    requires ConfigOk(cfg) && z < f <= |cfg.files| && cfg.files[z] == []
    requires forall i :: 0 <= i < |cfg.files| ==> cfg.garbage[i] == TotalPages(cfg.files, cfg.pageSize)
    ensures SumEntries(cfg, f) >= TotalPages(cfg.files, cfg.pageSize)
    decreases f
  {
    if f == z + 1 {
      SumEntriesNonNegative(cfg, z);
    } else {
      SlotsMissHole(cfg, z, f - 1);
    }
  }

  lemma {:induction false} SumEntriesNonNegative(cfg: Config, f: nat)
    requires ConfigOk(cfg) && f <= |cfg.files|
    requires forall i :: 0 <= i < |cfg.files| ==> cfg.garbage[i] >= 0
    ensures SumEntries(cfg, f) >= 0
  {
    if f == 0 {
    } else {
      SumEntriesNonNegative(cfg, f - 1);
    }
  }

  lemma {:induction false} NonEmptyBefore(cfg: Config, f: nat)
    requires ConfigOk(cfg) && f <= |cfg.files| && forall i :: 0 <= i < f ==> cfg.files[i] != []
    ensures SumEntries(cfg, f) == FirstPage(cfg.files, cfg.pageSize, f)
  {
    if f == 0 {
    } else {
      NonEmptyBefore(cfg, f - 1);
    }
  }

  lemma SlotBeforeHole(cfg: Config, z: nat, i: nat, j: nat)
    requires ConfigOk(cfg) && i < z <= |cfg.files| && j < PagesInFile(|cfg.files[i]|, cfg.pageSize)
    requires forall q :: 0 <= q < z ==> cfg.files[q] != []
    ensures SumEntries(cfg, i) + j < FirstPage(cfg.files, cfg.pageSize, z)
  {
    NonEmptyBefore(cfg, i);
    FirstPageMonotone(cfg.files, cfg.pageSize, i + 1, z);
  }

  /** With such files, one slot below `total_pages` is nobody's output position. */
  lemma HoleSlot(cfg: Config, z: nat, k: nat, x: nat)
    requires ConfigOk(cfg) && z < k < |cfg.files| && cfg.files[z] == [] && cfg.files[k] != []
    requires forall i, f :: 0 <= i < z && i < f < |cfg.files| && cfg.files[i] == [] ==> cfg.files[f] == []
    requires forall i :: 0 <= i < |cfg.files| ==> cfg.garbage[i] == TotalPages(cfg.files, cfg.pageSize)
    requires x < |All(cfg)|
    ensures FirstPage(cfg.files, cfg.pageSize, z) < |All(cfg)|
    ensures Slot(cfg, All(cfg)[x]) != FirstPage(cfg.files, cfg.pageSize, z)
  {
    PageArithmetic(|cfg.files[k]|, cfg.pageSize);
    FirstPageMonotone(cfg.files, cfg.pageSize, z, k);
    FirstPageMonotone(cfg.files, cfg.pageSize, k + 1, |cfg.files|);
    var i, j := PageLookup(cfg.files, cfg.pageSize, |cfg.files|, x);
    if i < z {
      assert forall q :: 0 <= q < z ==> cfg.files[q] != [];
      SlotBeforeHole(cfg, z, i, j);
    } else {
      PageArithmetic(|cfg.files[i]|, cfg.pageSize);
      SlotsMissHole(cfg, z, i);
    }
  }

  /** An empty file before a nonempty one leaves a page of output unwritten, in every run, for some contents of the
      memory `malloc` returned: `pages_per_file` has no entry for the empty file, yet is added up. */
  lemma EmptyFileLosesPages(files: seq<seq<byte>>, pageSize: nat, consumers: nat) returns (slot: nat)
    requires pageSize > 0 && !EmptyFilesLast(files)
    ensures slot < TotalPages(files, pageSize)
    ensures forall steps :: slot !in Exec(LargeGarbage(files, pageSize, consumers), steps).out
  {
    var cfg := LargeGarbage(files, pageSize, consumers);
    var z, k := FirstHole(files);
    slot := FirstPage(files, pageSize, z);
    FirstPageMonotone(cfg.files, cfg.pageSize, z, k);
    PageArithmetic(|files[k]|, pageSize);
    FirstPageMonotone(cfg.files, cfg.pageSize, k + 1, |files|);
    forall steps ensures slot !in Exec(cfg, steps).out {
      var s := Exec(cfg, steps);
      RunInv(cfg, steps);
      if slot in s.out {
        var x :| 0 <= x < |All(cfg)| && x < Dequeued(cfg, s) && Fills(cfg, x, slot, s.out[slot]);
        HoleSlot(cfg, z, k, x);
        assert false;
      }
    }
  }

  /** `calculateOutputPosition` numbers the pages 0, 1, 2, ... whatever `malloc` left in `pages_per_file`, exactly when
      no empty file comes before a nonempty one. */
  lemma PositionsExactly(files: seq<seq<byte>>, pageSize: nat)
    requires pageSize > 0
    ensures (forall garbage: seq<int>, x ::
               |garbage| == |files| && 0 <= x < TotalPages(files, pageSize) ==>
               Slot(Config(files, pageSize, 0, garbage), AllPages(files, pageSize)[x]) == x)
            <==> EmptyFilesLast(files)
  {
    if EmptyFilesLast(files) {
      forall garbage: seq<int>, x | |garbage| == |files| && 0 <= x < TotalPages(files, pageSize)
        ensures Slot(Config(files, pageSize, 0, garbage), AllPages(files, pageSize)[x]) == x
      {
        NumberedWhen(Config(files, pageSize, 0, garbage));
        NumberedAt(Config(files, pageSize, 0, garbage), x);
      }
    } else {
      var cfg := LargeGarbage(files, pageSize, 0);
      var z, k := FirstHole(files);
      var x := FirstPage(files, pageSize, z);
      FirstPageMonotone(cfg.files, cfg.pageSize, z, k);
      PageArithmetic(|files[k]|, pageSize);
      FirstPageMonotone(cfg.files, cfg.pageSize, k + 1, |files|);
      HoleSlot(cfg, z, k, x);
      assert |cfg.garbage| == |files|;
      assert Slot(Config(files, pageSize, 0, cfg.garbage), AllPages(files, pageSize)[x]) != x;
    }
  }
}
