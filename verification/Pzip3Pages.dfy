/** concurrency-pzip/wzip/pzip3.c: how the producer cuts the files into pages, and where each page's output goes. */
module Pzip3Pages {
  import opened Rle

  /** `struct buffer`: a page of one mapped file; `offset` stands for the mapping address. */
  datatype Page = Page(file: nat, number: nat, offset: nat, size: nat)

  /** Step 4 of the producer: whole pages, and one more when the quotient computed in floating point is larger. */
  function PagesInFile(fileSize: nat, pageSize: nat): nat
    requires pageSize > 0
  {
    if fileSize as real / pageSize as real > (fileSize / pageSize) as real then fileSize / pageSize + 1
    else fileSize / pageSize
  }

  function LastPageSize(fileSize: nat, pageSize: nat): nat
    requires pageSize > 0
  {
    if fileSize as real / pageSize as real > (fileSize / pageSize) as real then fileSize % pageSize else pageSize
  }

  /** Page `j` of a file, as the producer describes it to the consumers. */
  function PageOf(fileSize: nat, file: nat, j: nat, pageSize: nat): Page
    requires pageSize > 0
  {
    Page(file, j, j * pageSize,
         if j == PagesInFile(fileSize, pageSize) - 1 then LastPageSize(fileSize, pageSize) else pageSize)
  }

  /** The number of pages of the first `k` files. */
  function FirstPage(files: seq<seq<byte>>, pageSize: nat, k: nat): nat
    requires pageSize > 0 && k <= |files|
  {
    if k == 0 then 0 else FirstPage(files, pageSize, k - 1) + PagesInFile(|files[k - 1]|, pageSize)
  }

  lemma {:induction false} FirstPageMonotone(files: seq<seq<byte>>, pageSize: nat, i: nat, k: nat)
    requires pageSize > 0 && i <= k <= |files|
    ensures FirstPage(files, pageSize, i) <= FirstPage(files, pageSize, k)
  {
    if i == k {
    } else {
      FirstPageMonotone(files, pageSize, i, k - 1);
    }
  }

  function TotalPages(files: seq<seq<byte>>, pageSize: nat): nat
    requires pageSize > 0
  {
    FirstPage(files, pageSize, |files|)
  }

  /** The first `j` pages of one file. */
  function FilePages(fileSize: nat, file: nat, pageSize: nat, j: nat): (ps: seq<Page>)
    requires pageSize > 0
    ensures |ps| == j
    ensures forall i :: 0 <= i < j ==> ps[i] == PageOf(fileSize, file, i, pageSize)
  {
    seq(j, i requires 0 <= i => PageOf(fileSize, file, i, pageSize))
  }

  /** Every page of the first `k` files, in order. */
  function PagesUpTo(files: seq<seq<byte>>, pageSize: nat, k: nat): (ps: seq<Page>)
    requires pageSize > 0 && k <= |files|
    ensures |ps| == FirstPage(files, pageSize, k)
  {
    if k == 0 then []
    else PagesUpTo(files, pageSize, k - 1)
         + FilePages(|files[k - 1]|, k - 1, pageSize, PagesInFile(|files[k - 1]|, pageSize))
  }

  function AllPages(files: seq<seq<byte>>, pageSize: nat): (ps: seq<Page>)
    requires pageSize > 0
    ensures |ps| == TotalPages(files, pageSize)
  {
    PagesUpTo(files, pageSize, |files|)
  }

  predicate InFile(files: seq<seq<byte>>, p: Page) {
    p.file < |files| && p.offset + p.size <= |files[p.file]|
  }

  /** The bytes a page covers (every page the producer makes lies in its file, see `AllInFile`). */
  function Content(files: seq<seq<byte>>, p: Page): seq<byte> {
    if InFile(files, p) then files[p.file][p.offset..p.offset + p.size] else []
  }

  function PageContents(files: seq<seq<byte>>, ps: seq<Page>): (r: seq<seq<byte>>)
    ensures |r| == |ps| && forall i :: 0 <= i < |ps| ==> r[i] == Content(files, ps[i])
  {
    seq(|ps|, i requires 0 <= i < |ps| => Content(files, ps[i]))
  }

  /** The floating-point test is the test for a remainder; the last page is what is left over, never empty. */
  lemma PageArithmetic(fileSize: nat, pageSize: nat)
    requires pageSize > 0
    ensures (fileSize as real / pageSize as real > (fileSize / pageSize) as real) <==> fileSize % pageSize != 0
    ensures fileSize > 0 ==>
      && PagesInFile(fileSize, pageSize) > 0
      && (PagesInFile(fileSize, pageSize) - 1) * pageSize + LastPageSize(fileSize, pageSize) == fileSize
      && 0 < LastPageSize(fileSize, pageSize) <= pageSize
    ensures fileSize == 0 ==> PagesInFile(fileSize, pageSize) == 0
  {
    var q, r := fileSize / pageSize, fileSize % pageSize;
    assert fileSize == q * pageSize + r;
    QuotientTest(fileSize as real / pageSize as real, fileSize, q, r, pageSize);
    LastPage(fileSize, q, r, pageSize);
  }

  lemma QuotientTest(x: real, fileSize: nat, q: nat, r: nat, pageSize: nat)
    requires pageSize > 0 && fileSize == q * pageSize + r && x * pageSize as real == fileSize as real
    ensures x > q as real <==> r != 0
  {
    assert fileSize as real == q as real * pageSize as real + r as real;
    if x <= q as real {
      RealTimes(x, q as real, pageSize as real);
    } else {
      RealTimesStrict(q as real, x, pageSize as real);
    }
  }

  lemma LastPage(fileSize: nat, q: nat, r: nat, pageSize: nat)
    requires pageSize > 0 && fileSize == q * pageSize + r && r < pageSize
    ensures r == 0 && fileSize > 0 ==> q > 0 && (q - 1) * pageSize + pageSize == fileSize
  {
    if q > 0 {
      assert q * pageSize == (q - 1) * pageSize + pageSize;
    }
  }

  lemma RealTimes(x: real, y: real, z: real)
    requires x <= y && z > 0.0
    ensures x * z <= y * z
  {
  }

  lemma RealTimesStrict(x: real, y: real, z: real)
    requires x < y && z > 0.0
    ensures x * z < y * z
  {
  }

  lemma PageInFile(fileSize: nat, file: nat, j: nat, pageSize: nat)
    requires pageSize > 0 && j < PagesInFile(fileSize, pageSize)
    ensures var p := PageOf(fileSize, file, j, pageSize);
      p.offset + p.size <= fileSize && 0 < p.size <= pageSize
    ensures j < PagesInFile(fileSize, pageSize) - 1 ==> (j + 1) * pageSize <= fileSize
    ensures j == PagesInFile(fileSize, pageSize) - 1 ==>
      PageOf(fileSize, file, j, pageSize).offset + PageOf(fileSize, file, j, pageSize).size == fileSize
  {
    PageArithmetic(fileSize, pageSize);
    var n := PagesInFile(fileSize, pageSize);
    if j < n - 1 {
      Times(j + 1, n - 1, pageSize);
    }
  }

  lemma Times(x: nat, y: nat, z: nat)
    requires x <= y
    ensures x * z <= y * z
  {
  }

  /** Where page `j` of file `i` stands in the list of all pages: the position formula is a bijection from (file, page)
      pairs onto the indices below the total. */
  lemma {:induction false} PageAt(files: seq<seq<byte>>, pageSize: nat, k: nat, i: nat, j: nat)
    requires pageSize > 0 && i < k <= |files| && j < PagesInFile(|files[i]|, pageSize)
    ensures FirstPage(files, pageSize, i) + j < FirstPage(files, pageSize, k)
    ensures PagesUpTo(files, pageSize, k)[FirstPage(files, pageSize, i) + j]
         == PageOf(|files[i]|, i, j, pageSize)
    decreases k
  {
    if i < k - 1 {
      PageAt(files, pageSize, k - 1, i, j);
    }
  }

  lemma {:induction false} PageLookup(files: seq<seq<byte>>, pageSize: nat, k: nat, x: nat) returns (i: nat, j: nat)
    requires pageSize > 0 && k <= |files| && x < FirstPage(files, pageSize, k)
    ensures i < k && j < PagesInFile(|files[i]|, pageSize) && x == FirstPage(files, pageSize, i) + j
    ensures PagesUpTo(files, pageSize, k)[x] == PageOf(|files[i]|, i, j, pageSize)
    ensures InFile(files, PagesUpTo(files, pageSize, k)[x])
    ensures 0 < PagesUpTo(files, pageSize, k)[x].size <= pageSize
  {
    var before := FirstPage(files, pageSize, k - 1);
    if x < before {
      i, j := PageLookup(files, pageSize, k - 1, x);
    } else {
      i, j := k - 1, x - before;
    }
    PageInFile(|files[i]|, i, j, pageSize);
  }

  lemma AllInFile(files: seq<seq<byte>>, pageSize: nat, k: nat)
    requires pageSize > 0 && k <= |files|
    ensures forall x :: 0 <= x < FirstPage(files, pageSize, k) ==>
      InFile(files, PagesUpTo(files, pageSize, k)[x]) && 0 < PagesUpTo(files, pageSize, k)[x].size <= pageSize
  {
    forall x | 0 <= x < FirstPage(files, pageSize, k)
      ensures InFile(files, PagesUpTo(files, pageSize, k)[x])
      ensures 0 < PagesUpTo(files, pageSize, k)[x].size <= pageSize
    {
      var i, j := PageLookup(files, pageSize, k, x);
    }
  }

  /** Where the first `j` pages of a file end. */
  function PagesEnd(fileSize: nat, pageSize: nat, j: nat): nat
    requires pageSize > 0
  {
    if j == PagesInFile(fileSize, pageSize) then fileSize else j * pageSize
  }

  lemma PageEnds(fileSize: nat, file: nat, j: nat, pageSize: nat)
    requires pageSize > 0 && j < PagesInFile(fileSize, pageSize)
    ensures PageOf(fileSize, file, j, pageSize).offset == PagesEnd(fileSize, pageSize, j)
    ensures PagesEnd(fileSize, pageSize, j) + PageOf(fileSize, file, j, pageSize).size
         == PagesEnd(fileSize, pageSize, j + 1) <= fileSize
  {
    PageInFile(fileSize, file, j, pageSize);
    assert (j + 1) * pageSize == j * pageSize + pageSize;
  }

  lemma ContentsSnoc(files: seq<seq<byte>>, ps: seq<Page>, p: Page)
    ensures PageContents(files, ps + [p]) == PageContents(files, ps) + [Content(files, p)]
    ensures Flatten(PageContents(files, ps + [p])) == Flatten(PageContents(files, ps)) + Content(files, p)
  {
    var cs := PageContents(files, ps + [p]);
    assert cs == PageContents(files, ps) + [Content(files, p)];
    assert cs[..|ps|] == PageContents(files, ps);
  }

  /** The pages of one file, laid end to end, are a prefix of it. */
  lemma {:induction false} FileTiles(files: seq<seq<byte>>, i: nat, pageSize: nat, j: nat)
    requires pageSize > 0 && i < |files| && j <= PagesInFile(|files[i]|, pageSize)
    ensures PagesEnd(|files[i]|, pageSize, j) <= |files[i]|
    ensures Flatten(PageContents(files, FilePages(|files[i]|, i, pageSize, j)))
         == files[i][..PagesEnd(|files[i]|, pageSize, j)]
  {
    var f := files[i];
    PageArithmetic(|f|, pageSize);
    if j == 0 {
    } else {
      FileTiles(files, i, pageSize, j - 1);
      FileTilesNext(files, i, pageSize, j - 1);
    }
  }

  lemma FileTilesNext(files: seq<seq<byte>>, i: nat, pageSize: nat, j: nat)
    requires pageSize > 0 && i < |files| && j < PagesInFile(|files[i]|, pageSize)
    requires PagesEnd(|files[i]|, pageSize, j) <= |files[i]|
    requires Flatten(PageContents(files, FilePages(|files[i]|, i, pageSize, j)))
          == files[i][..PagesEnd(|files[i]|, pageSize, j)]
    ensures PagesEnd(|files[i]|, pageSize, j + 1) <= |files[i]|
    ensures Flatten(PageContents(files, FilePages(|files[i]|, i, pageSize, j + 1)))
         == files[i][..PagesEnd(|files[i]|, pageSize, j + 1)]
  {
    var f := files[i];
    var front, p := FilePages(|f|, i, pageSize, j), PageOf(|f|, i, j, pageSize);
    PageEnds(|f|, i, j, pageSize);
    PagesSnoc(|f|, i, j, pageSize);
    ContentsSnoc(files, front, p);
    Slices(f, p.offset, p.offset + p.size);
  }

  lemma PagesSnoc(fileSize: nat, file: nat, j: nat, pageSize: nat)
    requires pageSize > 0
    ensures FilePages(fileSize, file, pageSize, j + 1)
         == FilePages(fileSize, file, pageSize, j) + [PageOf(fileSize, file, j, pageSize)]
  {
  }

  lemma Slices<T>(f: seq<T>, a: nat, b: nat)
    requires a <= b <= |f|
    ensures f[..a] + f[a..b] == f[..b]
  {
  }

  /** The pages in position order tile the concatenated input: no gap, no overlap. */
  lemma {:induction false} PagesTile(files: seq<seq<byte>>, pageSize: nat, k: nat)
    requires pageSize > 0 && k <= |files|
    ensures Flatten(PageContents(files, PagesUpTo(files, pageSize, k))) == Flatten(files[..k])
  {
    if k == 0 {
    } else {
      var f := files[k - 1];
      PagesTile(files, pageSize, k - 1);
      WholeFileTiles(files, k - 1, pageSize);
      ContentsAppend(files, PagesUpTo(files, pageSize, k - 1),
                     FilePages(|f|, k - 1, pageSize, PagesInFile(|f|, pageSize)));
      FlattenTake(files, k);
    }
  }

  lemma WholeFileTiles(files: seq<seq<byte>>, i: nat, pageSize: nat)
    requires pageSize > 0 && i < |files|
    ensures Flatten(PageContents(files, FilePages(|files[i]|, i, pageSize, PagesInFile(|files[i]|, pageSize))))
         == files[i]
  {
    var f := files[i];
    var n := PagesInFile(|f|, pageSize);
    FileTiles(files, i, pageSize, n);
    assert f[..PagesEnd(|f|, pageSize, n)] == f;
  }

  lemma ContentsAppend(files: seq<seq<byte>>, x: seq<Page>, y: seq<Page>)
    ensures Flatten(PageContents(files, x + y)) == Flatten(PageContents(files, x)) + Flatten(PageContents(files, y))
  {
    assert PageContents(files, x + y) == PageContents(files, x) + PageContents(files, y);
    FlattenAppend(PageContents(files, x), PageContents(files, y));
  }
}
