/** filesystems-checker/xchecker.c: checks 2, 5, 6 and 7/8 as loops over inodes and their addresses, each against a
    statement about the sequence of addresses in use. */
module FsCheck {
  import opened FsBitmap
  import opened FsImage
  import opened FsLayout

  /** `FSSIZE - sb->nblocks`, in unsigned 32-bit arithmetic. */
  function FirstData(sb: Superblock): nat {
    (FSSIZE - sb.nblocks) % 0x1_0000_0000
  }

  ghost predicate AllIn(s: seq<nat>, first: nat) {
    forall k :: 0 <= k < |s| ==> first <= s[k] < FSSIZE
  }

  /** An image check 2 can read: where an inode or an indirect block off the image, or an overlong file, would lead it
      out of its memory, it has met a bad address before. */
  ghost predicate Sound(img: seq<bv8>) {
    2 * BSIZE <= |img| && SoundFor(img, ReadSuperblock(img))
  }

  ghost predicate SoundFor(img: seq<bv8>, sb: Superblock) {
    forall i: nat :: 1 <= i <= sb.ninodes ==> StopsBefore(img, sb, i)
  }

  ghost predicate StopsBefore(img: seq<bv8>, sb: Superblock, i: nat)
    requires 1 <= i <= sb.ninodes
  {
    !InodeOnImage(img, i, sb) || RunsOut(img, Rinode(img, i, sb)) ==>
      !AllIn(Concat(Pieces(img, sb, true)[..i]), FirstData(sb))
  }

  /** The bitmap block, which checks 5 to 8 copy, is on the image too. */
  ghost predicate BitmapOnImage(img: seq<bv8>) {
    2 * BSIZE <= |img| && BSIZE * ReadSuperblock(img).bmapstart + BSIZE <= |img|
  }

  /** The indirect block of a file, copied as the source copies it. */
  function ReadIndirect(img: seq<bv8>, block: nat): (words: seq<nat>)
    requires BSIZE * block + BSIZE <= |img|
    ensures words == Indirect(img, block) && |words| == NINDIRECT
  {
    Uints(Rsect(img, block), 0, NINDIRECT)
  }

  /** What inode `i` contributes, by the tests of the loop bodies. */
  lemma PieceOf(img: seq<bv8>, sb: Superblock, i: nat, free: bool)
    requires 1 <= i <= sb.ninodes && InodeOnImage(img, i, sb)
    ensures var ip := Rinode(img, i, sb);
            Pieces(img, sb, free)[i - 1] == if (ip.kind == 0 && !free) || ip.size == 0 then [] else UsedBy(img, ip)
  {
    PieceIs(img, sb, i, sb.ninodes, free);
  }

  // ---- check 2: every address is a data block

  lemma AllInSplit(s: seq<nat>, t: seq<nat>, first: nat)
    ensures AllIn(s + t, first) <==> AllIn(s, first) && AllIn(t, first)
  {
    if AllIn(s + t, first) {
      forall k | 0 <= k < |s| ensures first <= s[k] < FSSIZE {
        assert (s + t)[k] == s[k];
      }
      forall k | 0 <= k < |t| ensures first <= t[k] < FSSIZE {
        assert (s + t)[|s| + k] == t[k];
      }
    }
  }

  lemma AllInPrefix(s: seq<nat>, t: seq<nat>, first: nat)
    requires s <= t && AllIn(t, first)
    ensures AllIn(s, first)
  {
    AllInSplit(s, t[|s|..], first);
    assert t == s + t[|s|..];
  }

  lemma PieceAllIn(pieces: seq<seq<nat>>, i: nat, first: nat)
    requires i < |pieces| && AllIn(Concat(pieces), first)
    ensures AllIn(pieces[i], first)
  {
    ConcatTake(pieces, i);
    ConcatPrefix(pieces, i + 1);
    AllInPrefix(Concat(pieces[..i + 1]), Concat(pieces), first);
    AllInSplit(Concat(pieces[..i]), pieces[i], first);
  }

  /** The loop over `n` addresses; it may aim past the end of a run in which it meets a bad address. */
  method RangeOfRun(addrs: seq<nat>, n: nat, first: nat) returns (ok: bool)
    requires n <= |addrs| || !AllIn(addrs, first)
    ensures ok <==> AllIn(if n <= |addrs| then addrs[..n] else addrs, first)
  {
    for j := 0 to n
      invariant j <= |addrs| && AllIn(addrs[..j], first)
    {
      assert addrs[..|addrs|] == addrs;
      if addrs[j] >= FSSIZE || addrs[j] < first {
        assert n <= |addrs| ==> addrs[..n][j] == addrs[j];
        return false;
      }
    }
    return true;
  }

  /** The body of the loop over inodes, for a nonempty file. */
  method RangeOfInode(img: seq<bv8>, ip: Inode, first: nat) returns (ok: bool)
    requires |ip.addrs| == NDIRECT + 1
    requires RunsOut(img, ip) ==> !AllIn(UsedBy(img, ip), first)
    ensures ok <==> AllIn(UsedBy(img, ip), first)
  {
    var blockNum := BlockNum(ip.size);
    if blockNum <= NDIRECT {
      ok := RangeOfRun(ip.addrs, blockNum, first);
    } else {
      ok := RangeOfRun(ip.addrs, NDIRECT + 1, first);
      assert ip.addrs[..NDIRECT + 1] == ip.addrs;
      AllInSplit(ip.addrs, Entries(img, ip), first);
      if ok {
        var indirect := ReadIndirect(img, ip.addrs[NDIRECT]);
        ok := RangeOfRun(indirect, blockNum - NDIRECT, first);
      }
    }
  }

  ghost predicate Accepts2(img: seq<bv8>)
    requires Sound(img)
  {
    PassesFor(img, ReadSuperblock(img))
  }

  ghost predicate PassesFor(img: seq<bv8>, sb: Superblock)
    requires SoundFor(img, sb)
  {
    AllIn(Concat(Pieces(img, sb, true)), FirstData(sb))
  }

  /** The body of the loop over inodes. */
  method RangeOfNumber(img: seq<bv8>, sb: Superblock, i: nat, first: nat) returns (ok: bool)
    requires 1 <= i <= sb.ninodes && InodeOnImage(img, i, sb)
    requires RunsOut(img, Rinode(img, i, sb)) ==> !AllIn(Pieces(img, sb, true)[i - 1], first)
    ensures ok <==> AllIn(Pieces(img, sb, true)[i - 1], first)
  {
    PieceOf(img, sb, i, true);
    var ip := Rinode(img, i, sb);
    if ip.size == 0 {
      return true;
    }
    ok := RangeOfInode(img, ip, first);
  }

  method InodeAddrDetect2(img: seq<bv8>) returns (ok: bool)
    requires Sound(img)
    ensures ok <==> Accepts2(img)
  {
    ok := RangeOfAll(img, ReadSuperblock(img));
  }

  /** The loop over inodes. */
  method RangeOfAll(img: seq<bv8>, sb: Superblock) returns (ok: bool)
    requires SoundFor(img, sb)
    ensures ok <==> PassesFor(img, sb)
  {
    var first := FirstData(sb);
    ghost var pieces, seen := Pieces(img, sb, true), [];
    for i := 1 to sb.ninodes + 1
      invariant seen == Concat(pieces[..i - 1]) && AllIn(seen, first)
    {
      ConcatTake(pieces, i - 1);
      AllInSplit(seen, pieces[i - 1], first);
      assert StopsBefore(img, sb, i);
      Reached(img, sb, i);
      ok := RangeOfNumber(img, sb, i, first);
      if !ok {
        if AllIn(Concat(pieces), first) {
          PieceAllIn(pieces, i - 1, first);
        }
        return false;
      }
      seen := seen + pieces[i - 1];
    }
    TakeAll(pieces);
    return true;
  }

  lemma AllInWeaken(s: seq<nat>, first: nat)
    requires AllIn(s, first)
    ensures AllIn(s, 0)
  {
  }

  /** Check 2 reaches only inodes on the image. */
  lemma Reached(img: seq<bv8>, sb: Superblock, i: nat)
    requires 1 <= i <= sb.ninodes && StopsBefore(img, sb, i)
    requires AllIn(Concat(Pieces(img, sb, true)[..i - 1]), FirstData(sb))
    ensures InodeOnImage(img, i, sb)
  {
    PieceIs(img, sb, i, sb.ninodes, true);
    ConcatTake(Pieces(img, sb, true), i - 1);
  }

  lemma InBounds(img: seq<bv8>, sb: Superblock, i: nat)
    requires SoundFor(img, sb) && PassesFor(img, sb) && 1 <= i <= sb.ninodes
    ensures InodeOnImage(img, i, sb) && !RunsOut(img, Rinode(img, i, sb))
  {
    assert StopsBefore(img, sb, i);
    ConcatPrefix(Pieces(img, sb, true), i);
    AllInPrefix(Concat(Pieces(img, sb, true)[..i]), Concat(Pieces(img, sb, true)), FirstData(sb));
  }

  /** Once check 2 has passed, the other checks meet only blocks of the image. */
  lemma PassedRange(img: seq<bv8>, sb: Superblock, i: nat)
    requires SoundFor(img, sb) && PassesFor(img, sb) && 1 <= i <= sb.ninodes
    ensures InodeOnImage(img, i, sb) && !RunsOut(img, Rinode(img, i, sb))
    ensures AllIn(Pieces(img, sb, false)[i - 1], 0)
  {
    InBounds(img, sb, i);
    PieceAllIn(Pieces(img, sb, true), i - 1, FirstData(sb));
    AllInWeaken(Pieces(img, sb, true)[i - 1], FirstData(sb));
    PieceAmongAll(img, sb, i - 1);
  }

  lemma AllInMembers(s: seq<nat>, first: nat)
    ensures AllIn(s, first) <==> forall a :: a in s ==> first <= a < FSSIZE
  {
    if forall a :: a in s ==> first <= a < FSSIZE {
      forall k | 0 <= k < |s| ensures first <= s[k] < FSSIZE {
        assert s[k] in s;
      }
    }
  }

  lemma WrapsBelowZero(nblocks: int)
    requires 0 <= nblocks < 0x1_0000_0000
    ensures nblocks <= 1000 ==> (1000 - nblocks) % 0x1_0000_0000 == 1000 - nblocks
    ensures nblocks > 1000 ==> (1000 - nblocks) % 0x1_0000_0000 == 0x1_0000_0000 + 1000 - nblocks
  {
  }

  /** In unsigned arithmetic the data blocks are the last `nblocks` of the 1000 blocks, none if there are more. */
  lemma DataRange(img: seq<bv8>, a: nat)
    requires 2 * BSIZE <= |img|
    ensures FirstData(ReadSuperblock(img)) <= a < FSSIZE
            <==> ReadSuperblock(img).nblocks <= 1000 <= a + ReadSuperblock(img).nblocks && a < 1000
  {
    WrapsBelowZero(ReadSuperblock(img).nblocks);
  }

  /** Check 2 passes exactly when every address that an inode uses, free inodes included, is one of the last `nblocks`
      blocks. */
  lemma RangeExactly(img: seq<bv8>)
    requires Sound(img)
    ensures var sb := ReadSuperblock(img);
      Accepts2(img) <==> forall a: nat :: SomeUses(img, sb, true, sb.ninodes, a) ==>
                           sb.nblocks <= 1000 <= a + sb.nblocks && a < 1000
  {
    var sb := ReadSuperblock(img);
    AllInMembers(Concat(Pieces(img, sb, true)), FirstData(sb));
    forall a: nat
      ensures a in Concat(Pieces(img, sb, true)) <==> SomeUses(img, sb, true, sb.ninodes, a)
      ensures FirstData(sb) <= a < FSSIZE <==> sb.nblocks <= 1000 <= a + sb.nblocks && a < 1000
    {
      PiecesExactly(img, sb, true, sb.ninodes, a);
      DataRange(img, a);
    }
  }

  // ---- check 5: every address in use is marked

  /** How many entries of `s` the bitmap marks free. */
  ghost function Unmarked(bitmap: seq<bv8>, s: seq<nat>): nat {
    if s == [] then 0
    else Unmarked(bitmap, s[..|s| - 1]) + if Marked(bitmap, s[|s| - 1]) then 0 else 1
  }

  lemma {:induction false} UnmarkedConcat(bitmap: seq<bv8>, a: seq<nat>, b: seq<nat>)
    ensures Unmarked(bitmap, a + b) == Unmarked(bitmap, a) + Unmarked(bitmap, b)
  {
    if b == [] {
      assert a + b == a;
    } else {
      assert (a + b)[..|a + b| - 1] == a + b[..|b| - 1];
      UnmarkedConcat(bitmap, a, b[..|b| - 1]);
    }
  }

  ghost predicate AllMarked(bitmap: seq<bv8>, used: seq<nat>) {
    forall a :: a in used ==> Marked(bitmap, a)
  }

  lemma {:induction false} UnmarkedNone(bitmap: seq<bv8>, s: seq<nat>)
    ensures Unmarked(bitmap, s) == 0 <==> AllMarked(bitmap, s)
  {
    if s == [] {
    } else {
      UnmarkedNone(bitmap, s[..|s| - 1]);
      assert s == s[..|s| - 1] + [s[|s| - 1]];
    }
  }

  ghost function UnmarkedAt(bitmap: seq<bv8>, s: seq<nat>): set<int> {
    set k | 0 <= k < |s| && !Marked(bitmap, s[k])
  }

  lemma UnmarkedSnoc(bitmap: seq<bv8>, s: seq<nat>)
    requires s != []
    ensures var n := |s| - 1;
      UnmarkedAt(bitmap, s) == UnmarkedAt(bitmap, s[..n]) + if Marked(bitmap, s[n]) then {} else {n}
  {
  }

  /** The count is the number of positions in `s` whose address the bitmap marks free. */
  lemma {:induction false} UnmarkedCounts(bitmap: seq<bv8>, s: seq<nat>)
    ensures Unmarked(bitmap, s) == |UnmarkedAt(bitmap, s)|
  {
    if s == [] {
      assert UnmarkedAt(bitmap, s) == {};
    } else {
      UnmarkedCounts(bitmap, s[..|s| - 1]);
      UnmarkedSnoc(bitmap, s);
    }
  }

  method ErrorsOfRun(addrs: seq<nat>, n: nat, bitmap: seq<bv8>) returns (errors: nat)
    requires n <= |addrs| && |bitmap| == BSIZE && AllIn(addrs[..n], 0)
    ensures errors == Unmarked(bitmap, addrs[..n])
  {
    errors := 0;
    for j := 0 to n
      invariant errors == Unmarked(bitmap, addrs[..j])
    {
      assert addrs[..n][j] == addrs[j];
      assert addrs[..j + 1][..j] == addrs[..j];
      if !BitmapExist(addrs[j], bitmap) {
        errors := errors + 1;
      }
    }
  }

  method ErrorsOfInode(img: seq<bv8>, ip: Inode, bitmap: seq<bv8>) returns (errors: nat)
    requires |ip.addrs| == NDIRECT + 1 && !RunsOut(img, ip)
    requires |bitmap| == BSIZE && AllIn(UsedBy(img, ip), 0)
    ensures errors == Unmarked(bitmap, UsedBy(img, ip))
  {
    var blockNum := BlockNum(ip.size);
    if blockNum <= NDIRECT {
      errors := ErrorsOfRun(ip.addrs, blockNum, bitmap);
    } else {
      assert ip.addrs[..NDIRECT + 1] == ip.addrs;
      AllInSplit(ip.addrs, Entries(img, ip), 0);
      errors := ErrorsOfRun(ip.addrs, NDIRECT + 1, bitmap);
      var indirect := ReadIndirect(img, ip.addrs[NDIRECT]);
      var more := ErrorsOfRun(indirect, blockNum - NDIRECT, bitmap);
      UnmarkedConcat(bitmap, ip.addrs, Entries(img, ip));
      errors := errors + more;
    }
  }

  function Bitmap(img: seq<bv8>): (bitmap: seq<bv8>)
    requires BitmapOnImage(img)
    ensures |bitmap| == BSIZE
  {
    Rsect(img, ReadSuperblock(img).bmapstart)
  }

  /** The body of the loop over inodes. */
  method ErrorsOfNumber(img: seq<bv8>, sb: Superblock, i: nat, bitmap: seq<bv8>) returns (errors: nat)
    requires SoundFor(img, sb) && PassesFor(img, sb) && 1 <= i <= sb.ninodes
    requires |bitmap| == BSIZE
    ensures errors == Unmarked(bitmap, Pieces(img, sb, false)[i - 1])
  {
    PassedRange(img, sb, i);
    PieceOf(img, sb, i, false);
    var ip := Rinode(img, i, sb);
    if ip.kind == 0 || ip.size == 0 {
      return 0;
    }
    errors := ErrorsOfInode(img, ip, bitmap);
  }

  /** The loop over inodes. */
  method ErrorsOfAll(img: seq<bv8>, sb: Superblock, bitmap: seq<bv8>, ghost pieces: seq<seq<nat>>)
    returns (errors: nat)
    requires SoundFor(img, sb) && PassesFor(img, sb) && |bitmap| == BSIZE
    requires pieces == Pieces(img, sb, false)
    ensures errors == Unmarked(bitmap, Concat(pieces))
  {
    ghost var seen := [];
    errors := 0;
    for i := 1 to sb.ninodes + 1
      invariant seen == Concat(pieces[..i - 1]) && errors == Unmarked(bitmap, seen)
    {
      var more := ErrorsOfNumber(img, sb, i, bitmap);
      ConcatTake(pieces, i - 1);
      UnmarkedConcat(bitmap, seen, pieces[i - 1]);
      seen := seen + pieces[i - 1];
      errors := errors + more;
    }
    TakeAll(pieces);
  }

  /** One error line for every use of a block that the bitmap marks free. */
  method BitmapCheck5(img: seq<bv8>) returns (errors: nat)
    requires Sound(img) && Accepts2(img) && BitmapOnImage(img)
    ensures errors == Unmarked(Bitmap(img), AllUsed(img))
  {
    var sb := ReadSuperblock(img);
    errors := ErrorsOfAll(img, sb, Bitmap(img), Pieces(img, sb, false));
  }

  // ---- check 6: every marked address is in use

  method ClearRun(addrs: seq<nat>, n: nat, buf: array<bv8>)
    requires n <= |addrs| && buf.Length == BSIZE && AllIn(addrs[..n], 0)
    modifies buf
    ensures forall a: nat :: Marked(buf[..], a) <==> Marked(old(buf[..]), a) && a !in addrs[..n]
  {
    for j := 0 to n
      invariant forall a: nat :: Marked(buf[..], a) <==> Marked(old(buf[..]), a) && a !in addrs[..j]
    {
      assert addrs[..n][j] == addrs[j];
      assert addrs[..j + 1] == addrs[..j] + [addrs[j]];
      BitmapDelete(addrs[j], buf);
    }
  }

  method ClearInode(img: seq<bv8>, ip: Inode, buf: array<bv8>)
    requires |ip.addrs| == NDIRECT + 1 && !RunsOut(img, ip)
    requires buf.Length == BSIZE && AllIn(UsedBy(img, ip), 0)
    modifies buf
    ensures forall a: nat :: Marked(buf[..], a) <==> Marked(old(buf[..]), a) && a !in UsedBy(img, ip)
  {
    var blockNum := BlockNum(ip.size);
    if blockNum <= NDIRECT {
      ClearRun(ip.addrs, blockNum, buf);
    } else {
      assert ip.addrs[..NDIRECT + 1] == ip.addrs;
      AllInSplit(ip.addrs, Entries(img, ip), 0);
      ClearRun(ip.addrs, NDIRECT + 1, buf);
      var indirect := ReadIndirect(img, ip.addrs[NDIRECT]);
      ClearRun(indirect, blockNum - NDIRECT, buf);
    }
  }

  /** Byte `j` at or after the byte of `start` is what the final test wants. */
  ghost predicate ByteOk(buf: seq<bv8>, j: nat, start: nat)
    requires j < |buf|
  {
    buf[j] == if j == start / 8 then Low(start % 8) else 0
  }

  ghost predicate ByteMarks(buf: seq<bv8>, j: nat, start: nat) {
    forall a :: 8 * j <= a < 8 * j + 8 ==> (Marked(buf, a) <==> a < start)
  }

  lemma ByteBits(buf: seq<bv8>, j: nat, start: nat)
    requires start / 8 <= j < |buf|
    ensures ByteOk(buf, j, start) <==> ByteMarks(buf, j, start)
  {
    var k := if j == start / 8 then start % 8 else 0;
    LowBits(buf[j], k);
    if ByteMarks(buf, j, start) {
      forall m | 0 <= m < 8 ensures Bit(buf[j], m) <==> m < k {
        assert (8 * j + m) / 8 == j && (8 * j + m) % 8 == m;
        assert Marked(buf, 8 * j + m) <==> 8 * j + m < start;
      }
    }
    if ByteOk(buf, j, start) {
      forall a | 8 * j <= a < 8 * j + 8 ensures Marked(buf, a) <==> a < start {
        assert a / 8 == j && Bit(buf[j], a % 8) <==> a % 8 < k;
      }
    }
  }

  /** From the byte of `start` on, the marks left over are those below `start`. */
  ghost predicate LeftOver(buf: seq<bv8>, start: nat) {
    forall a: nat :: start / 8 * 8 <= a < 8 * |buf| ==> (Marked(buf, a) <==> a < start)
  }

  lemma BytesLeftOver(buf: seq<bv8>, start: nat)
    ensures LeftOver(buf, start) <==> forall j :: start / 8 <= j < |buf| ==> ByteOk(buf, j, start)
  {
    forall j | start / 8 <= j < |buf| ensures ByteOk(buf, j, start) <==> ByteMarks(buf, j, start) {
      ByteBits(buf, j, start);
    }
    if forall j :: start / 8 <= j < |buf| ==> ByteOk(buf, j, start) {
      forall a: nat | start / 8 * 8 <= a < 8 * |buf| ensures Marked(buf, a) <==> a < start {
        assert ByteOk(buf, a / 8, start) && ByteMarks(buf, a / 8, start);
      }
    }
  }

  /** The tail of check 6: one byte against a mask, all later bytes against zero. */
  method OnlyMetadataLeft(buf: seq<bv8>, start: nat) returns (ok: bool)
    requires start / 8 < |buf|
    ensures ok <==> LeftOver(buf, start)
  {
    BytesLeftOver(buf, start);
    var index := start / 8;
    if buf[index] ^ Low(start % 8) != 0 {
      assert !ByteOk(buf, index, start);
      return false;
    }
    assert ByteOk(buf, index, start);
    for i := index + 1 to |buf|
      invariant forall j :: index <= j < i ==> ByteOk(buf, j, start)
    {
      if buf[i] != 0 {
        assert !ByteOk(buf, i, start);
        return false;
      }
      assert ByteOk(buf, i, start);
    }
    return true;
  }

  /** The bitmap with every block in use cleared, from the byte of `start` on, keeps exactly the marks of that byte's
      blocks below `start`. */
  ghost predicate OnlyMetadata(bitmap: seq<bv8>, used: seq<nat>, start: nat) {
    forall a: nat :: start / 8 * 8 <= a < 8 * BSIZE ==> (Marked(bitmap, a) && a !in used <==> a < start)
  }

  lemma LeftOverCleared(bitmap: seq<bv8>, used: seq<nat>, buf: seq<bv8>, start: nat)
    requires |buf| == BSIZE && forall a: nat :: Marked(buf, a) <==> Marked(bitmap, a) && a !in used
    ensures LeftOver(buf, start) <==> OnlyMetadata(bitmap, used, start)
  {
    if LeftOver(buf, start) {
      forall a: nat | start / 8 * 8 <= a < 8 * BSIZE ensures Marked(bitmap, a) && a !in used <==> a < start {
        assert Marked(buf, a) <==> a < start;
      }
    }
  }

  /** The first data block: the one after the bitmap. */
  function Start(img: seq<bv8>): nat
    requires 2 * BSIZE <= |img|
  {
    ReadSuperblock(img).bmapstart + 1
  }

  ghost predicate Accepts6(img: seq<bv8>)
    requires BitmapOnImage(img)
  {
    OnlyMetadata(Bitmap(img), AllUsed(img), Start(img))
  }

  /** The body of the loop over inodes. */
  method ClearNumber(img: seq<bv8>, sb: Superblock, i: nat, buf: array<bv8>)
    requires SoundFor(img, sb) && PassesFor(img, sb) && 1 <= i <= sb.ninodes
    requires buf.Length == BSIZE
    modifies buf
    ensures forall a: nat :: Marked(buf[..], a) <==>
      Marked(old(buf[..]), a) && a !in Pieces(img, sb, false)[i - 1]
  {
    PassedRange(img, sb, i);
    PieceOf(img, sb, i, false);
    var ip := Rinode(img, i, sb);
    if ip.kind != 0 && ip.size != 0 {
      ClearInode(img, ip, buf);
    }
  }

  /** The loop over inodes of check 6. */
  method ClearUsed(img: seq<bv8>, sb: Superblock, buf: array<bv8>, ghost pieces: seq<seq<nat>>)
    requires SoundFor(img, sb) && PassesFor(img, sb) && buf.Length == BSIZE && pieces == Pieces(img, sb, false)
    modifies buf
    ensures forall a: nat :: Marked(buf[..], a) <==> Marked(old(buf[..]), a) && a !in Concat(pieces)
  {
    ghost var seen := [];
    for i := 1 to sb.ninodes + 1
      invariant seen == Concat(pieces[..i - 1])
      invariant forall a: nat :: Marked(buf[..], a) <==> Marked(old(buf[..]), a) && a !in seen
    {
      ClearNumber(img, sb, i, buf);
      ConcatTake(pieces, i - 1);
      seen := seen + pieces[i - 1];
    }
    TakeAll(pieces);
  }

  method BitmapCheck6(img: seq<bv8>) returns (ok: bool)
    requires Sound(img) && Accepts2(img) && BitmapOnImage(img) && Start(img) < 8 * BSIZE
    ensures ok <==> Accepts6(img)
  {
    var bytes := Bitmap(img);
    var buf := new bv8[BSIZE](k requires 0 <= k < BSIZE => bytes[k]);
    assert buf[..] == bytes;
    var sb := ReadSuperblock(img);
    ClearUsed(img, sb, buf, Pieces(img, sb, false));
    var start := Start(img);
    ok := OnlyMetadataLeft(buf[..], start);
    LeftOverCleared(bytes, AllUsed(img), buf[..], start);
  }

  // ---- checks 5 and 6 together

  /** The data part of the bitmap says exactly which blocks allocated inodes use. */
  ghost predicate BitmapExact(bitmap: seq<bv8>, used: seq<nat>, start: nat) {
    forall a: nat :: start <= a < 8 * BSIZE ==> (Marked(bitmap, a) <==> a in used)
  }

  /** The metadata blocks that share a byte with the first data block are marked. */
  ghost predicate MetadataMarked(bitmap: seq<bv8>, start: nat) {
    forall a: nat :: start / 8 * 8 <= a < start ==> Marked(bitmap, a)
  }

  ghost predicate AllFrom(used: seq<nat>, start: nat) {
    forall a :: a in used ==> start <= a < 8 * BSIZE
  }

  lemma AcceptExactly(bitmap: seq<bv8>, used: seq<nat>, start: nat)
    requires AllFrom(used, start) && start < 8 * BSIZE
    ensures AllMarked(bitmap, used) && OnlyMetadata(bitmap, used, start) <==>
            BitmapExact(bitmap, used, start) && MetadataMarked(bitmap, start)
  {
    if AllMarked(bitmap, used) && OnlyMetadata(bitmap, used, start) {
      forall a: nat | start <= a < 8 * BSIZE ensures Marked(bitmap, a) <==> a in used {
      }
      forall a: nat | start / 8 * 8 <= a < start ensures Marked(bitmap, a) {
      }
    }
  }

  /** The data blocks are the last `nblocks` of the image and follow the bitmap block. */
  ghost predicate DataFollowsBitmap(sb: Superblock) {
    sb.bmapstart + 1 + sb.nblocks == 1000
  }

  lemma FirstIsStart(sb: Superblock)
    requires DataFollowsBitmap(sb)
    ensures FirstData(sb) == sb.bmapstart + 1 <= FSSIZE
  {
    assert 0 <= FSSIZE - sb.nblocks < 0x1_0000_0000;
  }

  lemma UsedFrom(img: seq<bv8>)
    requires Sound(img) && Accepts2(img) && DataFollowsBitmap(ReadSuperblock(img))
    ensures AllFrom(AllUsed(img), Start(img)) && Start(img) < 8 * BSIZE
  {
    FirstIsStart(ReadSuperblock(img));
    var used, start := AllUsed(img), Start(img);
    var all := Concat(Pieces(img, ReadSuperblock(img), true));
    forall a | a in used ensures start <= a < 8 * BSIZE {
      UsedAmongAll(img, ReadSuperblock(img), a);
      var k :| 0 <= k < |all| && all[k] == a;
    }
  }

  lemma BitmapExactFor(img: seq<bv8>)
    requires Sound(img) && Accepts2(img) && BitmapOnImage(img) && DataFollowsBitmap(ReadSuperblock(img))
    ensures Unmarked(Bitmap(img), AllUsed(img)) == 0 && Accepts6(img) <==>
            BitmapExact(Bitmap(img), AllUsed(img), Start(img)) && MetadataMarked(Bitmap(img), Start(img))
  {
    var bitmap, used, start := Bitmap(img), AllUsed(img), Start(img);
    UsedFrom(img);
    UnmarkedNone(bitmap, used);
    AcceptExactly(bitmap, used, start);
  }

  /** The bitmap on the image says that block `a` is in use. */
  ghost predicate MarkedOn(img: seq<bv8>, sb: Superblock, a: nat) {
    512 * sb.bmapstart + a / 8 < |img| && Bit(img[512 * sb.bmapstart + a / 8], a % 8)
  }

  lemma MarkIsOnImage(img: seq<bv8>, a: nat)
    requires BitmapOnImage(img) && a < 4096
    ensures Marked(Bitmap(img), a) <==> MarkedOn(img, ReadSuperblock(img), a)
  {
  }

  lemma UsedBySome(img: seq<bv8>, a: nat)
    requires 2 * BSIZE <= |img|
    ensures a in AllUsed(img) <==> SomeUses(img, ReadSuperblock(img), false, ReadSuperblock(img).ninodes, a)
  {
    PiecesExactly(img, ReadSuperblock(img), false, ReadSuperblock(img).ninodes, a);
  }

  lemma ExactOnImage(img: seq<bv8>)
    requires BitmapOnImage(img)
    ensures var sb, first := ReadSuperblock(img), Start(img);
      BitmapExact(Bitmap(img), AllUsed(img), first) <==>
      forall a: nat :: first <= a < 4096 ==> (MarkedOn(img, sb, a) <==> SomeUses(img, sb, false, sb.ninodes, a))
  {
    var sb := ReadSuperblock(img);
    forall a: nat | a < 4096
      ensures a in AllUsed(img) <==> SomeUses(img, sb, false, sb.ninodes, a)
      ensures Marked(Bitmap(img), a) <==> MarkedOn(img, sb, a)
    {
      UsedBySome(img, a);
      MarkIsOnImage(img, a);
    }
  }

  lemma MetadataOnImage(img: seq<bv8>)
    requires BitmapOnImage(img) && Start(img) <= 4096
    ensures var sb, first := ReadSuperblock(img), Start(img);
      MetadataMarked(Bitmap(img), first) <==> forall a: nat :: first / 8 * 8 <= a < first ==> MarkedOn(img, sb, a)
  {
    forall a: nat | a < 4096 ensures Marked(Bitmap(img), a) <==> MarkedOn(img, ReadSuperblock(img), a) {
      MarkIsOnImage(img, a);
    }
  }

  /** Once check 2 has passed on an image whose data blocks follow the bitmap block, checks 5 and 6 report nothing
      exactly when the bitmap is right: of the data blocks just those are marked that an allocated inode uses, and of
      the blocks before them those that share their first byte. */
  lemma BitmapExactly(img: seq<bv8>)
    requires Sound(img) && Accepts2(img) && BitmapOnImage(img) && DataFollowsBitmap(ReadSuperblock(img))
    ensures var sb, first := ReadSuperblock(img), 1000 - ReadSuperblock(img).nblocks;
      Unmarked(Bitmap(img), AllUsed(img)) == 0 && Accepts6(img) <==>
        && (forall a: nat :: first <= a < 4096 ==> (MarkedOn(img, sb, a) <==> SomeUses(img, sb, false, sb.ninodes, a)))
        && (forall a: nat :: first / 8 * 8 <= a < first ==> MarkedOn(img, sb, a))
  {
    BitmapExactFor(img);
    ExactOnImage(img);
    MetadataOnImage(img);
  }

  // ---- checks 7 and 8: no address is used twice

  ghost predicate Distinct(s: seq<nat>) {
    forall i, j :: 0 <= i < j < |s| ==> s[i] != s[j]
  }

  /** `count` is positive exactly at the addresses seen. */
  ghost predicate Counts(count: seq<nat>, seen: seq<nat>) {
    && |count| == FSSIZE
    && Distinct(seen)
    && forall a :: 0 <= a < FSSIZE ==> (count[a] > 0 <==> a in seen)
  }

  lemma SeeOne(count: seq<nat>, seen: seq<nat>, a: nat, weight: nat)
    requires Counts(count, seen) && a < FSSIZE && weight > 0
    ensures a !in seen ==> Counts(count[a := count[a] + weight], seen + [a])
    ensures a in seen ==> !Distinct(seen + [a])
  {
    var after := seen + [a];
    if a in seen {
      var i :| 0 <= i < |seen| && seen[i] == a;
      assert after[i] == after[|seen|];
    }
  }

  lemma DistinctPrefix(s: seq<nat>, t: seq<nat>)
    requires s <= t && !Distinct(s)
    ensures !Distinct(t)
  {
    var i, j :| 0 <= i < j < |s| && s[i] == s[j];
    assert t[i] == t[j];
  }

  /** Direct addresses count 1 and indirect ones 2; the first repetition ends the check. */
  method CountRun(addrs: seq<nat>, n: nat, weight: nat, count: array<nat>, ghost seen: seq<nat>) returns (ok: bool)
    requires n <= |addrs| && weight > 0 && AllIn(addrs[..n], 0) && Counts(count[..], seen)
    modifies count
    ensures ok ==> Counts(count[..], seen + addrs[..n])
    ensures !ok ==> !Distinct(seen + addrs[..n])
  {
    assert seen + addrs[..0] == seen;
    for j := 0 to n
      invariant Counts(count[..], seen + addrs[..j])
    {
      ghost var now := seen + addrs[..j];
      assert addrs[..n][j] == addrs[j];
      assert seen + addrs[..j + 1] == now + [addrs[j]];
      SeeOne(count[..], now, addrs[j], weight);
      if count[addrs[j]] > 0 {
        DistinctPrefix(now + [addrs[j]], seen + addrs[..n]);
        return false;
      }
      ghost var before := count[..];
      count[addrs[j]] := count[addrs[j]] + weight;
      assert count[..] == before[addrs[j] := before[addrs[j]] + weight];
    }
    return true;
  }

  method CountInode(img: seq<bv8>, ip: Inode, count: array<nat>, ghost seen: seq<nat>) returns (ok: bool)
    requires |ip.addrs| == NDIRECT + 1 && !RunsOut(img, ip)
    requires AllIn(UsedBy(img, ip), 0) && Counts(count[..], seen)
    modifies count
    ensures ok ==> Counts(count[..], seen + UsedBy(img, ip))
    ensures !ok ==> !Distinct(seen + UsedBy(img, ip))
  {
    var blockNum := BlockNum(ip.size);
    if blockNum <= NDIRECT {
      ok := CountRun(ip.addrs, blockNum, 1, count, seen);
    } else {
      assert ip.addrs[..NDIRECT + 1] == ip.addrs;
      AllInSplit(ip.addrs, Entries(img, ip), 0);
      ghost var entries := Entries(img, ip);
      assert seen + UsedBy(img, ip) == seen + ip.addrs + entries;
      ok := CountRun(ip.addrs, NDIRECT + 1, 1, count, seen);
      if ok {
        var indirect := ReadIndirect(img, ip.addrs[NDIRECT]);
        ok := CountRun(indirect, blockNum - NDIRECT, 2, count, seen + ip.addrs);
      } else {
        DistinctPrefix(seen + ip.addrs, seen + ip.addrs + entries);
      }
    }
  }

  /** The body of the loop over inodes. */
  method CountNumber(img: seq<bv8>, sb: Superblock, i: nat, count: array<nat>, ghost seen: seq<nat>)
    returns (ok: bool)
    requires SoundFor(img, sb) && PassesFor(img, sb) && 1 <= i <= sb.ninodes
    requires Counts(count[..], seen)
    modifies count
    ensures ok ==> Counts(count[..], seen + Pieces(img, sb, false)[i - 1])
    ensures !ok ==> !Distinct(seen + Pieces(img, sb, false)[i - 1])
  {
    PassedRange(img, sb, i);
    PieceOf(img, sb, i, false);
    var ip := Rinode(img, i, sb);
    if ip.kind == 0 || ip.size == 0 {
      assert seen + [] == seen;
      return true;
    }
    ok := CountInode(img, ip, count, seen);
  }

  lemma RepetitionStays(pieces: seq<seq<nat>>, i: nat)
    requires i < |pieces| && !Distinct(Concat(pieces[..i]) + pieces[i])
    ensures !Distinct(Concat(pieces))
  {
    ConcatTake(pieces, i);
    ConcatPrefix(pieces, i + 1);
    DistinctPrefix(Concat(pieces[..i + 1]), Concat(pieces));
  }

  /** The array cleared by `memset`. */
  method NewCounts() returns (count: array<nat>)
    ensures fresh(count) && Counts(count[..], [])
  {
    count := new nat[FSSIZE](_ => 0);
  }

  /** The loop over inodes. */
  method CountAll(img: seq<bv8>, sb: Superblock, count: array<nat>, ghost pieces: seq<seq<nat>>) returns (ok: bool)
    requires SoundFor(img, sb) && PassesFor(img, sb) && pieces == Pieces(img, sb, false)
    requires Counts(count[..], [])
    modifies count
    ensures ok <==> Distinct(Concat(pieces))
  {
    ghost var seen := [];
    for i := 1 to sb.ninodes + 1
      invariant seen == Concat(pieces[..i - 1]) && Counts(count[..], seen)
    {
      ok := CountNumber(img, sb, i, count, seen);
      if !ok {
        RepetitionStays(pieces, i - 1);
        return false;
      }
      ConcatTake(pieces, i - 1);
      seen := seen + pieces[i - 1];
    }
    TakeAll(pieces);
    return true;
  }

  /** The check passes exactly when no block is used twice, within an inode or across inodes. */
  method AddressCheck78(img: seq<bv8>) returns (ok: bool)
    requires Sound(img) && Accepts2(img) && BitmapOnImage(img)
    ensures ok <==> Distinct(AllUsed(img))
  {
    var sb := ReadSuperblock(img);
    var count := NewCounts();
    ok := CountAll(img, sb, count, Pieces(img, sb, false));
  }

  ghost predicate Disjoint(s: seq<nat>, t: seq<nat>) {
    forall a :: !(a in s && a in t)
  }

  lemma DistinctParts(s: seq<nat>, t: seq<nat>)
    requires Distinct(s + t)
    ensures Distinct(s) && Distinct(t) && Disjoint(s, t)
  {
    var u := s + t;
    forall i, j | 0 <= i < j < |s| ensures s[i] != s[j] {
      assert u[i] != u[j];
    }
    forall i, j | 0 <= i < j < |t| ensures t[i] != t[j] {
      assert u[|s| + i] != u[|s| + j];
    }
    forall a | a in s ensures a !in t {
      var i :| 0 <= i < |s| && s[i] == a;
      forall j | 0 <= j < |t| ensures t[j] != a {
        assert u[i] != u[|s| + j];
      }
    }
  }

  lemma DistinctSplit(s: seq<nat>, t: seq<nat>)
    ensures Distinct(s + t) <==> Distinct(s) && Distinct(t) && Disjoint(s, t)
  {
    var u := s + t;
    if Distinct(u) {
      DistinctParts(s, t);
    }
    if Distinct(s) && Distinct(t) && Disjoint(s, t) {
      forall i, j | 0 <= i < j < |u| ensures u[i] != u[j] {
        if i < |s| <= j {
          assert u[i] in s && u[j] in t;
        }
      }
    }
  }

  ghost predicate DisjointFrom(pieces: seq<seq<nat>>, t: seq<nat>) {
    forall i :: 0 <= i < |pieces| ==> Disjoint(pieces[i], t)
  }

  lemma {:induction false} ConcatDisjoint(pieces: seq<seq<nat>>, t: seq<nat>)
    ensures Disjoint(Concat(pieces), t) <==> DisjointFrom(pieces, t)
  {
    if pieces == [] {
    } else {
      var n := |pieces| - 1;
      ConcatDisjoint(pieces[..n], t);
      assert Disjoint(Concat(pieces), t) <==> Disjoint(Concat(pieces[..n]), t) && Disjoint(pieces[n], t);
      assert DisjointFrom(pieces, t) <==> DisjointFrom(pieces[..n], t) && Disjoint(pieces[n], t);
    }
  }

  ghost predicate NoneShared(img: seq<bv8>, sb: Superblock, i: nat, j: nat) {
    forall a: nat :: !(UsesBy(img, sb, false, i, a) && UsesBy(img, sb, false, j, a))
  }

  /** Inode `j` uses no address twice, and none that an earlier inode uses. */
  ghost predicate OnlyOnce(img: seq<bv8>, sb: Superblock, j: nat) {
    Distinct(UsedByInode(img, sb, j, false)) && forall i: nat :: 1 <= i < j ==> NoneShared(img, sb, i, j)
  }

  lemma PieceDisjoint(img: seq<bv8>, sb: Superblock, s: seq<nat>, i: nat, t: seq<nat>, j: nat)
    requires 1 <= i && s == UsedByInode(img, sb, i, false)
    requires 1 <= j && t == UsedByInode(img, sb, j, false)
    ensures Disjoint(s, t) <==> NoneShared(img, sb, i, j)
  {
    forall a: nat
      ensures a in s <==> UsesBy(img, sb, false, i, a)
      ensures a in t <==> UsesBy(img, sb, false, j, a)
    {
      PieceExactly(img, sb, false, i, a);
      PieceExactly(img, sb, false, j, a);
    }
  }

  lemma PieceAt(img: seq<bv8>, sb: Superblock, front: seq<seq<nat>>, k: nat)
    requires front == PiecesTo(img, sb, false, |front|) && k < |front|
    ensures front[k] == UsedByInode(img, sb, k + 1, false)
  {
    PieceIs(img, sb, k + 1, |front|, false);
  }

  lemma PiecesDisjoint(img: seq<bv8>, sb: Superblock, front: seq<seq<nat>>, last: seq<nat>, n: nat)
    requires front == PiecesTo(img, sb, false, |front|) && n == |front| + 1 && last == UsedByInode(img, sb, n, false)
    ensures DisjointFrom(front, last) <==> forall i: nat :: 1 <= i < n ==> NoneShared(img, sb, i, n)
  {
    forall k | 0 <= k < |front| ensures Disjoint(front[k], last) <==> NoneShared(img, sb, k + 1, n) {
      PieceAt(img, sb, front, k);
      PieceDisjoint(img, sb, front[k], k + 1, last, n);
    }
    if DisjointFrom(front, last) {
      forall i: nat | 1 <= i < n ensures NoneShared(img, sb, i, n) {
        assert Disjoint(front[i - 1], last);
      }
    }
  }

  lemma LastOnlyOnce(img: seq<bv8>, sb: Superblock, n: nat)
    requires n > 0
    ensures Distinct(Concat(PiecesTo(img, sb, false, n))) <==>
            Distinct(Concat(PiecesTo(img, sb, false, n - 1))) && OnlyOnce(img, sb, n)
  {
    var front, last := PiecesTo(img, sb, false, n - 1), UsedByInode(img, sb, n, false);
    ConcatNext(img, sb, false, n);
    DistinctSplit(Concat(front), last);
    ConcatDisjoint(front, last);
    PiecesDisjoint(img, sb, front, last, n);
  }

  lemma {:induction false} DistinctMeans(img: seq<bv8>, sb: Superblock, n: nat, j: nat)
    requires Distinct(Concat(PiecesTo(img, sb, false, n))) && 1 <= j <= n
    ensures OnlyOnce(img, sb, j)
  {
    LastOnlyOnce(img, sb, n);
    if j == n {
    } else {
      DistinctMeans(img, sb, n - 1, j);
    }
  }

  lemma {:induction false} RepetitionMeans(img: seq<bv8>, sb: Superblock, n: nat) returns (j: nat)
    requires !Distinct(Concat(PiecesTo(img, sb, false, n)))
    ensures 1 <= j <= n && !OnlyOnce(img, sb, j)
  {
    LastOnlyOnce(img, sb, n);
    if OnlyOnce(img, sb, n) {
      j := RepetitionMeans(img, sb, n - 1);
    } else {
      j := n;
    }
  }

  /** So check 7/8 passes exactly when no allocated inode uses an address twice and no two of them use the same one. */
  lemma NoBlockTwice(img: seq<bv8>)
    requires 2 * BSIZE <= |img|
    ensures var sb := ReadSuperblock(img);
      Distinct(AllUsed(img)) <==> forall j: nat :: 1 <= j <= sb.ninodes ==> OnlyOnce(img, sb, j)
  {
    var sb := ReadSuperblock(img);
    if Distinct(AllUsed(img)) {
      forall j: nat | 1 <= j <= sb.ninodes ensures OnlyOnce(img, sb, j) {
        DistinctMeans(img, sb, sb.ninodes, j);
      }
    } else {
      var j := RepetitionMeans(img, sb, sb.ninodes);
    }
  }

  // ---- all checks together

  function Elements(s: seq<nat>): set<nat> {
    set a | a in s
  }

  lemma {:induction false} DistinctElements(s: seq<nat>)
    requires Distinct(s)
    ensures |Elements(s)| == |s|
  {
    if s == [] {
    } else {
      var init, last := s[..|s| - 1], s[|s| - 1];
      DistinctElements(init);
      assert s == init + [last];
      assert Elements(s) == Elements(init) + {last};
    }
  }

  /** The data blocks that the bitmap marks. */
  ghost function MarkedFrom(bitmap: seq<bv8>, start: nat): set<nat> {
    set a: nat | start <= a < 8 * BSIZE && Marked(bitmap, a)
  }

  lemma MarkedAreUsed(bitmap: seq<bv8>, used: seq<nat>, start: nat)
    requires BitmapExact(bitmap, used, start) && AllFrom(used, start)
    ensures MarkedFrom(bitmap, start) == Elements(used)
  {
  }

  /** An image that passes checks 2, 5, 6 and 7/8 accounts for every marked data block once: there are as many of them
      as addresses in the files. */
  lemma MarkedBlocksCounted(img: seq<bv8>)
    requires Sound(img) && Accepts2(img) && BitmapOnImage(img) && DataFollowsBitmap(ReadSuperblock(img))
    requires Unmarked(Bitmap(img), AllUsed(img)) == 0 && Accepts6(img) && Distinct(AllUsed(img))
    ensures |MarkedFrom(Bitmap(img), Start(img))| == |AllUsed(img)|
  {
    BitmapExactFor(img);
    UsedFrom(img);
    MarkedAreUsed(Bitmap(img), AllUsed(img), Start(img));
    DistinctElements(AllUsed(img));
  }
}
