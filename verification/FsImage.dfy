/** filesystems-checker/fs.h and the readers of filesystems-checker/xchecker.c: an image as bytes, its superblock, its
    inodes, and the sequence of block addresses an inode uses. */
module FsImage {

  const BSIZE := 512
  const NDIRECT := 12
  const NINDIRECT := 128
  const IPB := 8
  const FSSIZE := 1000

  /** Little-endian 16-bit and 32-bit fields. */
  function Ushort(buf: seq<bv8>, at: nat): nat
    requires at + 2 <= |buf|
  {
    buf[at] as nat + 0x100 * buf[at + 1] as nat
  }

  function Uint(buf: seq<bv8>, at: nat): nat
    requires at + 4 <= |buf|
  {
    buf[at] as nat + 0x100 * buf[at + 1] as nat + 0x1_0000 * buf[at + 2] as nat + 0x100_0000 * buf[at + 3] as nat
  }

  /** `n` consecutive 32-bit fields. */
  function Uints(buf: seq<bv8>, at: nat, n: nat): (words: seq<nat>)
    requires at + 4 * n <= |buf|
    ensures |words| == n
  {
    seq(n, k requires 0 <= k < n => Uint(buf, at + 4 * k))
  }

  function Rsect(img: seq<bv8>, sec: nat): (buf: seq<bv8>)
    requires BSIZE * sec + BSIZE <= |img|
    ensures |buf| == BSIZE
  {
    img[BSIZE * sec..BSIZE * sec + BSIZE]
  }

  datatype Superblock = Superblock(nblocks: nat, ninodes: nat, inodestart: nat, bmapstart: nat)

  function ReadSuperblock(img: seq<bv8>): Superblock
    requires 2 * BSIZE <= |img|
  {
    var buf := Rsect(img, 1);
    Superblock(Uint(buf, 4), Uint(buf, 8), Uint(buf, 20), Uint(buf, 24))
  }

  /** `kind` is the field `type`; only its being zero (free) matters to these checks. */
  datatype Inode = Inode(kind: nat, size: nat, addrs: seq<nat>)

  function InodeAt(buf: seq<bv8>, at: nat): (ip: Inode)
    requires at + 64 <= |buf|
    ensures |ip.addrs| == NDIRECT + 1
  {
    Inode(Ushort(buf, at), Uint(buf, at + 8), Uints(buf, at + 12, NDIRECT + 1))
  }

  ghost predicate InodeOnImage(img: seq<bv8>, inum: nat, sb: Superblock) {
    BSIZE * (inum / IPB + sb.inodestart) + BSIZE <= |img|
  }

  function Rinode(img: seq<bv8>, inum: nat, sb: Superblock): (ip: Inode)
    requires InodeOnImage(img, inum, sb)
    ensures |ip.addrs| == NDIRECT + 1
  {
    InodeAt(Rsect(img, inum / IPB + sb.inodestart), 64 * (inum % IPB))
  }

  lemma SectorWord(img: seq<bv8>, sec: nat, at: nat)
    requires BSIZE * sec + BSIZE <= |img| && at + 4 <= BSIZE
    ensures Uint(Rsect(img, sec), at) == Uint(img, BSIZE * sec + at)
    ensures Ushort(Rsect(img, sec), at) == Ushort(img, BSIZE * sec + at)
  {
  }

  lemma SectorWords(img: seq<bv8>, sec: nat, at: nat, n: nat)
    requires BSIZE * sec + BSIZE <= |img| && at + 4 * n <= BSIZE
    ensures Uints(Rsect(img, sec), at, n) == Uints(img, BSIZE * sec + at, n)
  {
    var words := Uints(Rsect(img, sec), at, n);
    forall k | 0 <= k < |words| ensures words[k] == Uint(img, BSIZE * sec + at + 4 * k) {
      SectorWord(img, sec, at + 4 * k);
    }
  }

  lemma SectorInode(img: seq<bv8>, sec: nat, at: nat)
    requires BSIZE * sec + BSIZE <= |img| && at + 64 <= BSIZE
    ensures InodeAt(Rsect(img, sec), at) == InodeAt(img, BSIZE * sec + at)
  {
    SectorWord(img, sec, at);
    SectorWord(img, sec, at + 8);
    SectorWords(img, sec, at + 12, NDIRECT + 1);
  }

  /** The inodes tile the inode area: `rinode` reads the 64 bytes at 64 times the number, counted from its start. */
  lemma RinodeTiles(img: seq<bv8>, inum: nat, sb: Superblock)
    requires InodeOnImage(img, inum, sb)
    ensures Rinode(img, inum, sb) == InodeAt(img, BSIZE * sb.inodestart + 64 * inum)
  {
    SectorInode(img, inum / IPB + sb.inodestart, 64 * (inum % IPB));
  }

  // ---- the addresses in use

  /** The number of blocks that hold `size` bytes, the last one perhaps in part. */
  function BlockNum(size: nat): (n: nat)
    ensures size <= 512 * n && (size > 0 ==> 512 * n < size + 512)
  {
    if size % BSIZE == 0 then size / BSIZE else size / BSIZE + 1
  }

  /** The indirect block, if it is on the image. */
  function Indirect(img: seq<bv8>, block: nat): (words: seq<nat>)
    ensures |words| <= NINDIRECT
  {
    if BSIZE * block + BSIZE <= |img| then Uints(Rsect(img, block), 0, NINDIRECT) else []
  }

  /** The file needs an indirect block off the image, or is longer than an inode can hold: reading its addresses to the
      end leaves the memory of the checker. */
  predicate RunsOut(img: seq<bv8>, ip: Inode)
    requires |ip.addrs| == NDIRECT + 1
  {
    NDIRECT < BlockNum(ip.size) && |Indirect(img, ip.addrs[NDIRECT])| < BlockNum(ip.size) - NDIRECT
  }

  /** The entries of the indirect block that a large file uses, as far as there are any. */
  function Entries(img: seq<bv8>, ip: Inode): (entries: seq<nat>)
    requires |ip.addrs| == NDIRECT + 1 && NDIRECT < BlockNum(ip.size)
    ensures !RunsOut(img, ip) ==> |entries| == BlockNum(ip.size) - NDIRECT
  {
    var words := Indirect(img, ip.addrs[NDIRECT]);
    if RunsOut(img, ip) then words else words[..BlockNum(ip.size) - NDIRECT]
  }

  /** The blocks of a file in the order the checks visit them: direct blocks, or all direct blocks, the pointer to the
      indirect block and the entries of that block. */
  function UsedBy(img: seq<bv8>, ip: Inode): seq<nat>
    requires |ip.addrs| == NDIRECT + 1
  {
    if BlockNum(ip.size) <= NDIRECT then ip.addrs[..BlockNum(ip.size)] else ip.addrs + Entries(img, ip)
  }

  /** What inode `i` contributes, if it is on the image; check 2 looks at free inodes too, the others do not. */
  ghost function UsedByInode(img: seq<bv8>, sb: Superblock, i: nat, free: bool): seq<nat> {
    if !InodeOnImage(img, i, sb) then []
    else
      var ip := Rinode(img, i, sb);
      if (ip.kind == 0 && !free) || ip.size == 0 then [] else UsedBy(img, ip)
  }

  /** The contributions of inodes 1 to `n` in order. */
  ghost function PiecesTo(img: seq<bv8>, sb: Superblock, free: bool, n: nat): (pieces: seq<seq<nat>>)
    ensures |pieces| == n
  {
    if n == 0 then [] else PiecesTo(img, sb, free, n - 1) + [UsedByInode(img, sb, n, free)]
  }

  ghost function Pieces(img: seq<bv8>, sb: Superblock, free: bool): (pieces: seq<seq<nat>>)
    ensures |pieces| == sb.ninodes
  {
    PiecesTo(img, sb, free, sb.ninodes)
  }

  /** All addresses used by allocated inodes, in order and with repetitions. */
  ghost function AllUsed(img: seq<bv8>): seq<nat>
    requires 2 * BSIZE <= |img|
  {
    Concat(Pieces(img, ReadSuperblock(img), false))
  }

  lemma {:induction false} PieceIs(img: seq<bv8>, sb: Superblock, i: nat, n: nat, free: bool)
    requires 1 <= i <= n
    ensures PiecesTo(img, sb, free, n)[i - 1] == UsedByInode(img, sb, i, free)
    decreases n
  {
    if i == n {
      LastPiece(PiecesTo(img, sb, free, n - 1), UsedByInode(img, sb, n, free));
    } else {
      PieceIs(img, sb, i, n - 1, free);
      EarlierPiece(PiecesTo(img, sb, free, n - 1), UsedByInode(img, sb, n, free), i - 1);
    }
  }

  lemma LastPiece(front: seq<seq<nat>>, last: seq<nat>)
    ensures (front + [last])[|front|] == last
  {
  }

  /** A further piece does not move the earlier ones. */
  lemma EarlierPiece(front: seq<seq<nat>>, last: seq<nat>, k: nat)
    requires k < |front|
    ensures (front + [last])[k] == front[k]
  {
  }

  lemma PieceAmongAll(img: seq<bv8>, sb: Superblock, i: nat)
    requires i < sb.ninodes
    ensures Pieces(img, sb, false)[i] == [] || Pieces(img, sb, false)[i] == Pieces(img, sb, true)[i]
  {
    PieceIs(img, sb, i + 1, sb.ninodes, false);
    PieceIs(img, sb, i + 1, sb.ninodes, true);
  }

  /** Every address of an allocated inode is one of those check 2 looks at. */
  lemma UsedAmongAll(img: seq<bv8>, sb: Superblock, a: nat)
    requires a in Concat(Pieces(img, sb, false))
    ensures a in Concat(Pieces(img, sb, true))
  {
    var p, q := Pieces(img, sb, false), Pieces(img, sb, true);
    forall i | 0 <= i < |p| ensures p[i] == [] || p[i] == q[i] {
      PieceAmongAll(img, sb, i);
    }
    ConcatMonotone(p, q, a);
  }

  // ---- concatenation

  function Concat(pieces: seq<seq<nat>>): seq<nat> {
    if pieces == [] then [] else Concat(pieces[..|pieces| - 1]) + pieces[|pieces| - 1]
  }

  lemma TakeAll(pieces: seq<seq<nat>>)
    ensures pieces[..|pieces|] == pieces
  {
  }

  lemma ConcatTake(pieces: seq<seq<nat>>, i: nat)
    requires i < |pieces|
    ensures Concat(pieces[..i + 1]) == Concat(pieces[..i]) + pieces[i]
  {
    assert pieces[..i + 1][..i] == pieces[..i];
  }

  lemma {:induction false} ConcatPrefix(pieces: seq<seq<nat>>, i: nat)
    requires i <= |pieces|
    ensures Concat(pieces[..i]) <= Concat(pieces)
    decreases |pieces| - i
  {
    if i < |pieces| {
      ConcatTake(pieces, i);
      ConcatPrefix(pieces, i + 1);
    } else {
      assert pieces[..i] == pieces;
    }
  }

  lemma {:induction false} ConcatMonotone(p: seq<seq<nat>>, q: seq<seq<nat>>, a: nat)
    requires |p| == |q| && a in Concat(p)
    requires forall i :: 0 <= i < |p| ==> p[i] == [] || p[i] == q[i]
    ensures a in Concat(q)
  {
    var n := |p| - 1;
    if a in p[n] {
    } else {
      ConcatMonotone(p[..n], q[..n], a);
    }
  }
}
