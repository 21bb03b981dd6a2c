/** filesystems-checker/fs.h: where the fields of the superblock, of an inode and of an indirect block lie on the image,
    and which addresses belong to the bytes of a file. */
module FsLayout {
  import opened FsImage

  // ---- the structures on disk

  /** The four bytes at `at` are the little-endian digits of `v`. */
  ghost predicate HoldsWord(buf: seq<bv8>, at: nat, v: nat) {
    && at + 4 <= |buf| && v < 0x1_0000_0000
    && buf[at] as nat == v % 0x100 && buf[at + 1] as nat == v / 0x100 % 0x100
    && buf[at + 2] as nat == v / 0x100 / 0x100 % 0x100 && buf[at + 3] as nat == v / 0x100 / 0x100 / 0x100
  }

  ghost predicate HoldsHalf(buf: seq<bv8>, at: nat, v: nat) {
    at + 2 <= |buf| && v < 0x1_0000 && buf[at] as nat == v % 0x100 && buf[at + 1] as nat == v / 0x100
  }

  lemma WordReads(buf: seq<bv8>, at: nat, v: nat)
    requires HoldsWord(buf, at, v)
    ensures Uint(buf, at) == v
  {
    Digits(v, buf[at] as nat, buf[at + 1] as nat, buf[at + 2] as nat, buf[at + 3] as nat);
  }

  lemma Digits(v: nat, a: nat, b: nat, c: nat, d: nat)
    requires a == v % 0x100 && b == v / 0x100 % 0x100
    requires c == v / 0x100 / 0x100 % 0x100 && d == v / 0x100 / 0x100 / 0x100
    ensures a + 0x100 * b + 0x1_0000 * c + 0x100_0000 * d == v
  {
    var v1 := v / 0x100;
    var v2 := v1 / 0x100;
    assert v == 0x100 * v1 + a && v1 == 0x100 * v2 + b && v2 == 0x100 * d + c;
  }

  lemma HalfReads(buf: seq<bv8>, at: nat, v: nat)
    requires HoldsHalf(buf, at, v)
    ensures Ushort(buf, at) == v
  {
  }

  /** The superblock is read from block 1, its seven words in the order of `struct superblock`. */
  lemma SuperblockLayout(img: seq<bv8>, size: nat, nblocks: nat, ninodes: nat, nlog: nat, logstart: nat,
                         inodestart: nat, bmapstart: nat)
    requires 1024 <= |img|
    requires var fields := [size, nblocks, ninodes, nlog, logstart, inodestart, bmapstart];
      forall i :: 0 <= i < 7 ==> HoldsWord(img, 512 + 4 * i, fields[i])
    ensures ReadSuperblock(img) == Superblock(nblocks, ninodes, inodestart, bmapstart)
  {
    var fields := [size, nblocks, ninodes, nlog, logstart, inodestart, bmapstart];
    FieldReads(img, 1, fields[1]);
    FieldReads(img, 2, fields[2]);
    FieldReads(img, 5, fields[5]);
    FieldReads(img, 6, fields[6]);
  }

  lemma FieldReads(img: seq<bv8>, i: nat, v: nat)
    requires 1024 <= |img| && i < 7 && HoldsWord(img, 512 + 4 * i, v)
    ensures Uint(Rsect(img, 1), 4 * i) == v
  {
    SectorWord(img, 1, 4 * i);
    WordReads(img, 512 + 4 * i, v);
  }

  /** An inode takes 64 bytes: four 16-bit fields of which the first is the type, the size, and thirteen addresses. */
  lemma InodeLayout(img: seq<bv8>, sb: Superblock, inum: nat, kind: nat, size: nat, addrs: seq<nat>)
    requires InodeOnImage(img, inum, sb) && |addrs| == 13
    requires var at := 512 * sb.inodestart + 64 * inum;
      && HoldsHalf(img, at, kind) && HoldsWord(img, at + 8, size)
      && forall k :: 0 <= k < 13 ==> HoldsWord(img, at + 12 + 4 * k, addrs[k])
    ensures Rinode(img, inum, sb) == Inode(kind, size, addrs)
  {
    var at := 512 * sb.inodestart + 64 * inum;
    RinodeTiles(img, inum, sb);
    HalfReads(img, at, kind);
    WordReads(img, at + 8, size);
    forall k | 0 <= k < 13 ensures Uints(img, at + 12, 13)[k] == addrs[k] {
      WordReads(img, at + 12 + 4 * k, addrs[k]);
    }
  }

  // ---- the addresses of a file, by the bytes they hold

  /** Block `k` of the file, which holds the bytes from `512 * k` on, is at address `a`: the k-th of twelve direct
      addresses, or a word of the block that the thirteenth points to. */
  ghost predicate BlockAt(img: seq<bv8>, ip: Inode, k: nat, a: nat)
    requires |ip.addrs| == 13
  {
    if k < 12 then a == ip.addrs[k]
    else k < 140 && 512 * ip.addrs[12] + 512 <= |img| && a == Uint(img, 512 * ip.addrs[12] + 4 * (k - 12))
  }

  /** The inode uses an address for a block of the file, or as the pointer to the indirect block. */
  ghost predicate Uses(img: seq<bv8>, ip: Inode, a: nat)
    requires |ip.addrs| == 13
  {
    (exists k: nat :: 512 * k < ip.size && BlockAt(img, ip, k, a)) || (512 * 12 < ip.size && a == ip.addrs[12])
  }

  lemma EntryIs(img: seq<bv8>, block: nat, e: nat)
    requires 512 * block + 512 <= |img| && e < 128
    ensures e < |Indirect(img, block)| && Indirect(img, block)[e] == Uint(img, 512 * block + 4 * e)
  {
    SectorWord(img, block, 4 * e);
  }

  /** Where block `k` stands among the addresses of a file: the pointer comes between the direct and the indirect
      ones. */
  function Place(k: nat): nat {
    if k < 12 then k else k + 1
  }

  /** Of a file that the checks can read, block `k` is used, and at its place, exactly if the file has a byte in it. */
  lemma UsedAt(img: seq<bv8>, ip: Inode, k: nat)
    requires |ip.addrs| == 13 && !RunsOut(img, ip)
    ensures Place(k) < |UsedBy(img, ip)| <==> 512 * k < ip.size
    ensures 512 * k < ip.size ==> BlockAt(img, ip, k, UsedBy(img, ip)[Place(k)])
    ensures 12 < |UsedBy(img, ip)| <==> 512 * 12 < ip.size
    ensures 512 * 12 < ip.size ==> UsedBy(img, ip)[12] == ip.addrs[12]
  {
    if 12 <= k && 512 * k < ip.size {
      EntryIs(img, ip.addrs[12], k - 12);
    }
  }

  lemma UsedIsUse(img: seq<bv8>, ip: Inode, j: nat)
    requires |ip.addrs| == 13 && j < |UsedBy(img, ip)|
    ensures Uses(img, ip, UsedBy(img, ip)[j])
  {
    if j < 12 {
      assert BlockAt(img, ip, j, UsedBy(img, ip)[j]);
    } else if j > 12 {
      EntryIsUse(img, ip, j - 13);
    }
  }

  lemma EntryIsUse(img: seq<bv8>, ip: Inode, e: nat)
    requires |ip.addrs| == 13 && 12 < BlockNum(ip.size) && e < |Entries(img, ip)|
    ensures Uses(img, ip, Entries(img, ip)[e])
  {
    EntryIs(img, ip.addrs[12], e);
    assert BlockAt(img, ip, e + 12, Entries(img, ip)[e]);
  }

  lemma UseIsUsed(img: seq<bv8>, ip: Inode, a: nat)
    requires |ip.addrs| == 13 && Uses(img, ip, a)
    ensures a in UsedBy(img, ip)
  {
    if 512 * 12 < ip.size && a == ip.addrs[12] {
      assert UsedBy(img, ip)[12] == a;
    } else {
      var k: nat :| 512 * k < ip.size && BlockAt(img, ip, k, a);
      if k < 12 {
        assert UsedBy(img, ip)[k] == a;
      } else {
        EntryUsed(img, ip, k, a);
      }
    }
  }

  lemma EntryUsed(img: seq<bv8>, ip: Inode, k: nat, a: nat)
    requires |ip.addrs| == 13 && 12 <= k && 512 * k < ip.size && BlockAt(img, ip, k, a)
    ensures a in UsedBy(img, ip)
  {
    EntryIs(img, ip.addrs[12], k - 12);
    var entries := Entries(img, ip);
    assert entries[k - 12] == a;
    assert a in ip.addrs + entries;
  }

  /** Overlong files included: the addresses the checks visit are those of the bytes of the file, and the pointer. */
  lemma UsedExactly(img: seq<bv8>, ip: Inode, a: nat)
    requires |ip.addrs| == 13
    ensures a in UsedBy(img, ip) <==> Uses(img, ip, a)
  {
    if a in UsedBy(img, ip) {
      var j :| 0 <= j < |UsedBy(img, ip)| && UsedBy(img, ip)[j] == a;
      UsedIsUse(img, ip, j);
    }
    if Uses(img, ip, a) {
      UseIsUsed(img, ip, a);
    }
  }

  // ---- all inodes

  /** Inode `i`, counted from 1, uses the address; `free` says whether free inodes count. */
  ghost predicate UsesBy(img: seq<bv8>, sb: Superblock, free: bool, i: nat, a: nat) {
    && 1 <= i && InodeOnImage(img, i, sb)
    && (free || Rinode(img, i, sb).kind != 0) && Uses(img, Rinode(img, i, sb), a)
  }

  lemma PieceExactly(img: seq<bv8>, sb: Superblock, free: bool, i: nat, a: nat)
    requires 1 <= i
    ensures a in UsedByInode(img, sb, i, free) <==> UsesBy(img, sb, free, i, a)
  {
    if InodeOnImage(img, i, sb) {
      UsedExactly(img, Rinode(img, i, sb), a);
    }
  }

  ghost predicate SomeUses(img: seq<bv8>, sb: Superblock, free: bool, n: nat, a: nat) {
    exists i: nat :: i <= n && UsesBy(img, sb, free, i, a)
  }

  lemma SomeUsesNext(img: seq<bv8>, sb: Superblock, free: bool, n: nat, a: nat)
    requires n > 0
    ensures SomeUses(img, sb, free, n, a) <==> SomeUses(img, sb, free, n - 1, a) || UsesBy(img, sb, free, n, a)
  {
    if SomeUses(img, sb, free, n - 1, a) {
      var i: nat :| i <= n - 1 && UsesBy(img, sb, free, i, a);
      assert i <= n;
    }
  }

  /** The addresses of inodes 1 to `n` are those that one of them uses. */
  lemma {:induction false} PiecesExactly(img: seq<bv8>, sb: Superblock, free: bool, n: nat, a: nat)
    ensures a in Concat(PiecesTo(img, sb, free, n)) <==> SomeUses(img, sb, free, n, a)
  {
    if n == 0 {
    } else {
      PiecesExactly(img, sb, free, n - 1, a);
      PieceExactly(img, sb, free, n, a);
      SomeUsesNext(img, sb, free, n, a);
      ConcatNext(img, sb, free, n);
    }
  }

  lemma ConcatNext(img: seq<bv8>, sb: Superblock, free: bool, n: nat)
    requires n > 0
    ensures Concat(PiecesTo(img, sb, free, n))
         == Concat(PiecesTo(img, sb, free, n - 1)) + UsedByInode(img, sb, n, free)
  {
    var front := PiecesTo(img, sb, free, n - 1);
    assert (front + [UsedByInode(img, sb, n, free)])[..n - 1] == front;
  }
}
