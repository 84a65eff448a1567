/** The read-only filesystem image of student-distrib/filesystem.c. */
module Filesystem {
  import opened Bytes

  const BLOCK_SIZE := 4096
  const MAX_BLOCKS := 1023
  const MAX_ENTRIES := 63
  const NAME_SIZE := 32

  /** `index[..1023]` is `datablock_idx`; `index[1023]` is the word that follows it in memory. */
  datatype Inode = Inode(fileSize: word, index: seq<word>)

  datatype Dentry = Dentry(name: seq<byte>, fileType: word, inode: word)

  /** `blocks` holds the data blocks and, as its last element, the memory just past the image,
      which `read_data` reaches because it accepts an index equal to `num_data_blocks`. */
  datatype Image = Image(numEntries: word, entries: seq<Dentry>, inodes: seq<Inode>,
                         numDataBlocks: word, blocks: seq<seq<byte>>)

  /** The layout of the structures: array sizes, and file sizes an inode can index. */
  ghost predicate LaidOut(img: Image) {
    && |img.entries| == MAX_ENTRIES
    && (forall e <- img.entries :: |e.name| == NAME_SIZE)
    && |img.blocks| == img.numDataBlocks + 1
    && |img.inodes| < 0x8000_0000
    && (forall n <- img.inodes :: FileLaidOut(File(n, img.blocks)))
  }

  // ---------------------------------------------------------------------
  // Files as flat byte sequences
  // ---------------------------------------------------------------------

  /** One file of an image. */
  datatype File = File(node: Inode, blocks: seq<seq<byte>>)

  ghost predicate FileLaidOut(f: File) {
    && |f.node.index| == MAX_BLOCKS + 1 && 0 < |f.blocks|
    && f.node.fileSize <= MAX_BLOCKS * BLOCK_SIZE
    && forall b <- f.blocks :: |b| == BLOCK_SIZE
  }

  function FileOf(img: Image, ino: nat): (f: File)
    requires ino < |img.inodes|
  {
    File(img.inodes[ino], img.blocks)
  }

  /** `read_data` accepts the index of block `k`. */
  ghost predicate GoodBlock(f: File, k: nat) {
    k < |f.node.index| && f.node.index[k] < |f.blocks|
  }

  /** The index of block `k` is `num_data_blocks`: it leads past the image. */
  ghost predicate PastBlock(f: File, k: nat) {
    k < |f.node.index| && f.node.index[k] == |f.blocks| - 1
  }

  /** `read_data` accepts every block that holds a byte of the file. */
  ghost predicate Readable(f: File) {
    FileLaidOut(f) && forall k: nat :: k * BLOCK_SIZE < f.node.fileSize ==> GoodBlock(f, k)
  }

  ghost function FileByte(f: File, p: nat): (b: byte)
    requires FileLaidOut(f)
  {
    if GoodBlock(f, p / BLOCK_SIZE) then f.blocks[f.node.index[p / BLOCK_SIZE]][p % BLOCK_SIZE] else 0
  }

  ghost function Slice(f: File, from: nat, to: nat): (s: seq<byte>)
    requires FileLaidOut(f) && from <= to
    ensures |s| == to - from
  {
    if from == to then [] else Slice(f, from, to - 1) + [FileByte(f, to - 1)]
  }

  lemma {:induction false} SliceJoins(f: File, a: nat, b: nat, c: nat)
    requires FileLaidOut(f) && a <= b <= c
    ensures Slice(f, a, b) + Slice(f, b, c) == Slice(f, a, c)
    decreases c
  {
    if b < c {
      SliceJoins(f, a, b, c - 1);
      assert Slice(f, a, b) + (Slice(f, b, c - 1) + [FileByte(f, c - 1)])
          == (Slice(f, a, b) + Slice(f, b, c - 1)) + [FileByte(f, c - 1)];
    }
  }

  lemma {:induction false} SliceIsByteByByte(f: File, a: nat, c: nat, s: seq<byte>)
    requires FileLaidOut(f) && a <= c && |s| == c - a
    requires forall i | 0 <= i < |s| :: s[i] == FileByte(f, a + i)
    ensures Slice(f, a, c) == s
    decreases c
  {
    if a < c {
      var front, last := s[..c - 1 - a], s[c - 1 - a];
      assert s == front + [last];
      SliceIsByteByByte(f, a, c - 1, front);
    }
  }

  ghost function Contents(f: File): (s: seq<byte>)
    requires FileLaidOut(f)
    ensures |s| == f.node.fileSize
  {
    Slice(f, 0, f.node.fileSize)
  }

  lemma SliceOfContents(f: File, a: nat, b: nat)
    requires FileLaidOut(f) && a <= b <= f.node.fileSize
    ensures Slice(f, a, b) == Contents(f)[a..b]
  {
    SliceJoins(f, 0, a, b);
    SliceJoins(f, 0, b, f.node.fileSize);
  }

  lemma {:induction false} SliceAt(f: File, a: nat, b: nat, i: nat)
    requires FileLaidOut(f) && a <= i < b
    ensures Slice(f, a, b)[i - a] == FileByte(f, i)
    decreases b
  {
    if i < b - 1 {
      SliceAt(f, a, b - 1, i);
    }
  }

  /** The flat file: byte `p` is byte `p mod 4096` of the block that index number `p / 4096` of the inode names. */
  lemma FlatFile(f: File, p: nat)
    requires FileLaidOut(f) && p < f.node.fileSize
    ensures p / 4096 < 1023 < |f.node.index| && |Contents(f)| == f.node.fileSize
    ensures f.node.index[p / 4096] < |f.blocks| ==>
              |f.blocks[f.node.index[p / 4096]]| == 4096 && Contents(f)[p] == f.blocks[f.node.index[p / 4096]][p % 4096]
  {
    SliceAt(f, 0, f.node.fileSize, p);
  }

  /** The first position at or after `p` that cannot be read: `end`, or the start of what a bad block holds. */
  ghost function Reach(f: File, p: nat, end: nat): (q: nat)
    requires p <= end
    ensures p <= q <= end
    decreases end - p
  {
    if p == end || !GoodBlock(f, p / BLOCK_SIZE) then p
    else Reach(f, Min(end, (p / BLOCK_SIZE + 1) * BLOCK_SIZE), end)
  }

  // ---------------------------------------------------------------------
  // read_data
  // ---------------------------------------------------------------------

  ghost predicate Wraps(offset: word, length: word) {
    offset + length >= U32
  }

  ghost function ReadEnd(f: File, offset: nat, length: nat): (e: nat) {
    Min(offset + length, f.node.fileSize)
  }

  /** The bytes a read of a file delivers, for every offset and length. */
  ghost function Delivered(f: File, offset: word, length: word): (s: seq<byte>)
    requires FileLaidOut(f)
    ensures |s| <= f.node.fileSize && |s| <= length
  {
    if offset >= f.node.fileSize || length == 0 || Wraps(offset, length) then []
    else Slice(f, offset, Reach(f, offset, ReadEnd(f, offset, length)))
  }

  /** The value such a read returns. */
  ghost function Verdict(f: File, offset: word, length: word): (r: int)
    requires FileLaidOut(f)
    ensures -1 <= r <= f.node.fileSize
  {
    if offset >= f.node.fileSize || length == 0 then 0
    else if Wraps(offset, length) then
      if (offset + length - U32) / BLOCK_SIZE == offset / BLOCK_SIZE && !GoodBlock(f, offset / BLOCK_SIZE)
      then -1 else 0
    else if Delivered(f, offset, length) == [] then -1
    else |Delivered(f, offset, length)|
  }

  /** `buf` with `s` written from index `at` on. */
  ghost function Spliced(buf: seq<byte>, at: nat, s: seq<byte>): (r: seq<byte>)
    requires at + |s| <= |buf|
    ensures |r| == |buf|
  {
    buf[..at] + s + buf[at + |s|..]
  }

  /** That is: each byte of the stretch is the one written, each other byte the one that was there. */
  lemma SplicedIff(buf: seq<byte>, at: nat, s: seq<byte>, r: seq<byte>)
    requires at + |s| <= |buf|
    ensures r == Spliced(buf, at, s) <==>
            |r| == |buf| && forall j | 0 <= j < |buf| :: r[j] == if at <= j < at + |s| then s[j - at] else buf[j]
  {
    var spliced := Spliced(buf, at, s);
    assert forall j | 0 <= j < |buf| :: spliced[j] == if at <= j < at + |s| then s[j - at] else buf[j];
  }

  lemma NothingSpliced(buf: seq<byte>, at: nat)
    requires at <= |buf|
    ensures Spliced(buf, at, []) == buf
  {
  }

  /** Writing two adjacent slices one after the other writes their union. */
  lemma SplicedSlices(start: seq<byte>, mid: seq<byte>, end: seq<byte>, at: nat, at': nat,
                      f: File, a: nat, b: nat, c: nat)
    requires FileLaidOut(f) && a <= b <= c
    requires at' == at + (b - a) && at' + (c - b) <= |start|
    requires mid == Spliced(start, at, Slice(f, a, b))
    requires end == Spliced(mid, at', Slice(f, b, c))
    ensures end == Spliced(start, at, Slice(f, a, c))
  {
    SliceJoins(f, a, b, c);
  }

  /** Within one good block, the flat file is the block. */
  lemma BlockIsSlice(f: File, block: nat, from: nat, to: nat, p: nat, next: nat)
    requires FileLaidOut(f) && GoodBlock(f, block) && from <= to <= BLOCK_SIZE
    requires p == block * BLOCK_SIZE + from && next == p + (to - from)
    ensures f.blocks[f.node.index[block]][from..to] == Slice(f, p, next)
  {
    var data := f.blocks[f.node.index[block]][from..to];
    forall i | 0 <= i < |data|
      ensures data[i] == FileByte(f, p + i)
    {
      assert (p + i) / BLOCK_SIZE == block && (p + i) % BLOCK_SIZE == from + i;
    }
    SliceIsByteByByte(f, p, next, data);
  }

  /** The innermost loop of `read_data`: bytes `from..to` of a good block go to `buf[at..]`. */
  method CopyFromBlock(f: File, block: nat, from: nat, to: nat, buf: array<byte>, at: nat,
                       ghost p: nat, ghost next: nat)
    returns (charsRead: nat)
    requires FileLaidOut(f) && GoodBlock(f, block)
    requires from <= BLOCK_SIZE && to <= BLOCK_SIZE && p == block * BLOCK_SIZE + from
    requires next == p + if from < to then to - from else 0
    requires at + (next - p) <= buf.Length
    modifies buf
    ensures charsRead == next - p
    ensures buf[..] == Spliced(old(buf[..]), at, Slice(f, p, next))
  {
    charsRead := 0;
    var currByte := from;
    ghost var start, last := buf[..], from + (next - p);
    var data := f.blocks[f.node.index[block]];
    while currByte < to
      invariant from <= currByte == from + charsRead <= last
      invariant forall j | 0 <= j < buf.Length ::
                  buf[j] == if at <= j < at + charsRead then data[from + (j - at)] else start[j]
    {
      buf[at + charsRead] := data[currByte];
      charsRead := charsRead + 1;
      currByte := currByte + 1;
    }
    assert buf[..] == Spliced(start, at, data[from..last]);
    BlockIsSlice(f, block, from, last, p, next);
  }

  /** One turn of the block loop: block `block` supplies the file from `p` up to `next`. */
  lemma BlockTurn(f: File, offset: nat, end: nat, limit: nat, block: nat, currByte: nat, stop: nat, p: nat, next: nat)
    requires limit == (if offset < end then end else offset) && offset <= p <= limit
    requires offset / BLOCK_SIZE <= block <= end / BLOCK_SIZE
    requires currByte < BLOCK_SIZE && p == block * BLOCK_SIZE + currByte
    requires stop == if block == end / BLOCK_SIZE then end % BLOCK_SIZE else BLOCK_SIZE
    requires next == Min(limit, (block + 1) * BLOCK_SIZE)
    ensures next == p + if currByte < stop then stop - currByte else 0
    ensures block == end / BLOCK_SIZE ==> next == limit
    ensures block < end / BLOCK_SIZE ==> next == block * BLOCK_SIZE + BLOCK_SIZE
    ensures !GoodBlock(f, block) ==> Reach(f, p, limit) == p
    ensures GoodBlock(f, block) ==> Reach(f, p, limit) == Reach(f, next, limit)
  {
    assert p / BLOCK_SIZE == block;
  }

  /** The block loop of `read_data`, from position `offset` to `end`; `end < offset` after a wrap. */
  method CopyBlocks(f: File, offset: nat, end: nat, buf: array<byte>, at: nat) returns (r: int)
    requires FileLaidOut(f) && offset < f.node.fileSize && end <= f.node.fileSize && offset != end
    requires at + Reach(f, offset, if offset < end then end else offset) - offset <= buf.Length
    modifies buf
    ensures end < offset ==>
              && r == (if end / BLOCK_SIZE == offset / BLOCK_SIZE && !GoodBlock(f, offset / BLOCK_SIZE) then -1 else 0)
              && buf[..] == old(buf[..])
    ensures offset < end ==>
              var q := Reach(f, offset, end);
              && r == (if q == offset then -1 else q - offset)
              && buf[..] == Spliced(old(buf[..]), at, Slice(f, offset, q))
  {
    var startBlock, startOffset := offset / BLOCK_SIZE, offset % BLOCK_SIZE;
    var endBlock, endOffset := end / BLOCK_SIZE, end % BLOCK_SIZE;
    var charsRead, currByte, endOfBlock := 0, startOffset, BLOCK_SIZE;
    var block := startBlock;
    ghost var limit, p, start := if offset < end then end else offset, offset, buf[..];
    ghost var q := Reach(f, offset, limit);
    while block <= endBlock
      invariant startBlock <= block
      invariant offset <= p == offset + charsRead <= q
      invariant buf[..] == Spliced(start, at, Slice(f, offset, p))
      invariant block <= endBlock ==>
                  block * BLOCK_SIZE + currByte == p && 0 <= currByte < BLOCK_SIZE == endOfBlock
      invariant Reach(f, p, limit) == q
      invariant block > startBlock ==> GoodBlock(f, startBlock) && (block > endBlock ==> p == limit)
    {
      var b := f.node.index[block];
      ghost var next := Min(limit, (block + 1) * BLOCK_SIZE);
      BlockTurn(f, offset, end, limit, block, currByte, if block == endBlock then endOffset else BLOCK_SIZE, p, next);
      if b > |f.blocks| - 1 {
        if charsRead == 0 {
          return -1;
        } else {
          return charsRead;
        }
      }
      if block == endBlock {
        endOfBlock := endOffset;
      }
      ghost var mid := buf[..];
      var at' := at + charsRead;
      var n := CopyFromBlock(f, block, currByte, endOfBlock, buf, at', p, next);
      SplicedSlices(start, mid, buf[..], at, at', f, offset, p, next);
      charsRead := charsRead + n;
      p := next;
      currByte := 0;
      block := block + 1;
    }
    return charsRead;
  }

  lemma WrappedSum(offset: word, length: word)
    ensures (offset + length) % U32 == if Wraps(offset, length) then offset + length - U32 else offset + length
  {
  }

  /** `read_data` on an inode that exists. */
  method ReadFile(f: File, offset: word, buf: array<byte>, at: nat, length: word) returns (r: int)
    requires FileLaidOut(f) && at + |Delivered(f, offset, length)| <= buf.Length
    modifies buf
    ensures r == Verdict(f, offset, length)
    ensures buf[..] == Spliced(old(buf[..]), at, Delivered(f, offset, length))
  {
    NothingSpliced(buf[..], at);
    if offset >= f.node.fileSize || length == 0 {
      return 0;
    }
    var endSearch := (offset + length) % U32;
    WrappedSum(offset, length);
    if endSearch > f.node.fileSize {
      endSearch := f.node.fileSize;
    }
    r := CopyBlocks(f, offset, endSearch, buf, at);
  }

  /** `read_data`, writing to `buf[at..]`. */
  method ReadData(img: Image, ino: word, offset: word, buf: array<byte>, at: nat, length: word) returns (r: int)
    requires LaidOut(img)
    requires ino < |img.inodes| ==> at + |Delivered(FileOf(img, ino), offset, length)| <= buf.Length
    modifies buf
    ensures ino >= |img.inodes| ==> r == -1 && buf[..] == old(buf[..])
    ensures ino < |img.inodes| ==>
              && r == Verdict(FileOf(img, ino), offset, length)
              && buf[..] == Spliced(old(buf[..]), at, Delivered(FileOf(img, ino), offset, length))
  {
    if ino >= |img.inodes| {
      return -1;
    }
    r := ReadFile(FileOf(img, ino), offset, buf, at, length);
  }

  // ---------------------------------------------------------------------
  // What read_data promises
  // ---------------------------------------------------------------------

  /** Everything before the stopping point lies in good blocks; the stopping point, if early, does not. */
  lemma {:induction false} ReachStopsAtBadBlock(f: File, p: nat, end: nat)
    requires p <= end
    ensures var q := Reach(f, p, end);
            && (forall i: nat :: p <= i < q ==> GoodBlock(f, i / BLOCK_SIZE))
            && (q < end ==> !GoodBlock(f, q / BLOCK_SIZE))
    decreases end - p
  {
    if p < end && GoodBlock(f, p / BLOCK_SIZE) {
      var next := Min(end, (p / BLOCK_SIZE + 1) * BLOCK_SIZE);
      ReachStopsAtBadBlock(f, next, end);
      forall i: nat | p <= i < next
        ensures GoodBlock(f, i / BLOCK_SIZE)
      {
        assert i / BLOCK_SIZE == p / BLOCK_SIZE;
      }
    }
  }

  /** A walk that starts later stops at the same place ... */
  lemma ReachLater(f: File, p: nat, later: nat, end: nat)
    requires p <= later <= end && later <= Reach(f, p, end)
    ensures Reach(f, later, end) == Reach(f, p, end)
  {
    ReachStopsAtBadBlock(f, p, end);
    ReachStopsAtBadBlock(f, later, end);
  }

  /** ... and so does one that ends sooner, unless its end comes first. */
  lemma ReachCut(f: File, p: nat, sooner: nat, end: nat)
    requires p <= sooner <= end
    ensures Reach(f, p, sooner) == Min(Reach(f, p, end), sooner)
  {
    ReachStopsAtBadBlock(f, p, sooner);
    ReachStopsAtBadBlock(f, p, end);
  }

  /** On a readable file, without a wrap, a read is a slice of the flat file,
      whatever the unused index after an aligned end holds. */
  lemma ReadIsSliceOfFile(f: File, offset: word, length: word)
    requires Readable(f) && !Wraps(offset, length)
    ensures var file := Contents(f);
            var from, to := Min(offset, |file|), Min(offset + length, |file|);
            && Delivered(f, offset, length) == file[from..to]
            && Verdict(f, offset, length) == to - from
  {
    if offset < f.node.fileSize && length > 0 {
      ReachStopsAtBadBlock(f, offset, ReadEnd(f, offset, length));
      SliceOfContents(f, offset, ReadEnd(f, offset, length));
    }
  }

  /** Exactly when a read inside a file returns the count the caller is owed:
      the end does not wrap and no byte of the stretch lies in a bad block. */
  lemma ReadCompleteIff(f: File, offset: word, length: word)
    requires FileLaidOut(f) && offset < f.node.fileSize && length > 0
    ensures var end := ReadEnd(f, offset, length);
            Verdict(f, offset, length) == end - offset <==>
            && !Wraps(offset, length)
            && forall i: nat :: offset <= i < end ==> GoodBlock(f, i / BLOCK_SIZE)
  {
    ReachStopsAtBadBlock(f, offset, ReadEnd(f, offset, length));
  }

  /** When offset and length add up to 2^32 or more, nothing is delivered, and the read returns 0, or -1 exactly when the
      wrapped end lies in the same block and that block is refused. */
  lemma WrappedReadIsEmpty(f: File, offset: word, length: word)
    requires FileLaidOut(f) && offset < f.node.fileSize && length > 0 && offset + length >= 0x1_0000_0000
    ensures Delivered(f, offset, length) == []
    ensures Verdict(f, offset, length) ==
            if (offset + length - 0x1_0000_0000) / 4096 == offset / 4096 && f.node.index[offset / 4096] >= |f.blocks| then -1 else 0
  {
  }

  /** With a bad needed block the read delivers the stretch before it, or fails when that is empty. */
  lemma ReadStopsAtBadBlock(f: File, offset: word, length: word)
    requires FileLaidOut(f) && offset < f.node.fileSize && length > 0 && !Wraps(offset, length)
    ensures var end, n := ReadEnd(f, offset, length), |Delivered(f, offset, length)|;
            && Verdict(f, offset, length) == (if n == 0 then -1 else n)
            && offset + n <= end
            && (forall i: nat :: offset <= i < offset + n ==> GoodBlock(f, i / BLOCK_SIZE))
            && (offset + n < end ==> !GoodBlock(f, (offset + n) / BLOCK_SIZE))
            && Delivered(f, offset, length) == Contents(f)[offset..offset + n]
  {
    ReachStopsAtBadBlock(f, offset, ReadEnd(f, offset, length));
    SliceOfContents(f, offset, Reach(f, offset, ReadEnd(f, offset, length)));
  }

  // ---------------------------------------------------------------------
  // Memory past the image
  // ---------------------------------------------------------------------

  /** The same file with other bytes in the memory past the image. */
  ghost function WithPast(f: File, past: seq<byte>): (g: File)
    requires FileLaidOut(f) && |past| == BLOCK_SIZE
    ensures FileLaidOut(g)
  {
    f.(blocks := f.blocks[|f.blocks| - 1 := past])
  }

  lemma {:induction false} PastKeepsReach(f: File, past: seq<byte>, p: nat, end: nat)
    requires FileLaidOut(f) && |past| == BLOCK_SIZE && p <= end
    ensures Reach(WithPast(f, past), p, end) == Reach(f, p, end)
    decreases end - p
  {
    if p < end && GoodBlock(f, p / BLOCK_SIZE) {
      PastKeepsReach(f, past, Min(end, (p / BLOCK_SIZE + 1) * BLOCK_SIZE), end);
    }
  }

  lemma {:induction false} SliceAvoidsPast(f: File, past: seq<byte>, a: nat, b: nat)
    requires FileLaidOut(f) && |past| == BLOCK_SIZE && a <= b
    requires forall i: nat | a <= i < b :: !PastBlock(f, i / BLOCK_SIZE)
    ensures Slice(WithPast(f, past), a, b) == Slice(f, a, b)
    decreases b
  {
    if a < b {
      SliceAvoidsPast(f, past, a, b - 1);
      assert !PastBlock(f, (b - 1) / BLOCK_SIZE);
    }
  }

  /** The read comes to a block past the image before it comes to its end or to a block it refuses. */
  ghost predicate NeedsPast(f: File, offset: word, length: word) {
    && offset < f.node.fileSize && !Wraps(offset, length)
    && exists i: nat :: ReachesPast(f, offset, ReadEnd(f, offset, length), i)
  }

  ghost predicate ReachesPast(f: File, offset: nat, end: nat, i: nat) {
    offset <= i < end && PastBlock(f, i / BLOCK_SIZE) && forall j: nat | offset <= j < i :: GoodBlock(f, j / BLOCK_SIZE)
  }

  /** What the read delivers does not depend on the memory past the image. */
  ghost predicate FromImage(f: File, offset: word, length: word)
    requires FileLaidOut(f)
  {
    forall past: seq<byte> | |past| == BLOCK_SIZE ::
      Delivered(WithPast(f, past), offset, length) == Delivered(f, offset, length)
  }

  /** Every byte delivered comes from the image exactly when the read needs no block whose index is `num_data_blocks`. */
  lemma FromImageIff(f: File, offset: word, length: word)
    requires FileLaidOut(f)
    ensures FromImage(f, offset, length) <==> !NeedsPast(f, offset, length)
  {
    if offset < f.node.fileSize && length > 0 && !Wraps(offset, length) {
      var end := ReadEnd(f, offset, length);
      ReachStopsAtBadBlock(f, offset, end);
      if i: nat :| ReachesPast(f, offset, end, i) {
        PastShows(f, offset, length, i);
      } else {
        PastUnseen(f, offset, length);
      }
    }
  }

  lemma PastUnseen(f: File, offset: word, length: word)
    requires FileLaidOut(f) && offset < f.node.fileSize && length > 0 && !Wraps(offset, length)
    requires !NeedsPast(f, offset, length)
    ensures FromImage(f, offset, length)
  {
    var end := ReadEnd(f, offset, length);
    var q := Reach(f, offset, end);
    ReachStopsAtBadBlock(f, offset, end);
    forall i: nat | offset <= i < q
      ensures !PastBlock(f, i / BLOCK_SIZE)
    {
      assert !ReachesPast(f, offset, end, i);
    }
    forall past: seq<byte> | |past| == BLOCK_SIZE
      ensures Delivered(WithPast(f, past), offset, length) == Delivered(f, offset, length)
    {
      PastKeepsReach(f, past, offset, end);
      SliceAvoidsPast(f, past, offset, q);
    }
  }

  lemma PastShows(f: File, offset: word, length: word, i: nat)
    requires FileLaidOut(f) && offset < f.node.fileSize && length > 0 && !Wraps(offset, length)
    requires ReachesPast(f, offset, ReadEnd(f, offset, length), i)
    ensures !FromImage(f, offset, length)
  {
    var end := ReadEnd(f, offset, length);
    var q := Reach(f, offset, end);
    ReachStopsAtBadBlock(f, offset, end);
    assert i < q;
    var other: byte := if FileByte(f, i) == 0 then 1 else 0;
    var past: seq<byte> := seq(BLOCK_SIZE, _ => other);
    var g := WithPast(f, past);
    PastKeepsReach(f, past, offset, end);
    SliceAt(f, offset, q, i);
    SliceAt(g, offset, q, i);
    assert FileByte(g, i) == other;
    assert Delivered(g, offset, length) != Delivered(f, offset, length);
  }

  /** A read inside a file is what the image owes the caller, in full and from the image alone, exactly when the end does
      not wrap and every block of the stretch lies in the image. */
  lemma ReadTrueIff(f: File, offset: word, length: word)
    requires FileLaidOut(f) && offset < f.node.fileSize && length > 0
    ensures var end := ReadEnd(f, offset, length);
            Verdict(f, offset, length) == end - offset && FromImage(f, offset, length) <==>
            && !Wraps(offset, length)
            && forall i: nat :: offset <= i < end ==> GoodBlock(f, i / BLOCK_SIZE) && !PastBlock(f, i / BLOCK_SIZE)
  {
    ReadCompleteIff(f, offset, length);
    FromImageIff(f, offset, length);
    if !Wraps(offset, length) && Verdict(f, offset, length) == ReadEnd(f, offset, length) - offset {
      forall i: nat | offset <= i < ReadEnd(f, offset, length) && PastBlock(f, i / BLOCK_SIZE)
        ensures NeedsPast(f, offset, length)
      {
        assert ReachesPast(f, offset, ReadEnd(f, offset, length), i);
      }
    }
  }

  /** It fails otherwise: a file whose first index is `num_data_blocks` delivers the memory past the image as its own. */
  lemma PastIsDelivered(f: File)
    requires FileLaidOut(f) && f.node.fileSize > 0 && f.node.index[0] == |f.blocks| - 1
    ensures Verdict(f, 0, 1) == 1 && Delivered(f, 0, 1) == [f.blocks[|f.blocks| - 1][0]] && !FromImage(f, 0, 1)
  {
    assert PastBlock(f, 0 / BLOCK_SIZE) && ReachesPast(f, 0, ReadEnd(f, 0, 1), 0);
    FromImageIff(f, 0, 1);
    SliceAt(f, 0, 1, 0);
  }
}
