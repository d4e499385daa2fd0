/** The bitmap of free blocks as close_sfs writes it: words of 32 bits, one bit per
    block, set for the blocks that are free. */
module SfsBitmap {
  import opened SfsIndex

  const BITS: nat := 32

  type Bits = w: seq<bool> | |w| == BITS witness seq(BITS, _ => false)

  /** The block contents, as words. */
  type Words = seq<Bits>

  /** Bit `k` of a block. */
  function Bit(d: Words, k: nat): bool
    requires k < BITS * |d|
  {
    d[k / BITS][k % BITS]
  }

  function SetBit(d: Words, k: nat): (r: Words)
    requires k < BITS * |d|
    ensures |r| == |d|
  {
    d[k / BITS := d[k / BITS][k % BITS := true]]
  }

  lemma SetBitOnly(d: Words, j: nat, k: nat)
    requires j < BITS * |d| && k < BITS * |d|
    ensures Bit(SetBit(d, j), k) == (k == j || Bit(d, k))
  {
    assert k == BITS * (k / BITS) + k % BITS && j == BITS * (j / BITS) + j % BITS;
  }

  /** What a block of the bitmap says about the blocks from `i` on: whether they are free. */
  ghost predicate Says(d: Words, n: nat, i: nat, nextIno: nat, ninos: nat) {
    |d| == n && forall k: nat | k < BITS * n :: Bit(d, k) == (nextIno <= i + k < ninos)
  }

  /** One block of the bitmap, for the blocks from `i` on. */
  method FillBlock(n: nat, i: nat, nextIno: nat, ninos: nat) returns (d: Words)
    requires i < ninos && nextIno <= ninos
    ensures Says(d, n, i, nextIno, ninos)
  {
    d := seq(n, _ => seq(BITS, _ => false));
    if i + BITS * n > nextIno {
      var start, end := 0, BITS * n;
      if i < nextIno {
        start := nextIno - i;
      }
      if i + BITS * n > ninos {
        end := ninos - i;
      }
      var j := start;
      while j < end
        invariant 0 <= start <= j && (j <= end || j == start) && |d| == n && end <= BITS * n
        invariant forall k: nat | k < BITS * n :: Bit(d, k) == (start <= k < j)
      {
        forall k: nat | k < BITS * n ensures Bit(SetBit(d, j), k) == (k == j || Bit(d, k)) {
          SetBitOnly(d, j, k);
        }
        d := SetBit(d, j);
        j := j + 1;
      }
    }
  }

  // ----- all blocks of the bitmap -----

  /** The first block that block `q` of the bitmap is about. */
  function Start(q: nat, bits: nat): nat {
    if q == 0 then 0 else Start(q - 1, bits) + bits
  }

  lemma {:induction false} StartRow(b: nat, bits: nat)
    requires bits > 0
    ensures b == Start(Row(b, bits), bits) + Col(b, bits)
  {
    if b >= bits { StartRow(b - bits, bits); }
  }

  lemma {:induction false} RowOfStart(x: nat, q: nat, bits: nat)
    requires bits > 0 && Start(q, bits) <= x < Start(q + 1, bits)
    ensures Row(x, bits) == q
    decreases q
  {
    if q > 0 {
      StartRises(q - 1, bits);
      RowOfStart(x - bits, q - 1, bits);
    }
  }

  lemma {:induction false} StartRises(q: nat, bits: nat)
    ensures Start(q + 1, bits) >= bits
  {
    if q > 0 { StartRises(q - 1, bits); }
  }

  /** The number of blocks the bitmap takes. */
  function MapBlocks(ninos: nat, n: nat): nat
    requires n > 0
  {
    Row(ninos + BITS * n - 1, BITS * n)
  }

  lemma MapBlocksIs(ninos: nat, n: nat, q: nat)
    requires n > 0 && q > 0 && Start(q - 1, BITS * n) < ninos <= Start(q, BITS * n)
    ensures MapBlocks(ninos, n) == q
  {
    RowOfStart(ninos + BITS * n - 1, q, BITS * n);
  }

  /** A block of a file: bytes, or in a directory the name of a file and its inode. */
  datatype Content = Raw(bytes: seq<bv8>) | Named(ino: nat, name: string)

  /** What can be in a block of the image. */
  datatype Block =
    | Bitmap(words: Words)
    | Super(blocks: nat, unused: nat)
    | Table(entries: seq<nat>)
    | Node(direct: seq<nat>, indirect: nat, dbIndirect: nat, blocks: nat)
    | Data(content: Content)

  type Disk = map<nat, Block>

  /** The first `q` blocks of the bitmap are written. */
  ghost predicate Mapped(disk: Disk, at: nat, n: nat, q: nat, nextIno: nat, ninos: nat) {
    forall x: nat | at <= x < at + q ::
      x in disk && disk[x].Bitmap? && Says(disk[x].words, n, Start(x - at, BITS * n), nextIno, ninos)
  }

  /** The bit of one block: set if and only if the block is free. */
  lemma BitOf(disk: Disk, at: nat, n: nat, nextIno: nat, ninos: nat, b: nat)
    requires n > 0 && b < ninos && Mapped(disk, at, n, MapBlocks(ninos, n), nextIno, ninos)
    ensures var x := at + b / (BITS * n);
            x in disk && disk[x].Bitmap? && |disk[x].words| == n
            && Bit(disk[x].words, b % (BITS * n)) == (nextIno <= b)
  {
    StartRow(b, BITS * n);
    RowIsDiv(b, BITS * n);
    RowsRise(b + BITS * n, ninos + BITS * n - 1, BITS * n);
    assert at <= at + Row(b, BITS * n) < at + MapBlocks(ninos, n);
  }

  /** Only blocks from `lo` up to `hi` may differ. */
  ghost predicate OnlyIn(disk: Disk, disk': Disk, lo: nat, hi: nat) {
    && disk.Keys <= disk'.Keys
    && forall x | x in disk' && !(lo <= x < hi) :: x in disk && disk'[x] == disk[x]
  }

  /** The first loop of close_sfs. */
  method WriteBitmap(before: Disk, at: nat, n: nat, nextIno: nat, ninos: nat) returns (disk: Disk)
    requires n > 0 && 0 < nextIno <= ninos
    ensures Mapped(disk, at, n, MapBlocks(ninos, n), nextIno, ninos)
    ensures OnlyIn(before, disk, at, at + MapBlocks(ninos, n))
  {
    disk := before;
    var i, ino := 0, at;
    while i < ninos
      invariant at <= ino && i == Start(ino - at, BITS * n) && (ino > at ==> Start(ino - at - 1, BITS * n) < ninos)
      invariant Mapped(disk, at, n, ino - at, nextIno, ninos) && OnlyIn(before, disk, at, ino)
      decreases ninos + BITS * n - i
    {
      var d := FillBlock(n, i, nextIno, ninos);
      disk := disk[ino := Bitmap(d)];
      i, ino := i + BITS * n, ino + 1;
    }
    MapBlocksIs(ninos, n, ino - at);
  }
}
