/** The SFS image builder: block numbers, the block index of every file, and what
    close_sfs writes. */
module Sfs {
  import opened Wrappers
  import opened SfsIndex
  import opened SfsBitmap
  import opened SfsStore

  const BLKN_SUPER: nat := 0
  const BLKN_ROOT: nat := 1
  const BLKN_FREEMAP: nat := 2
  const MAX_NBLKS: nat := 1024 * 512

  /** `Lost` is the failing assertion of update_cache, the others end the program. */
  datatype Outcome = Done | TooSmall | TooBig | NoSpace | Lost

  /** hash32: the bucket of a block number. */
  function Hash(ino: nat): nat {
    (ino * 0x9e37_0001 % 0x1_0000_0000) / 0x40_0000
  }

  function EmptyInode(): Inode {
    Inode(Zeros(NDIRECT), 0, 0, 0, 0, 0)
  }

  /** An empty file needs no table. */
  lemma FilesMore(b: Tables, own: map<nat, Owner>, n: nat, nds: seq<Inode>, files: seq<seq<nat>>)
    requires n > 0 && FilesOk(b, own, n, nds, files)
    ensures FilesOk(b, own, n, nds + [EmptyInode()], files + [[]])
  {
    forall f: nat | f < |nds| + 1 ensures FileOk(b, own, n, f, (nds + [EmptyInode()])[f], (files + [[]])[f]) {
      if f < |nds| { assert FileOk(b, own, n, f, nds[f], files[f]); }
    }
  }

  /** create_sfs for an image file of `size` blocks; null when it is too small. */
  method CreateSfs(size: nat, entries: nat, fileBlocks: nat) returns (img: Image?)
    requires entries > 0 && fileBlocks <= L2(entries)
    ensures var ninos := if size > MAX_NBLKS then MAX_NBLKS else size;
            if BLKN_FREEMAP + MapBlocks(ninos, entries) >= ninos then img == null
            else img != null && fresh(img) && img.Valid() && img.ninos == ninos
                  && img.pieces == [[]] && img.n == entries
  {
    var ninos := size;
    if ninos > MAX_NBLKS {
      ninos := MAX_NBLKS;
    }
    var q, _ := DivMod(ninos + BITS * entries - 1, BITS * entries);
    if BLKN_FREEMAP + q >= ninos {
      return null;
    }
    img := new Image(entries, fileBlocks, ninos);
  }

  /** The first half of close_sfs: the bitmap and the super block. */
  method WriteFront(before: Disk, n: nat, first: nat, nextIno: nat, ninos: nat, unused: nat, ghost uses: Uses)
    returns (disk: Disk)
    requires n > 0 && 0 < nextIno <= ninos && first == BLKN_FREEMAP + MapBlocks(ninos, n)
    requires OnlyData(before, uses) && forall x | x in uses :: first <= x
    ensures Mapped(disk, BLKN_FREEMAP, n, first - BLKN_FREEMAP, nextIno, ninos)
    ensures BLKN_SUPER in disk && disk[BLKN_SUPER] == Super(ninos, unused) && Extends(before, disk)
    ensures forall x | x in disk :: !disk[x].Table? && (x in before || x == BLKN_SUPER || BLKN_FREEMAP <= x < first)
  {
    disk := WriteBitmap(before, BLKN_FREEMAP, n, nextIno, ninos);
    disk := disk[BLKN_SUPER := Super(ninos, unused)];
  }

  class Image {
    const n: nat              // entries of a table
    const maxBlocks: nat      // blocks of a file
    const ninos: nat
    const first: nat          // the first block behind the bitmap
    var nextIno: nat
    var unused: nat
    var tables: Tables
    var inodes: seq<Inode>
    var numbers: seq<nat>     // the blocks of the inodes
    var disk: Disk
    ghost var uses: Uses
    ghost var own: map<nat, Owner>
    ghost var files: seq<seq<nat>>
    ghost var pieces: seq<seq<Piece>>

    /** The block index of every file is in order. */
    ghost predicate Indexed()
      reads this
    {
      && n > 0 && maxBlocks <= L2(n) && first == BLKN_FREEMAP + MapBlocks(ninos, n)
      && BLKN_FREEMAP < first <= nextIno <= ninos && nextIno + unused == ninos
      && own.Keys == tables.Keys && (forall x | x in tables :: x in uses && uses[x] == ForTable)
      && (forall x | x in uses :: first <= x < nextIno)
      && FilesOk(tables, own, n, inodes, files)
    }

    /** And the blocks of every file are on the disk. */
    ghost predicate Valid()
      reads this
    {
      && Indexed() && Numbered(numbers, BLKN_ROOT, uses)
      && OnlyData(disk, uses) && HoldsAll(disk, files, pieces, numbers)
    }

    /** create_sfs, on an image large enough for its bitmap. The root directory is file 0. */
    constructor (entries: nat, fileBlocks: nat, blocks: nat)
      requires entries > 0 && fileBlocks <= L2(entries) && BLKN_FREEMAP + MapBlocks(blocks, entries) < blocks
      ensures Valid() && pieces == [[]] && disk == map[]
      ensures n == entries && maxBlocks == fileBlocks && ninos == blocks
    {
      n, maxBlocks, ninos := entries, fileBlocks, blocks;
      first, nextIno := BLKN_FREEMAP + MapBlocks(blocks, entries), BLKN_FREEMAP + MapBlocks(blocks, entries);
      unused := blocks - (BLKN_FREEMAP + MapBlocks(blocks, entries));
      tables, inodes, numbers, disk := map[], [EmptyInode()], [BLKN_ROOT], map[];
      uses, own, files, pieces := map[], map[], [[]], [[]];
      RowsRise(BITS * entries, blocks + BITS * entries - 1, BITS * entries);
    }

    /** sfs_alloc_ino: a block never handed out before, and outside the reserved area. */
    method AllocIno(ghost u: Use) returns (o: Outcome, ino: nat)
      requires Indexed()
      modifies this`nextIno, this`unused, this`uses
      ensures Indexed() && (o == Done || o == NoSpace)
      ensures o == NoSpace <==> old(nextIno) == ninos
      ensures o == NoSpace ==> uses == old(uses) && nextIno == old(nextIno)
      ensures o == Done ==> ino !in old(uses) && uses == old(uses)[ino := u] && first <= ino < ninos
      ensures o == Done ==> unused == old(unused) - 1 && nextIno == old(nextIno) + 1
    {
      if nextIno < ninos {
        unused := unused - 1;
        ino := nextIno;
        nextIno := nextIno + 1;
        uses := uses[ino := u];
        return Done, ino;
      }
      return NoSpace, 0;
    }

    /** alloc_cache_inode: a new empty file with a block of its own for the inode. */
    method AddFile() returns (o: Outcome)
      requires Valid()
      modifies this`nextIno, this`unused, this`uses, this`inodes, this`numbers, this`files, this`pieces
      ensures o == Done || o == NoSpace
      ensures o == Done ==> Valid() && pieces == old(pieces) + [[]] && old(numbers) < numbers
    {
      var ino;
      o, ino := AllocIno(ForInode(|inodes|));
      if o == Done {
        FilesMore(tables, own, n, inodes, files);
        OneMoreFile(disk, files, pieces, numbers, ino);
        inodes, numbers := inodes + [EmptyInode()], numbers + [ino];
        files, pieces := files + [[]], pieces + [[]];
      }
    }

    /** search_cache_block: every table is in the bucket of 0. */
    function Search(ino: nat): nat
      reads this
    {
      if Hash(ino) == Hash(0) && ino in tables then ino else 0
    }

    /** update_cache on the table of file `f` in a role; cb and ino are 0 for none. A table
        that is not the cached one would be searched for in the wrong bucket. */
    method UpdateCache(cb: nat, ino: nat, ghost f: nat, ghost role: Role) returns (o: Outcome, x: nat)
      requires Indexed() && (ino != 0 ==> Mine(tables, own, n, f, role, ino))
      modifies this`nextIno, this`unused, this`uses, this`tables, this`own
      ensures Indexed() && (o == Done || o == NoSpace || o == Lost) && Grows(old(uses), uses)
      ensures o == Lost <==> ino != 0 && cb != ino && Hash(ino) != Hash(0)
      ensures ino != 0 && cb == ino ==> o == Done
      ensures o == Done ==> Mine(tables, own, n, f, role, x) && (if ino != 0 then x == ino else tables[x] == Zeros(n))
      ensures o == Done ==> Kept(old(tables), old(own), tables, own)
    {
      if ino == 0 {
        o, x := AllocIno(ForTable);
        if o == Done {
          FilesGrow(tables, own, n, inodes, files, x, Owner(f, role));
          tables := tables[x := Zeros(n)];
          own := own[x := Owner(f, role)];
        }
        return;
      }
      x := cb;
      if cb == 0 || cb != ino {
        x := Search(ino);
        if x == 0 {
          return Lost, 0;
        }
      }
      return Done, x;
    }

    /** The inode and the tables of file `f` change, with block `ino` as its next block. */
    method Settle(f: nat, ghost ino: nat, nd: Inode, b: Tables)
      requires Indexed() && f < |inodes| && b.Keys == tables.Keys
      requires FileOk(b, own, n, f, nd, files[f] + [ino])
      requires OnlyOf(tables, own, b, f)
      modifies this`tables, this`inodes, this`files
      ensures Indexed() && files == old(files)[f := old(files[f]) + [ino]]
    {
      FilesStep(tables, own, n, inodes, files, b, f, nd, files[f] + [ino]);
      tables, inodes := b, inodes[f := nd];
      files := files[f := files[f] + [ino]];
    }

    method AppendSingle(f: nat, ino: nat) returns (o: Outcome)
      requires Indexed() && f < |inodes| && NDIRECT <= inodes[f].nblks < L1(n)
      modifies this`nextIno, this`unused, this`uses, this`tables, this`own, this`inodes, this`files
      ensures (o == Done || o == NoSpace) && Grows(old(uses), uses)
      ensures o == Done ==> Indexed() && files == old(files)[f := old(files[f]) + [ino]]
    {
      var nd := inodes[f];
      var k := nd.nblks - NDIRECT;
      var x;
      o, x := UpdateCache(nd.l1, nd.indirect, f, Single);
      if o != Done {
        return;
      }
      SingleStep(tables, own, n, f, nd, files[f], x, ino);
      Settle(f, ino, nd.(indirect := x, l1 := x, nblks := nd.nblks + 1), Put(tables, x, k, ino));
    }

    method AppendDouble(f: nat, ino: nat) returns (o: Outcome)
      requires Indexed() && f < |inodes| && L1(n) <= inodes[f].nblks < L2(n)
      modifies this`nextIno, this`unused, this`uses, this`tables, this`own, this`inodes, this`files
      ensures (o == Done || o == NoSpace) && Grows(old(uses), uses)
      ensures o == Done ==> Indexed() && files == old(files)[f := old(files[f]) + [ino]]
    {
      RowsFit(inodes[f].nblks - L1(n), n, n);
      var y;
      o, y := UpdateCache(inodes[f].l2, inodes[f].dbIndirect, f, Double);
      if o == Done {
        o := AppendLine(f, y, ino);
      }
    }

    /** The second half: the row of the new block, in the double-indirect table `y`. */
    method AppendLine(f: nat, y: nat, ino: nat) returns (o: Outcome)
      requires Indexed() && f < |inodes| && L1(n) <= inodes[f].nblks && Mine(tables, own, n, f, Double, y)
      requires Row(inodes[f].nblks - L1(n), n) < n
      requires var d := inodes[f].dbIndirect; if d != 0 then y == d else tables[y] == Zeros(n)
      modifies this`nextIno, this`unused, this`uses, this`tables, this`own, this`inodes, this`files
      ensures (o == Done || o == NoSpace) && Grows(old(uses), uses)
      ensures o == Done ==> Indexed() && files == old(files)[f := old(files[f]) + [ino]]
    {
      var nd := inodes[f];
      var j := nd.nblks - L1(n);
      var r, c := DivMod(j, n);
      LinesOf(tables, own, n, f, nd, y);
      CachedLine(tables, own, n, f, nd, y);
      ghost var b, was := tables, own;
      var x;
      o, x := UpdateCache(nd.l1, tables[y][r], f, Line(r));
      if o != Done {
        return;
      }
      LinesKept(b, was, tables, own, n, f, y, Rows(j, n));
      StoreLine(f, y, r, x, c, ino);
    }

    method StoreLine(f: nat, y: nat, r: nat, x: nat, c: nat, ino: nat)
      requires Indexed() && f < |inodes| && L1(n) <= inodes[f].nblks
      requires Mine(tables, own, n, f, Double, y) && Lines(tables, own, n, f, y, Rows(inodes[f].nblks - L1(n), n))
      requires inodes[f].dbIndirect != 0 ==> y == inodes[f].dbIndirect
      requires r == Row(inodes[f].nblks - L1(n), n) < n && c == Col(inodes[f].nblks - L1(n), n)
      requires Mine(tables, own, n, f, Line(r), x) && (c != 0 ==> x == tables[y][r])
      modifies this`tables, this`inodes, this`files
      ensures Indexed() && files == old(files)[f := old(files[f]) + [ino]]
    {
      var nd := inodes[f];
      DoubleStep(tables, own, n, f, nd, files[f], y, x, ino);
      WithLineOwn(tables, own, n, f, y, r, x, c, ino);
      Settle(f, ino, nd.(dbIndirect := y, l2 := y, l1 := x, nblks := nd.nblks + 1), WithLine(tables, y, r, x, c, ino));
    }

    /** __append_block: block `ino` becomes the next block of file `f`. */
    method AppendBlock(f: nat, ino: nat) returns (o: Outcome)
      requires Indexed() && f < |inodes|
      modifies this`nextIno, this`unused, this`uses, this`tables, this`own, this`inodes, this`files
      ensures (o == Done || o == NoSpace || o == TooBig) && (o == TooBig <==> |old(files[f])| >= maxBlocks)
      ensures Grows(old(uses), uses)
      ensures o == TooBig ==> Indexed() && files == old(files) && tables == old(tables) && inodes == old(inodes)
      ensures o == Done ==> Indexed() && files == old(files)[f := old(files[f]) + [ino]]
    {
      var nd := inodes[f];
      if nd.nblks >= maxBlocks {
        return TooBig;
      }
      if nd.nblks < NDIRECT {
        DirectStep(tables, own, n, f, nd, files[f], ino);
        Settle(f, ino, nd.(direct := nd.direct[nd.nblks := ino], nblks := nd.nblks + 1), tables);
        o := Done;
      } else if nd.nblks < L1(n) {
        o := AppendSingle(f, ino);
      } else {
        o := AppendDouble(f, ino);
      }
    }

    /** open_file, open_link and add_entry: a block is written and appended to file `f`. */
    method AddBlock(f: nat, p: Piece) returns (o: Outcome)
      requires Valid() && f < |numbers| && PieceOk(p, |numbers|)
      modifies this`nextIno, this`unused, this`uses, this`tables, this`own,
               this`inodes, this`files, this`pieces, this`disk
      ensures o == Done || o == NoSpace || (o == TooBig && |old(pieces[f])| >= maxBlocks)
      ensures o == Done ==> Valid() && pieces == old(pieces)[f := old(pieces[f]) + [p]]
    {
      var ino;
      o, ino := AllocIno(ForData);
      if o != Done {
        return;
      }
      OneMoreBlock(disk, files, pieces, numbers, f, ino, p);
      disk := disk[ino := Data(Encode(p, numbers))];
      o := AppendBlock(f, ino);
      pieces := pieces[f := pieces[f] + [p]];
    }

    /** close_sfs: the bitmap, the super block, the tables and the inodes are written, over
        no data and none over another, and every block of every file can be read back. */
    method CloseSfs()
      requires Valid()
      modifies this`disk
      ensures Mapped(disk, BLKN_FREEMAP, n, first - BLKN_FREEMAP, nextIno, ninos)
      ensures BLKN_SUPER in disk && disk[BLKN_SUPER] == Super(ninos, unused)
      ensures Flushed(old(disk), disk, tables, inodes, numbers) && |numbers| == |pieces| > 0 && numbers[0] == BLKN_ROOT
      ensures forall f: nat, i: nat | f < |pieces| && i < |pieces[f]| ::
                PieceOk(pieces[f][i], |numbers|)
                && ReadBlock(disk, n, numbers[f], i) == Some(Encode(pieces[f][i], numbers))
    {
      disk := WriteFront(disk, n, first, nextIno, ninos, unused, uses);
      disk := Flush(disk, tables, inodes, numbers, BLKN_ROOT, uses);
      AllReadBack(old(disk), disk, n, tables, own, inodes, files, pieces, numbers);
    }
  }

  // ----- from a directory tree to an image -----

  /** What the walk over the directories does: a new file or directory, or one more block. */
  datatype Step = NewFile | Block(file: nat, piece: Piece)

  /** Steps only speak of files there are. */
  predicate StepsOk(steps: seq<Step>, count: nat) {
    steps != [] ==>
      match steps[0]
      case NewFile => StepsOk(steps[1..], count + 1)
      case Block(f, p) => f < count && PieceOk(p, count) && StepsOk(steps[1..], count)
  }

  /** The files that are meant. */
  function Meant(steps: seq<Step>, pieces: seq<seq<Piece>>): seq<seq<Piece>>
    requires StepsOk(steps, |pieces|)
  {
    if steps == [] then pieces
    else
      match steps[0]
      case NewFile => Meant(steps[1..], pieces + [[]])
      case Block(f, p) => Meant(steps[1..], pieces[f := pieces[f] + [p]])
  }

  /** Whatever files are made and however their blocks are interleaved, an image that is
      completed holds every block of every file where the inodes on it say. */
  method BuildImage(size: nat, entries: nat, fileBlocks: nat, steps: seq<Step>)
    returns (o: Outcome, disk: Disk, numbers: seq<nat>)
    requires entries > 0 && fileBlocks <= L2(entries) && StepsOk(steps, 1)
    ensures o != Lost
    ensures o == Done ==> |numbers| == |Meant(steps, [[]])| > 0 && numbers[0] == BLKN_ROOT
    ensures o == Done ==> forall f: nat, i: nat | f < |numbers| && i < |Meant(steps, [[]])[f]| ::
              var p := Meant(steps, [[]])[f][i];
              PieceOk(p, |numbers|) && ReadBlock(disk, entries, numbers[f], i) == Some(Encode(p, numbers))
  {
    disk, numbers := map[], [];
    var img := CreateSfs(size, entries, fileBlocks);
    if img == null {
      return TooSmall, disk, numbers;
    }
    var k := 0;
    assert steps[0..] == steps;
    while k < |steps|
      invariant 0 <= k <= |steps| && img.Valid() && fresh(img) && img.n == entries
      invariant StepsOk(steps[k..], |img.pieces|) && Meant(steps[k..], img.pieces) == Meant(steps, [[]])
    {
      assert steps[k..][0] == steps[k] && steps[k..][1..] == steps[k + 1..];
      match steps[k] {
        case NewFile => o := img.AddFile();
        case Block(f, p) => o := img.AddBlock(f, p);
      }
      if o != Done {
        return;
      }
      k := k + 1;
    }
    assert img.pieces == Meant(steps, [[]]);
    img.CloseSfs();
    return Done, img.disk, img.numbers;
  }
}
