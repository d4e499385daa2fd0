/** What the blocks of an image are used for, and how a file is read from the disk alone. */
module SfsStore {
  import opened Wrappers
  import opened SfsIndex
  import opened SfsBitmap

  /** The use of a block that was handed out. */
  datatype Use = ForTable | ForInode(file: nat) | ForData

  type Uses = map<nat, Use>

  /** Blocks are handed out, and never taken back or given another use. */
  ghost predicate Grows(u: Uses, u': Uses) {
    forall x | x in u :: x in u' && u'[x] == u[x]
  }

  // ----- names -----

  /** The bytes that add_entry writes: as many as a name may have, with its NUL. */
  const ENTRY_BYTES: nat := 256

  /** The number of the inode in front of the name. */
  const INO_BYTES: nat := 4

  const MAX_FNAME_LEN: nat := 255

  /** What is written of a name. */
  function Written(name: string): string {
    if |name| <= ENTRY_BYTES - INO_BYTES then name else name[..ENTRY_BYTES - INO_BYTES]
  }

  /** A block of a file as the caller means it. */
  datatype Piece = Bytes(bytes: seq<bv8>) | Link(file: nat, name: string)

  predicate PieceOk(p: Piece, count: nat) {
    p.Link? ==> p.file < count && |p.name| <= MAX_FNAME_LEN
  }

  function Encode(p: Piece, numbers: seq<nat>): Content
    requires PieceOk(p, |numbers|)
  {
    match p
    case Bytes(b) => Raw(b)
    case Link(file, name) => Named(numbers[file], Written(name))
  }

  /** An entry names its file in full if and only if the name has at most 252 characters,
      although names of up to 255 are accepted. */
  lemma EntryExact(file: nat, name: string, numbers: seq<nat>)
    requires PieceOk(Link(file, name), |numbers|)
    ensures Encode(Link(file, name), numbers) == Named(numbers[file], name) <==> |name| <= 252
    ensures 252 < |name| ==> Encode(Link(file, name), numbers) == Encode(Link(file, name[..252]), numbers)
  {
    if |name| > 252 { assert |Written(name)| == 252; }
  }

  // ----- what the disk holds before the image is closed -----

  /** The inodes have blocks of their own; the root directory has the reserved one. */
  ghost predicate Numbered(numbers: seq<nat>, root: nat, uses: Uses) {
    && |numbers| > 0 && numbers[0] == root
    && forall f: nat | 1 <= f < |numbers| :: numbers[f] in uses && uses[numbers[f]] == ForInode(f)
  }

  ghost predicate OnlyData(disk: Disk, uses: Uses) {
    forall x | x in disk :: disk[x].Data? && x in uses && uses[x] == ForData
  }

  /** The blocks of a file hold its pieces. */
  ghost predicate Holds(disk: Disk, blocks: seq<nat>, pieces: seq<Piece>, numbers: seq<nat>) {
    && |blocks| == |pieces|
    && forall i: nat | i < |blocks| ::
         PieceOk(pieces[i], |numbers|) && blocks[i] in disk && disk[blocks[i]] == Data(Encode(pieces[i], numbers))
  }

  ghost predicate HoldsAll(disk: Disk, files: seq<seq<nat>>, pieces: seq<seq<Piece>>, numbers: seq<nat>) {
    |files| == |pieces| == |numbers| && forall f: nat | f < |files| :: Holds(disk, files[f], pieces[f], numbers)
  }

  lemma OneMoreFile(disk: Disk, files: seq<seq<nat>>, pieces: seq<seq<Piece>>, numbers: seq<nat>, ino: nat)
    requires HoldsAll(disk, files, pieces, numbers)
    ensures HoldsAll(disk, files + [[]], pieces + [[]], numbers + [ino])
  {
    forall f: nat | f < |files| + 1 ensures Holds(disk, (files + [[]])[f], (pieces + [[]])[f], numbers + [ino]) {
      if f < |files| { assert Holds(disk, files[f], pieces[f], numbers); }
    }
  }

  lemma OneMoreBlock(disk: Disk, files: seq<seq<nat>>, pieces: seq<seq<Piece>>, numbers: seq<nat>,
                     f: nat, ino: nat, p: Piece)
    requires HoldsAll(disk, files, pieces, numbers) && f < |files| && PieceOk(p, |numbers|) && ino !in disk
    ensures HoldsAll(disk[ino := Data(Encode(p, numbers))],
                     files[f := files[f] + [ino]], pieces[f := pieces[f] + [p]], numbers)
  {
    var disk' := disk[ino := Data(Encode(p, numbers))];
    var files', pieces' := files[f := files[f] + [ino]], pieces[f := pieces[f] + [p]];
    forall g: nat | g < |files| ensures Holds(disk', files'[g], pieces'[g], numbers) {
      assert Holds(disk, files[g], pieces[g], numbers);
    }
  }

  // ----- reading the finished image -----

  function TablesOf(disk: Disk): Tables {
    map x | x in disk && disk[x].Table? :: disk[x].entries
  }

  function OnDisk(nd: Inode): Block {
    Node(nd.direct, nd.indirect, nd.dbIndirect, nd.nblks)
  }

  /** The logical block `i` of the file whose inode is in block `at`. */
  function ReadBlock(disk: Disk, n: nat, at: nat, i: nat): Option<Content>
    requires n > 0
  {
    if at !in disk || !disk[at].Node? || i >= disk[at].blocks || |disk[at].direct| != NDIRECT then None
    else
      var nd := Inode(disk[at].direct, disk[at].indirect, disk[at].dbIndirect, disk[at].blocks, 0, 0);
      var x := Resolve(TablesOf(disk), n, nd, i);
      if x in disk && disk[x].Data? then Some(disk[x].content) else None
  }

  /** The tables and inodes that close_sfs writes, on top of the data. */
  ghost predicate Flushed(before: Disk, disk: Disk, tables: Tables, inodes: seq<Inode>, numbers: seq<nat>) {
    && |inodes| == |numbers|
    && TablesOf(disk) == tables
    && (forall f: nat | f < |inodes| :: numbers[f] in disk && disk[numbers[f]] == OnDisk(inodes[f]))
    && (forall x | x in before :: x in disk && disk[x] == before[x])
  }

  /** No block is overwritten. */
  ghost predicate Extends(disk: Disk, disk': Disk) {
    forall x | x in disk :: x in disk' && disk'[x] == disk[x]
  }

  /** flush_cache_block for all tables, in any order. */
  method FlushTables(before: Disk, tables: Tables) returns (disk: Disk)
    requires before.Keys !! tables.Keys && forall x | x in before :: !before[x].Table?
    ensures Extends(before, disk) && TablesOf(disk) == tables
    ensures forall x | x in disk :: x in before || x in tables
  {
    disk := before;
    var todo := tables.Keys;
    while todo != {}
      invariant todo <= tables.Keys && Extends(before, disk)
      invariant forall x | x in disk :: x in before || x in tables
      invariant forall x | x in tables && x !in todo :: x in disk && disk[x] == Table(tables[x])
      decreases |todo|
    {
      var x :| x in todo;
      disk := disk[x := Table(tables[x])];
      todo := todo - {x};
    }
    TablesAre(before, disk, tables);
  }

  lemma TablesAre(before: Disk, disk: Disk, tables: Tables)
    requires before.Keys !! tables.Keys && Extends(before, disk)
    requires forall x | x in before :: !before[x].Table?
    requires forall x | x in disk :: x in before || x in tables
    requires forall x | x in tables :: x in disk && disk[x] == Table(tables[x])
    ensures TablesOf(disk) == tables
  {
    assert TablesOf(disk).Keys == tables.Keys;
  }

  /** flush_cache_inode for all inodes. */
  method FlushInodes(before: Disk, inodes: seq<Inode>, numbers: seq<nat>) returns (disk: Disk)
    requires |inodes| == |numbers| && forall f: nat | f < |numbers| :: numbers[f] !in before
    requires forall f: nat, g: nat | f < g < |numbers| :: numbers[f] != numbers[g]
    ensures Extends(before, disk) && TablesOf(disk) == TablesOf(before)
    ensures forall f: nat | f < |inodes| :: numbers[f] in disk && disk[numbers[f]] == OnDisk(inodes[f])
    ensures forall x | x in disk :: x in before || x in numbers
  {
    disk := before;
    for f := 0 to |inodes|
      invariant Extends(before, disk)
      invariant forall g: nat | g < f :: numbers[g] in disk && disk[numbers[g]] == OnDisk(inodes[g])
      invariant forall x | x in disk && x !in before :: disk[x].Node? && x in numbers
    {
      disk := disk[numbers[f] := OnDisk(inodes[f])];
    }
    assert TablesOf(disk).Keys == TablesOf(before).Keys;
  }

  /** The blocks of the inodes are all different, and outside those of tables and data. */
  lemma NumbersApart(numbers: seq<nat>, root: nat, uses: Uses)
    requires Numbered(numbers, root, uses) && root !in uses
    ensures forall f: nat, g: nat | f < g < |numbers| :: numbers[f] != numbers[g]
    ensures forall f: nat | f < |numbers| :: numbers[f] == root || (numbers[f] in uses && uses[numbers[f]].ForInode?)
  {
    assert forall f: nat | 1 <= f < |numbers| :: uses[numbers[f]] == ForInode(f);
  }

  /** Every block of every file is read back from the finished image. */
  lemma ReadsBack(before: Disk, disk: Disk, n: nat, tables: Tables, own: map<nat, Owner>, inodes: seq<Inode>,
                  files: seq<seq<nat>>, pieces: seq<seq<Piece>>, numbers: seq<nat>, f: nat, i: nat)
    requires n > 0 && Flushed(before, disk, tables, inodes, numbers)
    requires FilesOk(tables, own, n, inodes, files) && HoldsAll(before, files, pieces, numbers)
    requires f < |files| && i < |files[f]|
    ensures PieceOk(pieces[f][i], |numbers|)
    ensures ReadBlock(disk, n, numbers[f], i) == Some(Encode(pieces[f][i], numbers))
  {
    assert FileOk(tables, own, n, f, inodes[f], files[f]);
    assert Resolve(tables, n, inodes[f], i) == files[f][i];
    assert Holds(before, files[f], pieces[f], numbers);
    assert files[f][i] in before;
  }

  lemma AllReadBack(before: Disk, disk: Disk, n: nat, tables: Tables, own: map<nat, Owner>, inodes: seq<Inode>,
                    files: seq<seq<nat>>, pieces: seq<seq<Piece>>, numbers: seq<nat>)
    requires n > 0 && Flushed(before, disk, tables, inodes, numbers)
    requires FilesOk(tables, own, n, inodes, files) && HoldsAll(before, files, pieces, numbers)
    ensures forall f: nat, i: nat | f < |pieces| && i < |pieces[f]| ::
              PieceOk(pieces[f][i], |numbers|)
              && ReadBlock(disk, n, numbers[f], i) == Some(Encode(pieces[f][i], numbers))
  {
    forall f: nat, i: nat | f < |pieces| && i < |pieces[f]|
      ensures PieceOk(pieces[f][i], |numbers|)
              && ReadBlock(disk, n, numbers[f], i) == Some(Encode(pieces[f][i], numbers))
    {
      assert Holds(before, files[f], pieces[f], numbers);
      ReadsBack(before, disk, n, tables, own, inodes, files, pieces, numbers, f, i);
    }
  }

  /** The second half of close_sfs: `front` is the disk with data, bitmap and super block. */
  method Flush(front: Disk, tables: Tables, inodes: seq<Inode>, numbers: seq<nat>, ghost root: nat, ghost uses: Uses)
    returns (disk: Disk)
    requires forall x | x in front :: !front[x].Table? && x != root && (x in uses ==> uses[x] == ForData)
    requires forall x | x in tables :: x in uses && uses[x] == ForTable
    requires Numbered(numbers, root, uses) && root !in uses && |inodes| == |numbers|
    ensures Extends(front, disk) && TablesOf(disk) == tables
    ensures forall f: nat | f < |inodes| :: numbers[f] in disk && disk[numbers[f]] == OnDisk(inodes[f])
  {
    disk := FlushTables(front, tables);
    NumbersApart(numbers, root, uses);
    disk := FlushInodes(disk, inodes, numbers);
  }
}
