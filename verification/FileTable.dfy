/** The life of file descriptors: the slots of a file map, the calls in flight on
    them, and the opens of inodes they have to give back. Every method is one step
    that runs without interruption; a read or write is two steps, with any steps of
    other threads in between. The assertions are those of the code. */
module FileTable {

  type Node = int

  const NULL: Node := 0
  const NO_FD := -1

  datatype Status = Unused | Init | Opened | Closed

  datatype Slot = Slot(status: Status, pos: int, node: Node, count: int)

  /** What vfs_open and, for O_APPEND, vop_fstat come to. */
  datatype Outcome = NoInode | NoSize(node: Node) | Done(node: Node, pos: int)

  datatype Result = Fd(fd: int) | MaxOpen | Busy | Inval | Failed

  /** A slot with its environment: the inodes that the calls inside it work on, and the
      opens made for it that no vfs_close has undone. */
  datatype Cell = Cell(slot: Slot, inside: seq<Node>, due: seq<Node>) {

    predicate Ok() {
      && (forall i | 0 <= i < |inside| :: inside[i] == slot.node)
      && match slot.status
         case Unused => slot.count == 0 && inside == [] && due == []
         case Init => slot.count == 0 && inside == [] && due == []
         case Opened => slot.count == |inside| + 1 && slot.node != NULL && due == [slot.node]
         case Closed => slot.count == |inside| > 0 && slot.node != NULL && due == [slot.node]
    }

    /** What dup_fs makes of a closed slot: it owes a close that no call is there to make. */
    predicate Stuck() {
      slot.status == Closed && slot.count == 0 && slot.node != NULL && inside == [] && due == [slot.node]
    }

    function With(status: Status, count: int): Cell {
      this.(slot := slot.(status := status, count := count))
    }
  }

  // ----- the ledger of opens and closes -----

  /** A successful vfs_open or vop_open_inc, and a vfs_close. */
  datatype Event = OpenOf(node: Node) | CloseOf(node: Node)

  function Times(log: seq<Event>, e: Event): nat {
    if log == [] then 0 else Times(log[..|log| - 1], e) + if log[|log| - 1] == e then 1 else 0
  }

  function Owes(c: Cell, node: Node): nat {
    if node in c.due then 1 else 0
  }

  /** How many opens of the inode are still to be undone. */
  function Owed(cells: seq<Cell>, node: Node): nat {
    if cells == [] then 0 else Owes(cells[0], node) + Owed(cells[1..], node)
  }

  /** For every inode, the closes and what is still owed make up the opens. */
  ghost predicate Balanced(log: seq<Event>, cells: seq<Cell>) {
    forall node :: Times(log, OpenOf(node)) == Times(log, CloseOf(node)) + Owed(cells, node)
  }

  lemma {:induction false} OwedUpdate(cells: seq<Cell>, i: nat, c: Cell, node: Node)
    requires i < |cells|
    ensures Owed(cells[i := c], node) == Owed(cells, node) - Owes(cells[i], node) + Owes(c, node)
  {
    if i == 0 {
      assert cells[i := c][1..] == cells[1..];
    } else {
      assert cells[i := c][1..] == cells[1..][i - 1 := c];
      OwedUpdate(cells[1..], i - 1, c, node);
    }
  }

  lemma BalancedSame(log: seq<Event>, cells: seq<Cell>, i: nat, c: Cell)
    requires Balanced(log, cells) && i < |cells| && c.due == cells[i].due
    ensures Balanced(log, cells[i := c])
  {
    forall node ensures Times(log, OpenOf(node)) == Times(log, CloseOf(node)) + Owed(cells[i := c], node) {
      OwedUpdate(cells, i, c, node);
    }
  }

  lemma BalancedOpen(log: seq<Event>, cells: seq<Cell>, i: nat, c: Cell, x: Node)
    requires Balanced(log, cells) && i < |cells| && cells[i].due == [] && c.due == [x]
    ensures Balanced(log + [OpenOf(x)], cells[i := c])
  {
    forall node ensures Times(log + [OpenOf(x)], OpenOf(node))
                     == Times(log + [OpenOf(x)], CloseOf(node)) + Owed(cells[i := c], node) {
      OwedUpdate(cells, i, c, node);
      assert (log + [OpenOf(x)])[..|log|] == log;
    }
  }

  lemma BalancedClose(log: seq<Event>, cells: seq<Cell>, i: nat, c: Cell, x: Node)
    requires Balanced(log, cells) && i < |cells| && cells[i].due == [x] && c.due == []
    ensures Balanced(log + [CloseOf(x)], cells[i := c])
  {
    forall node ensures Times(log + [CloseOf(x)], OpenOf(node))
                     == Times(log + [CloseOf(x)], CloseOf(node)) + Owed(cells[i := c], node) {
      OwedUpdate(cells, i, c, node);
      assert (log + [CloseOf(x)])[..|log|] == log;
    }
  }

  /** An open that is undone at once. */
  lemma BalancedBoth(log: seq<Event>, cells: seq<Cell>, x: Node)
    requires Balanced(log, cells)
    ensures Balanced(log + [OpenOf(x), CloseOf(x)], cells)
  {
    var more := log + [OpenOf(x), CloseOf(x)];
    forall node ensures Times(more, OpenOf(node)) == Times(more, CloseOf(node)) + Owed(cells, node) {
      assert more[..|log| + 1] == log + [OpenOf(x)];
      assert (log + [OpenOf(x)])[..|log|] == log;
    }
  }

  lemma {:induction false} NoneOwed(cells: seq<Cell>, node: Node)
    requires forall i | 0 <= i < |cells| :: cells[i].due == []
    ensures Owed(cells, node) == 0
  {
    if cells != [] { NoneOwed(cells[1..], node); }
  }

  class FileMap {
    var cells: seq<Cell>
    ghost var log: seq<Event>
    ghost var stuck: set<int>   // slots that are stuck

    /** Consistent, except possibly for slot `fd`, which is not stuck. */
    ghost predicate ValidBut(fd: int)
      reads this
    {
      && Balanced(log, cells) && fd !in stuck && (forall i | i in stuck :: 0 <= i < |cells|)
      && forall i | 0 <= i < |cells| && i != fd :: if i in stuck then cells[i].Stuck() else cells[i].Ok()
    }

    /** Every slot accounts for its calls and its open, or is stuck. */
    ghost predicate Valid()
      reads this
    {
      ValidBut(NO_FD)
    }

    /** filemap_init */
    constructor (n: nat)
      ensures Valid() && |cells| == n && log == [] && stuck == {}
      ensures forall i | 0 <= i < n :: cells[i].slot.status == Unused
    {
      cells := seq(n, _ => Cell(Slot(Unused, 0, NULL, 0), [], []));
      log, stuck := [], {};
      new;
      forall node ensures Owed(cells, node) == 0 { NoneOwed(cells, node); }
    }

    predicate TestFd(fd: int)
      reads this
    {
      0 <= fd < |cells|
    }

    /** fd2file */
    predicate IsOpen(fd: int)
      reads this
    {
      TestFd(fd) && cells[fd].slot.status == Opened
    }

    /** A change to a slot that leaves what it owes. */
    method Write(fd: nat, c: Cell)
      requires Balanced(log, cells) && fd < |cells| && c.due == cells[fd].due
      modifies this`cells
      ensures Balanced(log, cells) && cells == old(cells)[fd := c]
    {
      BalancedSame(log, cells, fd, c);
      cells := cells[fd := c];
    }

    // ----- the slots -----

    /** filemap_alloc: the slot asked for, or the lowest unused one. */
    method FilemapAlloc(fd: int) returns (r: Result)
      requires Valid()
      modifies this`cells, this`log
      ensures Valid() && r != Failed && log == old(log)
      ensures r.Fd? ==>
                && 0 <= r.fd < |old(cells)| && old(cells)[r.fd].slot.status == Unused && old(cells)[r.fd].due == []
                && cells == old(cells)[r.fd := Cell(old(cells)[r.fd].slot.(status := Init, node := NULL), [], [])]
                && (if fd == NO_FD then forall i | 0 <= i < r.fd :: cells[i].slot.status != Unused else r.fd == fd)
      ensures !r.Fd? ==> cells == old(cells)
      ensures r == MaxOpen <==> fd == NO_FD && forall i | 0 <= i < |old(cells)| :: old(cells)[i].slot.status != Unused
      ensures r == Busy <==> fd != NO_FD && 0 <= fd < |old(cells)| && old(cells)[fd].slot.status != Unused
      ensures r == Inval <==> fd != NO_FD && !(0 <= fd < |old(cells)|)
    {
      var k := fd;
      if fd == NO_FD {
        k := 0;
        while k < |cells| && cells[k].slot.status != Unused
          invariant 0 <= k <= |cells|
          invariant forall i | 0 <= i < k :: cells[i].slot.status != Unused
        {
          k := k + 1;
        }
        if k == |cells| {
          return MaxOpen;
        }
      } else {
        if !TestFd(fd) {
          return Inval;
        }
        if cells[fd].slot.status != Unused {
          return Busy;
        }
      }
      assert cells[k].slot.count == 0;
      Write(k, cells[k].(slot := cells[k].slot.(status := Init, node := NULL)));
      return Fd(k);
    }

    /** vfs_close undoes the open made for the slot. */
    method VfsClose(fd: nat, node: Node)
      requires Balanced(log, cells) && fd < |cells| && cells[fd].due == [node] && cells[fd].inside == []
      modifies this`cells, this`log
      ensures Balanced(log, cells) && log == old(log) + [CloseOf(node)]
      ensures cells == old(cells)[fd := old(cells)[fd].(due := [])]
    {
      BalancedClose(log, cells, fd, cells[fd].(due := []), node);
      cells := cells[fd := cells[fd].(due := [])];
      log := log + [CloseOf(node)];
    }

    /** filemap_free: gives the inode back, with no call inside. */
    method FilemapFree(fd: nat)
      requires ValidBut(fd) && fd < |cells| && cells[fd].inside == [] && cells[fd].slot.count == 0
      requires cells[fd].due == if cells[fd].slot.status == Closed then [cells[fd].slot.node] else []
      requires cells[fd].slot.status == Init || cells[fd].slot.status == Closed
      modifies this`cells, this`log
      ensures Valid() && cells == old(cells)[fd := Cell(old(cells)[fd].slot.(status := Unused), [], [])]
      ensures log == old(log) + if old(cells)[fd].slot.status == Closed then [CloseOf(old(cells)[fd].slot.node)] else []
    {
      assert cells[fd].slot.status == Init || cells[fd].slot.status == Closed;
      assert cells[fd].slot.count == 0;
      if cells[fd].slot.status == Closed {
        VfsClose(fd, cells[fd].slot.node);
      }
      Write(fd, cells[fd].With(Unused, 0));
    }

    /** filemap_acquire: one more call inside. */
    method FilemapAcquire(fd: nat)
      requires Valid() && fd < |cells| && (cells[fd].slot.status == Opened || cells[fd].slot.status == Closed)
      modifies this`cells, this`stuck
      ensures Valid() && stuck == old(stuck) - {fd} && cells == old(cells)[fd := Entered(old(cells)[fd])]
    {
      var c := cells[fd];
      assert c.slot.status != Unused && c.slot.status != Init;
      stuck := stuck - {fd};
      Write(fd, c.With(c.slot.status, c.slot.count + 1).(inside := c.inside + [c.slot.node]));
    }

    /** filemap_release: one call less inside; the last one out of a closed slot frees it. */
    method FilemapRelease(fd: nat)
      requires Valid() && fd < |cells| && cells[fd].inside != []
      modifies this`cells, this`log
      ensures Valid() && old(log) <= log && cells == old(cells)[fd := Left(old(cells)[fd])]
    {
      var c := cells[fd];
      assert c.slot.status == Opened || c.slot.status == Closed;
      assert c.slot.count > 0;
      Write(fd, c.With(c.slot.status, c.slot.count - 1).(inside := c.inside[..|c.inside| - 1]));
      if cells[fd].slot.count == 0 {
        FilemapFree(fd);
      }
    }

    /** filemap_open, once an inode was opened for a reserved slot. Called on an open slot it
        would count a user that never leaves. */
    method FilemapOpen(fd: nat)
      requires ValidBut(fd) && fd < |cells| && cells[fd].slot.node != NULL
      requires cells[fd].slot.status == Init || cells[fd].slot.status == Opened
      modifies this`cells, this`log
      ensures cells == old(cells)[fd := old(cells)[fd].With(Opened, old(cells)[fd].slot.count + 1)]
      ensures ValidBut(fd) && log == old(log)
      ensures old(cells)[fd].slot.status == Opened && old(cells)[fd].Ok() ==> !Valid()
      ensures old(cells)[fd] == Cell(old(cells)[fd].slot.(status := Init, count := 0), [], [old(cells)[fd].slot.node])
                ==>
                Valid()
    {
      var c := cells[fd];
      assert (c.slot.status == Init || c.slot.status == Opened) && c.slot.node != NULL;
      Write(fd, c.With(Opened, c.slot.count + 1));
      assert c.slot.status == Opened && c.Ok() ==> !cells[fd].Ok();
    }

    /** The slot takes over an open of `node`, made by vfs_open or by vop_open_inc. */
    method TakeOver(fd: nat, node: Node, pos: int)
      requires Valid() && fd < |cells| && cells[fd].slot.status == Init && node != NULL
      modifies this`cells, this`log
      ensures Valid() && log == old(log) + [OpenOf(node)]
      ensures cells == old(cells)[fd := Cell(Slot(Opened, pos, node, 1), [], [node])]
    {
      var c := Cell(cells[fd].slot.(pos := pos, node := node), cells[fd].inside, [node]);
      BalancedOpen(log, cells, fd, c, node);
      cells := cells[fd := c];
      log := log + [OpenOf(node)];
      FilemapOpen(fd);
    }

    /** filemap_close: the inode is given back now, or by the last call inside. */
    method FilemapClose(fd: nat)
      requires Valid() && IsOpen(fd)
      modifies this`cells, this`log
      ensures Valid() && old(log) <= log && cells == old(cells)[fd := Shut(old(cells)[fd])]
    {
      var c := cells[fd];
      assert c.slot.status == Opened;
      assert c.slot.count > 0;
      Write(fd, c.With(Closed, c.slot.count - 1));
      if cells[fd].slot.count == 0 {
        FilemapFree(fd);
      }
    }

    // ----- the calls -----

    /** file_open up to vfs_open: a slot is reserved. */
    method OpenBegin() returns (r: Result)
      requires Valid()
      modifies this`cells, this`log
      ensures Valid() && log == old(log) && |cells| == |old(cells)|
      ensures r.Fd? ==> 0 <= r.fd < |cells| && old(cells)[r.fd].slot.status == Unused && cells[r.fd].slot.status == Init
      ensures forall i | 0 <= i < |cells| && r != Fd(i) :: cells[i] == old(cells)[i]
      ensures !r.Fd? <==> forall i | 0 <= i < |cells| :: old(cells)[i].slot.status != Unused
    {
      r := FilemapAlloc(NO_FD);
    }

    /** file_open from vfs_open on. */
    method OpenEnd(fd: nat, outcome: Outcome) returns (r: Result)
      requires Valid() && fd < |cells| && cells[fd].slot.status == Init && (outcome.Done? ==> outcome.node != NULL)
      modifies this`cells, this`log
      ensures Valid() && old(log) <= log && |cells| == |old(cells)|
      ensures match outcome
              case NoInode => r == Failed && cells[fd].slot.status == Unused && log == old(log)
              case NoSize(n) => r == Failed && cells[fd].slot.status == Unused
                        && log == old(log) + [OpenOf(n), CloseOf(n)]
              case Done(n, pos) =>
                r == Fd(fd) && cells[fd] == Cell(Slot(Opened, pos, n, 1), [], [n]) && log == old(log) + [OpenOf(n)]
      ensures forall i | 0 <= i < |cells| && i != fd :: cells[i] == old(cells)[i]
    {
      match outcome
      case NoInode =>
        FilemapFree(fd);
        r := Failed;
      case NoSize(n) =>
        BalancedBoth(log, cells, n);
        log := log + [OpenOf(n), CloseOf(n)];
        FilemapFree(fd);
        r := Failed;
      case Done(n, pos) =>
        TakeOver(fd, n, pos);
        r := Fd(fd);
    }

    /** file_close */
    method FileClose(fd: int) returns (r: Result)
      requires Valid()
      modifies this`cells, this`log
      ensures Valid() && old(log) <= log && |cells| == |old(cells)|
      ensures if old(IsOpen(fd)) then r == Fd(fd) && cells == old(cells)[fd := Shut(old(cells)[fd])]
              else r == Inval && cells == old(cells)
    {
      if !IsOpen(fd) {
        return Inval;
      }
      FilemapClose(fd);
      return Fd(fd);
    }

    /** file_read or file_write up to the transfer: the caller is inside. */
    method TransferBegin(fd: int) returns (r: Result, node: Node, pos: int)
      requires Valid()
      modifies this`cells, this`stuck
      ensures Valid() && stuck == old(stuck) && |cells| == |old(cells)|
      ensures if old(IsOpen(fd)) then
                && r == Fd(fd) && node == old(cells)[fd].slot.node && pos == old(cells)[fd].slot.pos
                && cells == old(cells)[fd := Entered(old(cells)[fd])]
              else r == Inval && cells == old(cells)
    {
      if !IsOpen(fd) {
        return Inval, NULL, 0;
      }
      node, pos := cells[fd].slot.node, cells[fd].slot.pos;
      FilemapAcquire(fd);
      return Fd(fd), node, pos;
    }

    /** The rest of it. Whatever others did, the slot is still that of the inode worked on. */
    method TransferEnd(fd: nat, copied: nat)
      requires Valid() && fd < |cells| && cells[fd].inside != []
      modifies this`cells, this`log
      ensures Valid() && old(log) <= log && |cells| == |old(cells)|
      ensures forall n | n in old(cells)[fd].inside :: n == old(cells)[fd].slot.node == cells[fd].slot.node
      ensures cells[fd].slot.pos == old(cells)[fd].slot.pos + if old(IsOpen(fd)) then copied else 0
      ensures cells[fd].due == [] <==> old(cells)[fd].slot.status == Closed && |old(cells)[fd].inside| == 1
      ensures forall i | 0 <= i < |cells| && i != fd :: cells[i] == old(cells)[i]
    {
      if cells[fd].slot.status == Opened {
        Write(fd, cells[fd].(slot := cells[fd].slot.(pos := cells[fd].slot.pos + copied)));
      }
      FilemapRelease(fd);
    }

    /** file_dup: the new slot gets an open of its own. */
    method FileDup(fd1: int, fd2: int) returns (r: Result)
      requires Valid()
      modifies this`cells, this`log
      ensures Valid() && old(log) <= log && |cells| == |old(cells)|
      ensures r.Fd? ==>
                && old(IsOpen(fd1)) && 0 <= r.fd < |cells| && old(cells)[r.fd].slot.status == Unused
                && log == old(log) + [OpenOf(old(cells)[fd1].slot.node)]
                && var from := old(cells)[fd1].slot;
                   cells == old(cells)[r.fd := Cell(Slot(Opened, from.pos, from.node, 1), [], [from.node])]
      ensures !r.Fd? ==> cells == old(cells) && log == old(log)
    {
      if !IsOpen(fd1) {
        return Inval;
      }
      r := FilemapAlloc(fd2);
      if r.Fd? {
        var from := cells[fd1].slot;
        assert cells[r.fd].slot.status == Init && from.status == Opened;
        TakeOver(r.fd, from.node, from.pos);
      }
    }

    // ----- whole file maps -----

    /** fs_destroy: the assertion on every slot holds, and every open has been given back, if
        and only if no slot is reserved or closed and no call is inside an open one. */
    method FsDestroy() returns (ok: bool)
      requires Valid()
      modifies this`cells, this`log
      ensures Valid() && old(log) <= log && |cells| == |old(cells)|
      ensures ok <==> forall i | 0 <= i < |cells| ::
                old(cells)[i].slot.status == Unused
                || (old(cells)[i].slot.status == Opened && old(cells)[i].inside == [])
      ensures ok ==> forall i | 0 <= i < |cells| :: cells[i].slot.status == Unused && cells[i].due == []
      ensures forall i | i in stuck :: cells[i] == old(cells)[i]
      ensures ok ==> forall node :: Times(log, OpenOf(node)) == Times(log, CloseOf(node))
    {
      var i := 0;
      while i < |cells|
        invariant Valid() && old(log) <= log && |cells| == |old(cells)| && 0 <= i <= |cells|
        invariant forall k | i <= k < |cells| :: cells[k] == old(cells)[k]
        invariant forall k | 0 <= k < i :: cells[k].slot.status == Unused
        invariant forall k | 0 <= k < i ::
          old(cells)[k].slot.status == Unused || (old(cells)[k].slot.status == Opened && old(cells)[k].inside == [])
      {
        if cells[i].slot.status == Opened {
          FilemapClose(i);
        }
        if cells[i].slot.status != Unused {
          return false;
        }
        i := i + 1;
      }
      forall node ensures Times(log, OpenOf(node)) == Times(log, CloseOf(node)) { NoneOwed(cells, node); }
      return true;
    }

    /** fs_closeall: its counter starts at 3 and its slot at 2, so slot 2 is closed and the
        last slot is not. */
    method FsCloseAll()
      requires Valid() && |cells| > 128
      modifies this`cells, this`log
      ensures Valid() && old(log) <= log && |cells| == |old(cells)|
      ensures forall k | 0 <= k < |cells| ::
                cells[k] == if 2 <= k < |cells| - 1 && old(cells)[k].slot.status == Opened then Shut(old(cells)[k])
                            else old(cells)[k]
    {
      var i, file := 3, 2;
      while i < |cells|
        invariant Valid() && old(log) <= log && |cells| == |old(cells)| && 3 <= i <= |cells| && file == i - 1
        invariant forall k | 0 <= k < |cells| ::
                    cells[k] == if 2 <= k < file && old(cells)[k].slot.status == Opened then Shut(old(cells)[k])
                                else old(cells)[k]
      {
        if cells[file].slot.status == Opened {
          FilemapClose(file);
        }
        i, file := i + 1, file + 1;
      }
    }

    /** A slot of the copy, with an open of its own. */
    method Copy(i: nat, status: Status, from: Slot)
      requires Balanced(log, cells) && i < |cells| && cells[i].due == []
      modifies this`cells, this`log
      ensures Balanced(log, cells) && log == old(log) + [OpenOf(from.node)]
      ensures var n := old(cells)[i].slot.count;
              cells == old(cells)[i := Cell(Slot(status, from.pos, from.node, n), [], [from.node])]
    {
      var c := Cell(Slot(status, from.pos, from.node, cells[i].slot.count), [], [from.node]);
      BalancedOpen(log, cells, i, c, from.node);
      cells := cells[i := c];
      log := log + [OpenOf(from.node)];
    }

    /** filemap_dup or filemap_dup_close on one slot; `ok` is false when its assertion fails. */
    method CopySlot(i: nat, from: Cell) returns (ok: bool)
      requires Balanced(log, cells) && i < |cells| && cells[i].slot.status == Unused && cells[i].Ok()
      requires from.Ok() || from.Stuck()
      modifies this`cells, this`log
      ensures Balanced(log, cells) && ok == (from.slot.status != Init)
      ensures |cells| == |old(cells)| && forall k | 0 <= k < |cells| && k != i :: cells[k] == old(cells)[k]
      ensures ok ==> Copied(cells[i], from)
    {
      var f := from.slot;
      if f.status == Opened {
        Copy(i, Init, f);
        var c := cells[i];
        assert (c.slot.status == Init || c.slot.status == Opened) && c.slot.node != NULL;
        Write(i, c.With(Opened, c.slot.count + 1));
      } else if f.status != Unused {
        if f.status != Closed {
          return false;
        }
        Copy(i, Closed, f);
      }
      return true;
    }

    /** dup_fs into this unused file map; `ok` is false when an assertion fails. */
    method DupFs(from: FileMap) returns (ok: bool)
      requires Valid() && from.Valid() && from != this && |cells| == |from.cells|
      requires forall i | 0 <= i < |cells| :: cells[i].slot.status == Unused
      modifies this
      ensures |cells| == |from.cells| && Balanced(log, cells)
      ensures ok <==> forall i | 0 <= i < |from.cells| :: from.cells[i].slot.status != Init
      ensures ok && stuck == {} <==> forall i | 0 <= i < |from.cells| :: from.cells[i].slot.status in {Unused, Opened}
      ensures ok ==> Valid() && forall i | 0 <= i < |cells| :: Copied(cells[i], from.cells[i])
      ensures ok ==> stuck == set i | 0 <= i < |from.cells| && from.cells[i].slot.status == Closed
    {
      var i := 0;
      while i < |cells|
        invariant 0 <= i <= |cells| == |from.cells| && Balanced(log, cells)
        invariant forall k | i <= k < |cells| :: cells[k].slot.status == Unused && cells[k].Ok()
        invariant forall k | 0 <= k < i :: Copied(cells[k], from.cells[k])
      {
        ok := CopySlot(i, from.cells[i]);
        if !ok {
          return;
        }
        i := i + 1;
      }
      stuck := set i | 0 <= i < |from.cells| && from.cells[i].slot.status == Closed;
      assert forall i | 0 <= i < |from.cells| && from.cells[i].slot.status == Closed :: i in stuck;
      return true;
    }
  }

  /** What dup_fs makes of a slot: a closed one can never be freed, its count is 0. */
  predicate Copied(c: Cell, from: Cell) {
    match from.slot.status
    case Unused => c.slot.status == Unused && c.Ok()
    case Init => false
    case Opened => c == Cell(Slot(Opened, from.slot.pos, from.slot.node, 1), [], [from.slot.node]) && c.Ok()
    case Closed => c == Cell(Slot(Closed, from.slot.pos, from.slot.node, 0), [], [from.slot.node]) && c.Stuck()
  }

  // ----- whole runs -----

  datatype Step =
    | DoOpenBegin
    | DoOpenEnd(fd: int, outcome: Outcome)
    | DoClose(fd: int)
    | DoBegin(fd: int)
    | DoEnd(fd: int, copied: nat)
    | DoDup(fd1: int, fd2: int)
    | DoCloseAll

  /** Any number of threads, interleaved in any order: every assertion above holds, every
      slot accounts for the calls inside it, and for every inode the closes and the opens
      still owed are the successful opens and dups. A stuck slot stays as it is. */
  method Run(m: FileMap, steps: seq<Step>)
    requires m.Valid()
    modifies m
    ensures m.Valid() && |m.cells| == |old(m.cells)| && old(m.log) <= m.log
    ensures forall node :: Times(m.log, OpenOf(node)) == Times(m.log, CloseOf(node)) + Owed(m.cells, node)
    ensures m.stuck == old(m.stuck) && forall i | i in m.stuck :: m.cells[i] == old(m.cells)[i]
  {
    for k := 0 to |steps|
      invariant m.Valid() && |m.cells| == |old(m.cells)| && old(m.log) <= m.log
      invariant m.stuck == old(m.stuck) && forall i | i in m.stuck :: m.cells[i] == old(m.cells)[i]
    {
      Do(m, steps[k]);
    }
  }

  /** One step; a step that no thread could take does nothing. */
  method Do(m: FileMap, step: Step)
    requires m.Valid()
    modifies m
    ensures m.Valid() && |m.cells| == |old(m.cells)| && old(m.log) <= m.log
    ensures m.stuck == old(m.stuck) && forall i | i in m.stuck :: m.cells[i] == old(m.cells)[i]
  {
    match step
    case DoOpenBegin => var r := m.OpenBegin();
    case DoOpenEnd(fd, outcome) =>
      if 0 <= fd < |m.cells| && m.cells[fd].slot.status == Init && (outcome.Done? ==> outcome.node != NULL) {
        var r := m.OpenEnd(fd, outcome);
      }
    case DoClose(fd) => var r := m.FileClose(fd);
    case DoBegin(fd) => var r, node, pos := m.TransferBegin(fd);
    case DoEnd(fd, copied) =>
      if 0 <= fd < |m.cells| && m.cells[fd].inside != [] {
        m.TransferEnd(fd, copied);
      }
    case DoDup(fd1, fd2) => var r := m.FileDup(fd1, fd2);
    case DoCloseAll =>
      if |m.cells| > 128 {
        m.FsCloseAll();
      }
  }

  /** A file map with one file, closed during a transfer. */
  method ClosedInTransfer(node: Node) returns (m: FileMap)
    requires node != NULL
    ensures fresh(m) && m.Valid() && m.cells == [Cell(Slot(Closed, 0, node, 1), [node], [node])]
  {
    m := new FileMap(1);
    assert m.cells[0].slot.status == Unused;
    var r := m.OpenBegin();
    r := m.OpenEnd(0, Done(node, 0));
    assert |m.cells| == 1 && m.cells[0] == Cell(Slot(Opened, 0, node, 1), [], [node]);
    var n, pos;
    r, n, pos := m.TransferBegin(0);
    assert |m.cells| == 1 && m.cells[0] == Cell(Slot(Opened, 0, node, 2), [] + [node], [node]);
    r := m.FileClose(0);
    assert |m.cells| == 1 && m.cells[0] == Cell(Slot(Closed, 0, node, 1), [node], [node]);
  }

  /** dup_fs passes its assertions on it, and the copy of the slot is closed with count 0. */
  method DupClosed(from: FileMap, node: Node) returns (to: FileMap)
    requires from.Valid() && from.cells == [Cell(Slot(Closed, 0, node, 1), [node], [node])]
    ensures fresh(to) && to.Valid() && to.stuck == {0} && to.cells == [Cell(Slot(Closed, 0, node, 0), [], [node])]
  {
    to := new FileMap(1);
    var ok := to.DupFs(from);
    assert ok && Copied(to.cells[0], from.cells[0]);
    assert to.stuck == {0};
  }

  /** Whatever calls follow, the copy stays so, and fs_destroy ends in a failing assertion. */
  method DupOfClosed(node: Node, steps: seq<Step>) returns (to: FileMap, gone: bool)
    requires node != NULL
    ensures to.Valid() && !gone && to.cells == [Cell(Slot(Closed, 0, node, 0), [], [node])]
  {
    var from := ClosedInTransfer(node);
    to := DupClosed(from, node);
    Run(to, steps);
    assert to.cells[0].slot.status == Closed;
    gone := to.FsDestroy();
  }

  /** A file being opened: an assertion of dup_fs fails. */
  method DupOfInit() returns (from: FileMap, to: FileMap, ok: bool)
    ensures from.Valid() && !ok
  {
    from := new FileMap(1);
    assert from.cells[0].slot.status == Unused;
    var r := from.OpenBegin();
    to := new FileMap(1);
    ok := to.DupFs(from);
  }

  /** A slot with one more call inside. */
  function Entered(c: Cell): Cell {
    c.With(c.slot.status, c.slot.count + 1).(inside := c.inside + [c.slot.node])
  }

  /** A slot that the last of its calls has left. */
  function Left(c: Cell): Cell
    requires c.inside != []
  {
    if c.slot.status == Closed && |c.inside| == 1 then Cell(c.slot.(status := Unused, count := 0), [], [])
    else c.With(c.slot.status, c.slot.count - 1).(inside := c.inside[..|c.inside| - 1])
  }

  /** An open slot after close. */
  function Shut(c: Cell): Cell {
    if c.inside == [] then Cell(c.slot.(status := Unused, count := 0), [], [])
    else c.With(Closed, c.slot.count - 1)
  }
}
