/** The block index of an SFS file: direct, indirect and double-indirect tables. The
    number of entries of a table is a parameter, for images of every block size. */
module SfsIndex {

  const NDIRECT: nat := 12

  /** The tables kept in memory, by block number. */
  type Tables = map<nat, seq<nat>>

  /** An inode, and the two tables it was last working on (0 for none). */
  datatype Inode = Inode(direct: seq<nat>, indirect: nat, dbIndirect: nat, nblks: nat, l1: nat, l2: nat)

  /** The block limit of the direct, indirect and double-indirect part. */
  function L1(n: nat): nat {
    n + NDIRECT
  }

  function L2(n: nat): nat {
    n * n + L1(n)
  }

  /** The entry `i` of the table `x`, if there is one. */
  function Entry(b: Tables, x: nat, i: nat): nat {
    if x in b && i < |b[x]| then b[x][i] else 0
  }

  /** Write the entry `i` of the table `x`. */
  function Put(b: Tables, x: nat, i: nat, v: nat): Tables
    requires x in b && i < |b[x]|
  {
    var t: seq<nat> := b[x][i := v];
    b[x := t]
  }

  /** The block number of the logical block `i`. */
  function Resolve(b: Tables, n: nat, nd: Inode, i: nat): nat
    requires n > 0 && |nd.direct| == NDIRECT
  {
    if i < NDIRECT then nd.direct[i]
    else if i < L1(n) then Entry(b, nd.indirect, i - NDIRECT)
    else Entry(b, Entry(b, nd.dbIndirect, Row(i - L1(n), n)), Col(i - L1(n), n))
  }

  // ----- rows of the double-indirect part -----

  /** The quotient: the table of block `j` of the double-indirect part. */
  function Row(j: nat, n: nat): nat
    requires n > 0
  {
    if j < n then 0 else 1 + Row(j - n, n)
  }

  /** The remainder: its place in that table. */
  function Col(j: nat, n: nat): (r: nat)
    requires n > 0
    ensures r < n
  {
    if j < n then j else Col(j - n, n)
  }

  lemma {:induction false} RowIsDiv(j: nat, n: nat)
    requires n > 0
    ensures Row(j, n) == j / n && Col(j, n) == j % n
  {
    if j >= n {
      RowIsDiv(j - n, n);
      DivIs(j, n, (j - n) / n + 1, (j - n) % n);
    } else {
      DivIs(j, n, 0, j);
    }
  }

  method DivMod(j: nat, n: nat) returns (r: nat, c: nat)
    requires n > 0
    ensures r == Row(j, n) && c == Col(j, n)
  {
    RowIsDiv(j, n);
    return j / n, j % n;
  }

  lemma DivIs(j: nat, n: nat, q: nat, r: nat)
    requires n > 0 && r < n && (q == 0 ==> j == r) && (q > 0 ==> j >= n && q - 1 == (j - n) / n && r == (j - n) % n)
    ensures j / n == q && j % n == r
  {
    var d := j / n - q;
    assert q * n + r == j by { if q > 0 { assert q * n == (q - 1) * n + n; } }
    assert d * n == (j / n) * n - q * n;
    var m: int := n;
    assert d > 0 ==> d * n >= n;
    assert d < 0 ==> d * n <= -m;
    assert -m < d * n < m;
  }

  /** The next block continues the row, or starts the next one. */
  lemma {:induction false} NextRow(j: nat, n: nat)
    requires n > 0
    ensures if Col(j + 1, n) == 0 then Row(j + 1, n) == Row(j, n) + 1
            else Row(j + 1, n) == Row(j, n) && Col(j + 1, n) == Col(j, n) + 1
  {
    if j >= n {
      NextRow(j - n, n);
      assert Row(j + 1, n) == 1 + Row(j + 1 - n, n) && Col(j + 1, n) == Col(j + 1 - n, n);
    } else if j + 1 == n {
      assert Row(n, n) == 1 + Row(0, n) && Col(n, n) == Col(0, n);
    }
  }

  lemma {:induction false} SameCell(i: nat, j: nat, n: nat)
    requires n > 0 && Row(i, n) == Row(j, n) && Col(i, n) == Col(j, n)
    ensures i == j
  {
    if i >= n && j >= n {
      assert Row(i, n) == 1 + Row(i - n, n) && Row(j, n) == 1 + Row(j - n, n);
      SameCell(i - n, j - n, n);
    }
  }

  lemma {:induction false} RowsRise(i: nat, j: nat, n: nat)
    requires n > 0 && i <= j
    ensures Row(i, n) <= Row(j, n)
  {
    if i >= n { RowsRise(i - n, j - n, n); }
  }

  lemma {:induction false} RowsFit(j: nat, m: nat, n: nat)
    requires n > 0 && j < m * n
    ensures Row(j, n) < m
    decreases m
  {
    if j >= n {
      assert (m - 1) * n == m * n - n;
      RowsFit(j - n, m - 1, n);
    }
  }

  /** How many tables the first `j` double-indirect blocks take. */
  function Rows(j: nat, n: nat): nat
    requires n > 0
  {
    if j == 0 then 0 else Row(j - 1, n) + 1
  }

  lemma RowsStep(j: nat, n: nat)
    requires n > 0
    ensures Rows(j + 1, n) == Row(j, n) + 1
    ensures Rows(j, n) == if Col(j, n) == 0 then Row(j, n) else Row(j, n) + 1
  {
    if j > 0 { NextRow(j - 1, n); }
  }

  /** An earlier block is in a row in use, and in another cell. */
  lemma EarlierCell(i: nat, j: nat, n: nat)
    requires n > 0 && i < j
    ensures Row(i, n) < Rows(j, n) && Row(i, n) <= Row(j, n)
    ensures Row(i, n) == Row(j, n) ==> Col(j, n) != 0 && Col(i, n) != Col(j, n)
  {
    RowsStep(j, n);
    RowsRise(i, j - 1, n);
    if Row(i, n) == Row(j, n) && Col(i, n) == Col(j, n) { SameCell(i, j, n); }
  }

  // ----- who uses which table -----

  datatype Role = Single | Double | Line(k: nat)

  datatype Owner = Owner(file: nat, role: Role)

  /** `x` is the table of file `f` in this role. */
  predicate Mine(b: Tables, own: map<nat, Owner>, n: nat, f: nat, role: Role, x: nat) {
    x != 0 && x in b && |b[x]| == n && x in own && own[x] == Owner(f, role)
  }

  /** The tables a file has, and that the cached ones are those in use. */
  ghost predicate Tabled(b: Tables, own: map<nat, Owner>, n: nat, f: nat, nd: Inode)
    requires n > 0
  {
    && |nd.direct| == NDIRECT
    && (if nd.nblks <= NDIRECT then nd.indirect == 0 else Mine(b, own, n, f, Single, nd.indirect))
    && (NDIRECT < nd.nblks <= L1(n) ==> nd.l1 == nd.indirect)
    && if nd.nblks <= L1(n) then nd.dbIndirect == 0
       else
         && Mine(b, own, n, f, Double, nd.dbIndirect) && nd.l2 == nd.dbIndirect
         && (forall k: nat | k < n ::
               if k < Rows(nd.nblks - L1(n), n) then Mine(b, own, n, f, Line(k), b[nd.dbIndirect][k])
               else b[nd.dbIndirect][k] == 0)
         && Rows(nd.nblks - L1(n), n) <= n
         && nd.l1 == b[nd.dbIndirect][Rows(nd.nblks - L1(n), n) - 1]
  }

  /** Every block resolves to what was appended there. */
  ghost predicate Resolves(b: Tables, n: nat, nd: Inode, a: seq<nat>)
    requires n > 0 && |nd.direct| == NDIRECT
  {
    nd.nblks == |a| && forall i: nat | i < |a| :: Resolve(b, n, nd, i) == a[i]
  }

  ghost predicate FileOk(b: Tables, own: map<nat, Owner>, n: nat, f: nat, nd: Inode, a: seq<nat>)
    requires n > 0
  {
    Tabled(b, own, n, f, nd) && Resolves(b, n, nd, a)
  }

  // ----- other files are not disturbed -----

  /** The tables of file `f` are where and what they were. */
  ghost predicate Undisturbed(b: Tables, own: map<nat, Owner>, b': Tables, own': map<nat, Owner>, f: nat) {
    forall x | x in own && own[x].file == f && x in b :: x in b' && x in own' && b'[x] == b[x] && own'[x] == own[x]
  }

  lemma OthersKept(b: Tables, own: map<nat, Owner>, b': Tables, own': map<nat, Owner>,
                   n: nat, f: nat, nd: Inode, a: seq<nat>)
    requires n > 0 && FileOk(b, own, n, f, nd, a) && Undisturbed(b, own, b', own', f)
    ensures FileOk(b', own', n, f, nd, a)
  {
    assert Tabled(b', own', n, f, nd);
    forall i: nat | i < |a| ensures Resolve(b', n, nd, i) == a[i] {
      assert Resolve(b, n, nd, i) == a[i];
      if i >= L1(n) {
        var j := i - L1(n);
        RowsRise(j, |a| - L1(n) - 1, n);
        assert Mine(b, own, n, f, Line(Row(j, n)), b[nd.dbIndirect][Row(j, n)]);
      }
    }
  }

  // ----- one more block -----

  lemma DirectStep(b: Tables, own: map<nat, Owner>, n: nat, f: nat, nd: Inode, a: seq<nat>, ino: nat)
    requires n > 0 && FileOk(b, own, n, f, nd, a) && nd.nblks < NDIRECT
    ensures FileOk(b, own, n, f, nd.(direct := nd.direct[nd.nblks := ino], nblks := nd.nblks + 1), a + [ino])
  {
    var nd' := nd.(direct := nd.direct[nd.nblks := ino], nblks := nd.nblks + 1);
    forall i: nat | i < |a + [ino]| ensures Resolve(b, n, nd', i) == (a + [ino])[i] {
      assert i < |a| ==> Resolve(b, n, nd, i) == a[i];
    }
  }

  lemma SingleStep(b: Tables, own: map<nat, Owner>, n: nat, f: nat, nd: Inode, a: seq<nat>, x: nat, ino: nat)
    requires n > 0 && FileOk(b, own, n, f, nd, a) && NDIRECT <= nd.nblks < L1(n)
    requires Mine(b, own, n, f, Single, x) && (nd.indirect != 0 ==> x == nd.indirect)
    ensures FileOk(Put(b, x, nd.nblks - NDIRECT, ino), own, n, f,
                   nd.(indirect := x, l1 := x, nblks := nd.nblks + 1), a + [ino])
  {
    var b' := Put(b, x, nd.nblks - NDIRECT, ino);
    var nd' := nd.(indirect := x, l1 := x, nblks := nd.nblks + 1);
    forall i: nat | i < |a + [ino]| ensures Resolve(b', n, nd', i) == (a + [ino])[i] {
      assert i < |a| ==> Resolve(b, n, nd, i) == a[i];
    }
  }

  /** The table `y` has the used rows in front, and then zeros. */
  ghost predicate Lines(b: Tables, own: map<nat, Owner>, n: nat, f: nat, y: nat, rows: nat) {
    && y in b && |b[y]| == n
    && forall k: nat | k < n :: if k < rows then Mine(b, own, n, f, Line(k), b[y][k]) else b[y][k] == 0
  }

  lemma LineAt(b: Tables, own: map<nat, Owner>, n: nat, f: nat, y: nat, rows: nat, k: nat)
    requires Lines(b, own, n, f, y, rows) && k < rows && k < n
    ensures Mine(b, own, n, f, Line(k), b[y][k])
  {
  }

  /** The tables after a block was written to row `r`, whose table is `x`. */
  function WithLine(b: Tables, y: nat, r: nat, x: nat, c: nat, ino: nat): Tables
    requires y in b && r < |b[y]| && x in b && c < |b[x]| && x != y
  {
    Put(Put(b, y, r, x), x, c, ino)
  }

  lemma WithLineOwn(b: Tables, own: map<nat, Owner>, n: nat, f: nat, y: nat, r: nat, x: nat, c: nat, ino: nat)
    requires Mine(b, own, n, f, Double, y) && Mine(b, own, n, f, Line(r), x) && r < n && c < n && b.Keys == own.Keys
    ensures WithLine(b, y, r, x, c, ino).Keys == b.Keys && OnlyOf(b, own, WithLine(b, y, r, x, c, ino), f)
  {
  }

  lemma LineStep(b: Tables, own: map<nat, Owner>, n: nat, f: nat, y: nat, j: nat, x: nat, ino: nat)
    requires n > 0 && Mine(b, own, n, f, Double, y) && Lines(b, own, n, f, y, Rows(j, n)) && Row(j, n) < n
    requires Mine(b, own, n, f, Line(Row(j, n)), x) && (Col(j, n) != 0 ==> x == b[y][Row(j, n)])
    ensures Lines(WithLine(b, y, Row(j, n), x, Col(j, n), ino), own, n, f, y, Rows(j + 1, n))
  {
    RowsStep(j, n);
    var r, b' := Row(j, n), WithLine(b, y, Row(j, n), x, Col(j, n), ino);
    forall k: nat | k < n
      ensures if k < Rows(j + 1, n) then Mine(b', own, n, f, Line(k), b'[y][k]) else b'[y][k] == 0
    {
      if k < r { assert Mine(b, own, n, f, Line(k), b[y][k]); }
    }
  }

  /** Another cell of the tables stays as it is. */
  lemma CellKept(b: Tables, y: nat, r: nat, x: nat, c: nat, ino: nat, k: nat, z: nat, d: nat)
    requires y in b && r < |b[y]| && x in b && c < |b[x]| && x != y
    requires k < |b[y]| && z == b[y][k] && z in b && z != y && (z == x <==> k == r) && (k, d) != (r, c)
    ensures var b' := WithLine(b, y, r, x, c, ino);
            Entry(b', Entry(b', y, k), d) == Entry(b, Entry(b, y, k), d)
  {
    var b' := WithLine(b, y, r, x, c, ino);
    assert b'[y] == b[y][r := x] && Entry(b', y, k) == z;
    if z == x { assert b'[z] == b[z][c := ino]; } else { assert b'[z] == b[z]; }
  }

  /** An earlier block of the double-indirect part stays where it is. */
  lemma LineKept(b: Tables, own: map<nat, Owner>, n: nat, f: nat, y: nat, j: nat, x: nat, ino: nat, i: nat)
    requires n > 0 && Mine(b, own, n, f, Double, y) && Lines(b, own, n, f, y, Rows(j, n)) && Row(j, n) < n
    requires Mine(b, own, n, f, Line(Row(j, n)), x) && (Col(j, n) != 0 ==> x == b[y][Row(j, n)])
    requires i < j
    ensures var b' := WithLine(b, y, Row(j, n), x, Col(j, n), ino);
            Entry(b', Entry(b', y, Row(i, n)), Col(i, n)) == Entry(b, Entry(b, y, Row(i, n)), Col(i, n))
  {
    EarlierCell(i, j, n);
    LineAt(b, own, n, f, y, Rows(j, n), Row(i, n));
    CellKept(b, y, Row(j, n), x, Col(j, n), ino, Row(i, n), b[y][Row(i, n)], Col(i, n));
  }

  lemma DoubleStep(b: Tables, own: map<nat, Owner>, n: nat, f: nat, nd: Inode, a: seq<nat>, y: nat, x: nat, ino: nat)
    requires n > 0 && FileOk(b, own, n, f, nd, a) && L1(n) <= nd.nblks
    requires Mine(b, own, n, f, Double, y) && Lines(b, own, n, f, y, Rows(nd.nblks - L1(n), n))
    requires nd.dbIndirect != 0 ==> y == nd.dbIndirect
    requires var j := nd.nblks - L1(n);
             && Row(j, n) < n && Mine(b, own, n, f, Line(Row(j, n)), x) && (Col(j, n) != 0 ==> x == b[y][Row(j, n)])
    ensures var j := nd.nblks - L1(n);
            FileOk(WithLine(b, y, Row(j, n), x, Col(j, n), ino), own, n, f,
                   nd.(dbIndirect := y, l2 := y, l1 := x, nblks := nd.nblks + 1), a + [ino])
  {
    var j := nd.nblks - L1(n);
    var b' := WithLine(b, y, Row(j, n), x, Col(j, n), ino);
    var nd' := nd.(dbIndirect := y, l2 := y, l1 := x, nblks := nd.nblks + 1);
    LineStep(b, own, n, f, y, j, x, ino);
    RowsStep(j, n);
    assert Tabled(b', own, n, f, nd');
    forall i: nat | i < |a + [ino]| ensures Resolve(b', n, nd', i) == (a + [ino])[i] {
      if i < |a| {
        assert Resolve(b, n, nd, i) == a[i];
        if i >= L1(n) { LineKept(b, own, n, f, y, j, x, ino, i - L1(n)); }
      }
    }
  }

  // ----- all files -----

  ghost predicate FilesOk(b: Tables, own: map<nat, Owner>, n: nat, nds: seq<Inode>, files: seq<seq<nat>>)
    requires n > 0
  {
    |nds| == |files| && forall f: nat | f < |nds| :: FileOk(b, own, n, f, nds[f], files[f])
  }

  function Zeros(n: nat): seq<nat> {
    seq(n, _ => 0)
  }

  /** A new empty table disturbs no file. */
  lemma FilesGrow(b: Tables, own: map<nat, Owner>, n: nat, nds: seq<Inode>, files: seq<seq<nat>>, x: nat, o: Owner)
    requires n > 0 && FilesOk(b, own, n, nds, files) && x !in b && x !in own
    ensures FilesOk(b[x := Zeros(n)], own[x := o], n, nds, files)
  {
    forall f: nat | f < |nds| ensures FileOk(b[x := Zeros(n)], own[x := o], n, f, nds[f], files[f]) {
      OthersKept(b, own, b[x := Zeros(n)], own[x := o], n, f, nds[f], files[f]);
    }
  }

  /** Only tables of file `f` differ. */
  ghost predicate OnlyOf(b: Tables, own: map<nat, Owner>, b': Tables, f: nat) {
    forall x | x in b :: x in b' && (b'[x] == b[x] || (x in own && own[x].file == f))
  }

  /** A change to the tables of one file disturbs no other. */
  lemma FilesStep(b: Tables, own: map<nat, Owner>, n: nat, nds: seq<Inode>, files: seq<seq<nat>>,
                  b': Tables, f: nat, nd: Inode, a: seq<nat>)
    requires n > 0 && FilesOk(b, own, n, nds, files) && f < |nds| && FileOk(b', own, n, f, nd, a)
    requires OnlyOf(b, own, b', f)
    ensures FilesOk(b', own, n, nds[f := nd], files[f := a])
  {
    var nds', files' := nds[f := nd], files[f := a];
    forall g: nat | g < |nds'| ensures FileOk(b', own, n, g, nds'[g], files'[g]) {
      if g != f { OthersKept(b, own, b', own, n, g, nds[g], files[g]); }
    }
  }

  /** The double-indirect table, also right after it was made. */
  lemma LinesOf(b: Tables, own: map<nat, Owner>, n: nat, f: nat, nd: Inode, y: nat)
    requires n > 0 && Tabled(b, own, n, f, nd) && nd.nblks >= L1(n) && y in b
    requires if nd.dbIndirect != 0 then y == nd.dbIndirect else b[y] == Zeros(n)
    ensures Lines(b, own, n, f, y, Rows(nd.nblks - L1(n), n))
  {
  }

  /** The row of the next block: its table is the cached one, or there is none yet. */
  lemma CachedLine(b: Tables, own: map<nat, Owner>, n: nat, f: nat, nd: Inode, y: nat)
    requires n > 0 && Tabled(b, own, n, f, nd) && L1(n) <= nd.nblks && Row(nd.nblks - L1(n), n) < n
    requires y in b && if nd.dbIndirect != 0 then y == nd.dbIndirect else b[y] == Zeros(n)
    ensures var j := nd.nblks - L1(n);
            && |b[y]| == n
            && (Col(j, n) == 0 <==> b[y][Row(j, n)] == 0)
            && (Col(j, n) != 0 ==> nd.l1 == b[y][Row(j, n)] && Mine(b, own, n, f, Line(Row(j, n)), nd.l1))
  {
    var j := nd.nblks - L1(n);
    LinesOf(b, own, n, f, nd, y);
    RowsStep(j, n);
  }

  /** No table is changed or given away. */
  ghost predicate Kept(b: Tables, own: map<nat, Owner>, b': Tables, own': map<nat, Owner>) {
    forall x | x in b && x in own :: x in b' && b'[x] == b[x] && x in own' && own'[x] == own[x]
  }

  lemma LinesKept(b: Tables, own: map<nat, Owner>, b': Tables, own': map<nat, Owner>, n: nat, f: nat, y: nat, rows: nat)
    requires Lines(b, own, n, f, y, rows) && y in own && Kept(b, own, b', own')
    ensures Lines(b', own', n, f, y, rows)
  {
    forall k: nat | k < n ensures if k < rows then Mine(b', own', n, f, Line(k), b'[y][k]) else b'[y][k] == 0 {
      if k < rows { assert Mine(b, own, n, f, Line(k), b[y][k]); }
    }
  }
}
