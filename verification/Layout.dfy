/** layout_sections: where the sections of a kernel module go in its core area and in
    its init area. */
module Layout {
  import opened Bits

  /** A place in one of the two areas. */
  datatype Place = Unplaced | Core(at: nat) | InitArea(at: nat)

  /** A section: its flags, whether its name starts with ".init", and the place it is given. */
  datatype Section = Section(exec: bool, alloc: bool, write: bool, init: bool, size: nat, align: nat, place: Place)

  // ----- one section -----

  function AlignOf(s: Section): nat {
    if s.align == 0 then 1 else s.align
  }

  /** Rounding up to a multiple. */
  function Align(x: nat, a: nat): nat
    requires a > 0
  {
    x + a - 1 - (x + a - 1) % a
  }

  lemma AlignUp(x: nat, a: nat)
    requires a > 0
    ensures x <= Align(x, a) < x + a && Align(x, a) % a == 0
  {
    var y := x + a - 1;
    assert Align(x, a) == (y / a) * a;
    MultipleOf(y / a, a);
  }

  lemma MultipleOf(q: nat, a: nat)
    requires a > 0
    ensures (q * a) % a == 0
  {
    var r := (q * a) % a;
    var d := q - (q * a) / a;
    assert q * a == ((q * a) / a) * a + r;
    assert d * a == q * a - ((q * a) / a) * a;
    assert d >= 1 ==> d * a >= a;
    assert d <= 0 ==> d * a <= 0;
  }

  /** The pass of the loop over the masks that takes the section. */
  function Pass(s: Section): nat {
    if s.exec then 0 else if !s.write then 1 else 2
  }

  /** The masks, with no flag for small sections. */
  predicate Masked(m: nat, exec: bool, alloc: bool, write: bool) {
    match m
    case 0 => exec && alloc
    case 1 => alloc && !write
    case 2 => write && alloc
    case _ => alloc
  }

  predicate Taken(m: nat, s: Section, init: bool) {
    Masked(m, s.exec, s.alloc, s.write) && s.place.Unplaced? && s.init == init
  }

  function PlaceIn(init: bool, at: nat): Place {
    if init then InitArea(at) else Core(at)
  }

  // ----- an area -----

  predicate Here(s: Section, init: bool) {
    if init then s.place.InitArea? else s.place.Core?
  }

  /** Aligned, and between `lo` and `hi`. */
  predicate Fits(s: Section, lo: nat, hi: nat) {
    !s.place.Unplaced? ==> lo <= s.place.at && s.place.at + s.size <= hi && s.place.at % AlignOf(s) == 0
  }

  predicate Apart(s: Section, t: Section) {
    !s.place.Unplaced? && !t.place.Unplaced? ==>
      s.place.at + s.size <= t.place.at || t.place.at + t.size <= s.place.at
  }

  /** The section comes before place `i` of pass `m`. */
  predicate Before(s: Section, k: nat, m: nat, i: nat) {
    Pass(s) < m || (Pass(s) == m && k < i)
  }

  /** Up to place `i` of pass `m` the sections of the area are placed, one behind the other. */
  ghost predicate Placed(s: seq<Section>, init: bool, m: nat, i: nat, lo: nat, cur: nat) {
    && lo <= cur
    && (forall k | 0 <= k < |s| :: Here(s[k], init) <==> s[k].alloc && s[k].init == init && Before(s[k], k, m, i))
    && (forall k | 0 <= k < |s| :: Here(s[k], init) ==> Fits(s[k], lo, cur))
    && (forall j, k | 0 <= j < k < |s| :: Here(s[j], init) && Here(s[k], init) ==> Apart(s[j], s[k]))
  }

  /** Executable sections end before `text`, all others start behind it. */
  ghost predicate TextFirst(s: seq<Section>, init: bool, text: nat) {
    forall k | 0 <= k < |s| && Here(s[k], init) ::
      if s[k].exec then s[k].place.at + s[k].size <= text else text <= s[k].place.at
  }

  /** Sections keep everything but their places, and those not of this area also these. */
  ghost predicate OnlyPlaces(s: seq<Section>, t: seq<Section>, init: bool) {
    |t| == |s| && forall k | 0 <= k < |s| ::
      t[k] == s[k].(place := t[k].place) && ((s[k].alloc && s[k].init == init) || t[k] == s[k])
  }

  /** A section of this area is not placed in the other one. */
  ghost predicate Own(s: seq<Section>, init: bool) {
    forall k | 0 <= k < |s| && s[k].init == init :: s[k].place.Unplaced? || Here(s[k], init)
  }

  /** What pass `m` placed starts at `start` or behind, and nothing else moved. */
  ghost predicate PassOnly(s: seq<Section>, t: seq<Section>, init: bool, m: nat, i: nat, start: nat) {
    && OnlyPlaces(s, t, init)
    && (forall k | 0 <= k < |s| && (Pass(t[k]) != m || k >= i) :: t[k] == s[k])
    && (forall k | 0 <= k < |s| && k < i && Pass(t[k]) == m && Here(t[k], init) :: start <= t[k].place.at)
  }

  lemma PlaceStep(s: seq<Section>, init: bool, m: nat, i: nat, lo: nat, cur: nat, at: nat)
    requires Placed(s, init, m, i, lo, cur) && i < |s| && cur <= at && at % AlignOf(s[i]) == 0
    requires s[i].alloc && s[i].init == init && Pass(s[i]) == m
    ensures Placed(s[i := s[i].(place := PlaceIn(init, at))], init, m, i + 1, lo, at + s[i].size)
  {
    var t := s[i := s[i].(place := PlaceIn(init, at))];
    forall k | 0 <= k < |t| ensures Here(t[k], init) <==> t[k].alloc && t[k].init == init && Before(t[k], k, m, i + 1) {
      assert k != i ==> t[k] == s[k];
    }
    forall j, k | 0 <= j < k < |t| && Here(t[j], init) && Here(t[k], init) ensures Apart(t[j], t[k]) {
      assert j != i ==> t[j] == s[j];
      assert k != i ==> t[k] == s[k];
    }
  }

  lemma SkipStep(s: seq<Section>, init: bool, m: nat, i: nat, lo: nat, cur: nat)
    requires Placed(s, init, m, i, lo, cur) && i < |s|
    requires !(s[i].alloc && s[i].init == init && Pass(s[i]) == m)
    ensures Placed(s, init, m, i + 1, lo, cur)
  {
  }

  /** Where the loop over the sections stands in pass `m`, which started at `start`. */
  ghost predicate Stands(s: seq<Section>, t: seq<Section>, init: bool, m: nat, i: nat, lo: nat, start: nat, size: nat) {
    Placed(t, init, m, i, lo, size) && Own(t, init) && PassOnly(s, t, init, m, i, start) && start <= size
  }

  /** A section taken in this pass. */
  lemma TakeStep(s: seq<Section>, t: seq<Section>, init: bool, m: nat, i: nat, lo: nat, start: nat, size: nat, at: nat)
    requires Stands(s, t, init, m, i, lo, start, size) && i < |t| && at == Align(size, AlignOf(t[i]))
    requires Taken(m, t[i], init)
    ensures Stands(s, t[i := t[i].(place := PlaceIn(init, at))], init, m, i + 1, lo, start, at + t[i].size)
  {
    AlignUp(size, AlignOf(t[i]));
    PlaceStep(t, init, m, i, lo, size, at);
    PassStep(s, t, init, m, i, start, at);
  }

  /** A section left for another pass or area, or for none. */
  lemma LeaveStep(s: seq<Section>, t: seq<Section>, init: bool, m: nat, i: nat, lo: nat, start: nat, size: nat)
    requires Stands(s, t, init, m, i, lo, start, size) && i < |t|
    requires !Taken(m, t[i], init)
    ensures Stands(s, t, init, m, i + 1, lo, start, size)
  {
    SkipStep(t, init, m, i, lo, size);
  }

  lemma PassStep(s: seq<Section>, t: seq<Section>, init: bool, m: nat, i: nat, start: nat, at: nat)
    requires PassOnly(s, t, init, m, i, start) && Own(t, init) && i < |t| && start <= at
    requires t[i].alloc && t[i].init == init && Pass(t[i]) == m
    ensures var u := t[i := t[i].(place := PlaceIn(init, at))]; PassOnly(s, u, init, m, i + 1, start) && Own(u, init)
  {
  }

  /** The next pass goes on where this one ended. */
  lemma NextPass(s: seq<Section>, init: bool, m: nat, lo: nat, cur: nat)
    requires Placed(s, init, m, |s|, lo, cur)
    ensures Placed(s, init, m + 1, 0, lo, cur)
  {
  }

  /** Text stays first: after the first pass only other sections are placed. */
  lemma TextKept(s: seq<Section>, t: seq<Section>, init: bool, m: nat, start: nat, text: nat)
    requires TextFirst(s, init, text) && PassOnly(s, t, init, m, |s|, start) && text <= start && m > 0
    ensures TextFirst(t, init, text)
  {
  }

  // ----- the room that is needed -----

  function Need(s: Section, init: bool): nat {
    if s.alloc && s.init == init then s.size + AlignOf(s) - 1 else 0
  }

  /** What the first `k` sections of an area need at most. */
  function Total(s: seq<Section>, init: bool, k: nat): nat
    requires k <= |s|
  {
    if k == 0 then 0 else Total(s, init, k - 1) + Need(s[k - 1], init)
  }

  /** What those of them need that have their place. */
  function Used(s: seq<Section>, init: bool, k: nat): nat
    requires k <= |s|
  {
    if k == 0 then 0
    else Used(s, init, k - 1) + if Here(s[k - 1], init) then Need(s[k - 1], init) else 0
  }

  lemma {:induction false} TotalSame(s: seq<Section>, t: seq<Section>, init: bool, k: nat)
    requires k <= |s| == |t| && forall j | 0 <= j < |s| :: t[j] == s[j].(place := t[j].place)
    ensures Total(t, init, k) == Total(s, init, k)
  {
    if k > 0 { TotalSame(s, t, init, k - 1); }
  }

  /** A section without a place still has its room. */
  lemma {:induction false} RoomLeft(s: seq<Section>, init: bool, i: nat, k: nat)
    requires k <= |s| && i < |s| && !Here(s[i], init)
    ensures Used(s, init, k) + (if i < k then Need(s[i], init) else 0) <= Total(s, init, k)
  {
    if k > 0 { RoomLeft(s, init, i, k - 1); }
  }

  lemma {:induction false} UsedStep(s: seq<Section>, init: bool, i: nat, p: Place, k: nat)
    requires k <= |s| && i < |s| && !Here(s[i], init) && Here(s[i].(place := p), init)
    ensures Used(s[i := s[i].(place := p)], init, k) == Used(s, init, k) + if i < k then Need(s[i], init) else 0
  {
    if k > 0 { UsedStep(s, init, i, p, k - 1); }
  }

  // ----- section headers -----

  const WORD: nat := 0x1_0000_0000

  /** INIT_OFFSET_MASK */
  const MARK: nat := 0x8000_0000

  /** The value for "no offset yet": all ones. */
  const NO_OFFSET: nat := WORD - 1

  type Word = x: int | 0 <= x < 0x1_0000_0000

  lemma PowersAre()
    ensures Pow2(32) == WORD && Pow2(31) == MARK
  {
    assert Pow2(4) == 16;
    Pow2Add(4, 4);
    Pow2Add(8, 8);
    Pow2Add(16, 16);
  }

  /** A section header. layout_sections keeps the place in the entry size. */
  datatype Header = Header(exec: bool, alloc: bool, write: bool, init: bool, size: Word, align: Word, entsize: Word)

  /** The sum of two words, as a word. */
  function Wrap(x: Word, y: Word): Word {
    if x + y < WORD then x + y else x + y - WORD
  }

  /** ALIGN, for a mask of one word. */
  function AlignMask(x: Word, a: Word): Word
    requires a > 0
  {
    AndLess(Wrap(x, a - 1), WORD - a);
    And(Wrap(x, a - 1), WORD - a)
  }

  ghost predicate PowerOfTwo(a: nat) {
    exists k: nat | k < 32 :: a == Pow2(k)
  }

  /** The mask rounds up to a multiple. */
  lemma AlignMaskRounds(x: Word, a: Word)
    requires PowerOfTwo(a) && x + a - 1 < WORD
    ensures a > 0 && AlignMask(x, a) == Align(x, a)
  {
    var k: nat :| k < 32 && a == Pow2(k);
    PowersAre();
    AndRounds(x + a - 1, 32, k);
  }

  /** The entry size for a place. */
  function Marked(init: bool, at: Word): Word {
    PowersAre();
    OrFits(at, MARK, 32);
    if init then Or(at, MARK) else at
  }

  /** What the loader takes the entry size for, when it copies a section. */
  function Destination(w: Word): Place {
    if And(w, MARK) != 0 then InitArea(And(w, WORD - 1 - MARK)) else Core(w)
  }

  /** The code of a place. */
  function Code(p: Place): nat {
    match p
    case Unplaced => NO_OFFSET
    case Core(at) => at
    case InitArea(at) => at + MARK
  }

  /** Below the bound the mark is not part of the offset, and a marked offset is not the
      value for none; just at the bound it is. */
  lemma MarkedCode(init: bool, at: Word)
    requires at < MARK
    ensures Marked(init, at) == Code(PlaceIn(init, at))
    ensures Marked(init, at) != NO_OFFSET <==> !init || at != MARK - 1
    ensures Destination(Marked(init, at)) == PlaceIn(init, at)
  {
    PowersAre();
    MarkBit(at, 31);
  }

  /** A header says what a section is and where it was placed. */
  predicate Couples(h: Header, s: Section) {
    && s == Section(h.exec, h.alloc, h.write, h.init, h.size, h.align, s.place)
    && h.entsize == Code(s.place) && (s.place.Unplaced? || s.place.at < MARK - 1)
  }

  predicate AllCouple(hs: seq<Header>, ss: seq<Section>) {
    |hs| == |ss| && forall k | 0 <= k < |hs| :: Couples(hs[k], ss[k])
  }

  ghost predicate Aligned(ss: seq<Section>) {
    forall k | 0 <= k < |ss| :: PowerOfTwo(AlignOf(ss[k]))
  }

  /** The area fits below the mark. */
  ghost predicate Roomy(ss: seq<Section>, init: bool, lo: nat) {
    Aligned(ss) && lo + Total(ss, init, |ss|) < MARK - 1
  }

  /** The room does not depend on places. */
  lemma StillRoomy(s: seq<Section>, t: seq<Section>, init: bool, lo: nat)
    requires Roomy(s, init, lo) && |t| == |s| && forall k | 0 <= k < |s| :: t[k] == s[k].(place := t[k].place)
    ensures Roomy(t, init, lo)
  {
    TotalSame(s, t, init, |s|);
    forall k | 0 <= k < |t| ensures PowerOfTwo(AlignOf(t[k])) { assert PowerOfTwo(AlignOf(s[k])); }
  }

  /** Where the loop over the headers stands. */
  ghost predicate Follows(hs: seq<Header>, s: seq<Section>, t: seq<Section>,
                          init: bool, m: nat, i: nat, lo: nat, start: nat, size: nat) {
    && AllCouple(hs, t) && Stands(s, t, init, m, i, lo, start, size)
    && Roomy(t, init, lo) && size <= lo + Used(t, init, |t|)
  }

  /** What one header needs stays below the mark. */
  lemma OneFits(t: seq<Section>, init: bool, m: nat, i: nat, lo: nat, size: nat)
    requires i < |t| && Roomy(t, init, lo) && size <= lo + Used(t, init, |t|) && Taken(m, t[i], init)
    ensures var at := Align(size, AlignOf(t[i]));
            && size + AlignOf(t[i]) - 1 < MARK && at < MARK - 1 && at + t[i].size < MARK - 1
            && at + t[i].size <= lo + Used(t[i := t[i].(place := PlaceIn(init, at))], init, |t|)
  {
    var at := Align(size, AlignOf(t[i]));
    AlignUp(size, AlignOf(t[i]));
    RoomLeft(t, init, i, |t|);
    UsedStep(t, init, i, PlaceIn(init, at), |t|);
  }

  lemma FollowsTake(hs: seq<Header>, s: seq<Section>, t: seq<Section>,
                    init: bool, m: nat, i: nat, lo: nat, start: nat, size: Word, at: Word)
    returns (hs': seq<Header>, t': seq<Section>, size': nat)
    requires Follows(hs, s, t, init, m, i, lo, start, size) && i < |t| && Taken(m, t[i], init)
    requires AlignOf(t[i]) < WORD && at == AlignMask(size, AlignOf(t[i]))
    ensures hs' == hs[i := hs[i].(entsize := Marked(init, at))]
    ensures size' == at + t[i].size < WORD && Follows(hs', s, t', init, m, i + 1, lo, start, size')
  {
    hs' := hs[i := hs[i].(entsize := Marked(init, at))];
    t' := t[i := t[i].(place := PlaceIn(init, at))];
    size' := at + t[i].size;
    OneFits(t, init, m, i, lo, size);
    AlignMaskRounds(size, AlignOf(t[i]));
    MarkedCode(init, at);
    TakeStep(s, t, init, m, i, lo, start, size, at);
    StillRoomy(t, t', init, lo);
  }

  /** A header is taken exactly when its section is. */
  lemma FollowsTaken(hs: seq<Header>, s: seq<Section>, t: seq<Section>,
                     init: bool, m: nat, i: nat, lo: nat, start: nat, size: nat)
    requires Follows(hs, s, t, init, m, i, lo, start, size) && i < |hs|
    ensures i < |t| && AlignOf(t[i]) == (if hs[i].align == 0 then 1 else hs[i].align) < WORD && t[i].size == hs[i].size
    ensures TakesHeader(m, hs[i], init) <==> Taken(m, t[i], init)
    ensures !TakesHeader(m, hs[i], init) ==> Follows(hs, s, t, init, m, i + 1, lo, start, size)
  {
    assert Couples(hs[i], t[i]);
    if !Taken(m, t[i], init) { LeaveStep(s, t, init, m, i, lo, start, size); }
  }

  predicate TakesHeader(m: nat, h: Header, init: bool) {
    Masked(m, h.exec, h.alloc, h.write) && h.entsize == NO_OFFSET && h.init == init
  }

  /** One header of the loop. */
  method LayoutOne(secs: array<Header>, init: bool, m: nat, i: nat, size: Word,
                   ghost ok: bool, ghost lo: nat, ghost start: nat, ghost s: seq<Section>, ghost t: seq<Section>)
    returns (size': Word, ghost t': seq<Section>)
    requires i < secs.Length && (ok ==> Follows(secs[..], s, t, init, m, i, lo, start, size))
    modifies secs
    ensures secs[i] == old(secs[i]).(entsize := secs[i].entsize)
    ensures forall k | 0 <= k < secs.Length && k != i :: secs[k] == old(secs[k])
    ensures ok ==> Follows(secs[..], s, t', init, m, i + 1, lo, start, size')
  {
    size', t' := size, t;
    var h := secs[i];
    ghost var hs := secs[..];
    if ok { FollowsTaken(hs, s, t, init, m, i, lo, start, size); }
    if TakesHeader(m, h, init) {
      var at := AlignMask(size, if h.align == 0 then 1 else h.align);
      ghost var hs', size'' := hs, 0;
      if ok { hs', t', size'' := FollowsTake(hs, s, t, init, m, i, lo, start, size, at); }
      secs[i] := h.(entsize := Marked(init, at));
      size' := Wrap(at, h.size);
      assert ok ==> secs[..] == hs' && size' == size'';
    }
  }

  /** One pass over the sections, for one mask and one area. While the area fits below the
      mark, the headers follow the plan of section places. */
  method LayoutPass(secs: array<Header>, init: bool, m: nat, start: Word,
                    ghost ok: bool, ghost lo: nat, ghost s: seq<Section>)
    returns (size: Word, ghost t: seq<Section>)
    requires ok ==> Follows(secs[..], s, s, init, m, 0, lo, start, start)
    modifies secs
    ensures forall k | 0 <= k < secs.Length :: secs[k] == old(secs[k]).(entsize := secs[k].entsize)
    ensures ok ==> Follows(secs[..], s, t, init, m, secs.Length, lo, start, size)
  {
    size, t := start, s;
    for i := 0 to secs.Length
      invariant forall k | 0 <= k < secs.Length :: secs[k] == old(secs[k]).(entsize := secs[k].entsize)
      invariant ok ==> Follows(secs[..], s, t, init, m, i, lo, start, size)
    {
      size, t := LayoutOne(secs, init, m, i, size, ok, lo, start, s, t);
    }
  }

  // ----- an area -----

  /** Pass `m` can start on an area whose text ends at `text`. */
  ghost predicate Area(hs: seq<Header>, s: seq<Section>, t: seq<Section>,
                       init: bool, m: nat, lo: nat, text: nat, size: nat) {
    && Follows(hs, t, t, init, m, 0, lo, size, size) && OnlyPlaces(s, t, init)
    && lo <= text <= size && (m > 0 ==> TextFirst(t, init, text))
  }

  /** Nothing of the area is placed yet. */
  lemma AreaStarts(hs: seq<Header>, s: seq<Section>, init: bool, lo: nat)
    requires AllCouple(hs, s) && Roomy(s, init, lo)
    requires forall k | 0 <= k < |s| :: !Here(s[k], init) && (s[k].init == init ==> s[k].place.Unplaced?)
    ensures Area(hs, s, s, init, 0, lo, lo, lo)
  {
  }

  /** The next pass goes on where this one ended; the first one ends the text. */
  lemma AreaGoesOn(hs: seq<Header>, hs': seq<Header>, s: seq<Section>, t: seq<Section>, u: seq<Section>,
                   init: bool, m: nat, lo: nat, text: nat, start: nat, size: nat)
    requires Area(hs, s, t, init, m, lo, text, start) && Follows(hs', t, u, init, m, |u|, lo, start, size)
    ensures Area(hs', s, u, init, m + 1, lo, if m == 0 then size else text, size)
  {
    NextPass(u, init, m, lo, size);
    if m > 0 { TextKept(t, u, init, m, start, text); }
  }

  /** The passes over one area. */
  method LayoutArea(secs: array<Header>, init: bool, start: Word, ghost ok: bool, ghost s: seq<Section>)
    returns (size: Word, text: Word, ghost t: seq<Section>)
    requires ok ==> AllCouple(secs[..], s) && Roomy(s, init, start)
    requires ok ==> forall k | 0 <= k < |s| :: !Here(s[k], init) && (s[k].init == init ==> s[k].place.Unplaced?)
    modifies secs
    ensures forall k | 0 <= k < secs.Length :: secs[k] == old(secs[k]).(entsize := secs[k].entsize)
    ensures ok ==> Area(secs[..], s, t, init, 4, start, text, size)
  {
    size, text, t := start, start, s;
    if ok { AreaStarts(secs[..], s, init, start); }
    for m := 0 to 4
      invariant forall k | 0 <= k < secs.Length :: secs[k] == old(secs[k]).(entsize := secs[k].entsize)
      invariant ok ==> Area(secs[..], s, t, init, m, start, text, size)
    {
      ghost var hs, u, before := secs[..], t, size;
      size, t := LayoutPass(secs, init, m, size, ok, start, t);
      if ok { AreaGoesOn(hs, secs[..], s, u, t, init, m, start, text, before, size); }
      if m == 0 {
        text := size;
      }
    }
  }

  /** The core area stays as it is while the init area is laid out. */
  lemma CoreKept(s: seq<Section>, t: seq<Section>, lo: nat, cur: nat, text: nat, lo': nat, cur': nat)
    requires Placed(s, false, 4, 0, lo, cur) && TextFirst(s, false, text) && OnlyPlaces(s, t, true)
    requires Placed(t, true, 4, 0, lo', cur')
    ensures Placed(t, false, 4, 0, lo, cur) && TextFirst(t, false, text)
  {
    forall k | 0 <= k < |t| ensures Here(t[k], false) ==> t[k] == s[k] {
      if s[k].alloc && s[k].init { assert Here(t[k], true); }
    }
  }

  // ----- layout_sections -----

  /** The sections of the headers, before any is placed. */
  function SectionsOf(hs: seq<Header>): seq<Section> {
    seq(|hs|, k requires 0 <= k < |hs| =>
      Section(hs[k].exec, hs[k].alloc, hs[k].write, hs[k].init, hs[k].size, hs[k].align, Unplaced))
  }

  /** A finished plan: every section in memory has one place in its area, aligned, apart from
      all others, executable sections first. */
  ghost predicate Plan(s: seq<Section>, t: seq<Section>, core: nat, coreText: nat, coreSize: nat,
                       init: nat, initText: nat, initSize: nat) {
    && |t| == |s| && (forall k | 0 <= k < |s| :: t[k] == s[k].(place := t[k].place))
    && (forall k | 0 <= k < |t| :: t[k].place.Unplaced? <==> !t[k].alloc)
    && Placed(t, false, 4, 0, core, coreSize) && TextFirst(t, false, coreText) && core <= coreText <= coreSize
    && Placed(t, true, 4, 0, init, initSize) && TextFirst(t, true, initText) && init <= initText <= initSize
  }

  lemma PlanDone(hs: seq<Header>, hs': seq<Header>, s: seq<Section>, t: seq<Section>, u: seq<Section>,
                 core: nat, coreText: nat, coreSize: nat, init: nat, initText: nat, initSize: nat)
    requires forall k | 0 <= k < |s| :: s[k].place.Unplaced?
    requires Area(hs, s, t, false, 4, core, coreText, coreSize) && Area(hs', t, u, true, 4, init, initText, initSize)
    ensures Plan(s, u, core, coreText, coreSize, init, initText, initSize)
  {
    CoreKept(t, u, core, coreSize, coreText, init, initSize);
  }

  /** Where the loader copies a section to is where it was planned. */
  lemma LoadedAsPlanned(hs: seq<Header>, t: seq<Section>)
    requires AllCouple(hs, t) && forall k | 0 <= k < |t| :: t[k].place.Unplaced? <==> !t[k].alloc
    ensures forall k | 0 <= k < |t| && t[k].alloc :: Destination(hs[k].entsize) == t[k].place
  {
    forall k | 0 <= k < |t| && t[k].alloc ensures Destination(hs[k].entsize) == t[k].place {
      assert Couples(hs[k], t[k]);
      MarkedCode(t[k].place.InitArea?, t[k].place.at);
    }
  }

  method ClearOffsets(secs: array<Header>)
    modifies secs
    ensures forall k | 0 <= k < secs.Length :: secs[k] == old(secs[k]).(entsize := NO_OFFSET)
  {
    for i := 0 to secs.Length
      invariant forall k | 0 <= k < i :: secs[k] == old(secs[k]).(entsize := NO_OFFSET)
      invariant forall k | i <= k < secs.Length :: secs[k] == old(secs[k])
    {
      secs[i] := secs[i].(entsize := NO_OFFSET);
    }
  }

  lemma Unplanned(hs: seq<Header>, hs': seq<Header>)
    requires |hs'| == |hs| && forall k | 0 <= k < |hs| :: hs'[k] == hs[k].(entsize := NO_OFFSET)
    ensures AllCouple(hs', SectionsOf(hs)) && forall k | 0 <= k < |hs| :: SectionsOf(hs)[k].place.Unplaced?
  {
  }

  /** layout_sections. If the sections of each area fit below the mark, with alignments that
      are powers of two, the headers describe a plan and the loader will follow it. */
  method LayoutSections(secs: array<Header>, core: Word, init: Word)
    returns (coreSize: Word, coreText: Word, initSize: Word, initText: Word, ghost t: seq<Section>)
    modifies secs
    ensures forall k | 0 <= k < secs.Length :: secs[k] == old(secs[k]).(entsize := secs[k].entsize)
    ensures var s := SectionsOf(old(secs[..]));
            Roomy(s, false, core) && Roomy(s, true, init) ==>
              && Plan(s, t, core, coreText, coreSize, init, initText, initSize) && AllCouple(secs[..], t)
              && forall k | 0 <= k < |t| && t[k].alloc :: Destination(secs[k].entsize) == t[k].place
  {
    ghost var s := SectionsOf(secs[..]);
    ghost var ok := Roomy(s, false, core) && Roomy(s, true, init);
    ClearOffsets(secs);
    Unplanned(old(secs[..]), secs[..]);
    ghost var u;
    coreSize, coreText, u := LayoutArea(secs, false, core, ok, s);
    ghost var hs := secs[..];
    if ok { StillRoomy(s, u, true, init); }
    initSize, initText, t := LayoutArea(secs, true, init, ok, u);
    if ok {
      PlanDone(hs, secs[..], s, u, t, core, coreText, coreSize, init, initText, initSize);
      LoadedAsPlanned(secs[..], t);
    }
  }
}
