/** The words of a flattened device tree and the strings packed into them
    (strlen and fdt_string_list_index). */
module FdtWords {

  type Byte = x: int | 0 <= x < 256

  /** Four bytes in memory order. */
  datatype Word = Word(b0: Byte, b1: Byte, b2: Byte, b3: Byte)

  /** The number that bswap makes of a word. */
  function Num(w: Word): nat {
    w.b0 * 0x100_0000 + w.b1 * 0x1_0000 + w.b2 * 0x100 + w.b3
  }

  const BEGIN_NODE := 1
  const END_NODE := 2
  const PROP := 3
  const NOP := 4

  function Token(n: Byte): Word {
    Word(0, 0, 0, n)
  }

  function At(w: Word, k: nat): Byte
    requires k < 4
  {
    if k == 0 then w.b0 else if k == 1 then w.b1 else if k == 2 then w.b2 else w.b3
  }

  predicate HasZero(w: Word) {
    w.b0 == 0 || w.b1 == 0 || w.b2 == 0 || w.b3 == 0
  }

  /** A name is terminated in its last word and not before. */
  predicate NameOk(name: seq<Word>) {
    |name| > 0 && HasZero(name[|name| - 1]) && forall i | 0 <= i < |name| - 1 :: !HasZero(name[i])
  }

  function FirstZero(w: Word): (k: nat)
    requires HasZero(w)
    ensures k < 4 && At(w, k) == 0 && forall j: nat | j < k :: At(w, j) != 0
  {
    if w.b0 == 0 then 0 else if w.b1 == 0 then 1 else if w.b2 == 0 then 2 else 3
  }

  function NameLen(name: seq<Word>): (k: nat)
    requires NameOk(name)
    ensures k / 4 == |name| - 1 && k % 4 == FirstZero(name[|name| - 1])
  {
    4 * (|name| - 1) + FirstZero(name[|name| - 1])
  }

  /** Up to its length a name has no NUL byte. */
  lemma ZeroAt(name: seq<Word>, k: nat)
    requires NameOk(name) && k <= NameLen(name)
    ensures k / 4 < |name| && (At(name[k / 4], k % 4) == 0 <==> k == NameLen(name))
  {
    var i, j := k / 4, k % 4;
    if i < |name| - 1 {
      assert !HasZero(name[i]);
      assert 0 <= j < 4;
    }
  }

  /** strlen of the name at word `at`. */
  method StrLen(lex: array<Word>, at: nat, ghost name: seq<Word>) returns (k: nat)
    requires NameOk(name) && at + |name| <= lex.Length && lex[at..at + |name|] == name
    ensures k == NameLen(name)
  {
    k := 0;
    ZeroAt(name, k);
    while At(lex[at + k / 4], k % 4) != 0
      invariant k <= NameLen(name) && k / 4 < |name|
      decreases NameLen(name) - k
    {
      ZeroAt(name, k);
      assert lex[at + k / 4] == lex[at..at + |name|][k / 4];
      k := k + 1;
      ZeroAt(name, k);
    }
    ZeroAt(name, k);
    assert lex[at + k / 4] == lex[at..at + |name|][k / 4];
  }

  // ----- lists of strings -----

  type Text = seq<Byte>

  predicate NoNul(s: Text) {
    forall i | 0 <= i < |s| :: s[i] != 0
  }

  /** The string at the front of `list`. */
  function Front(list: Text): (s: Text)
    ensures NoNul(s) && |s| <= |list| && s == list[..|s|]
    ensures |s| < |list| ==> list[|s|] == 0
  {
    if list == [] || list[0] == 0 then [] else [list[0]] + Front(list[1..])
  }

  function Rest(list: Text): (r: Text)
    requires list != []
    ensures |r| < |list|
  {
    if |Front(list)| < |list| then list[|Front(list)| + 1..] else []
  }

  function Strings(list: Text): seq<Text>
    decreases |list|
  {
    if list == [] then [] else [Front(list)] + Strings(Rest(list))
  }

  /** A list in memory: every string with its NUL. */
  function Packed(ss: seq<Text>): Text {
    if ss == [] then [] else ss[0] + [0] + Packed(ss[1..])
  }

  lemma {:induction false} FrontOf(s: Text, tail: Text)
    requires NoNul(s)
    ensures Front(s + [0] + tail) == s
  {
    if s == [] {
      assert (s + [0] + tail)[0] == 0;
    } else {
      assert (s + [0] + tail)[1..] == s[1..] + [0] + tail;
      FrontOf(s[1..], tail);
    }
  }

  lemma {:induction false} StringsPacked(ss: seq<Text>)
    requires forall i | 0 <= i < |ss| :: NoNul(ss[i])
    ensures Strings(Packed(ss)) == ss
  {
    if ss != [] {
      var tail := Packed(ss[1..]);
      FrontOf(ss[0], tail);
      assert Packed(ss) == ss[0] + [0] + tail;
      assert Rest(Packed(ss)) == tail;
      StringsPacked(ss[1..]);
    }
  }

  /** fdt_string_list_index: the first place of `str` in the list, or -1. */
  method StringListIndex(value: Text, str: Text) returns (index: int)
    requires NoNul(str)
    ensures if index >= 0 then index < |Strings(value)| && Strings(value)[index] == str
                                     && str !in Strings(value)[..index]
            else index == -1 && str !in Strings(value)
  {
    var list := value;
    index := 0;
    assert Strings(value) == [] + Strings(list);
    while list != []
      invariant 0 <= index <= |Strings(value)| && Strings(value)[index..] == Strings(list)
      invariant str !in Strings(value)[..index]
      decreases |list|
    {
      if Front(list) == str {
        return;
      }
      assert Strings(value)[index..][1..] == Strings(value)[index + 1..];
      index := index + 1;
      list := Rest(list);
    }
    index := -1;
  }
}
