/** The pipe in shared memory. A call is a sequence of critical sections; every
    section is a method here, so that sections of all processes may follow each
    other in any order. Positions do not wrap. */
module Spipe {

  type Byte = int

  lemma ModApart(j: nat, k: nat, n: nat)
    requires j < k < j + n
    ensures j % n != k % n
  {
    var d := k / n - j / n;
    assert d * n == (k / n) * n - (j / n) * n;
    assert k == (k / n) * n + k % n && j == (j / n) * n + j % n;
    assert d <= 0 ==> d * n <= 0;
    assert d >= 1 ==> d * n >= n;
  }

  /** The buffer holds the bytes accepted and not yet delivered. */
  ghost predicate Holds(buf: seq<Byte>, rpos: nat, wpos: nat, accepted: seq<Byte>) {
    && |buf| > 0 && rpos <= wpos <= rpos + |buf| && |accepted| == wpos
    && forall k: nat | rpos <= k < wpos :: buf[k % |buf|] == accepted[k]
  }

  lemma HoldsWrite(buf: seq<Byte>, rpos: nat, wpos: nat, accepted: seq<Byte>, x: Byte)
    requires Holds(buf, rpos, wpos, accepted) && wpos - rpos < |buf|
    ensures Holds(buf[wpos % |buf| := x], rpos, wpos + 1, accepted + [x])
  {
    forall k: nat | rpos <= k < wpos + 1
      ensures buf[wpos % |buf| := x][k % |buf|] == (accepted + [x])[k]
    {
      if k < wpos { ModApart(k, wpos, |buf|); }
    }
  }

  class Pipe {
    const buf: array<Byte>
    var rpos: nat
    var wpos: nat
    var closed: bool
    var left: seq<bool>                // the processes that have closed their end
    ghost var accepted: seq<Byte>
    ghost var delivered: seq<Byte>

    ghost predicate Valid()
      reads this, buf
    {
      && Holds(buf[..], rpos, wpos, accepted)
      && delivered == accepted[..rpos]
      && forall h | 0 <= h < |left| && left[h] :: closed
    }

    constructor (size: nat, processes: nat)
      requires size > 0
      ensures Valid() && fresh(buf) && buf.Length == size && |left| == processes && accepted == [] && !closed
    {
      buf := new Byte[size];
      rpos, wpos, closed := 0, 0, false;
      left := seq(processes, _ => false);
      accepted, delivered := [], [];
    }

    /** __spipeclose_nolock */
    method CloseNolock(h: nat) returns (ok: bool)
      requires Valid() && h < |left|
      modifies this`closed, this`left
      ensures Valid() && ok == !old(left)[h] && left == old(left)[h := true]
      ensures ok ==> closed
      ensures !ok ==> closed == old(closed)
    {
      if !left[h] {
        closed := true;
        left := left[h := true];
        return true;
      }
      assert left == left[h := true];
      return false;
    }

    /** __spipeisclosed_nolock: a reader may go on while bytes are left. */
    method IsClosedNolock(h: nat, read: bool) returns (r: bool)
      requires Valid() && h < |left|
      modifies this`closed, this`left
      ensures Valid() && closed == old(closed) && |left| == |old(left)|
      ensures r <==> old(left)[h] || (closed && (rpos == wpos || !read))
      ensures forall g | 0 <= g < |left| && left[g] && !old(left)[g] :: g == h && r && rpos == wpos
      ensures old(left)[h] || (closed && rpos == wpos) ==> left[h]
    {
      if !left[h] {
        if !closed {
          return false;
        }
        if rpos < wpos {
          return !read;
        }
        var ok := CloseNolock(h);
      }
      return true;
    }

    /** The loop of spiperead: the next bytes, as many as asked for and there are. */
    method Fetch(n: nat) returns (got: seq<Byte>)
      requires Valid()
      modifies this`rpos, this`delivered
      ensures Valid() && delivered == old(delivered) + got
      ensures |got| == if n < wpos - old(rpos) then n else wpos - old(rpos)
    {
      got := [];
      while |got| < n
        invariant old(rpos) <= rpos <= wpos && |got| <= n && got == accepted[old(rpos)..rpos]
        invariant delivered == old(delivered)
        decreases n - |got|
      {
        if rpos == wpos {
          break;
        }
        assert buf[..][rpos % |buf[..]|] == accepted[rpos];
        got := got + [buf[rpos % buf.Length]];
        rpos := rpos + 1;
      }
      delivered := delivered + got;
      assert accepted[..rpos] == accepted[..old(rpos)] + accepted[old(rpos)..rpos];
    }

    /** One section of spiperead: up to `n` bytes, or none with `again` when the pipe is empty. */
    method ReadSection(h: nat, n: nat) returns (again: bool, got: seq<Byte>)
      requires Valid() && h < |left|
      modifies this`rpos, this`delivered, this`closed, this`left
      ensures Valid() && closed == old(closed) && |left| == |old(left)|
      ensures delivered == old(delivered) + got
      ensures again <==> !old(left)[h] && !closed && old(rpos) == wpos
      ensures |got| == if old(left)[h] then 0 else if n < wpos - old(rpos) then n else wpos - old(rpos)
      ensures !old(left)[h] && old(rpos) < wpos ==> !left[h]
      ensures closed && old(rpos) == wpos ==> left[h]
    {
      got := [];
      if left[h] {
        return false, got;
      }
      var end := IsClosedNolock(h, true);
      if end {
        return false, got;
      }
      if rpos == wpos {
        return true, got;
      }
      got := Fetch(n);
      return false, got;
    }

    /** One section of spipewrite: `k` bytes more, with `again` when the buffer is full. */
    method WriteSection(h: nat, data: seq<Byte>) returns (again: bool, k: nat)
      requires Valid() && h < |left|
      modifies this, buf
      ensures Valid() && k <= |data| && accepted == old(accepted) + data[..k] && delivered == old(delivered)
      ensures closed == old(closed) && |left| == |old(left)|
      ensures closed ==> k == 0 && !again
      ensures !closed ==> (again <==> k < |data|)
      ensures again ==> wpos == rpos + buf.Length
    {
      k := 0;
      if left[h] {
        return false, 0;
      }
      var end := IsClosedNolock(h, false);
      if end {
        return false, 0;
      }
      assert data[..k] == [];
      while k < |data|
        invariant 0 <= k <= |data| && Valid() && accepted == old(accepted) + data[..k]
        invariant delivered == old(delivered) && !closed && rpos == old(rpos) && left == old(left)
      {
        if wpos - rpos >= buf.Length {
          return true, k;
        }
        HoldsWrite(buf[..], rpos, wpos, accepted, data[k]);
        buf[wpos % buf.Length] := data[k];
        accepted := accepted + [data[k]];
        wpos, k := wpos + 1, k + 1;
        assert data[..k] == data[..k - 1] + [data[k - 1]];
      }
      return false, k;
    }

    /** spipeclose */
    method Close(h: nat) returns (ok: bool)
      requires Valid() && h < |left|
      modifies this`closed, this`left
      ensures Valid() && closed && ok == !old(left)[h] && left == old(left)[h := true]
    {
      if left[h] {
        assert left == left[h := true];
        return false;
      }
      ok := CloseNolock(h);
    }
  }

  // ----- whole runs -----

  /** A write that may be paused between sections. */
  datatype Writer = Writer(h: nat, rest: seq<Byte>)

  datatype Step =
    | StartWrite(h: nat, data: seq<Byte>)
    | Resume(i: nat)
    | Read(h: nat, n: nat)
    | CloseEnd(h: nat)

  /** Any sections of any processes in any order: what is delivered is a prefix of what was
      accepted, no more than the buffer is outstanding, and a close ends the accepting. */
  method Run(p: Pipe, steps: seq<Step>) returns (paused: seq<Writer>)
    requires p.Valid()
    modifies p, p.buf
    ensures p.Valid() && p.delivered <= p.accepted && |p.accepted| - |p.delivered| <= p.buf.Length
    ensures old(p.delivered) <= p.delivered && old(p.accepted) <= p.accepted
    ensures old(p.closed) ==> p.closed && p.accepted == old(p.accepted)
  {
    paused := [];
    for k := 0 to |steps|
      invariant p.Valid() && |p.left| == |old(p.left)|
      invariant old(p.delivered) <= p.delivered && old(p.accepted) <= p.accepted
      invariant old(p.closed) ==> p.closed && p.accepted == old(p.accepted)
      invariant forall w | w in paused :: w.h < |p.left|
    {
      match steps[k]
      case StartWrite(h, data) =>
        if h < |p.left| {
          paused := paused + [Writer(h, data)];
        }
      case Resume(i) =>
        if i < |paused| {
          var w := paused[i];
          var again, n := p.WriteSection(w.h, w.rest);
          paused := if again then paused[i := Writer(w.h, w.rest[n..])] else paused[..i] + paused[i + 1..];
        }
      case Read(h, n) =>
        if h < |p.left| {
          var again, got := p.ReadSection(h, n);
        }
      case CloseEnd(h) =>
        if h < |p.left| {
          var ok := p.Close(h);
        }
    }
  }

  /** After a close, a process that has not closed its own end can still read all the rest. */
  method Drain(p: Pipe, h: nat, n: nat) returns (got: seq<Byte>)
    requires p.Valid() && p.closed && h < |p.left| && !p.left[h] && n > 0
    modifies p
    ensures p.Valid() && p.delivered == old(p.delivered) + got == p.accepted == old(p.accepted)
    ensures |p.left| == |old(p.left)| && p.left[h]
  {
    got := [];
    var more := true;
    while more
      invariant p.Valid() && p.closed && |p.left| == |old(p.left)| && p.delivered == old(p.delivered) + got
      invariant p.accepted == old(p.accepted) && p.wpos == old(p.wpos)
      invariant if more then !p.left[h] else p.left[h] && p.rpos == p.wpos
      decreases more, p.wpos - p.rpos
    {
      var again, part := p.ReadSection(h, n);
      got := got + part;
      more := part != [];
    }
  }
}
