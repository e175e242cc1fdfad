/** The console escape detector and the stdin half of the relay (`attach.py`). */
module Escape {
  import opened Streams

  /** Ctrl-]. */
  const ESCAPE: Byte := 0x1d

  predicate IsQuit(b: Byte) {
    b == 81 || b == 113
  }

  datatype Action = Forward(bytes: Bytes) | Detach | Swallow

  // ----- what a stream of keystrokes means -----

  /** What the relay has done with a stream: the bytes it passed on, whether it holds an escape byte back, and
      whether the user has detached. */
  datatype Relayed = Relayed(out: Bytes, armed: bool, detached: bool)

  function React(armed: bool, b: Byte): (Action, bool) {
    if !armed then if b == ESCAPE then (Swallow, true) else (Forward([b]), false)
    else if IsQuit(b) then (Detach, false)
    else if b == ESCAPE then (Forward([ESCAPE]), false)
    else (Forward([ESCAPE, b]), false)
  }

  function Take(r: Relayed, b: Byte): Relayed {
    if r.detached then r
    else
      var (action, armed) := React(r.armed, b);
      match action
      case Forward(bytes) => Relayed(r.out + bytes, armed, false)
      case Detach => Relayed(r.out, armed, true)
      case Swallow => Relayed(r.out, armed, false)
  }

  function TakeAll(r: Relayed, s: Bytes): Relayed
    decreases |s|
  {
    if s == [] then r else TakeAll(Take(r, s[0]), s[1..])
  }

  const START := Relayed([], false, false)

  lemma {:induction false} TakeConcat(r: Relayed, a: Bytes, b: Bytes)
    ensures TakeAll(r, a + b) == TakeAll(TakeAll(r, a), b)
    decreases |a|
  {
    if a == [] {
      assert a + b == b;
    } else {
      assert (a + b)[1..] == a[1..] + b;
      TakeConcat(Take(r, a[0]), a[1..], b);
    }
  }

  lemma {:induction false} DetachedStays(r: Relayed, s: Bytes)
    requires r.detached
    ensures TakeAll(r, s) == r
    decreases |s|
  {
    if s == [] {
    } else {
      DetachedStays(r, s[1..]);
    }
  }

  lemma TakeOne(r: Relayed, b: Byte)
    ensures TakeAll(r, [b]) == Take(r, b)
  {
    hide Take;
    assert [b][1..] == [];
  }

  lemma TakeTwo(r: Relayed, b: Byte, c: Byte)
    ensures TakeAll(r, [b, c]) == Take(Take(r, b), c)
  {
    hide Take;
    TakeOne(Take(r, b), c);
    assert [b, c][1..] == [c];
  }

  // ----- doubling -----

  function Doubled(data: Bytes): Bytes {
    if data == [] then [] else (if data[0] == ESCAPE then [ESCAPE, ESCAPE] else [data[0]]) + Doubled(data[1..])
  }

  /** Doubling every escape byte passes exactly the data through, with no detach and nothing held back. */
  lemma {:induction false} DoublingPasses(r: Relayed, data: Bytes)
    requires !r.armed && !r.detached
    ensures TakeAll(r, Doubled(data)) == Relayed(r.out + data, false, false)
    decreases |data|
  {
    if data == [] {
      assert r.out + data == r.out;
    } else {
      var first := if data[0] == ESCAPE then [ESCAPE, ESCAPE] else [data[0]];
      TakeConcat(r, first, Doubled(data[1..]));
      var next := Relayed(r.out + [data[0]], false, false);
      if data[0] == ESCAPE { TakeTwo(r, ESCAPE, ESCAPE); } else { TakeOne(r, data[0]); }
      assert TakeAll(r, first) == next;
      DoublingPasses(next, data[1..]);
      assert r.out + [data[0]] + data[1..] == r.out + data;
    }
  }

  // ----- where a detach happens -----

  /** How many escape bytes end a stream. */
  function EscapeRun(s: Bytes): nat {
    if s == [] || s[|s| - 1] != ESCAPE then 0 else EscapeRun(s[..|s| - 1]) + 1
  }

  /** The key at `i` asks for a detach: a Q after an odd run of escape bytes. */
  predicate DetachesAt(s: Bytes, i: int) {
    0 <= i < |s| && IsQuit(s[i]) && EscapeRun(s[..i]) % 2 == 1
  }

  lemma TakeLast(s: Bytes)
    requires s != []
    ensures TakeAll(START, s) == Take(TakeAll(START, s[..|s| - 1]), s[|s| - 1])
  {
    hide Take, TakeAll;
    assert s == s[..|s| - 1] + [s[|s| - 1]];
    TakeConcat(START, s[..|s| - 1], [s[|s| - 1]]);
    TakeOne(TakeAll(START, s[..|s| - 1]), s[|s| - 1]);
  }

  /** Up to `n`, a stream asks for the detaches its front asks for. */
  lemma DetachesInFront(s: Bytes, n: nat, i: int)
    requires n <= |s|
    ensures DetachesAt(s[..n], i) <==> i < n && DetachesAt(s, i)
  {
    if 0 <= i < n {
      assert s[..n][..i] == s[..i];
    }
  }

  /** The detector is armed exactly after an odd run of escape bytes, as long as no detach was asked for; and
      the relay is detached exactly when one was. */
  lemma {:induction false} DetachExactly(s: Bytes)
    ensures TakeAll(START, s).detached <==> exists i :: DetachesAt(s, i)
    ensures !TakeAll(START, s).detached ==> (TakeAll(START, s).armed <==> EscapeRun(s) % 2 == 1)
  {
    if s == [] {
    } else {
      var n := |s| - 1;
      DetachExactly(s[..n]);
      TakeLast(s);
      hide TakeAll;
      forall i ensures DetachesAt(s[..n], i) <==> i < n && DetachesAt(s, i) {
        DetachesInFront(s, n, i);
      }
      if TakeAll(START, s[..n]).detached {
        var i :| DetachesAt(s[..n], i);
        assert DetachesAt(s, i);
      } else {
        assert forall i :: DetachesAt(s, i) ==> i == n;
        assert TakeAll(START, s).detached <==> DetachesAt(s, n);
      }
    }
  }

  /** Nothing after the first detaching key is passed on. */
  lemma FirstDetachDecides(s: Bytes, i: nat)
    requires DetachesAt(s, i) && forall j | j < i :: !DetachesAt(s, j)
    ensures TakeAll(START, s) == TakeAll(START, s[..i]).(armed := false, detached := true)
  {
    var before := TakeAll(START, s[..i]);
    DetachExactly(s[..i]);
    forall j ensures !DetachesAt(s[..i], j) {
      DetachesInFront(s, i, j);
    }
    hide TakeAll;
    TakeLast(s[..i + 1]);
    assert s[..i + 1][..i] == s[..i];
    assert s == s[..i + 1] + s[i + 1..];
    TakeConcat(START, s[..i + 1], s[i + 1..]);
    DetachedStays(Take(before, s[i]), s[i + 1..]);
  }

  // ----- what is passed on -----

  /** The keystrokes with each pair of escape bytes made one. */
  function Collapsed(data: Bytes): Bytes
    decreases |data|
  {
    if data == [] then []
    else if |data| > 1 && data[0] == 0x1d && data[1] == 0x1d then [0x1d] + Collapsed(data[2..])
    else [data[0]] + Collapsed(data[1..])
  }

  function HeldBack(armed: bool): Bytes {
    if armed then [0x1d] else []
  }

  lemma TwoSteps(r: Relayed, s: Bytes)
    requires |s| > 1
    ensures TakeAll(r, s) == TakeAll(Take(Take(r, s[0]), s[1]), s[2..])
  {
    hide Take;
    assert s[1..][0] == s[1] && s[1..][1..] == s[2..];
  }

  lemma CollapsedPlain(data: Bytes)
    requires data != [] && !(|data| > 1 && data[0] == 0x1d && data[1] == 0x1d)
    ensures Collapsed(data) == [data[0]] + Collapsed(data[1..])
  {
  }

  lemma {:induction false} PassesFrom(r: Relayed, s: Bytes)
    requires !r.armed && !r.detached
    ensures var t := TakeAll(r, s); !t.detached ==> t.out + HeldBack(t.armed) == r.out + Collapsed(s)
    decreases |s|
  {
    if s == [] {
    } else if s[0] != ESCAPE {
      PassesFrom(Take(r, s[0]), s[1..]);
      assert r.out + [s[0]] + Collapsed(s[1..]) == r.out + ([s[0]] + Collapsed(s[1..]));
    } else if |s| == 1 {
      assert s == [ESCAPE] && s[1..] == [];
      assert Collapsed(s) == [0x1d] + [];
    } else {
      TwoSteps(r, s);
      var t := Take(Take(r, s[0]), s[1]);
      if IsQuit(s[1]) {
        DetachedStays(t, s[2..]);
      } else {
        PassesFrom(t, s[2..]);
        if s[1] != ESCAPE {
          CollapsedPlain(s);
          CollapsedPlain(s[1..]);
          assert s[1..][1..] == s[2..];
        }
        assert t.out + Collapsed(s[2..]) == r.out + Collapsed(s);
      }
    }
  }

  /** Without a detach, what is passed on, with the byte held back, is the data with each escape pair made one. */
  lemma CollapsedPasses(s: Bytes)
    requires forall i :: !DetachesAt(s, i)
    ensures TakeAll(START, s).out + HeldBack(EscapeRun(s) % 2 == 1) == Collapsed(s)
  {
    hide TakeAll, DetachesAt, EscapeRun;
    DetachExactly(s);
    PassesFrom(START, s);
  }

  /** With one, it is what comes before the first detaching key, without the escape byte that key needs. */
  lemma CollapsedBeforeDetach(s: Bytes, i: nat)
    requires DetachesAt(s, i) && forall j | j < i :: !DetachesAt(s, j)
    ensures TakeAll(START, s).out + [0x1d] == Collapsed(s[..i])
  {
    FirstDetachDecides(s, i);
    forall j ensures !DetachesAt(s[..i], j) {
      DetachesInFront(s, i, j);
    }
    CollapsedPasses(s[..i]);
  }

  // ----- the detector and the relay -----

  lemma TakeStep(out: Bytes, r: Relayed, b: Byte)
    ensures Take(r.(out := out + r.out), b) == Take(r, b).(out := out + Take(r, b).out)
  {
    var (action, _) := React(r.armed, b);
    if action.Forward? {
      assert out + r.out + action.bytes == out + (r.out + action.bytes);
    }
  }

  lemma {:induction false} TakeFrom(out: Bytes, r: Relayed, s: Bytes)
    ensures TakeAll(r.(out := out + r.out), s) == TakeAll(r, s).(out := out + TakeAll(r, s).out)
    decreases |s|
  {
    if s == [] {
    } else {
      TakeStep(out, r, s[0]);
      TakeFrom(out, Take(r, s[0]), s[1..]);
    }
  }

  class EscapeDetector {
    var armed: bool

    constructor ()
      ensures !armed
    {
      armed := false;
    }

    method Feed(b: Byte) returns (action: Action)
      modifies this
      ensures (action, armed) == React(old(armed), b)
    {
      if !armed {
        if b == ESCAPE {
          armed := true;
          return Swallow;
        }
        return Forward([b]);
      }
      armed := false;
      if IsQuit(b) {
        return Detach;
      }
      if b == ESCAPE {
        return Forward([ESCAPE]);
      }
      return Forward([ESCAPE, b]);
    }

    /** One chunk of stdin: what goes to the socket, and whether the relay ends. */
    method RelayChunk(data: Bytes) returns (out: Bytes, detached: bool)
      modifies this
      ensures Relayed(out, armed, detached) == TakeAll(Relayed([], old(armed), false), data)
    {
      out, detached := [], false;
      for i := 0 to |data|
        invariant !detached
        invariant TakeAll(Relayed(out, armed, false), data[i..]) == TakeAll(Relayed([], old(armed), false), data)
      {
        assert data[i..][1..] == data[i + 1..] && data[i..][0] == data[i];
        var action := Feed(data[i]);
        match action {
          case Detach =>
            DetachedStays(Relayed(out, armed, true), data[i + 1..]);
            return out, true;
          case Forward(bytes) => out := out + bytes;
          case Swallow =>
        }
      }
    }
  }

  /** What was sent for these keystrokes: without a detach all of them, each escape pair made one, short of a byte held
      back; with one, those before the first detaching key, without the escape byte that key needs. */
  ghost predicate SentFor(s: Bytes, sent: Bytes, detached: bool) {
    && (detached <==> exists i :: DetachesAt(s, i))
    && (!detached ==> sent + HeldBack(EscapeRun(s) % 2 == 1) == Collapsed(s))
    && forall i: nat | DetachesAt(s, i) && (forall j | j < i :: !DetachesAt(s, j)) :: sent + [0x1d] == Collapsed(s[..i])
  }

  lemma SentIsCollapsed(s: Bytes)
    ensures SentFor(s, TakeAll(START, s).out, TakeAll(START, s).detached)
  {
    hide TakeAll, EscapeRun, Collapsed;
    DetachExactly(s);
    if !TakeAll(START, s).detached {
      CollapsedPasses(s);
    }
    forall i: nat | DetachesAt(s, i) && (forall j | j < i :: !DetachesAt(s, j))
      ensures TakeAll(START, s).out + [0x1d] == Collapsed(s[..i])
    {
      CollapsedBeforeDetach(s, i);
    }
  }

  /** The stdin half of `_relay_serial`: however stdin is cut into reads, the socket gets what the whole stream
      means, and a lone escape byte held back at the end of input is never sent. */
  method RelaySerial(chunks: seq<Bytes>) returns (sent: Bytes, detached: bool)
    ensures sent == TakeAll(START, Flat(chunks)).out && detached == TakeAll(START, Flat(chunks)).detached
    ensures SentFor(Flat(chunks), sent, detached)
  {
    SentIsCollapsed(Flat(chunks));
    hide SentFor;
    var detector := new EscapeDetector();
    sent, detached := [], false;
    var left := chunks;
    while left != []
      invariant !detached
      invariant TakeAll(Relayed(sent, detector.armed, false), Flat(left)) == TakeAll(START, Flat(chunks))
      decreases |left|
    {
      ghost var r := Relayed(sent, detector.armed, false);
      ghost var bare := Relayed([], detector.armed, false);
      TakeConcat(r, left[0], Flat(left[1..]));
      TakeFrom(sent, bare, left[0]);
      assert sent + [] == sent;
      var out;
      out, detached := detector.RelayChunk(left[0]);
      sent := sent + out;
      if detached {
        DetachedStays(Relayed(sent, detector.armed, true), Flat(left[1..]));
        return;
      }
      left := left[1..];
    }
  }
}
