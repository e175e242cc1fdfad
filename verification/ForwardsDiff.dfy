/** The diff of the live `forwards` setter in `_instances.py`, as operations on the map of live
    forwards: the plan is legal, reaches the new set, and unwinds to the old one from anywhere. */
module ForwardsDiff {
  import opened Text
  import opened Network
  import opened PortFwd

  // ----- the diff -----

  function TargetOf(fs: seq<Forward>, b: HostBinding): (t: Option<GuestTarget>)
    ensures t.None? <==> !Bound(fs, b)
    ensures t.Some? ==> Forward(b, t.value) in fs
  {
    if fs == [] then None
    else if fs[0].binding == b then assert fs[0] == Forward(b, fs[0].target); Some(fs[0].target)
    else
      assert Bound(fs, b) ==> Bound(fs[1..], b) by {
        if i :| 0 <= i < |fs| && fs[i].binding == b {
          assert fs[1..][i - 1].binding == b;
        }
      }
      assert Bound(fs[1..], b) ==> Bound(fs, b) by {
        if i :| 0 <= i < |fs[1..]| && fs[1..][i].binding == b {
          assert fs[i + 1].binding == b;
        }
      }
      TargetOf(fs[1..], b)
  }

  lemma TargetOfMember(fs: seq<Forward>, f: Forward)
    requires Distinct(fs) && f in fs
    ensures TargetOf(fs, f.binding) == Some(f.target)
  {
    var i :| 0 <= i < |fs| && fs[i] == f;
    var g := Forward(f.binding, TargetOf(fs, f.binding).value);
    var j :| 0 <= j < |fs| && fs[j] == g;
  }

  /** Old forwards whose binding is no longer wanted. */
  function Gone(before: seq<Forward>, after: seq<Forward>): (r: seq<Forward>)
    ensures forall f :: f in r <==> f in before && !Bound(after, f.binding)
    ensures Distinct(before) ==> Distinct(r)
  {
    if before == [] then []
    else
      var rest := Gone(before[1..], after);
      if Bound(after, before[0].binding) then rest else [before[0]] + rest
  }

  /** Old forwards whose binding stays but whose target changes, in the order of the new set. */
  function Changed(before: seq<Forward>, after: seq<Forward>): (r: seq<Forward>)
    ensures forall f | f in r :: f in before && exists g :: g in after && g.binding == f.binding && g.target != f.target
    ensures forall g | g in after && TargetOf(before, g.binding).Some? && TargetOf(before, g.binding).value != g.target ::
              Forward(g.binding, TargetOf(before, g.binding).value) in r
    ensures Distinct(after) ==> Distinct(r)
  {
    if after == [] then []
    else
      var was := TargetOf(before, after[0].binding);
      var rest := Changed(before, after[1..]);
      if was.Some? && was.value != after[0].target then
        [Forward(after[0].binding, was.value)] + rest
      else rest
  }

  /** New forwards that are not already there with the same target. */
  function Coming(before: seq<Forward>, after: seq<Forward>): (r: seq<Forward>)
    ensures forall f :: f in r <==> f in after && TargetOf(before, f.binding) != Some(f.target)
    ensures Distinct(after) ==> Distinct(r)
  {
    if after == [] then []
    else
      var rest := Coming(before, after[1..]);
      if TargetOf(before, after[0].binding) == Some(after[0].target) then rest else [after[0]] + rest
  }

  // ----- operations on the map of live forwards -----

  datatype Op = Add(f: Forward) | Remove(f: Forward)

  function Inverse(op: Op): Op {
    match op
    case Add(f) => Remove(f)
    case Remove(f) => Add(f)
  }

  function Adds(fs: seq<Forward>): (r: seq<Op>)
    ensures |r| == |fs|
    ensures forall i | 0 <= i < |fs| :: r[i] == Add(fs[i])
  {
    seq(|fs|, i requires 0 <= i < |fs| => Add(fs[i]))
  }

  function Removes(fs: seq<Forward>): (r: seq<Op>)
    ensures |r| == |fs|
    ensures forall i | 0 <= i < |fs| :: r[i] == Remove(fs[i])
  {
    seq(|fs|, i requires 0 <= i < |fs| => Remove(fs[i]))
  }

  function ToRemove(before: seq<Forward>, after: seq<Forward>): seq<Forward> {
    Gone(before, after) + Changed(before, after)
  }

  /** The whole diff: every removal before every addition. */
  function Plan(before: seq<Forward>, after: seq<Forward>): seq<Op> {
    Removes(ToRemove(before, after)) + Adds(Coming(before, after))
  }

  /** The inverses of `ops`, last first. */
  function UndoOf(ops: seq<Op>): (r: seq<Op>)
    ensures |r| == |ops|
  {
    if ops == [] then [] else UndoOf(ops[1..]) + [Inverse(ops[0])]
  }

  /** The live forwards of one instance, by their comments. */
  type Live = map<string, Forward>

  function Key(name: string, f: Forward): string {
    Comment(name, f.binding.protocol, f.binding.hostPort)
  }

  function Wanted(name: string, fs: seq<Forward>): Live {
    if fs == [] then map[] else Wanted(name, fs[..|fs| - 1])[Key(name, fs[|fs| - 1]) := fs[|fs| - 1]]
  }

  function Step(name: string, live: Live, op: Op): Live {
    match op
    case Add(f) => live[Key(name, f) := f]
    case Remove(f) => live - {Key(name, f)}
  }

  /** An addition finds its binding free; a removal finds its own forward there. */
  predicate Legal(name: string, live: Live, op: Op) {
    match op
    case Add(f) => Key(name, f) !in live
    case Remove(f) => Key(name, f) in live && live[Key(name, f)] == f
  }

  function Run(name: string, live: Live, ops: seq<Op>): Live
    decreases |ops|
  {
    if ops == [] then live else Run(name, Step(name, live, ops[0]), ops[1..])
  }

  predicate LegalRun(name: string, live: Live, ops: seq<Op>)
    decreases |ops|
  {
    ops == [] || (Legal(name, live, ops[0]) && LegalRun(name, Step(name, live, ops[0]), ops[1..]))
  }

  lemma {:induction false} RunConcat(name: string, live: Live, a: seq<Op>, b: seq<Op>)
    ensures Run(name, live, a + b) == Run(name, Run(name, live, a), b)
    ensures LegalRun(name, live, a + b) <==> LegalRun(name, live, a) && LegalRun(name, Run(name, live, a), b)
    decreases |a|
  {
    if a == [] {
      assert a + b == b;
    } else {
      assert (a + b)[1..] == a[1..] + b;
      RunConcat(name, Step(name, live, a[0]), a[1..], b);
    }
  }

  /** Unwinding a legal run is itself legal and comes back to where the run began. */
  lemma {:induction false} UndoReturns(name: string, live: Live, ops: seq<Op>)
    requires LegalRun(name, live, ops)
    ensures LegalRun(name, Run(name, live, ops), UndoOf(ops))
    ensures Run(name, Run(name, live, ops), UndoOf(ops)) == live
    decreases |ops|
  {
    if ops == [] {
    } else {
      var next := Step(name, live, ops[0]);
      UndoReturns(name, next, ops[1..]);
      RunConcat(name, Run(name, live, ops), UndoOf(ops[1..]), [Inverse(ops[0])]);
      assert [Inverse(ops[0])][1..] == [];
    }
  }

  predicate Touches(name: string, ops: seq<Op>, key: string) {
    exists i :: 0 <= i < |ops| && Key(name, ops[i].f) == key
  }

  lemma {:induction false} RunUntouched(name: string, live: Live, ops: seq<Op>, key: string)
    requires !Touches(name, ops, key)
    ensures key in live ==> key in Run(name, live, ops) && Run(name, live, ops)[key] == live[key]
    decreases |ops|
  {
    if ops == [] {
    } else {
      assert Key(name, ops[0].f) != key;
      forall i | 0 <= i < |ops[1..]| ensures Key(name, ops[1..][i].f) != key {
        assert ops[1..][i] == ops[i + 1];
      }
      RunUntouched(name, Step(name, live, ops[0]), ops[1..], key);
    }
  }

  lemma {:induction false} UndoTouches(name: string, ops: seq<Op>, key: string)
    requires !Touches(name, ops, key)
    ensures !Touches(name, UndoOf(ops), key)
  {
    if ops == [] {
    } else {
      assert Key(name, ops[0].f) != key;
      forall i | 0 <= i < |ops[1..]| ensures Key(name, ops[1..][i].f) != key {
        assert ops[1..][i] == ops[i + 1];
      }
      UndoTouches(name, ops[1..], key);
      assert Key(name, Inverse(ops[0]).f) != key;
    }
  }

  // ----- the plan is legal and reaches the new set -----

  lemma KeysDiffer(name: string, f: Forward, g: Forward)
    requires ValidName(name) && Plain(f) && Plain(g)
    ensures Key(name, f) == Key(name, g) <==> f.binding == g.binding
  {
    if Key(name, f) == Key(name, g) {
      CommentInjective(name, f.binding.protocol, f.binding.hostPort, name, g.binding.protocol, g.binding.hostPort);
    }
  }

  /** A set of forwards as the setter meets it: a dictionary of plain forwards. */
  ghost predicate Good(fs: seq<Forward>) {
    Distinct(fs) && AllPlain(fs)
  }

  /** Within one set a key belongs to one forward. */
  lemma KeyIdentifies(name: string, fs: seq<Forward>, f: Forward, g: Forward)
    requires ValidName(name) && Good(fs) && f in fs && g in fs
    ensures Key(name, f) == Key(name, g) <==> f == g
  {
    var i :| 0 <= i < |fs| && fs[i] == f;
    var j :| 0 <= j < |fs| && fs[j] == g;
    KeysDiffer(name, f, g);
  }

  predicate DistinctKeys(name: string, fs: seq<Forward>) {
    forall i, j :: 0 <= i < j < |fs| ==> Key(name, fs[i]) != Key(name, fs[j])
  }

  lemma GoodKeys(name: string, fs: seq<Forward>)
    requires ValidName(name) && Good(fs)
    ensures DistinctKeys(name, fs)
  {
    forall i, j | 0 <= i < j < |fs| ensures Key(name, fs[i]) != Key(name, fs[j]) {
      KeysDiffer(name, fs[i], fs[j]);
    }
  }

  lemma {:induction false} WantedHas(name: string, fs: seq<Forward>)
    requires DistinctKeys(name, fs)
    ensures forall f | f in fs :: Key(name, f) in Wanted(name, fs) && Wanted(name, fs)[Key(name, f)] == f
    ensures forall c | c in Wanted(name, fs) :: Wanted(name, fs)[c] in fs && Key(name, Wanted(name, fs)[c]) == c
  {
    if fs == [] {
    } else {
      var n := |fs| - 1;
      WantedHas(name, fs[..n]);
      assert fs == fs[..n] + [fs[n]];
    }
  }

  function Keys(name: string, fs: seq<Forward>): set<string> {
    set f | f in fs :: Key(name, f)
  }

  lemma KeysSplit(name: string, fs: seq<Forward>, gs: seq<Forward>)
    requires DistinctKeys(name, fs + gs)
    ensures DistinctKeys(name, fs) && DistinctKeys(name, gs)
    ensures Keys(name, fs + gs) == Keys(name, fs) + Keys(name, gs)
    ensures forall f, g | f in fs && g in gs :: Key(name, f) != Key(name, g)
  {
    hide Key;
    var all := fs + gs;
    assert forall i | 0 <= i < |fs| :: all[i] == fs[i];
    assert forall j | 0 <= j < |gs| :: all[|fs| + j] == gs[j];
    forall f, g | f in fs && g in gs ensures Key(name, f) != Key(name, g) {
      var i :| 0 <= i < |fs| && fs[i] == f;
      var j :| 0 <= j < |gs| && gs[j] == g;
      assert all[i] == f && all[|fs| + j] == g;
    }
    assert forall f :: f in all <==> f in fs || f in gs;
  }

  lemma RemoveHead(name: string, live: Live, fs: seq<Forward>)
    requires fs != [] && DistinctKeys(name, fs)
    requires forall f | f in fs :: Key(name, f) in live && live[Key(name, f)] == f
    ensures var next := Step(name, live, Remove(fs[0]));
            && Legal(name, live, Remove(fs[0])) && DistinctKeys(name, fs[1..])
            && (forall f | f in fs[1..] :: Key(name, f) in next && next[Key(name, f)] == f)
            && live - Keys(name, fs) == next - Keys(name, fs[1..])
  {
    assert fs == [fs[0]] + fs[1..];
    KeysSplit(name, [fs[0]], fs[1..]);
    assert fs[0] in fs && fs[0] in [fs[0]];
    hide Key, DistinctKeys;
    assert Keys(name, [fs[0]]) == {Key(name, fs[0])};
  }

  lemma {:induction false} RunRemoves(name: string, live: Live, fs: seq<Forward>)
    requires DistinctKeys(name, fs)
    requires forall f | f in fs :: Key(name, f) in live && live[Key(name, f)] == f
    ensures LegalRun(name, live, Removes(fs))
    ensures Run(name, live, Removes(fs)) == live - Keys(name, fs)
    decreases |fs|
  {
    if fs != [] {
      RemoveHead(name, live, fs);
      hide Key, DistinctKeys, Keys, Step, Legal;
      assert Removes(fs)[1..] == Removes(fs[1..]);
      RunRemoves(name, Step(name, live, Remove(fs[0])), fs[1..]);
    } else {
      assert Keys(name, fs) == {};
    }
  }

  lemma AddLast(name: string, live: Live, fs: seq<Forward>, f: Forward)
    requires LegalRun(name, live, Adds(fs))
    requires Run(name, live, Adds(fs)) == live + Wanted(name, fs)
    requires Key(name, f) !in live + Wanted(name, fs)
    ensures LegalRun(name, live, Adds(fs + [f]))
    ensures Run(name, live, Adds(fs + [f])) == live + Wanted(name, fs + [f])
  {
    hide Key;
    assert Adds(fs + [f]) == Adds(fs) + [Add(f)];
    RunConcat(name, live, Adds(fs), [Add(f)]);
    assert [Add(f)][1..] == [] && (fs + [f])[..|fs|] == fs;
  }

  lemma {:induction false} RunAdds(name: string, live: Live, fs: seq<Forward>)
    requires DistinctKeys(name, fs)
    requires forall f | f in fs :: Key(name, f) !in live
    ensures LegalRun(name, live, Adds(fs))
    ensures Run(name, live, Adds(fs)) == live + Wanted(name, fs)
    decreases |fs|
  {
    if fs == [] {
    } else {
      var n := |fs| - 1;
      assert fs == fs[..n] + [fs[n]];
      KeysSplit(name, fs[..n], [fs[n]]);
      assert Key(name, fs[n]) !in Wanted(name, fs[..n]) by {
        WantedHas(name, fs[..n]);
      }
      hide Key, DistinctKeys, Keys;
      RunAdds(name, live, fs[..n]);
      AddLast(name, live, fs[..n], fs[n]);
    }
  }

  // ----- the plan -----

  lemma PlainMembers(fs: seq<Forward>, part: seq<Forward>)
    requires AllPlain(fs)
    requires forall f | f in part :: f in fs
    ensures AllPlain(part)
  {
    hide Plain;
    forall i | 0 <= i < |part| ensures Plain(part[i]) {
      assert part[i] in fs;
    }
  }

  lemma PlanParts(name: string, before: seq<Forward>, after: seq<Forward>)
    requires ValidName(name) && Good(before) && Good(after)
    ensures Good(ToRemove(before, after)) && Good(Coming(before, after))
    ensures forall f | f in ToRemove(before, after) :: f in before
    ensures forall f | f in Coming(before, after) :: f in after
  {
    var gone, changed := Gone(before, after), Changed(before, after);
    forall i, j | 0 <= i < |gone| && 0 <= j < |changed| ensures gone[i].binding != changed[j].binding {
      assert gone[i] in gone && changed[j] in changed;
      var g :| g in after && g.binding == changed[j].binding && g.target != changed[j].target;
      assert exists k :: 0 <= k < |after| && after[k] == g;
    }
    assert Distinct(gone) && Distinct(changed);
    assert Distinct(gone + changed);
    PlainMembers(before, ToRemove(before, after));
    PlainMembers(after, Coming(before, after));
  }

  lemma MemberIsBound(fs: seq<Forward>, f: Forward)
    requires f in fs
    ensures Bound(fs, f.binding)
  {
    var i :| 0 <= i < |fs| && fs[i] == f;
    assert fs[i].binding == f.binding;
  }

  /** What is removed is exactly what the new set does not repeat. */
  lemma RemovedIff(before: seq<Forward>, after: seq<Forward>, f: Forward)
    requires Distinct(before) && Distinct(after) && f in before
    ensures f in ToRemove(before, after) <==> f !in after
  {
    TargetOfMember(before, f);
    if f in after {
      MemberIsBound(after, f);
      TargetOfMember(after, f);
      forall g | g in after && g.binding == f.binding ensures g.target == f.target {
        TargetOfMember(after, g);
      }
    } else if Bound(after, f.binding) {
      var g := Forward(f.binding, TargetOf(after, f.binding).value);
      assert Forward(g.binding, f.target) == f;
      assert f in Changed(before, after);
    }
  }

  /** What is added is exactly what the old set did not have. */
  lemma ComingIff(before: seq<Forward>, after: seq<Forward>, f: Forward)
    requires Distinct(before) && f in after
    ensures f in Coming(before, after) <==> f !in before
  {
    assert f == Forward(f.binding, f.target);
    if f in before {
      TargetOfMember(before, f);
    }
  }

  /** `live` holds exactly the forwards of `fs`, each under its own key. */
  ghost predicate IsMapOf(name: string, live: Live, fs: set<Forward>) {
    && (forall f | f in fs :: Key(name, f) in live && live[Key(name, f)] == f)
    && (forall c | c in live :: live[c] in fs && Key(name, live[c]) == c)
  }

  lemma MapOfUnique(name: string, a: Live, b: Live, fs: set<Forward>)
    requires IsMapOf(name, a, fs) && IsMapOf(name, b, fs)
    ensures a == b
  {
    hide Key;
  }

  ghost function SetOf(fs: seq<Forward>): set<Forward> {
    set f | f in fs
  }

  lemma WantedIsMapOf(name: string, fs: seq<Forward>)
    requires ValidName(name) && Good(fs)
    ensures IsMapOf(name, Wanted(name, fs), SetOf(fs))
  {
    GoodKeys(name, fs);
    WantedHas(name, fs);
  }

  lemma SubtractMapOf(name: string, live: Live, fs: set<Forward>, gone: seq<Forward>)
    requires IsMapOf(name, live, fs) && SetOf(gone) <= fs
    ensures IsMapOf(name, live - Keys(name, gone), fs - SetOf(gone))
  {
    hide Key;
    assert forall f | f in gone :: f in SetOf(gone);
  }

  lemma UniteMapsOf(name: string, a: Live, fs: set<Forward>, b: Live, gs: set<Forward>, all: Live)
    requires IsMapOf(name, a, fs) && IsMapOf(name, b, gs) && IsMapOf(name, all, fs + gs)
    ensures IsMapOf(name, a + b, fs + gs)
  {
    hide Key;
    forall c | c in a + b ensures (a + b)[c] == all[c] {
    }
  }

  lemma LeftIsShared(name: string, before: seq<Forward>, after: seq<Forward>)
    requires ValidName(name) && Good(before) && Good(after)
    ensures IsMapOf(name, Wanted(name, before) - Keys(name, ToRemove(before, after)), SetOf(before) * SetOf(after))
  {
    var rs := ToRemove(before, after);
    PlanParts(name, before, after);
    WantedIsMapOf(name, before);
    SubtractMapOf(name, Wanted(name, before), SetOf(before), rs);
    forall f | f in SetOf(before) ensures f in SetOf(rs) <==> f !in SetOf(after) {
      RemovedIff(before, after, f);
    }
    assert SetOf(before) - SetOf(rs) == SetOf(before) * SetOf(after);
  }

  lemma ComingSet(before: seq<Forward>, after: seq<Forward>)
    requires Distinct(before)
    ensures SetOf(Coming(before, after)) == SetOf(after) - SetOf(before)
  {
    forall f | f in SetOf(after) ensures f in SetOf(Coming(before, after)) <==> f !in SetOf(before) {
      ComingIff(before, after, f);
    }
  }

  lemma LeftAndComing(name: string, before: seq<Forward>, after: seq<Forward>, left: Live)
    requires ValidName(name) && Good(before) && Good(after)
    requires IsMapOf(name, left, SetOf(before) * SetOf(after))
    ensures left + Wanted(name, Coming(before, after)) == Wanted(name, after)
  {
    var coming := Coming(before, after);
    PlanParts(name, before, after);
    WantedIsMapOf(name, after);
    WantedIsMapOf(name, coming);
    ComingSet(before, after);
    assert SetOf(before) * SetOf(after) + SetOf(coming) == SetOf(after);
    hide Key, IsMapOf, Good;
    UniteMapsOf(name, left, SetOf(before) * SetOf(after), Wanted(name, coming), SetOf(coming), Wanted(name, after));
    MapOfUnique(name, left + Wanted(name, coming), Wanted(name, after), SetOf(after));
  }

  lemma ComingIsFree(name: string, before: seq<Forward>, after: seq<Forward>, left: Live)
    requires ValidName(name) && Good(before) && Good(after)
    requires IsMapOf(name, left, SetOf(before) * SetOf(after))
    ensures forall f | f in Coming(before, after) :: Key(name, f) !in left
  {
    WantedIsMapOf(name, after);
    var goal := Wanted(name, after);
    hide Key, Good;
    assert forall c | c in left :: c in goal && goal[c] == left[c] && left[c] in SetOf(before);
    forall f | f in Coming(before, after) ensures Key(name, f) !in left {
      ComingIff(before, after, f);
      assert f in SetOf(after) && goal[Key(name, f)] == f;
      assert f !in SetOf(before);
    }
  }

  /** The plan is legal from the old map and ends in the new one. */
  lemma PlanReaches(name: string, before: seq<Forward>, after: seq<Forward>)
    requires ValidName(name) && Good(before) && Good(after)
    ensures LegalRun(name, Wanted(name, before), Plan(before, after))
    ensures Run(name, Wanted(name, before), Plan(before, after)) == Wanted(name, after)
  {
    var rs, coming := ToRemove(before, after), Coming(before, after);
    var w := Wanted(name, before);
    var left := w - Keys(name, rs);
    PlanParts(name, before, after);
    GoodKeys(name, rs);
    GoodKeys(name, coming);
    WantedIsMapOf(name, before);
    LeftIsShared(name, before, after);
    ComingIsFree(name, before, after, left);
    LeftAndComing(name, before, after, left);
    hide Key, Good, DistinctKeys, Keys, ToRemove, Coming, Gone, Changed;
    assert forall f | f in rs :: f in SetOf(before);
    RunRemoves(name, w, rs);
    RunAdds(name, left, coming);
    RunConcat(name, w, Removes(rs), Adds(coming));
  }
}
