/** The three firewall chains as an implementation of the map of live forwards: every operation
    refines its map counterpart, other instances' rules are left as they were, and an interrupted
    plan unwinds to the old map. */
module ForwardsRefine {
  import opened Text
  import opened Network
  import opened PortFwd
  import opened ForwardsDiff

  // ----- views of a chain -----

  function Matching(rules: seq<Rule>, comment: string): seq<Rule> {
    if rules == [] then []
    else if rules[0].comment == comment then [rules[0]] + Matching(rules[1..], comment)
    else Matching(rules[1..], comment)
  }

  /** The rules that do not carry the instance's tag. */
  function Foreign(rules: seq<Rule>, name: string): seq<Rule> {
    if rules == [] then []
    else if Tag(name) <= rules[0].comment then Foreign(rules[1..], name)
    else [rules[0]] + Foreign(rules[1..], name)
  }

  lemma {:induction false} MatchingConcat(a: seq<Rule>, b: seq<Rule>, comment: string)
    ensures Matching(a + b, comment) == Matching(a, comment) + Matching(b, comment)
  {
    if a == [] {
      assert a + b == b;
    } else {
      assert (a + b)[1..] == a[1..] + b;
      MatchingConcat(a[1..], b, comment);
    }
  }

  lemma {:induction false} ForeignConcat(a: seq<Rule>, b: seq<Rule>, name: string)
    ensures Foreign(a + b, name) == Foreign(a, name) + Foreign(b, name)
  {
    hide Tag;
    if a == [] {
      assert a + b == b;
    } else {
      assert (a + b)[1..] == a[1..] + b;
      ForeignConcat(a[1..], b, name);
    }
  }

  lemma {:induction false} MatchingWithout(rules: seq<Rule>, gone: string, comment: string)
    ensures Matching(Without(rules, gone), comment) == if comment == gone then [] else Matching(rules, comment)
  {
    if rules == [] {
    } else {
      MatchingWithout(rules[1..], gone, comment);
      if rules[0].comment != gone {
        assert Without(rules, gone)[1..] == Without(rules[1..], gone);
      }
    }
  }

  lemma {:induction false} ForeignWithout(rules: seq<Rule>, gone: string, name: string)
    requires Tag(name) <= gone
    ensures Foreign(Without(rules, gone), name) == Foreign(rules, name)
  {
    hide Tag;
    if rules == [] {
    } else {
      ForeignWithout(rules[1..], gone, name);
      if rules[0].comment != gone {
        assert Without(rules, gone)[1..] == Without(rules[1..], gone);
      }
    }
  }

  lemma {:induction false} WithoutWithout(rules: seq<Rule>, a: string, b: string)
    ensures Without(Without(rules, a), b) == Without(Without(rules, b), a)
  {
    if rules == [] {
    } else {
      WithoutWithout(rules[1..], a, b);
      var first, rest := [rules[0]], rules[1..];
      WithoutConcat(first, Without(rest, a), b);
      WithoutConcat(first, Without(rest, b), a);
      assert first[1..] == [];
    }
  }

  // ----- operations on the chains -----

  function Execute(name: string, guestIp: string, chains: Chains, op: Op): (r: Chains)
    requires |chains| == 3
    ensures |r| == 3
  {
    match op
    case Add(f) => Installed(chains, RulesOf(name, guestIp, f), 3)
    case Remove(f) => Removed(chains, Key(name, f))
  }

  function ExecuteAll(name: string, guestIp: string, chains: Chains, ops: seq<Op>): (r: Chains)
    requires |chains| == 3
    ensures |r| == 3
    decreases |ops|
  {
    if ops == [] then chains else ExecuteAll(name, guestIp, Execute(name, guestIp, chains, ops[0]), ops[1..])
  }

  lemma {:induction false} ExecuteConcat(name: string, guestIp: string, chains: Chains, a: seq<Op>, b: seq<Op>)
    requires |chains| == 3
    ensures ExecuteAll(name, guestIp, chains, a + b)
         == ExecuteAll(name, guestIp, ExecuteAll(name, guestIp, chains, a), b)
    decreases |a|
  {
    if a == [] {
      assert a + b == b;
    } else {
      assert (a + b)[1..] == a[1..] + b;
      ExecuteConcat(name, guestIp, Execute(name, guestIp, chains, a[0]), a[1..], b);
    }
  }

  lemma ExecuteOne(name: string, guestIp: string, chains: Chains, ops: seq<Op>, op: Op)
    requires |chains| == 3
    ensures ExecuteAll(name, guestIp, chains, ops + [op])
         == Execute(name, guestIp, ExecuteAll(name, guestIp, chains, ops), op)
  {
    ExecuteConcat(name, guestIp, chains, ops, [op]);
    assert [op][1..] == [];
  }

  // ----- the abstraction relation -----

  /** What chain `i` holds for one comment. */
  function Expected(name: string, guestIp: string, live: Live, i: nat, comment: string): seq<Rule>
    requires i < 3
  {
    if comment in live then [RulesOf(name, guestIp, live[comment])[i]] else []
  }

  /** Every chain holds exactly one rule for each live forward and no other rule with the instance's tag. */
  ghost predicate Reflects(name: string, guestIp: string, chains: Chains, live: Live) {
    && |chains| == 3
    && (forall c | c in live :: Key(name, live[c]) == c && Plain(live[c]))
    && (forall i, c | 0 <= i < 3 && Tag(name) <= c ::
          Matching(chains[i], c) == Expected(name, guestIp, live, i, c))
  }

  lemma KeyHasTag(name: string, f: Forward)
    ensures Tag(name) <= Key(name, f)
  {
    hide Tag, Integer;
  }

  /** The chains determine the map: no two maps are reflected by the same chains. */
  lemma ReflectsUnique(name: string, guestIp: string, chains: Chains, a: Live, b: Live)
    requires Reflects(name, guestIp, chains, a) && Reflects(name, guestIp, chains, b)
    ensures a == b
  {
    forall c ensures c in a <==> c in b
            ensures c in a ==> a[c] == b[c] {
      if c in a || c in b {
        KeyHasTag(name, if c in a then a[c] else b[c]);
        assert Matching(chains[0], c) == Expected(name, guestIp, a, 0, c) == Expected(name, guestIp, b, 0, c);
        assert c in a && c in b && RulesOf(name, guestIp, a[c])[0] == RulesOf(name, guestIp, b[c])[0];
      }
    }
  }

  lemma MatchingInstalled(name: string, guestIp: string, chains: Chains, f: Forward, count: nat, i: nat, c: string)
    requires |chains| == 3 && count <= 3 && i < 3
    ensures Matching(Installed(chains, RulesOf(name, guestIp, f), count)[i], c)
         == Matching(chains[i], c) + if i < count && c == Key(name, f) then [RulesOf(name, guestIp, f)[i]] else []
    ensures Foreign(Installed(chains, RulesOf(name, guestIp, f), count)[i], name) == Foreign(chains[i], name)
  {
    var rule := RulesOf(name, guestIp, f)[i];
    KeyHasTag(name, f);
    hide Tag, RulesOf, Key;
    MatchingConcat(chains[i], [rule], c);
    ForeignConcat(chains[i], [rule], name);
    assert [rule][1..] == [];
  }

  /** One legal operation keeps the relation and does not disturb other instances. */
  lemma ExecuteRefines(name: string, guestIp: string, chains: Chains, live: Live, op: Op)
    requires Reflects(name, guestIp, chains, live) && Legal(name, live, op) && Plain(op.f)
    ensures Reflects(name, guestIp, Execute(name, guestIp, chains, op), Step(name, live, op))
    ensures forall i | 0 <= i < 3 :: Foreign(Execute(name, guestIp, chains, op)[i], name) == Foreign(chains[i], name)
  {
    var after, next := Execute(name, guestIp, chains, op), Step(name, live, op);
    KeyHasTag(name, op.f);
    hide Tag, Plain, Key;
    forall i, c | 0 <= i < 3 && Tag(name) <= c
      ensures Matching(after[i], c) == Expected(name, guestIp, next, i, c)
    {
      assert Matching(chains[i], c) == Expected(name, guestIp, live, i, c);
      if op.Add? {
        MatchingInstalled(name, guestIp, chains, op.f, 3, i, c);
      } else {
        MatchingWithout(chains[i], Key(name, op.f), c);
      }
    }
    forall i | 0 <= i < 3 ensures Foreign(after[i], name) == Foreign(chains[i], name) {
      if op.Add? {
        MatchingInstalled(name, guestIp, chains, op.f, 3, i, "");
      } else {
        ForeignWithout(chains[i], Key(name, op.f), name);
      }
    }
  }

  predicate PlainOps(ops: seq<Op>) {
    forall i :: 0 <= i < |ops| ==> Plain(ops[i].f)
  }

  lemma {:induction false} ExecuteAllRefines(name: string, guestIp: string, chains: Chains, live: Live, ops: seq<Op>)
    requires Reflects(name, guestIp, chains, live) && LegalRun(name, live, ops) && PlainOps(ops)
    ensures Reflects(name, guestIp, ExecuteAll(name, guestIp, chains, ops), Run(name, live, ops))
    ensures forall i | 0 <= i < 3 :: Foreign(ExecuteAll(name, guestIp, chains, ops)[i], name) == Foreign(chains[i], name)
    decreases |ops|
  {
    if ops == [] {
    } else {
      ExecuteRefines(name, guestIp, chains, live, ops[0]);
      hide Reflects, Plain, Execute, Foreign, Step, Legal;
      ExecuteAllRefines(name, guestIp, Execute(name, guestIp, chains, ops[0]), Step(name, live, ops[0]), ops[1..]);
    }
  }

  lemma {:induction false} UndoIsPlain(ops: seq<Op>)
    requires PlainOps(ops)
    ensures PlainOps(UndoOf(ops))
  {
    if ops == [] {
    } else {
      assert Plain(ops[0].f);
      hide Plain;
      UndoIsPlain(ops[1..]);
    }
  }

  lemma PlanIsPlain(name: string, before: seq<Forward>, after: seq<Forward>)
    requires ValidName(name) && Good(before) && Good(after)
    ensures PlainOps(Plan(before, after))
  {
    PlanParts(name, before, after);
    var rs, coming := ToRemove(before, after), Coming(before, after);
    hide Plain, ToRemove, Coming;
    forall i | 0 <= i < |Plan(before, after)| ensures Plain(Plan(before, after)[i].f) {
      if i < |rs| {
        assert Plan(before, after)[i].f == rs[i];
      } else {
        assert Plan(before, after)[i].f == coming[i - |rs|];
      }
    }
  }

  // ----- whatever fails -----

  function OpKeys(name: string, ops: seq<Op>): set<string> {
    set i | 0 <= i < |ops| :: Key(name, ops[i].f)
  }

  /** The rules whose comment is none of these keys, in order. */
  function Untouched(rules: seq<Rule>, keys: set<string>): seq<Rule> {
    if rules == [] then []
    else if rules[0].comment in keys then Untouched(rules[1..], keys)
    else [rules[0]] + Untouched(rules[1..], keys)
  }

  /** Both have the same rules in the same order, those with one of the keys aside. */
  predicate Kept(a: Chains, b: Chains, keys: set<string>) {
    |a| == |b| == 3 && forall i | 0 <= i < 3 :: Untouched(a[i], keys) == Untouched(b[i], keys)
  }

  lemma {:induction false} UntouchedWithout(rules: seq<Rule>, gone: string, keys: set<string>)
    requires gone in keys
    ensures Untouched(Without(rules, gone), keys) == Untouched(rules, keys)
  {
    if rules == [] {
    } else {
      UntouchedWithout(rules[1..], gone, keys);
      if rules[0].comment != gone {
        assert Without(rules, gone)[1..] == Without(rules[1..], gone);
      }
    }
  }

  lemma {:induction false} ForeignUntouched(rules: seq<Rule>, keys: set<string>, name: string)
    requires forall k | k in keys :: Tag(name) <= k
    ensures Foreign(Untouched(rules, keys), name) == Foreign(rules, name)
  {
    hide Tag;
    if rules == [] {
    } else {
      ForeignUntouched(rules[1..], keys, name);
      if rules[0].comment !in keys {
        assert Untouched(rules, keys)[1..] == Untouched(rules[1..], keys);
      }
    }
  }

  lemma {:induction false} MatchingUntouched(rules: seq<Rule>, keys: set<string>, comment: string)
    requires comment !in keys
    ensures Matching(Untouched(rules, keys), comment) == Matching(rules, comment)
  {
    if rules == [] {
    } else {
      MatchingUntouched(rules[1..], keys, comment);
      if rules[0].comment !in keys {
        assert Untouched(rules, keys)[1..] == Untouched(rules[1..], keys);
      }
    }
  }

  lemma KeptSelf(a: Chains, keys: set<string>)
    requires |a| == 3
    ensures Kept(a, a, keys)
  {
  }

  lemma KeptStep(a: Chains, b: Chains, c: Chains, keys: set<string>)
    requires Kept(b, a, keys) && Kept(c, b, keys)
    ensures Kept(c, a, keys)
  {
    hide Untouched;
  }

  /** A change to the rules of one key keeps the others. */
  lemma KeptByKey(a: Chains, b: Chains, key: string, keys: set<string>)
    requires |a| == |b| == 3 && key in keys
    requires forall i | 0 <= i < 3 :: Without(a[i], key) == Without(b[i], key)
    ensures Kept(a, b, keys)
  {
    hide Without, Untouched;
    forall i | 0 <= i < 3 ensures Untouched(a[i], keys) == Untouched(b[i], keys) {
      UntouchedWithout(a[i], key, keys);
      UntouchedWithout(b[i], key, keys);
    }
  }

  lemma KeptByInstall(name: string, guestIp: string, chains: Chains, f: Forward, count: nat, keys: set<string>)
    requires |chains| == 3 && count <= 3 && Key(name, f) in keys
    ensures Kept(Installed(chains, RulesOf(name, guestIp, f), count), chains, keys)
  {
    var rules := RulesOf(name, guestIp, f);
    var now := Installed(chains, rules, count);
    assert forall i | 0 <= i < 3 :: rules[i].comment == Key(name, f);
    hide RulesOf, Key, Untouched;
    forall i | 0 <= i < 3 ensures Without(now[i], Key(name, f)) == Without(chains[i], Key(name, f)) {
      WithoutConcat(chains[i], [rules[i]], Key(name, f));
      assert [rules[i]][1..] == [] && Without(chains[i], Key(name, f)) + [] == Without(chains[i], Key(name, f));
    }
    hide Without;
    KeptByKey(now, chains, Key(name, f), keys);
  }

  lemma KeptByRemove(a: Chains, b: Chains, key: string, keys: set<string>)
    requires |a| == |b| == 3 && key in keys && Removed(a, key) == Removed(b, key)
    ensures Kept(a, b, keys)
  {
    hide Without, Untouched;
    forall i | 0 <= i < 3 ensures Without(a[i], key) == Without(b[i], key) {
      assert Removed(a, key)[i] == Removed(b, key)[i];
    }
    KeptByKey(a, b, key, keys);
  }

  /** What is kept by changing keys of one instance: the rules of every other instance. */
  lemma KeptForeign(a: Chains, b: Chains, name: string, ops: seq<Op>)
    requires Kept(a, b, OpKeys(name, ops))
    ensures forall i | 0 <= i < 3 :: Foreign(a[i], name) == Foreign(b[i], name)
  {
    hide Foreign, Untouched, Tag, Key;
    var keys := OpKeys(name, ops);
    forall k | k in keys ensures Tag(name) <= k {
      var i :| 0 <= i < |ops| && k == Key(name, ops[i].f);
      KeyHasTag(name, ops[i].f);
    }
    forall i | 0 <= i < 3 ensures Foreign(a[i], name) == Foreign(b[i], name) {
      ForeignUntouched(a[i], keys, name);
      ForeignUntouched(b[i], keys, name);
    }
  }

  // ----- success -----

  /** Carrying out the whole plan takes chains that reflect the old set to chains that reflect the new one. */
  lemma PlanRefines(name: string, guestIp: string, chains: Chains, before: seq<Forward>, after: seq<Forward>)
    requires ValidName(name) && Good(before) && Good(after)
    requires Reflects(name, guestIp, chains, Wanted(name, before))
    ensures Reflects(name, guestIp, ExecuteAll(name, guestIp, chains, Plan(before, after)), Wanted(name, after))
    ensures forall i | 0 <= i < 3 ::
              Foreign(ExecuteAll(name, guestIp, chains, Plan(before, after))[i], name) == Foreign(chains[i], name)
  {
    PlanReaches(name, before, after);
    PlanIsPlain(name, before, after);
    ExecuteAllRefines(name, guestIp, chains, Wanted(name, before), Plan(before, after));
  }

  // ----- every intermediate state -----

  /** What the setter does when it stops after `done` operations: those operations, then their inverses. */
  function Trace(ops: seq<Op>, done: nat): seq<Op>
    requires done <= |ops|
  {
    ops[..done] + UndoOf(ops[..done])
  }

  lemma TraceLegal(name: string, live: Live, ops: seq<Op>, done: nat, k: nat)
    requires LegalRun(name, live, ops) && done <= |ops| && k <= |Trace(ops, done)|
    ensures LegalRun(name, live, Trace(ops, done)[..k])
  {
    var trace := Trace(ops, done);
    assert ops == ops[..done] + ops[done..];
    RunConcat(name, live, ops[..done], ops[done..]);
    UndoReturns(name, live, ops[..done]);
    RunConcat(name, live, ops[..done], UndoOf(ops[..done]));
    assert trace == trace[..k] + trace[k..];
    RunConcat(name, live, trace[..k], trace[k..]);
  }

  lemma OtherKeys(name: string, fs: seq<Forward>, part: seq<Forward>, f: Forward)
    requires ValidName(name) && Good(fs) && f in fs && f !in part && forall g | g in part :: g in fs
    ensures forall g | g in part :: Key(name, g) != Key(name, f)
  {
    hide Key, Good;
    forall g | g in part ensures Key(name, g) != Key(name, f) {
      KeyIdentifies(name, fs, g, f);
    }
  }

  lemma PlanForwards(before: seq<Forward>, after: seq<Forward>)
    ensures var ops, rs, coming := Plan(before, after), ToRemove(before, after), Coming(before, after);
            && |ops| == |rs| + |coming|
            && forall i | 0 <= i < |ops| :: ops[i].f == if i < |rs| then rs[i] else coming[i - |rs|]
  {
    hide ToRemove, Coming;
  }

  lemma GoodIsDistinct(fs: seq<Forward>)
    requires Good(fs)
    ensures Distinct(fs)
  {
  }

  lemma TouchesNone(name: string, ops: seq<Op>, rs: seq<Forward>, coming: seq<Forward>, key: string)
    requires |ops| == |rs| + |coming|
    requires forall i | 0 <= i < |ops| :: ops[i].f == if i < |rs| then rs[i] else coming[i - |rs|]
    requires (forall g | g in rs :: Key(name, g) != key) && forall g | g in coming :: Key(name, g) != key
    ensures !Touches(name, ops, key)
  {
    hide Key;
  }

  lemma UnchangedUntouched(name: string, before: seq<Forward>, after: seq<Forward>, f: Forward)
    requires ValidName(name) && Good(before) && Good(after) && f in before && f in after
    ensures !Touches(name, Plan(before, after), Key(name, f))
  {
    hide Key, Good, ToRemove, Coming, Distinct, Plan, ValidName;
    GoodIsDistinct(before);
    GoodIsDistinct(after);
    PlanParts(name, before, after);
    RemovedIff(before, after, f);
    ComingIff(before, after, f);
    OtherKeys(name, before, ToRemove(before, after), f);
    OtherKeys(name, after, Coming(before, after), f);
    PlanForwards(before, after);
    TouchesNone(name, Plan(before, after), ToRemove(before, after), Coming(before, after), Key(name, f));
  }

  /** A forward that both sets have keeps its rules, even when calls fail. */
  lemma UnchangedStays(name: string, before: seq<Forward>, after: seq<Forward>, f: Forward, was: Chains, now: Chains)
    requires ValidName(name) && Good(before) && Good(after) && f in before && f in after
    requires Kept(now, was, OpKeys(name, Plan(before, after)))
    ensures forall i | 0 <= i < 3 :: Matching(now[i], Key(name, f)) == Matching(was[i], Key(name, f))
  {
    UnchangedUntouched(name, before, after, f);
    hide Key, Good, Plan, Matching, Untouched;
    var keys := OpKeys(name, Plan(before, after));
    assert Key(name, f) !in keys;
    forall i | 0 <= i < 3 ensures Matching(now[i], Key(name, f)) == Matching(was[i], Key(name, f)) {
      MatchingUntouched(now[i], keys, Key(name, f));
      MatchingUntouched(was[i], keys, Key(name, f));
    }
  }

  lemma TraceUntouched(name: string, live: Live, ops: seq<Op>, key: string, done: nat, k: nat)
    requires !Touches(name, ops, key) && key in live
    requires done <= |ops| && k <= |Trace(ops, done)|
    ensures var end := Run(name, live, Trace(ops, done)[..k]);
            key in end && end[key] == live[key]
  {
    hide Key, Run;
    var part := Trace(ops, done)[..k];
    assert !Touches(name, ops[..done], key);
    UndoTouches(name, ops[..done], key);
    assert !Touches(name, part, key);
    RunUntouched(name, live, part, key);
  }

  lemma KeptThroughout(name: string, before: seq<Forward>, after: seq<Forward>, f: Forward, done: nat, k: nat)
    requires ValidName(name) && Good(before) && Good(after) && f in before && f in after
    requires done <= |Plan(before, after)| && k <= |Trace(Plan(before, after), done)|
    ensures var live := Run(name, Wanted(name, before), Trace(Plan(before, after), done)[..k]);
            Key(name, f) in live && live[Key(name, f)] == f
  {
    WantedIsMapOf(name, before);
    assert f in SetOf(before);
    UnchangedUntouched(name, before, after, f);
    hide Key, Good, Wanted, Run, Plan, Trace, Touches;
    TraceUntouched(name, Wanted(name, before), Plan(before, after), Key(name, f), done, k);
  }

  lemma TraceRefines(name: string, guestIp: string, chains: Chains, live: Live, ops: seq<Op>, done: nat, k: nat)
    requires Reflects(name, guestIp, chains, live) && LegalRun(name, live, ops) && PlainOps(ops)
    requires done <= |ops| && k <= |Trace(ops, done)|
    ensures Reflects(name, guestIp, ExecuteAll(name, guestIp, chains, Trace(ops, done)[..k]),
                     Run(name, live, Trace(ops, done)[..k]))
  {
    TraceLegal(name, live, ops, done, k);
    UndoIsPlain(ops[..done]);
    hide Reflects, LegalRun, Run, ExecuteAll, Plain;
    assert PlainOps(Trace(ops, done)[..k]);
    ExecuteAllRefines(name, guestIp, chains, live, Trace(ops, done)[..k]);
  }

  /** While the plan runs, and while it unwinds from any point, every state of the chains reflects
      some map, so no binding has two targets; and every forward common to both sets is in it. */
  lemma IntermediateStates(name: string, guestIp: string, chains: Chains, before: seq<Forward>, after: seq<Forward>,
                           done: nat, k: nat)
    requires ValidName(name) && Good(before) && Good(after)
    requires Reflects(name, guestIp, chains, Wanted(name, before))
    requires done <= |Plan(before, after)| && k <= |Trace(Plan(before, after), done)|
    ensures var part := Trace(Plan(before, after), done)[..k];
            var live := Run(name, Wanted(name, before), part);
            && Reflects(name, guestIp, ExecuteAll(name, guestIp, chains, part), live)
            && forall f | f in before && f in after :: Key(name, f) in live && live[Key(name, f)] == f
  {
    PlanReaches(name, before, after);
    PlanIsPlain(name, before, after);
    hide Reflects, Key, Good, Plain, PlainOps, Wanted, Run, ExecuteAll, LegalRun, Plan, Trace;
    TraceRefines(name, guestIp, chains, Wanted(name, before), Plan(before, after), done, k);
    forall f | f in before && f in after
      ensures var live := Run(name, Wanted(name, before), Trace(Plan(before, after), done)[..k]);
              Key(name, f) in live && live[Key(name, f)] == f
    {
      KeptThroughout(name, before, after, f, done, k);
    }
  }

  // ----- an addition that fails half way -----

  /** The chains agree except for `extra` rules in front under one comment. */
  ghost predicate AgreeBut(a: Chains, b: Chains, comment: string, extra: Chains) {
    && |a| == |b| == |extra| == 3
    && forall i | 0 <= i < 3 ::
         && Without(a[i], comment) == Without(b[i], comment)
         && Matching(a[i], comment) == extra[i] + Matching(b[i], comment)
  }

  lemma AgreeStep(name: string, guestIp: string, a: Chains, b: Chains, comment: string, extra: Chains, op: Op)
    requires AgreeBut(a, b, comment, extra) && (op.Remove? ==> Key(name, op.f) != comment)
    ensures AgreeBut(Execute(name, guestIp, a, op), Execute(name, guestIp, b, op), comment, extra)
  {
    var a', b' := Execute(name, guestIp, a, op), Execute(name, guestIp, b, op);
    forall i | 0 <= i < 3
      ensures Without(a'[i], comment) == Without(b'[i], comment)
      ensures Matching(a'[i], comment) == extra[i] + Matching(b'[i], comment)
    {
      if op.Add? {
        var rule := RulesOf(name, guestIp, op.f)[i];
        hide RulesOf, Key;
        WithoutConcat(a[i], [rule], comment);
        WithoutConcat(b[i], [rule], comment);
        MatchingConcat(a[i], [rule], comment);
        MatchingConcat(b[i], [rule], comment);
      } else {
        hide Key;
        WithoutWithout(a[i], Key(name, op.f), comment);
        WithoutWithout(b[i], Key(name, op.f), comment);
        MatchingWithout(a[i], Key(name, op.f), comment);
        MatchingWithout(b[i], Key(name, op.f), comment);
      }
    }
  }

  predicate NeverRemoves(name: string, ops: seq<Op>, key: string) {
    forall i :: 0 <= i < |ops| && ops[i].Remove? ==> Key(name, ops[i].f) != key
  }

  lemma {:induction false} AgreeAll(name: string, guestIp: string, a: Chains, b: Chains, comment: string, extra: Chains,
                                    ops: seq<Op>)
    requires AgreeBut(a, b, comment, extra) && NeverRemoves(name, ops, comment)
    ensures AgreeBut(ExecuteAll(name, guestIp, a, ops), ExecuteAll(name, guestIp, b, ops), comment, extra)
    decreases |ops|
  {
    if ops == [] {
    } else {
      AgreeStep(name, guestIp, a, b, comment, extra, ops[0]);
      hide AgreeBut, Execute, Key;
      AgreeAll(name, guestIp, Execute(name, guestIp, a, ops[0]), Execute(name, guestIp, b, ops[0]), comment, extra, ops[1..]);
    }
  }

  predicate NeverAdds(name: string, ops: seq<Op>, key: string) {
    forall i :: 0 <= i < |ops| && ops[i].Add? ==> Key(name, ops[i].f) != key
  }

  lemma {:induction false} UndoNeverRemoves(name: string, ops: seq<Op>, key: string)
    requires NeverAdds(name, ops, key)
    ensures NeverRemoves(name, UndoOf(ops), key)
  {
    if ops == [] {
    } else {
      hide Key;
      UndoNeverRemoves(name, ops[1..], key);
    }
  }

  lemma AddedBefore(name: string, rs: seq<Forward>, coming: seq<Forward>, done: nat)
    requires DistinctKeys(name, coming) && |rs| <= done < |rs| + |coming|
    ensures NeverAdds(name, (Removes(rs) + Adds(coming))[..done], Key(name, coming[done - |rs|]))
  {
    hide Key;
  }

  /** Before the plan adds a forward it has added nothing else under that forward's comment. */
  lemma AddedOnce(name: string, before: seq<Forward>, after: seq<Forward>, done: nat)
    requires ValidName(name) && Good(before) && Good(after)
    requires done < |Plan(before, after)| && Plan(before, after)[done].Add?
    ensures NeverAdds(name, Plan(before, after)[..done], Key(name, Plan(before, after)[done].f))
  {
    PlanParts(name, before, after);
    GoodKeys(name, Coming(before, after));
    AddedBefore(name, ToRemove(before, after), Coming(before, after), done);
  }

  /** The chains after `done` operations and `count` of the three rules of the next one. */
  function Reached(name: string, guestIp: string, chains: Chains, ops: seq<Op>, done: nat, count: nat): (r: Chains)
    requires |chains| == 3 && done <= |ops| && count <= 3
    ensures |r| == 3
  {
    var all := ExecuteAll(name, guestIp, chains, ops[..done]);
    if done < |ops| then Installed(all, RulesOf(name, guestIp, ops[done].f), count) else all
  }

  /** The chains when operation number `done` failed after `count` of its rules and the undo stack ran. */
  function Unwound(name: string, guestIp: string, chains: Chains, ops: seq<Op>, done: nat, count: nat): (r: Chains)
    requires |chains| == 3 && done <= |ops| && count <= 3
    ensures |r| == 3
  {
    ExecuteAll(name, guestIp, Reached(name, guestIp, chains, ops, done, count), UndoOf(ops[..done]))
  }

  lemma SplitRun(name: string, live: Live, ops: seq<Op>, done: nat)
    requires LegalRun(name, live, ops) && PlainOps(ops) && done <= |ops|
    ensures LegalRun(name, live, ops[..done]) && PlainOps(ops[..done]) && PlainOps(UndoOf(ops[..done]))
    ensures done < |ops| ==> Legal(name, Run(name, live, ops[..done]), ops[done])
  {
    assert ops == ops[..done] + ops[done..];
    RunConcat(name, live, ops[..done], ops[done..]);
    UndoIsPlain(ops[..done]);
  }

  lemma UnwoundWhole(name: string, guestIp: string, chains: Chains, live: Live, ops: seq<Op>, done: nat)
    requires Reflects(name, guestIp, chains, live) && LegalRun(name, live, ops) && PlainOps(ops) && done <= |ops|
    ensures Reflects(name, guestIp, Unwound(name, guestIp, chains, ops, done, 0), live)
    ensures forall i | 0 <= i < 3 :: Foreign(Unwound(name, guestIp, chains, ops, done, 0)[i], name) == Foreign(chains[i], name)
  {
    var head := ops[..done];
    SplitRun(name, live, ops, done);
    UndoReturns(name, live, head);
    hide Reflects, Foreign, LegalRun, Run, PlainOps, ExecuteAll;
    ExecuteAllRefines(name, guestIp, chains, live, head);
    var reached := ExecuteAll(name, guestIp, chains, head);
    ExecuteAllRefines(name, guestIp, reached, Run(name, live, head), UndoOf(head));
    if done < |ops| {
      assert Installed(reached, RulesOf(name, guestIp, ops[done].f), 0) == reached;
    }
  }

  lemma FreeBeforeAdd(name: string, guestIp: string, chains: Chains, live: Live, ops: seq<Op>, done: nat)
    requires Reflects(name, guestIp, chains, live) && LegalRun(name, live, ops) && PlainOps(ops)
    requires done < |ops| && ops[done].Add?
    ensures forall i | 0 <= i < 3 ::
              Matching(ExecuteAll(name, guestIp, chains, ops[..done])[i], Key(name, ops[done].f)) == []
  {
    SplitRun(name, live, ops, done);
    KeyHasTag(name, ops[done].f);
    ExecuteAllRefines(name, guestIp, chains, live, ops[..done]);
    hide Tag, Key, Plain, Matching, ExecuteAll, Run, LegalRun, RulesOf;
    var reached := ExecuteAll(name, guestIp, chains, ops[..done]);
    forall i | 0 <= i < 3 ensures Matching(reached[i], Key(name, ops[done].f)) == [] {
      assert Matching(reached[i], Key(name, ops[done].f))
          == Expected(name, guestIp, Run(name, live, ops[..done]), i, Key(name, ops[done].f));
    }
  }

  lemma BrokenAgrees(name: string, guestIp: string, reached: Chains, f: Forward, count: nat, extra: Chains)
    requires |reached| == 3 && count < 3
    requires forall i | 0 <= i < 3 :: Matching(reached[i], Key(name, f)) == []
    requires |extra| == 3 && forall i | 0 <= i < 3 :: extra[i] == if i < count then [RulesOf(name, guestIp, f)[i]] else []
    ensures AgreeBut(Installed(reached, RulesOf(name, guestIp, f), count), reached, Key(name, f), extra)
  {
    var broken := Installed(reached, RulesOf(name, guestIp, f), count);
    forall i | 0 <= i < 3
      ensures Without(broken[i], Key(name, f)) == Without(reached[i], Key(name, f))
      ensures Matching(broken[i], Key(name, f)) == extra[i] + Matching(reached[i], Key(name, f))
    {
      MatchingInstalled(name, guestIp, reached, f, count, i, Key(name, f));
      var rule := RulesOf(name, guestIp, f)[i];
      assert rule.comment == Key(name, f);
      hide Key, RulesOf, Tag;
      WithoutConcat(reached[i], [rule], Key(name, f));
      assert [rule][1..] == [];
    }
  }

  lemma LeftoverShows(name: string, guestIp: string, got: Chains, want: Chains, live: Live, key: string, extra: Chains,
                      count: nat)
    requires AgreeBut(got, want, key, extra) && Reflects(name, guestIp, want, live) && Tag(name) <= key && count < 3
    requires forall i | 0 <= i < 3 :: |extra[i]| == if i < count then 1 else 0
    ensures Reflects(name, guestIp, got, live) <==> count == 0
  {
    hide Tag, Key, Plain;
    if count > 0 {
      assert |Matching(got[0], key)| == 1 + |Matching(want[0], key)|;
      assert Matching(want[0], key) == Expected(name, guestIp, live, 0, key);
    } else {
      forall i, c | 0 <= i < 3 && Tag(name) <= c
        ensures Matching(got[i], c) == Expected(name, guestIp, live, i, c)
      {
        assert extra[i] == [];
        assert Matching(want[i], c) == Expected(name, guestIp, live, i, c);
        if c != key {
          MatchingWithout(got[i], key, c);
          MatchingWithout(want[i], key, c);
        }
      }
    }
  }

  /** After a failed addition the undo stack restores the old set up to the rules that carry the
      failed forward's own comment, and restores it exactly when the first of the three commands
      was the one that failed. */
  lemma UnwoundPartial(name: string, guestIp: string, chains: Chains, live: Live, ops: seq<Op>, done: nat, count: nat)
    requires Reflects(name, guestIp, chains, live) && LegalRun(name, live, ops) && PlainOps(ops)
    requires done < |ops| && ops[done].Add? && count < 3
    requires NeverAdds(name, ops[..done], Key(name, ops[done].f))
    ensures var got, want := Unwound(name, guestIp, chains, ops, done, count), Unwound(name, guestIp, chains, ops, done, 0);
            && (forall i | 0 <= i < 3 :: Without(got[i], Key(name, ops[done].f)) == Without(want[i], Key(name, ops[done].f)))
            && (Reflects(name, guestIp, got, live) <==> count == 0)
            && (forall i | 0 <= i < 3 :: Foreign(got[i], name) == Foreign(want[i], name))
  {
    var f, head := ops[done].f, ops[..done];
    var key := Key(name, f);
    var reached := ExecuteAll(name, guestIp, chains, head);
    var rules := RulesOf(name, guestIp, f);
    var broken := Installed(reached, rules, count);
    assert Installed(reached, rules, 0) == reached;
    var extra := seq(3, i requires 0 <= i < 3 => if i < count then [rules[i]] else []);
    FreeBeforeAdd(name, guestIp, chains, live, ops, done);
    BrokenAgrees(name, guestIp, reached, f, count, extra);
    UnwoundWhole(name, guestIp, chains, live, ops, done);
    KeyHasTag(name, f);
    assert forall i | 0 <= i < 3 :: |extra[i]| == if i < count then 1 else 0;
    hide Reflects, LegalRun, PlainOps, ExecuteAll, Key, RulesOf, Tag, Matching;
    UndoNeverRemoves(name, head, key);
    AgreeAll(name, guestIp, broken, reached, key, extra, UndoOf(head));
    LeftoverShows(name, guestIp, Unwound(name, guestIp, chains, ops, done, count),
                  Unwound(name, guestIp, chains, ops, done, 0), live, key, extra, count);
    forall i | 0 <= i < 3
      ensures Foreign(Unwound(name, guestIp, chains, ops, done, count)[i], name)
           == Foreign(Unwound(name, guestIp, chains, ops, done, 0)[i], name)
    {
      ForeignWithout(Unwound(name, guestIp, chains, ops, done, count)[i], key, name);
      ForeignWithout(Unwound(name, guestIp, chains, ops, done, 0)[i], key, name);
    }
  }

  /** The setter's own plan: what an interrupted run leaves behind. */
  lemma PlanUnwinds(name: string, guestIp: string, chains: Chains, before: seq<Forward>, after: seq<Forward>,
                    done: nat, count: nat)
    requires ValidName(name) && Good(before) && Good(after)
    requires Reflects(name, guestIp, chains, Wanted(name, before))
    requires done <= |Plan(before, after)| && count < 3
    requires count > 0 ==> done < |Plan(before, after)| && Plan(before, after)[done].Add?
    ensures var ops := Plan(before, after);
            var got := Unwound(name, guestIp, chains, ops, done, count);
            && (Reflects(name, guestIp, got, Wanted(name, before)) <==> count == 0)
            && (forall i | 0 <= i < 3 :: Foreign(got[i], name) == Foreign(chains[i], name))
            && exists want: Chains {:trigger Reflects(name, guestIp, want, Wanted(name, before))} ::
                 && Reflects(name, guestIp, want, Wanted(name, before))
                 && (count > 0 ==> forall i | 0 <= i < 3 ::
                       Without(got[i], Key(name, ops[done].f)) == Without(want[i], Key(name, ops[done].f)))
  {
    var ops, live := Plan(before, after), Wanted(name, before);
    PlanReaches(name, before, after);
    PlanIsPlain(name, before, after);
    if count > 0 {
      AddedOnce(name, before, after, done);
    }
    hide Reflects, LegalRun, PlainOps, Plan, Key, Foreign, Without, Unwound, Wanted, Good;
    UnwoundWhole(name, guestIp, chains, live, ops, done);
    assert Reflects(name, guestIp, Unwound(name, guestIp, chains, ops, done, 0), live);
    if count > 0 {
      UnwoundPartial(name, guestIp, chains, live, ops, done, count);
    }
  }
}
