/** The `forwards` setter of a running or stopped container (`_instances.py`): the instance object,
    its live applier and its state file. Undo steps and rule removals report in `clean` whether all
    their tool calls succeeded; the source swallows those failures. */
module ForwardsSetter {
  import opened Text
  import opened Network
  import opened PortFwd
  import opened ForwardsDiff
  import opened ForwardsRefine
  import opened Packets

  datatype Backend = Nft | Iptables

  /** What the caller sees. `AddFailed` names the operation of the plan that failed and how many of
      its three commands had run. */
  datatype Outcome =
    | Done
    | Refused(error: Error)
    | NotReady
    | AddFailed(op: nat, count: nat)
    | PersistFailed

  function Inverses(ops: seq<Op>): (r: seq<Op>)
    ensures |r| == |ops|
  {
    seq(|ops|, i requires 0 <= i < |ops| => Inverse(ops[i]))
  }

  lemma InversesOne(ops: seq<Op>, n: nat)
    requires n < |ops|
    ensures Inverses(ops[..n + 1]) == Inverses(ops[..n]) + [Inverse(ops[n])]
  {
  }

  /** The order in which a stack is emptied. */
  function Reversed(ops: seq<Op>): seq<Op> {
    if ops == [] then [] else [ops[|ops| - 1]] + Reversed(ops[..|ops| - 1])
  }

  /** Undoing the last of the first `i + 1` operations, then the others. */
  lemma UnwindStep(name: string, guestIp: string, chains: Chains, undo: seq<Op>, i: nat)
    requires i < |undo| && |chains| == 3
    ensures ExecuteAll(name, guestIp, chains, Reversed(undo[..i + 1]))
         == ExecuteAll(name, guestIp, Execute(name, guestIp, chains, undo[i]), Reversed(undo[..i]))
  {
    hide Execute;
    var ops := Reversed(undo[..i + 1]);
    assert undo[..i + 1][..i] == undo[..i];
    assert ops == [undo[i]] + Reversed(undo[..i]);
    assert ops[1..] == Reversed(undo[..i]);
  }

  lemma NothingToUndo(name: string, guestIp: string, chains: Chains, undo: seq<Op>)
    requires |chains| == 3
    ensures ExecuteAll(name, guestIp, chains, Reversed(undo[..0])) == chains
  {
    assert undo[..0] == [];
  }

  lemma {:induction false} ReversedFront(op: Op, ops: seq<Op>)
    ensures Reversed([op] + ops) == Reversed(ops) + [op]
  {
    if ops == [] {
      assert ([op] + ops)[..0] == [];
    } else {
      assert ([op] + ops)[..|ops|] == [op] + ops[..|ops| - 1];
      ReversedFront(op, ops[..|ops| - 1]);
    }
  }

  lemma {:induction false} ReversedInverses(ops: seq<Op>)
    ensures Reversed(Inverses(ops)) == UndoOf(ops)
  {
    if ops == [] {
    } else {
      ReversedInverses(ops[1..]);
      assert Inverses(ops) == [Inverse(ops[0])] + Inverses(ops[1..]);
      ReversedFront(Inverse(ops[0]), Inverses(ops[1..]));
    }
  }

  function FileFor(fs: seq<Forward>): (file: Option<string>)
    requires AllPlain(fs)
  {
    if fs == [] then None else Some(Unlines(RenderAll(fs)))
  }

  lemma FileLoads(fs: seq<Forward>)
    requires Good(fs)
    ensures LoadForwards(FileFor(fs)) == fs
  {
    if fs != [] {
      PersistedSetLoads(fs);
    }
  }

  class Instance {
    const name: string
    const table: NatTable
    var portFile: Option<string>
    var forwards: seq<Forward>

    /** The instance has a valid name and the cache holds a valid set. */
    ghost predicate Consistent()
      reads this, table
    {
      ValidName(name) && table.Valid() && Good(forwards)
    }

    constructor (name: string, table: NatTable, portFile: Option<string>, forwards: seq<Forward>)
      requires ValidName(name) && table.Valid() && Good(forwards)
      ensures this.name == name && this.table == table && this.portFile == portFile && this.forwards == forwards
      ensures Consistent()
    {
      this.name, this.table, this.portFile, this.forwards := name, table, portFile, forwards;
    }

    method RunRemove(backend: Backend, f: Forward) returns (clean: bool)
      requires table.Valid()
      modifies table
      ensures table.Valid()
      ensures Removed(table.View(), Key(name, f)) == Removed(old(table.View()), Key(name, f))
      ensures clean ==> table.View() == Removed(old(table.View()), Key(name, f))
    {
      var comment := Comment(name, f.binding.protocol, f.binding.hostPort);
      if backend == Nft {
        clean := table.NftRemove(comment);
      } else {
        clean := table.IptablesRemove(comment);
      }
    }

    /** One call of the live applier. Whatever fails, only rules of the forward's own key change. */
    method Apply(backend: Backend, guestIp: string, op: Op, ghost keys: set<string>) returns (count: nat, clean: bool)
      requires table.Valid() && Key(name, op.f) in keys
      modifies table
      ensures table.Valid() && count <= 3
      ensures op.Add? ==> clean && table.View() == Installed(old(table.View()), RulesOf(name, guestIp, op.f), count)
      ensures op.Remove? ==> count == 3
      ensures clean && count == 3 ==> table.View() == Execute(name, guestIp, old(table.View()), op)
      ensures Kept(table.View(), old(table.View()), keys)
    {
      hide Kept;
      ghost var was := table.View();
      match op {
        case Add(f) =>
          count := table.RunInstall(name, guestIp, f);
          clean := true;
          KeptByInstall(name, guestIp, was, f, count, keys);
        case Remove(f) =>
          count := 3;
          clean := RunRemove(backend, f);
          KeptByRemove(table.View(), was, Key(name, f), keys);
      }
    }

    /** Runs the undo stack, last pushed first, past any failure. */
    method Unwind(backend: Backend, guestIp: string, undo: seq<Op>, ghost keys: set<string>) returns (clean: bool)
      requires table.Valid() && forall i | 0 <= i < |undo| :: Key(name, undo[i].f) in keys
      modifies table
      ensures table.Valid()
      ensures Kept(table.View(), old(table.View()), keys)
      ensures clean ==> table.View() == ExecuteAll(name, guestIp, old(table.View()), Reversed(undo))
    {
      KeptSelf(table.View(), keys);
      hide Execute, Installed, RulesOf, Kept, Key, Reversed, ExecuteAll;
      clean := true;
      var i := |undo|;
      assert undo[..i] == undo;
      while i > 0
        invariant 0 <= i <= |undo|
        invariant table.Valid()
        invariant Kept(table.View(), old(table.View()), keys)
        invariant clean ==> (ExecuteAll(name, guestIp, table.View(), Reversed(undo[..i]))
                             == ExecuteAll(name, guestIp, old(table.View()), Reversed(undo)))
      {
        i := i - 1;
        ghost var before := table.View();
        UnwindStep(name, guestIp, before, undo, i);
        var count, one := Apply(backend, guestIp, undo[i], keys);
        KeptStep(old(table.View()), before, table.View(), keys);
        clean := clean && one && count == 3;
      }
      NothingToUndo(name, guestIp, table.View(), undo);
    }

    /** Applies the plan until an addition fails, pushing each operation's inverse once it is done. */
    method ApplyPlan(backend: Backend, guestIp: string, ops: seq<Op>, ghost keys: set<string>)
      returns (done: nat, count: nat, undo: seq<Op>, clean: bool)
      requires table.Valid() && forall i | 0 <= i < |ops| :: Key(name, ops[i].f) in keys
      modifies table
      ensures table.Valid() && done <= |ops| && count <= 3
      ensures Kept(table.View(), old(table.View()), keys)
      ensures undo == Inverses(ops[..done])
      ensures done < |ops| <==> count < 3
      ensures done < |ops| ==> ops[done].Add?
      ensures clean ==> table.View() == Reached(name, guestIp, old(table.View()), ops, done, count)
    {
      assert ops[..0] == [];
      KeptSelf(table.View(), keys);
      hide Execute, Installed, RulesOf, Kept, Key, Inverses, Inverse;
      assert Inverses(ops[..0]) == [];
      done, undo, clean := 0, [], true;
      while done < |ops|
        invariant done <= |ops|
        invariant table.Valid()
        invariant Kept(table.View(), old(table.View()), keys)
        invariant undo == Inverses(ops[..done])
        invariant clean ==> table.View() == ExecuteAll(name, guestIp, old(table.View()), ops[..done])
      {
        assert ops[..done + 1] == ops[..done] + [ops[done]];
        ExecuteOne(name, guestIp, old(table.View()), ops[..done], ops[done]);
        ghost var before := table.View();
        var one;
        count, one := Apply(backend, guestIp, ops[done], keys);
        KeptStep(old(table.View()), before, table.View(), keys);
        clean := clean && one;
        if count < 3 {
          return;
        }
        undo := undo + [Inverse(ops[done])];
        InversesOne(ops, done);
        done := done + 1;
      }
      count := 3;
    }

    /** `_persist_forwards` over `_apply_port_meta`; the write itself may fail and then changes nothing. */
    method Persist(specs: seq<string>, ghost value: seq<Forward>) returns (ok: bool)
      requires ParseAll(specs, []) == Ok(value) && |specs| == |value| && Good(value)
      modifies this`portFile
      ensures ok ==> portFile == FileFor(value)
      ensures !ok ==> portFile == old(portFile)
    {
      ok := *;
      if !ok {
        return;
      }
      if specs == [] {
        portFile := None;
      } else {
        var parsed := ParseForwards(specs);
        portFile := Some(Unlines(RenderAll(parsed.value)));
      }
    }

    /** The setter. `running`, `guestIp` and `backend` are what the probes report. */
    method SetForwards(value: seq<Forward>, running: bool, guestIp: Option<string>, backend: Option<Backend>)
      returns (r: Outcome, clean: bool)
      requires Consistent()
      requires Distinct(value)
      modifies this`portFile, this`forwards, table
      ensures Consistent()
      ensures r.Refused? <==> !AllPlain(value)
      ensures r.Done? ==> forwards == value && LoadForwards(portFile) == value
      ensures !r.Done? ==> forwards == old(forwards) && portFile == old(portFile)
      ensures r.Refused? || r.NotReady? || !running ==> table.View() == old(table.View())
      ensures r.NotReady? ==> running && (guestIp.None? || backend.None?)
      ensures r.AddFailed? ==> && r.op < |Plan(old(forwards), value)|
                               && Plan(old(forwards), value)[r.op].Add? && r.count < 3
      // whatever fails, only rules of changed forwards are touched: none of an unchanged one, none of another instance
      ensures Kept(table.View(), old(table.View()), OpKeys(name, Plan(old(forwards), value)))
      ensures forall i | 0 <= i < 3 :: Foreign(table.View()[i], name) == Foreign(old(table.View())[i], name)
      ensures running && guestIp.Some? && clean
              && Reflects(name, guestIp.value, old(table.View()), Wanted(name, old(forwards))) ==>
                match r
                case Done =>
                  && Reflects(name, guestIp.value, table.View(), Wanted(name, value))
                  && Routes(name, guestIp.value, table.View(), value)
                case AddFailed(op, count) =>
                  && table.View() == Unwound(name, guestIp.value, old(table.View()), Plan(old(forwards), value), op, count)
                  && (Reflects(name, guestIp.value, table.View(), Wanted(name, old(forwards))) <==> count == 0)
                case _ => Reflects(name, guestIp.value, table.View(), Wanted(name, old(forwards)))
    {
      hide Plan, ExecuteAll, Unwound, Installed, LoadForwards, FileFor, ParseAll;
      clean := true;
      // Validate the whole value before anything is touched.
      var specs: seq<string> := [];
      for i := 0 to |value|
        invariant |specs| == i
        invariant forall j | 0 <= j < i :: RenderForwardSpec(value[j]).Ok? && specs[j] == RenderForwardSpec(value[j]).value
      {
        var spec := RenderForwardSpec(value[i]);
        if spec.Err? {
          return Refused(spec.error), true;
        }
        specs := specs + [spec.value];
      }
      var parsed := ParseForwards(specs);
      SpecsParse(value, specs);
      if parsed.Err? {
        return Refused(parsed.error), true;
      }

      if !running {
        var stored := Persist(specs, value);
        if !stored {
          return PersistFailed, true;
        }
        FileLoads(value);
        forwards := value;
        return Done, true;
      }

      ghost var was, before := table.View(), forwards;
      r, clean := ApplyAndPersist(specs, value, guestIp, backend);
      KeptForeign(table.View(), was, name, Plan(before, value));
      if guestIp.Some? && clean && Reflects(name, guestIp.value, was, Wanted(name, before)) {
        hide Reflects, Wanted, Good, Foreign, Routes;
        match r {
          case Done =>
            PlanRefines(name, guestIp.value, was, before, value);
            ReflectedRoutes(name, guestIp.value, table.View(), value);
          case AddFailed(op, count) => PlanUnwinds(name, guestIp.value, was, before, value, op, count);
          case PersistFailed => PlanUnwinds(name, guestIp.value, was, before, value, |Plan(before, value)|, 0);
          case _ =>
        }
      }
    }

    lemma KeysOfOps(ops: seq<Op>)
      ensures forall i | 0 <= i < |ops| :: Key(name, ops[i].f) in OpKeys(name, ops)
      ensures forall n, i | 0 <= i < n <= |ops| :: Key(name, Inverses(ops[..n])[i].f) in OpKeys(name, ops)
    {
      hide Key;
    }

    /** The running branch: apply the plan with an undo stack, then persist. */
    method ApplyAndPersist(specs: seq<string>, value: seq<Forward>, guestIp: Option<string>, backend: Option<Backend>)
      returns (r: Outcome, clean: bool)
      requires Consistent() && Good(value)
      requires ParseAll(specs, []) == Ok(value) && |specs| == |value|
      modifies this`portFile, this`forwards, table
      ensures Consistent()
      ensures !r.Refused?
      ensures Kept(table.View(), old(table.View()), OpKeys(name, Plan(old(forwards), value)))
      ensures r.Done? ==> forwards == value && LoadForwards(portFile) == value
      ensures !r.Done? ==> forwards == old(forwards) && portFile == old(portFile)
      ensures r.NotReady? ==> table.View() == old(table.View()) && (guestIp.None? || backend.None?)
      ensures r.AddFailed? ==> && r.op < |Plan(old(forwards), value)|
                               && Plan(old(forwards), value)[r.op].Add? && r.count < 3
      ensures guestIp.Some? && clean ==>
                var ops := Plan(old(forwards), value);
                var was := old(table.View());
                match r
                case Done => table.View() == ExecuteAll(name, guestIp.value, was, ops)
                case AddFailed(op, count) => table.View() == Unwound(name, guestIp.value, was, ops, op, count)
                case PersistFailed => table.View() == Unwound(name, guestIp.value, was, ops, |ops|, 0)
                case _ => true
    {
      var ops := Plan(forwards, value);
      var undo: seq<Op> := [];
      ghost var keys := OpKeys(name, ops);
      KeysOfOps(ops);
      clean := true;
      if ops != [] {
        if guestIp.None? || backend.None? {
          return NotReady, true;
        }
        var done, count;
        done, count, undo, clean := ApplyPlan(backend.value, guestIp.value, ops, keys);
        ReversedInverses(ops[..done]);
        if count < 3 {
          var one := Unwind(backend.value, guestIp.value, undo, keys);
          return AddFailed(done, count), clean && one;
        }
      }
      assert ops[..|ops|] == ops;
      hide Plan, ExecuteAll, Installed, RulesOf, UndoOf, Reversed;
      var stored := Persist(specs, value);
      if stored {
        FileLoads(value);
        forwards := value;
        return Done, clean;
      }
      if ops != [] {
        var one := Unwind(backend.value, guestIp.value, undo, keys);
        clean := clean && one;
      }
      return PersistFailed, clean;
    }
  }
}
