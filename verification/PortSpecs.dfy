/** The port list of `create` (`create.py`): `auto` entries get a free host port under the lock, and the whole
    resolved set is checked before `kento-port` is written. */
module PortSpecs {
  import opened Text
  import opened Network

  const AUTO := "auto"

  const SSH_PORT := 22

  datatype Failure = NoFreePort | Refused(error: Error)

  /** `allocate_port`: the host port it hands out when these ports are excluded; None when it finds none. */
  type Allocator = set<int> -> Option<int>

  /** What the allocator promises: a valid port outside the excluded ones. */
  ghost predicate Allocates(alloc: Allocator) {
    forall taken | alloc(taken).Some? :: alloc(taken).value !in taken && ValidPort(alloc(taken).value)
  }

  function AutoForward(port: int): Forward {
    Forward(HostBinding(TCP, None, port), GuestTarget(None, SSH_PORT))
  }

  /** The forward that each entry stands for. */
  function Resolve(specs: seq<string>, taken: set<int>, alloc: Allocator): Result<seq<Forward>, Failure>
    decreases |specs|
  {
    if specs == [] then Ok([])
    else if specs[0] == AUTO then
      match alloc(taken)
      case None => Err(NoFreePort)
      case Some(port) =>
        match Resolve(specs[1..], taken + {port}, alloc)
        case Err(e) => Err(e)
        case Ok(more) => Ok([AutoForward(port)] + more)
    else
      match ParseForwardSpec(specs[0])
      case Err(e) => Err(Refused(e))
      case Ok(f) =>
        match Resolve(specs[1..], taken, alloc)
        case Err(e) => Err(e)
        case Ok(more) => Ok([f] + more)
  }

  lemma SshPortText()
    ensures Integer(SSH_PORT) == "22"
  {
    assert Decimal(2) == "2" && Decimal(22) == Decimal(2) + "2";
  }

  lemma AutoText(port: int)
    ensures RenderForwardSpec(AutoForward(port)) == Ok(Integer(port) + ":22")
  {
    SshPortText();
    hide Integer;
    assert Integer(port) + ":" + "22" == Integer(port) + ":22";
  }

  lemma AutoParses(port: int)
    requires ValidPort(port)
    ensures Plain(AutoForward(port)) && ParseForwardSpec(Integer(port) + ":22") == Ok(AutoForward(port))
  {
    AutoText(port);
    hide ParseForwardSpec, Integer, RenderForwardSpec;
    ParseAfterRender(AutoForward(port));
  }

  /** A resolution whose first forwards are known. */
  function Onto(fs: seq<Forward>, r: Result<seq<Forward>, Failure>): Result<seq<Forward>, Failure> {
    match r
    case Err(e) => Err(e)
    case Ok(more) => Ok(fs + more)
  }

  lemma ResolveStep(specs: seq<string>, i: nat, fs: seq<Forward>, taken: set<int>, alloc: Allocator)
    requires i < |specs| && (if specs[i] == AUTO then alloc(taken).Some? else ParseForwardSpec(specs[i]).Ok?)
    ensures var f := if specs[i] == AUTO then AutoForward(alloc(taken).value) else ParseForwardSpec(specs[i]).value;
            var later := if specs[i] == AUTO then taken + {alloc(taken).value} else taken;
            Onto(fs, Resolve(specs[i..], taken, alloc)) == Onto(fs + [f], Resolve(specs[i + 1..], later, alloc))
  {
    hide ParseForwardSpec;
    assert specs[i..][1..] == specs[i + 1..] && specs[i..][0] == specs[i];
    var f := if specs[i] == AUTO then AutoForward(alloc(taken).value) else ParseForwardSpec(specs[i]).value;
    var later := if specs[i] == AUTO then taken + {alloc(taken).value} else taken;
    var rest := Resolve(specs[i + 1..], later, alloc);
    if rest.Ok? {
      assert fs + ([f] + rest.value) == fs + [f] + rest.value;
    }
  }

  /** The entries' forwards are plain, one for each; concrete entries mean what they parse to, automatic ones
      lead to the guest's port 22 on a port that was not excluded. */
  lemma {:induction false} ResolveFacts(specs: seq<string>, taken: set<int>, alloc: Allocator)
    requires Allocates(alloc) && Resolve(specs, taken, alloc).Ok?
    ensures var fs := Resolve(specs, taken, alloc).value;
            && |fs| == |specs| && AllPlain(fs)
            && (forall i | 0 <= i < |specs| && specs[i] != AUTO :: ParseForwardSpec(specs[i]) == Ok(fs[i]))
            && (forall i | 0 <= i < |specs| && specs[i] == AUTO ::
                  fs[i] == Forward(HostBinding(TCP, None, fs[i].binding.hostPort), GuestTarget(None, 22)) && fs[i].binding.hostPort !in taken)
    decreases |specs|
  {
    hide ParseForwardSpec, Plain, ValidPort;
    if specs == [] {
    } else {
      var later := if specs[0] == AUTO then taken + {alloc(taken).value} else taken;
      ResolveFacts(specs[1..], later, alloc);
      var fs := Resolve(specs, taken, alloc).value;
      if specs[0] == AUTO { AutoParses(alloc(taken).value); } else { ParseIsCanonical(specs[0]); }
      forall i | 0 < i < |specs| ensures fs[i] == fs[1..][i - 1] && specs[i] == specs[1..][i - 1] {}
      assert fs[1..] == Resolve(specs[1..], later, alloc).value;
    }
  }

  lemma HeadAllocated(specs: seq<string>, taken: set<int>, alloc: Allocator)
    requires specs != [] && Resolve(specs, taken, alloc).Ok?
    ensures specs[0] == AUTO ==> alloc(taken).Some?
  {
    hide ParseForwardSpec;
  }

  lemma ResolveRest(specs: seq<string>, taken: set<int>, alloc: Allocator)
    requires specs != [] && Resolve(specs, taken, alloc).Ok?
    ensures var later := if specs[0] == AUTO then taken + {alloc(taken).value} else taken;
            var rest := Resolve(specs[1..], later, alloc);
            && rest.Ok? && Resolve(specs, taken, alloc).value[1..] == rest.value
            && |Resolve(specs, taken, alloc).value| == |rest.value| + 1
            && (specs[0] == AUTO ==> Resolve(specs, taken, alloc).value[0] == AutoForward(alloc(taken).value))
  {
    hide ParseForwardSpec;
  }

  /** No two automatic entries get the same port. */
  lemma {:induction false} AutosDiffer(specs: seq<string>, taken: set<int>, alloc: Allocator, i: nat, j: nat)
    requires Allocates(alloc) && Resolve(specs, taken, alloc).Ok?
    requires i < j < |specs| && specs[i] == specs[j] == AUTO
    ensures |Resolve(specs, taken, alloc).value| == |specs|
    ensures Resolve(specs, taken, alloc).value[i].binding != Resolve(specs, taken, alloc).value[j].binding
    decreases |specs|
  {
    hide ParseForwardSpec, Plain, ValidPort, Resolve;
    HeadAllocated(specs, taken, alloc);
    var later := if specs[0] == AUTO then taken + {alloc(taken).value} else taken;
    ResolveRest(specs, taken, alloc);
    ResolveFacts(specs, taken, alloc);
    ResolveFacts(specs[1..], later, alloc);
    var fs := Resolve(specs, taken, alloc).value;
    assert fs[j] == fs[1..][j - 1] && specs[j] == specs[1..][j - 1];
    if i == 0 {
    } else {
      assert fs[i] == fs[1..][i - 1] && specs[i] == specs[1..][i - 1];
      AutosDiffer(specs[1..], later, alloc, i - 1, j - 1);
    }
  }

  // ----- when the resolved set is accepted -----

  function AutoCount(specs: seq<string>): nat {
    if specs == [] then 0 else (if specs[0] == AUTO then 1 else 0) + AutoCount(specs[1..])
  }

  /** The first `n` ports that the allocator hands out, each one excluded from then on; fewer when it runs out. */
  function Handed(alloc: Allocator, taken: set<int>, n: nat): seq<int>
    decreases n
  {
    if n == 0 then []
    else
      match alloc(taken)
      case None => []
      case Some(port) => [port] + Handed(alloc, taken + {port}, n - 1)
  }

  /** The forward of a concrete entry. */
  predicate Concrete(specs: seq<string>, i: nat, f: Forward) {
    i < |specs| && specs[i] != AUTO && ParseForwardSpec(specs[i]) == Ok(f)
  }

  predicate AllParse(specs: seq<string>) {
    forall i | 0 <= i < |specs| && specs[i] != AUTO :: ParseForwardSpec(specs[i]).Ok?
  }

  /** No two concrete entries use one binding. */
  ghost predicate ConcreteDistinct(specs: seq<string>) {
    forall i, j, f, g | 0 <= i < j && Concrete(specs, i, f) && Concrete(specs, j, g) :: f.binding != g.binding
  }

  /** A concrete TCP entry without an address has this host port. */
  ghost predicate Claimed(specs: seq<string>, port: int) {
    exists i, f :: 0 <= i && Concrete(specs, i, f) && f.binding == AutoForward(port).binding
  }

  /** The automatic entries' ports, in order. */
  function AutoPorts(specs: seq<string>, fs: seq<Forward>): seq<int>
    requires |fs| == |specs|
  {
    if specs == [] then []
    else (if specs[0] == AUTO then [fs[0].binding.hostPort] else []) + AutoPorts(specs[1..], fs[1..])
  }

  /** Resolution succeeds exactly when the concrete entries parse and the allocator has a port for each automatic
      one; the automatic ports are then those it hands out when told about the automatic ones before, whatever the
      concrete entries say. */
  lemma {:induction false} ResolvedPorts(specs: seq<string>, taken: set<int>, alloc: Allocator)
    ensures Resolve(specs, taken, alloc).Ok? <==> AllParse(specs) && |Handed(alloc, taken, AutoCount(specs))| == AutoCount(specs)
    ensures Resolve(specs, taken, alloc).Ok? ==>
              var fs := Resolve(specs, taken, alloc).value;
              |fs| == |specs| && AutoPorts(specs, fs) == Handed(alloc, taken, AutoCount(specs))
    decreases |specs|
  {
    hide ParseForwardSpec;
    if specs == [] {
    } else {
      var auto := specs[0] == AUTO;
      var later := if auto && alloc(taken).Some? then taken + {alloc(taken).value} else taken;
      ResolvedPorts(specs[1..], later, alloc);
      assert forall i | 0 < i < |specs| :: specs[i] == specs[1..][i - 1];
      assert AllParse(specs) <==> (specs[0] == AUTO || ParseForwardSpec(specs[0]).Ok?) && AllParse(specs[1..]);
      var r := Resolve(specs, taken, alloc);
      if r.Ok? {
        assert r.value[1..] == Resolve(specs[1..], later, alloc).value;
      }
    }
  }

  lemma {:induction false} AutoPortsAt(specs: seq<string>, fs: seq<Forward>, port: int)
    requires |fs| == |specs|
    ensures port in AutoPorts(specs, fs) <==> exists i :: 0 <= i < |specs| && specs[i] == AUTO && fs[i].binding.hostPort == port
    decreases |specs|
  {
    if specs == [] {
    } else {
      AutoPortsAt(specs[1..], fs[1..], port);
      assert forall i | 0 < i < |specs| :: specs[i] == specs[1..][i - 1] && fs[i] == fs[1..][i - 1];
      if i :| 0 <= i < |specs[1..]| && specs[1..][i] == AUTO && fs[1..][i].binding.hostPort == port {
        assert specs[i + 1] == AUTO && fs[i + 1].binding.hostPort == port;
      }
    }
  }

  lemma ApartWhenDistinct(specs: seq<string>, fs: seq<Forward>, alloc: Allocator)
    requires |fs| == |specs| && Distinct(fs)
    requires forall i | 0 <= i < |specs| && specs[i] != AUTO :: ParseForwardSpec(specs[i]) == Ok(fs[i])
    requires forall i | 0 <= i < |specs| && specs[i] == AUTO :: fs[i] == AutoForward(fs[i].binding.hostPort)
    ensures ConcreteDistinct(specs)
    ensures forall port | port in AutoPorts(specs, fs) :: !Claimed(specs, port)
  {
    hide ParseForwardSpec, AutoForward, AutoPorts;
    forall port | port in AutoPorts(specs, fs) ensures !Claimed(specs, port) {
      AutoPortsAt(specs, fs, port);
      var i :| 0 <= i < |specs| && specs[i] == AUTO && fs[i].binding.hostPort == port;
      forall j, f | 0 <= j && Concrete(specs, j, f) ensures f.binding != AutoForward(port).binding {
        assert i < j || j < i;
      }
    }
  }

  /** A resolved set uses no binding twice exactly when the concrete entries do not, and none of them has a port
      that the allocator hands out: the allocator is not told about those. */
  lemma DistinctExactly(specs: seq<string>, alloc: Allocator)
    requires Allocates(alloc) && Resolve(specs, {}, alloc).Ok?
    ensures Distinct(Resolve(specs, {}, alloc).value)
       <==> ConcreteDistinct(specs) && forall port | port in Handed(alloc, {}, AutoCount(specs)) :: !Claimed(specs, port)
  {
    hide Resolve, ParseForwardSpec, AllPlain, ValidPort, Handed, AutoPorts;
    ResolveFacts(specs, {}, alloc);
    assert forall i | 0 <= i < |specs| && specs[i] == AUTO ::
             Resolve(specs, {}, alloc).value[i] == AutoForward(Resolve(specs, {}, alloc).value[i].binding.hostPort);
    hide AutoForward;
    ResolvedPorts(specs, {}, alloc);
    var fs := Resolve(specs, {}, alloc).value;
    forall port ensures port in AutoPorts(specs, fs) <==> exists i :: 0 <= i < |specs| && specs[i] == AUTO && fs[i].binding.hostPort == port {
      AutoPortsAt(specs, fs, port);
    }
    if Distinct(fs) {
      ApartWhenDistinct(specs, fs, alloc);
    } else {
      var i, j :| 0 <= i < j < |fs| && fs[i].binding == fs[j].binding;
      if specs[i] == AUTO && specs[j] == AUTO {
        AutosDiffer(specs, {}, alloc, i, j);
      } else if specs[i] == AUTO {
        assert Concrete(specs, j, fs[j]) && Claimed(specs, fs[i].binding.hostPort);
      } else if specs[j] == AUTO {
        assert Concrete(specs, i, fs[i]) && Claimed(specs, fs[j].binding.hostPort);
      } else {
        assert Concrete(specs, i, fs[i]) && Concrete(specs, j, fs[j]);
      }
    }
  }

  lemma NamedParses(port: int, guest: int)
    requires ValidPort(port) && ValidPort(guest)
    ensures ParseForwardSpec(Integer(port) + ":" + Integer(guest)) == Ok(Forward(HostBinding(TCP, None, port), GuestTarget(None, guest)))
    ensures Integer(port) + ":" + Integer(guest) != AUTO
  {
    var f := Forward(HostBinding(TCP, None, port), GuestTarget(None, guest));
    var spec := Integer(port) + ":" + Integer(guest);
    assert Rendered(f) == spec;
    assert IsDigit(spec[0]) by { assert Integer(port)[0] == spec[0]; }
    hide ParseForwardSpec, Integer, Rendered, RenderForwardSpec;
    PlainParses(f);
  }

  lemma OneAuto(alloc: Allocator, taken: set<int>, port: int)
    requires alloc(taken) == Some(port)
    ensures Resolve([AUTO], taken, alloc) == Ok([AutoForward(port)])
  {
    hide ParseForwardSpec, AutoForward;
    var specs := [AUTO];
    assert specs[0] == AUTO && specs[1..] == [];
    assert Resolve(specs[1..], taken + {port}, alloc) == Ok([]);
    assert [AutoForward(port)] + [] == [AutoForward(port)];
  }

  lemma PairResolves(alloc: Allocator, port: int, spec: string, f: Forward)
    requires alloc({}) == Some(port) && spec != AUTO && ParseForwardSpec(spec) == Ok(f)
    ensures Resolve([spec, AUTO], {}, alloc) == Ok([f, AutoForward(port)])
  {
    hide ParseForwardSpec, AutoForward;
    var specs := [spec, AUTO];
    assert specs[0] == spec && specs[1..] == [AUTO];
    OneAuto(alloc, {}, port);
    assert [f] + [AutoForward(port)] == [f, AutoForward(port)];
  }

  lemma TwiceBound(f: Forward, g: Forward)
    requires f.binding == g.binding
    ensures !Distinct([f, g])
  {
    assert [f, g][0].binding == [f, g][1].binding;
  }

  /** Whatever port the allocator hands out first, a list that names it and then asks for an automatic one is
      resolved and refused. */
  lemma FirstPortNamed(alloc: Allocator, port: int, guest: int)
    requires Allocates(alloc) && alloc({}) == Some(port) && ValidPort(guest)
    ensures var specs := [Integer(port) + ":" + Integer(guest), AUTO];
            Resolve(specs, {}, alloc).Ok? && !Distinct(Resolve(specs, {}, alloc).value)
  {
    assert ValidPort(port);
    hide ParseForwardSpec, Integer, Resolve, Distinct, ValidPort;
    NamedParses(port, guest);
    var f := Forward(HostBinding(TCP, None, port), GuestTarget(None, guest));
    PairResolves(alloc, port, Integer(port) + ":" + Integer(guest), f);
    TwiceBound(f, AutoForward(port));
  }

  lemma Whole(specs: seq<string>, alloc: Allocator)
    ensures Onto([], Resolve(specs[0..], {}, alloc)) == Resolve(specs, {}, alloc)
  {
    assert specs[0..] == specs;
    var r := Resolve(specs, {}, alloc);
    assert r.Ok? ==> [] + r.value == r.value;
  }

  lemma {:induction false} ParsedSetIs(fs: seq<Forward>, done: seq<Forward>)
    requires AllPlain(fs) && ParseAll(RenderAll(fs), done).Ok?
    ensures ParseAll(RenderAll(fs), done) == Ok(done + fs)
    decreases |fs|
  {
    hide ParseForwardSpec, Bound, RenderForwardSpec;
    if fs == [] {
      assert done + fs == done;
    } else {
      assert Plain(fs[0]);
      PlainParses(fs[0]);
      assert RenderAll(fs)[1..] == RenderAll(fs[1..]);
      ParsedSetIs(fs[1..], done + [fs[0]]);
      assert done + [fs[0]] + fs[1..] == done + fs;
    }
  }

  /** `_write_port_specs`: what is written loads as the resolved set, one line for each entry; nothing is
      written when an entry does not parse or the set uses a binding twice. */
  method WritePortSpecs(specs: seq<string>, alloc: Allocator) returns (r: Result<seq<string>, Failure>, file: Option<string>)
    requires Allocates(alloc) && specs != []
    ensures r.Ok? <==> file.Some?
    ensures match Resolve(specs, {}, alloc)
            case Err(_) => r.Err?
            case Ok(fs) => (r.Ok? <==> Distinct(fs)) && (r.Ok? ==> LoadForwards(file) == fs && |r.value| == |specs|)
  {
    hide ParseForwardSpec, Plain, ValidPort, RenderForwardSpec, Integer, LoadForwards, Distinct;
    var resolved: seq<string> := [];
    var claimed: set<int> := {};
    ghost var fs: seq<Forward> := [];
    Whole(specs, alloc);
    for i := 0 to |specs|
      invariant |fs| == |resolved| == i && AllPlain(fs)
      invariant forall k | 0 <= k < i :: resolved[k] == Rendered(fs[k])
      invariant Onto(fs, Resolve(specs[i..], claimed, alloc)) == Resolve(specs, {}, alloc)
    {
      ghost var before := claimed;
      var text := specs[i];
      if specs[i] == AUTO {
        var found := alloc(claimed);
        if found.None? {
          assert specs[i..][0] == specs[i] && Resolve(specs[i..], claimed, alloc).Err?;
          return Err(NoFreePort), None;
        }
        var port := found.value;
        AutoParses(port);
        claimed := claimed + {port};
        text := Integer(port) + ":22";
      }
      var parsed := ParseForwardSpec(text);
      if parsed.Err? {
        assert specs[i..][0] == specs[i] && Resolve(specs[i..], claimed, alloc).Err?;
        return Err(Refused(parsed.error)), None;
      }
      ParseIsCanonical(text);
      ResolveStep(specs, i, fs, before, alloc);
      resolved := resolved + [Rendered(parsed.value)];
      fs := fs + [parsed.value];
    }
    assert specs[|specs|..] == [] && fs + [] == fs;
    assert resolved == RenderAll(fs);
    RenderedSetParses(fs);
    if ParseAll(resolved, []).Ok? {
      ParsedSetIs(fs, []);
      assert [] + fs == fs;
    }
    var checked := ParseForwards(resolved);
    if checked.Err? {
      return Err(Refused(checked.error)), None;
    }
    PersistedSetLoads(fs);
    return Ok(resolved), Some(Unlines(resolved));
  }
}
