/** Every run of `create` followed by `kento set` on plain LXC: `generate_config` (`create.py`),
    the pass-through block and `_apply_lxc` (`set_cmd.py`), and the agreement of the native config
    with the metadata files. */
module LxcRuns {
  import opened ConfText
  import opened Text
  import opened LxcConfig
  import opened Modes
  import opened PassBlock
  import opened NetMeta
  import opened NetDelta
  import Network

  /** The files of one plain-LXC instance that this module follows. */
  datatype State = State(config: Conf, files: Files, memory: Option<int>, cores: Option<int>, lxcArgs: Option<string>,
                         ports: Option<string>)

  const MIB := 1048576
  const CFS_PERIOD := 100000

  function MemoryValue(memory: int): string {
    Integer(memory * MIB)
  }

  function CpuValue(cores: int): string {
    Integer(cores * CFS_PERIOD) + " 100000"
  }

  // ----- what the limit values mean -----

  /** A `memory.max` text: that many mebibytes, in bytes. */
  predicate GivesMemory(value: string, memory: int) {
    ParseInt(value) == Some(memory * 1048576)
  }

  /** A `cpu.max` text: the quota, a blank, the period in microseconds. The quota lasts for `cores` processors over
      a whole period, and the period is a tenth of a second. */
  predicate GivesCores(value: string, cores: int) {
    var i := First(value, ' ');
    i < |value| && ParseInt(value[..i]) == Some(cores * 100000) && value[i + 1..] == "100000"
  }

  lemma LimitsMean(n: int)
    ensures GivesMemory(MemoryValue(n), n) && GivesCores(CpuValue(n), n)
  {
    ParseIntOfInteger(n * MIB);
    ParseIntOfInteger(n * CFS_PERIOD);
    Network.IntegerChars(n * CFS_PERIOD);
    var quota := Integer(n * CFS_PERIOD);
    hide Integer, ParseInt;
    assert CpuValue(n) == quota + [' '] + "100000";
    FirstAt(quota, ' ', "100000");
    assert CpuValue(n)[..|quota|] == quota && CpuValue(n)[|quota| + 1..] == "100000";
  }

  /** The cgroup lines of a config give these limits; an absent limit asks for nothing. */
  predicate GivesLimits(config: Conf, memory: Option<int>, cores: Option<int>) {
    var max, cpu := Lookup(config, "lxc.cgroup2.memory.max"), Lookup(config, "lxc.cgroup2.cpu.max");
    && (memory.Some? ==> max.Some? && GivesMemory(max.value, memory.value))
    && (cores.Some? ==> cpu.Some? && GivesCores(cpu.value, cores.value))
  }

  lemma OwnedGives(config: Conf, memory: Option<int>, cores: Option<int>)
    requires memory.Some? ==> Owned(config, MemoryMax) == Some(MemoryValue(memory.value))
    requires cores.Some? ==> Owned(config, CpuMax) == Some(CpuValue(cores.value))
    ensures GivesLimits(config, memory, cores)
  {
    if memory.Some? { LimitsMean(memory.value); }
    if cores.Some? { LimitsMean(cores.value); }
    hide GivesMemory, GivesCores, MemoryValue, CpuValue, Lookup;
  }

  // ----- kento set -----

  datatype SetArgs = SetArgs(memory: Option<int>, cores: Option<int>, lxcArgs: Option<seq<string>>, net: NetArgs,
                             hostname: Option<string>)

  predicate NetGiven(a: SetArgs) {
    a.net.network.Some? || a.net.ip.Some? || a.net.gateway.Some? || a.net.dns.Some? || a.net.port.Some? || a.hostname.Some?
  }

  /** The checks `set_cmd` makes on a stopped plain-LXC instance before it writes anything. */
  function Checked(s: State, a: SetArgs): Result<Option<Ident>, Error> {
    if a.memory.None? && a.cores.None? && a.lxcArgs.None? && !NetGiven(a) then Err(ValidationError)
    else if a.lxcArgs.Some? && !AllAllowed(a.lxcArgs.value) then Err(ValidationError)
    else if a.memory.Some? && a.memory.value <= 0 then Err(ValidationError)
    else if a.cores.Some? && a.cores.value <= 0 then Err(ValidationError)
    else if !NetGiven(a) then Ok(None)
    else
      match Delta(Lxc, Resolve(s.files, Fallback(s.config)), a.net)
      case Err(e) => Err(e)
      case Ok(ident) => Ok(Some(ident))
  }

  /** Which calls are accepted: something is given, each limit is positive, nothing of the denylist occurs in the
      pass-through list, and the network part is accepted against what is recorded. */
  lemma CheckedExactly(s: State, a: SetArgs)
    ensures Checked(s, a).Ok?
       <==> && a != SetArgs(None, None, None, NetArgs(None, None, None, None, None), None)
            && (a.memory.Some? ==> a.memory.value > 0) && (a.cores.Some? ==> a.cores.value > 0)
            && (a.lxcArgs.Some? ==> forall i, j | 0 <= i < |a.lxcArgs.value| && 0 <= j < |DENYLIST| :: !Occurs(DENYLIST[j], a.lxcArgs.value[i]))
            && (a.net != NetArgs(None, None, None, None, None) || a.hostname.Some? ==>
                  Delta(Lxc, Resolve(s.files, Fallback(s.config)), a.net).Ok?)
  {
    hide Delta, Resolve, Fallback, Occurs;
  }

  function WithMemory(config: Conf, memory: Option<int>): Conf {
    if memory.None? then config else Put(config, Name(MemoryMax), Some(MemoryValue(memory.value)))
  }

  function WithCores(config: Conf, cores: Option<int>): Conf {
    if cores.None? then config else Put(config, Name(CpuMax), Some(CpuValue(cores.value)))
  }

  function NewArgsFile(file: Option<string>, args: Option<seq<string>>): Option<string> {
    match Classify(args)
    case Skip => file
    case Clear => None
    case Replace => Some(ArgsText(args.value))
  }

  function WithArgs(config: Conf, file: Option<string>, args: Option<seq<string>>): Conf {
    match Classify(args)
    case Skip => config
    case Clear => DropBlock(config, PassLines(file), true)
    case Replace => AppendBlock(DropBlock(config, PassLines(file), true), PassLines(NewArgsFile(file, args)))
  }

  function WithNet(config: Conf, delta: Option<Ident>): Conf {
    if delta.None? then config else RewriteNet(config, delta.value.net)
  }

  /** `_apply_port_meta`: the given set is written anew, or the file goes. */
  function NewPortFile(file: Option<string>, port: Option<seq<string>>): Option<string> {
    match Classify(port)
    case Skip => file
    case Clear => None
    case Replace =>
      match Network.ParseAll(NonEmpty(port.value), [])
      case Err(_) => file
      case Ok(fs) => Network.ParseAllSound(NonEmpty(port.value), [], fs); Some(Unlines(Network.RenderAll(fs)))
  }

  /** `_apply_lxc`. */
  function ApplyLxc(s: State, a: SetArgs, delta: Option<Ident>): State {
    State(
      WithNet(WithArgs(WithCores(WithMemory(s.config, a.memory), a.cores), s.lxcArgs, a.lxcArgs), delta),
      if delta.None? then s.files else Persist(delta.value),
      if a.memory.Some? then a.memory else s.memory,
      if a.cores.Some? then a.cores else s.cores,
      NewArgsFile(s.lxcArgs, a.lxcArgs),
      if delta.None? then s.ports else NewPortFile(s.ports, a.net.port))
  }

  function SetLxc(s: State, a: SetArgs): Result<State, Error> {
    match Checked(s, a)
    case Err(e) => Err(e)
    case Ok(delta) => Ok(ApplyLxc(s, a, delta))
  }

  function MemoryLine(memory: Option<int>): Option<string> {
    if memory.None? then None else Some(MemoryValue(memory.value))
  }

  function CpuLine(cores: Option<int>): Option<string> {
    if cores.None? then None else Some(CpuValue(cores.value))
  }

  lemma LimitsAreStripped(n: int)
    ensures Strip(MemoryValue(n)) == MemoryValue(n) && Strip(CpuValue(n)) == CpuValue(n)
  {
    Network.IntegerChars(n * MIB);
    Network.IntegerChars(n * CFS_PERIOD);
    var m, c := MemoryValue(n), CpuValue(n);
    assert m[0] in m && m[|m| - 1] in m;
    assert Integer(n * CFS_PERIOD)[0] in Integer(n * CFS_PERIOD) && c[0] == Integer(n * CFS_PERIOD)[0];
    StripOfTrimmed(m);
    StripOfTrimmed(c);
  }

  lemma LimitsSet(config: Conf, memory: Option<int>, cores: Option<int>)
    requires Single(config)
    ensures var out := WithCores(WithMemory(config, memory), cores);
            && Single(out)
            && forall k: OwnedKey :: Owned(out, k)
                 == (if k == MemoryMax && memory.Some? then MemoryLine(memory)
                     else if k == CpuMax && cores.Some? then CpuLine(cores)
                     else Owned(config, k))
  {
    if memory.Some? { LimitsAreStripped(memory.value); }
    if cores.Some? { LimitsAreStripped(cores.value); }
    hide Single, Owned, Put, Name, MemoryValue, CpuValue, Strip;
    if memory.Some? {
      PutOwned(config, MemoryMax, Some(MemoryValue(memory.value)));
    }
    if cores.Some? {
      PutOwned(WithMemory(config, memory), CpuMax, Some(CpuValue(cores.value)));
    }
  }

  lemma ArgsKeepOwned(config: Conf, file: Option<string>, args: Option<seq<string>>)
    requires Single(config) && OwnsNothing(PassLines(file)) && (args.Some? ==> AllAllowed(args.value))
    ensures Single(WithArgs(config, file, args))
    ensures forall k: OwnedKey :: Owned(WithArgs(config, file, args), k) == Owned(config, k)
    ensures OwnsNothing(PassLines(NewArgsFile(file, args)))
  {
    var block := PassLines(NewArgsFile(file, args));
    if Classify(args) == Replace {
      AcceptedArgsOwnNothing(args.value);
    }
    assert PassLines(None) == [];
    hide PassLines, ArgsText, AllAllowed, NonEmpty, Owned, Count, Name, KeyOf, DropBlock, AppendBlock;
    var dropped := DropBlock(config, PassLines(file), true);
    forall k: OwnedKey
      ensures Count(WithArgs(config, file, args), Name(k)) == Count(config, Name(k))
      ensures Owned(WithArgs(config, file, args), k) == Owned(config, k)
    {
      DropKeepsOwned(config, PassLines(file), true, k);
      if Classify(args) == Replace {
        AppendKeepsOwned(dropped, block, k);
      }
    }
  }

  lemma RewriteKeepsLimits(config: Conf, net: Net, k: OwnedKey)
    requires Single(config) && (k == MemoryMax || k == CpuMax)
    ensures Owned(RewriteNet(config, net), k) == Owned(config, k)
  {
    hide Single, Owned, Name, Put, Spelled, Strip;
    ClearedFacts(config);
    var clear := Cleared(config);
    hide Cleared;
    var shared, veth := Put(clear, Name(NetType), Some(Spelled(Shared))), Put(clear, Name(NetType), Some(Spelled(Veth)));
    PutOwned(clear, NetType, Some(Spelled(Shared)));
    PutOwned(clear, NetType, Some(Spelled(Veth)));
    PutOwned(veth, NetLink, net.bridge);
    var linked := Put(veth, Name(NetLink), net.bridge);
    PutOwned(linked, NetFlags, Some(Spelled(Up)));
    var up := Put(linked, Name(NetFlags), Some(Spelled(Up)));
    PutOwned(up, NetAddress, net.ip);
    PutOwned(Put(up, Name(NetAddress), net.ip), NetGateway, net.gateway);
  }

  /** An accepted call makes the config give the limits it was given, whatever else it sets. */
  lemma LimitsInForce(s: State, a: SetArgs)
    requires Single(s.config) && OwnsNothing(PassLines(s.lxcArgs)) && SetLxc(s, a).Ok?
    ensures GivesLimits(SetLxc(s, a).value.config, a.memory, a.cores)
  {
    hide PassLines, OwnsNothing, Single, Owned, WithCores, WithMemory, WithArgs, RewriteNet, NewPortFile, Persist, NewArgsFile,
         Fallback, Resolve, Delta, GivesLimits, AllAllowed, NetGiven;
    LimitsSet(s.config, a.memory, a.cores);
    var limited := WithCores(WithMemory(s.config, a.memory), a.cores);
    ArgsKeepOwned(limited, s.lxcArgs, a.lxcArgs);
    var config := WithArgs(limited, s.lxcArgs, a.lxcArgs);
    var delta := Checked(s, a).value;
    if delta.Some? {
      RewriteKeepsLimits(config, delta.value.net, MemoryMax);
      RewriteKeepsLimits(config, delta.value.net, CpuMax);
    }
    OwnedGives(SetLxc(s, a).value.config, a.memory, a.cores);
  }

  /** The instance directory, edited file by file as `set_cmd` does. */
  class Instance {
    var state: State

    constructor (state: State)
      ensures this.state == state
    {
      this.state := state;
    }

    method SetCmd(a: SetArgs) returns (r: Result<(), Error>)
      modifies this
      ensures r.Ok? <==> SetLxc(old(state), a).Ok?
      ensures r.Err? ==> r.error == SetLxc(old(state), a).error && state == old(state)
      ensures r.Ok? ==> state == SetLxc(old(state), a).value
      // the config then gives the limits that the call was given
      ensures r.Ok? && Single(old(state.config)) && OwnsNothing(PassLines(old(state.lxcArgs))) ==> GivesLimits(state.config, a.memory, a.cores)
    {
      if Single(state.config) && OwnsNothing(PassLines(state.lxcArgs)) && SetLxc(state, a).Ok? {
        LimitsInForce(state, a);
      }
      hide GivesLimits, Single, OwnsNothing, NewPortFile, Put, DropBlock, AppendBlock, RewriteNet, PassLines, Delta, Resolve,
           Persist, AllAllowed, Classify, Fallback;
      var checked := Checked(state, a);
      if checked.Err? {
        return Err(checked.error);
      }
      var content := state.config;
      if a.memory.Some? {
        state := state.(memory := a.memory);
        content := ReplaceConfigRaw(content, Name(MemoryMax), Some(MemoryValue(a.memory.value)));
      }
      if a.cores.Some? {
        state := state.(cores := a.cores);
        content := ReplaceConfigRaw(content, Name(CpuMax), Some(CpuValue(a.cores.value)));
      }
      var action := Classify(a.lxcArgs);
      if action != Skip {
        var oldBlock := PassLines(state.lxcArgs);
        content := DropPassthroughBlock(content, oldBlock);
        state := state.(lxcArgs := NewArgsFile(state.lxcArgs, a.lxcArgs));
        if action == Replace {
          content := AppendBlock(content, PassLines(state.lxcArgs));
        }
      }
      if checked.value.Some? {
        var ident := checked.value.value;
        content := RewriteNet(content, ident.net);
        state := state.(ports := NewPortFile(state.ports, a.net.port));
        state := state.(files := Persist(ident));
      }
      state := state.(config := content);
      return Ok(());
    }
  }

  // ----- a pass-through list given and cleared again -----

  /** `kento set` with `--lxc-arg` only; an empty item clears the list. */
  function OnlyArgs(args: seq<string>): SetArgs {
    SetArgs(None, None, Some(args), NetArgs(None, None, None, None, None), None)
  }

  lemma EmptyIsAllowed()
    ensures !Denied("")
  {
  }

  lemma ClearIs(s: State)
    ensures SetLxc(s, OnlyArgs([""])) == Ok(s.(config := DropBlock(s.config, PassLines(s.lxcArgs), true), lxcArgs := None))
  {
    hide Occurs, DropBlock, PassLines;
    assert AllAllowed([""]) by { EmptyIsAllowed(); }
    assert NonEmpty([""]) == [] by { assert [""][1..] == []; }
  }

  /** A list given to `kento set` and cleared by the next call leaves the config as it was without a list, up to
      blank lines at its end, if and only if the block can be told from the lines above it. */
  lemma ReplaceThenClear(s: State, args: seq<string>)
    requires AllAllowed(args) && NonEmpty(args) != []
    ensures SetLxc(s, OnlyArgs(args)).Ok? && SetLxc(SetLxc(s, OnlyArgs(args)).value, OnlyArgs([""])).Ok?
    ensures var before, block := DropBlock(s.config, PassLines(s.lxcArgs), true), PassLines(Some(ArgsText(args)));
            (SetLxc(SetLxc(s, OnlyArgs(args)).value, OnlyArgs([""])).value.config == Above(before)
             <==> block != [] && Separable(Above(before), block))
  {
    hide DropBlock, PassLines, AppendBlock, Separable, Denied, ArgsText, Above, NonEmpty;
    var before, block := DropBlock(s.config, PassLines(s.lxcArgs), true), PassLines(Some(ArgsText(args)));
    assert SetLxc(s, OnlyArgs(args)).value.config == AppendBlock(before, block);
    ClearIs(SetLxc(s, OnlyArgs(args)).value);
    DropUndoesAppend(before, block);
  }

  /** A given list is in the metadata file and at the end of the config, its lines in order. */
  lemma GivenListIsWritten(s: State, args: seq<string>)
    requires AllAllowed(args) && NonEmpty(args) != []
    ensures var given := LinesOfItems(args);
            var t := SetLxc(s, OnlyArgs(args));
            && t.Ok? && PassLines(t.value.lxcArgs) == given
            && t.value.config == Above(DropBlock(s.config, PassLines(s.lxcArgs), true)) + if given == [] then [""] else given
  {
    hide DropBlock, PassLines, DropBlankEnd, Denied, ArgsText, NonEmpty, LinesOfItems;
    ArgsReadBack(args);
  }

  // ----- agreement -----

  /** The identity the metadata records. */
  function Recorded(s: State): Ident {
    Resolve(s.files, Fallback(s.config))
  }

  /** A recorded identity that plain LXC can carry: a known type, a bridge exactly for bridged types,
      and no gateway without an address. */
  ghost predicate Carried(ident: Ident) {
    && CleanIdent(ident)
    && (ident.net.kind == BridgeNet || ident.net.kind == HostNet || ident.net.kind == NoNet)
    && (ident.net.kind == BridgeNet <==> ident.net.bridge.Some?)
    && (ident.net.gateway.Some? ==> ident.net.ip.Some?)
  }

  /** Config and metadata tell the same story: no owned key twice, the config parses to the recorded
      type and bridge (and address and gateway when bridged), and the cgroup lines are the recorded
      limits. */
  ghost predicate Agrees(s: State) {
    && Single(s.config)
    && OwnsNothing(PassLines(s.lxcArgs))
    && ReadLine(s.files.netType).Some?
    && Carried(Recorded(s))
    && Fallback(s.config).kind == Recorded(s).net.kind
    && Fallback(s.config).bridge == Recorded(s).net.bridge
    && (Recorded(s).net.kind == BridgeNet ==> Fallback(s.config) == Recorded(s).net)
    && Owned(s.config, MemoryMax) == MemoryLine(s.memory)
    && Owned(s.config, CpuMax) == CpuLine(s.cores)
  }

  /** A value without line breaks or blanks at its ends; it may be empty. */
  predicate CleanOrEmpty(v: Option<string>) {
    v.Some? ==> v.value == "" || Clean(v.value)
  }

  /** Arguments without line breaks or blanks at their ends. */
  predicate CleanArgs(a: NetArgs) {
    && CleanOrEmpty(a.ip) && CleanOrEmpty(a.gateway) && CleanOrEmpty(a.dns)
    && (a.network.Some? && BRIDGE_EQ <= a.network.value ==> CleanOrEmpty(Some(a.network.value[|BRIDGE_EQ|..])))
  }

  predicate NoBridgeLeft(current: Ident, a: NetArgs) {
    ParseNetworkArg(a.network) == Ok((Some(BridgeNet), None)) && current.net.bridge.None?
  }

  predicate GatewayLeft(current: Ident, a: NetArgs) {
    a.ip == Some("") && if a.gateway.Some? then a.gateway.value != "" else current.net.gateway.Some?
  }

  /** `--network bridge` on an instance that has no bridge recorded. */
  predicate BareBridge(s: State, a: SetArgs) {
    NoBridgeLeft(Recorded(s), a.net)
  }

  /** `--ip ''` while a gateway is given, or recorded and not cleared. */
  predicate BareGateway(s: State, a: SetArgs) {
    GatewayLeft(Recorded(s), a.net)
  }

  lemma NotClean()
    ensures !Clean("")
  {
  }

  lemma NetworkArgShape(network: Option<string>)
    requires ParseNetworkArg(network).Ok?
    requires network.Some? && BRIDGE_EQ <= network.value ==> CleanOrEmpty(Some(network.value[|BRIDGE_EQ|..]))
    ensures var (kind, bridge) := ParseNetworkArg(network).value;
            (bridge.Some? ==> Clean(bridge.value) && kind == Some(BridgeNet)) && (kind.Some? ==> !kind.value.OtherNet?)
  {
    hide KindOf, Clean;
  }

  lemma MergedClean(current: Ident, a: NetArgs, kind: Option<Kind>, bridge: Option<string>)
    requires Carried(current) && CleanOrEmpty(a.ip) && CleanOrEmpty(a.gateway) && CleanOrEmpty(a.dns)
    requires (bridge.Some? ==> Clean(bridge.value) && kind == Some(BridgeNet)) && (kind.Some? ==> !kind.value.OtherNet?)
    ensures var ident := Effective(Merge(current, kind, bridge, a));
            CleanIdent(ident) && (ident.net.kind != BridgeNet ==> ident.net.bridge.None?)
  {
    hide Clean;
    assert !Clean("") by { NotClean(); }
    var merged := Merge(current, kind, bridge, a);
    assert CleanOrEmpty(merged.net.ip) && CleanOrEmpty(merged.net.gateway) && CleanOrEmpty(merged.dns);
    assert CleanOrEmpty(merged.net.bridge) && merged.search == current.search && OneLineOpt(NoEmpty(merged.search));
    assert !merged.net.kind.OtherNet? && (merged.net.kind != BridgeNet ==> merged.net.bridge.None?);
    hide Merge;
  }

  lemma NothingEmpty(ident: Ident)
    requires CleanIdent(ident)
    ensures EffectiveNet(ident.net) == ident.net
  {
    assert !Clean("") by { NotClean(); }
    hide Clean;
  }

  lemma MergedCarried(current: Ident, a: NetArgs, kind: Option<Kind>, bridge: Option<string>)
    requires Carried(current) && EffectiveNet(current.net) == current.net && CleanIdent(Effective(Merge(current, kind, bridge, a)))
    requires bridge.Some? ==> bridge.value != "" && kind == Some(BridgeNet)
    requires Validate(Lxc, Merge(current, kind, bridge, a).net, a.ip.Some?, a.gateway.Some?, Classify(a.port)).None?
    ensures Carried(Effective(Merge(current, kind, bridge, a)))
       <==> !(kind == Some(BridgeNet) && bridge.None? && current.net.bridge.None?) && !GatewayLeft(current, a)
  {
    assert |DHCP| == 4;
    hide CleanIdent, Classify;
  }

  /** The merged identity stays one that plain LXC can carry, unless it is left with a bridged type and no
      bridge, or with a gateway and no address. */
  lemma DeltaCarried(current: Ident, a: NetArgs)
    requires Carried(current) && CleanArgs(a) && Delta(Lxc, current, a).Ok?
    ensures var ident := Effective(Delta(Lxc, current, a).value);
            && CleanIdent(ident)
            && (ident.net.kind != BridgeNet ==> ident.net.bridge.None?)
            && (Carried(ident) <==> !NoBridgeLeft(current, a) && !GatewayLeft(current, a))
  {
    var (kind, bridge) := ParseNetworkArg(a.network).value;
    NetworkArgShape(a.network);
    assert !Clean("") by { NotClean(); }
    assert CleanIdent(current);
    hide KindOf, Clean, Classify, Network.ParseAll, CleanFront, OneLineOpt, Carried, GatewayLeft, Merge, Validate;
    NothingEmpty(current);
    MergedClean(current, a, kind, bridge);
    MergedCarried(current, a, kind, bridge);
  }

  /** What the config says about the network, from its owned lines alone. */
  lemma FallbackFromOwned(a: Conf, b: Conf)
    requires forall k: OwnedKey | k != MemoryMax && k != CpuMax :: Owned(a, k) == Owned(b, k)
    ensures Fallback(a) == Fallback(b)
  {
    hide Owned;
  }

  lemma FallbackOfRewrite(config: Conf, net: Net)
    requires forall k: OwnedKey | k != MemoryMax && k != CpuMax :: Owned(config, k) == Expected(net, k)
    requires net.kind == BridgeNet || net.kind == HostNet || net.kind == NoNet
    requires CleanOpt(net.bridge)
    ensures net.kind == BridgeNet && net.bridge.Some? ==>
              Fallback(config) == net.(gateway := if net.ip.Some? then net.gateway else None)
    ensures net.kind == HostNet ==> Fallback(config) == Net(HostNet, None, None, None)
    ensures net.kind == NoNet || (net.kind == BridgeNet && net.bridge.None?) ==> Fallback(config) == Net(NoNet, None, None, None)
  {
    WordsAreStripped(Veth, Shared);
    hide Owned, Spelled, Strip;
  }

  /** The parts of an accepted call that do not touch the network keep the agreement. */
  lemma LimitsAndArgsStep(s: State, a: SetArgs)
    requires Agrees(s) && Checked(s, a).Ok?
    ensures var config := WithArgs(WithCores(WithMemory(s.config, a.memory), a.cores), s.lxcArgs, a.lxcArgs);
            && Single(config)
            && OwnsNothing(PassLines(NewArgsFile(s.lxcArgs, a.lxcArgs)))
            && Fallback(config) == Fallback(s.config)
            && Owned(config, MemoryMax) == MemoryLine(if a.memory.Some? then a.memory else s.memory)
            && Owned(config, CpuMax) == CpuLine(if a.cores.Some? then a.cores else s.cores)
  {
    LimitsSet(s.config, a.memory, a.cores);
    var limited := WithCores(WithMemory(s.config, a.memory), a.cores);
    hide Owned, Single, OwnsNothing, PassLines, WithCores, WithMemory, WithArgs, Fallback, Delta, Carried, Recorded;
    ArgsKeepOwned(limited, s.lxcArgs, a.lxcArgs);
    FallbackFromOwned(WithArgs(limited, s.lxcArgs, a.lxcArgs), s.config);
  }

  /** A call without network arguments keeps the agreement. */
  lemma PlainStep(s: State, a: SetArgs)
    requires Agrees(s) && Checked(s, a) == Ok(None)
    ensures Agrees(ApplyLxc(s, a, None))
  {
    LimitsAndArgsStep(s, a);
    hide Owned, Single, OwnsNothing, PassLines, WithCores, WithMemory, WithArgs, Fallback, Carried, Resolve, Checked;
  }

  lemma PersistedType(ident: Ident)
    ensures Persist(ident).netType == Some(WriteLine(KindText(ident.net.kind)))
  {
  }

  /** A written identity keeps the agreement exactly when it can be carried. */
  lemma NetStep(s: State, a: SetArgs, ident: Ident)
    requires Agrees(s) && Checked(s, a).Ok?
    requires CleanIdent(ident) && (ident.net.kind != BridgeNet ==> ident.net.bridge.None?)
    ensures Agrees(ApplyLxc(s, a, Some(ident))) <==> Carried(ident)
  {
    LimitsAndArgsStep(s, a);
    var config := WithArgs(WithCores(WithMemory(s.config, a.memory), a.cores), s.lxcArgs, a.lxcArgs);
    var out := ApplyLxc(s, a, Some(ident));
    RewriteNetFacts(config, ident.net);
    if ident.net.kind == BridgeNet || ident.net.kind == HostNet || ident.net.kind == NoNet {
      FallbackOfRewrite(RewriteNet(config, ident.net), ident.net);
    }
    PersistedResolves(ident, Fallback(out.config));
    KindReadsBack(ident.net.kind);
    ReadWritten(KindText(ident.net.kind));
    hide Owned, Single, OwnsNothing, PassLines, WithCores, WithMemory, WithArgs, Fallback, Checked, RewriteNet,
         Resolve, Persist, KindText, ReadLine, WriteLine, Clean, MemoryLine, CpuLine, Expected, NewPortFile;
    PersistedType(ident);
    assert Recorded(out).net == if ident.net.kind == BridgeNet then ident.net else ident.net.(bridge := None);
  }

  /** Empty values are written as absent ones. */
  lemma ApplyIgnoresEmpty(s: State, a: SetArgs, ident: Ident)
    ensures ApplyLxc(s, a, Some(Effective(ident))) == ApplyLxc(s, a, Some(ident))
  {
    hide WithArgs, WithCores, WithMemory, RewriteNet, Persist, NewArgsFile, NewPortFile;
    PersistIgnoresEmpty(ident);
    RewriteIgnoresEmpty(WithArgs(WithCores(WithMemory(s.config, a.memory), a.cores), s.lxcArgs, a.lxcArgs), ident.net);
  }

  lemma CarriedNow(s: State)
    requires Agrees(s)
    ensures Carried(Recorded(s))
  {
  }

  /** Every accepted call keeps config and metadata in agreement, except in two cases that break it:
      `--network bridge` on an instance without a recorded bridge, and an empty address beside a gateway. */
  lemma SetStep(s: State, a: SetArgs)
    requires Agrees(s) && CleanArgs(a.net) && SetLxc(s, a).Ok?
    ensures Agrees(SetLxc(s, a).value) <==> !BareBridge(s, a) && !BareGateway(s, a)
  {
    if NetGiven(a) {
      var ident := Checked(s, a).value.value;
      DeltaCarried(Recorded(s), a.net);
      hide Carried, Delta, Agrees, ApplyLxc, CleanIdent, CleanArgs, Effective;
      CarriedNow(s);
      ApplyIgnoresEmpty(s, a, ident);
      NetStep(s, a, Effective(ident));
    } else {
      PlainStep(s, a);
      hide Agrees, ApplyLxc;
    }
  }

  lemma EmptyAddressAccepted(s: State, a: SetArgs)
    requires a == SetArgs(None, None, None, NetArgs(None, Some(""), None, None, None), None)
    requires Recorded(s).net.kind == BridgeNet
    ensures SetLxc(s, a).Ok? && CleanArgs(a.net) && ParseNetworkArg(a.net.network) == Ok((None, None))
  {
    hide ApplyLxc, Resolve, Fallback, KindOf, Clean;
  }

  /** The failing input: on a bridged instance with a recorded gateway, `kento set --ip ''` is accepted, is no
      bare bridge, and leaves a gateway in the metadata that the config does not have. */
  lemma EmptyAddressDisagrees(s: State)
    requires Agrees(s) && Recorded(s).net.kind == BridgeNet && Recorded(s).net.gateway.Some?
    ensures var a := SetArgs(None, None, None, NetArgs(None, Some(""), None, None, None), None);
            SetLxc(s, a).Ok? && !BareBridge(s, a) && !Agrees(SetLxc(s, a).value)
  {
    var a := SetArgs(None, None, None, NetArgs(None, Some(""), None, None, None), None);
    EmptyAddressAccepted(s, a);
    hide Agrees, SetLxc, Recorded, CleanArgs;
    SetStep(s, a);
  }

  /** A gateway with a line break, which nothing refuses. */
  function BrokenGateway(first: string, other: string): string {
    first + "\n" + Line(Name(NetLink), other)
  }

  function OnlyGateway(gateway: string): SetArgs {
    SetArgs(None, None, None, NetArgs(None, None, Some(gateway), None, None), None)
  }

  lemma GatewayAccepted(s: State, gateway: string)
    requires Recorded(s).net.kind == BridgeNet && Recorded(s).net.ip.Some? && gateway != ""
    ensures var ident := Recorded(s).(net := Recorded(s).net.(gateway := Some(gateway)));
            SetLxc(s, OnlyGateway(gateway)) == Ok(ApplyLxc(s, OnlyGateway(gateway), Some(ident)))
  {
    hide ApplyLxc, Resolve, Fallback, KindOf;
  }

  lemma BrokenGatewayLine(first: string, other: string)
    ensures Line(Name(NetGateway), BrokenGateway(first, other)) == (Name(NetGateway) + " =" + " " + first) + "\n" + Line(Name(NetLink), other)
    ensures BrokenGateway(first, other) != ""
  {
    var second := Line(Name(NetLink), other);
    assert Name(NetGateway) + " =" + (" " + (first + "\n" + second)) == (Name(NetGateway) + " =" + " " + first) + "\n" + second;
  }

  lemma BridgeRecorded(s: State, gateway: string, ident: Ident)
    requires ident.net.kind == BridgeNet && ident.net.bridge.Some? && Clean(ident.net.bridge.value)
    ensures Recorded(ApplyLxc(s, OnlyGateway(gateway), Some(ident))).net.bridge == ident.net.bridge
  {
    KindReadsBack(BridgeNet);
    ReadWritten(KindText(BridgeNet));
    ReadWritten(ident.net.bridge.value);
    hide KindText, KindOf, ReadLine, WriteLine, NetFile, ParseKentoNet, RewriteNet, WithArgs, WithCores, WithMemory, Fallback, NewPortFile, NewArgsFile;
  }

  lemma GatewayWritten(s: State, gateway: string, ident: Ident)
    requires Single(s.config) && ident.net.kind == BridgeNet && ident.net.bridge.Some? && ident.net.ip.Some?
    requires ident.net.gateway == Some(gateway) && gateway != "" && CleanOpt(ident.net.bridge) && CleanOpt(ident.net.ip)
    ensures ApplyLxc(s, OnlyGateway(gateway), Some(ident)).config
         == Addressed(VethBlock(Cleared(s.config), ident.net.bridge.value), ident.net.ip, None) + [Line(Name(NetGateway), gateway)]
  {
    hide RewriteNet, Addressed, VethBlock, Cleared, Line, Name, Single, Persist, NewPortFile, Put;
    GatewayComesLast(s.config, ident.net);
  }

  lemma BridgeCarried(s: State)
    requires Agrees(s) && Recorded(s).net.kind == BridgeNet
    ensures Single(s.config) && CleanOpt(Recorded(s).net.bridge) && CleanOpt(Recorded(s).net.ip) && Recorded(s).net.bridge.Some?
  {
    hide Single, Recorded, Clean, Fallback, Owned, PassLines;
  }

  lemma LinkIsOneLine()
    ensures '\n' !in Name(NetLink)
  {
  }

  /** What a line break does: on a bridged instance with an address the call is accepted, and in the written file
      the line after the break names the bridge, whatever the metadata records. */
  lemma LineBreakDisagrees(s: State, first: string, other: string)
    requires Agrees(s) && Recorded(s).net.kind == BridgeNet && Recorded(s).net.ip.Some? && '\n' !in other
    ensures var r := SetLxc(s, OnlyGateway(BrokenGateway(first, other)));
            && r.Ok? && Owned(Lines(Unlines(r.value.config)), NetLink) == Some(Strip(other))
            && Recorded(r.value).net.bridge == Recorded(s).net.bridge
  {
    var gateway := BrokenGateway(first, other);
    var net := Recorded(s).net.(gateway := Some(gateway));
    var ident := Recorded(s).(net := net);
    LinkIsOneLine();
    hide Lookup, Put, Agrees, BrokenGateway, Recorded, Single, Clean, Name, ApplyLxc, SetLxc, Addressed, VethBlock, Cleared, Line, Unlines, Lines, Strip, RawKey, OnlyGateway;
    BridgeCarried(s);
    BrokenGatewayLine(first, other);
    NameShape(NetLink);
    GatewayAccepted(s, gateway);
    GatewayWritten(s, gateway, ident);
    var front := Addressed(VethBlock(Cleared(s.config), net.bridge.value), net.ip, None);
    BrokenLineRead(front, Name(NetGateway) + " =" + " " + first, Name(NetLink), other);
    BridgeRecorded(s, gateway, ident);
  }

  /** After an accepted call with a port list, the port file loads as the list given; without one it is as before. */
  lemma PortsRecorded(s: State, a: SetArgs)
    requires SetLxc(s, a).Ok?
    ensures var t := SetLxc(s, a).value;
            match Classify(a.net.port)
            case Skip => t.ports == s.ports
            case Clear => Network.LoadForwards(t.ports) == []
            case Replace => Network.ParseAll(NonEmpty(a.net.port.value), []) == Ok(Network.LoadForwards(t.ports))
  {
    hide WithArgs, WithCores, WithMemory, WithNet, Persist, NewArgsFile, Resolve, Fallback, AllAllowed;
    if Classify(a.net.port) == Replace {
      var specs := NonEmpty(a.net.port.value);
      Network.ParseAllSound(specs, [], Network.ParseAll(specs, []).value);
      Network.PersistedSetLoads(Network.ParseAll(specs, []).value);
    }
    hide Network.ParseAll, Network.RenderAll;
  }

  // ----- create -----

  /** The keys of the structural lines that `generate_config` writes around the owned ones. */
  datatype StructKey =
    | UtsName | RootfsPath | HookVersion | PreStart | PostStop | StartHost | MountAuto | TtyMax
    | Include | MountEntry | AppArmorProfile | AllowIncomplete | AppArmorRaw | Idmap | Environment

  function StructName(k: StructKey): string {
    match k
    case UtsName => "lxc.uts.name"
    case RootfsPath => "lxc.rootfs.path"
    case HookVersion => "lxc.hook.version"
    case PreStart => "lxc.hook.pre-start"
    case PostStop => "lxc.hook.post-stop"
    case StartHost => "lxc.hook.start-host"
    case MountAuto => "lxc.mount.auto"
    case TtyMax => "lxc.tty.max"
    case Include => "lxc.include"
    case MountEntry => "lxc.mount.entry"
    case AppArmorProfile => "lxc.apparmor.profile"
    case AllowIncomplete => "lxc.apparmor.allow_incomplete"
    case AppArmorRaw => "lxc.apparmor.raw"
    case Idmap => "lxc.idmap"
    case Environment => "lxc.environment"
  }

  datatype Item = Blank | Plain(key: StructKey, value: string)

  function ItemLine(item: Item): string {
    match item
    case Blank => ""
    case Plain(k, v) => Line(StructName(k), v)
  }

  function ItemLines(items: seq<Item>): (r: Conf)
    ensures |r| == |items|
    ensures forall i | 0 <= i < |items| :: r[i] == ItemLine(items[i])
  {
    seq(|items|, i requires 0 <= i < |items| => ItemLine(items[i]))
  }

  /** What `create` is asked for, after the network was resolved; `port` is the `kento-port` file it has written. */
  datatype CreateArgs = CreateArgs(name: string, dir: string, net: Net, dns: Option<string>, search: Option<string>,
                                   nesting: bool, env: seq<string>, port: Option<string>, memory: Option<int>, cores: Option<int>,
                                   unprivileged: bool, profile: string, lxcArgs: seq<string>)

  const COMMON := "/usr/share/lxc/config/common"
  const COMMON_CONF := COMMON + ".conf"
  const MOUNT_AUTO := "proc:mixed sys:mixed cgroup:mixed"
  const MOUNT_AUTO_NESTING := "proc:rw sys:rw cgroup:rw"
  const LXC_TTY := "2"
  const APPARMOR_RULES := ["userns,", "mount,", "umount,", "pivot_root,", "mqueue,"]

  function RuleItems(rules: seq<string>, key: StructKey): seq<Item> {
    seq(|rules|, i requires 0 <= i < |rules| => Plain(key, rules[i]))
  }

  function HeadItems(p: CreateArgs): seq<Item> {
    var hook := p.dir + "/kento-hook";
    [Plain(UtsName, p.name), Plain(RootfsPath, "dir:" + p.dir + "/rootfs"), Blank,
     Plain(HookVersion, "1"), Plain(PreStart, hook), Plain(PostStop, hook)]
    + if p.port.Some? then [Plain(StartHost, hook)] else []
  }

  function BodyItems(p: CreateArgs): seq<Item> {
    [Blank, Plain(MountAuto, if p.nesting then MOUNT_AUTO_NESTING else MOUNT_AUTO), Plain(TtyMax, LXC_TTY),
     Plain(Include, COMMON_CONF)]
    + (if p.nesting then
         [Plain(Include, "/usr/share/lxc/config/nesting.conf"),
          Plain(MountEntry, "/dev/fuse dev/fuse none bind,create=file,optional 0 0"),
          Plain(MountEntry, "/dev/net/tun dev/net/tun none bind,create=file,optional 0 0")]
       else [])
    + [Plain(AppArmorProfile, p.profile), Plain(AllowIncomplete, "1")]
    + (if p.profile == "generated" && !p.nesting then RuleItems(APPARMOR_RULES, AppArmorRaw) else [])
    + (if p.unprivileged then [Plain(Idmap, "u 0 100000 65536"), Plain(Idmap, "g 0 100000 65536")] else [])
    + RuleItems(p.env, Environment)
  }

  function BridgeLines(bridge: string): Conf {
    [""] + [Line(Name(NetType), Spelled(Veth))] + [Line(Name(NetLink), bridge)] + [Line(Name(NetFlags), Spelled(Up))]
  }

  /** The network lines: a bridge is written for type bridge, and also for any type but host when a
      bridge name came along. */
  function NetLines(net: Net): Conf {
    if net.kind != HostNet && Truthy(net.bridge) then
      BridgeLines(net.bridge.value)
      + (if Truthy(net.ip) then
           [Line(Name(NetAddress), net.ip.value)]
           + if Truthy(net.gateway) then [Line(Name(NetGateway), net.gateway.value)] else []
         else [])
    else if net.kind == HostNet then ["", Line(Name(NetType), Spelled(Shared))]
    else []
  }

  function LimitLines(memory: Option<int>, cores: Option<int>): Conf {
    (if memory.None? then [] else [Line(Name(MemoryMax), MemoryValue(memory.value))])
    + (if cores.None? then [] else [Line(Name(CpuMax), CpuValue(cores.value))])
  }

  function CreatedArgs(args: seq<string>): Option<string> {
    if args == [] then None else Some(Join(args, '\n') + "\n")
  }

  /** `generate_config`. */
  function GenerateConfig(p: CreateArgs): Conf {
    ItemLines(HeadItems(p)) + NetLines(p.net) + ItemLines(BodyItems(p)) + LimitLines(p.memory, p.cores)
    + PassLines(CreatedArgs(p.lxcArgs))
  }

  /** The files `create` writes for plain LXC. */
  function Created(p: CreateArgs): State {
    var net := KentoNet(p.net.ip, p.net.gateway, p.dns, p.search);
    State(
      GenerateConfig(p),
      Files(Some(WriteLine(KindText(p.net.kind))),
            if p.net.bridge.Some? then Some(WriteLine(p.net.bridge.value)) else None,
            if Truthy(net.ip) || Truthy(net.dns) || Truthy(net.search) then NetFile(net) else None),
      p.memory, p.cores, CreatedArgs(p.lxcArgs), p.port)
  }

  /** What `create` has checked by then: the gateway needs an address, an address needs a bridge network,
      pass-through lines pass the denylist; and the values are single lines without blanks at their ends. */
  predicate CreateChecked(p: CreateArgs) {
    && (p.net.kind == BridgeNet || p.net.kind == HostNet || p.net.kind == NoNet)
    && CleanOrEmpty(p.net.bridge) && CleanOrEmpty(p.net.ip) && CleanOrEmpty(p.net.gateway) && CleanOrEmpty(p.dns)
    && (p.search.Some? ==> '\n' !in p.search.value)
    && (Truthy(p.net.gateway) ==> Truthy(p.net.ip))
    && (Truthy(p.net.ip) ==> p.net.kind == BridgeNet)
    && AllAllowed(p.lxcArgs)
  }

  /** The same request with every empty value left out. */
  function WithoutEmpty(p: CreateArgs): CreateArgs {
    p.(net := EffectiveNet(p.net), dns := NoEmpty(p.dns), search := NoEmpty(p.search))
  }

  /** A request that gives no empty value. */
  predicate Tidy(p: CreateArgs) {
    CreateChecked(p) && WithoutEmpty(p) == p
  }

  predicate EarlyKey(k: StructKey) {
    k == UtsName || k == RootfsPath || k == HookVersion || k == PreStart || k == PostStop || k == StartHost || k == MountAuto
  }

  lemma EarlyKeyShape(k: StructKey)
    requires EarlyKey(k)
    ensures RawKey(StructName(k)) && StructName(k)[4] != 'n' && StructName(k)[4] != 'c'
  {
  }

  lemma LateKeyShape(k: StructKey)
    requires !EarlyKey(k)
    ensures RawKey(StructName(k)) && StructName(k)[4] != 'n' && StructName(k)[4] != 'c'
  {
  }

  lemma StructKeyShape(k: StructKey)
    ensures RawKey(StructName(k)) && StructName(k)[4] != 'n' && StructName(k)[4] != 'c'
  {
    hide StructName, RawKey;
    if EarlyKey(k) {
      EarlyKeyShape(k);
    } else {
      LateKeyShape(k);
    }
  }

  lemma NameFourth(k: OwnedKey)
    ensures |Name(k)| > 4 && (Name(k)[4] == 'n' || Name(k)[4] == 'c')
  {
  }

  lemma ItemsOwnNothing(items: seq<Item>)
    ensures OwnsNothing(ItemLines(items))
  {
    assert KeyOf("").None?;
    forall i, k: OwnedKey | 0 <= i < |items| ensures KeyOf(ItemLines(items)[i]) != Some(Name(k)) {
      NameFourth(k);
      if items[i].Plain? {
        StructKeyShape(items[i].key);
        WrittenLine(StructName(items[i].key), items[i].value);
      }
      hide KeyOf, Name, StructName, RawKey, Line;
    }
  }

  /** One more written line. */
  lemma OwnedLine(lines: Conf, k: OwnedKey, v: string, other: OwnedKey)
    requires Strip(v) == v
    ensures Owned(lines + [Line(Name(k), v)], other) == if other == k then Some(v) else Owned(lines, other)
    ensures Count(lines + [Line(Name(k), v)], Name(other)) == Count(lines, Name(other)) + if other == k then 1 else 0
  {
    NameShape(k);
    NamesDiffer(k, other);
    WrittenLine(Name(k), v);
    hide Name, KeyOf, RawValue, Line, Strip, RawKey;
    CountConcat(lines, [Line(Name(k), v)], Name(other));
    OneLine(Line(Name(k), v), Name(other));
  }

  /** The identity the generated network lines describe: a bridge name alone makes it bridged. */
  function Described(net: Net): Net {
    if net.kind == HostNet then net else net.(kind := if net.bridge.Some? then BridgeNet else NoNet)
  }

  lemma EmptyOwned(k: OwnedKey)
    ensures Owned([""], k).None? && Count([""], Name(k)) == 0
    ensures Owned([], k).None? && Count([], Name(k)) == 0
  {
    BlankOwnsNothing();
    NothingOwned([""], k);
  }

  lemma BridgeLinesOwned(bridge: string, k: OwnedKey)
    requires Clean(bridge)
    ensures var lines := BridgeLines(bridge);
            && Count(lines, Name(k)) == (if k == NetType || k == NetLink || k == NetFlags then 1 else 0)
            && Owned(lines, k) == match k
                                  case NetType => Some(Spelled(Veth))
                                  case NetLink => Some(bridge)
                                  case NetFlags => Some(Spelled(Up))
                                  case _ => None
  {
    EmptyOwned(k);
    WordsAreStripped(Veth, Veth);
    WordsAreStripped(Up, Up);
    StripOfTrimmed(bridge);
    hide Name, Spelled, Line, Count, Owned, Strip, Clean;
    var a := [""] + [Line(Name(NetType), Spelled(Veth))];
    var b := a + [Line(Name(NetLink), bridge)];
    OwnedLine([""], NetType, Spelled(Veth), k);
    OwnedLine(a, NetLink, bridge, k);
    OwnedLine(b, NetFlags, Spelled(Up), k);
  }

  lemma HostLinesOwned(k: OwnedKey)
    ensures var lines := ["", Line(Name(NetType), Spelled(Shared))];
            && Count(lines, Name(k)) == (if k == NetType then 1 else 0)
            && Owned(lines, k) == if k == NetType then Some(Spelled(Shared)) else None
  {
    EmptyOwned(k);
    WordsAreStripped(Shared, Shared);
    hide Name, Spelled, Line, Count, Owned, Strip;
    OwnedLine([""], NetType, Spelled(Shared), k);
    assert [""] + [Line(Name(NetType), Spelled(Shared))] == ["", Line(Name(NetType), Spelled(Shared))];
  }

  lemma AddressedOwned(base: Conf, ip: Option<string>, gateway: Option<string>, k: OwnedKey)
    requires CleanOpt(ip) && CleanOpt(gateway)
    requires Count(base, Name(NetAddress)) == 0 && Count(base, Name(NetGateway)) == 0 && Count(base, Name(k)) <= 1
    ensures var lines := if ip.None? then base
                         else if gateway.None? then base + [Line(Name(NetAddress), ip.value)]
                         else base + [Line(Name(NetAddress), ip.value)] + [Line(Name(NetGateway), gateway.value)];
            && Count(lines, Name(k)) <= 1
            && Owned(lines, k) == match k
                                  case NetAddress => if ip.Some? then ip else Owned(base, k)
                                  case NetGateway => if ip.Some? && gateway.Some? then gateway else Owned(base, k)
                                  case _ => Owned(base, k)
  {
    if ip.Some? { StripOfTrimmed(ip.value); }
    if gateway.Some? { StripOfTrimmed(gateway.value); }
    hide Name, Line, Count, Owned, Strip, Trimmed;
    if ip.Some? {
      OwnedLine(base, NetAddress, ip.value, k);
      if gateway.Some? {
        OwnedLine(base + [Line(Name(NetAddress), ip.value)], NetGateway, gateway.value, k);
      }
    }
  }

  lemma AddressLines(net: Net, base: Conf)
    requires net.kind != HostNet && net.bridge.Some? && CleanOpt(net.bridge) && CleanOpt(net.ip) && CleanOpt(net.gateway)
    requires base == BridgeLines(net.bridge.value)
    ensures NetLines(net) == if net.ip.None? then base
                             else if net.gateway.None? then base + [Line(Name(NetAddress), net.ip.value)]
                             else base + [Line(Name(NetAddress), net.ip.value)] + [Line(Name(NetGateway), net.gateway.value)]
  {
    hide Name, Spelled, Line, BridgeLines;
    assert base + [] == base;
    if net.ip.Some? {
      var one := [Line(Name(NetAddress), net.ip.value)];
      assert one + [] == one;
      if net.gateway.Some? {
        var two := [Line(Name(NetGateway), net.gateway.value)];
        assert base + (one + two) == base + one + two;
      }
    }
  }

  lemma BridgedLinesOwned(net: Net, k: OwnedKey)
    requires net.kind != HostNet && net.bridge.Some?
    requires CleanOpt(net.bridge) && CleanOpt(net.ip) && CleanOpt(net.gateway)
    ensures Count(NetLines(net), Name(k)) <= 1
    ensures Owned(NetLines(net), k)
         == match k
            case NetType => Some(Spelled(Veth))
            case NetLink => net.bridge
            case NetFlags => Some(Spelled(Up))
            case NetAddress => net.ip
            case NetGateway => if net.ip.Some? then net.gateway else None
            case _ => None
  {
    hide Name, Spelled, Line, Count, Owned, Strip, Clean, NetLines, BridgeLines;
    var base := BridgeLines(net.bridge.value);
    AddressLines(net, base);
    BridgeLinesOwned(net.bridge.value, k);
    BridgeLinesOwned(net.bridge.value, NetAddress);
    BridgeLinesOwned(net.bridge.value, NetGateway);
    AddressedOwned(base, net.ip, net.gateway, k);
  }

  lemma NetLinesOwned(net: Net, k: OwnedKey)
    requires CleanOpt(net.bridge) && CleanOpt(net.ip) && CleanOpt(net.gateway)
    ensures Count(NetLines(net), Name(k)) <= 1
    ensures Owned(NetLines(net), k) == if k == MemoryMax || k == CpuMax then None else Expected(Described(net), k)
  {
    hide Name, Spelled, Line, Count, Owned, Strip, Clean, BridgeLines;
    EmptyOwned(k);
    if net.kind == HostNet {
      HostLinesOwned(k);
    } else if net.bridge.Some? {
      BridgedLinesOwned(net, k);
    }
  }

  lemma LimitLinesOwned(memory: Option<int>, cores: Option<int>, k: OwnedKey)
    ensures Count(LimitLines(memory, cores), Name(k)) <= 1
    ensures Owned(LimitLines(memory, cores), k)
         == if k == MemoryMax then MemoryLine(memory) else if k == CpuMax then CpuLine(cores) else None
  {
    EmptyOwned(k);
    var first := if memory.None? then [] else [Line(Name(MemoryMax), MemoryValue(memory.value))];
    if memory.Some? { LimitsAreStripped(memory.value); }
    if cores.Some? { LimitsAreStripped(cores.value); }
    hide Name, Line, Count, Owned, Strip, MemoryValue, CpuValue;
    if memory.Some? {
      OwnedLine([], MemoryMax, MemoryValue(memory.value), k);
      assert [] + first == first;
    }
    if cores.Some? {
      OwnedLine(first, CpuMax, CpuValue(cores.value), k);
    } else {
      assert first + [] == first;
    }
  }

  lemma CreatedArgsOwnNothing(args: seq<string>)
    requires AllAllowed(args)
    ensures OwnsNothing(PassLines(CreatedArgs(args)))
  {
    if args != [] {
      ItemsOwnNoKey(args);
    }
  }

  lemma GeneratedOwned(p: CreateArgs, k: OwnedKey)
    requires Tidy(p)
    ensures Count(GenerateConfig(p), Name(k)) <= 1
    ensures Owned(GenerateConfig(p), k)
         == if k == MemoryMax then MemoryLine(p.memory)
            else if k == CpuMax then CpuLine(p.cores)
            else Expected(Described(p.net), k)
  {
    var a, b, c := ItemLines(HeadItems(p)), NetLines(p.net), ItemLines(BodyItems(p));
    var d, e := LimitLines(p.memory, p.cores), PassLines(CreatedArgs(p.lxcArgs));
    ItemsOwnNothing(HeadItems(p));
    ItemsOwnNothing(BodyItems(p));
    CreatedArgsOwnNothing(p.lxcArgs);
    NothingOwned(a, k);
    NothingOwned(c, k);
    NothingOwned(e, k);
    NetLinesOwned(p.net, k);
    LimitLinesOwned(p.memory, p.cores, k);
    hide Name, Count, Lookup, ItemLines, HeadItems, BodyItems, NetLines, LimitLines, PassLines, OwnsNothing, Clean,
         CreatedArgs, AllAllowed, MemoryLine, CpuLine;
    LookupNone(a, Name(k));
    CountConcat(a, b, Name(k));
    CountConcat(a + b, c, Name(k));
    CountConcat(a + b + c, d, Name(k));
    CountConcat(a + b + c + d, e, Name(k));
    LookupNone(b, Name(k));
    LookupNone(d, Name(k));
  }

  lemma TidyIsClean(p: CreateArgs)
    requires Tidy(p)
    ensures CleanOpt(p.net.bridge) && CleanFront(KentoNet(p.net.ip, p.net.gateway, p.dns, p.search)) && OneLineOpt(p.search)
  {
    hide Clean, AllAllowed;
  }

  lemma NothingToWrite(net: KentoNet)
    requires !Truthy(net.ip) && !Truthy(net.gateway) && !Truthy(net.dns) && !Truthy(net.search)
    ensures NetFile(net).None?
  {
    assert FrontPairs(net) + PairOf(Search, net.search) == [];
  }

  /** The `kento-net` file of a create reads back as the request. */
  lemma CreatedNet(p: CreateArgs)
    requires Tidy(p)
    ensures var got := ParseKentoNet(Created(p).files.net);
            got.ip == p.net.ip && got.gateway == p.net.gateway && got.dns == p.dns && OneLineOpt(got.search)
    ensures CleanFront(KentoNet(p.net.ip, p.net.gateway, p.dns, p.search))
  {
    hide NetFile, ParseKentoNet, Clean, GenerateConfig, ReadLine, WriteLine;
    var net := KentoNet(p.net.ip, p.net.gateway, p.dns, p.search);
    TidyIsClean(p);
    KentoNetReadsBack(net);
    if !(Truthy(net.ip) || Truthy(net.dns) || Truthy(net.search)) {
      NothingToWrite(net);
    }
  }

  lemma CreatedRecords(p: CreateArgs)
    requires Tidy(p)
    ensures var s := Created(p);
            && ReadLine(s.files.netType).Some?
            && Recorded(s).net == p.net && CleanIdent(Recorded(s))
  {
    assert ReadLine(None).None?;
    hide KindOf, KindText, ReadLine, WriteLine, NetFile, ParseKentoNet, Clean, GenerateConfig, Fallback;
    CreatedNet(p);
    TidyIsClean(p);
    KindReadsBack(p.net.kind);
    ReadWritten(KindText(p.net.kind));
    if p.net.bridge.Some? {
      ReadWritten(p.net.bridge.value);
    }
  }

  lemma TidyAgrees(p: CreateArgs)
    requires Tidy(p)
    ensures Agrees(Created(p)) <==> (p.net.kind == BridgeNet <==> p.net.bridge.Some?)
  {
    var s := Created(p);
    CreatedRecords(p);
    CreatedArgsOwnNothing(p.lxcArgs);
    forall k: OwnedKey
      ensures Count(s.config, Name(k)) <= 1
      ensures Owned(s.config, k) == if k == MemoryMax then MemoryLine(p.memory) else if k == CpuMax then CpuLine(p.cores)
                                    else Expected(Described(p.net), k)
    {
      GeneratedOwned(p, k);
    }
    assert CleanOpt(p.net.bridge);
    FallbackOfRewrite(s.config, Described(p.net));
    hide Owned, Count, Name, PassLines, OwnsNothing, Fallback, Recorded, CleanIdent, Clean, GenerateConfig, Expected, MemoryLine,
         CpuLine, AllAllowed, CreatedArgs;
  }

  lemma BlankFile()
    ensures ReadLine(Some(WriteLine(""))).None?
  {
    assert WriteLine("") == "\n" && LStrip("\n") == "";
  }

  lemma ConfigIgnoresEmpty(p: CreateArgs)
    ensures GenerateConfig(WithoutEmpty(p)) == GenerateConfig(p)
  {
    hide ItemLines, LimitLines, PassLines, CreatedArgs, BridgeLines;
    assert NetLines(WithoutEmpty(p).net) == NetLines(p.net);
    hide NetLines;
    assert HeadItems(WithoutEmpty(p)) == HeadItems(p);
    assert BodyItems(WithoutEmpty(p)) == BodyItems(p);
  }

  lemma NetIgnoresEmpty(p: CreateArgs)
    ensures Created(p).files.net == Created(WithoutEmpty(p)).files.net
  {
    hide GenerateConfig, CreatedArgs, Unlines, Row, WriteLine, KindText;
  }

  lemma CreatedIgnoresEmpty(p: CreateArgs)
    requires CreateChecked(p)
    ensures var s, t := Created(p), Created(WithoutEmpty(p));
            && s.config == t.config && s.memory == t.memory && s.cores == t.cores && s.lxcArgs == t.lxcArgs
            && s.files.netType == t.files.netType && s.files.net == t.files.net
            && ReadLine(s.files.bridge) == ReadLine(t.files.bridge)
  {
    ConfigIgnoresEmpty(p);
    BlankFile();
    NetIgnoresEmpty(p);
    assert ReadLine(None).None?;
    hide GenerateConfig, CreatedArgs, CreateChecked, NetFile, ReadLine, WriteLine, KindText;
  }

  lemma WithoutEmptyIsTidy(p: CreateArgs)
    requires CreateChecked(p)
    ensures Tidy(WithoutEmpty(p))
  {
    hide Clean, AllAllowed;
  }

  lemma SameAgreement(s: State, t: State)
    requires s.config == t.config && s.memory == t.memory && s.cores == t.cores && s.lxcArgs == t.lxcArgs
    requires s.files.netType == t.files.netType && s.files.net == t.files.net
    requires ReadLine(s.files.bridge) == ReadLine(t.files.bridge)
    ensures Agrees(s) <==> Agrees(t)
  {
    hide Single, OwnsNothing, PassLines, ReadLine, Carried, Fallback, Owned, ParseKentoNet;
  }

  /** What `create` writes agrees exactly when a bridge name came with type bridge and with no other type. */
  lemma CreateAgrees(p: CreateArgs)
    requires CreateChecked(p)
    ensures Agrees(Created(p)) <==> (p.net.kind == BridgeNet <==> Truthy(p.net.bridge))
  {
    WithoutEmptyIsTidy(p);
    hide Agrees, Created, CreateChecked, Tidy;
    CreatedIgnoresEmpty(p);
    TidyAgrees(WithoutEmpty(p));
    SameAgreement(Created(p), Created(WithoutEmpty(p)));
  }

  // ----- runs -----

  /** A rejected call changes nothing. */
  function Next(s: State, a: SetArgs): State {
    match SetLxc(s, a)
    case Ok(t) => t
    case Err(_) => s
  }

  function RunAll(s: State, calls: seq<SetArgs>): State
    decreases |calls|
  {
    if calls == [] then s else RunAll(Next(s, calls[0]), calls[1..])
  }

  /** Every call of the run has clean arguments and no accepted one is a bare bridge or a bare gateway. */
  predicate Guarded(s: State, calls: seq<SetArgs>)
    decreases |calls|
  {
    calls == [] ||
    (CleanArgs(calls[0].net) && (SetLxc(s, calls[0]).Ok? ==> !BareBridge(s, calls[0]) && !BareGateway(s, calls[0]))
     && Guarded(Next(s, calls[0]), calls[1..]))
  }

  lemma {:induction false} RunAgrees(s: State, calls: seq<SetArgs>)
    requires Agrees(s) && Guarded(s, calls)
    ensures Agrees(RunAll(s, calls))
    decreases |calls|
  {
    if calls == [] {
    } else {
      if SetLxc(s, calls[0]).Ok? {
        SetStep(s, calls[0]);
      }
      hide Agrees, SetLxc, BareBridge, BareGateway, CleanArgs;
      RunAgrees(Next(s, calls[0]), calls[1..]);
    }
  }

  /** The config in its own words: the cgroup lines give the recorded limits and there are none for what is not
      recorded, and the network lines are those of the recorded identity. */
  ghost predicate Spoken(s: State) {
    var net, of := Recorded(s).net, (key: string) => Lookup(s.config, key);
    && GivesLimits(s.config, s.memory, s.cores)
    && (s.memory.None? ==> of("lxc.cgroup2.memory.max").None?)
    && (s.cores.None? ==> of("lxc.cgroup2.cpu.max").None?)
    && (net.kind == BridgeNet ==> && of("lxc.net.0.type") == Some("veth") && net.bridge.Some? && of("lxc.net.0.link") == net.bridge
                                  && of("lxc.net.0.ipv4.address") == net.ip && of("lxc.net.0.ipv4.gateway") == net.gateway)
    && (net.kind == HostNet ==> of("lxc.net.0.type") == Some("none"))
    && (net.kind == NoNet ==> of("lxc.net.0.type") != Some("none") && (of("lxc.net.0.type") == Some("veth") ==> !Truthy(of("lxc.net.0.link"))))
  }

  lemma AgreedIsSpoken(s: State)
    requires Agrees(s)
    ensures Spoken(s)
  {
    hide Single, OwnsNothing, PassLines, ReadLine, Lookup, Recorded, GivesLimits, CleanIdent, MemoryValue, CpuValue;
    OwnedGives(s.config, s.memory, s.cores);
  }

  /** After `create` and any run of `kento set`, config and metadata still agree. */
  lemma EveryRunAgrees(p: CreateArgs, calls: seq<SetArgs>)
    requires CreateChecked(p) && (p.net.kind == BridgeNet <==> Truthy(p.net.bridge))
    requires Guarded(Created(p), calls)
    ensures Agrees(RunAll(Created(p), calls)) && Spoken(RunAll(Created(p), calls))
  {
    CreateAgrees(p);
    hide Agrees, Created, CreateChecked, Spoken;
    RunAgrees(Created(p), calls);
    AgreedIsSpoken(RunAll(Created(p), calls));
  }

  /** `kento set` with a memory limit only. */
  function OnlyMemory(memory: int): SetArgs {
    SetArgs(Some(memory), None, None, NetArgs(None, None, None, None, None), None)
  }

  lemma MemoryAccepted(s: State, memory: int)
    requires memory > 0
    ensures var call := OnlyMemory(memory);
            && SetLxc(s, call).Ok? && SetLxc(s, call).value.memory == Some(memory)
            && CleanArgs(call.net) && !BareBridge(s, call) && !BareGateway(s, call)
  {
    hide WithMemory, Resolve, Fallback;
  }

  /** Setting a positive memory limit on what `create` wrote is accepted and is a run as above. */
  lemma MemoryRun(p: CreateArgs, memory: int)
    requires CreateChecked(p) && (p.net.kind == BridgeNet <==> Truthy(p.net.bridge)) && memory > 0
    ensures var run := [OnlyMemory(memory)];
            && Guarded(Created(p), run)
            && Agrees(RunAll(Created(p), run)) && RunAll(Created(p), run).memory == Some(memory)
  {
    hide Agrees, Spoken, Created, CreateChecked, SetLxc, BareBridge, BareGateway, CleanArgs, OnlyMemory;
    MemoryAccepted(Created(p), memory);
    var run := [OnlyMemory(memory)];
    assert run[1..] == [];
    EveryRunAgrees(p, run);
  }

  // ----- a created pass-through list cleared again -----

  /** `generate_config` without a pass-through list. */
  function OwnLines(p: CreateArgs): Conf {
    ItemLines(HeadItems(p)) + NetLines(p.net) + ItemLines(BodyItems(p)) + LimitLines(p.memory, p.cores)
  }

  lemma OwnLinesFirst(p: CreateArgs)
    ensures GenerateConfig(p) == OwnLines(p) + PassLines(CreatedArgs(p.lxcArgs))
  {
    hide ItemLines, NetLines, LimitLines, PassLines;
  }

  /** A created list is in the metadata file and at the end of the config, its lines in order. */
  lemma CreatedListIsWritten(p: CreateArgs)
    ensures PassLines(Created(p).lxcArgs) == LinesOfItems(p.lxcArgs)
    ensures Created(p).config == OwnLines(p) + LinesOfItems(p.lxcArgs)
  {
    OwnLinesFirst(p);
    hide GenerateConfig, OwnLines;
    if p.lxcArgs != [] {
      hide PassLines, LinesOfItems;
      WrittenItems(p.lxcArgs);
    }
  }

  /** Clearing the list that `create` was given leaves kento's own lines if and only if they can be told from it. */
  lemma CreateThenClear(p: CreateArgs)
    ensures SetLxc(Created(p), OnlyArgs([""])).Ok?
    ensures SetLxc(Created(p), OnlyArgs([""])).value.config == OwnLines(p) <==> Separable(OwnLines(p), PassLines(CreatedArgs(p.lxcArgs)))
  {
    hide DropBlock, PassLines, Separable, OwnLines;
    ClearIs(Created(p));
    assert GenerateConfig(p) == OwnLines(p) + PassLines(CreatedArgs(p.lxcArgs)) by { OwnLinesFirst(p); }
    DropGivesBack(OwnLines(p), PassLines(CreatedArgs(p.lxcArgs)));
  }

  lemma LineIsNoHeader(key: string, value: string)
    requires key != "" && key[0] == 'l'
    ensures !IsHeader(Line(key, value))
  {
    var line := Line(key, value);
    assert line[0] == 'l' && LStrip(line) == line;
    RStripPrefix(line);
    hide RStrip;
  }

  lemma StructNameStarts(k: StructKey)
    ensures StructName(k) != "" && StructName(k)[0] == 'l'
  {
  }

  lemma ItemsAreNoHeaders(items: seq<Item>)
    ensures forall l | l in ItemLines(items) :: !IsHeader(l)
  {
    assert !IsHeader("");
    hide IsHeader, StructName, Line;
    forall l | l in ItemLines(items) ensures !IsHeader(l) {
      var i :| 0 <= i < |items| && ItemLines(items)[i] == l;
      if items[i].Plain? {
        StructNameStarts(items[i].key);
        LineIsNoHeader(StructName(items[i].key), items[i].value);
      }
    }
  }

  lemma OwnedIsNoHeader(k: OwnedKey, value: string)
    ensures !IsHeader(Line(Name(k), value))
  {
    assert Name(k) != "" && Name(k)[0] == 'l';
    hide Name, IsHeader, Line;
    LineIsNoHeader(Name(k), value);
  }

  lemma BridgeIsNoHeader(bridge: string)
    ensures forall l | l in BridgeLines(bridge) :: !IsHeader(l)
  {
    assert !IsHeader("");
    OwnedIsNoHeader(NetType, Spelled(Veth));
    OwnedIsNoHeader(NetLink, bridge);
    OwnedIsNoHeader(NetFlags, Spelled(Up));
    hide IsHeader, Line, Name, Spelled;
  }

  lemma NetAndLimitsAreNoHeaders(net: Net, memory: Option<int>, cores: Option<int>)
    ensures forall l | l in NetLines(net) + LimitLines(memory, cores) :: !IsHeader(l)
  {
    assert !IsHeader("");
    forall k: OwnedKey, value: string ensures !IsHeader(Line(Name(k), value)) {
      OwnedIsNoHeader(k, value);
    }
    hide IsHeader, Line, Name, MemoryValue, CpuValue, Spelled, BridgeLines;
    assert forall bridge, l | l in BridgeLines(bridge) :: !IsHeader(l) by {
      forall bridge, l | l in BridgeLines(bridge) ensures !IsHeader(l) {
        BridgeIsNoHeader(bridge);
      }
    }
  }

  lemma OwnLinesAreNoHeaders(p: CreateArgs)
    ensures forall l | l in OwnLines(p) :: !IsHeader(l)
  {
    hide IsHeader, ItemLines, NetLines, LimitLines, HeadItems, BodyItems;
    ItemsAreNoHeaders(HeadItems(p));
    ItemsAreNoHeaders(BodyItems(p));
    NetAndLimitsAreNoHeaders(p.net, p.memory, p.cores);
  }

  /** A line that `generate_config` writes for every container, and that the denylist lets through. */
  function IncludeLine(): string {
    ItemLine(Plain(Include, COMMON_CONF))
  }

  lemma CharAt(a: string, b: string, c: string, k: nat)
    requires k < |a + "." + b + "." + c|
    ensures var ch := (a + "." + b + "." + c)[k];
            if k < |a| then ch in a else if k == |a| then ch == '.' else if k <= |a| + |b| then ch in b
            else if k == |a| + 1 + |b| then ch == '.' else ch in c
  {
    var s := a + "." + b + "." + c;
    if k < |a| {
      assert s[k] == a[k];
    } else if |a| < k <= |a| + |b| {
      assert s[k] == b[k - |a| - 1];
    } else if k > |a| + 1 + |b| {
      assert s[k] == c[k - |a| - |b| - 2];
    }
  }

  lemma TwoDots(a: string, b: string, c: string, k: nat)
    requires '.' !in a && '.' !in b && '.' !in c
    requires k < |a + "." + b + "." + c| && (a + "." + b + "." + c)[k] == '.'
    ensures k == |a| || k == |a| + 1 + |b|
  {
    CharAt(a, b, c, k);
  }

  /** Where a needle with a dot in fourth place can occur between three parts that have none. */
  lemma DotInFourthPlace(a: string, b: string, c: string, d: string, i: int)
    requires |a| == 3 && b != "" && '.' !in a && '.' !in b && '.' !in c
    requires |d| > 4 && d[3] == '.' && OccursAt(d, a + "." + b + "." + c, i)
    ensures if i == 0 then d[4] == b[0] else d[2] == b[|b| - 1]
  {
    var s := a + "." + b + "." + c;
    assert s[i..i + |d|][2] == s[i + 2] && s[i..i + |d|][3] == s[i + 3] && s[i..i + |d|][4] == s[i + 4];
    TwoDots(a, b, c, i + 3);
    assert s[4] == b[0] && s[3 + |b|] == b[|b| - 1];
  }

  /** The text of that line between its two dots. */
  function IncludeMiddle(): string {
    "include" + " = " + COMMON
  }

  lemma Regroup(a: string, b: string, c: string, d: string, e: string)
    ensures (a + "." + b) + c + (d + ("." + e)) == a + "." + (b + c + d) + "." + e
  {
  }

  lemma IncludeParts()
    ensures IncludeLine() == "lxc" + "." + IncludeMiddle() + "." + "conf"
  {
    hide Occurs;
    assert "lxc.include" == "lxc" + "." + "include";
    assert ".conf" == "." + "conf";
    Regroup("lxc", "include", " = ", COMMON, "conf");
  }

  lemma MiddleFacts()
    ensures '.' !in IncludeMiddle() && |IncludeMiddle()| > 0
    ensures IncludeMiddle()[0] == 'i' && IncludeMiddle()[|IncludeMiddle()| - 1] == 'n'
  {
    assert '.' !in "include" && '.' !in " = " && '.' !in COMMON;
    assert IncludeMiddle()[0] == "include"[0] && IncludeMiddle()[|IncludeMiddle()| - 1] == COMMON[|COMMON| - 1];
  }

  lemma IncludeIsAllowed()
    ensures !Denied(IncludeLine())
  {
    IncludeParts();
    MiddleFacts();
    hide IncludeLine, IncludeMiddle, OccursAt;
    forall j | 0 <= j < |DENYLIST| ensures !Occurs(DENYLIST[j], IncludeLine()) {
      var d := DENYLIST[j];
      assert |d| > 4 && d[2] == 'c' && d[3] == '.' && d[4] != 'i';
      forall i | 0 <= i <= |IncludeLine()| ensures !OccursAt(d, IncludeLine(), i) {
        if OccursAt(d, IncludeLine(), i) {
          DotInFourthPlace("lxc", IncludeMiddle(), "conf", d, i);
        }
      }
    }
  }

  lemma NoCrAtEnd(s: string)
    requires s != "" && s[|s| - 1] != '\r'
    ensures RStripCr(s) == s
  {
  }

  lemma IncludeIsOneLine()
    ensures '\n' !in IncludeLine() && RStripCr(IncludeLine()) == IncludeLine() && IncludeLine() != ""
  {
    var line := IncludeLine();
    assert '\n' !in "lxc.include" && '\n' !in " = " && '\n' !in COMMON && '\n' !in ".conf";
    assert line[|line| - 1] == ".conf"[4];
    hide IncludeLine;
    NoCrAtEnd(line);
  }

  lemma IncludeIsPassed()
    ensures PassLines(CreatedArgs([IncludeLine()])) == [IncludeLine()]
  {
    var line := IncludeLine();
    IncludeIsOneLine();
    hide Lines, Join, IncludeLine, RStripCr;
    LinesOfJoinEnded([line]);
    assert [line][1..] == [];
  }

  lemma IncludeIsOwn(p: CreateArgs)
    ensures IncludeLine() in OwnLines(p)
  {
    var items := BodyItems(p);
    assert items[3] == Plain(Include, COMMON_CONF);
    hide BodyItems, HeadItems, NetLines, LimitLines, ItemLine;
    assert ItemLines(items)[3] == IncludeLine();
  }

  lemma IncludeGoes(above: Conf, line: string)
    requires forall l | l in above :: !IsHeader(l)
    requires !IsHeader(line)
    ensures line !in DropBlock(above + [line], [line], true)
  {
    hide IsHeader, DropBlock, Except;
    DroppedExactly(above, [line]);
    ExceptFacts(above, [line]);
  }

  /** An accepted list with that line: clearing it takes kento's own line away as well. */
  lemma IncludeIsLost(p: CreateArgs)
    requires CreateChecked(p.(lxcArgs := []))
    ensures var q := p.(lxcArgs := [IncludeLine()]);
            && CreateChecked(q) && IncludeLine() in OwnLines(q)
            && SetLxc(Created(q), OnlyArgs([""])).Ok? && IncludeLine() !in SetLxc(Created(q), OnlyArgs([""])).value.config
  {
    var q := p.(lxcArgs := [IncludeLine()]);
    IncludeIsAllowed();
    hide IncludeLine, OwnLines, DropBlock, PassLines, Denied, IsHeader, CleanOrEmpty, SetLxc, GenerateConfig, CreatedArgs;
    IncludeIsPassed();
    IncludeIsOwn(q);
    OwnLinesAreNoHeaders(q);
    OwnLinesFirst(q);
    ClearIs(Created(q));
    IncludeGoes(OwnLines(q), IncludeLine());
  }
}
