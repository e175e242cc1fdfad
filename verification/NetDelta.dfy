/** The network part of `kento set` (`set_cmd.py`): resolve the current identity, apply the
    requested changes, validate against the mode, persist. */
module NetDelta {
  import opened Text
  import opened LxcConfig
  import opened Modes
  import opened NetMeta
  import Network

  datatype Error = ModeError | ValidationError

  /** The `--network --ip --gateway --dns --port` arguments; None is an absent flag. */
  datatype NetArgs = NetArgs(network: Option<string>, ip: Option<string>, gateway: Option<string>, dns: Option<string>,
                             port: Option<seq<string>>)

  datatype Ident = Ident(net: Net, dns: Option<string>, search: Option<string>)

  /** `kento-net-type`, `kento-bridge` and `kento-net`. */
  datatype Files = Files(netType: Option<string>, bridge: Option<string>, net: Option<string>)

  function OrElse(a: Option<string>, b: Option<string>): Option<string> {
    if a.Some? then a else b
  }

  /** `_resolve_net_identity`; `fallback` is what the live config says, used when no type is recorded. */
  function Resolve(files: Files, fallback: Net): Ident {
    var kind, bridge, net := ReadLine(files.netType), ReadLine(files.bridge), ParseKentoNet(files.net);
    Ident(
      if kind.Some? then Net(KindOf(kind.value), bridge, net.ip, net.gateway)
      else Net(fallback.kind, OrElse(bridge, fallback.bridge), OrElse(net.ip, fallback.ip), OrElse(net.gateway, fallback.gateway)),
      net.dns, net.search)
  }

  const BRIDGE_EQ := "bridge="

  /** `_parse_network_arg`: the requested type and bridge name. */
  function ParseNetworkArg(network: Option<string>): Result<(Option<Kind>, Option<string>), Error> {
    match network
    case None => Ok((None, None))
    case Some(text) =>
      if !KindOf(text).OtherNet? then Ok((Some(KindOf(text)), None))
      else if BRIDGE_EQ <= text then
        if text == BRIDGE_EQ then Err(ValidationError) else Ok((Some(BridgeNet), Some(text[|BRIDGE_EQ|..])))
      else Err(ValidationError)
  }

  const DHCP := "dhcp"

  /** The delta merge: only what was given is overwritten. */
  function Merge(current: Ident, kind: Option<Kind>, bridge: Option<string>, args: NetArgs): Ident {
    var net := current.net;
    var typed := if kind.None? then net
                 else net.(kind := kind.value,
                           bridge := if kind.value != BridgeNet then None else if bridge.Some? then bridge else net.bridge);
    var addressed := if args.ip.None? then typed
                     else if args.ip.value == DHCP then typed.(ip := None, gateway := None)
                     else typed.(ip := args.ip);
    var routed := if args.gateway.None? then addressed else addressed.(gateway := OrNone(args.gateway.value));
    current.(net := routed, dns := if args.dns.None? then current.dns else OrNone(args.dns.value))
  }

  datatype PortAction = Skip | Clear | Replace

  /** `_classify_list`. */
  function Classify(raw: Option<seq<string>>): PortAction {
    match raw
    case None => Skip
    case Some(items) => if NonEmpty(items) == [] then Clear else Replace
  }

  predicate KindAllowed(mode: Mode, kind: Kind) {
    match kind
    case BridgeNet => mode != Vm
    case UsermodeNet => mode == Vm || mode == PveVm
    case HostNet => mode == Lxc || mode == Pve
    case _ => true
  }

  /** `_validate_net_identity`. */
  function Validate(mode: Mode, net: Net, ipGiven: bool, gatewayGiven: bool, action: PortAction): Option<Error> {
    if !KindAllowed(mode, net.kind) then Some(ModeError)
    else if ipGiven && net.ip.Some? && net.kind != BridgeNet then Some(ValidationError)
    else if gatewayGiven && net.ip.None? then Some(ValidationError)
    else if action == Replace && net.kind != UsermodeNet && net.kind != BridgeNet then Some(ModeError)
    else None
  }

  /** The new identity, or the refusal that is raised before anything is written. */
  function Delta(mode: Mode, current: Ident, args: NetArgs): Result<Ident, Error> {
    match ParseNetworkArg(args.network)
    case Err(e) => Err(e)
    case Ok((kind, bridge)) =>
      var merged := Merge(current, kind, bridge, args);
      var action := Classify(args.port);
      if action == Replace && Network.ParseAll(NonEmpty(args.port.value), []).Err? then Err(ValidationError)
      else
        match Validate(mode, merged.net, args.ip.Some?, args.gateway.Some?, action)
        case Some(e) => Err(e)
        case None => Ok(merged)
  }

  function NetOf(ident: Ident): KentoNet {
    KentoNet(ident.net.ip, ident.net.gateway, ident.dns, ident.search)
  }

  /** `_persist_net_meta`. */
  function Persist(ident: Ident): Files {
    Files(
      Some(WriteLine(KindText(ident.net.kind))),
      if ident.net.kind == BridgeNet && Truthy(ident.net.bridge) then Some(WriteLine(ident.net.bridge.value)) else None,
      NetFile(NetOf(ident)))
  }

  /** An identity whose values survive their files. */
  predicate CleanIdent(ident: Ident) {
    && !ident.net.kind.OtherNet?
    && CleanOpt(ident.net.bridge)
    && CleanFront(NetOf(ident))
    && OneLineOpt(ident.search)
  }

  function Effective(ident: Ident): Ident {
    Ident(EffectiveNet(ident.net), NoEmpty(ident.dns), NoEmpty(ident.search))
  }

  lemma PersistIgnoresEmpty(ident: Ident)
    ensures Persist(Effective(ident)) == Persist(ident)
  {
    hide Unlines, Row;
  }

  /** What was persisted is what is resolved next, except that a bridge is recorded for bridged types only. */
  lemma PersistedResolves(ident: Ident, fallback: Net)
    requires CleanIdent(ident)
    ensures var got := Resolve(Persist(ident), fallback);
            && got.net == (if ident.net.kind == BridgeNet then ident.net else ident.net.(bridge := None))
            && got.dns == ident.dns && CleanIdent(got)
  {
    KindReadsBack(ident.net.kind);
    ReadWritten(KindText(ident.net.kind));
    if ident.net.bridge.Some? {
      ReadWritten(ident.net.bridge.value);
    }
    KentoNetReadsBack(NetOf(ident));
    hide KindOf, KindText, ReadLine, WriteLine, NetFile, ParseKentoNet, Clean;
  }

  // ----- what a call asks for -----

  predicate NetworkWord(text: string) {
    text == "bridge" || text == "host" || text == "usermode" || text == "none" || ("bridge=" <= text && text != "bridge=")
  }

  /** The type after a call: the one asked for, or else the one there was. */
  function KindAfter(was: Kind, network: Option<string>): Kind {
    match network
    case None => was
    case Some(text) => if text == "host" then HostNet else if text == "usermode" then UsermodeNet else if text == "none" then NoNet else BridgeNet
  }

  /** The address after a call: `dhcp` takes it away. */
  function AddressAfter(was: Option<string>, ip: Option<string>): Option<string> {
    if ip.None? then was else if ip.value == "dhcp" then None else ip
  }

  lemma ArgParses(network: Option<string>)
    ensures ParseNetworkArg(network).Ok? <==> (network.Some? ==> NetworkWord(network.value))
    ensures ParseNetworkArg(network).Ok? ==>
              var (kind, bridge) := ParseNetworkArg(network).value;
              && (kind.None? <==> network.None?)
              && (network.Some? ==> kind.value == KindAfter(NoNet, network))
              && bridge == if network.Some? && "bridge=" <= network.value then Some(network.value[7..]) else None
  {
    if network.Some? {
      var text := network.value;
      assert |BRIDGE_EQ| == 7 && ("bridge=" <= text ==> text[6] == '=');
      assert text == "bridge" || text == "host" || text == "usermode" || text == "none" ==> !("bridge=" <= text);
    }
  }

  /** What a call gives takes effect, and the search domain, which no call gives, stays. */
  lemma GivenFieldsTakeEffect(mode: Mode, was: Ident, args: NetArgs)
    requires Delta(mode, was, args).Ok?
    ensures var now := Delta(mode, was, args).value;
            && now.net.kind == KindAfter(was.net.kind, args.network)
            && now.net.ip == AddressAfter(was.net.ip, args.ip)
            && now.net.gateway == (if args.gateway.Some? then (if args.gateway.value == "" then None else args.gateway)
                                   else if args.ip == Some("dhcp") then None else was.net.gateway)
            && now.dns == (if args.dns.None? then was.dns else if args.dns.value == "" then None else args.dns)
            && now.search == was.search
            && (args.network.Some? ==>
                  now.net.bridge == if now.net.kind != BridgeNet then None
                                    else if "bridge=" <= args.network.value then Some(args.network.value[7..]) else was.net.bridge)
  {
    ArgParses(args.network);
    hide ParseNetworkArg, Classify, Validate, NetworkWord;
  }

  /** Which calls are accepted: the network word and the port specs can be read, the mode carries the type after
      the call, an address goes with a bridge and a gateway with an address, and ports go with a bridge or
      user-mode network. */
  lemma AcceptedExactly(mode: Mode, was: Ident, args: NetArgs)
    ensures var kind, ip := KindAfter(was.net.kind, args.network), AddressAfter(was.net.ip, args.ip);
            (Delta(mode, was, args).Ok?
             <==> && (args.network.Some? ==> NetworkWord(args.network.value))
                  && (kind == BridgeNet ==> mode == Lxc || mode == Pve || mode == PveVm)
                  && (kind == UsermodeNet ==> mode == Vm || mode == PveVm)
                  && (kind == HostNet ==> mode == Lxc || mode == Pve)
                  && (args.ip.Some? && args.ip.value != "dhcp" ==> kind == BridgeNet)
                  && (args.gateway.Some? ==> ip.Some?)
                  && (args.port.Some? && NonEmpty(args.port.value) != [] ==>
                        Network.ParseAll(NonEmpty(args.port.value), []).Ok? && (kind == BridgeNet || kind == UsermodeNet)))
  {
    ArgParses(args.network);
    hide ParseNetworkArg, NetworkWord, Network.ParseAll, NonEmpty;
  }

  lemma EffectiveParts(ident: Ident)
    ensures Effective(ident) == Ident(Net(ident.net.kind, NoEmpty(ident.net.bridge), NoEmpty(ident.net.ip), NoEmpty(ident.net.gateway)),
                                      NoEmpty(ident.dns), NoEmpty(ident.search))
  {
  }

  lemma MergedUngiven(mode: Mode, was: Ident, args: NetArgs)
    requires Delta(mode, was, args).Ok?
    ensures var now := Delta(mode, was, args).value;
            && (args.network.None? ==> now.net.kind == was.net.kind && now.net.bridge == was.net.bridge)
            && (args.ip.None? ==> now.net.ip == was.net.ip)
            && (args.ip != Some(DHCP) && args.gateway.None? ==> now.net.gateway == was.net.gateway)
            && (args.dns.None? ==> now.dns == was.dns)
  {
    hide Classify, KindOf, Validate;
  }

  /** What a call did not give is, once persisted, resolved as it was before, an empty value being none. */
  lemma UngivenFieldsSurvive(mode: Mode, files: Files, fallback: Net, later: Net, args: NetArgs)
    requires var r := Delta(mode, Resolve(files, fallback), args); r.Ok? && CleanIdent(Effective(r.value))
    ensures var was := Resolve(files, fallback);
            var now := Resolve(Persist(Delta(mode, was, args).value), later);
            && (args.network.None? ==> now.net.kind == was.net.kind && (was.net.kind == BridgeNet ==> now.net.bridge == NoEmpty(was.net.bridge)))
            && (args.ip.None? ==> now.net.ip == NoEmpty(was.net.ip))
            && (args.ip != Some(DHCP) && args.gateway.None? ==> now.net.gateway == NoEmpty(was.net.gateway))
            && (args.dns.None? ==> now.dns == NoEmpty(was.dns))
  {
    var was := Resolve(files, fallback);
    var ident := Delta(mode, was, args).value;
    hide Resolve, Persist, CleanIdent, Effective, NoEmpty, Delta;
    PersistIgnoresEmpty(ident);
    PersistedResolves(Effective(ident), later);
    MergedUngiven(mode, was, args);
    EffectiveParts(ident);
  }
}
