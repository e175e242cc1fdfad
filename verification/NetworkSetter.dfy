/** The `network` setter of a stopped instance (`_instances.py`): a whole typed value is decomposed into
    `kento set` arguments, merged into whatever was recorded, persisted, and read back by the loader. */
module NetworkSetter {
  import opened Text
  import opened LxcConfig
  import opened Modes
  import opened NetMeta
  import opened NetDelta
  import Network

  datatype NetworkMode = DhcpMode | StaticMode | UserMode | HostMode | DisabledMode

  datatype Connection = Connection(mode: NetworkMode, bridge: Option<string>, mac: Option<string>, ip: IpConfig,
                                   dns2: Option<string>)

  /** The network metadata of one instance directory. */
  datatype Disk = Disk(files: Files, mac: Option<string>)

  function KindFor(m: NetworkMode): Kind {
    match m
    case DhcpMode => BridgeNet
    case StaticMode => BridgeNet
    case UserMode => UsermodeNet
    case HostMode => HostNet
    case DisabledMode => NoNet
  }

  function OrEmpty(v: Option<string>): string {
    match v
    case None => ""
    case Some(s) => s
  }

  function AddressText(address: string, subnet: Option<string>): string {
    if Truthy(subnet) then address + "/" + subnet.value else address
  }

  datatype Params = Params(net: NetArgs, mac: Option<string>)

  /** `_network_to_set_cmd_params`. */
  function ToParams(c: Connection): Result<Params, Error> {
    if c.dns2.Some? then Err(ValidationError)
    else
      var bridgeArg := if Truthy(c.bridge) then BRIDGE_EQ + c.bridge.value else "bridge";
      Ok(Params(
        if c.mode == StaticMode then
          NetArgs(Some(bridgeArg),
                  if c.ip.address.Some? then Some(AddressText(c.ip.address.value, c.ip.subnet)) else None,
                  Some(OrEmpty(c.ip.gateway)), Some(OrEmpty(c.ip.dns1)), None)
        else
          NetArgs(Some(if c.mode == DhcpMode then bridgeArg else KindText(KindFor(c.mode))), Some(DHCP), None, Some(""), None),
        c.mac))
  }

  /** `_MAC_RE`. */
  predicate IsMac(s: string) {
    var t := DropEol(s);
    |t| == 17 && forall i | 0 <= i < 17 :: if i % 3 == 2 then t[i] == ':' else IsHex(t[i])
  }

  predicate IsVm(mode: Mode) {
    mode == Vm || mode == PveVm
  }

  /** `set_cmd` on these arguments: the identity to persist, or the refusal before any write. */
  function Plan(mode: Mode, disk: Disk, fallback: Net, p: Params): Result<Ident, Error> {
    if p.mac.Some? && !IsVm(mode) then Err(ModeError)
    else if p.mac.Some? && !IsMac(p.mac.value) then Err(ValidationError)
    else Delta(mode, Resolve(disk.files, fallback), p.net)
  }

  /** What is on disk after the first `n` of the four writes. */
  function Written(disk: Disk, mac: Option<string>, ident: Ident, n: nat): Disk {
    var next := Persist(ident);
    Disk(
      Files(if n >= 2 then next.netType else disk.files.netType,
            if n >= 3 then next.bridge else disk.files.bridge,
            if n >= 4 then next.net else disk.files.net),
      if n >= 1 && mac.Some? then Some(WriteLine(mac.value)) else disk.mac)
  }

  /** `_load_network`. */
  function Load(disk: Disk): Connection {
    var kind, ip := ReadLine(disk.files.netType), LoadIpConfig(disk.files.net);
    var mode := match kind
                case None => DisabledMode
                case Some(text) =>
                  match KindOf(text)
                  case BridgeNet => if Truthy(ip.address) then StaticMode else DhcpMode
                  case UsermodeNet => UserMode
                  case HostNet => HostMode
                  case _ => DisabledMode;
    Connection(mode, ReadLine(disk.files.bridge), ReadLine(disk.mac), if mode == StaticMode then ip else EMPTY_IP, None)
  }

  predicate ValidPrefix(s: string) {
    s != "" && AllDigits(s) && Value(s) <= 32
  }

  /** A connection whose parts fit its mode: a bridge for the bridged modes alone, addresses for the static mode
      alone, and every value one that its file can hold. What the loader gives is of this kind unless a bridge
      is recorded beside another type, or none beside type bridge. */
  predicate WellFormed(c: Connection) {
    && c.dns2.None?
    && CleanOpt(c.bridge) && CleanOpt(c.mac) && CleanOpt(c.ip.gateway) && CleanOpt(c.ip.dns1)
    && (KindFor(c.mode) == BridgeNet <==> c.bridge.Some?)
    && (c.mode != StaticMode ==> c.ip == EMPTY_IP)
    && (c.mode == StaticMode ==>
          && c.ip.address.Some? && Clean(c.ip.address.value) && '/' !in c.ip.address.value
          && (c.ip.subnet.Some? ==> ValidPrefix(c.ip.subnet.value)))
  }

  /** The word that `--ip` reserves, given as an address. */
  predicate DhcpAddress(c: Connection) {
    c.mode == StaticMode && c.ip.address == Some(DHCP) && c.ip.subnet.None?
  }

  predicate MacAllowed(mode: Mode, mac: Option<string>) {
    mac.Some? ==> IsVm(mode) && IsMac(mac.value)
  }

  // ----- MAC addresses -----

  predicate HexPair(s: string) {
    |s| == 2 && IsHex(s[0]) && IsHex(s[1])
  }

  lemma JoinHead(parts: seq<string>)
    requires |parts| > 1
    ensures Join(parts, ':') == parts[0] + ":" + Join(parts[1..], ':')
  {
  }

  lemma JoinSix(a: string, b: string, c: string, d: string, e: string, f: string)
    ensures Join([a, b, c, d, e, f], ':') == a + ":" + (b + ":" + (c + ":" + (d + ":" + (e + ":" + f))))
  {
    JoinHead([a, b, c, d, e, f]);
    JoinHead([b, c, d, e, f]);
    JoinHead([c, d, e, f]);
    JoinHead([d, e, f]);
    JoinHead([e, f]);
    assert [a, b, c, d, e, f][1..] == [b, c, d, e, f] && [b, c, d, e, f][1..] == [c, d, e, f] && [c, d, e, f][1..] == [d, e, f];
    assert [d, e, f][1..] == [e, f] && [e, f][1..] == [f];
  }

  lemma PairsAreMac(t: string, a: string, b: string, c: string, d: string, e: string, f: string)
    requires HexPair(a) && HexPair(b) && HexPair(c) && HexPair(d) && HexPair(e) && HexPair(f)
    requires t == a + ":" + (b + ":" + (c + ":" + (d + ":" + (e + ":" + f))))
    ensures |t| == 17 && forall i | 0 <= i < 17 :: if i % 3 == 2 then t[i] == ':' else IsHex(t[i])
  {
    hide IsHex;
    assert |t| == 17 && t[0..2] == a && t[3..5] == b && t[6..8] == c && t[9..11] == d && t[12..14] == e && t[15..17] == f;
    assert t[2] == t[5] == t[8] == t[11] == t[14] == ':';
    forall i | 0 <= i < 17 ensures if i % 3 == 2 then t[i] == ':' else IsHex(t[i]) {
      var k := i / 3;
      assert i == 3 * k || i == 3 * k + 1 || i == 3 * k + 2;
      if k == 0 { assert i < 2 ==> t[i] == a[i]; }
      else if k == 1 { assert i < 5 ==> t[i] == b[i - 3]; }
      else if k == 2 { assert i < 8 ==> t[i] == c[i - 6]; }
      else if k == 3 { assert i < 11 ==> t[i] == d[i - 9]; }
      else if k == 4 { assert i < 14 ==> t[i] == e[i - 12]; }
      else { assert t[i] == f[i - 15]; }
    }
  }

  lemma MacHasPairs(t: string)
    requires |t| == 17 && forall i | 0 <= i < 17 :: if i % 3 == 2 then t[i] == ':' else IsHex(t[i])
    ensures |Split(t, ':')| == 6 && forall p | p in Split(t, ':') :: HexPair(p)
  {
    hide Join, Split;
    var parts := [t[0..2], t[3..5], t[6..8], t[9..11], t[12..14], t[15..17]];
    assert forall p | p in parts :: HexPair(p);
    JoinSix(parts[0], parts[1], parts[2], parts[3], parts[4], parts[5]);
    assert t == t[0..2] + [t[2]] + (t[3..5] + [t[5]] + (t[6..8] + [t[8]] + (t[9..11] + [t[11]] + (t[12..14] + [t[14]] + t[15..17]))));
    SplitOfJoin(parts, ':');
  }

  /** A MAC address is six pairs of hexadecimal digits around five colons; a final newline passes. */
  lemma MacIsSixPairs(s: string)
    ensures IsMac(s) <==> (var parts := Split(DropEol(s), ':'); |parts| == 6 && forall p | p in parts :: HexPair(p))
  {
    var t := DropEol(s);
    hide Join, Split, DropEol, IsHex, HexPair;
    if IsMac(s) {
      MacHasPairs(t);
    } else if |Split(t, ':')| == 6 && forall p | p in Split(t, ':') :: HexPair(p) {
      var g := Split(t, ':');
      JoinOfSplit(t, ':');
      JoinSix(g[0], g[1], g[2], g[3], g[4], g[5]);
      assert g == [g[0], g[1], g[2], g[3], g[4], g[5]];
      PairsAreMac(t, g[0], g[1], g[2], g[3], g[4], g[5]);
    }
  }

  // ----- the values on their way -----

  lemma {:induction false} PrefixText(s: string)
    requires ValidPrefix(s)
    ensures Clean(s) && '/' !in s && DropEol(s) == s && Network.PortText(s)
  {
    assert IsDigit(s[0]) && IsDigit(s[|s| - 1]);
    assert forall i | 0 <= i < |s| :: IsDigit(s[i]);
  }

  lemma AddressSurvives(address: string, subnet: Option<string>)
    requires Clean(address) && '/' !in address && (subnet.Some? ==> ValidPrefix(subnet.value))
    ensures Clean(AddressText(address, subnet))
    ensures ParseCidr(AddressText(address, subnet)) == Some((address, subnet))
  {
    if subnet.Some? {
      var s := subnet.value;
      PrefixText(s);
      var text := address + ['/'] + s;
      assert AddressText(address, subnet) == text;
      assert text[0] == address[0] && text[|text| - 1] == s[|s| - 1];
      FirstAt(address, '/', s);
      assert text[..|address|] == address && text[|address| + 1..] == s;
    }
  }

  lemma LinesHaveNoBreak(s: string)
    ensures forall l | l in Lines(s) :: '\n' !in l
  {
    SplitPartsFree(s, '\n');
  }

  lemma {:induction false} RowsKeepSearch(lines: seq<string>, net: KentoNet)
    requires forall l | l in lines :: '\n' !in l
    requires OneLineOpt(net.search)
    ensures OneLineOpt(ParseRows(lines, net).search)
    decreases |lines|
  {
    if lines == [] {
    } else {
      assert '\n' !in lines[0];
      assert forall i | 0 <= i <= |lines[0]| :: '\n' !in lines[0][i..];
      RowsKeepSearch(lines[1..], ParseRow(net, lines[0]));
    }
  }

  /** Any recorded search domain is one line, whatever the file holds. */
  lemma SearchIsOneLine(files: Files, fallback: Net)
    ensures OneLineOpt(Resolve(files, fallback).search)
  {
    if files.net.Some? {
      LinesHaveNoBreak(Strip(files.net.value));
      RowsKeepSearch(Lines(Strip(files.net.value)), EMPTY_NET);
    }
    hide ParseRows, Lines, Strip, ReadLine, KindOf;
  }

  /** The L3 fields a merge leaves for a connection. */
  function IpText(c: Connection): Option<string> {
    if c.mode == StaticMode && c.ip.address.Some? then Some(AddressText(c.ip.address.value, c.ip.subnet)) else None
  }

  /** The identity that an assigned connection leaves: only the search domain is taken over. */
  function Target(c: Connection, search: Option<string>): Ident {
    Ident(Net(KindFor(c.mode), c.bridge, IpText(c), c.ip.gateway), c.ip.dns1, search)
  }

  lemma NetworkArgParses(c: Connection)
    requires WellFormed(c)
    ensures ParseNetworkArg(ToParams(c).value.net.network) == Ok((Some(KindFor(c.mode)), c.bridge))
  {
    KindReadsBack(KindFor(c.mode));
    if c.bridge.Some? {
      var text := BRIDGE_EQ + c.bridge.value;
      assert text[6] == '=' && |text| > 7;
      assert text[|BRIDGE_EQ|..] == c.bridge.value;
      assert KindOf(text).OtherNet?;
    }
    hide Clean;
  }

  lemma OrNoneOfEmpty(v: Option<string>)
    requires CleanOpt(v)
    ensures OrNone(OrEmpty(v)) == v
  {
  }

  /** Nothing of the old identity but the search domain is left. */
  lemma MergeTarget(current: Ident, c: Connection)
    requires WellFormed(c) && !DhcpAddress(c)
    ensures Merge(current, Some(KindFor(c.mode)), c.bridge, ToParams(c).value.net) == Target(c, current.search)
  {
    OrNoneOfEmpty(c.ip.gateway);
    OrNoneOfEmpty(c.ip.dns1);
    if c.mode == StaticMode {
      var text := AddressText(c.ip.address.value, c.ip.subnet);
      AddressSurvives(c.ip.address.value, c.ip.subnet);
      if c.ip.subnet.Some? {
        var n := |c.ip.address.value|;
        assert text[n] == '/';
        assert text != DHCP;
      }
      hide Clean, AddressText, ParseCidr;
    }
    hide Clean, AddressText, ParseCidr;
  }

  /** An address spelled like the reserved word never gets through: its empty gateway is refused. */
  lemma DhcpAddressRefused(mode: Mode, current: Ident, c: Connection)
    requires WellFormed(c) && DhcpAddress(c)
    ensures Delta(mode, current, ToParams(c).value.net).Err?
  {
    NetworkArgParses(c);
    hide Clean, ParseNetworkArg, Trimmed;
  }

  /** Which well-formed connections are accepted, and what is then persisted. */
  lemma PlanOfWellFormed(mode: Mode, disk: Disk, fallback: Net, c: Connection)
    requires WellFormed(c)
    ensures var plan := Plan(mode, disk, fallback, ToParams(c).value);
            && (plan.Ok? <==> KindAllowed(mode, KindFor(c.mode)) && MacAllowed(mode, c.mac) && !DhcpAddress(c))
            && (plan.Ok? ==> plan.value == Target(c, Resolve(disk.files, fallback).search))
  {
    var current := Resolve(disk.files, fallback);
    NetworkArgParses(c);
    if DhcpAddress(c) {
      DhcpAddressRefused(mode, current, c);
    } else {
      MergeTarget(current, c);
    }
    hide Clean, ParseNetworkArg, Resolve, Merge, KindFor, AddressText, IsMac;
  }

  lemma TargetIsClean(c: Connection, search: Option<string>)
    requires WellFormed(c) && OneLineOpt(search)
    ensures CleanIdent(Target(c, search))
  {
    if c.mode == StaticMode {
      AddressSurvives(c.ip.address.value, c.ip.subnet);
    }
    hide Clean, AddressText, ParseCidr;
  }

  lemma TargetIpLoads(c: Connection, search: Option<string>)
    requires WellFormed(c) && OneLineOpt(search)
    ensures LoadIpConfig(Persist(Target(c, search)).net) == c.ip
  {
    TargetIsClean(c, search);
    IpConfigReadsBack(NetOf(Target(c, search)));
    if c.mode == StaticMode {
      AddressSurvives(c.ip.address.value, c.ip.subnet);
    }
    assert CleanOpt(c.ip.gateway) && CleanOpt(c.ip.dns1);
    hide AddressText, ParseCidr, LoadIpConfig, NetFile;
  }

  /** The MAC address that the disk holds afterwards: a recorded one is kept when none is given. */
  function KeptMac(disk: Disk, mac: Option<string>): Option<string> {
    if mac.Some? then mac else ReadLine(disk.mac)
  }

  /** Persisting a well-formed connection and loading it gives the connection back. */
  lemma WrittenLoads(disk: Disk, c: Connection, search: Option<string>)
    requires WellFormed(c) && OneLineOpt(search)
    ensures Load(Written(disk, c.mac, Target(c, search), 4)) == c.(mac := KeptMac(disk, c.mac))
  {
    TargetIpLoads(c, search);
    KindReadsBack(KindFor(c.mode));
    ReadWritten(KindText(KindFor(c.mode)));
    if c.bridge.Some? { ReadWritten(c.bridge.value); }
    if c.mac.Some? { ReadWritten(c.mac.value); }
    assert c.mode == StaticMode ==> Truthy(c.ip.address);
    assert c.bridge.Some? ==> Truthy(c.bridge);
    hide LoadIpConfig, NetFile, KindOf, KindText, ReadLine, WriteLine, Clean, NetOf, IpText;
  }

  /** Assigning a well-formed connection to a stopped instance round-trips over any earlier metadata. */
  lemma AssignmentRoundTrips(mode: Mode, disk: Disk, fallback: Net, c: Connection)
    requires WellFormed(c)
    ensures var plan := Plan(mode, disk, fallback, ToParams(c).value);
            && (plan.Ok? <==> KindAllowed(mode, KindFor(c.mode)) && MacAllowed(mode, c.mac) && !DhcpAddress(c))
            && (plan.Ok? ==> Load(Written(disk, c.mac, plan.value, 4)) == c.(mac := KeptMac(disk, c.mac)))
  {
    PlanOfWellFormed(mode, disk, fallback, c);
    SearchIsOneLine(disk.files, fallback);
    WrittenLoads(disk, c, Resolve(disk.files, fallback).search);
    hide WellFormed, Load, Written, Plan, ToParams, Target, Resolve, KeptMac, KindAllowed, MacAllowed, DhcpAddress;
  }

  /** An instance without a recorded type loads as disabled, whatever its live config says; putting that
      loaded value back records `none`, so a refused assignment loses the network of such an instance. */
  lemma UnrecordedTypeIsLost(mode: Mode, disk: Disk, fallback: Net)
    requires ReadLine(disk.files.netType).None?
    requires MacAllowed(mode, ReadLine(disk.mac))
    ensures Load(disk).mode == DisabledMode
    ensures Resolve(disk.files, fallback).net.kind == fallback.kind
    ensures var plan := Plan(mode, disk, fallback, ToParams(Load(disk)).value);
            plan.Ok? && Resolve(Persist(plan.value), fallback).net.kind == NoNet
  {
    KindReadsBack(NoNet);
    ReadWritten(KindText(NoNet));
    hide ReadLine, ParseKentoNet, LoadIpConfig, NetFile, IsMac, WriteLine;
  }

  // ----- the setter -----

  datatype Outcome = Done | Refused(error: Error) | Running | WriteFailed

  class Instance {
    const mode: Mode
    var disk: Disk
    var network: Connection
    var running: bool

    constructor (mode: Mode, disk: Disk)
      ensures this.mode == mode && this.disk == disk && network == Load(disk) && network.dns2.None? && !running
    {
      this.mode, this.disk, network, running := mode, disk, Load(disk), false;
    }

    /** `set_cmd` with network arguments only; the write numbered `failAt` (from zero) fails. */
    method SetCmd(p: Params, fallback: Net, failAt: nat) returns (r: Outcome)
      modifies this`disk
      ensures match Plan(mode, old(disk), fallback, p)
              case Err(e) => r == Refused(e) && disk == old(disk)
              case Ok(ident) =>
                if failAt < 4 then r == WriteFailed && disk == Written(old(disk), p.mac, ident, failAt)
                else r == Done && disk == Written(old(disk), p.mac, ident, 4)
    {
      var plan := Plan(mode, disk, fallback, p);
      if plan.Err? {
        return Refused(plan.error);
      }
      var files := Persist(plan.value);
      if failAt == 0 { return WriteFailed; }
      if p.mac.Some? {
        disk := disk.(mac := Some(WriteLine(p.mac.value)));
      }
      if failAt == 1 { return WriteFailed; }
      disk := disk.(files := disk.files.(netType := files.netType));
      if failAt == 2 { return WriteFailed; }
      disk := disk.(files := disk.files.(bridge := files.bridge));
      if failAt == 3 { return WriteFailed; }
      disk := disk.(files := disk.files.(net := files.net));
      return Done;
    }

    /** The `network` setter: both the new and the cached value are decomposed before anything else. A failed assignment puts the cached value back; a MAC address that was written
        before the failure stays when the cached value has none. The fallbacks are what the live config says at the two calls. */
    method SetNetwork(value: Connection, failAt: nat, before: Net, during: Net) returns (r: Outcome)
      modifies this`disk, this`network
      ensures r.Done? <==> !running && ToParams(value).Ok? && ToParams(old(network)).Ok? && Plan(mode, old(disk), before, ToParams(value).value).Ok? && failAt >= 4
      ensures r.Done? ==> network == value
      ensures r.Done? && WellFormed(value) ==> Load(disk) == value.(mac := KeptMac(old(disk), value.mac))
      ensures !r.Done? ==> network == old(network)
      ensures running || value.dns2.Some? || old(network).dns2.Some? ==> disk == old(disk)
      ensures old(network).dns2.None? ==> network.dns2.None?
      ensures !r.Done? && !running && value.dns2.None? && WellFormed(old(network))
              && KindAllowed(mode, KindFor(old(network).mode)) && MacAllowed(mode, old(network).mac) && !DhcpAddress(old(network))
              ==> Load(disk) == old(network).(mac :=
                    if old(network).mac.Some? then old(network).mac
                    else if Plan(mode, old(disk), before, ToParams(value).value).Ok? && failAt >= 1 && value.mac.Some?
                    then ReadLine(Some(WriteLine(value.mac.value)))
                    else ReadLine(old(disk).mac))
    {
      var params, back := ToParams(value), ToParams(network);
      if params.Err? {
        return Refused(params.error);
      }
      if back.Err? {
        return Refused(back.error);
      }
      if running {
        return Running;
      }
      ghost var start := disk;
      r := SetCmd(params.value, before, failAt);
      if r.Done? {
        network := value;
        if WellFormed(value) {
          AssignmentRoundTrips(mode, start, before, value);
        }
        return;
      }
      hide WellFormed, Load, Written, Plan, Persist, KindAllowed, MacAllowed, DhcpAddress;
      ghost var partial := disk;
      var undone := SetCmd(back.value, during, 4);
      if WellFormed(network) {
        AssignmentRoundTrips(mode, partial, during, network);
      }
    }
  }
}
