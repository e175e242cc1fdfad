/** Network metadata files and the read-modify-write merge of `kento set` (`set_cmd.py`):
    `_parse_kento_net`, `_persist_net_meta`, `_parse_network_arg`, the delta merge and its validation. */
module NetMeta {
  import opened Text
  import opened LxcConfig
  import Network

  // ----- one-line files -----

  /** `_read_line`: None for an absent or blank file. */
  function ReadLine(file: Option<string>): Option<string> {
    match file
    case None => None
    case Some(text) => if Strip(text) == "" then None else Some(Strip(text))
  }

  function WriteLine(value: string): string {
    value + "\n"
  }

  lemma ReadWritten(value: string)
    requires Clean(value)
    ensures ReadLine(Some(WriteLine(value))) == Some(value)
  {
    assert LStrip(value + "\n") == value + "\n";
    RStripConcat(value, "\n");
    assert "\n"[..0] == "" && RStrip("\n") == RStrip("");
  }

  function KindText(k: Kind): string {
    match k
    case BridgeNet => "bridge"
    case HostNet => "host"
    case UsermodeNet => "usermode"
    case NoNet => "none"
    case OtherNet(text) => text
  }

  function KindOf(text: string): Kind {
    if text == "bridge" then BridgeNet
    else if text == "host" then HostNet
    else if text == "usermode" then UsermodeNet
    else if text == "none" then NoNet
    else OtherNet(text)
  }

  lemma KindReadsBack(k: Kind)
    requires !k.OtherNet?
    ensures KindOf(KindText(k)) == k && Clean(KindText(k))
  {
  }

  // ----- the kento-net file -----

  datatype NetField = Ip | Gateway | Dns | Search

  /** The contents of `kento-net`. */
  datatype KentoNet = KentoNet(ip: Option<string>, gateway: Option<string>, dns: Option<string>, search: Option<string>)

  const EMPTY_NET := KentoNet(None, None, None, None)

  function FieldText(f: NetField): (s: string)
    ensures s != "" && '=' !in s && '\n' !in s && Trimmed(s)
  {
    match f
    case Ip => "ip"
    case Gateway => "gateway"
    case Dns => "dns"
    case Search => "searchdomain"
  }

  function FieldOfText(s: string): Option<NetField> {
    if s == "ip" then Some(Ip)
    else if s == "gateway" then Some(Gateway)
    else if s == "dns" then Some(Dns)
    else if s == "searchdomain" then Some(Search)
    else None
  }

  lemma FieldReadsBack(f: NetField)
    ensures FieldOfText(FieldText(f)) == Some(f)
  {
  }

  function SetField(net: KentoNet, f: NetField, v: Option<string>): KentoNet {
    match f
    case Ip => net.(ip := v)
    case Gateway => net.(gateway := v)
    case Dns => net.(dns := v)
    case Search => net.(search := v)
  }

  function OrNone(v: string): Option<string> {
    if v == "" then None else Some(v)
  }

  function ParseRow(net: KentoNet, line: string): KentoNet {
    var at := First(line, '=');
    if at == |line| then net
    else
      match FieldOfText(line[..at])
      case None => net
      case Some(f) => SetField(net, f, OrNone(line[at + 1..]))
  }

  function ParseRows(lines: seq<string>, net: KentoNet): KentoNet
    decreases |lines|
  {
    if lines == [] then net else ParseRows(lines[1..], ParseRow(net, lines[0]))
  }

  /** `_parse_kento_net`. */
  function ParseKentoNet(file: Option<string>): KentoNet {
    match file
    case None => EMPTY_NET
    case Some(text) => ParseRows(Lines(Strip(text)), EMPTY_NET)
  }

  method ReadKentoNet(file: Option<string>) returns (net: KentoNet)
    ensures net == ParseKentoNet(file)
  {
    net := EMPTY_NET;
    if file.None? {
      return;
    }
    var lines := Lines(Strip(file.value));
    for i := 0 to |lines|
      invariant ParseRows(lines, EMPTY_NET) == ParseRows(lines[i..], net)
    {
      assert lines[i..][1..] == lines[i + 1..];
      net := ParseRow(net, lines[i]);
    }
  }

  datatype Pair = Pair(field: NetField, value: string)

  function PairOf(f: NetField, v: Option<string>): seq<Pair> {
    if Truthy(v) then [Pair(f, v.value)] else []
  }

  function Row(p: Pair): string {
    FieldText(p.field) + "=" + p.value
  }

  function Rows(pairs: seq<Pair>): (r: seq<string>)
    ensures |r| == |pairs|
    ensures forall i | 0 <= i < |pairs| :: r[i] == Row(pairs[i])
  {
    seq(|pairs|, i requires 0 <= i < |pairs| => Row(pairs[i]))
  }

  function FrontPairs(net: KentoNet): seq<Pair> {
    PairOf(Ip, net.ip) + PairOf(Gateway, net.gateway) + PairOf(Dns, net.dns)
  }

  /** The `kento-net` file that `_persist_net_meta` writes; None when it unlinks the file. */
  function NetFile(net: KentoNet): Option<string> {
    var rows := Rows(FrontPairs(net) + PairOf(Search, net.search));
    if rows == [] then None else Some(Unlines(rows))
  }

  /** A line of the file, or nothing. */
  function KeyLine(key: string, v: Option<string>): string {
    if v.None? || v.value == "" then "" else key + "=" + v.value + "\n"
  }

  lemma {:induction false} UnlinesConcat(a: seq<string>, b: seq<string>)
    ensures Unlines(a + b) == Unlines(a) + Unlines(b)
  {
    if a == [] {
      assert a + b == b;
    } else {
      assert (a + b)[1..] == a[1..] + b;
      UnlinesConcat(a[1..], b);
    }
  }

  lemma OneRow(f: NetField, v: Option<string>)
    ensures Unlines(Rows(PairOf(f, v))) == KeyLine(FieldText(f), v)
  {
    if Truthy(v) {
      var row := Row(Pair(f, v.value));
      assert Rows(PairOf(f, v)) == [row] && [row][1..] == [];
      assert Unlines([row]) == row + "\n" + "";
    }
  }

  lemma RowsConcat(a: seq<Pair>, b: seq<Pair>)
    ensures Rows(a + b) == Rows(a) + Rows(b)
  {
    hide Row;
  }

  lemma UnlinesEmpty(rows: seq<string>)
    ensures Unlines(rows) == "" <==> rows == []
  {
  }

  /** The written file, line by line; it is absent when it would be empty. */
  lemma NetFileText(net: KentoNet)
    ensures var text := KeyLine("ip", net.ip) + KeyLine("gateway", net.gateway) + KeyLine("dns", net.dns) + KeyLine("searchdomain", net.search);
            NetFile(net) == if text == "" then None else Some(text)
  {
    var a, b, c, d := PairOf(Ip, net.ip), PairOf(Gateway, net.gateway), PairOf(Dns, net.dns), PairOf(Search, net.search);
    OneRow(Ip, net.ip);
    OneRow(Gateway, net.gateway);
    OneRow(Dns, net.dns);
    OneRow(Search, net.search);
    hide Unlines, PairOf, KeyLine;
    RowsConcat(a + b + c, d);
    RowsConcat(a + b, c);
    RowsConcat(a, b);
    UnlinesConcat(Rows(a + b + c), Rows(d));
    UnlinesConcat(Rows(a + b), Rows(c));
    UnlinesConcat(Rows(a), Rows(b));
    UnlinesEmpty(Rows(a + b + c + d));
  }

  function Fold(pairs: seq<Pair>, net: KentoNet): KentoNet
    decreases |pairs|
  {
    if pairs == [] then net else Fold(pairs[1..], SetField(net, pairs[0].field, OrNone(pairs[0].value)))
  }

  lemma RowParses(net: KentoNet, p: Pair)
    ensures ParseRow(net, Row(p)) == SetField(net, p.field, OrNone(p.value))
  {
    var key := FieldText(p.field);
    FieldReadsBack(p.field);
    hide FieldText, FieldOfText, SetField;
    assert Row(p) == key + ['='] + p.value;
    FirstAt(key, '=', p.value);
    assert Row(p)[..|key|] == key && Row(p)[|key| + 1..] == p.value;
  }

  lemma {:induction false} RowsParse(pairs: seq<Pair>, net: KentoNet)
    ensures ParseRows(Rows(pairs), net) == Fold(pairs, net)
    decreases |pairs|
  {
    if pairs == [] {
    } else {
      RowParses(net, pairs[0]);
      hide ParseRow, SetField, Row;
      assert Rows(pairs)[1..] == Rows(pairs[1..]);
      RowsParse(pairs[1..], SetField(net, pairs[0].field, OrNone(pairs[0].value)));
    }
  }

  predicate CleanFront(net: KentoNet) {
    CleanOpt(net.ip) && CleanOpt(net.gateway) && CleanOpt(net.dns)
  }

  /** A search domain as `kento-net` can hold it: any one line. */
  predicate OneLineOpt(v: Option<string>) {
    v.Some? ==> v.value != "" && '\n' !in v.value
  }

  lemma RowIsClean(p: Pair)
    requires Clean(p.value)
    ensures '\n' !in Row(p) && Row(p) != "" && Trimmed(Row(p))
  {
    hide FieldText;
    assert Row(p)[0] == FieldText(p.field)[0] && Row(p)[|Row(p)| - 1] == p.value[|p.value| - 1];
  }

  lemma FrontRowsClean(net: KentoNet)
    requires CleanFront(net)
    ensures forall l | l in Rows(FrontPairs(net)) :: '\n' !in l && l != "" && Trimmed(l)
  {
    var pairs := FrontPairs(net);
    assert forall i | 0 <= i < |pairs| :: Clean(pairs[i].value);
    hide Clean, Row, Trimmed, FrontPairs;
    forall l | l in Rows(pairs) ensures '\n' !in l && l != "" && Trimmed(l) {
      var i :| 0 <= i < |pairs| && Rows(pairs)[i] == l;
      RowIsClean(pairs[i]);
    }
  }

  /** The pairs read back from the written file: only the search domain can lose blanks at its end. */
  function KeptPairs(net: KentoNet): seq<Pair> {
    FrontPairs(net) + if Truthy(net.search) then [Pair(Search, RStrip(net.search.value))] else []
  }

  /** The search row, and what is left of it when blanks at its end go. */
  lemma SearchRow(value: string)
    requires '\n' !in value
    ensures var last := Row(Pair(Search, value));
            && '\n' !in last && last != "" && !IsSpace(last[0]) && RStrip(last) == Row(Pair(Search, RStrip(value)))
  {
    assert FieldText(Search) + "=" == "searchdomain=";
    RStripConcat("searchdomain=", value);
  }

  lemma RowsAppend(pairs: seq<Pair>, last: Pair)
    ensures Rows(pairs + [last]) == Rows(pairs) + [Row(last)]
  {
    hide Row;
  }

  lemma WrittenLines(net: KentoNet)
    requires CleanFront(net) && OneLineOpt(net.search)
    ensures NetFile(net).None? ==> KeptPairs(net) == []
    ensures NetFile(net).Some? ==> Lines(Strip(NetFile(net).value)) == Rows(KeptPairs(net))
  {
    var front := FrontPairs(net);
    FrontRowsClean(net);
    hide FrontPairs, Trimmed, CleanFront, Row, Strip, Lines, Unlines, RStrip;
    if Truthy(net.search) {
      var value := net.search.value;
      SearchRow(value);
      RowsAppend(front, Pair(Search, value));
      RowsAppend(front, Pair(Search, RStrip(value)));
      LinesOfStrippedTail(Rows(front), Row(Pair(Search, value)));
    } else {
      assert front + [] == front;
      LinesOfStrippedUnlines(Rows(front));
    }
  }

  lemma FoldConcat(a: seq<Pair>, b: seq<Pair>, net: KentoNet)
    ensures Fold(a + b, net) == Fold(b, Fold(a, net))
    decreases |a|
  {
    if a == [] {
      assert a + b == b;
    } else {
      assert (a + b)[1..] == a[1..] + b;
      FoldConcat(a[1..], b, SetField(net, a[0].field, OrNone(a[0].value)));
    }
  }

  lemma FoldPair(f: NetField, v: Option<string>, net: KentoNet)
    ensures Fold(PairOf(f, v), net) == if Truthy(v) then SetField(net, f, v) else net
  {
    if Truthy(v) {
      assert PairOf(f, v)[1..] == [];
    }
  }

  lemma FoldLast(d: seq<Pair>, net: KentoNet)
    requires |d| <= 1
    ensures Fold(d, net) == if d == [] then net else SetField(net, d[0].field, OrNone(d[0].value))
  {
    if d != [] {
      assert d[1..] == [];
    }
  }

  lemma FoldKept(net: KentoNet)
    requires CleanFront(net)
    ensures Fold(KeptPairs(net), EMPTY_NET)
         == net.(search := if Truthy(net.search) then OrNone(RStrip(net.search.value)) else None)
  {
    var a, b, c := PairOf(Ip, net.ip), PairOf(Gateway, net.gateway), PairOf(Dns, net.dns);
    var d := if Truthy(net.search) then [Pair(Search, RStrip(net.search.value))] else [];
    assert KeptPairs(net) == a + b + c + d;
    hide Fold, PairOf, RStrip, Trimmed;
    FoldConcat(a + b + c, d, EMPTY_NET);
    FoldConcat(a + b, c, EMPTY_NET);
    FoldConcat(a, b, EMPTY_NET);
    FoldPair(Ip, net.ip, EMPTY_NET);
    FoldPair(Gateway, net.gateway, Fold(a, EMPTY_NET));
    FoldPair(Dns, net.dns, Fold(a + b, EMPTY_NET));
    FoldLast(d, Fold(a + b + c, EMPTY_NET));
  }

  /** Address, gateway and DNS server come back from the file as they were written. */
  lemma KentoNetReadsBack(net: KentoNet)
    requires CleanFront(net) && OneLineOpt(net.search)
    ensures var got := ParseKentoNet(NetFile(net));
            got.ip == net.ip && got.gateway == net.gateway && got.dns == net.dns && OneLineOpt(got.search)
  {
    WrittenLines(net);
    RowsParse(KeptPairs(net), EMPTY_NET);
    FoldKept(net);
    if Truthy(net.search) {
      RStripPrefix(net.search.value);
    }
    hide Clean, NetFile, KeptPairs, Strip, Lines, Fold;
  }

  // ----- the typed reader: _load_ip_config -----

  /** `parse_cidr`: address and prefix length. */
  function ParseCidr(value: string): Option<(string, Option<string>)> {
    var slash := First(value, '/');
    if value == "" || slash == 0 then None
    else if slash == |value| then Some((value, None))
    else
      var prefix := value[slash + 1..];
      if '/' in prefix || prefix == "" || !Network.PortText(prefix) || Value(DropEol(prefix)) > 32 then None
      else Some((value[..slash], Some(prefix)))
  }

  /** The typed L3 map: `subnet` and the rest are absent when None. */
  datatype IpConfig = IpConfig(address: Option<string>, subnet: Option<string>, gateway: Option<string>, dns1: Option<string>)

  const EMPTY_IP := IpConfig(None, None, None, None)

  function LoadRow(net: KentoNet, line: string): KentoNet {
    var at := First(line, '=');
    if at >= |line| - 1 then net
    else
      match FieldOfText(Strip(line[..at]))
      case None => net
      case Some(f) => SetField(net, f, Some(Strip(line[at + 1..])))
  }

  function LoadRows(lines: seq<string>, net: KentoNet): KentoNet
    decreases |lines|
  {
    if lines == [] then net else LoadRows(lines[1..], LoadRow(net, lines[0]))
  }

  function ToIpConfig(fields: KentoNet): IpConfig {
    var cidr := if Truthy(fields.ip) then ParseCidr(fields.ip.value) else None;
    IpConfig(
      if !Truthy(fields.ip) then None else if cidr.Some? then Some(cidr.value.0) else fields.ip,
      if cidr.Some? then cidr.value.1 else None,
      if Truthy(fields.gateway) then fields.gateway else None,
      if Truthy(fields.dns) then fields.dns else None)
  }

  /** `_load_ip_config`. */
  function LoadIpConfig(file: Option<string>): IpConfig {
    match file
    case None => EMPTY_IP
    case Some(text) => ToIpConfig(LoadRows(Lines(Strip(text)), EMPTY_NET))
  }

  method ReadIpConfig(file: Option<string>) returns (c: IpConfig)
    ensures c == LoadIpConfig(file)
  {
    if file.None? {
      return EMPTY_IP;
    }
    var lines := Lines(Strip(file.value));
    var fields := EMPTY_NET;
    for i := 0 to |lines|
      invariant LoadRows(lines, EMPTY_NET) == LoadRows(lines[i..], fields)
    {
      assert lines[i..][1..] == lines[i + 1..];
      fields := LoadRow(fields, lines[i]);
    }
    return ToIpConfig(fields);
  }

  function LoadFold(pairs: seq<Pair>, net: KentoNet): KentoNet
    decreases |pairs|
  {
    if pairs == [] then net
    else LoadFold(pairs[1..], if pairs[0].value == "" then net else SetField(net, pairs[0].field, Some(Strip(pairs[0].value))))
  }

  lemma RowLoads(net: KentoNet, p: Pair)
    ensures LoadRow(net, Row(p)) == if p.value == "" then net else SetField(net, p.field, Some(Strip(p.value)))
  {
    var key := FieldText(p.field);
    FieldReadsBack(p.field);
    StripOfTrimmed(key);
    hide FieldText, FieldOfText, SetField, Strip;
    assert Row(p) == key + ['='] + p.value;
    FirstAt(key, '=', p.value);
    assert Row(p)[..|key|] == key && Row(p)[|key| + 1..] == p.value;
  }

  lemma {:induction false} RowsLoad(pairs: seq<Pair>, net: KentoNet)
    ensures LoadRows(Rows(pairs), net) == LoadFold(pairs, net)
    decreases |pairs|
  {
    if pairs == [] {
    } else {
      RowLoads(net, pairs[0]);
      hide LoadRow, SetField, Row, Strip;
      assert Rows(pairs)[1..] == Rows(pairs[1..]);
      RowsLoad(pairs[1..], LoadRow(net, Row(pairs[0])));
    }
  }

  /** For clean pairs the typed reader sees what the merge sees. */
  lemma {:induction false} FoldsAgree(pairs: seq<Pair>, net: KentoNet)
    requires forall i | 0 <= i < |pairs| :: Clean(pairs[i].value)
    ensures LoadFold(pairs, net) == Fold(pairs, net)
    decreases |pairs|
  {
    if pairs == [] {
    } else {
      StripOfTrimmed(pairs[0].value);
      hide Clean, SetField, Strip;
      forall i | 0 <= i < |pairs[1..]| ensures Clean(pairs[1..][i].value) {
        assert pairs[1..][i] == pairs[i + 1];
      }
      FoldsAgree(pairs[1..], SetField(net, pairs[0].field, Some(pairs[0].value)));
    }
  }

  lemma FrontFold(net: KentoNet)
    requires CleanFront(net)
    ensures Fold(FrontPairs(net), EMPTY_NET) == net.(search := None)
  {
    var bare := net.(search := None);
    FoldKept(bare);
    assert KeptPairs(bare) == FrontPairs(bare) + [] == FrontPairs(net);
  }

  lemma LoadFoldConcat(a: seq<Pair>, b: seq<Pair>, net: KentoNet)
    ensures LoadFold(a + b, net) == LoadFold(b, LoadFold(a, net))
    decreases |a|
  {
    hide Strip, SetField;
    if a == [] {
      assert a + b == b;
    } else {
      assert (a + b)[1..] == a[1..] + b;
      LoadFoldConcat(a[1..], b, if a[0].value == "" then net else SetField(net, a[0].field, Some(Strip(a[0].value))));
    }
  }

  lemma LoadFoldLast(d: seq<Pair>, net: KentoNet)
    requires |d| <= 1 && (d != [] ==> d[0].field == Search)
    ensures LoadFold(d, net).(search := None) == net.(search := None)
  {
    hide Strip;
    if d != [] {
      assert d[1..] == [];
    }
  }

  lemma LoadedFields(net: KentoNet)
    requires CleanFront(net) && OneLineOpt(net.search)
    ensures LoadFold(KeptPairs(net), EMPTY_NET).(search := None) == net.(search := None)
  {
    var front := FrontPairs(net);
    var tail := if Truthy(net.search) then [Pair(Search, RStrip(net.search.value))] else [];
    assert forall i | 0 <= i < |front| :: Clean(front[i].value);
    hide Clean, FrontPairs, Strip, Fold, LoadFold, RStrip, CleanFront;
    LoadFoldConcat(front, tail, EMPTY_NET);
    FoldsAgree(front, EMPTY_NET);
    FrontFold(net);
    LoadFoldLast(tail, Fold(front, EMPTY_NET));
  }

  lemma SearchIsIgnored(a: KentoNet, b: KentoNet)
    requires a.(search := None) == b.(search := None)
    ensures ToIpConfig(a) == ToIpConfig(b)
  {
    hide ParseCidr;
    assert a.ip == b.ip && a.gateway == b.gateway && a.dns == b.dns;
  }

  /** The typed reader gets address, gateway and DNS server as they were written. */
  lemma IpConfigReadsBack(net: KentoNet)
    requires CleanFront(net) && OneLineOpt(net.search)
    ensures LoadIpConfig(NetFile(net)) == ToIpConfig(net)
  {
    assert EMPTY_IP == ToIpConfig(EMPTY_NET) && LoadFold([], EMPTY_NET) == EMPTY_NET;
    hide CleanFront, NetFile, KeptPairs, Strip, Lines, LoadFold, ToIpConfig;
    WrittenLines(net);
    RowsLoad(KeptPairs(net), EMPTY_NET);
    LoadedFields(net);
    SearchIsIgnored(LoadFold(KeptPairs(net), EMPTY_NET), net);
  }
}
