/** The native LXC config: the `key = value` editor `_replace_config_raw`, the reader
    `_parse_lxc_net_fallback` and the network rewrite `_rewrite_lxc_net` (`set_cmd.py`). */
module LxcConfig {
  import opened ConfText
  import opened Text

  /** The keys whose lines kento owns and rewrites. */
  datatype OwnedKey = NetType | NetLink | NetFlags | NetAddress | NetGateway | MemoryMax | CpuMax

  function Name(k: OwnedKey): string {
    match k
    case NetType => "lxc.net.0.type"
    case NetLink => "lxc.net.0.link"
    case NetFlags => "lxc.net.0.flags"
    case NetAddress => "lxc.net.0.ipv4.address"
    case NetGateway => "lxc.net.0.ipv4.gateway"
    case MemoryMax => "lxc.cgroup2.memory.max"
    case CpuMax => "lxc.cgroup2.cpu.max"
  }

  const NET_PREFIX := "lxc.net."

  /** A key the editor can write. */
  predicate RawKey(key: string) {
    key != "" && Trimmed(key) && '=' !in key && key[0] != '#'
  }

  lemma NameShape(k: OwnedKey)
    ensures RawKey(Name(k))
    ensures k != MemoryMax && k != CpuMax ==> NET_PREFIX <= Name(k)
    ensures match k
            case NetType => |Name(k)| == 14 && Name(k)[10] == 't'
            case NetLink => |Name(k)| == 14 && Name(k)[10] == 'l'
            case NetFlags => |Name(k)| == 15
            case NetAddress => |Name(k)| == 22 && Name(k)[15] == 'a'
            case NetGateway => |Name(k)| == 22 && Name(k)[15] == 'g'
            case MemoryMax => |Name(k)| == 22 && Name(k)[15] == 'o'
            case CpuMax => |Name(k)| == 19
  {
  }

  lemma NamesDiffer(a: OwnedKey, b: OwnedKey)
    ensures Name(a) == Name(b) <==> a == b
  {
    NameShape(a);
    NameShape(b);
    hide Name;
  }

  // ----- one line -----

  function KeyOf(raw: string): Option<string> {
    var s := Strip(raw);
    if s == "" || s[0] == '#' || '=' !in s then None else Some(Strip(s[..First(s, '=')]))
  }

  function RawValue(raw: string): string
    requires KeyOf(raw).Some?
  {
    var s := Strip(raw);
    Strip(s[First(s, '=') + 1..])
  }

  function Line(key: string, value: string): string {
    key + " =" + (" " + value)
  }

  lemma PaddedKey(key: string)
    requires key != "" && Trimmed(key)
    ensures Strip(key + " ") == key
  {
    assert LStrip(key + " ") == key + " ";
    RStripConcat(key, " ");
    assert " "[..0] == "" && RStrip(" ") == RStrip("");
  }

  lemma WrittenLine(key: string, value: string)
    requires RawKey(key)
    ensures KeyOf(Line(key, value)) == Some(key)
    ensures RawValue(Line(key, value)) == Strip(value)
  {
    var tail := " " + value;
    StripOfPair(key, " =", tail);
    var s := Strip(Line(key, value));
    var padded := key + " ";
    assert s == padded + ['='] + RStrip(tail);
    FirstAt(padded, '=', RStrip(tail));
    assert s[..|padded|] == padded && s[|padded| + 1..] == RStrip(tail);
    assert s[0] == key[0];
    StripOfTrimmed(key);
    PaddedKey(key);
    StripOfRStrip(tail);
    assert tail[1..] == value;
  }

  /** A key is a contiguous part of any line that sets it. */
  lemma KeyOccurs(raw: string)
    requires KeyOf(raw).Some?
    ensures Occurs(KeyOf(raw).value, raw)
  {
    var s := Strip(raw);
    var head := s[..First(s, '=')];
    StripIsPart(raw);
    StripIsPart(head);
    assert OccursAt(head, s, 0);
    OccursTransitive(Strip(head), head, s);
    OccursTransitive(Strip(head), s, raw);
  }

  // ----- lookups -----

  function LastKey(lines: Conf, key: string): (i: int)
    ensures -1 <= i < |lines|
    ensures i >= 0 ==> KeyOf(lines[i]) == Some(key)
    ensures forall j | i < j < |lines| :: KeyOf(lines[j]) != Some(key)
  {
    if lines == [] then -1
    else if KeyOf(lines[|lines| - 1]) == Some(key) then |lines| - 1
    else LastKey(lines[..|lines| - 1], key)
  }

  /** The last value of a key, as every reader of the config takes it. */
  function Lookup(lines: Conf, key: string): Option<string> {
    var i := LastKey(lines, key);
    if i < 0 then None else Some(RawValue(lines[i]))
  }

  function Count(lines: Conf, key: string): nat {
    if lines == [] then 0
    else Count(lines[..|lines| - 1], key) + if KeyOf(lines[|lines| - 1]) == Some(key) then 1 else 0
  }

  lemma {:induction false} CountConcat(a: Conf, b: Conf, key: string)
    ensures Count(a + b, key) == Count(a, key) + Count(b, key)
    ensures Lookup(a + b, key) == if Lookup(b, key).Some? then Lookup(b, key) else Lookup(a, key)
  {
    hide KeyOf, RawValue;
    if b == [] {
      assert a + b == a;
    } else {
      assert (a + b)[..|a + b| - 1] == a + b[..|b| - 1];
      CountConcat(a, b[..|b| - 1], key);
    }
  }

  lemma {:induction false} LookupNone(lines: Conf, key: string)
    ensures Lookup(lines, key).None? <==> Count(lines, key) == 0
  {
    hide KeyOf, RawValue;
    if lines == [] {
    } else {
      LookupNone(lines[..|lines| - 1], key);
    }
  }

  lemma OneLine(raw: string, key: string)
    ensures Count([raw], key) == if KeyOf(raw) == Some(key) then 1 else 0
    ensures Lookup([raw], key) == if KeyOf(raw) == Some(key) then Some(RawValue(raw)) else None
  {
    hide KeyOf, RawValue;
    assert [raw][..0] == [];
  }

  // ----- the editor -----

  /** `_replace_config_raw`. */
  function Put(lines: Conf, key: string, value: Option<string>): Conf {
    var i := LastKey(lines, key);
    match value
    case None => if i >= 0 then lines[..i] + lines[i + 1..] else lines
    case Some(v) => if i >= 0 then lines[i := Line(key, v)] else lines + [Line(key, v)]
  }

  method ReplaceConfigRaw(lines: Conf, key: string, value: Option<string>) returns (out: Conf)
    ensures out == Put(lines, key, value)
  {
    hide KeyOf, Line;
    var lastIdx := -1;
    var i := 0;
    while i < |lines|
      invariant 0 <= i <= |lines|
      invariant lastIdx == LastKey(lines[..i], key)
    {
      assert lines[..i + 1][..i] == lines[..i];
      if KeyOf(lines[i]) == Some(key) {
        lastIdx := i;
      }
      i := i + 1;
    }
    assert lines[..i] == lines;
    match value {
      case None => out := if lastIdx >= 0 then lines[..lastIdx] + lines[lastIdx + 1..] else lines;
      case Some(v) => out := if lastIdx >= 0 then lines[lastIdx := Line(key, v)] else lines + [Line(key, v)];
    }
  }

  /** A list cut around one of its lines. */
  lemma CutAt(lines: Conf, i: nat, raw: Conf, key: string)
    requires i < |lines|
    ensures Count(lines, key) == Count(lines[..i], key) + Count([lines[i]], key) + Count(lines[i + 1..], key)
    ensures Count(lines[..i] + raw + lines[i + 1..], key)
         == Count(lines[..i], key) + Count(raw, key) + Count(lines[i + 1..], key)
    ensures KeyOf(lines[i]) != Some(key) && Count(raw, key) == 0
        ==> Lookup(lines[..i] + raw + lines[i + 1..], key) == Lookup(lines, key)
  {
    hide KeyOf, RawValue;
    assert lines == lines[..i] + [lines[i]] + lines[i + 1..];
    CountConcat(lines[..i] + [lines[i]], lines[i + 1..], key);
    CountConcat(lines[..i], [lines[i]], key);
    CountConcat(lines[..i] + raw, lines[i + 1..], key);
    CountConcat(lines[..i], raw, key);
    LookupNone(raw, key);
    OneLine(lines[i], key);
    LookupNone([lines[i]], key);
  }

  lemma {:induction false} LastIsLast(lines: Conf, i: nat, key: string)
    requires i < |lines| && KeyOf(lines[i]) == Some(key) && forall j | i < j < |lines| :: KeyOf(lines[j]) != Some(key)
    ensures LastKey(lines, key) == i
  {
    hide KeyOf;
  }

  lemma ReplaceAt(lines: Conf, i: nat, raw: string, key: string, other: string)
    requires i < |lines| && KeyOf(lines[i]) == KeyOf(raw) == Some(key) && LastKey(lines, key) == i
    ensures Lookup(lines[i := raw], key) == Some(RawValue(raw)) && Count(lines[i := raw], key) == Count(lines, key) > 0
    ensures other != key ==> && Lookup(lines[i := raw], other) == Lookup(lines, other)
                             && Count(lines[i := raw], other) == Count(lines, other)
  {
    hide KeyOf, RawValue;
    assert lines[i := raw] == lines[..i] + [raw] + lines[i + 1..];
    OneLine(raw, key);
    OneLine(raw, other);
    OneLine(lines[i], key);
    OneLine(lines[i], other);
    LastIsLast(lines[i := raw], i, key);
    hide LastKey;
    CutAt(lines, i, [raw], key);
    CutAt(lines, i, [raw], other);
  }

  /** A write: the key reads back, stays single if it was, and no other key is affected. */
  lemma PutSome(lines: Conf, key: string, v: string, other: string)
    requires RawKey(key)
    ensures Lookup(Put(lines, key, Some(v)), key) == Some(Strip(v))
    ensures Count(Put(lines, key, Some(v)), key) == if Count(lines, key) == 0 then 1 else Count(lines, key)
    ensures other != key ==> && Lookup(Put(lines, key, Some(v)), other) == Lookup(lines, other)
                             && Count(Put(lines, key, Some(v)), other) == Count(lines, other)
  {
    var raw := Line(key, v);
    WrittenLine(key, v);
    LookupNone(lines, key);
    hide KeyOf, RawValue, Line, RawKey, Strip, Count;
    var i := LastKey(lines, key);
    if i >= 0 {
      ReplaceAt(lines, i, raw, key, other);
    } else {
      hide LastKey;
      OneLine(raw, key);
      OneLine(raw, other);
      CountConcat(lines, [raw], key);
      CountConcat(lines, [raw], other);
    }
  }

  /** A removal takes one line of the key away and affects no other key. */
  lemma PutNone(lines: Conf, key: string, other: string)
    ensures Count(Put(lines, key, None), key) == if Count(lines, key) == 0 then 0 else Count(lines, key) - 1
    ensures other != key ==> && Lookup(Put(lines, key, None), other) == Lookup(lines, other)
                             && Count(Put(lines, key, None), other) == Count(lines, other)
  {
    hide KeyOf, RawValue;
    var i := LastKey(lines, key);
    LookupNone(lines, key);
    if i >= 0 {
      assert lines[..i] + [] + lines[i + 1..] == lines[..i] + lines[i + 1..];
      CutAt(lines, i, [], key);
      CutAt(lines, i, [], other);
      OneLine(lines[i], key);
      OneLine(lines[i], other);
    }
  }

  // ----- the editor on the text of the file -----

  function PutText(content: string, key: string, value: Option<string>): string {
    Rejoin(content, Put(Lines(content), key, value))
  }

  lemma BlankSetsNoKey(lines: Conf, key: string)
    ensures Lookup(lines + [""], key) == Lookup(lines, key) && Count(lines + [""], key) == Count(lines, key)
  {
    assert KeyOf("").None?;
    hide KeyOf, RawValue;
    OneLine("", key);
    hide Lookup, Count;
    CountConcat(lines, [""], key);
  }

  /** Rejoining and splitting again changes no lookup and no count. */
  lemma RejoinKeepsKeys(content: string, lines: Conf, key: string)
    requires SingleLines(lines)
    ensures Lookup(Lines(Rejoin(content, lines)), key) == Lookup(lines, key)
    ensures Count(Lines(Rejoin(content, lines)), key) == Count(lines, key)
  {
    hide Lines, Rejoin, Lookup, Count;
    RejoinRead(content, lines);
    BlankSetsNoKey(Lines(Rejoin(content, lines)), key);
    BlankSetsNoKey(lines, key);
  }

  lemma PutIsSingle(lines: Conf, key: string, value: Option<string>)
    requires SingleLines(lines) && '\n' !in key && (value.Some? ==> '\n' !in value.value)
    ensures SingleLines(Put(lines, key, value))
  {
    assert value.Some? ==> '\n' !in Line(key, value.value);
    hide Line, LastKey;
    var out := Put(lines, key, value);
    forall k | 0 <= k < |out| ensures '\n' !in out[k] {
      assert out[k] in lines || (value.Some? && out[k] == Line(key, value.value));
    }
  }

  /** The laws of the editor hold on file texts: a written key reads back and is not duplicated, a removal takes one
      line of the key, and no other key is affected. */
  lemma PutTextFacts(content: string, key: string, value: Option<string>, other: string)
    requires RawKey(key) && '\n' !in key && (value.Some? ==> '\n' !in value.value)
    ensures value.Some? ==> Lookup(Lines(PutText(content, key, value)), key) == Some(Strip(value.value))
    ensures Count(Lines(PutText(content, key, value)), key)
         == var n := Count(Lines(content), key); if value.Some? then (if n == 0 then 1 else n) else if n == 0 then 0 else n - 1
    ensures other != key ==> && Lookup(Lines(PutText(content, key, value)), other) == Lookup(Lines(content), other)
                             && Count(Lines(PutText(content, key, value)), other) == Count(Lines(content), other)
  {
    hide Lines, Rejoin, Lookup, Count, Put, RawKey, Strip, SingleLines;
    var lines := Lines(content);
    LinesAreSingle(content);
    PutIsSingle(lines, key, value);
    RejoinKeepsKeys(content, Put(lines, key, value), key);
    RejoinKeepsKeys(content, Put(lines, key, value), other);
    if value.Some? {
      PutSome(lines, key, value.value, other);
    } else {
      PutNone(lines, key, other);
    }
  }

  // ----- the owned keys together -----

  /** No owned key is set on two lines. */
  ghost predicate Single(lines: Conf) {
    forall k: OwnedKey :: Count(lines, Name(k)) <= 1
  }

  /** What a list of lines says about an owned key. */
  function Owned(lines: Conf, k: OwnedKey): Option<string> {
    Lookup(lines, Name(k))
  }

  function StripAll(v: Option<string>): Option<string> {
    match v
    case None => None
    case Some(s) => Some(Strip(s))
  }

  /** Editing one owned key sets that key and leaves the others; single lines stay single. */
  lemma PutOwned(lines: Conf, k: OwnedKey, v: Option<string>)
    requires Single(lines)
    ensures Single(Put(lines, Name(k), v))
    ensures forall other: OwnedKey :: Owned(Put(lines, Name(k), v), other) == if other == k then StripAll(v) else Owned(lines, other)
  {
    NameShape(k);
    var out := Put(lines, Name(k), v);
    hide Name, Put, RawKey, Lookup, Count, Strip;
    forall other: OwnedKey
      ensures Count(out, Name(other)) <= 1
      ensures Owned(out, other) == if other == k then StripAll(v) else Owned(lines, other)
    {
      NamesDiffer(k, other);
      match v {
        case Some(s) => PutSome(lines, Name(k), s, Name(other));
        case None =>
          PutNone(lines, Name(k), Name(other));
          LookupNone(out, Name(k));
      }
    }
  }

  lemma {:induction false} UnlinesAppend(lines: seq<string>, last: string)
    ensures Unlines(lines + [last]) == Unlines(lines) + last + "\n"
  {
    if lines == [] {
      assert lines + [last] == [last] && [last][1..] == [];
    } else {
      assert (lines + [last])[1..] == lines[1..] + [last];
      UnlinesAppend(lines[1..], last);
    }
  }

  lemma BrokenLineSplits(front: Conf, head: string, second: string)
    requires '\n' !in second
    ensures Lines(Unlines(front + [head + "\n" + second])) == Split(Unlines(front) + head, '\n') + [second]
  {
    hide Split, Unlines;
    var a := Unlines(front) + head;
    var text := Unlines(front + [head + "\n" + second]);
    UnlinesAppend(front, head + "\n" + second);
    assert text == a + ['\n'] + (second + ['\n'] + "");
    SplitConcat(a, '\n', second + ['\n'] + "");
    SplitAtSeparator(second, '\n', "");
    SplitFree("", '\n');
  }

  /** A last line that holds a line break: in the written file the reader finds the part after it. */
  lemma BrokenLineRead(front: Conf, head: string, key: string, value: string)
    requires RawKey(key) && '\n' !in key && '\n' !in value
    ensures Lookup(Lines(Unlines(front + [head + "\n" + Line(key, value)])), key) == Some(Strip(value))
  {
    var second := Line(key, value);
    assert '\n' !in second;
    hide Line, RawKey, KeyOf, RawValue, Strip, Lookup, Split, Unlines, Lines;
    WrittenLine(key, value);
    OneLine(second, key);
    BrokenLineSplits(front, head, second);
    CountConcat(Split(Unlines(front) + head, '\n'), [second], key);
  }

  // ----- the network block -----

  datatype Kind = BridgeNet | HostNet | UsermodeNet | NoNet | OtherNet(text: string)

  /** A network identity, as metadata and config both describe it. */
  datatype Net = Net(kind: Kind, bridge: Option<string>, ip: Option<string>, gateway: Option<string>)

  /** The fixed values of the network block. */
  datatype Word = Veth | Shared | Up

  function Spelled(w: Word): string {
    match w
    case Veth => "veth"
    case Shared => "none"
    case Up => "up"
  }

  lemma WordsAreStripped(v: Word, w: Word)
    ensures Strip(Spelled(w)) == Spelled(w)
    ensures Spelled(v) == Spelled(w) <==> v == w
  {
    assert Trimmed(Spelled(w));
    StripOfTrimmed(Spelled(w));
    assert |Spelled(v)| == |Spelled(w)| ==> Spelled(v)[0] == Spelled(w)[0] || v != w;
  }

  /** A Python string that is neither None nor empty. */
  predicate Truthy(v: Option<string>) {
    v.Some? && v.value != ""
  }

  /** `_parse_lxc_net_fallback`. */
  function Fallback(lines: Conf): Net {
    var bridge := Owned(lines, NetLink);
    var kind := if Owned(lines, NetType) == Some(Spelled(Veth)) && Truthy(bridge) then BridgeNet
                else if Owned(lines, NetType) == Some(Spelled(Shared)) then HostNet
                else NoNet;
    Net(kind, bridge, Owned(lines, NetAddress), Owned(lines, NetGateway))
  }

  lemma FourNames()
    ensures Name(NetType) != Name(NetLink) && Name(NetType) != Name(NetAddress) && Name(NetType) != Name(NetGateway)
    ensures Name(NetLink) != Name(NetAddress) && Name(NetLink) != Name(NetGateway) && Name(NetAddress) != Name(NetGateway)
  {
    NamesDiffer(NetType, NetLink);
    NamesDiffer(NetType, NetAddress);
    NamesDiffer(NetType, NetGateway);
    NamesDiffer(NetLink, NetAddress);
    NamesDiffer(NetLink, NetGateway);
    NamesDiffer(NetAddress, NetGateway);
  }

  lemma NothingRead(k: OwnedKey)
    ensures Owned([], k).None?
  {
  }

  lemma ReadOneMore(lines: Conf, i: nat, k: OwnedKey)
    requires i < |lines|
    ensures Owned(lines[..i + 1], k)
         == if KeyOf(lines[i]) == Some(Name(k)) then Some(RawValue(lines[i])) else Owned(lines[..i], k)
  {
    hide KeyOf, RawValue, Name;
    assert lines[..i + 1] == lines[..i] + [lines[i]];
    CountConcat(lines[..i], [lines[i]], Name(k));
    OneLine(lines[i], Name(k));
  }

  method ParseLxcNetFallback(lines: Conf) returns (net: Net)
    ensures net == Fallback(lines)
  {
    var netType: Option<string>, bridge: Option<string>, ip: Option<string>, gateway: Option<string> := None, None, None, None;
    hide KeyOf, RawValue, Name, Owned, Spelled;
    FourNames();
    NothingRead(NetType);
    NothingRead(NetLink);
    NothingRead(NetAddress);
    NothingRead(NetGateway);
    assert lines[..0] == [];
    var i := 0;
    while i < |lines|
      invariant 0 <= i <= |lines|
      invariant netType == Owned(lines[..i], NetType) && bridge == Owned(lines[..i], NetLink)
      invariant ip == Owned(lines[..i], NetAddress) && gateway == Owned(lines[..i], NetGateway)
    {
      ReadOneMore(lines, i, NetType);
      ReadOneMore(lines, i, NetLink);
      ReadOneMore(lines, i, NetAddress);
      ReadOneMore(lines, i, NetGateway);
      var k := KeyOf(lines[i]);
      if k == Some(Name(NetType)) {
        netType := Some(RawValue(lines[i]));
      } else if k == Some(Name(NetLink)) {
        bridge := Some(RawValue(lines[i]));
      } else if k == Some(Name(NetAddress)) {
        ip := Some(RawValue(lines[i]));
      } else if k == Some(Name(NetGateway)) {
        gateway := Some(RawValue(lines[i]));
      }
      i := i + 1;
    }
    assert lines[..i] == lines;
    var kind := if netType == Some(Spelled(Veth)) && Truthy(bridge) then BridgeNet
                else if netType == Some(Spelled(Shared)) then HostNet
                else NoNet;
    net := Net(kind, bridge, ip, gateway);
  }

  function Cleared(lines: Conf): Conf {
    Put(Put(Put(Put(Put(lines, Name(NetType), None), Name(NetLink), None), Name(NetFlags), None),
            Name(NetAddress), None), Name(NetGateway), None)
  }

  /** `_rewrite_lxc_net`. */
  function RewriteNet(lines: Conf, net: Net): Conf {
    var clear := Cleared(lines);
    if net.kind == BridgeNet && Truthy(net.bridge) then
      var veth := Put(Put(Put(clear, Name(NetType), Some(Spelled(Veth))), Name(NetLink), net.bridge), Name(NetFlags), Some(Spelled(Up)));
      if !Truthy(net.ip) then veth
      else
        var addressed := Put(veth, Name(NetAddress), net.ip);
        if Truthy(net.gateway) then Put(addressed, Name(NetGateway), net.gateway) else addressed
    else if net.kind == HostNet then Put(clear, Name(NetType), Some(Spelled(Shared)))
    else clear
  }

  function NoEmpty(v: Option<string>): Option<string> {
    if v == Some("") then None else v
  }

  /** An identity as every writer sees it: an empty value is no value. */
  function EffectiveNet(net: Net): Net {
    Net(net.kind, NoEmpty(net.bridge), NoEmpty(net.ip), NoEmpty(net.gateway))
  }

  lemma RewriteIgnoresEmpty(lines: Conf, net: Net)
    ensures RewriteNet(lines, EffectiveNet(net)) == RewriteNet(lines, net)
  {
    hide Put, Cleared, Name, Spelled;
  }

  lemma ClearedFacts(lines: Conf)
    requires Single(lines)
    ensures Single(Cleared(lines))
    ensures forall k: OwnedKey :: Owned(Cleared(lines), k) == if k == MemoryMax || k == CpuMax then Owned(lines, k) else None
  {
    hide Single, Owned, Name, Put;
    var a := Put(lines, Name(NetType), None);
    var b := Put(a, Name(NetLink), None);
    var c := Put(b, Name(NetFlags), None);
    var d := Put(c, Name(NetAddress), None);
    PutOwned(lines, NetType, None);
    PutOwned(a, NetLink, None);
    PutOwned(b, NetFlags, None);
    PutOwned(c, NetAddress, None);
    PutOwned(d, NetGateway, None);
  }

  /** A value that survives a trip through a file: one line, not empty, no space at its ends. */
  predicate Clean(s: string) {
    s != "" && Trimmed(s) && '\n' !in s
  }

  predicate CleanOpt(v: Option<string>) {
    v.Some? ==> Clean(v.value)
  }

  /** What the owned lines must say for a network identity. */
  function Expected(net: Net, k: OwnedKey): Option<string>
    requires k != MemoryMax && k != CpuMax
  {
    if net.kind == BridgeNet && net.bridge.Some? then
      match k
      case NetType => Some(Spelled(Veth))
      case NetLink => net.bridge
      case NetFlags => Some(Spelled(Up))
      case NetAddress => net.ip
      case NetGateway => if net.ip.Some? then net.gateway else None
    else if net.kind == HostNet && k == NetType then Some(Spelled(Shared))
    else None
  }

  /** The lines a bridged identity adds to a cleared block. */
  function VethBlock(clear: Conf, bridge: string): Conf {
    Put(Put(Put(clear, Name(NetType), Some(Spelled(Veth))), Name(NetLink), Some(bridge)), Name(NetFlags), Some(Spelled(Up)))
  }

  function Addressed(veth: Conf, ip: Option<string>, gateway: Option<string>): Conf {
    if ip.None? then veth
    else if gateway.None? then Put(veth, Name(NetAddress), ip)
    else Put(Put(veth, Name(NetAddress), ip), Name(NetGateway), gateway)
  }

  lemma VethFacts(clear: Conf, bridge: string)
    requires Single(clear) && Clean(bridge)
    ensures Single(VethBlock(clear, bridge))
    ensures forall k: OwnedKey :: Owned(VethBlock(clear, bridge), k)
              == match k
                 case NetType => Some(Spelled(Veth))
                 case NetLink => Some(bridge)
                 case NetFlags => Some(Spelled(Up))
                 case _ => Owned(clear, k)
  {
    WordsAreStripped(Veth, Veth);
    WordsAreStripped(Up, Up);
    StripOfTrimmed(bridge);
    hide Single, Owned, Name, Put, Strip, Trimmed, Spelled;
    var a := Put(clear, Name(NetType), Some(Spelled(Veth)));
    PutOwned(clear, NetType, Some(Spelled(Veth)));
    PutOwned(a, NetLink, Some(bridge));
    PutOwned(Put(a, Name(NetLink), Some(bridge)), NetFlags, Some(Spelled(Up)));
  }

  lemma AddressedFacts(veth: Conf, ip: Option<string>, gateway: Option<string>)
    requires Single(veth) && CleanOpt(ip) && CleanOpt(gateway)
    requires Owned(veth, NetAddress).None? && Owned(veth, NetGateway).None?
    ensures Single(Addressed(veth, ip, gateway))
    ensures forall k: OwnedKey :: Owned(Addressed(veth, ip, gateway), k)
              == match k
                 case NetAddress => ip
                 case NetGateway => if ip.Some? then gateway else None
                 case _ => Owned(veth, k)
  {
    if ip.Some? { StripOfTrimmed(ip.value); }
    if gateway.Some? { StripOfTrimmed(gateway.value); }
    hide Single, Owned, Name, Put, Strip, Trimmed, Spelled;
    if ip.Some? {
      PutOwned(veth, NetAddress, ip);
      if gateway.Some? {
        PutOwned(Put(veth, Name(NetAddress), ip), NetGateway, gateway);
      }
    }
  }

  lemma RewriteShape(lines: Conf, net: Net)
    requires CleanOpt(net.bridge) && CleanOpt(net.ip) && CleanOpt(net.gateway)
    ensures net.kind == BridgeNet && net.bridge.Some? ==>
              RewriteNet(lines, net) == Addressed(VethBlock(Cleared(lines), net.bridge.value), net.ip, net.gateway)
    ensures !(net.kind == BridgeNet && net.bridge.Some?) ==>
              RewriteNet(lines, net) == if net.kind == HostNet then Put(Cleared(lines), Name(NetType), Some(Spelled(Shared)))
                                        else Cleared(lines)
  {
    hide Put, Name, Cleared, Trimmed, Spelled;
  }

  lemma BridgedFacts(clear: Conf, net: Net)
    requires Single(clear) && net.kind == BridgeNet && net.bridge.Some?
    requires CleanOpt(net.bridge) && CleanOpt(net.ip) && CleanOpt(net.gateway)
    requires Owned(clear, NetAddress).None? && Owned(clear, NetGateway).None?
    ensures Single(Addressed(VethBlock(clear, net.bridge.value), net.ip, net.gateway))
    ensures forall k: OwnedKey :: Owned(Addressed(VethBlock(clear, net.bridge.value), net.ip, net.gateway), k)
              == if k == MemoryMax || k == CpuMax then Owned(clear, k) else Expected(net, k)
  {
    hide Single, Owned, Name, Clean, VethBlock, Addressed, Spelled;
    VethFacts(clear, net.bridge.value);
    AddressedFacts(VethBlock(clear, net.bridge.value), net.ip, net.gateway);
  }

  lemma RewrittenGateway(lines: Conf, net: Net)
    requires net.kind == BridgeNet && Truthy(net.bridge) && Truthy(net.ip) && Truthy(net.gateway)
    ensures RewriteNet(lines, net)
         == Put(Addressed(VethBlock(Cleared(lines), net.bridge.value), net.ip, None), Name(NetGateway), net.gateway)
  {
    hide Put, Name, Cleared, Spelled;
  }

  lemma PutNew(lines: Conf, k: OwnedKey, v: string)
    requires Owned(lines, k).None?
    ensures Put(lines, Name(k), Some(v)) == lines + [Line(Name(k), v)]
  {
    hide Line, Name;
  }

  /** A gateway is written as the last line. */
  lemma GatewayComesLast(lines: Conf, net: Net)
    requires Single(lines) && net.kind == BridgeNet && net.bridge.Some? && net.ip.Some? && Truthy(net.gateway)
    requires CleanOpt(net.bridge) && CleanOpt(net.ip)
    ensures RewriteNet(lines, net)
         == Addressed(VethBlock(Cleared(lines), net.bridge.value), net.ip, None) + [Line(Name(NetGateway), net.gateway.value)]
  {
    assert !Clean("");
    hide Single, Cleared, Name, Line, Spelled, Clean, RewriteNet, Addressed, VethBlock, Put, Owned;
    ClearedFacts(lines);
    BridgedFacts(Cleared(lines), net.(gateway := None));
    RewrittenGateway(lines, net);
    PutNew(Addressed(VethBlock(Cleared(lines), net.bridge.value), net.ip, None), NetGateway, net.gateway.value);
  }

  /** The rewrite says exactly the identity it was given and leaves the cgroup lines alone. */
  lemma RewriteNetFacts(lines: Conf, net: Net)
    requires Single(lines)
    requires CleanOpt(net.bridge) && CleanOpt(net.ip) && CleanOpt(net.gateway)
    ensures Single(RewriteNet(lines, net))
    ensures forall k: OwnedKey :: Owned(RewriteNet(lines, net), k)
              == if k == MemoryMax || k == CpuMax then Owned(lines, k) else Expected(net, k)
  {
    ClearedFacts(lines);
    RewriteShape(lines, net);
    WordsAreStripped(Shared, Shared);
    hide Single, Owned, Name, Put, Cleared, Strip, Clean, VethBlock, Addressed, RewriteNet, Spelled;
    if net.kind == BridgeNet && net.bridge.Some? {
      BridgedFacts(Cleared(lines), net);
    } else if net.kind == HostNet {
      PutOwned(Cleared(lines), NetType, Some(Spelled(Shared)));
    }
  }

  /** The owned keys in the words of the file. */
  lemma InWords(lines: Conf)
    ensures Owned(lines, NetType) == Lookup(lines, "lxc.net.0.type")
    ensures Owned(lines, NetLink) == Lookup(lines, "lxc.net.0.link")
    ensures Owned(lines, NetFlags) == Lookup(lines, "lxc.net.0.flags")
    ensures Owned(lines, NetAddress) == Lookup(lines, "lxc.net.0.ipv4.address")
    ensures Owned(lines, NetGateway) == Lookup(lines, "lxc.net.0.ipv4.gateway")
    ensures Owned(lines, MemoryMax) == Lookup(lines, "lxc.cgroup2.memory.max")
    ensures Owned(lines, CpuMax) == Lookup(lines, "lxc.cgroup2.cpu.max")
  {
    hide Lookup;
  }

  /** The values of the five network keys that a written identity stands for. */
  predicate StandsFor(net: Net, kind: Option<string>, link: Option<string>, flags: Option<string>, address: Option<string>,
                      gateway: Option<string>) {
    if net.kind == BridgeNet && net.bridge.Some? then
      && kind == Some("veth") && link == net.bridge && flags == Some("up") && address == net.ip
      && gateway == if net.ip.Some? then net.gateway else None
    else
      && kind == (if net.kind == HostNet then Some("none") else None)
      && link.None? && flags.None? && address.None? && gateway.None?
  }

  lemma ExpectedStandsFor(net: Net)
    ensures StandsFor(net, Expected(net, NetType), Expected(net, NetLink), Expected(net, NetFlags), Expected(net, NetAddress), Expected(net, NetGateway))
  {
  }

  /** The rewrite in the words of the file. */
  lemma RewrittenLines(lines: Conf, net: Net)
    requires Single(lines)
    requires CleanOpt(net.bridge) && CleanOpt(net.ip) && CleanOpt(net.gateway)
    ensures var out := RewriteNet(lines, net);
            && StandsFor(net, Lookup(out, "lxc.net.0.type"), Lookup(out, "lxc.net.0.link"), Lookup(out, "lxc.net.0.flags"),
                         Lookup(out, "lxc.net.0.ipv4.address"), Lookup(out, "lxc.net.0.ipv4.gateway"))
            && Lookup(out, "lxc.cgroup2.memory.max") == Lookup(lines, "lxc.cgroup2.memory.max")
            && Lookup(out, "lxc.cgroup2.cpu.max") == Lookup(lines, "lxc.cgroup2.cpu.max")
  {
    hide RewriteNet, Lookup, Single, Owned, Name, Clean, StandsFor, Expected;
    RewriteNetFacts(lines, net);
    ExpectedStandsFor(net);
    InWords(lines);
    InWords(RewriteNet(lines, net));
  }
}
