/** The port-forward grammar of `_network.py`: parsing, rendering and the `kento-port` file. */
module Network {
  import opened Text

  datatype Protocol = TCP | UDP

  datatype HostBinding = HostBinding(protocol: Protocol, hostAddr: Option<string>, hostPort: int)

  datatype GuestTarget = GuestTarget(guestAddr: Option<string>, guestPort: int)

  /** One entry of a forwards dictionary. */
  datatype Forward = Forward(binding: HostBinding, target: GuestTarget)

  datatype Error = Invalid | AddressNotImplemented

  const PORT_MIN := 1
  const PORT_MAX := 65535

  function ProtocolName(p: Protocol): string {
    match p
    case TCP => "tcp"
    case UDP => "udp"
  }

  function LowerChar(c: char): char {
    if 'A' <= c <= 'Z' then c + 32 as char else c
  }

  function Lower(s: string): (r: string)
    ensures |r| == |s|
    ensures forall i | 0 <= i < |s| :: r[i] == LowerChar(s[i])
  {
    seq(|s|, i requires 0 <= i < |s| => LowerChar(s[i]))
  }

  function ProtocolOf(s: string): Option<Protocol> {
    var low := Lower(s);
    if low == "tcp" then Some(TCP) else if low == "udp" then Some(UDP) else None
  }

  // ----- splitting outside brackets -----

  /** The elements of `s` between the colons that lie outside brackets, starting `depth` brackets
      deep; None when the brackets do not balance. */
  function Elements(s: string, depth: nat): (r: Option<seq<string>>)
    ensures r.Some? ==> |r.value| >= 1
  {
    if s == "" then
      if depth == 0 then Some([""]) else None
    else if s[0] == ']' && depth == 0 then None
    else
      var deeper := if s[0] == '[' then depth + 1 else if s[0] == ']' then depth - 1 else depth;
      var rest := Elements(s[1..], deeper);
      if rest.None? then None
      else if s[0] == ':' && depth == 0 then Some([""] + rest.value)
      else Some([[s[0]] + rest.value[0]] + rest.value[1..])
  }

  /** What the elements are once `parts` are complete, `current` is open and `rest` is still to come. */
  function Continue(parts: seq<string>, current: string, rest: Option<seq<string>>): Option<seq<string>>
    requires rest.Some? ==> |rest.value| >= 1
  {
    if rest.None? then None else Some(parts + [current + rest.value[0]] + rest.value[1..])
  }

  lemma ContinueStart(rest: Option<seq<string>>)
    requires rest.Some? ==> |rest.value| >= 1
    ensures Continue([], "", rest) == rest
  {
    if rest.Some? {
      assert "" + rest.value[0] == rest.value[0];
      assert [] + [rest.value[0]] + rest.value[1..] == rest.value;
    }
  }

  lemma ContinueChar(parts: seq<string>, current: string, ch: char, rest: seq<string>)
    requires |rest| >= 1
    ensures Continue(parts, current + [ch], Some(rest))
         == Continue(parts, current, Some([[ch] + rest[0]] + rest[1..]))
  {
    assert (current + [ch]) + rest[0] == current + ([ch] + rest[0]);
    assert ([[ch] + rest[0]] + rest[1..])[1..] == rest[1..];
  }

  lemma ContinuePart(parts: seq<string>, current: string, rest: seq<string>)
    requires |rest| >= 1
    ensures Continue(parts + [current], "", Some(rest)) == Continue(parts, current, Some([""] + rest))
  {
    assert current + "" == current && "" + rest[0] == rest[0];
    assert ([""] + rest)[1..] == rest == [rest[0]] + rest[1..];
    assert parts + [current] + [rest[0]] + rest[1..] == parts + [current] + rest;
  }

  method SplitOutsideBrackets(s: string) returns (r: Result<seq<string>, Error>)
    ensures r == match Elements(s, 0) case Some(es) => Ok(es) case None => Err(Invalid)
  {
    var parts: seq<string> := [];
    var current := "";
    var depth := 0;
    ContinueStart(Elements(s, 0));
    assert s[0..] == s;
    for i := 0 to |s|
      invariant depth >= 0
      invariant Elements(s, 0) == Continue(parts, current, Elements(s[i..], depth))
    {
      var ch := s[i];
      assert s[i..][0] == ch && s[i..][1..] == s[i + 1..];
      ghost var deeper: nat := if ch == '[' then depth + 1 else if ch == ']' && depth > 0 then depth - 1 else depth;
      ghost var rest := Elements(s[i + 1..], deeper);
      if rest.Some? {
        ContinueChar(parts, current, ch, rest.value);
        ContinuePart(parts, current, rest.value);
      }
      if ch == '[' {
        depth := depth + 1;
        current := current + [ch];
      } else if ch == ']' {
        if depth == 0 {
          return Err(Invalid);
        }
        depth := depth - 1;
        current := current + [ch];
      } else if ch == ':' && depth == 0 {
        parts := parts + [current];
        current := "";
      } else {
        current := current + [ch];
      }
    }
    if depth != 0 {
      return Err(Invalid);
    }
    assert s[|s|..] == "" && current + "" == current;
    assert parts + [current] + [""][1..] == parts + [current];
    return Ok(parts + [current]);
  }

  /** No element loses a character: the elements joined by colons are the input again. */
  lemma {:induction false} ElementsJoin(s: string, depth: nat)
    requires Elements(s, depth).Some?
    ensures Join(Elements(s, depth).value, ':') == s
  {
    if s == "" {
    } else {
      var deeper := if s[0] == '[' then depth + 1 else if s[0] == ']' then depth - 1 else depth;
      ElementsJoin(s[1..], deeper);
      var rest := Elements(s[1..], deeper).value;
      if s[0] == ':' && depth == 0 {
        assert ([""] + rest)[1..] == rest;
      } else {
        assert ([[s[0]] + rest[0]] + rest[1..])[1..] == rest[1..];
      }
    }
  }

  lemma {:induction false} ElementsWithoutBrackets(s: string)
    requires '[' !in s && ']' !in s
    ensures Elements(s, 0) == Some(Split(s, ':'))
  {
    if s == "" {
    } else {
      ElementsWithoutBrackets(s[1..]);
    }
  }

  // ----- one spec -----

  predicate PortText(s: string) {
    DropEol(s) != "" && AllDigits(DropEol(s))
  }

  function ParsePort(s: string): Result<int, Error> {
    if !PortText(s) then Err(Invalid)
    else
      var port := Value(DropEol(s));
      if PORT_MIN <= port <= PORT_MAX then Ok(port) else Err(Invalid)
  }

  /** The `/protocol` suffix, split off at the last slash. */
  function PeelProtocol(spec: string): Result<(string, Protocol), Error> {
    var slash := Last(spec, '/');
    if slash < 0 then Ok((spec, TCP))
    else if slash == 0 || slash == |spec| - 1 then Err(Invalid)
    else
      match ProtocolOf(spec[slash + 1..])
      case None => Err(Invalid)
      case Some(p) => Ok((spec[..slash], p))
  }

  function ParseElements(protocol: Protocol, es: seq<string>): Result<Forward, Error> {
    if |es| == 2 then
      var host := ParsePort(es[0]);
      var guest := ParsePort(es[1]);
      if host.Err? || guest.Err? then Err(Invalid)
      else Ok(Forward(HostBinding(protocol, None, host.value), GuestTarget(None, guest.value)))
    else if |es| == 3 then
      if es[0] == "" || ParsePort(es[1]).Err? || ParsePort(es[2]).Err? then Err(Invalid)
      else Err(AddressNotImplemented)
    else if |es| == 4 then
      if es[0] == "" || ParsePort(es[1]).Err? || es[2] == "" || ParsePort(es[3]).Err? then Err(Invalid)
      else Err(AddressNotImplemented)
    else Err(Invalid)
  }

  function ParseForwardSpec(spec: string): Result<Forward, Error> {
    if spec == "" then Err(Invalid)
    else
      match PeelProtocol(spec)
      case Err(e) => Err(e)
      case Ok((body, protocol)) =>
        match Elements(body, 0)
        case None => Err(Invalid)
        case Some(es) => ParseElements(protocol, es)
  }

  function RenderForwardSpec(f: Forward): Result<string, Error> {
    if f.binding.hostAddr.Some? || f.target.guestAddr.Some? then Err(AddressNotImplemented)
    else
      var body := Integer(f.binding.hostPort) + ":" + Integer(f.target.guestPort);
      Ok(if f.binding.protocol == TCP then body else body + "/" + ProtocolName(f.binding.protocol))
  }

  predicate ValidPort(p: int) {
    PORT_MIN <= p <= PORT_MAX
  }

  /** A forward that release 1.0 can hold: no addresses, both ports in range. */
  predicate Plain(f: Forward) {
    f.binding.hostAddr.None? && f.target.guestAddr.None?
    && ValidPort(f.binding.hostPort) && ValidPort(f.target.guestPort)
  }

  predicate AllPlain(fs: seq<Forward>) {
    forall i :: 0 <= i < |fs| ==> Plain(fs[i])
  }

  /** The text of a plain forward. */
  function Rendered(f: Forward): string
    requires Plain(f)
  {
    RenderForwardSpec(f).value
  }

  lemma ParsePortOfDecimal(n: nat)
    ensures ParsePort(Decimal(n)) == if ValidPort(n) then Ok(n) else Err(Invalid)
  {
    var d := Decimal(n);
    assert IsDigit(d[|d| - 1]);
    ValueOfDecimal(n);
  }

  lemma ParsePortOfInteger(n: int)
    ensures ParsePort(Integer(n)) == if ValidPort(n) then Ok(n) else Err(Invalid)
  {
    if n >= 0 {
      ParsePortOfDecimal(n);
    } else {
      assert Integer(n)[0] == '-';
      var d := DropEol(Integer(n));
      assert d != "" ==> d[0] == '-' && !IsDigit(d[0]);
    }
  }

  predicate PortChars(s: string) {
    forall c | c in s :: IsDigit(c) || c == '-'
  }

  lemma IntegerChars(n: int)
    ensures PortChars(Integer(n))
  {
  }

  lemma SplitBody(h: int, g: int)
    ensures var body := Integer(h) + ":" + Integer(g);
            '/' !in body && Elements(body, 0) == Some([Integer(h), Integer(g)])
  {
    var body := Integer(h) + ":" + Integer(g);
    IntegerChars(h);
    IntegerChars(g);
    ElementsWithoutBrackets(body);
    assert body == Integer(h) + [':'] + Integer(g);
    SplitAtSeparator(Integer(h), ':', Integer(g));
    SplitFree(Integer(g), ':');
    assert [Integer(h)] + [Integer(g)] == [Integer(h), Integer(g)];
  }

  lemma PeelRendered(f: Forward)
    requires RenderForwardSpec(f).Ok?
    ensures PeelProtocol(RenderForwardSpec(f).value)
         == Ok((Integer(f.binding.hostPort) + ":" + Integer(f.target.guestPort), f.binding.protocol))
  {
    hide Integer;
    var body := Integer(f.binding.hostPort) + ":" + Integer(f.target.guestPort);
    SplitBody(f.binding.hostPort, f.target.guestPort);
    if f.binding.protocol == UDP {
      LastAt(body, '/', "udp");
      assert body + "/" + "udp" == body + ['/'] + "udp";
      assert (body + "/" + "udp")[|body| + 1..] == "udp";
      assert (body + "/" + "udp")[..|body|] == body;
      assert Lower("udp") == "udp";
    }
  }

  lemma ParseOfParts(spec: string, body: string, protocol: Protocol, es: seq<string>)
    requires spec != "" && PeelProtocol(spec) == Ok((body, protocol)) && Elements(body, 0) == Some(es)
    ensures ParseForwardSpec(spec) == ParseElements(protocol, es)
  {
    hide PeelProtocol, Elements, ParseElements;
  }

  lemma ParsePair(protocol: Protocol, h: int, g: int)
    ensures ParseElements(protocol, [Integer(h), Integer(g)])
         == if ValidPort(h) && ValidPort(g) then Ok(Forward(HostBinding(protocol, None, h), GuestTarget(None, g))) else Err(Invalid)
  {
    hide Integer, ParsePort, ValidPort;
    ParsePortOfInteger(h);
    ParsePortOfInteger(g);
  }

  /** Parsing undoes rendering on exactly the forwards whose ports are in range. */
  lemma ParseAfterRender(f: Forward)
    requires RenderForwardSpec(f).Ok?
    ensures ParseForwardSpec(RenderForwardSpec(f).value)
         == if ValidPort(f.binding.hostPort) && ValidPort(f.target.guestPort) then Ok(f) else Err(Invalid)
    ensures RenderForwardSpec(f).Ok? <==> f.binding.hostAddr.None? && f.target.guestAddr.None?
  {
    var h, g := f.binding.hostPort, f.target.guestPort;
    assert RenderForwardSpec(f).value != "" && f.binding.hostAddr.None? && f.target.guestAddr.None?;
    hide PeelProtocol, Elements, ParseElements, RenderForwardSpec, ParseForwardSpec, Integer, ValidPort;
    PeelRendered(f);
    SplitBody(h, g);
    ParseOfParts(RenderForwardSpec(f).value, Integer(h) + ":" + Integer(g), f.binding.protocol, [Integer(h), Integer(g)]);
    ParsePair(f.binding.protocol, h, g);
  }

  lemma AcceptedIsPlain(spec: string)
    requires ParseForwardSpec(spec).Ok?
    ensures Plain(ParseForwardSpec(spec).value)
  {
    hide PeelProtocol, Elements, PortText, DropEol, Value;
  }

  lemma PlainParses(f: Forward)
    requires Plain(f)
    ensures ParseForwardSpec(Rendered(f)) == Ok(f)
  {
    hide ParseForwardSpec;
    ParseAfterRender(f);
  }

  /** Whatever spelling was accepted (leading zeros, upper-case protocol, an explicit `/tcp`),
      its rendering is accepted again and means the same forward. */
  lemma ParseIsCanonical(spec: string)
    requires ParseForwardSpec(spec).Ok?
    ensures Plain(ParseForwardSpec(spec).value)
    ensures ParseForwardSpec(Rendered(ParseForwardSpec(spec).value)) == ParseForwardSpec(spec)
  {
    hide ParseForwardSpec, Rendered, Plain;
    AcceptedIsPlain(spec);
    PlainParses(ParseForwardSpec(spec).value);
  }

  // ----- the protocol -----

  /** The word in lower case, upper case or any mixture. */
  predicate Spells(s: string, word: string) {
    |s| == |word| && forall i | 0 <= i < |s| :: s[i] == word[i] || ('A' <= s[i] <= 'Z' && s[i] as int + 32 == word[i] as int)
  }

  function WithProtocol(r: Result<Forward, Error>, protocol: Protocol): Result<Forward, Error> {
    match r
    case Err(e) => Err(e)
    case Ok(f) => Ok(Forward(f.binding.(protocol := protocol), f.target))
  }

  lemma ProtocolWords(s: string)
    ensures ProtocolOf(s) == if Spells(s, "tcp") then Some(TCP) else if Spells(s, "udp") then Some(UDP) else None
  {
    assert |s| == 3 ==> (Lower(s) == "tcp" <==> Spells(s, "tcp"));
    assert |s| == 3 ==> (Lower(s) == "udp" <==> Spells(s, "udp"));
  }

  lemma PeeledSuffix(body: string, suffix: string)
    requires '/' !in suffix
    ensures PeelProtocol(body + "/" + suffix)
         == if body == "" || suffix == "" then Err(Invalid)
            else if Spells(suffix, "tcp") then Ok((body, TCP))
            else if Spells(suffix, "udp") then Ok((body, UDP))
            else Err(Invalid)
  {
    var spec := body + "/" + suffix;
    ProtocolWords(suffix);
    LastAt(body, '/', suffix);
    assert spec == body + ['/'] + suffix;
    assert spec[|body| + 1..] == suffix && spec[..|body|] == body;
    hide ProtocolOf, Spells;
  }

  lemma PeeledNone(spec: string)
    requires '/' !in spec
    ensures PeelProtocol(spec) == Ok((spec, TCP))
  {
  }

  lemma ElementsWithProtocol(es: seq<string>, p: Protocol, q: Protocol)
    ensures ParseElements(q, es) == WithProtocol(ParseElements(p, es), q)
    ensures ParseElements(p, es).Ok? ==> ParseElements(p, es).value.binding.protocol == p
    ensures ParseElements(p, es).Ok? ==> |es| == 2 && PortText(es[0]) && PortText(es[1])
  {
    hide PortText, DropEol, Value;
  }

  lemma PortHasNoSlash(s: string)
    requires PortText(s)
    ensures '/' !in s
  {
    var t := DropEol(s);
    assert forall i | 0 <= i < |s| :: i < |t| || s[i] == '\n';
    assert forall i | 0 <= i < |t| :: s[i] == t[i];
  }

  lemma PairHasNoSlash(body: string, es: seq<string>)
    requires Elements(body, 0) == Some(es) && |es| == 2 && PortText(es[0]) && PortText(es[1])
    ensures '/' !in body
  {
    PortHasNoSlash(es[0]);
    PortHasNoSlash(es[1]);
    hide PortText, Elements;
    ElementsJoin(body, 0);
    assert Join(es, ':') == es[0] + [':'] + es[1] by { assert es[1..] == [es[1]]; }
  }

  lemma OneWord(s: string)
    ensures Spells(s, "tcp") ==> s != "" && !Spells(s, "udp")
    ensures Spells(s, "udp") ==> s != ""
  {
    if Spells(s, "tcp") {
      assert s[0] == 't' || s[0] == 'T';
    }
  }

  /** What is parsed once the protocol is off. */
  function ParsedBody(body: string, protocol: Protocol): Result<Forward, Error> {
    match Elements(body, 0)
    case None => Err(Invalid)
    case Some(es) => ParseElements(protocol, es)
  }

  lemma ParsedPeeled(spec: string)
    requires spec != ""
    ensures ParseForwardSpec(spec)
         == match PeelProtocol(spec) case Err(e) => Err(e) case Ok((body, protocol)) => ParsedBody(body, protocol)
  {
    hide PeelProtocol, Elements, ParseElements;
  }

  lemma BodyFacts(body: string)
    ensures ParsedBody(body, UDP) == WithProtocol(ParsedBody(body, TCP), UDP)
    ensures ParsedBody(body, TCP).Ok? ==> ParsedBody(body, TCP).value.binding.protocol == TCP
    ensures ParsedBody(body, TCP).Ok? || ParsedBody(body, UDP).Ok? ==> '/' !in body
  {
    hide ParseElements, Elements, PortText;
    if Elements(body, 0).Some? {
      var es := Elements(body, 0).value;
      ElementsWithProtocol(es, TCP, UDP);
      ElementsWithProtocol(es, UDP, TCP);
      if |es| == 2 && PortText(es[0]) && PortText(es[1]) {
        PairHasNoSlash(body, es);
      }
    }
  }

  /** What follows the last slash, and nothing else, decides the protocol of a spec: `tcp` and `udp` in any letter
      case are allowed there, no slash means TCP, and everything else is refused. */
  lemma SuffixDecides(body: string, suffix: string)
    requires '/' !in suffix
    ensures body != "" && '/' !in body && Spells(suffix, "tcp") ==> ParseForwardSpec(body + "/" + suffix) == ParseForwardSpec(body)
    ensures body != "" && '/' !in body && Spells(suffix, "udp") ==>
              ParseForwardSpec(body + "/" + suffix) == WithProtocol(ParseForwardSpec(body), UDP)
    ensures body == "" || '/' in body || !(Spells(suffix, "tcp") || Spells(suffix, "udp")) ==>
              ParseForwardSpec(body + "/" + suffix).Err?
    ensures '/' !in body && ParseForwardSpec(body).Ok? ==> ParseForwardSpec(body).value.binding.protocol == TCP
  {
    PeeledSuffix(body, suffix);
    ParsedPeeled(body + "/" + suffix);
    BodyFacts(body);
    OneWord(suffix);
    hide Spells;
    if body == "" {
      assert ParseForwardSpec("").Err?;
    } else {
      ParsedPeeled(body);
      if '/' !in body { PeeledNone(body); }
    }
    hide PeelProtocol, ParsedBody, WithProtocol, ParseForwardSpec;
  }

  // ----- the ports -----

  /** A decimal port number in range. */
  predicate IsPort(s: string) {
    s != "" && AllDigits(s) && 1 <= Value(s) <= 65535
  }

  lemma DigitsAsPort(s: string)
    requires AllDigits(s)
    ensures ParsePort(s) == if IsPort(s) then Ok(Value(s)) else Err(Invalid)
  {
    assert DropEol(s) == s;
  }

  lemma DigitPair(a: string, b: string)
    requires AllDigits(a) && AllDigits(b)
    ensures Elements(a + ":" + b, 0) == Some([a, b]) && '/' !in a + ":" + b
  {
    assert forall c | c in a || c in b :: IsDigit(c);
    ElementsWithoutBrackets(a + ":" + b);
    assert a + ":" + b == a + [':'] + b;
    SplitAtSeparator(a, ':', b);
    SplitFree(b, ':');
    assert [a] + [b] == [a, b];
  }

  /** Two numbers around a colon: the first is the host's port and the second the guest's, and they are accepted
      exactly when both are in range. Leading zeros do not matter. */
  lemma HostPortFirst(a: string, b: string)
    requires AllDigits(a) && AllDigits(b)
    ensures ParseForwardSpec(a + ":" + b)
         == if IsPort(a) && IsPort(b) then Ok(Forward(HostBinding(TCP, None, Value(a)), GuestTarget(None, Value(b)))) else Err(Invalid)
  {
    DigitPair(a, b);
    DigitsAsPort(a);
    DigitsAsPort(b);
    hide Elements, ParsePort, IsPort;
    PeeledNone(a + ":" + b);
    ParseOfParts(a + ":" + b, a + ":" + b, TCP, [a, b]);
  }

  /** No other shape is accepted: what stands before the protocol is two port texts around a colon. */
  lemma OnlyPortPairs(spec: string)
    requires '/' !in spec && ParseForwardSpec(spec).Ok?
    ensures exists a, b :: spec == a + ":" + b && PortText(a) && PortText(b)
  {
    PeeledNone(spec);
    ParsedPeeled(spec);
    hide PortText, Elements, ParseForwardSpec, PeelProtocol;
    var es := Elements(spec, 0).value;
    ElementsWithProtocol(es, TCP, TCP);
    ElementsJoin(spec, 0);
    assert Join(es, ':') == es[0] + ":" + es[1] by { assert es[1..] == [es[1]]; }
  }

  // ----- the whole set -----

  /** A dictionary in insertion order: no binding twice. */
  predicate Distinct(fs: seq<Forward>) {
    forall i, j :: 0 <= i < j < |fs| ==> fs[i].binding != fs[j].binding
  }

  predicate Bound(fs: seq<Forward>, b: HostBinding) {
    exists i :: 0 <= i < |fs| && fs[i].binding == b
  }

  /** `parse_forwards`: each spec in turn, refusing a binding seen before. */
  function ParseAll(specs: seq<string>, done: seq<Forward>): Result<seq<Forward>, Error>
    decreases |specs|
  {
    if specs == [] then Ok(done)
    else
      match ParseForwardSpec(specs[0])
      case Err(e) => Err(e)
      case Ok(f) => if Bound(done, f.binding) then Err(Invalid) else ParseAll(specs[1..], done + [f])
  }

  method ParseForwards(specs: seq<string>) returns (r: Result<seq<Forward>, Error>)
    ensures r == ParseAll(specs, [])
  {
    var forwards: seq<Forward> := [];
    for i := 0 to |specs|
      invariant ParseAll(specs, []) == ParseAll(specs[i..], forwards)
    {
      assert specs[i..][1..] == specs[i + 1..];
      var parsed := ParseForwardSpec(specs[i]);
      if parsed.Err? {
        return Err(parsed.error);
      }
      if Bound(forwards, parsed.value.binding) {
        return Err(Invalid);
      }
      forwards := forwards + [parsed.value];
    }
    return Ok(forwards);
  }

  lemma DistinctAppend(done: seq<Forward>, f: Forward)
    requires Distinct(done) && !Bound(done, f.binding)
    ensures Distinct(done + [f])
  {
  }

  lemma DistinctNext(done: seq<Forward>, fs: seq<Forward>)
    requires fs != [] && Distinct(done + fs)
    ensures done + fs == (done + [fs[0]]) + fs[1..]
    ensures !Bound(done, fs[0].binding)
  {
    var all := done + fs;
    assert all[|done|] == fs[0];
    assert forall i | 0 <= i < |done| :: all[i] == done[i];
  }

  lemma {:induction false} ParseAllSound(specs: seq<string>, done: seq<Forward>, fs: seq<Forward>)
    requires Distinct(done) && AllPlain(done)
    requires ParseAll(specs, done) == Ok(fs)
    ensures Distinct(fs) && AllPlain(fs)
    decreases |specs|
  {
    hide ParseForwardSpec, Distinct, Bound, Plain;
    if specs == [] {
    } else {
      ParseIsCanonical(specs[0]);
      var f := ParseForwardSpec(specs[0]).value;
      DistinctAppend(done, f);
      ParseAllSound(specs[1..], done + [f], fs);
    }
  }

  function RenderAll(fs: seq<Forward>): (r: seq<string>)
    requires AllPlain(fs)
    ensures |r| == |fs|
    ensures forall i | 0 <= i < |fs| :: r[i] == Rendered(fs[i])
  {
    seq(|fs|, i requires 0 <= i < |fs| => Rendered(fs[i]))
  }

  lemma RenderAllTail(fs: seq<Forward>)
    requires fs != [] && AllPlain(fs)
    ensures AllPlain(fs[1..]) && RenderAll(fs) == [Rendered(fs[0])] + RenderAll(fs[1..])
  {
    hide Rendered, Plain;
  }

  lemma {:induction false} ParseAllRendered(fs: seq<Forward>, done: seq<Forward>)
    requires AllPlain(fs)
    requires Distinct(done + fs)
    ensures ParseAll(RenderAll(fs), done) == Ok(done + fs)
    decreases |fs|
  {
    if fs == [] {
      assert done + fs == done;
    } else {
      assert Plain(fs[0]);
      RenderAllTail(fs);
      hide ParseForwardSpec, Rendered, Plain;
      PlainParses(fs[0]);
      DistinctNext(done, fs);
      hide Distinct, Bound, AllPlain, RenderAll;
      ParseAllRendered(fs[1..], done + [fs[0]]);
    }
  }

  /** A whole set renders to specs that parse to the same set, and every set that parses is such a set. */
  lemma RenderedSetParses(fs: seq<Forward>)
    requires AllPlain(fs)
    ensures ParseAll(RenderAll(fs), []) == Ok(fs) <==> Distinct(fs)
  {
    if Distinct(fs) {
      assert [] + fs == fs;
      ParseAllRendered(fs, []);
    } else if ParseAll(RenderAll(fs), []).Ok? {
      ParseAllSound(RenderAll(fs), [], ParseAll(RenderAll(fs), []).value);
    }
  }

  lemma {:induction false} ParseAllNeedsEach(specs: seq<string>, done: seq<Forward>, i: nat)
    requires i < |specs| && ParseForwardSpec(specs[i]).Err?
    ensures ParseAll(specs, done).Err?
    decreases |specs|
  {
    hide ParseForwardSpec, Bound;
    if i > 0 && ParseForwardSpec(specs[0]).Ok? {
      ParseAllNeedsEach(specs[1..], done + [ParseForwardSpec(specs[0]).value], i - 1);
    }
  }

  /** The specs of a dictionary of forwards parse exactly when every forward is plain. */
  lemma SpecsParse(fs: seq<Forward>, specs: seq<string>)
    requires Distinct(fs) && |specs| == |fs|
    requires forall i | 0 <= i < |fs| :: RenderForwardSpec(fs[i]).Ok? && specs[i] == RenderForwardSpec(fs[i]).value
    ensures ParseAll(specs, []) == Ok(fs) || (ParseAll(specs, []).Err? && !AllPlain(fs))
    ensures ParseAll(specs, []).Ok? ==> AllPlain(fs)
  {
    if AllPlain(fs) {
      assert specs == RenderAll(fs);
      RenderedSetParses(fs);
    } else {
      var i :| 0 <= i < |fs| && !Plain(fs[i]);
      ParseAfterRender(fs[i]);
      ParseAllNeedsEach(specs, [], i);
    }
  }

  // ----- the kento-port file -----

  /** Assigning into a dictionary keeps the place of a key that is already there. */
  function Assign(fs: seq<Forward>, f: Forward): seq<Forward> {
    if fs == [] then [f]
    else if fs[0].binding == f.binding then [f] + fs[1..]
    else [fs[0]] + Assign(fs[1..], f)
  }

  function LoadLines(lines: seq<string>, done: seq<Forward>): seq<Forward>
    decreases |lines|
  {
    if lines == [] then done
    else
      var spec := Strip(lines[0]);
      var parsed := ParseForwardSpec(spec);
      LoadLines(lines[1..], if spec == "" || parsed.Err? then done else Assign(done, parsed.value))
  }

  /** `_load_forwards` on the file's text; None is an absent file. */
  function LoadForwards(file: Option<string>): seq<Forward> {
    match file
    case None => []
    case Some(text) => LoadLines(Lines(Strip(text)), [])
  }

  method ReadForwards(file: Option<string>) returns (forwards: seq<Forward>)
    ensures forwards == LoadForwards(file)
  {
    if file.None? {
      return [];
    }
    forwards := [];
    var lines := Lines(Strip(file.value));
    for i := 0 to |lines|
      invariant LoadLines(lines, []) == LoadLines(lines[i..], forwards)
    {
      assert lines[i..][1..] == lines[i + 1..];
      var spec := Strip(lines[i]);
      var parsed := ParseForwardSpec(spec);
      if spec != "" && parsed.Ok? {
        forwards := Assign(forwards, parsed.value);
      }
    }
  }

  lemma {:induction false} AssignNew(fs: seq<Forward>, f: Forward)
    requires !Bound(fs, f.binding)
    ensures Assign(fs, f) == fs + [f]
  {
    if fs == [] {
    } else {
      assert fs[0].binding != f.binding;
      forall i | 0 <= i < |fs[1..]| ensures fs[1..][i].binding != f.binding {
        assert fs[1..][i] == fs[i + 1];
      }
      AssignNew(fs[1..], f);
    }
  }

  lemma RenderedText(f: Forward)
    requires Plain(f)
    ensures var s := Rendered(f); s != "" && Trimmed(s) && '\n' !in s
  {
    var h, g := Integer(f.binding.hostPort), Integer(f.target.guestPort);
    IntegerChars(f.binding.hostPort);
    IntegerChars(f.target.guestPort);
    var s := Rendered(f);
    assert s[0] == h[0] && h[0] in h;
    if f.binding.protocol == TCP {
      assert s[|s| - 1] == g[|g| - 1] && g[|g| - 1] in g;
    } else {
      assert s == h + ":" + g + "/udp";
    }
  }

  lemma LoadStep(lines: seq<string>, done: seq<Forward>, f: Forward)
    requires lines != [] && lines[0] != "" && Strip(lines[0]) == lines[0] && ParseForwardSpec(lines[0]) == Ok(f)
    ensures LoadLines(lines, done) == LoadLines(lines[1..], Assign(done, f))
  {
    hide ParseForwardSpec, Strip, Assign;
  }

  lemma RenderedReads(f: Forward)
    requires Plain(f)
    ensures var s := Rendered(f); s != "" && Strip(s) == s && ParseForwardSpec(s) == Ok(f)
  {
    hide ParseForwardSpec, Strip;
    PlainParses(f);
    RenderedText(f);
    StripOfTrimmed(Rendered(f));
  }

  /** One rendered line adds its forward. */
  lemma LoadOne(fs: seq<Forward>, done: seq<Forward>)
    requires fs != [] && AllPlain(fs) && !Bound(done, fs[0].binding)
    ensures LoadLines(RenderAll(fs), done) == LoadLines(RenderAll(fs[1..]), done + [fs[0]])
  {
    assert Plain(fs[0]);
    RenderAllTail(fs);
    hide RenderAll, ParseForwardSpec, LoadLines, Strip, Assign, Bound, Rendered, Plain, AllPlain;
    RenderedReads(fs[0]);
    AssignNew(done, fs[0]);
    LoadStep(RenderAll(fs), done, fs[0]);
  }

  lemma {:induction false} LoadRendered(fs: seq<Forward>, done: seq<Forward>)
    requires AllPlain(fs) && Distinct(done + fs)
    ensures LoadLines(RenderAll(fs), done) == done + fs
    decreases |fs|
  {
    if fs == [] {
      assert done + fs == done;
    } else {
      DistinctNext(done, fs);
      LoadOne(fs, done);
      hide ParseForwardSpec, RenderForwardSpec, Strip, Assign, Distinct, Bound, Rendered;
      LoadRendered(fs[1..], done + [fs[0]]);
    }
  }

  /** The set written to `kento-port` is the set loaded from it. */
  lemma PersistedSetLoads(fs: seq<Forward>)
    requires Distinct(fs)
    requires AllPlain(fs)
    ensures LoadForwards(Some(Unlines(RenderAll(fs)))) == fs
  {
    hide ParseForwardSpec, RenderForwardSpec, Strip, LoadLines;
    forall l | l in RenderAll(fs) ensures '\n' !in l && l != "" && Trimmed(l) {
      var i :| 0 <= i < |fs| && RenderAll(fs)[i] == l;
      RenderedText(fs[i]);
    }
    LinesOfStrippedUnlines(RenderAll(fs));
    assert [] + fs == fs;
    LoadRendered(fs, []);
  }
}
