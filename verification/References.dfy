/** OCI image references (`_references.py`): parse, render, normalize. */
module References {
  import opened Text
  import opened RefGrammar
  import Network

  datatype Error = Malformed

  datatype Endpoint = Endpoint(host: string, port: Option<nat>, username: Option<string>, password: Option<string>)

  datatype Digest = Digest(algorithm: string, encoded: string)

  datatype OciRef = OciRef(endpoint: Option<Endpoint>, path: string, name: string, version: Option<string>,
                           digest: Option<Digest>)

  // ----- render -----

  const MASK := "****"

  function HostPort(e: Endpoint): string {
    if e.port.None? then e.host else e.host + ":" + Decimal(e.port.value)
  }

  function UserInfo(e: Endpoint): string {
    if e.username.None? then ""
    else if e.password.None? then e.username.value + "@"
    else e.username.value + ":" + MASK + "@"
  }

  /** `Endpoint.render`, password masked. */
  function RenderEndpoint(e: Endpoint): string {
    UserInfo(e) + HostPort(e)
  }

  function Pathname(path: string, name: string): string {
    if path == "" then name else path + "/" + name
  }

  /** `_render_name_production`. */
  function NameText(endpoint: Option<Endpoint>, path: string, name: string): string {
    (if endpoint.None? then "" else RenderEndpoint(endpoint.value) + "/") + Pathname(path, name)
  }

  function TagText(version: Option<string>): string {
    if version.None? then "" else ":" + version.value
  }

  function DigestText(d: Digest): string {
    d.algorithm + ":" + d.encoded
  }

  function PinText(digest: Option<Digest>): string {
    if digest.None? then "" else "@" + DigestText(digest.value)
  }

  /** `OciReference.render`. */
  function Render(r: OciRef): string {
    NameText(r.endpoint, r.path, r.name) + TagText(r.version) + PinText(r.digest)
  }

  // ----- what construction checks -----

  predicate ValidDigest(d: Digest) {
    && ValidAlgorithm(d.algorithm) && ValidEncoded(d.encoded)
    && (FixedLength(d.algorithm).Some? ==> |d.encoded| == FixedLength(d.algorithm).value)
  }

  /** The components of the repository. */
  function RepoParts(path: string, name: string): seq<string> {
    (if path == "" then [] else Split(path, '/')) + [name]
  }

  const NAME_MAX := 255

  /** `_validate_name_production`. */
  predicate ValidName(endpoint: Option<Endpoint>, path: string, name: string) {
    && (forall p | p in RepoParts(path, name) :: ValidComponent(p))
    && |NameText(endpoint, path, name)| <= NAME_MAX
    && !(endpoint.None? && path == "" && Identifier(name))
  }

  /** The references that can be constructed. */
  predicate Valid(r: OciRef) {
    && ValidName(r.endpoint, r.path, r.name)
    && (r.endpoint.Some? ==> ValidHost(r.endpoint.value.host))
    && (r.version.Some? ==> ValidTag(r.version.value))
    && (r.digest.Some? ==> ValidDigest(r.digest.value))
  }

  // ----- parse -----

  /** `Digest.parse`. */
  function ParseDigest(s: string): Result<Digest, Error> {
    var i := First(s, ':');
    if i == |s| then Err(Malformed)
    else
      var d := Digest(s[..i], s[i + 1..]);
      if ValidDigest(d) then Ok(d) else Err(Malformed)
  }

  function ParsePortText(s: string): Result<nat, Error> {
    if Network.PortText(s) then Ok(Value(DropEol(s))) else Err(Malformed)
  }

  function MakeEndpoint(host: string, port: Option<string>): Result<Endpoint, Error> {
    if port.Some? && ParsePortText(port.value).Err? then Err(Malformed)
    else if !ValidHost(host) then Err(Malformed)
    else Ok(Endpoint(host, if port.None? then None else Some(ParsePortText(port.value).value), None, None))
  }

  /** `[IPv6]` with an optional port. */
  function ParseBracket(domain: string): Result<Endpoint, Error> {
    var i := First(domain, ']');
    if i == |domain| then Err(Malformed)
    else
      var rest := domain[i + 1..];
      if rest == "" then MakeEndpoint(domain[..i + 1], None)
      else if rest[0] != ':' then Err(Malformed)
      else MakeEndpoint(domain[..i + 1], Some(rest[1..]))
  }

  function ParsePlain(domain: string): Result<Endpoint, Error> {
    var i := Last(domain, ':');
    if i < 0 then MakeEndpoint(domain, None) else MakeEndpoint(domain[..i], Some(domain[i + 1..]))
  }

  /** `_parse_endpoint`. */
  function ParseEndpoint(domain: string): Result<Endpoint, Error> {
    if domain != "" && domain[0] == '[' then ParseBracket(domain) else ParsePlain(domain)
  }

  function FromRepo(endpoint: Option<Endpoint>, repo: seq<string>): Result<OciRef, Error> {
    if repo == [] || "" in repo then Err(Malformed)
    else
      var path, name := Join(repo[..|repo| - 1], '/'), repo[|repo| - 1];
      if ValidName(endpoint, path, name) then Ok(OciRef(endpoint, path, name, None, None)) else Err(Malformed)
  }

  /** `_parse_name`, as a reference without tag and digest. */
  function ParseName(s: string): Result<OciRef, Error> {
    var parts := Split(s, '/');
    if |parts| > 1 && LooksLikeDomain(parts[0]) then
      match ParseEndpoint(parts[0])
      case Err(e) => Err(e)
      case Ok(e) => FromRepo(Some(e), parts[1..])
    else FromRepo(None, parts)
  }

  /** `s.find(":", from)`, or `|s|` when there is none. */
  function ColonFrom(s: string, from: nat): (i: nat)
    requires from <= |s|
    ensures i <= |s| && (i < |s| ==> s[i] == ':')
  {
    var rest := s[from..];
    var j := First(rest, ':');
    assert j < |rest| ==> rest[j] == s[from + j];
    from + j
  }

  /** Where the tag colon is: the first one after the last slash. */
  function TagColon(s: string): (i: nat)
    ensures i <= |s| && (i < |s| ==> s[i] == ':')
  {
    ColonFrom(s, Last(s, '/') + 1)
  }

  /** Name and tag. */
  function ParseTagged(s: string): Result<OciRef, Error> {
    var i := TagColon(s);
    if i == |s| then (if s == "" then Err(Malformed) else ParseName(s))
    else if i + 1 == |s| || !ValidTag(s[i + 1..]) || i == 0 then Err(Malformed)
    else
      match ParseName(s[..i])
      case Err(e) => Err(e)
      case Ok(r) => Ok(r.(version := Some(s[i + 1..])))
  }

  /** `OciReference.parse`. */
  function Parse(s: string): Result<OciRef, Error> {
    var i := Last(s, '@');
    if s == "" then Err(Malformed)
    else if i < 0 then ParseTagged(s)
    else if i + 1 == |s| || i == 0 then Err(Malformed)
    else
      match ParseDigest(s[i + 1..])
      case Err(e) => Err(e)
      case Ok(d) =>
        match ParseTagged(s[..i])
        case Err(e) => Err(e)
        case Ok(r) => Ok(r.(digest := Some(d)))
  }

  // ----- digests -----

  lemma DigestNoMarks(d: Digest)
    requires ValidDigest(d)
    ensures '/' !in DigestText(d) && '@' !in DigestText(d) && DigestText(d) != ""
    ensures ParseDigest(DigestText(d)) == Ok(d)
  {
    AlgorithmNoMarks(d.algorithm);
    EncodedNoMarks(d.encoded);
    hide ValidAlgorithm, ValidEncoded, FixedLength;
    var s := DigestText(d);
    assert s == d.algorithm + [':'] + d.encoded;
    FirstAt(d.algorithm, ':', d.encoded);
    assert s[..|d.algorithm|] == d.algorithm && s[|d.algorithm| + 1..] == d.encoded;
  }

  // ----- endpoints -----

  /** A bracketed host that ends in a newline: constructible, but no string parses to it. */
  predicate BrokenBracket(host: string) {
    host != "" && host[0] == '[' && DropEol(host) != host
  }

  lemma PortReadsBack(port: nat)
    ensures ParsePortText(Decimal(port)) == Ok(port) && ':' !in Decimal(port) && '/' !in Decimal(port) && '@' !in Decimal(port)
  {
    ValueOfDecimal(port);
    var s := Decimal(port);
    assert forall i | 0 <= i < |s| :: IsDigit(s[i]);
  }

  lemma MadeEndpoint(host: string, port: Option<nat>)
    requires ValidHost(host)
    ensures MakeEndpoint(host, if port.None? then None else Some(Decimal(port.value))) == Ok(Endpoint(host, port, None, None))
  {
    if port.Some? { PortReadsBack(port.value); }
    hide ValidHost, ParsePortText;
  }

  lemma BracketedDomain(t: string, rest: string)
    requires |t| > 1 && t[0] == '[' && t[|t| - 1] == ']' && ']' !in t[..|t| - 1]
    ensures ParseEndpoint(t + rest)
         == if rest == "" then MakeEndpoint(t, None)
            else if rest[0] != ':' then Err(Malformed)
            else MakeEndpoint(t, Some(rest[1..]))
  {
    hide MakeEndpoint;
    var n := |t| - 1;
    assert t + rest == t[..n] + [']'] + rest;
    FirstAt(t[..n], ']', rest);
    assert (t + rest)[..n + 1] == t && (t + rest)[n + 1..] == rest;
  }

  lemma BracketShape(host: string)
    requires ValidHost(host) && host != "" && host[0] == '['
    ensures var t := DropEol(host);
            && |t| > 1 && t[0] == '[' && t[|t| - 1] == ']' && ']' !in t[..|t| - 1]
            && (if BrokenBracket(host) then host == t + "\n" else host == t)
  {
    HostMarks(host);
  }

  lemma BracketReadsBack(host: string, port: Option<nat>, domain: string)
    requires ValidHost(host) && host != "" && host[0] == '[' && domain == HostPort(Endpoint(host, port, None, None))
    ensures ParseEndpoint(domain)
         == if BrokenBracket(host) then Err(Malformed) else Ok(Endpoint(host, port, None, None))
  {
    hide ValidHost, MakeEndpoint, ParseEndpoint, BrokenBracket, DropEol, Decimal;
    BracketShape(host);
    MadeEndpoint(host, port);
    var t := DropEol(host);
    var tail := if port.None? then "" else ":" + Decimal(port.value);
    assert domain == host + tail;
    if BrokenBracket(host) {
      assert domain == t + ("\n" + tail);
      BracketedDomain(t, "\n" + tail);
    } else {
      BracketedDomain(host, tail);
      assert port.Some? ==> tail[1..] == Decimal(port.value);
    }
  }

  lemma EndpointReadsBack(host: string, port: Option<nat>)
    requires ValidHost(host)
    ensures ParseEndpoint(HostPort(Endpoint(host, port, None, None)))
         == if BrokenBracket(host) then Err(Malformed) else Ok(Endpoint(host, port, None, None))
  {
    HostMarks(host);
    if host[0] == '[' {
      BracketReadsBack(host, port, HostPort(Endpoint(host, port, None, None)));
    } else {
      MadeEndpoint(host, port);
      hide ValidHost, Bracketed, MakeEndpoint;
      if port.Some? {
        PortReadsBack(port.value);
        var domain := HostPort(Endpoint(host, port, None, None));
        assert domain == host + [':'] + Decimal(port.value);
        LastAt(host, ':', Decimal(port.value));
        assert domain[..|host|] == host && domain[|host| + 1..] == Decimal(port.value);
      }
    }
  }

  lemma HostPortMarks(e: Endpoint)
    requires ValidHost(e.host)
    ensures '/' !in HostPort(e) && '@' !in HostPort(e) && HostPort(e) != ""
  {
    HostMarks(e.host);
    if e.port.Some? { PortReadsBack(e.port.value); }
    hide ValidHost, ParsePortText;
  }

  lemma MadeEndpointFacts(host: string, port: Option<string>)
    requires MakeEndpoint(host, port).Ok?
    ensures var e := MakeEndpoint(host, port).value;
            e.host == host && ValidHost(host) && e.username.None? && e.password.None? && (e.port.None? <==> port.None?)
    ensures host != "" && (host[0] == '[' <==> Bracketed(DropEol(host)))
  {
    hide ValidHost, ParsePortText;
    HostMarks(host);
  }

  /** An endpoint as the parser returns it. */
  predicate ParsedForm(e: Endpoint) {
    ValidHost(e.host) && e.username.None? && e.password.None? && !BrokenBracket(e.host)
  }

  lemma PlainDomain(domain: string)
    requires ParsePlain(domain).Ok? && (domain != "" ==> domain[0] != '[')
    ensures ParsedForm(ParsePlain(domain).value)
    ensures ParsePlain(domain).value.port.None? ==> ParsePlain(domain).value.host == domain
  {
    hide ValidHost, MakeEndpoint, Bracketed, DropEol;
    var i := Last(domain, ':');
    if i < 0 {
      MadeEndpointFacts(domain, None);
    } else {
      MadeEndpointFacts(domain[..i], Some(domain[i + 1..]));
      assert domain[..i][0] == domain[0];
    }
  }

  lemma ParsedEndpoint(domain: string)
    requires ParseEndpoint(domain).Ok?
    ensures ParsedForm(ParseEndpoint(domain).value)
    ensures ParseEndpoint(domain).value.port.None? ==> ParseEndpoint(domain).value.host == domain
  {
    hide ValidHost, MakeEndpoint, Bracketed;
    if domain != "" && domain[0] == '[' {
      var i := First(domain, ']');
      var host, rest := domain[..i + 1], domain[i + 1..];
      assert host[i] == ']' && DropEol(host) == host;
      if rest == "" {
        MadeEndpointFacts(host, None);
        assert domain == host;
      } else {
        MadeEndpointFacts(host, Some(rest[1..]));
      }
    } else {
      PlainDomain(domain);
    }
  }

  // ----- names -----

  lemma {:induction false} RepoSplit(path: string, name: string)
    requires '/' !in name
    ensures Split(Pathname(path, name), '/') == RepoParts(path, name)
  {
    if path == "" {
      SplitFree(name, '/');
    } else {
      SplitConcat(path, '/', name);
      SplitFree(name, '/');
      assert Pathname(path, name) == path + ['/'] + name;
    }
  }

  lemma RepoReadsBack(endpoint: Option<Endpoint>, path: string, name: string)
    requires ValidName(endpoint, path, name)
    ensures FromRepo(endpoint, RepoParts(path, name)) == Ok(OciRef(endpoint, path, name, None, None))
  {
    var repo := RepoParts(path, name);
    forall p | p in repo ensures p != "" {
      ComponentNoMarks(p);
    }
    hide ValidComponent, Identifier, NameText;
    JoinOfSplit(path, '/');
    assert repo[..|repo| - 1] == if path == "" then [] else Split(path, '/');
  }

  lemma QualifiedEndpoint(parts: seq<string>)
    requires parts != [] && ParseEndpoint(parts[0]).Ok?
    ensures var r := FromRepo(Some(ParseEndpoint(parts[0]).value), parts[1..]); r.Ok? ==> r.value.endpoint.Some?
  {
    hide ParseEndpoint, ValidName, Join;
  }

  lemma NameIsPlain(endpoint: Option<Endpoint>, path: string, name: string)
    requires ValidName(endpoint, path, name)
    ensures '/' !in name && ':' !in name && '@' !in name && name != ""
  {
    assert name in RepoParts(path, name);
    ComponentNoMarks(name);
  }

  /** The first component decides where the text of a repository is read as a domain. */
  lemma NameReadsBack(path: string, name: string)
    requires ValidName(None, path, name)
    ensures path == "" || !LooksLikeDomain(Split(path, '/')[0])
        <==> ParseName(NameText(None, path, name)) == Ok(OciRef(None, path, name, None, None))
  {
    assert NameText(None, path, name) == Pathname(path, name);
    hide ValidName, LooksLikeDomain, ValidComponent, ParseEndpoint, NameText, Pathname, FromRepo, Split;
    NameIsPlain(None, path, name);
    RepoSplit(path, name);
    RepoReadsBack(None, path, name);
    if path != "" {
      assert RepoParts(path, name)[0] == Split(path, '/')[0];
      if ParseEndpoint(RepoParts(path, name)[0]).Ok? {
        QualifiedEndpoint(RepoParts(path, name));
      }
    }
  }

  lemma QualifiedSplit(domain: string, path: string, name: string)
    requires '/' !in domain && '/' !in name
    ensures ParseName(domain + ['/'] + Pathname(path, name))
         == if LooksLikeDomain(domain) then
              match ParseEndpoint(domain)
              case Err(e) => Err(e)
              case Ok(e) => FromRepo(Some(e), RepoParts(path, name))
            else FromRepo(None, [domain] + RepoParts(path, name))
  {
    hide LooksLikeDomain, ParseEndpoint, FromRepo;
    RepoSplit(path, name);
    SplitAtSeparator(domain, '/', Pathname(path, name));
    assert ([domain] + RepoParts(path, name))[1..] == RepoParts(path, name);
  }

  /** What assembling the components keeps. */
  lemma AssembledEndpoint(endpoint: Option<Endpoint>, repo: seq<string>)
    requires FromRepo(endpoint, repo).Ok?
    ensures FromRepo(endpoint, repo).value.endpoint == endpoint
  {
    hide ValidName, Join;
  }

  lemma QualifiedReadsBack(e: Endpoint, path: string, name: string)
    requires ValidName(Some(e), path, name) && ValidHost(e.host) && e.username.None? && e.password.None?
    ensures ParseName(NameText(Some(e), path, name)) == Ok(OciRef(Some(e), path, name, None, None))
       <==> LooksLikeDomain(HostPort(e)) && !BrokenBracket(e.host)
  {
    var domain := HostPort(e);
    assert NameText(Some(e), path, name) == domain + ['/'] + Pathname(path, name) by {
      hide HostPort, Pathname;
    }
    hide ValidName, LooksLikeDomain, ParseEndpoint, ValidHost, ParseName, HostPort, NameText, FromRepo, RepoParts, BrokenBracket;
    NameIsPlain(Some(e), path, name);
    HostPortMarks(e);
    RepoReadsBack(Some(e), path, name);
    EndpointReadsBack(e.host, e.port);
    QualifiedSplit(domain, path, name);
    if FromRepo(None, [domain] + RepoParts(path, name)).Ok? {
      AssembledEndpoint(None, [domain] + RepoParts(path, name));
    }
  }

  // ----- the whole reference -----

  function Pinned(r: Result<OciRef, Error>, digest: Option<Digest>): Result<OciRef, Error> {
    if r.Ok? && digest.Some? then Ok(r.value.(digest := digest)) else r
  }

  function Tagged(r: Result<OciRef, Error>, version: Option<string>): Result<OciRef, Error> {
    if r.Ok? && version.Some? then Ok(r.value.(version := version)) else r
  }

  lemma ParseAt(text: string, pin: string)
    requires text != "" && pin != "" && '@' !in pin
    ensures Parse(text + ['@'] + pin)
         == match ParseDigest(pin)
            case Err(e) => Err(e)
            case Ok(d) => Pinned(ParseTagged(text), Some(d))
  {
    hide ParseTagged, ParseDigest;
    var s := text + ['@'] + pin;
    LastAt(text, '@', pin);
    assert s[..|text|] == text && s[|text| + 1..] == pin;
  }

  /** A text without `@` keeps its tagged part, with or without a pin after it. */
  lemma PinReadsBack(text: string, digest: Option<Digest>)
    requires text != "" && (digest.None? ==> '@' !in text) && (digest.Some? ==> ValidDigest(digest.value))
    ensures Parse(text + PinText(digest)) == Pinned(ParseTagged(text), digest)
  {
    hide ParseTagged, ParseDigest, DigestText, ValidDigest;
    if digest.Some? {
      DigestNoMarks(digest.value);
      ParseAt(text, DigestText(digest.value));
      assert text + PinText(digest) == text + ['@'] + DigestText(digest.value);
    } else {
      assert text + "" == text;
    }
  }

  lemma TagColonAt(head: string, tail: string)
    requires (head == "" || head[|head| - 1] == '/') && '/' !in tail
    ensures TagColon(head + tail) == |head| + First(tail, ':')
  {
    if head == "" {
      assert head + tail == tail;
    } else {
      assert head + tail == head[..|head| - 1] + ['/'] + tail;
      LastAt(head[..|head| - 1], '/', tail);
    }
    assert (head + tail)[|head|..] == tail;
  }

  /** The tag colon is found after the name, whatever colons the part before the last slash holds. */
  lemma TagReadsBack(head: string, name: string, version: Option<string>)
    requires head == "" || head[|head| - 1] == '/'
    requires '/' !in name && ':' !in name && name != "" && (version.Some? ==> ValidTag(version.value))
    ensures ParseTagged(head + name + TagText(version)) == Tagged(ParseName(head + name), version)
  {
    hide ParseName, ValidTag, TagColon;
    var base := head + name;
    if version.Some? {
      TagNoMarks(version.value);
      var tail := name + [':'] + version.value;
      var s := base + TagText(version);
      assert s == head + tail;
      TagColonAt(head, tail);
      FirstAt(name, ':', version.value);
      assert s[..|base|] == base && s[|base| + 1..] == version.value;
    } else {
      TagColonAt(head, name);
      assert base + "" == base;
    }
  }

  /** Where the text before the leaf name ends. */
  function Head(endpoint: Option<Endpoint>, path: string): string {
    (if endpoint.None? then "" else RenderEndpoint(endpoint.value) + "/") + if path == "" then "" else path + "/"
  }

  lemma HeadAndName(endpoint: Option<Endpoint>, path: string, name: string)
    ensures var head := Head(endpoint, path);
            NameText(endpoint, path, name) == head + name && (head == "" || head[|head| - 1] == '/')
  {
    hide RenderEndpoint;
  }

  lemma {:induction false} JoinedMarks(parts: seq<string>)
    requires forall p | p in parts :: ValidComponent(p)
    ensures '@' !in Join(parts, '/')
  {
    hide ValidComponent;
    if parts == [] {
    } else {
      assert parts[0] in parts;
      ComponentNoMarks(parts[0]);
      if |parts| > 1 {
        JoinedMarks(parts[1..]);
      }
    }
  }

  lemma RenderedMarks(r: OciRef)
    requires Valid(r) && (r.endpoint.Some? ==> r.endpoint.value.username.None?)
    ensures '@' !in NameText(r.endpoint, r.path, r.name) + TagText(r.version)
  {
    var repo := RepoParts(r.path, r.name);
    NameIsPlain(r.endpoint, r.path, r.name);
    assert forall p | p in Split(r.path, '/') && r.path != "" :: p in repo;
    if r.path != "" {
      JoinOfSplit(r.path, '/');
      JoinedMarks(Split(r.path, '/'));
    }
    if r.endpoint.Some? { HostPortMarks(r.endpoint.value); }
    if r.version.Some? { TagNoMarks(r.version.value); }
    hide Valid, HostPort, RepoParts, Split;
  }

  /** No userinfo, and the text before the first slash of several components looks like a domain
      exactly when it is the endpoint. */
  predicate Unambiguous(r: OciRef) {
    match r.endpoint
    case None => r.path == "" || !LooksLikeDomain(Split(r.path, '/')[0])
    case Some(e) => e.username.None? && e.password.None? && LooksLikeDomain(HostPort(e)) && !BrokenBracket(e.host)
  }

  lemma NameRoundTrips(r: OciRef)
    requires Valid(r) && (r.endpoint.Some? ==> r.endpoint.value.username.None? && r.endpoint.value.password.None?)
    ensures ParseName(NameText(r.endpoint, r.path, r.name)) == Ok(OciRef(r.endpoint, r.path, r.name, None, None)) <==> Unambiguous(r)
  {
    hide ValidName, LooksLikeDomain, ValidHost, ParseName, HostPort, NameText, BrokenBracket, ValidTag, ValidDigest;
    match r.endpoint {
      case None => NameReadsBack(r.path, r.name);
      case Some(e) => QualifiedReadsBack(e, r.path, r.name);
    }
  }

  lemma RenderParses(r: OciRef)
    requires Valid(r) && (r.endpoint.Some? ==> r.endpoint.value.username.None?)
    ensures Parse(Render(r)) == Pinned(Tagged(ParseName(NameText(r.endpoint, r.path, r.name)), r.version), r.digest)
  {
    RenderedMarks(r);
    NameIsPlain(r.endpoint, r.path, r.name);
    hide ValidName, ValidHost, ParseName, NameText, TagText, PinText, ValidTag, ValidDigest, Parse, ParseTagged, Head;
    var text := NameText(r.endpoint, r.path, r.name) + TagText(r.version);
    HeadAndName(r.endpoint, r.path, r.name);
    TagReadsBack(Head(r.endpoint, r.path), r.name, r.version);
    PinReadsBack(text, r.digest);
  }

  lemma ParsedName(s: string)
    requires ParseName(s).Ok?
    ensures var r := ParseName(s).value; Valid(r) && Unambiguous(r) && r.version.None? && r.digest.None?
  {
    var parts := Split(s, '/');
    SplitPartsFree(s, '/');
    hide ValidName, ValidHost, ParseEndpoint, BrokenBracket, DropEol;
    if |parts| > 1 && LooksLikeDomain(parts[0]) {
      ParsedEndpoint(parts[0]);
      var e := ParseEndpoint(parts[0]).value;
      if e.port.Some? {
        assert HostPort(e)[|e.host|] == ':';
      }
    } else if |parts| > 1 {
      SplitOfJoin(parts[..|parts| - 1], '/');
    }
  }

  lemma ParsedTagged(s: string)
    requires ParseTagged(s).Ok?
    ensures var r := ParseTagged(s).value; Valid(r) && Unambiguous(r) && r.digest.None?
  {
    hide ParseName, ValidName, ValidHost, ValidTag, ValidDigest, LooksLikeDomain, HostPort, BrokenBracket, TagColon, Split;
    var i := TagColon(s);
    ParsedName(if i == |s| then s else s[..i]);
  }

  lemma ParsedPin(s: string)
    requires ParseDigest(s).Ok?
    ensures ValidDigest(ParseDigest(s).value)
  {
    hide ValidDigest;
  }

  /** Everything that parses is constructible and unambiguous. */
  lemma ParsedIsValid(s: string)
    requires Parse(s).Ok?
    ensures Valid(Parse(s).value) && Unambiguous(Parse(s).value)
  {
    hide ParseTagged, ParseDigest, ValidName, ValidHost, ValidTag, ValidDigest, LooksLikeDomain, HostPort, BrokenBracket, Split;
    var i := Last(s, '@');
    if i >= 0 {
      ParsedPin(s[i + 1..]);
    }
    ParsedTagged(if i < 0 then s else s[..i]);
  }

  lemma UserInfoIsLost(r: OciRef)
    requires r.endpoint.Some? && (r.endpoint.value.username.Some? || r.endpoint.value.password.Some?)
    ensures !Unambiguous(r) && Parse(Render(r)) != Ok(r)
  {
    if Parse(Render(r)) == Ok(r) {
      ParsedIsValid(Render(r));
    }
    hide Parse, Render;
  }

  lemma PlainName(r: OciRef)
    requires Valid(r)
    ensures var n := ParseName(NameText(r.endpoint, r.path, r.name));
            n == Ok(OciRef(r.endpoint, r.path, r.name, None, None)) <==> Pinned(Tagged(n, r.version), r.digest) == Ok(r)
  {
    var n := ParseName(NameText(r.endpoint, r.path, r.name));
    hide ParseName, NameText;
    if n.Ok? {
      ParsedName(NameText(r.endpoint, r.path, r.name));
    }
    hide Valid, Unambiguous;
  }

  /** A constructible reference parses back from its rendering exactly when it is unambiguous. */
  lemma RoundTripExactly(r: OciRef)
    requires Valid(r)
    ensures Parse(Render(r)) == Ok(r) <==> Unambiguous(r)
  {
    hide Valid, Unambiguous, Parse, Render, ParseName, NameText;
    if r.endpoint.Some? && (r.endpoint.value.username.Some? || r.endpoint.value.password.Some?) {
      UserInfoIsLost(r);
    } else {
      RenderParses(r);
      NameRoundTrips(r);
      PlainName(r);
    }
  }

  /** Parsing the rendering of a parsed reference gives the same reference. */
  lemma ParseRenderParse(s: string, r: OciRef)
    requires Parse(s) == Ok(r)
    ensures Parse(Render(r)) == Ok(r)
  {
    hide Parse, Render, Valid, Unambiguous;
    ParsedIsValid(s);
    RoundTripExactly(r);
  }

  lemma BareNameIsValid(name: string)
    requires Run(name) && |name| <= 63
    ensures var r := OciRef(None, "", name, None, None); Valid(r) && Render(r) == name
  {
    assert DropEol(name) == name && Component(name);
    hide Run, Component;
    assert name + "" + "" == name;
    assert "" + name == name;
  }

  /** Up to 63 lower-case letters and digits are a reference without endpoint, path, tag and digest. */
  lemma BareNameParses(name: string)
    requires Run(name) && |name| <= 63
    ensures Parse(name) == Ok(OciRef(None, "", name, None, None))
  {
    hide Parse, Run, Valid, Render;
    BareNameIsValid(name);
    RoundTripExactly(OciRef(None, "", name, None, None));
  }

  // ----- which leading text is the endpoint -----

  /** The text before the first slash looks like a domain. */
  predicate Qualified(s: string) {
    First(s, '/') < |s| && LooksLikeDomain(s[..First(s, '/')])
  }

  lemma StaysQualified(s: string, tail: string)
    requires '/' !in tail
    ensures Qualified(s + tail) <==> Qualified(s)
  {
    hide LooksLikeDomain;
    var i := First(s, '/');
    if i < |s| {
      assert s + tail == s[..i] + ['/'] + (s[i + 1..] + tail);
      FirstAt(s[..i], '/', s[i + 1..] + tail);
      assert (s + tail)[..i] == s[..i];
    }
  }

  lemma NameEndpoint(s: string, r: OciRef)
    requires ParseName(s) == Ok(r)
    ensures r.endpoint.Some? <==> Qualified(s)
  {
    hide LooksLikeDomain, ParseEndpoint, ValidName, Split;
    var i := First(s, '/');
    if i < |s| {
      assert s == s[..i] + ['/'] + s[i + 1..];
      SplitAtSeparator(s[..i], '/', s[i + 1..]);
    } else {
      SplitFree(s, '/');
    }
  }

  lemma TagHoldsNoSlash(s: string)
    ensures '/' !in s[TagColon(s)..]
  {
    var i, k := TagColon(s), Last(s, '/');
    assert i > k;
    hide TagColon, Last;
    assert s[i..] == s[k + 1..][i - k - 1..];
  }

  lemma CutEndpoint(text: string, tail: string, r: OciRef)
    requires ParseName(text) == Ok(r) && '/' !in tail
    ensures r.endpoint.Some? <==> Qualified(text + tail)
  {
    hide Qualified, ParseName;
    NameEndpoint(text, r);
    StaysQualified(text, tail);
  }

  lemma TaggedEndpoint(s: string, r: OciRef)
    requires ParseTagged(s) == Ok(r)
    ensures r.endpoint.Some? <==> Qualified(s)
  {
    hide Qualified, ValidTag, ParseName;
    TagHoldsNoSlash(s);
    hide TagColon;
    var i := TagColon(s);
    var text := if i < |s| then s[..i] else s;
    assert s == text + s[i..];
    CutEndpoint(text, s[i..], ParseName(text).value);
  }

  lemma PinHasNoSlash(s: string)
    requires ParseDigest(s).Ok?
    ensures '/' !in s
  {
    var i := First(s, ':');
    assert s == s[..i] + ":" + s[i + 1..];
    hide ValidDigest;
    DigestNoMarks(ParseDigest(s).value);
  }

  lemma PinnedEndpoint(text: string, pin: string, r: OciRef)
    requires ParseTagged(text) == Ok(r) && ParseDigest(pin).Ok?
    ensures r.endpoint.Some? <==> Qualified(text + ['@'] + pin)
  {
    hide ParseTagged, ParseDigest, Qualified;
    TaggedEndpoint(text, r);
    PinHasNoSlash(pin);
    StaysQualified(text, ['@'] + pin);
    assert text + (['@'] + pin) == text + ['@'] + pin;
  }

  lemma ParsedEndpoints(s: string, r: OciRef)
    requires Parse(s) == Ok(r)
    ensures r.endpoint.Some? <==> Qualified(s)
  {
    hide ParseTagged, ParseDigest, Qualified;
    var i := Last(s, '@');
    if i < 0 {
      TaggedEndpoint(s, r);
    } else {
      PinnedEndpoint(s[..i], s[i + 1..], ParseTagged(s[..i]).value);
      assert s == s[..i] + ['@'] + s[i + 1..];
    }
  }

  /** A reference has an endpoint exactly when the text before the first slash is `localhost`, or holds a dot, a
      colon or an upper-case letter. */
  lemma LeadingTextDecides(s: string, r: OciRef)
    requires Parse(s) == Ok(r)
    ensures r.endpoint.Some?
       <==> (var i := First(s, '/');
             && i < |s|
             && (s[..i] == "localhost" || '.' in s[..i] || ':' in s[..i] || exists k :: 0 <= k < i && 'A' <= s[k] <= 'Z'))
  {
    hide Parse;
    ParsedEndpoints(s, r);
    var i := First(s, '/');
    assert forall k | 0 <= k < i :: s[..i][k] == s[k];
  }

  lemma RunIsHost(s: string)
    requires Run(s)
    ensures ValidHost(s) && !BrokenBracket(s)
  {
    assert DropEol(s) == s;
    SplitFree(s, '.');
    hide Split, Bracketed;
    assert DomainComponent(s);
  }

  lemma LocalName(name: string)
    requires Run(name) && |name| <= 63
    ensures var r := OciRef(Some(Endpoint("localhost", None, None, None)), "", name, None, None);
            Valid(r) && Unambiguous(r) && Render(r) == "localhost" + "/" + name
  {
    assert Run("localhost");
    RunIsHost("localhost");
    assert LooksLikeDomain("localhost");
    assert DropEol(name) == name && Component(name);
    hide Run, Component, ValidHost, LooksLikeDomain, BrokenBracket, Split;
    assert "" + "localhost" == "localhost";
    assert ("localhost" + "/" + name) + "" + "" == "localhost" + "/" + name;
  }

  /** `localhost` alone is an endpoint, not a path. */
  lemma LocalhostIsEndpoint(name: string)
    requires Run(name) && |name| <= 63
    ensures Parse("localhost" + "/" + name) == Ok(OciRef(Some(Endpoint("localhost", None, None, None)), "", name, None, None))
  {
    hide Parse, Run, Valid, Unambiguous, Render;
    LocalName(name);
    RoundTripExactly(OciRef(Some(Endpoint("localhost", None, None, None)), "", name, None, None));
  }

  // ----- normalize -----

  const HUB := "docker.io"

  const LEGACY_HUB := "index.docker.io"

  function Expanded(r: OciRef): OciRef {
    var endpoint := match r.endpoint
                    case None => Endpoint(HUB, None, None, None)
                    case Some(e) => if e.host == LEGACY_HUB then e.(host := HUB) else e;
    OciRef(Some(endpoint),
           if endpoint.host == HUB && r.path == "" then "library" else r.path,
           r.name,
           if r.version.None? then Some("latest") else r.version,
           r.digest)
  }

  /** `OciReference.normalize`: building the expanded reference may be refused. */
  function Normalize(r: OciRef): Result<OciRef, Error> {
    if Valid(Expanded(r)) then Ok(Expanded(r)) else Err(Malformed)
  }

  lemma HubParts()
    ensures Split(HUB, '.') == ["docker", "io"]
  {
    assert '.' !in "docker" && '.' !in "io";
    hide Split;
    assert HUB == "docker" + ['.'] + "io";
    SplitAtSeparator("docker", '.', "io");
    SplitFree("io", '.');
  }

  lemma HubHost()
    ensures ValidHost(HUB)
  {
    HubParts();
    hide Split, Join;
    assert DropEol(HUB) == HUB;
    assert DomainComponent("docker") && DomainComponent("io");
  }

  lemma HubWords()
    ensures ValidHost(HUB) && LooksLikeDomain(HUB) && !BrokenBracket(HUB) && !BrokenBracket(LEGACY_HUB)
    ensures ValidComponent("library") && '/' !in "library" && ValidTag("latest") && HUB != LEGACY_HUB
  {
    hide ValidHost;
    HubHost();
    assert HUB[6] == '.';
    assert Run("library");
  }

  /** Normalizing is refused exactly when the expanded name is over the length limit. */
  lemma NormalizeSucceeds(r: OciRef)
    requires Valid(r)
    ensures var x := Expanded(r);
            Normalize(r).Ok? <==> |NameText(x.endpoint, x.path, x.name)| <= NAME_MAX
  {
    HubWords();
    SplitFree("library", '/');
    assert r.name in RepoParts(r.path, r.name);
    hide ValidHost, ValidComponent, ValidTag, ValidDigest, NameText, Identifier, LooksLikeDomain, BrokenBracket;
  }

  /** What the normal form keeps and adds, field by field: name and digest stay; a tag stays, and a missing one is
      `latest`; a missing endpoint and `index.docker.io` become `docker.io`, any other host stays, with its port; the
      path stays, but an empty one on `docker.io` and nowhere else becomes `library`. */
  lemma NormalFormKeeps(r: OciRef, n: OciRef)
    requires Normalize(r) == Ok(n)
    ensures n.name == r.name && n.digest == r.digest
    ensures n.version == if r.version.Some? then r.version else Some("latest")
    ensures r.endpoint.None? ==> n.endpoint == Some(Endpoint("docker.io", None, None, None))
    ensures r.endpoint.Some? && r.endpoint.value.host == "index.docker.io" ==> n.endpoint == Some(r.endpoint.value.(host := "docker.io"))
    ensures r.endpoint.Some? && r.endpoint.value.host != "index.docker.io" ==> n.endpoint == r.endpoint
    ensures n.endpoint.Some? && n.path == if r.path == "" && n.endpoint.value.host == "docker.io" then "library" else r.path
  {
    hide Valid;
  }

  lemma NormalizeIdempotent(r: OciRef)
    requires Normalize(r).Ok?
    ensures Normalize(Normalize(r).value) == Normalize(r)
  {
    HubWords();
    hide Valid;
    assert "library" != "";
  }

  lemma DotIsDomain(s: string)
    requires '.' in s
    ensures LooksLikeDomain(s)
  {
  }

  lemma ExpandedUnambiguous(r: OciRef)
    requires Unambiguous(r)
    ensures Unambiguous(Expanded(r))
  {
    HubWords();
    var e := Expanded(r).endpoint.value;
    hide LooksLikeDomain, BrokenBracket;
    if e.host == HUB {
      assert HostPort(e)[6] == '.' by { assert HUB[6] == '.'; }
      DotIsDomain(HostPort(e));
    }
  }

  /** The normal form of an unambiguous reference is unambiguous: it survives rendering and parsing. */
  lemma NormalFormParses(r: OciRef, n: OciRef)
    requires Unambiguous(r) && Normalize(r) == Ok(n)
    ensures Parse(Render(n)) == Ok(n)
  {
    var x := Expanded(r);
    HubWords();
    assert Unambiguous(x) by {
      ExpandedUnambiguous(r);
    }
    hide Valid, Unambiguous, Parse, Render, Expanded;
    RoundTripExactly(x);
  }

  lemma HubText(name: string, tag: string)
    ensures Render(OciRef(Some(Endpoint("docker.io", None, None, None)), "library", name, Some(tag), None))
         == "docker.io/library/" + name + ":" + tag
  {
    var hub := "" + "docker.io" + "/";
    assert "docker.io/library/" == "docker.io/" + "library" + "/" && hub == "docker.io/";
    assert hub + ("library" + "/" + name) + (":" + tag) + "" == "docker.io/" + "library" + "/" + name + ":" + tag;
  }

  lemma ShortNameIsValid(name: string, version: Option<string>)
    requires Run(name) && |name| <= 63 && (version.Some? ==> ValidTag(version.value))
    ensures Valid(OciRef(None, "", name, version, None)) && Unambiguous(OciRef(None, "", name, version, None))
    ensures Render(OciRef(None, "", name, version, None)) == name + TagText(version)
  {
    BareNameIsValid(name);
    hide Run, ValidTag, ValidName, TagText;
    assert NameText(None, "", name) == name;
    assert name + TagText(version) + "" == name + TagText(version);
  }

  lemma ShortNameSucceeds(name: string, version: Option<string>)
    requires Valid(OciRef(None, "", name, version, None)) && |name| <= 63
    ensures Normalize(OciRef(None, "", name, version, None)).Ok?
  {
    hide Valid;
    var r := OciRef(None, "", name, version, None);
    var x := Expanded(r);
    assert |NameText(x.endpoint, x.path, x.name)| == 18 + |name|;
    NormalizeSucceeds(r);
  }

  /** On texts: a short name means the official image of that name on Docker Hub, with the tag it has or else
      `latest`. */
  lemma ShortNameNormalizes(name: string, tag: string)
    requires Run(name) && |name| <= 63 && ValidTag(tag)
    ensures Parse(name + ":" + tag).Ok? && Normalize(Parse(name + ":" + tag).value).Ok?
    ensures Render(Normalize(Parse(name + ":" + tag).value).value) == "docker.io/library/" + name + ":" + tag
    ensures Parse(name).Ok? && Normalize(Parse(name).value).Ok?
    ensures Render(Normalize(Parse(name).value).value) == "docker.io/library/" + name + ":" + "latest"
  {
    var tagged, bare := OciRef(None, "", name, Some(tag), None), OciRef(None, "", name, None, None);
    ShortNameIsValid(name, Some(tag));
    ShortNameIsValid(name, None);
    ShortNameSucceeds(name, Some(tag));
    ShortNameSucceeds(name, None);
    assert name + (":" + tag) == name + ":" + tag && name + "" == name;
    hide Run, ValidTag, Valid, Unambiguous, Parse, Normalize, Render;
    RoundTripExactly(tagged);
    RoundTripExactly(bare);
    NormalFormKeeps(tagged, Normalize(tagged).value);
    NormalFormKeeps(bare, Normalize(bare).value);
    HubText(name, tag);
    HubText(name, "latest");
  }
}
