/** Directory names made from image references, and auto-generated instance names (`__init__.py`). */
module ImageNames {
  import opened Text
  import opened RefGrammar
  import opened References

  // ----- sanitize_image_name -----

  /** `s.replace(c, with)` for one character. */
  function ReplaceAll(s: string, c: char, code: string): string {
    if s == "" then "" else (if s[0] == c then code else [s[0]]) + ReplaceAll(s[1..], c, code)
  }

  /** `sanitize_image_name`: four passes over the whole string. */
  function Sanitize(image: string): string {
    ReplaceAll(ReplaceAll(ReplaceAll(ReplaceAll(image, '-', "--"), '/', "-"), '_', "__"), ':', "_")
  }

  function CharCode(c: char): (s: string)
    ensures s != ""
  {
    if c == '-' then "--" else if c == '/' then "-" else if c == '_' then "__" else if c == ':' then "_" else [c]
  }

  function Encode(s: string): string {
    if s == "" then "" else CharCode(s[0]) + Encode(s[1..])
  }

  lemma {:induction false} ReplaceConcat(a: string, b: string, c: char, code: string)
    ensures ReplaceAll(a + b, c, code) == ReplaceAll(a, c, code) + ReplaceAll(b, c, code)
  {
    if a == "" {
      assert a + b == b;
    } else {
      assert (a + b)[1..] == a[1..] + b;
      ReplaceConcat(a[1..], b, c, code);
    }
  }

  lemma ReplaceOne(d: char, c: char, code: string)
    ensures ReplaceAll([d], c, code) == if d == c then code else [d]
    ensures ReplaceAll([d, d], c, code) == if d == c then code + code else [d, d]
  {
    assert [d][1..] == "" && [d, d][1..] == [d];
    assert [d] + [d] == [d, d];
  }

  lemma SanitizeOne(c: char)
    ensures Sanitize([c]) == CharCode(c)
  {
    assert "--" == ['-', '-'] && "__" == ['_', '_'] && "-" == ['-'] && "_" == ['_'];
    hide ReplaceAll;
    ReplaceOne(c, '-', "--");
    var one := ReplaceAll([c], '-', "--");
    ReplaceOne(c, '/', "-");
    ReplaceOne('-', '/', "-");
    var two := ReplaceAll(one, '/', "-");
    ReplaceOne(c, '_', "__");
    ReplaceOne('-', '_', "__");
    var three := ReplaceAll(two, '_', "__");
    ReplaceOne(c, ':', "_");
    ReplaceOne('-', ':', "_");
    ReplaceOne('_', ':', "_");
  }

  lemma SanitizeConcat(a: string, b: string)
    ensures Sanitize(a + b) == Sanitize(a) + Sanitize(b)
  {
    hide ReplaceAll;
    ReplaceConcat(a, b, '-', "--");
    var a1, b1 := ReplaceAll(a, '-', "--"), ReplaceAll(b, '-', "--");
    ReplaceConcat(a1, b1, '/', "-");
    var a2, b2 := ReplaceAll(a1, '/', "-"), ReplaceAll(b1, '/', "-");
    ReplaceConcat(a2, b2, '_', "__");
    ReplaceConcat(ReplaceAll(a2, '_', "__"), ReplaceAll(b2, '_', "__"), ':', "_");
  }

  /** The four passes together map each character on its own: no pass sees what an earlier one wrote. */
  lemma {:induction false} SanitizeIsEncode(s: string)
    ensures Sanitize(s) == Encode(s)
  {
    if s == "" {
    } else {
      SanitizeIsEncode(s[1..]);
      SanitizeOne(s[0]);
      SanitizeConcat([s[0]], s[1..]);
      hide Sanitize;
      assert s == [s[0]] + s[1..];
    }
  }

  // ----- strings on which the map can be undone -----

  /** Neighbours outside a bracketed host. */
  predicate PairOk(c: char, d: char) {
    && !(c == '/' && (d == '/' || d == '-'))
    && !(c == '-' && d == '/')
    && !(c == '_' && d == ':')
    && !(c == ':' && d == ':')
  }

  function InBracket(inside: bool, c: char): bool {
    if c == '[' then true else if c == ']' then false else inside
  }

  /** No ambiguous neighbours outside brackets, and no `_`, `-` or `/` inside them. */
  predicate Safe(s: string, inside: bool) {
    s != "" ==>
      && (if inside then s[0] != '_' && s[0] != '-' && s[0] != '/' else |s| > 1 ==> PairOk(s[0], s[1]))
      && Safe(s[1..], InBracket(inside, s[0]))
  }

  /** An even run of underscores is all `_`; an odd one starts with `:`. Two safe readings of what follows a
      run's first character never differ by one underscore. */
  lemma {:induction false} ParityDiffers(x: string, y: string)
    requires Safe(x, false) && Safe(y, false)
    requires x != "" ==> x[0] != ':'
    requires y != "" ==> y[0] != ':'
    ensures ['_'] + Encode(x) != Encode(y)
    decreases |x| + |y|
  {
    if x != "" && y != "" && x[0] == '_' && y[0] == '_' {
      ParityDiffers(x[1..], y[1..]);
      assert (['_'] + Encode(x))[2..] == ['_'] + Encode(x[1..]);
      assert Encode(y)[2..] == Encode(y[1..]);
    } else if y != "" && y[0] == '_' {
      assert Encode(y)[1] == '_';
      assert x != "" ==> (['_'] + Encode(x))[1] == CharCode(x[0])[0] != '_';
    } else {
      assert (['_'] + Encode(x))[0] == '_';
      assert y != "" ==> Encode(y)[0] == CharCode(y[0])[0] != '_';
    }
  }

  lemma EncodeStep(s: string)
    requires s != ""
    ensures Encode(s) == CharCode(s[0]) + Encode(s[1..])
  {
  }

  lemma DashDiffers(a: string, b: string)
    requires Safe(b, false) && a != "" && b != "" && a[0] == '-' && b[0] == '/'
    ensures Encode(a) != Encode(b)
  {
    assert Encode(a)[1] == '-';
    if |b| > 1 {
      assert Encode(b)[1] == CharCode(b[1])[0] != '-';
    }
  }

  lemma UnderscoreDiffers(a: string, b: string)
    requires Safe(a, false) && Safe(b, false) && a != "" && b != "" && a[0] == '_' && b[0] == ':'
    ensures Encode(a) != Encode(b)
  {
    ParityDiffers(a[1..], b[1..]);
    EncodeStep(a);
    EncodeStep(b);
    hide Encode, Safe;
    assert Encode(a)[1..] == ['_'] + Encode(a[1..]);
    assert Encode(b)[1..] == Encode(b[1..]);
  }

  /** Two safe strings with the same code start with the same character. */
  lemma SameHead(a: string, b: string, inside: bool)
    requires Safe(a, inside) && Safe(b, inside) && a != "" && b != ""
    ensures Encode(a) == Encode(b) ==> a[0] == b[0]
  {
    assert Encode(a)[0] == CharCode(a[0])[0] && Encode(b)[0] == CharCode(b[0])[0];
    if a[0] == '-' && b[0] == '/' {
      DashDiffers(a, b);
    } else if a[0] == '/' && b[0] == '-' {
      DashDiffers(b, a);
    } else if a[0] == '_' && b[0] == ':' && !inside {
      UnderscoreDiffers(a, b);
    } else if a[0] == ':' && b[0] == '_' && !inside {
      UnderscoreDiffers(b, a);
    }
  }

  lemma {:induction false} EncodeInjective(a: string, b: string, inside: bool)
    requires Safe(a, inside) && Safe(b, inside) && Encode(a) == Encode(b)
    ensures a == b
    decreases |a|
  {
    if a != "" && b != "" {
      SameHead(a, b, inside);
      assert Encode(a[1..]) == Encode(a)[|CharCode(a[0])|..] == Encode(b[1..]);
      EncodeInjective(a[1..], b[1..], InBracket(inside, a[0]));
      assert a == [a[0]] + a[1..] && b == [b[0]] + b[1..];
    }
  }

  // ----- accepted references are safe -----

  /** No bracket opens and no neighbours are ambiguous. */
  predicate Plain(s: string) {
    '[' !in s && forall i | 0 <= i < |s| - 1 :: PairOk(s[i], s[i + 1])
  }

  lemma {:induction false} PlainIsSafe(s: string)
    requires Plain(s)
    ensures Safe(s, false)
  {
    if s == "" {
    } else {
      assert s[0] in s;
      assert forall i | 0 <= i < |s[1..]| :: s[1..][i] == s[i + 1];
      PlainIsSafe(s[1..]);
    }
  }

  lemma PlainConcat(a: string, b: string)
    requires Plain(a) && Plain(b) && (a != "" && b != "" ==> PairOk(a[|a| - 1], b[0]))
    ensures Plain(a + b)
  {
    var s := a + b;
    forall i | 0 <= i < |s| - 1 ensures PairOk(s[i], s[i + 1]) {
      if i + 1 < |a| {
        assert s[i] == a[i] && s[i + 1] == a[i + 1];
      } else if i >= |a| {
        assert s[i] == b[i - |a|] && s[i + 1] == b[i + 1 - |a|];
      }
    }
  }

  /** A part that may stand between slashes and before a colon. */
  predicate Piece(s: string) {
    && Plain(s) && s != ""
    && s[0] != '/' && s[0] != '-' && s[0] != ':'
    && s[|s| - 1] != '-' && s[|s| - 1] != '_' && s[|s| - 1] != '/' && s[|s| - 1] != ':'
  }

  /** Characters among which no pair is ambiguous. */
  predicate Harmless(c: char) {
    c != '/' && c != ':' && c != '['
  }

  lemma HarmlessIsPlain(s: string)
    requires forall i | 0 <= i < |s| :: Harmless(s[i])
    ensures Plain(s)
  {
  }

  lemma ComponentPiece(s: string)
    requires ValidComponent(s)
    ensures Piece(s)
  {
    var t := DropEol(s);
    ComponentShape(t);
    assert forall i | 0 <= i < |t| :: s[i] == t[i] && Harmless(s[i]);
    HarmlessIsPlain(s);
  }

  lemma OneIsPlain(c: char)
    requires c != '['
    ensures Plain([c])
  {
  }

  lemma SlashPieces(a: string, b: string)
    requires Piece(a) && Piece(b)
    ensures Piece(a + ['/'] + b)
  {
    OneIsPlain('/');
    hide Plain;
    PlainConcat(a, ['/']);
    PlainConcat(a + ['/'], b);
  }

  lemma {:induction false} JoinedPieces(parts: seq<string>)
    requires parts != [] && forall p | p in parts :: Piece(p)
    ensures Piece(Join(parts, '/'))
  {
    hide Plain;
    if |parts| > 1 {
      JoinedPieces(parts[1..]);
      assert parts[0] in parts;
      SlashPieces(parts[0], Join(parts[1..], '/'));
    } else {
      assert parts[0] in parts;
    }
  }

  lemma ColonPlain(a: string, b: string)
    requires Plain(a) && Plain(b) && (a != "" ==> a[|a| - 1] != '_' && a[|a| - 1] != ':') && (b != "" ==> b[0] != ':')
    ensures Plain(a + [':'] + b)
  {
    OneIsPlain(':');
    hide Plain;
    PlainConcat(a, [':']);
    PlainConcat(a + [':'], b);
  }

  lemma {:induction false} JoinedEnds(parts: seq<string>)
    requires parts != [] && forall p | p in parts :: DomainComponent(p)
    ensures var s := Join(parts, '.'); s != "" && IsAlnum(s[0]) && IsAlnum(s[|s| - 1])
  {
    assert parts[0] in parts;
    if |parts| > 1 {
      JoinedEnds(parts[1..]);
    }
  }

  lemma DomainEnds(s: string)
    requires DomainName(s)
    ensures s != "" && IsAlnum(s[0]) && IsAlnum(s[|s| - 1])
  {
    DomainChars(s);
    JoinOfSplit(s, '.');
    JoinedEnds(Split(s, '.'));
  }

  lemma HostPiece(host: string)
    requires ValidHost(host) && host != "" && host[0] != '['
    ensures Piece(host)
  {
    HostMarks(host);
    var t := DropEol(host);
    DomainChars(t);
    DomainEnds(t);
    assert forall i | 0 <= i < |t| :: host[i] == t[i] && Harmless(host[i]);
    HarmlessIsPlain(host);
  }

  lemma PortPlain(port: string)
    requires ParsePortText(port).Ok?
    ensures Plain(port) && port != "" && port[0] != ':' && Harmless(port[|port| - 1]) && port[|port| - 1] != '_' && port[|port| - 1] != '-'
  {
    var t := DropEol(port);
    assert forall i | 0 <= i < |t| :: IsDigit(t[i]) && port[i] == t[i] && Harmless(port[i]);
    HarmlessIsPlain(port);
  }

  lemma MadeParts(host: string, port: Option<string>)
    requires MakeEndpoint(host, port).Ok?
    ensures ValidHost(host) && (port.Some? ==> ParsePortText(port.value).Ok?)
  {
    hide ValidHost, ParsePortText;
  }

  lemma PlainDomainPiece(domain: string)
    requires ParsePlain(domain).Ok? && (domain != "" ==> domain[0] != '[')
    ensures Piece(domain)
  {
    hide ValidHost, ParsePortText, MakeEndpoint, Plain;
    var i := Last(domain, ':');
    if i < 0 {
      MadeParts(domain, None);
      HostMarks(domain);
      HostPiece(domain);
    } else {
      var host, port := domain[..i], domain[i + 1..];
      MadeParts(host, Some(port));
      HostMarks(host);
      assert host[0] == domain[0];
      HostPiece(host);
      PortPlain(port);
      ColonPlain(host, port);
      assert domain == host + [':'] + port;
    }
  }

  /** A reference is plain after the bracketed host it may start with. */
  predicate ShapeAt(s: string, k: int) {
    0 <= k <= |s| && (k == 0 || Bracketed(s[..k])) && Plain(s[k..])
  }

  lemma {:induction false} InsideIsSafe(inner: string, tail: string)
    requires forall i | 0 <= i < |inner| :: IsHex(inner[i]) || inner[i] == ':' || inner[i] == '.'
    requires Plain(tail)
    ensures Safe(inner + [']'] + tail, true)
  {
    if inner == "" {
      PlainIsSafe(tail);
      assert ("" + [']'] + tail)[1..] == tail;
    } else {
      assert (inner + [']'] + tail)[1..] == inner[1..] + [']'] + tail;
      InsideIsSafe(inner[1..], tail);
    }
  }

  lemma ShapeIsSafe(s: string, k: int)
    requires ShapeAt(s, k)
    ensures Safe(s, false)
  {
    if k == 0 {
      assert s[0..] == s;
      PlainIsSafe(s);
    } else {
      var inner := s[1..k - 1];
      forall i | 0 <= i < |inner| ensures IsHex(inner[i]) || inner[i] == ':' || inner[i] == '.' {
        assert inner[i] == s[..k][i + 1];
      }
      InsideIsSafe(inner, s[k..]);
      assert s[..k][k - 1] == ']' && s[..k][0] == '[';
      assert s[1..] == inner + [']'] + s[k..];
    }
  }

  lemma ShapeAppend(s: string, k: int, b: string)
    requires ShapeAt(s, k) && Plain(b) && (s != "" && b != "" ==> PairOk(s[|s| - 1], b[0]))
    ensures ShapeAt(s + b, k)
  {
    hide Plain, Bracketed;
    PlainConcat(s[k..], b);
    assert (s + b)[k..] == s[k..] + b;
    assert k > 0 ==> (s + b)[..k] == s[..k];
  }

  lemma PlainEmpty()
    ensures Plain("")
  {
  }

  lemma BracketShapeAt(domain: string) returns (k: int)
    requires ParseBracket(domain).Ok? && domain != "" && domain[0] == '['
    ensures ShapeAt(domain, k) && domain[|domain| - 1] != '/' && domain[|domain| - 1] != '-'
  {
    hide ValidHost, ParsePortText, MakeEndpoint, Plain, Bracketed;
    var i := First(domain, ']');
    var host, rest := domain[..i + 1], domain[i + 1..];
    k := i + 1;
    MadeParts(host, if rest == "" then None else Some(rest[1..]));
    HostMarks(host);
    assert host[i] == ']' && DropEol(host) == host && host[0] == domain[0];
    if rest != "" {
      PortPlain(rest[1..]);
      PlainEmpty();
      ColonPlain("", rest[1..]);
      assert rest == "" + [':'] + rest[1..];
    } else {
      PlainEmpty();
      assert domain[i + 1..] == "";
    }
  }

  /** A text that a colon may follow. */
  predicate Closed(s: string) {
    s != "" && s[|s| - 1] != '_' && s[|s| - 1] != ':'
  }

  lemma RepoPieces(endpoint: Option<Endpoint>, repo: seq<string>)
    requires FromRepo(endpoint, repo).Ok? && forall p | p in repo :: '/' !in p
    ensures repo != [] && forall p | p in repo :: Piece(p)
  {
    var r := FromRepo(endpoint, repo).value;
    var front := repo[..|repo| - 1];
    assert forall p | p in repo :: p in front || p == repo[|repo| - 1];
    if front != [] {
      SplitOfJoin(front, '/');
    }
    hide Piece, ValidComponent, NameText, Identifier;
    forall p | p in repo ensures Piece(p) {
      assert front != [] ==> (r.path != "" || front == [""]);
      assert p in RepoParts(r.path, r.name);
      ComponentPiece(p);
    }
  }

  lemma DomainThenName(domain: string, tail: string) returns (k: int)
    requires ParseEndpoint(domain).Ok? && Piece(tail)
    ensures ShapeAt(domain + ['/'] + tail, k) && Closed(domain + ['/'] + tail)
  {
    hide ParsePlain, ParseBracket, Plain, Bracketed;
    if domain != "" && domain[0] == '[' {
      k := BracketShapeAt(domain);
      OneIsPlain('/');
      PlainConcat(['/'], tail);
      ShapeAppend(domain, k, ['/'] + tail);
      assert domain + ['/'] + tail == domain + (['/'] + tail);
    } else {
      PlainDomainPiece(domain);
      SlashPieces(domain, tail);
      k := 0;
      assert (domain + ['/'] + tail)[0..] == domain + ['/'] + tail;
    }
  }

  lemma NameShapeAt(s: string) returns (k: int)
    requires ParseName(s).Ok?
    ensures ShapeAt(s, k) && Closed(s)
  {
    var parts := Split(s, '/');
    SplitPartsFree(s, '/');
    JoinOfSplit(s, '/');
    hide FromRepo, ParsePlain, ParseBracket, LooksLikeDomain, Plain, Bracketed, Split;
    if |parts| > 1 && LooksLikeDomain(parts[0]) {
      RepoPieces(Some(ParseEndpoint(parts[0]).value), parts[1..]);
      JoinedPieces(parts[1..]);
      var tail := Join(parts[1..], '/');
      assert s == parts[0] + ['/'] + tail;
      k := DomainThenName(parts[0], tail);
    } else {
      RepoPieces(None, parts);
      JoinedPieces(parts);
      k := 0;
      assert s[0..] == s;
    }
  }

  lemma TagPlain(tag: string)
    requires ValidTag(tag)
    ensures Plain(tag) && tag != "" && tag[0] != ':'
  {
    var t := DropEol(tag);
    assert forall i | 0 <= i < |t| :: tag[i] == t[i] && Harmless(tag[i]);
    HarmlessIsPlain(tag);
  }

  lemma DigestPlain(d: Digest)
    requires ValidDigest(d)
    ensures Plain(['@'] + DigestText(d))
  {
    var a, e := DropEol(d.algorithm), DropEol(d.encoded);
    assert forall i | 0 <= i < |a| :: d.algorithm[i] == a[i] && Harmless(d.algorithm[i]);
    assert forall i | 0 <= i < |e| :: d.encoded[i] == e[i] && Harmless(d.encoded[i]);
    HarmlessIsPlain(d.algorithm);
    HarmlessIsPlain(d.encoded);
    OneIsPlain('@');
    hide Plain;
    PlainConcat(['@'], d.algorithm);
    ColonPlain(['@'] + d.algorithm, d.encoded);
    assert ['@'] + DigestText(d) == ['@'] + d.algorithm + [':'] + d.encoded;
  }

  lemma TaggedShapeAt(s: string) returns (k: int)
    requires ParseTagged(s).Ok?
    ensures ShapeAt(s, k) && s != ""
  {
    hide ParseName, ValidTag, TagColon, ShapeAt, Plain;
    var i := TagColon(s);
    if i == |s| {
      k := NameShapeAt(s);
    } else {
      var name, tag := s[..i], s[i + 1..];
      k := NameShapeAt(name);
      TagPlain(tag);
      PlainEmpty();
      ColonPlain("", tag);
      assert "" + [':'] + tag == [':'] + tag;
      ShapeAppend(name, k, [':'] + tag);
      assert s == name + ([':'] + tag);
    }
  }

  lemma PinIsText(s: string)
    requires ParseDigest(s).Ok?
    ensures DigestText(ParseDigest(s).value) == s
  {
    hide ValidDigest;
    var i := First(s, ':');
    assert s == s[..i] + ":" + s[i + 1..];
  }

  lemma AcceptedIsSafe(s: string)
    requires Parse(s).Ok?
    ensures Safe(s, false)
  {
    hide ParseTagged, ParseDigest, ShapeAt, Plain, ValidDigest, Safe;
    var i := Last(s, '@');
    if i < 0 {
      var k := TaggedShapeAt(s);
      ShapeIsSafe(s, k);
    } else {
      var text, pin := s[..i], s[i + 1..];
      var k := TaggedShapeAt(text);
      ParsedPin(pin);
      PinIsText(pin);
      DigestPlain(ParseDigest(pin).value);
      ShapeAppend(text, k, ['@'] + pin);
      assert s == text + (['@'] + pin);
      ShapeIsSafe(s, k);
    }
  }

  /** Two accepted references never share a directory name. */
  lemma SanitizeInjective(a: string, b: string)
    requires Parse(a).Ok? && Parse(b).Ok? && Sanitize(a) == Sanitize(b)
    ensures a == b
  {
    hide Parse, Sanitize, Safe, Encode;
    SanitizeIsEncode(a);
    SanitizeIsEncode(b);
    AcceptedIsSafe(a);
    AcceptedIsSafe(b);
    EncodeInjective(a, b, false);
  }

  /** Off the grammar two strings can meet; only one of these two is a reference. */
  lemma SanitizeCollides()
    ensures "a_:b" != "a:_b" && Sanitize("a_:b") == Sanitize("a:_b")
    ensures Parse("a_:b").Err?
  {
    SanitizeIsEncode("a_:b");
    SanitizeIsEncode("a:_b");
    hide Sanitize;
    assert "a_:b"[1..] == "_:b" && "_:b"[1..] == ":b" && ":b"[1..] == "b" && "b"[1..] == "";
    assert "a:_b"[1..] == ":_b" && ":_b"[1..] == "_b" && "_b"[1..] == "b";
    assert "a" == ['a'] && "b" == ['b'] && "_" == ['_'];
    assert Encode("a_:b") == ['a'] + "__" + "_" + ['b'] == "a___b";
    assert Encode("a:_b") == ['a'] + "_" + "__" + ['b'] == "a___b";
    hide Encode;
    if Parse("a_:b").Ok? {
      AcceptedIsSafe("a_:b");
    }
    hide Parse;
  }

  // ----- next_instance_name -----

  /** One directory entry: its name and the content of a `kento-name` file in it. */
  datatype Entry = Entry(name: string, isDir: bool, nameFile: Option<string>)

  /** The names an entry takes. */
  function NamesOf(e: Entry): set<string> {
    if !e.isDir then {}
    else {e.name} + if e.nameFile.Some? then {Strip(e.nameFile.value)} else {}
  }

  function NamesIn(entries: seq<Entry>): set<string> {
    set i, n | 0 <= i < |entries| && n in NamesOf(entries[i]) :: n
  }

  function Candidate(base: string, n: nat): string {
    base + "-" + Decimal(n)
  }

  function Candidates(base: string, n: nat): set<string> {
    set i | 0 <= i < n :: Candidate(base, i)
  }

  lemma CandidatesDiffer(base: string, m: nat, n: nat)
    requires Candidate(base, m) == Candidate(base, n)
    ensures m == n
  {
    var head := base + "-";
    assert Decimal(m) == Candidate(base, m)[|head|..] == Candidate(base, n)[|head|..] == Decimal(n);
    DecimalInjective(m, n);
  }

  /** Distinct numbers give distinct names, so there are as many candidates as numbers. */
  lemma {:induction false} CandidatesCount(base: string, n: nat)
    ensures |Candidates(base, n)| == n
  {
    hide Candidate;
    if n == 0 {
      assert Candidates(base, 0) == {};
    } else {
      CandidatesCount(base, n - 1);
      assert Candidates(base, n) == Candidates(base, n - 1) + {Candidate(base, n - 1)};
      if Candidate(base, n - 1) in Candidates(base, n - 1) {
        var i: nat :| i < n - 1 && Candidate(base, i) == Candidate(base, n - 1);
        CandidatesDiffer(base, i, n - 1);
      }
    }
  }

  lemma {:induction false} SubsetSize(a: set<string>, b: set<string>)
    requires a <= b
    ensures |a| <= |b|
  {
    if a != {} {
      var x :| x in a;
      SubsetSize(a - {x}, b - {x});
    }
  }

  method UsedNames(entries: seq<Entry>) returns (used: set<string>)
    ensures used == NamesIn(entries)
  {
    used := {};
    for i := 0 to |entries|
      invariant used == NamesIn(entries[..i])
    {
      assert entries[..i + 1] == entries[..i] + [entries[i]];
      assert NamesIn(entries[..i + 1]) == NamesIn(entries[..i]) + NamesOf(entries[i]) by {
        forall n ensures n in NamesIn(entries[..i + 1]) <==> n in NamesIn(entries[..i]) + NamesOf(entries[i]) {
          if n in NamesOf(entries[i]) {
            assert entries[..i + 1][i] == entries[i];
          }
          if j :| 0 <= j < i && n in NamesOf(entries[..i][j]) {
            assert entries[..i + 1][j] == entries[..i][j];
          }
        }
      }
      var e := entries[i];
      if e.isDir {
        used := used + {e.name};
        if e.nameFile.Some? {
          used := used + {Strip(e.nameFile.value)};
        }
      }
    }
    assert entries[..|entries|] == entries;
  }

  predicate Taken(scan: Option<seq<Entry>>, other: Option<seq<Entry>>, name: string) {
    (scan.Some? && name in NamesIn(scan.value)) || (other.Some? && name in NamesIn(other.value))
  }

  /** `next_instance_name`: the first number whose name no directory and no recorded name takes. It is found,
      because finitely many entries cannot take infinitely many names. */
  method NextInstanceName(base: string, scan: Option<seq<Entry>>, other: Option<seq<Entry>>) returns (name: string, ghost n: nat)
    ensures name == base + "-" + Decimal(n) && !Taken(scan, other, name)
    ensures forall m: nat | m < n :: Taken(scan, other, base + "-" + Decimal(m))
  {
    hide NamesIn;
    assert forall m: nat :: Candidate(base, m) == base + "-" + Decimal(m);
    hide Candidate;
    var used := {};
    if scan.Some? {
      used := UsedNames(scan.value);
    }
    if other.Some? {
      var o := UsedNames(other.value);
      used := used + o;
    }
    var i := 0;
    while Candidate(base, i) in used
      invariant i >= 0 && forall m: nat | m < i :: Candidate(base, m) in used
      decreases |used| - i
    {
      CandidatesCount(base, i + 1);
      SubsetSize(Candidates(base, i + 1), used);
      i := i + 1;
    }
    name, n := Candidate(base, i), i;
    forall m: nat | m < n ensures Taken(scan, other, base + "-" + Decimal(m)) {
      assert Candidate(base, m) in used;
    }
  }
}
