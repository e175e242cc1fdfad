/** URL references (`_references.py`): `UrlReference.normalize`, the canonical form of RFC 3986,
    sections 5.2.4, 6.2.2.1 and 6.2.3. */
module Urls {
  import opened Text
  import opened RefGrammar
  import opened References

  datatype UrlRef = UrlRef(endpoint: Endpoint, path: string, name: string, version: Option<string>, secure: bool,
                           query: string, fragment: string)

  // ----- percent-encodings -----

  function UpperHex(c: char): char {
    if 'a' <= c <= 'f' then c - 'a' + 'A' else c
  }

  predicate IsTriplet(s: string, i: nat) {
    i + 2 < |s| && s[i] == '%' && IsHex(s[i + 1]) && IsHex(s[i + 2])
  }

  /** `_normalize_pct_encoding`. */
  function UpperPct(s: string): (t: string)
    ensures |t| == |s|
    ensures forall i | 0 <= i < |s| :: (t[i] == '%' <==> s[i] == '%') && (IsHex(t[i]) <==> IsHex(s[i])) && (t[i] == '/' <==> s[i] == '/')
  {
    if s == "" then ""
    else if IsTriplet(s, 0) then ['%', UpperHex(s[1]), UpperHex(s[2])] + UpperPct(s[3..])
    else [s[0]] + UpperPct(s[1..])
  }

  /** Every percent-encoding is in upper case. */
  ghost predicate Fixed(s: string) {
    forall i: nat | IsTriplet(s, i) :: s[i + 1] == UpperHex(s[i + 1]) && s[i + 2] == UpperHex(s[i + 2])
  }

  lemma {:induction false} UpperPctFixes(s: string)
    ensures Fixed(UpperPct(s))
  {
    var t := UpperPct(s);
    if s == "" {
    } else {
      var k := if IsTriplet(s, 0) then 3 else 1;
      UpperPctFixes(s[k..]);
      forall i: nat | IsTriplet(t, i) ensures t[i + 1] == UpperHex(t[i + 1]) && t[i + 2] == UpperHex(t[i + 2]) {
        if i >= k {
          assert t[k..] == UpperPct(s[k..]);
          assert IsTriplet(t[k..], i - k);
        } else if i == 0 {
          assert IsTriplet(s, 0);
        }
      }
    }
  }

  lemma {:induction false} FixedStays(s: string)
    requires Fixed(s)
    ensures UpperPct(s) == s
  {
    if s == "" {
    } else {
      var k := if IsTriplet(s, 0) then 3 else 1;
      forall i: nat | IsTriplet(s[k..], i)
        ensures s[k..][i + 1] == UpperHex(s[k..][i + 1]) && s[k..][i + 2] == UpperHex(s[k..][i + 2])
      {
        assert IsTriplet(s, i + k);
      }
      FixedStays(s[k..]);
      assert s == s[..k] + s[k..];
    }
  }

  lemma UpperPctTwice(s: string)
    ensures UpperPct(UpperPct(s)) == UpperPct(s)
  {
    UpperPctFixes(s);
    FixedStays(UpperPct(s));
  }

  /** The place is one of the two digits of a percent-encoding. */
  predicate InTriplet(s: string, i: nat) {
    (i >= 1 && IsTriplet(s, i - 1)) || (i >= 2 && IsTriplet(s, i - 2))
  }

  lemma InTripletTail(s: string, i: nat)
    requires s != "" && i < |s|
    ensures var k := if IsTriplet(s, 0) then 3 else 1;
            i >= k ==> (InTriplet(s, i) <==> InTriplet(s[k..], i - k))
  {
    var k := if IsTriplet(s, 0) then 3 else 1;
    assert forall j: nat | j + k + 2 < |s| :: IsTriplet(s[k..], j) <==> IsTriplet(s, j + k);
  }

  /** Character by character: the lower-case digits of percent-encodings become upper-case, all else stays. */
  lemma {:induction false} UpperPctAt(s: string, i: nat)
    requires i < |s|
    ensures UpperPct(s)[i] == if InTriplet(s, i) && 'a' <= s[i] <= 'f' then s[i] - 'a' + 'A' else s[i]
  {
    var k := if IsTriplet(s, 0) then 3 else 1;
    if i >= k {
      InTripletTail(s, i);
      UpperPctAt(s[k..], i - k);
      hide InTriplet;
    }
  }

  lemma FixedPart(p: string, s: string)
    requires Fixed(s) && Occurs(p, s)
    ensures Fixed(p)
  {
    var at :| 0 <= at <= |s| && OccursAt(p, s, at);
    assert forall i | 0 <= i < |p| :: p[i] == s[at..at + |p|][i] == s[at + i];
    forall i: nat | IsTriplet(p, i) ensures p[i + 1] == UpperHex(p[i + 1]) && p[i + 2] == UpperHex(p[i + 2]) {
      assert IsTriplet(s, at + i);
    }
  }

  lemma FixedSlash(a: string, b: string)
    requires Fixed(a) && Fixed(b)
    ensures Fixed(a + ['/'] + b)
  {
    var s := a + ['/'] + b;
    assert s[|a|] == '/';
    forall i: nat | IsTriplet(s, i) ensures s[i + 1] == UpperHex(s[i + 1]) && s[i + 2] == UpperHex(s[i + 2]) {
      if i + 2 < |a| {
        assert IsTriplet(a, i);
      } else if i > |a| {
        assert IsTriplet(b, i - |a| - 1);
      }
    }
  }

  lemma EmptyFixed()
    ensures Fixed("")
  {
  }

  lemma {:induction false} FixedJoin(parts: seq<string>)
    requires forall p | p in parts :: Fixed(p)
    ensures Fixed(Join(parts, '/'))
  {
    hide Fixed;
    if parts == [] {
      EmptyFixed();
    } else {
      assert parts[0] in parts;
      if |parts| > 1 {
        FixedJoin(parts[1..]);
        FixedSlash(parts[0], Join(parts[1..], '/'));
      }
    }
  }

  // ----- dot segments -----

  /** A segment that stays: neither empty nor a dot segment. */
  predicate Kept(p: string) {
    p != "" && p != "." && p != ".."
  }

  predicate AllKept(parts: seq<string>) {
    forall p | p in parts :: Kept(p) && '/' !in p
  }

  function DropLast(s: seq<string>): seq<string> {
    if s == [] then [] else s[..|s| - 1]
  }

  /** One step of `posixpath.normpath` on an absolute path: `..` leaves a directory, but never the root. */
  function Step(stack: seq<string>, part: string): seq<string> {
    if part == "" || part == "." then stack
    else if part == ".." then DropLast(stack)
    else stack + [part]
  }

  function Resolve(stack: seq<string>, parts: seq<string>): seq<string>
    decreases |parts|
  {
    if parts == [] then stack else Resolve(Step(stack, parts[0]), parts[1..])
  }

  lemma {:induction false} ResolveConcat(stack: seq<string>, a: seq<string>, b: seq<string>)
    ensures Resolve(stack, a + b) == Resolve(Resolve(stack, a), b)
    decreases |a|
  {
    if a == [] {
      assert a + b == b;
    } else {
      assert (a + b)[1..] == a[1..] + b;
      ResolveConcat(Step(stack, a[0]), a[1..], b);
    }
  }

  lemma ResolveOne(stack: seq<string>, p: string)
    ensures Resolve(stack, [p]) == Step(stack, p)
  {
    assert [p][1..] == [];
  }

  lemma Inserted(a: seq<string>, m: seq<string>, b: seq<string>)
    ensures Resolve([], a + m + b) == Resolve(Resolve(Resolve([], a), m), b)
  {
    ResolveConcat([], a + m, b);
    ResolveConcat([], a, m);
  }

  /** The laws that determine the result: empty and `.` segments vanish, a segment and the `..` after it
      cancel, and a `..` at the root vanishes. */
  lemma DotSegmentLaws(a: seq<string>, x: string, b: seq<string>)
    ensures Resolve([], a + [""] + b) == Resolve([], a + b)
    ensures Resolve([], a + ["."] + b) == Resolve([], a + b)
    ensures Kept(x) ==> Resolve([], a + [x, ".."] + b) == Resolve([], a + b)
    ensures Resolve([], [".."] + b) == Resolve([], b)
  {
    var stack := Resolve([], a);
    ResolveConcat([], a, b);
    ResolveConcat([], [".."], b);
    ResolveOne([], "..");
    Inserted(a, [""], b);
    ResolveOne(stack, "");
    Inserted(a, ["."], b);
    ResolveOne(stack, ".");
    if Kept(x) {
      Inserted(a, [x, ".."], b);
      ResolveConcat(stack, [x], [".."]);
      assert [x] + [".."] == [x, ".."];
      ResolveOne(stack, x);
      ResolveOne(stack + [x], "..");
    }
    hide Resolve;
  }

  lemma {:induction false} ResolvedParts(stack: seq<string>, parts: seq<string>, good: seq<string>)
    requires AllKept(stack) && (forall p | p in parts :: '/' !in p)
    requires (forall p | p in stack :: p in good) && (forall p | p in parts :: p in good)
    ensures AllKept(Resolve(stack, parts))
    ensures forall p | p in Resolve(stack, parts) :: p in good
    decreases |parts|
  {
    if parts == [] {
    } else {
      assert parts[0] in parts;
      ResolvedParts(Step(stack, parts[0]), parts[1..], good);
    }
  }

  lemma {:induction false} KeptStays(stack: seq<string>, parts: seq<string>)
    requires AllKept(parts)
    ensures Resolve(stack, parts) == stack + parts
    decreases |parts|
  {
    if parts == [] {
    } else {
      assert parts[0] in parts;
      KeptStays(stack + [parts[0]], parts[1..]);
      assert stack + [parts[0]] + parts[1..] == stack + parts;
    }
  }

  function LStripSlash(s: string): string {
    if s != "" && s[0] == '/' then LStripSlash(s[1..]) else s
  }

  /** `posixpath.normpath` of an absolute path; exactly two leading slashes are kept. */
  function NormPath(path: string): string
    requires path != "" && path[0] == '/'
  {
    var two := |path| > 1 && path[1] == '/' && (|path| == 2 || path[2] != '/');
    (if two then "//" else "/") + Join(Resolve([], Split(path, '/')), '/')
  }

  /** `_normalize_url_path`. */
  function NormalizePath(pathname: string): string {
    if pathname == "" then "" else LStripSlash(NormPath("/" + UpperPct(pathname)))
  }

  /** The segments that a path resolves to. */
  function Segments(pathname: string): seq<string> {
    Resolve([], Split(UpperPct(pathname), '/'))
  }

  lemma SegmentsKept(pathname: string)
    ensures AllKept(Segments(pathname)) && Fixed(Join(Segments(pathname), '/'))
  {
    var t := UpperPct(pathname);
    var parts := Split(t, '/');
    SplitPartsFree(t, '/');
    ResolvedParts([], parts, parts);
    UpperPctFixes(pathname);
    hide Resolve, Fixed, UpperPct;
    forall p | p in Segments(pathname) ensures Fixed(p) {
      SplitPartOccurs(t, '/', p);
      FixedPart(p, t);
    }
    FixedJoin(Segments(pathname));
  }

  lemma StripLeading(s: string)
    requires s == "" || s[0] != '/'
    ensures LStripSlash("/" + s) == s && LStripSlash("//" + s) == s
  {
    assert ("/" + s)[1..] == s && ("//" + s)[1..] == "/" + s;
  }

  /** The normalized path is the joined segments: nothing empty, no dot segment, nothing above the root. */
  lemma NormalizedPath(pathname: string)
    ensures NormalizePath(pathname) == Join(Segments(pathname), '/')
  {
    SegmentsKept(pathname);
    var segs := Segments(pathname);
    if pathname == "" {
      ResolveOne([], "");
    } else {
      var t := UpperPct(pathname);
      SplitAtSeparator("", '/', t);
      assert "/" + t == "" + ['/'] + t;
      assert Split("/" + t, '/') == [""] + Split(t, '/');
      ResolveConcat([], [""], Split(t, '/'));
      ResolveOne([], "");
      if segs != [] {
        JoinedStart(segs, '/');
      }
      hide Resolve, Split, UpperPct;
      assert "/" + "" == "/" && "//" + "" == "//";
      StripLeading(Join(segs, '/'));
    }
  }

  lemma SegmentsOfJoined(segs: seq<string>)
    requires AllKept(segs) && Fixed(Join(segs, '/'))
    ensures Segments(Join(segs, '/')) == segs
  {
    FixedStays(Join(segs, '/'));
    if segs == [] {
      ResolveOne([], "");
      assert Split("", '/') == [""];
    } else {
      SplitOfJoin(segs, '/');
      KeptStays([], segs);
      assert [] + segs == segs;
    }
  }

  // ----- the reference -----

  predicate ValidUrl(u: UrlRef) {
    ValidHost(u.endpoint.host)
  }

  function DefaultPort(secure: bool): nat {
    if secure then 443 else 80
  }

  /** `UrlReference.normalize`. */
  function Normalize(u: UrlRef): UrlRef {
    var port := if u.endpoint.port == Some(DefaultPort(u.secure)) then None else u.endpoint.port;
    var segments := NonEmpty(Split(NormalizePath(Pathname(u.path, u.name)), '/'));
    var n := |segments|;
    UrlRef(u.endpoint.(host := LowerText(u.endpoint.host), port := port),
           if n == 0 then "" else Join(segments[..n - 1], '/'),
           if n == 0 then "" else segments[n - 1],
           u.version, u.secure, UpperPct(u.query), UpperPct(u.fragment))
  }

  lemma {:induction false} KeptNonEmpty(parts: seq<string>)
    requires AllKept(parts)
    ensures NonEmpty(parts) == parts
  {
    if parts == [] {
    } else {
      assert parts[0] in parts;
      KeptNonEmpty(parts[1..]);
    }
  }

  /** The path and name of the result, taken together, are the resolved segments. */
  lemma NormalizedPathname(u: UrlRef)
    ensures var segs, v := Segments(Pathname(u.path, u.name)), Normalize(u);
            && NonEmpty(Split(NormalizePath(Pathname(u.path, u.name)), '/')) == segs
            && Pathname(v.path, v.name) == Join(segs, '/')
  {
    var pathname := Pathname(u.path, u.name);
    var segs := Segments(pathname);
    NormalizedPath(pathname);
    SegmentsKept(pathname);
    if segs == [] {
      assert Split("", '/') == [""];
      assert [""][1..] == [];
    } else {
      SplitOfJoin(segs, '/');
      KeptNonEmpty(segs);
      var front := segs[..|segs| - 1];
      assert segs == front + [segs[|segs| - 1]];
      if front == [] {
        assert Join(segs, '/') == segs[0];
      } else {
        JoinAppend(front, '/', segs[|segs| - 1]);
        assert forall p | p in front :: p in segs;
        JoinedStart(front, '/');
      }
    }
    hide Segments, NormalizePath, UpperPct, LowerText, AllKept;
  }

  lemma LowerTwice(s: string)
    ensures LowerText(LowerText(s)) == LowerText(s)
  {
  }

  /** Normalizing twice is normalizing once, for every URL reference. */
  lemma NormalizeIdempotent(u: UrlRef)
    ensures Normalize(Normalize(u)) == Normalize(u)
  {
    var v := Normalize(u);
    var segs := Segments(Pathname(u.path, u.name));
    NormalizedPathname(u);
    SegmentsKept(Pathname(u.path, u.name));
    SegmentsOfJoined(segs);
    NormalizedPathname(v);
    LowerTwice(u.endpoint.host);
    UpperPctTwice(u.query);
    UpperPctTwice(u.fragment);
    hide Segments, NormalizePath, UpperPct, LowerText, AllKept, Fixed, Pathname, Split, Join, NonEmpty;
  }

  /** The result's path is free of empty, `.` and `..` segments, and it has no default port. */
  lemma NormalFormIsClean(u: UrlRef)
    ensures var v := Normalize(u);
            && v.endpoint.port != Some(DefaultPort(v.secure))
            && (Pathname(v.path, v.name) != "" ==> AllKept(Split(Pathname(v.path, v.name), '/')))
  {
    var segs := Segments(Pathname(u.path, u.name));
    NormalizedPathname(u);
    SegmentsKept(Pathname(u.path, u.name));
    if segs != [] {
      SplitOfJoin(segs, '/');
    }
    hide Segments, NormalizePath, UpperPct, LowerText, Fixed, Split;
  }

  /** The text with the digits of its percent-encodings in upper case, and nothing else changed. */
  ghost predicate OnlyPctUpper(s: string, t: string) {
    |t| == |s| && forall i | 0 <= i < |s| :: t[i] == if InTriplet(s, i) && 'a' <= s[i] <= 'f' then s[i] - 'a' + 'A' else s[i]
  }

  /** Lower-case letters for upper-case ones, and nothing else changed. */
  ghost predicate OnlyLowered(s: string, t: string) {
    |t| == |s| && forall i | 0 <= i < |s| :: t[i] == if 'A' <= s[i] <= 'Z' then s[i] - 'A' + 'a' else s[i]
  }

  lemma PctUpper(s: string)
    ensures OnlyPctUpper(s, UpperPct(s))
  {
    forall i | 0 <= i < |s|
      ensures UpperPct(s)[i] == if InTriplet(s, i) && 'a' <= s[i] <= 'f' then s[i] - 'a' + 'A' else s[i]
    {
      UpperPctAt(s, i);
    }
  }

  /** What the normal form keeps: every port but 443 with TLS and 80 without, the user, the tag, the scheme; the host
      up to its letters' case, query and fragment up to the case of percent-encodings. */
  lemma NormalFormKeeps(u: UrlRef)
    ensures var v := Normalize(u);
            && v.endpoint.port == (if u.endpoint.port == Some(if u.secure then 443 else 80) then None else u.endpoint.port)
            && v.endpoint.username == u.endpoint.username && v.endpoint.password == u.endpoint.password
            && v.version == u.version && v.secure == u.secure
            && OnlyLowered(u.endpoint.host, v.endpoint.host)
            && OnlyPctUpper(u.query, v.query) && OnlyPctUpper(u.fragment, v.fragment)
  {
    PctUpper(u.query);
    PctUpper(u.fragment);
    assert OnlyLowered(u.endpoint.host, LowerText(u.endpoint.host));
    hide OnlyLowered, OnlyPctUpper, UpperPct, LowerText, NormalizePath;
  }

  // ----- the result can be constructed -----

  lemma SplitCons(c: char, s: string, sep: char)
    ensures Split([c] + s, sep)
         == if c == sep then [""] + Split(s, sep) else [[c] + Split(s, sep)[0]] + Split(s, sep)[1..]
  {
    assert ([c] + s)[1..] == s;
  }

  lemma LowerCons(c: char, s: string)
    ensures LowerText([c] + s) == [ToLower(c)] + LowerText(s)
  {
  }

  lemma {:induction false} LowerSplit(s: string, sep: char)
    requires !IsUpper(sep) && !IsLower(sep)
    ensures |Split(LowerText(s), sep)| == |Split(s, sep)|
    ensures forall i | 0 <= i < |Split(s, sep)| :: Split(LowerText(s), sep)[i] == LowerText(Split(s, sep)[i])
  {
    assert LowerText("") == "";
    if s == "" {
    } else {
      LowerSplit(s[1..], sep);
      var rest, low := Split(s[1..], sep), Split(LowerText(s[1..]), sep);
      LowerCons(s[0], s[1..]);
      LowerCons(s[0], rest[0]);
      SplitCons(s[0], s[1..], sep);
      SplitCons(ToLower(s[0]), LowerText(s[1..]), sep);
      hide LowerText, Split;
      assert s == [s[0]] + s[1..];
    }
  }

  lemma LowerDomainName(s: string)
    requires DomainName(s)
    ensures DomainName(LowerText(s))
  {
    LowerSplit(s, '.');
    var low := Split(LowerText(s), '.');
    forall p | p in low ensures DomainComponent(p) {
      var i :| 0 <= i < |low| && low[i] == p;
      var q := Split(s, '.')[i];
      assert DomainComponent(q);
      assert forall k | 0 <= k < |p| :: p[k] == ToLower(q[k]);
    }
  }

  lemma LowerBracketed(s: string)
    requires Bracketed(s)
    ensures Bracketed(LowerText(s))
  {
    var t := LowerText(s);
    assert forall k | 0 <= k < |s| :: t[k] == ToLower(s[k]);
  }

  lemma DigitsAreLower(p: string)
    requires AllDigits(LowerText(p))
    ensures LowerText(p) == p
  {
    forall k | 0 <= k < |p| ensures LowerText(p)[k] == p[k] {
      assert IsDigit(LowerText(p)[k]) && LowerText(p)[k] == ToLower(p[k]);
    }
  }

  lemma LowerQuad(s: string)
    requires Quad(LowerText(s)) && (Quad(s) ==> QuadInRange(s))
    ensures QuadInRange(LowerText(s))
  {
    LowerSplit(s, '.');
    var low, parts := Split(LowerText(s), '.'), Split(s, '.');
    forall i | 0 <= i < |parts| ensures low[i] == parts[i] {
      assert low[i] in low;
      DigitsAreLower(parts[i]);
    }
    assert low == parts;
  }

  lemma LowerHostValid(host: string)
    requires ValidHost(host)
    ensures ValidHost(LowerText(host))
  {
    var t := DropEol(host);
    assert DropEol(LowerText(host)) == LowerText(t);
    if Bracketed(t) {
      LowerBracketed(t);
    } else {
      LowerDomainName(t);
    }
    if Quad(LowerText(host)) {
      LowerQuad(host);
    }
    hide LowerText, DomainName, Bracketed, Quad;
  }

  /** The construction check never refuses a normal form. */
  lemma NormalFormIsValid(u: UrlRef)
    requires ValidUrl(u)
    ensures ValidUrl(Normalize(u))
  {
    LowerHostValid(u.endpoint.host);
  }
}
