/** The productions of the image-reference grammar (`_references.py`, after the OCI Distribution Specification,
    section "Pulling manifests"), as recognisers of the strings their patterns match. Every pattern ends in
    `$`, so each production also admits one final newline. */
module RefGrammar {
  import opened Text

  predicate IsLower(c: char) {
    'a' <= c <= 'z'
  }

  predicate IsUpper(c: char) {
    'A' <= c <= 'Z'
  }

  predicate IsAlnum(c: char) {
    IsLower(c) || IsUpper(c) || IsDigit(c)
  }

  // ----- path components -----

  /** `alpha-numeric`: one or more lower-case letters and digits. */
  predicate Run(s: string) {
    s != "" && forall i | 0 <= i < |s| :: IsLower(s[i]) || IsDigit(s[i])
  }

  /** `separator`: one `_` or `.`, two `_`, or any number of `-`. */
  predicate Separator(s: string) {
    s == "_" || s == "." || s == "__" || (s != "" && forall i | 0 <= i < |s| :: s[i] == '-')
  }

  /** `path-component := alpha-numeric [separator alpha-numeric]*`. */
  predicate Component(s: string) {
    Run(s) || exists i, j :: 0 < i < j < |s| && Run(s[..i]) && Separator(s[i..j]) && Component(s[j..])
  }

  predicate ComponentChar(c: char) {
    IsLower(c) || IsDigit(c) || c == '_' || c == '.' || c == '-'
  }

  lemma {:induction false} ComponentShape(s: string)
    requires Component(s)
    ensures s != "" && forall i | 0 <= i < |s| :: ComponentChar(s[i])
    ensures (IsLower(s[0]) || IsDigit(s[0])) && (IsLower(s[|s| - 1]) || IsDigit(s[|s| - 1]))
    decreases |s|
  {
    if !Run(s) {
      var i, j :| 0 < i < j < |s| && Run(s[..i]) && Separator(s[i..j]) && Component(s[j..]);
      ComponentShape(s[j..]);
      forall k | 0 <= k < |s| ensures ComponentChar(s[k]) {
        if k < i {
          assert s[k] == s[..i][k];
        } else if k < j {
          assert s[k] == s[i..j][k - i];
        } else {
          assert s[k] == s[j..][k - j];
        }
      }
      assert s[0] == s[..i][0] && s[|s| - 1] == s[j..][|s| - 1 - j];
    }
  }

  predicate ValidComponent(s: string) {
    Component(DropEol(s))
  }

  // ----- hosts -----

  predicate DomainComponent(s: string) {
    s != "" && IsAlnum(s[0]) && IsAlnum(s[|s| - 1]) && forall i | 0 <= i < |s| :: IsAlnum(s[i]) || s[i] == '-'
  }

  predicate DomainName(s: string) {
    forall p | p in Split(s, '.') :: DomainComponent(p)
  }

  predicate Bracketed(s: string) {
    |s| > 2 && s[0] == '[' && s[|s| - 1] == ']' && forall i | 0 < i < |s| - 1 :: IsHex(s[i]) || s[i] == ':' || s[i] == '.'
  }

  /** A dotted quad of one to three digits each. */
  predicate Quad(s: string) {
    var parts := Split(s, '.');
    |parts| == 4 && forall p | p in parts :: 1 <= |p| <= 3 && AllDigits(p)
  }

  predicate QuadInRange(s: string)
    requires Quad(s)
  {
    forall p | p in Split(s, '.') :: Value(p) <= 255
  }

  predicate ValidHost(s: string) {
    (Bracketed(DropEol(s)) || DomainName(DropEol(s))) && (Quad(s) ==> QuadInRange(s))
  }

  // ----- tags and digests -----

  predicate IsWord(c: char) {
    IsAlnum(c) || c == '_'
  }

  predicate ValidTag(s: string) {
    var t := DropEol(s);
    1 <= |t| <= 128 && IsWord(t[0]) && forall i | 0 <= i < |t| :: IsWord(t[i]) || t[i] == '.' || t[i] == '-'
  }

  predicate IsAlgoSep(c: char) {
    c == '+' || c == '.' || c == '_' || c == '-'
  }

  /** Components of a letter and alphanumerics, joined by single separators. */
  predicate ValidAlgorithm(s: string) {
    var t := DropEol(s);
    t != "" && (IsLower(t[0]) || IsUpper(t[0])) && !IsAlgoSep(t[|t| - 1])
    && forall i | 0 <= i < |t| :: IsAlnum(t[i]) || (IsAlgoSep(t[i]) && (i + 1 < |t| ==> IsLower(t[i + 1]) || IsUpper(t[i + 1])))
  }

  predicate ValidEncoded(s: string) {
    var t := DropEol(s);
    |t| >= 32 && forall i | 0 <= i < |t| :: IsHex(t[i])
  }

  function ToLower(c: char): char {
    if IsUpper(c) then c - 'A' + 'a' else c
  }

  function LowerText(s: string): (t: string)
    ensures |t| == |s|
  {
    seq(|s|, i requires 0 <= i < |s| => ToLower(s[i]))
  }

  /** The encoded length of an algorithm that has a fixed one. */
  function FixedLength(algorithm: string): Option<nat> {
    var a := LowerText(algorithm);
    if a == "sha256" then Some(64) else if a == "sha384" then Some(96) else if a == "sha512" then Some(128) else None
  }

  /** `_IDENTIFIER`: a bare image id, not a name. */
  predicate Identifier(s: string) {
    var t := DropEol(s);
    |t| == 64 && forall i | 0 <= i < 64 :: IsDigit(t[i]) || 'a' <= t[i] <= 'f'
  }

  predicate HasUpper(s: string) {
    exists i :: 0 <= i < |s| && IsUpper(s[i])
  }

  /** `_looks_like_domain`. */
  predicate LooksLikeDomain(s: string) {
    s == "localhost" || '.' in s || ':' in s || HasUpper(s)
  }

  // ----- which delimiters a production can hold -----

  /** None of the characters that delimit the parts of a reference. */
  predicate NoMarks(s: string) {
    '/' !in s && '@' !in s && ':' !in s
  }

  lemma EolMember(s: string, c: char)
    requires c != '\n' && c in s
    ensures c in DropEol(s)
  {
    var i :| 0 <= i < |s| && s[i] == c;
    assert DropEol(s)[i] == c;
  }

  lemma ComponentNoMarks(s: string)
    requires ValidComponent(s)
    ensures s != "" && NoMarks(s)
  {
    ComponentShape(DropEol(s));
    if c :| c in s && (c == '/' || c == '@' || c == ':') {
      EolMember(s, c);
    }
  }

  lemma TagNoMarks(s: string)
    requires ValidTag(s)
    ensures s != "" && NoMarks(s)
  {
    if c :| c in s && (c == '/' || c == '@' || c == ':') {
      EolMember(s, c);
    }
  }

  lemma AlgorithmNoMarks(s: string)
    requires ValidAlgorithm(s)
    ensures s != "" && NoMarks(s)
  {
    if c :| c in s && (c == '/' || c == '@' || c == ':') {
      EolMember(s, c);
    }
  }

  lemma EncodedNoMarks(s: string)
    requires ValidEncoded(s)
    ensures s != "" && NoMarks(s)
  {
    if c :| c in s && (c == '/' || c == '@' || c == ':') {
      EolMember(s, c);
    }
  }

  lemma {:induction false} JoinedChars(parts: seq<string>)
    requires parts != [] && forall p | p in parts :: DomainComponent(p)
    ensures var s := Join(parts, '.'); s != "" && s[0] != '[' && forall i | 0 <= i < |s| :: IsAlnum(s[i]) || s[i] == '-' || s[i] == '.'
  {
    assert parts[0] in parts;
    if |parts| > 1 {
      JoinedChars(parts[1..]);
    }
  }

  lemma {:induction false} DomainChars(s: string)
    requires DomainName(s)
    ensures s != "" && s[0] != '[' && forall i | 0 <= i < |s| :: IsAlnum(s[i]) || s[i] == '-' || s[i] == '.'
  {
    JoinOfSplit(s, '.');
    JoinedChars(Split(s, '.'));
  }

  /** Hosts hold no `/` and no `@`; only bracketed ones hold `:`. */
  lemma HostMarks(s: string)
    requires ValidHost(s)
    ensures s != "" && '/' !in s && '@' !in s
    ensures s[0] == '[' <==> Bracketed(DropEol(s))
    ensures s[0] != '[' ==> ':' !in s
  {
    var t := DropEol(s);
    if Bracketed(t) {
      if DomainName(t) { DomainChars(t); }
      if c :| c in s && (c == '/' || c == '@') { EolMember(s, c); }
    } else {
      DomainChars(t);
      if c :| c in s && (c == '/' || c == '@' || c == ':') { EolMember(s, c); }
    }
  }
}
