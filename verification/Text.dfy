/** Strings and line files, with the meaning the Python sources give them:
    decimal rendering, split/join, strip, substring tests and line splitting. */
module Text {

  datatype Option<+T> = None | Some(value: T)

  datatype Result<+T, +E> = Ok(value: T) | Err(error: E)

  // ----- decimals -----

  predicate IsDigit(c: char) {
    '0' <= c <= '9'
  }

  predicate AllDigits(s: string) {
    forall i :: 0 <= i < |s| ==> IsDigit(s[i])
  }

  /** `str(n)` for a natural number. */
  function Decimal(n: nat): (s: string)
    ensures |s| > 0 && AllDigits(s)
  {
    if n < 10 then ['0' + n as char] else Decimal(n / 10) + ['0' + (n % 10) as char]
  }

  /** `str(n)` for any integer. */
  function Integer(n: int): string {
    if n < 0 then "-" + Decimal(-n) else Decimal(n)
  }

  /** `int(s)` for a run of digits; leading zeros are allowed. */
  function Value(s: string): nat
    requires AllDigits(s)
  {
    if s == "" then 0
    else 10 * Value(s[..|s| - 1]) + (s[|s| - 1] as int - '0' as int)
  }

  lemma {:induction false} ValueOfDecimal(n: nat)
    ensures Value(Decimal(n)) == n
  {
    var s := Decimal(n);
    if n >= 10 {
      ValueOfDecimal(n / 10);
      assert s[..|s| - 1] == Decimal(n / 10);
    } else {
      assert s[..|s| - 1] == "";
    }
  }

  lemma DecimalInjective(m: nat, n: nat)
    requires Decimal(m) == Decimal(n)
    ensures m == n
  {
    ValueOfDecimal(m);
    ValueOfDecimal(n);
  }

  lemma IntegerInjective(m: int, n: int)
    requires Integer(m) == Integer(n)
    ensures m == n
  {
    assert forall k | k in {m, n} && k >= 0 :: IsDigit(Integer(k)[0]);
    assert forall k | k in {m, n} && k < 0 :: Integer(k)[0] == '-' && Integer(k)[1..] == Decimal(-k);
    if m >= 0 && n >= 0 {
      DecimalInjective(m, n);
    } else if m < 0 && n < 0 {
      DecimalInjective(-m, -n);
    }
  }

  predicate IsHex(c: char) {
    IsDigit(c) || 'a' <= c <= 'f' || 'A' <= c <= 'F'
  }

  lemma IntegerIsSingle(n: int)
    ensures '\n' !in Integer(n)
  {
  }

  /** A `$` in a Python pattern also matches before one final newline. */
  function DropEol(s: string): (t: string)
    ensures |t| <= |s|
  {
    if |s| > 0 && s[|s| - 1] == '\n' then s[..|s| - 1] else s
  }

  // ----- split and join -----

  /** `s.split(sep)` for a one-character separator. */
  function Split(s: string, sep: char): (parts: seq<string>)
    ensures |parts| >= 1
  {
    if s == "" then [""]
    else
      var rest := Split(s[1..], sep);
      if s[0] == sep then [""] + rest else [[s[0]] + rest[0]] + rest[1..]
  }

  /** `sep.join(parts)`. */
  function Join(parts: seq<string>, sep: char): string {
    if |parts| == 0 then ""
    else if |parts| == 1 then parts[0]
    else parts[0] + [sep] + Join(parts[1..], sep)
  }

  lemma {:induction false} JoinOfSplit(s: string, sep: char)
    ensures Join(Split(s, sep), sep) == s
  {
    if s == "" {
    } else {
      var rest := Split(s[1..], sep);
      JoinOfSplit(s[1..], sep);
      if s[0] == sep {
        assert ([""] + rest)[1..] == rest;
      } else {
        assert ([[s[0]] + rest[0]] + rest[1..])[1..] == rest[1..];
      }
    }
  }

  lemma {:induction false} SplitPartsFree(s: string, sep: char)
    ensures forall p | p in Split(s, sep) :: sep !in p
  {
    if s == "" {
    } else {
      SplitPartsFree(s[1..], sep);
    }
  }

  lemma {:induction false} SplitFree(s: string, sep: char)
    requires sep !in s
    ensures Split(s, sep) == [s]
  {
    if s == "" {
    } else {
      SplitFree(s[1..], sep);
      assert s == [s[0]] + s[1..];
    }
  }

  lemma {:induction false} SplitAtSeparator(a: string, sep: char, b: string)
    requires sep !in a
    ensures Split(a + [sep] + b, sep) == [a] + Split(b, sep)
  {
    var s := a + [sep] + b;
    if a == "" {
      assert s[1..] == b;
    } else {
      assert s[1..] == a[1..] + [sep] + b;
      SplitAtSeparator(a[1..], sep, b);
      assert a == [a[0]] + a[1..];
    }
  }

  lemma {:induction false} SplitOfJoin(parts: seq<string>, sep: char)
    requires |parts| >= 1
    requires forall p | p in parts :: sep !in p
    ensures Split(Join(parts, sep), sep) == parts
  {
    if |parts| == 1 {
      SplitFree(parts[0], sep);
    } else {
      SplitOfJoin(parts[1..], sep);
      SplitAtSeparator(parts[0], sep, Join(parts[1..], sep));
    }
  }

  lemma {:induction false} SplitConcat(a: string, sep: char, b: string)
    ensures Split(a + [sep] + b, sep) == Split(a, sep) + Split(b, sep)
  {
    var s := a + [sep] + b;
    if a == "" {
      assert s[1..] == b;
    } else {
      assert s[1..] == a[1..] + [sep] + b;
      SplitConcat(a[1..], sep, b);
    }
  }

  predicate OccursAt(needle: string, s: string, i: int) {
    0 <= i <= |s| - |needle| && s[i..i + |needle|] == needle
  }

  /** `needle in s`. */
  predicate Occurs(needle: string, s: string) {
    exists i :: 0 <= i <= |s| && OccursAt(needle, s, i)
  }

  lemma OccursTransitive(a: string, b: string, c: string)
    requires Occurs(a, b) && Occurs(b, c)
    ensures Occurs(a, c)
  {
    var i :| 0 <= i <= |b| && OccursAt(a, b, i);
    var j :| 0 <= j <= |c| && OccursAt(b, c, j);
    forall k | 0 <= k < |a| ensures c[j + i + k] == a[k] {
      assert c[j..j + |b|][i + k] == b[i + k] && b[i..i + |a|][k] == a[k];
    }
    assert OccursAt(a, c, j + i);
  }

  /** Every part of a split string is a contiguous part of it. */
  lemma {:induction false} SplitPartOccurs(s: string, sep: char, p: string)
    requires p in Split(s, sep)
    ensures Occurs(p, s)
    ensures Split(s, sep)[0] <= s
  {
    if s == "" {
      assert OccursAt(p, s, 0);
    } else {
      var rest := Split(s[1..], sep);
      SplitPartOccurs(s[1..], sep, rest[0]);
      assert OccursAt(s[1..], s, 1);
      if p in rest {
        SplitPartOccurs(s[1..], sep, p);
        OccursTransitive(p, s[1..], s);
      } else if s[0] != sep {
        assert p == [s[0]] + rest[0] && OccursAt(p, s, 0);
      } else {
        assert p == "" && OccursAt(p, s, 0);
      }
    }
  }

  /** Joining and splitting again gives no part that was not inside one of the joined strings. */
  lemma {:induction false} SplitOfJoinOccurs(items: seq<string>, sep: char, p: string)
    requires items != [] && p in Split(Join(items, sep), sep)
    ensures exists a :: a in items && Occurs(p, a)
  {
    if |items| == 1 {
      SplitPartOccurs(items[0], sep, p);
      assert items[0] in items;
    } else {
      SplitConcat(items[0], sep, Join(items[1..], sep));
      if p in Split(items[0], sep) {
        SplitPartOccurs(items[0], sep, p);
        assert items[0] in items;
      } else {
        SplitOfJoinOccurs(items[1..], sep, p);
        var a :| a in items[1..] && Occurs(p, a);
        assert a in items;
      }
    }
  }

  lemma {:induction false} JoinAppend(parts: seq<string>, sep: char, last: string)
    requires |parts| >= 1
    ensures Join(parts + [last], sep) == Join(parts, sep) + [sep] + last
  {
    if |parts| == 1 {
      assert (parts + [last])[1..] == [last];
    } else {
      JoinAppend(parts[1..], sep, last);
      assert (parts + [last])[1..] == parts[1..] + [last];
    }
  }

  function NonEmpty(parts: seq<string>): seq<string> {
    if parts == [] then [] else (if parts[0] == "" then [] else [parts[0]]) + NonEmpty(parts[1..])
  }

  lemma {:induction false} JoinedStart(parts: seq<string>, sep: char)
    requires parts != [] && forall p | p in parts :: p != "" && sep !in p
    ensures Join(parts, sep) != "" && Join(parts, sep)[0] != sep
  {
    assert parts[0] in parts && parts[0][0] in parts[0];
  }

  // ----- searching -----

  /** Index of the first `c`, or `|s|` when there is none. */
  function First(s: string, c: char): (i: nat)
    ensures i <= |s|
    ensures c !in s[..i]
    ensures i < |s| ==> s[i] == c
    ensures i == |s| <==> c !in s
  {
    if s == "" then 0
    else if s[0] == c then 0
    else
      var i := First(s[1..], c);
      assert s[..i + 1] == [s[0]] + s[1..][..i];
      i + 1
  }

  /** Index of the last `c`, or -1 when there is none. */
  function Last(s: string, c: char): (i: int)
    ensures -1 <= i < |s|
    ensures c !in s[i + 1..]
    ensures i >= 0 ==> s[i] == c
    ensures i == -1 <==> c !in s
  {
    if s == "" then -1
    else if s[|s| - 1] == c then |s| - 1
    else
      var i := Last(s[..|s| - 1], c);
      assert s[i + 1..] == s[..|s| - 1][i + 1..] + [s[|s| - 1]];
      i
  }

  lemma {:induction false} FirstAt(a: string, c: char, b: string)
    requires c !in a
    ensures First(a + [c] + b, c) == |a|
  {
    if a == "" {
    } else {
      assert (a + [c] + b)[1..] == a[1..] + [c] + b;
      FirstAt(a[1..], c, b);
    }
  }

  lemma {:induction false} LastAt(a: string, c: char, b: string)
    requires c !in b
    ensures Last(a + [c] + b, c) == |a|
  {
    if b == "" {
    } else {
      var n := |b| - 1;
      assert b[n] in b;
      assert (a + [c] + b)[..|a| + 1 + n] == a + [c] + b[..n];
      LastAt(a, c, b[..n]);
    }
  }

  // ----- strip -----

  /** The characters `str.strip()` removes. */
  predicate IsSpace(c: char) {
    c == ' ' || '\t' <= c <= '\r' || '\U{1c}' <= c <= '\U{1f}' || c == '\U{85}' || c == '\U{a0}'
    || c == '\U{1680}' || '\U{2000}' <= c <= '\U{200a}' || c == '\U{2028}' || c == '\U{2029}'
    || c == '\U{202f}' || c == '\U{205f}' || c == '\U{3000}'
  }

  function LStrip(s: string): string {
    if s != "" && IsSpace(s[0]) then LStrip(s[1..]) else s
  }

  function RStrip(s: string): string {
    if s != "" && IsSpace(s[|s| - 1]) then RStrip(s[..|s| - 1]) else s
  }

  function Strip(s: string): string {
    RStrip(LStrip(s))
  }

  predicate Trimmed(s: string) {
    s != "" ==> !IsSpace(s[0]) && !IsSpace(s[|s| - 1])
  }

  lemma StripOfTrimmed(s: string)
    requires Trimmed(s)
    ensures Strip(s) == s
  {
  }

  lemma {:induction false} RStripPrefix(s: string)
    ensures RStrip(s) <= s
    ensures RStrip(s) != "" ==> !IsSpace(RStrip(s)[|RStrip(s)| - 1])
  {
    if s != "" && IsSpace(s[|s| - 1]) {
      RStripPrefix(s[..|s| - 1]);
    }
  }

  lemma {:induction false} LStripSuffix(s: string)
    ensures |LStrip(s)| <= |s| && LStrip(s) == s[|s| - |LStrip(s)|..]
    ensures LStrip(s) != "" ==> !IsSpace(LStrip(s)[0])
  {
    if s != "" && IsSpace(s[0]) {
      LStripSuffix(s[1..]);
    }
  }

  lemma PartAt(s: string, i: nat, n: nat)
    requires i + n <= |s|
    ensures Occurs(s[i..][..n], s)
  {
    assert s[i..][..n] == s[i..i + n];
    assert OccursAt(s[i..i + n], s, i);
  }

  lemma PrefixEnds(t: string, whole: string)
    requires t <= whole && (whole != "" ==> !IsSpace(whole[0]))
    requires t != "" ==> !IsSpace(t[|t| - 1])
    ensures Trimmed(t)
  {
    hide IsSpace;
    assert t != "" ==> t[0] == whole[0];
  }

  /** A stripped string is trimmed and is a contiguous part of the original. */
  lemma StripIsPart(s: string)
    ensures Trimmed(Strip(s))
    ensures Occurs(Strip(s), s)
  {
    hide LStrip, RStrip, IsSpace, Occurs, OccursAt, Trimmed;
    LStripSuffix(s);
    RStripPrefix(LStrip(s));
    PrefixEnds(Strip(s), LStrip(s));
    var i := |s| - |LStrip(s)|;
    assert Strip(s) == s[i..][..|Strip(s)|];
    PartAt(s, i, |Strip(s)|);
  }

  lemma {:induction false} RStripConcat(a: string, b: string)
    requires a != "" && !IsSpace(a[|a| - 1])
    ensures RStrip(a + b) == a + RStrip(b)
  {
    if b == "" {
      assert a + b == a;
    } else {
      assert (a + b)[..|a + b| - 1] == a + b[..|b| - 1];
      if IsSpace(b[|b| - 1]) {
        RStripConcat(a, b[..|b| - 1]);
      }
    }
  }

  lemma {:induction false} RStripFront(c: char, b: string)
    ensures RStrip([c] + b) == if RStrip(b) != "" then [c] + RStrip(b) else if IsSpace(c) then "" else [c]
  {
    if b == "" {
      assert [c] + b == [c] && [c][..0] == "";
    } else {
      assert ([c] + b)[..|b|] == [c] + b[..|b| - 1];
      if IsSpace(b[|b| - 1]) {
        RStripFront(c, b[..|b| - 1]);
      }
    }
  }

  lemma {:induction false} StripsCommute(s: string)
    ensures LStrip(RStrip(s)) == RStrip(LStrip(s))
  {
    if s == "" {
    } else {
      assert s == [s[0]] + s[1..];
      RStripFront(s[0], s[1..]);
      if IsSpace(s[0]) {
        StripsCommute(s[1..]);
        assert ([s[0]] + RStrip(s[1..]))[1..] == RStrip(s[1..]);
      }
    }
  }

  lemma {:induction false} RStripTwice(s: string)
    ensures RStrip(RStrip(s)) == RStrip(s)
  {
    if s != "" && IsSpace(s[|s| - 1]) {
      RStripTwice(s[..|s| - 1]);
    }
  }

  lemma StripOfRStrip(s: string)
    ensures Strip(RStrip(s)) == Strip(s)
  {
    StripsCommute(s);
    RStripTwice(LStrip(s));
  }

  /** Stripping `key` + separator + `value` strips the value's end only. */
  lemma StripOfPair(key: string, sep: string, value: string)
    requires key != "" && !IsSpace(key[0])
    requires sep != "" && !IsSpace(sep[|sep| - 1])
    ensures Strip(key + sep + value) == key + sep + RStrip(value)
  {
    var a := key + sep;
    assert a[0] == key[0] && a[|a| - 1] == sep[|sep| - 1];
    assert LStrip(a + value) == a + value;
    RStripConcat(a, value);
  }

  // ----- Python's int() -----

  /** Digits with single underscores between them. */
  predicate Numeral(s: string) {
    s != "" && IsDigit(s[0]) && IsDigit(s[|s| - 1])
    && forall i | 0 <= i < |s| :: IsDigit(s[i]) || (s[i] == '_' && i + 1 < |s| && s[i + 1] != '_')
  }

  function DigitsOf(s: string): (d: string)
    ensures AllDigits(d)
  {
    if s == "" then "" else (if IsDigit(s[0]) then [s[0]] else "") + DigitsOf(s[1..])
  }

  /** `int(value)`, None where it raises ValueError. */
  function ParseInt(value: string): Option<int> {
    var s := Strip(value);
    var signed := s != "" && (s[0] == '-' || s[0] == '+');
    var body := if signed then s[1..] else s;
    if !Numeral(body) then None
    else Some(if signed && s[0] == '-' then -(Value(DigitsOf(body)) as int) else Value(DigitsOf(body)))
  }

  lemma {:induction false} DigitsOfDigits(s: string)
    requires AllDigits(s)
    ensures DigitsOf(s) == s
  {
    if s == "" {
    } else {
      DigitsOfDigits(s[1..]);
    }
  }

  lemma NumeralOfDigits(d: string)
    requires d != "" && AllDigits(d)
    ensures Numeral(d) && DigitsOf(d) == d
  {
    DigitsOfDigits(d);
  }

  lemma SignedBody(n: int)
    ensures var s, d := Integer(n), Decimal(if n < 0 then -n else n);
            && |d| > 0 && AllDigits(d) && Strip(s) == s && s != ""
            && if n < 0 then s[0] == '-' && s[1..] == d else s == d && s[0] != '-' && s[0] != '+'
  {
    var s, d := Integer(n), Decimal(if n < 0 then -n else n);
    assert IsDigit(d[0]) && IsDigit(d[|d| - 1]);
    hide Decimal, AllDigits, Strip;
    assert n < 0 ==> s[0] == '-' && s[1..] == d && s[|s| - 1] == d[|d| - 1];
    StripOfTrimmed(s);
  }

  lemma ParseIntOfInteger(n: int)
    ensures ParseInt(Integer(n)) == Some(n)
  {
    SignedBody(n);
    ValueOfDecimal(if n < 0 then -n else n);
    NumeralOfDigits(Decimal(if n < 0 then -n else n));
    hide Decimal, Integer, Numeral, DigitsOf, Value, AllDigits, Strip, IsDigit;
  }

  // ----- line files -----

  /** A file of lines, each ended by a newline. */
  function Unlines(lines: seq<string>): string {
    if lines == [] then "" else lines[0] + "\n" + Unlines(lines[1..])
  }

  /** `s.splitlines()` on newline characters: no empty line after a final newline. */
  function Lines(s: string): seq<string> {
    var parts := Split(s, '\n');
    if parts[|parts| - 1] == "" then parts[..|parts| - 1] else parts
  }

  lemma {:induction false} UnlinesIsJoin(lines: seq<string>)
    requires lines != []
    ensures Unlines(lines) == Join(lines, '\n') + "\n"
  {
    if |lines| > 1 {
      UnlinesIsJoin(lines[1..]);
    }
  }

  lemma {:induction false} JoinEnds(lines: seq<string>)
    requires lines != []
    requires forall l | l in lines :: l != "" && Trimmed(l)
    ensures Join(lines, '\n') != "" && Trimmed(Join(lines, '\n'))
  {
    assert lines[0] in lines;
    if |lines| > 1 {
      forall l | l in lines[1..] ensures l in lines {
      }
      JoinEnds(lines[1..]);
      var j := Join(lines, '\n');
      assert j[0] == lines[0][0];
      assert j[|j| - 1] == Join(lines[1..], '\n')[|Join(lines[1..], '\n')| - 1];
    }
  }

  /** Reading a metadata file back: strip the whole text, then split it into lines. */
  lemma LinesOfStrippedUnlines(lines: seq<string>)
    requires forall l | l in lines :: '\n' !in l && l != "" && Trimmed(l)
    ensures Lines(Strip(Unlines(lines))) == lines
    ensures lines != [] ==> Strip(Unlines(lines)) == Join(lines, '\n')
  {
    if lines != [] {
      UnlinesIsJoin(lines);
      JoinEnds(lines);
      var j := Join(lines, '\n');
      assert LStrip(j + "\n") == j + "\n";
      assert (j + "\n")[..|j|] == j;
      assert RStrip(j + "\n") == RStrip(j) == j;
      SplitOfJoin(lines, '\n');
      assert lines[|lines| - 1] in lines;
    }
  }

  /** Stripping the right end stops inside a last part that is not all blank. */
  lemma {:induction false} RStripOverLast(a: string, b: string)
    requires RStrip(b) != ""
    ensures RStrip(a + b) == a + RStrip(b)
  {
    assert (a + b)[..|a + b| - 1] == a + b[..|b| - 1];
    if IsSpace(b[|b| - 1]) {
      RStripOverLast(a, b[..|b| - 1]);
    }
  }

  lemma {:induction false} JoinLastStripped(lines: seq<string>, last: string)
    requires forall l | l in lines :: l != "" && Trimmed(l)
    requires last != "" && !IsSpace(last[0]) && RStrip(last) != ""
    ensures RStrip(Join(lines + [last], '\n')) == Join(lines + [RStrip(last)], '\n')
    ensures Join(lines + [last], '\n') != "" && !IsSpace(Join(lines + [last], '\n')[0])
  {
    if lines != [] {
      var front := Join(lines, '\n');
      JoinEnds(lines);
      JoinAppend(lines, '\n', last);
      JoinAppend(lines, '\n', RStrip(last));
      var head := front + ['\n'];
      RStripOverLast(head, last);
      assert (head + last)[0] == front[0];
    }
  }

  /** The same when the last line may end in blanks: they go with the final newline. */
  lemma LinesOfStrippedTail(lines: seq<string>, last: string)
    requires forall l | l in lines :: '\n' !in l && l != "" && Trimmed(l)
    requires '\n' !in last && last != "" && !IsSpace(last[0])
    ensures Lines(Strip(Unlines(lines + [last]))) == lines + [RStrip(last)]
  {
    var all := lines + [last];
    var kept := lines + [RStrip(last)];
    UnlinesIsJoin(all);
    RStripPrefix(last);
    RStripFront(last[0], last[1..]);
    assert last == [last[0]] + last[1..];
    assert RStrip(last) != "" && '\n' !in RStrip(last) && Trimmed(RStrip(last));
    JoinLastStripped(lines, last);
    JoinEnds(kept);
    var j := Join(all, '\n');
    assert j != "" && !IsSpace(j[0]);
    assert LStrip(j + "\n") == j + "\n" && (j + "\n")[..|j|] == j;
    assert Strip(Unlines(all)) == RStrip(j) == Join(kept, '\n');
    SplitOfJoin(kept, '\n');
  }
}
