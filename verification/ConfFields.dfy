/** The PVE config editor `_replace_conf_field` (`set_cmd.py`) and its reader
    `_parse_qm_conf_field` (`pve.py`), as a lens over lines with snapshot sections. */
module ConfFields {
  import opened ConfText
  import opened Text

  // ----- reading one line -----

  /** The field a line sets, if it sets one. */
  function FieldOf(raw: string): Option<string> {
    var s := Strip(raw);
    if s == "" || s[0] == '#' || ':' !in s then None else Some(Strip(s[..First(s, ':')]))
  }

  function ValueOf(raw: string): string
    requires FieldOf(raw).Some?
  {
    var s := Strip(raw);
    Strip(s[First(s, ':') + 1..])
  }

  /** Index of the last line before `n` that sets the field, or -1. */
  function LastBefore(lines: Conf, n: nat, field: string): (i: int)
    requires n <= |lines|
    ensures -1 <= i < n
    ensures i >= 0 ==> FieldOf(lines[i]) == Some(field)
    ensures forall j | i < j < n :: FieldOf(lines[j]) != Some(field)
  {
    if n == 0 then -1
    else if FieldOf(lines[n - 1]) == Some(field) then n - 1
    else LastBefore(lines, n - 1, field)
  }

  function LastIndex(lines: Conf, field: string): (i: int)
    ensures -1 <= i < SectionStart(lines)
  {
    LastBefore(lines, SectionStart(lines), field)
  }

  /** `_parse_qm_conf_field`: the last value in the global section wins. */
  function Get(lines: Conf, field: string): Option<string> {
    var i := LastIndex(lines, field);
    if i < 0 then None else Some(ValueOf(lines[i]))
  }

  function Line(field: string, value: string): string {
    field + ":" + (" " + value)
  }

  /** Line `i` replaced or deleted; with `i` negative, a line inserted at `n` or nothing done. */
  function Edit(lines: Conf, i: int, n: nat, raw: Option<string>): Conf
    requires i < n <= |lines|
  {
    if i >= 0 then
      match raw
      case None => lines[..i] + lines[i + 1..]
      case Some(r) => lines[i := r]
    else
      match raw
      case None => lines
      case Some(r) => lines[..n] + [r] + lines[n..]
  }

  /** `_replace_conf_field`. */
  function Put(lines: Conf, field: string, value: Option<string>): Conf {
    Edit(lines, LastIndex(lines, field), SectionStart(lines),
         match value case None => None case Some(v) => Some(Line(field, v)))
  }

  // ----- the loops of the source -----

  method ParseQmConfField(lines: Conf, field: string) returns (value: Option<string>)
    ensures value == Get(lines, field)
  {
    hide FieldOf, IsHeader, ValueOf;
    value := None;
    var i := 0;
    while i < |lines|
      invariant 0 <= i <= |lines|
      invariant forall j | 0 <= j < i :: !IsHeader(lines[j])
      invariant var k := LastBefore(lines, i, field);
                value == if k < 0 then None else Some(ValueOf(lines[k]))
    {
      if IsHeader(lines[i]) {
        break;
      }
      if FieldOf(lines[i]) == Some(field) {
        value := Some(ValueOf(lines[i]));
      }
      i := i + 1;
    }
    SectionStartIs(lines, i);
  }

  /** The scan of `_replace_conf_field`: the section boundary and the last matching line before it. */
  method Scan(lines: Conf, field: string) returns (sectionStart: nat, lastIdx: int)
    ensures sectionStart == SectionStart(lines)
    ensures lastIdx == LastIndex(lines, field)
  {
    hide FieldOf, IsHeader;
    sectionStart, lastIdx := |lines|, -1;
    var i := 0;
    while i < |lines|
      invariant 0 <= i <= |lines|
      invariant forall j | 0 <= j < i :: !IsHeader(lines[j])
      invariant lastIdx == LastBefore(lines, i, field)
      invariant sectionStart == |lines|
    {
      if IsHeader(lines[i]) {
        SectionStartIs(lines, i);
        return i, lastIdx;
      }
      if FieldOf(lines[i]) == Some(field) {
        lastIdx := i;
      }
      i := i + 1;
    }
    SectionStartIs(lines, sectionStart);
  }

  method ReplaceConfField(lines: Conf, field: string, value: Option<string>) returns (out: Conf)
    ensures out == Put(lines, field, value)
  {
    hide FieldOf, IsHeader, Line, LastIndex, SectionStart;
    var sectionStart, lastIdx := Scan(lines, field);
    if lastIdx >= 0 {
      if value.None? {
        out := lines[..lastIdx] + lines[lastIdx + 1..];
      } else {
        out := lines[lastIdx := Line(field, value.value)];
      }
    } else if value.Some? {
      out := lines[..sectionStart] + [Line(field, value.value)] + lines[sectionStart..];
    } else {
      out := lines;
    }
  }

  // ----- the written line reads back -----

  /** A field name the editor can write: trimmed, no colon, and not the start of a comment or header. */
  predicate FieldName(field: string) {
    field != "" && Trimmed(field) && ':' !in field && field[0] != '#' && field[0] != '['
  }

  lemma WrittenLine(field: string, value: string)
    requires FieldName(field)
    ensures var raw := Line(field, value);
            !IsHeader(raw) && FieldOf(raw) == Some(field) && ValueOf(raw) == Strip(value)
  {
    var tail := " " + value;
    var s := field + ":" + RStrip(tail);
    StripOfPair(field, ":", tail);
    assert Strip(Line(field, value)) == s;
    assert s == field + [':'] + RStrip(tail);
    FirstAt(field, ':', RStrip(tail));
    assert s[..|field|] == field && s[|field| + 1..] == RStrip(tail);
    assert s[0] == field[0];
    StripOfTrimmed(field);
    StripOfRStrip(tail);
    assert tail[1..] == value;
    assert LStrip(tail) == LStrip(value);
  }

  // ----- lens laws -----

  lemma LastIs(lines: Conf, n: nat, field: string, i: int)
    requires n <= |lines| && -1 <= i < n
    requires i >= 0 ==> FieldOf(lines[i]) == Some(field)
    requires forall j | i < j < n :: FieldOf(lines[j]) != Some(field)
    ensures LastBefore(lines, n, field) == i
  {
  }

  /** Where the global section ends and where the field is last set once the editor has run. */
  lemma AfterPut(lines: Conf, field: string, v: string)
    requires FieldName(field)
    ensures var i, n, out := LastIndex(lines, field), SectionStart(lines), Put(lines, field, Some(v));
            && SectionStart(out) == (if i >= 0 then n else n + 1)
            && LastIndex(out, field) == (if i >= 0 then i else n)
  {
    var i, n, out := LastIndex(lines, field), SectionStart(lines), Put(lines, field, Some(v));
    hide Strip, IsHeader, FieldOf, Line, FieldName;
    WrittenLine(field, v);
    if i >= 0 {
      SectionStartIs(out, n);
      LastIs(out, n, field, i);
    } else {
      assert forall k | n < k < |out| :: out[k] == lines[k - 1];
      SectionStartIs(out, n + 1);
      LastIs(out, n + 1, field, n);
    }
  }

  /** Reading what was just written gives the value written. */
  lemma GetAfterPut(lines: Conf, field: string, v: string)
    requires FieldName(field)
    ensures Get(Put(lines, field, Some(v)), field) == Some(Strip(v))
  {
    AfterPut(lines, field, v);
    WrittenLine(field, v);
  }

  lemma EditTwice(lines: Conf, i: int, n: nat, raw: string, again: Option<string>)
    requires -1 <= i < n <= |lines|
    ensures var out := Edit(lines, i, n, Some(raw));
            Edit(out, if i >= 0 then i else n, if i >= 0 then n else n + 1, again) == Edit(lines, i, n, again)
  {
    var out := Edit(lines, i, n, Some(raw));
    if i < 0 {
      assert out[..n] == lines[..n] && out[n + 1..] == lines[n..];
      assert lines[..n] + lines[n..] == lines;
      if again.Some? {
        assert out[n := again.value] == lines[..n] + [again.value] + lines[n..];
      }
    } else {
      assert out[..i] == lines[..i] && out[i + 1..] == lines[i + 1..];
      if again.Some? {
        assert out[i := again.value] == lines[i := again.value];
      }
    }
  }

  /** Writing twice is writing the second time only; a removal undoes an insertion. */
  lemma PutAfterPut(lines: Conf, field: string, v: string, w: Option<string>)
    requires FieldName(field)
    ensures Put(Put(lines, field, Some(v)), field, w) == Put(lines, field, w)
  {
    hide Line, LastIndex, SectionStart, FieldName, Edit;
    AfterPut(lines, field, v);
    EditTwice(lines, LastIndex(lines, field), SectionStart(lines), Line(field, v),
              match w case None => None case Some(u) => Some(Line(field, u)));
  }

  lemma SectionAfterDrop(lines: Conf, i: nat)
    requires i < SectionStart(lines)
    ensures var out := lines[..i] + lines[i + 1..];
            && |out| - SectionStart(out) == |lines| - SectionStart(lines)
            && out[SectionStart(out)..] == lines[SectionStart(lines)..]
  {
    hide IsHeader;
    var n, out := SectionStart(lines), lines[..i] + lines[i + 1..];
    assert forall k | i <= k < |out| :: out[k] == lines[k + 1];
    SectionStartIs(out, n - 1);
  }

  /** The global section's own end after any edit. */
  lemma SectionAfterPut(lines: Conf, field: string, value: Option<string>)
    requires FieldName(field)
    ensures var out := Put(lines, field, value);
            && |out| - SectionStart(out) == |lines| - SectionStart(lines)
            && out[SectionStart(out)..] == lines[SectionStart(lines)..]
  {
    hide Line, IsHeader, FieldOf, FieldName, LastIndex;
    if value.Some? {
      AfterPut(lines, field, value.value);
    } else if LastIndex(lines, field) >= 0 {
      SectionAfterDrop(lines, LastIndex(lines, field));
    }
  }

  lemma KeptWhenReplaced(lines: Conf, n: nat, i: nat, raw: string, other: string)
    requires i < n <= |lines| && FieldOf(lines[i]) != Some(other) && FieldOf(raw) != Some(other)
    ensures LastBefore(lines[i := raw], n, other) == LastBefore(lines, n, other)
  {
    hide FieldOf;
    LastIs(lines[i := raw], n, other, LastBefore(lines, n, other));
  }

  lemma KeptWhenInserted(lines: Conf, n: nat, raw: string, other: string)
    requires n <= |lines| && FieldOf(raw) != Some(other)
    ensures LastBefore(lines[..n] + [raw] + lines[n..], n + 1, other) == LastBefore(lines, n, other)
  {
    hide FieldOf;
    LastIs(lines[..n] + [raw] + lines[n..], n + 1, other, LastBefore(lines, n, other));
  }

  lemma KeptWhenRemoved(lines: Conf, n: nat, i: nat, other: string)
    requires i < n <= |lines| && FieldOf(lines[i]) != Some(other)
    ensures var k := LastBefore(lines, n, other);
            LastBefore(lines[..i] + lines[i + 1..], n - 1, other) == if k < i then k else k - 1
  {
    hide FieldOf;
    var k := LastBefore(lines, n, other);
    var out := lines[..i] + lines[i + 1..];
    assert forall j | 0 <= j < |out| :: out[j] == lines[if j < i then j else j + 1];
    LastIs(out, n - 1, other, if k < i then k else k - 1);
  }

  /** No other field's lookup changes. */
  lemma OtherFieldsKept(lines: Conf, field: string, value: Option<string>, other: string)
    requires FieldName(field) && other != field
    ensures Get(Put(lines, field, value), other) == Get(lines, other)
  {
    hide IsHeader, FieldOf, ValueOf, Line, FieldName, LastBefore, SectionStart;
    var i, n := LastIndex(lines, field), SectionStart(lines);
    SectionAfterPut(lines, field, value);
    if value.Some? {
      WrittenLine(field, value.value);
      if i >= 0 {
        KeptWhenReplaced(lines, n, i, Line(field, value.value), other);
      } else {
        KeptWhenInserted(lines, n, Line(field, value.value), other);
      }
    } else if i >= 0 {
      KeptWhenRemoved(lines, n, i, other);
    }
  }

  function Occurrences(lines: Conf, n: nat, field: string): nat
    requires n <= |lines|
  {
    if n == 0 then 0 else Occurrences(lines, n - 1, field) + if FieldOf(lines[n - 1]) == Some(field) then 1 else 0
  }

  lemma {:induction false} NoOccurrence(lines: Conf, n: nat, field: string)
    requires n <= |lines|
    ensures Occurrences(lines, n, field) == 0 <==> LastBefore(lines, n, field) == -1
  {
    hide FieldOf;
    if n == 0 {
    } else {
      NoOccurrence(lines, n - 1, field);
    }
  }

  lemma {:induction false} OccurrencesUpTo(lines: Conf, n: nat, field: string)
    requires n <= |lines| && LastBefore(lines, n, field) >= 0
    ensures Occurrences(lines, n, field) == Occurrences(lines, LastBefore(lines, n, field), field) + 1
  {
    hide FieldOf;
    if LastBefore(lines, n, field) < n - 1 {
      OccurrencesUpTo(lines, n - 1, field);
    }
  }

  lemma {:induction false} SamePrefix(a: Conf, b: Conf, n: nat, field: string)
    requires n <= |a| && n <= |b| && a[..n] == b[..n]
    ensures LastBefore(a, n, field) == LastBefore(b, n, field)
  {
    hide FieldOf;
    if n == 0 {
    } else {
      assert a[n - 1] == a[..n][n - 1] == b[n - 1];
      assert a[..n - 1] == a[..n][..n - 1] == b[..n - 1];
      SamePrefix(a, b, n - 1, field);
    }
  }

  /** Removal takes away the last occurrence only: the field is gone exactly when it was not repeated. */
  lemma GetAfterRemove(lines: Conf, field: string)
    requires FieldName(field)
    ensures Get(Put(lines, field, None), field).None? <==> Occurrences(lines, SectionStart(lines), field) <= 1
  {
    hide FieldOf, IsHeader, ValueOf, FieldName;
    var i, n, out := LastIndex(lines, field), SectionStart(lines), Put(lines, field, None);
    NoOccurrence(lines, n, field);
    if i >= 0 {
      SectionAfterPut(lines, field, None);
      OccurrencesUpTo(lines, n, field);
      NoOccurrence(lines, i, field);
      SamePrefix(out, lines, i, field);
      assert forall j | i <= j < |out| :: out[j] == lines[j + 1];
      LastIs(out, n - 1, field, LastBefore(lines, i, field));
    }
  }

  // ----- the same laws on the file's text -----

  function GetText(content: string, field: string): Option<string> {
    Get(Lines(content), field)
  }

  function PutText(content: string, field: string, value: Option<string>): string {
    Rejoin(content, Put(Lines(content), field, value))
  }

  lemma BlankSetsNothing()
    ensures !IsHeader("") && FieldOf("").None?
  {
  }

  lemma BlankLineIgnored(lines: Conf, field: string)
    ensures Get(lines + [""], field) == Get(lines, field)
  {
    hide IsHeader, FieldOf, ValueOf;
    BlankSetsNothing();
    var n, out := SectionStart(lines), lines + [""];
    var k := LastIndex(lines, field);
    if n < |lines| {
      SectionStartIs(out, n);
      LastIs(out, n, field, k);
    } else {
      SectionStartIs(out, n + 1);
      LastIs(out, n + 1, field, k);
    }
  }

  /** Rejoining and splitting again changes no lookup. */
  lemma RejoinKeepsLookups(content: string, lines: Conf, field: string)
    requires SingleLines(lines)
    ensures GetText(Rejoin(content, lines), field) == Get(lines, field)
  {
    hide Lines, Rejoin, Get;
    var read := Lines(Rejoin(content, lines));
    RejoinRead(content, lines);
    BlankLineIgnored(read, field);
    BlankLineIgnored(lines, field);
  }

  lemma EditKeepsSingle(lines: Conf, i: int, n: nat, raw: Option<string>)
    requires SingleLines(lines) && i < n <= |lines| && (raw.Some? ==> '\n' !in raw.value)
    ensures SingleLines(Edit(lines, i, n, raw))
  {
    var out := Edit(lines, i, n, raw);
    forall k | 0 <= k < |out| ensures '\n' !in out[k] {
      assert out[k] in lines || raw == Some(out[k]);
    }
  }

  lemma PutKeepsSingle(lines: Conf, field: string, value: Option<string>)
    requires SingleLines(lines) && '\n' !in field && (value.Some? ==> '\n' !in value.value)
    ensures SingleLines(Put(lines, field, value))
  {
    assert value.Some? ==> '\n' !in Line(field, value.value);
    hide Line, LastIndex, SectionStart, Edit, SingleLines;
    EditKeepsSingle(lines, LastIndex(lines, field), SectionStart(lines),
                    match value case None => None case Some(v) => Some(Line(field, v)));
  }

  /** The lens laws on text: what was written is read back, and nothing else changes. */
  lemma TextLens(content: string, field: string, value: string, other: string)
    requires FieldName(field) && '\n' !in field && '\n' !in value
    ensures GetText(PutText(content, field, Some(value)), field) == Some(Strip(value))
    ensures other != field ==> GetText(PutText(content, field, Some(value)), other) == GetText(content, other)
    ensures other != field ==> GetText(PutText(content, field, None), other) == GetText(content, other)
  {
    hide Lines, Rejoin, Get, Put, FieldName, SingleLines;
    var lines := Lines(content);
    LinesAreSingle(content);
    PutKeepsSingle(lines, field, Some(value));
    PutKeepsSingle(lines, field, None);
    GetAfterPut(lines, field, value);
    RejoinKeepsLookups(content, Put(lines, field, Some(value)), field);
    if other != field {
      OtherFieldsKept(lines, field, Some(value), other);
      OtherFieldsKept(lines, field, None, other);
      RejoinKeepsLookups(content, Put(lines, field, Some(value)), other);
      RejoinKeepsLookups(content, Put(lines, field, None), other);
    }
  }
}
