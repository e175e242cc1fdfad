/** `sync_qm_args_to_memory` (`pve.py`): rewriting the kento-owned `args:` line of a qm config so
    that its memfd size follows the config's own `memory:` field. */
module QmArgs {
  import opened ConfFields
  import opened ConfText
  import opened Text

  // ----- the args payload -----

  const MEMFD := "-object memory-backend-memfd,id=mem,size="

  /** `generate_qm_args`: `head` and `tail` are what it puts before and after the memory backend. */
  function Payload(head: string, memory: int, tail: string): string {
    head + " " + MEMFD + Integer(memory) + "M,share=on " + tail
  }

  function ArgsLine(payload: string): string {
    "args: " + payload
  }

  // ----- the rewrite -----

  /** A line of the global section that kento owns. */
  predicate IsArgs(raw: string) {
    "args:" <= raw
  }

  function WithoutArgs(lines: Conf): Conf {
    if lines == [] then []
    else (if IsArgs(lines[0]) then [] else [lines[0]]) + WithoutArgs(lines[1..])
  }

  /** Replace the first `args:` line and drop the others; the flag says whether there was one. */
  function Replaced(lines: Conf, line: string, done: bool): Conf {
    if lines == [] then []
    else if IsArgs(lines[0]) then
      (if done then [] else [line]) + Replaced(lines[1..], line, true)
    else [lines[0]] + Replaced(lines[1..], line, done)
  }

  predicate HasArgs(lines: Conf) {
    exists i :: 0 <= i < |lines| && IsArgs(lines[i])
  }

  /** The new lines: the global section rewritten, everything from the first header on as it was. */
  function Rewritten(lines: Conf, line: string): Conf {
    var n := SectionStart(lines);
    var global := lines[..n];
    Replaced(global, line, false) + (if HasArgs(global) then [] else [line]) + lines[n..]
  }

  /** The whole operation on the lines of a config; a config without a usable `memory:` is left alone. */
  function Sync(lines: Conf, head: string, tail: string): Conf {
    var memory := Get(lines, "memory");
    if memory.None? || ParseInt(memory.value).None? then lines
    else Rewritten(lines, ArgsLine(Payload(head, ParseInt(memory.value).value, tail)))
  }

  function CoerceInt(value: Option<string>): Option<int> {
    match value
    case None => None
    case Some(v) => ParseInt(v)
  }

  // ----- the loop of the source -----

  lemma {:induction false} ReplacedConcat(a: Conf, b: Conf, line: string, done: bool)
    ensures Replaced(a + b, line, done) == Replaced(a, line, done) + Replaced(b, line, done || HasArgs(a))
  {
    hide IsArgs;
    if a == [] {
      assert a + b == b;
    } else {
      assert (a + b)[1..] == a[1..] + b;
      ReplacedConcat(a[1..], b, line, done || IsArgs(a[0]));
      assert HasArgs(a) == (IsArgs(a[0]) || HasArgs(a[1..])) by {
        if i :| 0 < i < |a| && IsArgs(a[i]) {
          assert IsArgs(a[1..][i - 1]);
        }
        if i :| 0 <= i < |a[1..]| && IsArgs(a[1..][i]) {
          assert IsArgs(a[i + 1]);
        }
      }
    }
  }

  lemma ReplacedStep(lines: Conf, i: nat, line: string)
    requires i < |lines|
    ensures var a, b := lines[..i], lines[..i + 1];
            && HasArgs(b) == (HasArgs(a) || IsArgs(lines[i]))
            && Replaced(b, line, false) == Replaced(a, line, false)
                 + (if !IsArgs(lines[i]) then [lines[i]] else if HasArgs(a) then [] else [line])
  {
    hide IsArgs;
    var a := lines[..i];
    assert lines[..i + 1] == a + [lines[i]];
    ReplacedConcat(a, [lines[i]], line, false);
    assert [lines[i]][1..] == [];
    assert (a + [lines[i]])[i] == lines[i] && forall j | 0 <= j < i :: (a + [lines[i]])[j] == a[j];
  }

  /** The rewrite loop: `insertIdx` is where a missing line goes, before the first snapshot header. */
  method RewriteArgs(lines: Conf, line: string) returns (out: Conf)
    ensures out == Rewritten(lines, line)
  {
    assert lines[..0] == [] && Replaced([], line, false) == [] && !HasArgs([]);
    hide IsArgs, IsHeader, Replaced, HasArgs;
    ghost var n := SectionStart(lines);
    out := [];
    var replaced, inGlobal := false, true;
    var insertIdx: Option<nat> := None;
    var i := 0;
    while i < |lines|
      invariant 0 <= i <= |lines|
      invariant inGlobal ==> i <= n && insertIdx.None?
      invariant replaced == HasArgs(lines[..if inGlobal then i else n])
      invariant inGlobal ==> out == Replaced(lines[..i], line, false)
      invariant !inGlobal ==> i > n && insertIdx == Some(|Replaced(lines[..n], line, false)|)
                              && out == Replaced(lines[..n], line, false) + lines[n..i]
    {
      if inGlobal && IsHeader(lines[i]) {
        inGlobal := false;
        insertIdx := Some(|out|);
        out := out + [lines[i]];
        assert lines[n..i + 1] == [lines[i]];
      } else if inGlobal && IsArgs(lines[i]) {
        ReplacedStep(lines, i, line);
        if !replaced {
          out := out + [line];
          replaced := true;
        }
      } else {
        if inGlobal {
          ReplacedStep(lines, i, line);
        } else {
          assert lines[n..i + 1] == lines[n..i] + [lines[i]];
        }
        out := out + [lines[i]];
      }
      i := i + 1;
    }
    assert inGlobal ==> n == |lines| && lines[..i] == lines[..n] && lines[n..] == [];
    assert lines[n..i] == lines[n..];
    if !replaced {
      if insertIdx.Some? {
        out := out[..insertIdx.value] + [line] + out[insertIdx.value..];
      } else {
        out := out + [line];
      }
    }
  }

  /** The operation on the text of the file. */
  function SyncText(content: string, head: string, tail: string): string {
    if CoerceInt(GetText(content, "memory")).None? then content
    else Rejoin(content, Sync(Lines(content), head, tail))
  }

  /** Returns the new text and the `kento-memory` and `kento-cores` values it stores. */
  method SyncQmArgsToMemory(content: string, head: string, tail: string)
    returns (out: string, memory: Option<int>, cores: Option<int>)
    ensures out == SyncText(content, head, tail)
    ensures memory == CoerceInt(GetText(content, "memory")) && cores == CoerceInt(GetText(content, "cores"))
  {
    var lines := Lines(content);
    var memoryRaw := ParseQmConfField(lines, "memory");
    var coresRaw := ParseQmConfField(lines, "cores");
    cores := CoerceInt(coresRaw);
    if memoryRaw.None? {
      return content, None, cores;
    }
    memory := ParseInt(memoryRaw.value);
    if memory.None? {
      return content, None, cores;
    }
    var outLines := RewriteArgs(lines, ArgsLine(Payload(head, memory.value, tail)));
    out := Join(outLines, '\n');
    if EndsLine(content) && !EndsLine(out) {
      out := out + "\n";
    }
  }

  // ----- what the rewrite keeps -----

  /** The last value of a field among lines of one section. */
  function LastValue(lines: Conf, field: string): Option<string> {
    if lines == [] then None
    else if FieldOf(lines[|lines| - 1]) == Some(field) then Some(ValueOf(lines[|lines| - 1]))
    else LastValue(lines[..|lines| - 1], field)
  }

  lemma {:induction false} GetIsLastValue(lines: Conf, n: nat, field: string)
    requires n <= |lines|
    ensures var i := LastBefore(lines, n, field);
            LastValue(lines[..n], field) == if i < 0 then None else Some(ValueOf(lines[i]))
  {
    hide FieldOf, ValueOf;
    if n == 0 {
    } else {
      assert lines[..n][..n - 1] == lines[..n - 1];
      GetIsLastValue(lines, n - 1, field);
    }
  }

  lemma {:induction false} LastValueConcat(a: Conf, b: Conf, field: string)
    ensures LastValue(a + b, field) == if LastValue(b, field).Some? then LastValue(b, field) else LastValue(a, field)
  {
    hide FieldOf, ValueOf;
    if b == [] {
      assert a + b == a;
    } else {
      assert (a + b)[..|a + b| - 1] == a + b[..|b| - 1];
      LastValueConcat(a, b[..|b| - 1], field);
    }
  }

  lemma ArgsField(raw: string)
    requires IsArgs(raw)
    ensures FieldOf(raw) == Some("args") && !IsHeader(raw)
  {
    var rest := raw[5..];
    assert raw == "args" + ":" + rest;
    StripOfPair("args", ":", rest);
    var s := Strip(raw);
    assert s == "args" + [':'] + RStrip(rest);
    assert ':' !in "args";
    FirstAt("args", ':', RStrip(rest));
    assert s[..4] == "args" && s[0] == 'a';
    StripOfTrimmed("args");
  }

  lemma ArgsValueIgnored(raw: string, field: string)
    requires IsArgs(raw) && field != "args"
    ensures LastValue([raw], field).None?
  {
    ArgsField(raw);
    hide IsArgs, FieldOf, ValueOf;
    assert [raw][..0] == [];
  }

  lemma {:induction false} WithoutArgsKeepsValues(lines: Conf, field: string)
    requires field != "args"
    ensures LastValue(WithoutArgs(lines), field) == LastValue(lines, field)
  {
    hide IsArgs, LastValue;
    if lines == [] {
    } else {
      var first := [lines[0]];
      assert lines == first + lines[1..];
      LastValueConcat(first, lines[1..], field);
      LastValueConcat(first, WithoutArgs(lines[1..]), field);
      WithoutArgsKeepsValues(lines[1..], field);
      if IsArgs(lines[0]) {
        ArgsValueIgnored(lines[0], field);
        assert [] + WithoutArgs(lines[1..]) == WithoutArgs(lines[1..]);
      }
    }
  }

  function ArgsCount(lines: Conf): nat {
    if lines == [] then 0 else (if IsArgs(lines[0]) then 1 else 0) + ArgsCount(lines[1..])
  }

  lemma {:induction false} ReplacedFacts(lines: Conf, line: string, done: bool)
    requires IsArgs(line)
    ensures WithoutArgs(Replaced(lines, line, done)) == WithoutArgs(lines)
    ensures ArgsCount(Replaced(lines, line, done)) == if !done && HasArgs(lines) then 1 else 0
    ensures forall i | 0 <= i < |Replaced(lines, line, done)| && IsArgs(Replaced(lines, line, done)[i]) ::
              Replaced(lines, line, done)[i] == line
    ensures forall raw | raw in Replaced(lines, line, done) :: raw in lines || raw == line
  {
    hide IsArgs;
    if lines == [] {
    } else {
      var done' := done || IsArgs(lines[0]);
      ReplacedFacts(lines[1..], line, done');
      assert HasArgs(lines) == (IsArgs(lines[0]) || HasArgs(lines[1..])) by {
        if i :| 0 < i < |lines| && IsArgs(lines[i]) {
          assert IsArgs(lines[1..][i - 1]);
        }
        if i :| 0 <= i < |lines[1..]| && IsArgs(lines[1..][i]) {
          assert IsArgs(lines[i + 1]);
        }
      }
      var out, rest := Replaced(lines, line, done), Replaced(lines[1..], line, done');
      assert out != rest ==> out[1..] == rest;
    }
  }

  lemma {:induction false} WithoutArgsConcat(a: Conf, b: Conf)
    ensures WithoutArgs(a + b) == WithoutArgs(a) + WithoutArgs(b)
    ensures ArgsCount(a + b) == ArgsCount(a) + ArgsCount(b)
  {
    hide IsArgs;
    if a == [] {
      assert a + b == b;
    } else {
      assert (a + b)[1..] == a[1..] + b;
      WithoutArgsConcat(a[1..], b);
    }
  }

  /** The rewritten global section. */
  function Global(lines: Conf, line: string): Conf {
    var global := lines[..SectionStart(lines)];
    Replaced(global, line, false) + if HasArgs(global) then [] else [line]
  }

  lemma OneArgsLine(line: string)
    requires IsArgs(line)
    ensures WithoutArgs([line]) == [] && ArgsCount([line]) == 1
  {
    hide IsArgs;
    assert [line][1..] == [];
    assert WithoutArgs([]) == [] && ArgsCount([]) == 0;
  }

  lemma GlobalFacts(lines: Conf, line: string)
    requires IsArgs(line)
    ensures var out, n := Rewritten(lines, line), SectionStart(lines);
            && SectionStart(out) == |Global(lines, line)|
            && out[..SectionStart(out)] == Global(lines, line)
            && out[SectionStart(out)..] == lines[n..]
            && WithoutArgs(Global(lines, line)) == WithoutArgs(lines[..n])
            && ArgsCount(Global(lines, line)) == 1
            && (forall i | 0 <= i < |Global(lines, line)| && IsArgs(Global(lines, line)[i]) :: Global(lines, line)[i] == line)
  {
    var n := SectionStart(lines);
    var global, made := lines[..n], Global(lines, line);
    ReplacedFacts(global, line, false);
    ArgsField(line);
    OneArgsLine(line);
    hide IsArgs, Replaced, HasArgs, IsHeader;
    WithoutArgsConcat(Replaced(global, line, false), [line]);
    assert Replaced(global, line, false) + [] == Replaced(global, line, false);
    forall i | 0 <= i < |made| ensures !IsHeader(made[i]) {
      assert made[i] in global || made[i] == line;
    }
    assert Rewritten(lines, line) == made + lines[n..];
    SectionStartIs(Rewritten(lines, line), |made|);
  }

  lemma OtherValuesKept(lines: Conf, line: string, field: string)
    requires IsArgs(line) && field != "args"
    ensures Get(Rewritten(lines, line), field) == Get(lines, field)
  {
    var out := Rewritten(lines, line);
    GlobalFacts(lines, line);
    hide IsArgs, Replaced, HasArgs, IsHeader, Rewritten, Global, LastValue, WithoutArgs;
    GetIsLastValue(lines, SectionStart(lines), field);
    GetIsLastValue(out, SectionStart(out), field);
    WithoutArgsKeepsValues(lines[..SectionStart(lines)], field);
    WithoutArgsKeepsValues(out[..SectionStart(out)], field);
  }

  lemma {:induction false} ReplacedStable(lines: Conf, line: string, done: bool)
    requires forall i | 0 <= i < |lines| && IsArgs(lines[i]) :: lines[i] == line
    requires ArgsCount(lines) <= if done then 0 else 1
    ensures Replaced(lines, line, done) == lines
    ensures HasArgs(lines) <==> ArgsCount(lines) > 0
  {
    hide IsArgs;
    if lines == [] {
    } else {
      forall i | 0 <= i < |lines[1..]| && IsArgs(lines[1..][i]) ensures lines[1..][i] == line {
        assert lines[1..][i] == lines[i + 1];
      }
      ReplacedStable(lines[1..], line, done || IsArgs(lines[0]));
      assert HasArgs(lines) == (IsArgs(lines[0]) || HasArgs(lines[1..])) by {
        if i :| 0 < i < |lines| && IsArgs(lines[i]) {
          assert IsArgs(lines[1..][i - 1]);
        }
        if i :| 0 <= i < |lines[1..]| && IsArgs(lines[1..][i]) {
          assert IsArgs(lines[i + 1]);
        }
      }
      assert [lines[0]] + lines[1..] == lines;
    }
  }

  lemma RewrittenStable(lines: Conf, line: string)
    requires IsArgs(line)
    ensures Rewritten(Rewritten(lines, line), line) == Rewritten(lines, line)
  {
    var out := Rewritten(lines, line);
    GlobalFacts(lines, line);
    hide IsArgs, IsHeader, Global;
    ReplacedStable(out[..SectionStart(out)], line, false);
    assert out[..SectionStart(out)] + [] + out[SectionStart(out)..] == out;
  }

  /** One global `args:` line, which is this one. */
  predicate Settled(lines: Conf, line: string) {
    var n := SectionStart(lines);
    ArgsCount(lines[..n]) == 1 && forall i | 0 <= i < n && IsArgs(lines[i]) :: lines[i] == line
  }

  lemma SettledIsFixed(lines: Conf, line: string)
    requires Settled(lines, line)
    ensures Rewritten(lines, line) == lines
  {
    var n := SectionStart(lines);
    hide IsArgs, IsHeader, SectionStart;
    ReplacedStable(lines[..n], line, false);
    assert lines[..n] + [] + lines[n..] == lines;
  }

  /** A blank line at the end does not count. */
  lemma SettledWithoutBlank(lines: Conf, line: string)
    requires Settled(lines + [""], line)
    ensures Settled(lines, line)
  {
    var n, all := SectionStart(lines), lines + [""];
    BlankSetsNothing();
    assert ArgsCount([""]) == 0;
    hide IsHeader;
    WithoutArgsConcat(lines, [""]);
    if n < |lines| {
      SectionStartIs(all, n);
      assert all[..n] == lines[..n];
    } else {
      SectionStartIs(all, n + 1);
      assert all[..n + 1] == all && lines[..n] == lines;
    }
    forall i | 0 <= i < n && IsArgs(lines[i]) ensures lines[i] == line {
      assert all[i] == lines[i];
    }
  }

  lemma PayloadLineIsArgs(payload: string)
    ensures IsArgs(ArgsLine(payload))
  {
    assert "args: " == "args:" + " ";
    assert ArgsLine(payload)[..5] == "args:";
  }

  lemma LineIsSingle(head: string, memory: int, tail: string)
    requires '\n' !in head && '\n' !in tail
    ensures '\n' !in ArgsLine(Payload(head, memory, tail))
  {
    IntegerIsSingle(memory);
    hide Integer;
    assert '\n' !in MEMFD && '\n' !in "M,share=on ";
  }

  lemma {:induction false} ReplacedIsSingle(lines: Conf, line: string, done: bool)
    requires SingleLines(lines) && '\n' !in line
    ensures SingleLines(Replaced(lines, line, done))
  {
    hide IsArgs;
    if lines == [] {
    } else {
      ReplacedIsSingle(lines[1..], line, done || IsArgs(lines[0]));
    }
  }

  lemma {:induction false} LineIsThere(lines: Conf, line: string)
    requires HasArgs(lines)
    ensures line in Replaced(lines, line, false)
  {
    hide IsArgs;
    if IsArgs(lines[0]) {
      assert Replaced(lines, line, false)[0] == line;
    } else {
      var i :| 0 < i < |lines| && IsArgs(lines[i]);
      assert lines[1..][i - 1] == lines[i];
      LineIsThere(lines[1..], line);
    }
  }

  lemma RewrittenIsSingle(lines: Conf, line: string)
    requires SingleLines(lines) && '\n' !in line && IsArgs(line)
    ensures SingleLines(Rewritten(lines, line)) && line in Rewritten(lines, line) && line != ""
  {
    var n := SectionStart(lines);
    assert IsArgs(line) ==> line != "";
    hide Replaced, HasArgs, IsArgs;
    ReplacedIsSingle(lines[..n], line, false);
    if HasArgs(lines[..n]) {
      LineIsThere(lines[..n], line);
    }
  }

  lemma SyncIs(lines: Conf, head: string, tail: string, memory: int)
    requires CoerceInt(Get(lines, "memory")) == Some(memory)
    ensures Sync(lines, head, tail) == Rewritten(lines, ArgsLine(Payload(head, memory, tail)))
    ensures IsArgs(ArgsLine(Payload(head, memory, tail)))
  {
    PayloadLineIsArgs(Payload(head, memory, tail));
    hide Payload, ArgsLine, ParseInt, IsArgs, Rewritten, Get;
  }

  /** The generated line: what comes before the memory backend, the backend with its size in mebibytes, the rest. */
  lemma GeneratedLine(head: string, memory: int, tail: string)
    ensures ArgsLine(Payload(head, memory, tail))
         == "args: " + (head + " " + "-object memory-backend-memfd,id=mem,size=" + Integer(memory) + "M,share=on " + tail)
  {
  }

  /** Synchronising a config whose global `memory:` is a number: the part from the first snapshot
      header on is untouched, every other global line stays in place, and there is exactly one global
      `args:` line, which carries that memory. */
  lemma SyncFacts(lines: Conf, head: string, tail: string, memory: int)
    requires CoerceInt(Get(lines, "memory")) == Some(memory)
    ensures var out := Sync(lines, head, tail);
            var n, n' := SectionStart(lines), SectionStart(out);
            && out[n'..] == lines[n..]
            && WithoutArgs(out[..n']) == WithoutArgs(lines[..n])
            && ArgsCount(out[..n']) == 1
            && forall i | 0 <= i < n' && IsArgs(out[i]) :: out[i] == ArgsLine(Payload(head, memory, tail))
  {
    SyncIs(lines, head, tail, memory);
    hide Sync, Payload, ArgsLine, IsArgs, Rewritten, Global, Get, ParseInt, SectionStart, WithoutArgs, ArgsCount;
    GlobalFacts(lines, ArgsLine(Payload(head, memory, tail)));
  }

  /** A config without a numeric global `memory:` is left as it is. */
  lemma SyncWithoutMemory(lines: Conf, head: string, tail: string)
    requires CoerceInt(Get(lines, "memory")).None?
    ensures Sync(lines, head, tail) == lines
  {
    hide Get, ParseInt, Rewritten;
  }

  /** Every other field, `memory:` among them, reads as before. */
  lemma SyncKeepsFields(lines: Conf, head: string, tail: string, field: string)
    requires field != "args"
    ensures Get(Sync(lines, head, tail), field) == Get(lines, field)
  {
    var memory := CoerceInt(Get(lines, "memory"));
    if memory.Some? {
      SyncIs(lines, head, tail, memory.value);
      hide Sync, Payload, ArgsLine, IsArgs, Rewritten, Get, ParseInt;
      OtherValuesKept(lines, ArgsLine(Payload(head, memory.value, tail)), field);
    } else {
      SyncWithoutMemory(lines, head, tail);
    }
  }

  /** A second run changes nothing. */
  lemma SyncTwice(lines: Conf, head: string, tail: string)
    ensures Sync(Sync(lines, head, tail), head, tail) == Sync(lines, head, tail)
  {
    var memory := CoerceInt(Get(lines, "memory"));
    if memory.Some? {
      SyncKeepsFields(lines, head, tail, "memory");
      SyncIs(lines, head, tail, memory.value);
      SyncIs(Sync(lines, head, tail), head, tail, memory.value);
      hide Sync, Payload, ArgsLine, IsArgs, Rewritten, Get, ParseInt;
      RewrittenStable(lines, ArgsLine(Payload(head, memory.value, tail)));
    } else {
      SyncWithoutMemory(lines, head, tail);
    }
  }

  // ----- the same on the text of the file -----

  /** The lines of a synchronised text are the synchronised lines, less a blank one at the end. */
  lemma SyncTextLines(content: string, head: string, tail: string)
    requires '\n' !in head && '\n' !in tail && CoerceInt(GetText(content, "memory")).Some?
    ensures SingleLines(Sync(Lines(content), head, tail))
    ensures Sync(Lines(content), head, tail) != [] && Sync(Lines(content), head, tail) != [""]
    ensures Reread(Sync(Lines(content), head, tail), Lines(SyncText(content, head, tail)))
  {
    hide Sync, Payload, ArgsLine, IsArgs, Rewritten, Get, ParseInt, Rejoin, Lines, SingleLines;
    var lines := Lines(content);
    var memory := CoerceInt(Get(lines, "memory")).value;
    var line := ArgsLine(Payload(head, memory, tail));
    LinesAreSingle(content);
    LineIsSingle(head, memory, tail);
    SyncIs(lines, head, tail, memory);
    RewrittenIsSingle(lines, line);
    RejoinExactly(content, Rewritten(lines, line));
  }

  /** Synchronising the text keeps every other field and leaves one global `args:` line, with the memory. */
  lemma SyncTextFacts(content: string, head: string, tail: string, memory: int)
    requires '\n' !in head && '\n' !in tail && CoerceInt(GetText(content, "memory")) == Some(memory)
    ensures Settled(Lines(SyncText(content, head, tail)), ArgsLine(Payload(head, memory, tail)))
    ensures forall field | field != "args" :: GetText(SyncText(content, head, tail), field) == GetText(content, field)
  {
    var lines := Lines(content);
    var out := Lines(SyncText(content, head, tail));
    SyncTextLines(content, head, tail);
    SyncFacts(lines, head, tail, memory);
    hide Sync, Payload, ArgsLine, IsArgs, Rewritten, Get, ParseInt, Lines, SingleLines, WithoutArgs, ArgsCount, SyncText, SectionStart;
    if LastBlank(Sync(lines, head, tail)) {
      SettledWithoutBlank(out, ArgsLine(Payload(head, memory, tail)));
    }
    forall field | field != "args" ensures Get(out, field) == Get(lines, field) {
      SyncKeepsFields(lines, head, tail, field);
      BlankLineIgnored(out, field);
    }
  }

  lemma SettledIsNotBlank(line: string)
    ensures !Settled([""], line)
  {
    assert [""][..0] == [] && [""][..1] == [""];
    assert !IsArgs("");
  }

  /** A second run on the text changes nothing, exactly when the first did not leave a blank line at the end:
      each run on a text that ends in blank lines takes one away. */
  lemma SyncTextTwice(content: string, head: string, tail: string)
    requires '\n' !in head && '\n' !in tail
    ensures SyncText(SyncText(content, head, tail), head, tail) == SyncText(content, head, tail)
       <==> CoerceInt(GetText(content, "memory")).None? || !LastBlank(Lines(SyncText(content, head, tail)))
  {
    var memory := CoerceInt(GetText(content, "memory"));
    if memory.Some? {
      var lines, once := Sync(Lines(content), head, tail), SyncText(content, head, tail);
      var line := ArgsLine(Payload(head, memory.value, tail));
      SyncTextFacts(content, head, tail, memory.value);
      SyncTextLines(content, head, tail);
      SyncIs(Lines(once), head, tail, memory.value);
      assert once == Rejoin(content, lines);
      hide Sync, Payload, ArgsLine, IsArgs, Rewritten, ParseInt, SingleLines, Settled, Lines, Rejoin, Get, LastBlank, Reread;
      SettledIsFixed(Lines(once), line);
      SettledIsNotBlank(line);
      RejoinedAgain(content, lines, once);
    }
  }

  // ----- the size the hook script reads back -----

  /** The text between the memory backend's `size=` and the next `M`. */
  function MemfdSize(line: string): Option<int> {
    if MEMFD <= line then
      var rest := line[|MEMFD|..];
      ParseInt(rest[..First(rest, 'M')])
    else if line == "" then None
    else MemfdSize(line[1..])
  }

  lemma {:induction false} SkipTo(prefix: string, rest: string)
    requires forall j | 0 <= j < |prefix| :: !(MEMFD <= (prefix + rest)[j..])
    ensures MemfdSize(prefix + rest) == MemfdSize(rest)
  {
    if prefix == "" {
      assert prefix + rest == rest;
    } else {
      assert (prefix + rest)[0..] == prefix + rest;
      assert (prefix + rest)[1..] == prefix[1..] + rest;
      forall j | 0 <= j < |prefix[1..]| ensures !(MEMFD <= (prefix[1..] + rest)[j..]) {
        assert (prefix[1..] + rest)[j..] == (prefix + rest)[j + 1..];
      }
      SkipTo(prefix[1..], rest);
    }
  }

  lemma SizeRead(memory: int, after: string)
    ensures MemfdSize(MEMFD + (Integer(memory) + "M" + after)) == Some(memory)
  {
    var rest := Integer(memory) + "M" + after;
    assert (MEMFD + rest)[|MEMFD|..] == rest;
    assert 'M' !in Integer(memory);
    assert rest == Integer(memory) + ['M'] + after;
    FirstAt(Integer(memory), 'M', after);
    assert rest[..|Integer(memory)|] == Integer(memory);
    hide Integer, ParseInt;
    ParseIntOfInteger(memory);
  }

  /** The memfd size in the generated line is the memory it was generated for, as long as what kento
      puts before the memory backend does not itself name one. */
  lemma SizeFollowsMemory(head: string, memory: int, tail: string)
    requires forall j | 0 <= j < |ArgsLine(head)| + 1 :: !(MEMFD <= ArgsLine(Payload(head, memory, tail))[j..])
    ensures MemfdSize(ArgsLine(Payload(head, memory, tail))) == Some(memory)
  {
    hide Integer, MemfdSize;
    var prefix := ArgsLine(head) + " ";
    var rest := MEMFD + (Integer(memory) + "M" + (",share=on " + tail));
    assert "M,share=on " == "M" + ",share=on ";
    assert ArgsLine(Payload(head, memory, tail)) == prefix + rest;
    SkipTo(prefix, rest);
    SizeRead(memory, ",share=on " + tail);
  }
}
