/** Config files as lists of lines: section headers, and how the editors split a text into lines and put the
    edited lines back together (`set_cmd.py`, `pve.py`). */
module ConfText {
  import opened Text

  type Conf = seq<string>

  predicate IsHeader(raw: string) {
    var s := Strip(raw);
    s != "" && s[0] == '[' && s[|s| - 1] == ']'
  }

  /** Index of the first section header; everything before it is the global section. */
  function SectionStart(lines: Conf): (n: nat)
    ensures n <= |lines|
    ensures forall i | 0 <= i < n :: !IsHeader(lines[i])
    ensures n < |lines| ==> IsHeader(lines[n])
  {
    if lines == [] then 0
    else if IsHeader(lines[0]) then 0
    else 1 + SectionStart(lines[1..])
  }

  lemma SectionStartIs(lines: Conf, n: nat)
    requires n <= |lines| && (forall i | 0 <= i < n :: !IsHeader(lines[i])) && (n < |lines| ==> IsHeader(lines[n]))
    ensures SectionStart(lines) == n
  {
  }

  predicate EndsLine(s: string) {
    s != "" && s[|s| - 1] == '\n'
  }

  /** How the editors put their lines back together. One trailing blank line can be lost here. */
  function Rejoin(content: string, lines: Conf): string {
    var out := Join(lines, '\n');
    if EndsLine(content) && !EndsLine(out) then out + "\n" else out
  }

  predicate SingleLines(lines: Conf) {
    forall i :: 0 <= i < |lines| ==> '\n' !in lines[i]
  }

  lemma LinesOfJoin(lines: Conf)
    requires SingleLines(lines) && lines != []
    ensures Lines(Join(lines, '\n')) == lines || Lines(Join(lines, '\n')) + [""] == lines
  {
    hide Split, Join;
    SplitOfJoin(lines, '\n');
  }

  lemma LinesOfJoinEnded(lines: Conf)
    requires SingleLines(lines) && lines != []
    ensures Lines(Join(lines, '\n') + "\n") == lines
  {
    hide Split, Join;
    JoinAppend(lines, '\n', "");
    assert Join(lines, '\n') + ['\n'] + "" == Join(lines, '\n') + "\n";
    var all := lines + [""];
    assert forall p | p in all :: '\n' !in p;
    SplitOfJoin(all, '\n');
    assert all[|all| - 1] == "" && all[..|lines|] == lines;
  }

  lemma RejoinRead(content: string, lines: Conf)
    requires SingleLines(lines)
    ensures var read := Lines(Rejoin(content, lines));
            read == lines || read + [""] == lines || read == lines + [""]
  {
    if lines == [] {
      assert Join(lines, '\n') == "";
      assert Lines("") == [] && Lines("\n") == [""] == lines + [""];
      assert Rejoin(content, lines) == "" || Rejoin(content, lines) == "\n";
    } else {
      LinesOfJoin(lines);
      LinesOfJoinEnded(lines);
      hide Lines, Join;
    }
  }

  predicate LastBlank(lines: Conf) {
    lines != [] && lines[|lines| - 1] == ""
  }

  /** The text of lines ends in a line break exactly when the last of several is blank. */
  lemma EndsAfterBreak(a: string, last: string)
    requires '\n' !in last
    ensures EndsLine(a + ['\n'] + last) <==> last == ""
  {
    var s := a + ['\n'] + last;
    if last != "" {
      assert s[|s| - 1] == last[|last| - 1] && last[|last| - 1] in last;
    } else {
      assert s == a + ['\n'];
    }
  }

  lemma NoBreakAtEnd(last: string)
    requires '\n' !in last
    ensures !EndsLine(last)
  {
    if last != "" {
      assert last[|last| - 1] in last;
    }
  }

  lemma JoinOfOne(last: string)
    ensures Join([last], '\n') == last
  {
  }

  lemma JoinEndsLine(lines: Conf)
    requires SingleLines(lines) && lines != []
    ensures EndsLine(Join(lines, '\n')) <==> LastBlank(lines) && |lines| > 1
  {
    hide Join, EndsLine;
    var n := |lines| - 1;
    var last := lines[n];
    assert '\n' !in last;
    if n == 0 {
      assert lines == [last];
      JoinOfOne(last);
      NoBreakAtEnd(last);
    } else {
      assert lines == lines[..n] + [last];
      JoinAppend(lines[..n], '\n', last);
      EndsAfterBreak(Join(lines[..n], '\n'), last);
    }
  }

  lemma LinesAreSingle(content: string)
    ensures SingleLines(Lines(content))
  {
    SplitPartsFree(content, '\n');
    var parts := Split(content, '\n');
    assert forall i | 0 <= i < |parts| :: parts[i] in parts;
  }

  /** What reading back gives: all the lines, less a blank one at the end. */
  predicate Reread(lines: Conf, read: Conf) {
    if LastBlank(lines) then read + [""] == lines else read == lines
  }

  lemma JoinRead(lines: Conf)
    requires SingleLines(lines) && lines != []
    ensures Reread(lines, Lines(Join(lines, '\n')))
  {
    hide Split, Join;
    SplitOfJoin(lines, '\n');
  }

  lemma RejoinExactly(content: string, lines: Conf)
    requires SingleLines(lines) && exists line :: line in lines && line != ""
    ensures Reread(lines, Lines(Rejoin(content, lines)))
  {
    var line :| line in lines && line != "";
    assert |lines| == 1 ==> lines == [line];
    assert LastBlank(lines) ==> |lines| > 1;
    hide Split, Join, SingleLines, EndsLine;
    JoinEndsLine(lines);
    if LastBlank(lines) || !EndsLine(content) {
      JoinRead(lines);
    } else {
      LinesOfJoinEnded(lines);
    }
  }

  /** Rejoining what was read back: the same text, unless yet another blank line goes. */
  lemma RejoinedAgain(content: string, lines: Conf, once: string)
    requires SingleLines(lines) && lines != [] && lines != [""] && once == Rejoin(content, lines) && Reread(lines, Lines(once)) && Lines(once) != [""]
    ensures Rejoin(once, Lines(once)) == once <==> !LastBlank(Lines(once))
  {
    var read := Lines(once);
    LinesAreSingle(once);
    hide Lines, Join, Split, SingleLines;
    JoinEndsLine(lines);
    JoinEndsLine(read);
    if LastBlank(lines) {
      JoinAppend(read, '\n', "");
      assert Join(lines, '\n') == Join(read, '\n') + "\n";
    }
  }
}
