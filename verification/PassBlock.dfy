/** The pass-through block of plain LXC: the denylist (`create.py`, `defaults.py`), the list as it is read back
    (`pve.py`), and how `kento set` drops the old block and appends the new one (`set_cmd.py`). */
module PassBlock {
  import opened ConfText
  import opened LxcConfig
  import opened Text

  /** `LXC_ARG_DENYLIST`. */
  const DENYLIST := ["lxc.uts.name", "lxc.rootfs.path", "lxc.hook.", "lxc.net.", "lxc.mount.auto", "lxc.tty.max",
                     "lxc.apparmor.", "lxc.cgroup2.memory.max", "lxc.cgroup2.cpu.max"]

  predicate Denied(arg: string) {
    exists i :: 0 <= i < |DENYLIST| && Occurs(DENYLIST[i], arg)
  }

  function RStripCr(s: string): (t: string)
    ensures t <= s
  {
    if s != "" && s[|s| - 1] == '\r' then RStripCr(s[..|s| - 1]) else s
  }

  function PassThrough(lines: seq<string>): seq<string> {
    if lines == [] then []
    else
      var line := RStripCr(lines[0]);
      (if line == "" then [] else [line]) + PassThrough(lines[1..])
  }

  /** `_read_passthrough_lines`. */
  function PassLines(file: Option<string>): seq<string> {
    match file
    case None => []
    case Some(text) => PassThrough(Lines(text))
  }

  /** No line sets a key that kento owns. */
  ghost predicate OwnsNothing(lines: seq<string>) {
    forall i, k: OwnedKey :: 0 <= i < |lines| ==> KeyOf(lines[i]) != Some(Name(k))
  }

  lemma NameIsDenied(k: OwnedKey)
    ensures exists i :: 0 <= i < |DENYLIST| && Occurs(DENYLIST[i], Name(k))
  {
    NameShape(k);
    var i := match k case MemoryMax => 7 case CpuMax => 8 case _ => 3;
    assert OccursAt(DENYLIST[i], Name(k), 0);
  }

  lemma AllowedOwnsNothing(arg: string, line: string)
    requires !Denied(arg) && Occurs(line, arg)
    ensures forall k: OwnedKey :: KeyOf(line) != Some(Name(k))
  {
    hide KeyOf, Name;
    forall k: OwnedKey ensures KeyOf(line) != Some(Name(k)) {
      NameIsDenied(k);
      var i :| 0 <= i < |DENYLIST| && Occurs(DENYLIST[i], Name(k));
      if KeyOf(line) == Some(Name(k)) {
        KeyOccurs(line);
        OccursTransitive(DENYLIST[i], Name(k), line);
        OccursTransitive(DENYLIST[i], line, arg);
        assert false;
      }
    }
  }

  /** The metadata text of a replaced pass-through list. */
  function ArgsText(args: seq<string>): string {
    Join(NonEmpty(args), '\n') + "\n"
  }

  predicate AllAllowed(args: seq<string>) {
    forall i :: 0 <= i < |args| ==> !Denied(args[i])
  }

  lemma {:induction false} NonEmptyAllowed(args: seq<string>)
    requires AllAllowed(args)
    ensures AllAllowed(NonEmpty(args))
  {
    hide Denied;
    if args == [] {
    } else {
      assert forall i | 0 <= i < |args[1..]| :: args[1..][i] == args[i + 1];
      NonEmptyAllowed(args[1..]);
    }
  }

  lemma {:induction false} RStripCrOccurs(s: string)
    ensures Occurs(RStripCr(s), s)
  {
    assert OccursAt(RStripCr(s), s, 0);
  }

  lemma {:induction false} PassThroughFrom(lines: seq<string>, line: string)
    requires line in PassThrough(lines)
    ensures exists l :: l in lines && Occurs(line, l)
  {
    RStripCrOccurs(lines[0]);
    hide Occurs;
    if line == RStripCr(lines[0]) {
      assert lines[0] in lines;
    } else {
      PassThroughFrom(lines[1..], line);
      var l :| l in lines[1..] && Occurs(line, l);
      assert l in lines;
    }
  }

  lemma JoinedLines(items: seq<string>, l: string)
    requires items != [] && l in Lines(Join(items, '\n') + "\n")
    ensures exists a :: a in items && Occurs(l, a)
  {
    var joined := Join(items, '\n');
    hide Join, Occurs;
    assert joined + "\n" == joined + ['\n'] + "";
    SplitConcat(joined, '\n', "");
    assert Split("", '\n') == [""];
    assert Lines(joined + "\n") == Split(joined, '\n');
    SplitOfJoinOccurs(items, '\n', l);
  }

  /** No line of a written pass-through list sets an owned key, if every item passed the denylist. */
  lemma ItemsOwnNoKey(items: seq<string>)
    requires AllAllowed(items) && items != []
    ensures OwnsNothing(PassLines(Some(Join(items, '\n') + "\n")))
  {
    var text := Join(items, '\n') + "\n";
    var block := PassLines(Some(text));
    hide Denied, KeyOf, Name, Join, Lines;
    forall i, k: OwnedKey | 0 <= i < |block| ensures KeyOf(block[i]) != Some(Name(k)) {
      PassThroughFrom(Lines(text), block[i]);
      var l :| l in Lines(text) && Occurs(block[i], l);
      JoinedLines(items, l);
      var a :| a in items && Occurs(l, a);
      OccursTransitive(block[i], l, a);
      var j :| 0 <= j < |items| && items[j] == a;
      AllowedOwnsNothing(a, block[i]);
    }
  }

  /** The denylist does its work: no line of an accepted pass-through list sets an owned key. */
  lemma AcceptedArgsOwnNothing(args: seq<string>)
    requires AllAllowed(args) && NonEmpty(args) != []
    ensures OwnsNothing(PassLines(Some(ArgsText(args))))
  {
    NonEmptyAllowed(args);
    ItemsOwnNoKey(NonEmpty(args));
  }

  // ----- what is read back -----

  /** The lines of the items one after the other, each item read on its own. */
  function LinesOfItems(args: seq<string>): seq<string> {
    if args == [] then [] else PassThrough(Split(args[0], '\n')) + LinesOfItems(args[1..])
  }

  lemma {:induction false} PassThroughConcat(a: seq<string>, b: seq<string>)
    ensures PassThrough(a + b) == PassThrough(a) + PassThrough(b)
  {
    if a == [] {
      assert a + b == b;
    } else {
      assert (a + b)[1..] == a[1..] + b;
      PassThroughConcat(a[1..], b);
    }
  }

  lemma {:induction false} JoinedPass(items: seq<string>)
    requires items != []
    ensures PassThrough(Split(Join(items, '\n'), '\n')) == LinesOfItems(items)
  {
    hide Split, PassThrough;
    if |items| == 1 {
      assert items[1..] == [];
      assert LinesOfItems(items) == PassThrough(Split(items[0], '\n')) + LinesOfItems([]);
    } else {
      JoinedPass(items[1..]);
      assert Join(items, '\n') == items[0] + ['\n'] + Join(items[1..], '\n');
      SplitConcat(items[0], '\n', Join(items[1..], '\n'));
      PassThroughConcat(Split(items[0], '\n'), Split(Join(items[1..], '\n'), '\n'));
    }
  }

  lemma {:induction false} EmptyItemsVanish(args: seq<string>)
    ensures LinesOfItems(NonEmpty(args)) == LinesOfItems(args)
  {
    if args == [] {
    } else {
      EmptyItemsVanish(args[1..]);
      assert PassThrough(Split("", '\n')) == [] by {
        assert Split("", '\n') == [""] && [""][1..] == [] && RStripCr("") == "";
      }
      hide Split, PassThrough;
      if args[0] == "" {
        assert [] + NonEmpty(args[1..]) == NonEmpty(args[1..]);
        assert [] + LinesOfItems(args[1..]) == LinesOfItems(args[1..]);
      } else {
        assert ([args[0]] + NonEmpty(args[1..]))[1..] == NonEmpty(args[1..]);
      }
    }
  }

  lemma WrittenItems(items: seq<string>)
    requires items != []
    ensures PassLines(Some(Join(items, '\n') + "\n")) == LinesOfItems(items)
  {
    var joined := Join(items, '\n');
    JoinedPass(items);
    hide Join, PassThrough, LinesOfItems;
    assert joined + "\n" == joined + ['\n'] + "";
    SplitConcat(joined, '\n', "");
    assert Split("", '\n') == [""];
    assert Lines(joined + "\n") == Split(joined, '\n');
  }

  lemma {:induction false} PlainItems(args: seq<string>)
    requires forall a | a in args :: '\n' !in a && '\r' !in a
    ensures LinesOfItems(args) == NonEmpty(args)
  {
    if args == [] {
    } else {
      assert args[0] in args && forall a | a in args[1..] :: a in args;
      PlainItems(args[1..]);
      SplitFree(args[0], '\n');
      assert RStripCr(args[0]) == args[0];
      hide Split;
      assert PassThrough([args[0]]) == (if args[0] == "" then [] else [args[0]]) + PassThrough([args[0]][1..]);
    }
  }

  /** A list reads back as the lines of its items; as its non-empty items when each is one line. */
  lemma ArgsReadBack(args: seq<string>)
    requires NonEmpty(args) != []
    ensures PassLines(Some(ArgsText(args))) == LinesOfItems(args)
    ensures (forall a | a in args :: '\n' !in a && '\r' !in a) ==> PassLines(Some(ArgsText(args))) == NonEmpty(args)
  {
    hide Join, LinesOfItems, PassLines;
    WrittenItems(NonEmpty(args));
    EmptyItemsVanish(args);
    if forall a | a in args :: '\n' !in a && '\r' !in a {
      PlainItems(args);
    }
  }

  /** `_drop_passthrough_block`. */
  function DropBlock(lines: Conf, known: seq<string>, inGlobal: bool): Conf {
    if lines == [] then []
    else
      var still := inGlobal && !IsHeader(lines[0]);
      (if still && lines[0] in known then [] else [lines[0]]) + DropBlock(lines[1..], known, still)
  }

  lemma DropStep(lines: Conf, i: nat, known: seq<string>, inGlobal: bool, kept: Conf)
    requires i < |lines|
    ensures var still := inGlobal && !IsHeader(lines[i]);
            kept + DropBlock(lines[i..], known, inGlobal)
            == (if still && lines[i] in known then kept else kept + [lines[i]]) + DropBlock(lines[i + 1..], known, still)
  {
    hide IsHeader;
    assert lines[i..][0] == lines[i] && lines[i..][1..] == lines[i + 1..];
  }

  lemma {:induction false} DropNothing(lines: Conf, inGlobal: bool)
    ensures DropBlock(lines, [], inGlobal) == lines
  {
    if lines == [] {
    } else {
      DropNothing(lines[1..], inGlobal && !IsHeader(lines[0]));
    }
  }

  method DropPassthroughBlock(lines: Conf, known: seq<string>) returns (kept: Conf)
    ensures kept == DropBlock(lines, known, true)
  {
    if known == [] {
      DropNothing(lines, true);
      return lines;
    }
    assert lines[0..] == lines && DropBlock([], known, true) == DropBlock([], known, false) == [];
    hide IsHeader, DropBlock;
    kept := [];
    var inGlobal := true;
    for i := 0 to |lines|
      invariant DropBlock(lines, known, true) == kept + DropBlock(lines[i..], known, inGlobal)
    {
      DropStep(lines, i, known, inGlobal, kept);
      if IsHeader(lines[i]) {
        inGlobal := false;
      }
      if !(inGlobal && lines[i] in known) {
        kept := kept + [lines[i]];
      }
    }
    assert lines[|lines|..] == [] && kept + [] == kept;
  }

  /** Dropping lines that own nothing changes no owned key. */
  lemma {:induction false} DropKeepsOwned(lines: Conf, known: seq<string>, inGlobal: bool, k: OwnedKey)
    requires OwnsNothing(known)
    ensures Count(DropBlock(lines, known, inGlobal), Name(k)) == Count(lines, Name(k))
    ensures Owned(DropBlock(lines, known, inGlobal), k) == Owned(lines, k)
  {
    hide KeyOf, RawValue, Name, IsHeader, Count, Lookup;
    if lines == [] {
    } else {
      var still := inGlobal && !IsHeader(lines[0]);
      var rest := DropBlock(lines[1..], known, still);
      DropKeepsOwned(lines[1..], known, still, k);
      assert lines == [lines[0]] + lines[1..];
      CountConcat([lines[0]], lines[1..], Name(k));
      CountConcat([lines[0]], rest, Name(k));
      OneLine(lines[0], Name(k));
      if still && lines[0] in known {
        assert [] + rest == rest;
      }
    }
  }

  /** `content.rstrip("\n")` on lines. */
  function DropBlankEnd(lines: Conf): Conf {
    if lines != [] && lines[|lines| - 1] == "" then DropBlankEnd(lines[..|lines| - 1]) else lines
  }

  /** The new block after the body; a body with nothing in it leaves one blank line. */
  function AppendBlock(lines: Conf, block: seq<string>): Conf {
    var body := DropBlankEnd(lines);
    (if body == [] then [""] else body) + (if block == [] then [""] else block)
  }

  lemma {:induction false} NothingOwned(lines: seq<string>, k: OwnedKey)
    requires OwnsNothing(lines)
    ensures Count(lines, Name(k)) == 0 && Owned(lines, k).None?
  {
    hide KeyOf, RawValue, Name;
    if lines == [] {
    } else {
      NothingOwned(lines[..|lines| - 1], k);
    }
    LookupNone(lines, Name(k));
  }

  lemma BlankOwnsNothing()
    ensures OwnsNothing([""])
  {
    assert KeyOf("").None?;
  }

  lemma {:induction false} BlankEndOwned(lines: Conf, k: OwnedKey)
    ensures Count(DropBlankEnd(lines), Name(k)) == Count(lines, Name(k))
    ensures Owned(DropBlankEnd(lines), k) == Owned(lines, k)
  {
    BlankOwnsNothing();
    hide KeyOf, RawValue, Name, Count, Lookup, OwnsNothing;
    if lines != [] && lines[|lines| - 1] == "" {
      var n := |lines| - 1;
      assert lines == lines[..n] + [""];
      BlankEndOwned(lines[..n], k);
      NothingOwned([""], k);
      CountConcat(lines[..n], [""], Name(k));
    }
  }

  lemma AppendKeepsOwned(lines: Conf, block: seq<string>, k: OwnedKey)
    requires OwnsNothing(block)
    ensures Count(AppendBlock(lines, block), Name(k)) == Count(lines, Name(k))
    ensures Owned(AppendBlock(lines, block), k) == Owned(lines, k)
  {
    BlankOwnsNothing();
    var body := DropBlankEnd(lines);
    BlankEndOwned(lines, k);
    NothingOwned([""], k);
    NothingOwned(block, k);
    assert Count([], Name(k)) == 0 && Owned([], k).None?;
    hide KeyOf, RawValue, Name, Count, Lookup, OwnsNothing, DropBlankEnd;
    CountConcat(if body == [] then [""] else body, if block == [] then [""] else block, Name(k));
  }

  /** What `rstrip` leaves of the lines above a block. */
  function Above(lines: Conf): Conf {
    if DropBlankEnd(lines) == [] then [""] else DropBlankEnd(lines)
  }

  lemma DropEmpty(known: seq<string>)
    ensures DropBlock([], known, true) == []
  {
  }

  lemma DropHead(lines: Conf, known: seq<string>)
    requires lines != [] && !IsHeader(lines[0])
    ensures DropBlock(lines, known, true) == (if lines[0] in known then [] else [lines[0]]) + DropBlock(lines[1..], known, true)
  {
    hide IsHeader;
  }

  lemma {:induction false} DropConcat(a: Conf, b: Conf, known: seq<string>)
    requires forall l | l in a :: !IsHeader(l)
    ensures DropBlock(a + b, known, true) == DropBlock(a, known, true) + DropBlock(b, known, true)
  {
    hide IsHeader, DropBlock;
    if a == [] {
      assert a + b == b;
      DropEmpty(known);
    } else {
      assert a[0] in a && forall l | l in a[1..] :: l in a;
      assert (a + b)[1..] == a[1..] + b;
      DropHead(a + b, known);
      DropHead(a, known);
      DropConcat(a[1..], b, known);
    }
  }

  lemma {:induction false} DropNone(lines: Conf, known: seq<string>, inGlobal: bool)
    requires inGlobal ==> forall l | l in lines :: l !in known
    ensures DropBlock(lines, known, inGlobal) == lines
  {
    hide IsHeader;
    if lines == [] {
    } else {
      assert lines[0] in lines && forall l | l in lines[1..] :: l in lines;
      DropNone(lines[1..], known, inGlobal && !IsHeader(lines[0]));
    }
  }

  lemma {:induction false} BlankEndPart(lines: Conf)
    ensures forall l | l in DropBlankEnd(lines) :: l in lines
  {
    if lines != [] && lines[|lines| - 1] == "" {
      BlankEndPart(lines[..|lines| - 1]);
    }
  }

  /** The lines that are not among the known ones, in order. */
  function Except(lines: Conf, known: seq<string>): Conf {
    if lines == [] then [] else (if lines[0] in known then [] else [lines[0]]) + Except(lines[1..], known)
  }

  lemma {:induction false} ExceptConcat(a: Conf, b: Conf, known: seq<string>)
    ensures Except(a + b, known) == Except(a, known) + Except(b, known)
  {
    if a == [] {
      assert a + b == b;
    } else {
      assert (a + b)[1..] == a[1..] + b;
      ExceptConcat(a[1..], b, known);
    }
  }

  /** Nothing is added, and nothing is lost exactly when no line is known. */
  lemma {:induction false} ExceptFacts(lines: Conf, known: seq<string>)
    ensures forall l | l in Except(lines, known) :: l in lines && l !in known
    ensures |Except(lines, known)| <= |lines|
    ensures |Except(lines, known)| == |lines| <==> forall l | l in lines :: l !in known
    ensures (forall l | l in lines :: l !in known) ==> Except(lines, known) == lines
    ensures (forall l | l in lines :: l in known) ==> Except(lines, known) == []
  {
    if lines == [] {
    } else {
      assert lines[0] in lines && forall l | l in lines[1..] :: l in lines;
      assert forall l | l in lines :: l == lines[0] || l in lines[1..];
      ExceptFacts(lines[1..], known);
    }
  }

  lemma {:induction false} DropGlobal(lines: Conf, known: seq<string>)
    requires forall l | l in lines :: !IsHeader(l)
    ensures DropBlock(lines, known, true) == Except(lines, known)
  {
    hide IsHeader;
    if lines == [] {
    } else {
      assert lines[0] in lines && forall l | l in lines[1..] :: l in lines;
      DropGlobal(lines[1..], known);
    }
  }

  lemma DropFromHeader(lines: Conf, known: seq<string>)
    requires lines != [] ==> IsHeader(lines[0])
    ensures DropBlock(lines, known, true) == lines
  {
    if lines == [] {
    } else {
      hide IsHeader;
      DropNone(lines[1..], known, false);
      assert [lines[0]] + lines[1..] == lines;
    }
  }

  /** Dropping takes the known lines out of the global section and leaves the rest. */
  lemma DropIs(lines: Conf, known: seq<string>)
    ensures DropBlock(lines, known, true) == Except(lines[..SectionStart(lines)], known) + lines[SectionStart(lines)..]
  {
    hide IsHeader, DropBlock, Except;
    var n := SectionStart(lines);
    assert lines == lines[..n] + lines[n..];
    DropConcat(lines[..n], lines[n..], known);
    DropGlobal(lines[..n], known);
    DropFromHeader(lines[n..], known);
  }

  lemma SectionOfConcat(a: Conf, b: Conf)
    ensures SectionStart(a + b) == if SectionStart(a) < |a| then SectionStart(a) else |a| + SectionStart(b)
  {
    hide IsHeader, SectionStart;
    var n := if SectionStart(a) < |a| then SectionStart(a) else |a| + SectionStart(b);
    assert forall i | 0 <= i < |a + b| :: (a + b)[i] == if i < |a| then a[i] else b[i - |a|];
    SectionStartIs(a + b, n);
  }

  /** What dropping a block leaves of it and of the lines above. A line above that is also in the block goes with
      it; from the first header-like line on, above or in the block, everything stays. */
  function LeftOver(above: Conf, block: seq<string>): Conf {
    var n := SectionStart(above);
    if n < |above| then Except(above[..n], block) + above[n..] + block
    else Except(above, block) + block[SectionStart(block)..]
  }

  lemma DropWithHeader(above: Conf, block: seq<string>)
    requires SectionStart(above) < |above|
    ensures var n := SectionStart(above);
            DropBlock(above + block, block, true) == Except(above[..n], block) + above[n..] + block
  {
    hide IsHeader, SectionStart, DropBlock, Except;
    var n, all := SectionStart(above), above + block;
    DropIs(all, block);
    SectionOfConcat(above, block);
    assert all[..n] == above[..n] && all[n..] == above[n..] + block;
    var kept := Except(above[..n], block);
    assert kept + (above[n..] + block) == kept + above[n..] + block;
  }

  lemma DropWithoutHeader(above: Conf, block: seq<string>)
    requires SectionStart(above) == |above|
    ensures DropBlock(above + block, block, true) == Except(above, block) + block[SectionStart(block)..]
  {
    hide IsHeader, SectionStart, DropBlock, Except;
    var m, all := SectionStart(block), above + block;
    DropIs(all, block);
    SectionOfConcat(above, block);
    assert all[..|above| + m] == above + block[..m] && all[|above| + m..] == block[m..];
    ExceptConcat(above, block[..m], block);
    ExceptFacts(block[..m], block);
    var kept := Except(above, block);
    assert kept + [] == kept;
  }

  lemma DroppedExactly(above: Conf, block: seq<string>)
    ensures DropBlock(above + block, block, true) == LeftOver(above, block)
  {
    hide IsHeader, DropBlock, Except;
    if SectionStart(above) < |above| {
      DropWithHeader(above, block);
    } else {
      DropWithoutHeader(above, block);
    }
  }

  /** The lines above can be told from the block: none of them is in it, and nothing looks like a section header. */
  predicate Separable(above: Conf, block: seq<string>) {
    block == [] || ((forall l | l in above :: l !in block && !IsHeader(l)) && forall l | l in block :: !IsHeader(l))
  }

  lemma HeaderAbove(above: Conf, block: seq<string>)
    requires block != [] && SectionStart(above) < |above|
    ensures LeftOver(above, block) != above
  {
    hide IsHeader, Except;
    var n := SectionStart(above);
    var kept, all := Except(above[..n], block), LeftOver(above, block);
    ExceptFacts(above[..n], block);
    assert all[|kept|] == above[n] && |all| == |kept| + |above| - n + |block|;
    assert |kept| < n ==> !IsHeader(above[|kept|]);
  }

  lemma NoHeaderAbove(above: Conf, block: seq<string>)
    requires block != [] && SectionStart(above) == |above|
    ensures LeftOver(above, block) == above <==> Separable(above, block)
  {
    hide IsHeader, Except;
    var m, kept := SectionStart(block), Except(above, block);
    ExceptFacts(above, block);
    assert forall l | l in above :: !IsHeader(l);
    if m < |block| {
      var all := kept + block[m..];
      assert all[|kept|] == block[m] && block[m] in block;
      assert |kept| < |above| ==> above[|kept|] in above;
    } else {
      assert kept + block[m..] == kept;
      assert forall l | l in block :: !IsHeader(l);
    }
  }

  /** Dropping a block gives the lines above it back, all of them and in order, if and only if they can be told
      from it. */
  lemma DropGivesBack(above: Conf, block: seq<string>)
    ensures DropBlock(above + block, block, true) == above <==> Separable(above, block)
  {
    hide IsHeader, SectionStart, DropBlock, Except, LeftOver;
    if block == [] {
      assert above + block == above;
      DropNothing(above, true);
    } else {
      DroppedExactly(above, block);
      if SectionStart(above) < |above| {
        HeaderAbove(above, block);
        assert above[SectionStart(above)] in above;
      } else {
        NoHeaderAbove(above, block);
      }
    }
  }

  /** The same for a block appended by `kento set`, which takes the blank lines above it away first. */
  lemma DropUndoesAppend(lines: Conf, block: seq<string>)
    ensures DropBlock(AppendBlock(lines, block), block, true) == Above(lines) <==> block != [] && Separable(Above(lines), block)
  {
    hide Separable, DropBlock, DropBlankEnd;
    if block == [] {
      DropNothing(AppendBlock(lines, block), true);
      assert |AppendBlock(lines, block)| == |Above(lines)| + 1;
    } else {
      DropGivesBack(Above(lines), block);
    }
  }

  // ----- the same on the text of the file -----

  /** `_drop_passthrough_block` on a text. */
  function DropText(content: string, known: seq<string>): string {
    if known == [] then content else Rejoin(content, DropBlock(Lines(content), known, true))
  }

  /** `content.rstrip("\n")`. */
  function WithoutBreaks(content: string): string {
    if EndsLine(content) then WithoutBreaks(content[..|content| - 1]) else content
  }

  function AppendText(content: string, block: seq<string>): string {
    WithoutBreaks(content) + "\n" + Join(block, '\n') + "\n"
  }

  lemma JoinOfNone()
    ensures Join([], '\n') == ""
  {
  }

  lemma {:induction false} BreaksOfJoin(lines: Conf)
    requires SingleLines(lines) && lines != []
    ensures WithoutBreaks(Join(lines, '\n')) == Join(DropBlankEnd(lines), '\n')
  {
    hide Join;
    var n := |lines| - 1;
    if lines[n] != "" {
      JoinEndsLine(lines);
    } else if n == 0 {
      assert lines == [""];
      JoinOfOne("");
      assert Join([], '\n') == "" by { JoinOfNone(); }
      assert DropBlankEnd(lines) == [] by { assert lines[..0] == []; }
    } else {
      JoinAppend(lines[..n], '\n', "");
      assert lines == lines[..n] + [""];
      var front := Join(lines[..n], '\n');
      assert Join(lines, '\n') == front + "\n";
      assert (front + "\n")[..|front|] == front;
      BreaksOfJoin(lines[..n]);
    }
  }

  lemma BlankEndDropped(lines: Conf)
    ensures DropBlankEnd(lines + [""]) == DropBlankEnd(lines)
  {
    assert (lines + [""])[..|lines|] == lines;
  }

  /** Stripping the line breaks off a text leaves the lines above a block. */
  lemma BreaksOfText(content: string)
    ensures WithoutBreaks(content) == Join(Above(Lines(content)), '\n')
  {
    var parts := Split(content, '\n');
    JoinOfSplit(content, '\n');
    SplitPartsFree(content, '\n');
    hide Split, Join, DropBlankEnd, WithoutBreaks;
    assert forall k | 0 <= k < |parts| :: parts[k] in parts;
    BreaksOfJoin(parts);
    if parts[|parts| - 1] == "" {
      assert parts == parts[..|parts| - 1] + [""];
      BlankEndDropped(parts[..|parts| - 1]);
    }
    JoinOfNone();
    JoinOfOne("");
  }

  lemma {:induction false} BlankEndSingle(lines: Conf)
    requires SingleLines(lines)
    ensures SingleLines(DropBlankEnd(lines)) && !LastBlank(DropBlankEnd(lines))
  {
    if LastBlank(lines) {
      BlankEndSingle(lines[..|lines| - 1]);
    }
  }

  lemma {:induction false} JoinConcat(a: Conf, b: Conf)
    requires a != [] && b != []
    ensures Join(a + b, '\n') == Join(a, '\n') + "\n" + Join(b, '\n')
  {
    if |a| == 1 {
      assert (a + b)[1..] == b;
    } else {
      assert (a + b)[1..] == a[1..] + b;
      JoinConcat(a[1..], b);
    }
  }

  /** The appended text, line by line. */
  lemma AppendedLines(content: string, block: seq<string>)
    requires SingleLines(block)
    ensures Lines(AppendText(content, block)) == AppendBlock(Lines(content), block)
    ensures SingleLines(AppendBlock(Lines(content), block))
  {
    var above, rest := Above(Lines(content)), if block == [] then [""] else block;
    LinesAreSingle(content);
    BlankEndSingle(Lines(content));
    BreaksOfText(content);
    JoinOfNone();
    JoinOfOne("");
    hide Lines, Join, DropBlankEnd;
    JoinConcat(above, rest);
    assert above + rest == AppendBlock(Lines(content), block);
    var front := Join(above, '\n');
    assert AppendText(content, block) == front + "\n" + Join(rest, '\n') + "\n";
    LinesOfJoinEnded(above + rest);
  }

  lemma {:induction false} PassedLines(lines: seq<string>)
    requires SingleLines(lines)
    ensures SingleLines(PassThrough(lines)) && "" !in PassThrough(lines)
  {
    if lines == [] {
    } else {
      assert '\n' !in lines[0] && forall k | 0 <= k < |lines[1..]| :: lines[1..][k] == lines[k + 1];
      PassedLines(lines[1..]);
      hide RStripCr;
    }
  }

  /** A list as it is read back: single lines, none of them empty. */
  lemma PassLinesShape(file: Option<string>)
    ensures SingleLines(PassLines(file)) && "" !in PassLines(file)
  {
    if file.Some? {
      LinesAreSingle(file.value);
      PassedLines(Lines(file.value));
    }
    hide Lines, PassThrough;
  }

  lemma LeftOverLast(above: Conf, block: seq<string>)
    requires SectionStart(above) < |above| || SectionStart(block) < |block|
    ensures block != [] ==> LeftOver(above, block) != [] && LeftOver(above, block)[|LeftOver(above, block)| - 1] == block[|block| - 1]
  {
    hide IsHeader, Except, SectionStart;
  }

  lemma LeftOverPlain(above: Conf, block: seq<string>)
    requires !(SectionStart(above) < |above| || SectionStart(block) < |block|)
    ensures LeftOver(above, block) == Except(above, block)
  {
    hide IsHeader, Except, SectionStart;
    assert block[SectionStart(block)..] == [];
  }

  /** What a drop leaves has no new blank line at its end. */
  lemma LeftOverEnd(above: Conf, block: seq<string>)
    requires block != [] && "" !in block
    ensures LeftOver(above, block) != above + [""] && (above == [""] ==> LeftOver(above, block) != [])
  {
    hide IsHeader, Except, SectionStart, LeftOver;
    var end := block[|block| - 1];
    assert end in block && end != "";
    if SectionStart(above) < |above| || SectionStart(block) < |block| {
      LeftOverLast(above, block);
      assert (above + [""])[|above|] == "";
    } else {
      LeftOverPlain(above, block);
      ExceptFacts(above, block);
      assert |above + [""]| > |above|;
      assert above == [""] ==> forall l | l in above :: l !in block;
    }
  }

  lemma LeftOverSingle(above: Conf, block: seq<string>)
    requires SingleLines(above) && SingleLines(block)
    ensures SingleLines(LeftOver(above, block))
  {
    var n := SectionStart(above);
    ExceptFacts(above[..n], block);
    ExceptFacts(above, block);
    hide IsHeader, Except, SectionStart;
    var all := LeftOver(above, block);
    forall k | 0 <= k < |all| ensures '\n' !in all[k] {
      assert all[k] in above || all[k] in block;
    }
  }

  lemma JoinedSame(a: Conf, b: Conf)
    requires SingleLines(a) && SingleLines(b) && b != [] && (b == [""] ==> a != [])
    ensures Join(a, '\n') == Join(b, '\n') <==> a == b
  {
    JoinOfNone();
    if a != [] {
      SplitOfJoin(a, '\n');
    }
    SplitOfJoin(b, '\n');
    assert Split("", '\n') == [""];
    hide Split, Join;
  }

  /** The text that the edited lines are put together to, for lines that keep or lose the blank end of a file. */
  lemma RejoinedSame(content: string, lines: Conf, above: Conf)
    requires SingleLines(lines) && SingleLines(above) && above != [] && (LastBlank(above) ==> above == [""])
    requires EndsLine(content) && lines != above + [""] && (above == [""] ==> lines != [])
    ensures Rejoin(content, lines) == Join(above, '\n') + "\n" <==> lines == above
  {
    hide Join, Split;
    JoinEndsLine(above);
    JoinedSame(lines, above);
    JoinAppend(above, '\n', "");
    assert Join(above + [""], '\n') == Join(above, '\n') + "\n";
    assert SingleLines(above + [""]);
    JoinedSame(lines, above + [""]);
    if !EndsLine(Join(lines, '\n')) {
      var a, b := Join(lines, '\n'), Join(above, '\n');
      assert (a + "\n")[..|a|] == a && (b + "\n")[..|b|] == b;
    }
  }

  /** On texts: dropping an appended block gives back the text, with one line break at its end, if and only if the
      block can be told from the lines above it. */
  lemma DropTextUndoesAppend(content: string, file: Option<string>)
    ensures DropText(AppendText(content, PassLines(file)), PassLines(file)) == WithoutBreaks(content) + "\n"
       <==> PassLines(file) != [] && Separable(Above(Lines(content)), PassLines(file))
  {
    var block, above := PassLines(file), Above(Lines(content));
    var text := AppendText(content, block);
    PassLinesShape(file);
    AppendedLines(content, block);
    BreaksOfText(content);
    LinesAreSingle(content);
    BlankEndSingle(Lines(content));
    assert SingleLines(above) && (LastBlank(above) ==> above == [""]);
    assert EndsLine(text);
    hide PassLines, Lines, Join, DropBlankEnd, Separable, Rejoin, LeftOver, DropBlock, SingleLines, EndsLine, LastBlank;
    if block == [] {
      assert text == WithoutBreaks(content) + "\n" + Join([], '\n') + "\n";
      assert |text| > |WithoutBreaks(content) + "\n"|;
    } else {
      DroppedExactly(above, block);
      DropGivesBack(above, block);
      LeftOverEnd(above, block);
      LeftOverSingle(above, block);
      RejoinedSame(text, LeftOver(above, block), above);
    }
  }
}
