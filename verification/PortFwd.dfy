/** Host firewall rules of one forward (`portfwd.py`): the comment tag, the three chains and the
    two ways of removing every rule that carries a comment. */
module PortFwd {
  import opened Text
  import opened Network

  datatype Action =
    | Dnat(protocol: Protocol, dport: int, guestIp: string, guestPort: int)
    | Masquerade(guestIp: string, protocol: Protocol, dport: int)

  datatype Rule = Rule(comment: string, action: Action)

  /** The chains in hook order: prerouting, output, postrouting. */
  type Chains = seq<seq<Rule>>

  // ----- the comment tag -----

  predicate NameChar(c: char) {
    'A' <= c <= 'Z' || 'a' <= c <= 'z' || IsDigit(c) || c == '_' || c == '.' || c == '-'
  }

  const MAX_INSTANCE_NAME := 64

  /** `validate_name`. */
  predicate ValidName(name: string) {
    && 0 < |name| <= MAX_INSTANCE_NAME
    && var body := DropEol(name);
       && body != ""
       && (forall i | 0 <= i < |body| :: NameChar(body[i]))
       && body[0] != '_' && body[0] != '.' && body[0] != '-'
  }

  function Tag(name: string): string {
    "kento:" + name + ":"
  }

  /** `forward_comment`. */
  function Comment(name: string, protocol: Protocol, hostPort: int): string {
    Tag(name) + ProtocolName(protocol) + ":" + Integer(hostPort)
  }

  lemma ValidNameHasNoColon(name: string)
    requires ValidName(name)
    ensures ':' !in name
  {
    forall i | 0 <= i < |name| ensures name[i] != ':' {
      if i < |DropEol(name)| {
        assert name[i] == DropEol(name)[i];
      }
    }
  }

  lemma CommentShape(name: string, protocol: Protocol, hostPort: int)
    ensures Comment(name, protocol, hostPort)
         == "kento" + [':'] + (name + [':'] + (ProtocolName(protocol) + [':'] + Integer(hostPort)))
  {
    hide Integer, ProtocolName;
    assert "kento:" == "kento" + [':'];
  }

  lemma CommentParts(name: string, protocol: Protocol, hostPort: int)
    requires ':' !in name
    ensures Split(Comment(name, protocol, hostPort), ':')
         == ["kento", name, ProtocolName(protocol), Integer(hostPort)]
  {
    var proto, port := ProtocolName(protocol), Integer(hostPort);
    assert ':' !in port by { IntegerChars(hostPort); }
    assert ':' !in proto && ':' !in "kento";
    CommentShape(name, protocol, hostPort);
    hide Split, Integer, ProtocolName, Comment;
    SplitFree(port, ':');
    SplitAtSeparator(proto, ':', port);
    SplitAtSeparator(name, ':', proto + [':'] + port);
    SplitAtSeparator("kento", ':', name + [':'] + (proto + [':'] + port));
    assert ["kento"] + ([name] + ([proto] + [port])) == ["kento", name, proto, port];
  }

  /** Two forwards share a comment only when instance, protocol and host port are all the same. */
  lemma CommentInjective(n1: string, p1: Protocol, h1: int, n2: string, p2: Protocol, h2: int)
    requires ValidName(n1) && ValidName(n2)
    requires Comment(n1, p1, h1) == Comment(n2, p2, h2)
    ensures n1 == n2 && p1 == p2 && h1 == h2
  {
    ValidNameHasNoColon(n1);
    ValidNameHasNoColon(n2);
    CommentParts(n1, p1, h1);
    CommentParts(n2, p2, h2);
    assert Split(Comment(n1, p1, h1), ':')[3] == Split(Comment(n2, p2, h2), ':')[3];
    IntegerInjective(h1, h2);
  }

  lemma TagIsSecondPart(name: string, c: string)
    requires ':' !in name && Tag(name) <= c
    ensures |Split(c, ':')| > 1 && Split(c, ':')[1] == name
  {
    var rest := c[|Tag(name)|..];
    assert c == Tag(name) + rest;
    assert Tag(name) == "kento" + [':'] + (name + [':']);
    assert c == "kento" + [':'] + (name + [':'] + rest);
    assert ':' !in "kento";
    hide Split, Tag;
    SplitAtSeparator(name, ':', rest);
    SplitAtSeparator("kento", ':', name + [':'] + rest);
  }

  /** The tag of one instance is never a prefix of another instance's comments. */
  lemma TagSelectsInstance(name: string, other: string, p: Protocol, h: int)
    requires ValidName(name) && ValidName(other)
    ensures Tag(name) <= Comment(other, p, h) <==> name == other
  {
    ValidNameHasNoColon(name);
    ValidNameHasNoColon(other);
    var c := Comment(other, p, h);
    if Tag(name) <= c {
      TagIsSecondPart(name, c);
      CommentParts(other, p, h);
    }
  }

  // ----- what install and remove do to the chains -----

  /** The three rules of one forward, one for each chain. */
  function RulesOf(name: string, guestIp: string, f: Forward): (r: seq<Rule>)
    ensures |r| == 3
    ensures forall i | 0 <= i < 3 :: r[i].comment == Comment(name, f.binding.protocol, f.binding.hostPort)
  {
    var b, g := f.binding, f.target.guestPort;
    var comment := Comment(name, b.protocol, b.hostPort);
    [Rule(comment, Dnat(b.protocol, b.hostPort, guestIp, g)),
     Rule(comment, Dnat(b.protocol, b.hostPort, guestIp, g)),
     Rule(comment, Masquerade(guestIp, b.protocol, g))]
  }

  /** The chain without the rules that carry `comment`, in the order they were. */
  function Without(rules: seq<Rule>, comment: string): seq<Rule> {
    if rules == [] then []
    else if rules[0].comment == comment then Without(rules[1..], comment)
    else [rules[0]] + Without(rules[1..], comment)
  }

  /** The chains after the first `count` rules of a forward were added. */
  function Installed(chains: Chains, rules: seq<Rule>, count: nat): (r: Chains)
    requires |chains| == |rules| == 3 && count <= 3
    ensures |r| == 3
  {
    seq(3, i requires 0 <= i < 3 => if i < count then chains[i] + [rules[i]] else chains[i])
  }

  function Removed(chains: Chains, comment: string): (r: Chains)
    requires |chains| == 3
    ensures |r| == 3
  {
    seq(3, i requires 0 <= i < 3 => Without(chains[i], comment))
  }

  lemma {:induction false} WithoutConcat(a: seq<Rule>, b: seq<Rule>, comment: string)
    ensures Without(a + b, comment) == Without(a, comment) + Without(b, comment)
  {
    if a == [] {
      assert a + b == b;
    } else {
      assert (a + b)[1..] == a[1..] + b;
      WithoutConcat(a[1..], b, comment);
    }
  }

  predicate Carries(rules: seq<Rule>, comment: string) {
    exists i :: 0 <= i < |rules| && rules[i].comment == comment
  }

  lemma {:induction false} WithoutNothing(rules: seq<Rule>, comment: string)
    requires !Carries(rules, comment)
    ensures Without(rules, comment) == rules
  {
    if rules == [] {
    } else {
      assert rules[0].comment != comment;
      forall i | 0 <= i < |rules[1..]| ensures rules[1..][i].comment != comment {
        assert rules[1..][i] == rules[i + 1];
      }
      WithoutNothing(rules[1..], comment);
    }
  }

  // ----- the rule table -----

  /** A rule as the kernel lists it, with its handle. */
  datatype Entry = Entry(handle: nat, rule: Rule)

  function RulesIn(entries: seq<Entry>): (r: seq<Rule>)
    ensures |r| == |entries|
    ensures forall i | 0 <= i < |entries| :: r[i] == entries[i].rule
  {
    seq(|entries|, i requires 0 <= i < |entries| => entries[i].rule)
  }

  predicate UniqueHandles(entries: seq<Entry>, limit: nat) {
    && (forall i :: 0 <= i < |entries| ==> entries[i].handle < limit)
    && (forall i, j :: 0 <= i < j < |entries| ==> entries[i].handle != entries[j].handle)
  }

  lemma RulesInParts(a: seq<Entry>, e: Entry, b: seq<Entry>, comment: string)
    ensures RulesIn(a + [e] + b) == RulesIn(a) + [e.rule] + RulesIn(b)
    ensures RulesIn(a + b) == RulesIn(a) + RulesIn(b)
    ensures e.rule.comment == comment
        ==> Without(RulesIn(a + [e] + b), comment) == Without(RulesIn(a + b), comment)
  {
    WithoutConcat(RulesIn(a) + [e.rule], RulesIn(b), comment);
    WithoutConcat(RulesIn(a), [e.rule], comment);
    WithoutConcat(RulesIn(a), RulesIn(b), comment);
    assert [e.rule][1..] == [];
  }

  /** The listing's next entry, seen by both the listing and what is kept of it so far. */
  lemma ListOneMore(kept: seq<Entry>, listing: seq<Entry>, j: nat, comment: string)
    requires j < |listing|
    ensures var e := listing[j];
            && kept + listing[j..] == kept + [e] + listing[j + 1..]
            && RulesIn(kept + [e]) == RulesIn(kept) + [e.rule]
            && Without(RulesIn(kept + [e]), comment)
               == Without(RulesIn(kept), comment) + (if e.rule.comment == comment then [] else [e.rule])
            && Without(RulesIn(listing[..j + 1]), comment)
               == Without(RulesIn(listing[..j]), comment) + (if e.rule.comment == comment then [] else [e.rule])
  {
    var e := listing[j];
    assert listing[j..] == [e] + listing[j + 1..];
    assert RulesIn(kept + [e]) == RulesIn(kept) + [e.rule];
    assert RulesIn(listing[..j + 1]) == RulesIn(listing[..j]) + [e.rule];
    WithoutConcat(RulesIn(kept), [e.rule], comment);
    WithoutConcat(RulesIn(listing[..j]), [e.rule], comment);
    assert [e.rule][1..] == [];
  }

  /** The host's NAT rules. A tool call either does its one step or fails and changes nothing. */
  class NatTable {
    var chains: seq<seq<Entry>>
    var nextHandle: nat

    ghost predicate Valid()
      reads this
    {
      |chains| == 3 && forall c :: 0 <= c < 3 ==> UniqueHandles(chains[c], nextHandle)
    }

    ghost function View(): (v: Chains)
      requires Valid()
      reads this
      ensures |v| == 3
      ensures forall c | 0 <= c < 3 :: v[c] == RulesIn(chains[c])
    {
      seq(3, c requires 0 <= c < 3 reads this => if |chains| == 3 then RulesIn(chains[c]) else [])
    }

    constructor ()
      ensures Valid() && View() == [[], [], []]
    {
      chains := [[], [], []];
      nextHandle := 0;
    }

    method AddRule(c: nat, rule: Rule) returns (ok: bool)
      requires Valid() && c < 3
      modifies this
      ensures Valid()
      ensures forall i | 0 <= i < 3 && i != c :: View()[i] == old(View())[i]
      ensures View()[c] == if ok then old(View())[c] + [rule] else old(View())[c]
    {
      ok := *;
      if ok {
        chains := chains[c := chains[c] + [Entry(nextHandle, rule)]];
        nextHandle := nextHandle + 1;
      }
    }

    /** `run_install`: the three commands in order, stopping at the first that fails. */
    method RunInstall(name: string, guestIp: string, f: Forward) returns (count: nat)
      requires Valid()
      modifies this
      ensures Valid() && count <= 3
      ensures View() == Installed(old(View()), RulesOf(name, guestIp, f), count)
    {
      var rules := RulesOf(name, guestIp, f);
      count := 0;
      while count < 3
        invariant Valid() && count <= 3
        invariant View() == Installed(old(View()), rules, count)
      {
        var ok := AddRule(count, rules[count]);
        if !ok {
          return;
        }
        count := count + 1;
      }
    }

    method DeleteAt(c: nat, n: nat) returns (ok: bool)
      requires Valid() && c < 3 && n < |chains[c]|
      modifies this
      ensures Valid()
      ensures forall i | 0 <= i < 3 && i != c :: chains[i] == old(chains)[i]
      ensures chains[c] == if ok then old(chains)[c][..n] + old(chains)[c][n + 1..] else old(chains)[c]
    {
      ok := *;
      if ok {
        chains := chains[c := chains[c][..n] + chains[c][n + 1..]];
      }
    }

    /** Line number of the first listed rule that carries the comment. */
    method FirstMatch(c: nat, comment: string) returns (n: nat)
      requires Valid() && c < 3
      ensures n <= |chains[c]|
      ensures n < |chains[c]| ==> chains[c][n].rule.comment == comment
      ensures n == |chains[c]| ==> !Carries(RulesIn(chains[c]), comment)
    {
      n := 0;
      while n < |chains[c]|
        invariant n <= |chains[c]|
        invariant forall i | 0 <= i < n :: chains[c][i].rule.comment != comment
      {
        if chains[c][n].rule.comment == comment {
          return;
        }
        n := n + 1;
      }
    }

    method IptablesRemoveFrom(c: nat, comment: string) returns (clean: bool)
      requires Valid() && c < 3
      modifies this
      ensures Valid()
      ensures forall i | 0 <= i < 3 && i != c :: View()[i] == old(View())[i]
      ensures Without(View()[c], comment) == Without(old(View())[c], comment)
      ensures clean ==> View()[c] == Without(old(View())[c], comment)
    {
      clean := true;
      while true
        invariant Valid() && clean
        invariant forall i | 0 <= i < 3 && i != c :: View()[i] == old(View())[i]
        invariant Without(View()[c], comment) == Without(old(View())[c], comment)
        decreases |chains[c]|
      {
        var listed: bool := *;
        if !listed {
          return false;
        }
        var n := FirstMatch(c, comment);
        if n == |chains[c]| {
          WithoutNothing(View()[c], comment);
          return;
        }
        ghost var was := chains[c];
        assert was == was[..n] + [was[n]] + was[n + 1..];
        RulesInParts(was[..n], was[n], was[n + 1..], comment);
        var deleted := DeleteAt(c, n);
        if !deleted {
          return false;
        }
      }
    }

    /** `_iptables_remove_by_comment`: in each chain list, delete the first match by line number,
        list again. `clean` says that no tool call failed. Rules with other comments keep their
        order in every case. */
    method IptablesRemove(comment: string) returns (clean: bool)
      requires Valid()
      modifies this
      ensures Valid()
      ensures Removed(View(), comment) == Removed(old(View()), comment)
      ensures clean ==> View() == Removed(old(View()), comment)
    {
      clean := true;
      for c := 0 to 3
        invariant Valid()
        invariant forall i | 0 <= i < 3 :: Without(View()[i], comment) == Without(old(View())[i], comment)
        invariant forall i | c <= i < 3 :: View()[i] == old(View())[i]
        invariant clean ==> forall i | 0 <= i < c :: View()[i] == Without(old(View())[i], comment)
      {
        var one := IptablesRemoveFrom(c, comment);
        clean := clean && one;
      }
    }

    method DeleteHandle(c: nat, handle: nat, ghost before: seq<Entry>, ghost e: Entry, ghost after: seq<Entry>)
      returns (ok: bool)
      requires Valid() && c < 3
      requires chains[c] == before + [e] + after && e.handle == handle
      modifies this
      ensures Valid()
      ensures forall i | 0 <= i < 3 && i != c :: chains[i] == old(chains)[i]
      ensures chains[c] == if ok then before + after else old(chains)[c]
    {
      var n := 0;
      assert chains[c][|before|] == e;
      while chains[c][n].handle != handle
        invariant n <= |before|
        decreases |before| - n
      {
        n := n + 1;
      }
      assert chains[c][..n] + chains[c][n + 1..] == before + after;
      ok := DeleteAt(c, n);
    }

    method NftRemoveFrom(c: nat, comment: string) returns (clean: bool)
      requires Valid() && c < 3
      modifies this
      ensures Valid()
      ensures forall i | 0 <= i < 3 && i != c :: View()[i] == old(View())[i]
      ensures Without(View()[c], comment) == Without(old(View())[c], comment)
      ensures clean ==> View()[c] == Without(old(View())[c], comment)
    {
      var listed: bool := *;
      if !listed {
        return false;
      }
      clean := true;
      var listing := chains[c];
      ghost var kept: seq<Entry> := [];
      assert listing[..0] == [] && RulesIn([]) == Without(RulesIn([]), comment);
      hide Without, UniqueHandles;
      for j := 0 to |listing|
        invariant Valid()
        invariant forall i | 0 <= i < 3 && i != c :: chains[i] == old(chains)[i]
        invariant chains[c] == kept + listing[j..]
        invariant Without(RulesIn(kept), comment) == Without(RulesIn(listing[..j]), comment)
        invariant clean ==> RulesIn(kept) == Without(RulesIn(listing[..j]), comment)
      {
        var e := listing[j];
        ListOneMore(kept, listing, j, comment);
        if e.rule.comment == comment {
          var deleted := DeleteHandle(c, e.handle, kept, e, listing[j + 1..]);
          if !deleted {
            clean := false;
            kept := kept + [e];
          }
        } else {
          kept := kept + [e];
        }
      }
      assert listing[..|listing|] == listing && kept + listing[|listing|..] == kept;
    }

    /** `_nft_remove_by_comment`: list each chain once with handles and delete each match by handle. */
    method NftRemove(comment: string) returns (clean: bool)
      requires Valid()
      modifies this
      ensures Valid()
      ensures Removed(View(), comment) == Removed(old(View()), comment)
      ensures clean ==> View() == Removed(old(View()), comment)
    {
      clean := true;
      for c := 0 to 3
        invariant Valid()
        invariant forall i | 0 <= i < 3 :: Without(View()[i], comment) == Without(old(View())[i], comment)
        invariant forall i | c <= i < 3 :: View()[i] == old(View())[i]
        invariant clean ==> forall i | 0 <= i < c :: View()[i] == Without(old(View())[i], comment)
      {
        var one := NftRemoveFrom(c, comment);
        clean := clean && one;
      }
    }
  }
}
