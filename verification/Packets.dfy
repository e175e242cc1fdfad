/** What the three chains do to a packet (`portfwd.py`): prerouting and output send it on to the guest, postrouting
    masks a source that the guest could not answer. */
module Packets {
  import opened Text
  import opened Network
  import opened PortFwd
  import opened ForwardsDiff
  import opened ForwardsRefine

  /** A packet on its way; `local` says that its source is in 127.0.0.0/8. */
  datatype Packet = Packet(protocol: Protocol, local: bool, address: string, port: int)

  /** The match part of a rule. */
  predicate Meets(rule: Rule, p: Packet) {
    match rule.action
    case Dnat(protocol, dport, _, _) => p.protocol == protocol && p.port == dport
    case Masquerade(guestIp, protocol, dport) => p.local && p.address == guestIp && p.protocol == protocol && p.port == dport
  }

  /** The first rule of a chain that meets the packet decides. */
  function FirstMeeting(rules: seq<Rule>, p: Packet): Option<Rule> {
    if rules == [] then None else if Meets(rules[0], p) then Some(rules[0]) else FirstMeeting(rules[1..], p)
  }

  /** The packet after a chain: a DNAT rule gives it a new destination. */
  function Sent(rules: seq<Rule>, p: Packet): Packet {
    match FirstMeeting(rules, p)
    case Some(Rule(_, Dnat(_, _, guestIp, guestPort))) => p.(address := guestIp, port := guestPort)
    case _ => p
  }

  /** The packet meets a masquerade rule of the chain. */
  predicate Masked(rules: seq<Rule>, p: Packet) {
    exists i :: 0 <= i < |rules| && rules[i].action.Masquerade? && Meets(rules[i], p)
  }

  /** No rule of another instance is about this packet. */
  predicate OthersElsewhere(rules: seq<Rule>, name: string, p: Packet) {
    forall i | 0 <= i < |rules| && !(Tag(name) <= rules[i].comment) :: !Meets(rules[i], p)
  }

  // ----- an instance's own rules -----

  lemma {:induction false} MatchingHas(rules: seq<Rule>, i: nat)
    requires i < |rules|
    ensures rules[i] in Matching(rules, rules[i].comment)
  {
    if i == 0 {
      assert Matching(rules, rules[0].comment)[0] == rules[0];
    } else {
      MatchingHas(rules[1..], i - 1);
    }
  }

  lemma {:induction false} MatchingFrom(rules: seq<Rule>, comment: string, rule: Rule)
    requires rule in Matching(rules, comment)
    ensures exists i :: 0 <= i < |rules| && rules[i] == rule
  {
    if rules[0] == rule {
    } else {
      MatchingFrom(rules[1..], comment, rule);
      var i :| 0 <= i < |rules[1..]| && rules[1..][i] == rule;
      assert rules[i + 1] == rule;
    }
  }

  /** A rule with the instance's tag belongs to a live forward. */
  lemma OwnRule(name: string, guestIp: string, chains: Chains, live: Live, c: nat, i: nat)
    requires Reflects(name, guestIp, chains, live) && c < 3 && i < |chains[c]| && Tag(name) <= chains[c][i].comment
    ensures var comment := chains[c][i].comment;
            comment in live && chains[c][i] == RulesOf(name, guestIp, live[comment])[c]
  {
    hide RulesOf, Tag;
    MatchingHas(chains[c], i);
    assert Matching(chains[c], chains[c][i].comment) == Expected(name, guestIp, live, c, chains[c][i].comment);
  }

  /** Each chain has the rule of a live forward. */
  lemma LiveRule(name: string, guestIp: string, chains: Chains, live: Live, c: nat, comment: string)
    requires Reflects(name, guestIp, chains, live) && c < 3 && comment in live
    ensures exists i :: 0 <= i < |chains[c]| && chains[c][i] == RulesOf(name, guestIp, live[comment])[c]
  {
    KeyHasTag(name, live[comment]);
    hide RulesOf, Tag;
    assert Matching(chains[c], comment) == Expected(name, guestIp, live, c, comment);
    MatchingFrom(chains[c], comment, RulesOf(name, guestIp, live[comment])[c]);
  }

  lemma {:induction false} FirstIs(rules: seq<Rule>, p: Packet)
    ensures FirstMeeting(rules, p).None? <==> forall i | 0 <= i < |rules| :: !Meets(rules[i], p)
    ensures FirstMeeting(rules, p).Some? ==>
              exists i :: 0 <= i < |rules| && rules[i] == FirstMeeting(rules, p).value && Meets(rules[i], p)
  {
    hide Meets;
    if rules == [] {
    } else {
      FirstIs(rules[1..], p);
      assert forall i | 0 < i < |rules| :: rules[i] == rules[1..][i - 1];
      if FirstMeeting(rules[1..], p).Some? {
        var i :| 0 <= i < |rules[1..]| && rules[1..][i] == FirstMeeting(rules[1..], p).value && Meets(rules[1..][i], p);
        assert rules[i + 1] == rules[1..][i];
      }
    }
  }

  // ----- the chains of a set of forwards -----

  /** Where a packet to this host port goes. */
  function Routed(fs: seq<Forward>, guestIp: string, p: Packet): Packet {
    match TargetOf(fs, HostBinding(p.protocol, None, p.port))
    case None => p
    case Some(target) => p.(address := guestIp, port := target.guestPort)
  }

  lemma LiveIsPlain(name: string, fs: seq<Forward>, comment: string)
    requires ValidName(name) && Good(fs) && comment in Wanted(name, fs)
    ensures Wanted(name, fs)[comment] in fs && Plain(Wanted(name, fs)[comment])
  {
    GoodKeys(name, fs);
    WantedIsMapOf(name, fs);
  }

  lemma TargetOfGood(fs: seq<Forward>, f: Forward)
    requires Good(fs) && f in fs
    ensures TargetOf(fs, f.binding) == Some(f.target)
  {
    TargetOfMember(fs, f);
  }

  /** The first own rule that meets a packet names the target that the set has for it. */
  lemma OwnRuleRoutes(name: string, guestIp: string, chains: Chains, fs: seq<Forward>, p: Packet, c: nat, i: nat)
    requires ValidName(name) && Good(fs) && Reflects(name, guestIp, chains, Wanted(name, fs)) && c < 2
    requires i < |chains[c]| && Tag(name) <= chains[c][i].comment && Meets(chains[c][i], p)
    ensures var target := TargetOf(fs, HostBinding(p.protocol, None, p.port));
            && target.Some? && chains[c][i].action.Dnat?
            && chains[c][i].action.guestIp == guestIp && chains[c][i].action.guestPort == target.value.guestPort
  {
    var comment := chains[c][i].comment;
    OwnRule(name, guestIp, chains, Wanted(name, fs), c, i);
    LiveIsPlain(name, fs, comment);
    var f := Wanted(name, fs)[comment];
    assert f.binding == HostBinding(p.protocol, None, p.port);
    hide Tag, Reflects, Wanted, Good, Comment;
    TargetOfGood(fs, f);
  }

  lemma WantedMember(name: string, fs: seq<Forward>, f: Forward)
    requires ValidName(name) && Good(fs) && f in fs
    ensures Key(name, f) in Wanted(name, fs) && Wanted(name, fs)[Key(name, f)] == f
  {
    GoodKeys(name, fs);
    var i :| 0 <= i < |fs| && fs[i] == f;
    WantedIsMapOf(name, fs);
  }

  /** A packet to a host port of the set meets a rule of its own. */
  lemma BoundMeets(name: string, guestIp: string, chains: Chains, fs: seq<Forward>, f: Forward, p: Packet, c: nat)
    requires ValidName(name) && Good(fs) && Reflects(name, guestIp, chains, Wanted(name, fs)) && c < 2
    requires f in fs && f.binding == HostBinding(p.protocol, None, p.port)
    ensures exists i :: 0 <= i < |chains[c]| && Meets(chains[c][i], p)
  {
    WantedMember(name, fs, f);
    hide Tag, Reflects, Wanted, Good;
    LiveRule(name, guestIp, chains, Wanted(name, fs), c, Key(name, f));
    var i :| 0 <= i < |chains[c]| && chains[c][i] == RulesOf(name, guestIp, f)[c];
    assert Meets(chains[c][i], p);
  }

  /** While the chains reflect a set, prerouting and output send a packet to a host port of the set on to the guest, at
      the guest port of that binding, and leave every other packet's destination alone. */
  lemma SetIsRouted(name: string, guestIp: string, chains: Chains, fs: seq<Forward>, p: Packet, c: nat)
    requires ValidName(name) && Good(fs) && Reflects(name, guestIp, chains, Wanted(name, fs))
    requires c < 2 && OthersElsewhere(chains[c], name, p)
    ensures Sent(chains[c], p) == Routed(fs, guestIp, p)
  {
    FirstIs(chains[c], p);
    hide Tag, Reflects, Wanted, Good, FirstMeeting, Meets;
    var target := TargetOf(fs, HostBinding(p.protocol, None, p.port));
    if FirstMeeting(chains[c], p).Some? {
      var i :| 0 <= i < |chains[c]| && chains[c][i] == FirstMeeting(chains[c], p).value && Meets(chains[c][i], p);
      assert Tag(name) <= chains[c][i].comment;
      OwnRuleRoutes(name, guestIp, chains, fs, p, c, i);
    } else if target.Some? {
      BoundMeets(name, guestIp, chains, fs, Forward(HostBinding(p.protocol, None, p.port), target.value), p, c);
    }
  }

  /** A local packet that was sent on meets the masquerade rule of postrouting. */
  lemma SentIsMasked(name: string, guestIp: string, chains: Chains, fs: seq<Forward>, f: Forward, p: Packet)
    requires ValidName(name) && Good(fs) && Reflects(name, guestIp, chains, Wanted(name, fs))
    requires f in fs && f.binding == HostBinding(p.protocol, None, p.port) && p.local
    ensures Masked(chains[2], Routed(fs, guestIp, p))
  {
    WantedMember(name, fs, f);
    TargetOfGood(fs, f);
    hide Tag, Reflects, Wanted, Good;
    LiveRule(name, guestIp, chains, Wanted(name, fs), 2, Key(name, f));
    var i :| 0 <= i < |chains[2]| && chains[2][i] == RulesOf(name, guestIp, f)[2];
    assert Meets(chains[2][i], Routed(fs, guestIp, p));
  }

  /** And the instance's own rules mask nothing but local packets to a guest port of the set. */
  lemma OnlySentIsMasked(name: string, guestIp: string, chains: Chains, fs: seq<Forward>, p: Packet, i: nat)
    requires ValidName(name) && Good(fs) && Reflects(name, guestIp, chains, Wanted(name, fs))
    requires i < |chains[2]| && Tag(name) <= chains[2][i].comment && Meets(chains[2][i], p)
    ensures p.local && p.address == guestIp
    ensures exists f :: f in fs && f.binding.protocol == p.protocol && f.target.guestPort == p.port
  {
    var comment := chains[2][i].comment;
    OwnRule(name, guestIp, chains, Wanted(name, fs), 2, i);
    LiveIsPlain(name, fs, comment);
    var f := Wanted(name, fs)[comment];
    assert f in fs && f.binding.protocol == p.protocol && f.target.guestPort == p.port;
  }

  /** Both chains route the set. */
  ghost predicate Routes(name: string, guestIp: string, chains: Chains, fs: seq<Forward>) {
    |chains| == 3 && forall p, c | 0 <= c < 2 && OthersElsewhere(chains[c], name, p) :: Sent(chains[c], p) == Routed(fs, guestIp, p)
  }

  lemma ReflectedRoutes(name: string, guestIp: string, chains: Chains, fs: seq<Forward>)
    requires ValidName(name) && Good(fs) && Reflects(name, guestIp, chains, Wanted(name, fs))
    ensures Routes(name, guestIp, chains, fs)
  {
    forall p, c | 0 <= c < 2 && OthersElsewhere(chains[c], name, p) ensures Sent(chains[c], p) == Routed(fs, guestIp, p) {
      SetIsRouted(name, guestIp, chains, fs, p, c);
    }
  }
}
