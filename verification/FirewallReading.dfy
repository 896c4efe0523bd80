/** Which listed rules are read, and as what (firewall.go, parseIptablesRule): by the options
    that stand in them, without the loop. */
module FirewallReading {
  import opened Text
  import opened NetAddress
  import opened FirewallPorts
  import opened FirewallRule

  // ------------------------------------------------------------------- single options

  predicate IsSports(word: string) { word == "--sports" || word == "--sport" || word == "--source-ports" }

  predicate IsDports(word: string) { word == "--dports" || word == "--dport" || word == "--destination-ports" }

  predicate IsProtocolName(v: string, protocol: string)
  {
    || (protocol == "tcp" && (v == "tcp" || v == "6"))
    || (protocol == "udp" && (v == "udp" || v == "17"))
    || (protocol == "sctp" && (v == "sctp" || v == "132"))
    || (protocol == "icmp" && (v == "icmp" || v == "1"))
    || (protocol == "icmpv6" && (v == "ipv6-icmp" || v == "icmpv6" || v == "58"))
  }

  /** What an option with its value says of the rule it stands in. */
  predicate Says(net: Net, word: string, v: string, r: Rule)
  {
    if word == "-s" then r.source.Some? && ReadSpecPrefix(net, v) == r.source
    else if word == "-d" then r.destination.Some? && ReadSpecPrefix(net, v) == r.destination
    else if word == "-i" then r.inIface == v
    else if word == "-o" then r.outIface == v
    else if word == "-p" then IsProtocolName(v, r.protocol)
    else if word == "-m" then v == "multiport" || v == "comment" || v == "tcp" || v == "udp" || v == "sctp"
    else if IsSports(word) then ReadSpecPorts(v) == Some(r.sourcePorts)
    else if IsDports(word) then ReadSpecPorts(v) == Some(r.destPorts)
    else if word == "--comment" then ReadTag(v) == Some(TagParts(r.name, r.comment))
    else if word == "-j" then
      (v == "ACCEPT" && r.action == "accept") || (v == "DROP" && r.action == "drop") || (v == "REJECT" && r.action == "reject")
    else word == "--reject-with" && (v == "icmp-port-unreachable" || v == "icmp6-port-unreachable")
  }

  /** An option that is not there leaves its field at what it is without. */
  predicate Lacks(opt: Opt, r: Rule)
  {
    match opt
    case Source => r.source == None
    case Destination => r.destination == None
    case In => r.inIface == ""
    case Out => r.outIface == ""
    case Protocol => r.protocol == "all"
    case SPorts => r.sourcePorts == []
    case DPorts => r.destPorts == []
    case Comment => r.name == "" && r.comment == ""
    case Jump => r.action == ""
    case _ => true
  }

  function KindOf(word: string): Opt
  {
    if word == "-s" then Source else if word == "-d" then Destination
    else if word == "-i" then In else if word == "-o" then Out
    else if word == "-p" then Protocol else if word == "-m" then Match
    else if IsSports(word) then SPorts else if IsDports(word) then DPorts
    else if word == "--comment" then Comment else if word == "-j" then Jump
    else if word == "--reject-with" then RejectWith else Unknown(word)
  }

  lemma KindIs(word: string)
    ensures OptOf(word) == KindOf(word)
  {}

  lemma ProtocolIs(v: string, p: string)
    ensures ReadProtocol(v) == Some(p) <==> IsProtocolName(v, p)
  {}

  lemma TargetsAre(v: string)
    ensures KnownTarget(v) <==> v == "ACCEPT" || v == "DROP" || v == "REJECT"
    ensures Lower("ACCEPT") == "accept" && Lower("DROP") == "drop" && Lower("REJECT") == "reject"
  {
    LowerOf("ACCEPT", "accept");
    LowerOf("DROP", "drop");
    LowerOf("REJECT", "reject");
  }

  lemma LowerOf(s: string, l: string)
    requires |s| == |l| && forall i :: 0 <= i < |s| ==> LowerChar(s[i]) == l[i]
    ensures Lower(s) == l
  {
    hide LowerChar;
  }

  /** A rule that what was read so far can be the start of. */
  ghost predicate StepSays(net: Net, st: Parsed, word: string, v: string, next: Parsed)
  {
    && Says(net, word, v, next.rule) && next == Take(KindOf(word), st, next)
    && (KindOf(word) == Match || KindOf(word) !in st.seen)
  }

  /** One option is read exactly if it says something, and no other of its kind was read. */
  lemma StepIsSaid(net: Net, st: Parsed, word: string, v: string)
    ensures Step(net, st, word, v).Some? ==> StepSays(net, st, word, v, Step(net, st, word, v).value)
    ensures (KindOf(word) == Match || KindOf(word) !in st.seen) && (exists r :: Says(net, word, v, r)) ==>
      Step(net, st, word, v).Some?
  {
    hide ReadSpecPrefix, ReadSpecPorts, ReadTag, Lower, ReadProtocol, IsProtocolName, KnownTarget;
    KindIs(word);
    TargetsAre(v);
    forall p: string ensures ReadProtocol(v) == Some(p) <==> IsProtocolName(v, p) { ProtocolIs(v, p); }
  }

  /** An option says the same of two rules that agree on its field. */
  lemma SaysOwnField(net: Net, opt: Opt, st: Parsed, next: Parsed, word: string, v: string)
    requires next == Take(opt, st, next) && KindOf(word) != opt && Says(net, word, v, st.rule)
    ensures Says(net, word, v, next.rule)
  {
    hide ReadSpecPrefix, ReadSpecPorts, ReadTag, IsProtocolName;
  }

  lemma MatchSaysNothing(net: Net, word: string, v: string, r: Rule, s: Rule)
    requires KindOf(word) == Match && Says(net, word, v, r)
    ensures Says(net, word, v, s)
  {}

  lemma LacksOther(opt: Opt, other: Opt, st: Parsed, next: Parsed)
    requires next == Take(opt, st, next) && other != opt && Lacks(other, st.rule)
    ensures Lacks(other, next.rule)
  {}

  // -------------------------------------------------------------------- all options

  /** Every option of the words says what it says of the rule, and the fields of options that
      are not there are as without. */
  ghost predicate AllSay(net: Net, words: seq<string>, r: Rule)
  {
    && |words| % 2 == 0
    && (forall i :: 0 <= i < |words| / 2 ==> Says(net, words[2 * i], words[2 * i + 1], r))
    && forall opt :: !HasKind(words, opt) ==> Lacks(opt, r)
  }

  ghost predicate HasKind(words: seq<string>, opt: Opt)
  {
    exists i :: 0 <= i < |words| / 2 && KindAt(words, i) == opt
  }

  function KindAt(words: seq<string>, i: nat): Opt
    requires i < |words| / 2
  {
    KindOf(words[2 * i])
  }

  /** No option but "-m" stands twice. */
  ghost predicate NoneTwice(words: seq<string>)
  {
    forall i, j :: 0 <= i < j < |words| / 2 ==> KindAt(words, i) != KindAt(words, j) || KindAt(words, i) == Match
  }

  ghost predicate ReadSoFar(net: Net, words: seq<string>, chain: string, family: string, st: Parsed)
  {
    && AllSay(net, words, st.rule) && NoneTwice(words)
    && (forall opt :: opt in st.seen <==> HasKind(words, opt))
    && (st.tagged <==> HasKind(words, Comment))
    && st.rule.family == family && st.rule.chain == chain
  }

  lemma HasKindPush(words: seq<string>, word: string, v: string, opt: Opt)
    requires |words| % 2 == 0
    ensures HasKind(words + [word, v], opt) <==> HasKind(words, opt) || KindOf(word) == opt
  {
    hide KindOf;
    var all, n := words + [word, v], |words| / 2;
    assert forall i: nat :: i < n ==> KindAt(all, i) == KindAt(words, i);
    assert KindAt(all, n) == KindOf(word);
  }

  lemma NoneTwicePush(words: seq<string>, word: string, v: string)
    requires |words| % 2 == 0
    ensures NoneTwice(words + [word, v]) <==> NoneTwice(words) && (KindOf(word) == Match || !HasKind(words, KindOf(word)))
  {
    hide KindOf;
    var all, n := words + [word, v], |words| / 2;
    assert forall i: nat :: i < n ==> KindAt(all, i) == KindAt(words, i);
    assert KindAt(all, n) == KindOf(word);
    if NoneTwice(all) {
      forall i, j | 0 <= i < j < n ensures KindAt(words, i) != KindAt(words, j) || KindAt(words, i) == Match {
        assert KindAt(all, i) == KindAt(words, i) && KindAt(all, j) == KindAt(words, j);
      }
    }
  }

  lemma SaidStep(net: Net, words: seq<string>, chain: string, family: string, st: Parsed, word: string, v: string, next: Parsed)
    requires ReadSoFar(net, words, chain, family, st) && StepSays(net, st, word, v, next)
    ensures ReadSoFar(net, words + [word, v], chain, family, next)
  {
    hide Says, KindOf, Lacks, HasKind, NoneTwice;
    var all, n, opt := words + [word, v], |words| / 2, KindOf(word);
    assert all[2 * n] == word && all[2 * n + 1] == v;
    forall i | 0 <= i < |all| / 2 ensures Says(net, all[2 * i], all[2 * i + 1], next.rule) {
      if i < n {
        assert all[2 * i] == words[2 * i] && all[2 * i + 1] == words[2 * i + 1];
        KindIsThere(words, i);
        if KindAt(words, i) == opt {
          MatchSaysNothing(net, words[2 * i], words[2 * i + 1], st.rule, next.rule);
        } else {
          SaysOwnField(net, opt, st, next, words[2 * i], words[2 * i + 1]);
        }
      }
    }
    forall o ensures HasKind(all, o) <==> HasKind(words, o) || opt == o { HasKindPush(words, word, v, o); }
    forall o | !HasKind(all, o) ensures Lacks(o, next.rule) { LacksOther(opt, o, st, next); }
    NoneTwicePush(words, word, v);
    TakeKeeps(opt, st, next);
  }

  lemma KindIsThere(words: seq<string>, i: nat)
    requires i < |words| / 2
    ensures HasKind(words, KindAt(words, i))
  {
    hide KindOf;
  }

  lemma TakeKeeps(opt: Opt, st: Parsed, next: Parsed)
    requires next == Take(opt, st, next)
    ensures next.seen == st.seen + {opt} && (next.tagged <==> st.tagged || opt == Comment)
    ensures next.rule.family == st.rule.family && next.rule.chain == st.rule.chain
  {}

  lemma NothingRead(net: Net, family: string, chain: string)
    ensures ReadSoFar(net, [], chain, family, Start(family, chain)) && Steps(net, Start(family, chain), []) == Some(Start(family, chain))
  {}

  lemma LastPair(words: seq<string>)
    requires words != [] && |words| % 2 == 0
    ensures var n := |words| - 2; words == words[..n] + [words[n], words[n + 1]]
  {}

  lemma StepsPush(net: Net, st: Parsed, words: seq<string>, word: string, v: string)
    requires |words| % 2 == 0
    ensures Steps(net, st, words + [word, v])
         == if Steps(net, st, words).None? then None else Step(net, Steps(net, st, words).value, word, v)
  {
    hide Step, Steps;
    StepsAppend(net, st, words, [word, v]);
    if Steps(net, st, words).Some? {
      OnePair(net, Steps(net, st, words).value, word, v);
    }
  }

  /** What is read of the options of a rule is what they say. */
  lemma {:induction false} StepsAreSaid(net: Net, family: string, chain: string, words: seq<string>)
    requires |words| % 2 == 0 && Steps(net, Start(family, chain), words).Some?
    ensures ReadSoFar(net, words, chain, family, Steps(net, Start(family, chain), words).value)
    decreases |words|
  {
    hide ReadSoFar, StepSays, Step, Steps;
    if words == [] {
      NothingRead(net, family, chain);
    } else {
      var n := |words| - 2;
      var init, word, v := words[..n], words[n], words[n + 1];
      LastPair(words);
      StepsPush(net, Start(family, chain), init, word, v);
      StepsAreSaid(net, family, chain, init);
      var st := Steps(net, Start(family, chain), init).value;
      StepIsSaid(net, st, word, v);
      SaidStep(net, init, chain, family, st, word, v, Step(net, st, word, v).value);
    }
  }

  /** Options that say something, none of them twice, are read. */
  lemma {:induction false} SaidAreRead(net: Net, family: string, chain: string, words: seq<string>, r: Rule)
    requires |words| % 2 == 0 && NoneTwice(words)
    requires forall i :: 0 <= i < |words| / 2 ==> Says(net, words[2 * i], words[2 * i + 1], r)
    ensures Steps(net, Start(family, chain), words).Some?
    decreases |words|
  {
    hide Says, KindOf, Step, Steps, HasKind, NoneTwice;
    if words == [] {
      NothingRead(net, family, chain);
    } else {
      var n := |words| - 2;
      var init, word, v := words[..n], words[n], words[n + 1];
      LastPair(words);
      NoneTwicePush(init, word, v);
      forall i | 0 <= i < |init| / 2 ensures Says(net, init[2 * i], init[2 * i + 1], r) {
        assert init[2 * i] == words[2 * i] && init[2 * i + 1] == words[2 * i + 1];
      }
      SaidAreRead(net, family, chain, init, r);
      StepsPush(net, Start(family, chain), init, word, v);
      StepsAreSaid(net, family, chain, init);
      var st := Steps(net, Start(family, chain), init).value;
      assert words[2 * (|words| / 2 - 1)] == word && words[2 * (|words| / 2 - 1) + 1] == v;
      StepIsSaid(net, st, word, v);
    }
  }

  /** Two rules of which the same options say everything are the same. */
  lemma SaidOnce(net: Net, words: seq<string>, r: Rule, s: Rule)
    requires AllSay(net, words, r) && AllSay(net, words, s) && r.family == s.family && r.chain == s.chain
    ensures r == s
  {
    hide Says, KindOf, Lacks, HasKind;
    forall opt ensures FieldSame(opt, r, s) {
      if HasKind(words, opt) {
        var i := KindIndex(words, opt);
        SameSaid(net, words[2 * i], words[2 * i + 1], r, s);
      } else {
        SameLacked(opt, r, s);
      }
    }
    AllFieldsSame(r, s);
  }

  lemma KindIndex(words: seq<string>, opt: Opt) returns (i: nat)
    requires HasKind(words, opt)
    ensures i < |words| / 2 && KindAt(words, i) == opt
  {
    hide KindOf;
    i :| 0 <= i < |words| / 2 && KindAt(words, i) == opt;
  }

  predicate FieldSame(opt: Opt, r: Rule, s: Rule)
  {
    match opt
    case Source => r.source == s.source
    case Destination => r.destination == s.destination
    case In => r.inIface == s.inIface
    case Out => r.outIface == s.outIface
    case Protocol => r.protocol == s.protocol
    case SPorts => r.sourcePorts == s.sourcePorts
    case DPorts => r.destPorts == s.destPorts
    case Comment => r.name == s.name && r.comment == s.comment
    case Jump => r.action == s.action
    case _ => true
  }

  lemma SameSaid(net: Net, word: string, v: string, r: Rule, s: Rule)
    requires Says(net, word, v, r) && Says(net, word, v, s)
    ensures FieldSame(KindOf(word), r, s)
  {
    hide ReadSpecPrefix, ReadSpecPorts, ReadTag;
  }

  lemma SameLacked(opt: Opt, r: Rule, s: Rule)
    requires Lacks(opt, r) && Lacks(opt, s)
    ensures FieldSame(opt, r, s)
  {}

  lemma AllFieldsSame(r: Rule, s: Rule)
    requires (forall opt :: FieldSame(opt, r, s)) && r.family == s.family && r.chain == s.chain
    ensures r == s
  {
    assert FieldSame(Source, r, s) && FieldSame(Destination, r, s) && FieldSame(In, r, s) && FieldSame(Out, r, s);
    assert FieldSame(Protocol, r, s) && FieldSame(SPorts, r, s) && FieldSame(DPorts, r, s);
    assert FieldSame(Comment, r, s) && FieldSame(Jump, r, s);
  }

  /** The words list this rule. */
  ghost predicate Lists(net: Net, family: string, words: seq<string>, r: Rule)
  {
    && 2 <= |words| && words[0] == "-A" && r.chain == Lower(words[1]) && r.family == family
    && AllSay(net, words[2..], r) && NoneTwice(words[2..])
    && HasKind(words[2..], Comment) && r.action != "" && Valid(r)
  }

  /** A listed rule is read as a rule if and only if its chain is that rule's, each of its
      options says what the rule has, none stands twice but "-m", what no option says is as
      without it, it has a tag and a target, and the rule is valid. */
  lemma RuleIsRead(net: Net, family: string, words: seq<string>, r: Rule)
    ensures ReadRule(net, family, words) == Some(r) <==> Lists(net, family, words, r)
  {
    hide Steps, AllSay, NoneTwice, HasKind, Valid, Lower, ReadSoFar;
    if 2 <= |words| {
      var rest, chain := words[2..], Lower(words[1]);
      if |rest| % 2 == 0 {
        if Steps(net, Start(family, chain), rest).Some? {
          StepsAreSaid(net, family, chain, rest);
          SoFarMeans(net, rest, chain, family, Steps(net, Start(family, chain), rest).value);
          if Lists(net, family, words, r) {
            SaidOnce(net, rest, r, Steps(net, Start(family, chain), rest).value.rule);
          }
        }
        if Lists(net, family, words, r) {
          ValidChain(r);
          AllSayMeans(net, rest, r);
          SaidAreRead(net, family, chain, rest, r);
        }
      } else {
        OddIsRefused(net, Start(family, chain), rest);
        OddSaysNothing(net, rest, r);
      }
    }
  }

  lemma SoFarMeans(net: Net, words: seq<string>, chain: string, family: string, st: Parsed)
    requires ReadSoFar(net, words, chain, family, st)
    ensures AllSay(net, words, st.rule) && NoneTwice(words) && (st.tagged <==> HasKind(words, Comment))
    ensures st.rule.family == family && st.rule.chain == chain
  {}

  lemma AllSayMeans(net: Net, words: seq<string>, r: Rule)
    requires AllSay(net, words, r)
    ensures forall i :: 0 <= i < |words| / 2 ==> Says(net, words[2 * i], words[2 * i + 1], r)
  {}

  lemma ValidChain(r: Rule)
    requires Valid(r)
    ensures IsChain(r.chain)
  {}

  lemma {:induction false} OddIsRefused(net: Net, st: Parsed, words: seq<string>)
    requires |words| % 2 == 1
    ensures Steps(net, st, words).None?
    decreases |words|
  {
    hide Step;
    if 1 < |words| && Step(net, st, words[0], words[1]).Some? {
      OddIsRefused(net, Step(net, st, words[0], words[1]).value, words[2..]);
    }
  }

  lemma OddSaysNothing(net: Net, words: seq<string>, r: Rule)
    requires |words| % 2 == 1
    ensures !AllSay(net, words, r)
  {}
}
