/** What a run of apply guarantees (firewall_backend.go): it converges on the wanted
    rule, never leaves a family without one, and moves no other rule. */
module IptablesProofs {
  import opened Text
  import opened Decimal
  import opened NetAddress
  import opened FirewallPorts
  import opened FirewallRule
  import opened IptablesPlan
  import opened IptablesRun

  // --------------------------------------------------------- the rule that is written

  lemma WithFamilyValid(want: Rule, f: string)
    requires Valid(want) && f in Families(want)
    ensures Valid(want.(family := f)) && IsIpFamily(f) && f != INET
  {
    hide PortsOk, ValidName, ValidComment, ValidInterface;
  }

  lemma CommentAt(w: Words, i: nat, j: nat)
    requires i <= j && j + 1 < |w| && w[j] == "--comment"
    requires forall k :: i <= k < j ==> w[k] != "--comment"
    ensures CommentFrom(w, i) == Some(w[j + 1])
    decreases j - i
  {
    if i < j {
      CommentAt(w, i + 1, j);
    }
  }

  predicate NoComment(w: Words) { "--comment" !in w }

  lemma NoCommentAppend(a: Words, b: Words)
    requires NoComment(a) && NoComment(b)
    ensures NoComment(a + b)
  {}

  lemma ValueIsNoComment(v: string)
    requires '/' in v || (v != "" && v[0] != '-')
    ensures v != "--comment"
  {}

  lemma NoCommentAmongFlags(flag: string, v: string)
    requires flag != "--comment" && ('/' in v || (v != "" && v[0] != '-'))
    ensures NoComment([flag, v])
  {}

  lemma PortsStartWithDigit(ports: seq<PortRange>)
    requires ports != []
    ensures IptablesPorts(ports) != "" && IptablesPorts(ports)[0] != '-'
  {}

  lemma NoCommentPorts(flag: string, ports: seq<PortRange>)
    requires flag != "--comment"
    ensures NoComment(PortArgs(flag, ports))
  {
    hide IptablesPorts;
    if ports != [] {
      PortsStartWithDigit(ports);
      ValueIsNoComment(IptablesPorts(ports));
    }
  }

  lemma NoCommentPrefix(net: Net, flag: string, p: Option<Prefix>)
    requires flag != "--comment"
    ensures NoComment(PrefixArgs(net, flag, p))
  {
    if p.Some? {
      var v := ShowPrefix(net, p.value);
      assert v[|net.show(p.value.addr)|] == '/';
      NoCommentAmongFlags(flag, v);
    }
  }

  lemma NoCommentInterface(flag: string, s: string)
    requires flag != "--comment" && (s != "" ==> ValidInterface(s))
    ensures NoComment(InterfaceArgs(flag, s))
  {}

  lemma NoCommentProtocol(s: string)
    requires IsProtocol(s)
    ensures NoComment(ProtocolArgs(s))
  {}

  /** The arguments before the tag and the target. */
  function Matches(net: Net, r: Rule): Words
  {
    PrefixArgs(net, "-s", r.source)
    + (PrefixArgs(net, "-d", r.destination)
    + (InterfaceArgs("-i", r.inIface)
    + (InterfaceArgs("-o", r.outIface)
    + (ProtocolArgs(r.protocol)
    + (PortArgs("--sports", r.sourcePorts)
    + PortArgs("--dports", r.destPorts))))))
  }

  lemma Assoc(a: Words, b: Words, c: Words)
    ensures a + (b + c) == (a + b) + c
  {}

  lemma ArgsAre(net: Net, r: Rule)
    ensures Args(net, r) == Matches(net, r) + TargetArgs(r)
  {
    var s, d, i, o := PrefixArgs(net, "-s", r.source), PrefixArgs(net, "-d", r.destination),
      InterfaceArgs("-i", r.inIface), InterfaceArgs("-o", r.outIface);
    var p, sp, dp, t := ProtocolArgs(r.protocol), PortArgs("--sports", r.sourcePorts),
      PortArgs("--dports", r.destPorts), TargetArgs(r);
    hide PrefixArgs, InterfaceArgs, ProtocolArgs, PortArgs, TargetArgs;
    Assoc(sp, dp, t);
    Assoc(p, sp + dp, t);
    Assoc(o, p + (sp + dp), t);
    Assoc(i, o + (p + (sp + dp)), t);
    Assoc(d, i + (o + (p + (sp + dp))), t);
    Assoc(s, d + (i + (o + (p + (sp + dp)))), t);
  }

  lemma MatchesHaveNoComment(net: Net, r: Rule)
    requires Valid(r)
    ensures NoComment(Matches(net, r))
  {
    NoCommentPrefix(net, "-s", r.source);
    NoCommentPrefix(net, "-d", r.destination);
    NoCommentInterface("-i", r.inIface);
    NoCommentInterface("-o", r.outIface);
    NoCommentProtocol(r.protocol);
    NoCommentPorts("--sports", r.sourcePorts);
    NoCommentPorts("--dports", r.destPorts);
    var s, d, i, o := PrefixArgs(net, "-s", r.source), PrefixArgs(net, "-d", r.destination),
      InterfaceArgs("-i", r.inIface), InterfaceArgs("-o", r.outIface);
    var p, sp, dp := ProtocolArgs(r.protocol), PortArgs("--sports", r.sourcePorts), PortArgs("--dports", r.destPorts);
    hide PrefixArgs, InterfaceArgs, ProtocolArgs, PortArgs, NoComment, Valid;
    NoCommentAppend(sp, dp);
    NoCommentAppend(p, sp + dp);
    NoCommentAppend(o, p + (sp + dp));
    NoCommentAppend(i, o + (p + (sp + dp)));
    NoCommentAppend(d, i + (o + (p + (sp + dp))));
    NoCommentAppend(s, d + (i + (o + (p + (sp + dp)))));
  }

  lemma ChainWord(s: string)
    requires IsChain(s)
    ensures Upper(s) != "" && Upper(s)[0] != '-'
  {}

  lemma CommentAfter(chain: string, m: Words, tag: string, rest: Words)
    requires NoComment(m) && chain != "--comment"
    ensures CommentFrom(["-A", chain] + m + (["-m", "comment", "--comment", tag] + rest), 0) == Some(tag)
  {
    var a, b := ["-A", chain] + m, ["-m", "comment", "--comment", tag] + rest;
    var w, j := a + b, |m| + 4;
    forall k | 0 <= k < j ensures w[k] != "--comment" {
      if k < |a| {
        assert w[k] == a[k];
        if 2 <= k {
          assert a[k] == m[k - 2];
        }
      } else {
        assert w[k] == b[k - |a|];
      }
    }
    assert w[j] == b[2] && w[j + 1] == b[3];
    CommentAt(w, 0, j);
  }

  lemma TargetWords(net: Net, r: Rule, end: Words)
    ensures RuleWords(net, r) + end
         == ["-A", Upper(r.chain)] + Matches(net, r)
            + (["-m", "comment", "--comment", Tag(r)] + (["-j", Upper(r.action)] + end))
  {
    ArgsAre(net, r);
    hide Matches, Args, Upper, Tag;
    var m, x, y := Matches(net, r), ["-m", "comment", "--comment", Tag(r)], ["-j", Upper(r.action)];
    assert TargetArgs(r) == x + y;
    assert RuleWords(net, r) == ["-A", Upper(r.chain)] + m + (x + y) by { Assoc(["-A", Upper(r.chain)], m, x + y); }
    Assoc(x, y, end);
    Assoc(["-A", Upper(r.chain)] + m, x + y, end);
  }

  /** The tag of a listed rule is found as its comment. */
  lemma TargetIsTagged(net: Net, r: Rule)
    requires Valid(r)
    ensures Tagged(RuleWords(net, r) + RejectSuffix(r.family, r.action), r.name)
  {
    MatchesHaveNoComment(net, r);
    ChainWord(r.chain);
    ValueIsNoComment(Upper(r.chain));
    TagReads(r);
    var end := RejectSuffix(r.family, r.action);
    TargetWords(net, r, end);
    hide Matches, Valid, Args, RejectSuffix, Upper, Tag, ReadTag;
    CommentAfter(Upper(r.chain), Matches(net, r), Tag(r), ["-j", Upper(r.action)] + end);
  }

  lemma RejectIs(s: string)
    requires IsAction(s)
    ensures Upper(s) == "REJECT" <==> s == "reject"
  {}

  lemma CanonIs(net: Net, r: Rule)
    requires IsAction(r.action)
    ensures Canon(r.family, Args(net, r)) == Args(net, r) + RejectSuffix(r.family, r.action)
  {
    ArgsAre(net, r);
    RejectIs(r.action);
    hide Matches, Args, Upper, Tag, IsAction;
    var a := Args(net, r);
    assert a[|a| - 2] == "-j" && a[|a| - 1] == Upper(r.action);
    if r.action != "reject" {
      assert RejectSuffix(r.family, r.action) == [];
      assert a + [] == a;
    }
  }

  lemma StoredIsTarget(net: Net, want: Rule, f: string)
    requires IsAction(want.action)
    ensures Stored(SlotOf(want, f), Args(net, want.(family := f))) == Target(net, want, f)
    ensures ListedIn(SlotOf(want, f), Target(net, want, f))
  {
    var r := want.(family := f);
    CanonIs(net, r);
    hide Args, RejectSuffix, Upper, Canon;
    Assoc(["-A", Upper(want.chain)], Args(net, r), RejectSuffix(f, want.action));
  }

  /** The wanted rule of a family: what its chain stores and lists is tagged with the
      name and reads back as the rule. */
  lemma TargetIs(net: Net, want: Rule, f: string)
    requires Lawful(net) && Valid(want) && NoMapped(want) && f in Families(want)
    ensures Stored(SlotOf(want, f), Args(net, want.(family := f))) == Target(net, want, f)
    ensures ListedIn(SlotOf(want, f), Target(net, want, f))
    ensures Tagged(Target(net, want, f), want.name)
    ensures ReadRule(net, f, Target(net, want, f)) == Some(SortedRule(want.(family := f)))
    ensures Equal(SortedRule(want.(family := f)), want.(family := f))
  {
    var r := want.(family := f);
    WithFamilyValid(want, f);
    assert IsAction(want.action);
    StoredIsTarget(net, want, f);
    hide Valid, Lawful, Args, ReadRule, Tagged, SortedRule, Equal, RejectSuffix, Upper, Canon, Stored, ListedIn;
    RuleReadsBack(net, r);
    TargetIsTagged(net, r);
  }

  // ------------------------------------------------------------------ the plan's effect

  /** A valid rule for the chains of the commands that are there. */
  ghost predicate Ready(net: Net, slots: seq<Slot>, t: Tables, want: Rule)
  {
    && Lawful(net) && Valid(want) && NoMapped(want)
    && Listing(slots, t)
    && (forall k :: k in slots ==> IsIpFamily(k.family))
    && (forall f :: f in Families(want) ==> SlotOf(want, f) in t)
  }

  lemma ReadyIs(net: Net, slots: seq<Slot>, t: Tables, want: Rule)
    requires Ready(net, slots, t, want)
    ensures Lawful(net) && Valid(want) && NoMapped(want) && Listing(slots, t)
  {}

  function FoundAll(net: Net, slots: seq<Slot>, t: Tables, want: Rule): seq<FoundRule>
  {
    Found(net, want.name, slots, t, |slots|)
  }

  function SiftAll(net: Net, slots: seq<Slot>, t: Tables, want: Rule): Sifted
  {
    var found := FoundAll(net, slots, t, want);
    Sift(want, found, |found|)
  }

  /** A deletion for every stale rule: as many as there are copies, but one for the copy
      that is kept. */
  lemma StaleCopies(net: Net, slots: seq<Slot>, t: Tables, want: Rule, f: string, w: Words)
    requires Listing(slots, t)
    ensures var s := SiftAll(net, slots, t, want);
      Copies(s.stale, f, w) + KeptCopies(s, f, w) == if Tagged(w, want.name) then Have(t, f, w) else 0
  {
    hide Tagged, Have, Copies;
    var found := FoundAll(net, slots, t, want);
    SiftCopies(want, found, |found|, f, w);
    assert found[..|found|] == found;
    FoundCopies(net, want.name, slots, t, f, w);
  }

  ghost predicate KeptIs(net: Net, want: Rule, t: Tables, f: string, fr: FoundRule)
  {
    fr.family == f && IsWanted(want, fr) && FoundAt(net, want.name, t, fr)
  }

  lemma KeptAre(net: Net, slots: seq<Slot>, t: Tables, want: Rule)
    requires Listing(slots, t)
    ensures var s := SiftAll(net, slots, t, want);
      && (forall f :: f in s.kept ==> KeptIs(net, want, t, f, s.kept[f]))
      && (forall fr :: fr in s.stale ==> FoundAt(net, want.name, t, fr))
  {
    hide FoundAt, IsWanted, Found;
    var found := FoundAll(net, slots, t, want);
    SiftKeeps(want, found, |found|);
    FoundIs(net, want.name, slots, t, |slots|);
    assert found[..|found|] == found;
  }

  lemma WantedIsKept(net: Net, slots: seq<Slot>, t: Tables, want: Rule, i: nat)
    requires Listing(slots, t) && i < |FoundAll(net, slots, t, want)|
    requires IsWanted(want, FoundAll(net, slots, t, want)[i])
    ensures FoundAll(net, slots, t, want)[i].family in SiftAll(net, slots, t, want).kept
  {
    hide IsWanted, Found;
    var found := FoundAll(net, slots, t, want);
    SiftKeeps(want, found, |found|);
  }

  lemma FamilyIsWanted(want: Rule, f: string)
    requires f in Families(want)
    ensures Wants(want, f)
  {}

  lemma TargetIsWanted(net: Net, want: Rule, fr: FoundRule)
    requires Lawful(net) && Valid(want) && NoMapped(want) && fr.family in Families(want)
    requires fr.rule == ReadRule(net, fr.family, fr.words) && fr.words == Target(net, want, fr.family)
    ensures IsWanted(want, fr)
  {
    hide Target, Tagged, ReadRule, Equal, SortedRule, Valid, Lawful, NoMapped, Families, Stored, ListedIn, Args, Wants;
    TargetIs(net, want, fr.family);
    FamilyIsWanted(want, fr.family);
  }

  lemma FoundIsRead(net: Net, name: string, t: Tables, fr: FoundRule)
    requires FoundAt(net, name, t, fr)
    ensures fr.rule == ReadRule(net, fr.family, fr.words) && Tagged(fr.words, name)
  {}

  /** A family whose wanted rule is already there keeps one: "-C" never finds another. */
  lemma MissingIsMissing(net: Net, slots: seq<Slot>, t: Tables, want: Rule, f: string)
    requires Ready(net, slots, t, want) && f in Families(want)
    requires f !in SiftAll(net, slots, t, want).kept
    ensures Have(t, f, Target(net, want, f)) == 0
  {
    var w := Target(net, want, f);
    var found := FoundAll(net, slots, t, want);
    assert Lawful(net) && Valid(want) && NoMapped(want) && Listing(slots, t);
    hide Ready, Families, Target, Have, Copies, Found, Valid, Lawful, NoMapped, Tagged, FoundAt;
    hide Listing, Sift, IsWanted, ReadRule, Equal, SortedRule, Stored, ListedIn;
    TargetIs(net, want, f);
    FoundCopies(net, want.name, slots, t, f, w);
    CopiesIn(found, f, w);
    forall i | 0 <= i < |found| && found[i].family == f ensures found[i].words != w {
      FoundTargetIsKept(net, slots, t, want, i);
    }
  }

  lemma FoundTargetIsKept(net: Net, slots: seq<Slot>, t: Tables, want: Rule, i: nat)
    requires Lawful(net) && Valid(want) && NoMapped(want) && Listing(slots, t)
    requires i < |FoundAll(net, slots, t, want)|
    requires FoundAll(net, slots, t, want)[i].family in Families(want)
    ensures var fr := FoundAll(net, slots, t, want)[i];
      fr.words == Target(net, want, fr.family) ==> fr.family in SiftAll(net, slots, t, want).kept
  {
    hide Families, Target, Found, Valid, Lawful, NoMapped, FoundAt, Listing, Sift, IsWanted, ReadRule;
    var fr := FoundAll(net, slots, t, want)[i];
    FoundIs(net, want.name, slots, t, |slots|);
    assert FoundAt(net, want.name, t, fr);
    FoundIsRead(net, want.name, t, fr);
    if fr.words == Target(net, want, fr.family) {
      TargetIsWanted(net, want, fr);
      WantedIsKept(net, slots, t, want, i);
    }
  }

  lemma InsertPosition(net: Net, slots: seq<Slot>, t: Tables, want: Rule, f: string)
    requires Listing(slots, t) && f in SiftAll(net, slots, t, want).insertAt
    ensures var s := SiftAll(net, slots, t, want);
      && SlotOf(want, f) in t && 1 <= s.insertAt[f] <= |t[SlotOf(want, f)]|
  {
    var s := SiftAll(net, slots, t, want);
    var found := FoundAll(net, slots, t, want);
    SiftInserts(want, found, |found|);
    var i :| 0 <= i < |s.stale| && IsFirst(want, s, f, i);
    KeptAre(net, slots, t, want);
    assert FoundAt(net, want.name, t, s.stale[i]);
  }

  /** A command that adds the wanted rule of a family that keeps none. */
  ghost predicate AddsWanted(net: Net, t: Tables, want: Rule, s: Sifted, c: Cmd)
  {
    && !c.Delete? && Applicable(t, c)
    && c.slot.family in Families(want) && c.slot == SlotOf(want, c.slot.family)
    && Stored(c.slot, c.args) == Target(net, want, c.slot.family)
    && c.slot.family !in s.kept
  }

  lemma HaveIsIn(t: Tables, k: Slot, w: Words)
    requires k in t && ListedIn(k, w)
    ensures 0 < Have(t, k.family, w) <==> w in t[k]
  {}

  /** What is added for one family: the wanted rule, unless one is kept. */
  lemma AddCmdIs(net: Net, slots: seq<Slot>, t: Tables, want: Rule, f: string)
    requires Ready(net, slots, t, want) && f in Families(want)
    ensures var s := SiftAll(net, slots, t, want);
      var c := AddCmd(net, t, want, s, f);
      && (c == [] <==> f in s.kept) && |c| <= 1
      && (c != [] ==> c[0].slot == SlotOf(want, f) && AddsWanted(net, t, want, s, c[0]))
  {
    var s := SiftAll(net, slots, t, want);
    assert Lawful(net) && Valid(want) && NoMapped(want) && Listing(slots, t) && SlotOf(want, f) in t;
    hide Ready, Families, Target, Have, Valid, Lawful, NoMapped, Tagged, Args, Upper;
    hide Listing, Sift, Found, ReadRule, Equal, SortedRule, Stored, ListedIn;
    TargetIs(net, want, f);
    HaveIsIn(t, SlotOf(want, f), Target(net, want, f));
    if f !in s.kept {
      MissingIsMissing(net, slots, t, want, f);
    }
    if f in s.insertAt {
      InsertPosition(net, slots, t, want, f);
    }
    AddCmdShape(net, t, want, s, f);
  }

  lemma AddCmdShape(net: Net, t: Tables, want: Rule, s: Sifted, f: string)
    requires f in Families(want) && SlotOf(want, f) in t
    requires Stored(SlotOf(want, f), Args(net, want.(family := f))) == Target(net, want, f)
    requires f !in s.kept ==> Target(net, want, f) !in t[SlotOf(want, f)]
    requires f in s.insertAt ==> 1 <= s.insertAt[f] <= |t[SlotOf(want, f)]|
    ensures var c := AddCmd(net, t, want, s, f);
      && (c == [] <==> f in s.kept) && |c| <= 1
      && (c != [] ==> c[0].slot == SlotOf(want, f) && AddsWanted(net, t, want, s, c[0]))
  {}

  lemma {:induction false} PlusAllAppend(a: seq<Cmd>, b: seq<Cmd>, f: string, w: Words)
    ensures PlusAll(a + b, f, w) == PlusAll(a, f, w) + PlusAll(b, f, w)
    decreases |b|
  {
    hide Plus;
    if b == [] {
      assert a + b == a;
    } else {
      PlusAllAppend(a, b[..|b| - 1], f, w);
      assert (a + b)[..|a + b| - 1] == a + b[..|b| - 1];
    }
  }

  lemma AddCmdPlus(net: Net, slots: seq<Slot>, t: Tables, want: Rule, f: string, g: string, w: Words)
    requires Ready(net, slots, t, want) && f in Families(want)
    ensures var s := SiftAll(net, slots, t, want);
      PlusAll(AddCmd(net, t, want, s, f), g, w)
      == if f !in s.kept && g == f && w == Target(net, want, f) then 1 else 0
  {
    hide AddCmd, Ready, Target, Sift, Found, Stored, Upper, Families;
    AddCmdIs(net, slots, t, want, f);
    var c := AddCmd(net, t, want, SiftAll(net, slots, t, want), f);
    if c != [] {
      assert c[..0] == [];
    }
  }

  function AddsAll(net: Net, slots: seq<Slot>, t: Tables, want: Rule): seq<Cmd>
  {
    Adds(net, t, want, SiftAll(net, slots, t, want))
  }

  lemma AddsPlus(net: Net, slots: seq<Slot>, t: Tables, want: Rule, g: string, w: Words)
    requires Ready(net, slots, t, want)
    ensures PlusAll(AddsAll(net, slots, t, want), g, w)
         == if g in Families(want) && g !in SiftAll(net, slots, t, want).kept && w == Target(net, want, g) then 1 else 0
  {
    var s := SiftAll(net, slots, t, want);
    hide AddCmd, Target, Sift, Found, Ready, PlusAll;
    if want.family == INET {
      AddCmdPlus(net, slots, t, want, IPV4, g, w);
      AddCmdPlus(net, slots, t, want, IPV6, g, w);
      PlusAllAppend(AddCmd(net, t, want, s, IPV4), AddCmd(net, t, want, s, IPV6), g, w);
    } else {
      AddCmdPlus(net, slots, t, want, want.family, g, w);
    }
  }

  lemma AddIsWanted(net: Net, slots: seq<Slot>, t: Tables, want: Rule, c: Cmd)
    requires Ready(net, slots, t, want) && c in AddsAll(net, slots, t, want)
    ensures AddsWanted(net, t, want, SiftAll(net, slots, t, want), c)
  {
    hide AddCmd, Sift, Found, AddsWanted, Ready;
    var s := SiftAll(net, slots, t, want);
    if want.family == INET {
      AddCmdIs(net, slots, t, want, IPV4);
      AddCmdIs(net, slots, t, want, IPV6);
      var a, b := AddCmd(net, t, want, s, IPV4), AddCmd(net, t, want, s, IPV6);
      OneOfTwo(a, b, c);
    } else {
      AddCmdIs(net, slots, t, want, want.family);
    }
  }

  lemma OneOfTwo(a: seq<Cmd>, b: seq<Cmd>, c: Cmd)
    requires |a| <= 1 && |b| <= 1 && c in a + b
    ensures (a != [] && c == a[0]) || (b != [] && c == b[0])
  {}

  lemma AddsAreAdditions(net: Net, slots: seq<Slot>, t: Tables, want: Rule)
    requires Ready(net, slots, t, want)
    ensures var adds := AddsAll(net, slots, t, want);
      && (forall c :: c in adds ==> AddsWanted(net, t, want, SiftAll(net, slots, t, want), c))
      && Additions(t, adds)
  {
    hide Adds, Sift, Found, AddsWanted, Ready;
    var s := SiftAll(net, slots, t, want);
    var adds := AddsAll(net, slots, t, want);
    forall c | c in adds ensures AddsWanted(net, t, want, s, c) {
      AddIsWanted(net, slots, t, want, c);
    }
    AreAdditions(net, t, want, s, adds);
  }

  lemma AreAdditions(net: Net, t: Tables, want: Rule, s: Sifted, adds: seq<Cmd>)
    requires forall c :: c in adds ==> AddsWanted(net, t, want, s, c)
    ensures Additions(t, adds)
  {
    hide Applicable, Stored, Target;
    forall i | 0 <= i < |adds| ensures !adds[i].Delete? && Applicable(t, adds[i]) {
      assert adds[i] in adds;
    }
  }

  function PlanAll(net: Net, slots: seq<Slot>, t: Tables, want: Rule): seq<Cmd>
  {
    Plan(net, t, want, FoundAll(net, slots, t, want))
  }

  /** The chains after the first `n` commands of the plan. */
  function After(net: Net, slots: seq<Slot>, t: Tables, want: Rule, n: nat): Tables
    requires n <= |PlanAll(net, slots, t, want)|
  {
    ExecAll(t, PlanAll(net, slots, t, want)[..n])
  }

  lemma PrefixOfPlan(a: seq<Cmd>, b: seq<Cmd>, n: nat)
    requires n <= |a| + |b|
    ensures n <= |a| ==> (a + b)[..n] == a[..n]
    ensures |a| < n ==> (a + b)[..n] == a + b[..n - |a|]
  {}

  lemma AfterIs(net: Net, slots: seq<Slot>, t: Tables, want: Rule, n: nat)
    requires Listing(slots, t) && n <= |PlanAll(net, slots, t, want)|
    ensures var adds, stale := AddsAll(net, slots, t, want), SiftAll(net, slots, t, want).stale;
      && |PlanAll(net, slots, t, want)| == |adds| + |stale|
      && (n <= |adds| ==> After(net, slots, t, want, n) == ExecAll(t, adds[..n]))
      && (|adds| < n ==>
            After(net, slots, t, want, n) == ExecAll(ExecAll(t, adds), Deletes(stale)[..n - |adds|]))
  {
    hide ExecAll, Deletes, Adds, Sift, Found;
    var adds, stale := AddsAll(net, slots, t, want), SiftAll(net, slots, t, want).stale;
    PrefixOfPlan(adds, Deletes(stale), n);
    if |adds| < n {
      ExecAllAppend(t, adds, Deletes(stale)[..n - |adds|]);
    }
  }

  lemma EnoughAfterAdds(net: Net, slots: seq<Slot>, t: Tables, want: Rule)
    requires Ready(net, slots, t, want)
    ensures Enough(ExecAll(t, AddsAll(net, slots, t, want)), SiftAll(net, slots, t, want).stale)
  {
    var adds, stale := AddsAll(net, slots, t, want), SiftAll(net, slots, t, want).stale;
    AddsAreAdditions(net, slots, t, want);
    assert adds[..|adds|] == adds;
    forall i | 0 <= i < |stale|
      ensures Copies(stale, stale[i].family, stale[i].words)
           <= Have(ExecAll(t, adds), stale[i].family, stale[i].words)
    {
      StaleCopies(net, slots, t, want, stale[i].family, stale[i].words);
      AdditionsHave(t, adds, |adds|, stale[i].family, stale[i].words);
    }
  }

  /** How often a rule is there after `n` commands. */
  lemma AfterHave(net: Net, slots: seq<Slot>, t: Tables, want: Rule, n: nat, f: string, w: Words)
    requires Ready(net, slots, t, want) && n <= |PlanAll(net, slots, t, want)|
    ensures var adds, stale := AddsAll(net, slots, t, want), SiftAll(net, slots, t, want).stale;
      && (n <= |adds| ==> Have(t, f, w) <= Have(After(net, slots, t, want, n), f, w))
      && (|adds| <= n <= |adds| + |stale| ==>
            Have(After(net, slots, t, want, n), f, w)
            == Have(t, f, w) + PlusAll(adds, f, w) - Copies(stale[..n - |adds|], f, w))
  {
    hide Have, PlusAll, Copies, ExecAll, After, Adds, Sift, Found, Ready, Listing, Deletes, Additions, Grown,
      AddsWanted, Valid, Lawful, NoMapped, Applicable;
    var adds, stale := AddsAll(net, slots, t, want), SiftAll(net, slots, t, want).stale;
    ReadyIs(net, slots, t, want);
    AfterIs(net, slots, t, want, n);
    if n <= |adds| {
      AddsAreAdditions(net, slots, t, want);
      AdditionsHave(t, adds, n, f, w);
      if n == |adds| {
        assert adds[..n] == adds && stale[..0] == [];
        NoCopies(f, w);
      }
    } else {
      DeletedHave(net, slots, t, want, n - |adds|, f, w);
    }
  }

  lemma DeletedHave(net: Net, slots: seq<Slot>, t: Tables, want: Rule, m: nat, f: string, w: Words)
    requires Ready(net, slots, t, want) && m <= |SiftAll(net, slots, t, want).stale|
    ensures var adds, stale := AddsAll(net, slots, t, want), SiftAll(net, slots, t, want).stale;
      Have(ExecAll(ExecAll(t, adds), Deletes(stale)[..m]), f, w)
      == Have(t, f, w) + PlusAll(adds, f, w) - Copies(stale[..m], f, w)
  {
    hide Have, PlusAll, Copies, ExecAll, Adds, Sift, Found, Ready, Deletes, Enough;
    var adds, stale := AddsAll(net, slots, t, want), SiftAll(net, slots, t, want).stale;
    AddsAreAdditions(net, slots, t, want);
    assert adds[..|adds|] == adds;
    AdditionsHave(t, adds, |adds|, f, w);
    EnoughAfterAdds(net, slots, t, want);
    DeletesHave(ExecAll(t, adds), stale, m, f, w);
  }
}
