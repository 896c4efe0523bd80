/** The guarantees of the reconciler: convergence, idempotence, no gap, no disturbance
    of other rules, and the place a replacement takes (firewall_backend.go). */
module IptablesTheorems {
  import opened Text
  import opened NetAddress
  import opened FirewallPorts
  import opened FirewallRule
  import opened IptablesPlan
  import opened IptablesRun
  import opened IptablesProofs

  /** The one rule the found rules implement. */
  function MergedRule(found: seq<FoundRule>): Option<Rule>
  {
    if exists i :: 0 <= i < |found| && found[i].rule.None? then None
    else if |found| == 1 then found[0].rule
    else if |found| == 2 then
      var a, b := found[0].rule.value, found[1].rule.value;
      if a.family != b.family && Equal(a.(family := INET), b.(family := INET)) && Valid(a.(family := INET))
      then Some(a.(family := INET)) else None
    else None
  }

  /** The rule that ends up in the chain: the one kept, or the one added. */
  function Chosen(net: Net, slots: seq<Slot>, t: Tables, want: Rule, f: string): Words
  {
    var s := SiftAll(net, slots, t, want);
    if f in s.kept then s.kept[f].words else Target(net, want, f)
  }

  lemma KeptFamily(net: Net, slots: seq<Slot>, t: Tables, want: Rule, f: string)
    requires Ready(net, slots, t, want) && f in SiftAll(net, slots, t, want).kept
    ensures f in Families(want) && Tagged(Chosen(net, slots, t, want, f), want.name)
  {
    assert IsFamily(want.family);
    hide Sift, Found, IsWanted, Equal, Tagged, ReadRule, Valid, Lawful;
    KeptAre(net, slots, t, want);
    var fr := SiftAll(net, slots, t, want).kept[f];
    assert KeptIs(net, want, t, f, fr);
    assert Slot(f, fr.words[1]) in slots;
    WantedFamily(want, fr);
  }

  lemma WantedFamily(want: Rule, fr: FoundRule)
    requires IsWanted(want, fr) && IsIpFamily(fr.family) && IsFamily(want.family)
    ensures fr.family in Families(want)
  {}

  lemma ChosenIsTagged(net: Net, slots: seq<Slot>, t: Tables, want: Rule, f: string)
    requires Ready(net, slots, t, want) && f in Families(want)
    ensures Tagged(Chosen(net, slots, t, want, f), want.name)
  {
    hide Sift, Found, Families, Tagged, Target, Ready, Stored, ReadRule, SortedRule, Equal;
    if f in SiftAll(net, slots, t, want).kept {
      KeptFamily(net, slots, t, want, f);
    } else {
      ReadyIs(net, slots, t, want);
      TargetIs(net, want, f);
    }
  }

  /** From the last addition on, every wanted family has its rule, whatever has been
      deleted so far; and at the end it has nothing else. */
  lemma ChosenStays(net: Net, slots: seq<Slot>, t: Tables, want: Rule, n: nat, f: string)
    requires Ready(net, slots, t, want) && f in Families(want)
    requires |AddsAll(net, slots, t, want)| <= n <= |PlanAll(net, slots, t, want)|
    ensures 0 < Have(After(net, slots, t, want, n), f, Chosen(net, slots, t, want, f))
  {
    hide Have, Copies, PlusAll, After, Sift, Found, Adds, Families, Target, Tagged, Ready, Plan;
    ReadyIs(net, slots, t, want);
    hide Valid, Lawful, NoMapped, Listing;
    var w, stale := Chosen(net, slots, t, want, f), SiftAll(net, slots, t, want).stale;
    AfterIs(net, slots, t, want, n);
    AfterHave(net, slots, t, want, n, f, w);
    AddsPlus(net, slots, t, want, f, w);
    StaleCopies(net, slots, t, want, f, w);
    ChosenIsTagged(net, slots, t, want, f);
    CopiesOfPrefix(stale, n - |AddsAll(net, slots, t, want)|, f, w);
  }

  function End(net: Net, slots: seq<Slot>, t: Tables, want: Rule): Tables
  {
    After(net, slots, t, want, |PlanAll(net, slots, t, want)|)
  }

  lemma EndHave(net: Net, slots: seq<Slot>, t: Tables, want: Rule, f: string, w: Words)
    requires Ready(net, slots, t, want) && Tagged(w, want.name)
    ensures Have(End(net, slots, t, want), f, w)
         == if f in Families(want) && w == Chosen(net, slots, t, want, f) then 1 else 0
  {
    hide Have, Copies, PlusAll, After, Sift, Found, Adds, Families, Target, Tagged, Ready, Plan;
    ReadyIs(net, slots, t, want);
    hide Valid, Lawful, NoMapped, Listing;
    var s := SiftAll(net, slots, t, want);
    var n := |PlanAll(net, slots, t, want)|;
    AfterIs(net, slots, t, want, n);
    AfterHave(net, slots, t, want, n, f, w);
    AddsPlus(net, slots, t, want, f, w);
    StaleCopies(net, slots, t, want, f, w);
    assert s.stale[..|s.stale|] == s.stale;
    if f in s.kept {
      KeptFamily(net, slots, t, want, f);
    }
  }

  lemma AfterListing(net: Net, slots: seq<Slot>, t: Tables, want: Rule, n: nat)
    requires Listing(slots, t) && n <= |PlanAll(net, slots, t, want)|
    ensures Listing(slots, After(net, slots, t, want, n)) && After(net, slots, t, want, n).Keys == t.Keys
  {
    hide Plan, Found, Listing, ExecAll;
    ExecAllListing(slots, t, PlanAll(net, slots, t, want), n);
  }

  // ------------------------------------------------------------------ convergence

  /** Exactly one rule for each wanted family, each of them the wanted rule. */
  ghost predicate Settled(want: Rule, fs: seq<FoundRule>)
  {
    && (forall fr :: fr in fs ==> IsWanted(want, fr) && fr.family in Families(want))
    && (forall i, j :: 0 <= i < j < |fs| ==> fs[i].family != fs[j].family)
    && (forall f :: f in Families(want) ==> exists fr :: fr in fs && fr.family == f)
  }

  lemma ChosenIsWanted(net: Net, slots: seq<Slot>, t: Tables, want: Rule, fr: FoundRule)
    requires Ready(net, slots, t, want) && fr.family in Families(want)
    requires fr.words == Chosen(net, slots, t, want, fr.family)
    requires fr.rule == ReadRule(net, fr.family, fr.words)
    ensures IsWanted(want, fr)
  {
    hide Sift, Found, Equal, ReadRule, Tagged, Target, Ready, Families;
    ReadyIs(net, slots, t, want);
    hide Valid, Lawful, NoMapped, Listing;
    var s := SiftAll(net, slots, t, want);
    if fr.family in s.kept {
      KeptAre(net, slots, t, want);
      assert KeptIs(net, want, t, fr.family, s.kept[fr.family]);
      FoundIsRead(net, want.name, t, s.kept[fr.family]);
    } else {
      TargetIsWanted(net, want, fr);
    }
  }

  lemma EndFoundIs(net: Net, slots: seq<Slot>, t: Tables, want: Rule, fr: FoundRule)
    requires Ready(net, slots, t, want)
    requires fr in FoundAll(net, slots, End(net, slots, t, want), want)
    ensures fr.family in Families(want) && fr.words == Chosen(net, slots, t, want, fr.family)
    ensures IsWanted(want, fr)
  {
    hide Have, Copies, After, Sift, Found, Families, Tagged, Ready, Plan, IsWanted, FoundAt, Chosen;
    ReadyIs(net, slots, t, want);
    hide Valid, Lawful, NoMapped, Listing, ReadRule;
    var end := End(net, slots, t, want);
    var fs := FoundAll(net, slots, end, want);
    AfterListing(net, slots, t, want, |PlanAll(net, slots, t, want)|);
    FoundIs(net, want.name, slots, end, |slots|);
    assert FoundAt(net, want.name, end, fr);
    FoundIsRead(net, want.name, end, fr);
    FoundCopies(net, want.name, slots, end, fr.family, fr.words);
    CopiesIn(fs, fr.family, fr.words);
    EndHave(net, slots, t, want, fr.family, fr.words);
    ChosenIsWanted(net, slots, t, want, fr);
  }

  lemma EndIsSettled(net: Net, slots: seq<Slot>, t: Tables, want: Rule)
    requires Ready(net, slots, t, want)
    ensures Settled(want, FoundAll(net, slots, End(net, slots, t, want), want))
  {
    hide Have, Copies, After, Sift, Found, Families, Tagged, Ready, Plan, IsWanted, FoundAt, Chosen, End, FoundAll;
    var fs := FoundAll(net, slots, End(net, slots, t, want), want);
    forall fr | fr in fs ensures IsWanted(want, fr) && fr.family in Families(want) {
      EndFoundIs(net, slots, t, want, fr);
    }
    forall i, j | 0 <= i < j < |fs| ensures fs[i].family != fs[j].family {
      EndHasOne(net, slots, t, want, i, j);
    }
    forall f | f in Families(want) ensures exists fr :: fr in fs && fr.family == f {
      EndHasSome(net, slots, t, want, f);
    }
  }

  lemma EndHasSome(net: Net, slots: seq<Slot>, t: Tables, want: Rule, f: string)
    requires Ready(net, slots, t, want) && f in Families(want)
    ensures exists fr :: fr in FoundAll(net, slots, End(net, slots, t, want), want) && fr.family == f
  {
    hide Have, Copies, After, Sift, Found, Families, Tagged, Ready, Plan, IsWanted, FoundAt, Chosen;
    ReadyIs(net, slots, t, want);
    hide Valid, Lawful, NoMapped, Listing, ReadRule;
    var end, w := End(net, slots, t, want), Chosen(net, slots, t, want, f);
    AfterListing(net, slots, t, want, |PlanAll(net, slots, t, want)|);
    ChosenIsTagged(net, slots, t, want, f);
    EndHave(net, slots, t, want, f, w);
    FoundCopies(net, want.name, slots, end, f, w);
    CopiesIn(FoundAll(net, slots, end, want), f, w);
  }

  lemma EndHasOne(net: Net, slots: seq<Slot>, t: Tables, want: Rule, i: nat, j: nat)
    requires Ready(net, slots, t, want)
    requires i < j < |FoundAll(net, slots, End(net, slots, t, want), want)|
    ensures var fs := FoundAll(net, slots, End(net, slots, t, want), want);
      fs[i].family != fs[j].family
  {
    hide Have, Copies, After, Sift, Found, Families, Tagged, Ready, Plan, IsWanted, FoundAt, Chosen;
    ReadyIs(net, slots, t, want);
    hide Valid, Lawful, NoMapped, Listing, ReadRule;
    var end := End(net, slots, t, want);
    var fs := FoundAll(net, slots, end, want);
    var f, w := fs[i].family, fs[i].words;
    AfterListing(net, slots, t, want, |PlanAll(net, slots, t, want)|);
    EndFoundIs(net, slots, t, want, fs[i]);
    EndFoundIs(net, slots, t, want, fs[j]);
    if fs[j].family == f {
      TwoCopies(fs, i, j);
      ChosenIsTagged(net, slots, t, want, f);
      FoundCopies(net, want.name, slots, end, f, w);
      EndHave(net, slots, t, want, f, w);
    }
  }

  lemma ValidOfEqual(r: Rule, o: Rule)
    requires Valid(r) && Equal(r, o)
    ensures Valid(o)
  {
    PortsOfEqual(r.sourcePorts, o.sourcePorts);
    PortsOfEqual(r.destPorts, o.destPorts);
    assert |SortPorts(r.sourcePorts)| == |SortPorts(o.sourcePorts)|;
    hide PortsOk, SortPorts, ValidName, ValidComment, ValidInterface;
  }

  lemma PortsOfEqual(a: seq<PortRange>, b: seq<PortRange>)
    requires PortsOk(a) && SortPorts(a) == SortPorts(b)
    ensures PortsOk(b) && |a| == |b|
  {
    PortsOkIs(a);
    PortsOkIs(b);
    SortPortsEntries(a);
    SortPortsEntries(b);
    forall i | 0 <= i < |b| ensures IsPortRange(b[i]) {
      assert b[i] in multiset(b) && multiset(b) == multiset(a);
    }
  }

  lemma EqualUpToFamily(r: Rule, want: Rule, f: string)
    requires Equal(r, want.(family := f))
    ensures Equal(r.(family := want.family), want) && r.family == f
  {}

  lemma SettledMerges(want: Rule, fs: seq<FoundRule>)
    requires Valid(want) && Settled(want, fs)
    ensures MergedRule(fs).Some? && Equal(MergedRule(fs).value, want)
  {
    hide Valid, Equal;
    assert forall i :: 0 <= i < |fs| ==> fs[i] in fs && fs[i].rule.Some?;
    forall i | 0 <= i < |fs| ensures Equal(fs[i].rule.value.(family := want.family), want) && fs[i].rule.value.family == fs[i].family {
      assert IsWanted(want, fs[i]);
      EqualUpToFamily(fs[i].rule.value, want, fs[i].family);
    }
    SettledLength(want, fs);
    if want.family == INET {
      var a, b := fs[0].rule.value, fs[1].rule.value;
      EqualIsTransitive(a.(family := INET), want, b.(family := INET));
      EqualIsSymmetric(a.(family := INET), want);
      ValidOfEqual(want, a.(family := INET));
    } else {
      assert fs[0].rule.value.family == want.family;
    }
  }

  lemma EqualIsSymmetric(a: Rule, b: Rule)
    requires Equal(a, b)
    ensures Equal(b, a)
  {}

  lemma EqualIsTransitive(a: Rule, b: Rule, c: Rule)
    requires Equal(a, b) && Equal(c, b)
    ensures Equal(a, c)
  {}

  lemma SettledLength(want: Rule, fs: seq<FoundRule>)
    requires Settled(want, fs)
    ensures |fs| == if want.family == INET then 2 else 1
  {
    hide IsWanted, Families;
    assert forall i :: 0 <= i < |fs| ==> fs[i] in fs;
    if want.family == INET {
      FamiliesOfInet(want);
      ManyFamilies(fs, IPV4, IPV6);
      assert IPV4 in Families(want) && IPV6 in Families(want);
      var a :| a in fs && a.family == IPV4;
      var b :| b in fs && b.family == IPV6;
    } else {
      FamilyOfOne(want);
      ManyFamilies(fs, want.family, want.family);
      assert want.family in Families(want);
      var a :| a in fs && a.family == want.family;
    }
  }

  lemma FamiliesOfInet(want: Rule)
    requires want.family == INET
    ensures IPV4 != IPV6 && forall f :: f in Families(want) <==> f == IPV4 || f == IPV6
  {}

  lemma FamilyOfOne(want: Rule)
    requires want.family != INET
    ensures forall f :: f in Families(want) <==> f == want.family
  {}

  lemma ManyFamilies(fs: seq<FoundRule>, f: string, g: string)
    requires forall i, j :: 0 <= i < j < |fs| ==> fs[i].family != fs[j].family
    ensures 1 < |fs| ==> exists i :: 0 <= i < |fs| && fs[i].family != f
    ensures 2 < |fs| ==> exists i :: 0 <= i < |fs| && fs[i].family != f && fs[i].family != g
  {
    if 1 < |fs| {
      assert fs[0].family != fs[1].family;
    }
    if 2 < |fs| {
      assert fs[0].family != fs[2].family && fs[1].family != fs[2].family;
    }
  }

  /** After a run of apply, find and merged yield the wanted rule. */
  lemma ApplyConverges(net: Net, slots: seq<Slot>, t: Tables, want: Rule)
    requires Ready(net, slots, t, want)
    ensures var r := MergedRule(FoundAll(net, slots, End(net, slots, t, want), want));
      r.Some? && Equal(r.value, want)
  {
    hide Settled, Found, End, MergedRule, Equal;
    EndIsSettled(net, slots, t, want);
    SettledMerges(want, FoundAll(net, slots, End(net, slots, t, want), want));
  }

  lemma {:induction false} SettledSift(want: Rule, fs: seq<FoundRule>, n: nat)
    requires Settled(want, fs) && n <= |fs|
    ensures Sift(want, fs, n).stale == []
    ensures forall f :: f in Sift(want, fs, n).kept <==> exists i :: 0 <= i < n && fs[i].family == f
  {
    hide IsWanted;
    if 0 < n {
      SettledSift(want, fs, n - 1);
      assert fs[n - 1] in fs;
    }
  }

  lemma SettledNeedsNothing(net: Net, t: Tables, want: Rule, fs: seq<FoundRule>)
    requires Settled(want, fs)
    ensures Plan(net, t, want, fs) == []
  {
    SettledSift(want, fs, |fs|);
    var s := Sift(want, fs, |fs|);
    forall f | f in Families(want) ensures f in s.kept {
      var fr :| fr in fs && fr.family == f;
      var i :| 0 <= i < |fs| && fs[i] == fr;
    }
    hide Sift, Settled, Families, AddCmd, Args, Stored;
    AllKeptAddsNothing(net, t, want, s);
    assert Deletes([]) == [];
  }

  lemma AllKeptAddsNothing(net: Net, t: Tables, want: Rule, s: Sifted)
    requires forall f :: f in Families(want) ==> f in s.kept
    ensures Adds(net, t, want, s) == []
  {}

  /** A second apply runs no command. */
  lemma ApplyIsIdempotent(net: Net, slots: seq<Slot>, t: Tables, want: Rule)
    requires Ready(net, slots, t, want)
    ensures PlanAll(net, slots, End(net, slots, t, want), want) == []
  {
    hide Settled, Found, After, Plan;
    EndIsSettled(net, slots, t, want);
    SettledNeedsNothing(net, End(net, slots, t, want), want, FoundAll(net, slots, End(net, slots, t, want), want));
  }

  // ------------------------------------------------------------------------ safety

  ghost predicate HasRule(net: Net, slots: seq<Slot>, t: Tables, want: Rule, f: string)
  {
    exists fr :: fr in FoundAll(net, slots, t, want) && fr.family == f
  }

  lemma HaveIsFound(net: Net, slots: seq<Slot>, t: Tables, want: Rule, f: string, w: Words)
    requires Listing(slots, t) && Tagged(w, want.name) && 0 < Have(t, f, w)
    ensures HasRule(net, slots, t, want, f)
  {
    hide Found, Tagged, Have, Copies;
    var fs := FoundAll(net, slots, t, want);
    FoundCopies(net, want.name, slots, t, f, w);
    CopiesIn(fs, f, w);
    var i :| 0 <= i < |fs| && fs[i].family == f && fs[i].words == w;
    assert fs[i] in fs;
  }

  lemma FoundIsHave(net: Net, slots: seq<Slot>, t: Tables, want: Rule, fr: FoundRule)
    requires Listing(slots, t) && fr in FoundAll(net, slots, t, want)
    ensures Tagged(fr.words, want.name) && 0 < Have(t, fr.family, fr.words)
  {
    hide Found, Tagged, Have, Copies, ReadRule;
    FoundIs(net, want.name, slots, t, |slots|);
    assert FoundAt(net, want.name, t, fr);
    FoundCopies(net, want.name, slots, t, fr.family, fr.words);
    CopiesIn(FoundAll(net, slots, t, want), fr.family, fr.words);
  }

  /** Between any two commands, a wanted family that had a tagged rule has one. */
  lemma NeverWithout(net: Net, slots: seq<Slot>, t: Tables, want: Rule, n: nat, f: string)
    requires Ready(net, slots, t, want) && f in Families(want)
    requires n <= |PlanAll(net, slots, t, want)| && HasRule(net, slots, t, want, f)
    ensures HasRule(net, slots, After(net, slots, t, want, n), want, f)
  {
    ReadyIs(net, slots, t, want);
    hide Have, Copies, After, Sift, Found, Families, Tagged, Ready, Plan, Adds, Chosen, Valid, Lawful, Listing;
    var t' := After(net, slots, t, want, n);
    AfterListing(net, slots, t, want, n);
    if n <= |AddsAll(net, slots, t, want)| {
      var fr :| fr in FoundAll(net, slots, t, want) && fr.family == f;
      FoundIsHave(net, slots, t, want, fr);
      AfterHave(net, slots, t, want, n, f, fr.words);
      HaveIsFound(net, slots, t', want, f, fr.words);
    } else {
      ChosenIsTagged(net, slots, t, want, f);
      ChosenStays(net, slots, t, want, n, f);
      HaveIsFound(net, slots, t', want, f, Chosen(net, slots, t, want, f));
    }
  }

  lemma AddIsTagged(net: Net, t: Tables, want: Rule, s: Sifted, c: Cmd)
    requires Lawful(net) && Valid(want) && NoMapped(want) && AddsWanted(net, t, want, s, c)
    ensures TaggedCmd(c, want.name)
  {
    hide Tagged, Stored, Target, Valid, Lawful, NoMapped, Families, ReadRule, SortedRule, Equal, Applicable;
    TargetIs(net, want, c.slot.family);
  }

  lemma StaleIsTagged(net: Net, slots: seq<Slot>, t: Tables, want: Rule, i: nat)
    requires Listing(slots, t) && i < |SiftAll(net, slots, t, want).stale|
    ensures TaggedCmd(Deletes(SiftAll(net, slots, t, want).stale)[i], want.name)
  {
    hide Tagged, Sift, Found, Listing, ReadRule;
    KeptAre(net, slots, t, want);
    assert FoundAt(net, want.name, t, SiftAll(net, slots, t, want).stale[i]);
  }

  lemma PlanIsTagged(net: Net, slots: seq<Slot>, t: Tables, want: Rule)
    requires Ready(net, slots, t, want)
    ensures forall i :: 0 <= i < |PlanAll(net, slots, t, want)| ==> TaggedCmd(PlanAll(net, slots, t, want)[i], want.name)
  {
    ReadyIs(net, slots, t, want);
    hide TaggedCmd, Sift, Found, Adds, Ready, Valid, Lawful, NoMapped, Listing, AddsWanted, Deletes, Additions;
    var s := SiftAll(net, slots, t, want);
    var adds, plan := AddsAll(net, slots, t, want), PlanAll(net, slots, t, want);
    AddsAreAdditions(net, slots, t, want);
    forall c | c in adds ensures TaggedCmd(c, want.name) { AddIsTagged(net, t, want, s, c); }
    forall i | 0 <= i < |s.stale| ensures TaggedCmd(Deletes(s.stale)[i], want.name) {
      StaleIsTagged(net, slots, t, want, i);
    }
    TaggedTogether(adds, Deletes(s.stale), want.name);
  }

  lemma TaggedTogether(a: seq<Cmd>, b: seq<Cmd>, name: string)
    requires forall c :: c in a ==> TaggedCmd(c, name)
    requires forall i :: 0 <= i < |b| ==> TaggedCmd(b[i], name)
    ensures forall i :: 0 <= i < |a + b| ==> TaggedCmd((a + b)[i], name)
  {}

  /** Whenever the run stops, every rule that does not carry the name is still there, in
      the same sequence. */
  lemma ForeignRulesStay(net: Net, slots: seq<Slot>, t: Tables, want: Rule, n: nat, k: Slot)
    requires Ready(net, slots, t, want) && n <= |PlanAll(net, slots, t, want)| && k in t
    ensures k in After(net, slots, t, want, n)
    ensures Foreign(After(net, slots, t, want, n)[k], want.name) == Foreign(t[k], want.name)
  {
    hide Plan, Found, TaggedCmd, ExecAll, Foreign, Ready;
    PlanIsTagged(net, slots, t, want);
    ExecAllForeign(t, PlanAll(net, slots, t, want), n, want.name, k);
  }

  /** Every command of the plan can be carried out when its turn comes. */
  lemma PlanApplies(net: Net, slots: seq<Slot>, t: Tables, want: Rule, n: nat)
    requires Ready(net, slots, t, want) && n < |PlanAll(net, slots, t, want)|
    ensures Applicable(After(net, slots, t, want, n), PlanAll(net, slots, t, want)[n])
  {
    hide Sift, Found, Ready, Adds, ExecAll, Applicable, Deletes, Enough, Listing, Valid, Lawful, NoMapped, Have,
      Copies, PlusAll, AddsWanted, Grown, Tagged;
    var adds, stale := AddsAll(net, slots, t, want), SiftAll(net, slots, t, want).stale;
    ReadyIs(net, slots, t, want);
    AfterIs(net, slots, t, want, n);
    AddsAreAdditions(net, slots, t, want);
    if n < |adds| {
      AdditionsHave(t, adds, n, "", []);
    } else {
      EnoughAfterAdds(net, slots, t, want);
      assert adds[..|adds|] == adds && Deletes(stale)[..0] == [];
      NoCommands(ExecAll(t, adds));
      DeletesHave(ExecAll(t, adds), stale, n - |adds|, "", []);
    }
  }

  lemma NoCommands(t: Tables)
    ensures ExecAll(t, []) == t
  {}

  // ------------------------------------------------------- the place of a replacement

  /** The rules before the first one with these words. */
  function Ahead(rules: seq<Words>, x: Words): seq<Words>
  {
    if rules == [] || rules[0] == x then [] else [rules[0]] + Ahead(rules[1..], x)
  }

  lemma {:induction false} AheadOfInserted(a: seq<Words>, x: Words, b: seq<Words>)
    requires x !in a
    ensures Ahead(a + [x] + b, x) == a && x in a + [x] + b
  {
    var s := a + [x] + b;
    assert s[|a|] == x;
    if a != [] {
      AheadOfInserted(a[1..], x, b);
      assert s[1..] == a[1..] + [x] + b;
      assert a == [a[0]] + a[1..];
    }
  }

  lemma {:induction false} AheadAfterRemoval(rules: seq<Words>, x: Words, w: Words, name: string)
    requires x in rules && w != x && Tagged(w, name)
    ensures x in RemoveFirst(rules, w)
    ensures Foreign(Ahead(RemoveFirst(rules, w), x), name) == Foreign(Ahead(rules, x), name)
  {
    hide Tagged;
    if rules[0] != x {
      var ahead := Ahead(rules[1..], x);
      assert ([rules[0]] + ahead)[1..] == ahead;
      if rules[0] != w {
        AheadAfterRemoval(rules[1..], x, w, name);
        var r := RemoveFirst(rules[1..], w);
        assert ([rules[0]] + r)[1..] == r;
        assert ([rules[0]] + Ahead(r, x))[1..] == Ahead(r, x);
      }
    } else {
      var r := RemoveFirst(rules[1..], w);
      assert ([rules[0]] + r)[0] == x;
    }
  }

  /** Where the rule of a family without one is added: in the place of the first rule to be
      deleted from its chain, or else at the end. */
  function Place(net: Net, slots: seq<Slot>, t: Tables, want: Rule, f: string): nat
  {
    var s, k := SiftAll(net, slots, t, want), SlotOf(want, f);
    if f in s.insertAt && 1 <= s.insertAt[f] then s.insertAt[f] - 1
    else if k in t then |t[k]| else 0
  }

  lemma ExecElsewhere(t: Tables, c: Cmd, k: Slot)
    requires !c.Delete? && c.slot != k && k in t
    ensures Exec(t, c)[k] == t[k] && k in Exec(t, c)
  {}

  lemma ExecOne(t: Tables, c: Cmd)
    ensures ExecAll(t, [c]) == Exec(t, c)
  {}

  /** The chain of a family once its rule is added, whatever was added elsewhere before. */
  lemma AddedAt(net: Net, slots: seq<Slot>, t: Tables, want: Rule, f: string, t': Tables)
    requires Ready(net, slots, t, want) && f in Families(want)
    requires f !in SiftAll(net, slots, t, want).kept
    requires var k := SlotOf(want, f); k in t' && t'[k] == t[k]
    ensures var c := AddCmd(net, t, want, SiftAll(net, slots, t, want), f);
      var k, p := SlotOf(want, f), Place(net, slots, t, want, f);
      && |c| == 1 && c[0].slot == k && !c[0].Delete? && p <= |t[k]| && k in Exec(t', c[0])
      && Exec(t', c[0])[k] == t[k][..p] + [Target(net, want, f)] + t[k][p..]
  {
    var s, k := SiftAll(net, slots, t, want), SlotOf(want, f);
    ReadyIs(net, slots, t, want);
    hide Ready, Valid, Lawful, NoMapped, Listing, Sift, Found, Families, Target, Stored, Upper, Args, Applicable, Exec;
    AddCmdIs(net, slots, t, want, f);
    if f in s.insertAt {
      InsertPosition(net, slots, t, want, f);
    }
    AddedByCmd(net, t, want, s, f, t', Place(net, slots, t, want, f));
  }

  lemma AddedByCmd(net: Net, t: Tables, want: Rule, s: Sifted, f: string, t': Tables, p: nat)
    requires var k := SlotOf(want, f); k in t && k in t' && t'[k] == t[k] && p <= |t[k]|
    requires p == if f in s.insertAt then s.insertAt[f] - 1 else |t[SlotOf(want, f)]|
    requires var c := AddCmd(net, t, want, s, f);
      |c| == 1 && c[0].slot == SlotOf(want, f) && !c[0].Delete? && Stored(c[0].slot, c[0].args) == Target(net, want, f)
    ensures var c, k := AddCmd(net, t, want, s, f)[0], SlotOf(want, f);
      k in Exec(t', c) && Exec(t', c)[k] == t[k][..p] + [Target(net, want, f)] + t[k][p..]
  {
    hide Stored, Target, Upper, Args;
    var rules, x := t[SlotOf(want, f)], Target(net, want, f);
    assert rules[..|rules|] + [x] + rules[|rules|..] == rules + [x];
  }

  lemma AddedInChain(net: Net, slots: seq<Slot>, t: Tables, want: Rule, f: string)
    requires Ready(net, slots, t, want) && f in Families(want)
    requires f !in SiftAll(net, slots, t, want).kept
    ensures var k, p := SlotOf(want, f), Place(net, slots, t, want, f);
      var t' := ExecAll(t, AddsAll(net, slots, t, want));
      && k in t && k in t' && p <= |t[k]|
      && t'[k] == t[k][..p] + [Target(net, want, f)] + t[k][p..]
  {
    var s, k := SiftAll(net, slots, t, want), SlotOf(want, f);
    assert k in t && (f == want.family || want.family == INET);
    if want.family != INET {
      hide AddCmd, Sift, Found, Ready, Target, Place, Upper;
      AddedAt(net, slots, t, want, f, t);
      ExecOne(t, AddCmd(net, t, want, s, f)[0]);
    } else {
      AddedOfBoth(net, slots, t, want, f);
    }
  }

  lemma BothAreWanted(net: Net, slots: seq<Slot>, t: Tables, want: Rule, f: string)
    requires Ready(net, slots, t, want) && want.family == INET && f in Families(want)
    ensures SlotOf(want, f) in t && (f == IPV4 || f == IPV6) && IPV4 != IPV6
    ensures IPV4 in Families(want) && IPV6 in Families(want)
  {}

  lemma AddedOfBoth(net: Net, slots: seq<Slot>, t: Tables, want: Rule, f: string)
    requires Ready(net, slots, t, want) && want.family == INET && f in Families(want)
    requires f !in SiftAll(net, slots, t, want).kept
    ensures var k, p := SlotOf(want, f), Place(net, slots, t, want, f);
      var t' := ExecAll(t, AddsAll(net, slots, t, want));
      && k in t && k in t' && p <= |t[k]|
      && t'[k] == t[k][..p] + [Target(net, want, f)] + t[k][p..]
  {
    hide AddCmd, Sift, Found, Ready, Target, Place, Upper, Exec, AddsWanted, Families;
    var s, k := SiftAll(net, slots, t, want), SlotOf(want, f);
    BothAreWanted(net, slots, t, want, f);
    var a, b := AddCmd(net, t, want, s, IPV4), AddCmd(net, t, want, s, IPV6);
    AddCmdIs(net, slots, t, want, IPV4);
    AddCmdIs(net, slots, t, want, IPV6);
    ExecAllAppend(t, a, b);
    if f == IPV4 {
      AddedAt(net, slots, t, want, f, t);
      ExecOne(t, a[0]);
      AddElsewhere(net, t, want, s, ExecAll(t, a), b, k);
    } else {
      AddElsewhere(net, t, want, s, t, a, k);
      AddedAt(net, slots, t, want, f, ExecAll(t, a));
      ExecOne(ExecAll(t, a), b[0]);
    }
  }

  lemma AddElsewhere(net: Net, t: Tables, want: Rule, s: Sifted, t': Tables, c: seq<Cmd>, k: Slot)
    requires |c| <= 1 && k in t'
    requires c != [] ==> AddsWanted(net, t, want, s, c[0]) && c[0].slot != k
    ensures k in ExecAll(t', c) && ExecAll(t', c)[k] == t'[k]
  {
    hide Exec, Applicable, Stored, Target, Families;
    if c == [] {
      NoCommands(t');
    } else {
      assert c == [c[0]];
      ExecOne(t', c[0]);
      ExecElsewhere(t', c[0], k);
    }
  }

  /** Deleting rules of the name other than `x` keeps `x` in its place among the others. */
  lemma {:induction false} DeletesKeepPlace(t: Tables, stale: seq<FoundRule>, n: nat, k: Slot, x: Words, name: string)
    requires n <= |stale| && k in t && x in t[k]
    requires forall i :: 0 <= i < |stale| ==> TaggedCmd(Deletes(stale)[i], name)
    requires forall i :: 0 <= i < |stale| && stale[i].family == k.family ==> stale[i].words != x
    ensures var t' := ExecAll(t, Deletes(stale)[..n]);
      && k in t' && x in t'[k]
      && Foreign(Ahead(t'[k], x), name) == Foreign(Ahead(t[k], x), name)
  {
    if n == 0 {
      NoCommands(t);
    } else {
      hide Exec, Foreign, Ahead, TaggedCmd;
      DeletesKeepPlace(t, stale, n - 1, k, x, name);
      ExecAllStep(t, Deletes(stale), n - 1);
      DeleteKeepsPlace(ExecAll(t, Deletes(stale)[..n - 1]), Deletes(stale)[n - 1], k, x, name);
    }
  }

  lemma DeleteKeepsPlace(t: Tables, c: Cmd, k: Slot, x: Words, name: string)
    requires k in t && x in t[k] && c.Delete? && TaggedCmd(c, name)
    requires c.family == k.family ==> c.words != x
    ensures k in Exec(t, c) && x in Exec(t, c)[k]
    ensures Foreign(Ahead(Exec(t, c)[k], x), name) == Foreign(Ahead(t[k], x), name)
  {
    hide Foreign, Ahead, Tagged, RemoveFirst;
    if Applicable(t, c) && Slot(c.family, c.words[1]) == k {
      AheadAfterRemoval(t[k], x, c.words, name);
    }
  }

  lemma StaleIsFound(net: Net, slots: seq<Slot>, t: Tables, want: Rule, f: string, q: nat)
    requires Ready(net, slots, t, want) && f in Families(want)
    requires f !in SiftAll(net, slots, t, want).kept
    requires SlotOf(want, f) in t && q < |t[SlotOf(want, f)]| && Tagged(t[SlotOf(want, f)][q], want.name)
    ensures exists i :: 0 <= i < |SiftAll(net, slots, t, want).stale|
              && SiftAll(net, slots, t, want).stale[i].pos == q + 1
              && InChain(want, f, SiftAll(net, slots, t, want).stale[i])
  {
    hide Ready, Valid, Lawful, NoMapped, Sift, Found, Families, Tagged, ReadRule, ChainAscending, AmongSlots, Upper;
    var k, found := SlotOf(want, f), FoundAll(net, slots, t, want);
    ReadyIs(net, slots, t, want);
    FoundAscends(net, want.name, slots, t, |slots|);
    SiftAscends(want, found, |found|);
    assert k in slots;
    var m :| 0 <= m < |slots| && slots[m] == k;
    var fr := FoundRule(f, t[k][q], q + 1, ReadRule(net, f, t[k][q]));
    assert fr in found;
    var j :| 0 <= j < |found| && found[j] == fr;
    assert ListedIn(k, t[k][q]);
    var i :| 0 <= i < |SiftAll(net, slots, t, want).stale| && SiftAll(net, slots, t, want).stale[i] == fr;
  }

  lemma FirstIsBefore(want: Rule, s: Sifted, f: string, i: nat)
    requires FirstStale(want, s) && ChainAscending(s.stale) && i < |s.stale| && InChain(want, f, s.stale[i])
    ensures f in s.insertAt && s.insertAt[f] <= s.stale[i].pos
  {
    hide Upper;
    assert f in s.insertAt;
    var j :| 0 <= j < |s.stale| && IsFirst(want, s, f, j);
    assert SameChain(s.stale[j], s.stale[i]);
  }

  lemma PositionIsFirst(net: Net, slots: seq<Slot>, t: Tables, want: Rule, f: string, i: nat)
    requires Ready(net, slots, t, want) && i < |SiftAll(net, slots, t, want).stale|
    requires InChain(want, f, SiftAll(net, slots, t, want).stale[i])
    ensures f in SiftAll(net, slots, t, want).insertAt
    ensures SiftAll(net, slots, t, want).insertAt[f] <= SiftAll(net, slots, t, want).stale[i].pos
  {
    hide Ready, Valid, Lawful, NoMapped, Listing, Sift, Found, AmongSlots, Upper, Tagged, ReadRule;
    var s, found := SiftAll(net, slots, t, want), FoundAll(net, slots, t, want);
    ReadyIs(net, slots, t, want);
    FoundAscends(net, want.name, slots, t, |slots|);
    SiftAscends(want, found, |found|);
    SiftInserts(want, found, |found|);
    assert FirstStale(want, s) && InChain(want, f, s.stale[i]);
    FirstIsBefore(want, s, f, i);
  }

  lemma PositionIsTagged(net: Net, slots: seq<Slot>, t: Tables, want: Rule, f: string)
    requires Ready(net, slots, t, want) && f in SiftAll(net, slots, t, want).insertAt
    ensures var k, p := SlotOf(want, f), SiftAll(net, slots, t, want).insertAt[f];
      k in t && 1 <= p <= |t[k]| && Tagged(t[k][p - 1], want.name)
  {
    hide Ready, Valid, Lawful, NoMapped, Listing, Sift, Found, Upper, Tagged, ReadRule;
    var s, found := SiftAll(net, slots, t, want), FoundAll(net, slots, t, want);
    ReadyIs(net, slots, t, want);
    SiftKeeps(want, found, |found|);
    SiftInserts(want, found, |found|);
    FoundIs(net, want.name, slots, t, |slots|);
    var j :| 0 <= j < |s.stale| && IsFirst(want, s, f, j);
    assert s.stale[j] in s.stale && s.stale[j] in found[..|found|] && found[..|found|] == found;
    assert FoundAt(net, want.name, t, s.stale[j]);
  }

  /** The place of a family without its rule is that of the first tagged rule of its chain,
      or the end if the chain has none. */
  lemma PlaceIsFirst(net: Net, slots: seq<Slot>, t: Tables, want: Rule, f: string)
    requires Ready(net, slots, t, want) && f in Families(want) && SlotOf(want, f) in t
    requires f !in SiftAll(net, slots, t, want).kept
    ensures var k, p := SlotOf(want, f), Place(net, slots, t, want, f);
      && p <= |t[k]| && (p < |t[k]| ==> Tagged(t[k][p], want.name))
      && forall q :: 0 <= q < p ==> !Tagged(t[k][q], want.name)
  {
    hide Ready, Sift, Found, Families, Tagged, InChain;
    var s, k, p := SiftAll(net, slots, t, want), SlotOf(want, f), Place(net, slots, t, want, f);
    if f in s.insertAt {
      PositionIsTagged(net, slots, t, want, f);
    }
    forall q | 0 <= q < p && q < |t[k]| ensures !Tagged(t[k][q], want.name) {
      if Tagged(t[k][q], want.name) {
        StaleIsFound(net, slots, t, want, f, q);
        var i :| 0 <= i < |s.stale| && s.stale[i].pos == q + 1 && InChain(want, f, s.stale[i]);
        PositionIsFirst(net, slots, t, want, f, i);
      }
    }
  }

  /** A replacement ends up where the first rule it replaces was: with the same other rules
      before it as the first tagged rule of its chain had. Without one to replace in the
      chain, it comes after all other rules. */
  lemma ReplacementTakesPlace(net: Net, slots: seq<Slot>, t: Tables, want: Rule, f: string)
    requires Ready(net, slots, t, want) && f in Families(want)
    requires f !in SiftAll(net, slots, t, want).kept
    ensures var k, p, x := SlotOf(want, f), Place(net, slots, t, want, f), Target(net, want, f);
      var end := End(net, slots, t, want);
      && k in t && k in end && p <= |t[k]| && x in end[k]
      && Foreign(Ahead(end[k], x), want.name) == Foreign(t[k][..p], want.name)
      && (p < |t[k]| ==> Tagged(t[k][p], want.name))
      && forall q :: 0 <= q < p ==> !Tagged(t[k][q], want.name)
  {
    ReadyIs(net, slots, t, want);
    hide Ready, Valid, Lawful, NoMapped, Listing, Sift, Found, Families, Target, Place, Adds, ExecAll, Foreign, Ahead;
    hide Deletes, TaggedCmd, Have, Plan, Copies, Tagged, ReadRule, SortedRule, Equal, Stored;
    var k, p, x := SlotOf(want, f), Place(net, slots, t, want, f), Target(net, want, f);
    var adds, stale := AddsAll(net, slots, t, want), SiftAll(net, slots, t, want).stale;
    var t1 := ExecAll(t, adds);
    AddedInChain(net, slots, t, want, f);
    PlaceIsFirst(net, slots, t, want, f);
    TargetIs(net, want, f);
    MissingIsMissing(net, slots, t, want, f);
    HaveIsIn(t, k, x);
    AheadOfInserted(t[k][..p], x, t[k][p..]);
    StaleCopies(net, slots, t, want, f, x);
    CopiesIn(stale, f, x);
    forall i | 0 <= i < |stale| ensures TaggedCmd(Deletes(stale)[i], want.name) {
      StaleIsTagged(net, slots, t, want, i);
    }
    DeletesKeepPlace(t1, stale, |stale|, k, x, want.name);
    EndIs(net, slots, t, want);
  }

  lemma EndIs(net: Net, slots: seq<Slot>, t: Tables, want: Rule)
    requires Listing(slots, t)
    ensures var adds, stale := AddsAll(net, slots, t, want), SiftAll(net, slots, t, want).stale;
      End(net, slots, t, want) == ExecAll(ExecAll(t, adds), Deletes(stale)[..|stale|])
  {
    hide Sift, Found, Adds, ExecAll, Deletes, Listing;
    var adds, stale := AddsAll(net, slots, t, want), SiftAll(net, slots, t, want).stale;
    AfterIs(net, slots, t, want, |adds| + |stale|);
    if stale == [] {
      assert adds[..|adds|] == adds && Deletes(stale)[..0] == [];
      NoCommands(ExecAll(t, adds));
    }
  }

  // ------------------------------------------------------------------------- removal

  lemma FoundIsEnough(net: Net, slots: seq<Slot>, t: Tables, name: string)
    requires Listing(slots, t)
    ensures Enough(t, Found(net, name, slots, t, |slots|))
  {
    hide Found, Have, Copies, Tagged, Listing;
    var fs := Found(net, name, slots, t, |slots|);
    forall i | 0 <= i < |fs| ensures Copies(fs, fs[i].family, fs[i].words) <= Have(t, fs[i].family, fs[i].words) {
      FoundCopies(net, name, slots, t, fs[i].family, fs[i].words);
    }
  }

  /** Removing what was found leaves nothing to find, and every other rule in sequence. */
  lemma RemoveRemovesAll(net: Net, slots: seq<Slot>, t: Tables, name: string)
    requires Listing(slots, t)
    ensures var end := ExecAll(t, Deletes(Found(net, name, slots, t, |slots|)));
      && Found(net, name, slots, end, |slots|) == []
      && end.Keys == t.Keys
      && forall k :: k in t ==> Foreign(end[k], name) == Foreign(t[k], name)
  {
    hide Found, Have, Copies, Tagged, Listing, ExecAll, Deletes, Foreign, Enough, ReadRule;
    var fs := Found(net, name, slots, t, |slots|);
    var cmds := Deletes(fs);
    var end := ExecAll(t, cmds);
    assert cmds[..|fs|] == cmds && fs[..|fs|] == fs;
    ExecAllListing(slots, t, cmds, |fs|);
    FoundIsEnough(net, slots, t, name);
    FoundIs(net, name, slots, t, |slots|);
    var left := Found(net, name, slots, end, |slots|);
    if left != [] {
      var fr := left[0];
      FoundIs(net, name, slots, end, |slots|);
      assert FoundAt(net, name, end, fr);
      DeletesHave(t, fs, |fs|, fr.family, fr.words);
      FoundCopies(net, name, slots, t, fr.family, fr.words);
      FoundCopies(net, name, slots, end, fr.family, fr.words);
      CopiesIn(left, fr.family, fr.words);
    }
    forall i | 0 <= i < |fs| ensures TaggedCmd(cmds[i], name) {
      assert FoundAt(net, name, t, fs[i]);
    }
    forall k | k in t ensures Foreign(end[k], name) == Foreign(t[k], name) {
      ExecAllForeign(t, cmds, |fs|, name, k);
    }
  }
}
