/** Which found rules form one rule (firewall_backend.go, merged), said without its cases. */
module IptablesMerged {
  import opened Text
  import opened NetAddress
  import opened FirewallPorts
  import opened FirewallRule
  import opened IptablesPlan
  import opened IptablesRun
  import opened IptablesProofs
  import opened IptablesTheorems

  /** The rule needs a rule of this family: of both, if it is of family inet. */
  predicate StandsFor(r: Rule, f: string) { IsIpFamily(f) && (r.family == INET || r.family == f) }

  /** The found rules are what the rule needs: one in each of its families, equal to it there,
      and none else. */
  ghost predicate Implements(found: seq<FoundRule>, r: Rule)
  {
    && Valid(r)
    && (forall i :: 0 <= i < |found| ==> IsPartOf(found[i], r))
    && (forall i, j :: 0 <= i < j < |found| ==> found[i].family != found[j].family)
    && (forall f :: StandsFor(r, f) ==> HasFamily(found, f))
  }

  ghost predicate IsPartOf(fr: FoundRule, r: Rule)
  {
    StandsFor(r, fr.family) && fr.rule.Some? && Equal(fr.rule.value, r.(family := fr.family))
  }

  predicate HasFamily(found: seq<FoundRule>, f: string) { exists i :: 0 <= i < |found| && found[i].family == f }

  /** What find parses is a valid rule of the family it was listed for. */
  ghost predicate Parsed(fr: FoundRule)
  {
    IsIpFamily(fr.family) && (fr.rule.Some? ==> Valid(fr.rule.value) && fr.rule.value.family == fr.family)
  }

  ghost predicate AllParsed(found: seq<FoundRule>) { forall i :: 0 <= i < |found| ==> Parsed(found[i]) }

  lemma FamilyApart(a: Rule, r: Rule, f: string, g: string)
    requires Equal(a, r.(family := f))
    ensures a.family == f && Equal(a.(family := g), r.(family := g))
  {}

  lemma FamilyBack(a: Rule, r: Rule, g: string)
    requires Equal(a.(family := g), r.(family := g))
    ensures Equal(a, r.(family := a.family))
  {}

  lemma SameFamilyIs(r: Rule)
    ensures r.(family := r.family) == r
  {}

  lemma EqualFamily(a: Rule, r: Rule)
    requires Equal(a, r)
    ensures a.family == r.family
  {}

  lemma TwoFamilies(f: string, g: string, h: string)
    requires IsIpFamily(f) && IsIpFamily(g) && f != g
    ensures IsIpFamily(h) <==> h == f || h == g
    ensures INET != f && INET != g && !IsIpFamily(INET)
  {}

  /** One found rule merges to a rule equal to `r` exactly if it implements it. */
  lemma OneMerges(found: seq<FoundRule>, r: Rule)
    requires AllParsed(found) && |found| == 1
    ensures found[0].rule.Some? && Equal(found[0].rule.value, r) <==> Implements(found, r)
  {
    hide Valid, Equal;
    assert Parsed(found[0]);
    var fr := found[0];
    if fr.rule.Some? && Equal(fr.rule.value, r) {
      EqualFamily(fr.rule.value, r);
      ValidOfEqual(fr.rule.value, r);
      SameFamilyIs(r);
      forall f | StandsFor(r, f) ensures HasFamily(found, f) {
        assert found[0].family == f;
      }
    }
    if Implements(found, r) {
      assert IsPartOf(fr, r);
      OneFamily(found, r);
      SameFamilyIs(r);
    }
  }

  lemma OneFamily(found: seq<FoundRule>, r: Rule)
    requires Implements(found, r) && |found| == 1
    ensures r.family == found[0].family
  {
    hide Valid, Equal;
    assert IsPartOf(found[0], r);
    InetNeedsTwo(found, r);
  }

  lemma InetNeedsTwo(found: seq<FoundRule>, r: Rule)
    requires forall f :: StandsFor(r, f) ==> HasFamily(found, f)
    ensures r.family == INET ==> 2 <= |found|
  {
    if r.family == INET {
      assert StandsFor(r, IPV4) && StandsFor(r, IPV6);
    }
  }

  ghost predicate Pair(a: Rule, b: Rule, r: Rule)
  {
    && a.family != b.family && Equal(a.(family := INET), b.(family := INET)) && Valid(a.(family := INET))
    && Equal(a.(family := INET), r)
  }

  lemma TwoImplement(found: seq<FoundRule>, r: Rule)
    requires AllParsed(found) && |found| == 2 && found[0].rule.Some? && found[1].rule.Some?
    requires Pair(found[0].rule.value, found[1].rule.value, r)
    ensures Implements(found, r)
  {
    hide Valid, Equal;
    assert Parsed(found[0]) && Parsed(found[1]);
    var a, b := found[0].rule.value, found[1].rule.value;
    EqualFamily(a.(family := INET), r);
    SameFamilyIs(r);
    ValidOfEqual(a.(family := INET), r);
    FamilyBack(a, r, INET);
    EqualIsSymmetric(a.(family := INET), b.(family := INET));
    EqualsMeet(a.(family := INET), b.(family := INET), r);
    FamilyBack(b, r, INET);
    forall f | StandsFor(r, f) ensures HasFamily(found, f) {
      TwoFamilies(found[0].family, found[1].family, f);
      assert found[0].family == f || found[1].family == f;
    }
    assert IsPartOf(found[0], r) && IsPartOf(found[1], r);
  }

  lemma EqualsMeet(a: Rule, b: Rule, r: Rule)
    requires Equal(a, b) && Equal(a, r)
    ensures Equal(b, r)
  {}

  lemma ImplementedByTwo(found: seq<FoundRule>, r: Rule)
    requires AllParsed(found) && |found| == 2 && Implements(found, r)
    ensures found[0].rule.Some? && found[1].rule.Some?
    ensures Pair(found[0].rule.value, found[1].rule.value, r)
  {
    hide Valid, Equal;
    assert IsPartOf(found[0], r) && IsPartOf(found[1], r);
    var a, b := found[0].rule.value, found[1].rule.value;
    assert found[0].family != found[1].family;
    assert r.family == INET;
    SameFamilyIs(r);
    FamilyApart(a, r, found[0].family, INET);
    FamilyApart(b, r, found[1].family, INET);
    EqualIsTransitive(a.(family := INET), r, b.(family := INET));
    EqualIsSymmetric(a.(family := INET), r);
    ValidOfEqual(r, a.(family := INET));
  }

  lemma AtMostTwo(found: seq<FoundRule>, r: Rule)
    requires AllParsed(found) && Implements(found, r)
    ensures 1 <= |found| <= 2 && forall i :: 0 <= i < |found| ==> found[i].rule.Some?
  {
    hide Valid, Equal;
    assert forall i :: 0 <= i < |found| ==> IsPartOf(found[i], r) && Parsed(found[i]);
    NoThirdFamily(found);
    assert IsFamily(r.family) by { FamilyOfValid(r); }
    if r.family == INET {
      assert StandsFor(r, IPV4);
    } else {
      assert StandsFor(r, r.family);
    }
  }

  lemma NoThirdFamily(found: seq<FoundRule>)
    requires forall i :: 0 <= i < |found| ==> IsIpFamily(found[i].family)
    requires forall i, j :: 0 <= i < j < |found| ==> found[i].family != found[j].family
    ensures |found| <= 2
  {
    if 2 < |found| {
      ThirdIsSame(found[0].family, found[1].family, found[2].family);
    }
  }

  lemma ThirdIsSame(f: string, g: string, h: string)
    requires IsIpFamily(f) && IsIpFamily(g) && IsIpFamily(h)
    ensures f == g || g == h || f == h
  {}

  lemma FamilyOfValid(r: Rule)
    requires Valid(r)
    ensures IsFamily(r.family)
  {}

  /** The found rules merge to a rule, up to the order of its ports, if and only if they are
      exactly what it needs: so that a further copy, or one that cannot be parsed or differs,
      is always refused. */
  lemma MergedIs(found: seq<FoundRule>, r: Rule)
    requires AllParsed(found)
    ensures MergedRule(found).Some? && Equal(MergedRule(found).value, r) <==> Implements(found, r)
  {
    hide Valid, Equal, Implements, AllParsed, Pair;
    if Implements(found, r) {
      AtMostTwo(found, r);
      if |found| == 1 {
        OneMerges(found, r);
      } else {
        ImplementedByTwo(found, r);
        PairMerges(found, r);
      }
    } else if MergedRule(found).Some? && Equal(MergedRule(found).value, r) {
      if |found| == 1 {
        OneMerges(found, r);
      } else {
        MergedPair(found, r);
        TwoImplement(found, r);
      }
    }
  }

  lemma PairMerges(found: seq<FoundRule>, r: Rule)
    requires |found| == 2 && found[0].rule.Some? && found[1].rule.Some?
    requires Pair(found[0].rule.value, found[1].rule.value, r)
    ensures MergedRule(found).Some? && Equal(MergedRule(found).value, r)
  {
    hide Valid, Equal;
  }

  lemma MergedPair(found: seq<FoundRule>, r: Rule)
    requires MergedRule(found).Some? && Equal(MergedRule(found).value, r) && |found| != 1
    ensures |found| == 2 && found[0].rule.Some? && found[1].rule.Some?
    ensures Pair(found[0].rule.value, found[1].rule.value, r)
  {
    hide Valid, Equal;
  }

  /** What find returns is parsed for its family. */
  lemma FoundIsParsed(net: Net, name: string, slots: seq<Slot>, t: Tables)
    requires Listing(slots, t) && forall k :: k in slots ==> IsIpFamily(k.family)
    ensures AllParsed(Found(net, name, slots, t, |slots|))
  {
    hide Found, Tagged, ReadRule, Valid, Upper, Lower;
    var found := Found(net, name, slots, t, |slots|);
    FoundIs(net, name, slots, t, |slots|);
    forall i | 0 <= i < |found| ensures Parsed(found[i]) {
      var fr := found[i];
      assert fr in found && FoundAt(net, name, t, fr);
      assert Slot(fr.family, fr.words[1]) in slots;
      if fr.rule.Some? {
        ReadRuleIsValid(net, fr.family, fr.words);
      }
    }
  }

  /** What find and merged make of the chains, for every state of them. */
  lemma FoundMergesIff(net: Net, name: string, slots: seq<Slot>, t: Tables, r: Rule)
    requires Listing(slots, t) && forall k :: k in slots ==> IsIpFamily(k.family)
    ensures var found := Found(net, name, slots, t, |slots|);
      MergedRule(found).Some? && Equal(MergedRule(found).value, r) <==> Implements(found, r)
  {
    hide Found, MergedRule, Equal, Implements;
    FoundIsParsed(net, name, slots, t);
    MergedIs(Found(net, name, slots, t, |slots|), r);
  }

  /** Two copies in one family, such as one added by hand, never form a rule. */
  lemma CopyIsRefused(net: Net, name: string, slots: seq<Slot>, t: Tables, f: string, w: Words)
    requires Listing(slots, t) && (forall k :: k in slots ==> IsIpFamily(k.family))
    requires Tagged(w, name) && 2 <= Have(t, f, w)
    ensures MergedRule(Found(net, name, slots, t, |slots|)).None?
  {
    hide Found, Tagged, Have, Copies, Valid, Equal;
    var found := Found(net, name, slots, t, |slots|);
    FoundCopies(net, name, slots, t, f, w);
    FoundIsParsed(net, name, slots, t);
    if MergedRule(found).Some? {
      var r := MergedRule(found).value;
      EqualToItself(r);
      MergedIs(found, r);
      DistinctHaveNoCopies(found, f, w);
    }
  }

  lemma EqualToItself(r: Rule)
    ensures Equal(r, r)
  {}

  lemma {:induction false} DistinctHaveNoCopies(fs: seq<FoundRule>, f: string, w: Words)
    requires forall i, j :: 0 <= i < j < |fs| ==> fs[i].family != fs[j].family
    ensures Copies(fs, f, w) <= 1
  {
    if fs != [] {
      var init := fs[..|fs| - 1];
      DistinctHaveNoCopies(init, f, w);
      CopiesIn(init, f, w);
    }
  }

  // ------------------------------------------------------------------------ whose rules

  lemma {:induction false} CommentIs(w: Words, i: nat, k: nat)
    requires i <= k && k + 1 < |w| && w[k] == "--comment" && forall j :: i <= j < k ==> w[j] != "--comment"
    ensures CommentFrom(w, i) == Some(w[k + 1])
    decreases k - i
  {
    if i < k {
      CommentIs(w, i + 1, k);
    }
  }

  lemma {:induction false} NoComment(w: Words, i: nat)
    requires forall j :: i <= j < |w| - 1 ==> w[j] != "--comment"
    ensures CommentFrom(w, i).None?
    decreases |w| - i
  {
    if i + 1 < |w| {
      NoComment(w, i + 1);
    }
  }

  /** A rule belongs to the name that stands in the tag of its first comment, and to no other:
      after the prefix, and alone or before a space. */
  lemma TaggedIs(w: Words, k: nat, name: string)
    requires k + 1 < |w| && w[k] == "--comment" && forall j :: 0 <= j < k ==> w[j] != "--comment"
    ensures Tagged(w, name) <==>
      && TAG_PREFIX <= w[k + 1] && name != "" && ' ' !in name
      && var rest := w[k + 1][|TAG_PREFIX|..];
         rest == name || (name + " " <= rest)
  {
    hide Text.Find;
    CommentIs(w, 0, k);
    var c := w[k + 1];
    if TAG_PREFIX <= c && name != "" && ' ' !in name {
      var rest := c[|TAG_PREFIX|..];
      if name + " " <= rest {
        var comment := rest[|name| + 1..];
        assert rest == name + [' '] + comment;
        CutSpaceAfter(name, comment);
      } else if rest == name {
        CutSpaceAfter(name, "");
      }
    }
    if Tagged(w, name) {
      ReadTagIs(c, ReadTag(c).value);
    }
  }

  lemma UntaggedIs(w: Words, name: string)
    requires forall j :: 0 <= j < |w| - 1 ==> w[j] != "--comment"
    ensures !Tagged(w, name)
  {
    NoComment(w, 0);
  }
}
