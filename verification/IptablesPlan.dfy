/** The iptables reconciler (firewall_backend.go) as a plan of commands: what find
    sees, what apply would run, and what every prefix of that run leaves behind. */
module IptablesPlan {
  import opened Text
  import opened NetAddress
  import opened FirewallPorts
  import opened FirewallRule

  /** The words of a line of "iptables -S", starting with "-A" and the chain. */
  type Words = seq<string>

  datatype Slot = Slot(family: string, chain: string)

  /** The rules of every chain, in order, as they are listed. */
  type Tables = map<Slot, seq<Words>>

  predicate IsIpFamily(f: string) { f == IPV4 || f == IPV6 }

  predicate IsBuiltin(chain: string) { chain == "INPUT" || chain == "OUTPUT" || chain == "FORWARD" }

  predicate ListedIn(k: Slot, w: Words) { 2 <= |w| && w[0] == "-A" && w[1] == k.chain }

  /** `slots` are the chains of the available commands in the order they are listed. */
  ghost predicate Listing(slots: seq<Slot>, t: Tables)
  {
    && (forall i, j :: 0 <= i < j < |slots| ==> slots[i] != slots[j])
    && (forall k :: k in slots <==> k in t)
    && (forall k, i :: k in t && 0 <= i < |t[k]| ==> ListedIn(k, t[k][i]))
  }

  // --------------------------------------------------------------------- the finder

  /** iptablesComment, from the i-th word on. */
  function CommentFrom(w: Words, i: nat): Option<string>
    decreases |w| - i
  {
    if |w| <= i + 1 then None
    else if w[i] == "--comment" then Some(w[i + 1])
    else CommentFrom(w, i + 1)
  }

  predicate Tagged(w: Words, name: string)
  {
    var c := CommentFrom(w, 0);
    c.Some? && ReadTag(c.value).Some? && ReadTag(c.value).value.name == name
  }

  /** A rule found by its tag; `rule` is None if it could not be parsed. */
  datatype FoundRule = FoundRule(family: string, words: Words, pos: nat, rule: Option<Rule>)

  function FoundIn(net: Net, name: string, family: string, rules: seq<Words>, n: nat): seq<FoundRule>
    requires n <= |rules|
  {
    if n == 0 then []
    else
      var before, w := FoundIn(net, name, family, rules, n - 1), rules[n - 1];
      if Tagged(w, name) then before + [FoundRule(family, w, n, ReadRule(net, family, w))] else before
  }

  /** find: the rules tagged with `name` in the first `n` chains. */
  function Found(net: Net, name: string, slots: seq<Slot>, t: Tables, n: nat): seq<FoundRule>
    requires n <= |slots|
  {
    if n == 0 then []
    else
      var k := slots[n - 1];
      var rules := if k in t then t[k] else [];
      Found(net, name, slots, t, n - 1) + FoundIn(net, name, k.family, rules, |rules|)
  }

  /** How many rules of `fs` have this family and these words. */
  function Copies(fs: seq<FoundRule>, f: string, w: Words): nat
  {
    if fs == [] then 0
    else
      var last := fs[|fs| - 1];
      Copies(fs[..|fs| - 1], f, w) + (if last.family == f && last.words == w then 1 else 0)
  }

  function Have(t: Tables, f: string, w: Words): nat
  {
    if 2 <= |w| && Slot(f, w[1]) in t then multiset(t[Slot(f, w[1])])[w] else 0
  }

  lemma {:induction false} CopiesAppend(a: seq<FoundRule>, b: seq<FoundRule>, f: string, w: Words)
    ensures Copies(a + b, f, w) == Copies(a, f, w) + Copies(b, f, w)
    decreases |b|
  {
    if b == [] {
      assert a + b == a;
    } else {
      assert (a + b)[..|a + b| - 1] == a + b[..|b| - 1];
      CopiesAppend(a, b[..|b| - 1], f, w);
    }
  }

  lemma {:induction false} CopiesIn(fs: seq<FoundRule>, f: string, w: Words)
    ensures 0 < Copies(fs, f, w) <==> exists i :: 0 <= i < |fs| && fs[i].family == f && fs[i].words == w
  {
    if fs != [] {
      var init := fs[..|fs| - 1];
      CopiesIn(init, f, w);
      if i :| 0 <= i < |fs| && fs[i].family == f && fs[i].words == w && i < |init| {
        assert init[i] == fs[i];
      }
    }
  }

  lemma {:induction false} TwoCopies(fs: seq<FoundRule>, i: nat, j: nat)
    requires i < j < |fs| && fs[i].family == fs[j].family && fs[i].words == fs[j].words
    ensures 2 <= Copies(fs, fs[i].family, fs[i].words)
  {
    var init := fs[..|fs| - 1];
    if j == |fs| - 1 {
      assert init[i] == fs[i];
      CopiesIn(init, fs[i].family, fs[i].words);
    } else {
      TwoCopies(init, i, j);
    }
  }

  lemma {:induction false} FoundInCopies(net: Net, name: string, family: string, rules: seq<Words>, n: nat,
                                         f: string, w: Words)
    requires n <= |rules|
    ensures Copies(FoundIn(net, name, family, rules, n), f, w)
         == if f == family && Tagged(w, name) then multiset(rules[..n])[w] else 0
  {
    hide Tagged, ReadRule, Copies;
    CopiesPush([], FoundRule(family, [], 0, None), f, w);
    if 0 < n {
      FoundInCopies(net, name, family, rules, n - 1, f, w);
      assert rules[..n] == rules[..n - 1] + [rules[n - 1]];
      var before := FoundIn(net, name, family, rules, n - 1);
      CopiesPush(before, FoundRule(family, rules[n - 1], n, ReadRule(net, family, rules[n - 1])), f, w);
    }
  }

  /** The listing of a chain holds words of that chain only. */
  lemma ListedOnlyThere(slots: seq<Slot>, t: Tables, k: Slot, w: Words)
    requires Listing(slots, t) && k in t
    ensures 0 < multiset(t[k])[w] ==> 2 <= |w| && w[1] == k.chain
  {}

  lemma PrefixOfSlots(slots: seq<Slot>, t: Tables, n: nat, k: Slot)
    requires Listing(slots, t) && n < |slots|
    ensures k in slots[..n + 1] <==> k in slots[..n] || k == slots[n]
    ensures slots[n] !in slots[..n]
  {}

  lemma {:induction false} FoundCopiesUpTo(net: Net, name: string, slots: seq<Slot>, t: Tables, n: nat,
                                           f: string, w: Words)
    requires Listing(slots, t) && n <= |slots|
    ensures Copies(Found(net, name, slots, t, n), f, w)
         == if Tagged(w, name) && 2 <= |w| && Slot(f, w[1]) in slots[..n] then Have(t, f, w) else 0
  {
    hide Tagged, FoundIn;
    if 0 < n {
      var k := slots[n - 1];
      FoundCopiesUpTo(net, name, slots, t, n - 1, f, w);
      FoundInCopies(net, name, k.family, t[k], |t[k]|, f, w);
      assert t[k][..|t[k]|] == t[k];
      CopiesAppend(Found(net, name, slots, t, n - 1), FoundIn(net, name, k.family, t[k], |t[k]|), f, w);
      ListedOnlyThere(slots, t, k, w);
      if 2 <= |w| {
        PrefixOfSlots(slots, t, n - 1, Slot(f, w[1]));
      }
      hide Listing;
    }
  }

  /** find finds every tagged rule, each as often as it is there, and nothing else. */
  lemma FoundCopies(net: Net, name: string, slots: seq<Slot>, t: Tables, f: string, w: Words)
    requires Listing(slots, t)
    ensures Copies(Found(net, name, slots, t, |slots|), f, w) == if Tagged(w, name) then Have(t, f, w) else 0
  {
    FoundCopiesUpTo(net, name, slots, t, |slots|, f, w);
    assert slots[..|slots|] == slots;
  }

  lemma {:induction false} FoundInIs(net: Net, name: string, family: string, rules: seq<Words>, n: nat)
    requires n <= |rules|
    ensures forall fr :: fr in FoundIn(net, name, family, rules, n) ==>
      && fr.family == family && fr.rule == ReadRule(net, family, fr.words)
      && 1 <= fr.pos <= n && rules[fr.pos - 1] == fr.words && Tagged(fr.words, name)
  {
    hide Tagged, ReadRule;
    if 0 < n {
      FoundInIs(net, name, family, rules, n - 1);
    }
  }

  /** Every found rule stands where find says, and was parsed for its family. */
  ghost predicate FoundAt(net: Net, name: string, t: Tables, fr: FoundRule)
  {
    && fr.rule == ReadRule(net, fr.family, fr.words) && Tagged(fr.words, name)
    && 2 <= |fr.words| && fr.words[0] == "-A" && Slot(fr.family, fr.words[1]) in t
    && 1 <= fr.pos <= |t[Slot(fr.family, fr.words[1])]|
    && t[Slot(fr.family, fr.words[1])][fr.pos - 1] == fr.words
  }

  lemma {:induction false} FoundIs(net: Net, name: string, slots: seq<Slot>, t: Tables, n: nat)
    requires Listing(slots, t) && n <= |slots|
    ensures forall fr :: fr in Found(net, name, slots, t, n) ==> FoundAt(net, name, t, fr)
  {
    hide Tagged, ReadRule, FoundIn;
    if 0 < n {
      var k := slots[n - 1];
      FoundIs(net, name, slots, t, n - 1);
      FoundInIs(net, name, k.family, t[k], |t[k]|);
      forall fr | fr in FoundIn(net, name, k.family, t[k], |t[k]|) ensures FoundAt(net, name, t, fr) {
        assert ListedIn(k, t[k][fr.pos - 1]);
      }
    }
  }

  /** Two found rules of one chain. */
  predicate SameChain(a: FoundRule, b: FoundRule)
  {
    a.family == b.family && 2 <= |a.words| && 2 <= |b.words| && a.words[1] == b.words[1]
  }

  /** The rules of one chain stand in the list as they stand in the chain. */
  ghost predicate ChainAscending(fs: seq<FoundRule>)
  {
    forall i, j :: 0 <= i < j < |fs| && SameChain(fs[i], fs[j]) ==> fs[i].pos < fs[j].pos
  }

  lemma {:induction false} FoundInAscends(net: Net, name: string, family: string, rules: seq<Words>, n: nat)
    requires n <= |rules|
    ensures forall fr :: fr in FoundIn(net, name, family, rules, n) ==> fr.pos <= n
    ensures ChainAscending(FoundIn(net, name, family, rules, n))
    ensures forall q :: 0 <= q < n && Tagged(rules[q], name) ==>
      FoundRule(family, rules[q], q + 1, ReadRule(net, family, rules[q])) in FoundIn(net, name, family, rules, n)
  {
    hide Tagged, ReadRule, SameChain;
    if 0 < n {
      FoundInAscends(net, name, family, rules, n - 1);
    }
  }

  ghost predicate AmongSlots(fr: FoundRule, slots: seq<Slot>, n: nat)
  {
    2 <= |fr.words| && exists m :: 0 <= m < n && m < |slots| && slots[m] == Slot(fr.family, fr.words[1])
  }

  lemma AppendAscends(a: seq<FoundRule>, b: seq<FoundRule>)
    requires ChainAscending(a) && ChainAscending(b)
    requires forall x, y :: x in a && y in b ==> !SameChain(x, y)
    ensures ChainAscending(a + b)
  {
    hide SameChain;
  }

  lemma {:induction false} FoundAscends(net: Net, name: string, slots: seq<Slot>, t: Tables, n: nat)
    requires Listing(slots, t) && n <= |slots|
    ensures forall fr :: fr in Found(net, name, slots, t, n) ==> AmongSlots(fr, slots, n)
    ensures ChainAscending(Found(net, name, slots, t, n))
    ensures forall m, q :: 0 <= m < n && slots[m] in t && 0 <= q < |t[slots[m]]| && Tagged(t[slots[m]][q], name) ==>
      FoundRule(slots[m].family, t[slots[m]][q], q + 1, ReadRule(net, slots[m].family, t[slots[m]][q]))
      in Found(net, name, slots, t, n)
  {
    hide Tagged, ReadRule, FoundIn, ChainAscending;
    if n == 0 {
      NothingAscends();
    } else {
      var k := slots[n - 1];
      FoundAscends(net, name, slots, t, n - 1);
      FoundInAscends(net, name, k.family, t[k], |t[k]|);
      FoundInIs(net, name, k.family, t[k], |t[k]|);
      var before, more := Found(net, name, slots, t, n - 1), FoundIn(net, name, k.family, t[k], |t[k]|);
      forall fr | fr in more ensures 2 <= |fr.words| && Slot(fr.family, fr.words[1]) == k {
        assert ListedIn(k, t[k][fr.pos - 1]);
      }
      forall x, y | x in before && y in more ensures !SameChain(x, y) {
        assert AmongSlots(x, slots, n - 1);
      }
      AppendAscends(before, more);
    }
  }

  lemma NothingAscends()
    ensures ChainAscending([])
  {}

  // ------------------------------------------------------------------- the sorting out

  /** What apply makes of the found rules: one to keep per family, where to insert a
      replacement, and what to delete. */
  datatype Sifted = Sifted(kept: map<string, FoundRule>, insertAt: map<string, nat>, stale: seq<FoundRule>)

  predicate Wants(want: Rule, f: string) { want.family == INET || want.family == f }

  predicate IsWanted(want: Rule, fr: FoundRule)
  {
    fr.rule.Some? && Equal(fr.rule.value, want.(family := fr.family)) && Wants(want, fr.family)
  }

  predicate Keeps(want: Rule, kept: map<string, FoundRule>, fr: FoundRule)
  {
    fr.family !in kept && IsWanted(want, fr)
  }

  function InsertAt(want: Rule, at: map<string, nat>, fr: FoundRule): map<string, nat>
  {
    if 1 < |fr.words| && fr.words[1] == Upper(want.chain) && fr.family !in at then at[fr.family := fr.pos] else at
  }

  function Sift(want: Rule, found: seq<FoundRule>, n: nat): Sifted
    requires n <= |found|
  {
    if n == 0 then Sifted(map[], map[], [])
    else
      var s, fr := Sift(want, found, n - 1), found[n - 1];
      if Keeps(want, s.kept, fr) then s.(kept := s.kept[fr.family := fr])
      else s.(stale := s.stale + [fr], insertAt := InsertAt(want, s.insertAt, fr))
  }

  function KeptCopies(s: Sifted, f: string, w: Words): nat
  {
    if f in s.kept && s.kept[f].words == w then 1 else 0
  }

  lemma CopiesPush(fs: seq<FoundRule>, fr: FoundRule, f: string, w: Words)
    ensures Copies([], f, w) == 0
    ensures Copies(fs + [fr], f, w) == Copies(fs, f, w) + if fr.family == f && fr.words == w then 1 else 0
  {
    assert (fs + [fr])[..|fs|] == fs;
  }

  lemma {:induction false} SiftCopies(want: Rule, found: seq<FoundRule>, n: nat, f: string, w: Words)
    requires n <= |found|
    ensures var s := Sift(want, found, n);
      Copies(s.stale, f, w) + KeptCopies(s, f, w) == Copies(found[..n], f, w)
  {
    hide IsWanted, InsertAt, Copies;
    if n == 0 {
      assert found[..0] == [];
    } else {
      SiftCopies(want, found, n - 1, f, w);
      var s, fr := Sift(want, found, n - 1), found[n - 1];
      assert found[..n] == found[..n - 1] + [fr];
      CopiesPush(found[..n - 1], fr, f, w);
      CopiesPush(s.stale, fr, f, w);
    }
  }

  /** Sifting keeps, for each family, a rule that is the wanted one. */
  ghost predicate KeptRight(want: Rule, found: seq<FoundRule>, n: nat, s: Sifted)
    requires n <= |found|
  {
    forall f :: f in s.kept ==>
      s.kept[f] in found[..n] && s.kept[f].family == f && IsWanted(want, s.kept[f])
  }

  lemma {:induction false} SiftKeeps(want: Rule, found: seq<FoundRule>, n: nat)
    requires n <= |found|
    ensures KeptRight(want, found, n, Sift(want, found, n))
    ensures forall i :: 0 <= i < n && IsWanted(want, found[i]) ==> found[i].family in Sift(want, found, n).kept
    ensures forall fr :: fr in Sift(want, found, n).stale ==> fr in found[..n]
  {
    hide IsWanted, InsertAt, Sift;
    SiftStep(want, found, n);
    if 0 < n {
      SiftKeeps(want, found, n - 1);
      assert found[..n] == found[..n - 1] + [found[n - 1]];
    }
  }

  lemma PushAscends(stale: seq<FoundRule>, found: seq<FoundRule>, n: nat)
    requires ChainAscending(stale) && ChainAscending(found) && n < |found|
    requires forall fr :: fr in stale ==> fr in found[..n]
    ensures ChainAscending(stale + [found[n]])
  {
    hide SameChain;
    forall i | 0 <= i < |stale| && SameChain(stale[i], found[n]) ensures stale[i].pos < found[n].pos {
      assert stale[i] in found[..n];
      var k :| 0 <= k < n && found[k] == stale[i];
    }
  }

  /** What is not kept is deleted, in the order in which it was found. */
  lemma {:induction false} SiftAscends(want: Rule, found: seq<FoundRule>, n: nat)
    requires n <= |found| && ChainAscending(found)
    ensures var s := Sift(want, found, n);
      && ChainAscending(s.stale)
      && (forall i :: 0 <= i < n ==> found[i] in s.stale || found[i].family in s.kept)
      && (forall fr :: fr in s.stale ==> fr in found[..n])
  {
    hide IsWanted, InsertAt, SameChain, ChainAscending, Sift;
    SiftStep(want, found, n);
    if n == 0 {
      NothingAscends();
    } else {
      SiftAscends(want, found, n - 1);
      PushAscends(Sift(want, found, n - 1).stale, found, n - 1);
      assert found[..n] == found[..n - 1] + [found[n - 1]];
    }
  }

  lemma SiftStep(want: Rule, found: seq<FoundRule>, n: nat)
    requires n <= |found|
    ensures n == 0 ==> Sift(want, found, n).stale == [] && Sift(want, found, n).kept == map[]
    ensures 0 < n ==>
      var s, r, fr := Sift(want, found, n - 1), Sift(want, found, n), found[n - 1];
      && (r.stale == s.stale || r.stale == s.stale + [fr])
      && (fr in r.stale || fr.family in r.kept)
      && s.kept.Keys <= r.kept.Keys
      && (r.kept == s.kept || (r.kept == s.kept[fr.family := fr] && IsWanted(want, fr)))
      && (IsWanted(want, fr) ==> fr.family in r.kept)
  {
    hide IsWanted, InsertAt;
  }

  /** The recorded position is that of the first rule to be deleted from the chain. */
  ghost predicate FirstStale(want: Rule, s: Sifted)
  {
    && (forall f :: f in s.insertAt <==> exists i :: 0 <= i < |s.stale| && InChain(want, f, s.stale[i]))
    && (forall f :: f in s.insertAt ==> exists i :: 0 <= i < |s.stale| && IsFirst(want, s, f, i))
  }

  predicate InChain(want: Rule, f: string, fr: FoundRule)
  {
    fr.family == f && 1 < |fr.words| && fr.words[1] == Upper(want.chain)
  }

  ghost predicate IsFirst(want: Rule, s: Sifted, f: string, i: nat)
  {
    && i < |s.stale| && f in s.insertAt && InChain(want, f, s.stale[i]) && s.insertAt[f] == s.stale[i].pos
    && forall j :: 0 <= j < i ==> !InChain(want, f, s.stale[j])
  }

  lemma NoneIsStale(want: Rule)
    ensures FirstStale(want, Sifted(map[], map[], []))
  {}

  lemma {:induction false} SiftInserts(want: Rule, found: seq<FoundRule>, n: nat)
    requires n <= |found|
    ensures FirstStale(want, Sift(want, found, n))
  {
    hide Keeps, FirstStale, InsertAt;
    if n == 0 {
      NoneIsStale(want);
    } else {
      SiftInserts(want, found, n - 1);
      var s, fr := Sift(want, found, n - 1), found[n - 1];
      if Keeps(want, s.kept, fr) {
        var s' := s.(kept := s.kept[fr.family := fr]);
        KeptKeepsFirst(want, s, s');
      } else {
        PushKeepsFirst(want, s, fr);
      }
    }
  }

  lemma KeptKeepsFirst(want: Rule, s: Sifted, s': Sifted)
    requires FirstStale(want, s) && s'.stale == s.stale && s'.insertAt == s.insertAt
    ensures FirstStale(want, s')
  {
    hide InChain;
    forall f | f in s'.insertAt ensures exists i :: 0 <= i < |s'.stale| && IsFirst(want, s', f, i) {
      var i :| 0 <= i < |s.stale| && IsFirst(want, s, f, i);
      assert IsFirst(want, s', f, i);
    }
  }

  lemma InsertAtIs(want: Rule, at: map<string, nat>, fr: FoundRule)
    ensures forall f :: f in InsertAt(want, at, fr) <==> f in at || InChain(want, f, fr)
    ensures forall f :: f in InsertAt(want, at, fr) ==>
      InsertAt(want, at, fr)[f] == if f in at then at[f] else fr.pos
  {}

  lemma PushKeepsFirst(want: Rule, s: Sifted, fr: FoundRule)
    requires FirstStale(want, s)
    ensures FirstStale(want, s.(stale := s.stale + [fr], insertAt := InsertAt(want, s.insertAt, fr)))
  {
    hide InChain, InsertAt;
    var s' := s.(stale := s.stale + [fr], insertAt := InsertAt(want, s.insertAt, fr));
    var n := |s.stale|;
    InsertAtIs(want, s.insertAt, fr);
    assert forall i :: 0 <= i < n ==> s'.stale[i] == s.stale[i];
    assert s'.stale[n] == fr;
    forall f ensures f in s'.insertAt <==> exists i :: 0 <= i < |s'.stale| && InChain(want, f, s'.stale[i]) {
      if f in s.insertAt {
        var i :| 0 <= i < n && InChain(want, f, s.stale[i]);
        assert InChain(want, f, s'.stale[i]);
      }
    }
    forall f | f in s'.insertAt ensures exists i :: 0 <= i < |s'.stale| && IsFirst(want, s', f, i) {
      if f in s.insertAt {
        var i :| 0 <= i < n && IsFirst(want, s, f, i);
        assert IsFirst(want, s', f, i);
      } else {
        assert IsFirst(want, s', f, n);
      }
    }
  }
}
