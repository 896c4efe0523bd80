/** The commands apply and remove issue (firewall_backend.go), and what they do to the
    chains, for every prefix of the run. */
module IptablesRun {
  import opened Text
  import opened NetAddress
  import opened FirewallPorts
  import opened FirewallRule
  import opened IptablesPlan

  // ---------------------------------------------------------------------- commands

  datatype Cmd =
    | Append(slot: Slot, args: Words)
    | Insert(slot: Slot, pos: nat, args: Words)
    | Delete(family: string, words: Words)

  /** iptables lists a REJECT target with the reason it chose. */
  function Canon(family: string, args: Words): Words
  {
    if 2 <= |args| && args[|args| - 2] == "-j" && args[|args| - 1] == "REJECT"
    then args + RejectSuffix(family, "reject") else args
  }

  function Stored(k: Slot, args: Words): Words { ["-A", k.chain] + Canon(k.family, args) }

  function RemoveFirst(rules: seq<Words>, w: Words): seq<Words>
  {
    if rules == [] then []
    else if rules[0] == w then rules[1..]
    else [rules[0]] + RemoveFirst(rules[1..], w)
  }

  predicate Applicable(t: Tables, c: Cmd)
  {
    match c
    case Append(k, _) => k in t
    case Insert(k, pos, _) => k in t && 1 <= pos <= |t[k]| + 1
    case Delete(f, w) => 2 <= |w| && Slot(f, w[1]) in t && w in t[Slot(f, w[1])]
  }

  function Exec(t: Tables, c: Cmd): Tables
  {
    if !Applicable(t, c) then t
    else
      match c
      case Append(k, args) => t[k := t[k] + [Stored(k, args)]]
      case Insert(k, pos, args) => t[k := t[k][..pos - 1] + [Stored(k, args)] + t[k][pos - 1..]]
      case Delete(f, w) => t[Slot(f, w[1]) := RemoveFirst(t[Slot(f, w[1])], w)]
  }

  function ExecAll(t: Tables, cmds: seq<Cmd>): Tables
  {
    if cmds == [] then t else Exec(ExecAll(t, cmds[..|cmds| - 1]), cmds[|cmds| - 1])
  }

  function Foreign(rules: seq<Words>, name: string): seq<Words>
  {
    if rules == [] then []
    else (if Tagged(rules[0], name) then [] else [rules[0]]) + Foreign(rules[1..], name)
  }

  // -------------------------------------------------------------- one command's effect

  lemma {:induction false} RemoveFirstCount(rules: seq<Words>, w: Words)
    ensures w in rules ==> multiset(RemoveFirst(rules, w)) == multiset(rules) - multiset{w}
    ensures w !in rules ==> RemoveFirst(rules, w) == rules
  {
    if rules != [] {
      assert rules == [rules[0]] + rules[1..];
      if rules[0] != w {
        RemoveFirstCount(rules[1..], w);
      }
    }
  }

  lemma ForeignStep(rules: seq<Words>, name: string)
    ensures Foreign(rules, name)
         == if rules == [] then []
            else (if Tagged(rules[0], name) then [] else [rules[0]]) + Foreign(rules[1..], name)
  {}

  lemma {:induction false} ForeignAppend(a: seq<Words>, b: seq<Words>, name: string)
    ensures Foreign(a + b, name) == Foreign(a, name) + Foreign(b, name)
  {
    hide Tagged, Foreign;
    ForeignStep(a, name);
    if a == [] {
      assert a + b == b;
    } else {
      var head: seq<Words> := if Tagged(a[0], name) then [] else [a[0]];
      ForeignStep(a + b, name);
      ForeignAppend(a[1..], b, name);
      assert (a + b)[1..] == a[1..] + b;
      assert head + (Foreign(a[1..], name) + Foreign(b, name)) == head + Foreign(a[1..], name) + Foreign(b, name);
    }
  }

  lemma ForeignOfTagged(w: Words, name: string)
    requires Tagged(w, name)
    ensures Foreign([w], name) == []
  {}

  lemma ForeignInsert(rules: seq<Words>, i: nat, w: Words, name: string)
    requires i <= |rules| && Tagged(w, name)
    ensures Foreign(rules[..i] + [w] + rules[i..], name) == Foreign(rules, name)
  {
    hide Tagged, Foreign;
    ForeignOfTagged(w, name);
    ForeignAppend(rules[..i] + [w], rules[i..], name);
    ForeignAppend(rules[..i], [w], name);
    ForeignAppend(rules[..i], rules[i..], name);
    assert rules[..i] + rules[i..] == rules;
  }

  lemma {:induction false} ForeignRemove(rules: seq<Words>, w: Words, name: string)
    requires Tagged(w, name)
    ensures Foreign(RemoveFirst(rules, w), name) == Foreign(rules, name)
  {
    hide Tagged;
    if rules != [] && rules[0] != w {
      ForeignRemove(rules[1..], w, name);
      assert ([rules[0]] + RemoveFirst(rules[1..], w))[1..] == RemoveFirst(rules[1..], w);
    }
  }

  function Plus(c: Cmd, f: string, w: Words): nat
  {
    if !c.Delete? && c.slot.family == f && Stored(c.slot, c.args) == w then 1 else 0
  }

  function Minus(c: Cmd, f: string, w: Words): nat
  {
    if c.Delete? && c.family == f && c.words == w then 1 else 0
  }

  lemma AddedHave(t: Tables, k: Slot, i: nat, x: Words, f: string, w: Words)
    requires k in t && i <= |t[k]| && ListedIn(k, x)
    ensures Have(t[k := t[k][..i] + [x] + t[k][i..]], f, w) == Have(t, f, w) + if k.family == f && x == w then 1 else 0
  {
    assert t[k] == t[k][..i] + t[k][i..];
    ChangedHave(t, k, t[k][..i] + [x] + t[k][i..], f, w);
  }

  lemma RemovedHave(t: Tables, k: Slot, x: Words, f: string, w: Words)
    requires k in t && x in t[k] && 2 <= |x| && k.chain == x[1]
    ensures Have(t[k := RemoveFirst(t[k], x)], f, w) == Have(t, f, w) - if k.family == f && x == w then 1 else 0
    ensures k.family == f && x == w ==> 0 < Have(t, f, w)
  {
    hide RemoveFirst;
    RemoveFirstCount(t[k], x);
    ChangedHave(t, k, RemoveFirst(t[k], x), f, w);
  }

  /** A command adds or takes away one copy of one rule. */
  lemma ExecHave(t: Tables, c: Cmd, f: string, w: Words)
    requires Applicable(t, c)
    ensures Have(Exec(t, c), f, w) == Have(t, f, w) + Plus(c, f, w) - Minus(c, f, w)
    ensures Minus(c, f, w) == 1 ==> 0 < Have(t, f, w)
  {
    hide Have, Stored, RemoveFirst, ListedIn;
    match c
    case Append(k, args) =>
      StoredIsListed(k, args);
      AddedHave(t, k, |t[k]|, Stored(k, args), f, w);
      assert t[k][..|t[k]|] + [Stored(k, args)] + t[k][|t[k]|..] == t[k] + [Stored(k, args)];
    case Insert(k, pos, args) =>
      StoredIsListed(k, args);
      AddedHave(t, k, pos - 1, Stored(k, args), f, w);
    case Delete(g, x) =>
      RemovedHave(t, Slot(g, x[1]), x, f, w);
  }

  lemma StoredIsListed(k: Slot, args: Words)
    ensures ListedIn(k, Stored(k, args))
  {}

  lemma ChangedHave(t: Tables, k: Slot, rules: seq<Words>, f: string, w: Words)
    requires k in t
    ensures Have(t[k := rules], f, w)
         == if 2 <= |w| && Slot(f, w[1]) == k then multiset(rules)[w] else Have(t, f, w)
  {}

  lemma {:induction false} RemoveFirstSubset(rules: seq<Words>, w: Words)
    ensures forall x :: x in RemoveFirst(rules, w) ==> x in rules
  {
    if rules != [] && rules[0] != w {
      RemoveFirstSubset(rules[1..], w);
    }
  }

  ghost predicate AllListed(k: Slot, rules: seq<Words>)
  {
    forall x :: x in rules ==> ListedIn(k, x)
  }

  lemma ExecListing(slots: seq<Slot>, t: Tables, c: Cmd)
    requires Listing(slots, t)
    ensures Listing(slots, Exec(t, c))
  {
    var t' := Exec(t, c);
    assert t'.Keys == t.Keys;
    forall k | k in t' ensures AllListed(k, t'[k]) {
      assert AllListed(k, t[k]);
      if Applicable(t, c) {
        match c
        case Append(_, args) =>
          hide Canon;
        case Insert(_, _, args) =>
          hide Canon;
        case Delete(f, w) =>
          RemoveFirstSubset(t[Slot(f, w[1])], w);
      }
    }
    forall k, i | k in t' && 0 <= i < |t'[k]| ensures ListedIn(k, t'[k][i]) {
      assert AllListed(k, t'[k]) && t'[k][i] in t'[k];
    }
  }

  predicate TaggedCmd(c: Cmd, name: string)
  {
    Tagged(if c.Delete? then c.words else Stored(c.slot, c.args), name)
  }

  /** Commands on rules of one name leave every other rule where it was. */
  lemma ExecForeign(t: Tables, c: Cmd, name: string, k: Slot)
    requires TaggedCmd(c, name) && k in t
    ensures k in Exec(t, c) && Foreign(Exec(t, c)[k], name) == Foreign(t[k], name)
  {
    hide Tagged, Stored, Foreign, RemoveFirst;
    if Applicable(t, c) {
      match c
      case Append(j, args) =>
        ForeignInsert(t[j], |t[j]|, Stored(j, args), name);
        assert t[j][..|t[j]|] + [Stored(j, args)] + t[j][|t[j]|..] == t[j] + [Stored(j, args)];
      case Insert(j, pos, args) =>
        ForeignInsert(t[j], pos - 1, Stored(j, args), name);
      case Delete(f, w) =>
        ForeignRemove(t[Slot(f, w[1])], w, name);
    }
  }

  // ------------------------------------------------------------------ runs of commands

  lemma {:induction false} ExecAllAppend(t: Tables, a: seq<Cmd>, b: seq<Cmd>)
    ensures ExecAll(t, a + b) == ExecAll(ExecAll(t, a), b)
    decreases |b|
  {
    hide Exec;
    if b == [] {
      assert a + b == a;
    } else {
      ExecAllAppend(t, a, b[..|b| - 1]);
      assert (a + b)[..|a + b| - 1] == a + b[..|b| - 1];
    }
  }

  lemma ExecAllStep(t: Tables, cmds: seq<Cmd>, n: nat)
    requires n < |cmds|
    ensures ExecAll(t, cmds[..n + 1]) == Exec(ExecAll(t, cmds[..n]), cmds[n])
  {
    assert cmds[..n + 1][..n] == cmds[..n];
  }

  lemma {:induction false} ExecAllListing(slots: seq<Slot>, t: Tables, cmds: seq<Cmd>, n: nat)
    requires Listing(slots, t) && n <= |cmds|
    ensures Listing(slots, ExecAll(t, cmds[..n])) && ExecAll(t, cmds[..n]).Keys == t.Keys
  {
    hide Exec, Listing;
    if 0 < n {
      ExecAllListing(slots, t, cmds, n - 1);
      ExecAllStep(t, cmds, n - 1);
      ExecListing(slots, ExecAll(t, cmds[..n - 1]), cmds[n - 1]);
      ExecKeys(ExecAll(t, cmds[..n - 1]), cmds[n - 1]);
    }
  }

  lemma ExecKeys(t: Tables, c: Cmd)
    ensures Exec(t, c).Keys == t.Keys
  {}

  /** Rules that do not carry the name keep their sequence through any run. */
  lemma {:induction false} ExecAllForeign(t: Tables, cmds: seq<Cmd>, n: nat, name: string, k: Slot)
    requires n <= |cmds| && k in t
    requires forall i :: 0 <= i < n ==> TaggedCmd(cmds[i], name)
    ensures k in ExecAll(t, cmds[..n]) && Foreign(ExecAll(t, cmds[..n])[k], name) == Foreign(t[k], name)
  {
    hide Exec, Foreign, TaggedCmd;
    if 0 < n {
      ExecAllForeign(t, cmds, n - 1, name, k);
      ExecAllStep(t, cmds, n - 1);
      ExecForeign(ExecAll(t, cmds[..n - 1]), cmds[n - 1], name, k);
    }
  }

  function PlusAll(cmds: seq<Cmd>, f: string, w: Words): nat
  {
    if cmds == [] then 0 else PlusAll(cmds[..|cmds| - 1], f, w) + Plus(cmds[|cmds| - 1], f, w)
  }

  /** Every command adds a rule to a chain that is there, at a position that is there. */
  ghost predicate Additions(t: Tables, cmds: seq<Cmd>)
  {
    forall i :: 0 <= i < |cmds| ==> !cmds[i].Delete? && Applicable(t, cmds[i])
  }

  ghost predicate Grown(t: Tables, t': Tables)
  {
    forall k :: k in t ==> k in t' && |t[k]| <= |t'[k]|
  }

  lemma ExecGrows(t0: Tables, t: Tables, c: Cmd)
    requires Grown(t0, t) && !c.Delete? && Applicable(t0, c)
    ensures Applicable(t, c) && Grown(t0, Exec(t, c))
  {}

  lemma {:induction false} AdditionsHave(t: Tables, cmds: seq<Cmd>, n: nat, f: string, w: Words)
    requires n <= |cmds| && Additions(t, cmds)
    ensures Grown(t, ExecAll(t, cmds[..n]))
    ensures n < |cmds| ==> Applicable(ExecAll(t, cmds[..n]), cmds[n])
    ensures Have(ExecAll(t, cmds[..n]), f, w) == Have(t, f, w) + PlusAll(cmds[..n], f, w)
  {
    hide Exec, Have, Plus, Applicable;
    if 0 < n {
      AdditionsHave(t, cmds, n - 1, f, w);
      ExecAllStep(t, cmds, n - 1);
      assert cmds[..n][..n - 1] == cmds[..n - 1];
      ExecGrows(t, ExecAll(t, cmds[..n - 1]), cmds[n - 1]);
      ExecHave(ExecAll(t, cmds[..n - 1]), cmds[n - 1], f, w);
      assert Minus(cmds[n - 1], f, w) == 0;
    }
    if n < |cmds| {
      hide Grown;
      assert Applicable(t, cmds[n]);
      ExecGrows(t, ExecAll(t, cmds[..n]), cmds[n]);
    }
  }

  function Deletes(stale: seq<FoundRule>): (r: seq<Cmd>)
    ensures |r| == |stale|
    ensures forall i :: 0 <= i < |r| ==> r[i] == Delete(stale[i].family, stale[i].words)
  {
    if stale == [] then []
    else Deletes(stale[..|stale| - 1]) + [Delete(stale[|stale| - 1].family, stale[|stale| - 1].words)]
  }

  lemma {:induction false} CopiesOfPrefix(fs: seq<FoundRule>, n: nat, f: string, w: Words)
    requires n <= |fs|
    ensures Copies(fs[..n], f, w) <= Copies(fs, f, w)
    ensures n < |fs| ==>
      Copies(fs[..n + 1], f, w) == Copies(fs[..n], f, w) + (if fs[n].family == f && fs[n].words == w then 1 else 0)
  {
    assert fs == fs[..n] + fs[n..];
    CopiesAppend(fs[..n], fs[n..], f, w);
    if n < |fs| {
      assert fs[..n + 1][..n] == fs[..n];
    }
  }

  /** There are enough rules for every deletion. */
  ghost predicate Enough(t: Tables, stale: seq<FoundRule>)
  {
    forall i :: 0 <= i < |stale| ==>
      Copies(stale, stale[i].family, stale[i].words) <= Have(t, stale[i].family, stale[i].words)
  }

  lemma HaveIsApplicable(t: Tables, f: string, w: Words)
    requires 0 < Have(t, f, w)
    ensures Applicable(t, Delete(f, w))
  {}

  lemma {:induction false} DeletesHave(t: Tables, stale: seq<FoundRule>, n: nat, f: string, w: Words)
    requires n <= |stale| && Enough(t, stale)
    ensures n < |stale| ==> Applicable(ExecAll(t, Deletes(stale)[..n]), Deletes(stale)[n])
    ensures Have(ExecAll(t, Deletes(stale)[..n]), f, w) == Have(t, f, w) - Copies(stale[..n], f, w)
    decreases n, 1
  {
    hide Exec, Have, Copies, Applicable;
    var cmds := Deletes(stale);
    if 0 < n {
      DeletesHave(t, stale, n - 1, f, w);
      ExecAllStep(t, cmds, n - 1);
      ExecHave(ExecAll(t, cmds[..n - 1]), cmds[n - 1], f, w);
      CopiesOfPrefix(stale, n - 1, f, w);
    } else {
      NoCopies(f, w);
    }
    if n < |stale| {
      DeleteApplies(t, stale, n);
    }
  }

  lemma NoCopies(f: string, w: Words)
    ensures Copies([], f, w) == 0
  {}

  lemma {:induction false} DeleteApplies(t: Tables, stale: seq<FoundRule>, n: nat)
    requires n < |stale| && Enough(t, stale)
    ensures Applicable(ExecAll(t, Deletes(stale)[..n]), Deletes(stale)[n])
    decreases n, 0
  {
    hide Exec, Have, Copies, Applicable;
    var g, x := stale[n].family, stale[n].words;
    CopiesOfPrefix(stale, n, g, x);
    CopiesOfPrefix(stale, n + 1, g, x);
    if n == 0 {
      NoCopies(g, x);
    } else {
      DeletesHave(t, stale, n - 1, g, x);
      var cmds := Deletes(stale);
      ExecAllStep(t, cmds, n - 1);
      ExecHave(ExecAll(t, cmds[..n - 1]), cmds[n - 1], g, x);
      CopiesOfPrefix(stale, n - 1, g, x);
    }
    HaveIsApplicable(ExecAll(t, Deletes(stale)[..n]), g, x);
  }

  // --------------------------------------------------------------------------- the plan

  function Families(want: Rule): seq<string>
  {
    if want.family == INET then [IPV4, IPV6] else [want.family]
  }

  function SlotOf(want: Rule, f: string): Slot { Slot(f, Upper(want.chain)) }

  /** The wanted rule of one family as its chain will list it. */
  function Target(net: Net, want: Rule, f: string): Words
  {
    RuleWords(net, want.(family := f)) + RejectSuffix(f, want.action)
  }

  function AddCmd(net: Net, t: Tables, want: Rule, s: Sifted, f: string): seq<Cmd>
  {
    var k, args := SlotOf(want, f), Args(net, want.(family := f));
    if f in s.kept || (k in t && Stored(k, args) in t[k]) then []
    else if f in s.insertAt then [Insert(k, s.insertAt[f], args)]
    else [Append(k, args)]
  }

  function Adds(net: Net, t: Tables, want: Rule, s: Sifted): seq<Cmd>
  {
    if want.family == INET then AddCmd(net, t, want, s, IPV4) + AddCmd(net, t, want, s, IPV6)
    else AddCmd(net, t, want, s, want.family)
  }

  /** The commands apply runs for what it found: first what is missing is added, then
      what differs is deleted. */
  function Plan(net: Net, t: Tables, want: Rule, found: seq<FoundRule>): seq<Cmd>
  {
    var s := Sift(want, found, |found|);
    Adds(net, t, want, s) + Deletes(s.stale)
  }
}
