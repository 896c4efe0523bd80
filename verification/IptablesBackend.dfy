/** The iptables backend (firewall_backend.go): find, merged, apply and remove, command by
    command, on a host whose commands may fail. */
module IptablesBackend {
  import opened Text
  import opened NetAddress
  import opened FirewallPorts
  import opened FirewallRule
  import opened IptablesPlan
  import opened IptablesRun
  import opened IptablesProofs
  import opened IptablesTheorems

  datatype Answer = Failed | Exists | Missing

  /** A host with iptables, ip6tables or both. */
  class Host {
    var tables: Tables
    /** The families whose command is there, and their chains in the order of a listing. */
    const families: seq<string>
    const slots: seq<Slot>
    /** Which commands fail for reasons outside the model, by the number of the command. */
    const weather: nat -> bool
    var clock: nat

    constructor (tables: Tables, families: seq<string>, slots: seq<Slot>, weather: nat -> bool)
      ensures this.tables == tables && this.families == families && this.slots == slots
      ensures this.weather == weather && clock == 0
    {
      this.tables := tables;
      this.families := families;
      this.slots := slots;
      this.weather := weather;
      clock := 0;
    }

    ghost predicate Faulted(a: nat, b: nat)
    {
      exists i :: a <= i < b && weather(i)
    }

    /** Every family that is there has the built-in chains, and nothing else is listed. */
    ghost predicate Valid()
      reads this
    {
      && Listing(slots, tables)
      && (forall k :: k in slots ==> IsIpFamily(k.family))
      && (forall f, c :: f in families && IsBuiltin(c) ==> Slot(f, c) in tables)
    }

    method Tick() returns (fails: bool)
      modifies this`clock
      ensures clock == old(clock) + 1 && (fails <==> weather(old(clock)))
    {
      fails := weather(clock);
      clock := clock + 1;
    }

    /** -A, -I and -D: one rule in, or one rule out. */
    method Run(c: Cmd) returns (ok: bool)
      modifies this`clock, this`tables
      ensures clock == old(clock) + 1
      ensures ok <==> !weather(old(clock)) && Applicable(old(tables), c)
      ensures tables == if ok then Exec(old(tables), c) else old(tables)
    {
      var fails := Tick();
      ok := !fails && Applicable(tables, c);
      if ok {
        tables := Exec(tables, c);
      }
    }

    /** -C: whether the chain has the rule. */
    method Check(k: Slot, args: Words) returns (a: Answer)
      modifies this`clock
      ensures clock == old(clock) + 1
      ensures a.Failed? <==> weather(old(clock))
      ensures a.Exists? ==> k in tables && Stored(k, args) in tables[k]
      ensures a.Missing? ==> !(k in tables && Stored(k, args) in tables[k])
    {
      var fails := Tick();
      if fails {
        return Failed;
      }
      a := if k in tables && Stored(k, args) in tables[k] then Exists else Missing;
    }

    method FindInChain(net: Net, name: string, k: Slot) returns (found: seq<FoundRule>)
      ensures var rules := if k in tables then tables[k] else [];
        found == FoundIn(net, name, k.family, rules, |rules|)
    {
      hide Tagged;
      var rules := if k in tables then tables[k] else [];
      found := [];
      for i := 0 to |rules|
        invariant found == FoundIn(net, name, k.family, rules, i)
      {
        if Tagged(rules[i], name) {
          var rule := ParseRule(net, k.family, rules[i]);
          found := found + [FoundRule(k.family, rules[i], i + 1, rule)];
        }
      }
    }

    /** Lists every family and picks the rules tagged with the name. */
    method Find(net: Net, name: string) returns (r: Option<seq<FoundRule>>)
      modifies this`clock
      ensures old(clock) <= clock
      ensures r.None? <==> Faulted(old(clock), clock)
      ensures r.Some? ==> r.value == Found(net, name, slots, tables, |slots|)
    {
      for i := 0 to |families|
        invariant clock == old(clock) + i
        invariant !Faulted(old(clock), clock)
      {
        var fails := Tick();
        if fails {
          assert weather(clock - 1);
          return None;
        }
      }
      var found: seq<FoundRule> := [];
      for i := 0 to |slots|
        invariant found == Found(net, name, slots, tables, i)
        invariant clock == old(clock) + |families| && !Faulted(old(clock), clock)
      {
        var more := FindInChain(net, name, slots[i]);
        found := found + more;
      }
      r := Some(found);
    }

    /** delete: by the words iptables printed. */
    method DeleteRule(fr: FoundRule) returns (ok: bool)
      requires Listing(slots, tables)
      modifies this`clock, this`tables
      ensures old(clock) <= clock <= old(clock) + 1
      ensures ok ==> clock == old(clock) + 1
      ensures ok <==> Applicable(old(tables), Delete(fr.family, fr.words)) && !Faulted(old(clock), clock)
      ensures tables == if ok then Exec(old(tables), Delete(fr.family, fr.words)) else old(tables)
    {
      if |fr.words| < 2 || fr.words[0] != "-A" {
        NotListed(slots, tables, fr);
        return false;
      }
      ok := Run(Delete(fr.family, fr.words));
    }

    /** Deletes rules one after the other, up to the first failure. */
    method DeleteRules(found: seq<FoundRule>) returns (ok: bool, done: nat)
      requires Listing(slots, tables)
      modifies this`clock, this`tables
      ensures old(clock) <= clock
      ensures done <= |found| && tables == ExecAll(old(tables), Deletes(found)[..done])
      ensures ok ==> done == |found| && !Faulted(old(clock), clock)
      ensures !ok ==> Faulted(old(clock), clock) || (done < |found| && !Applicable(tables, Deletes(found)[done]))
    {
      hide Exec, Applicable, Listing;
      done := 0;
      NoCommands(tables);
      assert Deletes(found)[..0] == [];
      for i := 0 to |found|
        invariant done == i && old(clock) <= clock && !Faulted(old(clock), clock)
        invariant Listing(slots, tables)
        invariant tables == ExecAll(old(tables), Deletes(found)[..i])
      {
        ghost var before, now := clock, tables;
        ok := DeleteRule(found[i]);
        FaultedLater(old(clock), before, clock);
        if !ok {
          return;
        }
        ExecListing(slots, now, Deletes(found)[i]);
        ExecAllStep(old(tables), Deletes(found), i);
        done := i + 1;
      }
      ok := true;
    }

    lemma FaultedLater(a: nat, b: nat, c: nat)
      requires a <= b <= c
      ensures Faulted(a, c) <==> Faulted(a, b) || Faulted(b, c)
    {}
  }

  lemma AllAreListed(slots: seq<Slot>, t: Tables, k: Slot, w: Words)
    requires Listing(slots, t) && k in t
    ensures w in t[k] ==> ListedIn(k, w)
  {}

  lemma NotListed(slots: seq<Slot>, t: Tables, fr: FoundRule)
    requires Listing(slots, t) && (|fr.words| < 2 || fr.words[0] != "-A")
    ensures !Applicable(t, Delete(fr.family, fr.words))
  {}

  /** merged: the loop over the found rules, and the two cases of one rule. */
  method Merged(found: seq<FoundRule>) returns (r: Option<Rule>)
    ensures r == MergedRule(found)
  {
    hide Valid, Equal;
    for i := 0 to |found|
      invariant forall j :: 0 <= j < i ==> found[j].rule.Some?
    {
      if found[i].rule.None? {
        return None;
      }
    }
    if |found| == 1 {
      return found[0].rule;
    }
    if |found| == 2 {
      var a, b := found[0].rule.value, found[1].rule.value;
      if a.family != b.family && Equal(a.(family := INET), b.(family := INET)) && Valid(a.(family := INET)) {
        return Some(a.(family := INET));
      }
    }
    r := None;
  }

  /** The first loop of apply. */
  method SiftFound(want: Rule, found: seq<FoundRule>) returns (s: Sifted)
    ensures s == Sift(want, found, |found|)
  {
    hide IsWanted;
    var chain := Upper(want.chain);
    s := Sifted(map[], map[], []);
    for i := 0 to |found|
      invariant s == Sift(want, found, i)
    {
      var fr := found[i];
      if fr.family !in s.kept && IsWanted(want, fr) {
        s := s.(kept := s.kept[fr.family := fr]);
      } else {
        var at := s.insertAt;
        if 1 < |fr.words| && fr.words[1] == chain && fr.family !in at {
          at := at[fr.family := fr.pos];
        }
        s := s.(stale := s.stale + [fr], insertAt := at);
      }
    }
  }

  function AddsUpTo(net: Net, t: Tables, want: Rule, s: Sifted, n: nat): seq<Cmd>
    requires n <= |Families(want)|
  {
    if n == 0 then [] else AddsUpTo(net, t, want, s, n - 1) + AddCmd(net, t, want, s, Families(want)[n - 1])
  }

  lemma AddsInAll(net: Net, t: Tables, want: Rule, s: Sifted)
    ensures AddsUpTo(net, t, want, s, |Families(want)|) == Adds(net, t, want, s)
  {
    hide AddCmd;
    var first := AddCmd(net, t, want, s, Families(want)[0]);
    assert AddsUpTo(net, t, want, s, 1) == [] + first == first;
  }

  /** The commands to add a rule for a family depend on that family's chain only. */
  lemma AddCmdOfChain(net: Net, t: Tables, t': Tables, want: Rule, s: Sifted, f: string)
    requires var k := SlotOf(want, f); (k in t <==> k in t') && (k in t ==> t[k] == t'[k])
    ensures AddCmd(net, t, want, s, f) == AddCmd(net, t', want, s, f)
  {}

  ghost predicate SameChain(t: Tables, t': Tables, k: Slot)
  {
    (k in t <==> k in t') && (k in t ==> t[k] == t'[k])
  }

  lemma AddLeavesOthers(t: Tables, c: Cmd, k: Slot)
    requires !c.Delete? && c.slot != k
    ensures SameChain(t, Exec(t, c), k)
  {}

  /** Adding what one family lacks: "-C" and then "-I" or "-A". */
  method AddOne(net: Net, host: Host, want: Rule, s: Sifted, f: string) returns (ok: bool, changed: bool)
    modifies host`clock, host`tables
    ensures old(host.clock) <= host.clock
    ensures var c := AddCmd(net, old(host.tables), want, s, f);
      && |c| <= 1
      && (changed <==> ok && c != [])
      && (c != [] ==> !c[0].Delete? && c[0].slot == SlotOf(want, f))
      && host.tables == (if changed then Exec(old(host.tables), c[0]) else old(host.tables))
      && (!ok ==> host.Faulted(old(host.clock), host.clock) || (c != [] && !Applicable(host.tables, c[0])))
    ensures ok ==> !host.Faulted(old(host.clock), host.clock)
  {
    hide Args, Stored, Applicable, Exec, Upper;
    changed := false;
    if f in s.kept {
      return true, false;
    }
    var k, args := SlotOf(want, f), Args(net, want.(family := f));
    var a := host.Check(k, args);
    ghost var before := host.clock;
    if a.Failed? {
      assert host.weather(before - 1);
      return false, false;
    }
    if a.Exists? {
      return true, false;
    }
    var c := Append(k, args);
    if f in s.insertAt {
      c := Insert(k, s.insertAt[f], args);
    }
    assert [c] == AddCmd(net, host.tables, want, s, f);
    ok := host.Run(c);
    changed := ok;
    assert host.weather(before) ==> host.Faulted(before, host.clock);
  }

  lemma AddsStep(net: Net, t: Tables, want: Rule, s: Sifted, i: nat)
    requires i < |Families(want)|
    ensures AddsUpTo(net, t, want, s, i + 1) == AddsUpTo(net, t, want, s, i) + AddCmd(net, t, want, s, Families(want)[i])
  {}

  lemma {:induction false} AddsUpToIsPrefix(net: Net, t: Tables, want: Rule, s: Sifted, i: nat)
    requires i <= |Families(want)|
    ensures AddsUpTo(net, t, want, s, i) <= Adds(net, t, want, s)
    decreases |Families(want)| - i
  {
    hide AddCmd, Families;
    if i == |Families(want)| {
      AddsInAll(net, t, want, s);
    } else {
      AddsUpToIsPrefix(net, t, want, s, i + 1);
      AddsStep(net, t, want, s, i);
    }
  }

  lemma OtherFamily(want: Rule, i: nat, j: nat)
    requires i < j < |Families(want)|
    ensures SlotOf(want, Families(want)[i]) != SlotOf(want, Families(want)[j])
  {}

  lemma ExecAtMostOne(t: Tables, before: seq<Cmd>, c: seq<Cmd>)
    requires |c| <= 1
    ensures ExecAll(t, before + c) == if c == [] then ExecAll(t, before) else Exec(ExecAll(t, before), c[0])
  {
    if c == [] {
      assert before + c == before;
    } else {
      assert (before + c)[..|before|] == before;
    }
  }

  lemma NextOfPrefix(all: seq<Cmd>, before: seq<Cmd>, c: seq<Cmd>)
    requires before + c <= all
    ensures all[..|before|] == before
    ensures c != [] ==> |before| < |all| && all[|before|] == c[0]
  {}

  /** The second loop of apply: what is missing is added, family by family. */
  method AddMissing(net: Net, host: Host, want: Rule, s: Sifted) returns (ok: bool, changed: bool, ghost done: nat)
    requires Listing(host.slots, host.tables)
    modifies host`clock, host`tables
    ensures old(host.clock) <= host.clock && Listing(host.slots, host.tables)
    ensures var adds := Adds(net, old(host.tables), want, s);
      && done <= |adds| && host.tables == ExecAll(old(host.tables), adds[..done])
      && (changed <==> 0 < done)
      && (ok ==> done == |adds| && !host.Faulted(old(host.clock), host.clock))
      && (!ok ==> host.Faulted(old(host.clock), host.clock) || (done < |adds| && !Applicable(host.tables, adds[done])))
  {
    hide Applicable, Exec, Listing, AddCmd, Stored, Families, ExecAll, Upper;
    ghost var t, c0 := host.tables, host.clock;
    ghost var adds := Adds(net, t, want, s);
    NoCommands(t);
    var families := Families(want);
    changed := false;
    done := 0;
    for i := 0 to |families|
      invariant c0 <= host.clock && !host.Faulted(c0, host.clock)
      invariant done == |AddsUpTo(net, t, want, s, i)| && (changed <==> 0 < done)
      invariant host.tables == ExecAll(t, AddsUpTo(net, t, want, s, i))
      invariant Listing(host.slots, host.tables)
      invariant forall j :: i <= j < |families| ==> SameChain(t, host.tables, SlotOf(want, families[j]))
    {
      ghost var before, now := host.clock, host.tables;
      ghost var c, sofar := AddCmd(net, t, want, s, families[i]), AddsUpTo(net, t, want, s, i);
      AddCmdOfChain(net, t, now, want, s, families[i]);
      AddsUpToIsPrefix(net, t, want, s, i + 1);
      AddsStep(net, t, want, s, i);
      NextOfPrefix(adds, sofar, c);
      var added;
      ok, added := AddOne(net, host, want, s, families[i]);
      host.FaultedLater(c0, before, host.clock);
      if !ok {
        return;
      }
      ExecAtMostOne(t, sofar, c);
      if added {
        changed := true;
        ExecListing(host.slots, now, c[0]);
        forall j | i < j < |families| ensures SameChain(t, host.tables, SlotOf(want, families[j])) {
          OtherFamily(want, i, j);
          AddLeavesOthers(now, c[0], SlotOf(want, families[j]));
        }
      }
      done := done + |c|;
    }
    AddsInAll(net, t, want, s);
    assert adds[..|adds|] == adds;
    ok := true;
  }

  ghost predicate Available(host: Host, want: Rule)
  {
    forall f :: f in Families(want) ==> f in host.families
  }

  lemma PlanIs(net: Net, t: Tables, want: Rule, found: seq<FoundRule>)
    ensures var s := Sift(want, found, |found|);
      Plan(net, t, want, found) == Adds(net, t, want, s) + Deletes(s.stale)
  {
    hide Adds, Deletes, Sift;
  }

  /** After the first commands of a plan, all of them additions. */
  lemma PlanSoFar(t: Tables, plan: seq<Cmd>, adds: seq<Cmd>, deletes: seq<Cmd>, n: nat)
    requires n <= |adds| && plan == adds + deletes
    ensures n <= |plan| && ExecAll(t, adds[..n]) == ExecAll(t, plan[..n])
    ensures n < |adds| ==> n < |plan| && plan[n] == adds[n]
  {
    hide ExecAll;
    PrefixOfPlan(adds, deletes, n);
  }

  /** After all additions and the first deletions. */
  lemma PlanThenDeletes(t: Tables, plan: seq<Cmd>, adds: seq<Cmd>, deletes: seq<Cmd>, n: nat)
    requires n <= |deletes| && plan == adds + deletes
    ensures |plan| == |adds| + |deletes|
    ensures ExecAll(ExecAll(t, adds[..|adds|]), deletes[..n]) == ExecAll(t, plan[..|adds| + n])
    ensures n < |deletes| ==> plan[|adds| + n] == deletes[n]
  {
    hide ExecAll;
    assert adds[..|adds|] == adds;
    PrefixThen(adds, deletes, n);
    ExecAllAppend(t, adds, deletes[..n]);
  }

  lemma PrefixThen(a: seq<Cmd>, b: seq<Cmd>, n: nat)
    requires n <= |b|
    ensures (a + b)[..|a| + n] == a + b[..n]
    ensures n < |b| ==> (a + b)[|a| + n] == b[n]
  {}

  /** apply. `done` counts the commands of the plan that were carried out. */
  method Apply(net: Net, host: Host, want: Rule, found: seq<FoundRule>)
    returns (ok: bool, changed: bool, ghost done: nat)
    requires Listing(host.slots, host.tables)
    modifies host`clock, host`tables
    ensures old(host.clock) <= host.clock
    ensures var plan := Plan(net, old(host.tables), want, found);
      && done <= |plan| && host.tables == ExecAll(old(host.tables), plan[..done])
      && (changed <==> 0 < done)
      && (ok ==> Valid(want) && Available(host, want))
      && (ok ==> done == |plan| && !host.Faulted(old(host.clock), host.clock))
      && (!ok && Valid(want) && Available(host, want) ==>
            host.Faulted(old(host.clock), host.clock) || (done < |plan| && !Applicable(host.tables, plan[done])))
      && (!Valid(want) || !Available(host, want) ==> done == 0)
  {
    hide Valid, Applicable, Exec, Listing, Adds, ExecAll, Deletes, Families, Plan, Host.Faulted;
    ghost var t := host.tables;
    NoCommands(t);
    if !Valid(want) || !(forall f :: f in Families(want) ==> f in host.families) {
      return false, false, 0;
    }
    var s := SiftFound(want, found);
    PlanIs(net, t, want, found);
    ok, changed, done := CarryOut(net, host, want, s, Plan(net, t, want, found));
  }

  /** The commands of the plan, until one fails. */
  method CarryOut(net: Net, host: Host, want: Rule, s: Sifted, ghost plan: seq<Cmd>)
    returns (ok: bool, changed: bool, ghost done: nat)
    requires Listing(host.slots, host.tables)
    requires plan == Adds(net, host.tables, want, s) + Deletes(s.stale)
    modifies host`clock, host`tables
    ensures old(host.clock) <= host.clock
    ensures done <= |plan| && host.tables == ExecAll(old(host.tables), plan[..done])
    ensures changed <==> 0 < done
    ensures ok ==> done == |plan| && !host.Faulted(old(host.clock), host.clock)
    ensures !ok ==> host.Faulted(old(host.clock), host.clock) || (done < |plan| && !Applicable(host.tables, plan[done]))
  {
    hide Applicable, Exec, Listing, Adds, ExecAll, Deletes, Host.Faulted;
    ghost var t, c0 := host.tables, host.clock;
    ghost var adds, deletes := Adds(net, t, want, s), Deletes(s.stale);
    ok, changed, done := AddMissing(net, host, want, s);
    PlanSoFar(t, plan, adds, deletes, done);
    if !ok {
      return;
    }
    ghost var c1 := host.clock;
    var deleted;
    ok, deleted := host.DeleteRules(s.stale);
    host.FaultedLater(c0, c1, host.clock);
    changed := changed || 0 < deleted;
    done := done + deleted;
    PlanThenDeletes(t, plan, adds, deletes, deleted);
  }

  /** remove: nothing found means nothing to do. */
  method Remove(host: Host, found: seq<FoundRule>) returns (ok: bool, ghost done: nat)
    requires Listing(host.slots, host.tables)
    modifies host`clock, host`tables
    ensures done <= |found| && host.tables == ExecAll(old(host.tables), Deletes(found)[..done])
    ensures ok ==> done == |found| && !host.Faulted(old(host.clock), host.clock)
    ensures !ok ==> host.Faulted(old(host.clock), host.clock)
                    || (done < |found| && !Applicable(host.tables, Deletes(found)[done]))
  {
    hide Deletes, ExecAll, Applicable, Listing;
    if found == [] {
      NoCommands(host.tables);
      return true, 0;
    }
    ok, done := host.DeleteRules(found);
  }

  /** The update of a rule: what is found is brought to what is wanted. Whether or not it
      runs to its end, other rules keep their sequence and a wanted family that had a rule
      has one; if no command fails, exactly the wanted rule is found afterwards. */
  method Reconcile(net: Net, host: Host, want: Rule) returns (ok: bool)
    requires host.Valid() && Lawful(net) && NoMapped(want)
    modifies host`clock, host`tables
    ensures ok <==> Valid(want) && Available(host, want) && !host.Faulted(old(host.clock), host.clock)
    ensures !Valid(want) || !Available(host, want) ==> host.tables == old(host.tables)
    ensures ok ==> var r := MergedRule(FoundAll(net, host.slots, host.tables, want));
      r.Some? && Equal(r.value, want)
    ensures forall k :: k in old(host.tables) ==>
      k in host.tables && Foreign(host.tables[k], want.name) == Foreign(old(host.tables)[k], want.name)
    ensures Valid(want) && Available(host, want) ==> forall f :: f in Families(want) ==>
      (HasRule(net, host.slots, old(host.tables), want, f) ==> HasRule(net, host.slots, host.tables, want, f))
  {
    ghost var t, c0 := host.tables, host.clock;
    AvailableIsReady(net, host, want);
    hide Valid, Applicable, Exec, Listing, Plan, Found, ExecAll, Foreign, Ready, Equal, NoMapped, Lawful, MergedRule;
    hide Families, HasRule, Available;
    NoCommands(t);
    var found := host.Find(net, want.name);
    if found.None? {
      return false;
    }
    ghost var c1 := host.clock;
    var changed;
    ghost var done;
    ok, changed, done := Apply(net, host, want, found.value);
    host.FaultedLater(c0, c1, host.clock);
    RunGuarantees(net, host.slots, t, want, done, host.tables);
    assert done == 0 ==> PlanAll(net, host.slots, t, want)[..0] == [];
  }

  lemma RunGuarantees(net: Net, slots: seq<Slot>, t: Tables, want: Rule, done: nat, t': Tables)
    requires done <= |PlanAll(net, slots, t, want)| && t' == ExecAll(t, PlanAll(net, slots, t, want)[..done])
    ensures Ready(net, slots, t, want) ==>
      && (forall k :: k in t ==> k in t' && Foreign(t'[k], want.name) == Foreign(t[k], want.name))
      && (forall f :: f in Families(want) ==> (HasRule(net, slots, t, want, f) ==> HasRule(net, slots, t', want, f)))
      && (done == |PlanAll(net, slots, t, want)| ==>
            var r := MergedRule(FoundAll(net, slots, t', want)); r.Some? && Equal(r.value, want))
      && (done < |PlanAll(net, slots, t, want)| ==> Applicable(t', PlanAll(net, slots, t, want)[done]))
  {
    hide Applicable, Exec, Plan, Found, ExecAll, Foreign, Ready, Equal, MergedRule, Families, HasRule;
    if Ready(net, slots, t, want) {
      forall k | k in t ensures k in t' && Foreign(t'[k], want.name) == Foreign(t[k], want.name) {
        ForeignRulesStay(net, slots, t, want, done, k);
      }
      forall f | f in Families(want) && HasRule(net, slots, t, want, f) ensures HasRule(net, slots, t', want, f) {
        NeverWithout(net, slots, t, want, done, f);
      }
      ApplyConverges(net, slots, t, want);
      if done < |PlanAll(net, slots, t, want)| {
        PlanApplies(net, slots, t, want, done);
      }
    }
  }

  lemma AvailableIsReady(net: Net, host: Host, want: Rule)
    requires host.Valid() && Lawful(net) && NoMapped(want)
    ensures Valid(want) && Available(host, want) ==> Ready(net, host.slots, host.tables, want)
  {
    if Valid(want) && Available(host, want) {
      UpperChains();
      assert IsChain(want.chain);
      hide Valid, Lawful, NoMapped, Upper;
      assert IsBuiltin(Upper(want.chain));
    }
  }

  lemma UpperChains()
    ensures forall c :: IsChain(c) ==> IsBuiltin(Upper(c))
  {}
}
