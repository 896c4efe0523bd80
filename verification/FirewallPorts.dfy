/** Ports and port ranges of firewall rules (firewall.go). */
module FirewallPorts {
  import opened Text
  import opened Decimal

  // ------------------------------------------------------------------------- ports

  /** A 16-bit port number. */
  type Port = n: nat | n < 65536

  datatype PortRange = PortRange(lo: Port, hi: Port)

  predicate IsPortRange(p: PortRange) { 0 < p.lo <= p.hi }

  function ShowPort(p: PortRange): string
  {
    if p.lo == p.hi then Dec(p.lo) else Dec(p.lo) + "-" + Dec(p.hi)
  }

  function ReadNumber(s: string): Option<Port>
  {
    if !IsPlainNumber(s) then None
    else
      var n := ReadDigits(s);
      if 0 < n < 65536 then Some(n) else None
  }

  /** parsePort. */
  function ReadPort(s: string): Option<PortRange>
  {
    var i := Find(s, '-');
    var lo := ReadNumber(s[..i]);
    if lo.None? then None
    else if i == |s| then Some(PortRange(lo.value, lo.value))
    else
      var hi := ReadNumber(s[i + 1..]);
      if hi.None? || hi.value <= lo.value then None else Some(PortRange(lo.value, hi.value))
  }

  lemma NumberReads(n: Port)
    requires 0 < n
    ensures ReadNumber(Dec(n)) == Some(n)
  {
    DecReads(n);
  }

  lemma ReadNumberIs(s: string)
    ensures ReadNumber(s).Some? ==> 0 < ReadNumber(s).value && Dec(ReadNumber(s).value) == s
  {
    if IsPlainNumber(s) {
      ReadsOneSpelling(s);
    }
  }

  lemma DigitsHaveNo(s: string, c: char)
    requires AllDigits(s) && !IsDigit(c)
    ensures c !in s
  {}

  lemma ShownParts(p: PortRange)
    ensures var s, i := ShowPort(p), |Dec(p.lo)|;
      && Find(s, '-') == i && s[..i] == Dec(p.lo)
      && (i == |s| <==> p.lo == p.hi)
      && (i < |s| ==> s[i + 1..] == Dec(p.hi))
  {}

  lemma PortReads(p: PortRange)
    requires IsPortRange(p)
    ensures ReadPort(ShowPort(p)) == Some(p)
  {
    NumberReads(p.lo);
    NumberReads(p.hi);
    ShownParts(p);
  }

  /** A text reads as a port range exactly if it is how that range is written. */
  lemma ReadPortIs(s: string, p: PortRange)
    ensures ReadPort(s) == Some(p) <==> IsPortRange(p) && s == ShowPort(p)
  {
    var i := Find(s, '-');
    if ReadPort(s) == Some(p) {
      ReadNumberIs(s[..i]);
      if i == |s| {
        assert s[..i] == s;
      } else {
        ReadNumberIs(s[i + 1..]);
        assert s == s[..i] + "-" + s[i + 1..];
      }
    }
    if IsPortRange(p) {
      PortReads(p);
    }
  }

  // ------------------------------------------------------------------ lists of ports

  function InsertPort(ports: seq<PortRange>, p: PortRange): (r: seq<PortRange>)
    ensures |r| == |ports| + 1
    ensures multiset(r) == multiset(ports) + multiset{p}
  {
    if ports == [] then [p]
    else
      var last := ports[|ports| - 1];
      assert ports == ports[..|ports| - 1] + [last];
      if p.lo < last.lo then InsertPort(ports[..|ports| - 1], p) + [last] else ports + [p]
  }

  /** sortPorts: by the first port. */
  function SortPorts(ports: seq<PortRange>): (r: seq<PortRange>)
    ensures |r| == |ports|
    ensures multiset(r) == multiset(ports)
  {
    if ports == [] then []
    else
      assert ports == ports[..|ports| - 1] + [ports[|ports| - 1]];
      InsertPort(SortPorts(ports[..|ports| - 1]), ports[|ports| - 1])
  }

  predicate Ascending(ports: seq<PortRange>)
  {
    forall i, j :: 0 <= i < j < |ports| ==> ports[i].lo <= ports[j].lo
  }

  lemma {:induction false} InsertPortAscending(ports: seq<PortRange>, p: PortRange)
    requires Ascending(ports)
    ensures Ascending(InsertPort(ports, p))
  {
    if ports != [] {
      var init, last := ports[..|ports| - 1], ports[|ports| - 1];
      if p.lo < last.lo {
        InsertPortAscending(init, p);
        InsertPortAtMost(init, p, last.lo);
      }
    }
  }

  lemma InsertPortAtMost(ports: seq<PortRange>, p: PortRange, n: nat)
    requires p.lo <= n && forall q :: q in ports ==> q.lo <= n
    ensures forall i :: 0 <= i < |InsertPort(ports, p)| ==> InsertPort(ports, p)[i].lo <= n
  {
    hide InsertPort;
    var r := InsertPort(ports, p);
    forall i | 0 <= i < |r| ensures r[i].lo <= n {
      assert r[i] in multiset(r);
    }
  }

  lemma {:induction false} SortPortsAscending(ports: seq<PortRange>)
    ensures Ascending(SortPorts(ports))
  {
    if ports != [] {
      SortPortsAscending(ports[..|ports| - 1]);
      InsertPortAscending(SortPorts(ports[..|ports| - 1]), ports[|ports| - 1]);
    }
  }

  lemma {:induction false} SortPortsOfAscending(ports: seq<PortRange>)
    requires Ascending(ports)
    ensures SortPorts(ports) == ports
  {
    hide InsertPort;
    if ports != [] {
      var init, last := ports[..|ports| - 1], ports[|ports| - 1];
      SortPortsOfAscending(init);
      InsertLast(init, last);
      assert ports == init + [last];
    }
  }

  lemma InsertLast(ports: seq<PortRange>, p: PortRange)
    requires ports != [] ==> ports[|ports| - 1].lo <= p.lo
    ensures InsertPort(ports, p) == ports + [p]
  {}

  lemma SortPortsTwice(ports: seq<PortRange>)
    ensures SortPorts(SortPorts(ports)) == SortPorts(ports)
  {
    SortPortsAscending(ports);
    SortPortsOfAscending(SortPorts(ports));
  }

  /** A range counts as two entries of the multiport match. */
  function Entries(ports: seq<PortRange>): nat
  {
    if ports == [] then 0
    else Entries(ports[..|ports| - 1]) + (if ports[|ports| - 1].lo != ports[|ports| - 1].hi then 2 else 1)
  }

  lemma {:induction false} InsertPortEntries(ports: seq<PortRange>, p: PortRange)
    ensures Entries(InsertPort(ports, p)) == Entries(ports + [p])
  {
    assert (ports + [p])[..|ports|] == ports;
    if ports != [] {
      var init, last := ports[..|ports| - 1], ports[|ports| - 1];
      if p.lo < last.lo {
        InsertPortEntries(init, p);
        assert (init + [p])[..|init|] == init;
        var r := InsertPort(init, p);
        assert (r + [last])[..|r|] == r;
      }
    } else {
      assert [p][..0] == [];
    }
  }

  lemma {:induction false} SortPortsEntries(ports: seq<PortRange>)
    ensures Entries(SortPorts(ports)) == Entries(ports)
  {
    if ports != [] {
      var init, last := ports[..|ports| - 1], ports[|ports| - 1];
      SortPortsEntries(init);
      InsertPortEntries(SortPorts(init), last);
      assert (SortPorts(init) + [last])[..|init|] == SortPorts(init);
    }
  }

  predicate Apart(ports: seq<PortRange>)
  {
    forall i :: 1 <= i < |ports| ==> ports[i - 1].hi < ports[i].lo
  }

  const MAX_MULTIPORT_ENTRIES := 15

  function ReadAll(list: seq<string>): (r: Option<seq<PortRange>>)
    ensures r.Some? ==> |r.value| == |list|
  {
    if list == [] then Some([])
    else
      var before, last := ReadAll(list[..|list| - 1]), ReadPort(list[|list| - 1]);
      if before.None? || last.None? then None else Some(before.value + [last.value])
  }

  function ShowAll(ports: seq<PortRange>): (r: seq<string>)
    ensures |r| == |ports|
    ensures forall i :: 0 <= i < |r| ==> r[i] == ShowPort(ports[i])
  {
    seq(|ports|, i requires 0 <= i < |ports| => ShowPort(ports[i]))
  }

  function ReadPorts(list: seq<string>): Option<seq<PortRange>>
  {
    var ports := ReadAll(list);
    if ports.None? then None
    else
      var sorted := SortPorts(ports.value);
      if Apart(sorted) && Entries(ports.value) <= MAX_MULTIPORT_ENTRIES then Some(sorted) else None
  }

  lemma EntriesPush(ports: seq<PortRange>, p: PortRange)
    ensures Entries(ports + [p]) == Entries(ports) + if p.lo != p.hi then 2 else 1
  {}

  lemma ReadAllPush(list: seq<string>, i: nat)
    requires i < |list|
    ensures ReadAll(list[..i]).Some? && ReadPort(list[i]).Some? ==>
              ReadAll(list[..i + 1]) == Some(ReadAll(list[..i]).value + [ReadPort(list[i]).value])
    ensures ReadPort(list[i]).None? ==> ReadAll(list).None?
  {
    assert list[..i + 1][..i] == list[..i];
    if ReadPort(list[i]).None? {
      ReadAllFails(list, i + 1);
    }
  }

  method CheckApart(ports: seq<PortRange>) returns (ok: bool)
    ensures ok <==> Apart(ports)
  {
    var i := 1;
    while i < |ports|
      invariant 1 <= i
      invariant forall j :: 1 <= j < i && j < |ports| ==> ports[j - 1].hi < ports[j].lo
    {
      if ports[i].lo <= ports[i - 1].hi {
        return false;
      }
      i := i + 1;
    }
    ok := true;
  }

  /** Strings that overlap, do not read, or are too many are refused; the rest is sorted. */
  method ParsePorts(list: seq<string>) returns (r: Option<seq<PortRange>>)
    ensures r == ReadPorts(list)
  {
    hide ReadPort, SortPorts, Apart;
    var ports: seq<PortRange> := [];
    var entries := 0;
    for i := 0 to |list|
      invariant ReadAll(list[..i]) == Some(ports)
      invariant entries == Entries(ports)
    {
      ReadAllPush(list, i);
      var p := ReadPort(list[i]);
      if p.None? {
        return None;
      }
      EntriesPush(ports, p.value);
      ports := ports + [p.value];
      entries := entries + 1;
      if p.value.lo != p.value.hi {
        entries := entries + 1;
      }
    }
    assert list[..|list|] == list;
    var sorted := SortPorts(ports);
    var apart := CheckApart(sorted);
    r := if apart && entries <= MAX_MULTIPORT_ENTRIES then Some(sorted) else None;
  }

  lemma {:induction false} ReadAllFails(list: seq<string>, n: nat)
    requires n <= |list| && ReadAll(list[..n]).None?
    ensures ReadAll(list).None?
    decreases |list| - n
  {
    if n < |list| {
      assert list[..n + 1][..n] == list[..n];
      ReadAllFails(list, n + 1);
    } else {
      assert list[..n] == list;
    }
  }

  lemma {:induction false} ShownAllRead(ports: seq<PortRange>)
    requires forall i :: 0 <= i < |ports| ==> IsPortRange(ports[i])
    ensures ReadAll(ShowAll(ports)) == Some(ports)
  {
    hide ReadPort, ShowPort, IsPortRange;
    if ports != [] {
      var init := ports[..|ports| - 1];
      ShownAllRead(init);
      PortReads(ports[|ports| - 1]);
      assert ShowAll(ports)[..|ports| - 1] == ShowAll(init);
      assert ports == init + [ports[|ports| - 1]];
    }
  }

  lemma {:induction false} ReadAllValid(ports: seq<PortRange>)
    ensures ReadAll(ShowAll(ports)).Some? ==> forall i :: 0 <= i < |ports| ==> IsPortRange(ports[i])
  {
    hide ReadPort, ShowPort;
    if ports != [] {
      var init, last := ports[..|ports| - 1], ports[|ports| - 1];
      ReadAllValid(init);
      assert ShowAll(ports)[..|ports| - 1] == ShowAll(init);
      ShownReadIs(last);
    }
  }

  /** Only valid ranges are written like valid ranges. */
  lemma SameText(p: PortRange, q: PortRange)
    requires ShowPort(p) == ShowPort(q)
    ensures p == q
  {
    ShownParts(p);
    ShownParts(q);
    DecReads(p.lo);
    DecReads(p.hi);
    DecReads(q.lo);
    DecReads(q.hi);
  }

  lemma ShownReadIs(p: PortRange)
    ensures ReadPort(ShowPort(p)).Some? ==> IsPortRange(p)
  {
    var q := ReadPort(ShowPort(p));
    if q.Some? {
      ReadPortIs(ShowPort(p), q.value);
      SameText(p, q.value);
    }
  }

  /** What validate accepts of a list of ports. */
  predicate PortsOk(ports: seq<PortRange>) { ReadPorts(ShowAll(ports)).Some? }

  lemma PortsOkIs(ports: seq<PortRange>)
    ensures PortsOk(ports) <==>
      && (forall i :: 0 <= i < |ports| ==> IsPortRange(ports[i]))
      && Apart(SortPorts(ports))
      && Entries(ports) <= MAX_MULTIPORT_ENTRIES
  {
    ReadAllValid(ports);
    if forall i :: 0 <= i < |ports| ==> IsPortRange(ports[i]) {
      ShownAllRead(ports);
    }
  }

  /** Sorting a valid list of ports leaves it valid. */
  lemma SortedPortsOk(ports: seq<PortRange>)
    requires PortsOk(ports)
    ensures PortsOk(SortPorts(ports))
  {
    PortsOkIs(ports);
    PortsOkIs(SortPorts(ports));
    SortPortsTwice(ports);
    SortPortsEntries(ports);
    var s := SortPorts(ports);
    forall i | 0 <= i < |s| ensures IsPortRange(s[i]) {
      assert s[i] in multiset(ports);
    }
  }

  // -------------------------------------------------------------- lists without overlap

  /** In how many of the ranges a port number lies. */
  function Cover(ports: seq<PortRange>, n: nat): nat
  {
    if ports == [] then 0
    else Cover(ports[..|ports| - 1], n) + (if ports[|ports| - 1].lo <= n <= ports[|ports| - 1].hi then 1 else 0)
  }

  lemma CoverPush(ports: seq<PortRange>, p: PortRange, n: nat)
    ensures Cover(ports + [p], n) == Cover(ports, n) + if p.lo <= n <= p.hi then 1 else 0
  {}

  lemma {:induction false} InsertPortCovers(ports: seq<PortRange>, p: PortRange, n: nat)
    ensures Cover(InsertPort(ports, p), n) == Cover(ports + [p], n)
  {
    CoverPush(ports, p, n);
    if ports != [] {
      var init, last := ports[..|ports| - 1], ports[|ports| - 1];
      InsertPortCovers(init, p, n);
      CoverPush(init, p, n);
      CoverPush(InsertPort(init, p), last, n);
    }
  }

  lemma {:induction false} SortPortsCover(ports: seq<PortRange>, n: nat)
    ensures Cover(SortPorts(ports), n) == Cover(ports, n)
  {
    if ports != [] {
      var init, last := ports[..|ports| - 1], ports[|ports| - 1];
      SortPortsCover(init, n);
      InsertPortCovers(SortPorts(init), last, n);
      CoverPush(SortPorts(init), last, n);
    }
  }

  lemma {:induction false} CoverNone(ports: seq<PortRange>, n: nat)
    requires forall i :: 0 <= i < |ports| ==> ports[i].hi < n
    ensures Cover(ports, n) == 0
  {
    if ports != [] {
      CoverNone(ports[..|ports| - 1], n);
    }
  }

  lemma {:induction false} CoverTwo(ports: seq<PortRange>, i: nat, n: nat)
    requires 1 <= i < |ports|
    requires ports[i - 1].lo <= n <= ports[i - 1].hi && ports[i].lo <= n <= ports[i].hi
    ensures 2 <= Cover(ports, n)
  {
    if i < |ports| - 1 {
      CoverTwo(ports[..|ports| - 1], i, n);
    }
  }

  lemma {:induction false} ApartBefore(ports: seq<PortRange>, i: nat)
    requires Apart(ports) && (forall k :: 0 <= k < |ports| ==> IsPortRange(ports[k])) && i < |ports|
    ensures forall j :: 0 <= j < i ==> ports[j].hi < ports[i].lo
  {
    if 0 < i {
      ApartBefore(ports, i - 1);
    }
  }

  lemma {:induction false} ApartCovers(ports: seq<PortRange>, n: nat)
    requires Apart(ports) && forall k :: 0 <= k < |ports| ==> IsPortRange(ports[k])
    ensures Cover(ports, n) <= 1
  {
    if ports != [] {
      var init, last := ports[..|ports| - 1], ports[|ports| - 1];
      ApartCovers(init, n);
      if last.lo <= n {
        ApartBefore(ports, |init|);
        CoverNone(init, n);
      }
    }
  }

  /** Sorted ranges are apart if and only if no port number lies in two of the ranges. */
  lemma ApartIs(ports: seq<PortRange>)
    requires forall k :: 0 <= k < |ports| ==> IsPortRange(ports[k])
    ensures Apart(SortPorts(ports)) <==> NoneTwice(ports)
  {
    hide SortPorts, Apart, Cover, IsPortRange;
    var s := SortPorts(ports);
    SortPortsAscending(ports);
    SortedAreRanges(ports);
    if Apart(s) {
      forall n: nat ensures Cover(ports, n) <= 1 {
        SortPortsCover(ports, n);
        ApartCovers(s, n);
      }
    } else {
      var i := Overlap(s);
      CoverTwo(s, i, s[i].lo);
      SortPortsCover(ports, s[i].lo);
    }
  }

  lemma SortedAreRanges(ports: seq<PortRange>)
    requires forall k :: 0 <= k < |ports| ==> IsPortRange(ports[k])
    ensures forall k :: 0 <= k < |SortPorts(ports)| ==> IsPortRange(SortPorts(ports)[k])
  {
    hide SortPorts, IsPortRange;
    var s := SortPorts(ports);
    forall k | 0 <= k < |s| ensures IsPortRange(s[k]) {
      assert s[k] in multiset(ports);
    }
  }

  lemma Overlap(s: seq<PortRange>) returns (i: nat)
    requires !Apart(s) && Ascending(s) && forall k :: 0 <= k < |s| ==> IsPortRange(s[k])
    ensures 1 <= i < |s| && s[i - 1].lo <= s[i].lo <= s[i - 1].hi && s[i].lo <= s[i].hi
  {
    i :| 1 <= i < |s| && !(s[i - 1].hi < s[i].lo);
  }

  /** No port number lies in two of the ranges. */
  ghost predicate NoneTwice(ports: seq<PortRange>) { forall n: nat :: Cover(ports, n) <= 1 }

  /** A list of ports is accepted if and only if every text is how a range is written, no port
      number lies in two of them, and they are not too many; then the ranges are sorted. */
  lemma ReadPortsIs(ports: seq<PortRange>)
    ensures ReadPorts(ShowAll(ports)).Some? <==>
      && (forall i :: 0 <= i < |ports| ==> IsPortRange(ports[i]))
      && NoneTwice(ports)
      && Entries(ports) <= MAX_MULTIPORT_ENTRIES
    ensures ReadPorts(ShowAll(ports)).Some? ==>
      var r := ReadPorts(ShowAll(ports)).value; Ascending(r) && multiset(r) == multiset(ports)
  {
    hide Apart, ReadPort, ShowPort;
    PortsOkIs(ports);
    if forall i :: 0 <= i < |ports| ==> IsPortRange(ports[i]) {
      ApartIs(ports);
      ShownAllRead(ports);
      SortPortsAscending(ports);
    }
  }

  lemma {:induction false} ReadAllIsShown(list: seq<string>)
    ensures ReadAll(list).Some? ==> list == ShowAll(ReadAll(list).value)
  {
    hide ReadPort, ShowPort;
    if list != [] {
      var init, last := list[..|list| - 1], list[|list| - 1];
      ReadAllIsShown(init);
      assert list == init + [last];
      if ReadAll(list).Some? {
        ReadPortIs(last, ReadPort(last).value);
        var ports := ReadAll(list).value;
        assert ports[..|ports| - 1] == ReadAll(init).value;
      }
    }
  }

  /** Nothing but how ranges are written is accepted. */
  lemma OnlyPortsAreRead(list: seq<string>)
    requires ReadPorts(list).Some?
    ensures ReadAll(list).Some? && list == ShowAll(ReadAll(list).value)
  {
    ReadAllIsShown(list);
  }

  // ---------------------------------------------------------- iptables' spelling

  /** strings.Replace(s, from, to, 1). */
  function ReplaceFirst(s: string, from: char, to: char): string
  {
    var i := Find(s, from);
    if i == |s| then s else s[i := to]
  }

  /** iptablesPorts' items: "8000:8100". */
  function Coloned(ports: seq<PortRange>): (r: seq<string>)
    ensures |r| == |ports|
    ensures forall i :: 0 <= i < |r| ==> r[i] == ReplaceFirst(ShowPort(ports[i]), '-', ':')
  {
    seq(|ports|, i requires 0 <= i < |ports| => ReplaceFirst(ShowPort(ports[i]), '-', ':'))
  }

  function IptablesPorts(ports: seq<PortRange>): string { Join(Coloned(ports), ",") }

  function Dashed(list: seq<string>): (r: seq<string>)
    ensures |r| == |list|
    ensures forall i :: 0 <= i < |r| ==> r[i] == ReplaceFirst(list[i], ':', '-')
  {
    seq(|list|, i requires 0 <= i < |list| => ReplaceFirst(list[i], ':', '-'))
  }

  lemma ColonedPort(p: PortRange)
    ensures var s := ReplaceFirst(ShowPort(p), '-', ':');
      ReplaceFirst(s, ':', '-') == ShowPort(p) && ',' !in s
  {
    var s := ShowPort(p);
    var lo, hi := Dec(p.lo), Dec(p.hi);
    DigitsHaveNo(lo, '-');
    DigitsHaveNo(lo, ':');
    DigitsHaveNo(lo, ',');
    DigitsHaveNo(hi, ',');
    if p.lo != p.hi {
      FindAfter(lo, '-', hi);
      assert s == lo + ['-'] + hi;
      FindAfter(lo, ':', hi);
      assert s[|lo| := ':'] == lo + [':'] + hi;
      assert (lo + [':'] + hi)[|lo| := '-'] == s;
    }
  }

  /** Joining with commas and rewriting dashes to colons is undone on reading. */
  lemma IptablesPortsRead(ports: seq<PortRange>)
    requires ports != []
    ensures Dashed(Split(IptablesPorts(ports), ',')) == ShowAll(ports)
  {
    var items := Coloned(ports);
    forall x | x in items ensures ',' !in x {
      var i :| 0 <= i < |items| && items[i] == x;
      ColonedPort(ports[i]);
    }
    SplitJoin(items, ',');
    forall i | 0 <= i < |ports| ensures Dashed(items)[i] == ShowAll(ports)[i] {
      ColonedPort(ports[i]);
    }
  }
}
