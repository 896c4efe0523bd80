/** A firewall rule, its iptables arguments and the way back (firewall.go). */
module FirewallRule {
  import opened Text
  import opened Decimal
  import opened NetAddress
  import opened FirewallPorts

  // --------------------------------------------------------------------- addresses

  datatype RawPrefix = Prefix(addr: Addr, bits: nat)

  type Prefix = p: RawPrefix | p.bits <= BitLen(p.addr) witness Prefix(Addr(false, 0), 32)

  function Pow2(n: nat): (r: nat)
    ensures 0 < r
  {
    if n == 0 then 1 else 2 * Pow2(n - 1)
  }

  predicate Masked(p: Prefix) { p.addr.value % Pow2(BitLen(p.addr) - p.bits) == 0 }

  /** An IPv4 address written as an IPv6 one, such as ::ffff:192.0.2.1. */
  predicate Mapped(p: Prefix) { p.addr.v6 && p.addr.value / TWO_TO_32 == 0xffff }

  function ShowPrefix(net: Net, p: Prefix): string { net.show(p.addr) + "/" + Dec(p.bits) }

  /** netip.ParsePrefix. */
  function ReadPrefix(net: Net, s: string): Option<Prefix>
  {
    var i := Find(s, '/');
    if i == |s| then None
    else
      var a, bits := net.read(s[..i]), s[i + 1..];
      if a.None? || !IsPlainNumber(bits) || BitLen(a.value) < ReadDigits(bits) then None
      else Some(Prefix(a.value, ReadDigits(bits)))
  }

  function FormatAddress(net: Net, p: Prefix): string
  {
    if p.bits == BitLen(p.addr) then net.show(p.addr) else ShowPrefix(net, p)
  }

  function ParseAddress(net: Net, s: string): Option<Prefix>
  {
    var p :=
      if '/' in s then ReadPrefix(net, s)
      else if net.read(s).None? then None
      else Some(Prefix(net.read(s).value, BitLen(net.read(s).value)));
    if p.None? || Mapped(p.value) || !Masked(p.value) then None else p
  }

  lemma PrefixReads(net: Net, p: Prefix)
    requires Lawful(net)
    ensures ReadPrefix(net, ShowPrefix(net, p)) == Some(p)
  {
    var s, a := ShowPrefix(net, p), net.show(p.addr);
    FindAfter(a, '/', Dec(p.bits));
    assert s[..|a|] == a;
    assert s[|a| + 1..] == Dec(p.bits);
    DecReads(p.bits);
  }

  /** Writing an address and reading it back gives the address, unless it has host
      bits or is an IPv4 address in disguise. */
  lemma AddressReads(net: Net, p: Prefix)
    requires Lawful(net)
    ensures ParseAddress(net, FormatAddress(net, p)) == if Masked(p) && !Mapped(p) then Some(p) else None
  {
    PrefixReads(net, p);
    if p.bits != BitLen(p.addr) {
      assert ShowPrefix(net, p)[|net.show(p.addr)|] == '/';
    }
  }

  /** What is configured stays as it is written: an address without a prefix length, and one
      with the length of a network. */
  lemma SpellingIsKept(net: Net, a: Addr, bits: nat)
    requires Lawful(net) && bits < BitLen(a)
    ensures ParseAddress(net, net.show(a)).Some? ==>
      FormatAddress(net, ParseAddress(net, net.show(a)).value) == net.show(a)
    ensures var s := net.show(a) + "/" + Dec(bits);
      ParseAddress(net, s).Some? ==> FormatAddress(net, ParseAddress(net, s).value) == s
  {
    hide Masked, Mapped;
    PrefixReads(net, Prefix(a, bits));
    assert ShowPrefix(net, Prefix(a, bits))[|net.show(a)|] == '/';
  }

  // --------------------------------------------------------------------- the rule

  datatype Rule = Rule(
    name: string, family: string, chain: string, protocol: string,
    source: Option<Prefix>, destination: Option<Prefix>,
    sourcePorts: seq<PortRange>, destPorts: seq<PortRange>,
    inIface: string, outIface: string, action: string, comment: string)

  const IPV4 := "ipv4"
  const IPV6 := "ipv6"
  const INET := "inet"
  const TAG_PREFIX := "tf-sysutils:"
  const MAX_NAME_LEN := 48
  const MAX_COMMENT_LEN := 64

  predicate IsFamily(s: string) { s == IPV4 || s == IPV6 || s == INET }

  predicate IsChain(s: string) { s == "input" || s == "output" || s == "forward" }

  predicate HasPorts(s: string) { s == "tcp" || s == "udp" || s == "sctp" }

  predicate IsProtocol(s: string) { s == "all" || HasPorts(s) || s == "icmp" || s == "icmpv6" }

  predicate IsAction(s: string) { s == "accept" || s == "drop" || s == "reject" }

  predicate IsAlnum(c: char) { IsDigit(c) || 'a' <= c <= 'z' || 'A' <= c <= 'Z' }

  predicate NameChar(c: char) { IsAlnum(c) || c == '_' || c == '.' || c == '-' }

  predicate ValidName(s: string)
  {
    && 0 < |s| <= MAX_NAME_LEN && IsAlnum(s[0])
    && forall i :: 1 <= i < |s| ==> NameChar(s[i])
  }

  predicate CommentChar(c: char) { IsAlnum(c) || c in "_.,:/@+=()-" }

  /** Words of allowed characters with single spaces between them. */
  predicate ValidComment(s: string)
  {
    && 0 < |s| <= MAX_COMMENT_LEN
    && (forall i :: 0 <= i < |s| ==> CommentChar(s[i]) || s[i] == ' ')
    && s[0] != ' ' && s[|s| - 1] != ' '
    && (forall i :: 1 <= i < |s| && s[i] == ' ' ==> s[i - 1] != ' ')
  }

  predicate InterfaceChar(c: char) { IsAlnum(c) || c in "_.:@-" }

  predicate ValidInterface(s: string)
  {
    && 0 < |s| <= 15 && (IsAlnum(s[0]) || s[0] == '_')
    && forall i :: 1 <= i < |s| ==> InterfaceChar(s[i])
  }

  predicate ValidEnd(family: string, p: Option<Prefix>)
  {
    p.Some? ==> family != INET && (!p.value.addr.v6 <==> family == IPV4) && Masked(p.value)
  }

  /** firewallRule.validate. */
  predicate Valid(r: Rule)
  {
    && ValidName(r.name) && IsFamily(r.family) && IsChain(r.chain)
    && IsProtocol(r.protocol) && IsAction(r.action)
    && ValidEnd(r.family, r.source) && ValidEnd(r.family, r.destination)
    && (r.protocol == "icmp" ==> r.family == IPV4)
    && (r.protocol == "icmpv6" ==> r.family == IPV6)
    && (0 < |r.sourcePorts| + |r.destPorts| ==> HasPorts(r.protocol))
    && PortsOk(r.sourcePorts) && PortsOk(r.destPorts)
    && (r.inIface != "" ==> ValidInterface(r.inIface) && r.chain != "output")
    && (r.outIface != "" ==> ValidInterface(r.outIface) && r.chain != "input")
    && (r.comment != "" ==> ValidComment(r.comment))
  }

  function SortedRule(r: Rule): Rule
  {
    r.(sourcePorts := SortPorts(r.sourcePorts), destPorts := SortPorts(r.destPorts))
  }

  /** firewallRule.equal: the same rule up to the order of ports. */
  predicate Equal(r: Rule, o: Rule) { SortedRule(r) == SortedRule(o) }

  lemma SortedRuleIsEqual(r: Rule)
    ensures Equal(SortedRule(r), r)
    ensures Valid(r) ==> Valid(SortedRule(r))
  {
    SortPortsTwice(r.sourcePorts);
    SortPortsTwice(r.destPorts);
    if Valid(r) {
      SortedPortsOk(r.sourcePorts);
      SortedPortsOk(r.destPorts);
    }
  }

  // ------------------------------------------------------------------------ the tag

  function Tag(r: Rule): string { TagWith(TAG_PREFIX, r.name, r.comment) }

  function TagWith(prefix: string, name: string, comment: string): string
  {
    if comment == "" then prefix + name else prefix + name + " " + comment
  }

  datatype TagParts = TagParts(name: string, comment: string)

  /** parseFirewallTag. */
  function ReadTag(s: string): Option<TagParts> { CutTag(TAG_PREFIX, s) }

  function CutTag(prefix: string, s: string): Option<TagParts>
  {
    if prefix <= s then CutSpace(s[|prefix|..]) else None
  }

  lemma NameHasNoSpace(s: string)
    requires ValidName(s)
    ensures ' ' !in s && s != ""
  {}

  /** Cutting at the first space. */
  function CutSpace(rest: string): Option<TagParts>
  {
    var i := Find(rest, ' ');
    if i == 0 then None
    else if i == |rest| then Some(TagParts(rest, ""))
    else Some(TagParts(rest[..i], rest[i + 1..]))
  }

  lemma CutSpaceAfter(name: string, comment: string)
    requires name != "" && ' ' !in name
    ensures CutSpace(name) == Some(TagParts(name, ""))
    ensures CutSpace(name + [' '] + comment) == Some(TagParts(name, comment))
  {
    var rest := name + [' '] + comment;
    FindAfter(name, ' ', comment);
    assert rest[..|name|] == name && rest[|name| + 1..] == comment;
    assert name[..|name|] == name;
    FindIs(name, ' ', |name|);
  }

  lemma CutOfTag(prefix: string, name: string, comment: string)
    requires name != "" && ' ' !in name
    ensures CutTag(prefix, TagWith(prefix, name, comment)) == Some(TagParts(name, comment))
  {
    hide CutSpace;
    var s := TagWith(prefix, name, comment);
    var rest := if comment == "" then name else name + [' '] + comment;
    assert s == prefix + rest;
    assert s[|prefix|..] == rest;
    CutSpaceAfter(name, comment);
  }

  /** The name and the comment are found again in the tag. */
  lemma TagReads(r: Rule)
    requires ValidName(r.name)
    ensures ReadTag(Tag(r)) == Some(TagParts(r.name, r.comment))
  {
    NameHasNoSpace(r.name);
    CutOfTag(TAG_PREFIX, r.name, r.comment);
  }

  lemma CutSpaceIs(rest: string)
    requires CutSpace(rest).Some?
    ensures var t := CutSpace(rest).value;
      t.name != "" && ' ' !in t.name && (rest == t.name || rest == t.name + " " + t.comment)
  {}

  /** Only the prefix followed by a name, and then a space if anything, is read as a tag. */
  lemma ReadTagIs(s: string, t: TagParts)
    requires ReadTag(s) == Some(t)
    ensures TAG_PREFIX <= s && t.name != "" && ' ' !in t.name
    ensures var rest := s[|TAG_PREFIX|..]; rest == t.name || rest == t.name + " " + t.comment
  {}

  // ----------------------------------------------------------- iptables' arguments

  function UpperChar(c: char): char
  {
    if 'a' <= c <= 'z' then (c as int - 32) as char else c
  }

  function LowerChar(c: char): char
  {
    if 'A' <= c <= 'Z' then (c as int + 32) as char else c
  }

  function Upper(s: string): (r: string)
    ensures |r| == |s| && forall i :: 0 <= i < |s| ==> r[i] == UpperChar(s[i])
  {
    if s == "" then "" else Upper(s[..|s| - 1]) + [UpperChar(s[|s| - 1])]
  }

  function Lower(s: string): (r: string)
    ensures |r| == |s| && forall i :: 0 <= i < |s| ==> r[i] == LowerChar(s[i])
  {
    if s == "" then "" else Lower(s[..|s| - 1]) + [LowerChar(s[|s| - 1])]
  }

  lemma LowerOfUpperChar(c: char)
    requires !('A' <= c <= 'Z')
    ensures LowerChar(UpperChar(c)) == c
  {}

  lemma LowerOfUpper(s: string)
    requires forall i :: 0 <= i < |s| ==> !('A' <= s[i] <= 'Z')
    ensures Lower(Upper(s)) == s
  {
    hide LowerChar, UpperChar;
    forall i | 0 <= i < |s| ensures Lower(Upper(s))[i] == s[i] { LowerOfUpperChar(s[i]); }
  }

  function PrefixArgs(net: Net, flag: string, p: Option<Prefix>): seq<string>
  {
    if p.None? then [] else [flag, ShowPrefix(net, p.value)]
  }

  function InterfaceArgs(flag: string, s: string): seq<string> { if s == "" then [] else [flag, s] }

  function ProtocolArgs(s: string): seq<string>
  {
    if s == "all" then [] else if s == "icmpv6" then ["-p", "ipv6-icmp"] else ["-p", s]
  }

  function PortArgs(flag: string, ports: seq<PortRange>): seq<string>
  {
    if ports == [] then [] else ["-m", "multiport", flag, IptablesPorts(ports)]
  }

  function TargetArgs(r: Rule): seq<string>
  {
    ["-m", "comment", "--comment", Tag(r), "-j", Upper(r.action)]
  }

  /** firewallRule.iptablesArgs. */
  function Args(net: Net, r: Rule): seq<string>
  {
    PrefixArgs(net, "-s", r.source)
    + (PrefixArgs(net, "-d", r.destination)
    + (InterfaceArgs("-i", r.inIface)
    + (InterfaceArgs("-o", r.outIface)
    + (ProtocolArgs(r.protocol)
    + (PortArgs("--sports", r.sourcePorts)
    + (PortArgs("--dports", r.destPorts)
    + TargetArgs(r)))))))
  }

  // ----------------------------------------------------------------------- parsing

  datatype Opt =
    | Source | Destination | In | Out | Protocol | Match
    | SPorts | DPorts | Comment | Jump | RejectWith | Unknown(word: string)

  /** The option a word stands for, with the spellings of one option taken together. */
  function OptOf(word: string): Opt
  {
    if word == "-s" then Source
    else if word == "-d" then Destination
    else if word == "-i" then In
    else if word == "-o" then Out
    else if word == "-p" then Protocol
    else if word == "-m" then Match
    else if word == "--sports" || word == "--sport" || word == "--source-ports" then SPorts
    else if word == "--dports" || word == "--dport" || word == "--destination-ports" then DPorts
    else if word == "--comment" then Comment
    else if word == "-j" then Jump
    else if word == "--reject-with" then RejectWith
    else Unknown(word)
  }

  function ReadProtocol(v: string): Option<string>
  {
    if v == "tcp" || v == "6" then Some("tcp")
    else if v == "udp" || v == "17" then Some("udp")
    else if v == "sctp" || v == "132" then Some("sctp")
    else if v == "icmp" || v == "1" then Some("icmp")
    else if v == "ipv6-icmp" || v == "icmpv6" || v == "58" then Some("icmpv6")
    else None
  }

  predicate KnownMatch(v: string) { v == "multiport" || v == "comment" || HasPorts(v) }

  predicate KnownTarget(v: string) { v == "ACCEPT" || v == "DROP" || v == "REJECT" }

  predicate KnownReject(v: string) { v == "icmp-port-unreachable" || v == "icmp6-port-unreachable" }

  function ReadSpecPrefix(net: Net, v: string): Option<Prefix>
  {
    var p := ReadPrefix(net, v);
    if p.None? then None else ParseAddress(net, FormatAddress(net, p.value))
  }

  function ReadSpecPorts(v: string): Option<seq<PortRange>>
  {
    var ports := ReadAll(Dashed(Split(v, ',')));
    if ports.None? then None else Some(SortPorts(ports.value))
  }

  datatype Parsed = Parsed(rule: Rule, seen: set<Opt>, tagged: bool)

  function Fill<T>(v: Option<T>, put: T -> Parsed): Option<Parsed>
  {
    if v.None? then None else Some(put(v.value))
  }

  /** One option with its value. */
  function Step(net: Net, st: Parsed, word: string, v: string): Option<Parsed>
  {
    var opt := OptOf(word);
    if opt != Match && opt in st.seen then None
    else
      var r := st.rule;
      var next := st.(seen := st.seen + {opt});
      match opt
      case Source =>
        var p := ReadSpecPrefix(net, v);
        if p.None? then None else Some(next.(rule := r.(source := p)))
      case Destination =>
        var p := ReadSpecPrefix(net, v);
        if p.None? then None else Some(next.(rule := r.(destination := p)))
      case In => Some(next.(rule := r.(inIface := v)))
      case Out => Some(next.(rule := r.(outIface := v)))
      case Protocol =>
        var p := ReadProtocol(v);
        if p.None? then None else Some(next.(rule := r.(protocol := p.value)))
      case Match => if KnownMatch(v) then Some(next) else None
      case SPorts =>
        var ports := ReadSpecPorts(v);
        if ports.None? then None else Some(next.(rule := r.(sourcePorts := ports.value)))
      case DPorts =>
        var ports := ReadSpecPorts(v);
        if ports.None? then None else Some(next.(rule := r.(destPorts := ports.value)))
      case Comment =>
        var tag := ReadTag(v);
        if tag.None? then None
        else Some(next.(rule := r.(name := tag.value.name, comment := tag.value.comment), tagged := true))
      case Jump => if KnownTarget(v) then Some(next.(rule := r.(action := Lower(v)))) else None
      case RejectWith => if KnownReject(v) then Some(next) else None
      case Unknown(_) => None
  }

  function Steps(net: Net, st: Parsed, words: seq<string>): Option<Parsed>
    decreases |words|
  {
    if words == [] then Some(st)
    else if |words| == 1 then None
    else
      var next := Step(net, st, words[0], words[1]);
      if next.None? then None else Steps(net, next.value, words[2..])
  }

  function Start(family: string, chain: string): Parsed
  {
    Parsed(Rule("", family, chain, "all", None, None, [], [], "", "", "", ""), {}, false)
  }

  function Finish(st: Parsed): Option<Rule>
  {
    if st.tagged && st.rule.action != "" && Valid(st.rule) then Some(st.rule) else None
  }

  /** parseIptablesRule as a function of the words of a listed rule. */
  function ReadRule(net: Net, family: string, words: seq<string>): Option<Rule>
  {
    if |words| < 2 || words[0] != "-A" || !IsChain(Lower(words[1])) then None
    else
      var st := Steps(net, Start(family, Lower(words[1])), words[2..]);
      if st.None? then None else Finish(st.value)
  }

  method ParseSpecPorts(v: string) returns (r: Option<seq<PortRange>>)
    ensures r == ReadSpecPorts(v)
  {
    hide ReadPort, SortPorts, Split;
    var items := Split(v, ',');
    var list := Dashed(items);
    var ports: seq<PortRange> := [];
    for i := 0 to |items|
      invariant ReadAll(list[..i]) == Some(ports)
    {
      ReadAllPush(list, i);
      var p := ReadPort(ReplaceFirst(items[i], ':', '-'));
      if p.None? {
        return None;
      }
      ports := ports + [p.value];
    }
    assert list[..|list|] == list;
    r := Some(SortPorts(ports));
  }

  /** The loop of parseIptablesRule. */
  method ParseRule(net: Net, family: string, words: seq<string>) returns (r: Option<Rule>)
    ensures r == ReadRule(net, family, words)
  {
    hide Step, Valid, Lower;
    if |words| < 2 || words[0] != "-A" {
      return None;
    }
    var chain := Lower(words[1]);
    if !IsChain(chain) {
      return None;
    }
    var st := Start(family, chain);
    var i := 2;
    while i < |words|
      invariant 2 <= i
      invariant i <= |words|
      invariant Steps(net, st, words[i..]) == Steps(net, Start(family, chain), words[2..])
    {
      var rest := words[i..];
      if i + 1 >= |words| {
        assert |rest| == 1;
        return None;
      }
      assert rest[0] == words[i] && rest[1] == words[i + 1] && rest[2..] == words[i + 2..];
      var next := ParseStep(net, st, words[i], words[i + 1]);
      if next.None? {
        return None;
      }
      st := next.value;
      i := i + 2;
    }
    if !st.tagged || st.rule.action == "" || !Valid(st.rule) {
      return None;
    }
    r := Some(st.rule);
  }

  /** The body of the loop: the duplicate check and the switch over options. */
  method ParseStep(net: Net, st: Parsed, word: string, v: string) returns (r: Option<Parsed>)
    ensures r == Step(net, st, word, v)
  {
    hide ReadPrefix, ParseAddress, FormatAddress, ReadProtocol, ReadTag, Lower;
    var opt := OptOf(word);
    if opt != Match && opt in st.seen {
      return None;
    }
    var rule, tagged := st.rule, st.tagged;
    match opt {
      case Source | Destination =>
        var p := ReadPrefix(net, v);
        if p.None? {
          return None;
        }
        var q := ParseAddress(net, FormatAddress(net, p.value));
        if q.None? {
          return None;
        }
        rule := if opt == Source then rule.(source := q) else rule.(destination := q);
      case In =>
        rule := rule.(inIface := v);
      case Out =>
        rule := rule.(outIface := v);
      case Protocol =>
        var p := ReadProtocol(v);
        if p.None? {
          return None;
        }
        rule := rule.(protocol := p.value);
      case Match =>
        if !KnownMatch(v) {
          return None;
        }
      case SPorts | DPorts =>
        var ports := ParseSpecPorts(v);
        if ports.None? {
          return None;
        }
        var list := ports.value;
        rule := if opt == SPorts then rule.(sourcePorts := list) else rule.(destPorts := list);
      case Comment =>
        var tag := ReadTag(v);
        if tag.None? {
          return None;
        }
        rule, tagged := rule.(name := tag.value.name, comment := tag.value.comment), true;
      case Jump =>
        if !KnownTarget(v) {
          return None;
        }
        rule := rule.(action := Lower(v));
      case RejectWith =>
        if !KnownReject(v) {
          return None;
        }
      case Unknown(_) =>
        return None;
    }
    r := Some(Parsed(rule, st.seen + {opt}, tagged));
  }

  /** `a` with the field of the option `opt` as it is in `from`, and the option noted. */
  function Take(opt: Opt, a: Parsed, from: Parsed): Parsed
  {
    var r, n := a.rule, from.rule;
    var rule :=
      match opt
      case Source => r.(source := n.source)
      case Destination => r.(destination := n.destination)
      case In => r.(inIface := n.inIface)
      case Out => r.(outIface := n.outIface)
      case Protocol => r.(protocol := n.protocol)
      case SPorts => r.(sourcePorts := n.sourcePorts)
      case DPorts => r.(destPorts := n.destPorts)
      case Comment => r.(name := n.name, comment := n.comment)
      case Jump => r.(action := n.action)
      case _ => r;
    Parsed(rule, a.seen + {opt}, a.tagged || opt == Comment)
  }

  /** What an option with a value is read as does not depend on what was read before: it is
      refused wherever it stands, or changes its own field, to the same value wherever it
      stands, and nothing else; unless an option of its kind has been read. */
  lemma StepIsLocal(net: Net, a: Parsed, b: Parsed, word: string, v: string)
    requires OptOf(word) == Match || (OptOf(word) !in a.seen && OptOf(word) !in b.seen)
    ensures Step(net, a, word, v).Some? <==> Step(net, b, word, v).Some?
    ensures Step(net, a, word, v).Some? ==>
      Step(net, a, word, v).value == Take(OptOf(word), a, Step(net, b, word, v).value)
  {
    hide ReadSpecPrefix, ReadSpecPorts, ReadProtocol, ReadTag, Lower;
  }

  lemma TakesCommute(p: Opt, q: Opt, st: Parsed, x: Parsed, y: Parsed)
    requires p != q
    ensures Take(p, Take(q, st, y), x) == Take(q, Take(p, st, x), y)
  {
    assert st.seen + {p} + {q} == st.seen + {q} + {p};
  }

  function Then(net: Net, st: Option<Parsed>, word: string, v: string): Option<Parsed>
  {
    if st.None? then None else Step(net, st.value, word, v)
  }

  lemma RepeatIsRefused(net: Net, st: Parsed, word: string, v: string)
    requires OptOf(word) != Match && OptOf(word) in st.seen
    ensures Step(net, st, word, v) == None
  {}

  /** Of two options of different kinds, what the second is read as after the first. */
  lemma StepAfter(net: Net, st: Parsed, a: string, v: string, b: string, w: string)
    requires OptOf(a) != OptOf(b) && Step(net, st, a, v).Some?
    ensures Step(net, Step(net, st, a, v).value, b, w).Some? <==> Step(net, st, b, w).Some?
  {
    hide Step, OptOf, Take;
    var x := Step(net, st, a, v).value;
    SeenIsFresh(net, st, a, v);
    StepIsLocal(net, st, st, a, v);
    TakeSees(OptOf(a), st, x);
    if OptOf(b) != Match && OptOf(b) in st.seen {
      RepeatIsRefused(net, st, b, w);
      RepeatIsRefused(net, x, b, w);
    } else {
      StepIsLocal(net, x, st, b, w);
    }
  }

  lemma BothRead(net: Net, st: Parsed, a: string, v: string, b: string, w: string)
    requires OptOf(a) != OptOf(b) && Step(net, st, a, v).Some? && Step(net, st, b, w).Some?
    ensures Then(net, Step(net, st, a, v), b, w) == Then(net, Step(net, st, b, w), a, v)
  {
    hide Step, OptOf, Take;
    var x, y := Step(net, st, a, v).value, Step(net, st, b, w).value;
    SeenIsFresh(net, st, a, v);
    SeenIsFresh(net, st, b, w);
    StepAfter(net, st, a, v, b, w);
    StepAfter(net, st, b, w, a, v);
    StepIsLocal(net, st, st, a, v);
    StepIsLocal(net, st, st, b, w);
    TakeSees(OptOf(a), st, x);
    TakeSees(OptOf(b), st, y);
    StepIsLocal(net, y, st, a, v);
    StepIsLocal(net, x, st, b, w);
    TakesCommute(OptOf(a), OptOf(b), st, x, y);
  }

  lemma TakeSees(opt: Opt, a: Parsed, from: Parsed)
    ensures Take(opt, a, from).seen == a.seen + {opt}
  {}

  lemma SeenIsFresh(net: Net, st: Parsed, word: string, v: string)
    ensures Step(net, st, word, v).Some? ==> OptOf(word) == Match || OptOf(word) !in st.seen
    ensures Step(net, st, word, v).Some? ==> OptOf(word) in Step(net, st, word, v).value.seen
  {
    hide ReadSpecPrefix, ReadSpecPorts, ReadProtocol, ReadTag, Lower;
  }

  /** Options of different kinds may stand in any order, and no option but "-m" may be
      repeated, in whatever spelling. */
  lemma StepsCommute(net: Net, st: Parsed, a: string, v: string, b: string, w: string)
    ensures OptOf(a) != OptOf(b) ==>
      Then(net, Step(net, st, a, v), b, w) == Then(net, Step(net, st, b, w), a, v)
    ensures OptOf(a) == OptOf(b) && OptOf(a) != Match ==> Then(net, Step(net, st, a, v), b, w) == None
  {
    hide Step, OptOf;
    var x, y := Step(net, st, a, v), Step(net, st, b, w);
    if x.Some? {
      SeenIsFresh(net, st, a, v);
      if OptOf(a) != OptOf(b) {
        StepAfter(net, st, a, v, b, w);
      } else if OptOf(a) != Match {
        RepeatIsRefused(net, x.value, b, w);
      }
    }
    if OptOf(a) != OptOf(b) && y.Some? {
      StepAfter(net, st, b, w, a, v);
      if x.Some? {
        BothRead(net, st, a, v, b, w);
      }
    }
  }

  // ------------------------------------------------------------------- round trip

  lemma {:induction false} StepsAppend(net: Net, st: Parsed, a: seq<string>, b: seq<string>)
    requires |a| % 2 == 0
    ensures Steps(net, st, a + b)
         == if Steps(net, st, a).None? then None else Steps(net, Steps(net, st, a).value, b)
    decreases |a|
  {
    hide Step;
    if a == [] {
      assert a + b == b;
    } else {
      assert (a + b)[2..] == a[2..] + b;
      var next := Step(net, st, a[0], a[1]);
      if next.Some? {
        StepsAppend(net, next.value, a[2..], b);
      }
    }
  }

  lemma OnePair(net: Net, st: Parsed, word: string, v: string)
    ensures Steps(net, st, [word, v]) == Step(net, st, word, v)
  {}

  lemma TwoPairs(net: Net, st: Parsed, a: string, b: string, c: string, d: string)
    ensures Steps(net, st, [a, b, c, d])
         == if Step(net, st, a, b).None? then None else Step(net, Step(net, st, a, b).value, c, d)
  {
    hide Step;
    assert [a, b, c, d] == [a, b] + [c, d];
    StepsAppend(net, st, [a, b], [c, d]);
    OnePair(net, st, a, b);
    if Step(net, st, a, b).Some? {
      OnePair(net, Step(net, st, a, b).value, c, d);
    }
  }

  lemma MatchStep(net: Net, st: Parsed, m: string)
    requires KnownMatch(m)
    ensures Step(net, st, "-m", m) == Some(st.(seen := st.seen + {Match}))
  {}

  lemma MatchThen(net: Net, st: Parsed, m: string, word: string, v: string)
    requires KnownMatch(m)
    ensures Steps(net, st, ["-m", m, word, v]) == Step(net, st.(seen := st.seen + {Match}), word, v)
  {
    MatchStep(net, st, m);
    TwoPairs(net, st, "-m", m, word, v);
  }

  /** Where an option stands in the order in which they are written. */
  function Rank(o: Opt): nat
  {
    match o
    case Source => 0
    case Destination => 1
    case In => 2
    case Out => 3
    case Protocol => 4
    case SPorts => 5
    case DPorts => 6
    case Comment => 7
    case Jump => 8
    case RejectWith => 9
    case Match => 10
    case Unknown(_) => 11
  }

  ghost predicate OnlyBelow(seen: set<Opt>, n: nat)
  {
    forall o :: o in seen ==> o == Match || Rank(o) < n
  }

  /** The state after reading what was written so far: the rule `r`, and only options
      that are written before the n-th. */
  ghost predicate Reached(st: Option<Parsed>, r: Rule, n: nat, tagged: bool)
  {
    st.Some? && st.value.rule == r && OnlyBelow(st.value.seen, n) && st.value.tagged == tagged
  }

  lemma SpecPrefixReads(net: Net, p: Prefix)
    requires Lawful(net) && Masked(p)
    ensures ReadSpecPrefix(net, ShowPrefix(net, p)) == if Mapped(p) then None else Some(p)
  {
    PrefixReads(net, p);
    AddressReads(net, p);
  }

  predicate IsMapped(p: Option<Prefix>) { p.Some? && Mapped(p.value) }

  lemma SourceReads(net: Net, st: Parsed, p: Option<Prefix>)
    requires Lawful(net) && (p.Some? ==> Masked(p.value))
    requires OnlyBelow(st.seen, 0) && st.rule.source == None
    ensures IsMapped(p) ==> Steps(net, st, PrefixArgs(net, "-s", p)) == None
    ensures !IsMapped(p) ==>
      Reached(Steps(net, st, PrefixArgs(net, "-s", p)), st.rule.(source := p), 1, st.tagged)
  {
    hide ReadSpecPrefix, Lawful;
    if p.Some? {
      SpecPrefixReads(net, p.value);
      OnePair(net, st, "-s", ShowPrefix(net, p.value));
    }
  }

  lemma DestinationReads(net: Net, st: Parsed, p: Option<Prefix>)
    requires Lawful(net) && (p.Some? ==> Masked(p.value))
    requires OnlyBelow(st.seen, 1) && st.rule.destination == None
    ensures IsMapped(p) ==> Steps(net, st, PrefixArgs(net, "-d", p)) == None
    ensures !IsMapped(p) ==>
      Reached(Steps(net, st, PrefixArgs(net, "-d", p)), st.rule.(destination := p), 2, st.tagged)
  {
    hide ReadSpecPrefix, Lawful;
    if p.Some? {
      SpecPrefixReads(net, p.value);
      OnePair(net, st, "-d", ShowPrefix(net, p.value));
    }
  }

  lemma InterfacesRead(net: Net, st: Parsed, s: string)
    ensures OnlyBelow(st.seen, 2) && st.rule.inIface == "" ==>
      Reached(Steps(net, st, InterfaceArgs("-i", s)), st.rule.(inIface := s), 3, st.tagged)
    ensures OnlyBelow(st.seen, 3) && st.rule.outIface == "" ==>
      Reached(Steps(net, st, InterfaceArgs("-o", s)), st.rule.(outIface := s), 4, st.tagged)
  {
    if s != "" {
      OnePair(net, st, "-i", s);
      OnePair(net, st, "-o", s);
    }
  }

  lemma ReadProtocolIs(s: string)
    requires IsProtocol(s) && s != "all"
    ensures ReadProtocol(if s == "icmpv6" then "ipv6-icmp" else s) == Some(s)
  {}

  lemma ProtocolReads(net: Net, st: Parsed, s: string)
    requires OnlyBelow(st.seen, 4) && st.rule.protocol == "all" && IsProtocol(s)
    ensures Reached(Steps(net, st, ProtocolArgs(s)), st.rule.(protocol := s), 5, st.tagged)
  {
    hide ReadProtocol, Steps, Step, IsProtocol;
    if s == "all" {
      NoPairs(net, st);
    } else {
      ProtocolStep(net, st, s);
      OnePair(net, st, "-p", if s == "icmpv6" then "ipv6-icmp" else s);
    }
  }

  lemma NoPairs(net: Net, st: Parsed)
    ensures Steps(net, st, []) == Some(st)
  {}

  lemma ProtocolStep(net: Net, st: Parsed, s: string)
    requires OnlyBelow(st.seen, 4) && IsProtocol(s) && s != "all"
    ensures Step(net, st, "-p", if s == "icmpv6" then "ipv6-icmp" else s)
         == Some(st.(seen := st.seen + {Protocol}, rule := st.rule.(protocol := s)))
  {
    hide ReadProtocol;
    ReadProtocolIs(s);
  }

  lemma SpecPortsRead(ports: seq<PortRange>)
    requires ports != [] && PortsOk(ports)
    ensures ReadSpecPorts(IptablesPorts(ports)) == Some(SortPorts(ports))
  {
    IptablesPortsRead(ports);
    PortsOkIs(ports);
    ShownAllRead(ports);
  }

  lemma SourcePortsStep(net: Net, st: Parsed, v: string, ports: seq<PortRange>)
    requires ReadSpecPorts(v) == Some(ports) && OnlyBelow(st.seen, 5)
    ensures Step(net, st, "--sports", v) == Some(st.(seen := st.seen + {SPorts}, rule := st.rule.(sourcePorts := ports)))
  {
    hide ReadSpecPorts;
  }

  lemma SourcePortsRead(net: Net, st: Parsed, ports: seq<PortRange>)
    requires PortsOk(ports) && OnlyBelow(st.seen, 5) && st.rule.sourcePorts == []
    ensures Reached(Steps(net, st, PortArgs("--sports", ports)), st.rule.(sourcePorts := SortPorts(ports)), 6, st.tagged)
  {
    hide ReadSpecPorts, PortsOk, SortPorts, IptablesPorts, Step, Steps;
    if ports == [] {
      NoSteps(net, st);
      SortPortsOfAscending(ports);
    } else {
      var v := IptablesPorts(ports);
      SpecPortsRead(ports);
      SourcePortsStep(net, st.(seen := st.seen + {Match}), v, SortPorts(ports));
      MatchThen(net, st, "multiport", "--sports", v);
    }
  }

  lemma DestPortsStep(net: Net, st: Parsed, v: string, ports: seq<PortRange>)
    requires ReadSpecPorts(v) == Some(ports) && OnlyBelow(st.seen, 6)
    ensures Step(net, st, "--dports", v) == Some(st.(seen := st.seen + {DPorts}, rule := st.rule.(destPorts := ports)))
  {
    hide ReadSpecPorts;
  }

  lemma DestPortsRead(net: Net, st: Parsed, ports: seq<PortRange>)
    requires PortsOk(ports) && OnlyBelow(st.seen, 6) && st.rule.destPorts == []
    ensures Reached(Steps(net, st, PortArgs("--dports", ports)), st.rule.(destPorts := SortPorts(ports)), 7, st.tagged)
  {
    hide ReadSpecPorts, PortsOk, SortPorts, IptablesPorts, Step, Steps;
    if ports == [] {
      NoSteps(net, st);
      SortPortsOfAscending(ports);
    } else {
      var v := IptablesPorts(ports);
      SpecPortsRead(ports);
      DestPortsStep(net, st.(seen := st.seen + {Match}), v, SortPorts(ports));
      MatchThen(net, st, "multiport", "--dports", v);
    }
  }

  lemma UpperActions()
    ensures Upper("accept") == "ACCEPT"
    ensures Upper("drop") == "DROP"
    ensures Upper("reject") == "REJECT"
  {
    assert UpperChar('a') == 'A' && UpperChar('c') == 'C' && UpperChar('e') == 'E' && UpperChar('p') == 'P';
    assert UpperChar('t') == 'T' && UpperChar('d') == 'D' && UpperChar('r') == 'R' && UpperChar('o') == 'O';
    assert UpperChar('j') == 'J';
  }

  lemma ActionReads(s: string)
    requires IsAction(s)
    ensures KnownTarget(Upper(s)) && Lower(Upper(s)) == s
  {
    hide Upper, Lower;
    LowerOfUpper(s);
    UpperActions();
  }

  lemma CommentWord()
    ensures OptOf("--comment") == Comment
  {}

  lemma CommentReads(net: Net, st: Parsed, r: Rule)
    requires ValidName(r.name) && OnlyBelow(st.seen, 7)
    ensures Reached(Steps(net, st, ["-m", "comment", "--comment", Tag(r)]),
                    st.rule.(name := r.name, comment := r.comment), 8, true)
  {
    hide ReadTag, Tag, ValidName;
    TagReads(r);
    CommentWord();
    hide OptOf;
    MatchThen(net, st, "comment", "--comment", Tag(r));
  }

  lemma JumpWord()
    ensures OptOf("-j") == Jump
  {}

  lemma JumpStep(net: Net, st: Parsed, v: string)
    requires KnownTarget(v) && OnlyBelow(st.seen, 8)
    ensures Step(net, st, "-j", v) == Some(st.(seen := st.seen + {Jump}, rule := st.rule.(action := Lower(v))))
  {
    hide KnownTarget, Lower;
    JumpWord();
    hide OptOf;
  }

  lemma JumpReads(net: Net, st: Parsed, action: string)
    requires IsAction(action) && OnlyBelow(st.seen, 8)
    ensures Reached(Steps(net, st, ["-j", Upper(action)]), st.rule.(action := action), 9, st.tagged)
  {
    hide Upper, Lower, KnownTarget, IsAction, Step, Steps;
    ActionReads(action);
    JumpStep(net, st, Upper(action));
    OnePair(net, st, "-j", Upper(action));
  }

  lemma TargetReads(net: Net, st: Parsed, r: Rule)
    requires ValidName(r.name) && IsAction(r.action) && OnlyBelow(st.seen, 7)
    ensures Reached(Steps(net, st, TargetArgs(r)),
                    st.rule.(name := r.name, comment := r.comment, action := r.action), 9, true)
  {
    hide Step, Steps, Tag, Upper, ValidName, IsAction, OnlyBelow;
    var a, b := ["-m", "comment", "--comment", Tag(r)], ["-j", Upper(r.action)];
    assert TargetArgs(r) == a + b;
    StepsAppend(net, st, a, b);
    CommentReads(net, st, r);
    JumpReads(net, Steps(net, st, a).value, r.action);
  }

  function LastArgs(r: Rule): seq<string>
  {
    ProtocolArgs(r.protocol)
    + (PortArgs("--sports", r.sourcePorts) + (PortArgs("--dports", r.destPorts) + TargetArgs(r)))
  }

  lemma EvenArgs(net: Net, r: Rule)
    ensures |PrefixArgs(net, "-s", r.source)| % 2 == 0 && |PrefixArgs(net, "-d", r.destination)| % 2 == 0
    ensures |InterfaceArgs("-i", r.inIface)| % 2 == 0 && |InterfaceArgs("-o", r.outIface)| % 2 == 0
    ensures |ProtocolArgs(r.protocol)| % 2 == 0
    ensures |PortArgs("--sports", r.sourcePorts)| % 2 == 0 && |PortArgs("--dports", r.destPorts)| % 2 == 0
    ensures |TargetArgs(r)| % 2 == 0
  {
    hide ShowPrefix, IptablesPorts, Tag, Upper;
  }

  /** Protocol, ports, tag and target. */
  lemma LastArgsRead(net: Net, st: Parsed, r: Rule)
    requires Valid(r) && OnlyBelow(st.seen, 4) && !st.tagged
    requires st.rule.protocol == "all" && st.rule.sourcePorts == [] && st.rule.destPorts == []
    ensures Reached(Steps(net, st, LastArgs(r)),
                    st.rule.(protocol := r.protocol, sourcePorts := SortPorts(r.sourcePorts),
                             destPorts := SortPorts(r.destPorts), name := r.name, comment := r.comment,
                             action := r.action), 9, true)
  {
    var p, s, d, t := ProtocolArgs(r.protocol), PortArgs("--sports", r.sourcePorts),
      PortArgs("--dports", r.destPorts), TargetArgs(r);
    EvenArgs(net, r);
    assert IsProtocol(r.protocol) && PortsOk(r.sourcePorts) && PortsOk(r.destPorts);
    assert ValidName(r.name) && IsAction(r.action);
    assert LastArgs(r) == p + (s + (d + t));
    hide Steps, Step, SortPorts, TargetArgs, PortArgs, ProtocolArgs, LastArgs, OnlyBelow;
    hide Valid, IsProtocol, PortsOk, ValidName, IsAction;
    StepsAppend(net, st, p, s + (d + t));
    ProtocolReads(net, st, r.protocol);
    var st1 := Steps(net, st, p).value;
    StepsAppend(net, st1, s, d + t);
    SourcePortsRead(net, st1, r.sourcePorts);
    var st2 := Steps(net, st1, s).value;
    StepsAppend(net, st2, d, t);
    DestPortsRead(net, st2, r.destPorts);
    TargetReads(net, Steps(net, st2, d).value, r);
  }

  function AfterAddresses(r: Rule): seq<string>
  {
    InterfaceArgs("-i", r.inIface) + (InterfaceArgs("-o", r.outIface) + LastArgs(r))
  }

  lemma AfterAddressesRead(net: Net, st: Parsed, r: Rule)
    requires Valid(r) && OnlyBelow(st.seen, 2) && !st.tagged
    requires st.rule.inIface == "" && st.rule.outIface == ""
    requires st.rule.protocol == "all" && st.rule.sourcePorts == [] && st.rule.destPorts == []
    ensures Reached(Steps(net, st, AfterAddresses(r)),
                    st.rule.(inIface := r.inIface, outIface := r.outIface,
                             protocol := r.protocol, sourcePorts := SortPorts(r.sourcePorts),
                             destPorts := SortPorts(r.destPorts), name := r.name, comment := r.comment,
                             action := r.action), 9, true)
  {
    EvenArgs(net, r);
    hide Steps, Step, SortPorts, Valid, LastArgs, InterfaceArgs, OnlyBelow;
    var i, o := InterfaceArgs("-i", r.inIface), InterfaceArgs("-o", r.outIface);
    StepsAppend(net, st, i, o + LastArgs(r));
    InterfacesRead(net, st, r.inIface);
    var st1 := Steps(net, st, i).value;
    StepsAppend(net, st1, o, LastArgs(r));
    InterfacesRead(net, st1, r.outIface);
    LastArgsRead(net, Steps(net, st1, o).value, r);
  }

  predicate NoMapped(r: Rule) { !IsMapped(r.source) && !IsMapped(r.destination) }

  /** Reading the written arguments fills in the whole rule, with its ports sorted. */
  lemma ArgsRead(net: Net, r: Rule)
    requires Lawful(net) && Valid(r)
    ensures !NoMapped(r) ==> Steps(net, Start(r.family, r.chain), Args(net, r)) == None
    ensures NoMapped(r) ==>
      Reached(Steps(net, Start(r.family, r.chain), Args(net, r)), SortedRule(r), 9, true)
  {
    var st := Start(r.family, r.chain);
    var s, d, rest := PrefixArgs(net, "-s", r.source), PrefixArgs(net, "-d", r.destination), AfterAddresses(r);
    assert Args(net, r) == s + (d + rest);
    assert ValidEnd(r.family, r.source) && ValidEnd(r.family, r.destination);
    EvenArgs(net, r);
    hide Steps, Step, SortPorts, Valid, AfterAddresses, Args, PrefixArgs, Lawful;
    StepsAppend(net, st, s, d + rest);
    SourceReads(net, st, r.source);
    if !IsMapped(r.source) {
      var st1 := Steps(net, st, s).value;
      StepsAppend(net, st1, d, rest);
      DestinationReads(net, st1, r.destination);
      if !IsMapped(r.destination) {
        AfterAddressesRead(net, Steps(net, st1, d).value, r);
      }
    }
  }

  /** The words of a rule as a chain lists it. */
  function RuleWords(net: Net, r: Rule): seq<string> { ["-A", Upper(r.chain)] + Args(net, r) }

  /** The suffix iptables prints after a REJECT target. */
  function RejectSuffix(family: string, action: string): seq<string>
  {
    if action != "reject" then []
    else ["--reject-with", if family == IPV4 then "icmp-port-unreachable" else "icmp6-port-unreachable"]
  }

  lemma ChainReads(s: string)
    requires IsChain(s)
    ensures Lower(Upper(s)) == s
  {
    LowerOfUpper(s);
  }

  lemma SuffixReads(net: Net, st: Parsed, family: string, action: string)
    requires OnlyBelow(st.seen, 9)
    ensures Reached(Steps(net, st, RejectSuffix(family, action)), st.rule, 10, st.tagged)
  {
    if action == "reject" {
      OnePair(net, st, "--reject-with", RejectSuffix(family, action)[1]);
    }
  }

  lemma ListedWords(net: Net, r: Rule, suffix: seq<string>)
    requires IsChain(r.chain)
    ensures ReadRule(net, r.family, RuleWords(net, r) + suffix)
         == var st := Steps(net, Start(r.family, r.chain), Args(net, r) + suffix);
            if st.None? then None else Finish(st.value)
  {
    hide Steps, Step, Args, Upper, Lower, Finish, Start, Valid;
    ChainReads(r.chain);
    var words := RuleWords(net, r) + suffix;
    assert words[0] == "-A" && words[1] == Upper(r.chain) && words[2..] == Args(net, r) + suffix;
  }

  lemma ListedRuleReads(net: Net, r: Rule, rejects: bool)
    requires Lawful(net) && Valid(r)
    ensures var suffix := if rejects then RejectSuffix(r.family, r.action) else [];
      ReadRule(net, r.family, RuleWords(net, r) + suffix) == if NoMapped(r) then Some(SortedRule(r)) else None
  {
    var suffix := if rejects then RejectSuffix(r.family, r.action) else [];
    var st, args := Start(r.family, r.chain), Args(net, r);
    ListedWords(net, r, suffix);
    SortedRuleIsEqual(r);
    assert r.action != "";
    ArgsRead(net, r);
    ArgsAreEven(net, r);
    StepsAppend(net, st, args, suffix);
    hide Steps, Step, SortPorts, Valid, Args, Lawful, RejectSuffix, OnlyBelow, RuleWords, ReadRule;
    if NoMapped(r) {
      var end := Steps(net, st, args).value;
      NoSteps(net, end);
      SuffixReads(net, end, r.family, r.action);
    }
  }

  lemma NoSteps(net: Net, st: Parsed)
    ensures Steps(net, st, []) == Some(st)
  {}

  lemma ArgsAreEven(net: Net, r: Rule)
    ensures |Args(net, r)| % 2 == 0
  {
    EvenArgs(net, r);
    hide PrefixArgs, InterfaceArgs, ProtocolArgs, PortArgs, TargetArgs;
  }

  /** A rule is read back from its arguments, as written or as listed, up to the order
      of its ports, if and only if no address is an IPv4 address in disguise. */
  lemma RuleReadsBack(net: Net, r: Rule)
    requires Lawful(net) && Valid(r) && r.family != INET
    ensures var expected := if NoMapped(r) then Some(SortedRule(r)) else None;
      && ReadRule(net, r.family, RuleWords(net, r)) == expected
      && ReadRule(net, r.family, RuleWords(net, r) + RejectSuffix(r.family, r.action)) == expected
    ensures Equal(SortedRule(r), r)
  {
    ListedRuleReads(net, r, false);
    ListedRuleReads(net, r, true);
    assert RuleWords(net, r) + [] == RuleWords(net, r);
    SortedRuleIsEqual(r);
  }

  /** Whatever is read is a valid rule of the family it was listed for. */
  lemma StepKeepsFamily(net: Net, st: Parsed, word: string, v: string)
    ensures Step(net, st, word, v).Some? ==>
      && Step(net, st, word, v).value.rule.family == st.rule.family
      && Step(net, st, word, v).value.rule.chain == st.rule.chain
  {}

  lemma {:induction false} StepsKeepFamily(net: Net, st: Parsed, words: seq<string>)
    ensures Steps(net, st, words).Some? ==>
      && Steps(net, st, words).value.rule.family == st.rule.family
      && Steps(net, st, words).value.rule.chain == st.rule.chain
    decreases |words|
  {
    hide Step;
    if 1 < |words| {
      var next := Step(net, st, words[0], words[1]);
      StepKeepsFamily(net, st, words[0], words[1]);
      if next.Some? {
        StepsKeepFamily(net, next.value, words[2..]);
      }
    }
  }

  lemma ReadRuleIsValid(net: Net, family: string, words: seq<string>)
    requires ReadRule(net, family, words).Some?
    ensures var r := ReadRule(net, family, words).value;
      Valid(r) && r.family == family && r.chain == Lower(words[1])
  {
    StepsKeepFamily(net, Start(family, Lower(words[1])), words[2..]);
  }
}
