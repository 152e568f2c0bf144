/** The terms on which the evaluator and RFC 7208 might agree, and exactly when they do. */
module SpfFragment {
  import opened Wrappers
  import opened Cidr
  import opened NetText
  import opened Spf

  datatype Qualifier = Omitted | Plus | Minus | Tilde | Question

  /**
    Sections 5.1, 5.3, 5.4 and 5.6 of RFC 7208, without prefix lengths on `a` and `mx`, a domain on `mx`, or macros.
    The texts are whatever the record says after the colon.
   */
  datatype RfcMechanism =
    | RfcAll
    | RfcIP4(text: string)
    | RfcIP6(text: string)
    | RfcA
    | RfcADomain(target: string)
    | RfcMX

  predicate InFragment(m: RfcMechanism) {
    m.RfcADomain? ==> '/' !in m.target && '%' !in m.target
  }

  function ShowQualifier(q: Qualifier): string {
    match q
    case Omitted => ""
    case Plus => "+"
    case Minus => "-"
    case Tilde => "~"
    case Question => "?"
  }

  function ShowMechanism(m: RfcMechanism): string {
    match m
    case RfcAll => "all"
    case RfcIP4(text) => "ip4:" + text
    case RfcIP6(text) => "ip6:" + text
    case RfcA => "a"
    case RfcADomain(target) => "a:" + target
    case RfcMX => "mx"
  }

  // ----- What RFC 7208 says -----

  /** Section 4.6.2: the qualifier of a matching mechanism is the result; "+" is the default. */
  function ResultOf(q: Qualifier): Code {
    match q
    case Omitted => Pass
    case Plus => Pass
    case Minus => Fail
    case Tilde => SoftFail
    case Question => Neutral
  }

  /** Section 5.6: ip4-network and, unless it is all 32 bits, ip4-cidr-length. */
  ghost predicate IsIP4(text: string, o: IP, n: nat) {
    && |o| == 4 && n <= 32
    && ((text == ShowQuad(o) && n == 32) || text == ShowQuad(o) + "/" + Decimal(n))
  }

  /** The same with an IPv6 address, which has a colon before any dot, and ip6-cidr-length. */
  ghost predicate IsIP6(w: World, text: string, a: IP, n: nat) {
    exists address :: IsIP6Text(w, text, address, a, n)
  }

  ghost predicate IsIP6Text(w: World, text: string, address: string, a: IP, n: nat) {
    && FirstMark(address) == ':' && '/' !in address && w.ipv6(address) == Some(a) && n <= 128
    && ((text == address && n == 128) || text == address + "/" + Decimal(n))
  }

  predicate IsAlpha(c: char) {
    'a' <= c <= 'z' || 'A' <= c <= 'Z'
  }

  predicate IsAlphanum(c: char) {
    IsAlpha(c) || IsDigit(c)
  }

  /** Section 7.1: letters, digits and inner hyphens, but not digits alone. */
  predicate IsTopLabel(s: string) {
    && s != "" && IsAlphanum(s[0]) && IsAlphanum(s[|s| - 1])
    && (forall c <- s :: IsAlphanum(c) || c == '-')
    && (exists c <- s :: IsAlpha(c) || c == '-')
  }

  /** Section 7.1: a domain-spec without macros. */
  ghost predicate IsDomainSpec(target: string) {
    exists name, top :: EndsInTopLabel(target, name, top)
  }

  ghost predicate EndsInTopLabel(target: string, name: string, top: string) {
    && (target == name + "." + top || target == name + "." + top + ".")
    && IsTopLabel(top)
    && forall c <- name :: '!' <= c <= '~' && c != '%'
  }

  ghost predicate IsWellFormed(w: World, m: RfcMechanism) {
    match m
    case RfcIP4(text) => exists o: IP, n: nat :: IsIP4(text, o, n)
    case RfcIP6(text) => exists a: IP, n: nat :: IsIP6(w, text, a, n)
    case RfcADomain(target) => IsDomainSpec(target)
    case _ => true
  }

  /** Whether a mechanism matches, or why that cannot be told. */
  datatype Answered = Yes | No | Temporary | Permanent

  /** Section 5: no name or no records is like an empty answer, other failures end the evaluation. */
  ghost function AmongAddresses(ip: IP, answer: Answer<seq<IP>>): Answered {
    match answer
    case Found(ips) => if exists a :: a in ips && Canonical(a) == Canonical(ip) then Yes else No
    case NotFound => No
    case Failed => Temporary
  }

  /** Sections 4.6.4 and 5.4: the hosts one by one, but not more than `left` of them. */
  ghost function AmongHosts(w: World, ip: IP, hosts: seq<string>, left: nat): Answered {
    if hosts == [] then No
    else if left == 0 then Permanent
    else
      match AmongAddresses(ip, w.addr(hosts[0]))
      case No => AmongHosts(w, ip, hosts[1..], left - 1)
      case other => other
  }

  const MX_HOSTS := 10

  ghost function Matches(w: World, ip: IP, domain: string, m: RfcMechanism): Answered {
    match m
    case RfcAll => Yes
    case RfcIP4(text) =>
      if To4(ip).Some? && exists o: IP, n: nat :: IsIP4(text, o, n) && SameNetwork(To4(ip).value, o, n) then Yes else No
    case RfcIP6(text) =>
      if To4(ip).None? && |ip| == 16 && exists a: IP, n: nat :: IsIP6(w, text, a, n) && SameNetwork(ip, a, n) then Yes else No
    case RfcA => AmongAddresses(ip, w.addr(domain))
    case RfcADomain(target) => AmongAddresses(ip, w.addr(target))
    case RfcMX =>
      match w.mx(domain)
      case Found(hosts) => AmongHosts(w, ip, hosts, MX_HOSTS)
      case NotFound => No
      case Failed => Temporary
  }

  /** Section 4.6: a syntax error is a PermError; otherwise the term decides, or the next one is looked at. */
  ghost function RfcVerdict(w: World, ip: IP, domain: string, q: Qualifier, m: RfcMechanism): Option<Verdict> {
    if !IsWellFormed(w, m) then Some(Result(PermError))
    else
      match Matches(w, ip, domain, m)
      case Yes => Some(Result(ResultOf(q)))
      case No => None
      case Temporary => Some(Result(TempError))
      case Permanent => Some(Result(PermError))
  }

  // ----- Where the evaluator does the same -----

  predicate HostMatches(w: World, ip: IP, host: string) {
    w.addr(host).Found? && exists a <- w.addr(host).value :: Canonical(a) == Canonical(ip)
  }

  /** No host before this one matches. */
  ghost predicate Reached(w: World, ip: IP, hosts: seq<string>, i: int) {
    0 <= i < |hosts| && forall j :: 0 <= j < i ==> !HostMatches(w, ip, hosts[j])
  }

  /**
    No lookup says there is no such name or record; a network or domain is well-formed; an ip6 network is not an
    IPv4-mapped one that covers the sender; and the MX hosts up to a match are at most ten with no failed lookup.
   */
  ghost predicate CodeFollows(w: World, ip: IP, domain: string, m: RfcMechanism) {
    match m
    case RfcAll => true
    case RfcIP4(_) => IsWellFormed(w, m)
    case RfcIP6(text) =>
      && IsWellFormed(w, m)
      && !(To4(ip).None? && |ip| == 16 && exists a: IP, n: nat :: IsIP6(w, text, a, n) && To4(a).Some? && SameNetwork(ip, a, n))
    case RfcA => !w.addr(domain).NotFound?
    case RfcADomain(target) => IsWellFormed(w, m) && !w.addr(target).NotFound?
    case RfcMX =>
      && !w.mx(domain).NotFound?
      && (w.mx(domain).Found? ==>
           forall i :: Reached(w, ip, w.mx(domain).value, i) ==> i < MX_HOSTS && !w.addr(w.mx(domain).value[i]).Failed?)
  }

  lemma SelectsArm(m: RfcMechanism)
    ensures var arm := Select(ShowMechanism(m));
      match m
      case RfcAll => arm == All
      case RfcIP4(text) => arm == IP4 && ShowMechanism(m)[4..] == text
      case RfcIP6(text) => arm == IP6 && ShowMechanism(m)[4..] == text
      case RfcA => arm == BareA
      case RfcADomain(target) => arm == ADomain && ShowMechanism(m)[2..] == target
      case RfcMX => arm == BareMX
  {
    var mech := ShowMechanism(m);
    match m
    case RfcIP4(_) => assert mech[0] == 'i' && mech[3] == ':';
    case RfcIP6(_) => assert mech[0] == 'i' && mech[2] == '6';
    case RfcADomain(_) => assert mech[0] == 'a' && mech[1] == ':';
    case RfcMX => assert mech[0] == 'm' && mech[1] == 'x' && ':' !in mech && |mech| == 2;
    case _ =>
  }

  lemma FirstLetter(m: RfcMechanism)
    ensures var mech := ShowMechanism(m);
      mech != "" && (mech[0] == 'a' || mech[0] == 'i' || mech[0] == 'm')
  {
  }

  /** No qualifier or mechanism begins like a term that is skipped. */
  lemma NotSkipped(term: string)
    requires term != "" && term[0] != 'v' && term[0] != 'r' && term[0] != 'e'
    ensures !Skipped(term)
  {
  }

  lemma ShownTerm(q: Qualifier, m: RfcMechanism)
    ensures var term := ShowQualifier(q) + ShowMechanism(m);
      !Skipped(term) && MechanismOf(term) == ShowMechanism(m) && QualifierCode(term) == ResultOf(q)
  {
    hide ShowMechanism, Skipped;
    var mech, term := ShowMechanism(m), ShowQualifier(q) + ShowMechanism(m);
    FirstLetter(m);
    NotSkipped(term);
    assert q.Omitted? ==> term == mech;
    assert !q.Omitted? ==> term[1..] == mech;
  }

  lemma EqualIsCanonical(a: IP, b: IP)
    ensures Equal(a, b) <==> Canonical(a) == Canonical(b)
  {
  }

  // ----- Networks -----

  lemma SlashIs(arg: string, i: nat)
    requires i < |arg| && arg[i] == '/' && '/' !in arg[..i]
    ensures SlashAt(arg) == i
  {
  }

  lemma NoSlash(arg: string)
    requires '/' !in arg
    ensures SlashAt(arg) == |arg| && arg[..|arg|] == arg
  {
  }

  /** A network text made of an address without slash and a length reads as those. */
  lemma NetworkReads(w: World, text: string, address: string, n: nat, max: nat)
    requires '/' !in address && n <= max <= 128 && ParseIP(w, address).Some?
    requires (text == address && n == max) || text == address + "/" + Decimal(n)
    ensures ParseNetwork(w, text, max) == Some((ParseIP(w, address).value, n))
  {
    hide ParseIP, Decimal, Atoi;
    if text == address + "/" + Decimal(n) {
      var i := |address|;
      assert text[..i] == address && text[i + 1..] == Decimal(n);
      SlashIs(text, i);
      AtoiDecimal(n);
    } else {
      NoSlash(text);
    }
  }

  lemma IP4Reads(w: World, text: string, o: IP, n: nat)
    requires IsIP4(text, o, n)
    ensures ParseNetwork(w, text, 32) == Some((MAPPED + o, n))
  {
    hide ShowQuad, Quad, Decimal, ParseNetwork;
    var address := ShowQuad(o);
    ShowQuadSplit(o);
    ShowQuadCharacters(o);
    assert '.' in address by {
      DottedSplit(address);
      if '.' !in address {
        PieceAlone(address);
      }
    }
    QuadMark(address);
    QuadExactly(address, o);
    NetworkReads(w, text, address, n, 32);
  }

  lemma IP4Follows(w: World, ip: IP, text: string, o: IP, n: nat)
    requires IsIP4(text, o, n)
    ensures InIP4(w, ip, text) <==> To4(ip).Some? && SameNetwork(To4(ip).value, o, n)
    ensures forall o', n' :: IsIP4(text, o', n') ==> o' == o && n' == n
  {
    hide SameNetwork, IsIP4, ParseNetwork;
    IP4Reads(w, text, o, n);
    assert (MAPPED + o)[..12] == MAPPED && (MAPPED + o)[12..] == o;
    IP4Length(text, o, n);
    forall o', n' | IsIP4(text, o', n')
      ensures o' == o && n' == n
    {
      IP4Reads(w, text, o', n');
      IP4Length(text, o', n');
      assert (MAPPED + o')[12..] == o';
    }
  }

  lemma IP4Length(text: string, o: IP, n: nat)
    requires IsIP4(text, o, n)
    ensures |o| == 4
  {
  }

  lemma IP6Reads(w: World, text: string, a: IP, n: nat)
    requires IsIP6(w, text, a, n)
    ensures |a| == 16 && ParseNetwork(w, text, 128) == Some((a, n))
  {
    hide Decimal, ParseNetwork;
    var address :| IsIP6Text(w, text, address, a, n);
    NetworkReads(w, text, address, n, 128);
  }

  lemma IP6Follows(w: World, ip: IP, text: string, a: IP, n: nat)
    requires IsIP6(w, text, a, n)
    ensures InIP6(w, ip, text) <==> To4(ip).None? && |ip| == 16 && To4(a).None? && SameNetwork(ip, a, n)
    ensures forall a', n' :: IsIP6(w, text, a', n') ==> a' == a && n' == n
  {
    hide IsIP6, ParseNetwork, Prefix;
    IP6Reads(w, text, a, n);
    forall a', n' | IsIP6(w, text, a', n')
      ensures a' == a && n' == n
    {
      IP6Reads(w, text, a', n');
    }
  }

  // ----- Hosts -----

  /** The same as the condition on the hosts reached, one host after the other. */
  predicate Untroubled(w: World, ip: IP, hosts: seq<string>, left: nat) {
    hosts == [] ||
    (&& left > 0 && !w.addr(hosts[0]).Failed?
     && (HostMatches(w, ip, hosts[0]) || Untroubled(w, ip, hosts[1..], left - 1)))
  }

  lemma FirstHost(w: World, ip: IP, hosts: seq<string>)
    requires hosts != []
    ensures AnyEqual(MxAddresses(w, hosts), ip) <==>
      HostMatches(w, ip, hosts[0]) || AnyEqual(MxAddresses(w, hosts[1..]), ip)
    ensures AmongAddresses(ip, w.addr(hosts[0])) ==
      if w.addr(hosts[0]).Failed? then Temporary else if HostMatches(w, ip, hosts[0]) then Yes else No
  {
    hide Canonical, Equal;
    var own := if w.addr(hosts[0]).Found? then w.addr(hosts[0]).value else [];
    var others := MxAddresses(w, hosts[1..]);
    forall a: IP ensures Equal(a, ip) <==> Canonical(a) == Canonical(ip) {
      EqualIsCanonical(a, ip);
    }
    assert forall a :: a in own + others <==> a in own || a in others;
  }

  lemma {:induction false} HostsFollow(w: World, ip: IP, hosts: seq<string>, left: nat)
    ensures AmongHosts(w, ip, hosts, left) in
      if !Untroubled(w, ip, hosts, left) then {Temporary, Permanent}
      else if AnyEqual(MxAddresses(w, hosts), ip) then {Yes}
      else {No}
  {
    hide AmongAddresses, HostMatches, AnyEqual, MxAddresses;
    if hosts == [] {
      NoHosts(w, ip);
    } else {
      FirstHost(w, ip, hosts);
      if left > 0 {
        HostsFollow(w, ip, hosts[1..], left - 1);
      }
    }
  }

  lemma NoHosts(w: World, ip: IP)
    ensures !AnyEqual(MxAddresses(w, []), ip)
  {
  }

  lemma {:induction false} UntroubledExactly(w: World, ip: IP, hosts: seq<string>, left: nat)
    ensures Untroubled(w, ip, hosts, left) <==>
      forall i :: Reached(w, ip, hosts, i) ==> i < left && !w.addr(hosts[i]).Failed?
  {
    hide HostMatches;
    if hosts != [] {
      var rest := hosts[1..];
      assert Reached(w, ip, hosts, 0);
      if left > 0 && !HostMatches(w, ip, hosts[0]) {
        UntroubledExactly(w, ip, rest, left - 1);
        forall i ensures Reached(w, ip, hosts, i + 1) <==> Reached(w, ip, rest, i) || i == -1 {
          ReachedNext(w, ip, hosts, i);
        }
        assert forall i :: Reached(w, ip, rest, i) ==> Reached(w, ip, hosts, i + 1) && rest[i] == hosts[i + 1];
        assert forall i :: Reached(w, ip, hosts, i) && i > 0 ==> Reached(w, ip, rest, i - 1) && rest[i - 1] == hosts[i];
      }
    }
  }

  lemma ReachedNext(w: World, ip: IP, hosts: seq<string>, i: int)
    requires hosts != [] && !HostMatches(w, ip, hosts[0])
    ensures Reached(w, ip, hosts, i + 1) <==> Reached(w, ip, hosts[1..], i) || i == -1
  {
    hide HostMatches;
    assert forall j :: 0 <= j < |hosts| - 1 ==> hosts[1..][j] == hosts[j + 1];
  }

  // ----- The agreement -----

  lemma TermOutcome(w: World, ip: IP, domain: string, q: Qualifier, m: RfcMechanism)
    ensures TermVerdict(w, ip, domain, ShowQualifier(q) + ShowMechanism(m)) ==
      match Mechanism(w, ip, domain, ShowMechanism(m))
      case Match => Some(Result(ResultOf(q)))
      case DnsError => Some(Result(TempError))
      case Panic => Some(Crash)
      case _ => None
  {
    hide Skipped, MechanismOf, QualifierCode, Mechanism, ShowMechanism, ShowQualifier, ResultOf;
    ShownTerm(q, m);
  }

  /** A term's own verdict is never PermError, which is what syntax errors and too many hosts call for. */
  lemma NeverPermanent(q: Qualifier)
    ensures ResultOf(q) != PermError && ResultOf(q) != TempError
  {
  }

  lemma AddressFollows(w: World, ip: IP, name: string)
    ensures MatchA(w, name, ip) ==
      match AmongAddresses(ip, w.addr(name))
      case Yes => Match
      case No => if w.addr(name).NotFound? then DnsError else NoMatch
      case _ => DnsError
    ensures AmongAddresses(ip, w.addr(name)) != Permanent
    ensures w.addr(name).NotFound? ==> AmongAddresses(ip, w.addr(name)) == No
  {
    hide Canonical, Equal;
    forall a: IP ensures Equal(a, ip) <==> Canonical(a) == Canonical(ip) {
      EqualIsCanonical(a, ip);
    }
  }

  lemma NetworkFollows(w: World, ip: IP, domain: string, m: RfcMechanism)
    requires (m.RfcIP4? || m.RfcIP6?) && IsWellFormed(w, m)
    ensures m.RfcIP4? ==> (InIP4(w, ip, m.text) <==> Matches(w, ip, domain, m) == Yes)
    ensures m.RfcIP6? ==>
      (InIP6(w, ip, m.text) <==> Matches(w, ip, domain, m) == Yes && CodeFollows(w, ip, domain, m))
    ensures m.RfcIP6? && !CodeFollows(w, ip, domain, m) ==> Matches(w, ip, domain, m) == Yes
    ensures Matches(w, ip, domain, m) in {Yes, No}
  {
    hide InIP4, InIP6, IsIP4, IsIP6, SameNetwork;
    if m.RfcIP4? {
      var o, n :| IsIP4(m.text, o, n);
      IP4Follows(w, ip, m.text, o, n);
    } else {
      var a, n :| IsIP6(w, m.text, a, n);
      IP6Follows(w, ip, m.text, a, n);
    }
  }

  lemma MxFollows(w: World, ip: IP, domain: string)
    ensures CodeFollows(w, ip, domain, RfcMX) ==>
      MatchMX(w, domain, ip) ==
        match Matches(w, ip, domain, RfcMX)
        case Yes => Match
        case No => NoMatch
        case _ => DnsError
    ensures CodeFollows(w, ip, domain, RfcMX) ==> Matches(w, ip, domain, RfcMX) != Permanent
    ensures !CodeFollows(w, ip, domain, RfcMX) ==>
      if w.mx(domain).NotFound? then Matches(w, ip, domain, RfcMX) == No && MatchMX(w, domain, ip) == DnsError
      else Matches(w, ip, domain, RfcMX) in {Temporary, Permanent} && MatchMX(w, domain, ip) != DnsError
  {
    hide Untroubled, AmongHosts, AnyEqual, MxAddresses, Reached;
    if w.mx(domain).Found? {
      HostsFollow(w, ip, w.mx(domain).value, MX_HOSTS);
      UntroubledExactly(w, ip, w.mx(domain).value, MX_HOSTS);
    }
  }

  /** Written out and evaluated, a term of the fragment does what RFC 7208 says of it if and only if CodeFollows. */
  lemma FollowsRfcExactly(w: World, ip: IP, domain: string, q: Qualifier, m: RfcMechanism)
    requires InFragment(m)
    ensures TermVerdict(w, ip, domain, ShowQualifier(q) + ShowMechanism(m)) == RfcVerdict(w, ip, domain, q, m)
        <==> CodeFollows(w, ip, domain, m)
  {
    hide TermVerdict, Select, ShowMechanism, ShowQualifier, ResultOf, InIP4, InIP6, IsIP4, IsIP6, IsDomainSpec;
    hide AmongAddresses, MatchA, MatchMX, Matches, CodeFollows;
    TermOutcome(w, ip, domain, q, m);
    NeverPermanent(q);
    SelectsArm(m);
    match m
    case RfcAll => AllFollows(w, ip, domain);
    case RfcIP4(text) => IP4Agrees(w, ip, domain, m);
    case RfcIP6(text) => IP6Agrees(w, ip, domain, m);
    case RfcA => NameAgrees(w, ip, domain, m, domain);
    case RfcADomain(target) => NameAgrees(w, ip, domain, m, target);
    case RfcMX => MxFollows(w, ip, domain);
  }

  lemma AllFollows(w: World, ip: IP, domain: string)
    ensures Matches(w, ip, domain, RfcAll) == Yes && CodeFollows(w, ip, domain, RfcAll)
  {
  }

  lemma IP4Agrees(w: World, ip: IP, domain: string, m: RfcMechanism)
    requires m.RfcIP4?
    ensures CodeFollows(w, ip, domain, m) <==> IsWellFormed(w, m)
    ensures IsWellFormed(w, m) ==>
      Matches(w, ip, domain, m) == if InIP4(w, ip, m.text) then Yes else No
  {
    hide InIP4, Matches, IsIP4;
    if IsWellFormed(w, m) {
      NetworkFollows(w, ip, domain, m);
    }
  }

  lemma IP6Agrees(w: World, ip: IP, domain: string, m: RfcMechanism)
    requires m.RfcIP6?
    ensures CodeFollows(w, ip, domain, m) ==> IsWellFormed(w, m)
    ensures IsWellFormed(w, m) ==>
      Matches(w, ip, domain, m) == if InIP6(w, ip, m.text) || !CodeFollows(w, ip, domain, m) then Yes else No
    ensures IsWellFormed(w, m) && InIP6(w, ip, m.text) ==> CodeFollows(w, ip, domain, m)
  {
    hide InIP6, Matches, IsIP6;
    if IsWellFormed(w, m) {
      NetworkFollows(w, ip, domain, m);
    }
  }

  lemma NameAgrees(w: World, ip: IP, domain: string, m: RfcMechanism, name: string)
    requires (m.RfcA? && name == domain) || (m.RfcADomain? && name == m.target)
    ensures Matches(w, ip, domain, m) == AmongAddresses(ip, w.addr(name))
    ensures CodeFollows(w, ip, domain, m) <==> IsWellFormed(w, m) && !w.addr(name).NotFound?
    ensures MatchA(w, name, ip) ==
      match AmongAddresses(ip, w.addr(name))
      case Yes => Match
      case No => if w.addr(name).NotFound? then DnsError else NoMatch
      case _ => DnsError
    ensures AmongAddresses(ip, w.addr(name)) != Permanent
    ensures w.addr(name).NotFound? ==> AmongAddresses(ip, w.addr(name)) == No
  {
    hide AmongAddresses, MatchA, IsDomainSpec;
    AddressFollows(w, ip, name);
  }

  datatype RfcTerm = RfcTerm(q: Qualifier, m: RfcMechanism)

  function Shown(terms: seq<RfcTerm>): (r: seq<string>)
    ensures |r| == |terms|
    ensures forall i :: 0 <= i < |terms| ==> r[i] == ShowQualifier(terms[i].q) + ShowMechanism(terms[i].m)
  {
    seq(|terms|, i requires 0 <= i < |terms| => ShowQualifier(terms[i].q) + ShowMechanism(terms[i].m))
  }

  // ----- Whole records -----

  /** What a record comes to, and by which of its terms. */
  datatype Decided = SyntaxError | Undecided | ByTerm(position: nat, verdict: Verdict)

  function Later(d: Decided): Decided {
    if d.ByTerm? then ByTerm(d.position + 1, d.verdict) else d
  }

  function VerdictOf(d: Decided): Option<Verdict> {
    match d
    case SyntaxError => Some(Result(PermError))
    case Undecided => None
    case ByTerm(_, v) => Some(v)
  }

  function CodeDecides(w: World, ip: IP, domain: string, texts: seq<string>): Decided {
    if texts == [] then Undecided
    else
      match TermVerdict(w, ip, domain, texts[0])
      case None => Later(CodeDecides(w, ip, domain, texts[1..]))
      case Some(v) => ByTerm(0, v)
  }

  lemma {:induction false} CodeDecidesVerdict(w: World, ip: IP, domain: string, texts: seq<string>)
    ensures VerdictOf(CodeDecides(w, ip, domain, texts)) == MechanismVerdict(w, ip, domain, texts)
    ensures CodeDecides(w, ip, domain, texts) != SyntaxError
  {
    hide TermVerdict;
    if texts != [] {
      CodeDecidesVerdict(w, ip, domain, texts[1..]);
    }
  }

  /** Section 4.6.2: the mechanisms are looked at from left to right until one decides. */
  ghost function TermsDecide(w: World, ip: IP, domain: string, terms: seq<RfcTerm>): Decided {
    if terms == [] then Undecided
    else
      match RfcVerdict(w, ip, domain, terms[0].q, terms[0].m)
      case None => Later(TermsDecide(w, ip, domain, terms[1..]))
      case Some(v) => ByTerm(0, v)
  }

  /** Section 4.6: a syntax error anywhere comes first. */
  ghost function RfcDecides(w: World, ip: IP, domain: string, terms: seq<RfcTerm>): Decided {
    if exists t <- terms :: !IsWellFormed(w, t.m) then SyntaxError else TermsDecide(w, ip, domain, terms)
  }

  /** No term before this one decides. */
  ghost predicate ReachedByRfc(w: World, ip: IP, domain: string, terms: seq<RfcTerm>, i: int) {
    0 <= i < |terms| && forall j :: 0 <= j < i ==> RfcVerdict(w, ip, domain, terms[j].q, terms[j].m).None?
  }

  ghost predicate FollowsWhereReached(w: World, ip: IP, domain: string, terms: seq<RfcTerm>) {
    terms == [] ||
    (&& CodeFollows(w, ip, domain, terms[0].m)
     && (RfcVerdict(w, ip, domain, terms[0].q, terms[0].m).Some? || FollowsWhereReached(w, ip, domain, terms[1..])))
  }

  lemma {:induction false} FollowsWhereReachedExactly(w: World, ip: IP, domain: string, terms: seq<RfcTerm>)
    ensures FollowsWhereReached(w, ip, domain, terms) <==>
      forall i :: ReachedByRfc(w, ip, domain, terms, i) ==> CodeFollows(w, ip, domain, terms[i].m)
  {
    hide RfcVerdict, CodeFollows;
    if terms != [] {
      var rest := terms[1..];
      assert ReachedByRfc(w, ip, domain, terms, 0);
      if RfcVerdict(w, ip, domain, terms[0].q, terms[0].m).None? {
        FollowsWhereReachedExactly(w, ip, domain, rest);
        assert forall j :: 0 <= j < |rest| ==> rest[j] == terms[j + 1];
        assert forall j :: 0 < j < |terms| ==> terms[j] == rest[j - 1];
        assert forall i :: ReachedByRfc(w, ip, domain, rest, i) ==> ReachedByRfc(w, ip, domain, terms, i + 1);
        assert forall i :: ReachedByRfc(w, ip, domain, terms, i) && i > 0 ==> ReachedByRfc(w, ip, domain, rest, i - 1);
      }
    }
  }

  lemma {:induction false} TermsDecideAlike(w: World, ip: IP, domain: string, terms: seq<RfcTerm>)
    requires forall t <- terms :: InFragment(t.m)
    ensures CodeDecides(w, ip, domain, Shown(terms)) == TermsDecide(w, ip, domain, terms)
        <==> FollowsWhereReached(w, ip, domain, terms)
    ensures TermsDecide(w, ip, domain, terms) != SyntaxError
  {
    hide TermVerdict, RfcVerdict, CodeFollows, ShowMechanism, ShowQualifier;
    if terms != [] {
      assert terms[0] in terms;
      FollowsRfcExactly(w, ip, domain, terms[0].q, terms[0].m);
      assert Shown(terms)[1..] == Shown(terms[1..]);
      TermsDecideAlike(w, ip, domain, terms[1..]);
      CodeDecidesVerdict(w, ip, domain, Shown(terms[1..]));
    }
  }

  /**
    Code and RFC decide a record by the same term with the same verdict, or both leave it open, if and only if every
    term is well-formed and the code follows the RFC at each term before which the RFC has not decided.
   */
  lemma RecordFollowsRfcExactly(w: World, ip: IP, domain: string, terms: seq<RfcTerm>)
    requires forall t <- terms :: InFragment(t.m)
    ensures CodeDecides(w, ip, domain, Shown(terms)) == RfcDecides(w, ip, domain, terms) <==>
      && (forall t <- terms :: IsWellFormed(w, t.m))
      && (forall i :: ReachedByRfc(w, ip, domain, terms, i) ==> CodeFollows(w, ip, domain, terms[i].m))
  {
    hide TermsDecide, CodeDecides, FollowsWhereReached, CodeFollows, ReachedByRfc, IsWellFormed;
    TermsDecideAlike(w, ip, domain, terms);
    FollowsWhereReachedExactly(w, ip, domain, terms);
    CodeDecidesVerdict(w, ip, domain, Shown(terms));
  }

  /** No term makes the evaluator answer PermError, so a record with an ill-formed one never gets the RFC's verdict. */
  lemma {:induction false} MechanismsNeverPermError(w: World, ip: IP, domain: string, terms: seq<RfcTerm>)
    ensures MechanismVerdict(w, ip, domain, Shown(terms)) != Some(Result(PermError))
  {
    hide TermVerdict, Mechanism, ShowMechanism, ShowQualifier, ResultOf;
    if terms != [] {
      TermOutcome(w, ip, domain, terms[0].q, terms[0].m);
      NeverPermanent(terms[0].q);
      assert Shown(terms)[1..] == Shown(terms[1..]);
      MechanismsNeverPermError(w, ip, domain, terms[1..]);
    }
  }

  lemma IllFormedRecordDiffers(w: World, ip: IP, domain: string, terms: seq<RfcTerm>, t: RfcTerm)
    requires t in terms && !IsWellFormed(w, t.m)
    ensures VerdictOf(RfcDecides(w, ip, domain, terms)) == Some(Result(PermError))
    ensures MechanismVerdict(w, ip, domain, Shown(terms)) != VerdictOf(RfcDecides(w, ip, domain, terms))
  {
    hide IsWellFormed, MechanismVerdict;
    MechanismsNeverPermError(w, ip, domain, terms);
  }

  // ----- Where it does not -----

  /** An IPv4-mapped network covers IPv6 senders outside that range for the RFC, never for the evaluator. */
  lemma MappedNetworkDiffers(w: World, ip: IP, domain: string, q: Qualifier, text: string, a: IP, n: nat)
    requires IsIP6(w, text, a, n) && To4(a).Some?
    requires |ip| == 16 && To4(ip).None? && SameNetwork(ip, a, n)
    ensures TermVerdict(w, ip, domain, ShowQualifier(q) + ShowMechanism(RfcIP6(text))) == None
    ensures RfcVerdict(w, ip, domain, q, RfcIP6(text)) == Some(Result(ResultOf(q)))
  {
    hide Select, SameNetwork, InIP6, TermVerdict, IsIP6, ShowMechanism;
    IP6Follows(w, ip, text, a, n);
    TermOutcome(w, ip, domain, q, RfcIP6(text));
    SelectsArm(RfcIP6(text));
  }

  lemma MappedExample(w: World, ip: IP, domain: string, a: IP16)
    requires w.ipv6("::ffff:192.0.2.1") == Some(a) && To4(a).Some?
    requires |ip| == 16 && To4(ip).None? && ip[..2] == a[..2]
    ensures TermVerdict(w, ip, domain, "-ip6:::ffff:192.0.2.1/16") == None
    ensures RfcVerdict(w, ip, domain, Minus, RfcIP6("::ffff:192.0.2.1/16")) == Some(Result(Fail))
  {
    hide TermVerdict, RfcVerdict, SameNetwork, IsIP6Text, IsIP6;
    MappedText(w, a);
    SameOctets(ip, a, 2);
    MappedNetworkDiffers(w, ip, domain, Minus, "::ffff:192.0.2.1/16", a, 16);
    assert ShowQualifier(Minus) + ShowMechanism(RfcIP6("::ffff:192.0.2.1/16")) == "-ip6:::ffff:192.0.2.1/16";
  }

  lemma MappedText(w: World, a: IP16)
    requires w.ipv6("::ffff:192.0.2.1") == Some(a)
    ensures IsIP6(w, "::ffff:192.0.2.1/16", a, 16)
  {
    hide Decimal;
    var address := "::ffff:192.0.2.1";
    DecimalSixteen();
    assert address + "/" + "16" == "::ffff:192.0.2.1/16";
    assert IsIP6Text(w, "::ffff:192.0.2.1/16", address, a, 16);
  }

  lemma DecimalSixteen()
    ensures Decimal(16) == "16"
  {
    assert Decimal(1) == "1";
  }

  /** A mail host whose address lookup fails is passed over instead of ending in TempError. */
  lemma FailedHostDiffers(w: World, ip: IP, domain: string, q: Qualifier, host: string)
    requires w.mx(domain) == Found([host]) && w.addr(host).Failed?
    ensures TermVerdict(w, ip, domain, ShowQualifier(q) + "mx") == None
    ensures RfcVerdict(w, ip, domain, q, RfcMX) == Some(Result(TempError))
  {
    hide TermVerdict;
    TermOutcome(w, ip, domain, q, RfcMX);
    SelectsArm(RfcMX);
    FirstHost(w, ip, [host]);
    NoHosts(w, ip);
    assert [host][1..] == [];
  }

  /** A name that does not exist ends the evaluation with TempError instead of not matching. */
  lemma MissingNameDiffers(w: World, ip: IP, domain: string, q: Qualifier, target: string)
    requires IsDomainSpec(target) && w.addr(target).NotFound?
    ensures TermVerdict(w, ip, domain, ShowQualifier(q) + ShowMechanism(RfcADomain(target))) == Some(Result(TempError))
    ensures RfcVerdict(w, ip, domain, q, RfcADomain(target)) == None
  {
    hide IsDomainSpec, AmongAddresses, MatchA, Select, TermVerdict, ShowMechanism;
    TermOutcome(w, ip, domain, q, RfcADomain(target));
    SelectsArm(RfcADomain(target));
    AddressFollows(w, ip, target);
  }

  lemma NonexistentExample(w: World, ip: IP, domain: string)
    requires w.addr("none.example").NotFound?
    ensures TermVerdict(w, ip, domain, "-a:none.example") == Some(Result(TempError))
    ensures RfcVerdict(w, ip, domain, Minus, RfcADomain("none.example")) == None
  {
    hide *;
    ExampleIsDomainSpec();
    MinusA("none.example");
    assert "-a:" + "none.example" == "-a:none.example";
    MissingNameDiffers(w, ip, domain, Minus, "none.example");
  }

  lemma MinusA(target: string)
    ensures ShowQualifier(Minus) + ShowMechanism(RfcADomain(target)) == "-a:" + target
  {
  }

  lemma ExampleIsDomainSpec()
    ensures IsDomainSpec("none.example")
  {
    hide IsTopLabel;
    ExampleIsTopLabel();
    var name, top := "none", "example";
    assert name + "." + top == "none.example";
    assert EndsInTopLabel("none.example", name, top);
  }

  lemma ExampleIsTopLabel()
    ensures IsTopLabel("example")
  {
    assert 'e' in "example";
  }

  /** A network that does not parse is passed over instead of making the record a PermError. */
  lemma BadNetworkDiffers(w: World, ip: IP, domain: string, q: Qualifier)
    ensures TermVerdict(w, ip, domain, ShowQualifier(q) + "ip4:") == None
    ensures RfcVerdict(w, ip, domain, q, RfcIP4("")) == Some(Result(PermError))
  {
    hide Decimal, Select;
    assert ShowMechanism(RfcIP4("")) == "ip4:";
    TermOutcome(w, ip, domain, q, RfcIP4(""));
    SelectsArm(RfcIP4(""));
    forall o: IP, n: nat ensures !IsIP4("", o, n) {
    }
    assert !InIP4(w, ip, "") by {
      NoSlash("");
      assert FirstMark("") == ' ';
    }
  }
}
