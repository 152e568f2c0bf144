/** The SPF evaluator (pkg/spf/checker.go). */
module Spf {
  import opened Wrappers
  import opened Cidr
  import opened NetText

  datatype Code = None_ | Pass | Fail | SoftFail | Neutral | TempError | PermError

  /** What the resolver says: the records, that there is no such name or no such record, or that it cannot tell. */
  datatype Answer<+T> = Found(value: T) | NotFound | Failed

  type IP16 = a: IP | |a| == 16 witness MAPPED + [0, 0, 0, 0]

  /** The DNS, and the reader of IPv6 addresses (the text forms of section 2.2 of RFC 4291). */
  datatype World = World(
    txt: string -> Answer<seq<string>>,
    addr: string -> Answer<seq<IP>>,
    mx: string -> Answer<seq<string>>,
    ipv6: string -> Option<IP16>)

  /** What one mechanism does: match, not match, fail on a lookup, be ignored, or panic. */
  datatype Outcome = Match | NoMatch | DnsError | Ignored | Panic

  function Matched(b: bool): Outcome {
    if b then Match else NoMatch
  }

  predicate HasPrefix(s: string, p: string) {
    p <= s
  }

  // ----- Mechanisms -----

  function SlashAt(arg: string): (i: nat)
    ensures i <= |arg| && (i < |arg| ==> arg[i] == '/') && '/' !in arg[..i]
  {
    if arg == "" || arg[0] == '/' then 0 else
      var i := SlashAt(arg[1..]);
      assert arg[..i + 1] == [arg[0]] + arg[1..][..i];
      i + 1
  }

  /** net.ParseIP: a dotted quad, in its IPv4-mapped form, or an IPv6 address. */
  function ParseIP(w: World, s: string): Option<IP> {
    match FirstMark(s)
    case '.' => (match Quad(s)
                 case None => None
                 case Some(o) => Some(MAPPED + o))
    case ':' => (match w.ipv6(s)
                 case None => None
                 case Some(a) => Some(a))
    case _ => None
  }

  /** `address` or `address/length`, with the length between 0 and `max`. */
  function ParseNetwork(w: World, arg: string, max: nat): Option<(IP, nat)> {
    var i := SlashAt(arg);
    var length := if i == |arg| then Some(max) else Atoi(arg[i + 1..]);
    if length.None? || length.value < 0 || length.value > max then None
    else
      match ParseIP(w, arg[..i])
      case None => None
      case Some(network) => Some((network, length.value))
  }

  /** An ip4 mechanism matches IPv4 addresses in the network it names. */
  predicate InIP4(w: World, ip: IP, arg: string) {
    var network := ParseNetwork(w, arg, 32);
    && network.Some?
    && To4(ip).Some? && To4(network.value.0).Some?
    && SameNetwork(To4(ip).value, To4(network.value.0).value, network.value.1)
  }

  /** An ip6 mechanism matches IPv6 addresses only, IPv4-mapped ones excluded on both sides. */
  predicate InIP6(w: World, ip: IP, arg: string) {
    var network := ParseNetwork(w, arg, 128);
    && network.Some?
    && To4(ip).None? && To16(ip).Some? && To16(network.value.0).Some?
    && SameNetwork(To16(ip).value, Canonical(To16(network.value.0).value), network.value.1)
  }

  method MatchIP4(w: World, ip: IP, arg: string) returns (match_: bool)
    ensures match_ <==> InIP4(w, ip, arg)
  {
    if To4(ip).None? {
      return false;
    }
    var cidr, prefixLen := arg, 32;
    var i := SlashAt(arg);
    if i < |arg| {
      cidr := arg[..i];
      var n := Atoi(arg[i + 1..]);
      if n.None? || n.value < 0 || n.value > 32 {
        return false;
      }
      prefixLen := n.value;
    } else {
      assert arg[..i] == arg;
    }
    var netIP := ParseIP(w, cidr);
    if netIP.None? || To4(netIP.value).None? {
      return false;
    }
    match_ := CidrMatch(To4(ip).value, To4(netIP.value).value, prefixLen);
  }

  method MatchIP6(w: World, ip: IP, arg: string) returns (match_: bool)
    ensures match_ <==> InIP6(w, ip, arg)
  {
    if To16(ip).None? || To4(ip).Some? {
      return false;
    }
    var cidr, prefixLen := arg, 128;
    var i := SlashAt(arg);
    if i < |arg| {
      cidr := arg[..i];
      var n := Atoi(arg[i + 1..]);
      if n.None? || n.value < 0 || n.value > 128 {
        return false;
      }
      prefixLen := n.value;
    } else {
      assert arg[..i] == arg;
    }
    var netIP := ParseIP(w, cidr);
    if netIP.None? || To16(netIP.value).None? {
      return false;
    }
    match_ := CidrMatch(To16(ip).value, To16(netIP.value).value, prefixLen);
  }

  predicate AnyEqual(ips: seq<IP>, ip: IP) {
    exists a <- ips :: Equal(a, ip)
  }

  predicate AnyInNetwork(ips: seq<IP>, ip: IP, bits: int) {
    exists a <- ips :: SameNetwork(Canonical(ip), Canonical(a), bits)
  }

  /** Hosts whose own lookup fails are skipped. */
  function MxAddresses(w: World, hosts: seq<string>): seq<IP> {
    if hosts == [] then []
    else (if w.addr(hosts[0]).Found? then w.addr(hosts[0]).value else []) + MxAddresses(w, hosts[1..])
  }

  function MatchA(w: World, domain: string, ip: IP): Outcome {
    match w.addr(domain)
    case Found(ips) => Matched(AnyEqual(ips, ip))
    case _ => DnsError
  }

  function MatchMX(w: World, domain: string, ip: IP): Outcome {
    match w.mx(domain)
    case Found(hosts) => Matched(AnyEqual(MxAddresses(w, hosts), ip))
    case _ => DnsError
  }

  /** The part before '/', and the length after it or the default. */
  function DomainAndLength(w: World, arg: string, ip: IP): (string, int) {
    var default := if To4(ip).None? && To16(ip).Some? then 128 else 32;
    var i := SlashAt(arg);
    if i == |arg| then (arg, default)
    else (arg[..i], if Atoi(arg[i + 1..]).Some? then Atoi(arg[i + 1..]).value else default)
  }

  function MatchAWithCIDR(w: World, arg: string, ip: IP): Outcome {
    var (domain, bits) := DomainAndLength(w, arg, ip);
    match w.addr(domain)
    case Found(ips) => Matched(AnyInNetwork(ips, ip, bits))
    case _ => DnsError
  }

  function MatchMXWithCIDR(w: World, arg: string, ip: IP): Outcome {
    var (domain, bits) := DomainAndLength(w, arg, ip);
    match w.mx(domain)
    case Found(hosts) => Matched(AnyInNetwork(MxAddresses(w, hosts), ip, bits))
    case _ => DnsError
  }

  /** The arms of the switch, in its order, by what selects them. */
  datatype Arm = All | IP4 | IP6 | BareA | ADomain | AWithCIDR | BareMX | MXDomain | MXWithCIDR | Include | Unknown

  function Select(mech: string): Arm {
    if mech == "all" then All
    else if HasPrefix(mech, "ip4:") then IP4
    else if HasPrefix(mech, "ip6:") then IP6
    else if mech == "a" then BareA
    else if HasPrefix(mech, "a:") then ADomain
    else if HasPrefix(mech, "a/") || ':' in mech then AWithCIDR
    else if mech == "mx" then BareMX
    else if HasPrefix(mech, "mx:") then MXDomain
    else if HasPrefix(mech, "mx/") then MXWithCIDR
    else if HasPrefix(mech, "include:") then Include
    else Unknown
  }

  /** Two arms are never selected: the one before them takes every mechanism with a colon. */
  lemma UnreachedArms(mech: string)
    ensures Select(mech) != MXDomain && Select(mech) != Include
    ensures HasPrefix(mech, "mx:") || HasPrefix(mech, "include:") ==> Select(mech) == AWithCIDR
  {
    if HasPrefix(mech, "mx:") {
      assert mech[2] == ':' && mech[0] == 'm';
    }
    if HasPrefix(mech, "include:") {
      assert mech[7] == ':' && mech[1] == 'n' && mech[2] == 'c';
    }
  }

  function Mechanism(w: World, ip: IP, domain: string, mech: string): Outcome {
    match Select(mech)
    case All => Match
    case IP4 => Matched(InIP4(w, ip, mech[4..]))
    case IP6 => Matched(InIP6(w, ip, mech[4..]))
    case BareA => MatchA(w, domain, ip)
    case ADomain => MatchA(w, mech[2..], ip)
    case AWithCIDR => if |mech| < 2 then Panic else MatchAWithCIDR(w, mech[2..], ip)
    case BareMX => MatchMX(w, domain, ip)
    case MXWithCIDR => MatchMXWithCIDR(w, mech[3..], ip)
    case _ => Ignored
  }

  // ----- Terms -----

  predicate Skipped(term: string) {
    term == "" || term == "v=spf1" || HasPrefix(term, "redirect=") || HasPrefix(term, "exp=")
  }

  predicate HasQualifier(term: string) {
    term != "" && term[0] in "+-~?"
  }

  function MechanismOf(term: string): string {
    if HasQualifier(term) then term[1..] else term
  }

  function QualifierCode(term: string): Code {
    if term == "" || term[0] == '+' then Pass
    else if term[0] == '-' then Fail
    else if term[0] == '~' then SoftFail
    else if term[0] == '?' then Neutral
    else Pass
  }

  /** A verdict ends the evaluation; None goes on to the next term. */
  datatype Verdict = Result(code: Code) | Crash

  function TermVerdict(w: World, ip: IP, domain: string, term: string): Option<Verdict> {
    if Skipped(term) then None
    else
      match Mechanism(w, ip, domain, MechanismOf(term))
      case Match => Some(Result(QualifierCode(term)))
      case DnsError => Some(Result(TempError))
      case Panic => Some(Crash)
      case _ => None
  }

  ghost predicate FirstVerdictAt(w: World, ip: IP, domain: string, terms: seq<string>, i: int, v: Verdict) {
    && 0 <= i < |terms|
    && TermVerdict(w, ip, domain, terms[i]) == Some(v)
    && forall j :: 0 <= j < i ==> TermVerdict(w, ip, domain, terms[j]).None?
  }

  function MechanismVerdict(w: World, ip: IP, domain: string, terms: seq<string>): Option<Verdict> {
    if terms == [] then None
    else if TermVerdict(w, ip, domain, terms[0]).Some? then TermVerdict(w, ip, domain, terms[0])
    else MechanismVerdict(w, ip, domain, terms[1..])
  }

  /** The mechanisms decide with the first term that has a verdict; without one they leave it open. */
  lemma {:induction false} FirstMatchDecides(w: World, ip: IP, domain: string, terms: seq<string>)
    ensures forall i, v :: FirstVerdictAt(w, ip, domain, terms, i, v) ==> MechanismVerdict(w, ip, domain, terms) == Some(v)
    ensures MechanismVerdict(w, ip, domain, terms).None? <==>
      forall i :: 0 <= i < |terms| ==> TermVerdict(w, ip, domain, terms[i]).None?
  {
    hide TermVerdict;
    if terms != [] {
      var rest := terms[1..];
      FirstMatchDecides(w, ip, domain, rest);
      assert forall i :: 0 <= i < |rest| ==> rest[i] == terms[i + 1];
      assert forall i :: 0 < i < |terms| ==> terms[i] == rest[i - 1];
      forall i, v | FirstVerdictAt(w, ip, domain, terms, i, v)
        ensures MechanismVerdict(w, ip, domain, terms) == Some(v)
      {
        if i > 0 {
          assert FirstVerdictAt(w, ip, domain, rest, i - 1, v);
        }
      }
    }
  }

  // ----- Records -----

  /** unicode.IsSpace. */
  predicate IsSpace(c: char) {
    var n := c as int;
    || 9 <= n <= 13 || n == 32 || n == 0x85 || n == 0xA0 || n == 0x1680 || 0x2000 <= n <= 0x200A
    || n == 0x2028 || n == 0x2029 || n == 0x202F || n == 0x205F || n == 0x3000
  }

  /** strings.Fields: the runs of non-space characters; `word` is the run read so far. */
  function Fields(s: string, word: string := ""): seq<string>
    decreases |s|
  {
    var done := if word == "" then [] else [word];
    if s == "" then done
    else if IsSpace(s[0]) then done + Fields(s[1..], "")
    else Fields(s[1..], word + [s[0]])
  }

  /** The first TXT string that starts like an SPF record; the empty string if there is none. */
  function FirstRecord(txts: seq<string>): string {
    if txts == [] then "" else if HasPrefix(txts[0], "v=spf1") then txts[0] else FirstRecord(txts[1..])
  }

  function LookupSPF(w: World, domain: string): Option<string> {
    match w.txt(domain)
    case Found(txts) => Some(FirstRecord(txts))
    case _ => None
  }

  function RedirectTarget(terms: seq<string>): Option<string> {
    if terms == [] then None
    else if HasPrefix(terms[0], "redirect=") then Some(terms[0][9..])
    else RedirectTarget(terms[1..])
  }

  /** What one record comes to: a verdict, or another record to evaluate instead. */
  datatype Decision = Final(verdict: Verdict) | Redirect(domain: string, record: string)

  function Decide(w: World, ip: IP, domain: string, record: string): Decision {
    var terms := Fields(record);
    match MechanismVerdict(w, ip, domain, terms)
    case Some(v) => Final(v)
    case None =>
      match RedirectTarget(terms)
      case None => Final(Result(Neutral))
      case Some(target) =>
        if target == "" then Final(Result(PermError))
        else
          match LookupSPF(w, target)
          case None => Final(Result(TempError))
          case Some(found) => if found == "" then Final(Result(PermError)) else Redirect(target, found)
  }

  function Evaluate(w: World, ip: IP, domain: string, record: string, depth: nat): Verdict
    decreases if depth > 10 then 0 else 11 - depth
  {
    if depth > 10 then Result(PermError)
    else
      match Decide(w, ip, domain, record)
      case Final(v) => v
      case Redirect(d, r) => Evaluate(w, ip, d, r, depth + 1)
  }

  /** The first TXT string with the prefix, empty if no string has it, nothing if the lookup failed. */
  method LookupRecord(w: World, domain: string) returns (record: Option<string>)
    ensures record == LookupSPF(w, domain)
    ensures record.None? <==> !w.txt(domain).Found?
    ensures record == Some("") <==> w.txt(domain).Found? && forall txt <- w.txt(domain).value :: !("v=spf1" <= txt)
    ensures record.Some? && record.value != "" ==>
      exists i :: 0 <= i < |w.txt(domain).value| && record.value == w.txt(domain).value[i]
        && "v=spf1" <= record.value && forall j :: 0 <= j < i ==> !("v=spf1" <= w.txt(domain).value[j])
  {
    var txts := w.txt(domain);
    if !txts.Found? {
      return None;
    }
    for i := 0 to |txts.value|
      invariant FirstRecord(txts.value) == FirstRecord(txts.value[i..])
      invariant forall j :: 0 <= j < i ==> !("v=spf1" <= txts.value[j])
    {
      if HasPrefix(txts.value[i], "v=spf1") {
        assert txts.value[i] in txts.value;
        return Some(txts.value[i]);
      }
    }
    return Some("");
  }

  method EvaluateRecord(w: World, ip: IP, domain: string, record: string, depth: nat) returns (result: Verdict)
    ensures result == Evaluate(w, ip, domain, record, depth)
    decreases if depth > 10 then 0 else 11 - depth
  {
    hide TermVerdict;
    if depth > 10 {
      return Result(PermError);
    }
    var terms := Fields(record);
    for i := 0 to |terms|
      invariant MechanismVerdict(w, ip, domain, terms) == MechanismVerdict(w, ip, domain, terms[i..])
    {
      var verdict := EvaluateTerm(w, ip, domain, terms[i]);
      if verdict.Some? {
        return verdict.value;
      }
    }
    for i := 0 to |terms|
      invariant RedirectTarget(terms) == RedirectTarget(terms[i..])
    {
      if HasPrefix(terms[i], "redirect=") {
        var target := terms[i][9..];
        if target == "" {
          return Result(PermError);
        }
        var rec := LookupRecord(w, target);
        if rec.None? {
          return Result(TempError);
        }
        if rec.value == "" {
          return Result(PermError);
        }
        result := EvaluateRecord(w, ip, target, rec.value, depth + 1);
        return;
      }
    }
    return Result(Neutral);
  }

  /** One turn of the mechanism loop. */
  method EvaluateTerm(w: World, ip: IP, domain: string, term: string) returns (verdict: Option<Verdict>)
    ensures verdict == TermVerdict(w, ip, domain, term)
  {
    if Skipped(term) {
      return None;
    }
    var mech := MechanismOf(term);
    var outcome := Ignored;
    match Select(mech) {
      case All => outcome := Match;
      case IP4 =>
        var matches := MatchIP4(w, ip, mech[4..]);
        outcome := Matched(matches);
      case IP6 =>
        var matches := MatchIP6(w, ip, mech[4..]);
        outcome := Matched(matches);
      case BareA => outcome := MatchA(w, domain, ip);
      case ADomain => outcome := MatchA(w, mech[2..], ip);
      case AWithCIDR => outcome := if |mech| < 2 then Panic else MatchAWithCIDR(w, mech[2..], ip);
      case BareMX => outcome := MatchMX(w, domain, ip);
      case MXWithCIDR => outcome := MatchMXWithCIDR(w, mech[3..], ip);
      case _ =>
    }
    match outcome {
      case Match => return Some(Result(QualifierCode(term)));
      case DnsError => return Some(Result(TempError));
      case Panic => return Some(Crash);
      case _ => return None;
    }
  }

  method Check(w: World, ip: IP, domain: string) returns (result: Verdict)
    ensures LookupSPF(w, domain).None? ==> result == Result(TempError)
    ensures LookupSPF(w, domain) == Some("") ==> result == Result(None_)
    ensures LookupSPF(w, domain).Some? && LookupSPF(w, domain).value != "" ==>
      result == Evaluate(w, ip, domain, LookupSPF(w, domain).value, 0)
    ensures result == Crash <==>
      && LookupSPF(w, domain).Some? && LookupSPF(w, domain).value != ""
      && exists n: nat :: n <= 10 && ColonDecidesAfter(w, ip, domain, LookupSPF(w, domain).value, n)
  {
    hide Evaluate, ColonDecidesAfter;
    var record := LookupRecord(w, domain);
    if record.None? {
      return Result(TempError);
    }
    if record.value == "" {
      return Result(None_);
    }
    CheckCrashesExactly(w, ip, domain, record.value);
    result := EvaluateRecord(w, ip, domain, record.value, 0);
  }

  // ----- What an evaluation comes to -----

  /** The first term with a verdict gives the result, wherever it stands and whatever follows. */
  lemma FirstTermWins(w: World, ip: IP, domain: string, record: string, depth: nat, i: int, v: Verdict)
    requires depth <= 10 && FirstVerdictAt(w, ip, domain, Fields(record), i, v)
    ensures Evaluate(w, ip, domain, record, depth) == v
  {
    hide TermVerdict, FirstVerdictAt;
    FirstMatchDecides(w, ip, domain, Fields(record));
  }

  /** Without one, and without a redirect, the result is Neutral (section 4.7 of RFC 7208). */
  lemma NothingMatchesIsNeutral(w: World, ip: IP, domain: string, record: string, depth: nat)
    requires depth <= 10
    requires forall term <- Fields(record) :: TermVerdict(w, ip, domain, term).None? && !HasPrefix(term, "redirect=")
    ensures Evaluate(w, ip, domain, record, depth) == Result(Neutral)
  {
    hide TermVerdict;
    FirstMatchDecides(w, ip, domain, Fields(record));
    NoRedirect(Fields(record));
  }

  lemma {:induction false} NoRedirect(terms: seq<string>)
    requires forall term <- terms :: !HasPrefix(term, "redirect=")
    ensures RedirectTarget(terms).None?
  {
    if terms != [] {
      assert terms[0] in terms;
      NoRedirect(terms[1..]);
    }
  }

  /** A record with an `all` term never follows its redirect (section 5.1 of RFC 7208). */
  lemma AllStopsRedirect(w: World, ip: IP, domain: string, record: string, term: string)
    requires term in Fields(record) && MechanismOf(term) == "all"
    ensures Decide(w, ip, domain, record).Final?
  {
    assert TermVerdict(w, ip, domain, term).Some?;
    FirstMatchDecides(w, ip, domain, Fields(record));
  }

  /** Only a term whose mechanism is a bare colon makes the evaluation panic. */
  lemma CrashExactly(w: World, ip: IP, domain: string, term: string)
    ensures TermVerdict(w, ip, domain, term) == Some(Crash) <==> !Skipped(term) && MechanismOf(term) == ":"
  {
  }

  /** `n` records in a row hand on to another one. */
  predicate Redirects(w: World, ip: IP, domain: string, record: string, n: nat)
    decreases n
  {
    n == 0 ||
    match Decide(w, ip, domain, record)
    case Final(_) => false
    case Redirect(d, r) => Redirects(w, ip, d, r, n - 1)
  }

  /** After `n` redirects a record settles it with `v`. */
  predicate Settles(w: World, ip: IP, domain: string, record: string, n: nat, v: Verdict)
    decreases n
  {
    match Decide(w, ip, domain, record)
    case Final(u) => n == 0 && u == v
    case Redirect(d, r) => n > 0 && Settles(w, ip, d, r, n - 1, v)
  }

  ghost predicate SettlesWithin(w: World, ip: IP, domain: string, record: string, limit: nat, v: Verdict) {
    exists n: nat :: n < limit && Settles(w, ip, domain, record, n, v)
  }

  lemma SettlesOneLater(w: World, ip: IP, domain: string, record: string, limit: nat, v: Verdict)
    requires Decide(w, ip, domain, record).Redirect?
    ensures var next := Decide(w, ip, domain, record);
      SettlesWithin(w, ip, domain, record, limit + 1, v) <==> SettlesWithin(w, ip, next.domain, next.record, limit, v)
  {
    hide Decide;
    var Redirect(d, r) := Decide(w, ip, domain, record);
    if n: nat :| n < limit && Settles(w, ip, d, r, n, v) {
      assert Settles(w, ip, domain, record, n + 1, v);
    }
    if n: nat :| n < limit + 1 && Settles(w, ip, domain, record, n, v) {
      assert Settles(w, ip, d, r, n - 1, v);
    }
  }

  /**
    On every zone, cyclic ones included, the evaluation follows at most ten redirects: the result is what the
    chain of records settles on within those, or PermError when eleven records in a row redirect.
   */
  lemma {:induction false} RedirectChain(w: World, ip: IP, domain: string, record: string, depth: nat, v: Verdict)
    requires depth <= 11
    ensures Evaluate(w, ip, domain, record, depth) == v <==>
      || SettlesWithin(w, ip, domain, record, 11 - depth, v)
      || (v == Result(PermError) && Redirects(w, ip, domain, record, 11 - depth))
    decreases 11 - depth
  {
    hide Decide;
    if depth <= 10 {
      match Decide(w, ip, domain, record)
      case Final(u) =>
        assert Settles(w, ip, domain, record, 0, u);
      case Redirect(d, r) =>
        RedirectChain(w, ip, d, r, depth + 1, v);
        SettlesOneLater(w, ip, domain, record, 10 - depth, v);
    }
  }

  /** A record that redirects to itself ends in PermError. */
  lemma SelfRedirect(w: World, ip: IP, domain: string, record: string)
    requires Decide(w, ip, domain, record) == Redirect(domain, record)
    ensures Evaluate(w, ip, domain, record, 0) == Result(PermError)
  {
  }

  // ----- Panics -----

  /** The record's first verdict is that of a mechanism that is a lone colon. */
  ghost predicate ColonDecides(w: World, ip: IP, domain: string, record: string) {
    exists i :: ColonAt(w, ip, domain, Fields(record), i)
  }

  ghost predicate ColonAt(w: World, ip: IP, domain: string, terms: seq<string>, i: int) {
    && 0 <= i < |terms|
    && !Skipped(terms[i]) && MechanismOf(terms[i]) == ":"
    && forall j :: 0 <= j < i ==> TermVerdict(w, ip, domain, terms[j]).None?
  }

  lemma DecidesToCrash(w: World, ip: IP, domain: string, record: string)
    ensures Decide(w, ip, domain, record) == Final(Crash) <==> ColonDecides(w, ip, domain, record)
  {
    hide TermVerdict, Skipped, MechanismOf, RedirectTarget, LookupSPF;
    var terms := Fields(record);
    FirstMatchDecides(w, ip, domain, terms);
    forall i | 0 <= i < |terms|
      ensures ColonAt(w, ip, domain, terms, i) <==> FirstVerdictAt(w, ip, domain, terms, i, Crash)
    {
      CrashExactly(w, ip, domain, terms[i]);
    }
    if MechanismVerdict(w, ip, domain, terms) == Some(Crash) {
      var i := FirstVerdict(w, ip, domain, terms);
      assert FirstVerdictAt(w, ip, domain, terms, i, Crash);
    }
  }

  lemma {:induction false} FirstVerdict(w: World, ip: IP, domain: string, terms: seq<string>) returns (i: int)
    requires MechanismVerdict(w, ip, domain, terms).Some?
    ensures FirstVerdictAt(w, ip, domain, terms, i, MechanismVerdict(w, ip, domain, terms).value)
  {
    hide TermVerdict;
    if TermVerdict(w, ip, domain, terms[0]).Some? {
      i := 0;
    } else {
      var rest := terms[1..];
      var k := FirstVerdict(w, ip, domain, rest);
      i := k + 1;
      assert forall j :: 0 < j < |terms| ==> terms[j] == rest[j - 1];
    }
  }

  /** The record, and its domain, that `n` redirects lead to. */
  function RecordAfter(w: World, ip: IP, domain: string, record: string, n: nat): Option<(string, string)>
    decreases n
  {
    if n == 0 then Some((domain, record))
    else
      match Decide(w, ip, domain, record)
      case Final(_) => None
      case Redirect(d, r) => RecordAfter(w, ip, d, r, n - 1)
  }

  ghost predicate ColonDecidesAfter(w: World, ip: IP, domain: string, record: string, n: nat) {
    var last := RecordAfter(w, ip, domain, record, n);
    last.Some? && ColonDecides(w, ip, last.value.0, last.value.1)
  }

  lemma {:induction false} SettlesToCrash(w: World, ip: IP, domain: string, record: string, n: nat)
    ensures Settles(w, ip, domain, record, n, Crash) <==> ColonDecidesAfter(w, ip, domain, record, n)
    decreases n
  {
    hide Decide, ColonDecides;
    DecidesToCrash(w, ip, domain, record);
    match Decide(w, ip, domain, record)
    case Final(_) =>
    case Redirect(d, r) =>
      if n > 0 {
        SettlesToCrash(w, ip, d, r, n - 1);
      }
  }

  /** A check panics exactly if a lone colon gives the first verdict of a record within ten redirects. */
  lemma CheckCrashesExactly(w: World, ip: IP, domain: string, record: string)
    ensures Evaluate(w, ip, domain, record, 0) == Crash <==>
      exists n: nat :: n <= 10 && ColonDecidesAfter(w, ip, domain, record, n)
  {
    hide Decide, ColonDecidesAfter, Settles, Redirects, Evaluate;
    RedirectChain(w, ip, domain, record, 0, Crash);
    forall n: nat ensures Settles(w, ip, domain, record, n, Crash) <==> ColonDecidesAfter(w, ip, domain, record, n) {
      SettlesToCrash(w, ip, domain, record, n);
    }
  }
}
