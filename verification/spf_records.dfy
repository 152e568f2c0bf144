/** SPF records as text: how they are cut into terms, and what evaluating the text comes to. */
module SpfRecords {
  import opened Wrappers
  import opened Cidr
  import opened NetText
  import opened Spf
  import opened SpfFragment

  // ----- Cutting a text into words -----

  ghost predicate SpaceFree(s: string) {
    forall c <- s :: !IsSpace(c)
  }

  ghost predicate IsWord(s: string) {
    s != "" && SpaceFree(s)
  }

  lemma {:induction false} LastWord(s: string, word: string)
    requires SpaceFree(s)
    ensures Fields(s, word) == if word + s == "" then [] else [word + s]
    decreases |s|
  {
    hide IsSpace;
    if s == "" {
      assert word + s == word;
    } else {
      assert s[0] in s && (word + [s[0]]) + s[1..] == word + s;
      LastWord(s[1..], word + [s[0]]);
    }
  }

  /** A run of characters that are not spaces is one word. */
  lemma FieldsOfWord(s: string)
    requires SpaceFree(s)
    ensures Fields(s) == if s == "" then [] else [s]
  {
    LastWord(s, "");
    assert "" + s == s;
  }

  lemma {:induction false} SpaceCuts(a: string, c: char, b: string, word: string)
    requires IsSpace(c)
    ensures Fields(a + [c] + b, word) == Fields(a, word) + Fields(b)
    decreases |a|
  {
    hide IsSpace;
    var s := a + [c] + b;
    if a == "" {
      assert s[1..] == b;
    } else {
      assert s[1..] == a[1..] + [c] + b;
      SpaceCuts(a[1..], c, b, if IsSpace(a[0]) then "" else word + [a[0]]);
    }
  }

  /** A space separates, wherever it stands. */
  lemma FieldsCut(a: string, c: char, b: string)
    requires IsSpace(c)
    ensures Fields(a + [c] + b) == Fields(a) + Fields(b)
  {
    SpaceCuts(a, c, b, "");
  }

  /** The version, and each word after a single space. */
  function Text(words: seq<string>): string {
    if words == [] then "v=spf1" else Text(words[..|words| - 1]) + " " + words[|words| - 1]
  }

  lemma {:induction false} TextFields(words: seq<string>)
    requires forall word <- words :: IsWord(word)
    ensures Fields(Text(words)) == ["v=spf1"] + words
    decreases |words|
  {
    hide Fields;
    if words == [] {
      FieldsOfWord("v=spf1");
    } else {
      var init, last := words[..|words| - 1], words[|words| - 1];
      assert last in words;
      TextFields(init);
      FieldsCut(Text(init), ' ', last);
      FieldsOfWord(last);
      assert words == init + [last] && " " == [' '];
    }
  }

  // ----- Records of the fragment -----

  /** Terms as a record can hold them. */
  ghost predicate Holds(terms: seq<RfcTerm>) {
    forall t <- terms :: InFragment(t.m) && SpaceFree(ShowMechanism(t.m))
  }

  lemma ShownIsWord(t: RfcTerm)
    requires SpaceFree(ShowMechanism(t.m))
    ensures IsWord(ShowQualifier(t.q) + ShowMechanism(t.m))
  {
  }

  lemma ShownAreWords(terms: seq<RfcTerm>)
    requires Holds(terms)
    ensures forall word <- Shown(terms) :: IsWord(word)
  {
  }

  lemma RecordFields(terms: seq<RfcTerm>)
    requires Holds(terms)
    ensures Fields(Text(Shown(terms))) == ["v=spf1"] + Shown(terms)
  {
    hide Fields, Text, Shown, IsWord;
    ShownAreWords(terms);
    TextFields(Shown(terms));
  }

  /** Section 4.7 of RFC 7208: Neutral for a record without redirect none of whose mechanisms decides. */
  ghost function RfcResult(d: Decided): Verdict {
    match d
    case SyntaxError => Result(PermError)
    case ByTerm(_, v) => v
    case Undecided => Result(Neutral)
  }

  lemma VersionDecidesNothing(w: World, ip: IP, domain: string, texts: seq<string>)
    ensures CodeDecides(w, ip, domain, ["v=spf1"] + texts) == Later(CodeDecides(w, ip, domain, texts))
  {
  }

  lemma EvaluateDecided(w: World, ip: IP, domain: string, record: string, depth: nat)
    requires depth <= 10 && forall term <- Fields(record) :: !HasPrefix(term, "redirect=")
    ensures Evaluate(w, ip, domain, record, depth) == RfcResult(CodeDecides(w, ip, domain, Fields(record)))
  {
    hide Fields, CodeDecides, MechanismVerdict;
    CodeDecidesVerdict(w, ip, domain, Fields(record));
    NoRedirect(Fields(record));
  }

  lemma NoRedirectShown(terms: seq<RfcTerm>)
    ensures forall term <- ["v=spf1"] + Shown(terms) :: !HasPrefix(term, "redirect=")
  {
    hide ShowMechanism;
    forall term <- Shown(terms)
      ensures !HasPrefix(term, "redirect=")
    {
      var i :| 0 <= i < |terms| && term == Shown(terms)[i];
      FirstLetter(terms[i].m);
      assert term[0] != 'r';
    }
  }

  /**
    For the text of a record the evaluator and RFC 7208 decide by the same term alike, or both leave it open, if and
    only if the condition on its terms holds, and then the evaluation of the text has the RFC's result.
   */
  lemma RecordTextFollowsRfc(w: World, ip: IP, domain: string, terms: seq<RfcTerm>, depth: nat)
    requires Holds(terms) && depth <= 10
    ensures var record := Text(Shown(terms));
      var alike := (forall t <- terms :: IsWellFormed(w, t.m))
        && (forall i :: ReachedByRfc(w, ip, domain, terms, i) ==> CodeFollows(w, ip, domain, terms[i].m));
      && (CodeDecides(w, ip, domain, Fields(record)) == Later(RfcDecides(w, ip, domain, terms)) <==> alike)
      && (alike ==> Evaluate(w, ip, domain, record, depth) == RfcResult(RfcDecides(w, ip, domain, terms)))
  {
    hide Fields, Text, Shown, CodeDecides, RfcDecides, Evaluate, CodeFollows, ReachedByRfc, IsWellFormed, InFragment;
    var texts := Shown(terms);
    RecordFields(terms);
    VersionDecidesNothing(w, ip, domain, texts);
    RecordFollowsRfcExactly(w, ip, domain, terms);
    NoRedirectShown(terms);
    EvaluateDecided(w, ip, domain, Text(texts), depth);
    CodeDecidesVerdict(w, ip, domain, texts);
  }

  /** The text of a record with an ill-formed term is a PermError for the RFC and never for the evaluator. */
  lemma IllFormedTextDiffers(w: World, ip: IP, domain: string, terms: seq<RfcTerm>, t: RfcTerm, depth: nat)
    requires Holds(terms) && depth <= 10 && t in terms && !IsWellFormed(w, t.m)
    ensures RfcResult(RfcDecides(w, ip, domain, terms)) == Result(PermError)
    ensures Evaluate(w, ip, domain, Text(Shown(terms)), depth) != Result(PermError)
  {
    hide Fields, Text, Shown, CodeDecides, Evaluate, IsWellFormed, InFragment;
    var texts := Shown(terms);
    RecordFields(terms);
    VersionDecidesNothing(w, ip, domain, texts);
    NoRedirectShown(terms);
    EvaluateDecided(w, ip, domain, Text(texts), depth);
    CodeDecidesVerdict(w, ip, domain, texts);
    MechanismsNeverPermError(w, ip, domain, terms);
  }

  /** The verdict of a record that treats all senders alike. */
  lemma AllRecord(w: World, ip: IP, domain: string, q: Qualifier, depth: nat)
    requires depth <= 10
    ensures Evaluate(w, ip, domain, Text([ShowQualifier(q) + "all"]), depth) == Result(
      match q
      case Minus => Fail
      case Tilde => SoftFail
      case Question => Neutral
      case _ => Pass)
  {
    hide Fields, Text, TermVerdict;
    var term := ShowQualifier(q) + "all";
    assert SpaceFree(ShowMechanism(RfcAll));
    ShownIsWord(RfcTerm(q, RfcAll));
    TextFields([term]);
    TermOutcome(w, ip, domain, q, RfcAll);
    SelectsArm(RfcAll);
    VersionAlone(w, ip, domain);
    assert FirstVerdictAt(w, ip, domain, ["v=spf1", term], 1, Result(ResultOf(q)));
    FirstTermWins(w, ip, domain, Text([term]), depth, 1, Result(ResultOf(q)));
  }

  lemma VersionAlone(w: World, ip: IP, domain: string)
    ensures TermVerdict(w, ip, domain, "v=spf1").None?
  {
  }

  lemma AllTexts()
    ensures Text(["-all"]) == "v=spf1 -all" && ShowQualifier(Minus) + "all" == "-all"
    ensures Text(["~all"]) == "v=spf1 ~all" && ShowQualifier(Tilde) + "all" == "~all"
    ensures Text(["?all"]) == "v=spf1 ?all" && ShowQualifier(Question) + "all" == "?all"
  {
  }

  lemma AllRecords(w: World, ip: IP, domain: string)
    ensures Evaluate(w, ip, domain, "v=spf1 -all", 0) == Result(Fail)
    ensures Evaluate(w, ip, domain, "v=spf1 ~all", 0) == Result(SoftFail)
    ensures Evaluate(w, ip, domain, "v=spf1 ?all", 0) == Result(Neutral)
  {
    hide *;
    AllTexts();
    AllRecord(w, ip, domain, Minus, 0);
    AllRecord(w, ip, domain, Tilde, 0);
    AllRecord(w, ip, domain, Question, 0);
  }

  // ----- Redirects -----

  lemma {:induction false} FirstRedirect(terms: seq<string>, i: nat)
    requires i < |terms| && HasPrefix(terms[i], "redirect=")
    requires forall j :: 0 <= j < i ==> !HasPrefix(terms[j], "redirect=")
    ensures RedirectTarget(terms) == Some(terms[i][9..])
  {
    if i > 0 {
      FirstRedirect(terms[1..], i - 1);
    }
  }

  /** Neither modifier decides anything where it stands. */
  lemma ModifiersDecideNothing(w: World, ip: IP, domain: string, text: string)
    ensures TermVerdict(w, ip, domain, "redirect=" + text).None?
    ensures TermVerdict(w, ip, domain, "exp=" + text).None?
  {
  }

  /**
    When no term decides, the first redirect does: PermError without a target or a record there, TempError if the
    lookup fails, otherwise what the first record found there comes to, one level deeper.
   */
  lemma RedirectOutcome(w: World, ip: IP, domain: string, record: string, depth: nat, i: nat, target: string)
    requires depth <= 10 && i < |Fields(record)| && Fields(record)[i] == "redirect=" + target
    requires forall term <- Fields(record) :: TermVerdict(w, ip, domain, term).None?
    requires forall j :: 0 <= j < i ==> !HasPrefix(Fields(record)[j], "redirect=")
    ensures target == "" ==> Evaluate(w, ip, domain, record, depth) == Result(PermError)
    ensures target != "" && !w.txt(target).Found? ==> Evaluate(w, ip, domain, record, depth) == Result(TempError)
    ensures target != "" && w.txt(target).Found? && (forall txt <- w.txt(target).value :: !HasPrefix(txt, "v=spf1")) ==>
      Evaluate(w, ip, domain, record, depth) == Result(PermError)
    ensures target != "" && w.txt(target).Found? ==>
      forall k :: FirstWithVersion(w.txt(target).value, k) ==>
        Evaluate(w, ip, domain, record, depth) == Evaluate(w, ip, target, w.txt(target).value[k], depth + 1)
  {
    hide TermVerdict, Fields;
    var terms := Fields(record);
    FirstMatchDecides(w, ip, domain, terms);
    FirstRedirect(terms, i);
    assert terms[i][9..] == target;
    if w.txt(target).Found? {
      FirstRecordFound(w.txt(target).value);
    }
  }

  ghost predicate FirstWithVersion(txts: seq<string>, k: int) {
    && 0 <= k < |txts| && HasPrefix(txts[k], "v=spf1")
    && forall j :: 0 <= j < k ==> !HasPrefix(txts[j], "v=spf1")
  }

  lemma {:induction false} FirstRecordFound(txts: seq<string>)
    ensures (forall txt <- txts :: !HasPrefix(txt, "v=spf1")) ==> FirstRecord(txts) == ""
    ensures forall k :: FirstWithVersion(txts, k) ==> FirstRecord(txts) == txts[k] && txts[k] != ""
  {
    if txts != [] {
      FirstRecordFound(txts[1..]);
      forall k | FirstWithVersion(txts, k)
        ensures FirstRecord(txts) == txts[k] && txts[k] != ""
      {
        assert k > 0 ==> FirstWithVersion(txts[1..], k - 1);
      }
    }
  }

  /** The redirect may stand anywhere among the terms of the record. */
  lemma RedirectingText(w: World, ip: IP, domain: string, before: seq<RfcTerm>, target: string, after: seq<RfcTerm>)
    requires Holds(before) && Holds(after) && SpaceFree(target)
    ensures var words := Shown(before) + ["redirect=" + target] + Shown(after);
      && Fields(Text(words)) == ["v=spf1"] + words
      && Fields(Text(words))[1 + |before|] == "redirect=" + target
      && forall j :: 0 <= j < 1 + |before| ==> !HasPrefix(Fields(Text(words))[j], "redirect=")
  {
    hide Fields, Text, ShowMechanism, ShowQualifier, IsSpace;
    var redirect := "redirect=" + target;
    var words := Shown(before) + [redirect] + Shown(after);
    ShownAreWords(before);
    ShownAreWords(after);
    RedirectIsWord(target);
    NoRedirectShown(before);
    TextFields(words);
    assert forall j :: 0 <= j < 1 + |before| ==> (["v=spf1"] + words)[j] == (["v=spf1"] + Shown(before))[j];
  }

  lemma RedirectIsWord(target: string)
    requires SpaceFree(target)
    ensures IsWord("redirect=" + target)
  {
  }

  // ----- Forms the evaluator reads in its own way -----

  /** Whether an address record of `name` lies in the sender's network of this length. */
  ghost predicate NearAddress(w: World, ip: IP, name: string, bits: int) {
    exists a :: w.addr(name).Found? && a in w.addr(name).value && SameNetwork(Canonical(ip), Canonical(a), bits)
  }

  /** Every other mechanism with a colon is an `a` with its first two characters cut off, up to a slash. */
  lemma ColonFormReads(w: World, ip: IP, domain: string, mech: string, name: string, bits: int)
    requires |mech| >= 2 && ':' in mech && mech[..2] != "a:" && !HasPrefix(mech, "ip4:") && !HasPrefix(mech, "ip6:")
    requires ReadsAs(mech[2..], ip, name, bits)
    ensures Mechanism(w, ip, domain, mech) ==
      if !w.addr(name).Found? then DnsError else if NearAddress(w, ip, name, bits) then Match else NoMatch
  {
    hide Atoi, SameNetwork, To4, To16, InIP4, InIP6;
    ReadsAsReads(w, mech[2..], ip, name, bits);
    assert mech != "all" && mech != "a" && mech != "mx" by {
      assert ':' !in "all" && ':' !in "a";
    }
  }

  /** An argument names `name` and this length, or none, or one that is no number. */
  ghost predicate ReadsAs(arg: string, ip: IP, name: string, bits: int) {
    && '/' !in name
    && (|| (arg == name && bits == DefaultLength(ip))
        || (exists length :: arg == name + "/" + length
              && bits == if Atoi(length).Some? then Atoi(length).value else DefaultLength(ip)))
  }

  function DefaultLength(ip: IP): int {
    if |ip| == 16 && ip[..12] != MAPPED then 128 else 32
  }

  lemma ReadsAsReads(w: World, arg: string, ip: IP, name: string, bits: int)
    requires ReadsAs(arg, ip, name, bits)
    ensures DomainAndLength(w, arg, ip) == (name, bits)
  {
    hide Atoi;
    if arg == name && bits == DefaultLength(ip) {
      NoSlash(arg);
    } else {
      var length :| arg == name + "/" + length
        && bits == if Atoi(length).Some? then Atoi(length).value else DefaultLength(ip);
      assert arg[..|name|] == name && arg[|name| + 1..] == length;
      SlashIs(arg, |name|);
    }
  }

  /** So `mx:` and `include:` look up addresses of names nobody wrote. */
  lemma MisreadForms(w: World, ip: IP, domain: string, target: string)
    requires '/' !in target
    ensures Mechanism(w, ip, domain, "mx:" + target) ==
      if !w.addr(":" + target).Found? then DnsError
      else if NearAddress(w, ip, ":" + target, DefaultLength(ip)) then Match else NoMatch
    ensures Mechanism(w, ip, domain, "include:" + target) ==
      if !w.addr("clude:" + target).Found? then DnsError
      else if NearAddress(w, ip, "clude:" + target, DefaultLength(ip)) then Match else NoMatch
  {
    hide Mechanism, ReadsAs, DefaultLength, NearAddress;
    MisreadText(ip, "mx:", target);
    ColonFormReads(w, ip, domain, "mx:" + target, ":" + target, DefaultLength(ip));
    MisreadText(ip, "include:", target);
    ColonFormReads(w, ip, domain, "include:" + target, "clude:" + target, DefaultLength(ip));
  }

  lemma MisreadText(ip: IP, keyword: string, target: string)
    requires (keyword == "mx:" || keyword == "include:") && '/' !in target
    ensures var mech := keyword + target;
      && |mech| >= 2 && ':' in mech && mech[..2] != "a:" && !HasPrefix(mech, "ip4:") && !HasPrefix(mech, "ip6:")
      && mech[2..] == (if keyword == "mx:" then ":" else "clude:") + target
      && ReadsAs(mech[2..], ip, mech[2..], DefaultLength(ip))
  {
    hide IsSpace, Atoi, DefaultLength;
    var mech := keyword + target;
    assert mech[|keyword| - 1] == ':' && (mech[0] == 'm' || mech[1] == 'n');
    assert forall c <- mech[2..] :: c in "clude:" || c in target;
  }

  /** A length on `a` or `mx` becomes the name that is looked up. */
  lemma LengthForms(w: World, ip: IP, domain: string, length: string)
    requires '/' !in length && ':' !in length
    ensures Mechanism(w, ip, domain, "a/" + length) ==
      if !w.addr(length).Found? then DnsError
      else if NearAddress(w, ip, length, DefaultLength(ip)) then Match else NoMatch
    ensures Mechanism(w, ip, domain, "mx/" + length) ==
      if !w.mx(length).Found? then DnsError
      else if exists host :: host in w.mx(length).value && NearAddress(w, ip, host, DefaultLength(ip)) then Match
      else NoMatch
  {
    hide Atoi, SameNetwork, To4, To16, InIP4, InIP6, DefaultLength, AnyInNetwork, NearAddress;
    SelectsLengthForms(length);
    assert ReadsAs(length, ip, length, DefaultLength(ip));
    ReadsAsReads(w, length, ip, length, DefaultLength(ip));
    NearAddressIs(w, ip, length, DefaultLength(ip));
    if w.mx(length).Found? {
      NearHosts(w, ip, w.mx(length).value, DefaultLength(ip));
    }
  }

  lemma SelectsLengthForms(length: string)
    requires ':' !in length
    ensures Select("a/" + length) == AWithCIDR && ("a/" + length)[2..] == length
    ensures Select("mx/" + length) == MXWithCIDR && ("mx/" + length)[3..] == length
  {
    var a, mx := "a/" + length, "mx/" + length;
    assert a[0] == 'a' && a[1] == '/';
    assert mx[0] == 'm' && mx[1] == 'x' && mx[2] == '/' && ':' !in mx;
  }

  lemma NearAddressIs(w: World, ip: IP, name: string, bits: int)
    ensures w.addr(name).Found? ==> (AnyInNetwork(w.addr(name).value, ip, bits) <==> NearAddress(w, ip, name, bits))
  {
  }

  lemma {:induction false} NearHosts(w: World, ip: IP, hosts: seq<string>, bits: int)
    ensures AnyInNetwork(MxAddresses(w, hosts), ip, bits) <==>
      exists host :: host in hosts && NearAddress(w, ip, host, bits)
  {
    hide SameNetwork, Canonical;
    if hosts != [] {
      var rest := hosts[1..];
      NearHosts(w, ip, rest, bits);
      NearAddressIs(w, ip, hosts[0], bits);
      var own := if w.addr(hosts[0]).Found? then w.addr(hosts[0]).value else [];
      assert forall a :: a in own + MxAddresses(w, rest) <==> a in own || a in MxAddresses(w, rest);
      assert AnyInNetwork(own + MxAddresses(w, rest), ip, bits) <==>
        AnyInNetwork(own, ip, bits) || AnyInNetwork(MxAddresses(w, rest), ip, bits);
      assert forall host :: host in hosts <==> host == hosts[0] || host in rest;
    }
  }

  /** What is none of these is ignored. */
  lemma OthersAreIgnored(w: World, ip: IP, domain: string, mech: string)
    requires ':' !in mech && '/' !in mech && mech != "all" && mech != "a" && mech != "mx"
    ensures Mechanism(w, ip, domain, mech) == Ignored
  {
    hide InIP4, InIP6, MatchAWithCIDR, MatchMXWithCIDR, MatchA, MatchMX;
    SelectsNothing(mech);
  }

  lemma SelectsNothing(mech: string)
    requires ':' !in mech && '/' !in mech && mech != "all" && mech != "a" && mech != "mx"
    ensures Select(mech) == Unknown
  {
    assert |mech| > 1 ==> mech[1] != ':' && mech[1] != '/';
    assert |mech| > 2 ==> mech[2] != ':' && mech[2] != '/';
    assert |mech| > 3 ==> mech[3] != ':';
    assert |mech| > 7 ==> mech[7] != ':';
  }
}
