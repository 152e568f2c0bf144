/** Whole runs of DMARC report cycles, with results arriving between any two statements. */
module DmarcRuns {
  import opened Wrappers
  import opened DmarcResults
  import opened DmarcReports

  datatype Phase = Idle | Cycle(todo: seq<string>, reported: seq<string>)

  /** `seen` records, for each domain reported on in this cycle, the newest row at that moment; no step reads it. */
  datatype State = State(rows: seq<Row>, lastId: nat, phase: Phase, reports: seq<Report>, seen: map<string, nat>)

  datatype Event =
    | Insert(row: Row)
    | Begin
    | Attempt(lookup: Lookup)
    | EndCycle(marked: bool)

  const Start := State([], 0, Idle, [], map[])

  predicate Enabled(s: State, e: Event) {
    match e
    case Insert(row) => row.id == s.lastId + 1 && !row.sent
    case Begin => s.phase.Idle?
    case Attempt(_) => s.phase.Cycle? && s.phase.todo != []
    case EndCycle(_) => s.phase.Cycle? && s.phase.todo == []
  }

  function Attempted(s: State, lookup: Lookup): State
    requires Enabled(s, Attempt(lookup))
  {
    var domain, todo := s.phase.todo[0], s.phase.todo[1..];
    if lookup.Fails? then s.(phase := Cycle(todo, s.phase.reported))
    else
      var t := s.(phase := Cycle(todo, s.phase.reported + [domain]));
      if lookup.Rua? && OfDomain(Aggregated(s.rows), domain) != []
      then t.(reports := s.reports + [ReportOn(s.rows, domain)], seen := s.seen[domain := s.lastId])
      else t
  }

  function Apply(s: State, e: Event): State
    requires Enabled(s, e)
  {
    match e
    case Insert(row) => s.(rows := s.rows + [row], lastId := row.id)
    case Begin => if Domains(s.rows) == [] then s else s.(phase := Cycle(Domains(s.rows), []))
    case Attempt(lookup) => Attempted(s, lookup)
    case EndCycle(marked) =>
      s.(rows := if marked then Marked(s.rows, s.phase.reported) else s.rows, phase := Idle, seen := map[])
  }

  ghost predicate IsRun(states: seq<State>, events: seq<Event>) {
    && |states| == |events| + 1
    && states[0] == Start
    && forall i :: 0 <= i < |events| ==> Enabled(states[i], events[i]) && states[i + 1] == Apply(states[i], events[i])
  }

  /** Marking never fails. */
  ghost predicate AlwaysMarked(events: seq<Event>) {
    forall e <- events :: e.EndCycle? ==> e.marked
  }

  /** In how many reports the row is counted. */
  function Times(reports: seq<Report>, id: nat): nat {
    if reports == [] then 0
    else Times(reports[..|reports| - 1], id) + if id in reports[|reports| - 1].ids then 1 else 0
  }

  ghost predicate SeenAt(s: State, r: Row) {
    r.domain in s.seen && r.id <= s.seen[r.domain]
  }

  /** How often marking has failed. */
  function Failures(events: seq<Event>): nat {
    if events == [] then 0
    else Failures(events[..|events| - 1]) + if events[|events| - 1] == EndCycle(false) then 1 else 0
  }

  lemma {:induction false} NoFailures(events: seq<Event>)
    requires AlwaysMarked(events)
    ensures Failures(events) == 0
  {
    if events != [] {
      assert events[|events| - 1] in events;
      assert forall e <- events[..|events| - 1] :: e in events;
      NoFailures(events[..|events| - 1]);
    }
  }

  /** After `failures` failed markings. */
  ghost predicate RowOk(s: State, r: Row, failures: nat) {
    && Times(s.reports, r.id) <= failures + 1
    && (!r.sent ==> Times(s.reports, r.id) <= failures + if SeenAt(s, r) then 1 else 0)
    && (!r.sent && SeenAt(s, r) ==> Times(s.reports, r.id) >= 1)
  }

  ghost predicate PhaseOk(s: State) {
    && (s.phase.Idle? ==> s.seen == map[])
    && (s.phase.Cycle? ==> NoRepeats(s.phase.reported + s.phase.todo) && forall d <- s.seen :: d in s.phase.reported)
    && forall d <- s.seen :: s.seen[d] <= s.lastId
  }

  ghost predicate Inv(s: State, failures: nat) {
    && Increasing(s.rows, s.lastId)
    && (forall report <- s.reports, id <- report.ids :: id <= s.lastId)
    && PhaseOk(s)
    && forall r <- s.rows :: RowOk(s, r, failures)
  }

  lemma {:induction false} NotCounted(reports: seq<Report>, id: nat)
    requires forall report <- reports :: id !in report.ids
    ensures Times(reports, id) == 0
  {
    if reports != [] {
      NotCounted(reports[..|reports| - 1], id);
    }
  }

  lemma NextIsNew(s: State)
    requires PhaseOk(s) && s.phase.Cycle? && s.phase.todo != []
    ensures s.phase.todo[0] !in s.phase.reported && s.phase.todo[0] !in s.seen
  {
    var all := s.phase.reported + s.phase.todo;
    assert all[|s.phase.reported|] == s.phase.todo[0];
    assert forall i :: 0 <= i < |s.phase.reported| ==> all[i] == s.phase.reported[i];
  }

  lemma AttemptOnRow(s: State, lookup: Lookup, r: Row, failures: nat)
    requires Inv(s, failures) && Enabled(s, Attempt(lookup)) && r in s.rows
    ensures RowOk(Attempted(s, lookup), r, failures)
  {
    var t, domain := Attempted(s, lookup), s.phase.todo[0];
    if t.reports != s.reports {
      assert t.reports[..|s.reports|] == s.reports;
      UnsentIds(s.rows, domain, s.lastId);
      NextIsNew(s);
    }
  }

  lemma AttemptKeepsPhase(s: State, lookup: Lookup)
    requires PhaseOk(s) && Enabled(s, Attempt(lookup))
    ensures PhaseOk(Attempted(s, lookup))
  {
    hide Aggregated, OfDomain, ReportOn;
    var t, was, k := Attempted(s, lookup), s.phase.reported + s.phase.todo, |s.phase.reported|;
    if lookup.Fails? {
      assert t.phase.reported + t.phase.todo == was[..k] + was[k + 1..];
    } else {
      assert t.phase.reported + t.phase.todo == was;
    }
  }

  lemma AttemptKeeps(s: State, lookup: Lookup, failures: nat)
    requires Inv(s, failures) && Enabled(s, Attempt(lookup))
    ensures Inv(Attempted(s, lookup), failures)
  {
    hide RowOk, PhaseOk, Aggregated, OfDomain;
    var t := Attempted(s, lookup);
    UnsentIds(s.rows, s.phase.todo[0], s.lastId);
    AttemptKeepsPhase(s, lookup);
    forall r <- t.rows ensures RowOk(t, r, failures) {
      AttemptOnRow(s, lookup, r, failures);
    }
  }

  lemma MarkKeeps(s: State, marked: bool, failures: nat)
    requires Inv(s, failures) && Enabled(s, EndCycle(marked))
    ensures Inv(Apply(s, EndCycle(marked)), failures + if marked then 0 else 1)
  {
    var t := Apply(s, EndCycle(marked));
    forall i | 0 <= i < |t.rows| ensures RowOk(t, t.rows[i], failures + if marked then 0 else 1) {
      assert RowOk(s, s.rows[i], failures);
    }
  }

  lemma InsertKeeps(s: State, row: Row, failures: nat)
    requires Inv(s, failures) && Enabled(s, Insert(row))
    ensures Inv(Apply(s, Insert(row)), failures)
  {
    NotCounted(s.reports, row.id);
    var t := Apply(s, Insert(row));
    forall r <- t.rows ensures RowOk(t, r, failures) {
      assert r in s.rows ==> RowOk(s, r, failures);
    }
  }

  lemma BeginKeeps(s: State, failures: nat)
    requires Inv(s, failures) && Enabled(s, Begin)
    ensures Inv(Apply(s, Begin), failures)
  {
    DomainsOnce(s.rows);
    assert [] + Domains(s.rows) == Domains(s.rows);
    var t := Apply(s, Begin);
    forall r <- t.rows ensures RowOk(t, r, failures) {
      assert RowOk(s, r, failures);
    }
  }

  lemma StepKeeps(s: State, e: Event, failures: nat)
    requires Inv(s, failures) && Enabled(s, e)
    ensures Inv(Apply(s, e), failures + if e == EndCycle(false) then 1 else 0)
  {
    hide Inv;
    match e
    case Insert(row) => InsertKeeps(s, row, failures);
    case Begin => BeginKeeps(s, failures);
    case Attempt(lookup) => AttemptKeeps(s, lookup, failures);
    case EndCycle(marked) => MarkKeeps(s, marked, failures);
  }

  lemma {:induction false} RunKeeps(states: seq<State>, events: seq<Event>)
    requires IsRun(states, events)
    ensures Inv(states[|events|], Failures(events))
  {
    if events != [] {
      var n := |events| - 1;
      RunKeeps(states[..|states| - 1], events[..n]);
      StepKeeps(states[n], events[n], Failures(events[..n]));
    }
  }

  /** In every run, a row is counted in at most one report more than marking failed. */
  lemma CountedOncePerFailure(states: seq<State>, events: seq<Event>)
    requires IsRun(states, events)
    ensures forall r <- states[|events|].rows :: Times(states[|events|].reports, r.id) <= 1 + Failures(events)
  {
    RunKeeps(states, events);
    forall r <- states[|events|].rows ensures Times(states[|events|].reports, r.id) <= 1 + Failures(events) {
      assert RowOk(states[|events|], r, Failures(events));
    }
  }

  /** No row is counted in two reports. */
  lemma CountedAtMostOnce(states: seq<State>, events: seq<Event>)
    requires IsRun(states, events) && AlwaysMarked(events)
    ensures forall r <- states[|events|].rows :: Times(states[|events|].reports, r.id) <= 1
  {
    NoFailures(events);
    CountedOncePerFailure(states, events);
  }

  /** Each report counts its unsent rows, none of which any report of the run counted before. */
  lemma ReportsAreNews(states: seq<State>, events: seq<Event>, lookup: Lookup)
    requires IsRun(states, events) && AlwaysMarked(events) && Enabled(states[|events|], Attempt(lookup))
    ensures var s := states[|events|]; var domain := s.phase.todo[0];
            Attempted(s, lookup).reports == s.reports ||
            (&& Attempted(s, lookup).reports == s.reports + [ReportOn(s.rows, domain)]
             && Counted(ReportOn(s.rows, domain).records) == |Unsent(s.rows, domain)| > 0
             && forall id <- ReportOn(s.rows, domain).ids :: Times(s.reports, id) == 0)
  {
    NoFailures(events);
    RunKeeps(states, events);
    var s := states[|events|];
    var domain := s.phase.todo[0];
    ReportCountsItsRows(s.rows, domain, s.lastId);
    CountedTotal(Aggregated(s.rows), domain);
    NextIsNew(s);
    UnsentMembers(s.rows, domain);
    UnsentIds(s.rows, domain, s.lastId);
    forall id <- ReportOn(s.rows, domain).ids ensures Times(s.reports, id) == 0 {
      var r :| r in Unsent(s.rows, domain) && r.id == id;
      assert RowOk(s, r, 0);
    }
  }

  /** A row about to be marked goes unreported exactly if its domain made no report, or made it before the row came. */
  lemma MarkedUnreported(states: seq<State>, events: seq<Event>, r: Row)
    requires IsRun(states, events) && AlwaysMarked(events) && Enabled(states[|events|], EndCycle(true))
    requires r in states[|events|].rows && !r.sent
    ensures var s := states[|events|];
            Times(s.reports, r.id) == 0 <==> r.domain !in s.seen || s.seen[r.domain] < r.id
  {
    NoFailures(events);
    RunKeeps(states, events);
    assert RowOk(states[|events|], r, 0);
  }

  /** Once marked, a row that no report counts is never counted. */
  lemma SentStaysSent(s: State, e: Event, r: Row)
    requires Increasing(s.rows, s.lastId) && Enabled(s, e) && r in s.rows && r.sent
    ensures r in Apply(s, e).rows && Times(Apply(s, e).reports, r.id) == Times(s.reports, r.id)
  {
    match e
    case Insert(_) =>
    case Begin =>
    case Attempt(lookup) =>
      var t := Attempted(s, lookup);
      if t.reports != s.reports {
        UnsentIds(s.rows, s.phase.todo[0], s.lastId);
        assert t.reports[..|s.reports|] == s.reports;
      }
    case EndCycle(_) =>
      var i :| 0 <= i < |s.rows| && s.rows[i] == r;
      assert Apply(s, e).rows[i] == r;
  }

  lemma {:induction false} SentForever(states: seq<State>, events: seq<Event>, k: nat, r: Row)
    requires IsRun(states, events) && k <= |events| && r in states[k].rows && r.sent
    ensures r in states[|events|].rows && Times(states[|events|].reports, r.id) == Times(states[k].reports, r.id)
  {
    if k < |events| {
      var n := |events| - 1;
      SentForever(states[..|states| - 1], events[..n], k, r);
      RunKeeps(states[..|states| - 1], events[..n]);
      SentStaysSent(states[n], events[n], r);
    }
  }

  /** A result that comes after its domain's report and before the marking is lost. */
  lemma LateRowIsLost(states: seq<State>, events: seq<Event>, r: Row)
    requires IsRun(states, events) && AlwaysMarked(events) && Enabled(states[|events|], EndCycle(true))
    requires Enabled(states[|events|], Insert(r)) && r.domain in states[|events|].phase.reported
    ensures var t := Apply(Apply(states[|events|], Insert(r)), EndCycle(true));
            r.(sent := true) in t.rows && Times(t.reports, r.id) == 0
  {
    NoFailures(events);
    RunKeeps(states, events);
    var s := states[|events|];
    NotCounted(s.reports, r.id);
    var t := Apply(Apply(s, Insert(r)), EndCycle(true));
    assert t.rows[|s.rows|] == r.(sent := true);
  }

  lemma OneRow(r: Row)
    requires r.id == 1 && !r.sent
    ensures Domains([r]) == [r.domain] && OfDomain(Aggregated([r]), r.domain) != []
    ensures ReportOn([r], r.domain).ids == {1}
  {
    DomainsOnce([r]);
    CountsPositive([r], r.domain);
    DomainTotal([r], r.domain);
    UnsentMembers([r], r.domain);
    assert [r][..0] == [] && r in Unsent([r], r.domain);
  }

  lemma AttemptOnOneRow(r: Row, reports: seq<Report>)
    requires r.id == 1 && !r.sent
    ensures Attempted(State([r], 1, Cycle([r.domain], []), reports, map[]), Rua)
            == State([r], 1, Cycle([], [r.domain]), reports + [ReportOn([r], r.domain)], map[r.domain := 1])
  {
    hide Domains, OfDomain, Aggregated, ReportOn;
    OneRow(r);
    assert [r.domain][1..] == [] && [] + [r.domain] == [r.domain];
  }

  /** One row, counted in `n` reports by cycles whose marking failed, and then once more. */
  ghost predicate Recounts(states: seq<State>, events: seq<Event>, r: Row, n: nat) {
    && IsRun(states, events) && Failures(events) == n
    && Times(states[|events|].reports, 1) == n + 1
    && states[|events|] == State([r], 1, Cycle([], [r.domain]), states[|events|].reports, map[r.domain := 1])
  }

  lemma FailuresSnoc(events: seq<Event>, e: Event)
    ensures Failures(events + [e]) == Failures(events) + if e == EndCycle(false) then 1 else 0
  {
    assert (events + [e])[..|events|] == events;
  }

  lemma TimesSnoc(reports: seq<Report>, report: Report, id: nat)
    ensures Times(reports + [report], id) == Times(reports, id) + if id in report.ids then 1 else 0
  {
    assert (reports + [report])[..|reports|] == reports;
  }

  lemma RunSnoc(states: seq<State>, events: seq<Event>, e: Event)
    requires IsRun(states, events) && Enabled(states[|events|], e)
    ensures IsRun(states + [Apply(states[|events|], e)], events + [e])
  {
    hide Enabled, Apply;
  }

  lemma FirstReport(r: Row) returns (states: seq<State>, events: seq<Event>)
    requires r.id == 1 && !r.sent
    ensures Recounts(states, events, r, 0)
  {
    hide Domains, OfDomain, Aggregated, ReportOn, Times, Attempted;
    OneRow(r);
    AttemptOnOneRow(r, []);
    events := [Insert(r), Begin, Attempt(Rua)];
    var report := ReportOn([r], r.domain);
    states := [
      Start,
      State([r], 1, Idle, [], map[]),
      State([r], 1, Cycle([r.domain], []), [], map[]),
      State([r], 1, Cycle([], [r.domain]), [report], map[r.domain := 1])];
    assert Apply(states[0], events[0]) == states[1];
    assert Apply(states[1], events[1]) == states[2];
    TimesSnoc([], report, 1);
    NothingCounted();
    NoFailures(events);
    assert [] + [report] == [report];
  }

  lemma NothingCounted()
    ensures Times([], 1) == 0
  {
  }

  /** The bound is tight: with the same row, every failed marking costs one more report. */
  lemma {:induction false} FailedMarksCountAgain(r: Row, n: nat) returns (states: seq<State>, events: seq<Event>)
    requires r.id == 1 && !r.sent
    ensures Recounts(states, events, r, n)
  {
    hide Domains, OfDomain, Aggregated, ReportOn, Times, Attempted, Failures;
    if n == 0 {
      states, events := FirstReport(r);
    } else {
      var before, es := FailedMarksCountAgain(r, n - 1);
      states, events := OneMoreCycle(before, es, r, n - 1);
    }
  }

  lemma OneMoreCycle(before: seq<State>, es: seq<Event>, r: Row, n: nat) returns (states: seq<State>, events: seq<Event>)
    requires r.id == 1 && !r.sent && Recounts(before, es, r, n)
    ensures Recounts(states, events, r, n + 1)
  {
    hide Domains, OfDomain, Aggregated, ReportOn, Times, Attempted, Failures;
    OneRow(r);
    var reports := before[|es|].reports;
    var idle := State([r], 1, Idle, reports, map[]);
    var todo := State([r], 1, Cycle([r.domain], []), reports, map[]);
    assert Apply(before[|es|], EndCycle(false)) == idle && Apply(idle, Begin) == todo;
    RunSnoc(before, es, EndCycle(false));
    RunSnoc(before + [idle], es + [EndCycle(false)], Begin);
    AttemptOnOneRow(r, reports);
    RunSnoc(before + [idle] + [todo], es + [EndCycle(false)] + [Begin], Attempt(Rua));
    events := es + [EndCycle(false)] + [Begin] + [Attempt(Rua)];
    states := before + [idle] + [todo] + [Attempted(todo, Rua)];
    FailuresSnoc(es, EndCycle(false));
    FailuresSnoc(es + [EndCycle(false)], Begin);
    FailuresSnoc(es + [EndCycle(false)] + [Begin], Attempt(Rua));
    TimesSnoc(reports, ReportOn([r], r.domain), 1);
  }

  // ----- A cycle that nothing comes between -----

  /** A domain the DNS is not asked about counts as failed. */
  function Answer(lookup: map<string, Lookup>, domain: string): Lookup {
    if domain in lookup then lookup[domain] else Fails
  }

  /** The attempts of a cycle, one after the other. */
  function AllAttempted(s: State, lookup: map<string, Lookup>): State
    requires s.phase.Cycle?
    decreases |s.phase.todo|
  {
    if s.phase.todo == [] then s
    else AllAttempted(Attempted(s, Answer(lookup, s.phase.todo[0])), lookup)
  }

  lemma {:induction false} ReportedFirst(domain: string, rest: seq<string>, lookup: map<string, Lookup>)
    ensures Reported([domain] + rest, lookup)
         == (if domain in lookup && lookup[domain] != Fails then [domain] else []) + Reported(rest, lookup)
  {
    var all := [domain] + rest;
    if rest == [] {
      assert all[..0] == [];
    } else {
      assert all[..|all| - 1] == [domain] + rest[..|rest| - 1];
      ReportedFirst(domain, rest[..|rest| - 1], lookup);
    }
  }

  lemma {:induction false} ReportsFirst(rows: seq<Row>, domain: string, rest: seq<string>, lookup: map<string, Lookup>)
    ensures Reports(rows, [domain] + rest, lookup)
         == (if domain in lookup && lookup[domain] == Rua && OfDomain(Aggregated(rows), domain) != []
             then [ReportOn(rows, domain)] else [])
            + Reports(rows, rest, lookup)
  {
    hide OfDomain, Aggregated, ReportOn;
    var all := [domain] + rest;
    if rest == [] {
      assert all[..0] == [];
    } else {
      assert all[..|all| - 1] == [domain] + rest[..|rest| - 1];
      ReportsFirst(rows, domain, rest[..|rest| - 1], lookup);
    }
  }

  lemma OneAttempt(s: State, lookup: map<string, Lookup>)
    requires s.phase.Cycle? && s.phase.todo != []
    ensures var t := Attempted(s, Answer(lookup, s.phase.todo[0]));
      && t.rows == s.rows && t.lastId == s.lastId && t.phase.Cycle? && t.phase.todo == s.phase.todo[1..]
      && t.phase.reported + Reported(s.phase.todo[1..], lookup) == s.phase.reported + Reported(s.phase.todo, lookup)
      && t.reports + Reports(s.rows, s.phase.todo[1..], lookup) == s.reports + Reports(s.rows, s.phase.todo, lookup)
  {
    hide OfDomain, Aggregated, ReportOn, Reported, Reports;
    var domain, rest := s.phase.todo[0], s.phase.todo[1..];
    assert s.phase.todo == [domain] + rest;
    ReportedFirst(domain, rest, lookup);
    ReportsFirst(s.rows, domain, rest, lookup);
  }

  lemma {:induction false} AttemptsInOneGo(s: State, lookup: map<string, Lookup>)
    requires s.phase.Cycle?
    ensures var t := AllAttempted(s, lookup);
      && t.rows == s.rows && t.lastId == s.lastId
      && t.phase == Cycle([], s.phase.reported + Reported(s.phase.todo, lookup))
      && t.reports == s.reports + Reports(s.rows, s.phase.todo, lookup)
    decreases |s.phase.todo|
  {
    hide Attempted;
    if s.phase.todo == [] {
      assert s.phase.reported + [] == s.phase.reported && s.reports + [] == s.reports;
    } else {
      hide Reported, Reports;
      OneAttempt(s, lookup);
      AttemptsInOneGo(Attempted(s, Answer(lookup, s.phase.todo[0])), lookup);
    }
  }

  /** Event by event, such a cycle does to reports and rows what the sequential one does. */
  lemma CycleInOneGo(s: State, lookup: map<string, Lookup>)
    requires s.phase.Idle? && Domains(s.rows) != []
    ensures Enabled(s, Begin) && Apply(s, Begin).phase.Cycle?
    ensures var t := AllAttempted(Apply(s, Begin), lookup);
      && Enabled(t, EndCycle(true))
      && Apply(t, EndCycle(true)).phase.Idle?
      && Apply(t, EndCycle(true)).reports == s.reports + Reports(s.rows, Domains(s.rows), lookup)
      && Apply(t, EndCycle(true)).rows == Marked(s.rows, Reported(Domains(s.rows), lookup))
  {
    hide Domains, Reported, Reports, AllAttempted, Marked;
    AttemptsInOneGo(Apply(s, Begin), lookup);
    assert [] + Reported(Domains(s.rows), lookup) == Reported(Domains(s.rows), lookup);
  }
}
