/** The DMARC report cycle (pkg/dmarc/report.go): one statement at a time, among inserts by other goroutines. */
module DmarcReports {
  import opened Wrappers
  import opened DmarcResults

  /** What the DNS says about a domain's DMARC policy. */
  datatype Lookup = Fails | NoPolicy | NoRua | Rua

  /** One record of a report, with the results it claims. */
  datatype Record = Record(sourceIP: string, count: nat, disposition: string, dkim: string, spf: string)

  /** `ids` are the rows the report was computed from; nothing reads them. */
  datatype Report = Report(domain: string, records: seq<Record>, ids: set<nat>)

  function Evaluation(passes: nat, failures: nat): string {
    if passes > 0 && failures == 0 then "pass"
    else if passes > 0 && failures > 0 then "pass"
    else "fail"
  }

  function RecordOf(g: Group): Record {
    Record(g.key.sourceIP, g.count, if g.key.disposition == "" then "none" else g.key.disposition,
           Evaluation(g.dkimPass, g.dkimFail), Evaluation(g.spfPass, g.spfFail))
  }

  function RecordsOf(groups: seq<Group>, domain: string): seq<Record> {
    if groups == [] then []
    else
      var last := groups[|groups| - 1];
      RecordsOf(groups[..|groups| - 1], domain) + if last.key.domain == domain then [RecordOf(last)] else []
  }

  function Ids(rows: seq<Row>): set<nat> {
    set r | r in rows :: r.id
  }

  function ReportOn(rows: seq<Row>, domain: string): Report {
    Report(domain, RecordsOf(Aggregated(rows), domain), Ids(Unsent(rows, domain)))
  }

  function Counted(records: seq<Record>): nat {
    if records == [] then 0 else Counted(records[..|records| - 1]) + records[|records| - 1].count
  }

  lemma CountedSnoc(records: seq<Record>, record: Record)
    ensures Counted(records + [record]) == Counted(records) + record.count
  {
    assert (records + [record])[..|records|] == records;
  }

  lemma RecordsSnoc(groups: seq<Group>, g: Group, domain: string)
    ensures RecordsOf(groups + [g], domain)
         == RecordsOf(groups, domain) + if g.key.domain == domain then [RecordOf(g)] else []
    ensures OfDomain(groups + [g], domain) == OfDomain(groups, domain) + if g.key.domain == domain then [g] else []
  {
    assert (groups + [g])[..|groups|] == groups;
  }

  lemma {:induction false} CountedTotal(groups: seq<Group>, domain: string)
    ensures Counted(RecordsOf(groups, domain)) == Total(OfDomain(groups, domain))
    ensures RecordsOf(groups, domain) == [] <==> OfDomain(groups, domain) == []
  {
    if groups != [] {
      hide RecordsOf, OfDomain, Counted, Total;
      var front, last := groups[..|groups| - 1], groups[|groups| - 1];
      assert groups == front + [last];
      CountedTotal(front, domain);
      RecordsSnoc(front, last, domain);
      CountedSnoc(RecordsOf(front, domain), RecordOf(last));
      TotalSnoc(front, last, domain);
      assert RecordsOf(front, domain) + [] == RecordsOf(front, domain);
    }
  }

  /** The table's ids grow. */
  ghost predicate Increasing(rows: seq<Row>, lastId: nat) {
    && (forall i, j :: 0 <= i < j < |rows| ==> rows[i].id < rows[j].id)
    && forall r <- rows :: r.id <= lastId
  }

  lemma {:induction false} UnsentMembers(rows: seq<Row>, domain: string)
    ensures forall r :: r in Unsent(rows, domain) <==> r in rows && !r.sent && r.domain == domain
  {
    if rows != [] {
      UnsentMembers(rows[..|rows| - 1], domain);
      assert rows == rows[..|rows| - 1] + [rows[|rows| - 1]];
    }
  }

  lemma NoIds()
    ensures |Ids([])| == 0
  {
  }

  lemma NewestId(front: seq<Row>, last: Row, some: seq<Row>, lastId: nat)
    requires Increasing(front + [last], lastId) && forall r <- some :: r in front
    ensures |Ids(some + [last])| == |Ids(some)| + 1
  {
    var all := front + [last];
    assert all[|front|] == last;
    assert forall i :: 0 <= i < |front| ==> all[i] == front[i];
    assert forall r <- front :: r.id < last.id;
    assert Ids(some + [last]) == Ids(some) + {last.id};
  }

  lemma {:induction false} UnsentSize(rows: seq<Row>, domain: string, lastId: nat)
    requires Increasing(rows, lastId)
    ensures |Ids(Unsent(rows, domain))| == |Unsent(rows, domain)|
  {
    hide Ids;
    if rows == [] {
      NoIds();
    } else {
      var front, last := rows[..|rows| - 1], rows[|rows| - 1];
      assert rows == front + [last];
      UnsentSize(front, domain, lastId);
      UnsentMembers(front, domain);
      var rest := Unsent(front, domain);
      assert rest + [] == rest;
      assert forall r <- rest :: r in front;
      NewestId(front, last, rest, lastId);
    }
  }

  lemma SameId(rows: seq<Row>, lastId: nat, r: Row, u: Row)
    requires Increasing(rows, lastId) && r in rows && u in rows && r.id == u.id
    ensures r == u
  {
    var i :| 0 <= i < |rows| && rows[i] == r;
    var j :| 0 <= j < |rows| && rows[j] == u;
    assert !(i < j) && !(j < i);
  }

  /** The ids of a domain's unsent rows belong to no other row. */
  lemma UnsentIds(rows: seq<Row>, domain: string, lastId: nat)
    requires Increasing(rows, lastId)
    ensures |Ids(Unsent(rows, domain))| == |Unsent(rows, domain)|
    ensures forall r <- rows :: r.id in Ids(Unsent(rows, domain)) <==> !r.sent && r.domain == domain
    ensures forall id <- Ids(Unsent(rows, domain)) :: id <= lastId
  {
    hide Unsent;
    UnsentMembers(rows, domain);
    UnsentSize(rows, domain, lastId);
    forall r <- rows ensures r.id in Ids(Unsent(rows, domain)) <==> !r.sent && r.domain == domain {
      if r.id in Ids(Unsent(rows, domain)) {
        var u :| u in Unsent(rows, domain) && u.id == r.id;
        SameId(rows, lastId, r, u);
      }
    }
  }

  /** A report counts every unsent row of its domain, each once. */
  lemma ReportCountsItsRows(rows: seq<Row>, domain: string, lastId: nat)
    requires Increasing(rows, lastId)
    ensures Counted(ReportOn(rows, domain).records) == |ReportOn(rows, domain).ids| == |Unsent(rows, domain)|
    ensures ReportOn(rows, domain).records == [] <==> Unsent(rows, domain) == []
  {
    CountedTotal(Aggregated(rows), domain);
    DomainTotal(rows, domain);
    UnsentIds(rows, domain, lastId);
    CountsPositive(rows, domain);
  }

  lemma {:induction false} TotalOfSome(groups: seq<Group>, domain: string)
    requires forall g <- groups :: g.count > 0
    ensures OfDomain(groups, domain) == [] <==> Total(OfDomain(groups, domain)) == 0
  {
    if groups != [] {
      var front, last := groups[..|groups| - 1], groups[|groups| - 1];
      assert groups == front + [last];
      TotalOfSome(front, domain);
      TotalSnoc(front, last, domain);
      assert last in groups;
    }
  }

  lemma CountsPositive(rows: seq<Row>, domain: string)
    ensures OfDomain(Aggregated(rows), domain) == [] <==> Total(OfDomain(Aggregated(rows), domain)) == 0
  {
    EveryGroupTallies(rows);
    TotalOfSome(Aggregated(rows), domain);
  }

  lemma {:induction false} PassesWhenSome(rows: seq<Row>)
    ensures SpfPasses(rows) > 0 <==> exists r <- rows :: r.spf == "pass"
    ensures DkimPasses(rows) > 0 <==> exists r <- rows :: r.dkim == "pass"
  {
    if rows != [] {
      PassesWhenSome(rows[..|rows| - 1]);
      assert rows[|rows| - 1] in rows;
      assert forall r <- rows[..|rows| - 1] :: r in rows;
    }
  }

  /** A record claims a pass exactly if one of the rows it stands for passed. */
  lemma RecordClaims(rows: seq<Row>, g: Group)
    requires g in Aggregated(rows)
    ensures RecordOf(g).spf == "pass" <==> exists r <- Members(rows, g.key) :: r.spf == "pass"
    ensures RecordOf(g).dkim == "pass" <==> exists r <- Members(rows, g.key) :: r.dkim == "pass"
    ensures RecordOf(g).count == |Members(rows, g.key)|
  {
    EveryGroupTallies(rows);
    PassesWhenSome(Members(rows, g.key));
  }

  /** The record tells of this row and all those like it. */
  ghost predicate Tells(record: Record, rows: seq<Row>, r: Row) {
    && record.sourceIP == r.sourceIP && record.disposition == (if r.disposition == "" then "none" else r.disposition)
    && record.count == |Alike(rows, r)|
    && record.dkim == (if exists i <- Alike(rows, r) :: rows[i].dkim == "pass" then "pass" else "fail")
    && record.spf == (if exists i <- Alike(rows, r) :: rows[i].spf == "pass" then "pass" else "fail")
  }

  lemma GroupTells(rows: seq<Row>, g: Group, r: Row)
    requires g in Aggregated(rows) && KeyOf(r) == g.key
    ensures Tells(RecordOf(g), rows, r)
  {
    hide Aggregated, Members;
    RecordClaims(rows, g);
    MembersAlike(rows, r);
    MembersAre(rows, g.key);
    PassesAlike(rows, r);
  }

  lemma PassesAlike(rows: seq<Row>, r: Row)
    ensures (exists i <- Alike(rows, r) :: rows[i].spf == "pass") <==>
      exists x <- rows :: !x.sent && KeyOf(x) == KeyOf(r) && x.spf == "pass"
    ensures (exists i <- Alike(rows, r) :: rows[i].dkim == "pass") <==>
      exists x <- rows :: !x.sent && KeyOf(x) == KeyOf(r) && x.dkim == "pass"
  {
    forall x <- rows | !x.sent && KeyOf(x) == KeyOf(r)
      ensures exists i <- Alike(rows, r) :: rows[i] == x
    {
      var i :| 0 <= i < |rows| && rows[i] == x;
      assert i in Alike(rows, r);
    }
  }

  lemma {:induction false} RecordsMembers(groups: seq<Group>, domain: string)
    ensures forall record :: record in RecordsOf(groups, domain) <==>
      exists g <- groups :: g.key.domain == domain && RecordOf(g) == record
    ensures |RecordsOf(groups, domain)| == |OfDomain(groups, domain)|
  {
    hide RecordOf;
    if groups != [] {
      var front, last := groups[..|groups| - 1], groups[|groups| - 1];
      RecordsMembers(front, domain);
      assert groups == front + [last];
      assert forall g :: g in groups <==> g in front || g == last;
    }
  }

  /** Every record of a report tells of some unsent row of its domain, and every such row is told of. */
  lemma RecordsTell(rows: seq<Row>, domain: string)
    ensures forall record <- ReportOn(rows, domain).records ::
      exists r <- rows :: !r.sent && r.domain == domain && Tells(record, rows, r)
    ensures forall r <- rows :: !r.sent && r.domain == domain ==>
      exists record <- ReportOn(rows, domain).records :: Tells(record, rows, r)
  {
    hide Aggregated, Members, Tells, RecordOf, RecordsOf, OfDomain, Tallies;
    var groups := Aggregated(rows);
    EveryGroupTallies(rows);
    RecordsMembers(groups, domain);
    forall record <- RecordsOf(groups, domain)
      ensures exists r <- rows :: !r.sent && r.domain == domain && Tells(record, rows, r)
    {
      var g :| g in groups && g.key.domain == domain && RecordOf(g) == record;
      var r := AnyMember(rows, g);
      GroupTells(rows, g, r);
    }
    forall r <- rows | !r.sent && r.domain == domain
      ensures exists record <- RecordsOf(groups, domain) :: Tells(record, rows, r)
    {
      var g :| g in groups && g.key == KeyOf(r);
      GroupTells(rows, g, r);
    }
  }

  lemma AnyMember(rows: seq<Row>, g: Group) returns (r: Row)
    requires Tallies(g, Members(rows, g.key))
    ensures r in rows && !r.sent && KeyOf(r) == g.key
  {
    r := Members(rows, g.key)[0];
    MembersAre(rows, g.key);
  }

  /** Where the unsent rows of a domain came from, and what was done with them. */
  ghost function Sources(rows: seq<Row>, domain: string): set<(string, string)> {
    set r | r in rows && !r.sent && r.domain == domain :: (r.sourceIP, r.disposition)
  }

  ghost function SourcesOf(groups: seq<Group>): set<(string, string)> {
    set g | g in groups :: (g.key.sourceIP, g.key.disposition)
  }

  lemma {:induction false} DistinctSources(groups: seq<Group>, domain: string)
    requires DistinctKeys(groups)
    ensures forall g :: g in OfDomain(groups, domain) <==> g in groups && g.key.domain == domain
    ensures |SourcesOf(OfDomain(groups, domain))| == |OfDomain(groups, domain)|
  {
    if groups != [] {
      var front, last := groups[..|groups| - 1], groups[|groups| - 1];
      DistinctSources(front, domain);
      assert groups == front + [last];
      var before := OfDomain(front, domain);
      assert before + [] == before && DistinctKeys(front);
      if last.key.domain == domain {
        NewSource(front, before, last);
      }
    }
  }

  lemma NewSource(front: seq<Group>, before: seq<Group>, last: Group)
    requires DistinctKeys(front + [last]) && forall g <- before :: g in front && g.key.domain == last.key.domain
    ensures |SourcesOf(before + [last])| == |SourcesOf(before)| + 1
  {
    var all := front + [last];
    assert all[|front|] == last && forall i :: 0 <= i < |front| ==> all[i] == front[i];
    assert forall g <- before :: g.key != last.key;
    var source := (last.key.sourceIP, last.key.disposition);
    assert SourcesOf(before + [last]) == SourcesOf(before) + {source};
  }

  /** A report has one record for each source and disposition among the unsent rows of its domain. */
  lemma OneRecordPerSource(rows: seq<Row>, domain: string)
    ensures |ReportOn(rows, domain).records| == |Sources(rows, domain)|
  {
    hide Aggregated, Members, Tallies, RecordsOf, OfDomain;
    var groups := Aggregated(rows);
    EveryGroupTallies(rows);
    RecordsMembers(groups, domain);
    DistinctSources(groups, domain);
    var some := OfDomain(groups, domain);
    forall source <- SourcesOf(some)
      ensures source in Sources(rows, domain)
    {
      var g :| g in some && source == (g.key.sourceIP, g.key.disposition);
      var r := AnyMember(rows, g);
    }
    forall r <- rows | !r.sent && r.domain == domain
      ensures (r.sourceIP, r.disposition) in SourcesOf(some)
    {
      var g :| g in groups && g.key == KeyOf(r);
      assert g in some;
    }
    assert SourcesOf(some) == Sources(rows, domain);
  }

  /** The domains generateDomainReport returns nil for. */
  function Reported(domains: seq<string>, lookup: map<string, Lookup>): seq<string> {
    if domains == [] then []
    else
      var last := domains[|domains| - 1];
      Reported(domains[..|domains| - 1], lookup) + if last in lookup && lookup[last] != Fails then [last] else []
  }

  function Reports(rows: seq<Row>, domains: seq<string>, lookup: map<string, Lookup>): seq<Report> {
    if domains == [] then []
    else
      var last := domains[|domains| - 1];
      Reports(rows, domains[..|domains| - 1], lookup) +
      if last in lookup && lookup[last] == Rua && OfDomain(Aggregated(rows), last) != [] then [ReportOn(rows, last)]
      else []
  }

  lemma {:induction false} ReportedMembers(domains: seq<string>, lookup: map<string, Lookup>)
    ensures forall d :: d in Reported(domains, lookup) <==> d in domains && d in lookup && lookup[d] != Fails
  {
    if domains != [] {
      ReportedMembers(domains[..|domains| - 1], lookup);
      assert domains == domains[..|domains| - 1] + [domains[|domains| - 1]];
    }
  }

  /** A report can be made exactly if the domain has an unsent row. */
  lemma SomethingToReport(rows: seq<Row>, domain: string)
    ensures OfDomain(Aggregated(rows), domain) != [] <==> exists r <- rows :: !r.sent && r.domain == domain
  {
    CountsPositive(rows, domain);
    DomainTotal(rows, domain);
    UnsentMembers(rows, domain);
    assert Unsent(rows, domain) != [] ==> Unsent(rows, domain)[0] in Unsent(rows, domain);
  }

  /** The domain wants reports and has unsent rows. */
  ghost predicate Reportable(rows: seq<Row>, lookup: map<string, Lookup>, domain: string) {
    domain in lookup && lookup[domain] == Rua && exists r <- rows :: !r.sent && r.domain == domain
  }

  ghost predicate HasReport(reports: seq<Report>, domain: string) {
    exists report <- reports :: report.domain == domain
  }

  /** The reports: one for each such domain among these, none for any other. */
  ghost predicate OnePerDomain(rows: seq<Row>, domains: seq<string>, lookup: map<string, Lookup>, reports: seq<Report>) {
    && (forall report <- reports :: report == ReportOn(rows, report.domain))
    && (forall i, j :: 0 <= i < j < |reports| ==> reports[i].domain != reports[j].domain)
    && (forall d :: HasReport(reports, d) <==> d in domains && Reportable(rows, lookup, d))
  }

  lemma HasReportSnoc(reports: seq<Report>, report: Report)
    ensures forall d :: HasReport(reports + [report], d) <==> HasReport(reports, d) || d == report.domain
  {
    var all := reports + [report];
    assert report in all && forall r <- reports :: r in all;
    assert forall r <- all :: r in reports || r == report;
  }

  lemma OneDomainMore(rows: seq<Row>, front: seq<string>, last: string, lookup: map<string, Lookup>, before: seq<Report>)
    requires OnePerDomain(rows, front, lookup, before) && last !in front
    ensures OnePerDomain(rows, front + [last], lookup,
      if Reportable(rows, lookup, last) then before + [ReportOn(rows, last)] else before)
  {
    hide ReportOn, HasReport, Reportable;
    assert forall d :: d in front + [last] <==> d in front || d == last;
    if Reportable(rows, lookup, last) {
      var report := ReportOn(rows, last);
      ReportsDomain(rows, last);
      HasReportSnoc(before, report);
      NewDomain(before, last);
      assert forall i :: 0 <= i < |before| ==> (before + [report])[i] == before[i] && before[i].domain != last;
    }
  }

  lemma {:induction false} ReportsOnePerDomain(rows: seq<Row>, domains: seq<string>, lookup: map<string, Lookup>)
    requires NoRepeats(domains)
    ensures OnePerDomain(rows, domains, lookup, Reports(rows, domains, lookup))
  {
    hide ReportOn, Aggregated, OfDomain, HasReport, Reportable;
    if domains == [] {
      NoReports();
    } else {
      var front, last := domains[..|domains| - 1], domains[|domains| - 1];
      ReportsOnePerDomain(rows, front, lookup);
      LastReport(rows, domains, lookup);
      assert domains == front + [last] && last !in front;
      OneDomainMore(rows, front, last, lookup, Reports(rows, front, lookup));
    }
  }

  lemma NewDomain(reports: seq<Report>, domain: string)
    requires !HasReport(reports, domain)
    ensures forall report <- reports :: report.domain != domain
  {
  }

  lemma NoReports()
    ensures forall d :: !HasReport([], d)
  {
  }

  lemma LastReport(rows: seq<Row>, domains: seq<string>, lookup: map<string, Lookup>)
    requires domains != []
    ensures var last, before := domains[|domains| - 1], Reports(rows, domains[..|domains| - 1], lookup);
      Reports(rows, domains, lookup) == if Reportable(rows, lookup, last) then before + [ReportOn(rows, last)] else before
  {
    hide ReportOn, Aggregated, OfDomain;
    SomethingToReport(rows, domains[|domains| - 1]);
  }

  lemma ReportsDomain(rows: seq<Row>, domain: string)
    ensures ReportOn(rows, domain).domain == domain
  {
  }

  /** What a cycle does to the rows: they are marked but for those whose domain's lookup failed. */
  lemma CycleMarks(rows: seq<Row>, lookup: map<string, Lookup>)
    ensures forall i :: 0 <= i < |rows| ==>
      Marked(rows, Reported(Domains(rows), lookup))[i] ==
        if rows[i].domain in lookup && lookup[rows[i].domain] != Fails then rows[i].(sent := true) else rows[i]
  {
    hide Domains, Reported, Marked, Unsent;
    ReportedMembers(Domains(rows), lookup);
    DomainsOnce(rows);
    assert forall i :: 0 <= i < |rows| ==> rows[i] in rows;
  }

  class ReportGenerator {
    const store: ResultStore
    var reports: seq<Report>

    constructor (store: ResultStore)
      ensures this.store == store && reports == []
    {
      this.store, reports := store, [];
    }

    method GenerateDomainReport(domain: string, lookup: map<string, Lookup>) returns (ok: bool)
      modifies `reports
      ensures ok == (domain in lookup && lookup[domain] != Fails)
      ensures reports == old(reports) + Reports(store.rows, [domain], lookup)
    {
      assert [domain][..0] == [];
      if domain !in lookup || lookup[domain].Fails? {
        return false;
      }
      if lookup[domain].NoPolicy? || lookup[domain].NoRua? {
        return true;
      }
      var results := Aggregated(store.rows);
      var records := [];
      for k := 0 to |results|
        invariant records == RecordsOf(results[..k], domain)
      {
        assert results[..k + 1][..k] == results[..k];
        if results[k].key.domain == domain {
          records := records + [RecordOf(results[k])];
        }
      }
      assert results[..|results|] == results;
      CountedTotal(results, domain);
      if |records| == 0 {
        return true;
      }
      reports := reports + [Report(domain, records, Ids(Unsent(store.rows, domain)))];
      return true;
    }

    /** A cycle with no insert in between. */
    method GenerateReports(lookup: map<string, Lookup>)
      modifies this, store`rows
      ensures reports == old(reports) + Reports(old(store.rows), Domains(old(store.rows)), lookup)
      ensures store.rows == Marked(old(store.rows), Reported(Domains(old(store.rows)), lookup))
      // one new report for each domain that wants reports and has unsent rows
      ensures old(reports) <= reports
      ensures OnePerDomain(old(store.rows), Domains(old(store.rows)), lookup, reports[|old(reports)|..])
      // the rows are marked but for those whose domain's lookup failed
      ensures |store.rows| == |old(store.rows)|
      ensures forall i :: 0 <= i < |store.rows| ==>
        var row := old(store.rows)[i];
        store.rows[i] == if row.domain in lookup && lookup[row.domain] != Fails then row.(sent := true) else row
    {
      hide ReportOn, Aggregated, OfDomain, Domains, Marked, OnePerDomain;
      var domains := Domains(store.rows);
      var reported := [];
      for k := 0 to |domains|
        invariant reported == Reported(domains[..k], lookup)
        invariant reports == old(reports) + Reports(store.rows, domains[..k], lookup)
        invariant store.rows == old(store.rows)
      {
        assert domains[..k + 1][..k] == domains[..k] && [domains[k]][..0] == [];
        var ok := GenerateDomainReport(domains[k], lookup);
        if ok {
          reported := reported + [domains[k]];
        }
      }
      assert domains[..|domains|] == domains;
      if |reported| > 0 {
        store.MarkDMARCResultsSent(reported);
      }
      DomainsOnce(old(store.rows));
      ReportsOnePerDomain(old(store.rows), domains, lookup);
      CycleMarks(old(store.rows), lookup);
    }
  }
}
