/** The `dmarc_results` table and its aggregation (pkg/storage/dmarc.go, pkg/dmarc/report.go). */
module DmarcResults {
  import opened Wrappers

  datatype Row = Row(
    id: nat, sourceIP: string, domain: string, spf: string, dkim: string, disposition: string, timestamp: int,
    sent: bool)

  datatype GroupKey = GroupKey(domain: string, sourceIP: string, disposition: string)

  datatype Group = Group(
    key: GroupKey, spfPass: nat, spfFail: nat, dkimPass: nat, dkimFail: nat, count: nat, timestamp: int)

  function KeyOf(r: Row): GroupKey {
    GroupKey(r.domain, r.sourceIP, r.disposition)
  }

  function One(r: Row): Group {
    var spf, dkim := if r.spf == "pass" then 1 else 0, if r.dkim == "pass" then 1 else 0;
    Group(KeyOf(r), spf, 1 - spf, dkim, 1 - dkim, 1, r.timestamp)
  }

  function Added(g: Group, r: Row): Group {
    var o := One(r);
    Group(g.key, g.spfPass + o.spfPass, g.spfFail + o.spfFail, g.dkimPass + o.dkimPass, g.dkimFail + o.dkimFail,
          g.count + 1, if r.timestamp > g.timestamp then r.timestamp else g.timestamp)
  }

  /** Counts the row in its group, which is opened if there is none yet. */
  function Merged(groups: seq<Group>, r: Row): seq<Group> {
    if groups == [] then [One(r)]
    else
      var front, last := groups[..|groups| - 1], groups[|groups| - 1];
      if last.key == KeyOf(r) then front + [Added(last, r)] else Merged(front, r) + [last]
  }

  /** SELECT ..., COUNT(*) ... WHERE report_sent = 0 GROUP BY from_domain, source_ip, disposition */
  function Aggregated(rows: seq<Row>): seq<Group> {
    if rows == [] then []
    else
      var front, last := Aggregated(rows[..|rows| - 1]), rows[|rows| - 1];
      if last.sent then front else Merged(front, last)
  }

  /** The rows a group stands for. */
  function Members(rows: seq<Row>, key: GroupKey): seq<Row> {
    if rows == [] then []
    else
      var last := rows[|rows| - 1];
      Members(rows[..|rows| - 1], key) + if !last.sent && KeyOf(last) == key then [last] else []
  }

  /** The unsent rows of a domain. */
  function Unsent(rows: seq<Row>, domain: string): seq<Row> {
    if rows == [] then []
    else
      var last := rows[|rows| - 1];
      Unsent(rows[..|rows| - 1], domain) + if !last.sent && last.domain == domain then [last] else []
  }

  function SpfPasses(rows: seq<Row>): nat {
    if rows == [] then 0 else SpfPasses(rows[..|rows| - 1]) + if rows[|rows| - 1].spf == "pass" then 1 else 0
  }

  function DkimPasses(rows: seq<Row>): nat {
    if rows == [] then 0 else DkimPasses(rows[..|rows| - 1]) + if rows[|rows| - 1].dkim == "pass" then 1 else 0
  }

  function Find(groups: seq<Group>, key: GroupKey): Option<Group> {
    if groups == [] then None
    else if groups[|groups| - 1].key == key then Some(groups[|groups| - 1])
    else Find(groups[..|groups| - 1], key)
  }

  ghost predicate DistinctKeys(groups: seq<Group>) {
    forall i, j :: 0 <= i < j < |groups| ==> groups[i].key != groups[j].key
  }

  ghost predicate LatestOf(t: int, rows: seq<Row>) {
    (exists r <- rows :: r.timestamp == t) && forall r <- rows :: r.timestamp <= t
  }

  ghost predicate Tallies(g: Group, rows: seq<Row>) {
    && g.count == |rows| > 0
    && g.spfPass == SpfPasses(rows) && g.spfPass + g.spfFail == g.count
    && g.dkimPass == DkimPasses(rows) && g.dkimPass + g.dkimFail == g.count
    && LatestOf(g.timestamp, rows)
  }

  lemma {:induction false} FindMerged(groups: seq<Group>, r: Row, key: GroupKey)
    ensures Find(Merged(groups, r), key) ==
            if key != KeyOf(r) then Find(groups, key)
            else if Find(groups, key).None? then Some(One(r))
            else Some(Added(Find(groups, key).value, r))
  {
    if groups != [] {
      FindMerged(groups[..|groups| - 1], r, key);
    }
  }

  lemma {:induction false} MergedKeys(groups: seq<Group>, r: Row)
    requires DistinctKeys(groups)
    ensures DistinctKeys(Merged(groups, r))
    ensures forall g <- Merged(groups, r) :: g.key == KeyOf(r) || exists h <- groups :: h.key == g.key
  {
    if groups != [] {
      var front := groups[..|groups| - 1];
      MergedKeys(front, r);
      assert forall h <- front :: h in groups;
    }
  }

  lemma OneTallies(r: Row)
    ensures Tallies(One(r), [r])
  {
  }

  lemma {:induction false} AddedTallies(g: Group, rows: seq<Row>, r: Row)
    requires Tallies(g, rows)
    ensures Tallies(Added(g, r), rows + [r])
  {
  }

  /** A group exists exactly if it has rows, and then it counts them. */
  lemma {:induction false} GroupTallies(rows: seq<Row>, key: GroupKey)
    ensures Find(Aggregated(rows), key).None? <==> Members(rows, key) == []
    ensures Members(rows, key) != [] ==> Tallies(Find(Aggregated(rows), key).value, Members(rows, key))
  {
    if rows != [] {
      var front, last := rows[..|rows| - 1], rows[|rows| - 1];
      GroupTallies(front, key);
      FindMerged(Aggregated(front), last, key);
      if !last.sent && KeyOf(last) == key {
        if Members(front, key) == [] {
          OneTallies(last);
          assert Members(rows, key) == [last];
        } else {
          AddedTallies(Find(Aggregated(front), key).value, Members(front, key), last);
        }
      } else {
        assert Members(rows, key) == Members(front, key);
      }
    }
  }

  lemma {:induction false} AggregatedKeys(rows: seq<Row>)
    ensures DistinctKeys(Aggregated(rows))
  {
    if rows != [] {
      AggregatedKeys(rows[..|rows| - 1]);
      if !rows[|rows| - 1].sent {
        MergedKeys(Aggregated(rows[..|rows| - 1]), rows[|rows| - 1]);
      }
    }
  }

  lemma {:induction false} FindAt(groups: seq<Group>, i: nat)
    requires DistinctKeys(groups) && i < |groups|
    ensures Find(groups, groups[i].key) == Some(groups[i])
  {
    if i < |groups| - 1 {
      FindAt(groups[..|groups| - 1], i);
    }
  }

  /** Every group in the result counts its own rows; passes and failures add up to the count. */
  lemma EveryGroupTallies(rows: seq<Row>)
    ensures DistinctKeys(Aggregated(rows))
    ensures forall g <- Aggregated(rows) :: Tallies(g, Members(rows, g.key))
    ensures forall r <- rows :: !r.sent ==> exists g <- Aggregated(rows) :: g.key == KeyOf(r)
  {
    AggregatedKeys(rows);
    forall i | 0 <= i < |Aggregated(rows)|
      ensures Tallies(Aggregated(rows)[i], Members(rows, Aggregated(rows)[i].key))
    {
      FindAt(Aggregated(rows), i);
      GroupTallies(rows, Aggregated(rows)[i].key);
    }
    forall r <- rows | !r.sent ensures exists g <- Aggregated(rows) :: g.key == KeyOf(r) {
      GroupTallies(rows, KeyOf(r));
      MembersHas(rows, r);
      FindIn(Aggregated(rows), KeyOf(r));
    }
  }

  /** The positions of the unsent rows from this row's source, for its domain, with its disposition. */
  ghost function Alike(rows: seq<Row>, r: Row): set<nat> {
    set i: nat | i < |rows| && !rows[i].sent
      && rows[i].domain == r.domain && rows[i].sourceIP == r.sourceIP && rows[i].disposition == r.disposition
  }

  lemma {:induction false} MembersAlike(rows: seq<Row>, r: Row)
    ensures |Members(rows, KeyOf(r))| == |Alike(rows, r)|
  {
    hide Alike;
    if rows == [] {
      NothingAlike(r);
    } else {
      var front, last := rows[..|rows| - 1], rows[|rows| - 1];
      MembersAlike(front, r);
      AlikeSnoc(front, last, r);
      assert rows == front + [last];
    }
  }

  lemma NothingAlike(r: Row)
    ensures |Alike([], r)| == 0
  {
  }

  lemma {:induction false} MembersAre(rows: seq<Row>, key: GroupKey)
    ensures forall r :: r in Members(rows, key) <==> r in rows && !r.sent && KeyOf(r) == key
  {
    if rows != [] {
      MembersAre(rows[..|rows| - 1], key);
      assert rows == rows[..|rows| - 1] + [rows[|rows| - 1]];
    }
  }

  lemma AlikeSnoc(front: seq<Row>, last: Row, r: Row)
    ensures Alike(front + [last], r) == Alike(front, r) + if !last.sent && KeyOf(last) == KeyOf(r) then {|front|} else {}
    ensures |Alike(front + [last], r)| == |Alike(front, r)| + if !last.sent && KeyOf(last) == KeyOf(r) then 1 else 0
  {
    var all := front + [last];
    assert all[|front|] == last && forall i :: 0 <= i < |front| ==> all[i] == front[i];
    assert Alike(all, r) == Alike(front, r) + if !last.sent && KeyOf(last) == KeyOf(r) then {|front|} else {};
  }

  lemma {:induction false} MembersHas(rows: seq<Row>, r: Row)
    requires r in rows && !r.sent
    ensures r in Members(rows, KeyOf(r))
  {
    if r != rows[|rows| - 1] {
      MembersHas(rows[..|rows| - 1], r);
    }
  }

  lemma {:induction false} FindIn(groups: seq<Group>, key: GroupKey)
    requires Find(groups, key).Some?
    ensures exists g <- groups :: g.key == key
  {
    if groups[|groups| - 1].key == key {
      assert groups[|groups| - 1] in groups;
    } else {
      FindIn(groups[..|groups| - 1], key);
      assert forall g <- groups[..|groups| - 1] :: g in groups;
    }
  }

  /** The groups of one domain, as the report generator filters them. */
  function OfDomain(groups: seq<Group>, domain: string): seq<Group> {
    if groups == [] then []
    else
      var last := groups[|groups| - 1];
      OfDomain(groups[..|groups| - 1], domain) + if last.key.domain == domain then [last] else []
  }

  function Total(groups: seq<Group>): nat {
    if groups == [] then 0 else Total(groups[..|groups| - 1]) + groups[|groups| - 1].count
  }

  lemma TotalSnoc(groups: seq<Group>, g: Group, domain: string)
    ensures Total(OfDomain(groups + [g], domain)) ==
            Total(OfDomain(groups, domain)) + (if g.key.domain == domain then g.count else 0)
  {
    assert (groups + [g])[..|groups|] == groups;
    var q := OfDomain(groups, domain);
    assert (q + [g])[..|q|] == q && q + [] == q;
  }

  lemma {:induction false} MergedTotal(groups: seq<Group>, r: Row, domain: string)
    ensures Total(OfDomain(Merged(groups, r), domain)) ==
            Total(OfDomain(groups, domain)) + (if r.domain == domain then 1 else 0)
  {
    if groups == [] {
      TotalSnoc([], One(r), domain);
    } else {
      var front, last := groups[..|groups| - 1], groups[|groups| - 1];
      assert groups == front + [last];
      MergedTotal(front, r, domain);
      TotalSnoc(front, last, domain);
      TotalSnoc(front, Added(last, r), domain);
      TotalSnoc(Merged(front, r), last, domain);
    }
  }

  /** The counts of a domain's groups add up to its unsent rows. */
  lemma {:induction false} DomainTotal(rows: seq<Row>, domain: string)
    ensures Total(OfDomain(Aggregated(rows), domain)) == |Unsent(rows, domain)|
  {
    if rows != [] {
      var front, last := rows[..|rows| - 1], rows[|rows| - 1];
      DomainTotal(front, domain);
      if !last.sent {
        MergedTotal(Aggregated(front), last, domain);
      }
    }
  }

  /** SELECT DISTINCT from_domain ... WHERE report_sent = 0 */
  function Domains(rows: seq<Row>): seq<string> {
    if rows == [] then []
    else
      var front, last := Domains(rows[..|rows| - 1]), rows[|rows| - 1];
      if last.sent || last.domain in front then front else front + [last.domain]
  }

  lemma {:induction false} DomainsOnce(rows: seq<Row>)
    ensures NoRepeats(Domains(rows))
    ensures forall d <- Domains(rows) :: Unsent(rows, d) != []
    ensures forall r <- rows :: !r.sent ==> r.domain in Domains(rows)
  {
    if rows != [] {
      DomainsOnce(rows[..|rows| - 1]);
    }
  }

  function MarkedRow(r: Row, domains: seq<string>): Row {
    if r.domain in domains then r.(sent := true) else r
  }

  function Marked(rows: seq<Row>, domains: seq<string>): (m: seq<Row>)
    ensures |m| == |rows| && forall i :: 0 <= i < |rows| ==> m[i] == MarkedRow(rows[i], domains)
  {
    seq(|rows|, i requires 0 <= i < |rows| => MarkedRow(rows[i], domains))
  }

  class ResultStore {
    var rows: seq<Row>
    var lastId: nat

    constructor ()
      ensures rows == [] && lastId == 0
    {
      rows, lastId := [], 0;
    }

    method InsertDMARCResult(sourceIP: string, domain: string, spf: string, dkim: string, disposition: string, now: int)
      modifies this
      ensures lastId == old(lastId) + 1
      ensures rows == old(rows) + [Row(lastId, sourceIP, domain, spf, dkim, disposition, now, false)]
    {
      lastId := lastId + 1;
      rows := rows + [Row(lastId, sourceIP, domain, spf, dkim, disposition, now, false)];
    }

    /** One UPDATE for each domain, in one transaction. */
    method MarkDMARCResultsSent(domains: seq<string>)
      modifies `rows
      ensures rows == Marked(old(rows), domains)
    {
      for k := 0 to |domains|
        invariant rows == Marked(old(rows), domains[..k])
      {
        rows := Marked(rows, [domains[k]]);
      }
      assert domains[..|domains|] == domains;
    }
  }
}
