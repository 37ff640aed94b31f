/** The Worksite Secure API's record store and its statistics: the two
    seeded in-memory lists of sites and incidents, the aggregate numbers the
    dashboard shows, and the health report that passes two of them on. */
module Worksite {
  import TextCase
  import Rounding

  datatype Option<T> = None | Some(value: T)

  /** A creation timestamp; the store only carries it. */
  datatype DateTime = DateTime(year: int, month: int, day: int, hour: int, minute: int, second: int)

  /** A monitored construction site. */
  datatype Site = Site(id: int, name: string, location: Option<string>, manager: Option<string>, riskScore: int)

  /** A security or safety event reported against one site. `kind` is
      main.py's `type` field. */
  datatype Incident = Incident(
    id: int,
    siteId: int,
    kind: string,
    severity: string,
    description: string,
    status: string,
    createdAt: DateTime)

  /** The four numbers of the statistics endpoint. */
  datatype Stats = Stats(totalSites: nat, totalIncidents: nat, resolvedPercentage: nat, criticalIncidents: nat)

  /** The body of the health endpoint. */
  datatype StatusReport = StatusReport(app: string, status: string, version: string, sites: nat, incidents: nat)

  /** The lower-cased status that marks an incident as resolved. */
  const ResolvedStatus: string := "r\U{E9}solu"
  /** The same word with every letter upper-cased. */
  const ResolvedStatusUpper: string := "R\U{C9}SOLU"
  /** The lower-cased severity that marks an incident as critical. */
  const CriticalSeverity: string := "critique"
  /** The same word with every letter upper-cased. */
  const CriticalSeverityUpper: string := "CRITIQUE"

  /** The filter of the resolved count: the status lower-cases to "résolu",
      which holds exactly when it spells that word with each letter in
      either case. */
  predicate IsResolved(i: Incident): (b: bool)
    ensures b <==> (|i.status| == |ResolvedStatus| &&
      forall k :: 0 <= k < |i.status| ==> i.status[k] == ResolvedStatus[k] || i.status[k] == ResolvedStatusUpper[k])
  {
    ResolvedSpellings(i.status);
    TextCase.Lower(i.status) == ResolvedStatus
  }

  /** The filter of the critical count: the severity lower-cases to
      "critique", which holds exactly when it spells that word with each
      letter in either case. */
  predicate IsCritical(i: Incident): (b: bool)
    ensures b <==> (|i.severity| == |CriticalSeverity| &&
      forall k :: 0 <= k < |i.severity| ==> i.severity[k] == CriticalSeverity[k] || i.severity[k] == CriticalSeverityUpper[k])
  {
    CriticalSpellings(i.severity);
    TextCase.Lower(i.severity) == CriticalSeverity
  }

  /** `sum(1 for x in xs if p(x))`: how many elements satisfy `p`. */
  function Count<T>(xs: seq<T>, p: T -> bool): (n: nat)
    ensures n <= |xs|
    ensures n == 0 <==> forall k :: 0 <= k < |xs| ==> !p(xs[k])
    ensures n == |xs| <==> forall k :: 0 <= k < |xs| ==> p(xs[k])
  {
    if xs == [] then 0
    else (if p(xs[0]) then 1 else 0) + Count(xs[1..], p)
  }

  /** The `resolved_percentage` of the statistics: the share of resolved
      incidents in percent, rounded half to even, and 0 for an empty store. */
  function ResolvedPercentage(incidents: seq<Incident>): (pct: nat)
    ensures |incidents| == 0 ==> pct == 0
    ensures |incidents| > 0 ==>
      Rounding.IsHalfEvenRounding(100 * Count(incidents, IsResolved), |incidents|, pct)
    ensures pct <= 100
    ensures (forall k :: 0 <= k < |incidents| ==> !IsResolved(incidents[k])) ==> pct == 0
    ensures |incidents| > 0 && (forall k :: 0 <= k < |incidents| ==> IsResolved(incidents[k])) ==> pct == 100
  {
    if |incidents| == 0 then 0
    else
      Rounding.RoundPercentBounds(Count(incidents, IsResolved), |incidents|);
      Rounding.RoundHalfEvenUnique(100 * Count(incidents, IsResolved), |incidents|, 0);
      Rounding.RoundHalfEvenUnique(100 * Count(incidents, IsResolved), |incidents|, 100);
      Rounding.RoundHalfEven(100 * Count(incidents, IsResolved), |incidents|)
  }

  /** `compute_stats()` over the given stores. */
  function ComputeStats(sites: seq<Site>, incidents: seq<Incident>): (s: Stats)
    ensures s.totalSites == |sites| && s.totalIncidents == |incidents|
    ensures |incidents| == 0 ==> s.resolvedPercentage == 0
    ensures |incidents| > 0 ==>
      Rounding.IsHalfEvenRounding(100 * Count(incidents, IsResolved), |incidents|, s.resolvedPercentage)
    ensures s.resolvedPercentage <= 100
    ensures (forall k :: 0 <= k < |incidents| ==> !IsResolved(incidents[k])) ==> s.resolvedPercentage == 0
    ensures |incidents| > 0 && (forall k :: 0 <= k < |incidents| ==> IsResolved(incidents[k])) ==>
      s.resolvedPercentage == 100
    ensures s.criticalIncidents == Count(incidents, IsCritical) <= s.totalIncidents
  {
    Stats(|sites|, |incidents|, ResolvedPercentage(incidents), Count(incidents, IsCritical))
  }

  /** `get_status()`: a fixed identification plus the two store sizes taken
      from the statistics. */
  function GetStatus(sites: seq<Site>, incidents: seq<Incident>): (r: StatusReport)
    ensures r == StatusReport("Worksite Secure", "OK", "0.1.0", |sites|, |incidents|)
  {
    var stats := ComputeStats(sites, incidents);
    StatusReport("Worksite Secure", "OK", "0.1.0", stats.totalSites, stats.totalIncidents)
  }

  /** The timestamp every seeded incident carries. */
  const SeedTime: DateTime := DateTime(2025, 12, 30, 8, 20, 13)

  /** `sites_db` as the process starts. */
  const SeedSites: seq<Site> := [
    Site(1, "Immeuble Plateau A", Some("Localisation non pr\U{E9}cis\U{E9}e"), Some("Non renseign\U{E9}"), 62),
    Site(2, "Chantier Zone Industrielle", Some("Localisation non pr\U{E9}cis\U{E9}e"), Some("Non renseign\U{E9}"), 45),
    Site(3, "R\U{E9}sidence Riviera Golf", Some("Localisation non pr\U{E9}cis\U{E9}e"), Some("Non renseign\U{E9}"), 80)
  ]

  /** `incidents_db` as the process starts. */
  const SeedIncidents: seq<Incident> := [
    Incident(1, 1, "Vol", "Moyen", "Vol de ciment", "Nouveau", SeedTime),
    Incident(2, 1, "Accident", "Critique", "Chute ouvrier", "En cours", SeedTime),
    Incident(3, 2, "Intrusion", "Mineur", "Personne non autoris\U{E9}e", "R\U{E9}solu", SeedTime)
  ]

  /** Counts agree over two lists whose elements agree, position by position,
      on the property counted. */
  lemma {:induction false} CountAgree<T>(xs: seq<T>, p: T -> bool, ys: seq<T>, q: T -> bool)
    requires |xs| == |ys|
    requires forall k :: 0 <= k < |xs| ==> p(xs[k]) == q(ys[k])
    ensures Count(xs, p) == Count(ys, q)
  {
    if xs != [] {
      assert p(xs[0]) == q(ys[0]);
      CountAgree(xs[1..], p, ys[1..], q);
    }
  }

  /** Counting distributes over concatenation; with `Count([x], p)` being 1
      or 0 as `p(x)` holds or not, this fixes the value of every count. */
  lemma {:induction false} CountAppend<T>(xs: seq<T>, ys: seq<T>, p: T -> bool)
    ensures Count(xs + ys, p) == Count(xs, p) + Count(ys, p)
  {
    if xs == [] {
      assert xs + ys == ys;
    } else {
      assert (xs + ys)[1..] == xs[1..] + ys;
      CountAppend(xs[1..], ys, p);
    }
  }

  /** The statistics see statuses and severities only through their lower
      case: rewriting them in another case changes none of the numbers. */
  lemma StatsIgnoreCase(sites: seq<Site>, incidents: seq<Incident>, recased: seq<Incident>)
    requires |recased| == |incidents|
    requires forall k :: 0 <= k < |incidents| ==>
      TextCase.Lower(recased[k].status) == TextCase.Lower(incidents[k].status) &&
      TextCase.Lower(recased[k].severity) == TextCase.Lower(incidents[k].severity)
    ensures ComputeStats(sites, recased) == ComputeStats(sites, incidents)
  {
    CountAgree(recased, IsResolved, incidents, IsResolved);
    CountAgree(recased, IsCritical, incidents, IsCritical);
  }

  /** A status counts as resolved exactly when it is the word "résolu" with
      each letter in either case, and nothing else does. */
  lemma ResolvedSpellings(status: string)
    ensures TextCase.Lower(status) == ResolvedStatus <==>
      |status| == |ResolvedStatus| &&
      forall k :: 0 <= k < |status| ==> status[k] == ResolvedStatus[k] || status[k] == ResolvedStatusUpper[k]
  {
    var w := ResolvedStatus;
    forall k | 0 <= k < |w|
      ensures TextCase.IsLower(w[k]) && TextCase.UpperChar(w[k]) == ResolvedStatusUpper[k]
    {
      assert ResolvedStatusUpper[k] as int == w[k] as int - 32;
    }
    TextCase.LowerMatches(status, w);
  }

  /** A severity counts as critical exactly when it is the word "critique"
      with each letter in either case. */
  lemma CriticalSpellings(severity: string)
    ensures TextCase.Lower(severity) == CriticalSeverity <==>
      |severity| == |CriticalSeverity| &&
      forall k :: 0 <= k < |severity| ==> severity[k] == CriticalSeverity[k] || severity[k] == CriticalSeverityUpper[k]
  {
    var w := CriticalSeverity;
    forall k | 0 <= k < |w|
      ensures TextCase.IsLower(w[k]) && TextCase.UpperChar(w[k]) == CriticalSeverityUpper[k]
    {
      assert 'a' <= w[k] <= 'z';
      assert CriticalSeverityUpper[k] as int == w[k] as int - 32;
    }
    TextCase.LowerMatches(severity, w);
  }

  /** The seeded resolved status and its variants in other cases all count
      as resolved. */
  lemma ResolvedExamples()
    ensures TextCase.Lower("R\U{E9}solu") == ResolvedStatus
    ensures TextCase.Lower("r\U{E9}solu") == ResolvedStatus
    ensures TextCase.Lower("R\U{C9}SOLU") == ResolvedStatus
  {
    ResolvedSpellings("R\U{E9}solu");
    ResolvedSpellings("r\U{E9}solu");
    ResolvedSpellings("R\U{C9}SOLU");
  }

  /** The other seeded statuses, the unaccented spelling and the English
      word do not count as resolved. */
  lemma OpenExamples()
    ensures TextCase.Lower("Nouveau") != ResolvedStatus
    ensures TextCase.Lower("En cours") != ResolvedStatus
    ensures TextCase.Lower("RESOLU") != ResolvedStatus
    ensures TextCase.Lower("Resolved") != ResolvedStatus
  {
    ResolvedSpellings("RESOLU");
    assert "RESOLU"[1] == 'E';
  }

  /** "Critique" in any case is critical; the other seeded severities and the
      English word are not. */
  lemma CriticalExamples()
    ensures TextCase.Lower("Critique") == CriticalSeverity
    ensures TextCase.Lower("CRITIQUE") == CriticalSeverity
    ensures TextCase.Lower("Moyen") != CriticalSeverity
    ensures TextCase.Lower("Mineur") != CriticalSeverity
    ensures TextCase.Lower("Critical") != CriticalSeverity
  {
    CriticalSpellings("Critique");
    CriticalSpellings("CRITIQUE");
    CriticalSpellings("Critical");
    assert "Critical"[6] == 'a';
  }

  /** One resolved incident out of eight is 12.5 percent, which rounds to
      the even neighbour 12. */
  lemma OneInEight(sites: seq<Site>, incidents: seq<Incident>)
    requires |incidents| == 8 && Count(incidents, IsResolved) == 1
    ensures ComputeStats(sites, incidents).resolvedPercentage == 12
  {
    Rounding.RoundHalfEvenUnique(100, 8, 12);
  }

  /** The count over three elements, spelled out. */
  lemma CountOfThree<T>(xs: seq<T>, p: T -> bool)
    requires |xs| == 3
    ensures Count(xs, p) == (if p(xs[0]) then 1 else 0) + (if p(xs[1]) then 1 else 0) + (if p(xs[2]) then 1 else 0)
  {
    assert xs[1..][1..] == [xs[2]];
  }

  /** Among the seeded statuses "Nouveau", "En cours" and "Résolu" one
      counts as resolved. */
  lemma SeedStatusesCount(s: seq<Incident>)
    requires |s| == 3 && s[0].status == "Nouveau" && s[1].status == "En cours" && s[2].status == "R\U{E9}solu"
    ensures Count(s, IsResolved) == 1
  {
    ResolvedExamples();
    OpenExamples();
    CountOfThree(s, IsResolved);
  }

  /** Among the seeded severities "Moyen", "Critique" and "Mineur" one
      counts as critical. */
  lemma SeedSeveritiesCount(s: seq<Incident>)
    requires |s| == 3 && s[0].severity == "Moyen" && s[1].severity == "Critique" && s[2].severity == "Mineur"
    ensures Count(s, IsCritical) == 1
  {
    CriticalExamples();
    CountOfThree(s, IsCritical);
  }

  /** On the seed data the dashboard shows 3 sites, 3 incidents, 33 percent
      resolved and 1 critical incident, and the health report 3 and 3. */
  lemma SeedStats()
    ensures ComputeStats(SeedSites, SeedIncidents) == Stats(3, 3, 33, 1)
    ensures GetStatus(SeedSites, SeedIncidents).sites == 3
    ensures GetStatus(SeedSites, SeedIncidents).incidents == 3
  {
    SeedStatusesCount(SeedIncidents);
    SeedSeveritiesCount(SeedIncidents);
    Rounding.RoundHalfEvenUnique(100, 3, 33);
  }
}
