/** One external peer judged from its contextCSN readings (csn_convergence.go). */
module PeerCsn {
  import opened Prelude
  import opened Sorting
  import opened Csn

  datatype State = Unreachable | Lagging | PartiallyVerified | Synced

  /** What is known of one database: one side unread, the peer empty, the peer
      behind by more than the threshold, or neither. */
  datatype Evidence = Unverified | Empty | Late(lag: int) | Current {
    predicate Behind() { Empty? || Late? }
  }

  /** The lag is reported only when positive; unverified suffixes are named. */
  datatype PeerVerdict = PeerVerdict(state: State, lag: Option<int>, unverified: seq<string>)

  function Weigh(answered: bool, local: int, remote: int, threshold: int): Evidence {
    if !answered || local == 0 then Unverified
    else if remote == 0 then Empty
    else
      var lag := if local > remote then local - remote else 0;
      if lag > threshold then Late(lag) else Current
  }

  function EvidenceOf(clock: Clock, local: map<string, int>, rs: seq<Reading>, threshold: int, s: string): Evidence {
    Weigh(Vectors(rs, s) != [], Get(local, s, 0), Peak(Stamps(clock, rs, s)), threshold)
  }

  function EvidenceIn(clock: Clock, local: map<string, int>, rs: seq<Reading>, threshold: int): string -> Evidence {
    s => EvidenceOf(clock, local, rs, threshold, s)
  }

  function UnverifiedIn(e: string -> Evidence): string -> Option<string> {
    s => if e(s).Unverified? then Some(s) else None
  }

  function LateIn(e: string -> Evidence): string -> Option<int> {
    s => if e(s).Late? then Some(e(s).lag) else None
  }

  /** Observed problems win over missing evidence. */
  ghost function Summary(e: string -> Evidence, suffixes: seq<string>): PeerVerdict {
    var unverified, worst := Pick(UnverifiedIn(e), suffixes), Peak(Pick(LateIn(e), suffixes));
    if exists k :: 0 <= k < |suffixes| && e(suffixes[k]).Behind() then
      PeerVerdict(Lagging, if worst > 0 then Some(worst) else None, unverified)
    else PeerVerdict(if unverified != [] then PartiallyVerified else Synced, None, unverified)
  }

  ghost function PeerVerdictOf(clock: Clock, local: map<string, int>, rs: seq<Reading>, threshold: int): PeerVerdict {
    if forall r :: r in rs ==> r.Failed() then PeerVerdict(Unreachable, None, [])
    else Summary(EvidenceIn(clock, local, rs, threshold), SuffixList(rs))
  }

  // ---- The two loops ---------------------------------------------------------

  datatype Survey = Survey(newest: map<string, int>, verified: set<string>)

  function Surveyed(clock: Clock, rs: seq<Reading>): Survey {
    if rs == [] then Survey(map[], {})
    else
      var was, r := Surveyed(clock, rs[..|rs| - 1]), rs[|rs| - 1];
      if r.Failed() then was
      else Survey(Raised(was.newest, r.suffix, NewestOf(clock, r.csns)), was.verified + {r.suffix})
  }

  lemma {:induction false} SurveyedNewest(clock: Clock, rs: seq<Reading>, s: string)
    ensures NewestAt(Surveyed(clock, rs).newest, clock, rs, s)
  {
    if rs != [] {
      var front, r := rs[..|rs| - 1], rs[|rs| - 1];
      assert rs == front + [r];
      SurveyedNewest(clock, front, s);
      RaisedAt(Surveyed(clock, front).newest, clock, front, r, s);
    }
  }

  lemma {:induction false} SurveyedVerified(clock: Clock, rs: seq<Reading>, s: string)
    ensures s in Surveyed(clock, rs).verified <==> Vectors(rs, s) != []
  {
    if rs != [] {
      var front, r := rs[..|rs| - 1], rs[|rs| - 1];
      assert rs == front + [r];
      SurveyedVerified(clock, front, s);
      VectorsSnoc(front, r, s);
    }
  }

  lemma {:induction false} NothingVerified(clock: Clock, rs: seq<Reading>)
    ensures Surveyed(clock, rs).verified == {} <==> forall r :: r in rs ==> r.Failed()
  {
    if rs != [] {
      var front, r := rs[..|rs| - 1], rs[|rs| - 1];
      assert rs == front + [r];
      NothingVerified(clock, front);
      assert r in rs;
      if !r.Failed() { assert r.suffix in Surveyed(clock, rs).verified; }
    }
  }

  method EvaluatePeerConvergence(clock: Clock, local: map<string, int>, rs: seq<Reading>, threshold: int)
    returns (v: PeerVerdict)
    ensures v == PeerVerdictOf(clock, local, rs, threshold)
  {
    var suffixes := SortedSuffixes(rs);
    var remote: map<string, int>, verified: set<string> := map[], {};
    for i := 0 to |rs|
      invariant Survey(remote, verified) == Surveyed(clock, rs[..i])
    {
      var r := rs[i];
      assert rs[..i + 1][..i] == rs[..i];
      if r.Failed() { continue; }
      verified := verified + {r.suffix};
      var t := NewestCsn(clock, r.csns);
      if t.Some? && t.value > Get(remote, r.suffix, 0) { remote := remote[r.suffix := t.value]; }
    }
    assert rs[..|rs|] == rs;
    NothingVerified(clock, rs);
    if verified == {} { return PeerVerdict(Unreachable, None, []); }
    SurveyWeighs(clock, local, rs, threshold);
    v := Summarize(suffixes, verified, local, remote, threshold, EvidenceIn(clock, local, rs, threshold));
  }

  lemma SurveyWeighs(clock: Clock, local: map<string, int>, rs: seq<Reading>, threshold: int)
    ensures
      var y := Surveyed(clock, rs);
      forall s :: EvidenceIn(clock, local, rs, threshold)(s) == Weigh(s in y.verified, Get(local, s, 0), Get(y.newest, s, 0), threshold)
  {
    var y := Surveyed(clock, rs);
    forall s ensures EvidenceIn(clock, local, rs, threshold)(s) == Weigh(s in y.verified, Get(local, s, 0), Get(y.newest, s, 0), threshold) {
      SurveyedNewest(clock, rs, s);
      SurveyedVerified(clock, rs, s);
    }
  }

  method Summarize(suffixes: seq<string>, verified: set<string>, local: map<string, int>, remote: map<string, int>,
                   threshold: int, ghost e: string -> Evidence) returns (v: PeerVerdict)
    requires forall s :: e(s) == Weigh(s in verified, Get(local, s, 0), Get(remote, s, 0), threshold)
    ensures v == Summary(e, suffixes)
  {
    var sums := Sums([], 0, false);
    for i := 0 to |suffixes|
      invariant sums == Summed(e, suffixes[..i])
    {
      var s := suffixes[i];
      SummedSnoc(e, suffixes, i);
      sums := AddSuffix(sums, s, s in verified, Get(local, s, 0), Get(remote, s, 0), threshold);
    }
    assert suffixes[..|suffixes|] == suffixes;
    SummedMeans(e, suffixes);
    if sums.lagging { return PeerVerdict(Lagging, if sums.maxLag > 0 then Some(sums.maxLag) else None, sums.unverified); }
    if |sums.unverified| > 0 { return PeerVerdict(PartiallyVerified, None, sums.unverified); }
    return PeerVerdict(Synced, None, []);
  }

  /** The body of the loop over suffixes. */
  method AddSuffix(was: Sums, suffix: string, answered: bool, local: int, remote: int, threshold: int) returns (sums: Sums)
    ensures sums == Added(was, suffix, Weigh(answered, local, remote, threshold))
  {
    sums := was;
    if !answered || local == 0 {
      sums := sums.(unverified := sums.unverified + [suffix]);
      return;
    }
    if remote == 0 {
      sums := sums.(lagging := true);
      return;
    }
    var lag := local - remote;
    if lag < 0 { lag := 0; }
    if lag > threshold {
      sums := sums.(lagging := true);
      if lag > sums.maxLag { sums := sums.(maxLag := lag); }
    }
  }

  datatype Sums = Sums(unverified: seq<string>, maxLag: int, lagging: bool)

  function Summed(e: string -> Evidence, suffixes: seq<string>): Sums {
    if suffixes == [] then Sums([], 0, false)
    else
      var s := suffixes[|suffixes| - 1];
      Added(Summed(e, suffixes[..|suffixes| - 1]), s, e(s))
  }

  function Added(was: Sums, s: string, x: Evidence): Sums {
    match x
    case Unverified => was.(unverified := was.unverified + [s])
    case Empty => was.(lagging := true)
    case Late(lag) => Sums(was.unverified, if lag > was.maxLag then lag else was.maxLag, true)
    case Current => was
  }

  lemma SummedSnoc(e: string -> Evidence, suffixes: seq<string>, i: int)
    requires 0 <= i < |suffixes|
    ensures Summed(e, suffixes[..i + 1]) == Added(Summed(e, suffixes[..i]), suffixes[i], e(suffixes[i]))
  {
    assert suffixes[..i + 1][..i] == suffixes[..i];
  }

  lemma {:induction false} SummedMeans(e: string -> Evidence, suffixes: seq<string>)
    ensures
      var sums := Summed(e, suffixes);
      && sums.unverified == Pick(UnverifiedIn(e), suffixes) && sums.maxLag == Peak(Pick(LateIn(e), suffixes))
      && (sums.lagging <==> exists k :: 0 <= k < |suffixes| && e(suffixes[k]).Behind())
  {
    if suffixes != [] {
      var front, s := suffixes[..|suffixes| - 1], suffixes[|suffixes| - 1];
      SummedMeans(e, front);
      assert suffixes == front + [s];
      PickSnoc(UnverifiedIn(e), front, s);
      PickSnoc(LateIn(e), front, s);
      if e(s).Late? { PeakSnoc(Pick(LateIn(e), front), e(s).lag); }
      if e(s).Behind() { assert e(suffixes[|suffixes| - 1]).Behind(); }
    }
  }

  // ---- What the verdict means ------------------------------------------------

  /** Both sides read the database. */
  ghost predicate Comparable(local: map<string, int>, rs: seq<Reading>, s: string) {
    Get(local, s, 0) != 0 && exists r :: r in rs && r.suffix == s && !r.Failed()
  }

  /** Some address of the peer is at most the threshold behind. */
  ghost predicate UpToDate(clock: Clock, local: map<string, int>, rs: seq<Reading>, threshold: int, s: string) {
    threshold >= 0 && exists k :: Stamped(clock, rs, s, k) && Get(local, s, 0) - Stamp(clock, rs[k], s).value <= threshold
  }

  lemma AnsweredMeans(rs: seq<Reading>, s: string)
    ensures Vectors(rs, s) != [] <==> exists r :: r in rs && r.suffix == s && !r.Failed()
  {
    PickNothing(VectorIn(s), rs);
    if Vectors(rs, s) != [] {
      var i :| 0 <= i < |rs| && VectorIn(s)(rs[i]).Some?;
      assert rs[i] in rs;
    }
    if r :| r in rs && r.suffix == s && !r.Failed() {
      var i :| 0 <= i < |rs| && rs[i] == r;
      assert VectorIn(s)(rs[i]).Some?;
    }
  }

  /** The newest of the peer's times is within the threshold when any is. */
  lemma NewestIsWithin(clock: Clock, rs: seq<Reading>, s: string, bound: int)
    ensures
      (Peak(Stamps(clock, rs, s)) > 0 && Peak(Stamps(clock, rs, s)) >= bound) <==>
      exists k :: Stamped(clock, rs, s, k) && Stamp(clock, rs[k], s).value >= bound
  {
    var ts := Stamps(clock, rs, s);
    PeakMeans(ts);
    if Peak(ts) > 0 { StampsHas(clock, rs, s, Peak(ts)); }
    if k :| Stamped(clock, rs, s, k) && Stamp(clock, rs[k], s).value >= bound {
      StampsHas(clock, rs, s, Stamp(clock, rs[k], s).value);
    }
  }

  lemma EvidenceMeans(clock: Clock, local: map<string, int>, rs: seq<Reading>, threshold: int, s: string)
    ensures
      var e := EvidenceOf(clock, local, rs, threshold, s);
      && (e.Unverified? <==> !Comparable(local, rs, s))
      && (e.Current? <==> Comparable(local, rs, s) && UpToDate(clock, local, rs, threshold, s))
  {
    AnsweredMeans(rs, s);
    PeakMeans(Stamps(clock, rs, s));
    NewestIsWithin(clock, rs, s, Get(local, s, 0) - threshold);
    WithinIs(clock, local, rs, threshold, s);
  }

  lemma WithinIs(clock: Clock, local: map<string, int>, rs: seq<Reading>, threshold: int, s: string)
    ensures UpToDate(clock, local, rs, threshold, s) <==>
      threshold >= 0 && exists k :: Stamped(clock, rs, s, k) && Stamp(clock, rs[k], s).value >= Get(local, s, 0) - threshold
  {
  }

  /** The summary's state, by the evidence alone. */
  lemma SummaryMeans(e: string -> Evidence, suffixes: seq<string>)
    ensures
      var state := Summary(e, suffixes).state;
      && (state == Lagging <==> exists s :: s in suffixes && e(s).Behind())
      && (state == Synced <==> forall s :: s in suffixes ==> e(s).Current?)
      && state != Unreachable
  {
    PickNothing(UnverifiedIn(e), suffixes);
    if s :| s in suffixes && e(s).Behind() {
      var k :| 0 <= k < |suffixes| && suffixes[k] == s;
      assert e(suffixes[k]).Behind();
    } else {
      if Summary(e, suffixes).state == Synced {
        forall s | s in suffixes ensures e(s).Current? {
          var k :| 0 <= k < |suffixes| && suffixes[k] == s;
          assert UnverifiedIn(e)(suffixes[k]).None?;
        }
      } else {
        var k :| 0 <= k < |suffixes| && UnverifiedIn(e)(suffixes[k]).Some?;
        assert suffixes[k] in suffixes;
      }
    }
  }

  lemma StateByEvidence(clock: Clock, local: map<string, int>, rs: seq<Reading>, threshold: int)
    requires exists r :: r in rs && !r.Failed()
    ensures
      var state, e := PeerVerdictOf(clock, local, rs, threshold).state, EvidenceIn(clock, local, rs, threshold);
      && state != Unreachable
      && (state == Lagging <==> exists s :: s in Suffixes(rs) && e(s).Behind())
      && (state == Synced <==> forall s :: s in Suffixes(rs) ==> e(s).Current?)
  {
    SuffixListIsExact(rs);
    SummaryMeans(EvidenceIn(clock, local, rs, threshold), SuffixList(rs));
  }

  /** The four states partition the evidence, and say this of it. */
  lemma PeerVerdictMeans(clock: Clock, local: map<string, int>, rs: seq<Reading>, threshold: int)
    ensures
      var state := PeerVerdictOf(clock, local, rs, threshold).state;
      && (state == Unreachable <==> forall r :: r in rs ==> r.Failed())
      && (state == Lagging <==> exists s :: s in Suffixes(rs) && Comparable(local, rs, s) && !UpToDate(clock, local, rs, threshold, s))
      && (state == Synced <==>
            rs != [] && forall s :: s in Suffixes(rs) ==> Comparable(local, rs, s) && UpToDate(clock, local, rs, threshold, s))
  {
    if exists r :: r in rs && !r.Failed() {
      StateByEvidence(clock, local, rs, threshold);
      EvidenceEverywhere(clock, local, rs, threshold);
    } else if rs != [] {
      assert rs[0] in rs && rs[0].suffix in Suffixes(rs);
      assert !Comparable(local, rs, rs[0].suffix);
    }
  }

  lemma EvidenceEverywhere(clock: Clock, local: map<string, int>, rs: seq<Reading>, threshold: int)
    ensures
      var e := EvidenceIn(clock, local, rs, threshold);
      forall s ::
        && (e(s).Unverified? <==> !Comparable(local, rs, s))
        && (e(s).Current? <==> Comparable(local, rs, s) && UpToDate(clock, local, rs, threshold, s))
  {
    var e := EvidenceIn(clock, local, rs, threshold);
    forall s ensures
      && (e(s).Unverified? <==> !Comparable(local, rs, s))
      && (e(s).Current? <==> Comparable(local, rs, s) && UpToDate(clock, local, rs, threshold, s))
    {
      EvidenceMeans(clock, local, rs, threshold, s);
    }
  }

  /** The latest of the peer's times for the database is x behind our own. */
  ghost predicate BehindBy(clock: Clock, local: map<string, int>, rs: seq<Reading>, s: string, x: int) {
    exists k :: Stamped(clock, rs, s, k) && Get(local, s, 0) - Stamp(clock, rs[k], s).value == x
      && forall q :: Stamped(clock, rs, s, q) ==> Stamp(clock, rs[q], s).value <= Stamp(clock, rs[k], s).value
  }

  /** What is reported as lag is how far some database is behind, by more than the
      threshold, and no database read on both sides is further behind. */
  lemma ReportedLagIsTheWorst(clock: Clock, local: map<string, int>, rs: seq<Reading>, threshold: int)
    ensures
      var v := PeerVerdictOf(clock, local, rs, threshold);
      && (v.lag.Some? ==>
            && v.lag.value > 0 && v.lag.value > threshold
            && exists s :: s in Suffixes(rs) && Comparable(local, rs, s) && BehindBy(clock, local, rs, s, v.lag.value))
      && forall s, x :: s in Suffixes(rs) && Comparable(local, rs, s) && BehindBy(clock, local, rs, s, x) && x > threshold && x > 0 ==>
           v.lag.Some? && x <= v.lag.value
  {
    var v, e := PeerVerdictOf(clock, local, rs, threshold), EvidenceIn(clock, local, rs, threshold);
    EvidenceLagIsTheWorst(clock, local, rs, threshold);
    if v.lag.Some? {
      var s :| s in Suffixes(rs) && e(s) == Late(v.lag.value);
      LateMeans(clock, local, rs, threshold, s, v.lag.value);
    }
    forall s, x | s in Suffixes(rs) && Comparable(local, rs, s) && BehindBy(clock, local, rs, s, x) && x > threshold && x > 0
      ensures v.lag.Some? && x <= v.lag.value
    {
      LateMeans(clock, local, rs, threshold, s, x);
      LateIsLagging(clock, local, rs, threshold, s);
    }
  }

  lemma LatestStamp(clock: Clock, rs: seq<Reading>, s: string, t: int)
    ensures Peak(Stamps(clock, rs, s)) == t && t > 0 <==>
      exists k :: Stamped(clock, rs, s, k) && Stamp(clock, rs[k], s).value == t
        && forall q :: Stamped(clock, rs, s, q) ==> Stamp(clock, rs[q], s).value <= t
  {
    var ts := Stamps(clock, rs, s);
    PeakMeans(ts);
    forall q | Stamped(clock, rs, s, q) ensures Stamp(clock, rs[q], s).value in ts { StampsHas(clock, rs, s, Stamp(clock, rs[q], s).value); }
    if Peak(ts) > 0 { StampsHas(clock, rs, s, Peak(ts)); }
  }

  lemma LateMeans(clock: Clock, local: map<string, int>, rs: seq<Reading>, threshold: int, s: string, x: int)
    requires x > 0
    ensures EvidenceOf(clock, local, rs, threshold, s) == Late(x) <==>
      Comparable(local, rs, s) && BehindBy(clock, local, rs, s, x) && x > threshold
  {
    AnsweredMeans(rs, s);
    PeakMeans(Stamps(clock, rs, s));
    LatestStamp(clock, rs, s, Get(local, s, 0) - x);
    BehindMeans(clock, local, rs, s, x);
  }

  lemma BehindMeans(clock: Clock, local: map<string, int>, rs: seq<Reading>, s: string, x: int)
    ensures
      var t := Get(local, s, 0) - x;
      BehindBy(clock, local, rs, s, x) <==>
      exists k :: Stamped(clock, rs, s, k) && Stamp(clock, rs[k], s).value == t
        && forall q :: Stamped(clock, rs, s, q) ==> Stamp(clock, rs[q], s).value <= t
  {
  }

  lemma LateIsLagging(clock: Clock, local: map<string, int>, rs: seq<Reading>, threshold: int, s: string)
    requires s in Suffixes(rs) && EvidenceOf(clock, local, rs, threshold, s).Late?
    ensures PeerVerdictOf(clock, local, rs, threshold).state == Lagging
  {
    EvidenceMeans(clock, local, rs, threshold, s);
    PeerVerdictMeans(clock, local, rs, threshold);
  }

  /** The unverified suffixes are named: each database asked about that one side could
      not read, once, in order; none where nothing answered at all. */
  lemma UnverifiedAreNamed(clock: Clock, local: map<string, int>, rs: seq<Reading>, threshold: int)
    ensures
      var v := PeerVerdictOf(clock, local, rs, threshold);
      && Sorted(v.unverified) && Distinct(v.unverified)
      && forall s :: s in v.unverified <==> v.state != Unreachable && s in Suffixes(rs) && !Comparable(local, rs, s)
  {
    SuffixListIsExact(rs);
    SummaryNames(EvidenceIn(clock, local, rs, threshold), SuffixList(rs));
    EvidenceEverywhere(clock, local, rs, threshold);
  }

  lemma SummaryNames(e: string -> Evidence, list: seq<string>)
    requires Sorted(list) && Distinct(list)
    ensures
      var v := Summary(e, list);
      && v.state != Unreachable && Sorted(v.unverified) && Distinct(v.unverified)
      && forall s :: s in v.unverified <==> s in list && e(s).Unverified?
  {
    UnverifiedOf(e, list);
  }

  lemma {:induction false} UnverifiedOf(e: string -> Evidence, list: seq<string>)
    requires Sorted(list) && Distinct(list)
    ensures
      var us := Pick(UnverifiedIn(e), list);
      Sorted(us) && Distinct(us) && forall s :: s in us <==> s in list && e(s).Unverified?
  {
    if list != [] {
      var front, last := list[..|list| - 1], list[|list| - 1];
      UnverifiedOf(e, front);
      assert list == front + [last] && last !in front;
      PickSnoc(UnverifiedIn(e), front, last);
      if e(last).Unverified? { AppendKeepsOrder(list, Pick(UnverifiedIn(e), front)); }
    }
  }

  lemma AppendKeepsOrder(list: seq<string>, us: seq<string>)
    requires list != [] && Sorted(list) && Distinct(list) && Sorted(us) && Distinct(us)
    requires forall u :: u in us ==> u in list[..|list| - 1]
    ensures Sorted(us + [list[|list| - 1]]) && Distinct(us + [list[|list| - 1]])
  {
    var front, last := list[..|list| - 1], list[|list| - 1];
    forall i | 0 <= i < |us| ensures Le(us[i], last) && us[i] != last {
      assert us[i] in us && us[i] in front;
      var j :| 0 <= j < |front| && front[j] == us[i];
      assert list[j] == us[i] && Le(list[j], list[|list| - 1]);
    }
  }

  lemma EvidenceLagIsTheWorst(clock: Clock, local: map<string, int>, rs: seq<Reading>, threshold: int)
    ensures
      var v, e := PeerVerdictOf(clock, local, rs, threshold), EvidenceIn(clock, local, rs, threshold);
      && (v.lag.Some? ==> v.lag.value > 0 && exists s :: s in Suffixes(rs) && e(s) == Late(v.lag.value))
      && (v.state == Lagging ==> forall s :: s in Suffixes(rs) && e(s).Late? && e(s).lag > 0 ==> v.lag.Some? && e(s).lag <= v.lag.value)
  {
    SuffixListIsExact(rs);
    LagOfSummary(EvidenceIn(clock, local, rs, threshold), SuffixList(rs));
  }

  lemma LagOfSummary(e: string -> Evidence, list: seq<string>)
    ensures
      var v := Summary(e, list);
      && (v.lag.Some? ==> v.lag.value > 0 && exists s :: s in list && e(s) == Late(v.lag.value))
      && (v.state == Lagging ==> forall s :: s in list && e(s).Late? && e(s).lag > 0 ==> v.lag.Some? && e(s).lag <= v.lag.value)
  {
    LagsAre(e, list);
    PeakMeans(Pick(LateIn(e), list));
  }

  lemma LagsAre(e: string -> Evidence, list: seq<string>)
    ensures forall x :: x in Pick(LateIn(e), list) ==> exists s :: s in list && e(s) == Late(x)
    ensures forall s :: s in list && e(s).Late? ==> e(s).lag in Pick(LateIn(e), list)
  {
    var lags := Pick(LateIn(e), list);
    forall x | x in lags ensures exists s :: s in list && e(s) == Late(x) {
      PickHas(LateIn(e), list, x);
      var k :| 0 <= k < |list| && LateIn(e)(list[k]) == Some(x);
      assert list[k] in list && e(list[k]) == Late(x);
    }
    forall s | s in list && e(s).Late? ensures e(s).lag in lags {
      var k :| 0 <= k < |list| && list[k] == s;
      assert LateIn(e)(list[k]) == Some(e(s).lag);
      PickHas(LateIn(e), list, e(s).lag);
    }
  }

  // ---- The order of the readings does not matter -----------------------------

  lemma PeerIsOrderFree(clock: Clock, local: map<string, int>, a: seq<Reading>, b: seq<Reading>, threshold: int)
    requires multiset(a) == multiset(b)
    ensures PeerVerdictOf(clock, local, a, threshold) == PeerVerdictOf(clock, local, b, threshold)
  {
    SameElements(a, b);
    SuffixListPermutes(a, b);
    var e, f := EvidenceIn(clock, local, a, threshold), EvidenceIn(clock, local, b, threshold);
    forall s ensures e(s) == f(s) { EvidencePermutes(clock, local, a, b, threshold, s); }
    SummarySame(e, f, SuffixList(a));
  }

  lemma EvidencePermutes(clock: Clock, local: map<string, int>, a: seq<Reading>, b: seq<Reading>, threshold: int, s: string)
    requires multiset(a) == multiset(b)
    ensures EvidenceOf(clock, local, a, threshold, s) == EvidenceOf(clock, local, b, threshold, s)
  {
    SameElements(a, b);
    AnsweredMeans(a, s);
    AnsweredMeans(b, s);
    ReadoutPermutes(clock, a, b, s);
  }

  lemma SummarySame(e: string -> Evidence, f: string -> Evidence, suffixes: seq<string>)
    requires forall s :: e(s) == f(s)
    ensures Summary(e, suffixes) == Summary(f, suffixes)
  {
    PickSame(UnverifiedIn(e), UnverifiedIn(f), suffixes);
    PickSame(LateIn(e), LateIn(f), suffixes);
  }

  // ---- Losing evidence -------------------------------------------------------

  /** Replacing one of the peer's readings by a failed one never makes it Synced. */
  lemma LostPeerReadingIsNoGoodNews(clock: Clock, local: map<string, int>, rs: seq<Reading>, threshold: int, i: nat, lost: Reading)
    requires i < |rs| && lost.Failed() && lost.suffix == rs[i].suffix
    requires PeerVerdictOf(clock, local, rs[i := lost], threshold).state == Synced
    ensures PeerVerdictOf(clock, local, rs, threshold).state == Synced
  {
    var now := rs[i := lost];
    PeerVerdictMeans(clock, local, rs, threshold);
    PeerVerdictMeans(clock, local, now, threshold);
    SameSuffixes(rs, i, lost);
    forall s | s in Suffixes(rs) ensures Comparable(local, rs, s) && UpToDate(clock, local, rs, threshold, s) {
      StillUpToDate(clock, local, rs, threshold, i, lost, s);
    }
  }

  lemma SameSuffixes(rs: seq<Reading>, i: nat, lost: Reading)
    requires i < |rs| && lost.suffix == rs[i].suffix
    ensures Suffixes(rs[i := lost]) == Suffixes(rs)
  {
    var now := rs[i := lost];
    forall s | s in Suffixes(rs) ensures s in Suffixes(now) {
      var k :| 0 <= k < |rs| && rs[k].suffix == s;
      assert now[k] in now && now[k].suffix == s;
    }
    forall s | s in Suffixes(now) ensures s in Suffixes(rs) {
      var k :| 0 <= k < |now| && now[k].suffix == s;
      assert rs[k] in rs && rs[k].suffix == s;
    }
  }

  lemma StillUpToDate(clock: Clock, local: map<string, int>, rs: seq<Reading>, threshold: int, i: nat, lost: Reading, s: string)
    requires i < |rs| && lost.Failed()
    requires Comparable(local, rs[i := lost], s) && UpToDate(clock, local, rs[i := lost], threshold, s)
    ensures Comparable(local, rs, s) && UpToDate(clock, local, rs, threshold, s)
  {
    var now := rs[i := lost];
    var k :| Stamped(clock, now, s, k) && Get(local, s, 0) - Stamp(clock, now[k], s).value <= threshold;
    assert now[k] == rs[k] && rs[k] in rs;
    assert Stamped(clock, rs, s, k);
  }

  lemma OneReading(clock: Clock, local: map<string, int>, r: Reading, threshold: int)
    requires Stamp(clock, r, r.suffix).Some? && Get(local, r.suffix, 0) != 0 && threshold >= 0
    ensures PeerVerdictOf(clock, local, [r], threshold).state ==
      if Get(local, r.suffix, 0) - Stamp(clock, r, r.suffix).value <= threshold then Synced else Lagging
  {
    PeerVerdictMeans(clock, local, [r], threshold);
    assert [r][0] in [r] && Suffixes([r]) == {r.suffix} && Stamped(clock, [r], r.suffix, 0);
  }

  lemma OneReadingOneFailure(clock: Clock, local: map<string, int>, r: Reading, failed: Reading, threshold: int)
    requires Stamp(clock, r, r.suffix).Some? && failed.Failed() && failed.suffix != r.suffix
    requires Get(local, r.suffix, 0) - Stamp(clock, r, r.suffix).value <= threshold && threshold >= 0
    ensures PeerVerdictOf(clock, local, [r, failed], threshold).state == PartiallyVerified
  {
    var rs := [r, failed];
    PeerVerdictMeans(clock, local, rs, threshold);
    assert rs[0] in rs && rs[1] in rs && Stamped(clock, rs, r.suffix, 0);
    assert forall x :: x in rs ==> x == r || x == failed;
    assert failed.suffix in Suffixes(rs) && !Comparable(local, rs, failed.suffix);
  }

  /** A reading dropped from the list rather than failed does: the database it
      spoke of is no longer asked about. */
  lemma DroppedReadingIsGoodNews()
    ensures
      var clock: Clock := c => Some(|c|);
      var local := map["a" := 1, "b" := 1];
      var read, failed := Reading("p", "a", "", ["c"]), Reading("p", "b", "timeout", []);
      && PeerVerdictOf(clock, local, [read, failed], 0).state == PartiallyVerified
      && PeerVerdictOf(clock, local, [read], 0).state == Synced
  {
    var clock: Clock := c => Some(|c|);
    var local := map["a" := 1, "b" := 1];
    var read, failed := Reading("p", "a", "", ["c"]), Reading("p", "b", "timeout", []);
    OneCsn(clock, "c");
    assert "a" != "b" by { assert "a"[0] != "b"[0]; }
    OneReading(clock, local, read, 0);
    OneReadingOneFailure(clock, local, read, failed, 0);
  }

  /** The reading would make its database current all by itself. */
  predicate CurrentAlone(clock: Clock, local: map<string, int>, r: Reading, threshold: int) {
    var t := Stamp(clock, r, r.suffix);
    threshold >= 0 && Get(local, r.suffix, 0) != 0 && t.Some? && Get(local, r.suffix, 0) - t.value <= threshold
  }

  /** Dropping a reading turns a peer Synced exactly when the other databases are
      current on what remains, no other reading speaks of this one's database, and
      this one does not show it current. */
  lemma DroppedReadingHelpsExactlyWhen(clock: Clock, local: map<string, int>, rs: seq<Reading>, i: nat, threshold: int)
    requires i < |rs|
    ensures
      var rest, r := rs[..i] + rs[i + 1..], rs[i];
      PeerVerdictOf(clock, local, rest, threshold).state == Synced && PeerVerdictOf(clock, local, rs, threshold).state != Synced <==>
      && rest != []
      && (forall s :: s in Suffixes(rest) ==> Comparable(local, rest, s) && UpToDate(clock, local, rest, threshold, s))
      && r.suffix !in Suffixes(rest) && !CurrentAlone(clock, local, r, threshold)
  {
    var rest, r := rs[..i] + rs[i + 1..], rs[i];
    assert multiset(rs) == multiset(rest + [r]) by { assert rs == rs[..i] + [r] + rs[i + 1..]; }
    PeerIsOrderFree(clock, local, rs, rest + [r], threshold);
    PeerVerdictMeans(clock, local, rest, threshold);
    if PeerVerdictOf(clock, local, rest, threshold).state == Synced { SyncedWithOneMore(clock, local, rest, r, threshold); }
  }

  lemma SyncedWithOneMore(clock: Clock, local: map<string, int>, rest: seq<Reading>, r: Reading, threshold: int)
    requires forall s :: s in Suffixes(rest) ==> Comparable(local, rest, s) && UpToDate(clock, local, rest, threshold, s)
    ensures PeerVerdictOf(clock, local, rest + [r], threshold).state == Synced <==>
      r.suffix in Suffixes(rest) || CurrentAlone(clock, local, r, threshold)
  {
    var all := rest + [r];
    PeerVerdictMeans(clock, local, all, threshold);
    SuffixesSnoc(rest, r);
    forall s | s in Suffixes(rest) ensures Comparable(local, all, s) && UpToDate(clock, local, all, threshold, s) {
      StillCurrentWithOneMore(clock, local, rest, r, threshold, s);
    }
    if r.suffix !in Suffixes(rest) { AloneDecides(clock, local, rest, r, threshold); }
  }

  lemma StillCurrentWithOneMore(clock: Clock, local: map<string, int>, rest: seq<Reading>, r: Reading, threshold: int, s: string)
    requires Comparable(local, rest, s) && UpToDate(clock, local, rest, threshold, s)
    ensures Comparable(local, rest + [r], s) && UpToDate(clock, local, rest + [r], threshold, s)
  {
    var all := rest + [r];
    var k :| Stamped(clock, rest, s, k) && Get(local, s, 0) - Stamp(clock, rest[k], s).value <= threshold;
    assert all[k] == rest[k] && all[k] in all;
    assert Stamped(clock, all, s, k);
  }

  lemma AloneDecides(clock: Clock, local: map<string, int>, rest: seq<Reading>, r: Reading, threshold: int)
    requires r.suffix !in Suffixes(rest)
    ensures Comparable(local, rest + [r], r.suffix) && UpToDate(clock, local, rest + [r], threshold, r.suffix) <==>
      CurrentAlone(clock, local, r, threshold)
  {
    var all, n := rest + [r], |rest|;
    assert all[n] == r && all[n] in all;
    forall k | 0 <= k < n ensures all[k].suffix != r.suffix {
      assert all[k] == rest[k] && rest[k] in rest;
    }
    if CurrentAlone(clock, local, r, threshold) { assert Stamped(clock, all, r.suffix, n); }
  }

  /** The baseline with and without one local reading. */
  lemma BaselineWithout(clock: Clock, locals: seq<Reading>, i: nat, lost: Reading, s: string)
    requires i < |locals| && lost.Failed() && lost.suffix == locals[i].suffix
    ensures
      var before, after := NewestBySuffix(clock, locals), NewestBySuffix(clock, locals[i := lost]);
      var t := Stamp(clock, locals[i], s);
      Get(before, s, 0) == if t.Some? && t.value > Get(after, s, 0) then t.value else Get(after, s, 0)
  {
    NewestIsPeak(clock, locals, s);
    NewestIsPeak(clock, locals[i := lost], s);
    var x, y := StampsWithout(clock, locals, i, lost, s);
    PeakWithout(x, Stamp(clock, locals[i], s), y);
  }

  lemma StampsWithout(clock: Clock, rs: seq<Reading>, i: nat, lost: Reading, s: string) returns (x: seq<int>, y: seq<int>)
    requires i < |rs| && lost.Failed()
    ensures Stamps(clock, rs, s) == x + Picked(Stamp(clock, rs[i], s)) + y && Stamps(clock, rs[i := lost], s) == x + y
  {
    assert StampIn(clock, s)(lost).None?;
    x, y := PickReplaced(StampIn(clock, s), rs, i, lost);
  }

  lemma NewestIsPeak(clock: Clock, rs: seq<Reading>, s: string)
    ensures Get(NewestBySuffix(clock, rs), s, 0) == Peak(Stamps(clock, rs, s))
  {
    if s !in Suffixes(rs) { NoStamps(clock, rs, s); }
  }

  lemma PeakWithout(x: seq<int>, t: Option<int>, y: seq<int>)
    ensures Peak(x + Picked(t) + y) == if t.Some? && t.value > Peak(x + y) then t.value else Peak(x + y)
  {
    var all, rest := x + Picked(t) + y, x + y;
    PeakMeans(all);
    PeakMeans(rest);
    assert forall z :: z in all <==> z in rest || (t.Some? && z == t.value);
    assert t.Some? ==> t.value in all;
    assert Peak(rest) > 0 ==> Peak(rest) in all;
  }

  /** Some address of the peer is at most the threshold behind every local pod but
      pod i, and there is such a pod. */
  ghost predicate MatchesTheOthers(clock: Clock, locals: seq<Reading>, i: nat, rs: seq<Reading>, threshold: int, s: string) {
    && (exists q :: q != i && Stamped(clock, locals, s, q))
    && exists k :: Stamped(clock, rs, s, k) &&
         forall q :: q != i && Stamped(clock, locals, s, q) ==>
           Stamp(clock, locals[q], s).value - Stamp(clock, rs[k], s).value <= threshold
  }

  /** The lost pod was ahead of every address of the peer by more than that. */
  ghost predicate AheadOfAll(clock: Clock, lost: Reading, rs: seq<Reading>, threshold: int) {
    && lost.suffix in Suffixes(rs) && Stamp(clock, lost, lost.suffix).Some?
    && forall k :: Stamped(clock, rs, lost.suffix, k) ==>
         Stamp(clock, lost, lost.suffix).value - Stamp(clock, rs[k], lost.suffix).value > threshold
  }

  /** Losing a reading on our own side turns a peer Synced exactly when, in every
      database asked about, the peer matches the local pods that are left, and the
      lost pod was ahead of every address of the peer by more than the threshold. */
  lemma LostLocalReadingMasksExactlyWhen(clock: Clock, locals: seq<Reading>, rs: seq<Reading>, threshold: int, i: nat, lost: Reading)
    requires i < |locals| && lost.Failed() && lost.suffix == locals[i].suffix
    ensures
      && PeerVerdictOf(clock, NewestBySuffix(clock, locals[i := lost]), rs, threshold).state == Synced
      && PeerVerdictOf(clock, NewestBySuffix(clock, locals), rs, threshold).state != Synced
      <==>
      && rs != [] && threshold >= 0
      && (forall s :: s in Suffixes(rs) ==> MatchesTheOthers(clock, locals, i, rs, threshold, s))
      && AheadOfAll(clock, locals[i], rs, threshold)
  {
    SyncedWithoutTheLost(clock, locals, rs, threshold, i, lost);
    if PeerVerdictOf(clock, NewestBySuffix(clock, locals[i := lost]), rs, threshold).state == Synced {
      LostReadingDecides(clock, locals, rs, threshold, i, lost);
    }
  }

  lemma SyncedWithoutTheLost(clock: Clock, locals: seq<Reading>, rs: seq<Reading>, threshold: int, i: nat, lost: Reading)
    requires i < |locals| && lost.Failed() && lost.suffix == locals[i].suffix
    ensures PeerVerdictOf(clock, NewestBySuffix(clock, locals[i := lost]), rs, threshold).state == Synced <==>
      rs != [] && threshold >= 0 && forall s :: s in Suffixes(rs) ==> MatchesTheOthers(clock, locals, i, rs, threshold, s)
  {
    var after := NewestBySuffix(clock, locals[i := lost]);
    PeerVerdictMeans(clock, after, rs, threshold);
    forall s ensures Comparable(after, rs, s) && UpToDate(clock, after, rs, threshold, s) <==>
      threshold >= 0 && MatchesTheOthers(clock, locals, i, rs, threshold, s)
    {
      CurrentWithoutTheLost(clock, locals, rs, threshold, i, lost, s);
    }
    if rs != [] { assert rs[0] in rs && rs[0].suffix in Suffixes(rs); }
  }

  /** What is left of the local evidence, pod by pod. */
  lemma BaselineIsTheOthers(clock: Clock, locals: seq<Reading>, i: nat, lost: Reading, s: string, bound: int)
    requires i < |locals| && lost.Failed()
    ensures
      var b := Get(NewestBySuffix(clock, locals[i := lost]), s, 0);
      && b >= 0 && (b != 0 <==> exists q :: q != i && Stamped(clock, locals, s, q))
      && (b != 0 ==> (b <= bound <==> forall q :: q != i && Stamped(clock, locals, s, q) ==> Stamp(clock, locals[q], s).value <= bound))
  {
    var now := locals[i := lost];
    var ts := Stamps(clock, now, s);
    NewestIsPeak(clock, now, s);
    PeakMeans(ts);
    StampsArePositive(clock, now, s);
    forall q ensures Stamped(clock, now, s, q) <==> q != i && Stamped(clock, locals, s, q) {
      if 0 <= q < |locals| && q != i { assert now[q] == locals[q]; }
    }
    forall q | Stamped(clock, now, s, q) ensures Stamp(clock, locals[q], s).value <= Peak(ts) && ts != [] {
      StampsHas(clock, now, s, Stamp(clock, now[q], s).value);
    }
    if Peak(ts) > 0 {
      StampsHas(clock, now, s, Peak(ts));
      var q :| Stamped(clock, now, s, q) && Stamp(clock, now[q], s).value == Peak(ts);
      assert q != i && Stamped(clock, locals, s, q);
    }
  }

  lemma CurrentWithoutTheLost(clock: Clock, locals: seq<Reading>, rs: seq<Reading>, threshold: int, i: nat, lost: Reading, s: string)
    requires i < |locals| && lost.Failed()
    ensures
      var after := NewestBySuffix(clock, locals[i := lost]);
      Comparable(after, rs, s) && UpToDate(clock, after, rs, threshold, s) <==>
      threshold >= 0 && MatchesTheOthers(clock, locals, i, rs, threshold, s)
  {
    var after := NewestBySuffix(clock, locals[i := lost]);
    BaselineIsTheOthers(clock, locals, i, lost, s, 0);
    forall k | Stamped(clock, rs, s, k) && Get(after, s, 0) != 0
      ensures Get(after, s, 0) - Stamp(clock, rs[k], s).value <= threshold <==>
        forall q :: q != i && Stamped(clock, locals, s, q) ==> Stamp(clock, locals[q], s).value - Stamp(clock, rs[k], s).value <= threshold
      ensures rs[k] in rs && rs[k].suffix == s && !rs[k].Failed()
    {
      BaselineIsTheOthers(clock, locals, i, lost, s, threshold + Stamp(clock, rs[k], s).value);
    }
  }

  /** Given the verdict without it, the lost reading alone decides the one with it. */
  lemma LostReadingDecides(clock: Clock, locals: seq<Reading>, rs: seq<Reading>, threshold: int, i: nat, lost: Reading)
    requires i < |locals| && lost.Failed() && lost.suffix == locals[i].suffix
    requires PeerVerdictOf(clock, NewestBySuffix(clock, locals[i := lost]), rs, threshold).state == Synced
    ensures PeerVerdictOf(clock, NewestBySuffix(clock, locals), rs, threshold).state != Synced <==>
      AheadOfAll(clock, locals[i], rs, threshold)
  {
    var before, after := NewestBySuffix(clock, locals), NewestBySuffix(clock, locals[i := lost]);
    PeerVerdictMeans(clock, before, rs, threshold);
    PeerVerdictMeans(clock, after, rs, threshold);
    forall s | s in Suffixes(rs)
      ensures Comparable(before, rs, s)
      ensures UpToDate(clock, before, rs, threshold, s) <==>
        (Stamp(clock, locals[i], s).Some? ==>
          exists k :: Stamped(clock, rs, s, k) && Stamp(clock, locals[i], s).value - Stamp(clock, rs[k], s).value <= threshold)
    {
      BaselineWithout(clock, locals, i, lost, s);
      PeakMeans(Stamps(clock, locals[i := lost], s));
      NewestIsPeak(clock, locals[i := lost], s);
    }
  }

  /** It happens: one pod four ticks on, one pod and the peer at one tick. */
  lemma LostLocalReadingMasksALag()
    ensures
      var clock: Clock := c => Some(|c|);
      var ahead, behind, lost := Reading("p0", "d", "", ["cccc"]), Reading("p1", "d", "", ["c"]), Reading("p0", "d", "timeout", []);
      var peer := [Reading("q0", "d", "", ["c"])];
      && PeerVerdictOf(clock, NewestBySuffix(clock, [ahead, behind]), peer, 1).state == Lagging
      && PeerVerdictOf(clock, NewestBySuffix(clock, [lost, behind]), peer, 1).state == Synced
  {
    var clock: Clock := c => Some(|c|);
    var ahead, behind, lost := Reading("p0", "d", "", ["cccc"]), Reading("p1", "d", "", ["c"]), Reading("p0", "d", "timeout", []);
    var peer := [Reading("q0", "d", "", ["c"])];
    OneCsn(clock, "c");
    OneCsn(clock, "cccc");
    TwoPods(clock, ahead, behind, "d");
    TwoPods(clock, lost, behind, "d");
    OneReading(clock, NewestBySuffix(clock, [ahead, behind]), peer[0], 1);
    OneReading(clock, NewestBySuffix(clock, [lost, behind]), peer[0], 1);
  }

  lemma TwoPods(clock: Clock, a: Reading, b: Reading, s: string)
    requires Stamp(clock, b, s).Some?
    ensures
      var x, y := Stamp(clock, a, s), Stamp(clock, b, s).value;
      Get(NewestBySuffix(clock, [a, b]), s, 0) == if x.Some? && x.value > y then x.value else y
  {
    NewestIsPeak(clock, [a, b], s);
    StampsOfTwo(clock, a, b, s);
    PeakOfTwo(Stamp(clock, a, s), Stamp(clock, b, s).value);
  }

  lemma StampsOfTwo(clock: Clock, a: Reading, b: Reading, s: string)
    ensures Stamps(clock, [a, b], s) == Picked(Stamp(clock, a, s)) + Picked(Stamp(clock, b, s))
  {
    var f := StampIn(clock, s);
    assert [a, b] == [a] + [b] && [a] == [] + [a];
    PickSnoc(f, [a], b);
    PickSnoc(f, [], a);
  }

  lemma PeakOfTwo(x: Option<int>, y: int)
    requires y > 0
    ensures Peak(Picked(x) + [y]) == if x.Some? && x.value > y then x.value else y
  {
    PeakSnoc(Picked(x), y);
    if x.Some? { PeakSnoc([], x.value); }
  }
}
