/** contextCSN evidence and the verdicts drawn from it (csn.go, csn_convergence.go).
    Times are ticks since Go's zero time, so 0 is "no time". */
module Csn {
  import opened Prelude
  import opened Text
  import opened Sorting

  /** parseCSNTime; None is an error. */
  type Clock = string -> Option<int>

  /** One (pod, database) pair asked in a pass; a non-empty err is a failed read. */
  datatype Reading = Reading(pod: string, suffix: string, err: string, csns: seq<string>) {
    predicate Failed() { err != "" }
  }

  // ---- Extremes --------------------------------------------------------------

  /** The largest of the numbers and 0. */
  function Peak(ts: seq<int>): int {
    if ts == [] then 0
    else
      var m := Peak(ts[..|ts| - 1]);
      if ts[|ts| - 1] > m then ts[|ts| - 1] else m
  }

  /** The smallest. */
  function Low(ts: seq<int>): int
    requires ts != []
  {
    if |ts| == 1 then ts[0]
    else
      var m := Low(ts[..|ts| - 1]);
      if ts[|ts| - 1] < m then ts[|ts| - 1] else m
  }

  lemma {:induction false} PeakMeans(ts: seq<int>)
    ensures Peak(ts) >= 0 && (forall t :: t in ts ==> t <= Peak(ts)) && (Peak(ts) > 0 ==> Peak(ts) in ts)
  {
    if ts != [] {
      PeakMeans(ts[..|ts| - 1]);
      assert ts == ts[..|ts| - 1] + [ts[|ts| - 1]];
    }
  }

  lemma {:induction false} LowMeans(ts: seq<int>)
    requires ts != []
    ensures Low(ts) in ts && forall t :: t in ts ==> Low(ts) <= t
  {
    if |ts| > 1 {
      LowMeans(ts[..|ts| - 1]);
      assert ts == ts[..|ts| - 1] + [ts[|ts| - 1]];
    }
  }

  lemma PeakSnoc(ts: seq<int>, t: int)
    ensures Peak(ts + [t]) == if t > Peak(ts) then t else Peak(ts)
  {
    assert (ts + [t])[..|ts|] == ts;
  }

  lemma LowSnoc(ts: seq<int>, t: int)
    ensures Low(ts + [t]) == if ts == [] || t < Low(ts) then t else Low(ts)
  {
    assert (ts + [t])[..|ts|] == ts;
  }

  lemma ExtremesPermute(a: seq<int>, b: seq<int>)
    requires multiset(a) == multiset(b)
    ensures |a| == |b| && Peak(a) == Peak(b) && (a != [] ==> Low(a) == Low(b))
  {
    SameElements(a, b);
    assert |a| == |multiset(a)| && |b| == |multiset(b)|;
    PeakMeans(a);
    PeakMeans(b);
    if a != [] {
      LowMeans(a);
      LowMeans(b);
    }
  }

  // ---- One vector ------------------------------------------------------------

  /** Zero for an empty vector, nothing for one without a usable timestamp. */
  function NewestOf(clock: Clock, csns: seq<string>): (r: Option<int>)
    ensures r.Some? ==> r.value >= 0 && (r.value == 0 <==> csns == [])
  {
    var top := Peak(Pick(clock, csns));
    if csns == [] then Some(0) else if top > 0 then Some(top) else None
  }

  lemma NewestSnoc(clock: Clock, csns: seq<string>, i: int)
    requires 0 <= i < |csns|
    ensures
      var newest, t := Peak(Pick(clock, csns[..i])), clock(csns[i]);
      && newest >= 0
      && Peak(Pick(clock, csns[..i + 1])) == if t.Some? && t.value > newest then t.value else newest
  {
    var ts, t := Pick(clock, csns[..i]), clock(csns[i]);
    assert csns[..i + 1] == csns[..i] + [csns[i]];
    PickSnoc(clock, csns[..i], csns[i]);
    PeakMeans(ts);
    if t.Some? { PeakSnoc(ts, t.value); }
  }

  method NewestCsn(clock: Clock, csns: seq<string>) returns (r: Option<int>)
    ensures r == NewestOf(clock, csns)
  {
    var newest, found := 0, false;
    for i := 0 to |csns|
      invariant newest == Peak(Pick(clock, csns[..i])) && found == (newest > 0)
    {
      var t := clock(csns[i]);
      NewestSnoc(clock, csns, i);
      if t.Some? && t.value > newest {
        newest, found := t.value, true;
      }
    }
    assert csns[..|csns|] == csns;
    if !found && |csns| > 0 { return None; }
    return Some(newest);
  }

  /** The newest time is one of the vector's, above zero, and none is later; an empty
      vector yields zero, and a vector without a time above zero yields nothing. */
  lemma NewestMeans(clock: Clock, csns: seq<string>)
    ensures
      var r := NewestOf(clock, csns);
      && (r == Some(0) <==> csns == [])
      && (r.None? <==> csns != [] && forall c :: c in csns && clock(c).Some? ==> clock(c).value <= 0)
      && (r.Some? && r.value > 0 ==>
            && (exists c :: c in csns && clock(c) == r)
            && forall c :: c in csns && clock(c).Some? ==> clock(c).value <= r.value)
  {
    var ts := Pick(clock, csns);
    PeakMeans(ts);
    forall c | c in csns && clock(c).Some? ensures clock(c).value in ts {
      var i :| 0 <= i < |csns| && csns[i] == c;
      PickHas(clock, csns, clock(c).value);
    }
    if Peak(ts) > 0 {
      PickHas(clock, csns, Peak(ts));
      var i :| 0 <= i < |csns| && clock(csns[i]) == Some(Peak(ts));
      assert csns[i] in csns;
    }
  }

  lemma NewestPermutes(clock: Clock, a: seq<string>, b: seq<string>)
    requires multiset(a) == multiset(b)
    ensures NewestOf(clock, a) == NewestOf(clock, b)
  {
    PickPermutes(clock, a, b);
    ExtremesPermute(Pick(clock, a), Pick(clock, b));
    assert |a| == |multiset(a)| && |b| == |multiset(b)|;
  }

  lemma OneCsn(clock: Clock, csn: string)
    requires clock(csn).Some? && clock(csn).value > 0
    ensures NewestOf(clock, [csn]) == clock(csn)
  {
    assert [csn] == [] + [csn];
    PickSnoc(clock, [], csn);
    PeakSnoc([], clock(csn).value);
  }

  function Normalize(csns: seq<string>): string {
    Join(Sort(csns), '|')
  }

  /** What a CSN is: not empty, and free of the character used to join. */
  predicate Plain(csns: seq<string>) {
    forall c :: c in csns ==> c != "" && '|' !in c
  }

  lemma JoinTells(a: seq<string>, b: seq<string>)
    requires Plain(a) && Plain(b) && Join(a, '|') == Join(b, '|')
    ensures a == b
  {
    if a != [] && b != [] {
      SplitJoin(a, '|');
      SplitJoin(b, '|');
    } else {
      JoinedIsEmpty(a);
      JoinedIsEmpty(b);
    }
  }

  lemma JoinedIsEmpty(a: seq<string>)
    requires Plain(a)
    ensures Join(a, '|') == "" <==> a == []
  {
    if a != [] { assert a[0] in a; }
  }

  /** Two vectors print alike exactly when they hold the same CSNs. */
  lemma NormalizeIsExact(a: seq<string>, b: seq<string>)
    requires Plain(a) && Plain(b)
    ensures Normalize(a) == Normalize(b) <==> multiset(a) == multiset(b)
  {
    SortIsCanonical(a, b);
    if Normalize(a) == Normalize(b) {
      SortPermutes(a);
      SortPermutes(b);
      SameElements(a, Sort(a));
      SameElements(b, Sort(b));
      JoinTells(Sort(a), Sort(b));
    }
  }

  predicate AllAgree(sets: seq<seq<string>>) {
    forall i :: 0 < i < |sets| ==> Normalize(sets[i]) == Normalize(sets[0])
  }

  method CsnConverged(sets: seq<seq<string>>) returns (ok: bool)
    ensures ok <==> AllAgree(sets)
  {
    if |sets| < 2 { return true; }
    var ref := Normalize(sets[0]);
    for i := 1 to |sets|
      invariant forall k :: 0 < k < i ==> Normalize(sets[k]) == ref
    {
      if Normalize(sets[i]) != ref {
        return false;
      }
    }
    return true;
  }

  function Get<K, V>(m: map<K, V>, k: K, default: V): V {
    if k in m then m[k] else default
  }

  // ---- What the readings say of one database ---------------------------------

  /** What one reading says of a database: its vector if it was read, the newest
      time of that vector (0 if it is empty), and that time if there is one. */
  function Vector(r: Reading, suffix: string): Option<seq<string>> {
    if r.suffix == suffix && !r.Failed() then Some(r.csns) else None
  }

  function Time(clock: Clock, r: Reading, suffix: string): Option<int> {
    if r.suffix == suffix && !r.Failed() then NewestOf(clock, r.csns) else None
  }

  function Stamp(clock: Clock, r: Reading, suffix: string): (t: Option<int>)
    ensures t.Some? ==> t.value > 0
  {
    if r.csns == [] then None else Time(clock, r, suffix)
  }

  function AskedIn(suffix: string): Reading -> Option<Reading> {
    (r: Reading) => if r.suffix == suffix then Some(r) else None
  }

  function VectorIn(suffix: string): Reading -> Option<seq<string>> {
    (r: Reading) => Vector(r, suffix)
  }

  function TimeIn(clock: Clock, suffix: string): Reading -> Option<int> {
    (r: Reading) => Time(clock, r, suffix)
  }

  function StampIn(clock: Clock, suffix: string): Reading -> Option<int> {
    (r: Reading) => Stamp(clock, r, suffix)
  }

  function Asked(rs: seq<Reading>, suffix: string): nat {
    |Pick(AskedIn(suffix), rs)|
  }

  function Vectors(rs: seq<Reading>, suffix: string): seq<seq<string>> {
    Pick(VectorIn(suffix), rs)
  }

  function Times(clock: Clock, rs: seq<Reading>, suffix: string): seq<int> {
    Pick(TimeIn(clock, suffix), rs)
  }

  function Stamps(clock: Clock, rs: seq<Reading>, suffix: string): seq<int> {
    Pick(StampIn(clock, suffix), rs)
  }

  lemma AskedSnoc(rs: seq<Reading>, r: Reading, s: string)
    ensures Asked(rs + [r], s) == if r.suffix == s then Asked(rs, s) + 1 else Asked(rs, s)
  {
    PickSnoc(AskedIn(s), rs, r);
  }

  lemma VectorsSnoc(rs: seq<Reading>, r: Reading, s: string)
    ensures Vectors(rs + [r], s) == if r.suffix == s && !r.Failed() then Vectors(rs, s) + [r.csns] else Vectors(rs, s)
  {
    PickSnoc(VectorIn(s), rs, r);
  }

  lemma TimesSnoc(clock: Clock, rs: seq<Reading>, r: Reading, s: string)
    ensures
      var t := Time(clock, r, s);
      Times(clock, rs + [r], s) == if t.Some? then Times(clock, rs, s) + [t.value] else Times(clock, rs, s)
  {
    PickSnoc(TimeIn(clock, s), rs, r);
  }

  lemma StampsSnoc(clock: Clock, rs: seq<Reading>, r: Reading, s: string)
    ensures
      var t := Stamp(clock, r, s);
      Stamps(clock, rs + [r], s) == if t.Some? then Stamps(clock, rs, s) + [t.value] else Stamps(clock, rs, s)
  {
    PickSnoc(StampIn(clock, s), rs, r);
  }

  lemma StampsArePositive(clock: Clock, rs: seq<Reading>, suffix: string)
    ensures forall t :: t in Stamps(clock, rs, suffix) ==> t > 0
    ensures Peak(Stamps(clock, rs, suffix)) > 0 <==> Stamps(clock, rs, suffix) != []
  {
    var ts := Stamps(clock, rs, suffix);
    forall t | t in ts ensures t > 0 { PickHas(StampIn(clock, suffix), rs, t); }
    PeakMeans(ts);
    if ts != [] { assert ts[0] in ts; }
  }

  /** Every per-database quantity forgets the order of the readings. */
  lemma QuantitiesPermute(clock: Clock, a: seq<Reading>, b: seq<Reading>, suffix: string)
    requires multiset(a) == multiset(b)
    ensures Asked(a, suffix) == Asked(b, suffix)
    ensures multiset(Vectors(a, suffix)) == multiset(Vectors(b, suffix))
    ensures multiset(Times(clock, a, suffix)) == multiset(Times(clock, b, suffix))
    ensures multiset(Stamps(clock, a, suffix)) == multiset(Stamps(clock, b, suffix))
  {
    PickPermutes(AskedIn(suffix), a, b);
    var x, y := Pick(AskedIn(suffix), a), Pick(AskedIn(suffix), b);
    assert |x| == |multiset(x)| && |y| == |multiset(y)|;
    PickPermutes(VectorIn(suffix), a, b);
    PickPermutes(TimeIn(clock, suffix), a, b);
    PickPermutes(StampIn(clock, suffix), a, b);
  }

  function Suffixes(rs: seq<Reading>): set<string> {
    set r | r in rs :: r.suffix
  }

  lemma SuffixesSnoc(rs: seq<Reading>, r: Reading)
    ensures Suffixes(rs + [r]) == Suffixes(rs) + {r.suffix}
  {
  }

  lemma VectorsAreAsked(rs: seq<Reading>, suffix: string)
    ensures Vectors(rs, suffix) != [] ==> suffix in Suffixes(rs)
  {
    var p := Vectors(rs, suffix);
    if p != [] { PickHas(VectorIn(suffix), rs, p[0]); }
  }

  lemma StampsAreVectors(clock: Clock, rs: seq<Reading>, suffix: string)
    ensures Stamps(clock, rs, suffix) != [] ==> Vectors(rs, suffix) != []
  {
    var p := Stamps(clock, rs, suffix);
    if p != [] {
      PickHas(StampIn(clock, suffix), rs, p[0]);
      var i :| 0 <= i < |rs| && StampIn(clock, suffix)(rs[i]) == Some(p[0]);
      PickHas(VectorIn(suffix), rs, rs[i].csns);
    }
  }

  // ---- The suffixes of a pass ------------------------------------------------

  /** In order of first appearance. */
  function FirstSeen(rs: seq<Reading>): seq<string> {
    if rs == [] then []
    else
      var front := FirstSeen(rs[..|rs| - 1]);
      var s := rs[|rs| - 1].suffix;
      if s in front then front else front + [s]
  }

  lemma {:induction false} FirstSeenIsExact(rs: seq<Reading>)
    ensures Distinct(FirstSeen(rs)) && forall s :: s in FirstSeen(rs) <==> s in Suffixes(rs)
  {
    if rs != [] {
      var front, r := rs[..|rs| - 1], rs[|rs| - 1];
      FirstSeenIsExact(front);
      assert rs == front + [r];
      SuffixesSnoc(front, r);
    }
  }

  function SuffixList(rs: seq<Reading>): seq<string> {
    Sort(FirstSeen(rs))
  }

  method SortedSuffixes(rs: seq<Reading>) returns (out: seq<string>)
    ensures out == SuffixList(rs)
  {
    var seen: set<string> := {};
    out := [];
    for i := 0 to |rs|
      invariant out == FirstSeen(rs[..i]) && forall s :: s in seen <==> s in out
    {
      assert rs[..i + 1][..i] == rs[..i];
      if rs[i].suffix !in seen {
        seen := seen + {rs[i].suffix};
        out := out + [rs[i].suffix];
      }
    }
    assert rs[..|rs|] == rs;
    out := Sort(out);
  }

  /** Each suffix once, in an order the readings' order does not touch. */
  lemma SuffixListIsExact(rs: seq<Reading>)
    ensures Distinct(SuffixList(rs)) && Sorted(SuffixList(rs))
    ensures forall s :: s in SuffixList(rs) <==> s in Suffixes(rs)
  {
    FirstSeenIsExact(rs);
    SortSorted(FirstSeen(rs));
    SortPermutes(FirstSeen(rs));
    DistinctByMultiset(FirstSeen(rs), SuffixList(rs));
    SameElements(FirstSeen(rs), SuffixList(rs));
  }

  lemma SuffixListPermutes(a: seq<Reading>, b: seq<Reading>)
    requires multiset(a) == multiset(b)
    ensures Suffixes(a) == Suffixes(b) && SuffixList(a) == SuffixList(b)
  {
    SameElements(a, b);
    FirstSeenIsExact(a);
    FirstSeenIsExact(b);
    DistinctSameElements(FirstSeen(a), FirstSeen(b));
    SortIsCanonical(FirstSeen(a), FirstSeen(b));
  }

  // ---- The readout of each database ------------------------------------------

  datatype Readout = Readout(expected: nat, read: nat, spread: Option<int>)

  function ReadoutOf(clock: Clock, rs: seq<Reading>, suffix: string): Readout {
    ReadoutFrom(Asked(rs, suffix), Stamps(clock, rs, suffix))
  }

  function ReadoutFrom(asked: nat, ts: seq<int>): Readout {
    Readout(asked, |ts|, if |ts| < 2 then None else Some(Peak(ts) - Low(ts)))
  }

  function Readouts(clock: Clock, rs: seq<Reading>): map<string, Readout> {
    map s | s in Suffixes(rs) :: ReadoutOf(clock, rs, s)
  }

  datatype Bounds = Bounds(newest: int, oldest: int)

  /** The two tables the walk keeps.  The walk does not depend on what a suffix is,
      nor on how a reading yields its time. */
  datatype Tally<K> = Tally(out: map<K, Readout>, seen: map<K, Bounds>)

  const UNREAD := Readout(0, 0, None)

  function Widened<K>(seen: map<K, Bounds>, k: K, t: int): Bounds {
    var b := Get(seen, k, Bounds(t, t));
    Bounds(if t > b.newest then t else b.newest, if t < b.oldest then t else b.oldest)
  }

  /** One reading under that key, with the time it yields, tallied. */
  function Tallied<K>(tally: Tally<K>, k: K, t: Option<int>): Tally<K> {
    var was := Get(tally.out, k, UNREAD);
    if t.None? then tally.(out := tally.out[k := Readout(was.expected + 1, was.read, None)])
    else Tally(tally.out[k := Readout(was.expected + 1, was.read + 1, None)], tally.seen[k := Widened(tally.seen, k, t.value)])
  }

  function Walk<R, K>(key: R -> K, tell: R -> Option<int>, rs: seq<R>): Tally<K> {
    if rs == [] then Tally(map[], map[])
    else var r := rs[|rs| - 1]; Tallied(Walk(key, tell, rs[..|rs| - 1]), key(r), tell(r))
  }

  lemma WalkSnoc<R, K>(key: R -> K, tell: R -> Option<int>, rs: seq<R>, i: int)
    requires 0 <= i < |rs|
    ensures Walk(key, tell, rs[..i + 1]) == Tallied(Walk(key, tell, rs[..i]), key(rs[i]), tell(rs[i]))
  {
    assert rs[..i + 1][..i] == rs[..i];
  }

  function Under<R, K(==)>(key: R -> K, k: K): R -> Option<R> {
    (r: R) => if key(r) == k then Some(r) else None
  }

  function ToldUnder<R, K(==)>(key: R -> K, tell: R -> Option<int>, k: K): R -> Option<int> {
    (r: R) => if key(r) == k then tell(r) else None
  }

  /** The table counts these many readings under the key. */
  ghost predicate Counted<K>(out: map<K, Readout>, k: K, asked: nat, read: nat) {
    (k in out <==> asked > 0) && Get(out, k, UNREAD) == Readout(asked, read, None)
  }

  /** The table holds the extremes of these times under the key. */
  ghost predicate Bounded<K>(seen: map<K, Bounds>, k: K, ts: seq<int>) {
    if k in seen then ts != [] && seen[k] == Bounds(Peak(ts), Low(ts)) else ts == []
  }

  lemma CountedNext<K>(tally: Tally<K>, k: K, asked: nat, read: nat, k': K, t: Option<int>)
    requires Counted(tally.out, k, asked, read)
    ensures Counted(Tallied(tally, k', t).out, k,
                    if k == k' then asked + 1 else asked, if k == k' && t.Some? then read + 1 else read)
  {
  }

  lemma BoundedNext<K>(tally: Tally<K>, k: K, ts: seq<int>, k': K, t: Option<int>)
    requires Bounded(tally.seen, k, ts) && (t.Some? ==> t.value > 0)
    ensures Bounded(Tallied(tally, k', t).seen, k, if k == k' && t.Some? then ts + [t.value] else ts)
  {
    if t.Some? {
      PeakSnoc(ts, t.value);
      LowSnoc(ts, t.value);
    }
  }

  lemma {:induction false} WalkCounts<R, K>(key: R -> K, tell: R -> Option<int>, rs: seq<R>, k: K)
    ensures Counted(Walk(key, tell, rs).out, k, |Pick(Under(key, k), rs)|, |Pick(ToldUnder(key, tell, k), rs)|)
  {
    if rs != [] {
      var front, r := rs[..|rs| - 1], rs[|rs| - 1];
      WalkCounts(key, tell, front, k);
      assert rs == front + [r];
      PickSnoc(Under(key, k), front, r);
      PickSnoc(ToldUnder(key, tell, k), front, r);
      CountedNext(Walk(key, tell, front), k, |Pick(Under(key, k), front)|, |Pick(ToldUnder(key, tell, k), front)|, key(r), tell(r));
    }
  }

  lemma {:induction false} WalkBounds<R, K>(key: R -> K, tell: R -> Option<int>, rs: seq<R>, k: K)
    requires forall i :: 0 <= i < |rs| && tell(rs[i]).Some? ==> tell(rs[i]).value > 0
    ensures Bounded(Walk(key, tell, rs).seen, k, Pick(ToldUnder(key, tell, k), rs))
  {
    if rs != [] {
      var front, r := rs[..|rs| - 1], rs[|rs| - 1];
      WalkBounds(key, tell, front, k);
      assert rs == front + [r];
      PickSnoc(ToldUnder(key, tell, k), front, r);
      BoundedNext(Walk(key, tell, front), k, Pick(ToldUnder(key, tell, k), front), key(r), tell(r));
    }
  }

  function SuffixKey(): Reading -> string {
    (r: Reading) => r.suffix
  }

  function Tell(clock: Clock): Reading -> Option<int> {
    (r: Reading) => Stamp(clock, r, r.suffix)
  }

  /** The walk over readings counts what was asked and what yields a stamp. */
  lemma WalkIsOfReadings(clock: Clock, rs: seq<Reading>, s: string)
    ensures Pick(ToldUnder(SuffixKey(), Tell(clock), s), rs) == Stamps(clock, rs, s)
    ensures |Pick(Under(SuffixKey(), s), rs)| == Asked(rs, s)
    ensures Asked(rs, s) > 0 <==> s in Suffixes(rs)
  {
    PickSame(ToldUnder(SuffixKey(), Tell(clock), s), StampIn(clock, s), rs);
    PickSame(Under(SuffixKey(), s), AskedIn(s), rs);
    AskedMeans(rs, s);
  }

  lemma AskedMeans(rs: seq<Reading>, s: string)
    ensures Asked(rs, s) > 0 <==> s in Suffixes(rs)
  {
    PickNothing(AskedIn(s), rs);
    if Asked(rs, s) > 0 {
      var i :| 0 <= i < |rs| && AskedIn(s)(rs[i]).Some?;
      assert rs[i] in rs;
    }
    if s in Suffixes(rs) {
      var r :| r in rs && r.suffix == s;
      var i :| 0 <= i < |rs| && rs[i] == r;
      assert AskedIn(s)(rs[i]).Some?;
    }
  }

  method DatabaseCsnReadouts(clock: Clock, rs: seq<Reading>) returns (out: map<string, Readout>)
    ensures out == Readouts(clock, rs)
  {
    out := map[];
    var seen: map<string, Bounds> := map[];
    for i := 0 to |rs|
      invariant Tally(out, seen) == Walk(SuffixKey(), Tell(clock), rs[..i])
    {
      WalkSnoc(SuffixKey(), Tell(clock), rs, i);
      var t := YieldedTime(clock, rs[i]);
      out, seen := TallyReading(out, seen, rs[i].suffix, t);
    }
    assert rs[..|rs|] == rs;
    SpreadsCanBeFilled(SuffixKey(), Tell(clock), rs);
    out := FillSpreads(out, seen);
    FilledIsReadouts(clock, rs, out);
  }

  /** Readable means parseable: a failed read, an unparseable vector and an empty one
      yield no time. */
  method YieldedTime(clock: Clock, r: Reading) returns (t: Option<int>)
    ensures t == Stamp(clock, r, r.suffix)
  {
    if r.Failed() { return None; }
    t := NewestCsn(clock, r.csns);
    if t == Some(0) { t := None; }
  }

  /** The body of the loop over readings. */
  method TallyReading<K(==)>(out0: map<K, Readout>, seen0: map<K, Bounds>, k: K, t: Option<int>)
    returns (out: map<K, Readout>, seen: map<K, Bounds>)
    ensures Tally(out, seen) == Tallied(Tally(out0, seen0), k, t)
  {
    seen := seen0;
    var readout := Get(out0, k, UNREAD);
    readout := Readout(readout.expected + 1, readout.read, None);
    out := out0[k := readout];
    if t.None? { return; }
    readout := readout.(read := readout.read + 1);
    out := out[k := readout];
    var b := Get(seen, k, Bounds(t.value, t.value));
    if t.value > b.newest { b := b.(newest := t.value); }
    if t.value < b.oldest { b := b.(oldest := t.value); }
    seen := seen[k := b];
  }

  function Filled<K>(readout: Readout, seen: map<K, Bounds>, k: K): Readout {
    if readout.read < 2 || k !in seen then readout
    else readout.(spread := Some(seen[k].newest - seen[k].oldest))
  }

  method FillSpreads<K(==)>(counts: map<K, Readout>, seen: map<K, Bounds>) returns (out: map<K, Readout>)
    requires forall k :: k in counts && counts[k].read >= 2 ==> k in seen
    ensures out.Keys == counts.Keys && forall k :: k in out ==> out[k] == Filled(counts[k], seen, k)
  {
    out := counts;
    var todo := counts.Keys;
    while todo != {}
      invariant todo <= out.Keys == counts.Keys
      invariant forall k :: k in out ==> out[k] == if k in todo then counts[k] else Filled(counts[k], seen, k)
    {
      var k :| k in todo;
      todo := todo - {k};
      if out[k].read >= 2 {
        var b := seen[k];
        out := out[k := out[k].(spread := Some(b.newest - b.oldest))];
      }
    }
  }

  lemma SpreadsCanBeFilled<R, K>(key: R -> K, tell: R -> Option<int>, rs: seq<R>)
    requires forall i :: 0 <= i < |rs| && tell(rs[i]).Some? ==> tell(rs[i]).value > 0
    ensures var w := Walk(key, tell, rs); forall k :: k in w.out && w.out[k].read >= 2 ==> k in w.seen
  {
    var w := Walk(key, tell, rs);
    forall k | k in w.out && w.out[k].read >= 2 ensures k in w.seen {
      WalkCounts(key, tell, rs, k);
      WalkBounds(key, tell, rs, k);
    }
  }

  lemma FilledAt<R, K>(key: R -> K, tell: R -> Option<int>, rs: seq<R>, k: K)
    requires forall i :: 0 <= i < |rs| && tell(rs[i]).Some? ==> tell(rs[i]).value > 0
    ensures
      var w, asked := Walk(key, tell, rs), |Pick(Under(key, k), rs)|;
      && (k in w.out <==> asked > 0)
      && (k in w.out ==> Filled(w.out[k], w.seen, k) == ReadoutFrom(asked, Pick(ToldUnder(key, tell, k), rs)))
  {
    WalkCounts(key, tell, rs, k);
    WalkBounds(key, tell, rs, k);
  }

  lemma FilledIsReadouts(clock: Clock, rs: seq<Reading>, out: map<string, Readout>)
    requires
      var w := Walk(SuffixKey(), Tell(clock), rs);
      out.Keys == w.out.Keys && forall s :: s in out ==> out[s] == Filled(w.out[s], w.seen, s)
    ensures out == Readouts(clock, rs)
  {
    forall s ensures (s in out <==> s in Suffixes(rs)) && (s in out ==> out[s] == ReadoutOf(clock, rs, s)) {
      FilledAt(SuffixKey(), Tell(clock), rs, s);
      WalkIsOfReadings(clock, rs, s);
    }
  }

  // ---- The local verdict -----------------------------------------------------

  datatype Status = Silent | True | False | Unknown

  datatype Divergence = Divergence(suffix: string, lag: int)

  datatype LocalVerdict = LocalVerdict(
    status: Status, diverged: seq<Divergence>, newest: map<string, int>, readouts: map<string, Readout>)

  /** The lag named beside a diverged database; empty vectors count as time 0. */
  function LagOf(clock: Clock, rs: seq<Reading>, suffix: string): int {
    var ts := Times(clock, rs, suffix);
    Peak(Stamps(clock, rs, suffix)) - if ts == [] then 0 else Low(ts)
  }

  function Judged(s: string, sets: seq<seq<string>>, lag: int): Option<Divergence> {
    if AllAgree(sets) then None else Some(Divergence(s, lag))
  }

  function DivergenceOf(clock: Clock, rs: seq<Reading>, s: string): Option<Divergence> {
    Judged(s, Vectors(rs, s), LagOf(clock, rs, s))
  }

  function DivergenceIn(clock: Clock, rs: seq<Reading>): string -> Option<Divergence> {
    s => DivergenceOf(clock, rs, s)
  }

  function NewestBySuffix(clock: Clock, rs: seq<Reading>): map<string, int> {
    map s | s in Suffixes(rs) && Stamps(clock, rs, s) != [] :: Peak(Stamps(clock, rs, s))
  }

  ghost function LocalVerdictOf(clock: Clock, rs: seq<Reading>): LocalVerdict {
    var diverged := Pick(DivergenceIn(clock, rs), SuffixList(rs));
    LocalVerdict(
      if rs == [] then Silent
      else if diverged != [] then False
      else if exists r :: r in rs && r.Failed() then Unknown
      else True,
      diverged, NewestBySuffix(clock, rs), Readouts(clock, rs))
  }

  /** The tables of the second walk, and how many readings failed. */
  datatype Tables = Tables(sets: map<string, seq<seq<string>>>, newest: map<string, int>, oldest: map<string, int>, unreadable: nat)

  /** A time enters only if it is later than what the table holds, or than none. */
  function Raised<K>(newest: map<K, int>, k: K, t: Option<int>): map<K, int> {
    if t.Some? && t.value > Get(newest, k, 0) then newest[k := t.value] else newest
  }

  function Lowered(oldest: map<string, int>, suffix: string, t: Option<int>): map<string, int> {
    if t.Some? && (suffix !in oldest || t.value < oldest[suffix]) then oldest[suffix := t.value] else oldest
  }

  function Collect(clock: Clock, ts: Tables, r: Reading): Tables {
    if r.Failed() then ts.(unreadable := ts.unreadable + 1)
    else
      var t := NewestOf(clock, r.csns);
      Tables(ts.sets[r.suffix := Get(ts.sets, r.suffix, []) + [r.csns]],
             Raised(ts.newest, r.suffix, t), Lowered(ts.oldest, r.suffix, t), ts.unreadable)
  }

  function Collected(clock: Clock, rs: seq<Reading>): Tables {
    if rs == [] then Tables(map[], map[], map[], 0) else Collect(clock, Collected(clock, rs[..|rs| - 1]), rs[|rs| - 1])
  }

  lemma {:induction false} CollectedSets(clock: Clock, rs: seq<Reading>, s: string)
    ensures Get(Collected(clock, rs).sets, s, []) == Vectors(rs, s)
  {
    if rs != [] {
      var front, r := rs[..|rs| - 1], rs[|rs| - 1];
      assert rs == front + [r];
      CollectedSets(clock, front, s);
      VectorsSnoc(front, r, s);
    }
  }

  lemma {:induction false} CollectedFailures(clock: Clock, rs: seq<Reading>)
    ensures Collected(clock, rs).unreadable > 0 <==> exists r :: r in rs && r.Failed()
  {
    if rs != [] {
      var front, r := rs[..|rs| - 1], rs[|rs| - 1];
      assert rs == front + [r];
      CollectedFailures(clock, front);
      if r.Failed() { assert r in rs; }
    }
  }

  /** The table holds the latest of these times, and a key for it if there is one. */
  ghost predicate Latest<K>(newest: map<K, int>, k: K, ts: seq<int>) {
    Get(newest, k, 0) == Peak(ts) && (k in newest <==> ts != [])
  }

  lemma LatestNext<K>(newest: map<K, int>, k: K, ts: seq<int>, k': K, t: Option<int>)
    requires Latest(newest, k, ts) && (ts != [] ==> Peak(ts) > 0) && (t.Some? ==> t.value >= 0)
    ensures Latest(Raised(newest, k', t), k, if k == k' && t.Some? && t.value > 0 then ts + [t.value] else ts)
  {
    if t.Some? { PeakSnoc(ts, t.value); }
  }

  ghost predicate NewestAt(newest: map<string, int>, clock: Clock, rs: seq<Reading>, s: string) {
    Latest(newest, s, Stamps(clock, rs, s))
  }

  lemma RaisedAt(newest: map<string, int>, clock: Clock, rs: seq<Reading>, r: Reading, s: string)
    requires NewestAt(newest, clock, rs, s)
    ensures NewestAt(if r.Failed() then newest else Raised(newest, r.suffix, NewestOf(clock, r.csns)), clock, rs + [r], s)
  {
    StampsSnoc(clock, rs, r, s);
    StampsArePositive(clock, rs, s);
    if !r.Failed() { LatestNext(newest, s, Stamps(clock, rs, s), r.suffix, NewestOf(clock, r.csns)); }
  }

  lemma {:induction false} CollectedNewest(clock: Clock, rs: seq<Reading>, s: string)
    ensures NewestAt(Collected(clock, rs).newest, clock, rs, s)
  {
    if rs != [] {
      var front, r := rs[..|rs| - 1], rs[|rs| - 1];
      assert rs == front + [r];
      CollectedNewest(clock, front, s);
      RaisedAt(Collected(clock, front).newest, clock, front, r, s);
    }
  }

  lemma {:induction false} CollectedOldest(clock: Clock, rs: seq<Reading>, s: string)
    ensures
      var oldest, ts := Collected(clock, rs).oldest, Times(clock, rs, s);
      if s in oldest then ts != [] && oldest[s] == Low(ts) else ts == []
  {
    if rs != [] {
      var front, r := rs[..|rs| - 1], rs[|rs| - 1];
      assert rs == front + [r];
      CollectedOldest(clock, front, s);
      TimesSnoc(clock, front, r, s);
      var t := Time(clock, r, s);
      if t.Some? { LowSnoc(Times(clock, front, s), t.value); }
    }
  }

  /** A table that is right for every suffix is the specified one. */
  lemma NewestIs(newest: map<string, int>, clock: Clock, rs: seq<Reading>)
    requires forall s :: NewestAt(newest, clock, rs, s)
    ensures newest == NewestBySuffix(clock, rs)
  {
    forall s ensures s in newest <==> s in NewestBySuffix(clock, rs)
             ensures s in newest ==> newest[s] == Peak(Stamps(clock, rs, s)) {
      assert NewestAt(newest, clock, rs, s);
      if s !in Suffixes(rs) { NoStamps(clock, rs, s); }
    }
  }

  lemma NoStamps(clock: Clock, rs: seq<Reading>, s: string)
    requires s !in Suffixes(rs)
    ensures Stamps(clock, rs, s) == [] && Vectors(rs, s) == []
  {
    VectorsAreAsked(rs, s);
    StampsAreVectors(clock, rs, s);
  }

  method EvaluateLocalConvergence(clock: Clock, rs: seq<Reading>) returns (v: LocalVerdict)
    ensures v == LocalVerdictOf(clock, rs)
  {
    var readouts := DatabaseCsnReadouts(clock, rs);
    if |rs| == 0 { return LocalVerdict(Silent, [], map[], readouts); }
    var suffixes := SortedSuffixes(rs);
    var ts := CollectLocal(clock, rs);
    TablesJudge(clock, rs);
    var diverged := ListDiverged(suffixes, ts, DivergenceIn(clock, rs));
    CollectedFailures(clock, rs);
    forall s ensures NewestAt(ts.newest, clock, rs, s) { CollectedNewest(clock, rs, s); }
    NewestIs(ts.newest, clock, rs);
    var status := if |diverged| > 0 then False else if ts.unreadable > 0 then Unknown else True;
    return LocalVerdict(status, diverged, ts.newest, readouts);
  }

  method CollectLocal(clock: Clock, rs: seq<Reading>) returns (ts: Tables)
    ensures ts == Collected(clock, rs)
  {
    var sets, newest, oldest, unreadable := map[], map[], map[], 0;
    for i := 0 to |rs|
      invariant Tables(sets, newest, oldest, unreadable) == Collected(clock, rs[..i])
    {
      var r := rs[i];
      assert rs[..i + 1][..i] == rs[..i];
      if r.Failed() {
        unreadable := unreadable + 1;
        continue;
      }
      sets := sets[r.suffix := Get(sets, r.suffix, []) + [r.csns]];
      var t := NewestCsn(clock, r.csns);
      if t.None? { continue; }
      if t.value > Get(newest, r.suffix, 0) { newest := newest[r.suffix := t.value]; }
      if r.suffix !in oldest || t.value < oldest[r.suffix] { oldest := oldest[r.suffix := t.value]; }
    }
    assert rs[..|rs|] == rs;
    return Tables(sets, newest, oldest, unreadable);
  }

  /** The judgement read off the tables. */
  function FromTables(ts: Tables, s: string): Option<Divergence> {
    Judged(s, Get(ts.sets, s, []), Get(ts.newest, s, 0) - Get(ts.oldest, s, 0))
  }

  method ListDiverged(suffixes: seq<string>, ts: Tables, ghost want: string -> Option<Divergence>) returns (diverged: seq<Divergence>)
    requires forall s :: want(s) == FromTables(ts, s)
    ensures diverged == Pick(want, suffixes)
  {
    diverged := [];
    for i := 0 to |suffixes|
      invariant diverged == Pick(want, suffixes[..i])
    {
      var suffix := suffixes[i];
      assert suffixes[..i + 1] == suffixes[..i] + [suffix];
      PickSnoc(want, suffixes[..i], suffix);
      var d := Judge(suffix, Get(ts.sets, suffix, []), Get(ts.newest, suffix, 0) - Get(ts.oldest, suffix, 0));
      if d.Some? { diverged := diverged + [d.value]; }
    }
    assert suffixes[..|suffixes|] == suffixes;
  }

  lemma TablesJudge(clock: Clock, rs: seq<Reading>)
    ensures forall s :: DivergenceIn(clock, rs)(s) == FromTables(Collected(clock, rs), s)
  {
    forall s ensures DivergenceIn(clock, rs)(s) == FromTables(Collected(clock, rs), s) {
      TableJudges(clock, rs, s);
    }
  }

  lemma TableJudges(clock: Clock, rs: seq<Reading>, s: string)
    ensures DivergenceOf(clock, rs, s) == FromTables(Collected(clock, rs), s)
  {
    CollectedSets(clock, rs, s);
    LagFromTables(clock, rs, s);
    SameEvidence(clock, rs, s, Collected(clock, rs));
  }

  lemma SameEvidence(clock: Clock, rs: seq<Reading>, s: string, ts: Tables)
    requires Get(ts.sets, s, []) == Vectors(rs, s) && Get(ts.newest, s, 0) - Get(ts.oldest, s, 0) == LagOf(clock, rs, s)
    ensures DivergenceOf(clock, rs, s) == FromTables(ts, s)
  {
  }

  method Judge(suffix: string, sets: seq<seq<string>>, lag: int) returns (d: Option<Divergence>)
    ensures d == Judged(suffix, sets, lag)
  {
    var agree := CsnConverged(sets);
    if |sets| < 2 || agree { return None; }
    return Some(Divergence(suffix, lag));
  }

  lemma LagFromTables(clock: Clock, rs: seq<Reading>, s: string)
    ensures var ts := Collected(clock, rs); LagOf(clock, rs, s) == Get(ts.newest, s, 0) - Get(ts.oldest, s, 0)
  {
    CollectedNewest(clock, rs, s);
    CollectedOldest(clock, rs, s);
  }

  // ---- What the local verdict means ------------------------------------------

  /** Two readable pods of one database hold different CSNs. */
  ghost predicate Disagree(rs: seq<Reading>, i: int, j: int)
    requires 0 <= i < |rs| && 0 <= j < |rs|
  {
    && rs[i].suffix == rs[j].suffix && !rs[i].Failed() && !rs[j].Failed()
    && multiset(rs[i].csns) != multiset(rs[j].csns)
  }

  /** Agreement is a matter of pairs. */
  lemma AgreementIsPairwise(sets: seq<seq<string>>)
    ensures AllAgree(sets) <==> forall x, y :: x in sets && y in sets ==> Normalize(x) == Normalize(y)
  {
    if forall x, y :: x in sets && y in sets ==> Normalize(x) == Normalize(y) {
      forall i | 0 < i < |sets| ensures Normalize(sets[i]) == Normalize(sets[0]) {
        assert sets[i] in sets && sets[0] in sets;
      }
    }
  }

  lemma VectorsHas(rs: seq<Reading>, s: string, x: seq<string>)
    ensures x in Vectors(rs, s) <==> exists i :: 0 <= i < |rs| && rs[i].suffix == s && !rs[i].Failed() && rs[i].csns == x
  {
    PickHas(VectorIn(s), rs, x);
    if x in Vectors(rs, s) {
      var i :| 0 <= i < |rs| && VectorIn(s)(rs[i]) == Some(x);
      assert rs[i].suffix == s && !rs[i].Failed() && rs[i].csns == x;
    }
    if i :| 0 <= i < |rs| && rs[i].suffix == s && !rs[i].Failed() && rs[i].csns == x {
      assert VectorIn(s)(rs[i]) == Some(x);
    }
  }

  lemma DisagreementShows(rs: seq<Reading>, i: int, j: int)
    requires 0 <= i < |rs| && 0 <= j < |rs| && Disagree(rs, i, j) && forall r :: r in rs ==> Plain(r.csns)
    ensures !AllAgree(Vectors(rs, rs[i].suffix))
  {
    VectorsHas(rs, rs[i].suffix, rs[i].csns);
    VectorsHas(rs, rs[i].suffix, rs[j].csns);
    assert rs[i] in rs && rs[j] in rs;
    NormalizeIsExact(rs[i].csns, rs[j].csns);
    AgreementIsPairwise(Vectors(rs, rs[i].suffix));
  }

  lemma FindDisagreement(rs: seq<Reading>, s: string) returns (i: int, j: int)
    requires !AllAgree(Vectors(rs, s)) && forall r :: r in rs ==> Plain(r.csns)
    ensures 0 <= i < |rs| && 0 <= j < |rs| && rs[i].suffix == s && Disagree(rs, i, j)
  {
    var sets := Vectors(rs, s);
    var k :| 0 < k < |sets| && Normalize(sets[k]) != Normalize(sets[0]);
    VectorsHas(rs, s, sets[k]);
    VectorsHas(rs, s, sets[0]);
    i :| 0 <= i < |rs| && rs[i].suffix == s && !rs[i].Failed() && rs[i].csns == sets[k];
    j :| 0 <= j < |rs| && rs[j].suffix == s && !rs[j].Failed() && rs[j].csns == sets[0];
    assert rs[i] in rs && rs[j] in rs;
    NormalizeIsExact(sets[k], sets[0]);
  }

  lemma DivergedMeans(clock: Clock, rs: seq<Reading>)
    ensures Pick(DivergenceIn(clock, rs), SuffixList(rs)) == [] <==> forall s :: s in Suffixes(rs) ==> AllAgree(Vectors(rs, s))
  {
    var list := SuffixList(rs);
    PickNothing(DivergenceIn(clock, rs), list);
    SuffixListIsExact(rs);
    if Pick(DivergenceIn(clock, rs), list) == [] {
      forall s | s in Suffixes(rs) ensures AllAgree(Vectors(rs, s)) {
        assert s in list;
        var i :| 0 <= i < |list| && list[i] == s;
        assert DivergenceIn(clock, rs)(list[i]).None?;
      }
    }
    if forall s :: s in Suffixes(rs) ==> AllAgree(Vectors(rs, s)) {
      forall i | 0 <= i < |list| ensures DivergenceIn(clock, rs)(list[i]).None? { assert list[i] in list; }
    }
  }

  /** The verdict, without tables, printing or order: False exactly when two readable
      pods of one database hold different CSNs, True exactly when there are
      readings, all of them were read, and no two of a database differ. */
  lemma LocalVerdictMeans(clock: Clock, rs: seq<Reading>)
    requires forall r :: r in rs ==> Plain(r.csns)
    ensures
      var status := LocalVerdictOf(clock, rs).status;
      && (status == Silent <==> rs == [])
      && (status == False <==> exists i, j :: 0 <= i < |rs| && 0 <= j < |rs| && Disagree(rs, i, j))
      && (status == True <==>
            && rs != [] && (forall r :: r in rs ==> !r.Failed())
            && forall i, j :: 0 <= i < |rs| && 0 <= j < |rs| && rs[i].suffix == rs[j].suffix ==>
                multiset(rs[i].csns) == multiset(rs[j].csns))
  {
    DivergedMeans(clock, rs);
    if i, j :| 0 <= i < |rs| && 0 <= j < |rs| && Disagree(rs, i, j) {
      DisagreementShows(rs, i, j);
      assert rs[i] in rs && rs[i].suffix in Suffixes(rs);
    } else if s :| s in Suffixes(rs) && !AllAgree(Vectors(rs, s)) {
      var i, j := FindDisagreement(rs, s);
    } else if LocalVerdictOf(clock, rs).status == True {
      forall i, j | 0 <= i < |rs| && 0 <= j < |rs| && rs[i].suffix == rs[j].suffix
        ensures multiset(rs[i].csns) == multiset(rs[j].csns)
      {
        assert rs[i] in rs && rs[j] in rs && !Disagree(rs, i, j);
      }
    }
  }

  /** The restriction to CSN-shaped strings is needed: a bar inside a value prints
      like two values, and an empty value like none. */
  lemma BarsAreAmbiguous()
    ensures Normalize(["a|b"]) == Normalize(["a", "b"]) && Normalize([""]) == Normalize([])
  {
    assert Le("a", "b");
    assert Sort(["a", "b"][1..]) == ["b"];
    assert Sort(["a", "b"]) == ["a", "b"];
    assert Join(["a", "b"], '|') == "a|b" by { assert Join(["a", "b"][1..], '|') == "b"; }
    assert Sort(["a|b"]) == ["a|b"] by { assert Sort(["a|b"][1..]) == []; }
    assert Sort([""]) == [""] by { assert Sort([""][1..]) == []; }
  }

  // ---- What the readouts mean ------------------------------------------------

  ghost predicate Stamped(clock: Clock, rs: seq<Reading>, s: string, i: int) {
    0 <= i < |rs| && Stamp(clock, rs[i], s).Some?
  }

  lemma StampsHas(clock: Clock, rs: seq<Reading>, s: string, t: int)
    ensures t in Stamps(clock, rs, s) <==> exists i :: Stamped(clock, rs, s, i) && Stamp(clock, rs[i], s).value == t
  {
    PickHas(StampIn(clock, s), rs, t);
    if i :| Stamped(clock, rs, s, i) && Stamp(clock, rs[i], s).value == t {
      assert StampIn(clock, s)(rs[i]) == Some(t);
    }
    if t in Stamps(clock, rs, s) {
      var i :| 0 <= i < |rs| && StampIn(clock, s)(rs[i]) == Some(t);
      assert Stamped(clock, rs, s, i);
    }
  }

  /** A spread exists exactly when two pods yielded a time; it bounds the distance
      of any two, and two pods are that far apart. */
  lemma SpreadIsTheWidestGap(clock: Clock, rs: seq<Reading>, s: string)
    requires s in Suffixes(rs)
    ensures
      var readout := Readouts(clock, rs)[s];
      && (readout.spread.Some? <==> readout.read >= 2)
      && (readout.spread.Some? <==> exists i, j :: i < j && Stamped(clock, rs, s, i) && Stamped(clock, rs, s, j))
      && (readout.spread.Some? ==>
            && (forall i, j :: Stamped(clock, rs, s, i) && Stamped(clock, rs, s, j) ==>
                  Stamp(clock, rs[i], s).value - Stamp(clock, rs[j], s).value <= readout.spread.value)
            && exists i, j :: Stamped(clock, rs, s, i) && Stamped(clock, rs, s, j) &&
                  Stamp(clock, rs[i], s).value - Stamp(clock, rs[j], s).value == readout.spread.value)
  {
    var ts := Stamps(clock, rs, s);
    TwoStamps(clock, rs, s);
    if |ts| >= 2 {
      PeakMeans(ts);
      LowMeans(ts);
      StampsArePositive(clock, rs, s);
      StampsHas(clock, rs, s, Peak(ts));
      StampsHas(clock, rs, s, Low(ts));
      forall i | Stamped(clock, rs, s, i) ensures Low(ts) <= Stamp(clock, rs[i], s).value <= Peak(ts) {
        StampsHas(clock, rs, s, Stamp(clock, rs[i], s).value);
      }
    }
  }

  lemma TwoStamps(clock: Clock, rs: seq<Reading>, s: string)
    ensures |Stamps(clock, rs, s)| >= 2 <==> exists i, j :: i < j && Stamped(clock, rs, s, i) && Stamped(clock, rs, s, j)
  {
    PickTwice(StampIn(clock, s), rs);
    if i, j :| i < j && Stamped(clock, rs, s, i) && Stamped(clock, rs, s, j) {
      assert StampIn(clock, s)(rs[i]).Some? && StampIn(clock, s)(rs[j]).Some?;
    }
    if |Stamps(clock, rs, s)| >= 2 {
      var i, j :| 0 <= i < j < |rs| && StampIn(clock, s)(rs[i]).Some? && StampIn(clock, s)(rs[j]).Some?;
      assert Stamped(clock, rs, s, i) && Stamped(clock, rs, s, j);
    }
  }

  /** A cluster judged converged has no database with a positive spread. */
  lemma ConvergedHasNoSpread(clock: Clock, rs: seq<Reading>, s: string)
    requires forall r :: r in rs ==> Plain(r.csns)
    requires LocalVerdictOf(clock, rs).status == True && s in Suffixes(rs)
    ensures var spread := LocalVerdictOf(clock, rs).readouts[s].spread; spread.Some? ==> spread.value == 0
  {
    if Readouts(clock, rs)[s].spread.Some? {
      SpreadIsTheWidestGap(clock, rs, s);
      var i, j :| Stamped(clock, rs, s, i) && Stamped(clock, rs, s, j) &&
        Stamp(clock, rs[i], s).value - Stamp(clock, rs[j], s).value == Readouts(clock, rs)[s].spread.value;
      ConvergedStampsAgree(clock, rs, s, i, j);
    }
  }

  lemma ConvergedStampsAgree(clock: Clock, rs: seq<Reading>, s: string, i: int, j: int)
    requires forall r :: r in rs ==> Plain(r.csns)
    requires LocalVerdictOf(clock, rs).status == True && Stamped(clock, rs, s, i) && Stamped(clock, rs, s, j)
    ensures Stamp(clock, rs[i], s) == Stamp(clock, rs[j], s)
  {
    LocalVerdictMeans(clock, rs);
    NewestPermutes(clock, rs[i].csns, rs[j].csns);
  }

  /** The lag named beside a diverged database is its spread exactly when no pod
      answered with an empty vector: that one counts as the beginning of time. */
  lemma LagIsTheSpread(clock: Clock, rs: seq<Reading>, s: string)
    requires s in Suffixes(rs) && Readouts(clock, rs)[s].spread.Some?
    ensures LagOf(clock, rs, s) == Readouts(clock, rs)[s].spread.value <==> [] !in Vectors(rs, s)
  {
    var ts, all := Stamps(clock, rs, s), Times(clock, rs, s);
    StampsArePositive(clock, rs, s);
    forall t ensures t in all <==> t in ts || (t == 0 && [] in Vectors(rs, s)) { TimesAreStampsOrZero(clock, rs, s, t); }
    LowWithZero(ts, all, [] in Vectors(rs, s));
  }

  ghost predicate Timed(clock: Clock, rs: seq<Reading>, s: string, i: int) {
    0 <= i < |rs| && Time(clock, rs[i], s).Some?
  }

  /** Whatever the readings, the lag is the widest gap between the times of two
      readable pods, an empty vector being time zero; and zero without a time. */
  lemma LagIsTheWidestGap(clock: Clock, rs: seq<Reading>, s: string)
    ensures (forall i :: !Timed(clock, rs, s, i)) ==> LagOf(clock, rs, s) == 0
    ensures forall i, j :: Timed(clock, rs, s, i) && Timed(clock, rs, s, j) ==>
      Time(clock, rs[i], s).value - Time(clock, rs[j], s).value <= LagOf(clock, rs, s)
    ensures (exists i :: Timed(clock, rs, s, i)) ==>
      exists i, j :: Timed(clock, rs, s, i) && Timed(clock, rs, s, j) &&
        Time(clock, rs[i], s).value - Time(clock, rs[j], s).value == LagOf(clock, rs, s)
  {
    var ts, all := Stamps(clock, rs, s), Times(clock, rs, s);
    StampsArePositive(clock, rs, s);
    forall t ensures t in all <==> t in ts || (t == 0 && [] in Vectors(rs, s)) { TimesAreStampsOrZero(clock, rs, s, t); }
    forall i | Timed(clock, rs, s, i) ensures Time(clock, rs[i], s).value in all { TimesHas(clock, rs, s, Time(clock, rs[i], s).value); }
    GapOfTimes(ts, all);
    if all != [] {
      TimesHas(clock, rs, s, Peak(ts));
      TimesHas(clock, rs, s, Low(all));
    }
  }

  lemma GapOfTimes(ts: seq<int>, all: seq<int>)
    requires (forall t :: t in ts ==> t > 0) && (forall t :: t in ts ==> t in all)
    requires forall t :: t in all ==> t in ts || t == 0
    ensures all == [] ==> Peak(ts) == 0
    ensures all != [] ==> Peak(ts) in all && Low(all) in all && forall t :: t in all ==> Low(all) <= t <= Peak(ts)
  {
    PeakMeans(ts);
    if ts != [] {
      var t := ts[0];
      assert t in ts;
      assert t in all && t <= Peak(ts);
    }
    if all != [] {
      LowMeans(all);
      var t := all[0];
      assert t in all;
      if ts == [] { assert t !in ts; }
    }
  }

  lemma TimesHas(clock: Clock, rs: seq<Reading>, s: string, t: int)
    ensures t in Times(clock, rs, s) <==> exists i :: Timed(clock, rs, s, i) && Time(clock, rs[i], s).value == t
  {
    PickHas(TimeIn(clock, s), rs, t);
    if t in Times(clock, rs, s) {
      var i :| 0 <= i < |rs| && TimeIn(clock, s)(rs[i]) == Some(t);
      assert Timed(clock, rs, s, i);
    }
    if i :| Timed(clock, rs, s, i) && Time(clock, rs[i], s).value == t {
      assert TimeIn(clock, s)(rs[i]) == Some(t);
    }
  }

  /** The databases named as diverged are those two of whose readable pods differ, each
      with its lag, in order. */
  lemma DivergedAreNamed(clock: Clock, rs: seq<Reading>, d: Divergence)
    requires forall r :: r in rs ==> Plain(r.csns)
    ensures d in LocalVerdictOf(clock, rs).diverged <==>
      && d.lag == LagOf(clock, rs, d.suffix)
      && exists i, j :: 0 <= i < |rs| && 0 <= j < |rs| && rs[i].suffix == d.suffix && Disagree(rs, i, j)
  {
    var list := SuffixList(rs);
    SuffixListIsExact(rs);
    PickHas(DivergenceIn(clock, rs), list, d);
    if d in LocalVerdictOf(clock, rs).diverged {
      var k :| 0 <= k < |list| && DivergenceIn(clock, rs)(list[k]) == Some(d);
      var i, j := FindDisagreement(rs, list[k]);
    }
    if i, j :| 0 <= i < |rs| && 0 <= j < |rs| && rs[i].suffix == d.suffix && Disagree(rs, i, j) {
      DisagreementShows(rs, i, j);
      assert rs[i] in rs && d.suffix in list;
      var k :| 0 <= k < |list| && list[k] == d.suffix;
      assert d.lag == LagOf(clock, rs, d.suffix) ==> DivergenceIn(clock, rs)(list[k]) == Some(d);
    }
  }

  /** Both counts are counts of pods: those asked, and those that yielded a time. */
  lemma CountsArePods(clock: Clock, rs: seq<Reading>, s: string)
    requires s in Suffixes(rs)
    ensures
      var readout := Readouts(clock, rs)[s];
      && readout.expected == |set i | 0 <= i < |rs| && rs[i].suffix == s|
      && readout.read == |set i | 0 <= i < |rs| && Stamp(clock, rs[i], s).Some?|
  {
    AskedCounts(rs, s);
    StampsCount(clock, rs, s);
  }

  lemma AskedCounts(rs: seq<Reading>, s: string)
    ensures Asked(rs, s) == |set i | 0 <= i < |rs| && rs[i].suffix == s|
  {
    PickCounts(AskedIn(s), rs);
    assert (set i | 0 <= i < |rs| && rs[i].suffix == s) == FoundAt(AskedIn(s), rs);
  }

  lemma StampsCount(clock: Clock, rs: seq<Reading>, s: string)
    ensures |Stamps(clock, rs, s)| == |set i | 0 <= i < |rs| && Stamp(clock, rs[i], s).Some?|
  {
    PickCounts(StampIn(clock, s), rs);
    assert (set i | 0 <= i < |rs| && Stamp(clock, rs[i], s).Some?) == FoundAt(StampIn(clock, s), rs);
  }

  /** It happens: two pods one tick apart and an empty one. */
  lemma EmptyVectorInflatesTheLag()
    ensures
      var clock: Clock := c => Some(|c|);
      var rs := [Reading("p0", "d", "", ["c"]), Reading("p1", "d", "", ["cc"]), Reading("p2", "d", "", [])];
      "d" in Suffixes(rs) && Readouts(clock, rs)["d"].spread.Some? && LagOf(clock, rs, "d") != Readouts(clock, rs)["d"].spread.value
  {
    var clock: Clock := c => Some(|c|);
    var rs := [Reading("p0", "d", "", ["c"]), Reading("p1", "d", "", ["cc"]), Reading("p2", "d", "", [])];
    OneCsn(clock, "c");
    OneCsn(clock, "cc");
    EmptyVectorInflates(clock, rs[0], rs[1], rs[2], "d");
  }

  lemma EmptyVectorInflates(clock: Clock, a: Reading, b: Reading, empty: Reading, s: string)
    requires Stamp(clock, a, s).Some? && Stamp(clock, b, s).Some?
    requires empty.suffix == s && !empty.Failed() && empty.csns == []
    ensures
      var rs := [a, b, empty];
      s in Suffixes(rs) && Readouts(clock, rs)[s].spread.Some? && LagOf(clock, rs, s) != Readouts(clock, rs)[s].spread.value
  {
    var rs := [a, b, empty];
    assert rs[2] in rs && Stamped(clock, rs, s, 0) && Stamped(clock, rs, s, 1);
    SpreadIsTheWidestGap(clock, rs, s);
    VectorsHas(rs, s, []);
    assert rs[2].suffix == s && !rs[2].Failed() && rs[2].csns == [];
    LagIsTheSpread(clock, rs, s);
  }

  lemma LowWithZero(ts: seq<int>, all: seq<int>, zero: bool)
    requires ts != [] && (forall t :: t in ts ==> t > 0)
    requires forall t :: t in all <==> t in ts || (t == 0 && zero)
    ensures all != [] && (Low(all) == Low(ts) <==> !zero)
  {
    var t := ts[0];
    assert t in ts;
    assert t in all;
    LowMeans(ts);
    LowMeans(all);
    assert Low(ts) in all;
    if zero { assert 0 in all; } else { assert Low(all) in ts; }
  }

  lemma TimesAreStampsOrZero(clock: Clock, rs: seq<Reading>, s: string, t: int)
    ensures t in Times(clock, rs, s) <==> t in Stamps(clock, rs, s) || (t == 0 && [] in Vectors(rs, s))
  {
    PickHas(TimeIn(clock, s), rs, t);
    StampsHas(clock, rs, s, t);
    VectorsHas(rs, s, []);
    if t in Times(clock, rs, s) {
      var i :| 0 <= i < |rs| && TimeIn(clock, s)(rs[i]) == Some(t);
      if rs[i].csns != [] { assert Stamped(clock, rs, s, i); }
    }
    if t in Stamps(clock, rs, s) {
      var i :| Stamped(clock, rs, s, i) && Stamp(clock, rs[i], s).value == t;
      assert TimeIn(clock, s)(rs[i]) == Some(t);
    } else if t == 0 && [] in Vectors(rs, s) {
      var i :| 0 <= i < |rs| && rs[i].suffix == s && !rs[i].Failed() && rs[i].csns == [];
      assert TimeIn(clock, s)(rs[i]) == Some(0);
    }
  }

  // ---- Every reading is accounted for ----------------------------------------

  function Total(count: string -> int, over: seq<string>): int {
    if over == [] then 0 else count(over[0]) + Total(count, over[1..])
  }

  /** Adding one to one entry of a list without repetition adds one. */
  lemma {:induction false} TotalBumps(f: string -> int, g: string -> int, over: seq<string>, s: string)
    requires Distinct(over) && forall x :: g(x) == if x == s then f(x) + 1 else f(x)
    ensures Total(g, over) == Total(f, over) + if s in over then 1 else 0
  {
    if over != [] {
      TotalBumps(f, g, over[1..], s);
      assert over == [over[0]] + over[1..];
      if s == over[0] { assert s !in over[1..]; }
    }
  }

  lemma {:induction false} TotalOfNothing(f: string -> int, over: seq<string>)
    requires forall x :: f(x) == 0
    ensures Total(f, over) == 0
  {
    if over != [] { TotalOfNothing(f, over[1..]); }
  }

  function AskedOf(rs: seq<Reading>): string -> int {
    s => Asked(rs, s)
  }

  lemma {:induction false} AskedAddsUp(rs: seq<Reading>, over: seq<string>)
    requires Distinct(over) && forall r :: r in rs ==> r.suffix in over
    ensures Total(AskedOf(rs), over) == |rs|
  {
    if rs == [] {
      TotalOfNothing(AskedOf(rs), over);
    } else {
      var front, r := rs[..|rs| - 1], rs[|rs| - 1];
      assert rs == front + [r];
      AskedAddsUp(front, over);
      forall s ensures AskedOf(rs)(s) == if s == r.suffix then AskedOf(front)(s) + 1 else AskedOf(front)(s) { AskedSnoc(front, r, s); }
      TotalBumps(AskedOf(front), AskedOf(rs), over, r.suffix);
    }
  }

  function ExpectedOf(readouts: map<string, Readout>): string -> int {
    s => Get(readouts, s, Readout(0, 0, None)).expected
  }

  lemma {:induction false} TotalSame(f: string -> int, g: string -> int, over: seq<string>)
    requires forall s :: s in over ==> f(s) == g(s)
    ensures Total(f, over) == Total(g, over)
  {
    if over != [] { TotalSame(f, g, over[1..]); }
  }

  /** The expected counts of the databases add up to the readings of the pass. */
  lemma ExpectedAddsUp(clock: Clock, rs: seq<Reading>)
    ensures Total(ExpectedOf(Readouts(clock, rs)), SuffixList(rs)) == |rs|
  {
    SuffixListIsExact(rs);
    AskedAddsUp(rs, SuffixList(rs));
    TotalSame(ExpectedOf(Readouts(clock, rs)), AskedOf(rs), SuffixList(rs));
  }

  // ---- The order of the readings does not matter -----------------------------

  lemma AgreementPermutes(a: seq<seq<string>>, b: seq<seq<string>>)
    requires multiset(a) == multiset(b)
    ensures AllAgree(a) == AllAgree(b)
  {
    SameElements(a, b);
    AgreementIsPairwise(a);
    AgreementIsPairwise(b);
  }

  lemma DivergencePermutes(clock: Clock, a: seq<Reading>, b: seq<Reading>, s: string)
    requires multiset(a) == multiset(b)
    ensures DivergenceOf(clock, a, s) == DivergenceOf(clock, b, s)
  {
    QuantitiesPermute(clock, a, b, s);
    AgreementPermutes(Vectors(a, s), Vectors(b, s));
    LagPermutes(clock, a, b, s);
    JudgedSame(s, Vectors(a, s), Vectors(b, s), LagOf(clock, a, s));
  }

  lemma JudgedSame(s: string, x: seq<seq<string>>, y: seq<seq<string>>, lag: int)
    requires AllAgree(x) == AllAgree(y)
    ensures Judged(s, x, lag) == Judged(s, y, lag)
  {
  }

  lemma LagPermutes(clock: Clock, a: seq<Reading>, b: seq<Reading>, s: string)
    requires multiset(a) == multiset(b)
    ensures LagOf(clock, a, s) == LagOf(clock, b, s)
  {
    QuantitiesPermute(clock, a, b, s);
    ExtremesPermute(Stamps(clock, a, s), Stamps(clock, b, s));
    ExtremesPermute(Times(clock, a, s), Times(clock, b, s));
  }

  lemma ReadoutsPermute(clock: Clock, a: seq<Reading>, b: seq<Reading>)
    requires multiset(a) == multiset(b)
    ensures Readouts(clock, a) == Readouts(clock, b)
  {
    SuffixListPermutes(a, b);
    forall s ensures ReadoutOf(clock, a, s) == ReadoutOf(clock, b, s) { ReadoutPermutes(clock, a, b, s); }
  }

  lemma ReadoutPermutes(clock: Clock, a: seq<Reading>, b: seq<Reading>, s: string)
    requires multiset(a) == multiset(b)
    ensures ReadoutOf(clock, a, s) == ReadoutOf(clock, b, s)
    ensures Peak(Stamps(clock, a, s)) == Peak(Stamps(clock, b, s)) && |Stamps(clock, a, s)| == |Stamps(clock, b, s)|
  {
    PickPermutes(AskedIn(s), a, b);
    PickPermutes(StampIn(clock, s), a, b);
    SameLength(Pick(AskedIn(s), a), Pick(AskedIn(s), b));
    ReadoutFromPermutes(Asked(a, s), Stamps(clock, a, s), Stamps(clock, b, s));
  }

  lemma SameLength<T>(a: seq<T>, b: seq<T>)
    requires multiset(a) == multiset(b)
    ensures |a| == |b|
  {
    assert |a| == |multiset(a)| && |b| == |multiset(b)|;
  }

  lemma ReadoutFromPermutes(asked: nat, a: seq<int>, b: seq<int>)
    requires multiset(a) == multiset(b)
    ensures ReadoutFrom(asked, a) == ReadoutFrom(asked, b) && Peak(a) == Peak(b) && |a| == |b|
  {
    ExtremesPermute(a, b);
  }

  lemma NewestPermute(clock: Clock, a: seq<Reading>, b: seq<Reading>)
    requires multiset(a) == multiset(b)
    ensures NewestBySuffix(clock, a) == NewestBySuffix(clock, b)
  {
    SuffixListPermutes(a, b);
    forall s ensures |Stamps(clock, a, s)| == |Stamps(clock, b, s)| && Peak(Stamps(clock, a, s)) == Peak(Stamps(clock, b, s)) {
      ReadoutPermutes(clock, a, b, s);
    }
  }

  lemma LocalIsOrderFree(clock: Clock, a: seq<Reading>, b: seq<Reading>)
    requires multiset(a) == multiset(b)
    ensures LocalVerdictOf(clock, a) == LocalVerdictOf(clock, b)
  {
    ReadoutsPermute(clock, a, b);
    NewestPermute(clock, a, b);
    SuffixListPermutes(a, b);
    SameElements(a, b);
    assert |a| == |multiset(a)| && |b| == |multiset(b)|;
    forall s ensures DivergenceIn(clock, a)(s) == DivergenceIn(clock, b)(s) { DivergencePermutes(clock, a, b, s); }
    PickSame(DivergenceIn(clock, a), DivergenceIn(clock, b), SuffixList(a));
  }
}
