/** The purge/write rotation grid (purgerotation.go, and the two functions of
    writeservice.go that read the grid one lead ahead).

    Instants and durations are integers in nanoseconds, as Go counts them; an
    instant is relative to the Unix epoch and may be negative. */
module Rotation {
  import opened Prelude

  const SECOND: int := 1_000_000_000

  // ---- The code --------------------------------------------------------------

  /** time.Time.Unix: whole seconds, rounded down. */
  function UnixSeconds(now: int): int {
    now / SECOND
  }

  function PurgePhase(ordinal: int, n: int, t: int): int {
    if n <= 0 || t <= 0 || ordinal <= 0 then 0 else ordinal * t
  }

  function RotationSlot(now: int, t: int, n: int): (slot: int)
    ensures n > 0 ==> 0 <= slot < n
  {
    var step := Quo(t, SECOND);
    if n <= 0 || step <= 0 then 0
    else
      var sec := UnixSeconds(now);
      var q := Quo(sec, step);
      var slots := if sec < 0 && Rem(sec, step) != 0 then q - 1 else q;
      Residue(slots, n)
  }

  function WriterSlot(now: int, lead: int, t: int, n: int): int {
    RotationSlot(now + lead, t, n)
  }

  /** The scheduler of the accesslog-purge-phase patch: seconds, C division. */
  function NextFire(phase: int, iv: int, now: int): int
    requires iv > 0
  {
    var ph := Rem(phase, iv);
    ph + (Quo(now - ph, iv) + 1) * iv
  }

  // The two values writeTarget computes before it walks.
  function WalkStep(v: int): int {
    if v < 0 then -1 else 1
  }

  function WalkStart(v: int, n: int): (s: int)
    requires n > 0
    ensures n > 1 ==> 0 < s < n
  {
    if v % n == 0 then 1 else v % n
  }

  /** The k-th pod the walk looks at. */
  function Candidate(slot: int, n: int, v: int, k: int): (pod: int)
    requires n > 0
    ensures 0 <= pod < n
  {
    (slot + WalkStart(v, n) + k * WalkStep(v)) % n
  }

  /** The writer as the documentation describes it: nearest eligible pod in the
      direction of the sign, the purging pod when nobody else is left, nobody
      when nobody is eligible. */
  ghost predicate Chosen(slot: int, n: int, v: int, eligible: int -> bool, ord: int, ok: bool)
  {
    if n <= 0 then ord == 0 && !ok
    else
      var purging := slot % n;
      if exists p :: 0 <= p < n && p != purging && eligible(p) then
        ok && exists k :: 0 <= k < n && FirstOffered(slot, n, v, eligible, k)
                       && ord == Candidate(slot, n, v, k)
      else
        ok == eligible(purging) && ord == (if ok then purging else 0)
  }

  ghost predicate FirstOffered(slot: int, n: int, v: int, eligible: int -> bool, k: int)
    requires n > 0
  {
    && Offered(slot, n, v, eligible, k)
    && forall i :: 0 <= i < k ==> !Offered(slot, n, v, eligible, i)
  }

  predicate Offered(slot: int, n: int, v: int, eligible: int -> bool, k: int)
    requires n > 0
  {
    var p := Candidate(slot, n, v, k);
    p != slot % n && eligible(p)
  }

  method WriteTarget(slot: int, n: int, v: int, eligible: int -> bool) returns (ord: int, ok: bool)
    ensures Chosen(slot, n, v, eligible, ord, ok)
  {
    if n <= 0 {
      return 0, false;
    }
    var s := Residue(slot, n);
    var step := if v < 0 then -1 else 1;
    var w := Residue(v, n);
    if w == 0 {
      w := 1;
    }
    var k := 0;
    while k < n
      invariant 0 <= k <= n
      invariant forall i :: 0 <= i < k ==> !Offered(slot, n, v, eligible, i)
    {
      var j := Residue(w + k * step, n);
      OffsetIsCandidate(slot, n, v, k);
      if j != 0 {
        ord := Rem(s + j, n);
        assert ord == Candidate(slot, n, v, k);
        if eligible(ord) {
          assert FirstOffered(slot, n, v, eligible, k);
          return ord, true;
        }
      }
      k := k + 1;
    }
    forall p | 0 <= p < n && p != slot % n ensures !eligible(p) {
      var i := WalkReaches(slot, n, v, p);
      assert !Offered(slot, n, v, eligible, i);
    }
    if eligible(s) {
      return s, true;
    }
    return 0, false;
  }

  /** The loop's two-stage arithmetic is one residue. */
  lemma OffsetIsCandidate(slot: int, n: int, v: int, k: int)
    requires n > 0
    ensures
      var j := Residue(WalkStart(v, n) + k * WalkStep(v), n);
      && Rem(slot % n + j, n) == Candidate(slot, n, v, k)
      && (j == 0 <==> Candidate(slot, n, v, k) == slot % n)
  {
    OffsetResidue(slot, WalkStart(v, n) + k * WalkStep(v), n);
  }

  lemma OffsetResidue(slot: int, off: int, n: int)
    requires n > 0
    ensures
      var j := off % n;
      Rem(slot % n + j, n) == (slot + off) % n && (j == 0 <==> (slot + off) % n == slot % n)
  {
    var s, j := slot % n, off % n;
    ModAdd(slot, j, n);
    ModAdd(slot, off, n);
    if s + j < n { DivModUnique(s + j, n, 0, s + j); } else { DivModUnique(s + j, n, 1, s + j - n); }
  }

  // ---- The walk offers every pod exactly once --------------------------------

  /** Each pod of the fleet is looked at by one step of the walk ... */
  lemma WalkReaches(slot: int, n: int, v: int, p: int) returns (k: int)
    requires 0 <= p < n
    ensures 0 <= k < n && Candidate(slot, n, v, k) == p
  {
    var base := slot + WalkStart(v, n);
    var sg := WalkStep(v);
    k := ((p - base) * sg) % n;
    var q := ((p - base) * sg) / n;
    assert (p - base) * sg == q * n + k;
    assert k * sg == (p - base) + (-q * sg) * n by {
      assert k == (p - base) * sg - q * n;
      assert sg == 1 || sg == -1;
      if sg == 1 { assert (-q * sg) * n == -(q * n); } else { assert (-q * sg) * n == q * n; }
    }
    ModShift(p, -q * sg, n);
    DivModUnique(p, n, 0, p);
  }

  /** ... and by only one. */
  lemma WalkNeverRepeats(slot: int, n: int, v: int, k: int, k': int)
    requires 0 <= k < n && 0 <= k' < n
    requires Candidate(slot, n, v, k) == Candidate(slot, n, v, k')
    ensures k == k'
  {
    var base := slot + WalkStart(v, n);
    var sg := WalkStep(v);
    ModCongruent(base + k * sg, base + k' * sg, n);
    var q := (base + k * sg) / n - (base + k' * sg) / n;
    assert k * sg - k' * sg == q * n;
    if q >= 1 { MulMono(1, q, n); }
    if q <= -1 { MulMono(q, -1, n); }
  }

  /** The preferred pod is v slots on, or the next where v is whole periods, and each
      further step moves one slot in the direction of the sign of v, wrapping within
      the period. */
  lemma WalkFollowsTheSign(slot: int, n: int, v: int, k: int)
    requires n > 1
    ensures Candidate(slot, n, v, 0) == (slot + (if v % n == 0 then 1 else v)) % n != slot % n
    ensures Candidate(slot, n, v, k + 1) == (Candidate(slot, n, v, k) + (if v < 0 then -1 else 1)) % n
  {
    ModAdd(slot, v, n);
    OffsetIsCandidate(slot, n, v, 0);
    DivModUnique(WalkStart(v, n), n, 0, WalkStart(v, n));
    var sg := WalkStep(v);
    var a := slot + WalkStart(v, n) + k * sg;
    assert slot + WalkStart(v, n) + (k + 1) * sg == a + sg;
    ModAdd(a, sg, n);
  }

  /** Chosen leaves no freedom: it is the whole meaning of writeTarget. */
  lemma ChosenIsUnique(slot: int, n: int, v: int, eligible: int -> bool, a: int, aok: bool, b: int, bok: bool)
    requires Chosen(slot, n, v, eligible, a, aok) && Chosen(slot, n, v, eligible, b, bok)
    ensures a == b && aok == bok
  {
    if n > 0 && exists p :: 0 <= p < n && p != slot % n && eligible(p) {
      var i :| 0 <= i < n && FirstOffered(slot, n, v, eligible, i) && a == Candidate(slot, n, v, i);
      var j :| 0 <= j < n && FirstOffered(slot, n, v, eligible, j) && b == Candidate(slot, n, v, j);
      assert i == j;
    }
  }

  /** What a caller relies on: a writer exists exactly when somebody is eligible,
      it is eligible, and it is the purging pod only as the last resort. */
  lemma ChosenMeans(slot: int, n: int, v: int, eligible: int -> bool, ord: int, ok: bool)
    requires n > 0 && Chosen(slot, n, v, eligible, ord, ok)
    ensures ok <==> exists p :: 0 <= p < n && eligible(p)
    ensures ok ==> 0 <= ord < n && eligible(ord)
    ensures ok && ord == slot % n ==> forall p :: 0 <= p < n && eligible(p) ==> p == ord
  {
    if exists p :: 0 <= p < n && p != slot % n && eligible(p) {
      var k :| 0 <= k < n && FirstOffered(slot, n, v, eligible, k) && ord == Candidate(slot, n, v, k);
      assert Offered(slot, n, v, eligible, k);
    } else if eligible(slot % n) {
      var p := slot % n;
      assert 0 <= p < n && eligible(p);
    }
  }

  // ---- One grid, read from both ends -----------------------------------------

  ghost predicate Grid(t: int, n: int) {
    n > 0 && t > 0 && t % SECOND == 0
  }

  lemma SlotIsFloor(now: int, t: int, n: int)
    requires Grid(t, n)
    ensures RotationSlot(now, t, n) == (now / t) % n
  {
    var step := t / SECOND;
    assert t == SECOND * step;
    var sec := now / SECOND;
    DivDiv(now, SECOND, step);
    var q := Quo(sec, step);
    var slots := if sec < 0 && Rem(sec, step) != 0 then q - 1 else q;
    assert slots == sec / step by {
      if sec < 0 {
        var a, r := (-sec) / step, (-sec) % step;
        assert -sec == a * step + r;
        if r != 0 { 
          assert sec == (-a - 1) * step + (step - r);
          DivModUnique(sec, step, -a - 1, step - r);
        } else {
          assert sec == (-a) * step + 0;
          DivModUnique(sec, step, -a, 0);
        }
      }
    }
  }

  /** slot(now) = k exactly when now falls in [k t, (k+1) t) of the period,
      before the epoch as well as after it. */
  lemma SlotIsWindow(now: int, t: int, n: int, k: int)
    requires Grid(t, n) && 0 <= k < n
    ensures n * t > 0
    ensures RotationSlot(now, t, n) == k <==> PurgePhase(k, n, t) <= now % (n * t) < PurgePhase(k, n, t) + t
  {
    SlotIsFloor(now, t, n);
    var s := (now / t) % n;
    InPeriod(now, t, n);
    assert PurgePhase(k, n, t) == k * t;
    if s < k { MulMono(s + 1, k, t); Distribute(s, 1, t); }
    if s > k { MulMono(k + 1, s, t); Distribute(k, 1, t); }
  }

  lemma InPeriod(now: int, t: int, n: int)
    requires t > 0 && n > 0
    ensures n * t > 0
    ensures now % (n * t) == ((now / t) % n) * t + now % t
  {
    var j := now / t;
    var s := j % n;
    Periods(j, n, t);
    MulMono(0, s, t);
    MulMono(s + 1, n, t);
    Distribute(s, 1, t);
    DivModUnique(now, n * t, j / n, s * t + now % t);
  }

  /** The fire time is the first instant of the pod's grid strictly after now,
      exactly when the clock is not inside the stretch before the phase where
      C's division rounds the wrong way. */
  lemma NextFireIsFirst(phase: int, iv: int, now: int)
    requires iv > 0 && 0 <= phase < iv
    ensures
      (now < NextFire(phase, iv, now) <= now + iv)
      <==> (now >= phase || (phase - now) % iv == 0)
  {
    DivModUnique(phase, iv, 0, phase);
    var x := now - phase;
    if x >= 0 {
      assert (x / iv + 1) * iv == x / iv * iv + iv;
    } else {
      var q := (-x) / iv;
      assert (-q + 1) * iv == -(q * iv) + iv;
      assert -x == q * iv + (-x) % iv;
      assert NextFire(phase, iv, now) == now + iv + (-x) % iv;
    }
  }

  // ---- Real-time exclusion ---------------------------------------------------

  /** The m-th purge of pod p starts here. */
  function PurgeStart(p: int, n: int, t: int, m: int): int {
    PurgePhase(p, n, t) + m * (n * t)
  }

  ghost predicate Purging(p: int, n: int, t: int, duration: int, now: int) {
    exists m :: PurgeStart(p, n, t, m) <= now < PurgeStart(p, n, t, m) + duration
  }

  /** It does round the wrong way: at second 3, a schedule of phase 5 and interval 10
      fires next at 15, not at 5. */
  lemma EarlyClockSkipsAFire()
    ensures NextFire(5, 10, 3) == 15
  {
  }

  /** Phase and interval in whole seconds, as they reach the scheduler. */
  lemma WholeSeconds(t: int, n: int, k: int)
    requires Grid(t, n) && 0 <= k < n
    ensures
      var iv, ph := n * t / SECOND, PurgePhase(k, n, t) / SECOND;
      0 <= ph < iv && n * t == iv * SECOND && PurgePhase(k, n, t) == ph * SECOND
  {
    var step := t / SECOND;
    assert t == step * SECOND;
    assert n * t == (n * step) * SECOND && k * t == (k * step) * SECOND;
    DivModUnique(n * t, SECOND, n * step, 0);
    DivModUnique(k * t, SECOND, k * step, 0);
    MulMono(0, k, step);
    MulMono(k + 1, n, step);
    Distribute(k, 1, step);
    assert PurgePhase(k, n, t) == k * t;
  }

  /** Every fire time slapd computes is a purge start of the grid, and it falls
      in the pod's own slot, so no two pods ever fire in one slot. */
  lemma FiresInOwnSlot(now: int, t: int, n: int, k: int) returns (m: int)
    requires Grid(t, n) && 0 <= k < n
    ensures n * t / SECOND > 0
    ensures
      var fire := NextFire(PurgePhase(k, n, t) / SECOND, n * t / SECOND, now) * SECOND;
      fire == PurgeStart(k, n, t, m) && RotationSlot(fire, t, n) == k
  {
    WholeSeconds(t, n, k);
    var iv, ph := n * t / SECOND, PurgePhase(k, n, t) / SECOND;
    DivModUnique(ph, iv, 0, ph);
    m := Quo(now - ph, iv) + 1;
    assert m * iv * SECOND == m * (iv * SECOND);
    StartIsInSlot(t, n, k, m);
  }

  lemma StartIsInSlot(t: int, n: int, k: int, m: int)
    requires Grid(t, n) && 0 <= k < n
    ensures RotationSlot(PurgeStart(k, n, t, m), t, n) == k
  {
    assert PurgePhase(k, n, t) == k * t;
    MulMono(0, k, t);
    MulMono(k + 1, n, t);
    Distribute(k, 1, t);
    ModShift(k * t, m, n * t);
    DivModUnique(k * t, n * t, 0, k * t);
    SlotIsWindow(PurgeStart(k, n, t, m), t, n, k);
  }

  /** Where the purges of the pod `o` slots ahead of the writer's slot lie,
      measured from that slot. */
  lemma StartsAround(a: int, n: int, t: int, o: int, m: int) returns (e: int)
    requires Grid(t, n)
    ensures PurgeStart((RotationSlot(a, t, n) + o) % n, n, t, m) == (a / t) * t + o * t + e * (n * t)
  {
    SlotIsFloor(a, t, n);
    var j := a / t;
    ModAdd(j, o, n);
    var w, q := (j + o) % n, (j + o) / n;
    assert PurgePhase(w, n, t) == w * t;
    e := m - q;
    Periods(j + o, n, t);
    Distribute(j, o, t);
    Distribute(m, q, n * t);
  }

  /** Exclusion.  While the endpoint steers by slot(now + lead), the pod `o`
      slots ahead is never inside one of its own purges, provided the purge and
      the lead fit the n - o slots between its purge and its writes. */
  lemma WriterIsNotPurging(n: int, t: int, o: int, lead: int, duration: int, now: int)
    requires Grid(t, n) && 1 <= o < n && lead >= 0
    requires duration + lead <= (n - o) * t
    ensures !Purging((WriterSlot(now, lead, t, n) + o) % n, n, t, duration, now)
  {
    var w := (RotationSlot(now + lead, t, n) + o) % n;
    forall m ensures !(PurgeStart(w, n, t, m) <= now < PurgeStart(w, n, t, m) + duration) {
      PurgeIsElsewhere(n, t, o, lead, duration, now, m);
    }
  }

  lemma PurgeIsElsewhere(n: int, t: int, o: int, lead: int, duration: int, now: int, m: int)
    requires Grid(t, n) && 1 <= o < n && lead >= 0
    requires duration + lead <= (n - o) * t
    ensures
      var start := PurgeStart((WriterSlot(now, lead, t, n) + o) % n, n, t, m);
      !(start <= now < start + duration)
  {
    var start := PurgeStart((WriterSlot(now, lead, t, n) + o) % n, n, t, m);
    var e := StartsAround(now + lead, n, t, o, m);
    NoOverlap(now + lead, start, n, t, o, e, lead, duration);
  }

  /** The arithmetic heart of exclusion: a is an instant, o slots before the
      start of a purge and n - o slots after the start of the one before it. */
  lemma NoOverlap(a: int, start: int, n: int, t: int, o: int, e: int, lead: int, duration: int)
    requires t > 0 && 1 <= o < n && lead >= 0 && duration + lead <= (n - o) * t
    requires start == (a / t) * t + o * t + e * (n * t)
    ensures !(start <= a - lead < start + duration)
  {
    Distribute(n, o, t);
    var ahead, period := o * t, n * t;
    assert ahead >= t by { MulMono(1, o, t); }
    assert period >= 0 by { MulMono(0, n, t); }
    var shift := e * period;
    assert shift >= 0 || shift <= -period by {
      if e >= 0 { MulMono(0, e, period); } else { MulMono(e, -1, period); }
    }
  }

  /** ... and the bound is exact.  For every lead, however long: the pod v slots
      ahead stays clear of its purges at all instants if and only if the whole
      slots of the lead do not carry it onto the purging slot, and the rest of
      the lead plus the purge fit what is left of the period. */
  lemma ExclusionIsExact(n: int, t: int, v: int, lead: int, duration: int)
    requires Grid(t, n) && duration > 0
    ensures
      var o := (v + lead / t) % n;
      (forall now :: !Purging((WriterSlot(now, lead, t, n) + v) % n, n, t, duration, now))
      <==> (o != 0 && duration + lead % t <= (n - o) * t)
  {
    var o, d := (v + lead / t) % n, lead % t;
    forall now ensures (WriterSlot(now, lead, t, n) + v) % n == (WriterSlot(now, d, t, n) + o) % n {
      WholeSlotsOfLead(now, lead, t, n, v);
    }
    if o != 0 && duration + d <= (n - o) * t {
      forall now ensures !Purging((WriterSlot(now, lead, t, n) + v) % n, n, t, duration, now) {
        WriterIsNotPurging(n, t, o, d, duration, now);
      }
    } else {
      var now := OverlappingInstant(n, t, o, d, duration);
    }
  }

  /** Whole slots of lead only move the displacement. */
  lemma WholeSlotsOfLead(now: int, lead: int, t: int, n: int, v: int)
    requires Grid(t, n)
    ensures (WriterSlot(now, lead, t, n) + v) % n == (WriterSlot(now, lead % t, t, n) + (v + lead / t) % n) % n
  {
    var f, d := lead / t, lead % t;
    var a := now + d;
    FloorShift(a, f, t, now + lead);
    SlotIsFloor(now + lead, t, n);
    SlotIsFloor(a, t, n);
    ResiduesRegroup(a / t, f, v, n);
  }

  lemma FloorShift(a: int, f: int, t: int, b: int)
    requires t > 0 && b == a + f * t
    ensures b / t == a / t + f
  {
    Distribute(a / t, f, t);
    DivModUnique(b, t, a / t + f, a % t);
  }

  lemma ResiduesRegroup(j: int, f: int, v: int, n: int)
    requires n > 0
    ensures ((j + f) % n + v) % n == (j % n + (v + f) % n) % n
  {
    ModAdd(j + f, v, n);
    ModAdd(j % n, v + f, n);
    ModAdd(j, v + f, n);
    assert j + f + v == j + (v + f);
  }

  /** A lead of n - v whole slots carries the preferred pod onto the purging slot: the
      endpoint names the pod whose slot it is what is left of the lead from now; for
      a lead of exactly that many slots, the pod that is purging. */
  lemma LeadNamesThePurger(n: int, t: int, v: int, lead: int, now: int)
    requires Grid(t, n) && lead / t == n - v
    ensures (WriterSlot(now, lead, t, n) + v) % n == RotationSlot(now + lead % t, t, n)
  {
    WholeSlotsOfLead(now, lead, t, n, v);
    var slot := RotationSlot(now + lead % t, t, n);
    DivModUnique(n, n, 1, 0);
    DivModUnique(slot, n, 0, slot);
  }

  /** An instant at which the pod o slots ahead is purging. */
  lemma OverlappingInstant(n: int, t: int, o: int, d: int, duration: int) returns (now: int)
    requires Grid(t, n) && 0 <= o < n && 0 <= d < t && duration > 0
    requires o == 0 || duration + d > (n - o) * t
    ensures Purging((WriterSlot(now, d, t, n) + o) % n, n, t, duration, now)
  {
    var m := if o == 0 then 0 else -1;
    now := if o == 0 then 0 else -d;
    DivModUnique(now + d, t, 0, now + d);
    SlotIsFloor(now + d, t, n);
    DivModUnique(0, n, 0, 0);
    DivModUnique(o, n, 0, o);
    Distribute(n, o, t);
    MulMono(1, n - o, t);
    assert PurgePhase(o, n, t) == o * t;
    var start := PurgeStart(o, n, t, m);
    assert start <= now < start + duration;
  }

  /** Whoever the walk settles on, not only the preferred pod: when a purge and
      the lead fit in one slot, no pod except the last-resort one is purging. */
  lemma NoWalkedPodIsPurging(n: int, t: int, v: int, lead: int, duration: int, now: int,
                             eligible: int -> bool, ord: int, ok: bool)
    requires Grid(t, n) && lead >= 0 && duration + lead <= t
    requires Chosen(WriterSlot(now, lead, t, n), n, v, eligible, ord, ok)
    requires ok && ord != WriterSlot(now, lead, t, n)
    ensures !Purging(ord, n, t, duration, now)
  {
    var slot := WriterSlot(now, lead, t, n);
    DivModUnique(slot, n, 0, slot);
    var k :| 0 <= k < n && FirstOffered(slot, n, v, eligible, k) && ord == Candidate(slot, n, v, k);
    var o := (ord - slot) % n;
    ModAdd(slot, ord - slot, n);
    DivModUnique(ord, n, 0, ord);
    assert o != 0 by {
      if ord > slot { DivModUnique(ord - slot, n, 0, ord - slot); } else { DivModUnique(ord - slot, n, -1, ord - slot + n); }
    }
    MulMono(1, n - o, t);
    WriterIsNotPurging(n, t, o, lead, duration, now);
  }

  /** The pod o slots ahead of the slot the endpoint steers by. */
  function Ahead(now: int, lead: int, t: int, n: int, o: int): int
    requires n > 0
  {
    (WriterSlot(now, lead, t, n) + o) % n
  }

  /** Every pod but the purging one stays off its purges at all instants, if and only
      if the lead is whole periods and a rest that fits one slot with the purge. */
  lemma AllOffsetsAreSafeExactlyWhen(n: int, t: int, lead: int, duration: int)
    requires Grid(t, n) && n >= 2 && duration > 0
    ensures
      (forall o, now :: 1 <= o < n ==> !Purging(Ahead(now, lead, t, n, o), n, t, duration, now)) <==>
      (lead / t) % n == 0 && duration + lead % t <= t
  {
    var f, d := (lead / t) % n, lead % t;
    if f == 0 && duration + d <= t {
      forall o, now | 1 <= o < n ensures !Purging(Ahead(now, lead, t, n, o), n, t, duration, now) {
        OffsetMoves(o, lead / t, n);
        MulMono(1, n - o, t);
        ExclusionIsExact(n, t, o, lead, duration);
      }
    } else {
      var o := if f == 0 then n - 1 else n - f;
      OffsetMoves(o, lead / t, n);
      ExclusionIsExact(n, t, o, lead, duration);
      var now :| Purging((WriterSlot(now, lead, t, n) + o) % n, n, t, duration, now);
      assert Purging(Ahead(now, lead, t, n, o), n, t, duration, now);
    }
  }

  lemma OffsetMoves(o: int, q: int, n: int)
    requires 1 <= o < n
    ensures (o + q) % n == if o + q % n < n then o + q % n else o + q % n - n
  {
    ModAdd(o, q, n);
    var x := o + q % n;
    DivModUnique(x, n, if x < n then 0 else 1, if x < n then x else x - n);
  }

  /** The same of the walk: whoever is eligible, a chosen pod other than the last
      resort is never inside its own purge, under exactly that condition.  So a lead
      beyond one slot lets a fallback writer land in its purge. */
  lemma WalkIsSafeExactlyWhen(n: int, t: int, v: int, lead: int, duration: int)
    requires Grid(t, n) && n >= 2 && duration > 0
    ensures
      (forall now, eligible, ord ::
         Chosen(WriterSlot(now, lead, t, n), n, v, eligible, ord, true) && ord != WriterSlot(now, lead, t, n) ==>
           !Purging(ord, n, t, duration, now)) <==>
      (lead / t) % n == 0 && duration + lead % t <= t
  {
    AllOffsetsAreSafeExactlyWhen(n, t, lead, duration);
    if (lead / t) % n == 0 && duration + lead % t <= t {
      forall now, eligible, ord |
        Chosen(WriterSlot(now, lead, t, n), n, v, eligible, ord, true) && ord != WriterSlot(now, lead, t, n)
        ensures !Purging(ord, n, t, duration, now)
      {
        ChosenMeans(WriterSlot(now, lead, t, n), n, v, eligible, ord, true);
        var o := OffsetOf(WriterSlot(now, lead, t, n), n, ord);
        assert ord == Ahead(now, lead, t, n, o);
      }
    } else {
      var o, now :| 1 <= o < n && Purging(Ahead(now, lead, t, n, o), n, t, duration, now);
      var slot, pod := WriterSlot(now, lead, t, n), Ahead(now, lead, t, n, o);
      OffsetMoves(o, slot, n);
      DivModUnique(slot, n, 0, slot);
      OnlyOneEligible(slot, n, v, pod);
    }
  }

  lemma OffsetOf(slot: int, n: int, ord: int) returns (o: int)
    requires 0 <= slot < n && 0 <= ord < n && ord != slot
    ensures 1 <= o < n && (slot + o) % n == ord
  {
    o := if ord > slot then ord - slot else ord - slot + n;
    DivModUnique(slot + o, n, if ord > slot then 0 else 1, ord);
  }

  /** The only eligible pod is the one chosen. */
  lemma OnlyOneEligible(slot: int, n: int, v: int, pod: int)
    requires 0 <= slot < n && 0 <= pod < n && pod != slot
    ensures Chosen(slot, n, v, p => p == pod, pod, true)
  {
    var eligible := p => p == pod;
    DivModUnique(slot, n, 0, slot);
    assert eligible(pod) && pod != slot % n;
    var k := WalkReaches(slot, n, v, pod);
    forall i | 0 <= i < k ensures !Offered(slot, n, v, eligible, i) {
      if Candidate(slot, n, v, i) == pod { WalkNeverRepeats(slot, n, v, i, k); }
    }
    assert FirstOffered(slot, n, v, eligible, k);
  }

  /** The early handover into slot index j, one lead before the boundary j t,
      comes strictly after the incoming writer's preceding purge start exactly
      when lead < (n - v) t.  That is the gate's bound (n - 1) t for v = 1, and
      only for v = 1. */
  lemma HandoverAfterPurgeStart(n: int, t: int, v: int, lead: int, j: int) returns (m: int)
    requires Grid(t, n) && 1 <= v < n
    ensures
      var start := PurgeStart((j + v) % n, n, t, m);
      && start == j * t - (n - v) * t
      && (start < j * t - lead <==> lead < (n - v) * t)
  {
    m := (j + v) / n - 1;
    Periods(j + v, n, t);
    Distribute(j, v, t);
    Distribute(n, v, t);
    Distribute((j + v) / n, 1, n * t);
    var w := (j + v) % n;
    assert PurgePhase(w, n, t) == w * t;
  }
}
