/** The schedule gate (rotation_gate.go) and the olcAccessLogPurge value it ends
    in (purgerotation.go, accesslog_purge_converged.go).  Durations are in
    nanoseconds; int32 and int64 are modelled as unbounded integers. */
module PurgePlan {
  import opened Prelude
  import opened Text
  import opened Rotation

  const DEFAULT_INTERVAL: int := 24 * 3600 * SECOND
  const DEFAULT_RETENTION: int := 7 * 24 * 3600 * SECOND

  // ---- The custom resources, as far as the schedule reads them ---------------

  /** spec.rotation.mode; Other is a string the API declares no meaning for. */
  datatype Mode = Unset | PurgeAndWrite | PurgeOnly | WriteOnly | Other(name: string)

  datatype RotationSpec = RotationSpec(
    enabled: Option<bool>, mode: Mode, slotLength: Option<int>,
    slotsFromWriteToPurge: Option<int>, leadTime: Option<int>)

  datatype Cluster = Cluster(replicas: int, purgeInterval: Option<int>, rotation: RotationSpec)

  datatype Database = Database(purge: Option<DatabasePurge>)
  datatype DatabasePurge = DatabasePurge(enabled: Option<bool>, retention: Option<int>)

  // ---- The gate --------------------------------------------------------------

  datatype Reason =
    | RotationDisabled | RotationActive
    | ScheduleDeclaredTwice | PurgeIntervalNotUsable
    | SlotLengthMissing | SlotLengthNotPositive | SlotLengthNotWholeSeconds
    | FieldHasNoReferentInMode | WriteSlotCollidesWithPurge | LeadTimeOutOfRange

  datatype Plan = Plan(
    phasesActive: bool, writerActive: bool, slotLength: int, leadTime: int,
    interval: int, replicas: int, slotsFromWriteToPurge: int, status: bool, reason: Reason)

  function DeclaredReplicas(sc: Option<Cluster>): int {
    if sc.None? || sc.value.replicas <= 0 then 1 else sc.value.replicas
  }

  /** The interval in force for form A, and whether the declared one was unusable. */
  function DeclaredPurgeInterval(sc: Option<Cluster>): (int, bool) {
    if sc.None? || sc.value.purgeInterval.None? then (DEFAULT_INTERVAL, false)
    else
      var iv := sc.value.purgeInterval.value;
      if iv <= 0 || Rem(iv, SECOND) != 0 then (DEFAULT_INTERVAL, true) else (iv, false)
  }

  function Flat(n: int, status: bool, reason: Reason, iv: int): Plan {
    Plan(false, false, 0, 0, iv, n, 0, status, reason)
  }

  function EvaluateRotation(sc: Option<Cluster>): Plan {
    var n := DeclaredReplicas(sc);
    if sc.None? then Flat(n, true, RotationDisabled, DEFAULT_INTERVAL)
    else
      var (declaredInterval, intervalFault) := DeclaredPurgeInterval(sc);
      var r := sc.value.rotation;
      var wanted := r.enabled == Some(true);
      var mode := if r.mode == Unset then PurgeAndWrite else r.mode;
      var declaresSchedule := mode != WriteOnly;
      if wanted && declaresSchedule && sc.value.purgeInterval.Some? then
        Flat(n, false, ScheduleDeclaredTwice, DEFAULT_INTERVAL)
      else if intervalFault then
        Flat(n, false, PurgeIntervalNotUsable, DEFAULT_INTERVAL)
      else if !wanted then
        Flat(n, true, RotationDisabled, declaredInterval)
      else if r.slotLength.None? then
        Flat(n, false, SlotLengthMissing, DEFAULT_INTERVAL)
      else if r.slotLength.value <= 0 then
        Flat(n, false, SlotLengthNotPositive, DEFAULT_INTERVAL)
      else if Rem(r.slotLength.value, SECOND) != 0 then
        Flat(n, false, SlotLengthNotWholeSeconds, DEFAULT_INTERVAL)
      else
        GridPlan(n, r, mode, r.slotLength.value, declaredInterval)
  }

  /** The rest of the gate, once the slot length has proved usable. */
  function GridPlan(n: int, r: RotationSpec, mode: Mode, t: int, declaredInterval: int): Plan
    requires n > 0
  {
    if mode != PurgeAndWrite && (r.slotsFromWriteToPurge.Some? || r.leadTime.Some?) then
      Flat(n, false, FieldHasNoReferentInMode, DEFAULT_INTERVAL)
    else
      var want := if r.slotsFromWriteToPurge.Some? then r.slotsFromWriteToPurge.value else 1;
      var resolved := Residue(want, n);
      if r.slotsFromWriteToPurge.Some? && n > 1 && resolved == 0 then
        Flat(n, false, WriteSlotCollidesWithPurge, DEFAULT_INTERVAL)
      else
        var v := if resolved == 0 then 1 else resolved;
        var lead := if r.leadTime.Some? then r.leadTime.value else 0;
        if lead < 0 || (lead > 0 && lead >= (n - 1) * t) then
          Flat(n, false, LeadTimeOutOfRange, DEFAULT_INTERVAL)
        else
          var declaresSchedule := mode != WriteOnly;
          Plan(declaresSchedule, mode != PurgeOnly, t, lead,
               if declaresSchedule then n * t else declaredInterval,
               n, v, true, RotationActive)
  }

  /** What the rest of the operator needs of a plan: a usable interval, and, for
      a rotation in force, a displacement and a lead inside its grid. */
  predicate Usable(p: Plan) {
    && p.replicas >= 1
    && p.interval > 0 && p.interval % SECOND == 0
    && (p.phasesActive ==> p.interval == p.replicas * p.slotLength)
    && (p.phasesActive || p.writerActive ==>
          && p.slotLength > 0 && p.slotLength % SECOND == 0
          && 0 <= p.leadTime && (p.leadTime == 0 || p.leadTime < (p.replicas - 1) * p.slotLength)
          && (p.replicas > 1 ==> 1 <= p.slotsFromWriteToPurge < p.replicas))
  }

  /** Whatever a user wrote, the plan is usable; a rotation is in force only
      under the reason that says so; and a declared displacement is resolved
      modulo the declared replica count. */
  lemma PlanIsUsable(sc: Option<Cluster>)
    ensures
      var p := EvaluateRotation(sc);
      && Usable(p)
      && (p.phasesActive || p.writerActive <==> p.reason == RotationActive)
      && (p.reason == RotationActive && p.replicas > 1 && sc.value.rotation.slotsFromWriteToPurge.Some? ==>
            p.slotsFromWriteToPurge == sc.value.rotation.slotsFromWriteToPurge.value % p.replicas)
  {
    if sc.Some? && sc.value.rotation.slotLength.Some? {
      var r := sc.value.rotation;
      var t := r.slotLength.value;
      if t > 0 && Rem(t, SECOND) == 0 && !DeclaredPurgeInterval(sc).1 {
        GridPlanIsUsable(DeclaredReplicas(sc), r, if r.mode == Unset then PurgeAndWrite else r.mode, t, DeclaredPurgeInterval(sc).0);
      }
    }
  }

  lemma GridPlanIsUsable(n: int, r: RotationSpec, mode: Mode, t: int, declaredInterval: int)
    requires n > 0 && t > 0 && t % SECOND == 0 && declaredInterval > 0 && declaredInterval % SECOND == 0
    ensures
      var p := GridPlan(n, r, mode, t, declaredInterval);
      && Usable(p)
      && (p.phasesActive || p.writerActive <==> p.reason == RotationActive)
      && (p.reason == RotationActive && p.replicas > 1 && r.slotsFromWriteToPurge.Some? ==>
            p.slotsFromWriteToPurge == r.slotsFromWriteToPurge.value % p.replicas)
  {
    WholeMultiple(t, n);
    if n > 1 { DivModUnique(1, n, 0, 1); }
  }

  lemma WholeMultiple(t: int, n: int)
    requires t > 0 && t % SECOND == 0 && n >= 1
    ensures n * t > 0 && (n * t) % SECOND == 0
  {
    var step := t / SECOND;
    MulMono(1, n, t);
    assert t == step * SECOND;
    assert n * t == (n * step) * SECOND;
    DivModUnique(n * t, SECOND, n * step, 0);
  }

  // ---- The plan, told from the declared fields -------------------------------

  /** A positive whole number of seconds. */
  predicate WholeSecondsAbove0(d: int) {
    d > 0 && d % 1_000_000_000 == 0
  }

  function Fleet(sc: Cluster): int {
    if sc.replicas <= 0 then 1 else sc.replicas
  }

  /** The purge interval of form A: what was declared, or a day. */
  function DeclaredOrADay(sc: Cluster): int {
    if sc.purgeInterval.Some? then sc.purgeInterval.value else 86_400_000_000_000
  }

  predicate IntervalUnusable(sc: Cluster) {
    sc.purgeInterval.Some? && !WholeSecondsAbove0(sc.purgeInterval.value)
  }

  /** Rotation was asked for, and the declared schedule is one. */
  predicate RotationInForce(sc: Cluster) {
    var r, n := sc.rotation, Fleet(sc);
    && r.enabled == Some(true) && !IntervalUnusable(sc) && (r.mode != WriteOnly ==> sc.purgeInterval.None?)
    && r.slotLength.Some? && WholeSecondsAbove0(r.slotLength.value)
    && (r.slotsFromWriteToPurge.Some? || r.leadTime.Some? ==> r.mode == Unset || r.mode == PurgeAndWrite)
    && (r.slotsFromWriteToPurge.Some? && n > 1 ==> r.slotsFromWriteToPurge.value % n != 0)
    && (r.leadTime.Some? ==> r.leadTime.value == 0 || 0 < r.leadTime.value < (n - 1) * r.slotLength.value)
  }

  /** The gate, whole: a rotation is in force exactly when it is asked for and nothing
      about it is wrong; then every field of the plan is the declared one, the grid's
      interval is replicas times the slot, every mode but WriteOnly staggers the
      purges and every mode but PurgeOnly moves the writer.  Without rotation the
      declared interval holds; and every fault falls back to one purge a day. */
  lemma PlanFromFields(sc: Cluster)
    ensures
      var p, r, n := EvaluateRotation(Some(sc)), sc.rotation, Fleet(sc);
      && p.replicas == n && (p.reason == RotationActive <==> RotationInForce(sc))
      && (RotationInForce(sc) ==>
            && p.status && p.phasesActive == (r.mode != WriteOnly) && p.writerActive == (r.mode != PurgeOnly)
            && p.slotLength == r.slotLength.value
            && p.leadTime == (if r.leadTime.Some? then r.leadTime.value else 0)
            && p.interval == (if r.mode != WriteOnly then n * r.slotLength.value else DeclaredOrADay(sc))
            && p.slotsFromWriteToPurge == (if n == 1 || r.slotsFromWriteToPurge.None? then 1 else r.slotsFromWriteToPurge.value % n))
      && (!RotationInForce(sc) ==> !p.phasesActive && !p.writerActive)
      && (p.reason == RotationDisabled <==> r.enabled != Some(true) && !IntervalUnusable(sc))
      && (p.reason == RotationDisabled ==> p.status && p.interval == DeclaredOrADay(sc))
      && (p.reason != RotationDisabled && p.reason != RotationActive ==> !p.status && p.interval == 86_400_000_000_000)
  {
    var r, n := sc.rotation, Fleet(sc);
    if n > 1 { DivModUnique(1, n, 0, 1); }
  }

  /** Which fault is reported: the first of these. */
  lemma FaultFromFields(sc: Cluster)
    ensures
      var p, r, n := EvaluateRotation(Some(sc)), sc.rotation, Fleet(sc);
      var wanted, other := r.enabled == Some(true), r.mode != Unset && r.mode != PurgeAndWrite;
      p.reason ==
        if wanted && r.mode != WriteOnly && sc.purgeInterval.Some? then ScheduleDeclaredTwice
        else if IntervalUnusable(sc) then PurgeIntervalNotUsable
        else if !wanted then RotationDisabled
        else if r.slotLength.None? then SlotLengthMissing
        else if r.slotLength.value <= 0 then SlotLengthNotPositive
        else if !WholeSecondsAbove0(r.slotLength.value) then SlotLengthNotWholeSeconds
        else if other && (r.slotsFromWriteToPurge.Some? || r.leadTime.Some?) then FieldHasNoReferentInMode
        else if r.slotsFromWriteToPurge.Some? && n > 1 && r.slotsFromWriteToPurge.value % n == 0 then WriteSlotCollidesWithPurge
        else if RotationInForce(sc) then RotationActive
        else LeadTimeOutOfRange
  {
  }

  // ---- slapd's [ddd+]hh:mm[:ss] ----------------------------------------------

  function FormatClock(rest: nat): string
    requires rest < 86400
  {
    TwoDigits(rest / 3600) + ":" + TwoDigits(rest % 3600 / 60) + ":" + TwoDigits(rest % 60)
  }

  function FormatAge(days: nat, rest: nat): string
    requires rest < 86400
  {
    WithDays(days, FormatClock(rest))
  }

  function WithDays(days: nat, clock: string): string {
    if days > 0 then Decimal(days) + "+" + clock else clock
  }

  function FormatLogAge(duration: int): string {
    FormatSeconds(Quo(if duration < 0 then 0 else duration, SECOND))
  }

  function FormatSeconds(secs: nat): string {
    FormatAge(secs / 86400, secs % 86400)
  }

  function ComposePurge(retention: int, interval: int, phase: Option<int>): string {
    if retention <= 0 || interval <= 0 then ""
    else PurgeText(FormatLogAge(retention), FormatLogAge(interval),
                   if phase.Some? then Some(FormatLogAge(phase.value)) else None)
  }

  function PurgeText(retention: string, interval: string, phase: Option<string>): string {
    retention + " " + interval + (if phase.Some? then " " + phase.value else "")
  }

  /** The reader: what the server takes such a text to mean, in seconds. */
  function ReadClock(s: string): Option<nat> {
    ClockOf(Split(s, ':'))
  }

  predicate IsField(s: string) {
    |s| == 2 && AreDigits(s, 10)
  }

  function ClockOf(f: seq<string>): Option<nat> {
    if !(2 <= |f| <= 3) || !IsField(f[0]) || !IsField(f[1]) || !IsField(f[|f| - 1]) then None
    else Some(Seconds(Value(f[0], 10), Value(f[1], 10), if |f| == 3 then Value(f[2], 10) else 0))
  }

  function Seconds(h: nat, m: nat, s: nat): nat {
    h * 3600 + m * 60 + s
  }

  function ReadLogAge(s: string): Option<nat> {
    AgeOf(Split(s, '+'))
  }

  function AgeOf(f: seq<string>): Option<nat> {
    if |f| == 1 then ReadClock(f[0])
    else if |f| == 2 && f[0] != "" && AreDigits(f[0], 10) then DaysAndClock(Value(f[0], 10), ReadClock(f[1]))
    else None
  }

  function DaysAndClock(days: nat, clock: Option<nat>): Option<nat> {
    if clock.Some? then Some(days * 86400 + clock.value) else None
  }

  /** The whole attribute: retention, interval and, when staggered, a phase. */
  datatype Schedule = Schedule(retention: nat, interval: nat, phase: Option<nat>)

  function ReadPurge(value: string): Option<Schedule> {
    ScheduleOf(Split(value, ' '))
  }

  function ScheduleOf(f: seq<string>): Option<Schedule> {
    if |f| == 2 && ReadLogAge(f[0]).Some? && ReadLogAge(f[1]).Some? then
      Some(Schedule(ReadLogAge(f[0]).value, ReadLogAge(f[1]).value, None))
    else if |f| == 3 && ReadLogAge(f[0]).Some? && ReadLogAge(f[1]).Some? && ReadLogAge(f[2]).Some? then
      Some(Schedule(ReadLogAge(f[0]).value, ReadLogAge(f[1]).value, Some(ReadLogAge(f[2]).value)))
    else None
  }

  lemma ThreeFields(h: string, m: string, s: string)
    requires |h| == |m| == |s| == 2 && AreDigits(h, 10) && AreDigits(m, 10) && AreDigits(s, 10)
    ensures Split(h + ":" + m + ":" + s, ':') == [h, m, s]
    ensures '+' !in h + ":" + m + ":" + s && ' ' !in h + ":" + m + ":" + s
  {
    DigitsAvoid(h, 10, ':');
    DigitsAvoid(m, 10, ':');
    DigitsAvoid(s, 10, ':');
    assert h + ":" + m + ":" + s == h + ":" + (m + ":" + s);
    SplitCons(h, ':', m + ":" + s);
    SplitCons(m, ':', s);
    SplitWhole(s, ':');
  }

  lemma ClockReadsBack(rest: nat)
    requires rest < 86400
    ensures ReadClock(FormatClock(rest)) == Some(rest)
    ensures '+' !in FormatClock(rest) && ' ' !in FormatClock(rest)
  {
    var h, m, s := TwoDigits(rest / 3600), TwoDigits(rest % 3600 / 60), TwoDigits(rest % 60);
    ThreeFields(h, m, s);
    FieldsAreClock(h, m, s);
    SecondsOfParts(rest);
  }

  lemma SecondsOfParts(rest: nat)
    ensures Seconds(rest / 3600, rest % 3600 / 60, rest % 60) == rest
  {
  }

  lemma FieldsAreClock(h: string, m: string, s: string)
    requires IsField(h) && IsField(m) && IsField(s)
    ensures ClockOf([h, m, s]) == Some(Seconds(Value(h, 10), Value(m, 10), Value(s, 10)))
  {
    var f := [h, m, s];
    assert f[0] == h && f[1] == m && f[2] == s && |f| == 3;
  }

  /** The printer's text reads back to exactly the whole seconds it was given, with a
      negative duration taken for zero. */
  lemma LogAgeReadsBack(d: int)
    ensures ReadLogAge(FormatLogAge(d)) == Some((if d < 0 then 0 else d) / SECOND) && ' ' !in FormatLogAge(d)
  {
    var secs := Quo(if d < 0 then 0 else d, SECOND);
    SecondsReadBack(secs, secs / 86400, secs % 86400);
    AgeHasNoBlank(secs / 86400, secs % 86400);
  }

  lemma SecondsReadBack(secs: nat, days: nat, rest: nat)
    requires secs == days * 86400 + rest && rest < 86400
    ensures ReadLogAge(FormatSeconds(secs)) == Some(secs)
  {
    DivModUnique(secs, 86400, days, rest);
    AgeReadsBack(days, rest);
  }

  lemma AgeReadsBack(days: nat, rest: nat)
    requires rest < 86400
    ensures ReadLogAge(FormatAge(days, rest)) == Some(days * 86400 + rest)
  {
    ClockReadsBack(rest);
    DaysReadBack(days, FormatClock(rest), rest);
  }

  lemma AgeHasNoBlank(days: nat, rest: nat)
    requires rest < 86400
    ensures ' ' !in FormatAge(days, rest)
  {
    ClockReadsBack(rest);
    DaysAvoidBlank(days, FormatClock(rest));
  }

  lemma DaysReadBack(days: nat, clock: string, rest: nat)
    requires ReadClock(clock) == Some(rest) && '+' !in clock
    ensures ReadLogAge(WithDays(days, clock)) == Some(days * 86400 + rest)
  {
    if days == 0 {
      SplitWhole(clock, '+');
    } else {
      DecimalValue(days);
      DigitsAvoid(Decimal(days), 10, '+');
      AgeOfTwo(Decimal(days), clock);
      TwoPartsRead(Decimal(days), clock, Some(days * 86400 + rest));
    }
  }

  lemma DaysAvoidBlank(days: nat, clock: string)
    requires ' ' !in clock
    ensures ' ' !in WithDays(days, clock)
  {
    DigitsAvoid(Decimal(days), 10, ' ');
  }

  lemma TwoPartsRead(days: string, clock: string, age: Option<nat>)
    requires '+' !in days && '+' !in clock && AgeOf([days, clock]) == age
    ensures ReadLogAge(days + "+" + clock) == age
  {
    TwoParts(days, clock, '+');
  }

  lemma TwoParts(a: string, b: string, c: char)
    requires c !in a && c !in b
    ensures Split(a + [c] + b, c) == [a, b]
  {
    SplitCons(a, c, b);
    SplitWhole(b, c);
  }

  lemma AgeOfTwo(days: string, clock: string)
    requires days != "" && AreDigits(days, 10)
    ensures AgeOf([days, clock]) == DaysAndClock(Value(days, 10), ReadClock(clock))
  {
    var f := [days, clock];
    assert f[0] == days && f[1] == clock;
  }

  lemma FieldsReadBack(a: string, b: string, c: Option<string>)
    requires ReadLogAge(a).Some? && ReadLogAge(b).Some? && (c.Some? ==> ReadLogAge(c.value).Some?)
    ensures ScheduleOf([a, b] + Picked(c)) == Some(Schedule(
      ReadLogAge(a).value, ReadLogAge(b).value, if c.Some? then Some(ReadLogAge(c.value).value) else None))
  {
    var f := [a, b] + Picked(c);
    assert f[0] == a && f[1] == b && (c.Some? ==> f[2] == c.value);
  }

  lemma TextSplits(a: string, b: string, c: Option<string>)
    requires ' ' !in a && ' ' !in b && (c.Some? ==> ' ' !in c.value)
    ensures PurgeText(a, b, c) != "" && Split(PurgeText(a, b, c), ' ') == [a, b] + Picked(c)
  {
    if c.Some? {
      ThreeParts(a, b, c.value);
      assert PurgeText(a, b, c) == a + " " + (b + " " + c.value);
      assert [a, b] + [c.value] == [a, b, c.value];
    } else {
      TwoParts(a, b, ' ');
      assert PurgeText(a, b, c) == a + " " + b;
    }
  }

  lemma ThreeParts(a: string, b: string, c: string)
    requires ' ' !in a && ' ' !in b && ' ' !in c
    ensures Split(a + " " + (b + " " + c), ' ') == [a, b, c]
  {
    SplitCons(a, ' ', b + " " + c);
    TwoParts(b, c, ' ');
  }

  lemma PurgeReadsBack(retention: int, interval: int, phase: Option<int>)
    ensures ComposePurge(retention, interval, phase) == "" <==> retention <= 0 || interval <= 0
    ensures retention > 0 && interval > 0 ==>
      ReadPurge(ComposePurge(retention, interval, phase)) == Some(Schedule(
        retention / SECOND, interval / SECOND,
        if phase.Some? then Some((if phase.value < 0 then 0 else phase.value) / SECOND) else None))
  {
    LogAgeReadsBack(retention);
    LogAgeReadsBack(interval);
    if phase.Some? { LogAgeReadsBack(phase.value); }
    var c := if phase.Some? then Some(FormatLogAge(phase.value)) else None;
    TextSplits(FormatLogAge(retention), FormatLogAge(interval), c);
    FieldsReadBack(FormatLogAge(retention), FormatLogAge(interval), c);
  }

  // ---- One pod of one database -----------------------------------------------

  /** The retention in force, and whether the declared one had to be replaced. */
  function ResolveRetention(sd: Option<Database>): (int, bool) {
    if sd.None? || sd.value.purge.None? then (DEFAULT_RETENTION, false)
    else
      var p := sd.value.purge.value;
      if p.enabled == Some(false) then (0, false)
      else if p.retention.None? then (DEFAULT_RETENTION, false)
      else if p.retention.value <= 0 || Rem(p.retention.value, SECOND) != 0 then (DEFAULT_RETENTION, true)
      else (p.retention.value, false)
  }

  datatype PodPurge = PodPurge(value: string, fallback: string)

  function PlanPodPurge(plan: Plan, sd: Option<Database>, ordinal: int): PodPurge {
    var retention := ResolveRetention(sd).0;
    if retention <= 0 then PodPurge("", "")
    else if !plan.phasesActive then PodPurge(ComposePurge(retention, plan.interval, None), "")
    else
      var phase := PurgePhase(ordinal, plan.replicas, plan.slotLength);
      PodPurge(ComposePurge(retention, plan.interval, Some(phase)), ComposePurge(retention, plan.interval, None))
  }

  predicate PurgingSwitchedOff(sd: Option<Database>) {
    sd.Some? && sd.value.purge.Some? && sd.value.purge.value.enabled == Some(false)
  }

  /** What the server makes of the value written to one pod. */
  ghost predicate ReadsAs(value: string, plan: Plan, retention: int, ordinal: int) {
    && ReadPurge(value).Some?
    && var s := ReadPurge(value).value;
       && s.retention * SECOND == retention
       && s.interval > 0 && s.interval * SECOND == plan.interval
       && (s.phase.Some? <==> plan.phasesActive)
       && (plan.phasesActive && 0 <= ordinal < plan.replicas ==>
             && s.phase.value * SECOND == PurgePhase(ordinal, plan.replicas, plan.slotLength) == ordinal * plan.slotLength
             && s.phase.value < s.interval)
  }

  lemma PodValueReadsAs(plan: Plan, sd: Option<Database>, ordinal: int)
    requires Usable(plan) && ResolveRetention(sd).0 > 0
    ensures ReadsAs(PlanPodPurge(plan, sd, ordinal).value, plan, ResolveRetention(sd).0, ordinal)
  {
    var retention := ResolveRetention(sd).0;
    RetentionIsPositive(sd);
    if plan.phasesActive {
      var phase := PurgePhase(ordinal, plan.replicas, plan.slotLength);
      PhaseIsNatural(ordinal, plan.replicas, plan.slotLength);
      PurgeReadsBack(retention, plan.interval, Some(phase));
      if 0 <= ordinal < plan.replicas { WholeSeconds(plan.slotLength, plan.replicas, ordinal); }
    } else {
      PurgeReadsBack(retention, plan.interval, None);
    }
  }

  lemma PhaseIsNatural(ordinal: int, n: int, t: int)
    ensures PurgePhase(ordinal, n, t) >= 0
    ensures 0 <= ordinal < n && t > 0 ==> PurgePhase(ordinal, n, t) == ordinal * t
  {
    if ordinal > 0 && t > 0 { MulMono(0, ordinal, t); }
  }

  /** The retention declared for the database, where it is one; else a week. */
  function RetentionInForce(sd: Option<Database>): int {
    if sd.Some? && sd.value.purge.Some? && sd.value.purge.value.retention.Some?
       && WholeSecondsAbove0(sd.value.purge.value.retention.value)
    then sd.value.purge.value.retention.value
    else 604_800_000_000_000
  }

  /** The interval declared for the cluster: the grid's, form A's, or a day. */
  function IntervalInForce(sc: Option<Cluster>): int {
    if sc.None? then 86_400_000_000_000
    else if RotationInForce(sc.value) && sc.value.rotation.mode != WriteOnly then
      Fleet(sc.value) * sc.value.rotation.slotLength.value
    else if RotationInForce(sc.value) || (sc.value.rotation.enabled != Some(true) && !IntervalUnusable(sc.value)) then
      DeclaredOrADay(sc.value)
    else 86_400_000_000_000
  }

  predicate Staggers(sc: Option<Cluster>) {
    sc.Some? && RotationInForce(sc.value) && sc.value.rotation.mode != WriteOnly
  }

  lemma PlanFromResources(sc: Option<Cluster>)
    ensures
      var p := EvaluateRotation(sc);
      && p.interval == IntervalInForce(sc) && p.phasesActive == Staggers(sc)
      && (Staggers(sc) ==> p.slotLength == sc.value.rotation.slotLength.value && p.replicas == Fleet(sc.value))
  {
    if sc.Some? { PlanFromFields(sc.value); }
  }

  lemma RetentionMeans(sd: Option<Database>)
    ensures ResolveRetention(sd).0 == if PurgingSwitchedOff(sd) then 0 else RetentionInForce(sd)
    ensures ResolveRetention(sd).1 <==>
      && !PurgingSwitchedOff(sd) && sd.Some? && sd.value.purge.Some? && sd.value.purge.value.retention.Some?
      && !WholeSecondsAbove0(sd.value.purge.value.retention.value)
  {
  }

  /** A journal is never left unpurged by accident.  For every cluster and
      database, whatever durations they declare: the attribute is absent exactly
      when purging was switched off; otherwise the server reads back the retention
      and the interval that were declared, or a week and a day, and, exactly when a
      rotation staggers the purges, the phase of ordinal slots, below the interval. */
  lemma JournalIsPurged(sc: Option<Cluster>, sd: Option<Database>, ordinal: int)
    ensures
      var value := PlanPodPurge(EvaluateRotation(sc), sd, ordinal).value;
      && (value == "" <==> PurgingSwitchedOff(sd))
      && (value != "" ==>
            && ReadPurge(value).Some?
            && var s := ReadPurge(value).value;
               && s.retention * SECOND == RetentionInForce(sd)
               && s.interval > 0 && s.interval * SECOND == IntervalInForce(sc)
               && (s.phase.Some? <==> Staggers(sc))
               && (Staggers(sc) && 0 <= ordinal < Fleet(sc.value) ==>
                     s.phase.value * SECOND == ordinal * sc.value.rotation.slotLength.value && s.phase.value < s.interval))
  {
    PlanIsUsable(sc);
    PlanFromResources(sc);
    RetentionMeans(sd);
    RetentionIsPositive(sd);
    if ResolveRetention(sd).0 > 0 {
      PodValueReadsAs(EvaluateRotation(sc), sd, ordinal);
      SplitWhole("", ' ');
    }
  }

  /** What a server without phases is given instead: the same without the phase, and
      nothing where there is no phase to leave out. */
  lemma FallbackHasNoPhase(sc: Option<Cluster>, sd: Option<Database>, ordinal: int)
    ensures
      var fallback := PlanPodPurge(EvaluateRotation(sc), sd, ordinal).fallback;
      && (fallback == "" <==> PurgingSwitchedOff(sd) || !Staggers(sc))
      && (fallback != "" ==>
            && ReadPurge(fallback).Some?
            && var s := ReadPurge(fallback).value;
               s.retention * SECOND == RetentionInForce(sd) && s.interval * SECOND == IntervalInForce(sc) && s.phase.None?)
  {
    PlanIsUsable(sc);
    PlanFromResources(sc);
    RetentionMeans(sd);
    RetentionIsPositive(sd);
    FallbackReads(EvaluateRotation(sc), sd, ordinal);
  }

  lemma FallbackReads(plan: Plan, sd: Option<Database>, ordinal: int)
    requires Usable(plan) && ResolveRetention(sd).0 % SECOND == 0
    ensures
      var fallback, retention := PlanPodPurge(plan, sd, ordinal).fallback, ResolveRetention(sd).0;
      && (fallback == "" <==> retention <= 0 || !plan.phasesActive)
      && (fallback != "" ==>
            && ReadPurge(fallback).Some?
            && var s := ReadPurge(fallback).value;
               s.retention * SECOND == retention && s.interval * SECOND == plan.interval && s.phase.None?)
  {
    PurgeReadsBack(ResolveRetention(sd).0, plan.interval, None);
  }

  lemma RetentionIsPositive(sd: Option<Database>)
    ensures var r := ResolveRetention(sd).0; r % SECOND == 0 && r >= 0 && (r == 0 <==> PurgingSwitchedOff(sd))
  {
  }

  /** Phases of one fleet are pairwise distinct ... */
  lemma PhasesAreDistinct(plan: Plan, i: int, j: int)
    requires Grid(plan.slotLength, plan.replicas) && 0 <= i < j < plan.replicas
    ensures PurgePhase(i, plan.replicas, plan.slotLength) < PurgePhase(j, plan.replicas, plan.slotLength)
  {
    MulMono(i + 1, j, plan.slotLength);
    Distribute(i, 1, plan.slotLength);
  }

  /** ... and scaling the fleet moves none of them: a server that reads the value
      written before and the value written after reads one phase. */
  lemma ScalingMovesNoPhase(sc: Cluster, replicas: int, sd: Option<Database>, ordinal: int)
    requires
      var a, b := EvaluateRotation(Some(sc)), EvaluateRotation(Some(sc.(replicas := replicas)));
      a.phasesActive && b.phasesActive && 0 <= ordinal < a.replicas && ordinal < b.replicas
    ensures
      var a, b := EvaluateRotation(Some(sc)), EvaluateRotation(Some(sc.(replicas := replicas)));
      var x, y := ReadPurge(PlanPodPurge(a, sd, ordinal).value), ReadPurge(PlanPodPurge(b, sd, ordinal).value);
      && x.Some? == y.Some? == !PurgingSwitchedOff(sd)
      && (x.Some? ==> x.value.phase.Some? && x.value.phase == y.value.phase)
  {
    PlanIsUsable(Some(sc));
    PlanIsUsable(Some(sc.(replicas := replicas)));
    SlotLengthIsDeclared(sc);
    SlotLengthIsDeclared(sc.(replicas := replicas));
    OnePhase(EvaluateRotation(Some(sc)), EvaluateRotation(Some(sc.(replicas := replicas))), sd, ordinal);
  }

  lemma SlotLengthIsDeclared(sc: Cluster)
    ensures var p := EvaluateRotation(Some(sc)); p.phasesActive ==> sc.rotation.slotLength == Some(p.slotLength)
  {
  }

  lemma OnePhase(a: Plan, b: Plan, sd: Option<Database>, ordinal: int)
    requires Usable(a) && Usable(b) && a.phasesActive && b.phasesActive && a.slotLength == b.slotLength
    requires 0 <= ordinal < a.replicas && ordinal < b.replicas
    ensures
      var x, y := ReadPurge(PlanPodPurge(a, sd, ordinal).value), ReadPurge(PlanPodPurge(b, sd, ordinal).value);
      && x.Some? == y.Some? == !PurgingSwitchedOff(sd)
      && (x.Some? ==> x.value.phase.Some? && x.value.phase == y.value.phase)
  {
    RetentionIsPositive(sd);
    if PurgingSwitchedOff(sd) {
      NothingIsHeld(a, sd, ordinal);
      NothingIsHeld(b, sd, ordinal);
    } else {
      var x := HeldSchedule(a, sd, ordinal);
      var y := HeldSchedule(b, sd, ordinal);
      PhaseIgnoresReplicas(x, y, ordinal, a.replicas, b.replicas, a.slotLength);
    }
  }

  lemma PhaseIgnoresReplicas(x: Schedule, y: Schedule, ordinal: int, n: int, n': int, t: int)
    requires x.phase.Some? && y.phase.Some? && 0 <= ordinal < n && ordinal < n'
    requires x.phase.value * SECOND == PurgePhase(ordinal, n, t) && y.phase.value * SECOND == PurgePhase(ordinal, n', t)
    ensures x.phase == y.phase
  {
  }

  lemma NothingIsHeld(plan: Plan, sd: Option<Database>, ordinal: int)
    requires ResolveRetention(sd).0 <= 0
    ensures ReadPurge(PlanPodPurge(plan, sd, ordinal).value).None?
  {
    SplitWhole("", ' ');
  }

  // ---- From the custom resource to the running server ------------------------

  /** A server on this schedule starts no purge, at the fire time it computes from
      any clock, that is still running at the instant. */
  predicate QuietAt(s: Schedule, duration: int, now: int, clock: int) {
    && s.phase.Some? && s.interval > 0
    && var fire := NextFire(s.phase.value, s.interval, clock) * SECOND;
       !(fire <= now < fire + duration)
  }

  /** What the server makes of the text it was given is such a schedule. */
  predicate ReadsQuietAt(value: string, duration: int, now: int, clock: int) {
    ReadPurge(value).Some? && QuietAt(ReadPurge(value).value, duration, now, clock)
  }

  /** The preferred writer of a plan in force is never purging, end to end: the
      displacement and lead are what the gate resolved from the cluster, the
      purge instants are what slapd computes from the very text written to that
      pod, and the writer is whatever writeTarget picks while the preferred pod
      is eligible. */
  lemma PreferredWriterNeverPurges(sc: Cluster, sd: Option<Database>, duration: int, now: int, clock: int,
                                   eligible: int -> bool, ord: int, ok: bool)
    requires
      var plan := EvaluateRotation(Some(sc));
      var n, t, v, d := plan.replicas, plan.slotLength, plan.slotsFromWriteToPurge, plan.leadTime;
      var slot := WriterSlot(now, d, t, n);
      && plan.phasesActive && plan.writerActive && n > 1 && !PurgingSwitchedOff(sd)
      && duration + d <= (n - v) * t
      && eligible((slot + v) % n)
      && Chosen(slot, n, v, eligible, ord, ok)
    ensures ok
    ensures ReadsQuietAt(PlanPodPurge(EvaluateRotation(Some(sc)), sd, ord).value, duration, now, clock)
  {
    PlanIsUsable(Some(sc));
    RetentionIsPositive(sd);
    PlannedWriterNeverPurges(EvaluateRotation(Some(sc)), sd, duration, now, clock, eligible, ord, ok);
  }

  lemma PlannedWriterNeverPurges(plan: Plan, sd: Option<Database>, duration: int, now: int, clock: int,
                                 eligible: int -> bool, ord: int, ok: bool)
    requires Usable(plan) && plan.phasesActive && plan.replicas > 1 && ResolveRetention(sd).0 > 0
    requires
      var n, t, v, d := plan.replicas, plan.slotLength, plan.slotsFromWriteToPurge, plan.leadTime;
      var slot := WriterSlot(now, d, t, n);
      && duration + d <= (n - v) * t
      && eligible((slot + v) % n)
      && Chosen(slot, n, v, eligible, ord, ok)
    ensures ok
    ensures ReadsQuietAt(PlanPodPurge(plan, sd, ord).value, duration, now, clock)
  {
    var n, t, v, d := plan.replicas, plan.slotLength, plan.slotsFromWriteToPurge, plan.leadTime;
    PreferredIsChosen(WriterSlot(now, d, t, n), n, v, eligible, ord, ok);
    PlannedPurgeIsElsewhere(plan, sd, duration, now, clock, ord);
  }

  lemma PlannedPurgeIsElsewhere(plan: Plan, sd: Option<Database>, duration: int, now: int, clock: int, ord: int)
    requires Usable(plan) && plan.phasesActive && plan.replicas > 1 && ResolveRetention(sd).0 > 0
    requires
      var n, t, v, d := plan.replicas, plan.slotLength, plan.slotsFromWriteToPurge, plan.leadTime;
      duration + d <= (n - v) * t && 0 <= ord < n && ord == (WriterSlot(now, d, t, n) + v) % n
    ensures ReadsQuietAt(PlanPodPurge(plan, sd, ord).value, duration, now, clock)
  {
    var s := HeldSchedule(plan, sd, ord);
    ScheduledPurgeIsElsewhere(s, plan, duration, now, clock, ord);
  }

  /** What the server of a staggered pod holds. */
  lemma HeldSchedule(plan: Plan, sd: Option<Database>, ord: int) returns (s: Schedule)
    requires Usable(plan) && plan.phasesActive && 0 <= ord < plan.replicas && ResolveRetention(sd).0 > 0
    ensures ReadPurge(PlanPodPurge(plan, sd, ord).value) == Some(s)
    ensures s.phase.Some? && s.phase.value * SECOND == PurgePhase(ord, plan.replicas, plan.slotLength)
    ensures s.interval > 0 && s.interval * SECOND == plan.replicas * plan.slotLength
  {
    PodValueReadsAs(plan, sd, ord);
    s := ReadPurge(PlanPodPurge(plan, sd, ord).value).value;
  }

  /** A server on schedule s of pod ord never purges while that pod
      is the one v slots ahead of the slot the endpoint steers by. */
  lemma ScheduledPurgeIsElsewhere(s: Schedule, plan: Plan, duration: int, now: int, clock: int, ord: int)
    requires Usable(plan) && plan.phasesActive && plan.replicas > 1
    requires s.phase.Some? && s.phase.value * SECOND == PurgePhase(ord, plan.replicas, plan.slotLength)
    requires s.interval > 0 && s.interval * SECOND == plan.replicas * plan.slotLength
    requires
      var n, t, v, d := plan.replicas, plan.slotLength, plan.slotsFromWriteToPurge, plan.leadTime;
      duration + d <= (n - v) * t && ord == (WriterSlot(now, d, t, n) + v) % n
    ensures QuietAt(s, duration, now, clock)
  {
    var m := FiresOnTheGrid(s.phase.value, s.interval, plan.replicas, plan.slotLength, ord, clock);
    PurgeIsElsewhere(plan.replicas, plan.slotLength, plan.slotsFromWriteToPurge, plan.leadTime, duration, now, m);
  }

  lemma FiresOnTheGrid(phase: int, interval: int, n: int, t: int, ord: int, clock: int) returns (m: int)
    requires Grid(t, n) && 0 <= ord < n && interval > 0
    requires phase * SECOND == PurgePhase(ord, n, t) && interval * SECOND == n * t
    ensures NextFire(phase, interval, clock) * SECOND == PurgeStart(ord, n, t, m)
  {
    m := FiresInOwnSlot(clock, t, n, ord);
    DivModUnique(n * t, SECOND, interval, 0);
    DivModUnique(PurgePhase(ord, n, t), SECOND, phase, 0);
  }

  lemma PreferredIsChosen(slot: int, n: int, v: int, eligible: int -> bool, ord: int, ok: bool)
    requires 1 <= v < n && 0 <= slot < n
    requires eligible((slot + v) % n) && Chosen(slot, n, v, eligible, ord, ok)
    ensures ok && ord == (slot + v) % n
  {
    DivModUnique(v, n, 0, v);
    DivModUnique(slot, n, 0, slot);
    WalkFollowsTheSign(slot, n, v, 0);
    var p := Candidate(slot, n, v, 0);
    assert Offered(slot, n, v, eligible, 0);
    assert 0 <= p < n && p != slot % n && eligible(p);
  }

  // ---- The gate's bound on the lead ------------------------------------------

  /** The gate refuses a lead only from (n - 1) slots up, whatever the
      displacement and the purge.  For a purge of any length, an accepted lead keeps
      the preferred writer off its own purges at all instants exactly when its whole
      slots are not n - v, and what is left of it plus the purge fits the slots
      between that pod's purge and its writes.  (Of three pods with a 10 s slot, a
      15 s lead is accepted.  With displacement 2 the endpoint then names the pod
      whose purge slot it will be in 5 s, LeadNamesThePurger; with displacement 1
      there are 5 s left for the purge.) */
  lemma AcceptedLeadIsSafeExactlyWhen(plan: Plan, duration: int)
    requires Usable(plan) && plan.phasesActive && plan.writerActive && plan.replicas > 1 && duration > 0
    ensures
      var n, t, v, d := plan.replicas, plan.slotLength, plan.slotsFromWriteToPurge, plan.leadTime;
      (forall now :: !Purging((WriterSlot(now, d, t, n) + v) % n, n, t, duration, now)) <==>
      d / t != n - v && duration + d % t <= (n - (v + d / t) % n) * t
  {
    var n, t, v, d := plan.replicas, plan.slotLength, plan.slotsFromWriteToPurge, plan.leadTime;
    ExclusionIsExact(n, t, v, d, duration);
    SlotsOfLead(n, t, v, d);
  }

  lemma SlotsOfLead(n: int, t: int, v: int, d: int)
    requires 1 <= v < n && t > 0 && (d == 0 || 0 < d < (n - 1) * t)
    ensures (v + d / t) % n != 0 <==> d / t != n - v
  {
    var f := d / t;
    assert d == f * t + d % t;
    assert 0 <= f < n - 1 by {
      if f >= n - 1 { MulMono(n - 1, f, t); MulMono(1, n - 1, t); }
    }
    DivModUnique(v + f, n, if v + f < n then 0 else 1, if v + f < n then v + f else v + f - n);
  }

  /** ... and such plans do come out of the gate, for every displacement from 2. */
  lemma UnsafeLeadIsAccepted(n: int, t: int, v: int, lead: int)
    requires Grid(t, n) && 2 <= v < n && (n - v) * t <= lead < (n - v + 1) * t
    ensures
      var sc := Cluster(n, None, RotationSpec(Some(true), Unset, Some(t), Some(v), Some(lead)));
      var p := EvaluateRotation(Some(sc));
      && p.phasesActive && p.writerActive && p.replicas == n
      && p.slotLength == t && p.leadTime == lead && p.slotsFromWriteToPurge == v && lead / t == n - v
  {
    MulMono(1, n - v, t);
    MulMono(n - v + 1, n - 1, t);
    Distribute(n - v, 1, t);
    DivModUnique(lead, t, n - v, lead - (n - v) * t);
    DivModUnique(v, n, 0, v);
  }

  /** The gate lets this lead through. */
  predicate GateAccepts(n: int, t: int, v: int, lead: int) {
    var sc := Cluster(n, None, RotationSpec(Some(true), Unset, Some(t), Some(v), Some(lead)));
    EvaluateRotation(Some(sc)).reason == RotationActive
  }

  /** The instant the documentation bounds the lead by: at every boundary, whatever
      purge the incoming writer started before the boundary, it started before the
      endpoint moved to it, one lead early. */
  ghost predicate HandsOverInTime(n: int, t: int, v: int, lead: int)
    requires n > 0
  {
    forall j, m :: IncomingStart(n, t, v, j, m) < j * t ==> IncomingStart(n, t, v, j, m) < j * t - lead
  }

  /** The m-th purge start of the pod that takes the writes from slot index j. */
  function IncomingStart(n: int, t: int, v: int, j: int, m: int): int
    requires n > 0
  {
    PurgeStart((j + v) % n, n, t, m)
  }

  lemma GateAcceptsMeans(n: int, t: int, v: int, lead: int)
    requires Grid(t, n) && 1 <= v < n
    ensures GateAccepts(n, t, v, lead) <==> lead == 0 || 0 < lead < (n - 1) * t
  {
    DivModUnique(v, n, 0, v);
  }

  lemma HandsOverMeans(n: int, t: int, v: int, lead: int)
    requires Grid(t, n) && 1 <= v < n
    ensures HandsOverInTime(n, t, v, lead) <==> lead < (n - v) * t
  {
    if lead < (n - v) * t {
      forall j, m | IncomingStart(n, t, v, j, m) < j * t ensures IncomingStart(n, t, v, j, m) < j * t - lead {
        LastStartIsEarlier(n, t, v, lead, j, m);
      }
    } else {
      var m := HandoverAfterPurgeStart(n, t, v, lead, 0);
      MulMono(1, n - v, t);
      var j := 0;
      assert IncomingStart(n, t, v, j, m) == j * t - (n - v) * t;
    }
  }

  lemma LastStartIsEarlier(n: int, t: int, v: int, lead: int, j: int, m: int)
    requires Grid(t, n) && 1 <= v < n && lead < (n - v) * t && IncomingStart(n, t, v, j, m) < j * t
    ensures IncomingStart(n, t, v, j, m) < j * t - lead
  {
    var last := HandoverAfterPurgeStart(n, t, v, lead, j);
    Distribute(m, last, n * t);
    Distribute(n, v, t);
    MulMono(0, v, t);
    MulMono(0, n, t);
    if m > last { MulMono(1, m - last, n * t); } else { MulMono(m - last, 0, n * t); }
  }

  /** Exactly when the gate's bound is the right one: it lets through the leads that
      hand over in time, and no others, if and only if the displacement is 1. */
  lemma GateBoundFitsExactlyDisplacementOne(n: int, t: int, v: int)
    requires Grid(t, n) && 1 <= v < n
    ensures (forall lead :: GateAccepts(n, t, v, lead) <==> lead >= 0 && HandsOverInTime(n, t, v, lead)) <==> v == 1
  {
    forall lead ensures GateAccepts(n, t, v, lead) <==> lead == 0 || 0 < lead < (n - 1) * t { GateAcceptsMeans(n, t, v, lead); }
    forall lead ensures HandsOverInTime(n, t, v, lead) <==> lead < (n - v) * t { HandsOverMeans(n, t, v, lead); }
    MulMono(1, n - v, t);
    if v > 1 {
      MulMono(n - v + 1, n - 1, t);
      Distribute(n - v, 1, t);
      var lead := (n - v) * t;
      assert GateAccepts(n, t, v, lead) && !HandsOverInTime(n, t, v, lead);
    }
  }
}
