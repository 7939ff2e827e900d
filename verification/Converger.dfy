/** The offline cn=config converger of startup_config.py: the decision (`plan`),
    what slapmodify makes of it, and where the two end up. */
module Converger {
  import opened Prelude
  import opened Text
  import opened Sorting
  import opened Ldif

  // ---- Reading a configuration dump ------------------------------------------

  const OBJECT_CLASS := "objectclass"
  const SUFFIX := "olcsuffix"
  const OVERLAY := "olcoverlay"

  /** A row of the declared table: the attribute, and the attributes that may not
      stand beside it, all by lower-case name.  Its carrier is the syncprov
      overlay of a database, and its value names a configured database. */
  datatype Managed = Managed(key: string, exclusive: seq<string>)

  /** The only row there is: olcSpSessionlogSource displaces olcSpSessionlog. */
  const SESSIONLOG_SOURCE := Managed("olcspsessionlogsource", ["olcspsessionlog"])

  datatype Record = Record(attribute: string, suffix: string, value: string)

  /** Set the managed attribute on `dn`, or delete it when there is no value, and
      delete the others in the same step. */
  datatype Mod = Mod(dn: string, value: Option<string>, deleteAlso: seq<string>)

  function Values(e: Entry, name: string): seq<string> {
    if name in e.attrs then e.attrs[name] else []
  }

  predicate Has(e: Entry, name: string) {
    Values(e, name) != []
  }

  function First(e: Entry, name: string): string
    requires Has(e, name)
  {
    Values(e, name)[0]
  }

  function StripIndex(value: string): string {
    if StartsWith(value, '{') && '}' in value then Cut(value, '}').1 else value
  }

  function TrimParts(parts: seq<string>): seq<string> {
    seq(|parts|, i requires 0 <= i < |parts| => Trim(parts[i]))
  }

  function NormalizeDn(dn: string): string {
    Lower(Join(TrimParts(Split(dn, ',')), ','))
  }

  predicate HasClass(e: Entry, cls: string) {
    exists i :: 0 <= i < |Values(e, OBJECT_CLASS)| && Lower(Values(e, OBJECT_CLASS)[i]) == Lower(cls)
  }

  predicate IsDatabase(e: Entry) {
    HasClass(e, "olcMdbConfig") && Has(e, SUFFIX)
  }

  function SuffixOf(e: Entry): string
    requires IsDatabase(e)
  {
    NormalizeDn(First(e, SUFFIX))
  }

  predicate IsSyncprov(e: Entry) {
    Has(e, OVERLAY) && StripIndex(First(e, OVERLAY)) == "syncprov"
  }

  /** A child of the entry named dn: one RDN, a comma, and that name. */
  predicate IsChildDn(child: string, dn: string) {
    && |dn| < |child|
    && child[|child| - |dn| - 1..] == "," + dn
    && ',' !in child[..|child| - |dn| - 1]
  }

  predicate IsCarrier(e: Entry, db: Entry) {
    IsChildDn(e.dn, db.dn) && IsSyncprov(e)
  }

  /** The syncprov overlays of a database, in dump order. */
  function CarriersOf(db: Entry, entries: seq<Entry>): (r: seq<Entry>)
    ensures forall e :: e in r <==> e in entries && IsCarrier(e, db)
  {
    if entries == [] then []
    else (if IsCarrier(entries[0], db) then [entries[0]] else []) + CarriersOf(db, entries[1..])
  }

  /** The databases of one normalized suffix, in dump order. */
  function DatabasesFor(entries: seq<Entry>, suffix: string): (r: seq<Entry>)
    ensures forall e :: e in r <==> e in entries && IsDatabase(e) && SuffixOf(e) == suffix
  {
    if entries == [] then []
    else
      (if IsDatabase(entries[0]) && SuffixOf(entries[0]) == suffix then [entries[0]] else [])
      + DatabasesFor(entries[1..], suffix)
  }

  predicate Configured(entries: seq<Entry>, suffix: string) {
    DatabasesFor(entries, suffix) != []
  }

  // ---- Reading the table -----------------------------------------------------

  /** The records that name the managed attribute for one normalized suffix. */
  function RecordsFor(m: Managed, records: seq<Record>, suffix: string): (r: seq<Record>)
    ensures forall rec :: rec in r ==> rec in records
  {
    if records == [] then []
    else
      (if Lower(records[0].attribute) == m.key && NormalizeDn(records[0].suffix) == suffix then [records[0]] else [])
      + RecordsFor(m, records[1..], suffix)
  }

  predicate Named(m: Managed, records: seq<Record>, suffix: string) {
    RecordsFor(m, records, suffix) != []
  }

  // ---- The decision ----------------------------------------------------------

  function Present(e: Entry, names: seq<string>): (r: seq<string>)
    ensures forall n :: n in r <==> n in names && Has(e, n)
  {
    if names == [] then []
    else (if Has(e, names[0]) then [names[0]] else []) + Present(e, names[1..])
  }

  /** One deletion per carrier that holds the attribute. */
  function DeletionsUnder(m: Managed, carriers: seq<Entry>): seq<Mod> {
    if carriers == [] then []
    else
      (if Has(carriers[0], m.key) then [Mod(carriers[0].dn, None, [])] else [])
      + DeletionsUnder(m, carriers[1..])
  }

  function DeletionsFor(m: Managed, entries: seq<Entry>, dbs: seq<Entry>): seq<Mod> {
    if dbs == [] then []
    else DeletionsUnder(m, CarriersOf(dbs[0], entries)) + DeletionsFor(m, entries, dbs[1..])
  }

  /** What one normalized suffix asks for when no record names it. */
  function DeletionStep(m: Managed, entries: seq<Entry>, records: seq<Record>, suffix: string): seq<Mod> {
    if Named(m, records, suffix) then []
    else DeletionsFor(m, entries, DatabasesFor(entries, suffix))
  }

  predicate AlreadyRight(m: Managed, carrier: Entry, value: string) {
    && Has(carrier, m.key)
    && NormalizeDn(First(carrier, m.key)) == NormalizeDn(value)
    && Present(carrier, m.exclusive) == []
  }

  /** The record of a suffix that may be acted on, and the entry it lands on: the
      record is the only one, the database is, its overlay is, and the value
      resolves.  Anything else is a refusal. */
  predicate Resolves(m: Managed, entries: seq<Entry>, records: seq<Record>, suffix: string) {
    var recs, dbs := RecordsFor(m, records, suffix), DatabasesFor(entries, suffix);
    && |recs| == 1 && |dbs| == 1 && |CarriersOf(dbs[0], entries)| == 1
    && Configured(entries, NormalizeDn(recs[0].value))
  }

  function SetStep(m: Managed, entries: seq<Entry>, records: seq<Record>, suffix: string): seq<Mod> {
    if !Resolves(m, entries, records, suffix) then []
    else
      var value := RecordsFor(m, records, suffix)[0].value;
      var carrier := CarriersOf(DatabasesFor(entries, suffix)[0], entries)[0];
      if AlreadyRight(m, carrier, value) then []
      else [Mod(carrier.dn, Some(value), Present(carrier, m.exclusive))]
  }

  /** The distinct suffixes of the configured databases, then those the records
      name; the plan takes each list in sorted order. */
  function SuffixList(entries: seq<Entry>): (r: seq<string>)
    ensures forall x :: x in r <==> Configured(entries, x)
    ensures Distinct(r)
  {
    if entries == [] then []
    else
      var rest := SuffixList(entries[1..]);
      assert entries == [entries[0]] + entries[1..];
      if IsDatabase(entries[0]) && SuffixOf(entries[0]) !in rest then [SuffixOf(entries[0])] + rest else rest
  }

  function NamedList(m: Managed, records: seq<Record>): (r: seq<string>)
    ensures forall x :: x in r <==> Named(m, records, x)
    ensures Distinct(r)
  {
    if records == [] then []
    else
      var rest := NamedList(m, records[1..]);
      var x := NormalizeDn(records[0].suffix);
      if Lower(records[0].attribute) == m.key && x !in rest then [x] + rest else rest
  }

  function Deletions(m: Managed, entries: seq<Entry>, records: seq<Record>, suffixes: seq<string>): seq<Mod> {
    if suffixes == [] then []
    else DeletionStep(m, entries, records, suffixes[0]) + Deletions(m, entries, records, suffixes[1..])
  }

  function Sets(m: Managed, entries: seq<Entry>, records: seq<Record>, suffixes: seq<string>): seq<Mod> {
    if suffixes == [] then []
    else SetStep(m, entries, records, suffixes[0]) + Sets(m, entries, records, suffixes[1..])
  }

  function PlanOf(m: Managed, entries: seq<Entry>, records: seq<Record>): seq<Mod> {
    Deletions(m, entries, records, Sort(SuffixList(entries))) + Sets(m, entries, records, Sort(NamedList(m, records)))
  }

  // ---- What slapmodify does with it ------------------------------------------

  /** One modify record on one entry. */
  function Touch(m: Managed, e: Entry, mod: Mod): Entry {
    var set1 := if mod.value.Some? then e.attrs[m.key := [mod.value.value]] else e.attrs - {m.key};
    Entry(e.dn, set1 - (set n | n in mod.deleteAlso))
  }

  /** slapmodify fails outright on the delete of an attribute that is not set. */
  predicate Accepts(m: Managed, e: Entry, mod: Mod) {
    (mod.value.None? ==> Has(e, m.key)) && forall n :: n in mod.deleteAlso ==> Has(e, n)
  }

  function ApplyOne(m: Managed, entries: seq<Entry>, mod: Mod): seq<Entry> {
    seq(|entries|, i requires 0 <= i < |entries| => if entries[i].dn == mod.dn then Touch(m, entries[i], mod) else entries[i])
  }

  predicate Finds(m: Managed, entries: seq<Entry>, mod: Mod) {
    exists i :: 0 <= i < |entries| && entries[i].dn == mod.dn && Accepts(m, entries[i], mod)
  }

  /** The whole run, or None at the first record that is refused. */
  function ApplyAll(m: Managed, entries: seq<Entry>, mods: seq<Mod>): Option<seq<Entry>>
    decreases |mods|
  {
    if mods == [] then Some(entries)
    else if Finds(m, entries, mods[0]) then
      ApplyAll(m, ApplyOne(m, entries, mods[0]), mods[1..])
    else None
  }

  // ---- Every carrier has one home --------------------------------------------

  predicate DistinctDns(entries: seq<Entry>) {
    forall i, j :: 0 <= i < j < |entries| ==> entries[i].dn != entries[j].dn
  }

  predicate NoRepeat(mods: seq<Mod>) {
    forall i, j :: 0 <= i < j < |mods| ==> mods[i].dn != mods[j].dn
  }

  /** An entry is a child of one name only: what follows its first comma. */
  lemma ParentIsUnique(child: string, a: string, b: string)
    requires IsChildDn(child, a) && IsChildDn(child, b)
    ensures a == b
  {
    var i, j := |child| - |a| - 1, |child| - |b| - 1;
    assert child[i] == child[i..][0] == ',' && child[j] == child[j..][0] == ',';
    assert forall k :: 0 <= k < i ==> child[..i][k] == child[k] && child[k] != ',';
    assert forall k :: 0 <= k < j ==> child[..j][k] == child[k] && child[k] != ',';
    assert child[i..][1..] == a && child[j..][1..] == b;
  }

  /** dn is that of a carrier of a database with this suffix. */
  ghost predicate AtHome(entries: seq<Entry>, dn: string, suffix: string) {
    exists c, db :: CarrierIn(entries, c, db, suffix) && c.dn == dn
  }

  predicate CarrierIn(entries: seq<Entry>, c: Entry, db: Entry, suffix: string) {
    c in entries && db in entries && IsDatabase(db) && SuffixOf(db) == suffix && IsCarrier(c, db)
  }

  lemma SameDnSameEntry(entries: seq<Entry>, a: Entry, b: Entry)
    requires DistinctDns(entries) && a in entries && b in entries && a.dn == b.dn
    ensures a == b
  {
    var i :| 0 <= i < |entries| && entries[i] == a;
    var j :| 0 <= j < |entries| && entries[j] == b;
  }

  lemma HomeIsUnique(entries: seq<Entry>, dn: string, x: string, y: string)
    requires DistinctDns(entries) && AtHome(entries, dn, x) && AtHome(entries, dn, y)
    ensures x == y
  {
    var c, db :| CarrierIn(entries, c, db, x) && c.dn == dn;
    var c', db' :| CarrierIn(entries, c', db', y) && c'.dn == dn;
    ParentIsUnique(dn, db.dn, db'.dn);
    SameDnSameEntry(entries, db, db');
  }

  // ---- What the steps hold ---------------------------------------------------

  lemma {:induction false} CarriersDistinct(db: Entry, entries: seq<Entry>)
    requires DistinctDns(entries)
    ensures DistinctDns(CarriersOf(db, entries))
  {
    if entries != [] {
      CarriersDistinct(db, entries[1..]);
      var rest := CarriersOf(db, entries[1..]);
      forall i | 0 <= i < |rest| ensures rest[i].dn != entries[0].dn {
        assert rest[i] in entries[1..];
      }
    }
  }

  lemma {:induction false} DatabasesDistinct(entries: seq<Entry>, suffix: string)
    requires DistinctDns(entries)
    ensures DistinctDns(DatabasesFor(entries, suffix))
  {
    if entries != [] {
      DatabasesDistinct(entries[1..], suffix);
      var rest := DatabasesFor(entries[1..], suffix);
      forall i | 0 <= i < |rest| ensures rest[i].dn != entries[0].dn {
        assert rest[i] in entries[1..];
      }
    }
  }

  // Deletions: each comes from a carrier that holds the attribute, each such
  // carrier has its deletion, and none is deleted twice.

  lemma {:induction false} DeletionUnderFrom(m: Managed, carriers: seq<Entry>, mod: Mod) returns (c: Entry)
    requires mod in DeletionsUnder(m, carriers)
    ensures c in carriers && Has(c, m.key) && mod == Mod(c.dn, None, [])
  {
    if Has(carriers[0], m.key) && mod == Mod(carriers[0].dn, None, []) {
      c := carriers[0];
    } else {
      c := DeletionUnderFrom(m, carriers[1..], mod);
    }
  }

  lemma {:induction false} DeletedUnder(m: Managed, carriers: seq<Entry>, c: Entry)
    requires c in carriers && Has(c, m.key)
    ensures Mod(c.dn, None, []) in DeletionsUnder(m, carriers)
  {
    if c != carriers[0] {
      assert carriers == [carriers[0]] + carriers[1..];
      DeletedUnder(m, carriers[1..], c);
    }
  }

  lemma {:induction false} DeletionsUnderNoRepeat(m: Managed, carriers: seq<Entry>)
    requires DistinctDns(carriers)
    ensures NoRepeat(DeletionsUnder(m, carriers))
  {
    if carriers != [] {
      DeletionsUnderNoRepeat(m, carriers[1..]);
      var rest := DeletionsUnder(m, carriers[1..]);
      forall i | 0 <= i < |rest| ensures rest[i].dn != carriers[0].dn {
        var c := DeletionUnderFrom(m, carriers[1..], rest[i]);
      }
    }
  }

  lemma {:induction false} DeletionFrom(m: Managed, entries: seq<Entry>, dbs: seq<Entry>, mod: Mod) returns (c: Entry, db: Entry)
    requires mod in DeletionsFor(m, entries, dbs)
    ensures db in dbs && c in entries && IsCarrier(c, db) && Has(c, m.key) && mod == Mod(c.dn, None, [])
  {
    if mod in DeletionsUnder(m, CarriersOf(dbs[0], entries)) {
      db := dbs[0];
      c := DeletionUnderFrom(m, CarriersOf(db, entries), mod);
    } else {
      c, db := DeletionFrom(m, entries, dbs[1..], mod);
    }
  }

  lemma {:induction false} Deleted(m: Managed, entries: seq<Entry>, dbs: seq<Entry>, c: Entry, db: Entry)
    requires db in dbs && c in entries && IsCarrier(c, db) && Has(c, m.key)
    ensures Mod(c.dn, None, []) in DeletionsFor(m, entries, dbs)
  {
    if db == dbs[0] {
      DeletedUnder(m, CarriersOf(db, entries), c);
    } else {
      assert dbs == [dbs[0]] + dbs[1..];
      Deleted(m, entries, dbs[1..], c, db);
    }
  }

  lemma NoRepeatConcat(a: seq<Mod>, b: seq<Mod>)
    requires NoRepeat(a) && NoRepeat(b) && forall x, y :: x in a && y in b ==> x.dn != y.dn
    ensures NoRepeat(a + b)
  {
    forall i, j | 0 <= i < j < |a + b| ensures (a + b)[i].dn != (a + b)[j].dn {
      if i < |a| <= j { assert a[i] in a && b[j - |a|] in b; }
    }
  }

  lemma {:induction false} DeletionsForNoRepeat(m: Managed, entries: seq<Entry>, dbs: seq<Entry>)
    requires DistinctDns(entries) && DistinctDns(dbs)
    ensures NoRepeat(DeletionsFor(m, entries, dbs))
  {
    if dbs != [] {
      DeletionsForNoRepeat(m, entries, dbs[1..]);
      var carriers := CarriersOf(dbs[0], entries);
      CarriersDistinct(dbs[0], entries);
      DeletionsUnderNoRepeat(m, carriers);
      var front, back := DeletionsUnder(m, carriers), DeletionsFor(m, entries, dbs[1..]);
      forall x, y | x in front && y in back ensures x.dn != y.dn {
        var c := DeletionUnderFrom(m, carriers, x);
        var c', db := DeletionFrom(m, entries, dbs[1..], y);
        if c.dn == c'.dn { ParentIsUnique(c.dn, dbs[0].dn, db.dn); }
      }
      NoRepeatConcat(front, back);
    }
  }

  // Steps: whatever a step asks for lies at home under its suffix.

  lemma DeletionStepAtHome(m: Managed, entries: seq<Entry>, records: seq<Record>, suffix: string, mod: Mod) returns (c: Entry, db: Entry)
    requires mod in DeletionStep(m, entries, records, suffix)
    ensures !Named(m, records, suffix) && CarrierIn(entries, c, db, suffix) && Has(c, m.key) && mod == Mod(c.dn, None, [])
    ensures AtHome(entries, mod.dn, suffix)
  {
    c, db := DeletionFrom(m, entries, DatabasesFor(entries, suffix), mod);
    assert CarrierIn(entries, c, db, suffix);
  }

  lemma SetStepAtHome(m: Managed, entries: seq<Entry>, records: seq<Record>, suffix: string, mod: Mod) returns (c: Entry, db: Entry)
    requires mod in SetStep(m, entries, records, suffix)
    ensures Resolves(m, entries, records, suffix) && Named(m, records, suffix)
    ensures CarrierIn(entries, c, db, suffix) && mod.dn == c.dn
    ensures mod == Mod(c.dn, Some(RecordsFor(m, records, suffix)[0].value), Present(c, m.exclusive))
    ensures AtHome(entries, mod.dn, suffix)
  {
    db := DatabasesFor(entries, suffix)[0];
    assert db in DatabasesFor(entries, suffix);
    c := CarriersOf(db, entries)[0];
    assert c in CarriersOf(db, entries);
    assert CarrierIn(entries, c, db, suffix);
  }

  lemma {:induction false} DeletionsAreSteps(m: Managed, entries: seq<Entry>, records: seq<Record>, suffixes: seq<string>, mod: Mod) returns (x: string)
    requires mod in Deletions(m, entries, records, suffixes)
    ensures x in suffixes && mod in DeletionStep(m, entries, records, x)
  {
    if mod in DeletionStep(m, entries, records, suffixes[0]) {
      x := suffixes[0];
    } else {
      x := DeletionsAreSteps(m, entries, records, suffixes[1..], mod);
    }
  }

  lemma {:induction false} SetsAreSteps(m: Managed, entries: seq<Entry>, records: seq<Record>, suffixes: seq<string>, mod: Mod) returns (x: string)
    requires mod in Sets(m, entries, records, suffixes)
    ensures x in suffixes && mod in SetStep(m, entries, records, x)
  {
    if mod in SetStep(m, entries, records, suffixes[0]) {
      x := suffixes[0];
    } else {
      x := SetsAreSteps(m, entries, records, suffixes[1..], mod);
    }
  }

  lemma {:induction false} StepsAreIn(m: Managed, entries: seq<Entry>, records: seq<Record>, suffixes: seq<string>, x: string, mod: Mod)
    requires x in suffixes
    ensures mod in DeletionStep(m, entries, records, x) ==> mod in Deletions(m, entries, records, suffixes)
    ensures mod in SetStep(m, entries, records, x) ==> mod in Sets(m, entries, records, suffixes)
  {
    if x != suffixes[0] {
      assert suffixes == [suffixes[0]] + suffixes[1..];
      StepsAreIn(m, entries, records, suffixes[1..], x, mod);
    }
  }

  lemma {:induction false} DeletionsNoRepeat(m: Managed, entries: seq<Entry>, records: seq<Record>, suffixes: seq<string>)
    requires DistinctDns(entries) && Distinct(suffixes)
    ensures NoRepeat(Deletions(m, entries, records, suffixes))
  {
    if suffixes != [] {
      var s0, rest := suffixes[0], suffixes[1..];
      DeletionsNoRepeat(m, entries, records, rest);
      DatabasesDistinct(entries, s0);
      DeletionsForNoRepeat(m, entries, DatabasesFor(entries, s0));
      var front, back := DeletionStep(m, entries, records, s0), Deletions(m, entries, records, rest);
      forall x, y | x in front && y in back ensures x.dn != y.dn {
        var c, db := DeletionStepAtHome(m, entries, records, s0, x);
        var s1 := DeletionsAreSteps(m, entries, records, rest, y);
        var c', db' := DeletionStepAtHome(m, entries, records, s1, y);
        if x.dn == y.dn { HomeIsUnique(entries, x.dn, s0, s1); }
      }
      NoRepeatConcat(front, back);
    }
  }

  lemma {:induction false} SetsNoRepeat(m: Managed, entries: seq<Entry>, records: seq<Record>, suffixes: seq<string>)
    requires DistinctDns(entries) && Distinct(suffixes)
    ensures NoRepeat(Sets(m, entries, records, suffixes))
  {
    if suffixes != [] {
      var s0, rest := suffixes[0], suffixes[1..];
      SetsNoRepeat(m, entries, records, rest);
      var front, back := SetStep(m, entries, records, s0), Sets(m, entries, records, rest);
      forall x, y | x in front && y in back ensures x.dn != y.dn {
        var c, db := SetStepAtHome(m, entries, records, s0, x);
        var s1 := SetsAreSteps(m, entries, records, rest, y);
        var c', db' := SetStepAtHome(m, entries, records, s1, y);
        if x.dn == y.dn { HomeIsUnique(entries, x.dn, s0, s1); }
      }
      NoRepeatConcat(front, back);
    }
  }

  // ---- The plan as a whole ---------------------------------------------------

  lemma SortedListIsDistinct(s: seq<string>)
    requires Distinct(s)
    ensures Distinct(Sort(s)) && forall x :: x in Sort(s) <==> x in s
  {
    SortPermutes(s);
    DistinctByMultiset(s, Sort(s));
    SameElements(s, Sort(s));
  }

  /** A modification belongs to the plan exactly when the step of some configured
      suffix asks for it. */
  lemma PlannedFrom(m: Managed, entries: seq<Entry>, records: seq<Record>, mod: Mod) returns (x: string)
    requires mod in PlanOf(m, entries, records)
    ensures mod in DeletionStep(m, entries, records, x) || mod in SetStep(m, entries, records, x)
  {
    if mod in Deletions(m, entries, records, Sort(SuffixList(entries))) {
      x := DeletionsAreSteps(m, entries, records, Sort(SuffixList(entries)), mod);
    } else {
      x := SetsAreSteps(m, entries, records, Sort(NamedList(m, records)), mod);
    }
  }

  lemma Planned(m: Managed, entries: seq<Entry>, records: seq<Record>, x: string, mod: Mod)
    requires mod in DeletionStep(m, entries, records, x) || mod in SetStep(m, entries, records, x)
    ensures mod in PlanOf(m, entries, records)
  {
    SortedListIsDistinct(SuffixList(entries));
    SortedListIsDistinct(NamedList(m, records));
    if mod in DeletionStep(m, entries, records, x) {
      var c, db := DeletionStepAtHome(m, entries, records, x, mod);
      assert db in DatabasesFor(entries, x);
      StepsAreIn(m, entries, records, Sort(SuffixList(entries)), x, mod);
    } else {
      var c, db := SetStepAtHome(m, entries, records, x, mod);
      StepsAreIn(m, entries, records, Sort(NamedList(m, records)), x, mod);
    }
  }

  /** No entry is modified twice. */
  lemma PlanNoRepeat(m: Managed, entries: seq<Entry>, records: seq<Record>)
    requires DistinctDns(entries)
    ensures NoRepeat(PlanOf(m, entries, records))
  {
    var ds, ns := Sort(SuffixList(entries)), Sort(NamedList(m, records));
    SortedListIsDistinct(SuffixList(entries));
    SortedListIsDistinct(NamedList(m, records));
    DeletionsNoRepeat(m, entries, records, ds);
    SetsNoRepeat(m, entries, records, ns);
    var front, back := Deletions(m, entries, records, ds), Sets(m, entries, records, ns);
    forall x, y | x in front && y in back ensures x.dn != y.dn {
      var s0 := DeletionsAreSteps(m, entries, records, ds, x);
      var s1 := SetsAreSteps(m, entries, records, ns, y);
      var c, db := DeletionStepAtHome(m, entries, records, s0, x);
      var c', db' := SetStepAtHome(m, entries, records, s1, y);
      if x.dn == y.dn { HomeIsUnique(entries, x.dn, s0, s1); }
    }
    NoRepeatConcat(front, back);
  }

  // ---- Applying it -----------------------------------------------------------

  /** The entry after the run: touched by its own modification, if it has one. */
  ghost function Final(m: Managed, mods: seq<Mod>, e: Entry): Entry {
    if exists mod :: mod in mods && mod.dn == e.dn then
      var mod :| mod in mods && mod.dn == e.dn;
      Touch(m, e, mod)
    else e
  }

  lemma FinalIs(m: Managed, mods: seq<Mod>, e: Entry, mod: Mod)
    requires NoRepeat(mods) && mod in mods && mod.dn == e.dn
    ensures Final(m, mods, e) == Touch(m, e, mod)
  {
    forall mod' | mod' in mods && mod'.dn == e.dn ensures mod' == mod {
      var i :| 0 <= i < |mods| && mods[i] == mod;
      var j :| 0 <= j < |mods| && mods[j] == mod';
    }
  }

  ghost function FinalAll(m: Managed, mods: seq<Mod>, entries: seq<Entry>): (r: seq<Entry>)
    ensures |r| == |entries|
    ensures forall i :: 0 <= i < |r| ==> r[i] == Final(m, mods, entries[i])
  {
    seq(|entries|, i requires 0 <= i < |entries| => Final(m, mods, entries[i]))
  }

  /** Every modification finds its entry, and the entry accepts it. */
  ghost predicate Applicable(m: Managed, entries: seq<Entry>, mods: seq<Mod>) {
    forall mod :: mod in mods ==> Finds(m, entries, mod)
  }

  lemma {:induction false} ApplyAllIsFinal(m: Managed, entries: seq<Entry>, mods: seq<Mod>)
    requires NoRepeat(mods) && Applicable(m, entries, mods)
    ensures ApplyAll(m, entries, mods) == Some(FinalAll(m, mods, entries))
    decreases |mods|
  {
    if mods == [] {
      assert FinalAll(m, mods, entries) == entries;
    } else {
      assert mods[0] in mods;
      StillApplicable(m, entries, mods);
      ApplyAllIsFinal(m, ApplyOne(m, entries, mods[0]), mods[1..]);
      FinalAllStep(m, entries, mods);
    }
  }

  lemma StillApplicable(m: Managed, entries: seq<Entry>, mods: seq<Mod>)
    requires mods != [] && NoRepeat(mods) && Applicable(m, entries, mods)
    ensures NoRepeat(mods[1..]) && Applicable(m, ApplyOne(m, entries, mods[0]), mods[1..])
  {
    var next := ApplyOne(m, entries, mods[0]);
    forall mod | mod in mods[1..] ensures Finds(m, next, mod) {
      var j :| 0 <= j < |mods[1..]| && mods[1..][j] == mod;
      assert mods[j + 1] == mod && mod in mods;
      var i :| 0 <= i < |entries| && entries[i].dn == mod.dn && Accepts(m, entries[i], mod);
      assert next[i] == entries[i];
    }
  }

  lemma FinalAllStep(m: Managed, entries: seq<Entry>, mods: seq<Mod>)
    requires mods != [] && NoRepeat(mods)
    ensures FinalAll(m, mods[1..], ApplyOne(m, entries, mods[0])) == FinalAll(m, mods, entries)
  {
    forall i | 0 <= i < |entries|
      ensures Final(m, mods[1..], ApplyOne(m, entries, mods[0])[i]) == Final(m, mods, entries[i])
    {
      FinalStep(m, mods, entries[i]);
    }
  }

  lemma FinalStep(m: Managed, mods: seq<Mod>, e: Entry)
    requires mods != [] && NoRepeat(mods)
    ensures Final(m, mods, e) == Final(m, mods[1..], if e.dn == mods[0].dn then Touch(m, e, mods[0]) else e)
  {
    var mod, rest := mods[0], mods[1..];
    assert mods == [mod] + rest;
    if e.dn == mod.dn {
      FinalIs(m, mods, e, mod);
      forall mod' | mod' in rest ensures mod'.dn != e.dn {
        var j :| 0 <= j < |rest| && rest[j] == mod';
        assert mods[j + 1] == mod';
      }
    } else if mod' :| mod' in rest && mod'.dn == e.dn {
      assert NoRepeat(rest);
      FinalIs(m, mods, e, mod');
      FinalIs(m, rest, e, mod');
    } else {
      assert forall mod' :: mod' in mods ==> mod'.dn != e.dn;
    }
  }

  /** A managed row touches nothing the decision reads to find its way. */
  predicate Separate(m: Managed) {
    && m.key != OBJECT_CLASS && m.key != SUFFIX && m.key != OVERLAY
    && forall n :: n in m.exclusive ==> n != OBJECT_CLASS && n != SUFFIX && n != OVERLAY && n != m.key
  }

  lemma SessionlogSourceIsSeparate()
    ensures Separate(SESSIONLOG_SOURCE)
  {
  }

  /** The row is keyed by the attributes' names, folded. */
  lemma SessionlogSourceIsFolded()
    ensures SESSIONLOG_SOURCE.key == Lower("olcSpSessionlogSource") && SESSIONLOG_SOURCE.exclusive == [Lower("olcSpSessionlog")]
  {
    assert Lower("olcSpSessionlog") == "olcspsessionlog";
    assert Lower("olcSpSessionlogSource") == "olcspsessionlogsource";
  }

  predicate SameShape(a: Entry, b: Entry) {
    && a.dn == b.dn && Values(a, OBJECT_CLASS) == Values(b, OBJECT_CLASS)
    && Values(a, SUFFIX) == Values(b, SUFFIX) && Values(a, OVERLAY) == Values(b, OVERLAY)
  }

  /** Entries agree outside the managed attribute and its exclusives. */
  ghost predicate AgreeElsewhere(m: Managed, a: Entry, b: Entry) {
    a.dn == b.dn && forall n :: n != m.key && n !in m.exclusive ==> Values(a, n) == Values(b, n)
  }

  lemma TouchKeepsTheRest(m: Managed, e: Entry, mod: Mod)
    requires forall n :: n in mod.deleteAlso ==> n in m.exclusive
    ensures AgreeElsewhere(m, e, Touch(m, e, mod))
  {
  }

  /** Only the managed attribute and its exclusives change. */
  lemma FinalKeepsTheRest(m: Managed, entries: seq<Entry>, records: seq<Record>, e: Entry)
    requires DistinctDns(entries)
    ensures AgreeElsewhere(m, e, Final(m, PlanOf(m, entries, records), e))
  {
    var mods := PlanOf(m, entries, records);
    if exists mod :: mod in mods && mod.dn == e.dn {
      var mod :| mod in mods && mod.dn == e.dn;
      PlanNoRepeat(m, entries, records);
      FinalIs(m, mods, e, mod);
      var x := PlannedFrom(m, entries, records, mod);
      DeletesOnlyExclusives(m, entries, records, x, mod);
      TouchKeepsTheRest(m, e, mod);
    }
  }

  lemma AgreeingShapes(m: Managed, a: Entry, b: Entry)
    requires Separate(m) && AgreeElsewhere(m, a, b)
    ensures SameShape(a, b)
  {
  }

  lemma DeletesOnlyExclusives(m: Managed, entries: seq<Entry>, records: seq<Record>, x: string, mod: Mod)
    requires mod in DeletionStep(m, entries, records, x) || mod in SetStep(m, entries, records, x)
    ensures forall n :: n in mod.deleteAlso ==> n in m.exclusive
  {
    if mod in DeletionStep(m, entries, records, x) {
      var c, db := DeletionStepAtHome(m, entries, records, x, mod);
    } else {
      var c, db := SetStepAtHome(m, entries, records, x, mod);
    }
  }

  /** Every planned modification finds its entry with everything it deletes. */
  lemma PlanIsApplicable(m: Managed, entries: seq<Entry>, records: seq<Record>)
    ensures Applicable(m, entries, PlanOf(m, entries, records))
  {
    forall mod | mod in PlanOf(m, entries, records) ensures Finds(m, entries, mod) {
      var x := PlannedFrom(m, entries, records, mod);
      var c, db;
      if mod in DeletionStep(m, entries, records, x) {
        c, db := DeletionStepAtHome(m, entries, records, x, mod);
      } else {
        c, db := SetStepAtHome(m, entries, records, x, mod);
      }
      var i :| 0 <= i < |entries| && entries[i] == c;
      assert Accepts(m, entries[i], mod);
    }
  }

  // ---- What becomes of each carrier ------------------------------------------

  lemma CarrierMods(m: Managed, entries: seq<Entry>, records: seq<Record>, x: string, c: Entry, db: Entry, mod: Mod)
    requires DistinctDns(entries) && CarrierIn(entries, c, db, x) && mod in PlanOf(m, entries, records) && mod.dn == c.dn
    ensures mod in DeletionStep(m, entries, records, x) || mod in SetStep(m, entries, records, x)
  {
    var y := PlannedFrom(m, entries, records, mod);
    if mod in DeletionStep(m, entries, records, y) {
      var c', db' := DeletionStepAtHome(m, entries, records, y, mod);
    } else {
      var c', db' := SetStepAtHome(m, entries, records, y, mod);
    }
    assert AtHome(entries, c.dn, x);
    HomeIsUnique(entries, c.dn, x, y);
  }

  /** Unnamed: the attribute is gone. */
  lemma UnnamedCarrierEnds(m: Managed, entries: seq<Entry>, records: seq<Record>, x: string, c: Entry, db: Entry)
    requires DistinctDns(entries) && CarrierIn(entries, c, db, x) && !Named(m, records, x)
    ensures !Has(Final(m, PlanOf(m, entries, records), c), m.key)
  {
    var mods := PlanOf(m, entries, records);
    if Has(c, m.key) {
      var mod := Mod(c.dn, None, []);
      assert db in DatabasesFor(entries, x);
      Deleted(m, entries, DatabasesFor(entries, x), c, db);
      Planned(m, entries, records, x, mod);
      PlanNoRepeat(m, entries, records);
      FinalIs(m, mods, c, mod);
    } else {
      forall mod | mod in mods ensures mod.dn != c.dn {
        if mod.dn == c.dn {
          CarrierMods(m, entries, records, x, c, db, mod);
          var c', db' := DeletionStepAtHome(m, entries, records, x, mod);
          SameDnSameEntry(entries, c, c');
        }
      }
    }
  }

  /** The carrier a resolvable record lands on. */
  lemma LandingCarrier(m: Managed, entries: seq<Entry>, records: seq<Record>, x: string) returns (c: Entry, db: Entry)
    requires Resolves(m, entries, records, x)
    ensures db == DatabasesFor(entries, x)[0] && c == CarriersOf(db, entries)[0]
    ensures CarrierIn(entries, c, db, x) && Named(m, records, x)
  {
    db := DatabasesFor(entries, x)[0];
    assert db in DatabasesFor(entries, x);
    c := CarriersOf(db, entries)[0];
    assert c in CarriersOf(db, entries);
  }

  /** Named once and resolvable: the declared value, and no exclusive beside it. */
  lemma ResolvedCarrierEnds(m: Managed, entries: seq<Entry>, records: seq<Record>, x: string)
    requires Separate(m) && DistinctDns(entries) && Resolves(m, entries, records, x)
    ensures
      var c := CarriersOf(DatabasesFor(entries, x)[0], entries)[0];
      AlreadyRight(m, Final(m, PlanOf(m, entries, records), c), RecordsFor(m, records, x)[0].value)
  {
    var c, db := LandingCarrier(m, entries, records, x);
    var value := RecordsFor(m, records, x)[0].value;
    if AlreadyRight(m, c, value) {
      RightIsLeftAlone(m, entries, records, x, c, db);
    } else {
      var mod := Mod(c.dn, Some(value), Present(c, m.exclusive));
      Planned(m, entries, records, x, mod);
      PlanNoRepeat(m, entries, records);
      FinalIs(m, PlanOf(m, entries, records), c, mod);
      TouchMakesRight(m, c, value);
    }
  }

  lemma RightIsLeftAlone(m: Managed, entries: seq<Entry>, records: seq<Record>, x: string, c: Entry, db: Entry)
    requires DistinctDns(entries) && CarrierIn(entries, c, db, x) && Named(m, records, x)
    requires SetStep(m, entries, records, x) == []
    ensures Final(m, PlanOf(m, entries, records), c) == c
  {
    forall mod | mod in PlanOf(m, entries, records) ensures mod.dn != c.dn {
      if mod.dn == c.dn { CarrierMods(m, entries, records, x, c, db, mod); }
    }
  }

  lemma TouchMakesRight(m: Managed, c: Entry, value: string)
    requires Separate(m)
    ensures AlreadyRight(m, Touch(m, c, Mod(c.dn, Some(value), Present(c, m.exclusive))), value)
  {
    var e := Touch(m, c, Mod(c.dn, Some(value), Present(c, m.exclusive)));
    NonePresent(e, m.exclusive);
  }

  lemma {:induction false} NonePresent(e: Entry, names: seq<string>)
    requires forall n :: n in names ==> !Has(e, n)
    ensures Present(e, names) == []
  {
    if names != [] { NonePresent(e, names[1..]); }
  }

  /** Named but in doubt (twice, unresolvable, no database or overlay, or several):
      exactly as it was. */
  lemma DoubtLeavesAlone(m: Managed, entries: seq<Entry>, records: seq<Record>, x: string, c: Entry, db: Entry)
    requires DistinctDns(entries) && CarrierIn(entries, c, db, x)
    requires Named(m, records, x) && !Resolves(m, entries, records, x)
    ensures Final(m, PlanOf(m, entries, records), c) == c
  {
    RightIsLeftAlone(m, entries, records, x, c, db);
  }

  // ---- The same structure afterwards -----------------------------------------

  lemma ShapeDecides(e: Entry, e': Entry, db: Entry, db': Entry, x: string)
    requires SameShape(e, e') && db.dn == db'.dn
    ensures IsCarrier(e, db) == IsCarrier(e', db')
    ensures (IsDatabase(e) && SuffixOf(e) == x) == (IsDatabase(e') && SuffixOf(e') == x)
  {
  }

  lemma FinalAllConcat(m: Managed, mods: seq<Mod>, a: seq<Entry>, b: seq<Entry>)
    ensures FinalAll(m, mods, a + b) == FinalAll(m, mods, a) + FinalAll(m, mods, b)
  {
  }

  lemma {:induction false} StructureFollows(m: Managed, mods: seq<Mod>, entries: seq<Entry>, db: Entry, db': Entry, x: string)
    requires db.dn == db'.dn && forall e :: e in entries ==> SameShape(e, Final(m, mods, e))
    ensures CarriersOf(db', FinalAll(m, mods, entries)) == FinalAll(m, mods, CarriersOf(db, entries))
    ensures DatabasesFor(FinalAll(m, mods, entries), x) == FinalAll(m, mods, DatabasesFor(entries, x))
  {
    if entries != [] {
      var e, rest := entries[0], entries[1..];
      StructureFollows(m, mods, rest, db, db', x);
      assert entries == [e] + rest && e in entries;
      ShapeDecides(e, Final(m, mods, e), db, db', x);
      var after := FinalAll(m, mods, entries);
      assert after[0] == Final(m, mods, e) && after[1..] == FinalAll(m, mods, rest);
      assert FinalAll(m, mods, [e]) == [Final(m, mods, e)];
      FinalAllConcat(m, mods, [e], CarriersOf(db, rest));
      FinalAllConcat(m, mods, [e], DatabasesFor(rest, x));
      NothingBefore(CarriersOf(db, rest));
      NothingBefore(CarriersOf(db', after[1..]));
      NothingBefore(DatabasesFor(rest, x));
      NothingBefore(DatabasesFor(after[1..], x));
    }
  }

  lemma NothingBefore(s: seq<Entry>)
    ensures [] + s == s
  {
  }

  lemma ShapesAreKept(m: Managed, entries: seq<Entry>, records: seq<Record>)
    requires Separate(m) && DistinctDns(entries)
    ensures forall e :: e in entries ==> SameShape(e, Final(m, PlanOf(m, entries, records), e))
  {
    forall e | e in entries ensures SameShape(e, Final(m, PlanOf(m, entries, records), e)) {
      FinalKeepsTheRest(m, entries, records, e);
      AgreeingShapes(m, e, Final(m, PlanOf(m, entries, records), e));
    }
  }

  // ---- The theorems ----------------------------------------------------------

  /** The configuration the converger leaves behind. */
  ghost function Converged(m: Managed, entries: seq<Entry>, records: seq<Record>): seq<Entry> {
    FinalAll(m, PlanOf(m, entries, records), entries)
  }

  /** The run always goes through: no record is refused, in particular no delete
      of an attribute that is not set. */
  lemma ApplyAlwaysSucceeds(m: Managed, entries: seq<Entry>, records: seq<Record>)
    requires DistinctDns(entries)
    ensures ApplyAll(m, entries, PlanOf(m, entries, records)) == Some(Converged(m, entries, records))
  {
    PlanNoRepeat(m, entries, records);
    PlanIsApplicable(m, entries, records);
    ApplyAllIsFinal(m, entries, PlanOf(m, entries, records));
  }

  lemma ConvergedStructure(m: Managed, entries: seq<Entry>, records: seq<Record>, x: string)
    requires Separate(m) && DistinctDns(entries)
    ensures
      var mods, after := PlanOf(m, entries, records), Converged(m, entries, records);
      && DatabasesFor(after, x) == FinalAll(m, mods, DatabasesFor(entries, x))
      && (Configured(after, x) <==> Configured(entries, x))
  {
    ShapesAreKept(m, entries, records);
    StructureFollows(m, PlanOf(m, entries, records), entries, Entry("", map[]), Entry("", map[]), x);
  }

  /** What resolves, and what a record lands on, is the same before and after. */
  lemma ConvergedResolves(m: Managed, entries: seq<Entry>, records: seq<Record>, x: string)
    requires Separate(m) && DistinctDns(entries)
    ensures Resolves(m, Converged(m, entries, records), records, x) <==> Resolves(m, entries, records, x)
    ensures Resolves(m, entries, records, x) ==>
      var after := Converged(m, entries, records);
      CarriersOf(DatabasesFor(after, x)[0], after)[0]
      == Final(m, PlanOf(m, entries, records), CarriersOf(DatabasesFor(entries, x)[0], entries)[0])
  {
    var mods, after := PlanOf(m, entries, records), Converged(m, entries, records);
    ConvergedStructure(m, entries, records, x);
    var recs, dbs := RecordsFor(m, records, x), DatabasesFor(entries, x);
    if |recs| == 1 {
      ConvergedStructure(m, entries, records, NormalizeDn(recs[0].value));
    }
    if |dbs| == 1 {
      var db := dbs[0];
      ShapesAreKept(m, entries, records);
      assert db in dbs;
      StructureFollows(m, mods, entries, db, Final(m, mods, db), x);
    }
  }

  /** Afterwards, a database no record names has no syncprov overlay with the
      attribute ... */
  lemma UnnamedHoldsNone(m: Managed, entries: seq<Entry>, records: seq<Record>, x: string, c: Entry, db: Entry)
    requires Separate(m) && DistinctDns(entries)
    requires CarrierIn(Converged(m, entries, records), c, db, x) && !Named(m, records, x)
    ensures !Has(c, m.key)
  {
    var after := Converged(m, entries, records);
    var i :| 0 <= i < |after| && after[i] == c;
    var j :| 0 <= j < |after| && after[j] == db;
    ShapesAreKept(m, entries, records);
    assert entries[i] in entries && entries[j] in entries;
    ShapeDecides(entries[i], c, entries[j], db, x);
    ShapeDecides(entries[j], db, entries[j], db, x);
    UnnamedCarrierEnds(m, entries, records, x, entries[i], entries[j]);
  }

  /** ... a database that is named once and resolves holds the declared value with
      no exclusive attribute beside it ... */
  lemma ResolvedHoldsDeclared(m: Managed, entries: seq<Entry>, records: seq<Record>, x: string)
    requires Separate(m) && DistinctDns(entries)
    ensures
      var after := Converged(m, entries, records);
      Resolves(m, after, records, x) ==>
        var c := CarriersOf(DatabasesFor(after, x)[0], after)[0];
        && Has(c, m.key) && NormalizeDn(First(c, m.key)) == NormalizeDn(RecordsFor(m, records, x)[0].value)
        && Present(c, m.exclusive) == []
  {
    ConvergedResolves(m, entries, records, x);
    if Resolves(m, entries, records, x) { ResolvedCarrierEnds(m, entries, records, x); }
  }

  /** ... and every value written names a database still configured, so the
      configuration boots; while no pair a record names is ever deleted, whatever
      is wrong with the record. */
  lemma WritesAreBootSafe(m: Managed, entries: seq<Entry>, records: seq<Record>, mod: Mod)
    requires Separate(m) && DistinctDns(entries) && mod in PlanOf(m, entries, records)
    ensures mod.value.Some? ==> Configured(Converged(m, entries, records), NormalizeDn(mod.value.value))
    ensures mod.value.None? ==> forall x :: AtHome(entries, mod.dn, x) ==> !Named(m, records, x)
  {
    var y := PlannedFrom(m, entries, records, mod);
    if mod in DeletionStep(m, entries, records, y) {
      var c, db := DeletionStepAtHome(m, entries, records, y, mod);
      forall x | AtHome(entries, mod.dn, x) ensures x == y { HomeIsUnique(entries, mod.dn, x, y); }
    } else {
      var c, db := SetStepAtHome(m, entries, records, y, mod);
      ConvergedStructure(m, entries, records, NormalizeDn(mod.value.value));
    }
  }

  // ---- The fixpoint ----------------------------------------------------------

  lemma NoDeletionLeft(m: Managed, entries: seq<Entry>, records: seq<Record>, x: string)
    requires Separate(m) && DistinctDns(entries)
    ensures DeletionStep(m, Converged(m, entries, records), records, x) == []
  {
    var after := Converged(m, entries, records);
    var step := DeletionStep(m, after, records, x);
    if step != [] {
      var c, db := DeletionStepAtHome(m, after, records, x, step[0]);
      UnnamedHoldsNone(m, entries, records, x, c, db);
    }
  }

  lemma NoSetLeft(m: Managed, entries: seq<Entry>, records: seq<Record>, x: string)
    requires Separate(m) && DistinctDns(entries)
    ensures SetStep(m, Converged(m, entries, records), records, x) == []
  {
    ResolvedHoldsDeclared(m, entries, records, x);
  }

  lemma {:induction false} NoStepsNoPlan(m: Managed, entries: seq<Entry>, records: seq<Record>, suffixes: seq<string>)
    requires forall x :: DeletionStep(m, entries, records, x) == [] && SetStep(m, entries, records, x) == []
    ensures Deletions(m, entries, records, suffixes) == [] && Sets(m, entries, records, suffixes) == []
  {
    if suffixes != [] { NoStepsNoPlan(m, entries, records, suffixes[1..]); }
  }

  /** One step reaches the fixpoint: planning again after applying asks for
      nothing, which is the read-back check the script ends with. */
  lemma PlanningAgainAsksNothing(m: Managed, entries: seq<Entry>, records: seq<Record>)
    requires Separate(m) && DistinctDns(entries)
    ensures PlanOf(m, Converged(m, entries, records), records) == []
  {
    var after := Converged(m, entries, records);
    forall x ensures DeletionStep(m, after, records, x) == [] && SetStep(m, after, records, x) == [] {
      NoDeletionLeft(m, entries, records, x);
      NoSetLeft(m, entries, records, x);
    }
    NoStepsNoPlan(m, after, records, Sort(SuffixList(after)));
    NoStepsNoPlan(m, after, records, Sort(NamedList(m, records)));
  }

  /** The check as the script makes it: dump the result, folded anywhere after the
      headers and encoded as slapcat likes, parse it, plan it against the same table. */
  lemma ReadBackFindsNothing(codec: Codec, m: Managed, entries: seq<Entry>, records: seq<Record>, docs: seq<Document>)
    requires Separate(m) && DistinctDns(entries) && Faithful(codec) && AllPrinted(codec, docs)
    requires ApplyAll(m, entries, PlanOf(m, entries, records)) == Some(EntriesOf(docs))
    ensures PlanOf(m, Parsed(codec, DocumentText(docs)), records) == []
  {
    ApplyAlwaysSucceeds(m, entries, records);
    LdifRoundTrip(codec, docs);
    PlanningAgainAsksNothing(m, entries, records);
  }

  // ---- The code: dictionaries and lists filled in loops ----------------------
  //
  // The lists above are read from the front; a loop extends them at the back.

  lemma {:induction false} CarriersSnoc(db: Entry, s: seq<Entry>, e: Entry)
    ensures CarriersOf(db, s + [e]) == CarriersOf(db, s) + (if IsCarrier(e, db) then [e] else [])
  {
    var chunk := if IsCarrier(e, db) then [e] else [];
    if s == [] {
      assert s + [e] == [e] && [e][1..] == [];
    } else {
      assert (s + [e])[0] == s[0] && (s + [e])[1..] == s[1..] + [e];
      CarriersSnoc(db, s[1..], e);
      Assoc(if IsCarrier(s[0], db) then [s[0]] else [], CarriersOf(db, s[1..]), chunk);
    }
  }

  lemma {:induction false} DatabasesSnoc(s: seq<Entry>, e: Entry, x: string)
    ensures DatabasesFor(s + [e], x) == DatabasesFor(s, x) + (if IsDatabase(e) && SuffixOf(e) == x then [e] else [])
  {
    var chunk := if IsDatabase(e) && SuffixOf(e) == x then [e] else [];
    if s == [] {
      assert s + [e] == [e] && [e][1..] == [];
    } else {
      assert (s + [e])[0] == s[0] && (s + [e])[1..] == s[1..] + [e];
      DatabasesSnoc(s[1..], e, x);
      Assoc(if IsDatabase(s[0]) && SuffixOf(s[0]) == x then [s[0]] else [], DatabasesFor(s[1..], x), chunk);
    }
  }

  predicate Names(m: Managed, rec: Record, x: string) {
    Lower(rec.attribute) == m.key && NormalizeDn(rec.suffix) == x
  }

  lemma {:induction false} RecordsSnoc(m: Managed, s: seq<Record>, rec: Record, x: string)
    ensures RecordsFor(m, s + [rec], x) == RecordsFor(m, s, x) + (if Names(m, rec, x) then [rec] else [])
  {
    var chunk := if Names(m, rec, x) then [rec] else [];
    if s == [] {
      assert s + [rec] == [rec] && [rec][1..] == [];
    } else {
      assert (s + [rec])[0] == s[0] && (s + [rec])[1..] == s[1..] + [rec];
      RecordsSnoc(m, s[1..], rec, x);
      Assoc(if Names(m, s[0], x) then [s[0]] else [], RecordsFor(m, s[1..], x), chunk);
    }
  }

  lemma {:induction false} DeletionsUnderSnoc(m: Managed, s: seq<Entry>, c: Entry)
    ensures DeletionsUnder(m, s + [c]) == DeletionsUnder(m, s) + (if Has(c, m.key) then [Mod(c.dn, None, [])] else [])
  {
    var chunk := if Has(c, m.key) then [Mod(c.dn, None, [])] else [];
    if s == [] {
      assert s + [c] == [c] && [c][1..] == [];
    } else {
      assert (s + [c])[0] == s[0] && (s + [c])[1..] == s[1..] + [c];
      DeletionsUnderSnoc(m, s[1..], c);
      Assoc(if Has(s[0], m.key) then [Mod(s[0].dn, None, [])] else [], DeletionsUnder(m, s[1..]), chunk);
    }
  }

  lemma {:induction false} DeletionsForSnoc(m: Managed, entries: seq<Entry>, s: seq<Entry>, db: Entry)
    ensures DeletionsFor(m, entries, s + [db]) == DeletionsFor(m, entries, s) + DeletionsUnder(m, CarriersOf(db, entries))
  {
    var chunk := DeletionsUnder(m, CarriersOf(db, entries));
    if s == [] {
      assert s + [db] == [db] && [db][1..] == [];
      assert DeletionsFor(m, entries, [db][1..]) == [];
    } else {
      assert (s + [db])[0] == s[0] && (s + [db])[1..] == s[1..] + [db];
      DeletionsForSnoc(m, entries, s[1..], db);
      Assoc(DeletionsUnder(m, CarriersOf(s[0], entries)), DeletionsFor(m, entries, s[1..]), chunk);
    }
  }

  lemma {:induction false} DeletionsSnoc(m: Managed, entries: seq<Entry>, records: seq<Record>, s: seq<string>, x: string)
    ensures Deletions(m, entries, records, s + [x]) == Deletions(m, entries, records, s) + DeletionStep(m, entries, records, x)
  {
    var chunk := DeletionStep(m, entries, records, x);
    if s == [] {
      assert s + [x] == [x] && [x][1..] == [];
      assert Deletions(m, entries, records, [x][1..]) == [];
    } else {
      assert (s + [x])[0] == s[0] && (s + [x])[1..] == s[1..] + [x];
      DeletionsSnoc(m, entries, records, s[1..], x);
      Assoc(DeletionStep(m, entries, records, s[0]), Deletions(m, entries, records, s[1..]), chunk);
    }
  }

  lemma {:induction false} SetsSnoc(m: Managed, entries: seq<Entry>, records: seq<Record>, s: seq<string>, x: string)
    ensures Sets(m, entries, records, s + [x]) == Sets(m, entries, records, s) + SetStep(m, entries, records, x)
  {
    var chunk := SetStep(m, entries, records, x);
    if s == [] {
      assert s + [x] == [x] && [x][1..] == [];
      assert Sets(m, entries, records, [x][1..]) == [];
    } else {
      assert (s + [x])[0] == s[0] && (s + [x])[1..] == s[1..] + [x];
      SetsSnoc(m, entries, records, s[1..], x);
      Assoc(SetStep(m, entries, records, s[0]), Sets(m, entries, records, s[1..]), chunk);
    }
  }

  method SyncprovOverlayOf(db: Entry, entries: seq<Entry>) returns (found: seq<Entry>)
    ensures found == CarriersOf(db, entries)
  {
    found := [];
    for i := 0 to |entries|
      invariant found == CarriersOf(db, entries[..i])
    {
      CarriersSnoc(db, entries[..i], entries[i]);
      assert entries[..i + 1] == entries[..i] + [entries[i]];
      if IsCarrier(entries[i], db) {
        found := found + [entries[i]];
      }
    }
    assert entries[..|entries|] == entries;
  }

  /** What one key of the dictionary of databases stands for. */
  predicate Groups(dbs: seq<Entry>, bySuffix: map<string, seq<Entry>>, x: string) {
    (x in bySuffix <==> dbs != []) && (x in bySuffix ==> bySuffix[x] == dbs)
  }

  function AddTo(bySuffix: map<string, seq<Entry>>, x: string, e: Entry): map<string, seq<Entry>> {
    bySuffix[x := (if x in bySuffix then bySuffix[x] else []) + [e]]
  }

  lemma GroupsNext(s: seq<Entry>, e: Entry, bySuffix: map<string, seq<Entry>>, x: string)
    requires Groups(DatabasesFor(s, x), bySuffix, x)
    ensures Groups(DatabasesFor(s + [e], x), if IsDatabase(e) then AddTo(bySuffix, SuffixOf(e), e) else bySuffix, x)
  {
    DatabasesSnoc(s, e, x);
    assert DatabasesFor(s, x) + [] == DatabasesFor(s, x);
  }

  /** The dictionary of databases by normalized suffix, and its keys. */
  method Databases(entries: seq<Entry>) returns (keys: seq<string>, bySuffix: map<string, seq<Entry>>)
    ensures Distinct(keys) && forall x :: x in keys <==> x in bySuffix
    ensures forall x :: Groups(DatabasesFor(entries, x), bySuffix, x)
  {
    keys, bySuffix := [], map[];
    for i := 0 to |entries|
      invariant Distinct(keys) && forall x :: x in keys <==> x in bySuffix
      invariant forall x :: Groups(DatabasesFor(entries[..i], x), bySuffix, x)
    {
      var e := entries[i];
      ghost var done, before := entries[..i], bySuffix;
      assert entries[..i + 1] == done + [e];
      if IsDatabase(e) {
        var x := SuffixOf(e);
        if x !in bySuffix {
          keys := keys + [x];
        }
        bySuffix := AddTo(bySuffix, x, e);
      }
      forall x ensures Groups(DatabasesFor(done + [e], x), bySuffix, x) {
        GroupsNext(done, e, before, x);
      }
    }
    assert entries[..|entries|] == entries;
  }

  /** What one key of the dictionary of desired values stands for. */
  predicate Stands(recs: seq<Record>, desired: map<string, Option<Record>>, x: string) {
    && (x in desired <==> recs != [])
    && (x in desired ==> desired[x] == if |recs| == 1 then Some(recs[0]) else None)
  }

  /** The desired values of the managed attribute: a pair declared twice stays in
      the dictionary without a value. */
  method Desired(m: Managed, records: seq<Record>) returns (keys: seq<string>, desired: map<string, Option<Record>>)
    ensures Distinct(keys) && forall x :: x in keys <==> x in desired
    ensures forall x :: Stands(RecordsFor(m, records, x), desired, x)
  {
    keys, desired := [], map[];
    for i := 0 to |records|
      invariant Distinct(keys) && forall x :: x in keys <==> x in desired
      invariant forall x :: Stands(RecordsFor(m, records[..i], x), desired, x)
    {
      var rec := records[i];
      ghost var before := desired;
      if Lower(rec.attribute) == m.key {
        var x := NormalizeDn(rec.suffix);
        if x in desired {
          desired := desired[x := None];
        } else {
          keys, desired := keys + [x], desired[x := Some(rec)];
        }
      }
      ghost var next := records[..i + 1];
      assert next == records[..i] + [rec];
      forall x ensures Stands(RecordsFor(m, next, x), desired, x) {
        RecordsSnoc(m, records[..i], rec, x);
        assert Stands(RecordsFor(m, records[..i], x), before, x);
      }
    }
    assert records[..|records|] == records;
  }

  method Plan(m: Managed, entries: seq<Entry>, records: seq<Record>) returns (mods: seq<Mod>)
    ensures mods == PlanOf(m, entries, records)
  {
    var keys, bySuffix := Databases(entries);
    var names, desired := Desired(m, records);
    forall x ensures x in keys <==> x in SuffixList(entries) { assert Groups(DatabasesFor(entries, x), bySuffix, x); }
    forall x ensures x in names <==> x in NamedList(m, records) { assert Stands(RecordsFor(m, records, x), desired, x); }
    SameSortedList(keys, SuffixList(entries));
    SameSortedList(names, NamedList(m, records));
    var deletions := PlanDeletions(m, entries, records, Sort(keys), bySuffix, desired);
    var sets := PlanSets(m, entries, records, Sort(names), bySuffix, desired);
    mods := deletions + sets;
  }

  lemma SameSortedList(a: seq<string>, b: seq<string>)
    requires Distinct(a) && Distinct(b) && forall x :: x in a <==> x in b
    ensures Sort(a) == Sort(b)
  {
    DistinctSameElements(a, b);
    SortIsCanonical(a, b);
  }

  method PlanDeletions(m: Managed, entries: seq<Entry>, records: seq<Record>, suffixes: seq<string>,
                       bySuffix: map<string, seq<Entry>>, desired: map<string, Option<Record>>) returns (mods: seq<Mod>)
    requires forall x :: Groups(DatabasesFor(entries, x), bySuffix, x)
    requires forall x :: Stands(RecordsFor(m, records, x), desired, x)
    ensures mods == Deletions(m, entries, records, suffixes)
  {
    mods := [];
    for i := 0 to |suffixes|
      invariant mods == Deletions(m, entries, records, suffixes[..i])
    {
      var x := suffixes[i];
      DeletionsSnoc(m, entries, records, suffixes[..i], x);
      assert suffixes[..i + 1] == suffixes[..i] + [x];
      assert Stands(RecordsFor(m, records, x), desired, x);
      assert Groups(DatabasesFor(entries, x), bySuffix, x);
      var step := [];
      if x !in desired {
        step := DeletionsOfDatabases(m, entries, if x in bySuffix then bySuffix[x] else []);
      }
      mods := mods + step;
    }
    assert suffixes[..|suffixes|] == suffixes;
  }

  method DeletionsOfDatabases(m: Managed, entries: seq<Entry>, dbs: seq<Entry>) returns (mods: seq<Mod>)
    ensures mods == DeletionsFor(m, entries, dbs)
  {
    mods := [];
    for i := 0 to |dbs|
      invariant mods == DeletionsFor(m, entries, dbs[..i])
    {
      DeletionsForSnoc(m, entries, dbs[..i], dbs[i]);
      assert dbs[..i + 1] == dbs[..i] + [dbs[i]];
      var carriers := SyncprovOverlayOf(dbs[i], entries);
      var step := DeletionsOfCarriers(m, carriers);
      mods := mods + step;
    }
    assert dbs[..|dbs|] == dbs;
  }

  method DeletionsOfCarriers(m: Managed, carriers: seq<Entry>) returns (mods: seq<Mod>)
    ensures mods == DeletionsUnder(m, carriers)
  {
    mods := [];
    for i := 0 to |carriers|
      invariant mods == DeletionsUnder(m, carriers[..i])
    {
      DeletionsUnderSnoc(m, carriers[..i], carriers[i]);
      assert carriers[..i + 1] == carriers[..i] + [carriers[i]];
      if Has(carriers[i], m.key) {
        mods := mods + [Mod(carriers[i].dn, None, [])];
      }
    }
    assert carriers[..|carriers|] == carriers;
  }

  method PlanSets(m: Managed, entries: seq<Entry>, records: seq<Record>, suffixes: seq<string>,
                  bySuffix: map<string, seq<Entry>>, desired: map<string, Option<Record>>) returns (mods: seq<Mod>)
    requires forall x :: Groups(DatabasesFor(entries, x), bySuffix, x)
    requires forall x :: Stands(RecordsFor(m, records, x), desired, x)
    ensures mods == Sets(m, entries, records, suffixes)
  {
    mods := [];
    for i := 0 to |suffixes|
      invariant mods == Sets(m, entries, records, suffixes[..i])
    {
      var x := suffixes[i];
      SetsSnoc(m, entries, records, suffixes[..i], x);
      assert suffixes[..i + 1] == suffixes[..i] + [x];
      var step := PlanSet(m, entries, records, x, bySuffix, desired);
      mods := mods + step;
    }
    assert suffixes[..|suffixes|] == suffixes;
  }

  /** One record, with the four ways of being refused in their order. */
  method PlanSet(m: Managed, entries: seq<Entry>, records: seq<Record>, x: string,
                 bySuffix: map<string, seq<Entry>>, desired: map<string, Option<Record>>) returns (mods: seq<Mod>)
    requires forall x :: Groups(DatabasesFor(entries, x), bySuffix, x)
    requires forall x :: Stands(RecordsFor(m, records, x), desired, x)
    ensures mods == SetStep(m, entries, records, x)
  {
    assert Stands(RecordsFor(m, records, x), desired, x);
    assert Groups(DatabasesFor(entries, x), bySuffix, x);
    if x !in desired || desired[x].None? { return []; }
    var rec := desired[x].value;
    var dbs := if x in bySuffix then bySuffix[x] else [];
    if |dbs| != 1 { return []; }
    var carriers := SyncprovOverlayOf(dbs[0], entries);
    if |carriers| != 1 { return []; }
    var target := NormalizeDn(rec.value);
    assert Groups(DatabasesFor(entries, target), bySuffix, target);
    if target !in bySuffix { return []; }
    var deleteAlso := Present(carriers[0], m.exclusive);
    if Has(carriers[0], m.key) && NormalizeDn(First(carriers[0], m.key)) == target && deleteAlso == [] {
      return [];
    }
    return [Mod(carriers[0].dn, Some(rec.value), deleteAlso)];
  }
}
