/** What the converger leaves behind, entry by entry, told from the dump and the table
    alone: who is a database, whose overlay is whose, and which record names what are
    spelled out here from attribute values, without the lists the plan is built from. */
module EndState {
  import opened Prelude
  import opened Text
  import opened Ldif
  import opened Converger

  // ---- The vocabulary --------------------------------------------------------

  /** The same name: as many components, each the same up to case and the space
      around it. */
  ghost predicate SameDn(a: string, b: string) {
    var p, q := Split(a, ','), Split(b, ',');
    |p| == |q| && forall i :: 0 <= i < |p| ==> Lower(Trim(p[i])) == Lower(Trim(q[i]))
  }

  /** The record names the managed attribute for that suffix. */
  ghost predicate NamesSuffix(m: Managed, rec: Record, suffix: string) {
    Lower(rec.attribute) == m.key && SameDn(rec.suffix, suffix)
  }

  /** An mdb database entry of that suffix. */
  ghost predicate DatabaseOf(e: Entry, suffix: string) {
    && (exists k :: 0 <= k < |Values(e, "objectclass")| && Lower(Values(e, "objectclass")[k]) == "olcmdbconfig")
    && Values(e, "olcsuffix") != [] && SameDn(Values(e, "olcsuffix")[0], suffix)
  }

  /** A direct child of the database whose overlay is syncprov, with or without the
      ordering prefix slapd gives it. */
  ghost predicate OverlayOf(e: Entry, db: Entry) {
    && (exists rdn :: ',' !in rdn && e.dn == rdn + "," + db.dn)
    && Values(e, "olcoverlay") != [] && NamesOverlay(Values(e, "olcoverlay")[0])
  }

  ghost predicate NamesOverlay(value: string) {
    value == "syncprov" || exists order :: '}' !in order && value == "{" + order + "}" + "syncprov"
  }

  // ---- It is the vocabulary of the plan --------------------------------------

  lemma {:induction false} TrimLeftAvoids(s: string, c: char)
    requires c !in s
    ensures c !in TrimLeft(s)
  {
    if s != "" && IsSpace(s[0]) { TrimLeftAvoids(s[1..], c); }
  }

  lemma {:induction false} TrimRightAvoids(s: string, c: char)
    requires c !in s
    ensures c !in TrimRight(s)
  {
    if s != "" && IsSpace(s[|s| - 1]) { TrimRightAvoids(s[..|s| - 1], c); }
  }

  function LowerParts(parts: seq<string>): (r: seq<string>)
    ensures |r| == |parts| && forall i :: 0 <= i < |parts| ==> r[i] == Lower(parts[i])
  {
    seq(|parts|, i requires 0 <= i < |parts| => Lower(parts[i]))
  }

  function Folded(parts: seq<string>): (r: seq<string>)
    ensures |r| == |parts| && forall i :: 0 <= i < |parts| ==> r[i] == Lower(Trim(parts[i]))
  {
    LowerParts(TrimParts(parts))
  }

  lemma FoldedPartsAvoid(s: string)
    ensures var f := Folded(Split(s, ',')); forall p :: p in f ==> ',' !in p
  {
    var parts := Split(s, ',');
    PartsAvoid(s, ',');
    forall i | 0 <= i < |parts| ensures ',' !in Lower(Trim(parts[i])) {
      TrimLeftAvoids(parts[i], ',');
      TrimRightAvoids(TrimLeft(parts[i]), ',');
    }
  }

  lemma {:induction false} LowerJoins(parts: seq<string>)
    ensures Lower(Join(parts, ',')) == Join(LowerParts(parts), ',')
  {
    if |parts| > 1 {
      LowerJoins(parts[1..]);
      assert LowerParts(parts)[1..] == LowerParts(parts[1..]);
      assert Lower(parts[0] + [','] + Join(parts[1..], ',')) == Lower(parts[0]) + [','] + Lower(Join(parts[1..], ','));
    }
  }

  lemma NormalizedIsFolded(dn: string)
    ensures Split(NormalizeDn(dn), ',') == Folded(Split(dn, ','))
  {
    var parts := Split(dn, ',');
    LowerJoins(TrimParts(parts));
    FoldedPartsAvoid(dn);
    SplitJoin(Folded(parts), ',');
  }

  /** Folding identifies exactly the names that agree component by component. */
  lemma NormalizeIdentifies(a: string, b: string)
    ensures NormalizeDn(a) == NormalizeDn(b) <==> SameDn(a, b)
  {
    var p, q := Split(a, ','), Split(b, ',');
    NormalizedIsFolded(a);
    NormalizedIsFolded(b);
    if SameDn(a, b) {
      assert Folded(p) == Folded(q);
      LowerJoins(TrimParts(p));
      LowerJoins(TrimParts(q));
    }
  }

  lemma RecordNames(m: Managed, rec: Record, suffix: string)
    ensures Names(m, rec, NormalizeDn(suffix)) <==> NamesSuffix(m, rec, suffix)
  {
    NormalizeIdentifies(rec.suffix, suffix);
  }

  lemma ClassIsMdb(e: Entry)
    ensures HasClass(e, "olcMdbConfig") <==>
      exists k :: 0 <= k < |Values(e, "objectclass")| && Lower(Values(e, "objectclass")[k]) == "olcmdbconfig"
  {
    assert Lower("olcMdbConfig") == "olcmdbconfig";
  }

  lemma DatabaseMeans(e: Entry, suffix: string)
    ensures IsDatabase(e) && SuffixOf(e) == NormalizeDn(suffix) <==> DatabaseOf(e, suffix)
  {
    ClassIsMdb(e);
    if Has(e, "olcsuffix") { NormalizeIdentifies(First(e, "olcsuffix"), suffix); }
  }

  lemma {:induction false} CutParts(s: string, c: char)
    requires c in s
    ensures var r := Cut(s, c); c !in r.0 && s == r.0 + [c] + r.1
  {
    if s[0] != c {
      CutParts(s[1..], c);
      assert s == [s[0]] + s[1..];
    }
  }

  lemma StripMeans(value: string)
    ensures StripIndex(value) == "syncprov" <==> NamesOverlay(value)
  {
    if order :| '}' !in order && value == "{" + order + "}" + "syncprov" {
      CutAt("{" + order, '}', "syncprov");
      assert value == ("{" + order) + ['}'] + "syncprov";
    }
    if StartsWith(value, '{') && '}' in value && Cut(value, '}').1 == "syncprov" {
      CutParts(value, '}');
      var head := Cut(value, '}').0;
      assert head != "" && head[0] == '{' && head == "{" + head[1..];
      assert '}' !in head[1..];
    }
    if value == "syncprov" { assert value[0] == 's'; }
  }

  lemma OverlayMeans(e: Entry, db: Entry)
    ensures IsCarrier(e, db) <==> OverlayOf(e, db)
  {
    if Has(e, "olcoverlay") { StripMeans(First(e, "olcoverlay")); }
    if IsChildDn(e.dn, db.dn) {
      var rdn := e.dn[..|e.dn| - |db.dn| - 1];
      assert e.dn == rdn + e.dn[|e.dn| - |db.dn| - 1..];
      assert e.dn == rdn + "," + db.dn;
    }
    if rdn :| ',' !in rdn && e.dn == rdn + "," + db.dn {
      assert |e.dn| - |db.dn| - 1 == |rdn|;
      assert e.dn[..|rdn|] == rdn && e.dn[|rdn|..] == "," + db.dn;
    }
  }

  // ---- One of each -----------------------------------------------------------

  function NamesIn(m: Managed, x: string): Record -> Option<Record> {
    (rec: Record) => if Names(m, rec, x) then Some(rec) else None
  }

  function DatabaseIn(x: string): Entry -> Option<Entry> {
    (e: Entry) => if IsDatabase(e) && SuffixOf(e) == x then Some(e) else None
  }

  function CarrierOfIn(db: Entry): Entry -> Option<Entry> {
    (e: Entry) => if IsCarrier(e, db) then Some(e) else None
  }

  lemma RecordsArePicked(m: Managed, records: seq<Record>, x: string)
    ensures RecordsFor(m, records, x) == Pick(NamesIn(m, x), records)
  {
    FilterIsPick(t => RecordsFor(m, t, x), NamesIn(m, x), records);
  }

  lemma DatabasesArePicked(entries: seq<Entry>, x: string)
    ensures DatabasesFor(entries, x) == Pick(DatabaseIn(x), entries)
  {
    FilterIsPick(t => DatabasesFor(t, x), DatabaseIn(x), entries);
  }

  lemma CarriersArePicked(entries: seq<Entry>, db: Entry)
    ensures CarriersOf(db, entries) == Pick(CarrierOfIn(db), entries)
  {
    FilterIsPick(t => CarriersOf(db, t), CarrierOfIn(db), entries);
  }

  /** Record r is the only one to name its suffix, d the only database of it, c the
      only syncprov overlay of that, and the value names a configured database. */
  ghost predicate Unambiguous(m: Managed, entries: seq<Entry>, records: seq<Record>, r: nat, d: nat, c: nat)
    requires r < |records| && d < |entries| && c < |entries|
  {
    && (forall i :: 0 <= i < |records| && NamesSuffix(m, records[i], records[r].suffix) ==> i == r)
    && (forall i :: 0 <= i < |entries| && DatabaseOf(entries[i], records[r].suffix) ==> i == d)
    && (forall i :: 0 <= i < |entries| && OverlayOf(entries[i], entries[d]) ==> i == c)
    && exists v :: 0 <= v < |entries| && DatabaseOf(entries[v], records[r].value)
  }

  /** Record r names the managed attribute, d is a database of its suffix, and c is a
      syncprov overlay of d; there may be others of each. */
  ghost predicate Concerns(m: Managed, entries: seq<Entry>, records: seq<Record>, r: nat, d: nat, c: nat) {
    && r < |records| && d < |entries| && c < |entries|
    && Lower(records[r].attribute) == m.key
    && DatabaseOf(entries[d], records[r].suffix) && OverlayOf(entries[c], entries[d])
  }

  lemma OnlyRecord(m: Managed, records: seq<Record>, r: nat)
    requires r < |records| && Lower(records[r].attribute) == m.key
    ensures |RecordsFor(m, records, NormalizeDn(records[r].suffix))| == 1 <==>
      forall i :: 0 <= i < |records| && NamesSuffix(m, records[i], records[r].suffix) ==> i == r
    ensures |RecordsFor(m, records, NormalizeDn(records[r].suffix))| == 1 ==>
      RecordsFor(m, records, NormalizeDn(records[r].suffix)) == [records[r]]
  {
    var x := NormalizeDn(records[r].suffix);
    RecordsArePicked(m, records, x);
    forall i | 0 <= i < |records| ensures NamesIn(m, x)(records[i]).Some? <==> NamesSuffix(m, records[i], records[r].suffix) {
      RecordNames(m, records[i], records[r].suffix);
    }
    PickOnly(NamesIn(m, x), records, r);
  }

  lemma OnlyDatabase(entries: seq<Entry>, suffix: string, d: nat)
    requires d < |entries| && DatabaseOf(entries[d], suffix)
    ensures |DatabasesFor(entries, NormalizeDn(suffix))| == 1 <==>
      forall i :: 0 <= i < |entries| && DatabaseOf(entries[i], suffix) ==> i == d
    ensures |DatabasesFor(entries, NormalizeDn(suffix))| == 1 ==> DatabasesFor(entries, NormalizeDn(suffix)) == [entries[d]]
  {
    var x := NormalizeDn(suffix);
    DatabasesArePicked(entries, x);
    forall i | 0 <= i < |entries| ensures DatabaseIn(x)(entries[i]).Some? <==> DatabaseOf(entries[i], suffix) {
      DatabaseMeans(entries[i], suffix);
    }
    PickOnly(DatabaseIn(x), entries, d);
  }

  lemma OnlyOverlay(entries: seq<Entry>, db: Entry, c: nat)
    requires c < |entries| && OverlayOf(entries[c], db)
    ensures |CarriersOf(db, entries)| == 1 <==> forall i :: 0 <= i < |entries| && OverlayOf(entries[i], db) ==> i == c
    ensures |CarriersOf(db, entries)| == 1 ==> CarriersOf(db, entries) == [entries[c]]
  {
    CarriersArePicked(entries, db);
    forall i | 0 <= i < |entries| ensures CarrierOfIn(db)(entries[i]).Some? <==> OverlayOf(entries[i], db) {
      OverlayMeans(entries[i], db);
    }
    PickOnly(CarrierOfIn(db), entries, c);
  }

  lemma ConfiguredMeans(entries: seq<Entry>, value: string)
    ensures Configured(entries, NormalizeDn(value)) <==> exists v :: 0 <= v < |entries| && DatabaseOf(entries[v], value)
  {
    DatabasesArePicked(entries, NormalizeDn(value));
    PickNothing(DatabaseIn(NormalizeDn(value)), entries);
    forall i | 0 <= i < |entries| ensures DatabaseIn(NormalizeDn(value))(entries[i]).Some? <==> DatabaseOf(entries[i], value) {
      DatabaseMeans(entries[i], value);
    }
  }

  /** The record may be acted on exactly when nothing about it is ambiguous. */
  lemma ResolvesMeans(m: Managed, entries: seq<Entry>, records: seq<Record>, r: nat, d: nat, c: nat)
    requires Concerns(m, entries, records, r, d, c)
    ensures
      var x := NormalizeDn(records[r].suffix);
      && (Resolves(m, entries, records, x) <==> Unambiguous(m, entries, records, r, d, c))
      && (Resolves(m, entries, records, x) ==>
            RecordsFor(m, records, x) == [records[r]] && DatabasesFor(entries, x) == [entries[d]]
            && CarriersOf(entries[d], entries) == [entries[c]])
  {
    OnlyRecord(m, records, r);
    OnlyDatabase(entries, records[r].suffix, d);
    OnlyOverlay(entries, entries[d], c);
    ConfiguredMeans(entries, records[r].value);
  }

  lemma CarrierIsIn(m: Managed, entries: seq<Entry>, suffix: string, d: nat, c: nat)
    requires d < |entries| && c < |entries| && DatabaseOf(entries[d], suffix) && OverlayOf(entries[c], entries[d])
    ensures CarrierIn(entries, entries[c], entries[d], NormalizeDn(suffix))
  {
    DatabaseMeans(entries[d], suffix);
    OverlayMeans(entries[c], entries[d]);
  }

  // ---- What becomes of every entry -------------------------------------------

  /** The configuration after slapmodify took the plan. */
  ghost function After(m: Managed, entries: seq<Entry>, records: seq<Record>): (r: seq<Entry>)
    requires DistinctDns(entries)
    ensures |r| == |entries| && ApplyAll(m, entries, PlanOf(m, entries, records)) == Some(r)
    ensures r == Converged(m, entries, records)
  {
    ApplyAlwaysSucceeds(m, entries, records);
    Converged(m, entries, records)
  }

  /** The value is there already, up to folding, with nothing it displaces beside it. */
  ghost predicate HoldsAlready(m: Managed, e: Entry, value: string) {
    && Values(e, m.key) != [] && SameDn(Values(e, m.key)[0], value)
    && forall n :: n in m.exclusive ==> Values(e, n) == []
  }

  lemma RightMeans(m: Managed, e: Entry, value: string)
    ensures AlreadyRight(m, e, value) <==> HoldsAlready(m, e, value)
  {
    if Has(e, m.key) { NormalizeIdentifies(First(e, m.key), value); }
    if forall n :: n in m.exclusive ==> Values(e, n) == [] { NonePresent(e, m.exclusive); }
    if p :| p in Present(e, m.exclusive) { assert p in m.exclusive && Has(e, p); }
    if Present(e, m.exclusive) != [] { assert Present(e, m.exclusive)[0] in Present(e, m.exclusive); }
  }

  /** Named once, with one database, one overlay and a value that resolves: the overlay
      ends with exactly the declared value and none of what it displaces, and an
      overlay that had it already is not touched. */
  lemma DeclaredValueIsWritten(m: Managed, entries: seq<Entry>, records: seq<Record>, r: nat, d: nat, c: nat)
    requires Separate(m) && DistinctDns(entries)
    requires Concerns(m, entries, records, r, d, c) && Unambiguous(m, entries, records, r, d, c)
    ensures
      var before, after := entries[c], After(m, entries, records)[c];
      if HoldsAlready(m, before, records[r].value) then after == before
      else
        && Values(after, m.key) == [records[r].value]
        && (forall n :: n in m.exclusive ==> Values(after, n) == [])
        && AgreeElsewhere(m, before, after)
  {
    var x, value, carrier := NormalizeDn(records[r].suffix), records[r].value, entries[c];
    ResolvesMeans(m, entries, records, r, d, c);
    CarrierIsIn(m, entries, records[r].suffix, d, c);
    RightMeans(m, carrier, value);
    if AlreadyRight(m, carrier, value) {
      RightIsLeftAlone(m, entries, records, x, carrier, entries[d]);
    } else {
      var mod := Mod(carrier.dn, Some(value), Present(carrier, m.exclusive));
      assert SetStep(m, entries, records, x) == [mod];
      WrittenByMod(m, entries, records, x, carrier, mod, value);
    }
  }

  lemma WrittenByMod(m: Managed, entries: seq<Entry>, records: seq<Record>, x: string, carrier: Entry, mod: Mod, value: string)
    requires Separate(m) && DistinctDns(entries) && mod in SetStep(m, entries, records, x)
    requires mod == Mod(carrier.dn, Some(value), Present(carrier, m.exclusive))
    ensures
      var after := Final(m, PlanOf(m, entries, records), carrier);
      && Values(after, m.key) == [value] && (forall n :: n in m.exclusive ==> Values(after, n) == [])
      && AgreeElsewhere(m, carrier, after)
  {
    Planned(m, entries, records, x, mod);
    PlanNoRepeat(m, entries, records);
    FinalIs(m, PlanOf(m, entries, records), carrier, mod);
    TouchKeepsTheRest(m, carrier, mod);
  }

  /** Named, but with any of the four in doubt: the overlay is left exactly as it was. */
  lemma DoubtfulIsUntouched(m: Managed, entries: seq<Entry>, records: seq<Record>, r: nat, d: nat, c: nat)
    requires DistinctDns(entries)
    requires Concerns(m, entries, records, r, d, c) && !Unambiguous(m, entries, records, r, d, c)
    ensures After(m, entries, records)[c] == entries[c]
  {
    var x := NormalizeDn(records[r].suffix);
    ResolvesMeans(m, entries, records, r, d, c);
    CarrierIsIn(m, entries, records[r].suffix, d, c);
    RecordNames(m, records[r], records[r].suffix);
    NormalizeIdentifies(records[r].suffix, records[r].suffix);
    RecordsArePicked(m, records, x);
    PickNothing(NamesIn(m, x), records);
    assert NamesIn(m, x)(records[r]).Some?;
    DoubtLeavesAlone(m, entries, records, x, entries[c], entries[d]);
  }

  /** Not named by any record: the overlay loses the attribute and nothing else. */
  lemma UnnamedLosesTheAttribute(m: Managed, entries: seq<Entry>, records: seq<Record>, suffix: string, d: nat, c: nat)
    requires DistinctDns(entries) && d < |entries| && c < |entries|
    requires DatabaseOf(entries[d], suffix) && OverlayOf(entries[c], entries[d])
    requires forall r :: 0 <= r < |records| ==> !NamesSuffix(m, records[r], suffix)
    ensures
      var before, after := entries[c], After(m, entries, records)[c];
      && Values(after, m.key) == [] && after.dn == before.dn
      && forall n :: n != m.key ==> Values(after, n) == Values(before, n)
  {
    var x, carrier := NormalizeDn(suffix), entries[c];
    CarrierIsIn(m, entries, suffix, d, c);
    RecordsArePicked(m, records, x);
    PickNothing(NamesIn(m, x), records);
    forall r | 0 <= r < |records| ensures NamesIn(m, x)(records[r]).None? { RecordNames(m, records[r], suffix); }
    UnnamedCarrierEnds(m, entries, records, x, carrier, entries[d]);
    UnnamedKeepsTheRest(m, entries, records, x, carrier, entries[d]);
  }

  lemma UnnamedKeepsTheRest(m: Managed, entries: seq<Entry>, records: seq<Record>, x: string, c: Entry, db: Entry)
    requires DistinctDns(entries) && CarrierIn(entries, c, db, x) && !Named(m, records, x)
    ensures
      var after := Final(m, PlanOf(m, entries, records), c);
      after.dn == c.dn && forall n :: n != m.key ==> Values(after, n) == Values(c, n)
  {
    var mods := PlanOf(m, entries, records);
    if mod :| mod in mods && mod.dn == c.dn {
      UnnamedModDeletes(m, entries, records, x, c, db, mod);
      PlanNoRepeat(m, entries, records);
      FinalIs(m, mods, c, mod);
      DeletingKeepsTheRest(m, c);
    }
  }

  lemma UnnamedModDeletes(m: Managed, entries: seq<Entry>, records: seq<Record>, x: string, c: Entry, db: Entry, mod: Mod)
    requires DistinctDns(entries) && CarrierIn(entries, c, db, x) && !Named(m, records, x)
    requires mod in PlanOf(m, entries, records) && mod.dn == c.dn
    ensures mod == Mod(c.dn, None, [])
  {
    CarrierMods(m, entries, records, x, c, db, mod);
    if mod in DeletionStep(m, entries, records, x) {
      var _, _ := DeletionStepAtHome(m, entries, records, x, mod);
    } else {
      var _, _ := SetStepAtHome(m, entries, records, x, mod);
    }
  }

  lemma DeletingKeepsTheRest(m: Managed, c: Entry)
    ensures
      var after := Touch(m, c, Mod(c.dn, None, []));
      after.dn == c.dn && forall n :: n != m.key ==> Values(after, n) == Values(c, n)
  {
  }

  /** No overlay of any database: untouched. */
  lemma OtherEntriesAreUntouched(m: Managed, entries: seq<Entry>, records: seq<Record>, c: nat)
    requires DistinctDns(entries) && c < |entries|
    requires forall d, suffix :: 0 <= d < |entries| && DatabaseOf(entries[d], suffix) ==> !OverlayOf(entries[c], entries[d])
    ensures After(m, entries, records)[c] == entries[c]
  {
    var mods := PlanOf(m, entries, records);
    forall mod | mod in mods ensures mod.dn != entries[c].dn {
      var x := PlannedFrom(m, entries, records, mod);
      var carrier, db;
      if mod in DeletionStep(m, entries, records, x) {
        carrier, db := DeletionStepAtHome(m, entries, records, x, mod);
      } else {
        carrier, db := SetStepAtHome(m, entries, records, x, mod);
      }
      var d :| 0 <= d < |entries| && entries[d] == db;
      DatabaseMeans(db, First(db, "olcsuffix"));
      OverlayMeans(carrier, db);
      if mod.dn == entries[c].dn { SameDnSameEntry(entries, carrier, entries[c]); }
    }
  }
}
