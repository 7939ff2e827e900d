/** Deleting a cn=config subtree from a server that refuses to delete an entry
    with children (database_teardown.go). */
module Teardown {
  import opened Sorting

  // ---- Distinguished names ---------------------------------------------------

  /** Where an RDN boundary scan stands after reading s: inside an escape or not. */
  predicate EscapePending(s: string, escaped: bool)
    decreases |s|
  {
    if s == "" then escaped
    else if escaped then EscapePending(s[1..], false)
    else EscapePending(s[1..], s[0] == '\\')
  }

  /** The RDNs of a DN: section 2.4 of RFC 4514, a comma separates unless it is
      escaped by a backslash. */
  function Rdns(s: string, escaped: bool): (r: seq<string>)
    ensures |r| >= 1
    decreases |s|
  {
    if s == "" then [""]
    else if !escaped && s[0] == ',' then [""] + Rdns(s[1..], false)
    else Grow(s[0], Rdns(s[1..], !escaped && s[0] == '\\'))
  }

  function Grow(c: char, rdns: seq<string>): (r: seq<string>)
    requires |rdns| >= 1
    ensures |r| == |rdns|
  {
    [[c] + rdns[0]] + rdns[1..]
  }

  lemma GrowFront(c: char, front: seq<string>, back: seq<string>)
    requires |front| >= 1
    ensures Grow(c, front + back) == Grow(c, front) + back
  {
    assert (front + back)[1..] == front[1..] + back;
  }

  /** The name as a list of RDNs; the empty DN has none. */
  function Name(dn: string): seq<string> {
    if dn == "" then [] else Rdns(dn, false)
  }

  /** x lies strictly below y. */
  predicate Below(x: string, y: string) {
    |Name(y)| < |Name(x)| && Name(x)[|Name(x)| - |Name(y)|..] == Name(y)
  }

  method DnDepth(dn: string) returns (depth: int)
    ensures depth == |Name(dn)|
  {
    if dn == "" {
      return 0;
    }
    depth := 1;
    var escaped := false;
    var i := 0;
    while i < |dn|
      invariant 0 <= i <= |dn|
      invariant depth + |Rdns(dn[i..], escaped)| - 1 == |Rdns(dn, false)|
    {
      assert dn[i..][1..] == dn[i + 1..];
      if escaped {
        escaped := false;
      } else if dn[i] == '\\' {
        escaped := true;
      } else if dn[i] == ',' {
        depth := depth + 1;
      }
      i := i + 1;
    }
  }

  // Splitting a text at a comma that is a separator splits the name there.
  lemma {:induction false} RdnsOfJoined(p: string, y: string, escaped: bool)
    requires !EscapePending(p, escaped)
    ensures Rdns(p + "," + y, escaped) == Rdns(p, escaped) + Rdns(y, false)
    decreases |p|
  {
    var x := p + "," + y;
    if p == "" {
      assert x == "," + y && x[1..] == y;
    } else {
      var e := !escaped && p[0] == '\\';
      assert x[0] == p[0] && x[1..] == p[1..] + "," + y;
      RdnsOfJoined(p[1..], y, e);
      assert Rdns(x, escaped) == if !escaped && p[0] == ',' then [""] + Rdns(x[1..], false) else Grow(p[0], Rdns(x[1..], e));
      GrowFront(p[0], Rdns(p[1..], e), Rdns(y, false));
    }
  }

  /** An entry created under y sits below it and is deeper, commas in values or not. */
  lemma ChildIsBelow(p: string, y: string)
    requires !EscapePending(p, false)
    ensures Below(p + "," + y, y) && |Name(p + "," + y)| > |Name(y)|
  {
    RdnsOfJoined(p, y, false);
    assert (Rdns(p, false) + Rdns(y, false))[|Rdns(p, false)|..] == Rdns(y, false);
  }

  /** How many backslashes stand right before position i. */
  function Backslashes(s: string, i: nat): (n: nat)
    requires i <= |s|
    ensures n <= i
  {
    if i > 0 && s[i - 1] == '\\' then 1 + Backslashes(s, i - 1) else 0
  }

  /** The comma at i separates: the backslashes before it cancel out in pairs. */
  predicate Separates(s: string, i: int) {
    0 <= i < |s| && s[i] == ',' && Backslashes(s, i) % 2 == 0
  }

  function Separators(s: string, n: nat): set<int>
    requires n <= |s|
  {
    set i | 0 <= i < n && Separates(s, i)
  }

  /** Whether an escape is pending, told from the backslashes just read. */
  lemma {:induction false} PendingIsOdd(s: string, n: nat)
    requires n <= |s|
    ensures EscapePending(s[..n], false) <==> Backslashes(s, n) % 2 == 1
  {
    if n > 0 {
      PendingIsOdd(s, n - 1);
      assert s[..n] == s[..n - 1] + [s[n - 1]];
      PendingSnoc(s[..n - 1], s[n - 1], false);
    }
  }

  lemma {:induction false} PendingSnoc(s: string, c: char, escaped: bool)
    ensures EscapePending(s + [c], escaped) <==> !EscapePending(s, escaped) && c == '\\'
    decreases |s|
  {
    if s == "" {
      assert s + [c] == [c] && [c][1..] == "";
    } else {
      assert (s + [c])[0] == s[0] && (s + [c])[1..] == s[1..] + [c];
      PendingSnoc(s[1..], c, !escaped && s[0] == '\\');
    }
  }

  lemma {:induction false} CountSnoc(s: string, c: char, escaped: bool)
    ensures |Rdns(s + [c], escaped)| == |Rdns(s, escaped)| + if c == ',' && !EscapePending(s, escaped) then 1 else 0
    decreases |s|
  {
    if s == "" {
      assert s + [c] == [c] && [c][1..] == "";
    } else {
      assert (s + [c])[0] == s[0] && (s + [c])[1..] == s[1..] + [c];
      CountSnoc(s[1..], c, !escaped && s[0] == '\\');
    }
  }

  /** The depth of a name is one more than its separators: the commas that an even
      number of backslashes precedes. */
  lemma {:induction false} DepthCountsSeparators(s: string, n: nat)
    requires n <= |s|
    ensures |Rdns(s[..n], false)| == 1 + |Separators(s, n)|
  {
    if n > 0 {
      DepthCountsSeparators(s, n - 1);
      assert s[..n] == s[..n - 1] + [s[n - 1]];
      CountSnoc(s[..n - 1], s[n - 1], false);
      PendingIsOdd(s, n - 1);
      assert Separators(s, n) == Separators(s, n - 1) + (if Separates(s, n - 1) then {n - 1} else {});
    }
  }

  lemma {:induction false} RdnsRejoin(s: string, escaped: bool)
    ensures Joined(Rdns(s, escaped)) == s
    decreases |s|
  {
    if s != "" {
      var e := !escaped && s[0] == '\\';
      RdnsRejoin(s[1..], if !escaped && s[0] == ',' then false else e);
      if escaped || s[0] != ',' { JoinedGrows(s[0], Rdns(s[1..], e)); }
      assert s == [s[0]] + s[1..];
    }
  }

  function Joined(rdns: seq<string>): string
    requires |rdns| >= 1
  {
    if |rdns| == 1 then rdns[0] else rdns[0] + "," + Joined(rdns[1..])
  }

  lemma JoinedCons(h: string, t: seq<string>)
    ensures Joined([h] + t) == if t == [] then h else h + "," + Joined(t)
  {
    assert ([h] + t)[0] == h && ([h] + t)[1..] == t;
  }

  lemma JoinedGrows(c: char, rdns: seq<string>)
    requires |rdns| >= 1
    ensures Joined(Grow(c, rdns)) == [c] + Joined(rdns)
  {
    var h, t := rdns[0], rdns[1..];
    assert rdns == [h] + t;
    JoinedCons(h, t);
    JoinedCons([c] + h, t);
    if t != [] { PrefixedJoin(c, h, Joined(t)); }
  }

  lemma PrefixedJoin(c: char, h: string, rest: string)
    ensures ([c] + h) + "," + rest == [c] + (h + "," + rest)
  {
  }

  /** A name is its RDNs joined by commas, one more than the commas that separate. */
  lemma NameIsExact(dn: string)
    ensures dn != "" ==> Joined(Name(dn)) == dn && |Name(dn)| == 1 + |Separators(dn, |dn|)|
    ensures dn == "" ==> Name(dn) == []
  {
    RdnsRejoin(dn, false);
    DepthCountsSeparators(dn, |dn|);
    assert dn[..|dn|] == dn;
  }

  // ---- The plan --------------------------------------------------------------

  /** Deepest first. */
  function Shallowness(dn: string): int {
    -|Name(dn)|
  }

  function PlanSubtreeDeletion(dns: seq<string>): (out: seq<string>)
    ensures multiset(out) == multiset(dns)
  {
    StableSort(dns, Shallowness)
  }

  /** Deepest first, and within a depth the input order. */
  lemma PlanIsDeepestFirstAndStable(dns: seq<string>)
    ensures
      var out := PlanSubtreeDeletion(dns);
      && (forall i, j :: 0 <= i < j < |out| ==> |Name(out[i])| >= |Name(out[j])|)
      && (forall depth :: WithKey(out, Shallowness, depth) == WithKey(dns, Shallowness, depth))
  {
    var out := PlanSubtreeDeletion(dns);
    StableSortKeeps(dns, Shallowness, 0);
    forall i, j | 0 <= i < j < |out| ensures |Name(out[i])| >= |Name(out[j])| {
      assert Shallowness(out[i]) <= Shallowness(out[j]);
    }
    forall depth ensures WithKey(out, Shallowness, depth) == WithKey(dns, Shallowness, depth) {
      StableSortKeeps(dns, Shallowness, depth);
    }
  }

  /** No other list is deepest first and stable, so the plan is what any stable
      sort by depth returns. */
  lemma PlanIsTheStableOrder(dns: seq<string>, out: seq<string>)
    requires forall i, j :: 0 <= i < j < |out| ==> |Name(out[i])| >= |Name(out[j])|
    requires forall depth :: WithKey(out, Shallowness, depth) == WithKey(dns, Shallowness, depth)
    ensures out == PlanSubtreeDeletion(dns)
  {
    PlanIsDeepestFirstAndStable(dns);
    forall i, j | 0 <= i < j < |out| ensures Shallowness(out[i]) <= Shallowness(out[j]) {
      assert |Name(out[i])| >= |Name(out[j])|;
    }
    StableSortKeeps(dns, Shallowness, 0);
    StableSortIsUnique(out, PlanSubtreeDeletion(dns), Shallowness);
  }

  // ---- The server ------------------------------------------------------------

  datatype Outcome = Deleted(tree: set<string>) | Refused

  /** One delete: the entry must exist and have nothing below it. */
  function Delete(tree: set<string>, dn: string): Outcome {
    if dn in tree && forall x :: x in tree ==> !Below(x, dn) then Deleted(tree - {dn}) else Refused
  }

  /** A run of deletes, which stops at the first refusal. */
  function DeleteAll(tree: set<string>, dns: seq<string>): Outcome {
    if dns == [] then Deleted(tree)
    else
      match Delete(tree, dns[0])
      case Refused => Refused
      case Deleted(rest) => DeleteAll(rest, dns[1..])
  }

  ghost predicate ClosedBelow(tree: set<string>, dns: seq<string>) {
    forall y, x :: y in dns && x in tree && Below(x, y) ==> x in dns
  }

  function Elements(s: seq<string>): set<string> {
    set x | x in s
  }

  /** Any deepest-first order of a downward-closed list runs without a refusal. */
  lemma {:induction false} DeepestFirstSucceeds(tree: set<string>, dns: seq<string>)
    requires Distinct(dns) && Elements(dns) <= tree && ClosedBelow(tree, dns)
    requires forall i, j :: 0 <= i < j < |dns| ==> |Name(dns[i])| >= |Name(dns[j])|
    ensures DeleteAll(tree, dns) == Deleted(tree - Elements(dns))
  {
    if dns == [] {
      assert tree - Elements(dns) == tree;
    } else {
      FirstIsALeaf(tree, dns);
      RestIsClosed(tree, dns);
      DeepestFirstSucceeds(tree - {dns[0]}, dns[1..]);
      ElementsCons(dns);
    }
  }

  lemma ElementsCons(dns: seq<string>)
    requires dns != []
    ensures Elements(dns) == {dns[0]} + Elements(dns[1..])
    ensures forall tree: set<string> :: tree - {dns[0]} - Elements(dns[1..]) == tree - Elements(dns)
  {
    assert dns == [dns[0]] + dns[1..];
  }

  lemma FirstIsALeaf(tree: set<string>, dns: seq<string>)
    requires dns != [] && Elements(dns) <= tree && ClosedBelow(tree, dns)
    requires forall i, j :: 0 <= i < j < |dns| ==> |Name(dns[i])| >= |Name(dns[j])|
    ensures Delete(tree, dns[0]) == Deleted(tree - {dns[0]})
  {
    var dn := dns[0];
    assert dn in dns && dn in Elements(dns);
    forall x | x in tree ensures !Below(x, dn) {
      if x in dns {
        var i :| 0 <= i < |dns| && dns[i] == x;
      }
    }
  }

  lemma RestIsClosed(tree: set<string>, dns: seq<string>)
    requires dns != [] && Distinct(dns) && Elements(dns) <= tree && ClosedBelow(tree, dns)
    ensures Distinct(dns[1..]) && Elements(dns[1..]) <= tree - {dns[0]} && ClosedBelow(tree - {dns[0]}, dns[1..])
  {
    var dn, rest := dns[0], dns[1..];
    assert dns == [dn] + rest;
    assert forall z :: z in dns <==> z == dn || z in rest;
    assert dn !in rest;
    assert Elements(rest) <= Elements(dns);
  }

  /** No order whatever succeeds on any other list. */
  lemma {:induction false} SuccessNeedsClosure(tree: set<string>, dns: seq<string>)
    requires DeleteAll(tree, dns).Deleted?
    ensures Distinct(dns) && Elements(dns) <= tree && ClosedBelow(tree, dns)
  {
    if dns != [] {
      var dn, rest := dns[0], dns[1..];
      SuccessNeedsClosure(tree - {dn}, rest);
      assert dns == [dn] + rest;
      assert dn !in Elements(rest);
    }
  }

  /** Teardown never gets stuck.  For every tree and list: executing the plan
      succeeds at every step and removes exactly the listed entries, if and only
      if the list names entries of the tree once each and everything below them. */
  lemma TeardownNeverSticks(tree: set<string>, dns: seq<string>)
    ensures DeleteAll(tree, PlanSubtreeDeletion(dns)) == Deleted(tree - Elements(dns))
       <==> Distinct(dns) && Elements(dns) <= tree && ClosedBelow(tree, dns)
  {
    var out := PlanSubtreeDeletion(dns);
    PlanIsDeepestFirstAndStable(dns);
    SameElements(dns, out);
    if Distinct(dns) && Elements(dns) <= tree && ClosedBelow(tree, dns) {
      DistinctByMultiset(dns, out);
      DeepestFirstSucceeds(tree, out);
    }
    if DeleteAll(tree, out) == Deleted(tree - Elements(dns)) {
      SuccessNeedsClosure(tree, out);
      DistinctByMultiset(out, dns);
    }
  }
}
