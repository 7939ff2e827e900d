/** The providers a peer offers, identified by pod name (providers.go). */
module Providers {
  import opened Prelude
  import opened Text
  import opened Sorting

  // ---- One pod's ordinal -----------------------------------------------------

  function LastDash(s: string): (r: Option<nat>)
    ensures r.None? ==> '-' !in s
    ensures r.Some? ==> r.value < |s| && s[r.value] == '-' && '-' !in s[r.value + 1..]
  {
    if s == "" then None
    else if s[|s| - 1] == '-' then Some(|s| - 1)
    else
      var r := LastDash(s[..|s| - 1]);
      assert s == s[..|s| - 1] + [s[|s| - 1]];
      assert r.Some? ==> s[r.value + 1..] == s[..|s| - 1][r.value + 1..] + [s[|s| - 1]];
      r
  }

  predicate StatefulSetName(prefix: string) {
    prefix != "" && prefix[|prefix| - 1] != '-'
  }

  function PodOrdinal(name: string): Option<int> {
    var i := LastDash(name);
    if i.None? then None else OrdinalFrom(name[..i.value], name[i.value + 1..])
  }

  /** The ordinal, given what stands before and after the last dash. */
  function OrdinalFrom(prefix: string, tail: string): Option<int> {
    if !StatefulSetName(prefix) then None
    else
      var n := ParseInt32(tail, 10);
      if n.None? || n.value < 0 || FormatInt(n.value) != tail then None else n
  }

  lemma NoneAfter(s: string, p: nat)
    requires p < |s| && '-' !in s[p + 1..]
    ensures forall k :: p < k < |s| ==> s[k] != '-'
  {
    forall k | p < k < |s| ensures s[k] != '-' { assert s[k] == s[p + 1..][k - p - 1]; }
  }

  lemma LastDashIs(prefix: string, tail: string)
    requires '-' !in tail
    ensures LastDash(prefix + "-" + tail) == Some(|prefix|)
  {
    var s := prefix + "-" + tail;
    assert s[|prefix|] == '-' && s[|prefix| + 1..] == tail;
    assert s[|prefix|] in s;
    NoneAfter(s, LastDash(s).value);
    NoneAfter(s, |prefix|);
  }

  lemma DecimalParses(k: nat)
    requires k <= MAX_INT32
    ensures ParseInt32(Decimal(k), 10) == Some(k) && FormatInt(k) == Decimal(k) && '-' !in Decimal(k)
  {
    DecimalValue(k);
    DigitsAvoid(Decimal(k), 10, '-');
    DigitsAvoid(Decimal(k), 10, '+');
    assert Decimal(k)[0] in Decimal(k);
  }

  /** The name is a prefix that could name a StatefulSet, a dash, and k in decimal. */
  predicate NameOf(name: string, prefix: string, k: int) {
    && 0 <= k <= MAX_INT32 && prefix != "" && prefix[|prefix| - 1] != '-'
    && name == prefix + "-" + Decimal(k)
  }

  lemma NameHasOrdinal(name: string, prefix: string, k: int)
    requires NameOf(name, prefix, k)
    ensures PodOrdinal(name) == Some(k)
  {
    DecimalFromParts(prefix, k);
    LastDashIs(prefix, Decimal(k));
    Halves(prefix, Decimal(k));
  }

  lemma DecimalFromParts(prefix: string, k: nat)
    requires k <= MAX_INT32 && prefix != "" && prefix[|prefix| - 1] != '-'
    ensures OrdinalFrom(prefix, Decimal(k)) == Some(k) && '-' !in Decimal(k)
  {
    DecimalParses(k);
  }

  lemma Halves(a: string, b: string)
    ensures var s := a + "-" + b; s[..|a|] == a && s[|a| + 1..] == b
  {
  }

  lemma OrdinalHasName(name: string, k: int) returns (prefix: string)
    requires PodOrdinal(name) == Some(k)
    ensures NameOf(name, prefix, k)
  {
    var i := OrdinalParts(name, k);
    prefix := name[..i];
    Rejoined(name, i);
  }

  lemma Rejoined(s: string, i: nat)
    requires i < |s| && s[i] == '-'
    ensures s == s[..i] + "-" + s[i + 1..]
  {
  }

  lemma OrdinalParts(name: string, k: int) returns (i: nat)
    requires PodOrdinal(name) == Some(k)
    ensures i < |name| && name[i] == '-' && StatefulSetName(name[..i])
    ensures 0 <= k <= MAX_INT32 && name[i + 1..] == Decimal(k)
  {
    i := LastDash(name).value;
    ParsedFits(name[i + 1..]);
  }

  lemma ParsedFits(tail: string)
    ensures ParseInt32(tail, 10).Some? ==> ParseInt32(tail, 10).value <= MAX_INT32
  {
  }

  /** A name has ordinal k exactly when it is a StatefulSet name, a dash and the
      canonical decimal of k. */
  lemma OrdinalIsCanonical(name: string, k: int)
    ensures PodOrdinal(name) == Some(k) <==> exists prefix :: NameOf(name, prefix, k)
  {
    if PodOrdinal(name) == Some(k) { var prefix := OrdinalHasName(name, k); }
    if prefix :| NameOf(name, prefix, k) { NameHasOrdinal(name, prefix, k); }
  }

  /** So two names of one StatefulSet with one ordinal are the same name. */
  lemma OrdinalTellsPodsApart(prefix: string, i: nat, j: nat)
    requires prefix != "" && prefix[|prefix| - 1] != '-' && i <= MAX_INT32 && j <= MAX_INT32
    ensures PodOrdinal(prefix + "-" + Decimal(i)) == PodOrdinal(prefix + "-" + Decimal(j)) <==> i == j
  {
    NameHasOrdinal(prefix + "-" + Decimal(i), prefix, i);
    NameHasOrdinal(prefix + "-" + Decimal(j), prefix, j);
  }

  // ---- A pod list ------------------------------------------------------------

  /** A listed pod; the Multus address is what its network status yields. */
  datatype Pod = Pod(name: string, running: bool, podIp: string, multusIp: string)

  datatype Provider = Provider(ordinal: int, address: string)

  function Address(pod: Pod, podRouted: bool): string {
    if podRouted then pod.podIp else pod.multusIp
  }

  predicate Offers(pod: Pod, podRouted: bool) {
    pod.running && Address(pod, podRouted) != ""
  }

  /** The middle of the module does not depend on how a name yields an ordinal. */
  type Namer = string -> Option<int>

  function ProviderOf(ord: Namer, pod: Pod, podRouted: bool): Option<Provider> {
    if !Offers(pod, podRouted) || ord(pod.name).None? then None
    else Some(Provider(ord(pod.name).value, Address(pod, podRouted)))
  }

  function ProviderIn(ord: Namer, podRouted: bool): Pod -> Option<Provider> {
    pod => ProviderOf(ord, pod, podRouted)
  }

  function OrdinalIn(ord: Namer, podRouted: bool): Pod -> Option<int> {
    (pod: Pod) => if Offers(pod, podRouted) then ord(pod.name) else None
  }

  /** Every offering pod has an ordinal, and no two the same. */
  ghost predicate Identified(ord: Namer, pods: seq<Pod>, podRouted: bool) {
    && (forall i :: 0 <= i < |pods| && Offers(pods[i], podRouted) ==> ord(pods[i].name).Some?)
    && forall i, j :: 0 <= i < j < |pods| && Offers(pods[i], podRouted) && Offers(pods[j], podRouted) ==>
        ord(pods[i].name) != ord(pods[j].name)
  }

  function Ordinal(): Provider -> int {
    (p: Provider) => p.ordinal
  }

  /** None is a refusal: no providers at all. */
  ghost function SortedProviders(ord: Namer, pods: seq<Pod>, podRouted: bool): Option<seq<Provider>> {
    if Identified(ord, pods, podRouted) then Some(StableSort(Pick(ProviderIn(ord, podRouted), pods), Ordinal())) else None
  }

  ghost function ProvidersOf(pods: seq<Pod>, podRouted: bool): Option<seq<Provider>> {
    SortedProviders(PodOrdinal, pods, podRouted)
  }

  // ---- The loop --------------------------------------------------------------

  /** What the loop has gathered, with the ordinals it has seen; None once refused. */
  function Gathered(ord: Namer, pods: seq<Pod>, podRouted: bool): Option<(seq<Provider>, set<int>)> {
    if pods == [] then Some(([], {}))
    else
      var was, pod := Gathered(ord, pods[..|pods| - 1], podRouted), pods[|pods| - 1];
      if was.None? || !Offers(pod, podRouted) then was
      else
        var k := ord(pod.name);
        if k.None? || k.value in was.value.1 then None
        else Some((was.value.0 + [Provider(k.value, Address(pod, podRouted))], was.value.1 + {k.value}))
  }

  /** A refusal is final. */
  lemma {:induction false} RefusalSticks(ord: Namer, pods: seq<Pod>, podRouted: bool, i: nat)
    requires i <= |pods| && Gathered(ord, pods[..i], podRouted).None?
    ensures Gathered(ord, pods, podRouted).None?
    decreases |pods| - i
  {
    if i < |pods| {
      assert pods[..i + 1][..i] == pods[..i];
      RefusalSticks(ord, pods, podRouted, i + 1);
    } else {
      assert pods[..i] == pods;
    }
  }

  lemma {:induction false} GatheredMeans(ord: Namer, pods: seq<Pod>, podRouted: bool)
    ensures
      var g := Gathered(ord, pods, podRouted);
      && (g.Some? <==> Identified(ord, pods, podRouted))
      && (g.Some? ==> g.value.0 == Pick(ProviderIn(ord, podRouted), pods) && Claimed(ord, pods, podRouted, g.value.1))
  {
    if pods != [] {
      var front, pod := pods[..|pods| - 1], pods[|pods| - 1];
      assert pods == front + [pod];
      GatheredMeans(ord, front, podRouted);
      PickSnoc(ProviderIn(ord, podRouted), front, pod);
      IdentifiedSnoc(ord, front, pod, podRouted);
      if Gathered(ord, front, podRouted).Some? { ClaimedSnoc(ord, front, pod, podRouted, Gathered(ord, front, podRouted).value.1); }
    }
  }

  /** The ordinals the offering pods claim. */
  ghost predicate Claimed(ord: Namer, pods: seq<Pod>, podRouted: bool, seen: set<int>) {
    forall k :: k in seen <==> Claims(ord, pods, podRouted, k)
  }

  ghost predicate Claims(ord: Namer, pods: seq<Pod>, podRouted: bool, k: int) {
    exists i :: 0 <= i < |pods| && Offers(pods[i], podRouted) && ord(pods[i].name) == Some(k)
  }

  lemma ClaimsSnoc(ord: Namer, pods: seq<Pod>, pod: Pod, podRouted: bool, k: int)
    ensures Claims(ord, pods + [pod], podRouted, k) <==>
      Claims(ord, pods, podRouted, k) || (Offers(pod, podRouted) && ord(pod.name) == Some(k))
  {
    var all := pods + [pod];
    assert all[|pods|] == pod;
    if i :| 0 <= i < |pods| && Offers(pods[i], podRouted) && ord(pods[i].name) == Some(k) {
      assert all[i] == pods[i];
    }
  }

  lemma ClaimedSnoc(ord: Namer, pods: seq<Pod>, pod: Pod, podRouted: bool, seen: set<int>)
    requires Claimed(ord, pods, podRouted, seen)
    ensures !Offers(pod, podRouted) ==> Claimed(ord, pods + [pod], podRouted, seen)
    ensures Offers(pod, podRouted) && ord(pod.name).Some? ==> Claimed(ord, pods + [pod], podRouted, seen + {ord(pod.name).value})
  {
    forall k ensures Claims(ord, pods + [pod], podRouted, k) <==>
      Claims(ord, pods, podRouted, k) || (Offers(pod, podRouted) && ord(pod.name) == Some(k))
    {
      ClaimsSnoc(ord, pods, pod, podRouted, k);
    }
  }

  lemma IdentifiedSnoc(ord: Namer, pods: seq<Pod>, pod: Pod, podRouted: bool)
    ensures Identified(ord, pods + [pod], podRouted) <==>
      && Identified(ord, pods, podRouted)
      && (Offers(pod, podRouted) ==> ord(pod.name).Some? && !Claims(ord, pods, podRouted, ord(pod.name).value))
  {
    var all := pods + [pod];
    assert all[|pods|] == pod && forall i :: 0 <= i < |pods| ==> all[i] == pods[i];
    if Identified(ord, all, podRouted) {
      assert Identified(ord, pods, podRouted);
      forall i | 0 <= i < |pods| && Offers(pod, podRouted) && Offers(pods[i], podRouted) ensures ord(pods[i].name) != ord(pod.name) {
        assert ord(all[i].name) != ord(all[|pods|].name);
      }
    }
  }

  method ProvidersFromPods(pods: seq<Pod>, podRouted: bool) returns (r: Option<seq<Provider>>)
    ensures r == ProvidersOf(pods, podRouted)
  {
    r := Gather(PodOrdinal, pods, podRouted);
  }

  method Gather(ord: Namer, pods: seq<Pod>, podRouted: bool) returns (r: Option<seq<Provider>>)
    ensures r == SortedProviders(ord, pods, podRouted)
  {
    var providers: seq<Provider>, seen: set<int> := [], {};
    for i := 0 to |pods|
      invariant Gathered(ord, pods[..i], podRouted) == Some((providers, seen))
    {
      var pod := pods[i];
      assert pods[..i + 1][..i] == pods[..i];
      if !pod.running { continue; }
      var addr := Address(pod, podRouted);
      if addr == "" { continue; }
      var ordinal := ord(pod.name);
      if ordinal.None? || ordinal.value in seen {
        RefusalSticks(ord, pods, podRouted, i + 1);
        GatheredMeans(ord, pods, podRouted);
        return None;
      }
      seen := seen + {ordinal.value};
      providers := providers + [Provider(ordinal.value, addr)];
    }
    assert pods[..|pods|] == pods;
    GatheredMeans(ord, pods, podRouted);
    return Some(StableSort(providers, Ordinal()));
  }

  // ---- What the answer means -------------------------------------------------

  predicate StrictlyAscending(ps: seq<Provider>) {
    forall i, j :: 0 <= i < j < |ps| ==> ps[i].ordinal < ps[j].ordinal
  }

  predicate OrdinalsDiffer(ps: seq<Provider>) {
    forall a, b :: 0 <= a < b < |ps| ==> ps[a].ordinal != ps[b].ordinal
  }

  lemma {:induction false} GatheredOrdinalsDiffer(ord: Namer, pods: seq<Pod>, podRouted: bool)
    requires Identified(ord, pods, podRouted)
    ensures OrdinalsDiffer(Pick(ProviderIn(ord, podRouted), pods))
  {
    if pods != [] {
      var front, pod := pods[..|pods| - 1], pods[|pods| - 1];
      assert pods == front + [pod];
      IdentifiedSnoc(ord, front, pod, podRouted);
      GatheredOrdinalsDiffer(ord, front, podRouted);
      PickSnoc(ProviderIn(ord, podRouted), front, pod);
      var ps := Pick(ProviderIn(ord, podRouted), front);
      forall a | 0 <= a < |ps| ensures Claims(ord, front, podRouted, ps[a].ordinal) { ProviderClaims(ord, front, podRouted, ps[a]); }
    }
  }

  lemma ProviderClaims(ord: Namer, pods: seq<Pod>, podRouted: bool, p: Provider)
    requires p in Pick(ProviderIn(ord, podRouted), pods)
    ensures Claims(ord, pods, podRouted, p.ordinal)
  {
    PickHas(ProviderIn(ord, podRouted), pods, p);
    var i :| 0 <= i < |pods| && ProviderIn(ord, podRouted)(pods[i]) == Some(p);
    assert Offers(pods[i], podRouted) && ord(pods[i].name) == Some(p.ordinal);
  }

  /** Different keys before sorting, strictly ascending keys after. */
  lemma SortedStrictly(s: seq<Provider>)
    requires OrdinalsDiffer(s)
    ensures StrictlyAscending(StableSort(s, Ordinal()))
  {
    StableSortKeeps(s, Ordinal(), 0);
    AscendsStrictly(s, StableSort(s, Ordinal()));
  }

  lemma AscendsStrictly(s: seq<Provider>, r: seq<Provider>)
    requires OrdinalsDiffer(s) && multiset(s) == multiset(r) && Ascending(r, Ordinal())
    ensures StrictlyAscending(r)
  {
    DistinctByMultiset(s, r);
    SameElements(s, r);
    forall i, j | 0 <= i < j < |r| ensures r[i].ordinal < r[j].ordinal {
      assert Ordinal()(r[i]) <= Ordinal()(r[j]);
      assert r[i] in s && r[j] in s;
      var a :| 0 <= a < |s| && s[a] == r[i];
      var b :| 0 <= b < |s| && s[b] == r[j];
      OneOrdinalOnePlace(s, a, b);
    }
  }

  lemma OneOrdinalOnePlace(s: seq<Provider>, a: nat, b: nat)
    requires OrdinalsDiffer(s) && a < |s| && b < |s|
    ensures s[a].ordinal == s[b].ordinal <==> a == b
  {
  }

  /** The answer ascends strictly and is exactly the running, addressed pods. */
  lemma ProvidersAreExact(pods: seq<Pod>, podRouted: bool, p: Provider)
    requires ProvidersOf(pods, podRouted).Some?
    ensures StrictlyAscending(ProvidersOf(pods, podRouted).value)
    ensures p in ProvidersOf(pods, podRouted).value <==>
      exists i :: 0 <= i < |pods| && IsProvider(PodOrdinal, pods[i], podRouted, p)
  {
    GatheredAreExact(PodOrdinal, pods, podRouted, p);
  }

  /** The pod runs under a name of that ordinal, and the address is its pod IP when
      peers are pod-routed and its Multus IP when not. */
  predicate IsProvider(ord: Namer, pod: Pod, podRouted: bool, p: Provider) {
    && pod.running && ord(pod.name) == Some(p.ordinal)
    && p.address != "" && p.address == if podRouted then pod.podIp else pod.multusIp
  }

  lemma GatheredAreExact(ord: Namer, pods: seq<Pod>, podRouted: bool, p: Provider)
    requires Identified(ord, pods, podRouted)
    ensures
      var ps := SortedProviders(ord, pods, podRouted).value;
      StrictlyAscending(ps) && (p in ps <==> exists i :: 0 <= i < |pods| && IsProvider(ord, pods[i], podRouted, p))
  {
    var found := Pick(ProviderIn(ord, podRouted), pods);
    GatheredOrdinalsDiffer(ord, pods, podRouted);
    SortedStrictly(found);
    SameElements(found, StableSort(found, Ordinal()));
    FoundMeans(ord, pods, podRouted, p);
  }

  /** The list is refused exactly when a running, addressed pod has no ordinal, or two
      have the same. */
  lemma RefusedExactlyWhen(pods: seq<Pod>, podRouted: bool)
    ensures ProvidersOf(pods, podRouted).None? <==>
      || (exists i :: 0 <= i < |pods| && Stands(pods[i], podRouted) && PodOrdinal(pods[i].name).None?)
      || exists i, j :: 0 <= i < j < |pods| && Stands(pods[i], podRouted) && Stands(pods[j], podRouted)
           && PodOrdinal(pods[i].name) == PodOrdinal(pods[j].name)
  {
    RefusalMeans(PodOrdinal, pods, podRouted);
  }

  /** The pod is running and has the address that counts. */
  predicate Stands(pod: Pod, podRouted: bool) {
    pod.running && if podRouted then pod.podIp != "" else pod.multusIp != ""
  }

  lemma RefusalMeans(ord: Namer, pods: seq<Pod>, podRouted: bool)
    ensures SortedProviders(ord, pods, podRouted).None? <==>
      || (exists i :: 0 <= i < |pods| && Stands(pods[i], podRouted) && ord(pods[i].name).None?)
      || exists i, j :: 0 <= i < j < |pods| && Stands(pods[i], podRouted) && Stands(pods[j], podRouted)
           && ord(pods[i].name) == ord(pods[j].name)
  {
    assert forall i :: 0 <= i < |pods| ==> (Stands(pods[i], podRouted) <==> Offers(pods[i], podRouted));
  }

  lemma FoundMeans(ord: Namer, pods: seq<Pod>, podRouted: bool, p: Provider)
    ensures p in Pick(ProviderIn(ord, podRouted), pods) <==> exists i :: 0 <= i < |pods| && IsProvider(ord, pods[i], podRouted, p)
  {
    PickHas(ProviderIn(ord, podRouted), pods, p);
    if p in Pick(ProviderIn(ord, podRouted), pods) {
      var i :| 0 <= i < |pods| && ProviderIn(ord, podRouted)(pods[i]) == Some(p);
      assert IsProvider(ord, pods[i], podRouted, p);
    }
    if i :| 0 <= i < |pods| && IsProvider(ord, pods[i], podRouted, p) {
      assert ProviderIn(ord, podRouted)(pods[i]) == Some(p);
    }
  }

  /** Strictly ascending lists of the same providers are one list, so it does not
      matter that sort.Slice promises no stability. */
  lemma {:induction false} AscendingIsUnique(a: seq<Provider>, b: seq<Provider>)
    requires StrictlyAscending(a) && StrictlyAscending(b) && multiset(a) == multiset(b)
    ensures a == b
  {
    if a == [] {
      assert |b| == |multiset(b)|;
    } else {
      LeastFirst(a, b);
      LeastFirst(b, a);
      TailMultiset(a);
      TailMultiset(b);
      FirstIsDetermined(a, b);
      AscendingIsUnique(a[1..], b[1..]);
      assert a == [a[0]] + a[1..] && b == [b[0]] + b[1..];
    }
  }

  lemma LeastFirst(a: seq<Provider>, b: seq<Provider>)
    requires StrictlyAscending(a) && multiset(a) == multiset(b) && a != []
    ensures b != [] && a[0].ordinal <= b[0].ordinal
  {
    assert a[0] in multiset(b) && |b| == |multiset(b)|;
    assert b[0] in multiset(a);
    var j :| 0 <= j < |a| && a[j] == b[0];
  }

  lemma FirstIsDetermined(a: seq<Provider>, b: seq<Provider>)
    requires StrictlyAscending(a) && multiset(a) == multiset(b) && a != [] && b != [] && a[0].ordinal == b[0].ordinal
    ensures a[0] == b[0]
  {
    assert b[0] in multiset(a);
    var j :| 0 <= j < |a| && a[j] == b[0];
    assert OrdinalsDiffer(a);
    OneOrdinalOnePlace(a, 0, j);
  }

  // ---- The order of the list does not matter ---------------------------------

  lemma {:induction false} IdentifiedByOrdinals(ord: Namer, pods: seq<Pod>, podRouted: bool)
    ensures Identified(ord, pods, podRouted) <==>
      && (forall pod :: pod in pods && Offers(pod, podRouted) ==> ord(pod.name).Some?)
      && Distinct(Pick(OrdinalIn(ord, podRouted), pods))
  {
    if pods != [] {
      var front, pod := pods[..|pods| - 1], pods[|pods| - 1];
      assert pods == front + [pod];
      IdentifiedSnoc(ord, front, pod, podRouted);
      IdentifiedByOrdinals(ord, front, podRouted);
      PickSnoc(OrdinalIn(ord, podRouted), front, pod);
      var k := OrdinalIn(ord, podRouted)(pod);
      if k.Some? {
        OrdinalsAreClaims(ord, front, podRouted, k.value);
        DistinctSnoc(Pick(OrdinalIn(ord, podRouted), front), k.value);
      }
    }
  }

  lemma DistinctSnoc<T>(s: seq<T>, x: T)
    ensures Distinct(s + [x]) <==> Distinct(s) && x !in s
  {
    var all := s + [x];
    assert all[|s|] == x && forall i :: 0 <= i < |s| ==> all[i] == s[i];
    if Distinct(all) {
      forall i | 0 <= i < |s| ensures s[i] != x { assert all[i] != all[|s|]; }
      forall i, j | 0 <= i < j < |s| ensures s[i] != s[j] { assert all[i] != all[j]; }
    }
  }

  lemma OrdinalsAreClaims(ord: Namer, pods: seq<Pod>, podRouted: bool, k: int)
    ensures k in Pick(OrdinalIn(ord, podRouted), pods) <==> Claims(ord, pods, podRouted, k)
  {
    PickHas(OrdinalIn(ord, podRouted), pods, k);
    if k in Pick(OrdinalIn(ord, podRouted), pods) {
      var i :| 0 <= i < |pods| && OrdinalIn(ord, podRouted)(pods[i]) == Some(k);
      assert Offers(pods[i], podRouted) && ord(pods[i].name) == Some(k);
    }
    if i :| 0 <= i < |pods| && Offers(pods[i], podRouted) && ord(pods[i].name) == Some(k) {
      assert OrdinalIn(ord, podRouted)(pods[i]) == Some(k);
    }
  }

  lemma IdentifiedPermutes(ord: Namer, a: seq<Pod>, b: seq<Pod>, podRouted: bool)
    requires multiset(a) == multiset(b) && Identified(ord, a, podRouted)
    ensures Identified(ord, b, podRouted)
  {
    SameElements(a, b);
    IdentifiedByOrdinals(ord, a, podRouted);
    IdentifiedByOrdinals(ord, b, podRouted);
    PickPermutes(OrdinalIn(ord, podRouted), a, b);
    DistinctByMultiset(Pick(OrdinalIn(ord, podRouted), a), Pick(OrdinalIn(ord, podRouted), b));
  }

  /** However the pods are listed, the answer is the same list or the same refusal. */
  lemma ProvidersAreOrderFree(a: seq<Pod>, b: seq<Pod>, podRouted: bool)
    requires multiset(a) == multiset(b)
    ensures ProvidersOf(a, podRouted) == ProvidersOf(b, podRouted)
  {
    GatheredIsOrderFree(PodOrdinal, a, b, podRouted);
  }

  lemma GatheredIsOrderFree(ord: Namer, a: seq<Pod>, b: seq<Pod>, podRouted: bool)
    requires multiset(a) == multiset(b)
    ensures SortedProviders(ord, a, podRouted) == SortedProviders(ord, b, podRouted)
  {
    if Identified(ord, a, podRouted) { IdentifiedPermutes(ord, a, b, podRouted); }
    if Identified(ord, b, podRouted) {
      IdentifiedPermutes(ord, b, a, podRouted);
      var x, y := Pick(ProviderIn(ord, podRouted), a), Pick(ProviderIn(ord, podRouted), b);
      PickPermutes(ProviderIn(ord, podRouted), a, b);
      GatheredOrdinalsDiffer(ord, a, podRouted);
      GatheredOrdinalsDiffer(ord, b, podRouted);
      SortedStrictly(x);
      SortedStrictly(y);
      AscendingIsUnique(StableSort(x, Ordinal()), StableSort(y, Ordinal()));
    }
  }
}
