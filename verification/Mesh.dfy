/** Wiring derived from a mesh (mesh_derive.go, mesh_resolve.go), the serverIDs it
    hands out, and the one place they are read back (seed_withhold.go). */
module Mesh {
  import opened Prelude
  import opened Text
  import opened Sorting
  import opened RidCoord
  import opened RidJudges

  const STRIDE: int := 16
  const MAX_SITE_INDEX: int := 4094 / STRIDE
  const MAX_PODS_PER_SITE: int := STRIDE - 1

  datatype Site = Site(name: string, serverIdIndex: Option<int>)

  /** The mesh as the derivation reads it; an axis of 0 is unset. */
  datatype MeshSpec = MeshSpec(sites: seq<Site>, ridLayout: Option<(int, int)>, hasNetwork: bool)

  /** The part of a cluster's spec the derivation reads. */
  datatype ClusterSpec = ClusterSpec(
    meshRef: string, selector: seq<string>, serverIdBase: int,
    declaresPeers: bool, declaresNetwork: bool, replicasPerPeer: Option<int>)

  datatype MeshError =
    | SitesMalformed | SiteIdentityMissing | SiteUnknown | SiteNotSelected
    | ServerIdCeiling | SiteIndexPastLayout | PodsPerSitePastStride
    | SpecConflicts | MeshUnreadable

  type Outcome<T> = Result<T, MeshError>

  datatype Wiring = Wiring(serverIdBase: int, peers: seq<Peer>)

  // ---- The site list ---------------------------------------------------------

  /** Names non-empty and distinct after trimming; indices declared, non-negative
      and distinct. */
  ghost predicate WellFormed(sites: seq<Site>) {
    && sites != []
    && (forall i :: 0 <= i < |sites| ==> Trim(sites[i].name) != "" && IndexDeclared(sites[i]))
    && (forall i, j :: 0 <= i < j < |sites| ==> Trim(sites[i].name) != Trim(sites[j].name))
    && (forall i, j :: 0 <= i < j < |sites| ==> sites[i].serverIdIndex != sites[j].serverIdIndex)
  }

  predicate IndexDeclared(s: Site) {
    s.serverIdIndex.Some? && s.serverIdIndex.value >= 0
  }

  /** Where the first site of that (trimmed) name stands. */
  function Find(sites: seq<Site>, want: string): (r: Option<nat>)
    ensures r.Some? ==> r.value < |sites| && Trim(sites[r.value].name) == want
    ensures r.None? ==> forall i :: 0 <= i < |sites| ==> Trim(sites[i].name) != want
  {
    if sites == [] then None
    else if Trim(sites[0].name) == want then Some(0)
    else
      var r := Find(sites[1..], want);
      if r.Some? then Some(r.value + 1) else None
  }

  /** The position of a site in a well-formed list, or why there is none. */
  ghost function SitePosition(sites: seq<Site>, name: string): (r: Outcome<nat>)
    ensures r.Ok? ==> r.value < |sites|
  {
    if !WellFormed(sites) then Err(SitesMalformed)
    else if Trim(name) == "" then Err(SiteIdentityMissing)
    else
      var r := Find(sites, Trim(name));
      if r.Some? then Ok(r.value) else Err(SiteUnknown)
  }

  method MeshSiteIndex(sites: seq<Site>, name: string) returns (r: Outcome<nat>)
    ensures r == SitePosition(sites, name)
  {
    if sites == [] { return Err(SitesMalformed); }
    var seen: set<string> := {};
    var seenIdx: map<int, string> := map[];
    var idx := -1;
    var want := Trim(name);
    // where each name and each index was seen
    ghost var nameAt: map<string, int>, indexAt: map<int, int> := map[], map[];
    for i := 0 to |sites|
      invariant seen == nameAt.Keys && seenIdx.Keys == indexAt.Keys
      invariant Registered(sites, i, nameAt, indexAt)
      invariant if idx < 0 then want !in nameAt else want in nameAt && nameAt[want] == idx
    {
      var n := Trim(sites[i].name);
      if n == "" || n in seen || !IndexDeclared(sites[i]) || sites[i].serverIdIndex.value in seenIdx {
        BadSite(sites, i, nameAt, indexAt);
        return Err(SitesMalformed);
      }
      var si := sites[i].serverIdIndex.value;
      seen := seen + {n};
      seenIdx := seenIdx[si := n];
      if n == want && idx < 0 {
        idx := i;
      }
      GoodSite(sites, i, nameAt, indexAt);
      nameAt, indexAt := nameAt[n := i], indexAt[si := i];
    }
    AllGood(sites, nameAt, indexAt, want, if want in nameAt then Some(nameAt[want]) else None);
    if want == "" { return Err(SiteIdentityMissing); }
    if idx < 0 { return Err(SiteUnknown); }
    return Ok(idx);
  }

  predicate SiteAt(s: Site, k: int, nameAt: map<string, int>, indexAt: map<int, int>) {
    && Trim(s.name) != "" && Trim(s.name) in nameAt && nameAt[Trim(s.name)] == k
    && IndexDeclared(s) && s.serverIdIndex.value in indexAt && indexAt[s.serverIdIndex.value] == k
  }

  /** The first n sites are sound, and the tables say where each was seen. */
  ghost predicate Registered(sites: seq<Site>, n: int, nameAt: map<string, int>, indexAt: map<int, int>)
    requires 0 <= n <= |sites|
  {
    && (forall k :: 0 <= k < n ==> SiteAt(sites[k], k, nameAt, indexAt))
    && (forall x :: x in nameAt ==> 0 <= nameAt[x] < n && Trim(sites[nameAt[x]].name) == x)
    && (forall x :: x in indexAt ==> 0 <= indexAt[x] < n && sites[indexAt[x]].serverIdIndex == Some(x))
  }

  predicate Sound(s: Site, nameAt: map<string, int>, indexAt: map<int, int>) {
    && Trim(s.name) != "" && Trim(s.name) !in nameAt
    && IndexDeclared(s) && s.serverIdIndex.value !in indexAt
  }

  lemma BadSite(sites: seq<Site>, n: int, nameAt: map<string, int>, indexAt: map<int, int>)
    requires 0 <= n < |sites| && Registered(sites, n, nameAt, indexAt) && !Sound(sites[n], nameAt, indexAt)
    ensures !WellFormed(sites)
  {
    var s := sites[n];
    if Trim(s.name) in nameAt {
      var k := nameAt[Trim(s.name)];
      assert 0 <= k < n && Trim(sites[k].name) == Trim(sites[n].name);
    } else if s.serverIdIndex.Some? && s.serverIdIndex.value in indexAt {
      var x := s.serverIdIndex.value;
      assert x in indexAt;
      assert 0 <= indexAt[x] < n;
      assert sites[indexAt[x]].serverIdIndex == sites[n].serverIdIndex;
    }
  }

  lemma GoodSite(sites: seq<Site>, n: int, nameAt: map<string, int>, indexAt: map<int, int>)
    requires 0 <= n < |sites| && Registered(sites, n, nameAt, indexAt) && Sound(sites[n], nameAt, indexAt)
    ensures Registered(sites, n + 1, nameAt[Trim(sites[n].name) := n], indexAt[sites[n].serverIdIndex.value := n])
  {
  }

  lemma AllGood(sites: seq<Site>, nameAt: map<string, int>, indexAt: map<int, int>, want: string, at: Option<int>)
    requires sites != [] && Registered(sites, |sites|, nameAt, indexAt)
    requires at == if want in nameAt then Some(nameAt[want]) else None
    ensures WellFormed(sites) && Find(sites, want) == at
  {
    var r := Find(sites, want);
    if r.Some? { assert SiteAt(sites[r.value], r.value, nameAt, indexAt); }
  }

  // ---- What a site gets ------------------------------------------------------

  ghost function ServerIdBaseForSite(sites: seq<Site>, identity: string): Outcome<int> {
    var pos := SitePosition(sites, identity);
    if pos.Err? then Err(pos.error)
    else
      var idx := sites[pos.value].serverIdIndex.value;
      if idx > MAX_SITE_INDEX then Err(ServerIdCeiling) else Ok(idx * STRIDE)
  }

  function ValidateSiteIndicesAgainstLayout(sites: seq<Site>, layout: Layout): Option<MeshError> {
    if sites == [] then None
    else if sites[0].serverIdIndex.Some? && sites[0].serverIdIndex.value > MAX_SITE_INDEX then Some(ServerIdCeiling)
    else if sites[0].serverIdIndex.Some? && sites[0].serverIdIndex.value >= layout.maxSites then Some(SiteIndexPastLayout)
    else ValidateSiteIndicesAgainstLayout(sites[1..], layout)
  }

  function ValidateLayoutAgainstServerIdStride(layout: Layout): Option<MeshError> {
    if layout.podsPerSite > MAX_PODS_PER_SITE then Some(PodsPerSitePastStride) else None
  }

  /** The declared layout, defaulted axis by axis. */
  function MeshRidLayout(mesh: MeshSpec): Layout {
    if mesh.ridLayout.None? then DEFAULT_LAYOUT
    else
      var (p, m) := mesh.ridLayout.value;
      Layout(if p != 0 then p else DEFAULT_LAYOUT.podsPerSite, if m != 0 then m else DEFAULT_LAYOUT.maxSites)
  }

  /** The layout in force, axis by axis: what was declared, or 8 pods and 12 sites. */
  lemma LayoutIsDeclared(mesh: MeshSpec)
    ensures
      var l := MeshRidLayout(mesh);
      && l.podsPerSite == (if mesh.ridLayout.None? || mesh.ridLayout.value.0 == 0 then 8 else mesh.ridLayout.value.0)
      && l.maxSites == (if mesh.ridLayout.None? || mesh.ridLayout.value.1 == 0 then 12 else mesh.ridLayout.value.1)
  {
  }

  // ---- The peers of a site ---------------------------------------------------

  predicate Selected(selector: seq<string>, s: Site) {
    selector == [] || exists k :: 0 <= k < |selector| && Trim(selector[k]) == Trim(s.name)
  }

  /** Every other site the cluster spans. */
  predicate Peered(selector: seq<string>, identity: string, s: Site) {
    Trim(s.name) != Trim(identity) && Selected(selector, s)
  }

  function PeerOf(s: Site, rpp: Option<int>): Peer {
    Peer(Trim(s.name), s.serverIdIndex, rpp)
  }

  function PeersOf(sites: seq<Site>, selector: seq<string>, identity: string, rpp: Option<int>): (r: seq<Peer>)
    ensures forall p :: p in r ==> exists i :: 0 <= i < |sites| && Peered(selector, identity, sites[i]) && p == PeerOf(sites[i], rpp)
  {
    if sites == [] then []
    else
      var rest := PeersOf(sites[..|sites| - 1], selector, identity, rpp);
      var s := sites[|sites| - 1];
      if Peered(selector, identity, s) then rest + [PeerOf(s, rpp)] else rest
  }

  lemma {:induction false} PeersOfHas(sites: seq<Site>, selector: seq<string>, identity: string, rpp: Option<int>, i: int)
    requires 0 <= i < |sites| && Peered(selector, identity, sites[i])
    ensures PeerOf(sites[i], rpp) in PeersOf(sites, selector, identity, rpp)
  {
    if i < |sites| - 1 { PeersOfHas(sites[..|sites| - 1], selector, identity, rpp, i); }
  }

  /** The first name of the selector the mesh does not have. */
  ghost function SelectorFault(sites: seq<Site>, selector: seq<string>): Option<MeshError> {
    if selector == [] then None
    else
      var pos := SitePosition(sites, selector[0]);
      if pos.Err? then Some(pos.error) else SelectorFault(sites, selector[1..])
  }

  ghost function ExternalPeers(sites: seq<Site>, selector: seq<string>, identity: string, rpp: Option<int>): Outcome<seq<Peer>> {
    var self := SitePosition(sites, identity);
    if self.Err? then Err(self.error)
    else if SelectorFault(sites, selector).Some? then Err(SelectorFault(sites, selector).value)
    else if !Selected(selector, sites[self.value]) then Err(SiteNotSelected)
    else Ok(PeersOf(sites, selector, identity, rpp))
  }

  /** The positions the selector names. */
  ghost predicate Positions(sites: seq<Site>, selector: seq<string>, chosen: set<nat>) {
    forall i :: i in chosen <==> 0 <= i < |sites| && exists k :: 0 <= k < |selector| && Trim(selector[k]) == Trim(sites[i].name)
  }

  method ExternalPeersForSite(sites: seq<Site>, selector: seq<string>, identity: string, rpp: Option<int>)
    returns (r: Outcome<seq<Peer>>)
    ensures r == ExternalPeers(sites, selector, identity, rpp)
  {
    var self := MeshSiteIndex(sites, identity);
    if self.Err? { return Err(self.error); }
    var chosen := ResolveSelector(sites, selector);
    if chosen.Err? { return Err(chosen.error); }
    if selector != [] && self.value !in chosen.value { return Err(SiteNotSelected); }
    var peers := ListPeers(sites, selector, identity, rpp, self.value, chosen.value);
    return Ok(peers);
  }

  method ResolveSelector(sites: seq<Site>, selector: seq<string>) returns (r: Outcome<set<nat>>)
    ensures SelectorFault(sites, selector) == if r.Err? then Some(r.error) else None
    ensures r.Ok? ==> Positions(sites, selector, r.value)
  {
    var chosen: set<nat> := {};
    for k := 0 to |selector|
      invariant SelectorFault(sites, selector) == SelectorFault(sites, selector[k..])
      invariant Positions(sites, selector[..k], chosen)
    {
      var pos := MeshSiteIndex(sites, selector[k]);
      assert selector[k..][1..] == selector[k + 1..];
      if pos.Err? { return Err(pos.error); }
      NextPosition(sites, selector[..k], selector[k], chosen, pos.value);
      assert selector[..k + 1] == selector[..k] + [selector[k]];
      chosen := chosen + {pos.value};
    }
    assert selector[..|selector|] == selector;
    return Ok(chosen);
  }

  method ListPeers(sites: seq<Site>, selector: seq<string>, identity: string, rpp: Option<int>, self: nat, chosen: set<nat>)
    returns (peers: seq<Peer>)
    requires SitePosition(sites, identity) == Ok(self) && Positions(sites, selector, chosen)
    ensures peers == PeersOf(sites, selector, identity, rpp)
  {
    peers := [];
    for i := 0 to |sites|
      invariant peers == PeersOf(sites[..i], selector, identity, rpp)
    {
      assert sites[..i + 1][..i] == sites[..i];
      PeeredByPosition(sites, selector, identity, self, chosen, i);
      if i != self && (selector == [] || i in chosen) {
        peers := peers + [PeerOf(sites[i], rpp)];
      }
    }
    assert sites[..|sites|] == sites;
  }

  lemma PeeredByPosition(sites: seq<Site>, selector: seq<string>, identity: string, self: nat, chosen: set<nat>, i: nat)
    requires SitePosition(sites, identity) == Ok(self) && Positions(sites, selector, chosen) && i < |sites|
    ensures Peered(selector, identity, sites[i]) <==> i != self && (selector == [] || i in chosen)
  {
    assert Trim(sites[self].name) == Trim(identity);
    if i < self { assert Trim(sites[i].name) != Trim(sites[self].name); }
    if self < i { assert Trim(sites[self].name) != Trim(sites[i].name); }
  }

  lemma NextPosition(sites: seq<Site>, done: seq<string>, name: string, chosen: set<nat>, pos: nat)
    requires Positions(sites, done, chosen) && SitePosition(sites, name) == Ok(pos)
    ensures Positions(sites, done + [name], chosen + {pos})
  {
    var all := done + [name];
    assert all[|done|] == name && forall k :: 0 <= k < |done| ==> all[k] == done[k];
    forall i: nat | i < |sites|
      ensures i in chosen + {pos} <==> exists k :: 0 <= k < |all| && Trim(all[k]) == Trim(sites[i].name)
    {
      if i == pos { assert Trim(all[|done|]) == Trim(sites[i].name); }
      if i in chosen {
        var k :| 0 <= k < |done| && Trim(done[k]) == Trim(sites[i].name);
        assert Trim(all[k]) == Trim(sites[i].name);
      }
    }
  }

  // ---- The derivation --------------------------------------------------------

  /** Whether a typed base is a slot the mesh hands out; a site without an index,
      met first, spoils the answer. */
  function ServerIdBaseForSiteOfValue(sites: seq<Site>, value: int): bool {
    if sites == [] || sites[0].serverIdIndex.None? then false
    else sites[0].serverIdIndex.value * STRIDE == value || ServerIdBaseForSiteOfValue(sites[1..], value)
  }

  predicate SpecConflictsWith(mesh: MeshSpec, spec: ClusterSpec) {
    || spec.declaresPeers
    || (mesh.hasNetwork && spec.declaresNetwork)
    || (spec.serverIdBase != 0 && !ServerIdBaseForSiteOfValue(mesh.sites, spec.serverIdBase))
  }

  /** None is "no mesh was asked for". */
  ghost function DeriveClusterWiring(mesh: Option<MeshSpec>, spec: ClusterSpec, identity: string): Outcome<Option<Wiring>> {
    if spec.meshRef == "" then Ok(None)
    else if mesh.None? then Err(MeshUnreadable)
    else if SpecConflictsWith(mesh.value, spec) then Err(SpecConflicts)
    else
      var sites, layout := mesh.value.sites, MeshRidLayout(mesh.value);
      var past := ValidateSiteIndicesAgainstLayout(sites, layout);
      if past.Some? then Err(past.value)
      else if ValidateLayoutAgainstServerIdStride(layout).Some? then Err(PodsPerSitePastStride)
      else
        var base := ServerIdBaseForSite(sites, identity);
        if base.Err? then Err(base.error)
        else
          var peers := ExternalPeers(sites, spec.selector, identity, spec.replicasPerPeer);
          if peers.Err? then Err(peers.error) else Ok(Some(Wiring(base.value, peers.value)))
  }

  /** The wiring of a cluster at a site, where it was derived. */
  ghost predicate Wired(mesh: MeshSpec, spec: ClusterSpec, identity: string, w: Wiring) {
    DeriveClusterWiring(Some(mesh), spec, identity) == Ok(Some(w))
  }

  lemma {:induction false} IndicesFit(sites: seq<Site>, layout: Layout)
    ensures ValidateSiteIndicesAgainstLayout(sites, layout).None? <==>
      forall s :: s in sites && s.serverIdIndex.Some? ==>
        s.serverIdIndex.value <= MAX_SITE_INDEX && s.serverIdIndex.value < layout.maxSites
  {
    if sites != [] {
      IndicesFit(sites[1..], layout);
      assert sites == [sites[0]] + sites[1..];
      assert sites[0] in sites;
    }
  }

  /** What an accepted wiring rests on. */
  lemma WiredMeans(mesh: MeshSpec, spec: ClusterSpec, identity: string, w: Wiring) returns (self: nat)
    requires Wired(mesh, spec, identity, w)
    ensures
      var sites, layout := mesh.sites, MeshRidLayout(mesh);
      && WellFormed(sites) && self < |sites| && Trim(sites[self].name) == Trim(identity)
      && w.serverIdBase == sites[self].serverIdIndex.value * STRIDE
      && w.peers == PeersOf(sites, spec.selector, identity, spec.replicasPerPeer)
      && Selected(spec.selector, sites[self])
      && layout.podsPerSite <= MAX_PODS_PER_SITE
      && forall s :: s in sites ==> 0 <= s.serverIdIndex.value <= MAX_SITE_INDEX && s.serverIdIndex.value < layout.maxSites
  {
    self := SitePosition(mesh.sites, identity).value;
    IndicesFit(mesh.sites, MeshRidLayout(mesh));
  }

  // ---- Acceptance, exactly ---------------------------------------------------

  ghost predicate NamesSite(sites: seq<Site>, name: string) {
    Trim(name) != "" && exists s :: s in sites && Trim(s.name) == Trim(name)
  }

  lemma PositionExists(sites: seq<Site>, name: string)
    ensures SitePosition(sites, name).Ok? <==> WellFormed(sites) && NamesSite(sites, name)
  {
    var r := Find(sites, Trim(name));
    if r.Some? { assert sites[r.value] in sites; }
  }

  lemma {:induction false} SelectorResolves(sites: seq<Site>, selector: seq<string>)
    requires WellFormed(sites)
    ensures SelectorFault(sites, selector).None? <==> forall name :: name in selector ==> NamesSite(sites, name)
  {
    if selector != [] {
      PositionExists(sites, selector[0]);
      SelectorResolves(sites, selector[1..]);
      assert selector == [selector[0]] + selector[1..];
      assert selector[0] in selector;
    }
  }

  /** The cluster spans the site it says it is at, and names no unknown one. */
  ghost predicate SpansKnownSites(sites: seq<Site>, selector: seq<string>, identity: string) {
    && NamesSite(sites, identity)
    && (forall name :: name in selector ==> NamesSite(sites, name))
    && (selector == [] || exists name :: name in selector && Trim(name) == Trim(identity))
  }

  lemma PeersExist(sites: seq<Site>, selector: seq<string>, identity: string, rpp: Option<int>)
    requires WellFormed(sites)
    ensures ExternalPeers(sites, selector, identity, rpp).Ok? <==> SpansKnownSites(sites, selector, identity)
  {
    PositionExists(sites, identity);
    SelectorResolves(sites, selector);
    var self := SitePosition(sites, identity);
    if self.Ok? {
      assert Trim(sites[self.value].name) == Trim(identity);
      if k :| 0 <= k < |selector| && Trim(selector[k]) == Trim(identity) { assert selector[k] in selector; }
    }
  }

  ghost predicate IndicesBounded(sites: seq<Site>, layout: Layout) {
    forall s :: s in sites ==> s.serverIdIndex.Some? && 0 <= s.serverIdIndex.value <= 255 && s.serverIdIndex.value < layout.maxSites
  }

  lemma BaseExists(sites: seq<Site>, identity: string, layout: Layout)
    requires IndicesBounded(sites, layout)
    ensures ServerIdBaseForSite(sites, identity).Ok? <==> WellFormed(sites) && NamesSite(sites, identity)
  {
    PositionExists(sites, identity);
    var self := SitePosition(sites, identity);
    if self.Ok? { assert sites[self.value] in sites; }
  }

  /** The cluster declares nothing the mesh owns: no peers, no network where the mesh
      has one, and no serverID base that is not a site's. */
  ghost predicate LeavesItToTheMesh(mesh: MeshSpec, spec: ClusterSpec) {
    && !spec.declaresPeers && !(mesh.hasNetwork && spec.declaresNetwork)
    && (spec.serverIdBase != 0 ==> exists s :: s in mesh.sites && s.serverIdIndex.Some? && s.serverIdIndex.value * 16 == spec.serverIdBase)
  }

  /** A wiring is derived exactly when a mesh is asked for, the spec declares nothing
      the mesh owns, the site list is sound and within both addressing schemes, and
      the cluster spans known sites including its own. */
  lemma AcceptedExactlyWhen(mesh: MeshSpec, spec: ClusterSpec, identity: string)
    ensures
      (exists w :: Wired(mesh, spec, identity, w)) <==>
      && spec.meshRef != "" && WellFormed(mesh.sites) && LeavesItToTheMesh(mesh, spec)
      && IndicesBounded(mesh.sites, MeshRidLayout(mesh)) && MeshRidLayout(mesh).podsPerSite <= 15
      && SpansKnownSites(mesh.sites, spec.selector, identity)
  {
    var sites, layout := mesh.sites, MeshRidLayout(mesh);
    if WellFormed(sites) { ConflictMeans(mesh, spec); }
    if w :| Wired(mesh, spec, identity, w) {
      var self := WiredMeans(mesh, spec, identity, w);
      DeclaredAndBounded(sites, layout);
      PeersExist(sites, spec.selector, identity, spec.replicasPerPeer);
    } else if WellFormed(sites) && IndicesBounded(sites, layout) && SpansKnownSites(sites, spec.selector, identity) {
      IndicesFit(sites, layout);
      BaseExists(sites, identity, layout);
      PeersExist(sites, spec.selector, identity, spec.replicasPerPeer);
      AcceptedIfAllPass(mesh, spec, identity);
    }
  }

  lemma ConflictMeans(mesh: MeshSpec, spec: ClusterSpec)
    requires WellFormed(mesh.sites)
    ensures SpecConflictsWith(mesh, spec) <==> !LeavesItToTheMesh(mesh, spec)
  {
    WellFormedBySet(mesh.sites);
    SlotIsOrderFree(mesh.sites, spec.serverIdBase);
  }

  lemma DeclaredAndBounded(sites: seq<Site>, layout: Layout)
    requires WellFormed(sites)
    requires forall s :: s in sites ==> 0 <= s.serverIdIndex.value <= MAX_SITE_INDEX && s.serverIdIndex.value < layout.maxSites
    ensures IndicesBounded(sites, layout)
  {
    WellFormedBySet(sites);
  }

  lemma AcceptedIfAllPass(mesh: MeshSpec, spec: ClusterSpec, identity: string)
    requires ValidateSiteIndicesAgainstLayout(mesh.sites, MeshRidLayout(mesh)).None?
    requires ServerIdBaseForSite(mesh.sites, identity).Ok?
    requires ExternalPeers(mesh.sites, spec.selector, identity, spec.replicasPerPeer).Ok?
    ensures spec.meshRef != "" && !SpecConflictsWith(mesh, spec) && MeshRidLayout(mesh).podsPerSite <= MAX_PODS_PER_SITE ==>
      exists w :: Wired(mesh, spec, identity, w)
  {
    var w := Wiring(ServerIdBaseForSite(mesh.sites, identity).value,
                    ExternalPeers(mesh.sites, spec.selector, identity, spec.replicasPerPeer).value);
    if spec.meshRef != "" && !SpecConflictsWith(mesh, spec) && MeshRidLayout(mesh).podsPerSite <= MAX_PODS_PER_SITE {
      assert Wired(mesh, spec, identity, w);
    }
  }

  predicate Outside(s: Site, layout: Layout) {
    s.serverIdIndex.Some? && (s.serverIdIndex.value > 255 || s.serverIdIndex.value >= layout.maxSites)
  }

  /** The first site outside either scheme decides, the serverID ceiling first. */
  lemma {:induction false} FirstOutsideDecides(sites: seq<Site>, layout: Layout, i: nat)
    requires i < |sites| && Outside(sites[i], layout) && forall j :: 0 <= j < i ==> !Outside(sites[j], layout)
    ensures ValidateSiteIndicesAgainstLayout(sites, layout) ==
      Some(if sites[i].serverIdIndex.value > 255 then ServerIdCeiling else SiteIndexPastLayout)
  {
    if i > 0 {
      assert !Outside(sites[0], layout) && sites[1..][i - 1] == sites[i];
      FirstOutsideDecides(sites[1..], layout, i - 1);
    }
  }

  /** Why a wiring is refused, for a well-formed site list: conflicts first, then the
      first site outside a scheme, then the stride, then the identity, then whom the
      cluster spans. */
  lemma RefusalMeans(mesh: MeshSpec, spec: ClusterSpec, identity: string)
    requires spec.meshRef != "" && WellFormed(mesh.sites)
    ensures
      var r, layout := DeriveClusterWiring(Some(mesh), spec, identity), MeshRidLayout(mesh);
      if !LeavesItToTheMesh(mesh, spec) then r == Err(SpecConflicts)
      else if !IndicesBounded(mesh.sites, layout) then
        ValidateSiteIndicesAgainstLayout(mesh.sites, layout).Some? && r == Err(ValidateSiteIndicesAgainstLayout(mesh.sites, layout).value)
      else if layout.podsPerSite > 15 then r == Err(PodsPerSitePastStride)
      else if Trim(identity) == "" then r == Err(SiteIdentityMissing)
      else if !NamesSite(mesh.sites, identity) then r == Err(SiteUnknown)
      else if exists name :: name in spec.selector && !NamesSite(mesh.sites, name) then r == Err(SiteUnknown) || r == Err(SiteIdentityMissing)
      else if spec.selector != [] && forall name :: name in spec.selector ==> Trim(name) != Trim(identity) then r == Err(SiteNotSelected)
      else r.Ok?
  {
    var sites, layout := mesh.sites, MeshRidLayout(mesh);
    ConflictMeans(mesh, spec);
    IndicesFit(sites, layout);
    WellFormedBySet(sites);
    if LeavesItToTheMesh(mesh, spec) && IndicesBounded(sites, layout) {
      PositionExists(sites, identity);
      BaseExists(sites, identity, layout);
      SpanRefusal(sites, spec.selector, identity, spec.replicasPerPeer);
    }
  }

  lemma SpanRefusal(sites: seq<Site>, selector: seq<string>, identity: string, rpp: Option<int>)
    requires WellFormed(sites)
    ensures
      var r := ExternalPeers(sites, selector, identity, rpp);
      NamesSite(sites, identity) ==>
        if exists name :: name in selector && !NamesSite(sites, name) then r == Err(SiteUnknown) || r == Err(SiteIdentityMissing)
        else if selector != [] && forall name :: name in selector ==> Trim(name) != Trim(identity) then r == Err(SiteNotSelected)
        else r.Ok?
  {
    PositionExists(sites, identity);
    SelectorResolves(sites, selector);
    FaultIsAName(sites, selector);
    SelectionMeans(sites, selector, identity);
  }

  lemma {:induction false} FaultIsAName(sites: seq<Site>, selector: seq<string>)
    requires WellFormed(sites)
    ensures
      var f := SelectorFault(sites, selector);
      f.None? || f == Some(SiteUnknown) || f == Some(SiteIdentityMissing)
  {
    if selector != [] { FaultIsAName(sites, selector[1..]); }
  }

  lemma SelectionMeans(sites: seq<Site>, selector: seq<string>, identity: string)
    ensures SitePosition(sites, identity).Ok? ==>
      (Selected(selector, sites[SitePosition(sites, identity).value]) <==>
       selector == [] || exists name :: name in selector && Trim(name) == Trim(identity))
  {
    if k :| 0 <= k < |selector| && Trim(selector[k]) == Trim(identity) { assert selector[k] in selector; }
  }

  // ---- Order-free ------------------------------------------------------------

  /** Well-formedness without positions. */
  lemma WellFormedBySet(sites: seq<Site>)
    ensures WellFormed(sites) <==>
      && sites != [] && Distinct(sites)
      && (forall s :: s in sites ==> Trim(s.name) != "" && IndexDeclared(s))
      && (forall a, b :: a in sites && b in sites && a != b ==>
            Trim(a.name) != Trim(b.name) && a.serverIdIndex != b.serverIdIndex)
  {
    if WellFormed(sites) {
      forall a, b | a in sites && b in sites && a != b ensures Trim(a.name) != Trim(b.name) && a.serverIdIndex != b.serverIdIndex {
        var i :| 0 <= i < |sites| && sites[i] == a;
        var j :| 0 <= j < |sites| && sites[j] == b;
        if i > j { assert Trim(sites[j].name) != Trim(sites[i].name); }
      }
    }
  }

  lemma WellFormedPermutes(a: seq<Site>, b: seq<Site>)
    requires multiset(a) == multiset(b)
    ensures WellFormed(a) <==> WellFormed(b)
  {
    SameElements(a, b);
    WellFormedBySet(a);
    WellFormedBySet(b);
    if Distinct(a) { DistinctByMultiset(a, b); }
    if Distinct(b) { DistinctByMultiset(b, a); }
    assert a == [] <==> b == [] by { assert |a| == |multiset(a)| && |b| == |multiset(b)|; }
  }

  /** The site a name stands for is the same wherever it stands in the list. */
  lemma SiteIsOrderFree(a: seq<Site>, b: seq<Site>, name: string)
    requires multiset(a) == multiset(b)
    ensures
      var x, y := SitePosition(a, name), SitePosition(b, name);
      && (x.Ok? <==> y.Ok?)
      && (x.Err? ==> x.error == y.error)
      && (x.Ok? ==> a[x.value] == b[y.value])
  {
    WellFormedPermutes(a, b);
    SameElements(a, b);
    var x, y := SitePosition(a, name), SitePosition(b, name);
    if x.Ok? {
      assert a[x.value] in b;
      if y.Ok? { WellFormedBySet(a); assert b[y.value] in a; }
    }
    if y.Ok? { assert b[y.value] in a; }
  }

  lemma {:induction false} SelectorIsOrderFree(a: seq<Site>, b: seq<Site>, selector: seq<string>)
    requires multiset(a) == multiset(b)
    ensures SelectorFault(a, selector) == SelectorFault(b, selector)
  {
    if selector != [] {
      SiteIsOrderFree(a, b, selector[0]);
      SelectorIsOrderFree(a, b, selector[1..]);
    }
  }

  lemma {:induction false} SlotIsOrderFree(sites: seq<Site>, value: int)
    requires forall s :: s in sites ==> s.serverIdIndex.Some?
    ensures ServerIdBaseForSiteOfValue(sites, value) <==> exists s :: s in sites && s.serverIdIndex.value * STRIDE == value
  {
    if sites != [] {
      assert sites[0] in sites && sites == [sites[0]] + sites[1..];
      SlotIsOrderFree(sites[1..], value);
    }
  }

  lemma ConflictsAreOrderFree(mesh: MeshSpec, sites: seq<Site>, spec: ClusterSpec)
    requires (forall s :: s in mesh.sites <==> s in sites) && forall s :: s in sites ==> s.serverIdIndex.Some?
    ensures SpecConflictsWith(mesh.(sites := sites), spec) == SpecConflictsWith(mesh, spec)
  {
    SlotIsOrderFree(mesh.sites, spec.serverIdBase);
    SlotIsOrderFree(sites, spec.serverIdBase);
  }

  lemma LayoutFitIsOrderFree(a: seq<Site>, b: seq<Site>, layout: Layout)
    requires forall s :: s in a <==> s in b
    ensures ValidateSiteIndicesAgainstLayout(a, layout).None? == ValidateSiteIndicesAgainstLayout(b, layout).None?
  {
    IndicesFit(a, layout);
    IndicesFit(b, layout);
  }

  lemma BaseIsOrderFree(a: seq<Site>, b: seq<Site>, identity: string)
    requires multiset(a) == multiset(b)
    ensures ServerIdBaseForSite(a, identity) == ServerIdBaseForSite(b, identity)
  {
    SiteIsOrderFree(a, b, identity);
  }

  lemma PeersAreOrderFree(a: seq<Site>, b: seq<Site>, selector: seq<string>, identity: string, rpp: Option<int>)
    requires multiset(a) == multiset(b) && ExternalPeers(a, selector, identity, rpp).Ok?
    ensures
      var x, y := ExternalPeers(a, selector, identity, rpp), ExternalPeers(b, selector, identity, rpp);
      y.Ok? && forall p :: p in x.value <==> p in y.value
  {
    SameElements(a, b);
    SiteIsOrderFree(a, b, identity);
    SelectorIsOrderFree(a, b, selector);
    SamePeers(a, b, selector, identity, rpp);
    SamePeers(b, a, selector, identity, rpp);
  }

  /** Reordering the site list refuses nothing that was accepted, moves no base,
      and changes no peer; so the two lists accept exactly the same sites. */
  lemma DerivationIsOrderFree(mesh: MeshSpec, sites: seq<Site>, spec: ClusterSpec, identity: string, w: Wiring)
    requires multiset(mesh.sites) == multiset(sites) && Wired(mesh, spec, identity, w)
    ensures
      var r := DeriveClusterWiring(Some(mesh.(sites := sites)), spec, identity);
      && r.Ok? && r.value.Some?
      && r.value.value.serverIdBase == w.serverIdBase
      && forall p :: p in r.value.value.peers <==> p in w.peers
  {
    SameElements(mesh.sites, sites);
    Declared(mesh, spec, identity, w);
    ConflictsAreOrderFree(mesh, sites, spec);
    LayoutFitIsOrderFree(mesh.sites, sites, MeshRidLayout(mesh));
    BaseIsOrderFree(mesh.sites, sites, identity);
    PeersAreOrderFree(mesh.sites, sites, spec.selector, identity, spec.replicasPerPeer);
  }

  lemma Declared(mesh: MeshSpec, spec: ClusterSpec, identity: string, w: Wiring)
    requires Wired(mesh, spec, identity, w)
    ensures forall s :: s in mesh.sites ==> s.serverIdIndex.Some?
  {
    WellFormedBySet(mesh.sites);
  }

  lemma SamePeers(a: seq<Site>, b: seq<Site>, selector: seq<string>, identity: string, rpp: Option<int>)
    requires forall s :: s in a <==> s in b
    ensures forall p :: p in PeersOf(a, selector, identity, rpp) ==> p in PeersOf(b, selector, identity, rpp)
  {
    forall p | p in PeersOf(a, selector, identity, rpp) ensures p in PeersOf(b, selector, identity, rpp) {
      var i :| 0 <= i < |a| && Peered(selector, identity, a[i]) && p == PeerOf(a[i], rpp);
      assert a[i] in b;
      var j :| 0 <= j < |b| && b[j] == a[i];
      PeersOfHas(b, selector, identity, rpp, j);
    }
  }

  // ---- Symmetric -------------------------------------------------------------

  /** No two derived peers share an index. */
  lemma {:induction false} PeersAreDistinct(sites: seq<Site>, selector: seq<string>, identity: string, rpp: Option<int>)
    requires forall i, j :: 0 <= i < j < |sites| ==> sites[i].serverIdIndex != sites[j].serverIdIndex
    ensures !ShareIndex(PeersOf(sites, selector, identity, rpp))
  {
    if sites != [] {
      var front, last := sites[..|sites| - 1], sites[|sites| - 1];
      PeersAreDistinct(front, selector, identity, rpp);
      var ps := PeersOf(front, selector, identity, rpp);
      forall k | 0 <= k < |ps| ensures ps[k].siteIndex != last.serverIdIndex {
        assert ps[k] in ps;
        var i :| 0 <= i < |front| && Peered(selector, identity, front[i]) && ps[k] == PeerOf(front[i], rpp);
        assert sites[i] == front[i];
      }
      assert !ShareIndex(ps + [PeerOf(last, rpp)]);
    }
  }

  /** Two sites of one mesh whose clusters span the same sites each derive the
      other as exactly one peer, and neither derives itself. */
  lemma PeeringIsSymmetric(mesh: MeshSpec, sa: ClusterSpec, sb: ClusterSpec, a: nat, b: nat, wa: Wiring, wb: Wiring)
    requires a < |mesh.sites| && b < |mesh.sites| && a != b && sa.selector == sb.selector
    requires Wired(mesh, sa, mesh.sites[a].name, wa) && Wired(mesh, sb, mesh.sites[b].name, wb)
    ensures NamesOnce(wa.peers, mesh.sites[b]) && NamesOnce(wb.peers, mesh.sites[a])
    ensures forall p :: p in wa.peers ==> p.siteIndex != mesh.sites[a].serverIdIndex
    ensures forall p :: p in wb.peers ==> p.siteIndex != mesh.sites[b].serverIdIndex
  {
    SpansItself(mesh, sa, a, wa);
    SpansItself(mesh, sb, b, wb);
    DerivesExactlyTheSpanned(mesh, sa, a, b, wa);
    DerivesExactlyTheSpanned(mesh, sb, b, a, wb);
  }

  lemma SpansItself(mesh: MeshSpec, spec: ClusterSpec, a: nat, w: Wiring)
    requires a < |mesh.sites| && Wired(mesh, spec, mesh.sites[a].name, w)
    ensures Selected(spec.selector, mesh.sites[a])
  {
    var pa := WiredMeans(mesh, spec, mesh.sites[a].name, w);
    SitesDiffer(mesh.sites, a, pa);
  }

  /** Exactly one peer carries the site's index, and it is that site's. */
  ghost predicate NamesOnce(peers: seq<Peer>, s: Site) {
    exists k :: && 0 <= k < |peers| && peers[k].siteIndex == s.serverIdIndex && peers[k].name == Trim(s.name)
                && forall i :: 0 <= i < |peers| && peers[i].siteIndex == s.serverIdIndex ==> i == k
  }

  /** Whatever the selector, a site gets exactly one peer for each other site the
      selector spans, none for the sites it leaves out, and none for itself. */
  lemma DerivesExactlyTheSpanned(mesh: MeshSpec, spec: ClusterSpec, a: nat, b: nat, w: Wiring)
    requires a < |mesh.sites| && b < |mesh.sites| && a != b && Wired(mesh, spec, mesh.sites[a].name, w)
    ensures NamesOnce(w.peers, mesh.sites[b]) <==> Selected(spec.selector, mesh.sites[b])
    ensures !Selected(spec.selector, mesh.sites[b]) ==> forall p :: p in w.peers ==> p.siteIndex != mesh.sites[b].serverIdIndex
    ensures forall p :: p in w.peers ==> p.siteIndex != mesh.sites[a].serverIdIndex
  {
    var pa := WiredMeans(mesh, spec, mesh.sites[a].name, w);
    if Selected(spec.selector, mesh.sites[b]) {
      ListedOnce(mesh.sites, spec.selector, a, b, spec.replicasPerPeer);
    } else {
      NotListed(mesh.sites, spec.selector, a, b, spec.replicasPerPeer);
    }
    NotListed(mesh.sites, spec.selector, a, a, spec.replicasPerPeer);
  }

  lemma ListedOnce(sites: seq<Site>, selector: seq<string>, a: nat, b: nat, rpp: Option<int>)
    requires WellFormed(sites) && a < |sites| && b < |sites| && a != b && Selected(selector, sites[b])
    ensures NamesOnce(PeersOf(sites, selector, sites[a].name, rpp), sites[b])
  {
    SitesDiffer(sites, a, b);
    PeersOfHas(sites, selector, sites[a].name, rpp, b);
    PeersAreDistinct(sites, selector, sites[a].name, rpp);
    var ps := PeersOf(sites, selector, sites[a].name, rpp);
    var k :| 0 <= k < |ps| && ps[k] == PeerOf(sites[b], rpp);
  }

  lemma NotListed(sites: seq<Site>, selector: seq<string>, a: nat, b: nat, rpp: Option<int>)
    requires WellFormed(sites) && a < |sites| && b < |sites| && !Peered(selector, sites[a].name, sites[b])
    ensures forall p :: p in PeersOf(sites, selector, sites[a].name, rpp) ==> p.siteIndex != sites[b].serverIdIndex
  {
    forall p | p in PeersOf(sites, selector, sites[a].name, rpp) ensures p.siteIndex != sites[b].serverIdIndex {
      var i :| 0 <= i < |sites| && Peered(selector, sites[a].name, sites[i]) && p == PeerOf(sites[i], rpp);
      SitesDiffer(sites, b, i);
    }
  }

  lemma SitesDiffer(sites: seq<Site>, i: nat, j: nat)
    requires WellFormed(sites) && i < |sites| && j < |sites|
    ensures i == j <==> Trim(sites[i].name) == Trim(sites[j].name)
    ensures i == j <==> sites[i].serverIdIndex == sites[j].serverIdIndex
  {
  }

  // ---- Never refused downstream ----------------------------------------------

  /** A derived peer list passes the peer judge under the same layout exactly when
      the cluster asks for at most one link per site pair, or has no peers. */
  lemma DerivedPeersPass(mesh: MeshSpec, spec: ClusterSpec, identity: string, w: Wiring, sc: Cluster)
    requires Wired(mesh, spec, identity, w) && sc.peers == w.peers && sc.replicasPerPeer == spec.replicasPerPeer
    ensures PeersVerdict(sc, MeshRidLayout(mesh)) == APPROVED <==>
      (w.peers == [] || spec.replicasPerPeer.None? || spec.replicasPerPeer.value <= 1)
  {
    var self := WiredMeans(mesh, spec, identity, w);
    PeersAreDistinct(mesh.sites, spec.selector, identity, spec.replicasPerPeer);
    PeersCarryTheIndex(mesh.sites, spec.selector, identity, spec.replicasPerPeer, MeshRidLayout(mesh));
    SoundPeersPass(sc, MeshRidLayout(mesh));
  }

  lemma SoundPeersPass(sc: Cluster, layout: Layout)
    requires forall i :: 0 <= i < |sc.peers| ==>
      sc.peers[i].siteIndex.Some? && !OutOfRange(sc.peers[i], layout) && sc.peers[i].replicasPerPeer == sc.replicasPerPeer
    requires !ShareIndex(sc.peers)
    ensures PeersVerdict(sc, layout) == APPROVED <==>
      (sc.peers == [] || sc.replicasPerPeer.None? || sc.replicasPerPeer.value <= 1)
  {
    if sc.peers != [] { assert FansOut(sc, 0) <==> sc.replicasPerPeer.Some? && sc.replicasPerPeer.value > 1; }
  }

  lemma PeersCarryTheIndex(sites: seq<Site>, selector: seq<string>, identity: string, rpp: Option<int>, layout: Layout)
    requires WellFormed(sites) && forall s :: s in sites ==> s.serverIdIndex.value < layout.maxSites
    ensures
      var ps := PeersOf(sites, selector, identity, rpp);
      forall i :: 0 <= i < |ps| ==>
        ps[i].siteIndex.Some? && !OutOfRange(ps[i], layout) && ps[i].replicasPerPeer == rpp
  {
    var ps := PeersOf(sites, selector, identity, rpp);
    forall i | 0 <= i < |ps|
      ensures ps[i].siteIndex.Some? && !OutOfRange(ps[i], layout) && ps[i].replicasPerPeer == rpp
    {
      assert ps[i] in ps;
      var k :| 0 <= k < |sites| && Peered(selector, identity, sites[k]) && ps[i] == PeerOf(sites[k], rpp);
      assert sites[k] in sites;
    }
  }

  // ---- serverIDs -------------------------------------------------------------

  /** desiredServerID, before it is printed. */
  function ServerId(base: int, ordinal: int): int {
    base + ordinal + 1
  }

  /** Both ceilings are exact: 15 pods are as many as read back to their own site, and
      255 is the last site whose serverIDs all stay within 4095. */
  lemma CeilingsAreExact(idx: int, pods: int)
    requires idx >= 0 && pods >= 1
    ensures (forall o :: 0 <= o < pods ==> ServerId(idx * STRIDE, o) / STRIDE == idx) <==> pods <= MAX_PODS_PER_SITE
    ensures (forall o :: 0 <= o < MAX_PODS_PER_SITE ==> ServerId(idx * STRIDE, o) <= 4095) <==> idx <= MAX_SITE_INDEX
  {
    forall o | 0 <= o < MAX_PODS_PER_SITE ensures ServerId(idx * STRIDE, o) / STRIDE == idx {
      DivModUnique(ServerId(idx * STRIDE, o), STRIDE, idx, o + 1);
    }
    var last := MAX_PODS_PER_SITE;
    DivModUnique(ServerId(idx * STRIDE, last), STRIDE, idx + 1, 0);
    assert ServerId(idx * STRIDE, last - 1) == idx * STRIDE + 15;
  }

  /** The slot of an accepted site. */
  lemma SlotOf(mesh: MeshSpec, spec: ClusterSpec, a: nat, w: Wiring, sc: Cluster) returns (idx: int)
    requires a < |mesh.sites| && Wired(mesh, spec, mesh.sites[a].name, w)
    requires FleetVerdict(sc, MeshRidLayout(mesh)).ok
    ensures WellFormed(mesh.sites) && mesh.sites[a].serverIdIndex == Some(idx)
    ensures 0 <= idx <= MAX_SITE_INDEX && w.serverIdBase == idx * STRIDE && Replicas(sc) <= MAX_PODS_PER_SITE
  {
    var pa := WiredMeans(mesh, spec, mesh.sites[a].name, w);
    SitesDiffer(mesh.sites, a, pa);
    idx := mesh.sites[a].serverIdIndex.value;
    assert mesh.sites[a] in mesh.sites;
  }

  /** Across an accepted mesh and fleet, a serverID lies in 1..4095 and reads back
      as the site's index and the pod's ordinal. */
  lemma ServerIdReadsBack(mesh: MeshSpec, spec: ClusterSpec, a: nat, w: Wiring, sc: Cluster, ordinal: int)
    requires a < |mesh.sites| && Wired(mesh, spec, mesh.sites[a].name, w)
    requires FleetVerdict(sc, MeshRidLayout(mesh)).ok && 0 <= ordinal < Replicas(sc)
    ensures
      var sid := ServerId(w.serverIdBase, ordinal);
      && 1 <= sid <= 4095
      && mesh.sites[a].serverIdIndex == Some(sid / STRIDE) && ordinal == sid % STRIDE - 1
  {
    var idx := SlotOf(mesh, spec, a, w, sc);
    DivModUnique(ServerId(w.serverIdBase, ordinal), STRIDE, idx, ordinal + 1);
  }

  /** Hence no two pods of the mesh share one, whatever each site's fleet. */
  lemma ServerIdsAreUnique(mesh: MeshSpec, specA: ClusterSpec, specB: ClusterSpec, a: nat, b: nat, wa: Wiring, wb: Wiring,
                           sa: Cluster, sb: Cluster, i: int, j: int)
    requires a < |mesh.sites| && Wired(mesh, specA, mesh.sites[a].name, wa)
    requires b < |mesh.sites| && Wired(mesh, specB, mesh.sites[b].name, wb)
    requires FleetVerdict(sa, MeshRidLayout(mesh)).ok && 0 <= i < Replicas(sa)
    requires FleetVerdict(sb, MeshRidLayout(mesh)).ok && 0 <= j < Replicas(sb)
    requires ServerId(wa.serverIdBase, i) == ServerId(wb.serverIdBase, j)
    ensures a == b && i == j
  {
    ServerIdReadsBack(mesh, specA, a, wa, sa, i);
    ServerIdReadsBack(mesh, specB, b, wb, sb, j);
    var _ := WiredMeans(mesh, specA, mesh.sites[a].name, wa);
    SitesDiffer(mesh.sites, a, b);
  }

  // ---- Who created the suffix entry ------------------------------------------

  function CsnSid(csn: string): Option<int> {
    var parts := Split(csn, '#');
    if |parts| < 3 then None
    else
      var sid := ParseInt32(parts[2], 16);
      if sid.Some? && sid.value >= 0 then sid else None
  }

  predicate SeedCreatorIsForeign(entryCsn: string, serverIdBase: int, replicas: int) {
    var sid := CsnSid(entryCsn);
    sid.Some? && (sid.value < serverIdBase + 1 || sid.value > serverIdBase + (if replicas == 0 then 1 else replicas))
  }

  /** Evidence that cannot be read never withholds the seed. */
  lemma UnreadableIsNotForeign(csn: string, serverIdBase: int, replicas: int)
    requires |Split(csn, '#')| < 3 || ParseInt32(Split(csn, '#')[2], 16).None? || ParseInt32(Split(csn, '#')[2], 16).value < 0
    ensures !SeedCreatorIsForeign(csn, serverIdBase, replicas)
  {
  }

  /** A CSN as slapd mints it: timestamp, count, serverID in hex, modification. */
  predicate Minted(csn: string, sid: int, stamp: string, count: string, modification: string) {
    && 0 <= sid < 4096 && '#' !in stamp && '#' !in count
    && csn == stamp + "#" + count + "#" + ThreeHexDigits(sid) + "#" + modification
  }

  lemma SidReadsBack(csn: string, sid: int, stamp: string, count: string, modification: string)
    requires Minted(csn, sid, stamp, count, modification)
    ensures CsnSid(csn) == Some(sid)
  {
    var hex := ThreeHexDigits(sid);
    DigitsAvoid(hex, 16, '#');
    assert csn == stamp + "#" + (count + "#" + (hex + "#" + modification));
    SplitCons(stamp, '#', count + "#" + (hex + "#" + modification));
    SplitCons(count, '#', hex + "#" + modification);
    SplitCons(hex, '#', modification);
    var rest := Split(modification, '#');
    assert Split(csn, '#') == [stamp] + ([count] + ([hex] + rest));
    HexParses(hex, sid);
  }

  lemma HexParses(hex: string, sid: int)
    requires |hex| == 3 && AreDigits(hex, 16) && Value(hex, 16) == sid && sid < 4096
    ensures ParseInt32(hex, 16) == Some(sid)
  {
    assert DigitValue(hex[0]) < 16;
  }

  /** The suffix entry's creator is foreign exactly when the pod that minted its
      CSN sits at another site of the mesh, or at an ordinal this site has since
      scaled away. */
  lemma ForeignMeansAnotherSite(mesh: MeshSpec, specHere: ClusterSpec, specThere: ClusterSpec,
                                here: nat, there: nat, wh: Wiring, wt: Wiring, sh: Cluster, st: Cluster, ordinal: int,
                                csn: string, stamp: string, count: string, modification: string)
    requires here < |mesh.sites| && Wired(mesh, specHere, mesh.sites[here].name, wh)
    requires there < |mesh.sites| && Wired(mesh, specThere, mesh.sites[there].name, wt)
    requires FleetVerdict(sh, MeshRidLayout(mesh)).ok && FleetVerdict(st, MeshRidLayout(mesh)).ok
    requires 0 <= ordinal < Replicas(st)
    requires Minted(csn, ServerId(wt.serverIdBase, ordinal), stamp, count, modification)
    ensures SeedCreatorIsForeign(csn, wh.serverIdBase, sh.replicas) <==> here != there || ordinal >= Replicas(sh)
  {
    SidReadsBack(csn, ServerId(wt.serverIdBase, ordinal), stamp, count, modification);
    var x := SlotOf(mesh, specHere, here, wh, sh);
    var y := SlotOf(mesh, specThere, there, wt, st);
    SitesDiffer(mesh.sites, here, there);
    OutsideTheBand(x, y, Replicas(sh), ordinal);
  }

  lemma OutsideTheBand(x: int, y: int, replicas: int, ordinal: int)
    requires replicas <= MAX_PODS_PER_SITE && 0 <= ordinal < MAX_PODS_PER_SITE
    ensures (ServerId(y * STRIDE, ordinal) < x * STRIDE + 1 || ServerId(y * STRIDE, ordinal) > x * STRIDE + replicas) <==>
      x != y || ordinal >= replicas
  {
  }

  /** It happens at one site: pod 1 of the base-0 site minted the CSN, and the site has
      been scaled to one pod. */
  lemma ScaledAwayPodIsForeign()
    ensures
      var csn := "t" + "#" + "c" + "#" + ThreeHexDigits(ServerId(0, 1)) + "#" + "m";
      Minted(csn, ServerId(0, 1), "t", "c", "m") && SeedCreatorIsForeign(csn, 0, 1)
  {
    var csn := "t" + "#" + "c" + "#" + ThreeHexDigits(ServerId(0, 1)) + "#" + "m";
    SidReadsBack(csn, ServerId(0, 1), "t", "c", "m");
  }
}
