/** Who may have replica IDs at all: the judges of ridsegment.go, ridstanza.go,
    ridpeerresolve.go and the fan-out of replidentity.go, and what their approval
    is worth together. */
module RidJudges {
  import opened Prelude
  import opened Sorting
  import opened RidCoord

  datatype Peer = Peer(name: string, siteIndex: Option<int>, replicasPerPeer: Option<int>)

  /** The part of a SlapdCluster these judges read. */
  datatype Cluster = Cluster(
    replicas: int, readReplicas: int, consumerOnly: bool,
    peers: seq<Peer>, replicasPerPeer: Option<int>)

  datatype Database = Database(name: string, namespace: string, clusterRef: string, ridSegment: Option<int>)

  datatype Reason =
    | RidSegmentUnique
    | RidLayoutInvalid | RidSegmentMissing | RidSegmentOutOfRange | RidSegmentCollision
    | PodsPerSiteExceeded | ConsumerOnlyReadReplicas
    | ReplicasPerPeerUnsupported | PeerSiteIndexMissing | PeerSiteIndexOutOfRange | PeerSiteIndexCollision
    | PeerResolutionIncomplete | PeerBindPasswordUnreadable | PeerProvidersUndiscovered | PeerAddressesEmpty

  /** A refusal carries no usable segment. */
  datatype Verdict = Verdict(ok: bool, reason: Reason, segment: int)

  function Refuse(reason: Reason): Verdict {
    Verdict(false, reason, 0)
  }

  const APPROVED := Verdict(true, RidSegmentUnique, 0)

  // ---- One database's segment ------------------------------------------------

  predicate Collides(sd: Database, other: Database, segment: int) {
    && !(other.name == sd.name && other.namespace == sd.namespace)
    && other.clusterRef == sd.clusterRef
    && other.ridSegment == Some(segment)
  }

  /** Sibling j of the first n collides, and no collision from j on is with a sibling
      without a name: such a one would reset the scan, which keeps a name and takes
      the empty one for "none yet". */
  ghost predicate Visible(sd: Database, siblings: seq<Database>, n: int, segment: int, j: int)
    requires 0 <= n <= |siblings|
  {
    && 0 <= j < n && Collides(sd, siblings[j], segment)
    && forall k :: j <= k < n && Collides(sd, siblings[k], segment) ==> siblings[k].name != ""
  }

  /** The lowest-named visible collision, or "" when there is none. */
  method CollidingSibling(sd: Database, siblings: seq<Database>, segment: int) returns (found: string)
    ensures found != "" ==> exists j :: Visible(sd, siblings, |siblings|, segment, j) && siblings[j].name == found
    ensures forall j :: Visible(sd, siblings, |siblings|, segment, j) ==> found != "" && Le(found, siblings[j].name)
  {
    found := "";
    for i := 0 to |siblings|
      invariant found != "" ==> exists j :: Visible(sd, siblings, i, segment, j) && siblings[j].name == found
      invariant forall j :: Visible(sd, siblings, i, segment, j) ==> found != "" && Le(found, siblings[j].name)
    {
      var other := siblings[i];
      ghost var before := found;
      forall j | Visible(sd, siblings, i + 1, segment, j)
        ensures Keep(sd, other, segment, before) != "" && Le(Keep(sd, other, segment, before), siblings[j].name)
      {
        LowestSoFar(sd, siblings, i, segment, before, j);
      }
      if Collides(sd, other, segment) && (found == "" || (Le(other.name, found) && other.name != found)) {
        found := other.name;
      }
      if found != "" { ghost var j := SeenSoFar(sd, siblings, i, segment, before); }
    }
  }

  function Keep(sd: Database, other: Database, segment: int, before: string): string {
    if Collides(sd, other, segment) && (before == "" || (Le(other.name, before) && other.name != before)) then other.name
    else before
  }

  lemma LowestSoFar(sd: Database, siblings: seq<Database>, n: int, segment: int, before: string, j: int)
    requires 0 <= n < |siblings| && Visible(sd, siblings, n + 1, segment, j)
    requires Visible(sd, siblings, n, segment, j) ==> before != "" && Le(before, siblings[j].name)
    ensures var after := Keep(sd, siblings[n], segment, before); after != "" && Le(after, siblings[j].name)
  {
    var name := siblings[n].name;
    VisibleNext(sd, siblings, n, segment, j);
    LeTotal(name, name);
    LeTotal(before, name);
    if j < n && Le(name, before) { LeTransitive(name, before, siblings[j].name); }
  }

  lemma SeenSoFar(sd: Database, siblings: seq<Database>, n: int, segment: int, before: string) returns (j: int)
    requires 0 <= n < |siblings| && Keep(sd, siblings[n], segment, before) != ""
    requires before != "" ==> exists j :: Visible(sd, siblings, n, segment, j) && siblings[j].name == before
    ensures Visible(sd, siblings, n + 1, segment, j) && siblings[j].name == Keep(sd, siblings[n], segment, before)
  {
    j := n;
    VisibleNext(sd, siblings, n, segment, j);
    if !Collides(sd, siblings[n], segment) || siblings[n].name != Keep(sd, siblings[n], segment, before) {
      j :| Visible(sd, siblings, n, segment, j) && siblings[j].name == before;
      VisibleNext(sd, siblings, n, segment, j);
    }
  }

  lemma VisibleNext(sd: Database, siblings: seq<Database>, n: int, segment: int, j: int)
    requires 0 <= n < |siblings|
    ensures Visible(sd, siblings, n + 1, segment, j) <==>
      if !Collides(sd, siblings[n], segment) then Visible(sd, siblings, n, segment, j)
      else siblings[n].name != "" && (Visible(sd, siblings, n, segment, j) || j == n)
  {
  }

  /** judgeRIDSegment, with the sibling scan by its meaning. */
  ghost function SegmentVerdict(sd: Database, siblings: seq<Database>, layout: Layout): Verdict {
    if !layout.Valid() then Refuse(RidLayoutInvalid)
    else if sd.ridSegment.None? then Refuse(RidSegmentMissing)
    else if sd.ridSegment.value < 0 || sd.ridSegment.value >= layout.MaxSegments() then Refuse(RidSegmentOutOfRange)
    else if exists i :: 0 <= i < |siblings| && Collides(sd, siblings[i], sd.ridSegment.value) then Refuse(RidSegmentCollision)
    else Verdict(true, RidSegmentUnique, sd.ridSegment.value)
  }

  /** There is a collision, and the scan does not see it. */
  ghost predicate Hidden(sd: Database, siblings: seq<Database>) {
    && sd.ridSegment.Some?
    && (exists i :: 0 <= i < |siblings| && Collides(sd, siblings[i], sd.ridSegment.value))
    && !exists j :: Visible(sd, siblings, |siblings|, sd.ridSegment.value, j)
  }

  /** Objects of a cluster have names, and then nothing is hidden. */
  lemma NamedCollisionsAreSeen(sd: Database, siblings: seq<Database>)
    requires forall i :: 0 <= i < |siblings| ==> siblings[i].name != ""
    ensures !Hidden(sd, siblings)
  {
    if sd.ridSegment.Some? {
      if i :| 0 <= i < |siblings| && Collides(sd, siblings[i], sd.ridSegment.value) {
        assert Visible(sd, siblings, |siblings|, sd.ridSegment.value, i);
      }
    }
  }

  /** It happens: b collides, and the nameless sibling after it hides that. */
  lemma NamelessSiblingHidesACollision()
    ensures
      var a, b, nameless := Database("a", "ns", "c", Some(0)), Database("b", "ns", "c", Some(0)), Database("", "ns", "c", Some(0));
      Hidden(a, [b, nameless]) && !Hidden(a, [b])
  {
    var a, b, nameless := Database("a", "ns", "c", Some(0)), Database("b", "ns", "c", Some(0)), Database("", "ns", "c", Some(0));
    assert "a"[0] != "b"[0];
    assert Collides(a, [b, nameless][0], 0) && Collides(a, [b, nameless][1], 0);
    NamedCollisionsAreSeen(a, [b]);
  }

  /** The verdict by its meaning; a hidden collision is judged as no sibling at all. */
  method JudgeRidSegment(sd: Database, siblings: seq<Database>, layout: Layout) returns (v: Verdict)
    ensures v == SegmentVerdict(sd, if Hidden(sd, siblings) then [] else siblings, layout)
  {
    if !layout.Valid() { return Refuse(RidLayoutInvalid); }
    if sd.ridSegment.None? { return Refuse(RidSegmentMissing); }
    var segment := sd.ridSegment.value;
    if segment < 0 || segment >= layout.MaxSegments() { return Refuse(RidSegmentOutOfRange); }
    var other := CollidingSibling(sd, siblings, segment);
    if other != "" {
      assert exists i :: 0 <= i < |siblings| && Collides(sd, siblings[i], segment);
      return Refuse(RidSegmentCollision);
    }
    return Verdict(true, RidSegmentUnique, segment);
  }

  // ---- The cluster's own shape -----------------------------------------------

  /** Zero replicas read as one, as every reader of the field does. */
  function Replicas(sc: Cluster): int {
    if sc.replicas == 0 then 1 else sc.replicas
  }

  function FleetVerdict(sc: Cluster, layout: Layout): Verdict {
    if Replicas(sc) > layout.podsPerSite then Refuse(PodsPerSiteExceeded)
    else if sc.consumerOnly && sc.readReplicas > 0 then Refuse(ConsumerOnlyReadReplicas)
    else APPROVED
  }

  // ---- The external peer list ------------------------------------------------

  /** The peer's own value, else the cluster's, else one; below two is unset. */
  function ResolveReplicasPerPeer(clusterDefault: Option<int>, peerOverride: Option<int>): int {
    if peerOverride.Some? && peerOverride.value > 1 then peerOverride.value
    else if clusterDefault.Some? && clusterDefault.value > 1 then clusterDefault.value
    else 1
  }

  predicate FansOut(sc: Cluster, i: int)
    requires 0 <= i < |sc.peers|
  {
    ResolveReplicasPerPeer(sc.replicasPerPeer, sc.peers[i].replicasPerPeer) >= 2
  }

  predicate OutOfRange(p: Peer, layout: Layout) {
    p.siteIndex.Some? && !(0 <= p.siteIndex.value < layout.maxSites)
  }

  ghost predicate ShareIndex(peers: seq<Peer>) {
    exists i, j :: 0 <= i < j < |peers| && peers[i].siteIndex == peers[j].siteIndex
  }

  /** The four questions about the list, in the order they are asked. */
  ghost function PeersVerdict(sc: Cluster, layout: Layout): Verdict {
    if exists i :: 0 <= i < |sc.peers| && FansOut(sc, i) then Refuse(ReplicasPerPeerUnsupported)
    else if exists i :: 0 <= i < |sc.peers| && sc.peers[i].siteIndex.None? then Refuse(PeerSiteIndexMissing)
    else if exists i :: 0 <= i < |sc.peers| && OutOfRange(sc.peers[i], layout) then Refuse(PeerSiteIndexOutOfRange)
    else if ShareIndex(sc.peers) then Refuse(PeerSiteIndexCollision)
    else APPROVED
  }

  method JudgeExternalPeers(sc: Cluster, layout: Layout) returns (v: Verdict)
    ensures v == PeersVerdict(sc, layout)
  {
    var peers := sc.peers;
    for i := 0 to |peers|
      invariant forall k :: 0 <= k < i ==> !FansOut(sc, k)
    {
      if FansOut(sc, i) { return Refuse(ReplicasPerPeerUnsupported); }
    }
    for i := 0 to |peers|
      invariant forall k :: 0 <= k < i ==> peers[k].siteIndex.Some?
    {
      if peers[i].siteIndex.None? { return Refuse(PeerSiteIndexMissing); }
    }
    for i := 0 to |peers|
      invariant forall k :: 0 <= k < i ==> !OutOfRange(peers[k], layout)
    {
      var idx := peers[i].siteIndex.value;
      if idx < 0 || idx >= layout.maxSites { return Refuse(PeerSiteIndexOutOfRange); }
    }
    var byIndex: map<int, string> := map[];
    for i := 0 to |peers|
      invariant forall x :: x in byIndex <==> exists k :: 0 <= k < i && peers[k].siteIndex == Some(x)
      invariant forall j, k :: 0 <= j < k < i ==> peers[j].siteIndex != peers[k].siteIndex
    {
      var idx := peers[i].siteIndex.value;
      if idx in byIndex { return Refuse(PeerSiteIndexCollision); }
      byIndex := byIndex[idx := peers[i].name];
    }
    return APPROVED;
  }

  // ---- The verdicts, told from the fields ------------------------------------

  /** Which segments are approved, and what each refusal means: a segment is out of
      range when it has no RID at all. */
  lemma SegmentVerdictMeans(sd: Database, siblings: seq<Database>, layout: Layout)
    ensures
      var v, segment := SegmentVerdict(sd, siblings, layout), if sd.ridSegment.Some? then sd.ridSegment.value else 0;
      var taken := exists i :: 0 <= i < |siblings| && !(siblings[i].name == sd.name && siblings[i].namespace == sd.namespace)
                     && siblings[i].clusterRef == sd.clusterRef && siblings[i].ridSegment == sd.ridSegment;
      && (v.ok <==> sd.ridSegment.Some? && layout.LocalRid(segment, 0).Ok? && !taken)
      && (v.ok ==> v.segment == segment && v.reason == RidSegmentUnique) && (!v.ok ==> v.segment == 0)
      && (v.reason == RidLayoutInvalid <==> layout.LocalRid(segment, 0) == Err(InvalidLayout))
      && (v.reason == RidSegmentMissing <==> layout.Valid() && sd.ridSegment.None?)
      && (v.reason == RidSegmentOutOfRange <==> sd.ridSegment.Some? && layout.LocalRid(segment, 0) == Err(SegmentOutOfRange))
      && (v.reason == RidSegmentCollision <==> sd.ridSegment.Some? && layout.LocalRid(segment, 0).Ok? && taken)
  {
    if layout.Valid() && sd.ridSegment.Some? {
      forall i | 0 <= i < |siblings|
        ensures Collides(sd, siblings[i], sd.ridSegment.value) <==>
          !(siblings[i].name == sd.name && siblings[i].namespace == sd.namespace)
          && siblings[i].clusterRef == sd.clusterRef && siblings[i].ridSegment == sd.ridSegment
      {
      }
    }
  }

  /** The fleet is refused exactly when some pod of it has no RID in a segment that
      exists, or when a consumer-only cluster asks for read replicas. */
  lemma FleetVerdictMeans(sc: Cluster, layout: Layout, segment: int)
    requires layout.CheckSegment(segment).None?
    ensures
      var v, n := FleetVerdict(sc, layout), if sc.replicas == 0 then 1 else sc.replicas;
      var short := exists o :: 0 <= o < n && layout.LocalRid(segment, o).Err?;
      && (v.reason == PodsPerSiteExceeded <==> short)
      && (v.reason == ConsumerOnlyReadReplicas <==> !short && sc.consumerOnly && sc.readReplicas > 0)
      && (v.ok <==> !short && !(sc.consumerOnly && sc.readReplicas > 0))
  {
    var n := if sc.replicas == 0 then 1 else sc.replicas;
    if n > layout.podsPerSite { assert layout.LocalRid(segment, n - 1).Err?; }
  }

  predicate AboveOne(value: Option<int>) {
    value.Some? && value.value > 1
  }

  /** Some link asks for more than one: by its own value, or by the cluster's. */
  ghost predicate SomeFanOut(sc: Cluster) {
    exists i :: 0 <= i < |sc.peers| && AsksForMore(sc, sc.peers[i])
  }

  predicate AsksForMore(sc: Cluster, p: Peer) {
    AboveOne(p.replicasPerPeer) || AboveOne(sc.replicasPerPeer)
  }

  ghost predicate SomeIndexMissing(ps: seq<Peer>) {
    exists i :: 0 <= i < |ps| && ps[i].siteIndex.None?
  }

  ghost predicate SomeIndexOutside(ps: seq<Peer>, layout: Layout) {
    exists i :: 0 <= i < |ps| && ps[i].siteIndex.Some? && (ps[i].siteIndex.value < 0 || ps[i].siteIndex.value >= layout.maxSites)
  }

  ghost predicate SomeIndexTwice(ps: seq<Peer>) {
    exists i, j :: 0 <= i < j < |ps| && ps[i].siteIndex.Some? && ps[i].siteIndex == ps[j].siteIndex
  }

  /** The verdict on a peer list from its declared values: a fan-out in force above
      one, an index missing, an index outside the layout, an index twice, in that
      order; approved exactly when there is none of these. */
  lemma PeersVerdictMeans(sc: Cluster, layout: Layout)
    ensures
      var v, ps := PeersVerdict(sc, layout), sc.peers;
      v == if SomeFanOut(sc) then Refuse(ReplicasPerPeerUnsupported)
           else if SomeIndexMissing(ps) then Refuse(PeerSiteIndexMissing)
           else if SomeIndexOutside(ps, layout) then Refuse(PeerSiteIndexOutOfRange)
           else if SomeIndexTwice(ps) then Refuse(PeerSiteIndexCollision)
           else APPROVED
  {
    FanOutMeans(sc);
    OutsideMeans(sc.peers, layout);
    TwiceMeans(sc.peers);
  }

  /** Hence approval means that no declared value in force is above one. */
  lemma ApprovedMeansOneLinkEach(sc: Cluster, layout: Layout, i: int)
    requires PeersVerdict(sc, layout).ok && 0 <= i < |sc.peers|
    ensures !AboveOne(sc.peers[i].replicasPerPeer) && !AboveOne(sc.replicasPerPeer)
  {
    PeersVerdictMeans(sc, layout);
    assert !AsksForMore(sc, sc.peers[i]);
  }

  lemma FanOutMeans(sc: Cluster)
    ensures (exists i :: 0 <= i < |sc.peers| && FansOut(sc, i)) <==> SomeFanOut(sc)
  {
    forall i | 0 <= i < |sc.peers| ensures FansOut(sc, i) <==> AsksForMore(sc, sc.peers[i]) {
    }
  }

  lemma OutsideMeans(ps: seq<Peer>, layout: Layout)
    ensures (exists i :: 0 <= i < |ps| && OutOfRange(ps[i], layout)) <==> SomeIndexOutside(ps, layout)
  {
    if i :| 0 <= i < |ps| && OutOfRange(ps[i], layout) {
      assert ps[i].siteIndex.value < 0 || ps[i].siteIndex.value >= layout.maxSites;
    }
    if i :| 0 <= i < |ps| && ps[i].siteIndex.Some? && (ps[i].siteIndex.value < 0 || ps[i].siteIndex.value >= layout.maxSites) {
      assert OutOfRange(ps[i], layout);
    }
  }

  lemma TwiceMeans(ps: seq<Peer>)
    ensures !SomeIndexMissing(ps) ==> (ShareIndex(ps) <==> SomeIndexTwice(ps))
  {
  }

  // ---- The stanzas of one pod ------------------------------------------------

  /** Either the whole fleet except the asking pod, or no map at all. */
  method InClusterStanzaRids(layout: Layout, segment: int, replicas: int, self: Option<int>)
    returns (r: Result<map<int, int>, Error>)
    ensures r.Ok? <==>
      && layout.CheckSegment(segment).None?
      && forall o :: 0 <= o < replicas && self != Some(o) ==> o < layout.podsPerSite
    ensures r.Ok? ==>
      && (forall o :: o in r.value <==> 0 <= o < replicas && self != Some(o))
      && (forall o :: o in r.value ==> layout.LocalRid(segment, o) == Ok(r.value[o]))
  {
    var probe := layout.LocalRid(segment, 0);
    if probe.Err? { return Err(probe.error); }
    var rids: map<int, int> := map[];
    var ordinal := 0;
    while ordinal < replicas
      invariant 0 <= ordinal && (if replicas >= 0 then ordinal <= replicas else ordinal == 0)
      invariant forall o :: o in rids <==> 0 <= o < ordinal && self != Some(o)
      invariant forall o :: o in rids ==> o < layout.podsPerSite && layout.LocalRid(segment, o) == Ok(rids[o])
    {
      if self != Some(ordinal) {
        var rid := layout.LocalRid(segment, ordinal);
        if rid.Err? { return Err(rid.error); }
        rids := rids[ordinal := rid.value];
      }
      ordinal := ordinal + 1;
    }
    forall o | 0 <= o < replicas && self != Some(o) ensures o < layout.podsPerSite {
      assert o in rids;
    }
    return Ok(rids);
  }

  /** A syncrepl link of a pod: to a pod of its own site, or to a peer site. */
  datatype Link = ToPod(ordinal: int) | ToSite(peer: int)

  predicate IsLink(sc: Cluster, link: Link) {
    match link
    case ToPod(o) => 0 <= o < Replicas(sc)
    case ToSite(i) => 0 <= i < |sc.peers|
  }

  function StanzaRid(layout: Layout, sd: Database, sc: Cluster, link: Link): Result<int, Error>
    requires IsLink(sc, link) && sd.ridSegment.Some?
    requires link.ToSite? ==> sc.peers[link.peer].siteIndex.Some?
  {
    match link
    case ToPod(o) => layout.LocalRid(sd.ridSegment.value, o)
    case ToSite(i) => layout.RemoteRid(sd.ridSegment.value, sc.peers[i].siteIndex.value)
  }

  /** What the pipeline requires before it writes a stanza of sd. */
  ghost predicate Approved(layout: Layout, sc: Cluster, dbs: seq<Database>, sd: Database) {
    && SegmentVerdict(sd, dbs, layout).ok && FleetVerdict(sc, layout).ok && PeersVerdict(sc, layout).ok
  }

  lemma ApprovedLinkHasRid(layout: Layout, sc: Cluster, dbs: seq<Database>, sd: Database, link: Link)
    requires Approved(layout, sc, dbs, sd) && IsLink(sc, link)
    ensures sd.ridSegment.Some? && (link.ToSite? ==> sc.peers[link.peer].siteIndex.Some?)
    ensures StanzaRid(layout, sd, sc, link).Ok? && 1 <= StanzaRid(layout, sd, sc, link).value <= MAX_RID
  {
    var segment := sd.ridSegment.value;
    match link
    case ToPod(o) => DecodeEncode(layout, Local(segment, o));
    case ToSite(i) =>
      assert !OutOfRange(sc.peers[i], layout);
      DecodeEncode(layout, Remote(segment, sc.peers[i].siteIndex.value));
  }

  /** RIDs are unique per pod.  Take any two databases of one cluster that the
      judges approved, and any link of each, local or remote: both have a RID in
      1..999, and if the RIDs are equal it is one database and one link. */
  lemma RidsAreUnique(layout: Layout, sc: Cluster, dbs: seq<Database>, i: int, j: int, a: Link, b: Link)
    requires 0 <= i < |dbs| && 0 <= j < |dbs| && dbs[i].clusterRef == dbs[j].clusterRef
    requires forall p, q :: 0 <= p < q < |dbs| ==> dbs[p].name != dbs[q].name || dbs[p].namespace != dbs[q].namespace
    requires Approved(layout, sc, dbs, dbs[i]) && Approved(layout, sc, dbs, dbs[j])
    requires IsLink(sc, a) && IsLink(sc, b)
    ensures
      && dbs[i].ridSegment.Some? && (a.ToSite? ==> sc.peers[a.peer].siteIndex.Some?)
      && dbs[j].ridSegment.Some? && (b.ToSite? ==> sc.peers[b.peer].siteIndex.Some?)
      && var x, y := StanzaRid(layout, dbs[i], sc, a), StanzaRid(layout, dbs[j], sc, b);
         && x.Ok? && y.Ok? && 1 <= x.value <= MAX_RID && 1 <= y.value <= MAX_RID
         && (x == y ==> i == j && a == b)
  {
    ApprovedLinkHasRid(layout, sc, dbs, dbs[i], a);
    ApprovedLinkHasRid(layout, sc, dbs, dbs[j], b);
    var x, y := StanzaRid(layout, dbs[i], sc, a), StanzaRid(layout, dbs[j], sc, b);
    assert i != j ==> !Collides(dbs[i], dbs[j], dbs[i].ridSegment.value);
    assert !ShareIndex(sc.peers);
    if x == y {
      var s, t := dbs[i].ridSegment.value, dbs[j].ridSegment.value;
      var c := if a.ToPod? then Local(s, a.ordinal) else Remote(s, sc.peers[a.peer].siteIndex.value);
      var d := if b.ToPod? then Local(t, b.ordinal) else Remote(t, sc.peers[b.peer].siteIndex.value);
      EncodeInjective(layout, c, d);
    }
  }

  // ---- Resolving the peers ---------------------------------------------------

  /** What one declared peer resolved to in this pass. */
  datatype Resolution = Resolution(name: string, discovery: bool, secretReadable: bool, addresses: int)

  /** The first outcome under a name. */
  function OutcomeOf(outcomes: seq<Resolution>, name: string): Option<Resolution> {
    if outcomes == [] then None
    else if outcomes[0].name == name then Some(outcomes[0])
    else OutcomeOf(outcomes[1..], name)
  }

  function JudgeOnePeerResolution(outcome: Option<Resolution>): Option<Reason> {
    if outcome.None? then Some(PeerResolutionIncomplete)
    else if !outcome.value.secretReadable then Some(PeerBindPasswordUnreadable)
    else if outcome.value.addresses > 0 then None
    else if outcome.value.discovery then Some(PeerProvidersUndiscovered)
    else Some(PeerAddressesEmpty)
  }

  predicate Resolved(r: Resolution) {
    r.secretReadable && r.addresses > 0
  }

  /** Every declared peer's outcome, found by name, is a resolved one. */
  ghost predicate AllOutcomesResolved(peers: seq<Peer>, outcomes: seq<Resolution>) {
    forall i :: 0 <= i < |peers| ==>
      OutcomeOf(outcomes, peers[i].name).Some? && Resolved(OutcomeOf(outcomes, peers[i].name).value)
  }

  lemma {:induction false} OutcomeSnoc(outcomes: seq<Resolution>, r: Resolution, name: string)
    ensures OutcomeOf(outcomes + [r], name) ==
      if OutcomeOf(outcomes, name).Some? then OutcomeOf(outcomes, name)
      else if r.name == name then Some(r) else None
  {
    if outcomes == [] {
      assert outcomes + [r] == [r];
    } else {
      assert (outcomes + [r])[0] == outcomes[0] && (outcomes + [r])[1..] == outcomes[1..] + [r];
      OutcomeSnoc(outcomes[1..], r, name);
    }
  }

  ghost predicate Tabulates(outcomes: seq<Resolution>, byName: map<string, Resolution>) {
    forall name :: OutcomeOf(outcomes, name) == if name in byName then Some(byName[name]) else None
  }

  /** Approval means every declared peer resolved; a refusal gives the reason of
      the first declared peer that did not. */
  method JudgePeerResolutions(peers: seq<Peer>, outcomes: seq<Resolution>) returns (v: Verdict)
    ensures v.ok <==> AllOutcomesResolved(peers, outcomes)
    ensures v.ok ==> v == APPROVED
    ensures !v.ok ==> exists i ::
      && 0 <= i < |peers|
      && JudgeOnePeerResolution(OutcomeOf(outcomes, peers[i].name)) == Some(v.reason)
      && forall k :: 0 <= k < i ==> JudgeOnePeerResolution(OutcomeOf(outcomes, peers[k].name)).None?
  {
    var byName: map<string, Resolution> := map[];
    for i := 0 to |outcomes|
      invariant Tabulates(outcomes[..i], byName)
    {
      var o := outcomes[i];
      ghost var done, before := outcomes[..i], byName;
      assert outcomes[..i + 1] == done + [o];
      if o.name !in byName {
        byName := byName[o.name := o];
      }
      forall name ensures OutcomeOf(done + [o], name) == if name in byName then Some(byName[name]) else None {
        OutcomeSnoc(done, o, name);
        assert OutcomeOf(done, name) == if name in before then Some(before[name]) else None;
      }
    }
    assert outcomes[..|outcomes|] == outcomes;
    var reason: Option<Reason> := None;
    ghost var first := 0;
    for i := 0 to |peers|
      invariant reason.None? ==> forall k :: 0 <= k < i ==> JudgeOnePeerResolution(OutcomeOf(outcomes, peers[k].name)).None?
      invariant reason.Some? ==>
        && 0 <= first < i && JudgeOnePeerResolution(OutcomeOf(outcomes, peers[first].name)) == reason
        && forall k :: 0 <= k < first ==> JudgeOnePeerResolution(OutcomeOf(outcomes, peers[k].name)).None?
    {
      var name := peers[i].name;
      var r := JudgeOnePeerResolution(if name in byName then Some(byName[name]) else None);
      assert OutcomeOf(outcomes, name) == if name in byName then Some(byName[name]) else None;
      if r.Some? && reason.None? {
        reason, first := r, i;
      }
    }
    if reason.None? {
      forall i | 0 <= i < |peers|
        ensures OutcomeOf(outcomes, peers[i].name).Some? && Resolved(OutcomeOf(outcomes, peers[i].name).value)
      {
        assert JudgeOnePeerResolution(OutcomeOf(outcomes, peers[i].name)).None?;
      }
      return APPROVED;
    }
    return Refuse(reason.value);
  }

  /** The outcome of a name is its first one. */
  predicate IsFirst(outcomes: seq<Resolution>, name: string, k: int) {
    0 <= k < |outcomes| && outcomes[k].name == name && forall j :: 0 <= j < k ==> outcomes[j].name != name
  }

  lemma {:induction false} FirstOutcome(outcomes: seq<Resolution>, name: string) returns (k: int)
    ensures OutcomeOf(outcomes, name).None? ==> forall j :: 0 <= j < |outcomes| ==> outcomes[j].name != name
    ensures OutcomeOf(outcomes, name).Some? ==> IsFirst(outcomes, name, k) && OutcomeOf(outcomes, name) == Some(outcomes[k])
  {
    k := 0;
    if outcomes != [] && outcomes[0].name != name {
      var r := FirstOutcome(outcomes[1..], name);
      k := r + 1;
      assert forall j :: 1 <= j < |outcomes| ==> outcomes[j] == outcomes[1..][j - 1];
    }
  }

  ghost predicate FirstResolves(outcomes: seq<Resolution>, name: string) {
    exists k :: IsFirst(outcomes, name, k) && Resolved(outcomes[k])
  }

  ghost predicate SomeResolves(outcomes: seq<Resolution>, name: string) {
    exists k :: 0 <= k < |outcomes| && outcomes[k].name == name && Resolved(outcomes[k])
  }

  predicate ReportedOnce(outcomes: seq<Resolution>) {
    forall j, k :: 0 <= j < k < |outcomes| ==> outcomes[j].name != outcomes[k].name
  }

  lemma FirstDecides(outcomes: seq<Resolution>, name: string)
    ensures OutcomeOf(outcomes, name).Some? && Resolved(OutcomeOf(outcomes, name).value) <==> FirstResolves(outcomes, name)
    ensures ReportedOnce(outcomes) ==> (FirstResolves(outcomes, name) <==> SomeResolves(outcomes, name))
  {
    var f := FirstOutcome(outcomes, name);
    if ReportedOnce(outcomes) && SomeResolves(outcomes, name) {
      var k :| 0 <= k < |outcomes| && outcomes[k].name == name && Resolved(outcomes[k]);
      assert IsFirst(outcomes, name, k);
    }
  }

  /** Whatever was handed over, short, reordered or repeated: approval holds exactly
      when the first outcome under every declared peer's name is a readable credential
      and at least one address.  When no name was reported twice, that is: when every
      declared peer has such an outcome. */
  lemma NoShortSetIsApproved(peers: seq<Peer>, outcomes: seq<Resolution>)
    ensures AllOutcomesResolved(peers, outcomes) <==>
      forall i :: 0 <= i < |peers| ==> FirstResolves(outcomes, peers[i].name)
    ensures ReportedOnce(outcomes) ==>
      (AllOutcomesResolved(peers, outcomes) <==> forall i :: 0 <= i < |peers| ==> SomeResolves(outcomes, peers[i].name))
  {
    forall i | 0 <= i < |peers|
      ensures OutcomeOf(outcomes, peers[i].name).Some? && Resolved(OutcomeOf(outcomes, peers[i].name).value) <==>
        FirstResolves(outcomes, peers[i].name)
      ensures ReportedOnce(outcomes) ==> (FirstResolves(outcomes, peers[i].name) <==> SomeResolves(outcomes, peers[i].name))
    {
      FirstDecides(outcomes, peers[i].name);
    }
  }

  /** What each refusal says of the peer: no outcome at all, an unreadable credential
      whatever else, and only then no address, by how addresses are found. */
  lemma ResolutionReasonMeans(outcomes: seq<Resolution>, name: string)
    ensures
      var r := JudgeOnePeerResolution(OutcomeOf(outcomes, name));
      && (r == Some(PeerResolutionIncomplete) <==> forall k :: 0 <= k < |outcomes| ==> outcomes[k].name != name)
      && (r == Some(PeerBindPasswordUnreadable) <==> exists k :: IsFirst(outcomes, name, k) && !outcomes[k].secretReadable)
      && (r == Some(PeerProvidersUndiscovered) <==>
            exists k :: IsFirst(outcomes, name, k) && outcomes[k].secretReadable && outcomes[k].addresses <= 0 && outcomes[k].discovery)
      && (r == Some(PeerAddressesEmpty) <==>
            exists k :: IsFirst(outcomes, name, k) && outcomes[k].secretReadable && outcomes[k].addresses <= 0 && !outcomes[k].discovery)
      && (r.None? <==> exists k :: IsFirst(outcomes, name, k) && outcomes[k].secretReadable && outcomes[k].addresses > 0)
  {
    var f := FirstOutcome(outcomes, name);
    assert forall j, k :: IsFirst(outcomes, name, j) && IsFirst(outcomes, name, k) ==> j == k;
  }

  // ---- Repeated peer names ---------------------------------------------------

  /** One outcome per declared peer, in declared order: what the resolution loop
      hands over. */
  ghost predicate InDeclaredOrder(peers: seq<Peer>, outcomes: seq<Resolution>) {
    |outcomes| == |peers| && forall i :: 0 <= i < |peers| ==> outcomes[i].name == peers[i].name
  }

  predicate NamesDiffer(peers: seq<Peer>) {
    forall i, j :: 0 <= i < j < |peers| ==> peers[i].name != peers[j].name
  }

  /** Approval says of every outcome handed over that it resolved. */
  ghost predicate ApprovalIsExact(peers: seq<Peer>) {
    forall outcomes :: InDeclaredOrder(peers, outcomes) ==>
      (AllOutcomesResolved(peers, outcomes) <==> forall i :: 0 <= i < |outcomes| ==> Resolved(outcomes[i]))
  }

  lemma OwnOutcome(peers: seq<Peer>, outcomes: seq<Resolution>, i: int)
    requires InDeclaredOrder(peers, outcomes) && NamesDiffer(peers) && 0 <= i < |peers|
    ensures OutcomeOf(outcomes, peers[i].name) == Some(outcomes[i])
  {
    var k := FirstOutcome(outcomes, peers[i].name);
    assert outcomes[i].name == peers[i].name;
    assert outcomes[k].name == peers[k].name;
  }

  /** A name declared again, anywhere in any list, hides a failure: everything else
      may resolve, and the list is approved. */
  lemma RepeatedNameHidesAFailure(peers: seq<Peer>, i: int, j: int) returns (outcomes: seq<Resolution>)
    requires 0 <= i < j < |peers| && peers[i].name == peers[j].name
    ensures InDeclaredOrder(peers, outcomes) && AllOutcomesResolved(peers, outcomes) && !Resolved(outcomes[j])
  {
    outcomes := seq(|peers|, k requires 0 <= k < |peers| => Resolution(peers[k].name, false, k != j, 1));
    forall p | 0 <= p < |peers|
      ensures OutcomeOf(outcomes, peers[p].name).Some? && Resolved(OutcomeOf(outcomes, peers[p].name).value)
    {
      var k := FirstOutcome(outcomes, peers[p].name);
      assert outcomes[p].name == peers[p].name && outcomes[i].name == outcomes[j].name;
    }
  }

  /** So approval is exact, for every result of the resolution loop, if and only if
      the declared names are distinct. */
  lemma ApprovalIsExactIffNamesDiffer(peers: seq<Peer>)
    ensures ApprovalIsExact(peers) <==> NamesDiffer(peers)
  {
    if NamesDiffer(peers) {
      forall outcomes | InDeclaredOrder(peers, outcomes)
        ensures AllOutcomesResolved(peers, outcomes) <==> forall i :: 0 <= i < |outcomes| ==> Resolved(outcomes[i])
      {
        forall i | 0 <= i < |peers| ensures OutcomeOf(outcomes, peers[i].name) == Some(outcomes[i]) { OwnOutcome(peers, outcomes, i); }
      }
    } else {
      var i, j :| 0 <= i < j < |peers| && peers[i].name == peers[j].name;
      var outcomes := RepeatedNameHidesAFailure(peers, i, j);
      assert InDeclaredOrder(peers, outcomes) && AllOutcomesResolved(peers, outcomes) && !Resolved(outcomes[j]);
    }
  }
}
