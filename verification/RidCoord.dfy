/** Replica IDs as coordinates in a static matrix (ridcoord.go). */
module RidCoord {
  import opened Prelude

  const MAX_RID: int := 999

  datatype Error = InvalidLayout | SegmentOutOfRange | OrdinalOutOfRange | SiteIndexOutOfRange | RidOutOfRange

  datatype Coordinate = Local(segment: int, ordinal: int) | Remote(segment: int, siteIndex: int)

  datatype Layout = Layout(podsPerSite: int, maxSites: int) {

    /** The axes are bounded one by one before they are added, so the sum cannot
        wrap in 32 bits. */
    predicate Valid() {
      && 1 <= podsPerSite <= MAX_RID && 1 <= maxSites <= MAX_RID
      && podsPerSite + maxSites <= MAX_RID
    }

    function SegmentWidth(): int {
      if Valid() then podsPerSite + maxSites else 0
    }

    function MaxSegments(): int {
      if SegmentWidth() == 0 then 0 else MAX_RID / SegmentWidth()
    }

    function CheckSegment(segment: int): Option<Error> {
      if !Valid() then Some(InvalidLayout)
      else if segment < 0 || segment >= MaxSegments() then Some(SegmentOutOfRange)
      else None
    }

    function LocalRid(segment: int, ordinal: int): Result<int, Error> {
      var e := CheckSegment(segment);
      if e.Some? then Err(e.value)
      else if ordinal < 0 || ordinal >= podsPerSite then Err(OrdinalOutOfRange)
      else Ok(1 + segment * SegmentWidth() + ordinal)
    }

    function RemoteRid(segment: int, siteIndex: int): Result<int, Error> {
      var e := CheckSegment(segment);
      if e.Some? then Err(e.value)
      else if siteIndex < 0 || siteIndex >= maxSites then Err(SiteIndexOutOfRange)
      else Ok(1 + segment * SegmentWidth() + podsPerSite + siteIndex)
    }

    function Decode(rid: int): Result<Coordinate, Error> {
      if !Valid() then Err(InvalidLayout)
      else
        var m := SegmentWidth();
        if rid < 1 || rid > MaxSegments() * m then Err(RidOutOfRange)
        else
          var offset := (rid - 1) % m;
          if offset < podsPerSite then Ok(Local((rid - 1) / m, offset))
          else Ok(Remote((rid - 1) / m, offset - podsPerSite))
    }

    /** One formula for both blocks. */
    function Encode(c: Coordinate): Result<int, Error> {
      match c
      case Local(segment, ordinal) => LocalRid(segment, ordinal)
      case Remote(segment, siteIndex) => RemoteRid(segment, siteIndex)
    }
  }

  const DEFAULT_LAYOUT := Layout(8, 12)

  /** A layout is valid exactly when a segment fits, and holds as many as fit. */
  lemma SegmentsFill(l: Layout)
    ensures l.Valid() <==> l.podsPerSite >= 1 && l.maxSites >= 1 && l.podsPerSite + l.maxSites <= MAX_RID
    ensures l.Valid() <==> l.MaxSegments() >= 1
    ensures
      var m := l.podsPerSite + l.maxSites;
      l.Valid() ==> l.MaxSegments() * m <= 999 < (l.MaxSegments() + 1) * m
  {
    if l.Valid() {
      var m := l.podsPerSite + l.maxSites;
      var q := MAX_RID / m;
      assert MAX_RID == q * m + MAX_RID % m;
      Distribute(q, 1, m);
      if q < 1 { MulMono(q, 0, m); }
    }
  }

  /** The whole band of a layout fits 1..999. */
  lemma BandFits(l: Layout, segment: int, offset: int)
    requires l.Valid() && 0 <= segment < l.MaxSegments() && 0 <= offset < l.SegmentWidth()
    ensures 1 <= 1 + segment * l.SegmentWidth() + offset <= l.MaxSegments() * l.SegmentWidth() <= MAX_RID
  {
    var m := l.SegmentWidth();
    MulMono(segment + 1, l.MaxSegments(), m);
    Distribute(segment, 1, m);
    MulMono(0, segment, m);
  }

  /** Decoding undoes encoding, on every coordinate the layout admits. */
  lemma DecodeEncode(l: Layout, c: Coordinate)
    requires l.Encode(c).Ok?
    ensures 1 <= l.Encode(c).value <= MAX_RID && l.Decode(l.Encode(c).value) == Ok(c)
  {
    var m := l.SegmentWidth();
    var offset := if c.Local? then c.ordinal else l.podsPerSite + c.siteIndex;
    BandFits(l, c.segment, offset);
    DivModUnique(l.Encode(c).value - 1, m, c.segment, offset);
  }

  /** Encoding undoes decoding, on every RID the layout can produce. */
  lemma EncodeDecode(l: Layout, rid: int)
    requires l.Decode(rid).Ok?
    ensures l.Encode(l.Decode(rid).value) == Ok(rid)
  {
    var m := l.SegmentWidth();
    var q := (rid - 1) / m;
    assert rid - 1 == q * m + (rid - 1) % m;
    if q >= l.MaxSegments() { MulMono(l.MaxSegments(), q, m); }
    if q < 0 { MulMono(q, -1, m); }
  }

  /** Hence no two coordinates share a RID. */
  lemma EncodeInjective(l: Layout, c: Coordinate, d: Coordinate)
    requires l.Encode(c).Ok? && l.Encode(c) == l.Encode(d)
    ensures c == d
  {
    DecodeEncode(l, c);
    DecodeEncode(l, d);
  }
}
