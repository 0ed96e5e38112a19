/**
 * A reference definition of what `HIST_table::probe` computes over the
 * entries of one set, and the properties of that definition.
 *
 * The ways of the set addressed by an address are the entries with global
 * indices `base .. base + assoc - 1`, where `base = set_index * assoc`. The
 * scan keeps three unsigned accumulators that start at `(unsigned)-1`: the
 * last invalid line seen, and the NOT_WAIT line with the strictly smallest
 * `last_access_time` seen so far, with that timestamp.
 */
module HistProbe {
  import opened MachineTypes
  import opened HistEntry

  /** `(unsigned)-1`, the "nothing found yet" value of the scan's accumulators. */
  const UnsignedMax: int := 0xFFFF_FFFF

  /** A probe outcome together with the index it reports (the `idx` out-parameter). */
  datatype ProbeResult = ProbeResult(status: RequestStatus, idx: int)

  /** The scan either returned early on a hit, or is still accumulating. */
  datatype Scan =
    | Found(hit: RequestStatus, index: int)
    | Scanning(invalidLine: int, validLine: int, validTs: int)

  /** A line that the probe reports as a hit for `tag`. */
  predicate Matches(e: EntryState, tag: int)
  {
    e.key as int == tag && e.status != Invalid
  }

  /**
   * A NOT_WAIT line that can become the victim: its timestamp is below the
   * scan's starting timestamp `(unsigned)-1`.
   */
  predicate Evictable(e: EntryState)
  {
    e.status == NotWait && (e.lastAccessTime as int) < UnsignedMax
  }

  /** The ways `base .. base + k - 1` exist, and no index among them is `(unsigned)-1`. */
  predicate WaysFit(contents: seq<EntryState>, base: nat, k: nat)
  {
    base + k <= |contents| && base + k <= UnsignedMax
  }

  /** One iteration of the probe loop, on line `e` at global index `index`. */
  function ScanStep(e: EntryState, index: int, tag: int, acc: Scan): (r: Scan)
    requires acc.Scanning?
    ensures r.Found? <==> Matches(e, tag)
    ensures r.Found? ==> r.index == index && (r.hit == HitWait <==> e.status == Wait)
    ensures r.Scanning? ==> r.validTs <= acc.validTs
  {
    if e.key as int == tag && e.status == Wait then Found(HitWait, index)
    else if e.key as int == tag && e.status == NotWait then Found(HitNotWait, index)
    else if e.status == Invalid then acc.(invalidLine := index)
    else if e.status == NotWait && (e.lastAccessTime as int) < acc.validTs then
      acc.(validTs := e.lastAccessTime as int, validLine := index)
    else acc
  }

  /** The scan after its first `k` ways. */
  function ScanWays(contents: seq<EntryState>, base: nat, tag: int, k: nat): (r: Scan)
    requires WaysFit(contents, base, k)
    ensures r.Found? ==> base <= r.index < base + k
    ensures r.Scanning? ==> r.validTs <= UnsignedMax
  {
    if k == 0 then Scanning(UnsignedMax, UnsignedMax, UnsignedMax)
    else
      var acc := ScanWays(contents, base, tag, k - 1);
      if acc.Found? then acc else ScanStep(contents[base + k - 1], base + k - 1, tag, acc)
  }

  /**
   * The outcome of probing the set of `assoc` ways at `base` for `tag`, when
   * the caller's `idx` held `idx0`.
   */
  function ProbeOf(contents: seq<EntryState>, base: nat, assoc: nat, tag: int, idx0: int): ProbeResult
    requires WaysFit(contents, base, assoc)
  {
    match ScanWays(contents, base, tag, assoc)
    case Found(hit, index) => ProbeResult(hit, index)
    case Scanning(invalidLine, validLine, _) =>
      if invalidLine != UnsignedMax then ProbeResult(Miss, invalidLine)
      else if validLine != UnsignedMax then ProbeResult(Miss, validLine)
      else ProbeResult(Full, idx0)
  }

  /** Once the scan has returned early, scanning more ways does not change it. */
  lemma {:induction false} FoundPersists(contents: seq<EntryState>, base: nat, tag: int, k: nat, m: nat)
    requires k <= m && WaysFit(contents, base, m)
    requires ScanWays(contents, base, tag, k).Found?
    ensures ScanWays(contents, base, tag, m) == ScanWays(contents, base, tag, k)
  {
    if k < m {
      FoundPersists(contents, base, tag, k, m - 1);
    }
  }

  /**
   * The scan returns early exactly when some way matches, and then it reports
   * the first matching way with the hit kind its state gives.
   */
  lemma {:induction false} ScanFoundIsFirstMatch(contents: seq<EntryState>, base: nat, tag: int, k: nat)
    requires WaysFit(contents, base, k)
    ensures ScanWays(contents, base, tag, k).Found?
        <==> exists v :: base <= v < base + k && Matches(contents[v], tag)
    ensures var s := ScanWays(contents, base, tag, k);
      s.Found? ==>
        && base <= s.index < base + k
        && Matches(contents[s.index], tag)
        && (forall v :: base <= v < s.index ==> !Matches(contents[v], tag))
        && s.hit == (if contents[s.index].status == Wait then HitWait else HitNotWait)
  {
    if k > 0 {
      ScanFoundIsFirstMatch(contents, base, tag, k - 1);
    }
  }

  /**
   * While no way has matched, the accumulators hold the last invalid way and
   * the first evictable way of smallest timestamp, or `(unsigned)-1` when
   * there is none.
   */
  lemma {:induction false} ScanningSummary(contents: seq<EntryState>, base: nat, tag: int, k: nat)
    requires WaysFit(contents, base, k)
    requires ScanWays(contents, base, tag, k).Scanning?
    ensures var s := ScanWays(contents, base, tag, k);
      && (s.invalidLine == UnsignedMax <==> forall v :: base <= v < base + k ==> contents[v].status != Invalid)
      && (s.invalidLine != UnsignedMax ==>
            && base <= s.invalidLine < base + k
            && contents[s.invalidLine].status == Invalid
            && forall v :: s.invalidLine < v < base + k ==> contents[v].status != Invalid)
      && (s.validLine == UnsignedMax <==> forall v :: base <= v < base + k ==> !Evictable(contents[v]))
      && (s.validLine == UnsignedMax ==> s.validTs == UnsignedMax)
      && (s.validLine != UnsignedMax ==>
            && base <= s.validLine < base + k
            && Evictable(contents[s.validLine])
            && s.validTs == contents[s.validLine].lastAccessTime as int
            && (forall v :: base <= v < base + k && contents[v].status == NotWait ==>
                  s.validTs <= contents[v].lastAccessTime as int)
            && (forall v :: base <= v < s.validLine && contents[v].status == NotWait ==>
                  s.validTs < contents[v].lastAccessTime as int))
  {
    if k > 0 {
      ScanningSummary(contents, base, tag, k - 1);
    }
  }

  /**
   * `probe` reports a hit exactly when a way of the set holds the tag in a
   * non-invalid state; the hit is the lowest such way, HIT_WAIT for a WAIT
   * line and HIT_NOT_WAIT for a NOT_WAIT line. A matching INVALID way is
   * never a hit.
   */
  lemma ProbeHitIsFirstMatch(contents: seq<EntryState>, base: nat, assoc: nat, tag: int, idx0: int)
    requires WaysFit(contents, base, assoc)
    ensures var r := ProbeOf(contents, base, assoc, tag, idx0);
      && ((r.status == HitWait || r.status == HitNotWait)
            <==> exists v :: base <= v < base + assoc && Matches(contents[v], tag))
      && ((r.status == HitWait || r.status == HitNotWait) ==>
            && base <= r.idx < base + assoc
            && Matches(contents[r.idx], tag)
            && (forall v :: base <= v < r.idx ==> !Matches(contents[v], tag))
            && (r.status == HitWait <==> contents[r.idx].status == Wait))
  {
    ScanFoundIsFirstMatch(contents, base, tag, assoc);
  }

  /**
   * Without a hit, an invalid way is always preferred to any NOT_WAIT way,
   * and the one chosen is the last invalid way of the set.
   */
  lemma ProbeMissPrefersLastInvalid(contents: seq<EntryState>, base: nat, assoc: nat, tag: int, idx0: int)
    requires WaysFit(contents, base, assoc)
    requires forall v :: base <= v < base + assoc ==> !Matches(contents[v], tag)
    requires exists v :: base <= v < base + assoc && contents[v].status == Invalid
    ensures var r := ProbeOf(contents, base, assoc, tag, idx0);
      && r.status == Miss
      && base <= r.idx < base + assoc
      && contents[r.idx].status == Invalid
      && forall v :: r.idx < v < base + assoc ==> contents[v].status != Invalid
  {
    ScanFoundIsFirstMatch(contents, base, tag, assoc);
    ScanningSummary(contents, base, tag, assoc);
  }

  /**
   * Without a hit or an invalid way, the victim is a NOT_WAIT way (never a
   * WAIT way) of least `last_access_time`, the lowest way among equals.
   */
  lemma ProbeMissEvictsLeastRecent(contents: seq<EntryState>, base: nat, assoc: nat, tag: int, idx0: int)
    requires WaysFit(contents, base, assoc)
    requires forall v :: base <= v < base + assoc ==> !Matches(contents[v], tag)
    requires forall v :: base <= v < base + assoc ==> contents[v].status != Invalid
    requires exists v :: base <= v < base + assoc && Evictable(contents[v])
    ensures var r := ProbeOf(contents, base, assoc, tag, idx0);
      && r.status == Miss
      && base <= r.idx < base + assoc
      && contents[r.idx].status == NotWait
      && (forall v :: base <= v < base + assoc && contents[v].status == NotWait ==>
            contents[r.idx].lastAccessTime <= contents[v].lastAccessTime)
      && (forall v :: base <= v < r.idx && contents[v].status == NotWait ==>
            contents[r.idx].lastAccessTime < contents[v].lastAccessTime)
  {
    ScanFoundIsFirstMatch(contents, base, tag, assoc);
    ScanningSummary(contents, base, tag, assoc);
  }

  /**
   * FULL is reported exactly when there is no hit, no invalid way and no
   * evictable NOT_WAIT way; the caller's index is then left as it was.
   */
  lemma ProbeFullExactly(contents: seq<EntryState>, base: nat, assoc: nat, tag: int, idx0: int)
    requires WaysFit(contents, base, assoc)
    ensures var r := ProbeOf(contents, base, assoc, tag, idx0);
      && (r.status == Full <==>
            forall v :: base <= v < base + assoc ==>
              !Matches(contents[v], tag) && contents[v].status != Invalid && !Evictable(contents[v]))
      && (r.status == Full ==> r.idx == idx0)
  {
    ScanFoundIsFirstMatch(contents, base, tag, assoc);
    if !ScanWays(contents, base, tag, assoc).Found? {
      ScanningSummary(contents, base, tag, assoc);
    }
  }

  /** Every hit or miss names a way of the addressed set. */
  lemma ProbeIndexInSet(contents: seq<EntryState>, base: nat, assoc: nat, tag: int, idx0: int)
    requires WaysFit(contents, base, assoc)
    ensures var r := ProbeOf(contents, base, assoc, tag, idx0);
      r.status != Full ==> base <= r.idx < base + assoc
  {
    ScanFoundIsFirstMatch(contents, base, tag, assoc);
    if !ScanWays(contents, base, tag, assoc).Found? {
      ScanningSummary(contents, base, tag, assoc);
    }
  }

  /** A tag of 2^32 or more never equals a 32-bit key, so it can never hit. */
  lemma ProbeWideTagNeverHits(contents: seq<EntryState>, base: nat, assoc: nat, tag: int, idx0: int)
    requires WaysFit(contents, base, assoc)
    requires tag >= TwoTo32
    ensures ProbeOf(contents, base, assoc, tag, idx0).status in {Miss, Full}
  {
    ProbeHitIsFirstMatch(contents, base, assoc, tag, idx0);
  }

  /** In a set of default-constructed entries, a probe misses on the last way. */
  lemma ProbeFreshSet(contents: seq<EntryState>, base: nat, assoc: nat, tag: int, idx0: int)
    requires WaysFit(contents, base, assoc) && assoc > 0
    requires forall v :: base <= v < base + assoc ==> contents[v] == DefaultState()
    ensures ProbeOf(contents, base, assoc, tag, idx0) == ProbeResult(Miss, base + assoc - 1)
  {
    assert contents[base + assoc - 1].status == Invalid;
    ProbeMissPrefersLastInvalid(contents, base, assoc, tag, idx0);
  }

  /**
   * Allocating the line a MISS named, as a WAIT line with the probed tag,
   * makes the next probe of the same tag a HIT_WAIT on that same line,
   * provided the tag fits in the 32-bit key.
   */
  lemma ProbeAfterAllocate(contents: seq<EntryState>, base: nat, assoc: nat, tag: int,
                           idx0: int, idx1: int, time: uint32)
    requires WaysFit(contents, base, assoc)
    requires 0 <= tag < TwoTo32
    requires ProbeOf(contents, base, assoc, tag, idx0).status == Miss
    ensures var i := ProbeOf(contents, base, assoc, tag, idx0).idx;
      && base <= i < base + assoc
      && ProbeOf(contents[i := AllocatedState(Wait, tag as uint32, time)], base, assoc, tag, idx1)
         == ProbeResult(HitWait, i)
  {
    var i := ProbeOf(contents, base, assoc, tag, idx0).idx;
    ProbeHitIsFirstMatch(contents, base, assoc, tag, idx0);
    ProbeIndexInSet(contents, base, assoc, tag, idx0);
    var after := contents[i := AllocatedState(Wait, tag as uint32, time)];
    assert Matches(after[i], tag);
    ProbeHitIsFirstMatch(after, base, assoc, tag, idx1);
  }
}
