/**
 * The per-SM HIST table of gpu-cache-hist.cc: a fixed array of
 * `assoc * nset` entries, `assoc` consecutive entries per set, with the
 * operations probe, hist_home_distance, hist_home_abDistance, allocate and
 * add.
 */
module HistTable {
  import opened MachineTypes
  import opened HistEntry
  import opened HistProbe
  import opened HistRing

  /**
   * The part of `cache_config` the table consumes: its four getters and the
   * two address functions, whose definitions are outside this model.
   */
  datatype CacheConfig = CacheConfig(
    histAssoc: nat,
    histNset: nat,
    histHiWidth: nat,
    nSimtClusters: nat,
    setIndexHist: uint64 -> nat,
    keyHist: uint64 -> uint64)

  /**
   * A configuration the table can work with: every address selects one of
   * the `nset` sets, and every entry index is a 32-bit value other than
   * `(unsigned)-1`.
   */
  ghost predicate ConfigOk(c: CacheConfig)
  {
    && c.histAssoc * c.histNset <= UnsignedMax
    && forall a :: c.setIndexHist(a) < c.histNset
  }

  /** The interest mask `hi` with bit `bit` set, as `add` computes it. */
  function WithInterest(hi: bv32, bit: bv32): bv32
    requires bit < 32
  {
    hi | (1 << bit)
  }

  /** Whether bit `bit` of the interest mask is set. */
  predicate HasInterest(hi: bv32, bit: bv32)
    requires bit < 32
  {
    hi & (1 << bit) != 0
  }

  /** The shift amount `distance + W` as a bit position of the 32-bit mask. */
  function BitIndex(k: int): (b: bv32)
    requires 0 <= k < 32
    ensures b < 32
  {
    k as bv32
  }

  /** `BitIndex` keeps the position: bit `k` of the mask is the bit `add` sets. */
  lemma BitIndexValue(k: int)
    requires 0 <= k < 32
    ensures BitIndex(k) as int == k
  {
    // Going through an 8-bit value keeps the solver's bit-blasting small.
    var narrow: bv8 := k as bv8;
    assert narrow as int == k;
  }

  /** Distinct single-bit masks share no bit. */
  lemma MasksDisjoint(bit: bv32, j: bv32)
    requires bit < 32 && j < 32 && bit != j
    ensures (1 as bv32 << bit) & (1 << j) == 0
  {
  }

  /** Adding an interest sets exactly its own bit and keeps every other bit. */
  lemma WithInterestSetsOneBit(hi: bv32, bit: bv32, j: bv32)
    requires bit < 32 && j < 32
    ensures HasInterest(WithInterest(hi, bit), j) <==> j == bit || HasInterest(hi, j)
  {
    if j != bit {
      MasksDisjoint(bit, j);
      assert (hi | (1 << bit)) & (1 << j) == (hi & (1 << j)) | ((1 << bit) & (1 << j));
    }
  }

  /** Adding the same interest twice is the same as adding it once. */
  lemma WithInterestIdempotent(hi: bv32, bit: bv32)
    requires bit < 32
    ensures WithInterest(WithInterest(hi, bit), bit) == WithInterest(hi, bit)
  {
  }

  /** The multiplication bound that puts every set inside the table. */
  lemma SetInsideTable(s: nat, nset: nat, assoc: nat)
    requires s < nset
    ensures s * assoc + assoc <= nset * assoc
  {
    assert nset * assoc == s * assoc + (nset - s) * assoc;
    if assoc > 0 {
      MulAtLeast(assoc, nset - s);
      assert (nset - s) * assoc == assoc * (nset - s);
    }
  }

  class HistTable {
    const config: CacheConfig
    const coreId: int
    const assoc: nat
    const nset: nat
    const hiWidth: nat
    const nSimtClusters: nat
    const entries: array<Entry>

    /** The value of each entry, index by index. */
    ghost var Contents: seq<EntryState>
    /** The table and the objects it owns: the array and each of its entries. */
    ghost const Repr: set<object>

    ghost predicate Valid()
      reads this, Repr
    {
      && this in Repr && entries in Repr
      && ConfigOk(config)
      && assoc == config.histAssoc && nset == config.histNset
      && entries.Length == assoc * nset
      && |Contents| == entries.Length
      && (forall i :: 0 <= i < entries.Length ==> entries[i] in Repr)
      && (forall i, j :: 0 <= i < j < entries.Length ==> entries[i] != entries[j])
      && (forall i :: 0 <= i < entries.Length ==> entries[i].Value() == Contents[i])
    }

    /**
     * Copies the configuration and fills the table with default entries.
     */
    constructor (config: CacheConfig, coreId: int)
      requires ConfigOk(config)
      ensures Valid() && fresh(Repr)
      ensures this.config == config && this.coreId == coreId
      ensures assoc == config.histAssoc && nset == config.histNset
      ensures hiWidth == config.histHiWidth && nSimtClusters == config.nSimtClusters
      ensures |Contents| == assoc * nset
      ensures forall i :: 0 <= i < |Contents| ==> Contents[i] == DefaultState()
    {
      var n := config.histAssoc * config.histNset;
      var es: seq<Entry> := [];
      while |es| < n
        invariant |es| <= n
        invariant forall i :: 0 <= i < |es| ==> fresh(es[i]) && es[i].Value() == DefaultState()
        invariant forall i, j :: 0 <= i < j < |es| ==> es[i] != es[j]
      {
        var e := new Entry();
        es := es + [e];
      }
      this.config := config;
      this.coreId := coreId;
      assoc := config.histAssoc;
      nset := config.histNset;
      hiWidth := config.histHiWidth;
      nSimtClusters := config.nSimtClusters;
      entries := new Entry[n](i requires 0 <= i < n => es[i]);
      Contents := seq(n, _ => DefaultState());
      Repr := {this, entries} + set i | 0 <= i < n :: es[i];
    }

    /** The index of the first way of the set `addr` selects. */
    ghost function SetBase(addr: uint64): nat
    {
      config.setIndexHist(addr) * assoc
    }

    /**
     * Scans the ways of the addressed set: a hit returns the matching way at
     * once; otherwise the last invalid way, else the least recently used
     * NOT_WAIT way, is reported as a MISS, and FULL leaves `idx` as `idx0`.
     * The table is not changed.
     */
    method Probe(addr: uint64, idx0: uint32) returns (status: RequestStatus, idx: uint32)
      requires Valid()
      ensures WaysFit(Contents, SetBase(addr), assoc)
      ensures ProbeResult(status, idx as int)
              == ProbeOf(Contents, SetBase(addr), assoc, config.keyHist(addr) as int, idx0 as int)
    {
      var setIndex := config.setIndexHist(addr);
      var tag := config.keyHist(addr);
      SetInsideTable(setIndex, nset, assoc);
      var base := setIndex * assoc;
      var invalidLine: uint32 := 0xFFFF_FFFF;
      var validLine: uint32 := 0xFFFF_FFFF;
      var validTimestamp: uint32 := 0xFFFF_FFFF;
      var way := 0;
      while way < assoc
        invariant 0 <= way <= assoc
        invariant ScanWays(Contents, base, tag as int, way)
                  == Scanning(invalidLine as int, validLine as int, validTimestamp as int)
      {
        var index := base + way;
        var line := entries[index];
        if line.key as int == tag as int {
          if line.status == Wait {
            FoundPersists(Contents, base, tag as int, way + 1, assoc);
            return HitWait, index as uint32;
          } else if line.status == NotWait {
            FoundPersists(Contents, base, tag as int, way + 1, assoc);
            return HitNotWait, index as uint32;
          }
        }
        if line.status == Invalid {
          invalidLine := index as uint32;
        } else if line.status == NotWait {
          if line.lastAccessTime < validTimestamp {
            validTimestamp := line.lastAccessTime;
            validLine := index as uint32;
          }
        }
        way := way + 1;
      }
      if invalidLine != 0xFFFF_FFFF {
        idx := invalidLine;
      } else if validLine != 0xFFFF_FFFF {
        idx := validLine;
      } else {
        return Full, idx0;
      }
      status := Miss;
    }

    /** The signed ring offset in `-W .. W` of the first scan step reaching `targetId`, else TooFar. */
    method HomeDistance(targetId: int) returns (r: int)
      requires RingOk(coreId, nSimtClusters, hiWidth)
      ensures r == HomeOffset(coreId, nSimtClusters, hiWidth, targetId)
    {
      var i: int := -(hiWidth as int);
      while i <= hiWidth
        invariant -(hiWidth as int) <= i <= hiWidth + 1
        invariant forall j :: -(hiWidth as int) <= j < i ==> RingNode(coreId, nSimtClusters, j) != targetId
      {
        var home := (coreId + nSimtClusters + i) % nSimtClusters;
        if home == targetId {
          assert RingNode(coreId, nSimtClusters, i) == targetId;
          return i;
        }
        i := i + 1;
      }
      return TooFar;
    }

    /** The magnitude of the offset HomeDistance finds, else TooFar. */
    method HomeAbDistance(targetId: int) returns (r: int)
      requires RingOk(coreId, nSimtClusters, hiWidth)
      ensures r == HomeAbOffset(coreId, nSimtClusters, hiWidth, targetId)
    {
      var i: int := -(hiWidth as int);
      while i <= hiWidth
        invariant -(hiWidth as int) <= i <= hiWidth + 1
        invariant forall j :: -(hiWidth as int) <= j < i ==> RingNode(coreId, nSimtClusters, j) != targetId
      {
        var home := (coreId + nSimtClusters + i) % nSimtClusters;
        if home == targetId && i >= 0 {
          assert RingNode(coreId, nSimtClusters, i) == targetId;
          return i;
        }
        if home == targetId && i < 0 {
          assert RingNode(coreId, nSimtClusters, i) == targetId;
          return -i;
        }
        i := i + 1;
      }
      return TooFar;
    }

    /**
     * Makes entry `idx` a WAIT line for the key of `addr` (narrowed to 32
     * bits by the `unsigned` parameter of the entry's allocate); no other
     * entry changes.
     */
    method Allocate(addr: uint64, idx: uint32, time: uint32)
      requires Valid() && (idx as int) < entries.Length
      modifies this, entries[idx]
      ensures Valid()
      ensures Contents == old(Contents)[idx as int := AllocatedState(Wait, LowWord(config.keyHist(addr)), time)]
    {
      var key := config.keyHist(addr);
      entries[idx].Allocate(Wait, LowWord(key), time);
      Contents := Contents[idx as int := entries[idx].Value()];
    }

    /**
     * Ors the single-bit mask of `bit` into entry `i` and stores the access
     * time, keeping the table's invariant.
     */
    method SetInterest(i: int, bit: bv32, time: uint32)
      requires Valid() && 0 <= i < entries.Length && bit < 32
      modifies this, entries[i]
      ensures Valid()
      ensures Contents == old(Contents)[i := old(Contents[i]).(hi := WithInterest(old(Contents[i]).hi, bit),
                                                              lastAccessTime := time)]
    {
      var line := entries[i];
      ghost var before := line.Value();
      assert before == Contents[i];
      var addHi: bv32 := 1 << bit;
      line.hi := line.hi | addHi;
      line.lastAccessTime := time;
      Contents := Contents[i := line.Value()];
    }

    /**
     * Records the requester at ring offset `distance` in entry `idx`: sets
     * bit `distance + W` of its interest mask and refreshes its access time;
     * no other field or entry changes.
     */
    method Add(idx: uint32, distance: int, time: uint32)
      requires Valid() && (idx as int) < entries.Length
      requires 0 <= distance + hiWidth < 32
      modifies this, entries[idx]
      ensures Valid()
      ensures Contents == old(Contents)[idx as int :=
        old(Contents[idx]).(hi := WithInterest(old(Contents[idx]).hi, BitIndex(distance + hiWidth)),
                            lastAccessTime := time)]
    {
      SetInterest(idx as int, BitIndex(distance + hiWidth), time);
    }
  }

  /**
   * The caller's sequence around a miss: probe, allocate the line the MISS
   * reported, probe again. When the key fits in 32 bits the second probe is
   * a HIT_WAIT on that same line.
   */
  method MissThenAllocate(t: HistTable, addr: uint64, idx0: uint32, time: uint32)
    returns (first: RequestStatus, idx: uint32, second: RequestStatus, idx2: uint32)
    requires t.Valid() && (t.config.keyHist(addr) as int) < TwoTo32
    modifies t.Repr
    ensures t.Valid()
    ensures first == Miss ==> second == HitWait && idx2 == idx
    ensures first == Miss ==>
      && (idx as int) < |old(t.Contents)|
      && t.Contents == old(t.Contents)[idx as int := AllocatedState(Wait, LowWord(t.config.keyHist(addr)), time)]
    ensures first != Miss ==> t.Contents == old(t.Contents)
  {
    first, idx := t.Probe(addr, idx0);
    second, idx2 := first, idx;
    if first == Miss {
      var tag := t.config.keyHist(addr);
      ghost var before := t.Contents;
      ProbeIndexInSet(before, t.SetBase(addr), t.assoc, tag as int, idx0 as int);
      ProbeAfterAllocate(before, t.SetBase(addr), t.assoc, tag as int, idx0 as int, idx as int, time);
      t.Allocate(addr, idx, time);
      assert LowWord(tag) == (tag as int) as uint32;
      second, idx2 := t.Probe(addr, idx);
    }
  }
}
