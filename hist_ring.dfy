/**
 * Ring offsets of `hist_home_distance` and `hist_home_abDistance`: the
 * `n_simt_clusters` cores form a ring, and a target core is "within width
 * w" of core `core` when some offset `i` in `-w .. w` reaches it.
 */
module HistRing {

  /**
   * The value of the macro `1<<31` returned for "too far away": as an `int`
   * it is INT_MIN.
   */
  const TooFar: int := -0x8000_0000

  /**
   * The parameters under which the source's arithmetic is meaningful: the
   * casts `(int)n_simt_clusters` and `(int)m_hist_HI_width` keep their values,
   * `core + n + i` is never negative for `i >= -w`, so C's `%` agrees with
   * Dafny's, and neither `core + n + i` nor the loop's `i++` passes INT_MAX
   * for `i <= w`.
   */
  predicate RingOk(core: int, n: int, w: int)
  {
    0 < n <= 0x7FFF_FFFF && 0 <= core < n && 0 <= w <= n
    && core + n + w <= 0x7FFF_FFFF
  }

  /** The core reached from `core` by offset `i`: `(core + n + i) % n`. */
  function RingNode(core: int, n: int, i: int): (home: int)
    requires 0 < n && 0 <= core + n + i
    ensures 0 <= home < n
  {
    (core + n + i) % n
  }

  /**
   * The first offset in `i .. w`, scanning upwards, that reaches `t`, or
   * TooFar when none does.
   */
  function FirstOffsetFrom(core: int, n: int, w: int, t: int, i: int): (r: int)
    requires RingOk(core, n, w) && -w <= i <= w + 1
    decreases w + 1 - i
    ensures r == TooFar <==> forall j :: i <= j <= w ==> RingNode(core, n, j) != t
    ensures r != TooFar ==>
      && i <= r <= w
      && RingNode(core, n, r) == t
      && forall j :: i <= j < r ==> RingNode(core, n, j) != t
  {
    if i > w then TooFar
    else if RingNode(core, n, i) == t then i
    else FirstOffsetFrom(core, n, w, t, i + 1)
  }

  /** The signed offset `hist_home_distance` reports. */
  function HomeOffset(core: int, n: int, w: int, t: int): (r: int)
    requires RingOk(core, n, w)
    ensures r == TooFar <==> forall j :: -w <= j <= w ==> RingNode(core, n, j) != t
    ensures r != TooFar ==>
      && -w <= r <= w && RingNode(core, n, r) == t
      && forall j :: -w <= j < r ==> RingNode(core, n, j) != t
  {
    FirstOffsetFrom(core, n, w, t, -w)
  }

  /** The offset `hist_home_abDistance` reports: the magnitude of that same first offset. */
  function HomeAbOffset(core: int, n: int, w: int, t: int): (r: int)
    requires RingOk(core, n, w)
    ensures r == TooFar <==> forall j :: -w <= j <= w ==> RingNode(core, n, j) != t
    ensures r != TooFar ==> 0 <= r <= w && (RingNode(core, n, r) == t || RingNode(core, n, -r) == t)
  {
    var d := HomeOffset(core, n, w, t);
    if d == TooFar then TooFar else if d >= 0 then d else -d
  }

  /** A positive multiple of `n` is at least `n`. */
  lemma MulAtLeast(n: int, d: int)
    requires 0 < n && 1 <= d
    ensures n * d >= n
  {
  }

  /** Two multiples of `n` closer than `n` are the same multiple. */
  lemma MultiplesClose(n: int, p: int, q: int)
    requires 0 < n && -n < n * p - n * q < n
    ensures p == q
  {
    assert n * p - n * q == n * (p - q);
    if p - q >= 1 {
      MulAtLeast(n, p - q);
    } else if q - p >= 1 {
      MulAtLeast(n, q - p);
    }
  }

  /** Dafny's quotient and remainder are the unique ones. */
  lemma DivModUnique(a: int, n: int, q: int, r: int)
    requires 0 < n && 0 <= r < n && a == n * q + r
    ensures a % n == r && a / n == q
  {
    MultiplesClose(n, a / n, q);
  }

  /** Two non-negative values closer than `n` with the same remainder are equal. */
  lemma ModEqualClose(a: int, b: int, n: int)
    requires 0 < n && 0 <= a && 0 <= b && a - n < b < a + n
    requires a % n == b % n
    ensures a == b
  {
    MultiplesClose(n, a / n, b / n);
  }

  /**
   * With a width smaller than the ring, the only offset from a core back to
   * itself is 0, so both distances of a core to itself are 0.
   */
  lemma HomeOffsetSelf(core: int, n: int, w: int)
    requires RingOk(core, n, w) && w < n
    ensures HomeOffset(core, n, w, core) == 0
    ensures HomeAbOffset(core, n, w, core) == 0
  {
    assert RingNode(core, n, 0) == core by {
      DivModUnique(core + n, n, 1, core);
    }
    forall j | -w <= j < 0
      ensures RingNode(core, n, j) != core
    {
      if RingNode(core, n, j) == core {
        DivModUnique(core, n, 0, core);
        ModEqualClose(core + n + j, core, n);
      }
    }
  }

  /** When `2w < n`, distinct offsets in `-w .. w` reach distinct cores. */
  lemma OffsetUnique(core: int, n: int, w: int, i: int, j: int)
    requires RingOk(core, n, w) && 2 * w < n
    requires -w <= i <= w && -w <= j <= w
    requires RingNode(core, n, i) == RingNode(core, n, j)
    ensures i == j
  {
    ModEqualClose(core + n + i, core + n + j, n);
  }

  /**
   * When `2w < n`, a target reachable by offset `j` is reported at offset `j`
   * itself and at magnitude `|j|`: the reported magnitude is then the least.
   */
  lemma HomeOffsetExact(core: int, n: int, w: int, t: int, j: int)
    requires RingOk(core, n, w) && 2 * w < n
    requires -w <= j <= w && RingNode(core, n, j) == t
    ensures HomeOffset(core, n, w, t) == j
    ensures HomeAbOffset(core, n, w, t) == if j >= 0 then j else -j
  {
    var d := HomeOffset(core, n, w, t);
    assert d != TooFar;
    OffsetUnique(core, n, w, d, j);
  }

  /**
   * When `2w <= n` the reported magnitude is still the least: two offsets in
   * `-w .. w` that reach the same core differ by `n` at most, and by exactly
   * `n` only as `-w` and `w`, which have the same magnitude.
   */
  lemma {:induction false} HomeAbOffsetLeast(core: int, n: int, w: int, t: int, j: int)
    requires RingOk(core, n, w) && 2 * w <= n
    requires -w <= j <= w && RingNode(core, n, j) == t
    ensures 0 <= HomeAbOffset(core, n, w, t) <= if j >= 0 then j else -j
  {
    var d := HomeOffset(core, n, w, t);
    assert d != TooFar;
    if d != j && j - d < n {
      ModEqualClose(core + n + j, core + n + d, n);
    }
  }

  /**
   * When `2w > n` the first offset need not be the shortest: on a ring of 4
   * cores with width 3, core 0 reaches core 1 at offset 1, yet the scan from
   * -3 stops at -3 and the absolute distance reported is 3.
   */
  lemma AbOffsetNotShortest()
    ensures RingNode(0, 4, 1) == 1
    ensures HomeOffset(0, 4, 3, 1) == -3
    ensures HomeAbOffset(0, 4, 3, 1) == 3
  {
  }
}
