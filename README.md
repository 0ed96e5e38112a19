# HIST table (GPGPU-Sim HIST) in Dafny

This project models the per-SM **HIST table** of GPGPU-Sim's HIST extension
and proves properties of the model. The table is a set-associative
directory that coalesces misses. It is one fixed array of `assoc × nset`
entries, with `assoc` consecutive entries per set. Each entry has:

- a state: `HIST_INVALID`, `HIST_WAIT` or `HIST_NOT_WAIT`;
- a 32-bit key;
- an interest bitmask `m_HI`;
- three timestamps.

The model covers the operations of `HIST_table` in `gpu-cache-hist.cc`:

- the constructor;
- `probe`: hit, miss with a free line or an LRU victim, or full;
- `hist_home_distance` and `hist_home_abDistance`: ring offsets with a
  "too far" sentinel;
- `allocate`;
- `add`: sets one interest bit.

It also covers the entry struct of `gpgpu-sim/gpu-cache-hist.h` and the
older entry struct of the root `gpu-cache-hist.h`.

Files and modules:

- `machine_types.dfy` (`MachineTypes`): `uint32` and `uint64` (`unsigned` and
  `new_addr_type`), and `LowWord`, the implicit narrowing of a 64-bit value
  to `unsigned`.
- `hist_entry.dfy` (`HistEntry`): the two enumerations, the value
  `EntryState` of an entry, and class `Entry`, which has the default
  constructor and `Allocate(status, key, time)`.
- `hist_entry_ready.dfy` (`HistEntryReady`): the older entry, which uses the
  `HIST_READY` naming. Its `Allocate(key, time)` always makes the line wait
  and leaves `filtered_mf` alone.
- `hist_probe.dfy` (`HistProbe`): a reference definition of probe's scan
  over one set (`ScanWays`, `ProbeOf`), and the lemmas that characterise it.
- `hist_ring.dfy` (`HistRing`): the ring offset scan (`FirstOffsetFrom`) and
  its lemmas.
- `hist_table.dfy` (`HistTable`): class `HistTable`, the configuration it
  reads, the interest-mask functions, and a client `MissThenAllocate`.

The table holds an `array<Entry>` of distinct entry objects. A ghost
sequence `Contents` holds their values, and `Valid()` ties the two together.
`Probe` has no `modifies` clause, so it cannot change the table. This
matches the C++ `const`. Its loop is proved equal to `ProbeOf`. `Allocate`
and `Add` each state the whole new `Contents`: only entry `idx` changes.

Arithmetic follows the C++ types:

- The scan's accumulators start at `(unsigned)-1` (`UnsignedMax`).
- The tag is 64 bits wide. Probe compares it with the 32-bit key widened to
  64 bits.
- `allocate` narrows the tag modulo 2^32 (`LowWord`).
- The `1<<31` macro is INT_MIN (`TooFar`, -2^31).
- `m_HI` is a `bv32`.

`cache_config::set_index_hist` and `key_hist` are defined outside
`gpu-cache-hist.cc`, `gpu-cache-hist.h` and `gpgpu-sim/gpu-cache-hist.h`. They are function-valued fields of `CacheConfig`. `ConfigOk`
assumes only that every set index is below `nset`, and that an entry index
is never `(unsigned)-1`.

How `probe` picks a line, as the code in `gpu-cache-hist.cc` does it:

- Among invalid ways it takes the *last* one, because `invalid_line` is
  overwritten on every invalid way.
- Among `NOT_WAIT` ways it takes the first one of least
  `m_last_access_time`; it looks at no other field.
- The current header `gpgpu-sim/gpu-cache-hist.h` calls the ready state
  `HIST_NOT_WAIT`. The older root `gpu-cache-hist.h` calls it `HIST_READY`,
  and its `hist_request_status` (`HistEntryReady.RequestStatus`) only
  records that enumeration, since that header declares `probe` without a body.

Edge cases the lemmas make explicit:

- A matching key on an `INVALID` line is never a hit (`ProbeHitIsFirstMatch`).
- A `NOT_WAIT` line whose `m_last_access_time` is `0xFFFFFFFF` is never
  chosen as a victim. Its timestamp is not below the scan's starting value,
  so a set of such lines reports `FULL` (`Evictable`, `ProbeFullExactly`).
- A tag of 2^32 or more can never hit (`ProbeWideTagNeverHits`).
- When `2W > N`, `hist_home_abDistance` need not return the shortest
  offset (`AbOffsetNotShortest`). When `2W <= N` it always does
  (`HomeAbOffsetLeast`).

## Model

| member | source | states |
|---|---|---|
| `MachineTypes.LowWord` | gpgpu-sim/gpu-cache-hist.h:27 | passing a 64-bit key to the `unsigned` parameter keeps its value modulo 2^32; the value is unchanged exactly when it is below 2^32 |
| `HistEntry.StatusCode` | gpgpu-sim/gpu-cache-hist.h:3-7 | each of the three entry states has an enumerator value below 3 |
| `HistEntry.StatusOfCode` | gpgpu-sim/gpu-cache-hist.h:3-7 | every value 0, 1, 2 names a state whose code it is, so the states are exactly three |
| `HistEntry.RequestCode` | gpgpu-sim/gpu-cache-hist.h:9-14 | each of the four probe outcomes has an enumerator value below 4 |
| `HistEntry.RequestOfCode` | gpgpu-sim/gpu-cache-hist.h:9-14 | every value 0 to 3 names an outcome whose code it is, so the outcomes are exactly four |
| `HistEntry.DefaultState` | gpgpu-sim/gpu-cache-hist.h:18-26 | the value of a default entry, with no contract of its own; `HistEntry.Entry.constructor` and `ProbeFreshSet` state what it holds and how probe treats it |
| `HistEntry.AllocatedState` | gpgpu-sim/gpu-cache-hist.h:27-35 | the value `allocate` leaves, with no contract of its own; `HistEntry.Entry.Allocate`, `HistTable.HistTable.Allocate` and `ProbeAfterAllocate` state what it holds and how probe treats it |
| `HistEntry.Entry.constructor` | gpgpu-sim/gpu-cache-hist.h:18-26 | a default entry is `HIST_INVALID` with key 0, `m_HI` 0 and all three timestamps 0 |
| `HistEntry.Entry.Allocate` | gpgpu-sim/gpu-cache-hist.h:27-35 | sets status and key to the arguments, clears `m_HI` whatever it held, sets alloc and last-access time to `time` and fill time to 0; the new state does not depend on the old one, so a repeated call gives the same entry |
| `HistEntryReady.Entry.constructor` | gpu-cache-hist.h:18-26 | the older default entry is `HIST_INVALID` with key, `m_HI` and timestamps 0 |
| `HistEntryReady.Entry.Allocate` | gpu-cache-hist.h:27-35 | always yields `HIST_WAIT`, never `INVALID`, whatever the prior state; clears `m_HI`, sets alloc and last-access time to `time` and fill time to 0; keeps `filtered_mf` |
| `HistProbe.ScanStep` | gpu-cache-hist.cc:36-58 | one loop iteration: it returns early exactly on a line holding the tag in a non-invalid state, with that line's index and `HIT_WAIT` exactly when the line is `WAIT`; otherwise it never raises the recorded timestamp |
| `HistProbe.ScanWays` | gpu-cache-hist.cc:29-59 | the loop after `k` ways: an early return lies in those ways and the recorded timestamp never exceeds `(unsigned)-1`; `FoundPersists`, `ScanFoundIsFirstMatch` and `ScanningSummary` characterise it fully |
| `HistProbe.ProbeOf` | gpu-cache-hist.cc:29-69 | the reference result of `probe` over one set, with no contract of its own; `ProbeHitIsFirstMatch`, `ProbeMissPrefersLastInvalid`, `ProbeMissEvictsLeastRecent`, `ProbeFullExactly` and `ProbeIndexInSet` characterise every outcome |
| `HistProbe.FoundPersists` | gpu-cache-hist.cc:36-42 | once the scan has returned a hit, later ways do not change the outcome (early return) |
| `HistProbe.ScanFoundIsFirstMatch` | gpu-cache-hist.cc:29-46 | after any number of ways, the scan has hit exactly when one of those ways holds the tag in a non-invalid state, and the hit is the first such way with the kind its state gives |
| `HistProbe.ScanningSummary` | gpu-cache-hist.cc:22-58 | with no hit yet, `invalid_line` is the last invalid way or `(unsigned)-1` when there is none; `valid_line` and `valid_timestamp` are the first `NOT_WAIT` way of least timestamp below `0xFFFFFFFF` and its timestamp, or `(unsigned)-1` when there is none |
| `HistProbe.ProbeHitIsFirstMatch` | gpu-cache-hist.cc:29-46 | probe reports `HIT_WAIT` or `HIT_NOT_WAIT` exactly when a way holds the tag in a non-invalid state; the index is the lowest such way, and `HIT_WAIT` is reported exactly when that line is `WAIT`; a matching `INVALID` way is never a hit |
| `HistProbe.ProbeMissPrefersLastInvalid` | gpu-cache-hist.cc:48-62 | with no hit and some invalid way, the result is `MISS` at an invalid way with no invalid way after it, and so never a `NOT_WAIT` way |
| `HistProbe.ProbeMissEvictsLeastRecent` | gpu-cache-hist.cc:52-64 | with no hit and no invalid way, but some `NOT_WAIT` way below the timestamp sentinel, the result is `MISS` at a `NOT_WAIT` way (never `WAIT`) whose timestamp is no larger than any `NOT_WAIT` way's, and strictly smaller than every earlier `NOT_WAIT` way's |
| `HistProbe.ProbeFullExactly` | gpu-cache-hist.cc:61-69 | `FULL` is the result exactly when there is no hit, no invalid way and no evictable `NOT_WAIT` way; `idx` is then unchanged |
| `HistProbe.ProbeIndexInSet` | gpu-cache-hist.cc:29-31 | on a hit or a miss the index lies in the addressed set, `base <= idx < base + assoc` |
| `HistProbe.ProbeWideTagNeverHits` | gpu-cache-hist.cc:36 | a tag of 2^32 or more never equals a 32-bit key, so the result is `MISS` or `FULL` |
| `HistProbe.ProbeFreshSet` | gpu-cache-hist.cc:49-62 | in a set of default entries, probe misses on the last way, `base + assoc - 1` |
| `HistProbe.ProbeAfterAllocate` | gpu-cache-hist.cc:98-102 | allocating the line a `MISS` reported, as `WAIT` with a 32-bit tag, makes the next probe of that tag a `HIT_WAIT` on the same line |
| `HistRing.RingNode` | gpu-cache-hist.cc:77 | `(core + N + i) % N` is a node index in `0 .. N-1` |
| `HistRing.FirstOffsetFrom` | gpu-cache-hist.cc:75-81 | the result is the least offset from `i` up to `W` that reaches the target, or the sentinel exactly when none does |
| `HistRing.HomeOffset` | gpu-cache-hist.cc:72-82 | the signed distance is the sentinel exactly when no offset in `-W .. W` reaches the target, and otherwise the least such offset |
| `HistRing.HomeAbOffset` | gpu-cache-hist.cc:84-96 | the absolute distance is the sentinel exactly when no offset in `-W .. W` reaches the target, and otherwise some `d` in `0 .. W` with offset `d` or `-d` reaching it |
| `HistRing.HomeOffsetSelf` | gpu-cache-hist.cc:72-96 | with `W < N`, the signed and absolute distances of a core to itself are 0 |
| `HistRing.OffsetUnique` | gpu-cache-hist.cc:77 | with `2W < N`, distinct offsets in `-W .. W` reach distinct nodes |
| `HistRing.HomeOffsetExact` | gpu-cache-hist.cc:84-96 | with `2W < N`, a target reachable at offset `j` is reported at `j`, and its absolute distance is `abs(j)`, the least one |
| `HistRing.HomeAbOffsetLeast` | gpu-cache-hist.cc:84-96 | with `2W <= N`, including `2W == N`, the absolute distance reported for a target reachable at offset `j` is at most `abs(j)`, so it is the least one |
| `HistRing.AbOffsetNotShortest` | gpu-cache-hist.cc:87-94 | on 4 nodes with `W = 3`, core 0 reaches node 1 at offset 1, yet the absolute distance reported is 3 |
| `HistTable.WithInterest` | gpu-cache-hist.cc:106-107 | the mask `add` or-s into `m_HI`, with no contract of its own; `WithInterestSetsOneBit` and `WithInterestIdempotent` characterise it |
| `HistTable.BitIndexValue` | gpu-cache-hist.cc:106 | the shift amount `distance + W` converted to a 32-bit position keeps its value, so `Add` sets exactly bit `distance + W` |
| `HistTable.WithInterestSetsOneBit` | gpu-cache-hist.cc:106-107 | or-ing in `1 << b` sets bit `b` and keeps every other bit as it was |
| `HistTable.WithInterestIdempotent` | gpu-cache-hist.cc:106-107 | adding the same interest bit twice equals adding it once |
| `HistTable.HistTable.constructor` | gpu-cache-hist.cc:4-15 | copies core id, associativity, set count, width and cluster count; the table has `assoc × nset` distinct default entries |
| `HistTable.HistTable.Probe` | gpu-cache-hist.cc:17-70 | the loop's result and index equal the reference scan `ProbeOf` over the addressed set, so every `HistProbe` lemma applies to it; the table is unchanged |
| `HistTable.HistTable.HomeDistance` | gpu-cache-hist.cc:72-82 | returns the first offset from `-W` up to `W` that reaches the target, or the sentinel when none does |
| `HistTable.HistTable.HomeAbDistance` | gpu-cache-hist.cc:84-96 | returns the absolute value of that same first offset, or the sentinel |
| `HistTable.HistTable.Allocate` | gpu-cache-hist.cc:98-102 | entry `idx` becomes `WAIT` with the key narrowed to 32 bits, interest cleared and times set; no other entry changes |
| `HistTable.HistTable.SetInterest` | gpu-cache-hist.cc:106-108 | or-s the bit's mask into entry `i`'s `m_HI` and sets its last-access time; status, key, other times and other entries unchanged |
| `HistTable.HistTable.Add` | gpu-cache-hist.cc:104-110 | sets bit `distance + W` of entry `idx`'s `m_HI`, keeps its other bits, status and key, and sets its last-access time to `time`; no other entry changes |
| `HistTable.MissThenAllocate` | gpu-cache-hist.cc:98-102 | a probe that misses, then `allocate` on the reported index, makes the next probe `HIT_WAIT` at that index when the key fits in 32 bits; the table then differs from before only in that entry, and is unchanged when the first probe did not miss |

## Left out

- All `print`/`printf` diagnostics, `print_core_id` and the entries' `print` methods: they only produce output.
- `cache_config::set_index_hist`, `key_hist` and the configuration getters are not defined in `gpu-cache-hist.cc`, `gpu-cache-hist.h` or `gpgpu-sim/gpu-cache-hist.h`. The model takes them as given functions and values.
- The destructor and the raw `new[]` allocation of `m_hist_entries`. The model uses a Dafny array owned by the table.
- `filtered_mf` of the older entry is an opaque handle (`MemFetchListRef`). The list it points to is never modelled.
- `gpgpu_sim *m_gpu`, `cache_config &m_cache_config` and the `hist_entry_t **m_hist_table` of the older header's `HIST_table`.
- Every method of the older header's `HIST_table` declared at gpu-cache-hist.h:62-79 (`print_config`, `print_table`, `print_wait`, `get_key`, `get_set_idx`, `get_home`, both `probe`s, `hist_distance`, `hist_abDistance`, `allocate`, `add`, `ready`, `add_mf`, `fill_wait`). `gpu-cache-hist.h` declares them without bodies. `gpu-cache-hist.cc` defines the methods of the newer class, whose members differ, not these.
- gpgpu-sim/gpu-cache-hist.cc is not part of this model. It is a second constructor that allocates the array, sets `m_core_id` and prints.
- The `assert(line->m_status == HIST_INVALID)` at gpu-cache-hist.cc:44 needs no model: with three states it always holds.
- Preconditions the code assumes but does not check:
  - `Allocate` and `Add` need `idx < assoc × nset`.
  - `Add` needs `0 <= distance + W < 32`. The shift `1 << 31` on `int` is taken as the mask `0x80000000`.
  - The distance methods need `0 < N < 2^31`, `0 <= core_id < N`, `W <= N` and `core_id + N + W < 2^31` (`HistRing.RingOk`). Then the casts to `int` keep their values, neither `core_id + N + i` nor the loop's `i++` overflows `int`, and `%` only sees non-negative operands, where C's `%` and Dafny's agree. Outside these bounds the C code overflows `int`, divides by zero, or hands `%` a negative operand, where C truncates and Dafny's `%` is Euclidean; such inputs are not modelled.
- No code for a pending-delivery queue, `ready`, interest removal or range-ranked admission exists in `gpu-cache-hist.cc` or `gpgpu-sim/gpu-cache-hist.h`, so none is modelled.
