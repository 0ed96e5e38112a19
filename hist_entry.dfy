/**
 * One line of the HIST table, as declared in gpgpu-sim/gpu-cache-hist.h:
 * the two enumerations and the entry struct with its default constructor
 * and its `allocate(status, key, time)`.
 */
module HistEntry {
  import opened MachineTypes

  /** State of one line (hist_entry_status). */
  datatype EntryStatus = Invalid | Wait | NotWait

  /** Outcome of a probe (hist_request_status). */
  datatype RequestStatus = HitWait | HitNotWait | Miss | Full

  /** The enumerator value C++ gives each state, in declaration order. */
  function StatusCode(s: EntryStatus): (c: nat)
    ensures c < 3
  {
    match s
    case Invalid => 0
    case Wait => 1
    case NotWait => 2
  }

  /** Inverse of StatusCode: every value below 3 names exactly one state. */
  function StatusOfCode(c: nat): (s: EntryStatus)
    requires c < 3
    ensures StatusCode(s) == c
  {
    if c == 0 then Invalid else if c == 1 then Wait else NotWait
  }

  /** The enumerator value C++ gives each probe outcome, in declaration order. */
  function RequestCode(r: RequestStatus): (c: nat)
    ensures c < 4
  {
    match r
    case HitWait => 0
    case HitNotWait => 1
    case Miss => 2
    case Full => 3
  }

  /** Inverse of RequestCode: every value below 4 names exactly one outcome. */
  function RequestOfCode(c: nat): (r: RequestStatus)
    requires c < 4
    ensures RequestCode(r) == c
  {
    if c == 0 then HitWait else if c == 1 then HitNotWait else if c == 2 then Miss else Full
  }

  /** The value held by one entry: every field of hist_entry_t. */
  datatype EntryState = EntryState(
    status: EntryStatus,
    key: uint32,
    hi: bv32,              // m_HI, the interest bitmask
    allocTime: uint32,
    lastAccessTime: uint32,
    fillTime: uint32)

  /** What the default constructor leaves in an entry. */
  function DefaultState(): EntryState
  {
    EntryState(Invalid, 0, 0, 0, 0, 0)
  }

  /** What `allocate(status, key, time)` leaves in an entry, whatever was there before. */
  function AllocatedState(status: EntryStatus, key: uint32, time: uint32): EntryState
  {
    EntryState(status, key, 0, time, time, 0)
  }

  class Entry {
    var status: EntryStatus
    var key: uint32
    var hi: bv32
    var allocTime: uint32
    var lastAccessTime: uint32
    var fillTime: uint32

    /** The entry's fields as one value. */
    ghost function Value(): EntryState
      reads this
    {
      EntryState(status, key, hi, allocTime, lastAccessTime, fillTime)
    }

    constructor ()
      ensures status == Invalid && key == 0 && hi == 0
      ensures allocTime == 0 && fillTime == 0 && lastAccessTime == 0
      ensures Value() == DefaultState()
    {
      status := Invalid;
      key := 0;
      hi := 0;
      allocTime := 0;
      fillTime := 0;
      lastAccessTime := 0;
    }

    /**
     * Overwrites every field. The new state depends only on the arguments,
     * so the interest mask is cleared whatever it held and a second call
     * with the same arguments leaves the same entry.
     */
    method Allocate(status: EntryStatus, key: uint32, time: uint32)
      modifies this
      ensures this.status == status && this.key == key && hi == 0
      ensures allocTime == time && lastAccessTime == time && fillTime == 0
      ensures Value() == AllocatedState(status, key, time)
    {
      this.status := status;
      this.key := key;
      hi := 0;
      allocTime := time;
      lastAccessTime := time;
      fillTime := 0;
    }
  }
}
