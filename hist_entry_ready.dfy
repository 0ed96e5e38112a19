/**
 * The older entry of the root gpu-cache-hist.h: its ready state is called
 * HIST_READY, `allocate(key, time)` always makes the line wait, and the
 * entry carries a pointer to the list of filtered memory requests.
 */
module HistEntryReady {
  import opened MachineTypes

  /** State of one line in this variant. */
  datatype EntryStatus = Invalid | Wait | Ready

  /**
   * Outcome of a probe in this variant. It only records the enumeration: the
   * older header declares `probe` without a body, so nothing here returns it.
   */
  datatype RequestStatus = HitWait | HitReady | Miss | Full

  /**
   * Stand-in for the `std::list<mem_fetch*> *` pointer: an opaque handle,
   * only ever copied, never followed.
   */
  type MemFetchListRef = nat

  class Entry {
    var status: EntryStatus
    var key: uint32
    var hi: bv32
    var allocTime: uint32
    var lastAccessTime: uint32
    var fillTime: uint32
    var filteredMf: MemFetchListRef

    /** Leaves `filteredMf` as it finds it: the constructor does not set it. */
    constructor ()
      ensures status == Invalid && key == 0 && hi == 0
      ensures allocTime == 0 && fillTime == 0 && lastAccessTime == 0
    {
      status := Invalid;
      key := 0;
      hi := 0;
      allocTime := 0;
      fillTime := 0;
      lastAccessTime := 0;
    }

    /**
     * Always yields a waiting line, whatever the prior state; every field
     * except `filteredMf` is overwritten.
     */
    method Allocate(key: uint32, time: uint32)
      modifies this
      ensures status == Wait && this.key == key && hi == 0
      ensures allocTime == time && lastAccessTime == time && fillTime == 0
      ensures filteredMf == old(filteredMf)
    {
      status := Wait;
      this.key := key;
      hi := 0;
      allocTime := time;
      lastAccessTime := time;
      fillTime := 0;
    }
  }
}
