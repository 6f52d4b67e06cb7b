/** Reference-counted object heads (crates/rv-hash/src/objhead.rs). */
module ObjHeads {
  import opened Types

  /**
   * One `Arc<ObjHead>`. `serial` stands for the identity of the allocation, which
   * the tables compare with `Arc::ptr_eq`.
   */
  class ObjHead {
    const digest: Digest
    const serial: nat
    var refcnt: nat

    constructor (digest: Digest, serial: nat)
      ensures this.digest == digest && this.serial == serial && refcnt == 0
    {
      this.digest := digest;
      this.serial := serial;
      refcnt := 0;
    }

    method IncRef() returns (n: nat)
      modifies this
      ensures refcnt == old(refcnt) + 1 && n == refcnt
    {
      refcnt := refcnt + 1;
      n := refcnt;
    }

    /** The caller holds a reference: the source asserts there is no underflow. */
    method DecRef() returns (n: nat)
      requires refcnt > 0
      modifies this
      ensures refcnt == old(refcnt) - 1 && n == refcnt
    {
      refcnt := refcnt - 1;
      n := refcnt;
    }
  }
}
