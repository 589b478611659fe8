/** Snapshots of the committed transactions and the visibility of row versions. */
module Mvcc {
  const XID_NONE := 0

  datatype Snapshot = Snapshot(committed: set<nat>, own: nat) {
    /** Written by someone committed (or oneself) and not deleted by such a transaction. */
    predicate IsVisible(xmin: nat, xmax: nat) {
      && (xmin == own || xmin in committed)
      && (xmax == XID_NONE || !(xmax == own || xmax in committed))
    }
  }

  /** A transaction sees the row it wrote and not the row it deleted; of the others it sees what they had
      committed by the time of the snapshot and had not deleted by then. */
  lemma {:induction false} WhoSees(snap: Snapshot, xmin: nat, xmax: nat)
    requires snap.own != XID_NONE && XID_NONE !in snap.committed
    ensures xmin == snap.own && xmax == XID_NONE ==> snap.IsVisible(xmin, xmax)
    ensures xmax == snap.own ==> !snap.IsVisible(xmin, xmax)
    ensures xmin != snap.own && xmin !in snap.committed ==> !snap.IsVisible(xmin, xmax)
    ensures xmin in snap.committed && xmax == XID_NONE ==> snap.IsVisible(xmin, xmax)
    ensures xmin in snap.committed && xmax in snap.committed ==> !snap.IsVisible(xmin, xmax)
    ensures xmin in snap.committed && xmax != snap.own && xmax !in snap.committed ==> snap.IsVisible(xmin, xmax)
  {
  }

  class TxManager {
    var committed: set<nat>

    constructor ()
      ensures committed == {}
    {
      committed := {};
    }

    method MarkCommitted(xid: nat)
      modifies this
      ensures committed == old(committed) + {xid}
    {
      committed := committed + {xid};
    }

    /** Copies the set; later commits do not reach the snapshot. */
    method TakeSnapshot(own: nat) returns (snap: Snapshot)
      ensures snap == Snapshot(committed, own)
    {
      var copied: set<nat>, rest := {}, committed;
      while rest != {}
        invariant copied + rest == committed
        decreases rest
      {
        var xid :| xid in rest;
        copied := copied + {xid};
        rest := rest - {xid};
      }
      snap := Snapshot(copied, own);
    }
  }
}
