/** The lease rows of structure-leases.service.ts, updated in place. */
module LeaseTable {
  import opened StructureProtocol

  /** Rows that a sweep at `now` may delete. */
  function Expired(rows: set<Lease>, now: int): set<Lease> { set l | l in rows && l.expiresAt < now }

  /** The two tables count the same for every node at every moment from `now` on. */
  ghost predicate SameCounts(a: set<Lease>, b: set<Lease>, now: int) {
    forall node: Node, later: int | now <= later :: ActiveLeases(a, node, later) == ActiveLeases(b, node, later)
  }

  class Leases {
    var rows: set<Lease>
    var nextId: nat

    constructor ()
      ensures rows == {} && Valid()
    {
      rows, nextId := {}, 0;
    }

    ghost predicate Valid()
      reads this
    {
      forall l | l in rows :: l.id < nextId
    }

    /** Inserts a lease by the database clock and now and then purges expired ones at a later reading of it. */
    method Reserve(node: Node, now: int, sweeps: bool, sweptAt: int, sweepFails: bool) returns (lease: Lease)
      requires Valid() && now <= sweptAt
      modifies this
      ensures Valid() && lease !in old(rows) && lease.node == node && lease.expiresAt == now + 30_000
      // Whatever was swept, every later count is the old one plus this lease while it lasts.
      ensures SameCounts(rows, old(rows) + {lease}, sweptAt)
    {
      lease := Lease(nextId, node, now + LEASE_TTL_MS);
      rows := rows + {lease};
      nextId := nextId + 1;
      if sweeps {
        SweepExpired(sweptAt, sweepFails);
      }
    }

    method CountActive(node: Node, now: int) returns (count: nat)
      ensures count == |ActiveLeases(rows, node, now)|
      ensures count == 0 <==> forall l | l in rows && l.node == node :: l.expiresAt <= now
    {
      var active := set l | l in rows && l.node == node && l.expiresAt > now;
      assert active == ActiveLeases(rows, node, now);
      forall l | l in rows && l.node == node && |active| == 0 ensures l.expiresAt <= now {
        assert l !in active;
      }
      return |active|;
    }

    /** Deletes expired rows under a savepoint, at most one batch; a failure rolls back to it. */
    method SweepExpired(now: int, fails: bool)
      requires Valid()
      modifies this`rows
      ensures Valid() && rows <= old(rows) && (fails ==> rows == old(rows))
      ensures |old(rows) - rows| <= 500
      ensures !fails ==> |old(rows) - rows| == 500 || Expired(rows, now) == {}
      ensures SameCounts(rows, old(rows), now)
    {
      var savepoint := rows;
      var batch := PickBatch(Expired(rows, now));
      rows := rows - batch;
      assert savepoint - rows == batch;
      if fails {
        rows := savepoint;
        assert savepoint - rows == {};
      }
    }
  }

  /** SELECT with LIMIT: any rows, as many as fit in a batch. */
  method PickBatch(found: set<Lease>) returns (batch: set<Lease>)
    ensures batch <= found && |batch| <= SWEEP_BATCH_SIZE
    ensures |batch| < SWEEP_BATCH_SIZE ==> batch == found
  {
    batch := {};
    while batch != found && |batch| < SWEEP_BATCH_SIZE
      invariant batch <= found && |batch| <= SWEEP_BATCH_SIZE
      decreases SWEEP_BATCH_SIZE - |batch|
    {
      assert exists l :: l in found && l !in batch;
      var l :| l in found && l !in batch;
      batch := batch + {l};
    }
  }
}
