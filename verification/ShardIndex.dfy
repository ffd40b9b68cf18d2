/**
 The in-memory vector index of one repository: `ShardedVectorIndex` restricted to a single
 repository key. The class updates its fields in place like the source does; each method is
 tied to a function on the immutable view `Slot`, which is what the protocol in `WarmFence`
 is built from.
 */
module ShardIndex {
  import opened Wrappers

  /** Canonical embedding-space key. */
  type Identity = string

  datatype ChunkId = ChunkId(file: string, lineStart: nat, lineEnd: nat)

  type Vector = seq<real>

  /** The vectors of a repository, keyed by chunk. */
  type Rows = map<ChunkId, Vector>

  datatype Shard = Shard(rows: Rows, identity: Identity)

  /**
   `shard` is searchable, `pending` is the hidden base of an incremental run, `mutating` is
   the publication fence and `epoch` the mutation epoch.
   */
  datatype Slot = Slot(shard: Option<Shard>, pending: Option<Shard>, mutating: bool, epoch: nat)

  /** All rows except those of the given files. */
  function RemoveFiles(rows: Rows, files: set<string>): Rows
  {
    map c | c in rows && c.file !in files :: rows[c]
  }

  /** An empty shard carries no information and is never kept. */
  function Keep(rows: Rows, identity: Identity): Option<Shard>
  {
    if rows == map[] then None else Some(Shard(rows, identity))
  }

  function BeginFull(s: Slot): Slot
  {
    Slot(None, None, true, s.epoch + 1)
  }

  function BeginIncremental(s: Slot): Slot
  {
    Slot(None, s.shard, true, s.epoch + 1)
  }

  predicate MayInstall(s: Slot, scanEpoch: nat)
  {
    !s.mutating && s.epoch == scanEpoch
  }

  function Install(s: Slot, rows: Rows, identity: Identity, scanEpoch: nat): Slot
  {
    if MayInstall(s, scanEpoch) then s.(shard := Keep(rows, identity)) else s
  }

  function PublishFull(s: Slot, rows: Rows, identity: Identity): Slot
  {
    Slot(Keep(rows, identity), None, false, s.epoch + 1)
  }

  function ApplyIncremental(s: Slot, removed: set<string>, added: Rows, identity: Identity): Slot
  {
    s.(epoch := s.epoch + 1,
       shard := if s.shard.None? then None
                else Keep(RemoveFiles(s.shard.value.rows, removed) + added, identity))
  }

  function PublishIncremental(s: Slot, removed: set<string>, added: Rows, identity: Identity): Slot
  {
    var base := if s.pending.None? then s else ApplyIncremental(s.(shard := s.pending), removed, added, identity);
    base.(pending := None, mutating := false, epoch := base.epoch + 1)
  }

  function Abort(s: Slot): Slot
  {
    Slot(None, None, true, s.epoch + 1)
  }

  class RepoIndex {
    var shard: Option<Shard>
    var pending: Option<Shard>
    var mutating: bool
    var epoch: nat

    function View(): Slot
      reads this
    {
      Slot(shard, pending, mutating, epoch)
    }

    constructor ()
      ensures View() == Slot(None, None, false, 0)
    {
      shard, pending, mutating, epoch := None, None, false, 0;
    }

    /** What a query may see: nothing while a run owns publication. */
    method ResidentIdentity() returns (identity: Option<Identity>)
      ensures identity.Some? <==> !mutating && shard.Some?
      ensures identity.Some? ==> identity.value == shard.value.identity
    {
      if mutating || shard.None? {
        return None;
      }
      return Some(shard.value.identity);
    }

    method BeginFullUpdate()
      modifies this
      ensures View() == BeginFull(old(View()))
    {
      epoch := epoch + 1;
      shard := None;
      pending := None;
      mutating := true;
    }

    method BeginIncrementalUpdate()
      modifies this
      ensures View() == BeginIncremental(old(View()))
    {
      epoch := epoch + 1;
      pending := None;
      if shard.Some? {
        pending := shard;
        shard := None;
      }
      mutating := true;
    }

    method InstallShard(rows: Rows, identity: Identity)
      modifies this`shard
      ensures shard == Keep(rows, identity)
    {
      if rows == map[] {
        shard := None;
        return;
      }
      shard := Some(Shard(rows, identity));
    }

    method InstallShardIfNotMutating(rows: Rows, identity: Identity, scanEpoch: nat) returns (ok: bool)
      modifies this`shard
      ensures ok == MayInstall(old(View()), scanEpoch)
      ensures View() == Install(old(View()), rows, identity, scanEpoch)
    {
      if mutating || epoch != scanEpoch {
        return false;
      }
      InstallShard(rows, identity);
      return true;
    }

    method ApplyIncrementalUpdate(removed: set<string>, added: Rows, identity: Identity)
      modifies this`shard, this`epoch
      ensures View() == ApplyIncremental(old(View()), removed, added, identity)
    {
      epoch := epoch + 1;
      if shard.None? {
        return;
      }
      var rows := RemoveFiles(shard.value.rows, removed) + added;
      if rows == map[] {
        shard := None;
        return;
      }
      shard := Some(Shard(rows, identity));
    }

    method PublishFullUpdate(rows: Rows, identity: Identity)
      modifies this
      ensures View() == PublishFull(old(View()), rows, identity)
    {
      epoch := epoch + 1;
      pending := None;
      shard := None;
      InstallShard(rows, identity);
      mutating := false;
    }

    method PublishIncrementalUpdate(removed: set<string>, added: Rows, identity: Identity)
      modifies this
      ensures View() == PublishIncremental(old(View()), removed, added, identity)
    {
      if pending.Some? {
        shard := pending;
        pending := None;
        ApplyIncrementalUpdate(removed, added, identity);
      }
      epoch := epoch + 1;
      mutating := false;
    }

    method AbortUpdateFailClosed()
      modifies this
      ensures View() == Abort(old(View()))
    {
      epoch := epoch + 1;
      shard := None;
      pending := None;
      mutating := true;
    }

    method EvictIfIdentity(stale: Identity) returns (evicted: bool)
      modifies this`shard
      ensures evicted == (old(shard).Some? && old(shard).value.identity == stale)
      ensures shard == if evicted then None else old(shard)
    {
      if shard.Some? && shard.value.identity == stale {
        shard := None;
        return true;
      }
      return false;
    }
  }
}
