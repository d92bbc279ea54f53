/** The archive queue of the two archive clients: a ring of fixed-size name buffers in which an
    empty name marks a free slot, a "queued" DBM, a "being processed" DBM and a counter. */
module ArchiveQueue {
  import opened Orders

  const MAX_FILES_IN_Q: nat := 4096

  /** Size of ngamsMED_BUF, terminating NUL included. */
  const MED_BUF: nat := 256

  datatype Status = Success | Failure

  // ---------------------------------------------------------------- the ring

  datatype Ring = Ring(slots: seq<string>, rd: nat, wr: nat) {
    predicate Valid() {
      |slots| == MAX_FILES_IN_Q && rd < MAX_FILES_IN_Q && wr < MAX_FILES_IN_Q
    }

    predicate HasPending()
      requires Valid()
    {
      slots[Next(rd)] != ""
    }

    predicate HasRoom()
      requires Valid()
    {
      slots[Next(wr)] == ""
    }

    function Store(name: string): Ring
      requires Valid()
    {
      Ring(slots[Next(wr) := name], rd, Next(wr))
    }

    function Head(): string
      requires Valid()
    {
      slots[Next(rd)]
    }

    function Drop(): Ring
      requires Valid()
    {
      Ring(slots[Next(rd) := ""], Next(rd), wr)
    }
  }

  function Next(i: nat): nat {
    (i + 1) % MAX_FILES_IN_Q
  }

  const EMPTY_RING: Ring := Ring(seq(MAX_FILES_IN_Q, _ => ""), 0, 0)

  /** How many slots after slot rd + 1 slot j lies, going round the ring. */
  function Offset(rd: nat, j: nat): int {
    if j > rd then j - rd - 1 else j + MAX_FILES_IN_Q - rd - 1
  }

  /** The ring holds exactly the names of pending, in that order, and every other slot is free.
      rd == wr both when nothing is pending and when every slot is taken. */
  ghost predicate Holds(r: Ring, pending: seq<string>) {
    && r.Valid()
    && |pending| <= MAX_FILES_IN_Q
    && r.wr == (r.rd + |pending|) % MAX_FILES_IN_Q
    && (forall i :: 0 <= i < |pending| ==> pending[i] != "")
    && (forall j :: 0 <= j < MAX_FILES_IN_Q ==>
          r.slots[j] == if Offset(r.rd, j) < |pending| then pending[Offset(r.rd, j)] else "")
  }

  lemma RingTests(r: Ring, pending: seq<string>)
    requires Holds(r, pending)
    ensures r.HasPending() <==> pending != []
    ensures r.HasRoom() <==> |pending| < MAX_FILES_IN_Q
    ensures pending != [] ==> r.Head() == pending[0]
  {
    assert Offset(r.rd, Next(r.rd)) == 0;
    assert Offset(r.rd, Next(r.wr)) == if |pending| == MAX_FILES_IN_Q then 0 else |pending|;
  }

  lemma StoreAppends(r: Ring, pending: seq<string>, name: string)
    requires Holds(r, pending) && |pending| < MAX_FILES_IN_Q && name != ""
    ensures Holds(r.Store(name), pending + [name])
  {
    assert Offset(r.rd, Next(r.wr)) == |pending|;
    forall j | 0 <= j < MAX_FILES_IN_Q && j != Next(r.wr)
      ensures Offset(r.rd, j) != |pending|
    {
    }
  }

  lemma DropRemovesHead(r: Ring, pending: seq<string>)
    requires Holds(r, pending) && pending != []
    ensures Holds(r.Drop(), pending[1..])
  {
    var q := r.Drop();
    forall j | 0 <= j < MAX_FILES_IN_Q
      ensures q.slots[j] == if Offset(q.rd, j) < |pending[1..]| then pending[1..][Offset(q.rd, j)] else ""
    {
      if j == Next(r.rd) {
        assert Offset(q.rd, j) == MAX_FILES_IN_Q - 1;
      } else {
        assert Offset(q.rd, j) == Offset(r.rd, j) - 1;
      }
    }
  }

  /** The slots determine the sequence: a ring cannot stand for two different queues. */
  lemma RingIsFunctional(r: Ring, p: seq<string>, q: seq<string>)
    requires Holds(r, p) && Holds(r, q)
    ensures p == q
  {
    RingTests(r, p);
    RingTests(r, q);
    forall i | 0 <= i < |p| && i < |q|
      ensures p[i] == q[i]
    {
      var j := (r.rd + 1 + i) % MAX_FILES_IN_Q;
      assert Offset(r.rd, j) == i;
      assert r.slots[j] == p[i] && r.slots[j] == q[i];
    }
    assert |p| == |q|;
  }

  // ------------------------------------------------------------ the registry

  /** The queue part of ngamsARCHIVE_CLIENT_REGISTRY; a DBM maps every key to itself. */
  datatype Registry = Registry(
    ring: Ring,
    queued: map<string, string>,
    processing: map<string, string>,
    count: int)

  const EMPTY_REGISTRY: Registry := Registry(EMPTY_RING, map[], map[], 0)

  function PutEntry(r: Registry, file: string): (Registry, Status)
    requires r.ring.Valid()
  {
    if file in r.queued || file in r.processing then
      (r, Success)
    else if |file| >= MED_BUF then
      (r, Failure)
    else
      (Registry(r.ring.Store(file), r.queued[file := file], r.processing, r.count + 1), Success)
  }

  /** The new registry and the name taken, "" when nothing is pending. */
  function TakeEntry(r: Registry): (Registry, string)
    requires r.ring.Valid()
  {
    if !r.ring.HasPending() then
      (r, "")
    else
      var file := r.ring.Head();
      (Registry(r.ring.Drop(), r.queued - {file}, r.processing[file := file], r.count), file)
  }

  function DeleteEntry(r: Registry, file: string): Registry {
    if file !in r.processing then r
    else r.(processing := r.processing - {file}, count := r.count - 1)
  }

  /** The queue DBM has the pending names as its keys, the processing DBM other keys, and the counter
      is the sum of the two sizes. */
  ghost predicate DbmsAgree(queued: set<string>, processing: set<string>, count: int, pending: seq<string>) {
    && queued == Elements(pending)
    && queued !! processing
    && count == |queued| + |processing|
    && (forall f :: f in queued || f in processing ==> |f| < MED_BUF)
  }

  ghost predicate Consistent(r: Registry, pending: seq<string>) {
    && r.ring.Valid() && Holds(r.ring, pending)
    && Distinct(pending)
    && DbmsAgree(r.queued.Keys, r.processing.Keys, r.count, pending)
  }

  lemma CountIsPendingPlusProcessing(r: Registry, pending: seq<string>)
    requires Consistent(r, pending)
    ensures r.count == |pending| + |r.processing|
  {
    DistinctSize(pending);
  }

  lemma DbmsAfterPut(queued: set<string>, processing: set<string>, count: int, pending: seq<string>, file: string)
    requires DbmsAgree(queued, processing, count, pending) && file !in queued && file !in processing && |file| < MED_BUF
    requires Elements(pending + [file]) == Elements(pending) + {file}
    ensures DbmsAgree(queued + {file}, processing, count + 1, pending + [file])
  {
    hide Elements;
  }

  lemma DbmsAfterTake(queued: set<string>, processing: set<string>, count: int, pending: seq<string>)
    requires DbmsAgree(queued, processing, count, pending) && Distinct(pending) && pending != []
    ensures pending[0] in queued
    ensures DbmsAgree(queued - {pending[0]}, processing + {pending[0]}, count, pending[1..])
  {
    DistinctTail(pending);
    hide Distinct, Elements;
  }

  lemma PutEntryAppends(r: Registry, pending: seq<string>, file: string)
    requires Consistent(r, pending) && file !in r.queued && file !in r.processing
    requires |file| < MED_BUF && file != "" && r.ring.HasRoom()
    ensures Consistent(PutEntry(r, file).0, pending + [file])
  {
    assert file !in Elements(pending);
    hide Holds, Distinct, DbmsAgree, Elements;
    RingTests(r.ring, pending);
    StoreAppends(r.ring, pending, file);
    DistinctAppend(pending, file);
    DbmsAfterPut(r.queued.Keys, r.processing.Keys, r.count, pending, file);
    assert PutEntry(r, file).0.queued.Keys == r.queued.Keys + {file};
  }

  lemma TakeEntryRemovesHead(r: Registry, pending: seq<string>)
    requires Consistent(r, pending)
    ensures r.ring.HasPending() <==> pending != []
    ensures pending == [] ==> TakeEntry(r) == (r, "")
    ensures pending != [] ==>
              var (r', file) := TakeEntry(r);
              && file == pending[0] && file !in r.processing
              && r'.processing.Keys == r.processing.Keys + {file}
              && Consistent(r', pending[1..])
  {
    hide Holds, Distinct, DbmsAgree, Elements;
    RingTests(r.ring, pending);
    if pending != [] {
      DropRemovesHead(r.ring, pending);
      DistinctTail(pending);
      DbmsAfterTake(r.queued.Keys, r.processing.Keys, r.count, pending);
      var (r', file) := TakeEntry(r);
      assert r'.queued.Keys == r.queued.Keys - {file};
      assert r'.processing.Keys == r.processing.Keys + {file};
      assert DbmsAgree(r'.queued.Keys, r'.processing.Keys, r'.count, pending[1..]);
      KnownNotProcessing(r, pending, file);
    }
  }

  lemma KnownNotProcessing(r: Registry, pending: seq<string>, file: string)
    requires Consistent(r, pending) && file in r.queued
    ensures file !in r.processing
  {
    assert file in r.queued.Keys;
  }

  lemma DeleteEntryReleases(r: Registry, pending: seq<string>, file: string)
    requires Consistent(r, pending)
    ensures Consistent(DeleteEntry(r, file), pending)
    ensures DeleteEntry(r, file).processing.Keys == r.processing.Keys - {file}
  {
    hide Holds, Distinct, Elements;
    if file in r.processing {
      assert (r.processing - {file}).Keys == r.processing.Keys - {file};
    }
  }

  /** Exactly when a call of putEntryInQ leaves the five redundant pieces in agreement: the name is
      already known or too long (nothing is stored), or it is not empty and a slot is free. */
  lemma PutEntryConsistentIff(r: Registry, pending: seq<string>, file: string)
    requires Consistent(r, pending)
    ensures PutEntry(r, file).1 == Failure <==> file !in r.queued && file !in r.processing && |file| >= 256
    ensures (exists p :: Consistent(PutEntry(r, file).0, p))
       <==> file in r.queued || file in r.processing || |file| >= MED_BUF || (file != "" && r.ring.HasRoom())
  {
    hide Holds, Distinct, DbmsAgree, Elements;
    RingTests(r.ring, pending);
    if file in r.queued || file in r.processing || |file| >= MED_BUF {
      assert PutEntry(r, file).0 == r;
    } else if file != "" && r.ring.HasRoom() {
      PutEntryAppends(r, pending, file);
    } else {
      if file != "" { RoomMeansFewer(r.ring, pending); }
      forall p
        ensures !Consistent(PutEntry(r, file).0, p)
      {
        NoQueueAfterOverflow(r, pending, file, p);
      }
    }
  }

  lemma RoomMeansFewer(r: Ring, pending: seq<string>)
    requires Holds(r, pending) && !r.HasRoom()
    ensures |pending| == MAX_FILES_IN_Q
  {
    RingTests(r, pending);
  }

  lemma NoQueueAfterOverflow(r: Registry, pending: seq<string>, file: string, p: seq<string>)
    requires Consistent(r, pending) && file !in r.queued && file !in r.processing && |file| < MED_BUF
    requires file == "" || |pending| == MAX_FILES_IN_Q
    ensures !Consistent(PutEntry(r, file).0, p)
  {
    var r' := PutEntry(r, file).0;
    assert r'.queued.Keys == r.queued.Keys + {file} && |r'.queued.Keys| == |r.queued.Keys| + 1;
    ConsistentSizes(r, pending);
    hide *;
    if Consistent(r', p) {
      ConsistentSizes(r', p);
    }
  }

  lemma ConsistentSizes(r: Registry, pending: seq<string>)
    requires Consistent(r, pending)
    ensures |r.queued.Keys| == |pending| <= MAX_FILES_IN_Q && "" !in r.queued.Keys
  {
    DistinctSize(pending);
    if "" in r.queued.Keys {
      InElements("", pending);
      hide Distinct, Elements;
    }
  }

  // -------------------------------------- the registry as the code updates it

  class ArchiveRegistry {
    const archiveQueue: array<string>
    var archiveQueueRdIdx: nat
    var archiveQueueWrIdx: nat
    var archiveQueueCount: int
    var queueDbm: map<string, string>
    var procDbm: map<string, string>

    ghost predicate Valid()
      reads this
    {
      && archiveQueue.Length == MAX_FILES_IN_Q
      && archiveQueueRdIdx < MAX_FILES_IN_Q
      && archiveQueueWrIdx < MAX_FILES_IN_Q
    }

    ghost function Value(): (r: Registry)
      reads this, archiveQueue
      ensures Valid() ==> r.ring.Valid()
    {
      Registry(Ring(archiveQueue[..], archiveQueueRdIdx, archiveQueueWrIdx), queueDbm, procDbm, archiveQueueCount)
    }

    constructor ()
      ensures Valid() && fresh(archiveQueue) && Value() == EMPTY_REGISTRY
      ensures Consistent(Value(), [])
    {
      archiveQueue := new string[MAX_FILES_IN_Q](_ => "");
      archiveQueueRdIdx, archiveQueueWrIdx, archiveQueueCount := 0, 0, 0;
      queueDbm, procDbm := map[], map[];
      new;
      assert archiveQueue[..] == EMPTY_RING.slots;
    }

    method PutEntryInQ(sourceFile: string) returns (status: Status)
      requires Valid()
      modifies this, archiveQueue
      ensures Valid()
      ensures (Value(), status) == PutEntry(old(Value()), sourceFile)
    {
      if sourceFile in queueDbm || sourceFile in procDbm {
        return Success;
      }
      var newWrIdx := (archiveQueueWrIdx + 1) % MAX_FILES_IN_Q;
      if |sourceFile| >= MED_BUF {
        return Failure;
      }
      archiveQueue[newWrIdx] := sourceFile;
      queueDbm := queueDbm[sourceFile := sourceFile];
      archiveQueueWrIdx := newWrIdx;
      archiveQueueCount := archiveQueueCount + 1;
      status := Success;
      assert Value().ring == old(Value()).ring.Store(sourceFile);
    }

    /** sourceFile is "" when no entry is pending. */
    method GetNextEntryFromQ() returns (sourceFile: string)
      requires Valid()
      modifies this, archiveQueue
      ensures Valid()
      ensures (Value(), sourceFile) == TakeEntry(old(Value()))
    {
      var newRdIdx := (archiveQueueRdIdx + 1) % MAX_FILES_IN_Q;
      sourceFile := "";
      if archiveQueue[newRdIdx] == "" {
        return;
      }
      sourceFile := archiveQueue[newRdIdx];
      queueDbm := queueDbm - {sourceFile};
      procDbm := procDbm[sourceFile := sourceFile];
      archiveQueue[newRdIdx] := "";
      archiveQueueRdIdx := newRdIdx;
      assert Value().ring == old(Value()).ring.Drop();
    }

    method DeleteEntryFromQ(sourceFile: string)
      requires Valid()
      modifies this
      ensures Valid()
      ensures Value() == DeleteEntry(old(Value()), sourceFile)
    {
      if sourceFile !in procDbm {
        return;
      }
      procDbm := procDbm - {sourceFile};
      archiveQueueCount := archiveQueueCount - 1;
    }
  }
}
