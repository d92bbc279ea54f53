/** The scan of the queue directory, which schedules every file that is not being handled yet. */
module ArchiveScan {
  import opened Optional
  import opened Orders
  import opened ArchiveQueue

  predicate BeingProcessed(r: Registry, file: string) {
    file in r.queued || file in r.processing
  }

  predicate Hidden(name: string) {
    name == "" || name[0] == '.'
  }

  function QueuePath(queueDir: string, name: string): string {
    queueDir + "/" + name
  }

  /** ngamsCheckArchiveQueue over the names as readdir yields them; a path that does not fit ends the scan. */
  function ScanQueue(r: Registry, queueDir: string, names: seq<string>): (Registry, Status)
    requires r.ring.Valid()
    decreases |names|
  {
    if names == [] then (r, Success)
    else if Hidden(names[0]) then ScanQueue(r, queueDir, names[1..])
    else
      var file := QueuePath(queueDir, names[0]);
      if |file| >= MED_BUF then (r, Failure)
      else if BeingProcessed(r, file) then ScanQueue(r, queueDir, names[1..])
      else
        var (put, status) := PutEntry(r, file);
        if status == Failure then (put, Failure) else ScanQueue(put, queueDir, names[1..])
  }

  /** The paths to schedule, in the order of the directory: visible, not known, and each only once. */
  function ToSchedule(known: set<string>, queueDir: string, names: seq<string>): seq<string>
    decreases |names|
  {
    if names == [] then []
    else
      var file := QueuePath(queueDir, names[0]);
      if Hidden(names[0]) || (|file| < MED_BUF && file in known) then ToSchedule(known, queueDir, names[1..])
      else if |file| >= MED_BUF then []
      else [file] + ToSchedule(known + {file}, queueDir, names[1..])
  }

  lemma KnownAfterPut(r: Registry, file: string)
    requires r.ring.Valid() && !BeingProcessed(r, file) && |file| < MED_BUF
    ensures PutEntry(r, file).1 == Success && PutEntry(r, file).0.ring.Valid()
    ensures var p := PutEntry(r, file).0; p.queued.Keys + p.processing.Keys == r.queued.Keys + r.processing.Keys + {file}
  {
    assert PutEntry(r, file).0.queued.Keys == r.queued.Keys + {file};
  }

  /** What the scan does with a new file. */
  lemma ScanStep(r: Registry, queueDir: string, names: seq<string>)
    requires r.ring.Valid() && names != [] && !Hidden(names[0])
    requires var file := QueuePath(queueDir, names[0]); |file| < MED_BUF && !BeingProcessed(r, file)
    ensures var file := QueuePath(queueDir, names[0]);
            var put := PutEntry(r, file).0;
            && file != "" && put.ring.Valid()
            && put.queued.Keys + put.processing.Keys == r.queued.Keys + r.processing.Keys + {file}
            && ScanQueue(r, queueDir, names) == ScanQueue(put, queueDir, names[1..])
            && ToSchedule(r.queued.Keys + r.processing.Keys, queueDir, names)
               == [file] + ToSchedule(r.queued.Keys + r.processing.Keys + {file}, queueDir, names[1..])
  {
    KnownAfterPut(r, QueuePath(queueDir, names[0]));
    hide PutEntry;
  }

  lemma ScanSkips(r: Registry, queueDir: string, names: seq<string>)
    requires r.ring.Valid() && names != []
    requires var file := QueuePath(queueDir, names[0]);
             Hidden(names[0]) || |file| >= MED_BUF || BeingProcessed(r, file)
    ensures var known := r.queued.Keys + r.processing.Keys;
            var tooLong := !Hidden(names[0]) && |QueuePath(queueDir, names[0])| >= MED_BUF;
            && ScanQueue(r, queueDir, names) == (if tooLong then (r, Failure) else ScanQueue(r, queueDir, names[1..]))
            && ToSchedule(known, queueDir, names) == (if tooLong then [] else ToSchedule(known, queueDir, names[1..]))
  {
    hide PutEntry;
  }

  lemma Appended(pending: seq<string>, file: string, more: seq<string>)
    ensures pending + [file] + more == pending + ([file] + more)
    ensures |pending + [file]| + |more| == |pending| + |[file] + more|
  {
  }

  lemma NothingAppended(pending: seq<string>)
    ensures pending + [] == pending
  {
  }

  /** While slots are free, a scan appends to the queue exactly the paths to schedule. */
  lemma {:induction false} ScanSchedules(r: Registry, pending: seq<string>, queueDir: string, names: seq<string>)
    requires Consistent(r, pending)
    requires |pending| + |ToSchedule(r.queued.Keys + r.processing.Keys, queueDir, names)| <= MAX_FILES_IN_Q
    ensures Consistent(ScanQueue(r, queueDir, names).0,
                       pending + ToSchedule(r.queued.Keys + r.processing.Keys, queueDir, names))
    decreases |names|
  {
    NothingAppended(pending);
    assert r.ring.Valid();
    assert names == [] ==> ScanQueue(r, queueDir, names).0 == r;
    assert names == [] ==> ToSchedule(r.queued.Keys + r.processing.Keys, queueDir, names) == [];
    hide Consistent, PutEntry, ScanQueue, ToSchedule, QueuePath, Hidden, BeingProcessed;
    if names != [] {
      var known, file := r.queued.Keys + r.processing.Keys, QueuePath(queueDir, names[0]);
      if Hidden(names[0]) || |file| >= MED_BUF || BeingProcessed(r, file) {
        ScanSkips(r, queueDir, names);
        if !Hidden(names[0]) && |file| >= MED_BUF {
          NothingAppended(pending);
        } else {
          ScanSchedules(r, pending, queueDir, names[1..]);
        }
      } else {
        ScanStep(r, queueDir, names);
        PutOne(r, pending, file);
        Appended(pending, file, ToSchedule(known + {file}, queueDir, names[1..]));
        ScanSchedules(PutEntry(r, file).0, pending + [file], queueDir, names[1..]);
      }
    }
  }

  lemma PutOne(r: Registry, pending: seq<string>, file: string)
    requires Consistent(r, pending) && !BeingProcessed(r, file) && |file| < MED_BUF && file != "" && |pending| < MAX_FILES_IN_Q
    ensures Consistent(PutEntry(r, file).0, pending + [file])
  {
    assert r.ring.Valid() && r.ring.HasRoom() by { RingTests(r.ring, pending); }
    hide Holds, Distinct, DbmsAgree;
    PutEntryAppends(r, pending, file);
  }

  ghost predicate IsVisiblePath(queueDir: string, names: seq<string>, file: string) {
    exists n :: n in names && !Hidden(n) && file == QueuePath(queueDir, n)
  }

  lemma {:induction false} ScanCovers(r: Registry, queueDir: string, names: seq<string>)
    requires r.ring.Valid() && ScanQueue(r, queueDir, names).1 == Success
    ensures var t := ScanQueue(r, queueDir, names).0;
            && t.ring.Valid()
            && (forall f :: BeingProcessed(r, f) ==> BeingProcessed(t, f))
            && (forall n :: n in names && !Hidden(n) ==>
                  |QueuePath(queueDir, n)| < MED_BUF && BeingProcessed(t, QueuePath(queueDir, n)))
            && (forall f :: BeingProcessed(t, f) ==> BeingProcessed(r, f) || IsVisiblePath(queueDir, names, f))
    decreases |names|
  {
    if names != [] {
      assert names == [names[0]] + names[1..];
      var file := QueuePath(queueDir, names[0]);
      if Hidden(names[0]) || BeingProcessed(r, file) {
        ScanCovers(r, queueDir, names[1..]);
      } else {
        KnownAfterPut(r, file);
        var put := PutEntry(r, file).0;
        ScanCovers(put, queueDir, names[1..]);
        assert forall f :: BeingProcessed(r, f) ==> BeingProcessed(put, f);
        assert forall f :: BeingProcessed(put, f) ==> BeingProcessed(r, f) || f == file;
        assert IsVisiblePath(queueDir, names, file);
      }
      assert forall f :: IsVisiblePath(queueDir, names[1..], f) ==> IsVisiblePath(queueDir, names, f);
      hide ScanQueue, PutEntry, QueuePath, Hidden;
    }
  }

  /** A scan that succeeds leaves every file known whose name does not begin with '.', and no other file
      that was not known before. */
  lemma ScanKnows(r: Registry, queueDir: string, names: seq<string>, file: string)
    requires r.ring.Valid() && ScanQueue(r, queueDir, names).1 == Success
    ensures var t := ScanQueue(r, queueDir, names).0;
            file in t.queued || file in t.processing <==>
              || file in r.queued || file in r.processing
              || exists n :: n in names && n != "" && n[0] != '.' && file == queueDir + "/" + n
  {
    ScanCovers(r, queueDir, names);
    hide ScanQueue;
    assert BeingProcessed(r, file) ==> BeingProcessed(ScanQueue(r, queueDir, names).0, file);
    if n :| n in names && n != "" && n[0] != '.' && file == queueDir + "/" + n {
      assert !Hidden(n) && QueuePath(queueDir, n) == file;
    }
  }

  /** A scan fails exactly when the path of a visible file does not fit its buffer. */
  lemma {:induction false} ScanSucceedsIff(r: Registry, queueDir: string, names: seq<string>)
    requires r.ring.Valid()
    ensures ScanQueue(r, queueDir, names).1 == Success <==>
              forall n :: n in names && n != "" && n[0] != '.' ==> |queueDir + "/" + n| < 256
    decreases |names|
  {
    if names != [] {
      var file := QueuePath(queueDir, names[0]);
      assert names == [names[0]] + names[1..];
      if !Hidden(names[0]) && |file| < MED_BUF && !BeingProcessed(r, file) {
        KnownAfterPut(r, file);
        ScanSucceedsIff(PutEntry(r, file).0, queueDir, names[1..]);
      } else {
        ScanSucceedsIff(r, queueDir, names[1..]);
      }
      hide PutEntry;
    }
  }

  lemma {:induction false} ScanChangesNothing(t: Registry, queueDir: string, names: seq<string>)
    requires t.ring.Valid()
    requires forall n :: n in names && !Hidden(n) ==>
               |QueuePath(queueDir, n)| < MED_BUF && BeingProcessed(t, QueuePath(queueDir, n))
    ensures ScanQueue(t, queueDir, names) == (t, Success)
    decreases |names|
  {
    if names != [] {
      assert names[0] in names && forall n :: n in names[1..] ==> n in names;
      ScanChangesNothing(t, queueDir, names[1..]);
    }
  }

  /** A scan that succeeds leaves nothing for the next one to schedule. */
  lemma ScanTwice(r: Registry, queueDir: string, names: seq<string>)
    requires r.ring.Valid() && ScanQueue(r, queueDir, names).1 == Success
    ensures var t := ScanQueue(r, queueDir, names).0;
            t.ring.Valid() && ScanQueue(t, queueDir, names) == (t, Success)
  {
    ScanCovers(r, queueDir, names);
    ScanChangesNothing(ScanQueue(r, queueDir, names).0, queueDir, names);
  }

  // ------------------------------------------- the scan among the archive threads

  /** The registry is locked for one name at a time, so takes and releases come in between. */
  datatype Step = Visit(name: string) | Take | Release(file: string)

  predicate IsNew(r: Registry, file: string) {
    |file| < MED_BUF && !BeingProcessed(r, file)
  }

  function Stepped(r: Registry, queueDir: string, step: Step): (r': Registry)
    requires r.ring.Valid()
    ensures r'.ring.Valid()
  {
    match step
    case Visit(name) =>
      if !Hidden(name) && IsNew(r, QueuePath(queueDir, name)) then PutEntry(r, QueuePath(queueDir, name)).0 else r
    case Take => TakeEntry(r).0
    case Release(file) => DeleteEntry(r, file)
  }

  /** A visit that schedules finds a free slot. */
  predicate Legal(r: Registry, queueDir: string, steps: seq<Step>)
    requires r.ring.Valid()
    decreases |steps|
  {
    steps != [] ==>
      && (steps[0].Visit? && !Hidden(steps[0].name) && IsNew(r, QueuePath(queueDir, steps[0].name)) ==> r.ring.HasRoom())
      && Legal(Stepped(r, queueDir, steps[0]), queueDir, steps[1..])
  }

  function After(r: Registry, queueDir: string, steps: seq<Step>): (r': Registry)
    requires r.ring.Valid()
    ensures r'.ring.Valid()
    decreases |steps|
  {
    if steps == [] then r else After(Stepped(r, queueDir, steps[0]), queueDir, steps[1..])
  }

  /** The names a step puts into the queue, and the names it takes out of it. */
  function PutBy(r: Registry, queueDir: string, step: Step): seq<string> {
    if step.Visit? && !Hidden(step.name) && IsNew(r, QueuePath(queueDir, step.name))
    then [QueuePath(queueDir, step.name)]
    else []
  }

  function TakenBy(r: Registry, step: Step): seq<string>
    requires r.ring.Valid()
  {
    if step.Take? && r.ring.HasPending() then [TakeEntry(r).1] else []
  }

  /** The names all steps put into the queue, in this order. */
  function Accepted(r: Registry, queueDir: string, steps: seq<Step>): seq<string>
    requires r.ring.Valid()
    decreases |steps|
  {
    if steps == [] then []
    else PutBy(r, queueDir, steps[0]) + Accepted(Stepped(r, queueDir, steps[0]), queueDir, steps[1..])
  }

  /** The names the archive threads get, in this order. */
  function Taken(r: Registry, queueDir: string, steps: seq<Step>): seq<string>
    requires r.ring.Valid()
    decreases |steps|
  {
    if steps == [] then []
    else TakenBy(r, steps[0]) + Taken(Stepped(r, queueDir, steps[0]), queueDir, steps[1..])
  }

  /** Of the names in order, those in out are gone from the front and the registry holds the others. */
  ghost predicate HoldsRest(r: Registry, all: seq<string>, out: seq<string>) {
    out <= all && Consistent(r, all[|out|..])
  }

  lemma StepKeepsRest(r: Registry, pending: seq<string>, queueDir: string, step: Step)
    requires r.ring.Valid() && Consistent(r, pending) && Legal(r, queueDir, [step])
    ensures HoldsRest(Stepped(r, queueDir, step), pending + PutBy(r, queueDir, step), TakenBy(r, step))
  {
    NothingAppended(pending);
    hide Consistent, PutEntry, TakeEntry, DeleteEntry;
    match step {
      case Visit(name) =>
        var file := QueuePath(queueDir, name);
        if !Hidden(name) && IsNew(r, file) {
          assert file != "";
          PutEntryAppends(r, pending, file);
        }
      case Take =>
        TakeEntryRemovesHead(r, pending);
      case Release(file) =>
        DeleteEntryReleases(r, pending, file);
    }
  }

  lemma RestOfRest(r: Registry, all: seq<string>, out: seq<string>, more: seq<string>, out': seq<string>)
    requires out <= all && HoldsRest(r, all[|out|..] + more, out')
    ensures HoldsRest(r, all + more, out + out')
  {
    assert all == out + all[|out|..];
    assert all + more == out + (all[|out|..] + more);
    assert (all + more)[|out + out'|..] == (all[|out|..] + more)[|out'|..];
  }

  /** However the archive threads come in between, they get the names in the order of the queue, and
      ring, DBMs and counter agree on the others. */
  lemma {:induction false} ScanKeepsFifo(r: Registry, pending: seq<string>, queueDir: string, steps: seq<Step>)
    requires r.ring.Valid() && Consistent(r, pending) && Legal(r, queueDir, steps)
    ensures Taken(r, queueDir, steps) <= pending + Accepted(r, queueDir, steps)
    ensures Consistent(After(r, queueDir, steps),
                       (pending + Accepted(r, queueDir, steps))[|Taken(r, queueDir, steps)|..])
    decreases |steps|
  {
    NothingAppended(pending);
    if steps != [] {
      var step, r' := steps[0], Stepped(r, queueDir, steps[0]);
      assert Legal(r, queueDir, [step]) by { assert [step][1..] == []; }
      var all, out := pending + PutBy(r, queueDir, step), TakenBy(r, step);
      var more, out' := Accepted(r', queueDir, steps[1..]), Taken(r', queueDir, steps[1..]);
      hide Consistent, Stepped, PutBy, TakenBy;
      StepKeepsRest(r, pending, queueDir, step);
      ScanKeepsFifo(r', all[|out|..], queueDir, steps[1..]);
      RestOfRest(After(r, queueDir, steps), all, out, more, out');
      Associative(pending, PutBy(r, queueDir, step), more);
    }
  }

  lemma {:induction false} KnownUntilReleased(r: Registry, queueDir: string, steps: seq<Step>, file: string)
    requires r.ring.Valid() && BeingProcessed(r, file) && Release(file) !in steps
    ensures BeingProcessed(After(r, queueDir, steps), file)
    decreases |steps|
  {
    if steps != [] {
      assert steps[0] in steps && forall step :: step in steps[1..] ==> step in steps;
      KnownUntilReleased(Stepped(r, queueDir, steps[0]), queueDir, steps[1..], file);
    }
  }

  /** A file the scan has visited is queued or in processing from then on, until it is released. */
  lemma {:induction false} VisitedUntilReleased(r: Registry, queueDir: string, steps: seq<Step>, i: nat)
    requires r.ring.Valid() && i < |steps| && steps[i].Visit? && !Hidden(steps[i].name)
    requires |QueuePath(queueDir, steps[i].name)| < MED_BUF
    requires Release(QueuePath(queueDir, steps[i].name)) !in steps[i + 1..]
    ensures BeingProcessed(After(r, queueDir, steps), QueuePath(queueDir, steps[i].name))
    decreases |steps|
  {
    var file := QueuePath(queueDir, steps[i].name);
    var r' := Stepped(r, queueDir, steps[0]);
    if i == 0 {
      assert BeingProcessed(r', file);
      hide Stepped, QueuePath, BeingProcessed;
      KnownUntilReleased(r', queueDir, steps[1..], file);
    } else {
      hide Stepped, QueuePath, BeingProcessed;
      assert steps[1..][i - 1] == steps[i] && steps[1..][i..] == steps[i + 1..];
      VisitedUntilReleased(r', queueDir, steps[1..], i - 1);
    }
  }

  function Visits(names: seq<string>): seq<Step> {
    seq(|names|, i requires 0 <= i < |names| => Visit(names[i]))
  }

  /** A scan that succeeds and is left alone is the sequence of its visits. */
  lemma {:induction false} ScanIsVisits(r: Registry, queueDir: string, names: seq<string>)
    requires r.ring.Valid() && ScanQueue(r, queueDir, names).1 == Success
    ensures ScanQueue(r, queueDir, names).0 == After(r, queueDir, Visits(names))
    decreases |names|
  {
    if names != [] {
      assert Visits(names)[1..] == Visits(names[1..]);
      ScanIsVisits(Stepped(r, queueDir, Visit(names[0])), queueDir, names[1..]);
      hide PutEntry;
    }
  }

  // -------------------------------------------------------------------- the methods

  method FileBeingProcessed(reg: ArchiveRegistry, sourceFile: string) returns (b: bool)
    ensures b == BeingProcessed(reg.Value(), sourceFile)
  {
    var inArchiveQ := sourceFile in reg.queueDbm;
    var inProcessingQ := sourceFile in reg.procDbm;
    return inArchiveQ || inProcessingQ;
  }

  /** names is None when the directory cannot be opened. */
  method CheckArchiveQueue(reg: ArchiveRegistry, queueDir: string, names: Option<seq<string>>) returns (status: Status)
    requires reg.Valid()
    modifies reg, reg.archiveQueue
    ensures reg.Valid()
    ensures (reg.Value(), status)
         == if names.None? then (old(reg.Value()), Failure) else ScanQueue(old(reg.Value()), queueDir, names.value)
  {
    if names.None? { return Failure; }
    var entries := names.value;
    var n := 0;
    assert entries[0..] == entries;
    while n < |entries|
      invariant 0 <= n <= |entries| && reg.Valid()
      invariant ScanQueue(reg.Value(), queueDir, entries[n..]) == ScanQueue(old(reg.Value()), queueDir, entries)
    {
      assert entries[n..][0] == entries[n] && entries[n..][1..] == entries[n + 1..];
      hide PutEntry;
      if !Hidden(entries[n]) {
        var queueFilename := QueuePath(queueDir, entries[n]);
        if |queueFilename| >= MED_BUF { return Failure; }
        var known := FileBeingProcessed(reg, queueFilename);
        if !known {
          var put := reg.PutEntryInQ(queueFilename);
          if put == Failure { return Failure; }
        }
      }
      n := n + 1;
    }
    return Success;
  }
}
