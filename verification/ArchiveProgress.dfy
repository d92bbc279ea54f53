/** The archive client never gets stuck: from every reachable state its threads can finish the work. */
module ArchiveProgress {
  import opened ArchiveQueue
  import opened Orders
  import opened ArchiveProtocol

  // ------------------------------------------------------- who ends, and who goes back

  /** Threads end only once the flag is set. */
  ghost predicate EndsWhenTold(s: State) {
    && ((exists i :: 0 <= i < |s.workers| && s.workers[i].Exited?) ==> s.terminated)
    && (s.sender.SExited? ==> s.terminated)
  }

  function Phase(m: Main): nat {
    match m
    case Running => 0
    case AwaitFiles => 1
    case FilesSleeping => 1
    case AwaitPosts => 2
    case PostsSleeping => 2
    case Drained => 3
    case Flagged(_) => 4
    case Joining(_) => 5
  }

  lemma StepEndsWhenTold(s: State, e: Event)
    requires WellFormed(s) && Enabled(s, e) && EndsWhenTold(s)
    ensures EndsWhenTold(Apply(s, e)) && |Apply(s, e).workers| == |s.workers|
    ensures Phase(s.main) <= Phase(Apply(s, e).main) && (s.terminated ==> Apply(s, e).terminated)
  {
    hide PutEntry, TakeEntry, DeleteEntry, PostText, FitsBuffer;
    var s' := Apply(s, e);
    forall i | 0 <= i < |s'.workers| && s'.workers[i].Exited?
      ensures s'.terminated
    {
      assert s.workers[i].Exited? || s.terminated;
    }
  }

  /** In every run no thread ends before the flag is set, no thread is lost, and the main thread never goes back. */
  lemma {:induction false} RunEndsWhenTold(s: State, es: seq<Event>)
    requires WellFormed(s) && Legal(s, es) && EndsWhenTold(s)
    ensures EndsWhenTold(Exec(s, es)) && |Exec(s, es).workers| == |s.workers|
    ensures Phase(s.main) <= Phase(Exec(s, es).main) && (s.terminated ==> Exec(s, es).terminated)
    decreases |es|
  {
    hide Apply, Enabled, EndsWhenTold;
    if es != [] {
      StepEndsWhenTold(s, es[0]);
      RunEndsWhenTold(Apply(s, es[0]), es[1..]);
    }
  }

  /** A file can be scheduled exactly when it is known, too long, or has a name and fewer than 4096 are pending. */
  lemma SchedulableIff(s: State, f: string)
    requires Inv(s)
    ensures Enabled(s, Schedule(f)) <==>
              || f in s.reg.queued || f in s.reg.processing || |f| >= 256
              || (f != "" && |s.accepted| - |s.taken| < 4096)
  {
    hide OwnerInv, ArchiveInv, ReportInv, PostInv, WaitInv, Holds, Distinct, DbmsAgree;
    RingTests(s.reg.ring, s.accepted[|s.taken|..]);
  }

  // ---------------------------------------------------------------- the work left

  function WorkerLoad(w: Worker): nat {
    match w
    case Archiving(_) => 7
    case Reporting(_) => 6
    case Closing(_) => 1
    case _ => 0
  }

  function Load(ws: seq<Worker>): nat {
    if ws == [] then 0 else Load(ws[..|ws| - 1]) + WorkerLoad(ws[|ws| - 1])
  }

  lemma {:induction false} LoadUpdate(ws: seq<Worker>, i: nat, x: Worker)
    requires i < |ws|
    ensures Load(ws[i := x]) == Load(ws) - WorkerLoad(ws[i]) + WorkerLoad(x)
    ensures Load(ws) >= WorkerLoad(ws[i])
  {
    var n := |ws| - 1;
    if i == n {
      assert ws[i := x][..n] == ws[..n];
    } else {
      assert ws[i := x][..n] == ws[..n][i := x];
      LoadUpdate(ws[..n], i, x);
    }
  }

  function SenderLoad(sender: Sender): nat {
    match sender
    case Checked => 1
    case Sending(_) => 2
    case Sent(_) => 1
    case _ => 0
  }

  function PendingFiles(s: State): int {
    |s.accepted| - |s.taken|
  }

  function PendingPosts(s: State): int {
    |Accepted(s.offered)| - |s.sent| - |InFlight(s.sender)|
  }

  /** Every step towards the end of a graceful shutdown makes this smaller. */
  function Work(s: State): int {
    8 * PendingFiles(s) + Load(s.workers) + 4 * PendingPosts(s) + SenderLoad(s.sender) + 5 - Phase(s.main)
  }

  lemma PendingIs(s: State)
    requires Inv(s)
    ensures PendingFiles(s) >= 0 && (s.reg.ring.HasPending() <==> PendingFiles(s) > 0)
    ensures PendingPosts(s) >= 0 && (s.posts.HasPending() <==> PendingPosts(s) > 0)
    ensures PendingPosts(s) == 0 ==> s.posts.HasRoom()
    ensures Work(s) >= 0
  {
    hide OwnerInv, ArchiveInv, ReportInv, WaitInv, Holds, Distinct, DbmsAgree, Accepted, Load;
    RingTests(s.reg.ring, s.accepted[|s.taken|..]);
    RingTests(s.posts, Accepted(s.offered)[|s.sent + InFlight(s.sender)|..]);
  }

  /** The event brings the end nearer and schedules nothing. */
  ghost predicate Useful(s: State, e: Event)
    requires WellFormed(s)
  {
    && Enabled(s, e) && !e.Schedule?
    && Work(Apply(s, e)) < Work(s)
    && (Apply(s, e).terminated ==> Apply(s, e).main == Flagged(false))
  }

  lemma SenderSends(s: State)
    requires WellFormed(s) && !s.terminated && (s.sender.Checked? || s.sender.Sending? || s.sender.Sent?)
    ensures Useful(s, if s.sender.Checked? then SenderWait else if s.sender.Sending? then SenderSend else SenderClose)
  {
    hide Load, Accepted, PutEntry, TakeEntry, DeleteEntry;
  }

  lemma SenderTakes(s: State)
    requires WellFormed(s) && !s.terminated && s.posts.HasPending() && s.sender.SReady?
    ensures Useful(s, SenderEnter)
  {
    hide Load, Accepted, PutEntry, TakeEntry, DeleteEntry;
  }

  lemma SenderIsAwake(s: State)
    requires Inv(s) && EndsWhenTold(s) && !s.terminated && s.posts.HasPending()
    ensures s.sender.SReady? || s.sender.Sending? || s.sender.Sent?
  {
    hide QueueInv, OwnerInv, ArchiveInv, ReportInv, PostInv;
  }

  lemma WorkerArchives(s: State, w: nat)
    requires WellFormed(s) && !s.terminated && w < |s.workers| && s.workers[w].Archiving?
    ensures Useful(s, Archive(w, 0, 0))
  {
    LoadUpdate(s.workers, w, Apply(s, Archive(w, 0, 0)).workers[w]);
    hide Load, Accepted, PutEntry, TakeEntry, DeleteEntry;
  }

  lemma WorkerReports(s: State, w: nat)
    requires WellFormed(s) && !s.terminated && w < |s.workers| && s.workers[w].Reporting?
    requires s.posts.HasRoom() && !s.sender.Checked?
    ensures Useful(s, Report(w))
  {
    var o := s.workers[w].outcome;
    LoadUpdate(s.workers, w, Closing(o.file));
    AcceptedAppend(s.offered, o);
    hide Load, Accepted, PutEntry, TakeEntry, DeleteEntry, PostText, FitsBuffer;
  }

  lemma WorkerCloses(s: State, w: nat)
    requires WellFormed(s) && !s.terminated && w < |s.workers| && s.workers[w].Closing?
    ensures Useful(s, Close(w))
  {
    LoadUpdate(s.workers, w, Ready);
    hide Load, Accepted, PutEntry, TakeEntry;
  }

  lemma WorkerGoesOn(s: State, w: nat)
    requires WellFormed(s) && !s.terminated && w < |s.workers| && s.workers[w].Busy()
    requires s.posts.HasRoom() && !s.sender.Checked?
    ensures exists e :: Useful(s, e)
  {
    hide Useful;
    match s.workers[w] {
      case Archiving(_) => WorkerArchives(s, w);
      case Reporting(_) => WorkerReports(s, w);
      case Closing(_) => WorkerCloses(s, w);
    }
  }

  lemma FirstIsReady(s: State)
    requires Inv(s) && EndsWhenTold(s) && !s.terminated && |s.workers| > 0
    requires s.reg.ring.HasPending() && !s.workers[0].Busy()
    ensures s.workers[0].Ready?
  {
    hide QueueInv, OwnerInv, ArchiveInv, ReportInv, PostInv;
  }

  lemma WorkerStarts(s: State)
    requires WellFormed(s) && !s.terminated && |s.workers| > 0 && s.reg.ring.HasPending() && s.workers[0].Ready?
    ensures Useful(s, Enter(0))
  {
    LoadUpdate(s.workers, 0, Archiving(TakeEntry(s.reg).1));
    hide Load, Accepted, PutEntry;
  }

  lemma NoOwnersNoKeys(processing: set<string>, ws: seq<Worker>)
    requires OwnerInv(processing, ws) && forall i :: 0 <= i < |ws| ==> !ws[i].Busy()
    ensures processing == {}
  {
  }

  lemma NothingCounted(s: State)
    requires Inv(s) && PendingFiles(s) == 0 && PendingPosts(s) == 0 && !s.sender.Sending? && !s.sender.Sent?
    requires forall i :: 0 <= i < |s.workers| ==> !s.workers[i].Busy()
    ensures s.reg.count == 0 && s.postCount == 0
  {
    hide ArchiveInv, ReportInv, WaitInv, Holds, Distinct, Accepted;
    NoOwnersNoKeys(s.reg.processing.Keys, s.workers);
    assert s.accepted[|s.taken|..] == [];
    CountIsPendingPlusProcessing(s.reg, []);
    assert |s.reg.processing| == |s.reg.processing.Keys|;
  }

  lemma MainGoesOn(s: State)
    requires Inv(s) && !s.terminated && s.reg.count == 0 && s.postCount == 0 && !s.sender.Checked?
    ensures Useful(s, match s.main
                      case Running => Terminate(false)
                      case AwaitFiles => CheckFiles
                      case AwaitPosts => CheckPosts
                      case _ => SetFlag)
  {
    hide QueueInv, OwnerInv, ArchiveInv, ReportInv, PostInv, Load, Accepted, PutEntry, TakeEntry, DeleteEntry;
  }

  lemma SomethingUseful(s: State)
    requires Inv(s) && WellFormed(s) && EndsWhenTold(s) && !s.terminated && |s.workers| > 0
    ensures exists e :: Useful(s, e)
  {
    assert s.reg.ring.Valid() && s.posts.Valid();
    hide *;
    PendingIs(s);
    if s.sender.Checked? || s.sender.Sending? || s.sender.Sent? {
      SenderSends(s);
    } else if s.posts.HasPending() {
      SenderIsAwake(s);
      SenderTakes(s);
    } else if w: nat :| w < |s.workers| && s.workers[w].Busy() {
      WorkerGoesOn(s, w);
    } else if s.reg.ring.HasPending() {
      FirstIsReady(s);
      WorkerStarts(s);
    } else {
      NothingCounted(s);
      MainGoesOn(s);
    }
  }

  ghost predicate Finishes(s: State, es: seq<Event>)
    requires WellFormed(s)
  {
    && Legal(s, es) && Exec(s, es).main == Flagged(false)
    && forall e :: e in es ==> !e.Schedule?
  }

  lemma FinishesLater(s: State, e: Event, es: seq<Event>)
    requires WellFormed(s) && Enabled(s, e) && !e.Schedule? && WellFormed(Apply(s, e)) && Finishes(Apply(s, e), es)
    ensures Finishes(s, [e] + es)
  {
    hide Enabled, Apply;
    RunStep(s, e, es);
  }

  /** Unless it was forced to stop, the client can always finish: from every state there are steps of its
      threads alone that end a graceful shutdown. */
  lemma {:induction false} CanFinish(s: State)
    requires Inv(s) && WellFormed(s) && EndsWhenTold(s) && !s.terminated && |s.workers| > 0
    ensures exists es :: Finishes(s, es)
    decreases Work(s)
  {
    hide *;
    SomethingUseful(s);
    var e :| Useful(s, e);
    UsefulIs(s, e);
    PendingIs(s);
    var s' := Apply(s, e);
    InvStep(s, e);
    InvWellFormed(s');
    StepEndsWhenTold(s, e);
    if s'.terminated {
      NothingMore(s');
      FinishesLater(s, e, []);
    } else {
      CanFinish(s');
      var es :| Finishes(s', es);
      FinishesLater(s, e, es);
    }
  }

  lemma UsefulIs(s: State, e: Event)
    requires WellFormed(s) && Useful(s, e)
    ensures Enabled(s, e) && !e.Schedule? && Work(Apply(s, e)) < Work(s)
    ensures Apply(s, e).terminated ==> Apply(s, e).main == Flagged(false)
  {
    hide Apply, Enabled, Work;
  }

  lemma NothingMore(s: State)
    requires WellFormed(s) && s.main == Flagged(false)
    ensures Finishes(s, [])
  {
  }

  /** From the start, in every interleaving and with at least one stream. */
  lemma EveryRunCanFinish(streams: nat, sendToMMC: bool, es: seq<Event>)
    requires Legal(Init(streams, sendToMMC), es) && streams > 0 && !Exec(Init(streams, sendToMMC), es).terminated
    ensures WellFormed(Exec(Init(streams, sendToMMC), es))
    ensures exists more :: Finishes(Exec(Init(streams, sendToMMC), es), more)
  {
    var s, t := Init(streams, sendToMMC), Exec(Init(streams, sendToMMC), es);
    assert EndsWhenTold(s) && |s.workers| == streams;
    hide Legal, Exec, Init, Inv, EndsWhenTold, Finishes;
    InitInv(streams, sendToMMC);
    RunInv(s, es);
    RunEndsWhenTold(s, es);
    InvWellFormed(t);
    CanFinish(t);
  }

  // ------------------------------------------------- the reporting thread at the end

  function SenderStepsLeft(sender: Sender): nat {
    match sender
    case Sending(_) => 3
    case Sent(_) => 2
    case SReady => 1
    case _ => 0
  }

  predicate IsSenderStep(e: Event) {
    e.SenderEnter? || e.SenderWait? || e.SenderWake? || e.SenderSend? || e.SenderClose?
  }

  function SenderStepsTaken(es: seq<Event>): nat {
    if es == [] then 0 else (if IsSenderStep(es[0]) then 1 else 0) + SenderStepsTaken(es[1..])
  }

  lemma SenderNearsExit(s: State, e: Event)
    requires Inv(s) && Enabled(s, e) && s.main.Joining? && !s.sender.SSleeping? && !s.sender.Checked?
    ensures SenderStepsLeft(Apply(s, e).sender) + (if IsSenderStep(e) then 1 else 0) <= SenderStepsLeft(s.sender)
  {
    hide QueueInv, OwnerInv, ArchiveInv, ReportInv, PostInv, PutEntry, PostText;
  }

  /** A reporting thread that has not missed the broadcast exits, after at most three more steps of its own. */
  lemma {:induction false} SenderExits(s: State, es: seq<Event>)
    requires Inv(s) && Legal(s, es) && s.main.Joining? && !s.sender.SSleeping? && !s.sender.Checked?
    ensures SenderStepsTaken(es) + SenderStepsLeft(Exec(s, es).sender) <= SenderStepsLeft(s.sender) <= 3
    ensures SenderStepsTaken(es) == SenderStepsLeft(s.sender) ==> Exec(s, es).sender.SExited?
    decreases |es|
  {
    InvWellFormed(s);
    if es != [] {
      InvStep(s, es[0]);
      SenderNearsExit(s, es[0]);
      SenderStaysAwake(s, es[0]);
      hide Inv, Apply, Enabled;
      SenderExits(Apply(s, es[0]), es[1..]);
    }
  }
}
