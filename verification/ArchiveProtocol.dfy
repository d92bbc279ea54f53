/** The threads of the MWA archive client: N archive workers, the thread that reports to the monitor
    and control system (M&C), callers that schedule files, and the main thread shutting down.
    Every section under a mutex is one step, so a run is any list of events enabled in turn. */
module ArchiveProtocol {
  import opened ArchiveQueue
  import opened Orders
  import Text

  /** What ngamsArchiveFile returned for one file taken from the queue. */
  datatype Outcome = Outcome(file: string, size: nat, status: int)

  datatype Worker =
    | Ready                        // about to enter the locked section of its loop
    | Sleeping                     // waiting on archiveQueueCond, not notified
    | Archiving(file: string)      // took file, inside ngamsArchiveFile
    | Reporting(outcome: Outcome)  // ngamsArchiveFile has returned
    | Closing(done: string)        // about to release the entry
    | Exited
  {
    predicate Busy() {
      Archiving? || Reporting? || Closing?
    }

    function File(): string
      requires Busy()
    {
      match this
      case Archiving(f) => f
      case Reporting(o) => o.file
      case Closing(f) => f
    }
  }

  /** Checked: found the ring empty and still owns the mutex; the flag is set under another mutex, so
      the check and the wait are two steps. Sent: the send section is over, the count still includes it. */
  datatype Sender = SReady | Checked | SSleeping | Sending(post: string) | Sent(sent: string) | SExited

  datatype Main =
    | Running
    | AwaitFiles | FilesSleeping   // the loop on archiveQueueCount
    | AwaitPosts | PostsSleeping   // the loop on sendToMCQueueCount
    | Drained                      // both loops are over
    | Flagged(force: bool)         // ngamsTerminatedByDC is set
    | Joining(force: bool)         // the broadcast is done

  /** The last five fields are history: names accepted by ngamsScheduleArchive, names taken by workers,
      returns of ngamsArchiveFile, reports handed to ngamsScheduleSendToMC, posts sent. */
  datatype State = State(
    reg: Registry,
    posts: Ring,
    postCount: int,
    sendToMMC: bool,
    terminated: bool,
    workers: seq<Worker>,
    sender: Sender,
    main: Main,
    accepted: seq<string>,
    taken: seq<string>,
    archived: seq<Outcome>,
    offered: seq<Outcome>,
    sent: seq<string>)

  datatype Event =
    | Schedule(file: string)
    | Enter(w: nat)                             // locked section at the top of the worker loop
    | Wake(w: nat)                              // spurious wake-up
    | Archive(w: nat, size: nat, status: int)
    | Report(w: nat)
    | Close(w: nat)
    | SenderEnter | SenderWait | SenderWake | SenderSend | SenderClose
    | Terminate(force: bool)
    | CheckFiles | CheckPosts | MainWake | SetFlag | Broadcast

  // ------------------------------------------------------------------ the post

  function {:tailrecursion false} BaseName(path: string): string {
    if path == "" then ""
    else if '/' in path[1..] then BaseName(path[1..])
    else if path[0] == '/' then path[1..] else path
  }

  const URI := "http://mwangas/RETRIEVE?file_id="

  function PostText(o: Outcome): string {
    URI + BaseName(o.file) + "|" + Text.Decimal(o.size) + "|" + Text.SignedDecimal(o.status)
  }

  predicate FitsBuffer(o: Outcome) {
    |PostText(o)| < MED_BUF
  }

  /** The posts ngamsScheduleSendToMC accepted: those that fit its buffer, in order. */
  function Accepted(offered: seq<Outcome>): seq<string> {
    if offered == [] then []
    else
      var o := offered[|offered| - 1];
      Accepted(offered[..|offered| - 1]) + if FitsBuffer(o) then [PostText(o)] else []
  }

  // ----------------------------------------------------------------- the steps

  function Init(streams: nat, sendToMMC: bool): State {
    State(EMPTY_REGISTRY, EMPTY_RING, 0, sendToMMC, false, seq(streams, _ => Ready), SReady, Running, [], [], [], [], [])
  }

  function WakeAll(ws: seq<Worker>): seq<Worker> {
    seq(|ws|, i requires 0 <= i < |ws| => if ws[i].Sleeping? then Ready else ws[i])
  }

  predicate WellFormed(s: State) {
    s.reg.ring.Valid() && s.posts.Valid()
  }

  predicate Known(s: State, file: string) {
    file in s.reg.queued || file in s.reg.processing
  }

  /** The two guards on full rings (and the one on the empty name) stand for what the code never tests. */
  predicate Enabled(s: State, e: Event)
    requires WellFormed(s)
  {
    match e
    case Schedule(f) => Known(s, f) || |f| >= MED_BUF || (f != "" && s.reg.ring.HasRoom())
    case Enter(w) => w < |s.workers| && s.workers[w].Ready?
    case Wake(w) => w < |s.workers| && s.workers[w].Sleeping?
    case Archive(w, _, _) => w < |s.workers| && s.workers[w].Archiving?
    case Report(w) => w < |s.workers| && s.workers[w].Reporting? && (s.sendToMMC ==>
        !s.sender.Checked? && (FitsBuffer(s.workers[w].outcome) ==> s.posts.HasRoom()))
    case Close(w) => w < |s.workers| && s.workers[w].Closing?
    case SenderEnter => s.sender.SReady?
    case SenderWait => s.sender.Checked?
    case SenderWake => s.sender.SSleeping?
    case SenderSend => s.sender.Sending?
    case SenderClose => s.sender.Sent?
    case Terminate(_) => s.main.Running?
    case CheckFiles => s.main.AwaitFiles?
    case CheckPosts => s.main.AwaitPosts? && !s.sender.Checked?
    case MainWake => s.main.FilesSleeping? || s.main.PostsSleeping?
    case SetFlag => s.main.Drained?
    case Broadcast => s.main.Flagged?
  }

  function DoSchedule(s: State, file: string): State
    requires WellFormed(s)
  {
    var (reg, status) := PutEntry(s.reg, file);
    if Known(s, file) || status == Failure then s
    else s.(reg := reg, workers := WakeAll(s.workers), accepted := s.accepted + [file])
  }

  function DoEnter(s: State, w: nat): State
    requires WellFormed(s) && w < |s.workers|
  {
    if s.terminated then s.(workers := s.workers[w := Exited])
    else if !s.reg.ring.HasPending() then s.(workers := s.workers[w := Sleeping])
    else
      var (reg, file) := TakeEntry(s.reg);
      s.(reg := reg, workers := s.workers[w := Archiving(file)], taken := s.taken + [file])
  }

  function DoArchive(s: State, w: nat, size: nat, status: int): State
    requires w < |s.workers| && s.workers[w].Archiving?
  {
    var o := Outcome(s.workers[w].file, size, status);
    s.(workers := s.workers[w := Reporting(o)], archived := s.archived + [o])
  }

  function DoReport(s: State, w: nat): State
    requires WellFormed(s) && w < |s.workers| && s.workers[w].Reporting?
  {
    var o := s.workers[w].outcome;
    var s' := s.(workers := s.workers[w := Closing(o.file)]);
    if !s.sendToMMC then s'
    else if !FitsBuffer(o) then s'.(offered := s.offered + [o])
    else s'.(
      offered := s.offered + [o],
      posts := s.posts.Store(PostText(o)),
      postCount := s.postCount + 1,
      sender := if s.sender.SSleeping? then SReady else s.sender)
  }

  function DoClose(s: State, w: nat): State
    requires w < |s.workers| && s.workers[w].Closing?
  {
    var file := s.workers[w].done;
    var s' := s.(workers := s.workers[w := Ready]);
    if file !in s.reg.processing then s'
    else s'.(reg := DeleteEntry(s.reg, file), main := if s.main.FilesSleeping? then AwaitFiles else s.main)
  }

  function DoSenderEnter(s: State): State
    requires WellFormed(s)
  {
    if s.terminated then s.(sender := SExited)
    else if !s.posts.HasPending() then s.(sender := Checked)
    else s.(sender := Sending(s.posts.Head()), posts := s.posts.Drop())
  }

  function DoBroadcast(s: State): State
    requires s.main.Flagged?
  {
    s.(
      main := Joining(s.main.force),
      workers := WakeAll(s.workers),
      sender := if s.sender.SSleeping? then SReady else s.sender)
  }

  function Apply(s: State, e: Event): State
    requires WellFormed(s) && Enabled(s, e)
  {
    match e
    case Schedule(f) => DoSchedule(s, f)
    case Enter(w) => DoEnter(s, w)
    case Wake(w) => s.(workers := s.workers[w := Ready])
    case Archive(w, size, status) => DoArchive(s, w, size, status)
    case Report(w) => DoReport(s, w)
    case Close(w) => DoClose(s, w)
    case SenderEnter => DoSenderEnter(s)
    case SenderWait => s.(sender := SSleeping)
    case SenderWake => s.(sender := SReady)
    case SenderSend => s.(sender := Sent(s.sender.post), sent := s.sent + [s.sender.post])
    case SenderClose =>
      s.(sender := SReady, postCount := s.postCount - 1, main := if s.main.PostsSleeping? then AwaitPosts else s.main)
    case Terminate(force) =>
      if force then s.(main := Flagged(true), terminated := true) else s.(main := AwaitFiles)
    case CheckFiles => s.(main := if s.reg.count > 0 then FilesSleeping else AwaitPosts)
    case CheckPosts => s.(main := if s.postCount > 0 then PostsSleeping else Drained)
    case MainWake => s.(main := if s.main.FilesSleeping? then AwaitFiles else AwaitPosts)
    case SetFlag => s.(main := Flagged(false), terminated := true)
    case Broadcast => DoBroadcast(s)
  }

  // --------------------------------------------------------------------- runs

  ghost predicate Legal(s: State, es: seq<Event>)
    requires WellFormed(s)
    decreases |es|
  {
    es == [] || (Enabled(s, es[0]) && WellFormed(Apply(s, es[0])) && Legal(Apply(s, es[0]), es[1..]))
  }

  ghost function Exec(s: State, es: seq<Event>): State
    requires WellFormed(s) && Legal(s, es)
    decreases |es|
  {
    if es == [] then s else Exec(Apply(s, es[0]), es[1..])
  }

  /** No file is scheduled once terminateNgams has been called. */
  ghost predicate NoLateScheduling(s: State, es: seq<Event>)
    requires WellFormed(s) && Legal(s, es)
    decreases |es|
  {
    es == [] || ((es[0].Schedule? ==> s.main.Running?) && NoLateScheduling(Apply(s, es[0]), es[1..]))
  }

  // --------------------------------------------------------------- invariants

  function Files(outcomes: seq<Outcome>): seq<string> {
    seq(|outcomes|, i requires 0 <= i < |outcomes| => outcomes[i].file)
  }

  function InFlight(sender: Sender): seq<string> {
    if sender.Sending? then [sender.post] else []
  }

  /** The ring, both DBMs and the counter agree with what was accepted and not yet taken. */
  ghost predicate QueueInv(reg: Registry, accepted: seq<string>, taken: seq<string>) {
    taken <= accepted && Consistent(reg, accepted[|taken|..])
  }

  /** Every key of the processing DBM is owned by exactly one worker. */
  ghost predicate OwnerInv(processing: set<string>, ws: seq<Worker>) {
    && (forall i :: 0 <= i < |ws| && ws[i].Busy() ==> ws[i].File() in processing)
    && (forall i, j :: 0 <= i < j < |ws| && ws[i].Busy() && ws[j].Busy() ==> ws[i].File() != ws[j].File())
    && (forall f :: f in processing ==> exists i :: 0 <= i < |ws| && ws[i].Busy() && ws[i].File() == f)
  }

  /** Every taken file has been archived as often as it was taken, or is with a worker. */
  ghost predicate TakenAreArchived(taken: seq<string>, files: seq<string>, ws: seq<Worker>) {
    forall f :: multiset(taken)[f] == multiset(files)[f] + multiset(ws)[Archiving(f)]
  }

  ghost predicate TakenInOrder(taken: seq<string>, files: seq<string>, ws: seq<Worker>) {
    |ws| == 1 ==> taken == files + if ws[0].Archiving? then [ws[0].file] else []
  }

  /** Nothing is lost or done twice between the queue and the end of ngamsArchiveFile. */
  ghost predicate ArchiveInv(taken: seq<string>, archived: seq<Outcome>, ws: seq<Worker>) {
    TakenAreArchived(taken, Files(archived), ws) && TakenInOrder(taken, Files(archived), ws)
  }

  /** Nothing is lost or done twice between the end of ngamsArchiveFile and the report. */
  ghost predicate ReportInv(sendToMMC: bool, archived: seq<Outcome>, offered: seq<Outcome>, ws: seq<Worker>) {
    if sendToMMC then
      && (forall o :: multiset(archived)[o] == multiset(offered)[o] + multiset(ws)[Reporting(o)])
      && (|ws| == 1 ==> archived == offered + if ws[0].Reporting? then [ws[0].outcome] else [])
    else
      offered == []
  }

  /** Posts leave in the order they were accepted, and the post counter covers each until it is sent. */
  ghost predicate PostsAre(posts: Ring, postCount: int, all: seq<string>, sent: seq<string>, sender: Sender) {
    var out := sent + InFlight(sender);
    && out <= all
    && Holds(posts, all[|out|..])
    && postCount == |all| - |sent| + if sender.Sent? then 1 else 0
  }

  ghost predicate PostInv(posts: Ring, postCount: int, offered: seq<Outcome>, sent: seq<string>, sender: Sender) {
    PostsAre(posts, postCount, Accepted(offered), sent, sender)
  }

  ghost predicate NoneSleeping(ws: seq<Worker>) {
    forall i :: 0 <= i < |ws| ==> !ws[i].Sleeping?
  }

  /** No wake-up is lost: whoever sleeps un-notified has nothing to do. */
  ghost predicate WaitInv(s: State)
    requires WellFormed(s)
  {
    && (s.reg.ring.HasPending() || s.main.Joining? ==> NoneSleeping(s.workers))
    && (s.posts.HasPending() ==> !s.sender.SSleeping? && !s.sender.Checked?)
    && (s.main.FilesSleeping? ==> s.reg.count > 0)
    && (s.main.PostsSleeping? ==> s.postCount > 0)
    && (s.terminated <==> s.main.Flagged? || s.main.Joining?)
  }

  ghost predicate Inv(s: State) {
    && WellFormed(s)
    && QueueInv(s.reg, s.accepted, s.taken)
    && OwnerInv(s.reg.processing.Keys, s.workers)
    && ArchiveInv(s.taken, s.archived, s.workers)
    && ReportInv(s.sendToMMC, s.archived, s.offered, s.workers)
    && PostInv(s.posts, s.postCount, s.offered, s.sent, s.sender)
    && WaitInv(s)
  }

  /** What the two waiting loops of terminateNgams(false) establish, if nothing is scheduled meanwhile. */
  ghost predicate DrainInv(s: State) {
    && (PastFiles(s.main) ==> s.reg.count == 0)
    && (PastPosts(s.main) ==> s.postCount == 0)
  }

  predicate PastFiles(m: Main) {
    m.AwaitPosts? || m.PostsSleeping? || PastPosts(m)
  }

  predicate PastPosts(m: Main) {
    m.Drained? || (m.Flagged? && !m.force) || (m.Joining? && !m.force)
  }

  // ------------------------------------------------ one worker changes its state

  /** A worker moves from ws[w] to x: it releases the file it had, unless it keeps it. */
  lemma OwnerMove(processing: set<string>, processing': set<string>, ws: seq<Worker>, w: nat, x: Worker)
    requires OwnerInv(processing, ws) && w < |ws|
    requires var had := if ws[w].Busy() then {ws[w].File()} else {};
             var has := if x.Busy() then {x.File()} else {};
             processing' == processing - had + has && has !! (processing - had)
    ensures OwnerInv(processing', ws[w := x])
  {
    var ws' := ws[w := x];
    forall f | f in processing'
      ensures exists i :: 0 <= i < |ws'| && ws'[i].Busy() && ws'[i].File() == f
    {
      if x.Busy() && x.File() == f {
        assert ws'[w].Busy();
      } else {
        var i :| 0 <= i < |ws| && ws[i].Busy() && ws[i].File() == f;
        assert ws'[i] == ws[i];
      }
    }
  }

  lemma WorkerCount(ws: seq<Worker>, w: nat, x: Worker, y: Worker)
    requires w < |ws|
    ensures multiset(ws[w := x])[y] == multiset(ws)[y] - (if ws[w] == y then 1 else 0) + (if x == y then 1 else 0)
  {
  }

  lemma AppendCount<T>(s: seq<T>, t: seq<T>, y: T)
    requires |t| <= 1
    ensures multiset(s + t)[y] == multiset(s)[y] + if t == [y] then 1 else 0
  {
    if t == [] {
      assert s + t == s;
    }
  }

  /** A worker moves from ws[w] to x: it takes a file, returns from ngamsArchiveFile, or does neither. */
  lemma ArchiveMove(taken: seq<string>, archived: seq<Outcome>, ws: seq<Worker>, w: nat, x: Worker,
                    taken': seq<string>, archived': seq<Outcome>)
    requires ArchiveInv(taken, archived, ws) && w < |ws|
    requires taken' == taken + if x.Archiving? then [x.file] else []
    requires ws[w].Archiving? ==> x.Reporting? && x.outcome.file == ws[w].file
    requires archived' == archived + if ws[w].Archiving? then [x.outcome] else []
    ensures ArchiveInv(taken', archived', ws[w := x])
  {
    var begun := if x.Archiving? then [x.file] else [];
    var ended := if ws[w].Archiving? then [ws[w].file] else [];
    assert Files(archived') == Files(archived) + ended;
    hide TakenAreArchived, TakenInOrder, Files;
    TakenMove(taken, Files(archived), ws, w, x);
    OrderMove(taken, Files(archived), ws, w, x);
  }

  lemma TakenMove(taken: seq<string>, files: seq<string>, ws: seq<Worker>, w: nat, x: Worker)
    requires TakenAreArchived(taken, files, ws) && w < |ws| && (ws[w].Archiving? ==> !x.Archiving?)
    ensures TakenAreArchived(taken + if x.Archiving? then [x.file] else [],
                             files + if ws[w].Archiving? then [ws[w].file] else [], ws[w := x])
  {
    forall f
      ensures multiset(taken + if x.Archiving? then [x.file] else [])[f]
           == multiset(files + if ws[w].Archiving? then [ws[w].file] else [])[f] + multiset(ws[w := x])[Archiving(f)]
    {
      WorkerCount(ws, w, x, Archiving(f));
      AppendCount(taken, if x.Archiving? then [x.file] else [], f);
      AppendCount(files, if ws[w].Archiving? then [ws[w].file] else [], f);
    }
  }

  lemma OrderMove(taken: seq<string>, files: seq<string>, ws: seq<Worker>, w: nat, x: Worker)
    requires TakenInOrder(taken, files, ws) && w < |ws| && (ws[w].Archiving? ==> !x.Archiving?)
    ensures TakenInOrder(taken + if x.Archiving? then [x.file] else [],
                         files + if ws[w].Archiving? then [ws[w].file] else [], ws[w := x])
  {
  }

  /** A worker moves from ws[w] to x: ngamsArchiveFile returns, it hands in its report, or neither. */
  lemma ReportMove(sendToMMC: bool, archived: seq<Outcome>, offered: seq<Outcome>, ws: seq<Worker>, w: nat, x: Worker,
                   archived': seq<Outcome>, offered': seq<Outcome>)
    requires ReportInv(sendToMMC, archived, offered, ws) && w < |ws|
    requires archived' == archived + if x.Reporting? then [x.outcome] else []
    requires offered' == offered + if sendToMMC && ws[w].Reporting? then [ws[w].outcome] else []
    requires !(ws[w].Reporting? && x.Reporting?)
    ensures ReportInv(sendToMMC, archived', offered', ws[w := x])
  {
  }

  lemma {:induction false} WakeAllCounts(ws: seq<Worker>, x: Worker)
    requires !x.Sleeping? && !x.Ready?
    ensures multiset(WakeAll(ws))[x] == multiset(ws)[x]
  {
    if ws != [] {
      var n := |ws| - 1;
      assert ws == ws[..n] + [ws[n]];
      assert WakeAll(ws) == WakeAll(ws[..n]) + [WakeAll(ws)[n]];
      WakeAllCounts(ws[..n], x);
    }
  }

  lemma WakeAllOwns(processing: set<string>, ws: seq<Worker>)
    requires OwnerInv(processing, ws)
    ensures OwnerInv(processing, WakeAll(ws))
  {
    forall f | f in processing
      ensures exists i :: 0 <= i < |ws| && WakeAll(ws)[i].Busy() && WakeAll(ws)[i].File() == f
    {
      var i :| 0 <= i < |ws| && ws[i].Busy() && ws[i].File() == f;
      assert WakeAll(ws)[i] == ws[i];
    }
  }

  lemma WakeAllAccounts(s: State)
    requires ArchiveInv(s.taken, s.archived, s.workers) && ReportInv(s.sendToMMC, s.archived, s.offered, s.workers)
    ensures ArchiveInv(s.taken, s.archived, WakeAll(s.workers))
    ensures ReportInv(s.sendToMMC, s.archived, s.offered, WakeAll(s.workers))
  {
    var ws := WakeAll(s.workers);
    assert |s.workers| == 1 ==> |ws| == 1 && ws[0] == if s.workers[0].Sleeping? then Ready else s.workers[0];
    forall f
      ensures multiset(ws)[Archiving(f)] == multiset(s.workers)[Archiving(f)]
    {
      WakeAllCounts(s.workers, Archiving(f));
    }
    forall o
      ensures multiset(ws)[Reporting(o)] == multiset(s.workers)[Reporting(o)]
    {
      WakeAllCounts(s.workers, Reporting(o));
    }
    hide WakeAll, Files;
  }

  /** The worker parts of the invariant, for a step that changes only worker w, to x. */
  lemma WorkerMoves(s: State, s': State, w: nat, x: Worker)
    requires Inv(s) && w < |s.workers| && s'.workers == s.workers[w := x] && s'.sendToMMC == s.sendToMMC
    requires var had := if s.workers[w].Busy() then {s.workers[w].File()} else {};
             var has := if x.Busy() then {x.File()} else {};
             s'.reg.processing.Keys == s.reg.processing.Keys - had + has && has !! (s.reg.processing.Keys - had)
    requires s'.taken == s.taken + if x.Archiving? then [x.file] else []
    requires s'.archived == s.archived + if x.Reporting? then [x.outcome] else []
    requires s'.offered == s.offered + if s.sendToMMC && s.workers[w].Reporting? then [s.workers[w].outcome] else []
    requires s.workers[w].Archiving? <==> x.Reporting?
    requires x.Reporting? ==> x.outcome.file == s.workers[w].file
    ensures OwnerInv(s'.reg.processing.Keys, s'.workers)
    ensures ArchiveInv(s'.taken, s'.archived, s'.workers)
    ensures ReportInv(s'.sendToMMC, s'.archived, s'.offered, s'.workers)
  {
    hide QueueInv, OwnerInv, ArchiveInv, ReportInv, PostInv;
    OwnerMove(s.reg.processing.Keys, s'.reg.processing.Keys, s.workers, w, x);
    ArchiveMove(s.taken, s.archived, s.workers, w, x, s'.taken, s'.archived);
    ReportMove(s.sendToMMC, s.archived, s.offered, s.workers, w, x, s'.archived, s'.offered);
  }

  // -------------------------------------------------------- the archive queue

  lemma PutKeepsQueue(reg: Registry, accepted: seq<string>, taken: seq<string>, file: string)
    requires reg.ring.Valid() && QueueInv(reg, accepted, taken)
    requires file !in reg.queued && file !in reg.processing && |file| < MED_BUF && file != "" && reg.ring.HasRoom()
    ensures PutEntry(reg, file).0.ring.Valid() && QueueInv(PutEntry(reg, file).0, accepted + [file], taken)
  {
    hide Consistent;
    var pending := accepted[|taken|..];
    PutEntryAppends(reg, pending, file);
    assert (accepted + [file])[|taken|..] == pending + [file];
  }

  /** What a worker that finds a pending entry takes, and how the queue stands after it. */
  lemma TakeKeepsQueue(reg: Registry, accepted: seq<string>, taken: seq<string>)
    requires reg.ring.Valid() && QueueInv(reg, accepted, taken) && reg.ring.HasPending()
    ensures var (reg', file) := TakeEntry(reg);
            && reg'.ring.Valid()
            && QueueInv(reg', accepted, taken + [file])
            && file !in reg.processing
            && reg'.processing.Keys == reg.processing.Keys + {file}
  {
    hide Consistent;
    var pending := accepted[|taken|..];
    TakeEntryRemovesHead(reg, pending);
    var (reg', file) := TakeEntry(reg);
    assert file == accepted[|taken|];
    assert accepted[|taken + [file]|..] == pending[1..];
  }

  lemma DeleteKeepsQueue(reg: Registry, accepted: seq<string>, taken: seq<string>, file: string)
    requires QueueInv(reg, accepted, taken)
    ensures QueueInv(DeleteEntry(reg, file), accepted, taken)
    ensures DeleteEntry(reg, file).processing.Keys == reg.processing.Keys - {file}
  {
    hide Consistent;
    DeleteEntryReleases(reg, accepted[|taken|..], file);
  }

  lemma BusyOwns(s: State, w: nat)
    requires Inv(s) && w < |s.workers| && s.workers[w].Busy()
    ensures s.workers[w].File() in s.reg.processing.Keys
  {
  }

  lemma ScheduleStep(s: State, file: string)
    requires Inv(s) && Enabled(s, Schedule(file))
    ensures Inv(DoSchedule(s, file))
  {
    hide QueueInv, OwnerInv, ArchiveInv, ReportInv, PostInv;
    if !Known(s, file) && |file| < MED_BUF {
      PutKeepsQueue(s.reg, s.accepted, s.taken, file);
      WakeAllOwns(s.reg.processing.Keys, s.workers);
      WakeAllAccounts(s);
    }
  }

  lemma EnterStep(s: State, w: nat)
    requires Inv(s) && Enabled(s, Enter(w))
    ensures Inv(DoEnter(s, w))
  {
    hide QueueInv, OwnerInv, ArchiveInv, ReportInv, PostInv;
    var s' := DoEnter(s, w);
    if !s.terminated && s.reg.ring.HasPending() {
      TakeKeepsQueue(s.reg, s.accepted, s.taken);
    }
    WorkerMoves(s, s', w, s'.workers[w]);
  }

  lemma WakeStep(s: State, w: nat)
    requires Inv(s) && Enabled(s, Wake(w))
    ensures Inv(Apply(s, Wake(w)))
  {
    hide QueueInv, OwnerInv, ArchiveInv, ReportInv, PostInv;
    WorkerMoves(s, Apply(s, Wake(w)), w, Ready);
  }

  lemma ArchiveStep(s: State, w: nat, size: nat, status: int)
    requires Inv(s) && Enabled(s, Archive(w, size, status))
    ensures Inv(DoArchive(s, w, size, status))
  {
    hide QueueInv, OwnerInv, ArchiveInv, ReportInv, PostInv;
    var s' := DoArchive(s, w, size, status);
    BusyOwns(s, w);
    WorkerMoves(s, s', w, s'.workers[w]);
  }

  lemma CloseStep(s: State, w: nat)
    requires Inv(s) && Enabled(s, Close(w))
    ensures Inv(DoClose(s, w))
  {
    hide QueueInv, OwnerInv, ArchiveInv, ReportInv, PostInv;
    DeleteKeepsQueue(s.reg, s.accepted, s.taken, s.workers[w].done);
    BusyOwns(s, w);
    WorkerMoves(s, DoClose(s, w), w, Ready);
  }

  // ----------------------------------------------------------- the post queue

  lemma AcceptedAppend(offered: seq<Outcome>, o: Outcome)
    ensures Accepted(offered + [o])
         == if FitsBuffer(o) then Accepted(offered) + [PostText(o)] else Accepted(offered)
  {
    assert (offered + [o])[..|offered|] == offered;
  }

  /** A report that fits enters the ring; one that does not leaves ring and counter alone. */
  lemma OfferKeepsPosts(posts: Ring, postCount: int, offered: seq<Outcome>, sent: seq<string>, sender: Sender, o: Outcome)
    requires PostInv(posts, postCount, offered, sent, sender)
    ensures !FitsBuffer(o) ==> PostInv(posts, postCount, offered + [o], sent, sender)
    ensures FitsBuffer(o) && posts.HasRoom() ==>
              PostInv(posts.Store(PostText(o)), postCount + 1, offered + [o], sent, sender)
  {
    AcceptedAppend(offered, o);
    PostTextNonEmpty(o);
    assert posts.Valid();
    hide PostsAre, FitsBuffer, PostText, Accepted;
    if posts.HasRoom() {
      AcceptedPost(posts, postCount, Accepted(offered), sent, sender, PostText(o));
    }
  }

  lemma AcceptedPost(posts: Ring, postCount: int, all: seq<string>, sent: seq<string>, sender: Sender, text: string)
    requires PostsAre(posts, postCount, all, sent, sender) && posts.Valid() && posts.HasRoom() && text != ""
    ensures PostsAre(posts.Store(text), postCount + 1, all + [text], sent, sender)
  {
    var out := sent + InFlight(sender);
    var rest := all[|out|..];
    assert out <= all + [text] && (all + [text])[|out|..] == rest + [text];
    hide Holds, InFlight;
    RingTests(posts, rest);
    StoreAppends(posts, rest, text);
  }

  lemma PostTextNonEmpty(o: Outcome)
    ensures PostText(o) != ""
  {
    assert |PostText(o)| > 0;
  }

  lemma DropKeepsPosts(posts: Ring, postCount: int, offered: seq<Outcome>, sent: seq<string>)
    requires PostInv(posts, postCount, offered, sent, SReady) && posts.HasPending()
    ensures PostInv(posts.Drop(), postCount, offered, sent, Sending(posts.Head()))
  {
    assert posts.Valid();
    hide PostsAre, Accepted;
    TakenPost(posts, postCount, Accepted(offered), sent);
  }

  lemma TakenPost(posts: Ring, postCount: int, all: seq<string>, sent: seq<string>)
    requires PostsAre(posts, postCount, all, sent, SReady) && posts.Valid() && posts.HasPending()
    ensures PostsAre(posts.Drop(), postCount, all, sent, Sending(posts.Head()))
  {
    assert sent + [] == sent;
    var rest := all[|sent|..];
    assert sent <= all && Holds(posts, rest);
    hide Holds;
    RingTests(posts, rest);
    DropRemovesHead(posts, rest);
    FirstIsNext(all, sent, rest[0]);
  }

  lemma FirstIsNext(all: seq<string>, sent: seq<string>, first: string)
    requires sent <= all && |sent| < |all| && all[|sent|] == first
    ensures sent + [first] <= all && all[|sent| + 1..] == all[|sent|..][1..]
  {
  }

  /** The sender changes its state without touching the ring. */
  lemma SenderMoves(posts: Ring, postCount: int, offered: seq<Outcome>, sent: seq<string>, sender: Sender,
                    postCount': int, sent': seq<string>, sender': Sender)
    requires PostInv(posts, postCount, offered, sent, sender)
    requires sent' + InFlight(sender') == sent + InFlight(sender)
    requires postCount' - (if sender'.Sent? then 1 else 0) + |sent'| == postCount - (if sender.Sent? then 1 else 0) + |sent|
    ensures PostInv(posts, postCount', offered, sent', sender')
  {
  }

  lemma ReportStep(s: State, w: nat)
    requires Inv(s) && Enabled(s, Report(w))
    ensures Inv(DoReport(s, w))
  {
    hide QueueInv, OwnerInv, ArchiveInv, ReportInv, PostInv, FitsBuffer, PostText;
    var s', o := DoReport(s, w), s.workers[w].outcome;
    BusyOwns(s, w);
    WorkerMoves(s, s', w, s'.workers[w]);
    OfferKeepsPosts(s.posts, s.postCount, s.offered, s.sent, s.sender, o);
    if s.sendToMMC && s.sender.SSleeping? {
      SenderMoves(s'.posts, s'.postCount, s'.offered, s'.sent, s.sender, s'.postCount, s'.sent, s'.sender);
    }
  }

  lemma SenderStep(s: State, e: Event)
    requires Inv(s) && Enabled(s, e)
    requires e.SenderEnter? || e.SenderWait? || e.SenderWake? || e.SenderSend? || e.SenderClose?
    ensures Inv(Apply(s, e))
  {
    hide QueueInv, OwnerInv, ArchiveInv, ReportInv, PostInv;
    var s' := Apply(s, e);
    if e.SenderEnter? && !s.terminated && s.posts.HasPending() {
      DropKeepsPosts(s.posts, s.postCount, s.offered, s.sent);
    } else {
      SenderMoves(s.posts, s.postCount, s.offered, s.sent, s.sender, s'.postCount, s'.sent, s'.sender);
    }
  }

  // ------------------------------------------------------- shutdown, and a run

  lemma MainStep(s: State, e: Event)
    requires Inv(s) && Enabled(s, e)
    requires e.Terminate? || e.CheckFiles? || e.CheckPosts? || e.MainWake? || e.SetFlag?
    ensures Inv(Apply(s, e))
  {
    hide QueueInv, OwnerInv, ArchiveInv, ReportInv, PostInv;
  }

  lemma BroadcastStep(s: State)
    requires Inv(s) && s.main.Flagged?
    ensures Inv(DoBroadcast(s))
  {
    hide QueueInv, OwnerInv, ArchiveInv, ReportInv, PostInv;
    var s' := DoBroadcast(s);
    WakeAllOwns(s.reg.processing.Keys, s.workers);
    WakeAllAccounts(s);
    SenderMoves(s.posts, s.postCount, s.offered, s.sent, s.sender, s'.postCount, s'.sent, s'.sender);
  }

  lemma InvStep(s: State, e: Event)
    requires Inv(s) && Enabled(s, e)
    ensures Inv(Apply(s, e))
  {
    hide Inv;
    match e
    case Schedule(f) => ScheduleStep(s, f);
    case Enter(w) => EnterStep(s, w);
    case Wake(w) => WakeStep(s, w);
    case Archive(w, size, status) => ArchiveStep(s, w, size, status);
    case Report(w) => ReportStep(s, w);
    case Close(w) => CloseStep(s, w);
    case Broadcast => BroadcastStep(s);
    case SenderEnter => SenderStep(s, e);
    case SenderWait => SenderStep(s, e);
    case SenderWake => SenderStep(s, e);
    case SenderSend => SenderStep(s, e);
    case SenderClose => SenderStep(s, e);
    case _ => MainStep(s, e);
  }

  lemma InitInv(streams: nat, sendToMMC: bool)
    ensures Inv(Init(streams, sendToMMC)) && DrainInv(Init(streams, sendToMMC))
  {
    var s := Init(streams, sendToMMC);
    assert Files([]) == [] && Accepted([]) == [];
    assert forall x: Worker :: x in multiset(s.workers) ==> x == Ready;
    assert Consistent(s.reg, []);
    assert s.accepted[|s.taken|..] == [];
    assert Accepted(s.offered)[|s.sent + InFlight(s.sender)|..] == [];
  }

  /** With the counter at zero nothing is pending and no worker holds a file. */
  lemma Idle(s: State)
    requires Inv(s)
    ensures s.reg.count >= 0 && s.postCount >= 0
    ensures s.sender.Sending? || s.sender.Sent? ==> s.postCount > 0
    ensures s.reg.count == 0 ==>
              && s.taken == s.accepted && !s.reg.ring.HasPending()
              && forall i :: 0 <= i < |s.workers| ==> !s.workers[i].Busy()
  {
    hide QueueInv, OwnerInv, ArchiveInv, ReportInv, PostInv, WaitInv;
    QueueIdle(s.reg, s.accepted, s.taken);
    WorkersIdle(s.reg.processing.Keys, s.workers);
    PostsCovered(s.posts, s.postCount, s.offered, s.sent, s.sender);
    assert |s.reg.processing| == |s.reg.processing.Keys|;
  }

  lemma QueueIdle(reg: Registry, accepted: seq<string>, taken: seq<string>)
    requires QueueInv(reg, accepted, taken) && reg.ring.Valid()
    ensures reg.count >= |reg.processing|
    ensures reg.count == 0 ==> taken == accepted && !reg.ring.HasPending()
  {
    var pending := accepted[|taken|..];
    assert Consistent(reg, pending) && Holds(reg.ring, pending) && accepted == taken + pending;
    hide *;
    CountIsPendingPlusProcessing(reg, pending);
    RingTests(reg.ring, pending);
  }

  lemma WorkersIdle(processing: set<string>, ws: seq<Worker>)
    requires OwnerInv(processing, ws)
    ensures |processing| == 0 ==> forall i :: 0 <= i < |ws| ==> !ws[i].Busy()
  {
    assert |processing| == 0 ==> processing == {};
  }

  lemma PostsCovered(posts: Ring, postCount: int, offered: seq<Outcome>, sent: seq<string>, sender: Sender)
    requires PostInv(posts, postCount, offered, sent, sender)
    ensures postCount >= 0 && (sender.Sending? || sender.Sent? ==> postCount > 0)
  {
    hide Holds, Accepted;
  }

  /** The counter that an event moves was not zero, so no waiting loop is past it. */
  lemma MovesCounter(s: State, e: Event)
    requires Inv(s) && Enabled(s, e)
    ensures e.Close? || e.Report? ==> s.reg.count != 0
    ensures e.SenderClose? ==> s.postCount > 0
    ensures e.Enter? ==> s.reg.ring.HasPending() ==> TakeEntry(s.reg).0.count == s.reg.count
  {
    hide Inv;
    Idle(s);
    assert WellFormed(s) by { InvWellFormed(s); }
  }

  lemma DrainStep(s: State, e: Event)
    requires Inv(s) && DrainInv(s) && Enabled(s, e)
    requires e.Schedule? ==> s.main.Running?
    ensures DrainInv(Apply(s, e))
  {
    hide Inv;
    Idle(s);
    MovesCounter(s, e);
    assert WellFormed(s) by { InvWellFormed(s); }
    hide PutEntry, TakeEntry, DeleteEntry, FitsBuffer, WakeAll, PostText;
  }

  lemma InvWellFormed(s: State)
    requires Inv(s)
    ensures WellFormed(s)
  {
  }

  lemma {:induction false} RunInv(s: State, es: seq<Event>)
    requires Inv(s) && Legal(s, es)
    ensures Inv(Exec(s, es))
    decreases |es|
  {
    hide Inv, Apply, Enabled;
    InvWellFormed(s);
    if es != [] {
      InvStep(s, es[0]);
      RunInv(Apply(s, es[0]), es[1..]);
    }
  }

  lemma {:induction false} RunDrains(s: State, es: seq<Event>)
    requires Inv(s) && DrainInv(s) && Legal(s, es) && NoLateScheduling(s, es)
    ensures DrainInv(Exec(s, es))
    decreases |es|
  {
    hide Inv, DrainInv, Apply, Enabled;
    InvWellFormed(s);
    if es != [] {
      InvStep(s, es[0]);
      DrainStep(s, es[0]);
      RunDrains(Apply(s, es[0]), es[1..]);
    }
  }

  // ------------------------------------------------------------ main results

  /** Ring refines FIFO: in every reachable state the slots between the two indexes hold exactly the
      names accepted and not yet taken, in arrival order, and the queue DBM has exactly those keys. */
  lemma RingRefinesFifo(streams: nat, sendToMMC: bool, es: seq<Event>)
    requires Legal(Init(streams, sendToMMC), es)
    ensures var s := Exec(Init(streams, sendToMMC), es);
            && s.taken <= s.accepted
            && var pending := s.accepted[|s.taken|..];
            && Holds(s.reg.ring, pending)
            && Distinct(pending)
            && (forall f :: f in s.reg.queued <==> f in pending)
  {
    InitInv(streams, sendToMMC);
    RunInv(Init(streams, sendToMMC), es);
    hide OwnerInv, ArchiveInv, ReportInv, PostInv, WaitInv, Holds, Exec, Legal, Init;
  }

  /** Mutual exclusion: the two DBMs are disjoint, the counter is the sum of their sizes, no file is in
      the hands of two workers, and a worker always finds its file in the processing DBM when it closes. */
  lemma MutualExclusion(streams: nat, sendToMMC: bool, es: seq<Event>)
    requires Legal(Init(streams, sendToMMC), es)
    ensures var s := Exec(Init(streams, sendToMMC), es);
            && s.reg.queued.Keys !! s.reg.processing.Keys
            && s.reg.count == |s.reg.queued| + |s.reg.processing|
            && (forall i, j :: 0 <= i < j < |s.workers| && s.workers[i].Busy() && s.workers[j].Busy() ==>
                  s.workers[i].File() != s.workers[j].File())
            && (forall i :: 0 <= i < |s.workers| && s.workers[i].Closing? ==> s.workers[i].done in s.reg.processing)
            && (forall f :: f in s.reg.processing ==>
                  exists i :: 0 <= i < |s.workers| && s.workers[i].Busy() && s.workers[i].File() == f)
  {
    InitInv(streams, sendToMMC);
    RunInv(Init(streams, sendToMMC), es);
    hide *;
    OwnersAreUnique(Exec(Init(streams, sendToMMC), es));
  }

  lemma OwnersAreUnique(s: State)
    requires Inv(s)
    ensures s.reg.queued.Keys !! s.reg.processing.Keys
    ensures s.reg.count == |s.reg.queued| + |s.reg.processing|
    ensures forall i, j :: 0 <= i < j < |s.workers| && s.workers[i].Busy() && s.workers[j].Busy() ==>
              s.workers[i].File() != s.workers[j].File()
    ensures forall i :: 0 <= i < |s.workers| && s.workers[i].Closing? ==> s.workers[i].done in s.reg.processing
    ensures forall f :: f in s.reg.processing ==>
              exists i :: 0 <= i < |s.workers| && s.workers[i].Busy() && s.workers[i].File() == f
  {
    hide QueueInv, ArchiveInv, ReportInv, PostInv, WaitInv;
    QueueDisjoint(s.reg, s.accepted, s.taken);
    ClosingOwns(s.reg.processing.Keys, s.workers);
    assert forall f :: f in s.reg.processing <==> f in s.reg.processing.Keys;
  }

  lemma ClosingOwns(processing: set<string>, ws: seq<Worker>)
    requires OwnerInv(processing, ws)
    ensures forall i :: 0 <= i < |ws| && ws[i].Closing? ==> ws[i].done in processing
  {
    forall i | 0 <= i < |ws| && ws[i].Closing?
      ensures ws[i].done in processing
    {
      assert ws[i].Busy();
    }
  }

  lemma QueueDisjoint(reg: Registry, accepted: seq<string>, taken: seq<string>)
    requires QueueInv(reg, accepted, taken)
    ensures reg.queued.Keys !! reg.processing.Keys && reg.count == |reg.queued| + |reg.processing|
  {
    hide Holds, Distinct, Elements;
  }

  /** No lost wake-up: a sleeping worker means an empty ring, and after the broadcast nobody sleeps. */
  lemma NoLostWakeUp(streams: nat, sendToMMC: bool, es: seq<Event>)
    requires Legal(Init(streams, sendToMMC), es)
    ensures var s := Exec(Init(streams, sendToMMC), es);
            && (forall i :: 0 <= i < |s.workers| && s.workers[i].Sleeping? ==>
                  s.taken == s.accepted && !s.main.Joining?)
            && (s.sender.SSleeping? ==> s.sent == Accepted(s.offered))
            && (s.main.FilesSleeping? ==> s.reg.count > 0)
            && (s.main.PostsSleeping? ==> s.postCount > 0)
  {
    InitInv(streams, sendToMMC);
    RunInv(Init(streams, sendToMMC), es);
    hide Inv, Legal, Exec, Init;
    SleepersHaveNothingToDo(Exec(Init(streams, sendToMMC), es));
  }

  lemma SleepersHaveNothingToDo(s: State)
    requires Inv(s)
    ensures forall i :: 0 <= i < |s.workers| && s.workers[i].Sleeping? ==> s.taken == s.accepted && !s.main.Joining?
    ensures s.sender.SSleeping? ==> s.sent == Accepted(s.offered)
    ensures s.main.FilesSleeping? ==> s.reg.count > 0
    ensures s.main.PostsSleeping? ==> s.postCount > 0
  {
    hide OwnerInv, ArchiveInv, ReportInv, QueueInv, PostInv;
    EmptyRingTaken(s.reg, s.accepted, s.taken);
    if s.sender.SSleeping? {
      EmptyRingSent(s.posts, s.postCount, s.offered, s.sent);
    }
  }

  lemma EmptyRingTaken(reg: Registry, accepted: seq<string>, taken: seq<string>)
    requires QueueInv(reg, accepted, taken) && reg.ring.Valid()
    ensures !reg.ring.HasPending() ==> taken == accepted
  {
    var pending := accepted[|taken|..];
    assert Holds(reg.ring, pending) && accepted == taken + pending;
    hide *;
    RingTests(reg.ring, pending);
  }

  lemma EmptyRingSent(posts: Ring, postCount: int, offered: seq<Outcome>, sent: seq<string>)
    requires PostInv(posts, postCount, offered, sent, SSleeping) && posts.Valid()
    ensures !posts.HasPending() ==> sent == Accepted(offered)
  {
    var all := Accepted(offered);
    assert sent + [] == sent;
    var rest := all[|sent|..];
    assert sent <= all && Holds(posts, rest) && all == sent + rest;
    hide *;
    RingTests(posts, rest);
  }

  /** How many more steps of its own a worker can take once the flag is set. */
  function StepsLeft(w: Worker): nat {
    match w
    case Archiving(_) => 4
    case Reporting(_) => 3
    case Closing(_) => 2
    case Ready => 1
    case Sleeping => 2
    case Exited => 0
  }

  predicate IsStepOf(e: Event, i: nat) {
    (e.Enter? || e.Wake? || e.Archive? || e.Report? || e.Close?) && e.w == i
  }

  function StepsTaken(es: seq<Event>, i: nat): nat {
    if es == [] then 0 else (if IsStepOf(es[0], i) then 1 else 0) + StepsTaken(es[1..], i)
  }

  lemma WorkerNearsExit(s: State, e: Event, i: nat)
    requires Inv(s) && Enabled(s, e) && s.main.Joining? && i < |s.workers|
    ensures Apply(s, e).main.Joining? && |Apply(s, e).workers| == |s.workers|
    ensures StepsLeft(Apply(s, e).workers[i]) + (if IsStepOf(e, i) then 1 else 0) <= StepsLeft(s.workers[i])
  {
    hide QueueInv, OwnerInv, ArchiveInv, ReportInv, PostInv, PutEntry, PostText;
  }

  /** Once the broadcast is done, every step of a worker brings it closer to its exit and no other
      step takes it back: in any run from there each of the threads that are joined takes at most four
      more steps, and one that has taken all it had has exited. */
  lemma {:induction false} WorkersExit(s: State, es: seq<Event>, i: nat)
    requires Inv(s) && Legal(s, es) && s.main.Joining? && i < |s.workers|
    ensures |Exec(s, es).workers| == |s.workers|
    ensures StepsTaken(es, i) + StepsLeft(Exec(s, es).workers[i]) <= StepsLeft(s.workers[i]) <= 4
    ensures StepsTaken(es, i) == StepsLeft(s.workers[i]) ==> Exec(s, es).workers[i].Exited?
    decreases |es|
  {
    InvWellFormed(s);
    FirstStep(s, es, i);
    hide *;
    if es != [] {
      InvStep(s, es[0]);
      WorkerNearsExit(s, es[0], i);
      WorkersExit(Apply(s, es[0]), es[1..], i);
    }
  }

  lemma FirstStep(s: State, es: seq<Event>, i: nat)
    requires WellFormed(s) && Legal(s, es) && i < |s.workers|
    ensures 0 <= StepsLeft(s.workers[i]) <= 4 && (StepsLeft(s.workers[i]) == 0 <==> s.workers[i].Exited?)
    ensures es == [] ==> Exec(s, es) == s && StepsTaken(es, i) == 0
    ensures es != [] ==>
              && Enabled(s, es[0]) && WellFormed(Apply(s, es[0])) && Legal(Apply(s, es[0]), es[1..])
              && Exec(s, es) == Exec(Apply(s, es[0]), es[1..])
              && StepsTaken(es, i) == (if IsStepOf(es[0], i) then 1 else 0) + StepsTaken(es[1..], i)
  {
    hide Apply, Enabled;
  }

  /** Graceful shutdown is complete: once terminateNgams(false) has set the flag, and nothing was
      scheduled after its call, every accepted file has been through ngamsArchiveFile once per
      acceptance, every result was reported, and every accepted post was sent, in order. */
  lemma GracefulShutdownIsComplete(streams: nat, sendToMMC: bool, es: seq<Event>)
    requires Legal(Init(streams, sendToMMC), es) && NoLateScheduling(Init(streams, sendToMMC), es)
    ensures var s := Exec(Init(streams, sendToMMC), es);
            s.main == Flagged(false) || s.main == Joining(false) ==>
              && multiset(Files(s.archived)) == multiset(s.accepted)
              && (s.sendToMMC ==> multiset(s.offered) == multiset(s.archived))
              && s.sent == Accepted(s.offered)
              && (|s.workers| == 1 ==> Files(s.archived) == s.accepted && (s.sendToMMC ==> s.offered == s.archived))
  {
    InitInv(streams, sendToMMC);
    RunInv(Init(streams, sendToMMC), es);
    RunDrains(Init(streams, sendToMMC), es);
    var s := Exec(Init(streams, sendToMMC), es);
    if s.main == Flagged(false) || s.main == Joining(false) {
      NothingLeft(s);
    }
  }

  lemma NothingLeft(s: State)
    requires Inv(s) && DrainInv(s) && PastPosts(s.main)
    ensures multiset(Files(s.archived)) == multiset(s.accepted)
    ensures s.sendToMMC ==> multiset(s.offered) == multiset(s.archived)
    ensures s.sent == Accepted(s.offered)
    ensures |s.workers| == 1 ==> Files(s.archived) == s.accepted && (s.sendToMMC ==> s.offered == s.archived)
  {
    Idle(s);
    hide QueueInv, OwnerInv, WaitInv, Holds, PostText, ArchiveInv, ReportInv;
    AllArchived(s.taken, s.archived, s.workers);
    if s.sendToMMC {
      AllReported(s.archived, s.offered, s.workers);
    }
  }

  lemma AllArchived(taken: seq<string>, archived: seq<Outcome>, ws: seq<Worker>)
    requires ArchiveInv(taken, archived, ws) && forall i :: 0 <= i < |ws| ==> !ws[i].Busy()
    ensures multiset(Files(archived)) == multiset(taken)
    ensures |ws| == 1 ==> Files(archived) == taken
  {
    forall f
      ensures multiset(taken)[f] == multiset(Files(archived))[f]
    {
      assert Archiving(f) !in ws;
    }
  }

  lemma AllReported(archived: seq<Outcome>, offered: seq<Outcome>, ws: seq<Worker>)
    requires ReportInv(true, archived, offered, ws) && forall i :: 0 <= i < |ws| ==> !ws[i].Busy()
    ensures multiset(offered) == multiset(archived)
    ensures |ws| == 1 ==> offered == archived
  {
    forall o
      ensures multiset(archived)[o] == multiset(offered)[o]
    {
      assert Reporting(o) !in ws;
    }
  }

  /** The report thread, unlike the workers, can miss the wake-up at shutdown, because it is signalled
      under the other mutex: exactly when the broadcast falls between its check and its wait. */
  lemma SenderMissesWakeUpIff(s: State)
    requires Inv(s) && s.main.Flagged?
    ensures (exists es :: Legal(DoBroadcast(s), es) && Exec(DoBroadcast(s), es).sender.SSleeping?) <==> s.sender.Checked?
  {
    hide Inv, Exec, Legal;
    var s' := DoBroadcast(s);
    BroadcastStep(s);
    InvWellFormed(s');
    if s.sender.Checked? {
      SenderWaits(s');
    } else {
      forall es | Legal(s', es)
        ensures !Exec(s', es).sender.SSleeping?
      {
        assert s'.main.Joining? && !s'.sender.SSleeping? && !s'.sender.Checked?;
        SenderAwake(s', es);
      }
    }
  }

  lemma SenderWaits(s: State)
    requires WellFormed(s) && s.sender.Checked?
    ensures Legal(s, [SenderWait]) && Exec(s, [SenderWait]).sender.SSleeping?
  {
    assert [SenderWait][1..] == [];
    assert Legal(Apply(s, SenderWait), []);
  }

  lemma {:induction false} SenderAwake(s: State, es: seq<Event>)
    requires Inv(s) && s.main.Joining? && !s.sender.SSleeping? && !s.sender.Checked? && Legal(s, es)
    ensures !Exec(s, es).sender.SSleeping?
    decreases |es|
  {
    if es != [] {
      InvStep(s, es[0]);
      SenderStaysAwake(s, es[0]);
      SenderAwake(Apply(s, es[0]), es[1..]);
    }
  }

  lemma SenderStaysAwake(s: State, e: Event)
    requires Inv(s) && Enabled(s, e) && s.main.Joining? && !s.sender.SSleeping? && !s.sender.Checked?
    ensures Apply(s, e).main.Joining? && !Apply(s, e).sender.SSleeping? && !Apply(s, e).sender.Checked?
  {
    hide QueueInv, OwnerInv, ArchiveInv, ReportInv, PostInv, PutEntry, PostText;
  }

  lemma RunStep(s: State, e: Event, es: seq<Event>)
    requires WellFormed(s) && Enabled(s, e)
    ensures WellFormed(Apply(s, e))
    ensures Legal(s, [e] + es) <==> Legal(Apply(s, e), es)
    ensures Legal(Apply(s, e), es) ==> Exec(s, [e] + es) == Exec(Apply(s, e), es)
  {
    assert ([e] + es)[1..] == es;
    hide PutEntry, TakeEntry, PostText;
  }

  lemma NoMore(s: State)
    requires WellFormed(s)
    ensures Legal(s, []) && Exec(s, []) == s
  {
  }

  /** Nothing to do anywhere, and nobody asleep. */
  predicate AtRest(s: State) {
    && WellFormed(s) && s.main.Running? && s.sender.SReady? && !s.terminated
    && !s.posts.HasPending() && s.reg.count == 0 && s.postCount == 0 && WakeAll(s.workers) == s.workers
  }

  lemma MissedWhenForced(s: State)
    requires AtRest(s)
    ensures var es := [SenderEnter, Terminate(true), Broadcast, SenderWait];
            Legal(s, es) && Exec(s, es) == s.(terminated := true, sender := SSleeping, main := Joining(true))
  {
    hide Legal, Exec;
    var tail := [Broadcast, SenderWait];
    var checked := s.(sender := Checked);
    FromFlag(checked.(terminated := true, main := Flagged(true)));
    RunStep(checked, Terminate(true), tail);
    RunStep(s, SenderEnter, [Terminate(true)] + tail);
    assert [SenderEnter] + ([Terminate(true)] + tail) == [SenderEnter, Terminate(true), Broadcast, SenderWait];
  }

  lemma MissedWhenGraceful(s: State)
    requires AtRest(s)
    ensures var es := [Terminate(false), CheckFiles, CheckPosts, SenderEnter, SetFlag, Broadcast, SenderWait];
            Legal(s, es) && Exec(s, es) == s.(terminated := true, sender := SSleeping, main := Joining(false))
  {
    hide Legal, Exec;
    var more := [SenderEnter, SetFlag, Broadcast, SenderWait];
    MissedWhenDrained(s.(main := Drained));
    RunStep(s.(main := AwaitPosts), CheckPosts, more);
    RunStep(s.(main := AwaitFiles), CheckFiles, [CheckPosts] + more);
    RunStep(s, Terminate(false), [CheckFiles] + ([CheckPosts] + more));
    hide Apply, Enabled, WellFormed;
    assert [Terminate(false)] + ([CheckFiles] + ([CheckPosts] + more))
        == [Terminate(false), CheckFiles, CheckPosts, SenderEnter, SetFlag, Broadcast, SenderWait];
  }

  lemma MissedWhenDrained(s: State)
    requires AtRest(s.(main := Running)) && s.main.Drained?
    ensures var es := [SenderEnter, SetFlag, Broadcast, SenderWait];
            Legal(s, es) && Exec(s, es) == s.(terminated := true, sender := SSleeping, main := Joining(false))
  {
    var last := [Broadcast, SenderWait];
    var checked := s.(sender := Checked);
    EnterChecks(s);
    FlagIsSet(checked);
    hide *;
    FromFlag(checked.(terminated := true, main := Flagged(false)));
    RunStep(checked, SetFlag, last);
    RunStep(s, SenderEnter, [SetFlag] + last);
    assert [SenderEnter] + ([SetFlag] + last) == [SenderEnter, SetFlag, Broadcast, SenderWait];
  }

  lemma EnterChecks(s: State)
    requires WellFormed(s) && s.sender.SReady? && !s.terminated && !s.posts.HasPending()
    ensures Enabled(s, SenderEnter) && Apply(s, SenderEnter) == s.(sender := Checked)
    ensures WellFormed(s.(sender := Checked))
  {
  }

  lemma FlagIsSet(s: State)
    requires WellFormed(s) && s.main.Drained?
    ensures Enabled(s, SetFlag) && Apply(s, SetFlag) == s.(terminated := true, main := Flagged(false))
    ensures WellFormed(s.(terminated := true, main := Flagged(false)))
  {
  }

  /** Both shutdowns can meet it: the sender finds its ring empty, the flag is set and the broadcast made,
      and only then does the sender wait, while the main thread joins it. */
  lemma SenderCanMissWakeUp(streams: nat, sendToMMC: bool)
    ensures var s := Init(streams, sendToMMC);
            var forced := [SenderEnter, Terminate(true), Broadcast, SenderWait];
            Legal(s, forced) && Exec(s, forced).sender.SSleeping? && Exec(s, forced).main == Joining(true)
    ensures var s := Init(streams, sendToMMC);
            var graceful := [Terminate(false), CheckFiles, CheckPosts, SenderEnter, SetFlag, Broadcast, SenderWait];
            Legal(s, graceful) && Exec(s, graceful).sender.SSleeping? && Exec(s, graceful).main == Joining(false)
  {
    var s := Init(streams, sendToMMC);
    assert WakeAll(s.workers) == s.workers;
    assert AtRest(s);
    hide *;
    MissedWhenForced(s);
    MissedWhenGraceful(s);
  }

  lemma FromFlag(s: State)
    requires WellFormed(s) && s.main.Flagged? && s.sender.Checked? && WakeAll(s.workers) == s.workers
    ensures Legal(s, [Broadcast, SenderWait])
    ensures Exec(s, [Broadcast, SenderWait]) == s.(main := Joining(s.main.force), sender := SSleeping)
  {
    var joining := s.(main := Joining(s.main.force));
    hide Legal, Exec;
    NoMore(joining.(sender := SSleeping));
    RunStep(joining, SenderWait, []);
    RunStep(s, Broadcast, [SenderWait]);
    assert [SenderWait] + [] == [SenderWait] && [Broadcast] + [SenderWait] == [Broadcast, SenderWait];
  }
}
