/** What runs of the archive client do, told from their events instead of from the history in the state. */
module ArchiveRuns {
  import opened ArchiveQueue
  import opened Orders
  import opened ArchiveProtocol

  // ------------------------------------------------------------ what an event does

  /** A file that is scheduled, neither known nor too long for its buffer. */
  function AdmittedBy(s: State, e: Event): seq<string> {
    if e.Schedule? && e.file !in s.reg.queued && e.file !in s.reg.processing && |e.file| < 256 then [e.file] else []
  }

  /** The name in the next slot, for a worker that finds one there. */
  function FetchedBy(s: State, e: Event): seq<string>
    requires WellFormed(s)
  {
    var next := s.reg.ring.slots[(s.reg.ring.rd + 1) % MAX_FILES_IN_Q];
    if e.Enter? && !s.terminated && next != "" then [next] else []
  }

  /** What ngamsArchiveFile returns to worker w for the file it has. */
  function ReturnedBy(s: State, e: Event): seq<Outcome>
    requires WellFormed(s) && Enabled(s, e)
  {
    if e.Archive? then [Outcome(s.workers[e.w].file, e.size, e.status)] else []
  }

  function ReportedBy(s: State, e: Event): seq<Outcome>
    requires WellFormed(s) && Enabled(s, e)
  {
    if e.Report? && s.sendToMMC then [s.workers[e.w].outcome] else []
  }

  function PostedBy(s: State, e: Event): seq<string>
    requires WellFormed(s) && Enabled(s, e)
  {
    if e.SenderSend? then [s.sender.post] else []
  }

  ghost predicate HistoryGrows(s: State, e: Event, s': State)
    requires WellFormed(s) && Enabled(s, e)
  {
    && s'.accepted == s.accepted + AdmittedBy(s, e)
    && s'.taken == s.taken + FetchedBy(s, e)
    && s'.archived == s.archived + ReturnedBy(s, e)
    && s'.offered == s.offered + ReportedBy(s, e)
    && s'.sent == s.sent + PostedBy(s, e)
    && s'.sendToMMC == s.sendToMMC
  }

  lemma HistoryStep(s: State, e: Event)
    requires WellFormed(s) && Enabled(s, e)
    ensures HistoryGrows(s, e, Apply(s, e))
  {
    hide PostText, FitsBuffer, WakeAll;
    if e.Schedule? {
      ScheduleHistory(s, e);
    } else if e.Enter? {
      EnterHistory(s, e);
    } else {
      hide PutEntry, TakeEntry, DeleteEntry;
    }
  }

  lemma ScheduleHistory(s: State, e: Event)
    requires WellFormed(s) && Enabled(s, e) && e.Schedule?
    ensures HistoryGrows(s, e, Apply(s, e))
  {
    hide WakeAll;
  }

  lemma EnterHistory(s: State, e: Event)
    requires WellFormed(s) && Enabled(s, e) && e.Enter?
    ensures HistoryGrows(s, e, Apply(s, e))
  {
  }

  // -------------------------------------------------------------- what a run does

  ghost function Admitted(s: State, es: seq<Event>): seq<string>
    requires WellFormed(s) && Legal(s, es)
    decreases |es|
  {
    if es == [] then [] else AdmittedBy(s, es[0]) + Admitted(Apply(s, es[0]), es[1..])
  }

  ghost function Fetched(s: State, es: seq<Event>): seq<string>
    requires WellFormed(s) && Legal(s, es)
    decreases |es|
  {
    if es == [] then [] else FetchedBy(s, es[0]) + Fetched(Apply(s, es[0]), es[1..])
  }

  ghost function Returned(s: State, es: seq<Event>): seq<Outcome>
    requires WellFormed(s) && Legal(s, es)
    decreases |es|
  {
    if es == [] then [] else ReturnedBy(s, es[0]) + Returned(Apply(s, es[0]), es[1..])
  }

  ghost function Reported(s: State, es: seq<Event>): seq<Outcome>
    requires WellFormed(s) && Legal(s, es)
    decreases |es|
  {
    if es == [] then [] else ReportedBy(s, es[0]) + Reported(Apply(s, es[0]), es[1..])
  }

  ghost function Posted(s: State, es: seq<Event>): seq<string>
    requires WellFormed(s) && Legal(s, es)
    decreases |es|
  {
    if es == [] then [] else PostedBy(s, es[0]) + Posted(Apply(s, es[0]), es[1..])
  }

  ghost predicate HistoryIs(s: State, es: seq<Event>, t: State)
    requires WellFormed(s) && Legal(s, es)
  {
    && t.accepted == s.accepted + Admitted(s, es)
    && t.taken == s.taken + Fetched(s, es)
    && t.archived == s.archived + Returned(s, es)
    && t.offered == s.offered + Reported(s, es)
    && t.sent == s.sent + Posted(s, es)
    && t.sendToMMC == s.sendToMMC
  }

  lemma NoHistory(s: State)
    requires WellFormed(s)
    ensures Legal(s, []) && Exec(s, []) == s && HistoryIs(s, [], s)
  {
  }

  lemma HistoryOfTail(s: State, es: seq<Event>, t: State)
    requires WellFormed(s) && Legal(s, es) && es != [] && HistoryIs(Apply(s, es[0]), es[1..], t)
    ensures HistoryIs(s, es, t)
  {
    var e, s', rest := es[0], Apply(s, es[0]), es[1..];
    HistoryStep(s, e);
    assert HistoryGrows(s, e, s');
    hide Apply, Enabled, AdmittedBy, FetchedBy, ReturnedBy, ReportedBy, PostedBy;
    Associative(s.accepted, AdmittedBy(s, e), Admitted(s', rest));
    Associative(s.taken, FetchedBy(s, e), Fetched(s', rest));
    Associative(s.archived, ReturnedBy(s, e), Returned(s', rest));
    Associative(s.offered, ReportedBy(s, e), Reported(s', rest));
    Associative(s.sent, PostedBy(s, e), Posted(s', rest));
  }

  lemma {:induction false} HistoryIsRun(s: State, es: seq<Event>)
    requires WellFormed(s) && Legal(s, es)
    ensures HistoryIs(s, es, Exec(s, es))
    decreases |es|
  {
    hide HistoryIs, Apply, Enabled;
    if es == [] {
      NoHistory(s);
    } else {
      HistoryIsRun(Apply(s, es[0]), es[1..]);
      HistoryOfTail(s, es, Exec(s, es));
    }
  }

  // --------------------------------------------------------- main results, on events

  /** Scheduling a file that fits makes it known, at once and whatever the state. */
  lemma ScheduledIsKnown(s: State, f: string)
    requires Inv(s) && Enabled(s, Schedule(f)) && |f| < 256
    ensures var s' := Apply(s, Schedule(f));
            && (f in s'.reg.queued || f in s'.reg.processing)
            && (f !in s.reg.queued && f !in s.reg.processing ==> f in s'.reg.queued && s'.reg.count == s.reg.count + 1)
            && s'.reg.queued.Keys == s.reg.queued.Keys + (if f in s.reg.processing then {} else {f})
            && s'.reg.processing == s.reg.processing
  {
    hide QueueInv, OwnerInv, ArchiveInv, ReportInv, PostInv, WakeAll;
  }

  ghost predicate ProcessingWasTaken(s: State) {
    forall f :: f in s.reg.processing ==> f in s.taken
  }

  lemma ProcessingStep(s: State, e: Event)
    requires WellFormed(s) && Enabled(s, e) && ProcessingWasTaken(s)
    ensures ProcessingWasTaken(Apply(s, e))
  {
    hide PostText, FitsBuffer, WakeAll;
  }

  lemma KnownWasAccepted(s: State, f: string)
    requires Inv(s) && ProcessingWasTaken(s) && (f in s.reg.queued || f in s.reg.processing)
    ensures f in s.accepted
  {
    hide OwnerInv, ArchiveInv, ReportInv, PostInv, WaitInv, Holds, Distinct;
    var pending := s.accepted[|s.taken|..];
    assert s.accepted == s.taken + pending;
    if f in s.reg.queued {
      assert f in s.reg.queued.Keys;
      InElements(f, pending);
    }
  }

  lemma ScheduleAccepts(s: State, f: string)
    requires Inv(s) && ProcessingWasTaken(s) && Enabled(s, Schedule(f)) && |f| < 256
    ensures f in Apply(s, Schedule(f)).accepted
  {
    if f in s.reg.queued || f in s.reg.processing {
      KnownWasAccepted(s, f);
    }
    hide Inv;
    HistoryStep(s, Schedule(f));
  }

  lemma {:induction false} ScheduledIsAccepted(s: State, es: seq<Event>, f: string)
    requires Inv(s) && WellFormed(s) && Legal(s, es) && ProcessingWasTaken(s) && |f| < 256 && Schedule(f) in es
    ensures f in Exec(s, es).accepted
    decreases |es|
  {
    hide Inv, Apply, Enabled, ProcessingWasTaken, HistoryIs;
    var s', rest := Apply(s, es[0]), es[1..];
    InvStep(s, es[0]);
    ProcessingStep(s, es[0]);
    if es[0] == Schedule(f) {
      ScheduleAccepts(s, f);
      HistoryIsRun(s', rest);
      assert f in s'.accepted + Admitted(s', rest) by { assert f in s'.accepted; }
      assert Exec(s, es).accepted == s'.accepted + Admitted(s', rest) by { AcceptedOnly(s', rest); }
    } else {
      assert es == [es[0]] + rest;
      ScheduledIsAccepted(s', rest, f);
    }
  }

  lemma AcceptedOnly(s: State, es: seq<Event>)
    requires WellFormed(s) && Legal(s, es) && HistoryIs(s, es, Exec(s, es))
    ensures Exec(s, es).accepted == s.accepted + Admitted(s, es)
  {
    hide Legal, Exec, Admitted, Fetched, Returned, Reported, Posted;
  }

  lemma {:induction false} AdmittedWasScheduled(s: State, es: seq<Event>, f: string)
    requires WellFormed(s) && Legal(s, es) && f in Admitted(s, es)
    ensures Schedule(f) in es && |f| < 256
    decreases |es|
  {
    hide Apply, Enabled;
    var s', rest := Apply(s, es[0]), es[1..];
    assert es == [es[0]] + rest;
    if f !in AdmittedBy(s, es[0]) {
      AdmittedWasScheduled(s', rest, f);
    }
  }

  /** From the start, the history is what the events did. */
  lemma ToldByEvents(streams: nat, sendToMMC: bool, es: seq<Event>)
    requires Legal(Init(streams, sendToMMC), es)
    ensures var s, t := Init(streams, sendToMMC), Exec(Init(streams, sendToMMC), es);
            && t.accepted == Admitted(s, es) && t.taken == Fetched(s, es) && t.archived == Returned(s, es)
            && t.offered == Reported(s, es) && t.sent == Posted(s, es) && t.sendToMMC == sendToMMC
  {
    var s := Init(streams, sendToMMC);
    HistoryIsRun(s, es);
    hide Admitted, Fetched, Returned, Reported, Posted, Exec, Legal;
    assert [] + Admitted(s, es) == Admitted(s, es) && [] + Fetched(s, es) == Fetched(s, es);
    assert [] + Returned(s, es) == Returned(s, es) && [] + Reported(s, es) == Reported(s, es);
    assert [] + Posted(s, es) == Posted(s, es);
  }

  /** In every run the workers get the admitted names in the order in which they were scheduled, and
      ring and queue DBM hold exactly the others. */
  lemma WorkersFetchInOrder(streams: nat, sendToMMC: bool, es: seq<Event>)
    requires Legal(Init(streams, sendToMMC), es)
    ensures var s, t := Init(streams, sendToMMC), Exec(Init(streams, sendToMMC), es);
            && Fetched(s, es) <= Admitted(s, es)
            && Holds(t.reg.ring, Admitted(s, es)[|Fetched(s, es)|..])
            && t.reg.queued.Keys == Elements(Admitted(s, es)[|Fetched(s, es)|..])
  {
    ToldByEvents(streams, sendToMMC, es);
    RingRefinesFifo(streams, sendToMMC, es);
    hide *;
  }

  /** After a graceful shutdown exactly the files that were scheduled and fit their buffer have been
      archived, each as often as it was admitted; what ngamsArchiveFile returned, and nothing else, was
      reported, and every report whose post fits was sent, in order. */
  lemma ScheduledIsArchived(streams: nat, sendToMMC: bool, es: seq<Event>)
    requires Legal(Init(streams, sendToMMC), es) && NoLateScheduling(Init(streams, sendToMMC), es)
    ensures var s, t := Init(streams, sendToMMC), Exec(Init(streams, sendToMMC), es);
            t.main == Flagged(false) || t.main == Joining(false) ==>
              && (forall f :: f in Files(Returned(s, es)) <==> Schedule(f) in es && |f| < 256)
              && multiset(Files(Returned(s, es))) == multiset(Admitted(s, es))
              && (sendToMMC ==> multiset(Reported(s, es)) == multiset(Returned(s, es)))
              && Posted(s, es) == Accepted(Reported(s, es))
              && (|t.workers| == 1 ==> Files(Returned(s, es)) == Admitted(s, es))
  {
    var s, t := Init(streams, sendToMMC), Exec(Init(streams, sendToMMC), es);
    ToldByEvents(streams, sendToMMC, es);
    GracefulShutdownIsComplete(streams, sendToMMC, es);
    InitInv(streams, sendToMMC);
    assert ProcessingWasTaken(s) && WellFormed(s);
    hide *;
    if t.main == Flagged(false) || t.main == Joining(false) {
      forall f
        ensures f in Files(Returned(s, es)) <==> Schedule(f) in es && |f| < 256
      {
        assert f in Files(Returned(s, es)) <==> f in multiset(Files(Returned(s, es)));
        assert f in Admitted(s, es) <==> f in multiset(Admitted(s, es));
        if f in Admitted(s, es) {
          AdmittedWasScheduled(s, es, f);
        }
        if Schedule(f) in es && |f| < 256 {
          ScheduledIsAccepted(s, es, f);
        }
      }
    }
  }

  /** Sizes and statuses, in the order in which ngamsArchiveFile returned them. */
  function Results(es: seq<Event>): seq<(nat, int)> {
    if es == [] then [] else (if es[0].Archive? then [(es[0].size, es[0].status)] else []) + Results(es[1..])
  }

  function ResultsOf(outcomes: seq<Outcome>): seq<(nat, int)> {
    if outcomes == [] then [] else [(outcomes[0].size, outcomes[0].status)] + ResultsOf(outcomes[1..])
  }

  /** They are the results of the events, none changed, left out or added. */
  lemma {:induction false} ReturnedAreResults(s: State, es: seq<Event>)
    requires WellFormed(s) && Legal(s, es)
    ensures ResultsOf(Returned(s, es)) == Results(es)
    decreases |es|
  {
    hide Apply, Enabled;
    if es != [] {
      var more := Returned(Apply(s, es[0]), es[1..]);
      ReturnedAreResults(Apply(s, es[0]), es[1..]);
      if es[0].Archive? {
        assert Returned(s, es)[1..] == more;
      } else {
        assert [] + more == more;
      }
    }
  }

  // ------------------------------------------------------------------ the posts

  /** The part of a path behind its last '/'. */
  lemma {:induction false} BaseNameIs(path: string)
    ensures '/' !in BaseName(path)
    ensures exists dir :: IsDirOf(dir, path)
  {
    if path == "" {
      assert IsDirOf("", path);
    } else if '/' in path[1..] {
      BaseNameIs(path[1..]);
      var dir :| IsDirOf(dir, path[1..]);
      assert path == [path[0]] + dir + BaseName(path);
      assert IsDirOf([path[0]] + dir, path);
    } else if path[0] == '/' {
      assert IsDirOf("/", path);
    } else {
      assert IsDirOf("", path);
    }
  }

  predicate IsDirOf(dir: string, path: string) {
    path == dir + BaseName(path) && (dir == "" || dir[|dir| - 1] == '/')
  }

  /** Posted are exactly the reports whose text is shorter than 256 characters. */
  lemma {:induction false} AcceptedAre(offered: seq<Outcome>, text: string)
    ensures text in Accepted(offered) <==> exists o :: o in offered && text == PostText(o) && |text| < 256
  {
    hide PostText;
    if offered != [] {
      var n := |offered| - 1;
      assert offered == offered[..n] + [offered[n]];
      AcceptedAre(offered[..n], text);
    }
  }
}
