/** Concurrent requests over one server list of n servers. Taking the next server is atomic, under the
    mutex; the attempts themselves interleave freely. */
module FailoverRuns {
  import opened Optional
  import opened Orders
  import opened Failover

  /** One request: its place among the starts, the servers it has turned to and the outcomes so far. */
  datatype Request = Request(order: nat, visited: seq<nat>, idx: int, outcomes: seq<bool>, result: Option<bool>)

  datatype State = State(srvIdx: int, started: nat, requests: map<nat, Request>)

  datatype Event =
    | Open(r: nat)             // the request finds the list and reads its length
    | Next(r: nat)             // _ngamsGetNextSrv
    | Reply(r: nat, ok: bool)  // the attempt ends

  const INITIAL := State(-1, 0, map[])

  predicate Enabled(n: nat, s: State, e: Event) {
    match e
    case Open(r) => r !in s.requests
    case Next(r) => r in s.requests && s.requests[r].result.None? && |s.requests[r].visited| == |s.requests[r].outcomes|
    case Reply(r, _) => r in s.requests && |s.requests[r].visited| == |s.requests[r].outcomes| + 1
  }

  function Apply(n: nat, s: State, e: Event): State
    requires Enabled(n, s, e) && (n == 0 ==> !e.Next?)
  {
    match e
    case Open(r) => s.(requests := s.requests[r := Request(0, [], -1, [], if n == 0 then Some(false) else None)])
    case Next(r) =>
      var q := s.requests[r];
      if q.idx == -1 then
        var i := (s.srvIdx + 1) % n;
        State(i, s.started + 1, s.requests[r := q.(order := s.started, visited := q.visited + [i], idx := i)])
      else
        var i := (q.idx + 1) % n;
        s.(requests := s.requests[r := q.(visited := q.visited + [i], idx := i)])
    case Reply(r, ok) =>
      var q := s.requests[r];
      var outcomes := q.outcomes + [ok];
      var result := if ok then Some(true) else if |outcomes| == n then Some(false) else None;
      s.(requests := s.requests[r := q.(outcomes := outcomes, result := result)])
  }

  predicate Step(n: nat, s: State, e: Event) {
    Enabled(n, s, e) && (n == 0 ==> !e.Next?)
  }

  predicate Legal(n: nat, s: State, events: seq<Event>)
    decreases |events|
  {
    events != [] ==> Step(n, s, events[0]) && Legal(n, Apply(n, s, events[0]), events[1..])
  }

  function Exec(n: nat, s: State, events: seq<Event>): State
    requires Legal(n, s, events)
    decreases |events|
  {
    if events == [] then s else Exec(n, Apply(n, s, events[0]), events[1..])
  }

  // ------------------------------------------------------------------ invariants

  /** The servers in cyclic order from the one its place among the starts gives it. */
  ghost predicate Cycles(n: nat, q: Request) {
    && |q.visited| <= n
    && (forall i :: 0 <= i < |q.visited| ==> q.visited[i] == Wrap(q.order % n + i, n))
    && q.idx == (if q.visited == [] then -1 else q.visited[|q.visited| - 1])
  }

  /** It stops at the first success, and fails exactly when all n servers failed. */
  ghost predicate Stops(n: nat, q: Request) {
    && |q.outcomes| <= |q.visited| <= |q.outcomes| + 1
    && (forall i :: 0 <= i < |q.outcomes| - 1 ==> !q.outcomes[i])
    && (q.result == Some(true) <==> q.outcomes != [] && q.outcomes[|q.outcomes| - 1])
    && (q.result == Some(false) <==> |q.outcomes| == n && (n > 0 ==> !q.outcomes[n - 1]))
    && (q.result.Some? ==> |q.visited| == |q.outcomes|)
  }

  ghost predicate RequestsGood(n: nat, s: State) {
    forall r :: r in s.requests ==> Cycles(n, s.requests[r]) && Stops(n, s.requests[r])
  }

  /** Request r was the k-th to start. */
  predicate StartedAs(s: State, r: nat, k: nat) {
    r in s.requests && s.requests[r].visited != [] && s.requests[r].order == k
  }

  ghost predicate Taken(s: State, k: nat) {
    exists r :: StartedAs(s, r, k)
  }

  /** Every place among the starts belongs to one request. */
  ghost predicate PlacesTaken(s: State) {
    && (forall r :: r in s.requests && s.requests[r].visited != [] ==> s.requests[r].order < s.started)
    && (forall q, r, k :: StartedAs(s, q, k) && StartedAs(s, r, k) ==> q == r)
    && (forall k: nat :: k < s.started ==> Taken(s, k))
  }

  ghost predicate Inv(n: nat, s: State) {
    && s.srvIdx == (if s.started == 0 then -1 else if n == 0 then s.srvIdx else (s.started - 1) % n)
    && (n == 0 ==> s.started == 0)
    && RequestsGood(n, s)
    && PlacesTaken(s)
  }

  // ---------------------------------------------------------------- arithmetic

  lemma AtLeast(n: nat, d: nat)
    requires d > 0
    ensures n * d >= n
  {
    assert n * d == n + n * (d - 1);
  }

  lemma ModuloIs(x: nat, k: nat, r: nat, n: nat)
    requires r < n && x == n * k + r
    ensures x % n == r && x / n == k
  {
    var q, m := x / n, x % n;
    assert n * q + m == n * k + r;
    if q > k {
      assert n * q - n * k == n * (q - k);
      AtLeast(n, q - k);
    } else if q < k {
      assert n * k - n * q == n * (k - q);
      AtLeast(n, k - q);
    }
  }

  lemma ModuloNext(k: nat, n: nat)
    requires n > 0
    ensures (k + 1) % n == (k % n + 1) % n == Wrap(k % n + 1, n)
    ensures (k + 1) / n == if k % n + 1 == n then k / n + 1 else k / n
  {
    NextWraps(k % n, n);
    var q, r := k / n, k % n;
    assert k == n * q + r;
    if r + 1 < n {
      ModuloIs(k + 1, q, r + 1, n);
    } else {
      assert n * (q + 1) == n * q + n;
      ModuloIs(k + 1, q + 1, 0, n);
    }
  }

  // ---------------------------------------------------------------- preservation

  lemma NextCycles(n: nat, q: Request, order: nat, i: nat)
    requires n > 0 && Cycles(n, q) && |q.visited| < n
    requires if q.idx == -1 then i == order % n else order == q.order && i == (q.idx + 1) % n
    ensures Cycles(n, q.(order := order, visited := q.visited + [i], idx := i))
  {
    if q.visited != [] {
      var last := |q.visited| - 1;
      assert q.idx == Wrap(q.order % n + last, n);
      NextWraps(q.idx, n);
    }
  }

  lemma NextKeeps(n: nat, s: State, r: nat)
    requires n > 0 && Inv(n, s) && Enabled(n, s, Next(r))
    ensures Inv(n, Apply(n, s, Next(r)))
  {
    var q := s.requests[r];
    var t := Apply(n, s, Next(r));
    assert |q.visited| < n by {
      assert Stops(n, q) && Cycles(n, q);
    }
    if q.idx == -1 {
      if s.started > 0 { ModuloNext(s.started - 1, n); }
      NextCycles(n, q, s.started, t.srvIdx);
    } else {
      NextCycles(n, q, q.order, (q.idx + 1) % n);
    }
    assert Stops(n, q) && Stops(n, t.requests[r]);
    PlacesKept(s, t, r);
    hide Cycles, Stops, PlacesTaken;
  }

  lemma PlacesKept(s: State, t: State, r: nat)
    requires PlacesTaken(s) && r in s.requests && r in t.requests && t.requests == s.requests[r := t.requests[r]]
    requires t.requests[r].visited != []
    requires if s.requests[r].visited == [] then t.started == s.started + 1 && t.requests[r].order == s.started
             else t.started == s.started && t.requests[r].order == s.requests[r].order
    ensures PlacesTaken(t)
  {
    assert forall q, k :: StartedAs(t, q, k) ==> StartedAs(s, q, k) || (q == r && s.requests[r].visited == []);
    forall k: nat | k < t.started
      ensures Taken(t, k)
    {
      if k < s.started {
        assert Taken(s, k);
        var p :| StartedAs(s, p, k);
        assert StartedAs(t, p, k);
      } else {
        assert StartedAs(t, r, k);
      }
    }
  }

  lemma ReplyKeeps(n: nat, s: State, r: nat, ok: bool)
    requires Inv(n, s) && Enabled(n, s, Reply(r, ok))
    ensures Inv(n, Apply(n, s, Reply(r, ok)))
  {
    var q := s.requests[r];
    var t := Apply(n, s, Reply(r, ok));
    var p := t.requests[r];
    assert Cycles(n, q) && Stops(n, q);
    assert Cycles(n, p);
    assert Stops(n, p) by {
      assert forall i :: 0 <= i < |q.outcomes| ==> p.outcomes[i] == q.outcomes[i] && !q.outcomes[i];
    }
    PlacesKept(s, t, r);
    hide Cycles, Stops, PlacesTaken;
  }

  lemma OpenKeeps(n: nat, s: State, r: nat)
    requires Inv(n, s) && Enabled(n, s, Open(r))
    ensures Inv(n, Apply(n, s, Open(r)))
  {
    var t := Apply(n, s, Open(r));
    assert Cycles(n, t.requests[r]) && Stops(n, t.requests[r]);
    assert forall q, k :: StartedAs(t, q, k) <==> StartedAs(s, q, k);
    forall k: nat | k < t.started
      ensures Taken(t, k)
    {
      assert Taken(s, k);
    }
  }

  lemma {:induction false} RunKeeps(n: nat, s: State, events: seq<Event>)
    requires Inv(n, s) && Legal(n, s, events)
    ensures Inv(n, Exec(n, s, events))
    decreases |events|
  {
    if events != [] {
      match events[0] {
        case Open(r) => OpenKeeps(n, s, r);
        case Next(r) => NextKeeps(n, s, r);
        case Reply(r, ok) => ReplyKeeps(n, s, r, ok);
      }
      RunKeeps(n, Apply(n, s, events[0]), events[1..]);
      hide Inv, Apply, Enabled;
    }
  }

  // ---------------------------------------------------------------- main lemmas

  lemma RequestCycles(n: nat, q: Request)
    requires Cycles(n, q) && Stops(n, q)
    ensures |q.visited| <= n && Distinct(q.visited)
    ensures q.visited != [] ==> q.visited[0] == q.order % n
    ensures forall i :: 0 < i < |q.visited| ==> q.visited[i] == (q.visited[i - 1] + 1) % n
    ensures forall i :: 0 <= i < |q.outcomes| - 1 ==> !q.outcomes[i]
    ensures q.result == Some(true) <==> q.outcomes != [] && q.outcomes[|q.outcomes| - 1]
    ensures q.result == Some(false) <==> |q.outcomes| == n && true !in q.outcomes
  {
    forall i | 0 < i < |q.visited|
      ensures q.visited[i] == (q.visited[i - 1] + 1) % n
    {
      NextWraps(q.visited[i - 1], n);
    }
  }

  /** Whatever the interleaving and the outcomes, a request visits distinct servers in cyclic order from
      the one at its place among the starts modulo n, stops at the first success, and fails exactly when
      it has tried all n servers and all failed. */
  lemma EveryRequestCycles(n: nat, events: seq<Event>, r: nat)
    requires Legal(n, INITIAL, events) && r in Exec(n, INITIAL, events).requests
    ensures var q := Exec(n, INITIAL, events).requests[r];
            && |q.visited| <= n && Distinct(q.visited)
            && (q.visited != [] ==> q.visited[0] == q.order % n)
            && (forall i :: 0 < i < |q.visited| ==> q.visited[i] == (q.visited[i - 1] + 1) % n)
            && (forall i :: 0 <= i < |q.outcomes| - 1 ==> !q.outcomes[i])
            && (q.result == Some(true) <==> q.outcomes != [] && q.outcomes[|q.outcomes| - 1])
            && (q.result == Some(false) <==> |q.outcomes| == n && true !in q.outcomes)
  {
    RunKeeps(n, INITIAL, events);
    var q := Exec(n, INITIAL, events).requests[r];
    assert Cycles(n, q) && Stops(n, q);
    hide *;
    RequestCycles(n, q);
  }

  /** The starts are numbered without gaps or doubles, so each place is exactly one request's. */
  lemma PlacesAreUnique(n: nat, events: seq<Event>, k: nat)
    requires Legal(n, INITIAL, events) && k < Exec(n, INITIAL, events).started
    ensures var s := Exec(n, INITIAL, events);
            exists r :: StartedAs(s, r, k) && forall q :: StartedAs(s, q, k) ==> q == r
  {
    RunKeeps(n, INITIAL, events);
    var s := Exec(n, INITIAL, events);
    hide Exec, Legal, RequestsGood;
    assert Taken(s, k);
    var r :| StartedAs(s, r, k);
  }

  /** How many of the numbers below m are i modulo n. */
  function Residues(m: nat, i: nat, n: nat): nat
    requires i < n
  {
    if m == 0 then 0 else Residues(m - 1, i, n) + if (m - 1) % n == i then 1 else 0
  }

  lemma {:induction false} ResiduesAreEven(m: nat, i: nat, n: nat)
    requires i < n
    ensures Residues(m, i, n) == m / n + if i < m % n then 1 else 0
  {
    if m > 0 {
      ResiduesAreEven(m - 1, i, n);
      ModuloNext(m - 1, n);
    } else {
      ModuloIs(0, 0, 0, n);
    }
  }

  /** The requests that turned to server i first. */
  ghost function FirstChoice(s: State, i: nat): set<nat> {
    set r | r in s.requests && s.requests[r].visited != [] && s.requests[r].visited[0] == i
  }

  /** The requests among the first m to start whose place is i modulo n. */
  ghost function EarlyChoice(s: State, m: nat, i: nat, n: nat): set<nat>
    requires n > 0
  {
    set r | r in s.requests && s.requests[r].visited != [] && s.requests[r].order < m && s.requests[r].order % n == i
  }

  lemma {:induction false} EarlyChoicesCount(s: State, m: nat, i: nat, n: nat)
    requires PlacesTaken(s) && m <= s.started && i < n
    ensures |EarlyChoice(s, m, i, n)| == Residues(m, i, n)
  {
    if m == 0 {
      assert EarlyChoice(s, 0, i, n) == {};
    } else {
      EarlyChoicesCount(s, m - 1, i, n);
      assert Taken(s, m - 1);
      var r :| StartedAs(s, r, m - 1);
      var early := EarlyChoice(s, m - 1, i, n);
      assert r !in early;
      forall q
        ensures q in EarlyChoice(s, m, i, n) <==> q in early || (q == r && (m - 1) % n == i)
      {
        if q in EarlyChoice(s, m, i, n) && q !in early {
          assert StartedAs(s, q, m - 1);
        }
      }
      assert EarlyChoice(s, m, i, n) == if (m - 1) % n == i then early + {r} else early;
    }
  }

  /** The load is even in every run: of m starts, server i was the first choice of m / n, and of one more
      for i below m modulo n, so any two servers differ by one at most. */
  lemma FirstChoicesAreEven(n: nat, events: seq<Event>, i: nat)
    requires i < n && Legal(n, INITIAL, events)
    ensures var s := Exec(n, INITIAL, events);
            |FirstChoice(s, i)| == s.started / n + if i < s.started % n then 1 else 0
  {
    RunKeeps(n, INITIAL, events);
    var s := Exec(n, INITIAL, events);
    hide Exec, Legal;
    EarlyChoicesCount(s, s.started, i, n);
    ResiduesAreEven(s.started, i, n);
    forall r
      ensures r in FirstChoice(s, i) <==> r in EarlyChoice(s, s.started, i, n)
    {
      if r in s.requests && s.requests[r].visited != [] {
        assert Cycles(n, s.requests[r]);
        assert s.requests[r].visited[0] == s.requests[r].order % n;
        assert s.requests[r].order < s.started;
      }
    }
    assert FirstChoice(s, i) == EarlyChoice(s, s.started, i, n);
  }

  // ------------------------------------------- the state, told from the events

  /** The outcomes of request r, in order. */
  function Replies(events: seq<Event>, r: nat): seq<bool> {
    if events == [] then []
    else
      var e := events[|events| - 1];
      Replies(events[..|events| - 1], r) + if e.Reply? && e.r == r then [e.ok] else []
  }

  /** How often request r has turned to a server. */
  function Turns(events: seq<Event>, r: nat): nat {
    if events == [] then 0
    else Turns(events[..|events| - 1], r) + if events[|events| - 1] == Next(r) then 1 else 0
  }

  /** The requests in the order in which they turned to their first server. */
  function Starts(events: seq<Event>): seq<nat> {
    if events == [] then []
    else
      var before, e := Starts(events[..|events| - 1]), events[|events| - 1];
      if e.Next? && e.r !in before then before + [e.r] else before
  }

  ghost predicate RequestTold(q: Request, r: nat, events: seq<Event>) {
    && q.outcomes == Replies(events, r) && |q.visited| == Turns(events, r)
    && (q.visited == [] <==> r !in Starts(events))
    && (q.visited != [] ==> q.order < |Starts(events)| && Starts(events)[q.order] == r)
  }

  ghost predicate Told(s: State, events: seq<Event>) {
    && s.started == |Starts(events)|
    && (forall r :: r in s.requests <==> Open(r) in events)
    && (forall r :: r in s.requests ==> RequestTold(s.requests[r], r, events))
    && (forall r :: r !in s.requests ==> r !in Starts(events) && Replies(events, r) == [] && Turns(events, r) == 0)
  }

  lemma OneMore(events: seq<Event>, e: Event, r: nat)
    ensures Replies(events + [e], r) == Replies(events, r) + if e.Reply? && e.r == r then [e.ok] else []
    ensures Turns(events + [e], r) == Turns(events, r) + if e == Next(r) then 1 else 0
    ensures Starts(events + [e])
         == if e.Next? && e.r !in Starts(events) then Starts(events) + [e.r] else Starts(events)
    ensures forall o :: Open(o) in events + [e] <==> Open(o) in events || e == Open(o)
  {
    assert (events + [e])[..|events|] == events;
  }

  /** An event of another request, or before the request is opened. */
  lemma OtherTold(q: Request, r: nat, events: seq<Event>, e: Event)
    requires RequestTold(q, r, events) && e.r != r
    ensures RequestTold(q, r, events + [e])
  {
    OneMore(events, e, r);
    hide Replies, Turns, Starts;
  }

  lemma NextTold(q: Request, q': Request, r: nat, events: seq<Event>)
    requires RequestTold(q, r, events) && q'.outcomes == q.outcomes && |q'.visited| == |q.visited| + 1
    requires q'.order == if q.visited == [] then |Starts(events)| else q.order
    ensures RequestTold(q', r, events + [Next(r)])
  {
    OneMore(events, Next(r), r);
    hide Replies, Turns, Starts;
  }

  lemma ReplyTold(q: Request, q': Request, r: nat, events: seq<Event>, ok: bool)
    requires RequestTold(q, r, events) && q'.outcomes == q.outcomes + [ok] && q'.visited == q.visited && q'.order == q.order
    ensures RequestTold(q', r, events + [Reply(r, ok)])
  {
    OneMore(events, Reply(r, ok), r);
    hide Replies, Turns, Starts;
  }

  /** What an event does to one request. */
  lemma RequestAfter(n: nat, s: State, e: Event, r: nat)
    requires Inv(n, s) && Step(n, s, e)
    ensures var t := Apply(n, s, e);
            && (r in t.requests <==> r in s.requests || e == Open(r))
            && (r in s.requests && e.r != r ==> t.requests[r] == s.requests[r])
            && (e == Open(r) ==> r !in s.requests && exists result :: t.requests[r] == Request(0, [], -1, [], result))
            && (e == Next(r) ==>
                  && r in s.requests
                  && t.requests[r].outcomes == s.requests[r].outcomes
                  && |t.requests[r].visited| == |s.requests[r].visited| + 1
                  && t.requests[r].order == if s.requests[r].visited == [] then s.started else s.requests[r].order)
            && (e.Reply? && e.r == r ==>
                  && r in s.requests
                  && t.requests[r].outcomes == s.requests[r].outcomes + [e.ok]
                  && t.requests[r].visited == s.requests[r].visited && t.requests[r].order == s.requests[r].order)
  {
    assert e == Next(r) ==> Cycles(n, s.requests[r]);
    hide Inv;
  }

  lemma RequestStepTold(n: nat, s: State, events: seq<Event>, e: Event, r: nat)
    requires Inv(n, s) && Told(s, events) && Step(n, s, e)
    ensures var t := Apply(n, s, e);
            if r in t.requests then RequestTold(t.requests[r], r, events + [e])
            else r !in Starts(events + [e]) && Replies(events + [e], r) == [] && Turns(events + [e], r) == 0
  {
    RequestAfter(n, s, e, r);
    StartsTold(s, events);
    OneMore(events, e, r);
    assert r in s.requests ==> RequestTold(s.requests[r], r, events) by { hide Starts, Replies, Turns; }
    if r !in s.requests { NotYetTold(s, events, r); }
    var t := Apply(n, s, e);
    hide *;
    if r in s.requests && e.r != r {
      OtherTold(s.requests[r], r, events, e);
    } else if e == Next(r) {
      NextTold(s.requests[r], t.requests[r], r, events);
    } else if e.Reply? && e.r == r {
      ReplyTold(s.requests[r], t.requests[r], r, events, e.ok);
    } else if e == Open(r) {
      var result :| t.requests[r] == Request(0, [], -1, [], result);
      FreshTold(events + [e], r, result);
    }
  }

  lemma StartsTold(s: State, events: seq<Event>)
    requires Told(s, events)
    ensures s.started == |Starts(events)|
  {
    hide Starts;
  }

  lemma NotYetTold(s: State, events: seq<Event>, r: nat)
    requires Told(s, events) && r !in s.requests
    ensures r !in Starts(events) && Replies(events, r) == [] && Turns(events, r) == 0
  {
    hide Starts, Replies, Turns;
  }

  lemma FreshTold(events: seq<Event>, r: nat, result: Option<bool>)
    requires r !in Starts(events) && Replies(events, r) == [] && Turns(events, r) == 0
    ensures RequestTold(Request(0, [], -1, [], result), r, events)
  {
    hide Starts, Replies, Turns;
  }

  lemma StepTold(n: nat, s: State, events: seq<Event>, e: Event)
    requires Inv(n, s) && Told(s, events) && Step(n, s, e)
    ensures Told(Apply(n, s, e), events + [e])
  {
    var t := Apply(n, s, e);
    StartedTold(n, s, events, e);
    forall r
      ensures r in t.requests <==> Open(r) in events + [e]
      ensures if r in t.requests then RequestTold(t.requests[r], r, events + [e])
              else r !in Starts(events + [e]) && Replies(events + [e], r) == [] && Turns(events + [e], r) == 0
    {
      RequestAfter(n, s, e, r);
      assert r in s.requests <==> Open(r) in events;
      hide *;
      OneMore(events, e, r);
      RequestStepTold(n, s, events, e, r);
    }
    hide Replies, Turns, Starts, RequestTold, Inv, Apply, Step;
  }

  lemma StartedTold(n: nat, s: State, events: seq<Event>, e: Event)
    requires Inv(n, s) && Told(s, events) && Step(n, s, e)
    ensures Apply(n, s, e).started == |Starts(events + [e])|
  {
    OneMore(events, e, 0);
    hide Replies, Turns, Starts;
    if e.Next? {
      assert Cycles(n, s.requests[e.r]) && RequestTold(s.requests[e.r], e.r, events);
    }
  }

  lemma {:induction false} RunTold(n: nat, s: State, past: seq<Event>, events: seq<Event>)
    requires Inv(n, s) && Told(s, past) && Legal(n, s, events)
    ensures Told(Exec(n, s, events), past + events)
    decreases |events|
  {
    if events == [] {
      assert past + events == past;
    } else {
      assert past + events == past + [events[0]] + events[1..];
      assert Legal(n, Apply(n, s, events[0]), events[1..]);
      assert [events[0]][1..] == [];
      assert Exec(n, s, [events[0]]) == Apply(n, s, events[0]);
      hide Inv, Told, Apply, Enabled;
      RunKeeps(n, s, [events[0]]);
      StepTold(n, s, past, events[0]);
      RunTold(n, Apply(n, s, events[0]), past + [events[0]], events[1..]);
    }
  }

  /** The requests of a run are those opened; each has had the outcomes of its own replies and as many
      turns as it took, and its place is the one at which it turned to its first server. */
  lemma RequestsAreTold(n: nat, events: seq<Event>, r: nat)
    requires Legal(n, INITIAL, events)
    ensures var s := Exec(n, INITIAL, events);
            && s.started == |Starts(events)|
            && (r in s.requests <==> Open(r) in events)
            && (r in s.requests ==>
                  && s.requests[r].outcomes == Replies(events, r) && |s.requests[r].visited| == Turns(events, r)
                  && (s.requests[r].visited != [] ==>
                        s.requests[r].order < |Starts(events)| && Starts(events)[s.requests[r].order] == r))
  {
    assert Told(INITIAL, []) && Inv(n, INITIAL);
    RunTold(n, INITIAL, [], events);
    assert [] + events == events;
    hide Exec, Legal, Replies, Turns, Starts;
    var s := Exec(n, INITIAL, events);
    assert r in s.requests ==> RequestTold(s.requests[r], r, events);
  }

  /** A request without a result can always go on, in one way only, and one with a result is over. */
  lemma RequestGoesOn(n: nat, events: seq<Event>, r: nat, ok: bool)
    requires Legal(n, INITIAL, events)
    ensures var s := Exec(n, INITIAL, events);
            && (Enabled(n, s, Open(r)) <==> Open(r) !in events)
            && (r in s.requests ==>
                  && (s.requests[r].result.None? <==> Enabled(n, s, Next(r)) || Enabled(n, s, Reply(r, ok)))
                  && !(Enabled(n, s, Next(r)) && Enabled(n, s, Reply(r, ok))))
  {
    RunKeeps(n, INITIAL, events);
    RequestsAreTold(n, events, r);
    hide Exec, Legal;
    var s := Exec(n, INITIAL, events);
    assert r in s.requests ==> Stops(n, s.requests[r]);
  }
}
