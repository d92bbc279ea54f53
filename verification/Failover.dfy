/** The C client's registry of server lists, and how requests move through the servers of a list. */
module Failover {
  import opened Optional
  import opened Orders
  import opened Text

  const MAX_SRVS := 32
  const SUCCESS := 0
  const FAILURE := 1

  datatype Server = Server(host: string, port: string)
  datatype Slot = Slot(id: string, servers: seq<Server>, srvIdx: int)

  const EMPTY := Slot("", [], 0)

  // ----------------------------------------------------------- parsing a list

  /** strtok_r on commas: the parts that are not empty. */
  function NonEmpty(parts: seq<string>): seq<string> {
    if parts == [] then []
    else (if parts[0] == "" then [] else [parts[0]]) + NonEmpty(parts[1..])
  }

  function Colon(s: string): (i: nat)
    ensures i <= |s| && (i < |s| ==> s[i] == ':')
  {
    if s == "" || s[0] == ':' then 0 else 1 + Colon(s[1..])
  }

  /** ngamsSplitSrvAddr: None when there is no ':'. */
  function SplitAddr(s: string): Option<Server> {
    var i := Colon(s);
    if i == |s| then None else Some(Server(s[..i], s[i + 1..]))
  }

  /** The addresses before the first malformed one. */
  function Servers(tokens: seq<string>): seq<Server> {
    if tokens == [] || SplitAddr(tokens[0]).None? then []
    else [SplitAddr(tokens[0]).value] + Servers(tokens[1..])
  }

  predicate AllSplit(tokens: seq<string>) {
    forall t :: t in tokens ==> SplitAddr(t).Some?
  }

  function Address(s: Server): string {
    s.host + ":" + s.port
  }

  function Addresses(servers: seq<Server>): seq<string> {
    seq(|servers|, i requires 0 <= i < |servers| => Address(servers[i]))
  }

  predicate WellFormed(s: Server) {
    ':' !in s.host && ',' !in s.host && ',' !in s.port
  }

  lemma {:induction false} ColonAfter(host: string, tail: string)
    requires ':' !in host
    ensures Colon(host + ":" + tail) == |host|
  {
    if host == "" {
      assert host + ":" + tail == ":" + tail;
    } else {
      assert (host + ":" + tail)[1..] == host[1..] + ":" + tail;
      ColonAfter(host[1..], tail);
    }
  }

  lemma SplitAddress(s: Server)
    requires WellFormed(s)
    ensures SplitAddr(Address(s)) == Some(s) && Address(s) != "" && ',' !in Address(s)
  {
    ColonAfter(s.host, s.port);
    assert Address(s)[..|s.host|] == s.host && Address(s)[|s.host| + 1..] == s.port;
  }

  lemma {:induction false} ServersOfAddresses(servers: seq<Server>)
    requires forall s :: s in servers ==> WellFormed(s)
    ensures NonEmpty(Addresses(servers)) == Addresses(servers)
    ensures Servers(Addresses(servers)) == servers && AllSplit(Addresses(servers))
    ensures forall a :: a in Addresses(servers) ==> ',' !in a
  {
    if servers != [] {
      SplitAddress(servers[0]);
      ServersOfAddresses(servers[1..]);
      assert Addresses(servers)[1..] == Addresses(servers[1..]);
      hide SplitAddr, Address;
      assert Addresses(servers) == [Address(servers[0])] + Addresses(servers[1..]);
      assert servers == [servers[0]] + servers[1..];
    }
  }

  /** Registering "host:port,host:port,..." registers exactly these servers, in this order. */
  lemma ParseRoundTrip(servers: seq<Server>)
    requires servers != [] && forall s :: s in servers ==> WellFormed(s)
    ensures var tokens := NonEmpty(Split(Join(Addresses(servers), ','), ','));
            AllSplit(tokens) && Servers(tokens) == servers
  {
    ServersOfAddresses(servers);
    SplitJoin(Addresses(servers), ',');
  }

  function Blanks(n: nat): seq<string> {
    if n == 0 then [] else [""] + Blanks(n - 1)
  }

  /** The addresses, with so many empty parts before each and behind the last. */
  function Padded(servers: seq<Server>, gaps: seq<nat>): seq<string>
    requires |gaps| == |servers| + 1
    decreases |servers|
  {
    Blanks(gaps[0]) + if servers == [] then [] else [Address(servers[0])] + Padded(servers[1..], gaps[1..])
  }

  lemma {:induction false} BlanksSkipped(n: nat, rest: seq<string>)
    ensures NonEmpty(Blanks(n) + rest) == NonEmpty(rest)
    ensures forall p :: p in Blanks(n) ==> p == ""
  {
    if n == 0 {
      assert Blanks(n) + rest == rest;
    } else {
      assert (Blanks(n) + rest)[1..] == Blanks(n - 1) + rest;
      BlanksSkipped(n - 1, rest);
    }
  }

  lemma {:induction false} PaddingSkipped(servers: seq<Server>, gaps: seq<nat>)
    requires |gaps| == |servers| + 1 && forall s :: s in servers ==> WellFormed(s)
    ensures NonEmpty(Padded(servers, gaps)) == Addresses(servers)
    ensures forall p :: p in Padded(servers, gaps) ==> ',' !in p
    decreases |servers|
  {
    if servers == [] {
      BlanksSkipped(gaps[0], []);
      assert Blanks(gaps[0]) + [] == Blanks(gaps[0]);
    } else {
      var rest := Padded(servers[1..], gaps[1..]);
      BlanksSkipped(gaps[0], [Address(servers[0])] + rest);
      SplitAddress(servers[0]);
      PaddingSkipped(servers[1..], gaps[1..]);
      assert ([Address(servers[0])] + rest)[1..] == rest;
      assert Addresses(servers) == [Address(servers[0])] + Addresses(servers[1..]);
      hide Address;
    }
  }

  /** Commas in a row, and at either end of the list, change nothing. */
  lemma ParseWithGaps(servers: seq<Server>, gaps: seq<nat>)
    requires |gaps| == |servers| + 1 && (forall s :: s in servers ==> WellFormed(s)) && Padded(servers, gaps) != []
    ensures var tokens := NonEmpty(Split(Join(Padded(servers, gaps), ','), ','));
            AllSplit(tokens) && Servers(tokens) == servers
  {
    PaddingSkipped(servers, gaps);
    SplitJoin(Padded(servers, gaps), ',');
    ServersOfAddresses(servers);
  }

  /** An address without a port ends the parsing: the servers before it are registered, and none behind it. */
  lemma {:induction false} MalformedEnds(servers: seq<Server>, bad: string, rest: seq<string>)
    requires (forall s :: s in servers ==> WellFormed(s)) && ':' !in bad
    ensures var tokens := Addresses(servers) + ([bad] + rest);
            !AllSplit(tokens) && Servers(tokens) == servers
  {
    var tokens := Addresses(servers) + ([bad] + rest);
    assert bad in tokens && SplitAddr(bad).None?;
    hide SplitAddr, AllSplit;
    if servers == [] {
      assert tokens[0] == bad;
      assert Servers(tokens) == [];
    } else {
      SplitAddress(servers[0]);
      hide Address;
      assert tokens[0] == Address(servers[0]);
      assert tokens[1..] == Addresses(servers[1..]) + ([bad] + rest);
      MalformedEnds(servers[1..], bad, rest);
      assert Servers(tokens) == [servers[0]] + Servers(tokens[1..]);
    }
  }

  // ---------------------------------------------------------------- the registry

  /** The slot of the list or, when there is none, the first free one; |slots| when there is none either. */
  function Locate(slots: seq<Slot>, id: string): (bool, nat) {
    if slots == [] then (false, 0)
    else if slots[0].id == id then (true, 0)
    else if slots[0].id == "" then (false, 0)
    else
      var (found, n) := Locate(slots[1..], id);
      (found, n + 1)
  }

  lemma {:induction false} LocateBound(slots: seq<Slot>, id: string)
    ensures Locate(slots, id).1 <= |slots|
    ensures Locate(slots, id).0 ==> Locate(slots, id).1 < |slots|
  {
    if slots != [] {
      LocateBound(slots[1..], id);
    }
  }

  /** No two slots for one list, and the free slots behind the used ones. */
  ghost predicate Tidy(slots: seq<Slot>) {
    && (forall i, j :: 0 <= i < j < |slots| && slots[i].id != "" ==> slots[i].id != slots[j].id)
    && (forall i, j :: 0 <= i < j < |slots| && slots[j].id != "" ==> slots[i].id != "")
  }

  ghost predicate Registered(slots: seq<Slot>, slot: Slot) {
    slot.id != "" && slot in slots
  }

  lemma {:induction false} LocateIs(slots: seq<Slot>, id: string)
    requires Tidy(slots) && id != ""
    ensures var (found, n) := Locate(slots, id);
            && n <= |slots|
            && (found ==> n < |slots| && slots[n].id == id)
            && (!found ==> (n < |slots| ==> slots[n].id == "") && forall i :: 0 <= i < |slots| ==> slots[i].id != id)
            && (forall i :: 0 <= i < n ==> slots[i].id != "" && slots[i].id != id)
  {
    if slots != [] && slots[0].id != id && slots[0].id != "" {
      assert forall i :: 0 <= i < |slots| - 1 ==> slots[1..][i] == slots[i + 1];
      LocateIs(slots[1..], id);
      assert forall i :: 0 < i < |slots| ==> slots[i] == slots[1..][i - 1];
    }
  }

  /** Registering a list replaces its own entry, or takes a free one, and touches no other list. */
  lemma RegisterKeepsOthers(slots: seq<Slot>, slot: Slot)
    requires Tidy(slots) && slot.id != "" && Locate(slots, slot.id).1 < |slots|
    ensures var after := slots[Locate(slots, slot.id).1 := slot];
            && Tidy(after) && Locate(after, slot.id) == (true, Locate(slots, slot.id).1)
            && forall s :: Registered(after, s) <==> s == slot || (Registered(slots, s) && s.id != slot.id)
  {
    LocateIs(slots, slot.id);
    var n := Locate(slots, slot.id).1;
    var after := slots[n := slot];
    assert after[n] == slot;
    LocateIs(after, slot.id);
    forall s | Registered(slots, s) && s.id != slot.id
      ensures s in after
    {
      var i :| 0 <= i < |slots| && slots[i] == s;
      assert after[i] == s;
    }
  }

  /** The indexes of the servers tried from idx on, until one answers or count of them have failed. */
  function Tried(idx: nat, n: nat, count: nat, answers: seq<int>): seq<nat>
    requires n > 0 && count <= |answers|
    decreases count
  {
    if count == 0 then []
    else if answers[0] == SUCCESS then [idx]
    else [idx] + Tried((idx + 1) % n, n, count - 1, answers[1..])
  }

  /** Distinct servers in cyclic order, ending with the first success; all of them when all fail. */
  lemma {:induction false} TriedCycles(start: nat, n: nat, count: nat, answers: seq<int>)
    requires start < n && count <= n && count <= |answers|
    ensures var tried := Tried(start, n, count, answers);
            && |tried| <= count
            && (forall i :: 0 <= i < |tried| ==> tried[i] == Wrap(start + i, n))
            && (forall i :: 0 <= i < |tried| - 1 ==> answers[i] != SUCCESS)
            && (if Answered(answers[..count])
                then tried != [] && answers[|tried| - 1] == SUCCESS else |tried| == count)
            && Distinct(tried)
    decreases count
  {
    if count > 0 && answers[0] != SUCCESS {
      NextWraps(start, n);
      TriedCycles((start + 1) % n, n, count - 1, answers[1..]);
      var tried, rest := Tried(start, n, count, answers), Tried((start + 1) % n, n, count - 1, answers[1..]);
      forall i | 0 <= i < count
        ensures i > 0 ==> answers[i] == answers[1..][i - 1]
      {
      }
      AnsweredTail(answers, count);
      forall i | 0 <= i < |tried|
        ensures tried[i] == Wrap(start + i, n)
      {
        if i > 0 { assert tried[i] == rest[i - 1]; }
      }
    }
  }

  /** An index less than twice n, brought back below n. */
  function Wrap(i: nat, n: nat): nat {
    if i < n then i else i - n
  }

  lemma NextWraps(i: nat, n: nat)
    requires i < n
    ensures (i + 1) % n == Wrap(i + 1, n)
  {
    if i + 1 == n {
      assert n % n == 0;
    }
  }

  lemma NextToken(tokens: seq<string>, i: nat)
    requires i < |tokens|
    ensures tokens[i..][0] == tokens[i] && tokens[i..][1..] == tokens[i + 1..]
    ensures AllSplit(tokens[..i]) && SplitAddr(tokens[i]).Some? ==> AllSplit(tokens[..i + 1])
  {
    assert tokens[..i + 1] == tokens[..i] + [tokens[i]];
    hide SplitAddr;
  }

  class Registry {
    const slots: array<Slot>

    constructor ()
      ensures slots.Length == MAX_SRVS && Tidy(slots[..])
      ensures forall s :: !Registered(slots[..], s)
      ensures fresh(slots)
    {
      slots := new Slot[MAX_SRVS](_ => EMPTY);
    }

    method GetSrvInfoObj(listId: string) returns (found: bool, n: nat)
      ensures (found, n) == Locate(slots[..], listId)
    {
      n := 0;
      assert slots[..][0..] == slots[..];
      while n < slots.Length
        invariant n <= slots.Length
        invariant Locate(slots[..], listId)
               == (Locate(slots[..][n..], listId).0, n + Locate(slots[..][n..], listId).1)
      {
        assert slots[..][n..][1..] == slots[..][n + 1..];
        if slots[n].id == listId { return true, n; }
        if slots[n].id == "" { return false, n; }
        n := n + 1;
      }
      return false, n;
    }

    /** A malformed address ends the parsing; the list then holds the servers before it. */
    method ParseSrvListId(listId: string, servers: string) returns (status: int)
      requires |NonEmpty(Split(servers, ','))| <= MAX_SRVS
      modifies slots
      ensures var n := Locate(old(slots[..]), listId).1;
              var tokens := NonEmpty(Split(servers, ','));
              if n < slots.Length
              then slots[..] == old(slots[..])[n := Slot(listId, Servers(tokens), -1)]
                && (status == if AllSplit(tokens) then SUCCESS else FAILURE)
              else slots[..] == old(slots[..]) && status == FAILURE
    {
      var found, n := GetSrvInfoObj(listId);
      LocateBound(slots[..], listId);
      if n == slots.Length { return FAILURE; }
      ghost var before := slots[..];
      slots[n] := Slot(listId, [], -1);
      hide Locate, SplitAddr;
      var tokens := NonEmpty(Split(servers, ','));
      var i := 0;
      assert tokens[0..] == tokens;
      ghost var read: seq<Server> := [];
      ghost var rest := Servers(tokens);
      assert read + rest == rest;
      while i < |tokens|
        invariant 0 <= i <= |tokens|
        invariant slots[..] == before[n := Slot(listId, read, -1)]
        invariant read + rest == Servers(tokens) && rest == Servers(tokens[i..])
        invariant AllSplit(tokens[..i])
      {
        NextToken(tokens, i);
        var server := SplitAddr(tokens[i]);
        if server.None? {
          assert tokens[i] in tokens && read + [] == read;
          return FAILURE;
        }
        Associative(read, [server.value], rest[1..]);
        read, rest := read + [server.value], rest[1..];
        slots[n] := slots[n].(servers := slots[n].servers + [server.value]);
        i := i + 1;
      }
      assert tokens[..i] == tokens && read + [] == read;
      return SUCCESS;
    }

    /** Inside the mutex: a new request takes the next start, a running one the next server. */
    method GetNextSrv(n: nat, idx: int) returns (next: nat)
      requires n < slots.Length && slots[n].servers != [] && -1 <= slots[n].srvIdx && -1 <= idx
      modifies slots
      ensures next == ((if idx == -1 then old(slots[n].srvIdx) else idx) + 1) % |old(slots[n].servers)|
      ensures slots[..] == old(slots[..])[n := old(slots[n]).(srvIdx := if idx == -1 then next else old(slots[n].srvIdx))]
    {
      var count := |slots[n].servers|;
      if idx == -1 {
        slots[n] := slots[n].(srvIdx := (slots[n].srvIdx + 1) % count);
        next := slots[n].srvIdx;
      } else {
        next := (idx + 1) % count;
      }
    }

    /** The failover loop: answers holds the status of each attempt it would make. */
    method TryServers(n: nat, answers: seq<int>) returns (status: int, tried: seq<nat>)
      requires n < slots.Length && -1 <= slots[n].srvIdx && 0 < |slots[n].servers| <= |answers|
      modifies slots
      ensures var slot := old(slots[n]);
              var count := |slot.servers|;
              var start := (slot.srvIdx + 1) % count;
              && tried == Tried(start, count, count, answers)
              && (status == if Answered(answers[..count]) then SUCCESS else FAILURE)
              && slots[..] == old(slots[..])[n := slot.(srvIdx := start)]
    {
      ghost var before, slot := slots[..], slots[n];
      var maxTries := |slots[n].servers|;
      ghost var start: nat := (slot.srvIdx + 1) % maxTries;
      ghost var all := Tried(start, maxTries, maxTries, answers);
      ghost var next := start;
      tried := [];
      var idx: int := -1;
      var tryCount := 0;
      NothingTried(start, maxTries, answers);
      hide *;
      while tryCount < maxTries
        invariant 0 <= tryCount <= maxTries && |slots[n].servers| == maxTries
        invariant if tryCount == 0 then idx == -1 && slots[..] == before && next == start
                  else 0 <= idx && slots[..] == before[n := slot.(srvIdx := start)] && next == (idx + 1) % maxTries
        invariant !Answered(answers[..tryCount])
        invariant Trying(all, tried, next, maxTries, tryCount, answers)
      {
        ghost var now := slots[..];
        assert now[n] == slots[n];
        idx := GetNextSrv(n, idx);
        SameUpdate(before, now, slots[..], n, slot, start);
        TryingStep(all, tried, next, maxTries, tryCount, answers);
        AnsweredStep(answers, tryCount);
        tried := tried + [idx];
        if answers[tryCount] == SUCCESS {
          AnsweredLater(answers, tryCount + 1, maxTries);
          return SUCCESS, tried;
        }
        next := (idx + 1) % maxTries;
        tryCount := tryCount + 1;
      }
      AllTried(all, tried, next, maxTries, answers);
      return FAILURE, tried;
    }

    /** A GET or POST request to a registered list, or to one host when no list has the name. */
    method Request(listId: string, answers: seq<int>) returns (status: int, tried: seq<nat>)
      requires |answers| > 0
      requires var (found, n) := Locate(slots[..], listId);
               found ==> n < slots.Length && -1 <= slots[n].srvIdx && |slots[n].servers| <= |answers|
      modifies slots
      ensures var (found, n) := Locate(old(slots[..]), listId);
              if !found then slots[..] == old(slots[..]) && tried == [] && status == answers[0]
              else
                var slot := old(slots[..])[n];
                var count := |slot.servers|;
                if count == 0 then slots[..] == old(slots[..]) && tried == [] && status == FAILURE
                else
                  var start := (slot.srvIdx + 1) % count;
                  && tried == Tried(start, count, count, answers)
                  && (status == if Answered(answers[..count]) then SUCCESS else FAILURE)
                  && slots[..] == old(slots[..])[n := slot.(srvIdx := start)]
    {
      hide Tried, Answered;
      var found, n := GetSrvInfoObj(listId);
      if !found { return answers[0], []; }
      if slots[n].servers == [] { return FAILURE, []; }
      status, tried := TryServers(n, answers);
    }
  }

  predicate Answered(answers: seq<int>) {
    exists i :: 0 <= i < |answers| && answers[i] == SUCCESS
  }

  /** After k failed attempts: the servers tried so far and those from next on are all. */
  ghost predicate Trying(all: seq<nat>, tried: seq<nat>, next: nat, n: nat, k: nat, answers: seq<int>) {
    0 < n && k <= n <= |answers| && all == tried + Tried(next, n, n - k, answers[k..])
  }

  lemma NothingTried(start: nat, n: nat, answers: seq<int>)
    requires 0 < n <= |answers|
    ensures !Answered(answers[..0]) && Trying(Tried(start, n, n, answers), [], start, n, 0, answers)
  {
    assert answers[0..] == answers;
    assert [] + Tried(start, n, n, answers) == Tried(start, n, n, answers);
  }

  lemma TryingStep(all: seq<nat>, tried: seq<nat>, next: nat, n: nat, k: nat, answers: seq<int>)
    requires Trying(all, tried, next, n, k, answers) && k < n
    ensures if answers[k] == SUCCESS then all == tried + [next]
            else Trying(all, tried + [next], (next + 1) % n, n, k + 1, answers)
  {
    assert answers[k..][0] == answers[k] && answers[k..][1..] == answers[k + 1..];
    assert answers[k] != SUCCESS ==>
        Tried(next, n, n - k, answers[k..]) == [next] + Tried((next + 1) % n, n, n - k - 1, answers[k + 1..]);
    hide Tried;
    Associative(tried, [next], all[|tried| + 1..]);
  }

  lemma AllTried(all: seq<nat>, tried: seq<nat>, next: nat, n: nat, answers: seq<int>)
    requires Trying(all, tried, next, n, n, answers)
    ensures all == tried
  {
    assert tried + [] == tried;
  }

  lemma AnsweredTail(answers: seq<int>, count: nat)
    requires 0 < count <= |answers|
    ensures Answered(answers[..count]) <==> answers[0] == SUCCESS || Answered(answers[1..][..count - 1])
  {
    if Answered(answers[..count]) && answers[0] != SUCCESS {
      var i :| 0 <= i < count && answers[..count][i] == SUCCESS;
      assert answers[1..][..count - 1][i - 1] == SUCCESS;
    }
    if Answered(answers[1..][..count - 1]) {
      var i :| 0 <= i < count - 1 && answers[1..][..count - 1][i] == SUCCESS;
      assert answers[..count][i + 1] == SUCCESS;
    }
    if answers[0] == SUCCESS { assert answers[..count][0] == SUCCESS; }
  }

  lemma AnsweredStep(answers: seq<int>, i: nat)
    requires i < |answers|
    ensures Answered(answers[..i + 1]) <==> Answered(answers[..i]) || answers[i] == SUCCESS
  {
    assert answers[..i + 1][i] == answers[i];
    assert forall k :: 0 <= k < i ==> answers[..i + 1][k] == answers[..i][k];
  }

  lemma AnsweredLater(answers: seq<int>, i: nat, j: nat)
    requires i <= j <= |answers| && Answered(answers[..i])
    ensures Answered(answers[..j])
  {
    var k :| 0 <= k < i && answers[..i][k] == SUCCESS;
    assert answers[..j][k] == SUCCESS;
  }

  lemma SameUpdate(before: seq<Slot>, now: seq<Slot>, after: seq<Slot>, n: nat, slot: Slot, start: int)
    requires n < |before| && before[n] == slot
    requires now == before || now == before[n := slot.(srvIdx := start)]
    requires after == now[n := now[n].(srvIdx := start)]
    ensures after == before[n := slot.(srvIdx := start)]
  {
  }
}
