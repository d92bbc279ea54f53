/** Sequences of interning calls on one table of server lists. */
module ServerListRuns {
  import opened Optional
  import opened Text
  import opened ServerLists

  datatype Call = Call(servers: string, draws: seq<nat>)

  /** Each call finds a free number among its draws. */
  ghost predicate CanRun(calls: seq<Call>)
    decreases |calls|, 0
  {
    calls == [] || (
      && CanRun(calls[..|calls| - 1])
      && Draws(Run(calls[..|calls| - 1]).0, calls[|calls| - 1].draws))
  }

  /** The table after the calls, empty at first, and the ID each of them got. */
  ghost function Run(calls: seq<Call>): (result: (seq<Row>, seq<nat>))
    requires CanRun(calls)
    ensures |result.1| == |calls|
    decreases |calls|, 1
  {
    if calls == [] then ([], [])
    else
      var (rows, ids) := Run(calls[..|calls| - 1]);
      var (after, id) := Interned(rows, calls[|calls| - 1].servers, calls[|calls| - 1].draws);
      (after, ids + [id])
  }

  ghost predicate QuoteFree(calls: seq<Call>) {
    forall c :: c in calls ==> '\'' !in c.servers
  }

  /** Two calls get one ID exactly when they name the same servers. */
  ghost predicate Interns(calls: seq<Call>, ids: seq<nat>)
    requires |ids| == |calls|
  {
    forall i, j :: 0 <= i < j < |calls| ==> (ids[i] == ids[j] <==> SameServers(calls[i].servers, calls[j].servers))
  }

  /** No list that is not plain is followed by one of its servers, or of the servers of its clean form. */
  ghost predicate Apart(calls: seq<Call>) {
    forall i, j :: 0 <= i < j < |calls| ==> NotConfused(calls[i].servers, calls[j].servers)
  }

  ghost predicate NotConfused(s: string, t: string) {
    Plain(s) || (!SameServers(s, t) && !SameServers(Clean(s), t))
  }

  // -------------------------------------------------------------- looking things up

  lemma {:induction false} FindListIs(rows: seq<Row>, servers: string)
    ensures FindList(rows, servers).Some? <==> exists i :: 0 <= i < |rows| && rows[i].servers == servers
    ensures FindList(rows, servers).Some? ==> Row(FindList(rows, servers).value, servers) in rows
  {
    if rows != [] {
      FindListIs(rows[1..], servers);
      assert rows == [rows[0]] + rows[1..];
      if exists i :: 0 <= i < |rows| && rows[i].servers == servers {
        var i :| 0 <= i < |rows| && rows[i].servers == servers;
        assert i > 0 ==> rows[1..][i - 1].servers == servers;
      }
    }
  }

  lemma {:induction false} FindIdNone(rows: seq<Row>, id: nat)
    requires FindId(rows, id).None?
    ensures forall r :: r in rows ==> r.id != id
  {
    if rows != [] {
      FindIdNone(rows[1..], id);
      assert rows == [rows[0]] + rows[1..];
    }
  }

  lemma {:induction false} FirstFreeIsFree(rows: seq<Row>, draws: seq<nat>)
    requires Draws(rows, draws)
    ensures FindId(rows, FirstFree(rows, draws)).None?
    ensures exists k :: 0 <= k < |draws| && draws[k] == FirstFree(rows, draws) && forall j :: 0 <= j < k ==> FindId(rows, draws[j]).Some?
  {
    if FindId(rows, draws[0]).Some? {
      LaterDraw(rows, draws);
      FirstFreeIsFree(rows, draws[1..]);
      var k :| 0 <= k < |draws| - 1 && draws[1..][k] == FirstFree(rows, draws[1..])
               && forall j :: 0 <= j < k ==> FindId(rows, draws[1..][j]).Some?;
      forall j | 0 <= j < k + 1
        ensures FindId(rows, draws[j]).Some?
      {
        if j > 0 { assert draws[j] == draws[1..][j - 1]; }
      }
      assert draws[k + 1] == draws[1..][k];
    }
  }

  /** One call: the row found for the clean form, or a new row with a new ID and the form cleaned again. */
  lemma InternedIs(rows: seq<Row>, s: string, draws: seq<nat>)
    requires Draws(rows, draws)
    ensures var (after, id) := Interned(rows, s, draws);
            if exists r :: r in rows && r.servers == Clean(s)
            then after == rows && Row(id, Clean(s)) in rows
            else after == rows + [Row(id, Clean(Clean(s)))] && forall r :: r in rows ==> r.id != id
  {
    FindListIs(rows, Clean(s));
    FirstFreeIsFree(rows, draws);
    FindIdNone(rows, FirstFree(rows, draws));
    hide Clean, FirstFree, FindId;
    if exists r :: r in rows && r.servers == Clean(s) {
      var r :| r in rows && r.servers == Clean(s);
      var i :| 0 <= i < |rows| && rows[i] == r;
      assert rows[i].servers == Clean(s);
    }
  }

  // ------------------------------------------------------------------ the invariant

  /** The text a call stores, should it store one. */
  function Stored(c: Call): string {
    Clean(Clean(c.servers))
  }

  /** Every row is some call's, with its ID and what it stores, and every call has its row. */
  ghost predicate RowsAreCalls(rows: seq<Row>, calls: seq<Call>, ids: seq<nat>)
    requires |ids| == |calls|
  {
    && (forall r :: r in rows ==> exists k :: 0 <= k < |calls| && r == Row(ids[k], Stored(calls[k])))
    && (forall k :: 0 <= k < |calls| ==> Row(ids[k], Stored(calls[k])) in rows)
  }

  /** Two lists without quotes: the clean forms and their relation decide everything. */
  lemma CleanForms(s: string, t: string)
    requires '\'' !in s && '\'' !in t
    ensures SameServers(s, t) <==> Clean(s) == Clean(t)
    ensures SameServers(Clean(s), t) <==> Clean(Clean(s)) == Clean(t)
    ensures Clean(Clean(s)) == Clean(s) <==> Plain(s)
    ensures !Plain(s) ==> Clean(Clean(Clean(s))) != Clean(Clean(s))
  {
    CleanParts(s);
    CleanEqualIff(s, t);
    CleanEqualIff(Clean(s), t);
    CleanIdempotentIff(s);
    StableIffPlain(s);
    if !Plain(s) {
      NotPlainAgain(s);
      NotPlainAgain(Clean(s));
      CleanGrows(Clean(Clean(s)));
    }
    hide *;
  }

  /** The next call agrees with all calls before it exactly when it is confused with none of them. */
  ghost predicate Agrees(calls: seq<Call>, ids: seq<nat>, c: Call, id: nat)
    requires |ids| == |calls|
  {
    forall i :: 0 <= i < |calls| ==> (ids[i] == id <==> SameServers(calls[i].servers, c.servers))
  }

  ghost predicate NoneConfused(calls: seq<Call>, c: Call) {
    forall i :: 0 <= i < |calls| ==> NotConfused(calls[i].servers, c.servers)
  }

  lemma SameIdsAt(calls: seq<Call>, ids: seq<nat>, i: nat, j: nat)
    requires QuoteFree(calls) && |ids| == |calls| && Interns(calls, ids) && i < |calls| && j < |calls|
    ensures ids[i] == ids[j] <==> Clean(calls[i].servers) == Clean(calls[j].servers)
  {
    CleanForms(calls[i].servers, calls[j].servers);
    CleanForms(calls[j].servers, calls[i].servers);
    hide Clean, SameServers;
  }

  /** What a call comes to: a row found for its clean form, which is call m's, or a new row and ID. */
  ghost predicate Answered(rows: seq<Row>, calls: seq<Call>, ids: seq<nat>, c: Call, after: seq<Row>, id: nat, m: int)
    requires |ids| == |calls|
  {
    if 0 <= m < |calls| then after == rows && ids[m] == id && Stored(calls[m]) == Clean(c.servers)
    else
      && after == rows + [Row(id, Stored(c))]
      && forall k :: 0 <= k < |calls| ==> ids[k] != id && Stored(calls[k]) != Clean(c.servers)
  }

  lemma AnsweredBy(rows: seq<Row>, calls: seq<Call>, ids: seq<nat>, c: Call)
    requires |ids| == |calls| && RowsAreCalls(rows, calls, ids) && Draws(rows, c.draws)
    ensures var (after, id) := Interned(rows, c.servers, c.draws);
            exists m: int :: Answered(rows, calls, ids, c, after, id, m)
  {
    InternedIs(rows, c.servers, c.draws);
    var (after, id) := Interned(rows, c.servers, c.draws);
    hide Interned, Clean;
    if exists r :: r in rows && r.servers == Clean(c.servers) {
      var k :| 0 <= k < |calls| && Row(id, Clean(c.servers)) == Row(ids[k], Stored(calls[k]));
      assert Answered(rows, calls, ids, c, after, id, k);
    } else {
      assert Answered(rows, calls, ids, c, after, id, -1);
    }
  }

  lemma AgreesIfApart(rows: seq<Row>, calls: seq<Call>, ids: seq<nat>, c: Call, after: seq<Row>, id: nat, m: int)
    requires QuoteFree(calls) && '\'' !in c.servers && |ids| == |calls| && Interns(calls, ids)
    requires Answered(rows, calls, ids, c, after, id, m) && NoneConfused(calls, c)
    ensures Agrees(calls, ids, c, id)
    ensures 0 <= m < |calls| ==> Stored(c) == Stored(calls[m])
  {
    if 0 <= m < |calls| {
      CleanForms(calls[m].servers, c.servers);
      assert NotConfused(calls[m].servers, c.servers);
    }
    hide Clean, SameServers, Plain;
    forall i | 0 <= i < |calls|
      ensures ids[i] == id <==> SameServers(calls[i].servers, c.servers)
    {
      CleanForms(calls[i].servers, c.servers);
      assert NotConfused(calls[i].servers, c.servers);
      if 0 <= m < |calls| {
        SameIdsAt(calls, ids, i, m);
      }
    }
  }

  lemma ApartIfAgrees(rows: seq<Row>, calls: seq<Call>, ids: seq<nat>, c: Call, after: seq<Row>, id: nat, m: int)
    requires QuoteFree(calls) && '\'' !in c.servers && |ids| == |calls| && Interns(calls, ids)
    requires Answered(rows, calls, ids, c, after, id, m) && Agrees(calls, ids, c, id)
    ensures NoneConfused(calls, c)
  {
    hide Clean, SameServers, Plain;
    forall i | 0 <= i < |calls|
      ensures NotConfused(calls[i].servers, c.servers)
    {
      CleanForms(calls[i].servers, c.servers);
      if 0 <= m < |calls| {
        CleanForms(calls[m].servers, c.servers);
        SameIdsAt(calls, ids, i, m);
      }
    }
  }

  lemma RowsGrow(rows: seq<Row>, calls: seq<Call>, ids: seq<nat>, c: Call, after: seq<Row>, id: nat, m: int)
    requires |ids| == |calls| && RowsAreCalls(rows, calls, ids) && Answered(rows, calls, ids, c, after, id, m)
    requires 0 <= m < |calls| ==> Stored(c) == Stored(calls[m])
    ensures RowsAreCalls(after, calls + [c], ids + [id])
  {
    hide Stored;
    var more, most := calls + [c], ids + [id];
    forall r | r in after
      ensures exists k :: 0 <= k < |more| && r == Row(most[k], Stored(more[k]))
    {
      if r in rows {
        var k :| 0 <= k < |calls| && r == Row(ids[k], Stored(calls[k]));
        assert more[k] == calls[k] && most[k] == ids[k];
      } else {
        assert more[|calls|] == c && most[|calls|] == id;
      }
    }
  }

  // ----------------------------------------------------------------- main theorem

  /** Over any run from an empty table with lists without single quotes: calls get one ID exactly for the
      same servers, if and only if no list that is not plain is followed by one of its servers or of the
      servers of its clean form. */
  lemma {:induction false} InternsIffApart(calls: seq<Call>)
    requires CanRun(calls) && QuoteFree(calls)
    ensures Interns(calls, Run(calls).1) <==> Apart(calls)
    ensures Apart(calls) ==> RowsAreCalls(Run(calls).0, calls, Run(calls).1)
  {
    if calls != [] {
      var n := |calls| - 1;
      var init, c := calls[..n], calls[n];
      assert calls == init + [c];
      InternsIffApart(init);
      LastCall(calls);
      var (rows, ids) := Run(init);
      var (after, id) := Interned(rows, c.servers, c.draws);
      InternsAppend(init, ids, c, id);
      ApartAppend(init, c);
      if Apart(init) {
        AnsweredBy(rows, init, ids, c);
        hide *;
        var m: int :| Answered(rows, init, ids, c, after, id, m);
        if Agrees(init, ids, c, id) {
          ApartIfAgrees(rows, init, ids, c, after, id, m);
        }
        if NoneConfused(init, c) {
          AgreesIfApart(rows, init, ids, c, after, id, m);
          RowsGrow(rows, init, ids, c, after, id, m);
        }
      }
    }
  }

  lemma LastCall(calls: seq<Call>)
    requires CanRun(calls) && calls != [] && QuoteFree(calls)
    ensures var init, c := calls[..|calls| - 1], calls[|calls| - 1];
            && CanRun(init) && QuoteFree(init) && '\'' !in c.servers && Draws(Run(init).0, c.draws)
            && Run(calls) == (Interned(Run(init).0, c.servers, c.draws).0,
                              Run(init).1 + [Interned(Run(init).0, c.servers, c.draws).1])
  {
  }

  lemma InternsAppend(calls: seq<Call>, ids: seq<nat>, c: Call, id: nat)
    requires |ids| == |calls|
    ensures Interns(calls + [c], ids + [id]) <==> Interns(calls, ids) && Agrees(calls, ids, c, id)
  {
    hide SameServers;
    var more, most := calls + [c], ids + [id];
    if Interns(more, most) {
      forall i, j | 0 <= i < j < |calls|
        ensures ids[i] == ids[j] <==> SameServers(calls[i].servers, calls[j].servers)
      {
        assert more[i] == calls[i] && more[j] == calls[j] && most[i] == ids[i] && most[j] == ids[j];
      }
      forall i | 0 <= i < |calls|
        ensures ids[i] == id <==> SameServers(calls[i].servers, c.servers)
      {
        assert more[i] == calls[i] && more[|calls|] == c && most[i] == ids[i] && most[|calls|] == id;
      }
    }
  }

  lemma ApartAppend(calls: seq<Call>, c: Call)
    ensures Apart(calls + [c]) <==> Apart(calls) && NoneConfused(calls, c)
  {
    hide NotConfused;
    var more := calls + [c];
    if Apart(more) {
      forall i, j | 0 <= i < j < |calls|
        ensures NotConfused(calls[i].servers, calls[j].servers)
      {
        assert more[i] == calls[i] && more[j] == calls[j];
      }
      forall i | 0 <= i < |calls|
        ensures NotConfused(calls[i].servers, c.servers)
      {
        assert more[i] == calls[i] && more[|calls|] == c;
      }
    }
  }

  /** Plain lists are interned by every run: permuted lists share an ID, different servers never do. */
  lemma PlainListsAreInterned(calls: seq<Call>, i: nat, j: nat)
    requires CanRun(calls) && i < |calls| && j < |calls| && forall c :: c in calls ==> Plain(c.servers)
    ensures Run(calls).1[i] == Run(calls).1[j] <==> SameServers(calls[i].servers, calls[j].servers)
  {
    PlainIsQuoteFree(calls);
    InternsIffApart(calls);
    hide *;
    InternsAt(calls, Run(calls).1, i, j);
  }

  lemma PlainIsQuoteFree(calls: seq<Call>)
    requires forall c :: c in calls ==> Plain(c.servers)
    ensures QuoteFree(calls) && Apart(calls)
  {
    assert !IsPlain('\'');
    hide IsPlain, SameServers, Clean;
  }

  lemma InternsAt(calls: seq<Call>, ids: seq<nat>, i: nat, j: nat)
    requires |ids| == |calls| && Interns(calls, ids) && i < |calls| && j < |calls|
    ensures ids[i] == ids[j] <==> SameServers(calls[i].servers, calls[j].servers)
  {
  }

  lemma {:induction false} FoundIdIs(rows: seq<Row>, id: nat)
    ensures FindId(rows, id).Some? <==> exists r :: r in rows && r.id == id
    ensures FindId(rows, id).Some? ==> Row(id, FindId(rows, id).value) in rows
  {
    if rows != [] {
      assert rows == [rows[0]] + rows[1..];
      FoundIdIs(rows[1..], id);
    }
  }

  /** After such a run the IDs handed out, and no others, are in the table, each with what its call stored:
      its own clean form exactly for a plain list, and then that is its canonical text. */
  lemma IdsLookUp(calls: seq<Call>, k: nat)
    requires CanRun(calls) && QuoteFree(calls) && Apart(calls) && k < |calls|
    ensures forall id :: FindId(Run(calls).0, id).Some? <==> id in Run(calls).1
    ensures var found, s := FindId(Run(calls).0, Run(calls).1[k]), calls[k].servers;
            && found == Some(Clean(Clean(s)))
            && (found == Some(Clean(s)) <==> Plain(s))
            && (Plain(s) ==> found == Some(Canonical(s)))
  {
    var (rows, ids) := Run(calls);
    InternsIffApart(calls);
    CleanForms(calls[k].servers, calls[k].servers);
    CleanIsCanonicalIff(calls[k].servers);
    forall id ensures FindId(rows, id).Some? <==> id in ids { RowsOfCalls(rows, calls, ids, id); }
    RowsOfCalls(rows, calls, ids, ids[k]);
    assert Row(ids[k], FindId(rows, ids[k]).value) in rows by { FoundIdIs(rows, ids[k]); }
    hide Run, CanRun, Apart, Clean, Plain, Canonical, FindId;
    var m :| 0 <= m < |calls| && Row(ids[k], FindId(rows, ids[k]).value) == Row(ids[m], Stored(calls[m]));
    SameIdsAt(calls, ids, k, m);
  }

  lemma RowsOfCalls(rows: seq<Row>, calls: seq<Call>, ids: seq<nat>, id: nat)
    requires |ids| == |calls| && RowsAreCalls(rows, calls, ids)
    ensures FindId(rows, id).Some? <==> id in ids
  {
    FoundIdIs(rows, id);
    hide Stored, FindId;
  }

  // -------------------------------------------------------------- the failing lists

  /** On any table that lacks the clean form, a list asked for twice gets one ID exactly when it is stable. */
  lemma ReinternedIff(rows: seq<Row>, s: string, draws: seq<nat>, more: seq<nat>)
    requires Draws(rows, draws) && forall r :: r in rows ==> r.servers != Clean(s)
    requires Draws(Interned(rows, s, draws).0, more)
    ensures Interned(Interned(rows, s, draws).0, s, more).1 == Interned(rows, s, draws).1 <==> Stable(s)
  {
    var (after, id) := Interned(rows, s, draws);
    CleanIdempotentIff(s);
    InternedIs(rows, s, draws);
    InternedIs(after, s, more);
    assert after == rows + [Row(id, Clean(Clean(s)))];
    hide *;
    assert Row(id, Clean(Clean(s))) in after;
    assert forall r :: r in after ==> r in rows || r == Row(id, Clean(Clean(s)));
  }

  /** A list without single quotes asked for twice gets one ID exactly when it is plain. */
  lemma AskedTwiceIff(s: string, draws: seq<nat>, more: seq<nat>)
    requires '\'' !in s && CanRun([Call(s, draws), Call(s, more)])
    ensures var ids := Run([Call(s, draws), Call(s, more)]).1;
            ids[0] == ids[1] <==> Plain(s)
  {
    var calls := [Call(s, draws), Call(s, more)];
    InternsIffApart(calls);
    CleanForms(s, s);
    TwoInterned(calls[0], calls[1], Run(calls).1);
    assert NotConfused(s, s) <==> Plain(s);
    hide *;
  }

  lemma TwoInterned(a: Call, b: Call, ids: seq<nat>)
    requires |ids| == 2
    ensures Apart([a, b]) <==> NotConfused(a.servers, b.servers)
    ensures Interns([a, b], ids) <==> (ids[0] == ids[1] <==> SameServers(a.servers, b.servers))
  {
    hide NotConfused, SameServers;
    var calls := [a, b];
    assert calls[0] == a && calls[1] == b;
    assert Apart(calls) ==> NotConfused(calls[0].servers, calls[1].servers);
    assert Interns(calls, ids) ==> (ids[0] == ids[1] <==> SameServers(calls[0].servers, calls[1].servers));
  }

  /** A list without single quotes and its clean form share an ID; they name different servers exactly
      when the list is not plain. */
  lemma CollidesIff(s: string, draws: seq<nat>, more: seq<nat>)
    requires '\'' !in s && CanRun([Call(s, draws), Call(Clean(s), more)])
    ensures var ids := Run([Call(s, draws), Call(Clean(s), more)]).1;
            ids[0] == ids[1] && (!SameServers(s, Clean(s)) <==> !Plain(s))
  {
    var (rows, id) := Interned([], s, draws);
    CleanParts(s);
    CleanForms(s, Clean(s));
    TwoCalls(Call(s, draws), Call(Clean(s), more));
    InternedIs([], s, draws);
    InternedIs(rows, Clean(s), more);
    assert rows == [Row(id, Clean(Clean(s)))];
    hide *;
    assert forall r :: r in rows <==> r == Row(id, Clean(Clean(s)));
    assert rows[0].servers == Clean(Clean(s));
  }

  lemma TwoCalls(a: Call, b: Call)
    requires CanRun([a, b])
    ensures Draws([], a.draws) && Draws(Interned([], a.servers, a.draws).0, b.draws)
    ensures Run([a, b]).1 == [Interned([], a.servers, a.draws).1,
                              Interned(Interned([], a.servers, a.draws).0, b.servers, b.draws).1]
  {
    var calls := [a, b];
    assert calls[..1] == [a] && [a][..0] == [];
    hide Interned, Draws;
    OneCall(a);
  }

  lemma OneCall(a: Call)
    requires CanRun([a])
    ensures Draws([], a.draws)
    ensures Run([a]) == (Interned([], a.servers, a.draws).0, [Interned([], a.servers, a.draws).1])
  {
    assert [a][..0] == [];
    assert Run([]) == ([], []);
    assert [] + [Interned([], a.servers, a.draws).1] == [Interned([], a.servers, a.draws).1];
    hide Interned, Draws;
  }

  /** One backslash and two: different servers, one ID. */
  lemma BackslashesCollide()
    ensures var calls := [Call("\\", [7]), Call("\\\\", [7, 8])];
            CanRun(calls) && Run(calls).1[0] == Run(calls).1[1] && !SameServers("\\", "\\\\")
  {
    CleanBackslash();
    BackslashesRun();
    assert !IsPlain('\\') && '\\' in "\\";
    assert !Plain("\\");
    hide *;
    CollidesIff("\\", [7], [7, 8]);
  }

  lemma BackslashesRun()
    ensures CanRun([Call("\\", [7]), Call("\\\\", [7, 8])])
  {
    var a, b := Call("\\", [7]), Call("\\\\", [7, 8]);
    assert [a, b][..1] == [a] && [a][..0] == [];
    assert FindId([], [7][0]).None?;
    assert Draws([], [7]);
    OneCall(a);
    InternedIs([], a.servers, a.draws);
    FirstFreeIsFree([], a.draws);
    var (rows, id) := Interned([], a.servers, a.draws);
    assert rows == [Row(id, Stored(a))] && id == 7;
    assert rows[1..] == [] && FindId(rows, [7, 8][1]).None?;
  }

  lemma CleanBackslash()
    ensures Clean("\\") == "\\\\"
  {
    var s := "\\";
    assert s[1..] == "";
    assert Without(s, ' ') == s;
    assert Split(s, ',') == [s];
    assert Servers(s) == [s];
    StripListBody([s]);
    BareIs(s);
    assert EscapeAll(s, '\'') == "\\\\";
    assert Bares([s]) == [Bare(s)] by { assert [s][1..] == []; }
  }

  lemma BareQuoted()
    ensures Bare("a'") == "\"a\""
  {
    var s := "a'";
    assert EscapeAll(s, '"') == s by { assert s[1..] == "'" && s[1..][1..] == ""; }
    assert Strip("'") == "";
    hide EscapeAll;
    assert Repr(s) == "\"" + s + "\"";
    hide Repr, Strip;
    StripConcat("\"" + s, "\"");
    StripConcat("\"", s);
    StripConcat("a", "'");
    StripRemoves("\"");
    StripRemoves("a");
    assert Strip(s) == "a";
  }

  lemma BareDoublyQuoted()
    ensures Bare("\"a\"") == "\"a\""
  {
    var t := "\"a\"";
    assert EscapeAll(t, '\'') == t by {
      assert t[1..] == "a\"" && t[1..][1..] == "\"" && t[1..][1..][1..] == "";
    }
    assert Strip("'") == "";
    hide EscapeAll;
    assert Repr(t) == "'" + t + "'";
    hide Repr, Strip;
    StripConcat("'" + t, "'");
    StripConcat("'", t);
    StripRemoves(t);
  }

  /** A quoted server and a doubly quoted one: different servers, one clean form. */
  lemma QuotesCollide()
    ensures Clean("a'") == Clean("\"a\"") && !SameServers("a'", "\"a\"")
  {
    var s, t := "a'", "\"a\"";
    assert s != t && s in multiset{s} && s !in multiset{t};
    hide Bare, Clean, Servers;
    OneServer(s);
    OneServer(t);
    BareQuoted();
    BareDoublyQuoted();
  }

  lemma OneServer(s: string)
    requires ' ' !in s && ',' !in s
    ensures Servers(s) == [s] && Clean(s) == Bare(s)
  {
    WithoutRemoves(s, ' ');
    assert Join([s], ',') == s;
    SplitJoin([s], ',');
    assert Sort([s]) == [s];
    StripListBody([s]);
    assert Bares([s]) == [Bare(s)];
  }
}
