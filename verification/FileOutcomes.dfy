/** Where files are after an attempt and after a clean-up pass, told by the texts the archive replies with. */
module FileOutcomes {
  import opened Optional
  import opened Orders
  import opened ArchiveQueue
  import opened FileDisposition

  ghost predicate Mentions(s: string, t: string) {
    exists p, q :: s == p + t + q
  }

  lemma {:induction false} ContainsIff(s: string, t: string)
    ensures Contains(s, t) <==> Mentions(s, t)
  {
    if t <= s {
      assert s == "" + t + s[|t|..];
    } else if Contains(s, t) {
      ContainsIff(s[1..], t);
      var p, q :| s[1..] == p + t + q;
      assert s == [s[0]] + p + t + q;
    } else if Mentions(s, t) {
      var p, q :| s == p + t + q;
      assert p == "" ==> s == t + q;
      assert s[1..] == p[1..] + t + q;
      ContainsIff(s[1..], t);
    }
  }

  // ------------------------------------------------------------------- one attempt

  ghost predicate Unsuccessful(r: Reply) {
    r.failed || r.errorCode != 0 || Mentions(r.status, "FAILURE")
  }

  ghost predicate SaysBad(r: Reply) {
    Mentions(r.message, "NGAMS_ER_DAPI_BAD_FILE") || Mentions(r.message, "NGAMS_ER_UNKNOWN_MIME_TYPE1")
  }

  ghost predicate SaysBuffered(r: Reply) {
    Mentions(r.message, "NGAMS_WA_BUF_DATA")
  }

  /** Nothing else is different. */
  ghost predicate SameBut(s: State, t: State, paths: set<Path>) {
    forall p :: p !in paths ==> (p in t.nodes <==> p in s.nodes) && (p in s.nodes ==> t.nodes[p] == s.nodes[p])
  }

  /** The file was moved from the queue to the directory, and its document saved there; nothing is
      changed when the names are too long or the rename fails. */
  ghost predicate WasMoved(c: Config, s: State, base: string, a: Attempt, dir: Dir, t: State, released: bool)
    requires HasFile(s, Path(Queue, base))
  {
    var name := a.isoTime + "___" + base;
    var p, q, d := Path(Queue, base), Path(dir, name), Path(dir, name + "___STATUS.xml");
    if |if dir == Bad then c.badDir else c.archDir| + 1 + |name + "___STATUS.xml"| < 256 && a.renameOk then
      && IsAt(t, q, s.nodes[p].f) && p !in t.nodes
      && (a.saveOk ==> d in t.nodes && t.nodes[d] == StatusDoc(a.reply.doc))
      && SameBut(s, t, {p, q} + if a.saveOk then {d} else {})
      && t.evidence == s.evidence && released == a.saveOk
    else
      t == s && !released
  }

  /** The file was hidden and then removed, as far as the system lets it. */
  ghost predicate WasRemoved(c: Config, s: State, base: string, a: Attempt, t: State, released: bool)
    requires HasFile(s, Path(Queue, base))
  {
    var p, h := Path(Queue, base), Path(Queue, ".REMOVED_" + base);
    if |c.queueDir| + 1 + |".REMOVED_" + base| < 256 then
      && released && SameBut(s, t, {p, h})
      && (if a.renameOk then p !in t.nodes else IsAt(t, p, s.nodes[p].f))
      && (if a.removeOk then h !in t.nodes else a.renameOk ==> IsAt(t, h, s.nodes[p].f))
      && t.evidence == s.evidence[s.nodes[p].f := Stored(a.reply)]
    else
      t == s && !released
  }

  lemma MovedIs(c: Config, s: State, dir: Dir, base: string, a: Attempt)
    requires HasFile(s, Path(Queue, base)) && dir != Queue
    ensures WasMoved(c, s, base, a, dir, Moved(c, s, dir, base, a).0, Moved(c, s, dir, base, a).1)
  {
    var name := a.isoTime + "___" + base;
    assert |(name + "___STATUS.xml")| == |name| + 13;
  }

  lemma RemovedIs(c: Config, s: State, base: string, a: Attempt)
    requires HasFile(s, Path(Queue, base)) && |c.queueDir| + 1 + |".REMOVED_" + base| < 256
    ensures WasRemoved(c, s, base, a, Removed(s, base, a), true)
  {
    assert |".REMOVED_" + base| == 9 + |base|;
  }

  /** What becomes of the file: without a checksum, and on any other error, nothing; a bad file goes to the
      Bad Files Directory; a buffered one, and a stored one that is kept, to the Archived Files Directory;
      a stored one that is not kept is removed. The entry is released when this could be done. */
  lemma AttemptDisposes(c: Config, s: State, base: string, a: Attempt)
    requires HasFile(s, Path(Queue, base))
    ensures var (t, released) := Attempted(c, s, base, a);
            if !a.checksumOk then t == s && !released
            else if Unsuccessful(a.reply) then
              if SaysBad(a.reply) then WasMoved(c, s, base, a, Bad, t, released)
              else if SaysBuffered(a.reply) then WasMoved(c, s, base, a, Archived, t, released)
              else t == s && released
            else if c.immediateCleanUp then WasRemoved(c, s, base, a, t, released)
            else WasMoved(c, s, base, a, Archived, t, released)
  {
    ContainsIff(a.reply.status, "FAILURE");
    ContainsIff(a.reply.message, "NGAMS_ER_DAPI_BAD_FILE");
    ContainsIff(a.reply.message, "NGAMS_ER_UNKNOWN_MIME_TYPE1");
    ContainsIff(a.reply.message, "NGAMS_WA_BUF_DATA");
    assert Fits(c, HiddenPath(base)) <==> |c.queueDir| + 1 + |".REMOVED_" + base| < 256;
    hide Contains, Mentions, WasMoved, Moved, Fits;
    MovedIs(c, s, Bad, base, a);
    MovedIs(c, s, Archived, base, a);
    if Fits(c, HiddenPath(base)) {
      RemovedIs(c, s, base, a);
    }
    hide Removed;
  }

  // ---------------------------------------------------------------- a clean-up pass

  /** Hidden entries and documents have no turn of their own. */
  ghost predicate HasTurn(name: string) {
    name != "" && name[0] != '.' && !Mentions(name, "___STATUS.xml")
  }

  function DocOf(name: string): Path {
    Path(Archived, name + "___STATUS.xml")
  }

  /** The document can be read and has both attributes, one of which may be empty if there is a message. */
  predicate Readable(s: State, name: string, o: Check) {
    && o.loadOk && DocOf(name) in s.nodes && s.nodes[DocOf(name)].StatusDoc?
    && var d := s.nodes[DocOf(name)].d;
       && d.fileId.Some? && d.fileVersion.Some?
       && (d.fileId.value == "" || d.fileVersion.value == "" ==> d.message.Some?)
  }

  /** The pass gives up at an entry whose name is too long or has no document, and at one that is due but
      whose document is not readable. */
  ghost predicate Halts(c: Config, s: State, name: string, o: Check) {
    && Path(Archived, name) in s.nodes && HasTurn(name)
    && (|c.archDir| + 1 + |name + "___STATUS.xml"| >= 256 || DocOf(name) !in s.nodes || (o.elapsed && !Readable(s, name, o)))
  }

  /** The file is due, its document names it, and the archive says that it has it. */
  ghost predicate Confirmed(s: State, name: string, o: Check) {
    && HasTurn(name) && o.elapsed && Readable(s, name, o)
    && s.nodes[DocOf(name)].d.fileId != Some("") && s.nodes[DocOf(name)].d.fileVersion != Some("")
    && o.sendOk && Mentions(o.message, "NGAMS_INFO_FILE_OK")
  }

  function GoneBy(name: string, o: Check): set<Path> {
    (if o.removeOk then {Path(Archived, name)} else {}) + if o.removeDocOk then {DocOf(name)} else {}
  }

  lemma TurnIs(c: Config, s: State, name: string, o: Check)
    requires Path(Archived, name) in s.nodes
    ensures var (t, on) := Cleaned(c, s, name, o);
            && (on <==> !Halts(c, s, name, o))
            && t.nodes == s.nodes - (if on && Confirmed(s, name, o) then GoneBy(name, o) else {})
  {
    ContainsIff(name, "___STATUS.xml");
    ContainsIff(o.message, "NGAMS_INFO_FILE_OK");
    assert |(name + "___STATUS.xml")| == |name| + 13;
    assert STAT_EXT == "___STATUS.xml";
    hide Contains, Mentions;
  }

  lemma DocHasNoTurn(name: string)
    ensures !HasTurn(name + "___STATUS.xml")
  {
    assert name + "___STATUS.xml" == name + "___STATUS.xml" + "";
  }

  lemma OthersStay(c: Config, s: State, t: State, name: string, o: Check, other: string, check: Check)
    requires HasTurn(name) && name != other && t.nodes == s.nodes - GoneBy(name, o) && HasTurn(other)
    ensures Halts(c, t, other, check) <==> Halts(c, s, other, check)
    ensures Confirmed(t, other, check) <==> Confirmed(s, other, check)
    ensures Path(Archived, other) in t.nodes <==> Path(Archived, other) in s.nodes
  {
    DocHasNoTurn(name);
    DocHasNoTurn(other);
    assert DocOf(name) != DocOf(other) by {
      assert DocOf(name).name[..|name|] == name && DocOf(other).name[..|other|] == other;
    }
    hide HasTurn;
  }

  /** A turn changes nothing for an entry of another name. */
  lemma TurnKeepsOthers(c: Config, s: State, name: string, o: Check, other: string, check: Check)
    requires Path(Archived, name) in s.nodes && name != other
    ensures var t := Cleaned(c, s, name, o).0;
            && (Halts(c, t, other, check) <==> Halts(c, s, other, check))
            && (Confirmed(t, other, check) <==> Confirmed(s, other, check))
            && (HasTurn(other) ==> (Path(Archived, other) in t.nodes <==> Path(Archived, other) in s.nodes))
  {
    var (t, on) := Cleaned(c, s, name, o);
    TurnIs(c, s, name, o);
    assert Confirmed(s, name, o) ==> HasTurn(name);
    assert !HasTurn(other) ==> !Halts(c, t, other, check) && !Halts(c, s, other, check);
    assert !HasTurn(other) ==> !Confirmed(t, other, check) && !Confirmed(s, other, check);
    if !(on && Confirmed(s, name, o)) {
      assert t.nodes == s.nodes;
      SameNodes(c, s, t, other, check);
    } else if HasTurn(other) {
      hide *;
      OthersStay(c, s, t, name, o, other, check);
    }
  }

  lemma SameNodes(c: Config, s: State, t: State, name: string, o: Check)
    requires s.nodes == t.nodes
    ensures Halts(c, t, name, o) <==> Halts(c, s, name, o)
    ensures Confirmed(t, name, o) <==> Confirmed(s, name, o)
  {
  }

  ghost predicate NoneHalts(c: Config, s: State, names: seq<string>, checks: seq<Check>, n: nat)
    requires |names| == |checks| && n <= |names|
  {
    forall i :: 0 <= i < n ==> !Halts(c, s, names[i], checks[i])
  }

  /** What a pass does after its first entry. */
  lemma PassStep(c: Config, s: State, names: seq<string>, checks: seq<Check>)
    requires |names| == |checks| && names != []
    ensures var present := Path(Archived, names[0]) in s.nodes;
            var t := if present then Cleaned(c, s, names[0], checks[0]).0 else s;
            && CleanedAll(c, s, names, checks)
               == (if Halts(c, s, names[0], checks[0]) then (t, false) else CleanedAll(c, t, names[1..], checks[1..]))
            && t.nodes
               == s.nodes - (if present && !Halts(c, s, names[0], checks[0]) && Confirmed(s, names[0], checks[0])
                             then GoneBy(names[0], checks[0]) else {})
            && (forall other, check :: other != names[0] ==>
                  && (Halts(c, t, other, check) <==> Halts(c, s, other, check))
                  && (Confirmed(t, other, check) <==> Confirmed(s, other, check)))
            && forall other :: other != names[0] && HasTurn(other) ==>
                 (Path(Archived, other) in t.nodes <==> Path(Archived, other) in s.nodes)
  {
    if Path(Archived, names[0]) in s.nodes {
      TurnIs(c, s, names[0], checks[0]);
      hide Cleaned, Halts, Confirmed, HasTurn;
      forall other, check | other != names[0]
        ensures var t := Cleaned(c, s, names[0], checks[0]).0;
                && (Halts(c, t, other, check) <==> Halts(c, s, other, check))
                && (Confirmed(t, other, check) <==> Confirmed(s, other, check))
      {
        TurnKeepsOthers(c, s, names[0], checks[0], other, check);
      }
      forall other | other != names[0] && HasTurn(other)
        ensures var t := Cleaned(c, s, names[0], checks[0]).0;
                Path(Archived, other) in t.nodes <==> Path(Archived, other) in s.nodes
      {
        TurnKeepsOthers(c, s, names[0], checks[0], other, checks[0]);
      }
    } else {
      assert !Halts(c, s, names[0], checks[0]);
    }
  }

  lemma {:induction false} PassKeepsOthers(c: Config, s: State, names: seq<string>, checks: seq<Check>, other: string)
    requires |names| == |checks| && HasTurn(other) && other !in names
    ensures Path(Archived, other) in CleanedAll(c, s, names, checks).0.nodes <==> Path(Archived, other) in s.nodes
    decreases |names|
  {
    if names != [] {
      PassStep(c, s, names, checks);
      assert other != names[0] && other !in names[1..];
      hide CleanedAll, Cleaned, Halts, Confirmed, HasTurn;
      var t := if Path(Archived, names[0]) in s.nodes then Cleaned(c, s, names[0], checks[0]).0 else s;
      PassKeepsOthers(c, t, names[1..], checks[1..], other);
    }
  }

  lemma NoneHaltsStep(c: Config, s: State, t: State, names: seq<string>, checks: seq<Check>, n: nat)
    requires |names| == |checks| && 0 < n <= |names| && Distinct(names)
    requires forall other, check :: other != names[0] ==> (Halts(c, t, other, check) <==> Halts(c, s, other, check))
    ensures NoneHalts(c, s, names, checks, n)
       <==> !Halts(c, s, names[0], checks[0]) && NoneHalts(c, t, names[1..], checks[1..], n - 1)
  {
    assert forall i :: 0 <= i < n - 1 ==> names[1..][i] == names[i + 1] && checks[1..][i] == checks[i + 1] && names[i + 1] != names[0];
    if !Halts(c, s, names[0], checks[0]) && NoneHalts(c, t, names[1..], checks[1..], n - 1) {
      forall i | 0 <= i < n
        ensures !Halts(c, s, names[i], checks[i])
      {
        hide Halts;
        if i > 0 { assert !Halts(c, t, names[1..][i - 1], checks[1..][i - 1]); }
      }
    }
    if NoneHalts(c, s, names, checks, n) {
      forall i | 0 <= i < n - 1
        ensures !Halts(c, t, names[1..][i], checks[1..][i])
      {
        hide Halts;
        assert !Halts(c, s, names[i + 1], checks[i + 1]);
      }
    }
  }

  /** A pass comes to its end exactly when none of its entries halts it. */
  lemma {:induction false} PassEndsIff(c: Config, s: State, names: seq<string>, checks: seq<Check>)
    requires |names| == |checks| && Distinct(names)
    ensures CleanedAll(c, s, names, checks).1 <==> NoneHalts(c, s, names, checks, |names|)
    decreases |names|
  {
    if names != [] {
      var t := if Path(Archived, names[0]) in s.nodes then Cleaned(c, s, names[0], checks[0]).0 else s;
      PassStep(c, s, names, checks);
      assert Distinct(names[1..]);
      hide CleanedAll, Cleaned, Halts, Confirmed, HasTurn;
      NoneHaltsStep(c, s, t, names, checks, |names|);
      PassEndsIff(c, t, names[1..], checks[1..]);
    }
  }

  /** Up to the entry that halts it a pass removes just the confirmed files, however many young or
      doubtful ones are among them. */
  lemma {:induction false} PassRemovesConfirmed(c: Config, s: State, names: seq<string>, checks: seq<Check>, k: nat)
    requires |names| == |checks| && Distinct(names) && k < |names| && HasTurn(names[k])
    ensures Path(Archived, names[k]) in CleanedAll(c, s, names, checks).0.nodes <==>
              && Path(Archived, names[k]) in s.nodes
              && !(NoneHalts(c, s, names, checks, k + 1) && Confirmed(s, names[k], checks[k]) && checks[k].removeOk)
    decreases |names|
  {
    var t := if Path(Archived, names[0]) in s.nodes then Cleaned(c, s, names[0], checks[0]).0 else s;
    PassStep(c, s, names, checks);
    NoneHaltsStep(c, s, t, names, checks, k + 1);
    assert NoneHalts(c, t, names[1..], checks[1..], 0);
    assert Distinct(names[1..]) && forall n :: n in names[1..] ==> n != names[0];
    hide CleanedAll, Cleaned, Halts, Confirmed, NoneHalts;
    if k == 0 {
      DocHasNoTurn(names[0]);
      hide HasTurn;
      if !Halts(c, s, names[0], checks[0]) {
        PassKeepsOthers(c, t, names[1..], checks[1..], names[0]);
      }
    } else {
      hide HasTurn;
      assert names[1..][k - 1] == names[k] && checks[1..][k - 1] == checks[k];
      PassRemovesConfirmed(c, t, names[1..], checks[1..], k - 1);
    }
  }
}
