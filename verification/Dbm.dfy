/** A persistent map that keeps its own size under a key of its own, writes through in batches and is
    scanned with a resumable cursor. */
module Dbm {
  import opened Optional
  import opened Orders
  import opened Text

  const COUNTER := "__COUNT__"

  /** A pickled value: the integers matter to the counter, other objects do not. */
  datatype Value<T> = Number(i: int) | Record(r: T)

  type Store<T> = map<string, Value<T>>

  // -------------------------------------------------------------- the counter

  predicate HasCount<T>(db: Store<T>) {
    COUNTER in db && db[COUNTER].Number?
  }

  function Count<T>(db: Store<T>): int
    requires HasCount(db)
  {
    db[COUNTER].i
  }

  function IncrDbCount<T>(db: Store<T>, val: int): Store<T>
    requires HasCount(db)
  {
    db[COUNTER := Number(Count(db) + val)]
  }

  predicate CanAdd<T>(db: Store<T>, key: string) {
    key in db || HasCount(db)
  }

  /** add: unchanged when reading the counter raises. */
  function AfterAdd<T>(db: Store<T>, key: string, v: Value<T>): Store<T> {
    if key in db then db[key := v]
    else if HasCount(db) then IncrDbCount(db, 1)[key := v]
    else db
  }

  predicate CanRemove<T>(db: Store<T>, key: string) {
    key in db && HasCount(db - {key})
  }

  /** rem: an unknown key raises before anything is done, a missing counter after the key is gone. */
  function AfterRem<T>(db: Store<T>, key: string): Store<T> {
    if key !in db then db
    else if HasCount(db - {key}) then IncrDbCount(db - {key}, -1)
    else db - {key}
  }

  /** The stored count is the number of the other keys. */
  ghost predicate Counted<T>(db: Store<T>) {
    HasCount(db) && Count(db) == |db.Keys - {COUNTER}|
  }

  lemma KeysAdd(keys: set<string>, key: string)
    requires key !in keys
    ensures |keys + {key}| == |keys| + 1
  {
  }

  lemma AddKeysAre<T>(db: Store<T>, key: string, v: Value<T>)
    requires HasCount(db)
    ensures AfterAdd(db, key, v).Keys == db.Keys + {key}
    ensures AfterAdd(db, key, v).Keys - {COUNTER} == (db.Keys - {COUNTER}) + ({key} - {COUNTER})
  {
  }

  /** Adding keeps the count right, exactly unless it overwrites the counter with something else. */
  lemma AddKeepsCountIff<T>(db: Store<T>, key: string, v: Value<T>)
    requires Counted(db)
    ensures CanAdd(db, key)
    ensures Counted(AfterAdd(db, key, v)) <==> key != COUNTER || v == db[COUNTER]
  {
    AddKeysAre(db, key, v);
    var keys := db.Keys - {COUNTER};
    if key in db {
      assert keys + ({key} - {COUNTER}) == keys;
    } else {
      KeysAdd(keys, key);
      assert {key} - {COUNTER} == {key};
    }
  }

  /** Removing keeps it right exactly for keys that are not the counter itself; an unknown key changes nothing. */
  lemma RemKeepsCountIff<T>(db: Store<T>, key: string)
    requires Counted(db)
    ensures Counted(AfterRem(db, key)) <==> key != COUNTER
    ensures CanRemove(db, key) <==> key in db && key != COUNTER
    ensures key !in db ==> AfterRem(db, key) == db
  {
    if key in db && key != COUNTER {
      var keys := AfterRem(db, key).Keys - {COUNTER};
      assert db.Keys - {COUNTER} == keys + {key};
      KeysAdd(keys, key);
    }
  }

  // --------------------------------------------------------- generated keys

  function IncKey<T>(db: Store<T>): string
    requires HasCount(db)
  {
    SignedDecimal(Count(db) + 1)
  }

  /** addIncKey: unchanged when reading the counter raises. */
  function AfterAddIncKey<T>(db: Store<T>, v: Value<T>): Store<T> {
    if HasCount(db) then AfterAdd(db, IncKey(db), v) else db
  }

  lemma IncKeyIsNotCounter(n: int)
    ensures SignedDecimal(n) != COUNTER
  {
    if n >= 0 {
      DecimalRoundTrip(n);
      assert SignedDecimal(n)[0] in SignedDecimal(n) && IsDigit(SignedDecimal(n)[0]);
    } else {
      assert SignedDecimal(n)[0] == '-';
    }
  }

  function FreshStore<T>(): Store<T> {
    map[COUNTER := Number(0)]
  }

  /** A fresh store filled by addIncKey alone. */
  function Filled<T>(vs: seq<Value<T>>): Store<T> {
    if vs == [] then FreshStore() else AfterAddIncKey(Filled(vs[..|vs| - 1]), vs[|vs| - 1])
  }

  /** The keys are "1", "2" and so on. */
  function NthKey(i: nat): string {
    Decimal(i + 1)
  }

  ghost predicate IsNthKey(k: string, n: nat) {
    exists i: nat :: i < n && k == NthKey(i)
  }

  /** The keys are "1" to "n", each with its object. */
  ghost predicate IsFilled<T>(db: Store<T>, vs: seq<Value<T>>) {
    && (forall i: nat :: i < |vs| ==> NthKey(i) in db && db[NthKey(i)] == vs[i])
    && (forall k :: k in db && k != COUNTER ==> IsNthKey(k, |vs|))
  }

  /** A store filled by addIncKey, with its count. */
  ghost predicate WellFilled<T>(db: Store<T>, vs: seq<Value<T>>) {
    IsFilled(db, vs) && Counted(db) && Count(db) == |vs|
  }

  /** addIncKey alone never overwrites: the n-th object gets the key of its number. */
  lemma {:induction false} NextKeyIsNew<T>(vs: seq<Value<T>>)
    ensures WellFilled(Filled(vs), vs)
    ensures HasCount(Filled(vs)) && IncKey(Filled(vs)) == NthKey(|vs|) && IncKey(Filled(vs)) !in Filled(vs)
  {
    hide *;
    if vs == [] {
      FreshIsFilled<T>();
    } else {
      NextKeyIsNew(vs[..|vs| - 1]);
      FilledIs(vs);
      FilledGrows(Filled(vs[..|vs| - 1]), vs[..|vs| - 1], vs[|vs| - 1]);
      assert vs[..|vs| - 1] + [vs[|vs| - 1]] == vs;
    }
    KeyIsNew(Filled(vs), vs);
  }

  lemma FreshIsFilled<T>()
    ensures WellFilled<T>(Filled([]), [])
  {
    assert Filled<T>([]).Keys - {COUNTER} == {};
  }

  lemma FilledGrows<T>(db: Store<T>, vs: seq<Value<T>>, v: Value<T>)
    requires WellFilled(db, vs) && HasCount(db) && IncKey(db) == NthKey(|vs|) && IncKey(db) !in db
    ensures WellFilled(AfterAddIncKey(db, v), vs + [v])
  {
    IncKeyIsNotCounter(|vs| + 1);
    hide IsFilled, Decimal;
    AddKeepsCountIff(db, NthKey(|vs|), v);
    FilledStep(db, vs, v);
    NewKeyCounts(db, NthKey(|vs|), v);
    hide NthKey, AfterAdd, Counted;
  }

  lemma FilledIs<T>(vs: seq<Value<T>>)
    requires vs != []
    ensures Filled(vs) == AfterAddIncKey(Filled(vs[..|vs| - 1]), vs[|vs| - 1])
  {
  }

  lemma NewKeyCounts<T>(db: Store<T>, key: string, v: Value<T>)
    requires HasCount(db) && key !in db && key != COUNTER
    ensures HasCount(AfterAdd(db, key, v)) && Count(AfterAdd(db, key, v)) == Count(db) + 1
  {
  }

  lemma KeyIsNew<T>(db: Store<T>, vs: seq<Value<T>>)
    requires WellFilled(db, vs)
    ensures HasCount(db) && IncKey(db) == NthKey(|vs|) && IncKey(db) !in db
  {
    IncKeyIsNotCounter(|vs| + 1);
    if IncKey(db) in db {
      assert IsNthKey(IncKey(db), |vs|);
      var i: nat :| i < |vs| && IncKey(db) == NthKey(i);
      DecimalInjective(i + 1, |vs| + 1);
    }
  }

  lemma FilledStep<T>(db: Store<T>, vs: seq<Value<T>>, v: Value<T>)
    requires IsFilled(db, vs) && HasCount(db) && NthKey(|vs|) !in db && NthKey(|vs|) != COUNTER
    ensures IsFilled(AfterAdd(db, NthKey(|vs|), v), vs + [v])
  {
    var t := AfterAdd(db, NthKey(|vs|), v);
    forall i: nat | i < |vs| + 1
      ensures NthKey(i) in t && t[NthKey(i)] == (vs + [v])[i]
    {
      IncKeyIsNotCounter(i + 1);
    }
    hide Decimal, AfterAdd;
    forall k | k in t && k != COUNTER
      ensures IsNthKey(k, |vs + [v]|)
    {
      if k in db {
        assert IsNthKey(k, |vs|);
        var i: nat :| i < |vs| && k == NthKey(i);
        assert i < |vs + [v]|;
      } else {
        assert k == NthKey(|vs|) by { OneNewKey(db, NthKey(|vs|), v, k); }
      }
    }
  }

  lemma OneNewKey<T>(db: Store<T>, key: string, v: Value<T>, k: string)
    requires HasCount(db) && k in AfterAdd(db, key, v) && k !in db
    ensures k == key
  {
  }

  /** No addIncKey of the sequence meets a key that is there already. */
  ghost predicate NeverOverwrites<T(!new)>(db: Store<T>, vs: seq<Value<T>>)
    requires HasCount(db)
    decreases |vs|
  {
    vs != [] ==>
      && IncKey(db) !in db
      && HasCount(AfterAddIncKey(db, vs[0]))
      && NeverOverwrites(AfterAddIncKey(db, vs[0]), vs[1..])
  }

  /** No generated key beyond the count is there. */
  ghost predicate ClearAhead<T>(db: Store<T>)
    requires HasCount(db)
  {
    forall i: nat :: i >= Count(db) ==> NthKey(i) !in db
  }

  lemma CountIsNat<T>(db: Store<T>)
    requires Counted(db)
    ensures HasCount(db) && Count(db) >= 0 && IncKey(db) == NthKey(Count(db)) && IncKey(db) != COUNTER
  {
    IncKeyIsNotCounter(Count(db) + 1);
  }

  /** An addIncKey that does not overwrite adds its key and one to the count. */
  lemma AddIncKeyAdds<T>(db: Store<T>, v: Value<T>)
    requires Counted(db) && IncKey(db) !in db
    ensures var t := AfterAddIncKey(db, v);
            && Counted(t) && HasCount(t) && Count(t) == Count(db) + 1
            && forall k :: k in t <==> k in db || k == IncKey(db)
  {
    CountIsNat(db);
    AddKeepsCountIff(db, IncKey(db), v);
    NewKeyCounts(db, IncKey(db), v);
  }

  lemma {:induction false} ClearNeverOverwrites<T(!new)>(db: Store<T>, vs: seq<Value<T>>)
    requires Counted(db) && ClearAhead(db)
    ensures NeverOverwrites(db, vs)
    decreases |vs|
  {
    if vs != [] {
      CountIsNat(db);
      assert NthKey(Count(db)) !in db;
      AddIncKeyAdds(db, vs[0]);
      var t := AfterAddIncKey(db, vs[0]);
      forall i: nat | i >= Count(t)
        ensures NthKey(i) !in t
      {
        if NthKey(i) == NthKey(Count(db)) { DecimalInjective(i + 1, Count(db) + 1); }
      }
      ClearNeverOverwrites(t, vs[1..]);
    }
  }

  /** A generated key i beyond the count is met after i minus count additions at the latest. */
  lemma {:induction false} KeyAheadIsMet<T(!new)>(db: Store<T>, i: nat, v: Value<T>)
    requires Counted(db) && i >= Count(db) && NthKey(i) in db
    ensures !NeverOverwrites(db, seq(i - Count(db) + 1, _ => v))
    decreases i - Count(db)
  {
    var vs := seq(i - Count(db) + 1, _ => v);
    CountIsNat(db);
    if IncKey(db) !in db {
      assert i > Count(db);
      AddIncKeyAdds(db, v);
      KeyAheadIsMet(AfterAddIncKey(db, v), i, v);
      assert vs[1..] == seq(i - Count(db), _ => v);
    }
  }

  /** However often it is called, addIncKey never overwrites, exactly when no generated key beyond the
      count is there. */
  lemma NeverOverwritesIff<T(!new)>(db: Store<T>, v: Value<T>)
    requires Counted(db)
    ensures (forall vs :: NeverOverwrites(db, vs)) <==> ClearAhead(db)
  {
    hide NeverOverwrites, NthKey;
    if ClearAhead(db) {
      forall vs ensures NeverOverwrites(db, vs) { ClearNeverOverwrites(db, vs); }
    } else {
      var i: nat :| i >= Count(db) && NthKey(i) in db;
      KeyAheadIsMet(db, i, v);
    }
  }

  /** With generated keys only, that is when they are exactly "1" to the count. */
  lemma {:induction false} ClearAheadIff<T>(db: Store<T>, m: nat)
    requires Counted(db) && forall k :: k in db && k != COUNTER ==> IsNthKey(k, m)
    ensures ClearAhead(db) <==> forall i: nat :: NthKey(i) in db <==> i < Count(db)
  {
    CountIsNat(db);
    if ClearAhead(db) {
      var n := Count(db);
      var keys := db.Keys - {COUNTER};
      forall k | k in keys ensures k in FirstKeys(n) {
        assert IsNthKey(k, m);
        var i: nat :| i < m && k == NthKey(i);
        assert i < n;
        FirstKeysAre(n, i);
      }
      FirstKeysCount(n);
      SubsetOfSameSize(keys, FirstKeys(n));
      forall i: nat ensures NthKey(i) in db <==> i < n {
        FirstKeysAre(n, i);
        IncKeyIsNotCounter(i + 1);
        assert NthKey(i) in keys <==> NthKey(i) in db;
      }
    }
  }

  function FirstKeys(n: nat): set<string> {
    if n == 0 then {} else FirstKeys(n - 1) + {NthKey(n - 1)}
  }

  lemma {:induction false} FirstKeysAre(n: nat, i: nat)
    ensures NthKey(i) in FirstKeys(n) <==> i < n
  {
    if n > 0 {
      FirstKeysAre(n - 1, i);
      if NthKey(i) == NthKey(n - 1) { DecimalInjective(i + 1, n); }
    }
  }

  lemma {:induction false} FirstKeysCount(n: nat)
    ensures |FirstKeys(n)| == n
  {
    if n > 0 {
      FirstKeysCount(n - 1);
      FirstKeysAre(n - 1, n - 1);
    }
  }

  lemma SubsetOfSameSize(a: set<string>, b: set<string>)
    requires a <= b && |a| == |b|
    ensures a == b
  {
    assert b == a + (b - a);
    assert |b - a| == 0;
  }

  lemma NthKeysDiffer(i: nat, j: nat)
    ensures NthKey(i) == NthKey(j) <==> i == j
  {
    if NthKey(i) == NthKey(j) { DecimalInjective(i + 1, j + 1); }
  }

  lemma FilledKeys<T>(db: Store<T>, vs: seq<Value<T>>, j: nat)
    requires IsFilled(db, vs)
    ensures NthKey(j) in db <==> j < |vs|
  {
    IncKeyIsNotCounter(j + 1);
    if NthKey(j) in db {
      assert IsNthKey(NthKey(j), |vs|);
      var k: nat :| k < |vs| && NthKey(j) == NthKey(k);
      NthKeysDiffer(j, k);
    }
  }

  lemma RemovedAheadIff<T>(full: Store<T>, vs: seq<Value<T>>, i: nat, db: Store<T>)
    requires IsFilled(full, vs) && i < |vs| && HasCount(db) && Count(db) == |vs| - 1
    requires forall k :: k != COUNTER ==> (k in db <==> k in full && k != NthKey(i))
    ensures ClearAhead(db) <==> i == |vs| - 1
  {
    forall j: nat | j >= Count(db)
      ensures NthKey(j) in db <==> j == |vs| - 1 && j != i
    {
      FilledKeys(full, vs, j);
      NthKeysDiffer(i, j);
      IncKeyIsNotCounter(j + 1);
      hide IsFilled;
    }
    hide IsFilled, NthKey;
    if ClearAhead(db) {
      assert NthKey(|vs| - 1) !in db;
    }
  }

  /** Of a store filled by addIncKey only the last key may be removed: removing another leads to
      overwriting. */
  lemma RemovalOverwritesIff<T(!new)>(vs: seq<Value<T>>, i: nat, v: Value<T>)
    requires i < |vs|
    ensures var db := AfterRem(Filled(vs), NthKey(i));
            && Counted(db) && HasCount(db)
            && ((forall more :: NeverOverwrites(db, more)) <==> i == |vs| - 1)
  {
    var full := Filled(vs);
    var db := AfterRem(full, NthKey(i));
    NextKeyIsNew(vs);
    assert IsFilled(full, vs) && Counted(full) && HasCount(full) && Count(full) == |vs|;
    IncKeyIsNotCounter(i + 1);
    RemKeepsCountIff(full, NthKey(i));
    RemCounts(full, NthKey(i));
    FilledKeys(full, vs, i);
    hide *;
    NeverOverwritesIff(db, v);
    RemovedAheadIff(full, vs, i, db);
  }

  lemma RemCounts<T>(db: Store<T>, key: string)
    requires HasCount(db) && key in db && key != COUNTER
    ensures HasCount(AfterRem(db, key)) && Count(AfterRem(db, key)) == Count(db) - 1
    ensures forall k :: k != COUNTER ==> (k in AfterRem(db, key) <==> k in db && k != key)
  {
  }

  lemma TwoIs()
    ensures SignedDecimal(2) == "2"
  {
  }

  lemma RemovalLeadsToOverwriting()
    ensures var db := AfterRem(Filled([Record(true), Record(false)]), "1");
            Counted(db) && IncKey(db) in db
  {
    var vs := [Record(true), Record(false)];
    NextKeyIsNew(vs);
    var db := Filled(vs);
    assert NthKey(0) == "1" && NthKey(1) == "2";
    TwoIs();
    hide Filled, Decimal, NthKey, SignedDecimal;
    assert "1" in db && "2" in db;
    RemKeepsCountIff(db, "1");
    RemCounts(db, "1");
    hide AfterRem, IsFilled, Counted;
  }

  // ------------------------------------------------------------ batched writing

  datatype Change<T> = Put(key: string, v: Value<T>) | Delete(key: string)

  function Applied<T>(db: Store<T>, c: Change<T>): Store<T> {
    if c.Put? then AfterAdd(db, c.key, c.v) else AfterRem(db, c.key)
  }

  function Replay<T>(db: Store<T>, log: seq<Change<T>>): Store<T> {
    if log == [] then db else Applied(Replay(db, log[..|log| - 1]), log[|log| - 1])
  }

  function Puts<T>(log: seq<Change<T>>): nat {
    if log == [] then 0 else Puts(log[..|log| - 1]) + if log[|log| - 1].Put? then 1 else 0
  }

  lemma PutsOfNothing<T>()
    ensures Puts<T>([]) == 0 && forall db: Store<T> :: Replay(db, []) == db
  {
  }

  lemma ReplayAppend<T>(db: Store<T>, log: seq<Change<T>>, c: Change<T>)
    ensures Replay(db, log + [c]) == Applied(Replay(db, log), c)
    ensures Puts(log + [c]) == Puts(log) + if c.Put? then 1 else 0
  {
    assert (log + [c])[..|log|] == log;
  }

  // -------------------------------------------------------------------- scanning

  predicate Internal(key: string) {
    "__" <= key
  }

  /** The order in which the hash file yields its keys. */
  ghost predicate IsOrder<T>(order: seq<string>, db: Store<T>) {
    Distinct(order) && Elements(order) == db.Keys
  }

  /** The keys that are not internal. */
  function Shown(order: seq<string>): seq<string> {
    if order == [] then [] else (if Internal(order[0]) then [] else [order[0]]) + Shown(order[1..])
  }

  /** What a loop over getNext() sees: it ends early at an empty key, which reads as the end. */
  function Scanned(order: seq<string>): seq<string> {
    if order == [] then []
    else if Internal(order[0]) then Scanned(order[1..])
    else if order[0] == "" then []
    else [order[0]] + Scanned(order[1..])
  }

  function NextShown(order: seq<string>, i: nat): (j: nat)
    requires i <= |order|
    ensures i <= j <= |order|
    ensures j < |order| ==> !Internal(order[j])
    ensures forall k :: i <= k < j ==> Internal(order[k])
    decreases |order| - i
  {
    if i == |order| || !Internal(order[i]) then i else NextShown(order, i + 1)
  }

  class Dbm<T> {
    var db: Store<T>          // what the process sees
    var disk: Store<T>        // what the last synchronisation wrote
    const autoSync: int
    var changeCount: nat
    var keyPtr: Option<string>
    var cursor: nat
    ghost var log: seq<Change<T>>

    /** Replaying the logged changes on the disk gives the store; few of them are additions. */
    ghost predicate Valid()
      reads this
    {
      && db == Replay(disk, log)
      && Puts(log) <= changeCount
      && (Puts(log) == 0 || Puts(log) < autoSync)
    }

    /** A new file. */
    constructor (autoSync: int)
      ensures Valid() && db == FreshStore() && disk == db && this.autoSync == autoSync
      ensures db == map["__COUNT__" := Number(0)]
    {
      db := FreshStore();
      disk := FreshStore();
      this.autoSync := autoSync;
      changeCount := 0;
      keyPtr := None;
      cursor := 0;
      log := [];
    }

    method Sync()
      requires Valid()
      modifies this
      ensures Valid() && disk == db == old(db) && log == []
      ensures changeCount == old(changeCount) && keyPtr == old(keyPtr) && cursor == old(cursor)
    {
      disk := db;
      log := [];
    }

    /** Only an automatic synchronisation restarts the count of changes. */
    method Add(key: string, v: Value<T>, sync: bool) returns (ok: bool)
      requires Valid()
      modifies this
      ensures Valid() && db == AfterAdd(old(db), key, v) && ok == CanAdd(old(db), key)
      ensures keyPtr == old(keyPtr) && cursor == old(cursor)
      ensures ok && sync ==> disk == db
      ensures ok && !sync && autoSync <= old(changeCount) + 1 ==> disk == db && changeCount == 0
      ensures ok && (sync || old(changeCount) + 1 < autoSync) ==> changeCount == old(changeCount) + 1
      ensures !ok || (!sync && old(changeCount) + 1 < autoSync) ==> disk == old(disk)
    {
      if key !in db {
        if !HasCount(db) { return false; }
        db := IncrDbCount(db, 1);
      }
      db := db[key := v];
      changeCount := changeCount + 1;
      ReplayAppend(disk, log, Put(key, v));
      PutsOfNothing<T>();
      hide Replay, Puts;
      log := log + [Put(key, v)];
      if sync {
        disk, log := db, [];
      } else if changeCount >= autoSync {
        disk, log := db, [];
        changeCount := 0;
      }
      return true;
    }

    method AddIncKey(v: Value<T>, sync: bool) returns (ok: bool)
      requires Valid()
      modifies this
      ensures Valid() && db == AfterAddIncKey(old(db), v) && ok == HasCount(old(db))
      ensures keyPtr == old(keyPtr) && cursor == old(cursor)
      ensures ok && (sync || autoSync <= old(changeCount) + 1) ==> disk == db
    {
      if !HasCount(db) { return false; }
      ok := Add(SignedDecimal(Count(db) + 1), v, sync);
    }

    method Rem(key: string) returns (ok: bool)
      requires Valid()
      modifies this
      ensures Valid() && db == AfterRem(old(db), key) && ok == CanRemove(old(db), key)
      ensures disk == old(disk) && changeCount == old(changeCount)
    {
      ReplayAppend(disk, log, Delete(key));
      hide Replay, Puts;
      log := log + [Delete(key)];
      if key !in db { return false; }
      db := db - {key};
      if !HasCount(db) { return false; }
      db := IncrDbCount(db, -1);
      return true;
    }

    /** keys(): internal ones are deleted from the list, from its end to its start. */
    method Keys(order: seq<string>) returns (keyList: seq<string>)
      requires IsOrder(order, db)
      ensures keyList == Shown(order)
    {
      keyList := order;
      var idx := |order|;
      assert order[|order|..] == [] && Shown([]) == [];
      while idx > 0
        invariant 0 <= idx <= |order| && keyList == order[..idx] + Shown(order[idx..])
      {
        idx := idx - 1;
        assert order[idx..][1..] == order[idx + 1..] && order[idx..][0] == order[idx];
        if Internal(keyList[idx]) {
          keyList := keyList[..idx] + keyList[idx + 1..];
        }
      }
      assert order[0..] == order;
    }

    method InitKeyPtr()
      modifies this`keyPtr
      ensures keyPtr == None
    {
      keyPtr := None;
    }

    /** Where the cursor stands, None before the first key. */
    function Position(): Option<nat>
      reads this
    {
      if keyPtr.Some? && keyPtr.value != "" then Some(cursor) else None
    }

    /** The next key that is not internal, with its object; None at the end, and at an empty key. */
    method GetNext(order: seq<string>) returns (entry: Option<(string, Value<T>)>)
      requires IsOrder(order, db)
      requires keyPtr.Some? ==> cursor < |order| && order[cursor] == keyPtr.value
      modifies this`keyPtr, this`cursor
      ensures keyPtr.Some? ==> cursor < |order| && order[cursor] == keyPtr.value
      ensures var i := NextShown(order, if old(Position()).Some? then old(cursor) + 1 else 0);
              && (i == |order| ==> keyPtr == None && entry == None)
              && (i < |order| ==>
                && keyPtr == Some(order[i]) && cursor == i
                && order[i] in db && entry == (if order[i] == "" then None else Some((order[i], db[order[i]]))))
    {
      ghost var start := if Position().Some? then cursor + 1 else 0;
      if keyPtr.Some? && keyPtr.value != "" {
        cursor := cursor + 1;
        while cursor < |order| && Internal(order[cursor])
          invariant start <= cursor <= |order| && NextShown(order, cursor) == NextShown(order, start)
        {
          cursor := cursor + 1;
        }
      } else {
        cursor := 0;
        while cursor < |order| && Internal(order[cursor])
          invariant cursor <= |order| && NextShown(order, cursor) == NextShown(order, 0)
        {
          cursor := cursor + 1;
        }
      }
      if cursor == |order| {
        keyPtr := None;
        return None;
      }
      keyPtr := Some(order[cursor]);
      if order[cursor] == "" { return None; }
      InElements(order[cursor], order);
      return Some((order[cursor], db[order[cursor]]));
    }

    /** The loop over getNext() by which callers read a whole DBM. */
    method Scan(order: seq<string>) returns (keys: seq<string>)
      requires IsOrder(order, db)
      modifies this`keyPtr, this`cursor
      ensures keys == Scanned(order)
    {
      hide IsOrder, Internal, Scanned, NextShown, StandsAt;
      InitKeyPtr();
      keys := [];
      ghost var start := 0;
      assert order[0..] == order && keys + Scanned(order) == Scanned(order);
      var entry := GetNext(order);
      StandsAfter(order, 0, Key(entry), keyPtr, cursor);
      while entry.Some?
        invariant keyPtr.Some? ==> cursor < |order| && order[cursor] == keyPtr.value
        invariant start <= |order| && Scanned(order) == keys + Scanned(order[start..])
        invariant StandsAt(order, start, Key(entry), keyPtr, cursor)
        decreases |order| - start, entry.Some?
      {
        MoveOn(order, start, entry.value.0, keyPtr, cursor, keys);
        keys := keys + [entry.value.0];
        start := cursor + 1;
        entry := GetNext(order);
        StandsAfter(order, start, Key(entry), keyPtr, cursor);
      }
      NothingLeft(order, start, keyPtr, cursor, keys);
    }
  }

  function Key<T>(entry: Option<(string, Value<T>)>): Option<string> {
    if entry.Some? then Some(entry.value.0) else None
  }

  /** How far a scan is that has returned the keys before start, and then this one. */
  ghost predicate StandsAt(order: seq<string>, start: nat, key: Option<string>, keyPtr: Option<string>, cursor: nat)
    requires start <= |order|
  {
    if key.None? then Scanned(order[start..]) == []
    else
      && key.value != "" && keyPtr == key && start <= cursor < |order|
      && Scanned(order[start..]) == [key.value] + Scanned(order[cursor + 1..])
  }

  lemma StandsAfter(order: seq<string>, start: nat, key: Option<string>, keyPtr: Option<string>, cursor: nat)
    requires start <= |order|
    requires var i := NextShown(order, start);
             && (i == |order| ==> key == None)
             && (i < |order| ==> keyPtr == Some(order[i]) && cursor == i && key == if order[i] == "" then None else Some(order[i]))
    ensures StandsAt(order, start, key, keyPtr, cursor)
  {
    ScannedStep(order, start);
    hide Scanned;
  }

  lemma MoveOn(order: seq<string>, start: nat, key: string, keyPtr: Option<string>, cursor: nat, keys: seq<string>)
    requires start <= |order| && StandsAt(order, start, Some(key), keyPtr, cursor)
    ensures start <= cursor < |order| && keyPtr == Some(key) && key != ""
    ensures keys + Scanned(order[start..]) == keys + [key] + Scanned(order[cursor + 1..])
  {
    hide Scanned;
    Associative(keys, [key], Scanned(order[cursor + 1..]));
  }

  lemma NothingLeft(order: seq<string>, start: nat, keyPtr: Option<string>, cursor: nat, keys: seq<string>)
    requires start <= |order| && StandsAt(order, start, None, keyPtr, cursor)
    ensures keys + Scanned(order[start..]) == keys
  {
    hide Scanned;
  }

  lemma {:induction false} ScannedStep(order: seq<string>, i: nat)
    requires i <= |order|
    ensures var j := NextShown(order, i);
            Scanned(order[i..]) == if j == |order| || order[j] == "" then [] else [order[j]] + Scanned(order[j + 1..])
    decreases |order| - i
  {
    if i < |order| {
      assert order[i..][0] == order[i] && order[i..][1..] == order[i + 1..];
      if Internal(order[i]) {
        ScannedStep(order, i + 1);
      }
    }
  }

  /** A scan sees every key that is not internal, once each, exactly when none of them is empty. */
  lemma {:induction false} ScanIsCompleteIff(order: seq<string>)
    ensures Scanned(order) == Shown(order) <==> "" !in order
  {
    if order != [] {
      assert order == [order[0]] + order[1..];
      ScanIsCompleteIff(order[1..]);
      if !Internal(order[0]) && order[0] != "" {
        assert ([order[0]] + Scanned(order[1..]))[1..] == Scanned(order[1..]);
        assert ([order[0]] + Shown(order[1..]))[1..] == Shown(order[1..]);
      }
    }
  }

  lemma {:induction false} ShownOnce(order: seq<string>)
    requires Distinct(order)
    ensures Distinct(Shown(order))
    ensures forall k :: k in Shown(order) <==> k in order && !(|k| >= 2 && k[0] == '_' && k[1] == '_')
    ensures "__COUNT__" !in Shown(order)
  {
    if order != [] {
      assert order == [order[0]] + order[1..];
      ShownOnce(order[1..]);
    }
  }
}
