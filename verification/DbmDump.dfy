/** Dumping the rows of the files of a cluster into a DBM, with a counter for each file. */
module DbmDump {
  import opened Optional
  import opened Text
  import opened Dbm

  datatype FileRow<T> = FileRow(fileId: string, version: int, info: T)

  // ----------------------------------------------------------------------- keys

  /** ngamsLib.genFileKey() without a disk. */
  function FileKey(fileId: string, version: int): string {
    fileId + "_" + SignedDecimal(version)
  }

  function CountKey(fileKey: string): string {
    fileKey + "__COUNTER"
  }

  lemma {:induction false} NoUnderscore(version: int)
    ensures SignedDecimal(version) != "" && '_' !in SignedDecimal(version)
    ensures IsDigit(SignedDecimal(version)[|SignedDecimal(version)| - 1])
  {
    DecimalRoundTrip(if version < 0 then -version else version);
  }

  lemma SignedDecimalInjective(v: int, w: int)
    requires SignedDecimal(v) == SignedDecimal(w)
    ensures v == w
  {
    var a, b := if v < 0 then -v else v, if w < 0 then -w else w;
    DecimalRoundTrip(a);
    DecimalRoundTrip(b);
    assert Decimal(a)[0] in Decimal(a) && Decimal(b)[0] in Decimal(b);
    hide Decimal;
    assert SignedDecimal(v)[0] == '-' <==> v < 0;
    assert SignedDecimal(w)[0] == '-' <==> w < 0;
    if v < 0 {
      assert SignedDecimal(v)[1..] == Decimal(a) && SignedDecimal(w)[1..] == Decimal(b);
    }
    DecimalInjective(a, b);
  }

  lemma UnderscoreInside(a: string, p: string, b: string, q: string)
    requires a + "_" + p == b + "_" + q && |a| < |b|
    ensures '_' in p
  {
    var u := a + "_" + p;
    assert u[|b|] == '_' && u[|b|] == p[|b| - |a| - 1];
  }

  /** The last underscore of a key separates the parts. */
  lemma FileKeyInjective(a: string, v: int, b: string, w: int)
    requires FileKey(a, v) == FileKey(b, w)
    ensures a == b && v == w
  {
    var p, q, u := SignedDecimal(v), SignedDecimal(w), FileKey(a, v);
    NoUnderscore(v);
    NoUnderscore(w);
    if |a| < |b| {
      UnderscoreInside(a, p, b, q);
    } else if |b| < |a| {
      UnderscoreInside(b, q, a, p);
    }
    assert u[..|a|] == a && u[..|b|] == b && u[|a| + 1..] == p && u[|b| + 1..] == q;
    SignedDecimalInjective(v, w);
  }

  lemma FileKeyEnds(a: string, v: int)
    ensures var k := FileKey(a, v); k != "" && IsDigit(k[|k| - 1])
  {
    NoUnderscore(v);
    var k := FileKey(a, v);
    assert k[|k| - 1] == SignedDecimal(v)[|SignedDecimal(v)| - 1];
  }

  lemma CountKeyEnds(k: string)
    ensures CountKey(k) != "" && CountKey(k)[|CountKey(k)| - 1] == 'R' && CountKey(k)[..|k|] == k
    ensures CountKey(k) != COUNTER
  {
    assert COUNTER[|COUNTER| - 1] == '_';
  }

  /** Keys of files, keys of counters and the key of the count are never confused. */
  lemma KeysApart(a: string, v: int, k: string)
    ensures FileKey(a, v) != CountKey(k) && FileKey(a, v) != COUNTER && CountKey(k) != COUNTER
    ensures forall l :: CountKey(k) == CountKey(l) ==> k == l
  {
    FileKeyEnds(a, v);
    CountKeyEnds(k);
    assert COUNTER[|COUNTER| - 1] == '_';
    forall l | CountKey(k) == CountKey(l)
      ensures k == l
    {
      CountKeyEnds(l);
      assert |k| == |l|;
    }
  }

  /** A scan of the DBM meets the counter of a file exactly when it meets the file: the counter's name
      does not hide it. */
  lemma CountKeysAreScanned(a: string, v: int)
    ensures Internal(CountKey(FileKey(a, v))) <==> Internal(FileKey(a, v))
  {
    var k := FileKey(a, v);
    FileKeyEnds(a, v);
    NoUnderscore(v);
    assert |k| >= 2;
    assert CountKey(k)[..2] == k[..2];
    assert Internal(k) <==> k[..2] == "__";
    assert Internal(CountKey(k)) <==> CountKey(k)[..2] == "__";
  }

  // ------------------------------------------------------------ what a dump holds

  function KeyOf<T>(row: FileRow<T>): string {
    FileKey(row.fileId, row.version)
  }

  function Times<T>(rows: seq<FileRow<T>>, key: string): nat {
    if rows == [] then 0
    else Times(rows[..|rows| - 1], key) + if KeyOf(rows[|rows| - 1]) == key then 1 else 0
  }

  function LastRow<T>(rows: seq<FileRow<T>>, key: string): Option<FileRow<T>> {
    if rows == [] then None
    else if KeyOf(rows[|rows| - 1]) == key then Some(rows[|rows| - 1])
    else LastRow(rows[..|rows| - 1], key)
  }

  /** The rows of a file: its ID and its version. */
  function Multiplicity<T>(rows: seq<FileRow<T>>, fileId: string, version: int): nat {
    if rows == [] then 0
    else
      var row := rows[|rows| - 1];
      Multiplicity(rows[..|rows| - 1], fileId, version) + if row.fileId == fileId && row.version == version then 1 else 0
  }

  /** Counting by key is counting by file. */
  lemma {:induction false} TimesIsMultiplicity<T>(rows: seq<FileRow<T>>, fileId: string, version: int)
    ensures Times(rows, FileKey(fileId, version)) == Multiplicity(rows, fileId, version)
  {
    if rows != [] {
      var row := rows[|rows| - 1];
      TimesIsMultiplicity(rows[..|rows| - 1], fileId, version);
      if KeyOf(row) == FileKey(fileId, version) {
        FileKeyInjective(row.fileId, row.version, fileId, version);
      }
    }
  }

  /** Under a key: its last row, or nothing. */
  ghost predicate EntryDumped<T>(db: Store<FileRow<T>>, rows: seq<FileRow<T>>, key: string) {
    && (key in db <==> LastRow(rows, key).Some?)
    && (key in db ==> db[key] == Record(LastRow(rows, key).value))
  }

  /** Under its counter key: the number of its rows, or nothing. */
  ghost predicate CounterDumped<T>(db: Store<FileRow<T>>, rows: seq<FileRow<T>>, count: bool, key: string) {
    && (CountKey(key) in db <==> count && Times(rows, key) > 0)
    && (CountKey(key) in db ==> db[CountKey(key)] == Number(Times(rows, key)))
  }

  ghost predicate Dumped<T>(db: Store<FileRow<T>>, rows: seq<FileRow<T>>, count: bool, fileId: string, version: int) {
    EntryDumped(db, rows, FileKey(fileId, version)) && CounterDumped(db, rows, count, FileKey(fileId, version))
  }

  /** The count, the files and their counters have keys, nothing else has. */
  ghost predicate KeyDumped<T>(rows: seq<FileRow<T>>, count: bool, key: string) {
    key == COUNTER || exists row :: row in rows && (key == KeyOf(row) || (count && key == CountKey(KeyOf(row))))
  }

  ghost predicate OnlyDumped<T>(db: Store<FileRow<T>>, rows: seq<FileRow<T>>, count: bool) {
    forall key :: key in db ==> KeyDumped(rows, count, key)
  }

  ghost predicate IsDump<T>(db: Store<FileRow<T>>, rows: seq<FileRow<T>>, count: bool) {
    && HasCount(db) && Counted(db) && OnlyDumped(db, rows, count)
    && forall fileId, version :: Dumped(db, rows, count, fileId, version)
  }

  lemma DumpedAlike<T>(db: Store<FileRow<T>>, t: Store<FileRow<T>>, rows: seq<FileRow<T>>, count: bool, key: string)
    requires IsDump(db, rows, count) && IsDump(t, rows, count) && key in db && key != COUNTER
    ensures key in t && t[key] == db[key]
  {
    assert KeyDumped(rows, count, key);
    var row :| row in rows && (key == KeyOf(row) || (count && key == CountKey(KeyOf(row))));
    assert Dumped(db, rows, count, row.fileId, row.version) && Dumped(t, rows, count, row.fileId, row.version);
  }

  /** The rows determine everything a dump holds. */
  lemma DumpIsUnique<T>(db: Store<FileRow<T>>, t: Store<FileRow<T>>, rows: seq<FileRow<T>>, count: bool)
    requires IsDump(db, rows, count) && IsDump(t, rows, count)
    ensures db == t
  {
    assert Counted(db) && Counted(t);
    hide IsDump, Counted;
    forall key | key in db && key != COUNTER
      ensures key in t && t[key] == db[key]
    {
      DumpedAlike(db, t, rows, count, key);
    }
    forall key | key in t && key != COUNTER
      ensures key in db
    {
      DumpedAlike(t, db, rows, count, key);
    }
    CountedAlike(db, t);
  }

  lemma CountedAlike<T>(db: Store<T>, t: Store<T>)
    requires Counted(db) && Counted(t)
    requires forall key :: key in db && key != COUNTER ==> key in t && t[key] == db[key]
    requires forall key :: key in t && key != COUNTER ==> key in db
    ensures db == t
  {
    assert db.Keys - {COUNTER} == t.Keys - {COUNTER};
    assert db[COUNTER] == t[COUNTER];
  }

  lemma {:induction false} LastRowIs<T>(rows: seq<FileRow<T>>, fileId: string, version: int, last: FileRow<T>)
    ensures LastRow(rows, FileKey(fileId, version)) == Some(last) <==>
              exists i :: 0 <= i < |rows| && IsLastOf(rows, fileId, version, i) && rows[i] == last
  {
    var n := |rows| - 1;
    if rows != [] {
      assert rows[..n] + [rows[n]] == rows;
      if KeyOf(rows[n]) == FileKey(fileId, version) {
        FileKeyInjective(rows[n].fileId, rows[n].version, fileId, version);
        assert IsLastOf(rows, fileId, version, n);
      } else {
        hide FileKey;
        LastRowIs(rows[..n], fileId, version, last);
        assert !(rows[n].fileId == fileId && rows[n].version == version);
        forall i | 0 <= i < n
          ensures IsLastOf(rows, fileId, version, i) <==> IsLastOf(rows[..n], fileId, version, i)
        {
        }
      }
    }
  }

  /** Row i is of the file, and none behind it is. */
  ghost predicate IsLastOf<T>(rows: seq<FileRow<T>>, fileId: string, version: int, i: nat)
    requires i < |rows|
  {
    && rows[i].fileId == fileId && rows[i].version == version
    && forall j :: i < j < |rows| ==> !(rows[j].fileId == fileId && rows[j].version == version)
  }

  /** Reading a dump: under File ID, underscore and version stands the last row of the file, if it has
      one, and under that key with its suffix the number of its rows, if rows were counted. */
  lemma DumpReads<T>(db: Store<FileRow<T>>, rows: seq<FileRow<T>>, count: bool, fileId: string, version: int, row: FileRow<T>)
    requires IsDump(db, rows, count)
    ensures var key := fileId + "_" + SignedDecimal(version);
            && (key in db && db[key] == Record(row) <==>
                  exists i :: 0 <= i < |rows| && IsLastOf(rows, fileId, version, i) && rows[i] == row)
            && (key in db <==> Multiplicity(rows, fileId, version) > 0)
            && (key + "__COUNTER" in db <==> count && Multiplicity(rows, fileId, version) > 0)
            && (key + "__COUNTER" in db ==> db[key + "__COUNTER"] == Number(Multiplicity(rows, fileId, version)))
  {
    assert Dumped(db, rows, count, fileId, version);
    LastRowIs(rows, fileId, version, row);
    TimesIsMultiplicity(rows, fileId, version);
    TimesIffLast(rows, FileKey(fileId, version));
    hide IsDump, LastRow, Times, Multiplicity, IsLastOf, SignedDecimal;
  }

  /** One row with file keys: its counter is created and raised, and its entry replaced. */
  function AfterRow<T>(db: Store<FileRow<T>>, row: FileRow<T>, count: bool): Store<FileRow<T>> {
    AfterAdd(AfterCount(db, CountKey(KeyOf(row)), count), KeyOf(row), Record(row))
  }

  function AfterCount<T>(db: Store<FileRow<T>>, countKey: string, count: bool): Store<FileRow<T>> {
    if !count then db
    else
      var created := if countKey in db then db else AfterAdd(db, countKey, Number(0));
      if countKey in created && created[countKey].Number?
      then AfterAdd(created, countKey, Number(created[countKey].i + 1))
      else created
  }

  lemma TimesIffLast<T>(rows: seq<FileRow<T>>, key: string)
    ensures Times(rows, key) > 0 <==> LastRow(rows, key).Some?
  {
  }

  /** Outside the given keys nothing is different. */
  ghost predicate Untouched<T>(db: Store<T>, t: Store<T>, keys: set<string>) {
    forall k :: k !in keys ==> (k in t <==> k in db) && (k in db ==> t[k] == db[k])
  }

  lemma UntouchedAt<T>(db: Store<T>, t: Store<T>, keys: set<string>, k: string)
    requires Untouched(db, t, keys)
    ensures k !in keys ==> (k in t <==> k in db) && (k in db ==> t[k] == db[k])
  {
  }

  lemma UntouchedTwice<T>(db: Store<T>, t: Store<T>, u: Store<T>, keys: set<string>, more: set<string>)
    requires Untouched(db, t, keys) && Untouched(t, u, more)
    ensures Untouched(db, u, keys + more)
  {
  }

  /** Adding changes its key and the count, nothing else. */
  lemma AddTouches<T>(db: Store<T>, key: string, v: Value<T>)
    requires Counted(db) && key != COUNTER
    ensures Counted(AfterAdd(db, key, v)) && key in AfterAdd(db, key, v) && AfterAdd(db, key, v)[key] == v
    ensures Untouched(db, AfterAdd(db, key, v), {key, COUNTER})
  {
    AddKeepsCountIff(db, key, v);
  }

  lemma CountTouches<T>(db: Store<FileRow<T>>, countKey: string)
    requires Counted(db) && countKey != COUNTER && (countKey in db ==> db[countKey].Number?)
    ensures var t := AfterCount(db, countKey, true);
            && Counted(t) && countKey in t
            && t[countKey] == Number(1 + if countKey in db then db[countKey].i else 0)
            && Untouched(db, t, {countKey, COUNTER})
  {
    AddTouches(db, countKey, Number(0));
    var created := if countKey in db then db else AfterAdd(db, countKey, Number(0));
    var t := AfterCount(db, countKey, true);
    assert Untouched(db, created, {countKey, COUNTER});
    hide AfterAdd, Counted, Untouched;
    AddTouches(created, countKey, Number(created[countKey].i + 1));
    UntouchedTwice(db, created, t, {countKey, COUNTER}, {countKey, COUNTER});
    assert {countKey, COUNTER} + {countKey, COUNTER} == {countKey, COUNTER};
  }

  lemma RowTouches<T>(db: Store<FileRow<T>>, row: FileRow<T>, count: bool)
    requires Counted(db)
    requires var c := CountKey(KeyOf(row)); count && c in db ==> db[c].Number?
    ensures var t, key, c := AfterRow(db, row, count), KeyOf(row), CountKey(KeyOf(row));
            && Counted(t) && key in t && t[key] == Record(row)
            && (if count then c in t && t[c] == Number(1 + if c in db then db[c].i else 0)
                else (c in t <==> c in db) && (c in db ==> t[c] == db[c]))
            && Untouched(db, t, {c, COUNTER} + {key, COUNTER})
  {
    var key, c := KeyOf(row), CountKey(KeyOf(row));
    var db1 := AfterCount(db, c, count);
    var t := AfterRow(db, row, count);
    KeysApart(row.fileId, row.version, key);
    assert t == AfterAdd(db1, key, Record(row));
    if count { CountTouches(db, c); }
    assert Untouched(db, db1, {c, COUNTER});
    hide Counted, AfterAdd, CountKey, KeyOf, AfterRow, Untouched;
    AddTouches(db1, key, Record(row));
    UntouchedTwice(db, db1, t, {c, COUNTER}, {key, COUNTER});
    UntouchedAt(db1, t, {key, COUNTER}, c);
  }

  lemma RowKeepsEntry<T>(db: Store<FileRow<T>>, t: Store<FileRow<T>>, rows: seq<FileRow<T>>, row: FileRow<T>, k: string)
    requires EntryDumped(db, rows, k)
    requires KeyOf(row) in t && t[KeyOf(row)] == Record(row)
    requires k != KeyOf(row) ==> (k in t <==> k in db) && (k in db ==> t[k] == db[k])
    ensures EntryDumped(t, rows + [row], k)
  {
    RowCounts(rows, row, k);
  }

  lemma RowKeepsCounter<T>(db: Store<FileRow<T>>, t: Store<FileRow<T>>, rows: seq<FileRow<T>>, row: FileRow<T>,
                           count: bool, k: string)
    requires CounterDumped(db, rows, count, k)
    requires var c := CountKey(k);
             if count && k == KeyOf(row) then c in t && t[c] == Number(1 + if c in db then db[c].i else 0)
             else (c in t <==> c in db) && (c in db ==> t[c] == db[c])
    ensures CounterDumped(t, rows + [row], count, k)
  {
    RowCounts(rows, row, k);
    hide Times, KeyOf, CountKey;
  }

  lemma RowKeepsFile<T>(db: Store<FileRow<T>>, rows: seq<FileRow<T>>, row: FileRow<T>, count: bool,
                        fileId: string, version: int)
    requires Counted(db) && Dumped(db, rows, count, row.fileId, row.version) && Dumped(db, rows, count, fileId, version)
    ensures Dumped(AfterRow(db, row, count), rows + [row], count, fileId, version)
  {
    var k, key, t := FileKey(fileId, version), KeyOf(row), AfterRow(db, row, count);
    KeysApart(fileId, version, k);
    KeysApart(row.fileId, row.version, k);
    KeysApart(fileId, version, key);
    RowTouches(db, row, count);
    hide Untouched, AfterRow, FileKey, CountKey, Counted, Times, LastRow;
    UntouchedAt(db, t, {CountKey(key), COUNTER} + {key, COUNTER}, k);
    UntouchedAt(db, t, {CountKey(key), COUNTER} + {key, COUNTER}, CountKey(k));
    hide EntryDumped, CounterDumped;
    RowKeepsEntry(db, t, rows, row, k);
    RowKeepsCounter(db, t, rows, row, count, k);
  }

  lemma RowCounts<T>(rows: seq<FileRow<T>>, row: FileRow<T>, key: string)
    ensures Times(rows + [row], key) == Times(rows, key) + if KeyOf(row) == key then 1 else 0
    ensures LastRow(rows + [row], key) == if KeyOf(row) == key then Some(row) else LastRow(rows, key)
    ensures Times(rows, key) > 0 <==> LastRow(rows, key).Some?
  {
    assert (rows + [row])[..|rows|] == rows;
    TimesIffLast(rows, key);
  }

  lemma RowKeepsOnly<T>(db: Store<FileRow<T>>, t: Store<FileRow<T>>, rows: seq<FileRow<T>>, row: FileRow<T>, count: bool)
    requires OnlyDumped(db, rows, count)
    requires var c := CountKey(KeyOf(row));
             && Untouched(db, t, {c, COUNTER} + {KeyOf(row), COUNTER})
             && (!count ==> (c in t <==> c in db))
    ensures OnlyDumped(t, rows + [row], count)
  {
    var c, now := CountKey(KeyOf(row)), rows + [row];
    hide CountKey, KeyOf;
    assert row in now && forall r :: r in rows ==> r in now;
    forall key | key in t
      ensures KeyDumped(now, count, key)
    {
      if key != KeyOf(row) && key != COUNTER && !(count && key == c) {
        UntouchedAt(db, t, {c, COUNTER} + {KeyOf(row), COUNTER}, key);
        assert KeyDumped(rows, count, key);
      }
    }
  }

  lemma RowKeepsDump<T>(db: Store<FileRow<T>>, rows: seq<FileRow<T>>, row: FileRow<T>, count: bool)
    requires IsDump(db, rows, count)
    ensures IsDump(AfterRow(db, row, count), rows + [row], count)
  {
    assert Dumped(db, rows, count, row.fileId, row.version);
    CountIsNumber(db, rows, row, count);
    RowTouches(db, row, count);
    RowKeepsOnly(db, AfterRow(db, row, count), rows, row, count);
    hide OnlyDumped;
    forall fileId, version
      ensures Dumped(AfterRow(db, row, count), rows + [row], count, fileId, version)
    {
      assert Dumped(db, rows, count, fileId, version);
      hide Dumped, Counted, AfterRow;
      RowKeepsFile(db, rows, row, count, fileId, version);
    }
    hide Dumped, AfterRow;
  }

  // -------------------------------------------------------------- the dump itself

  /** One turn of the loop, with file keys. */
  method AddRow<T>(dbm: Dbm<FileRow<T>>, row: FileRow<T>, count: bool)
    requires dbm.Valid() && HasCount(dbm.db)
    requires var c := CountKey(FileKey(row.fileId, row.version)); c in dbm.db ==> dbm.db[c].Number?
    modifies dbm
    ensures dbm.Valid() && dbm.db == AfterRow(old(dbm.db), row, count)
  {
    var fileKey := FileKey(row.fileId, row.version);
    if count {
      var countKey := CountKey(fileKey);
      CountKeyEnds(fileKey);
      hide FileKey, CountKey;
      if countKey !in dbm.db {
        var _ := dbm.Add(countKey, Number(0), false);
      }
      var _ := dbm.Add(countKey, Number(dbm.db[countKey].i + 1), false);
    }
    var _ := dbm.Add(fileKey, Record(row), false);
  }

  function Records<T>(rows: seq<FileRow<T>>): seq<Value<FileRow<T>>> {
    seq(|rows|, i requires 0 <= i < |rows| => Record(rows[i]))
  }

  /** What the DBM holds once these rows have been read. */
  ghost predicate DumpOf<T>(db: Store<FileRow<T>>, rows: seq<FileRow<T>>, useFileKey: bool, count: bool) {
    if useFileKey then IsDump(db, rows, count) else db == Filled(Records(rows))
  }

  /** The rows in the order of the cursor, under file keys or under their numbers. */
  method DumpFileInfo<T>(rows: seq<FileRow<T>>, useFileKey: bool, count: bool) returns (db: Store<FileRow<T>>)
    ensures DumpOf(db, rows, useFileKey, count)
  {
    var dbm := new Dbm<FileRow<T>>(100);
    var fileCount := 1;
    NothingDumped<T>(useFileKey, count);
    hide DumpOf, AfterRow, AfterAdd, FileKey, CountKey;
    while fileCount <= |rows|
      invariant 1 <= fileCount <= |rows| + 1
      invariant fresh(dbm) && dbm.Valid()
      invariant DumpOf(dbm.db, rows[..fileCount - 1], useFileKey, count)
    {
      var fileInfo := rows[fileCount - 1];
      ghost var before := rows[..fileCount - 1];
      assert rows[..fileCount] == before + [fileInfo];
      if !useFileKey {
        NumberedRow(dbm.db, before, fileInfo, count);
        var _ := dbm.Add(SignedDecimal(fileCount), Record(fileInfo), false);
      } else {
        KeyedRow(dbm.db, before, fileInfo, count);
        AddRow(dbm, fileInfo, count);
      }
      fileCount := fileCount + 1;
    }
    assert rows[..fileCount - 1] == rows;
    dbm.Sync();
    db := dbm.disk;
  }

  lemma NothingDumped<T>(useFileKey: bool, count: bool)
    ensures DumpOf<T>(FreshStore(), [], useFileKey, count)
  {
    FreshIsDump<T>(count);
    assert Records<T>([]) == [];
    hide IsDump;
  }

  lemma KeyedRow<T>(db: Store<FileRow<T>>, rows: seq<FileRow<T>>, row: FileRow<T>, count: bool)
    requires DumpOf(db, rows, true, count)
    ensures DumpOf(AfterRow(db, row, count), rows + [row], true, count)
    ensures HasCount(db)
    ensures var c := CountKey(FileKey(row.fileId, row.version)); c in db ==> db[c].Number?
  {
    CountIsNumber(db, rows, row, count);
    RowKeepsDump(db, rows, row, count);
    hide IsDump, AfterRow;
  }

  /** Numbering the rows is what addIncKey would do. */
  lemma NumberedRow<T>(db: Store<FileRow<T>>, rows: seq<FileRow<T>>, row: FileRow<T>, count: bool)
    requires DumpOf(db, rows, false, count)
    ensures DumpOf(AfterAdd(db, SignedDecimal(|rows| + 1), Record(row)), rows + [row], false, count)
  {
    NextKeyIsNew(Records(rows));
    assert Records(rows + [row]) == Records(rows) + [Record(row)];
    FilledMore(Records(rows), Record(row));
    hide IsDump, Filled, AfterAdd;
  }

  lemma FreshIsDump<T>(count: bool)
    ensures IsDump<T>(FreshStore(), [], count)
  {
    var db: Store<FileRow<T>> := FreshStore();
    assert db.Keys - {COUNTER} == {};
    forall fileId, version
      ensures Dumped<T>(db, [], count, fileId, version)
    {
      KeysApart(fileId, version, FileKey(fileId, version));
    }
  }

  lemma FilledMore<T>(vs: seq<Value<T>>, v: Value<T>)
    ensures Filled(vs + [v]) == AfterAddIncKey(Filled(vs), v)
  {
    assert (vs + [v])[..|vs|] == vs;
  }

  lemma CountIsNumber<T>(db: Store<FileRow<T>>, rows: seq<FileRow<T>>, row: FileRow<T>, count: bool)
    requires IsDump(db, rows, count)
    ensures HasCount(db)
    ensures var c := CountKey(KeyOf(row));
            && (c in db ==> db[c].Number?)
            && (c !in db ==> c in AfterAdd(db, c, Number(0)) && AfterAdd(db, c, Number(0))[c] == Number(0))
  {
    assert Dumped(db, rows, count, row.fileId, row.version);
    KeysApart(row.fileId, row.version, KeyOf(row));
    AddTouches(db, CountKey(KeyOf(row)), Number(0));
  }
}
