/** The File Summary 1 query: an SQL text and its values built from optional filters. */
module SummaryQuery {
  import opened Optional
  import opened Orders
  import Text
  import opened SqlPrepare
  import opened SqlTemplates

  datatype Value = Number(i: int) | Characters(s: string)

  /** The filters; an absent one, an empty list and an empty string do not filter. */
  datatype Filters = Filters(ignored: Option<int>, hostId: Option<string>, diskIds: seq<string>,
                             fileIds: seq<string>, fileStatus: seq<string>, since: Option<string>, order: bool)

  predicate Given(s: Option<string>) {
    s.Some? && s.value != ""
  }

  function GivenValue(s: Option<string>): string {
    if s.Some? then s.value else ""
  }

  // ---------------------------------------------------------- what is asked for

  /** A joined row: its columns, without those that are NULL. */
  type Row = map<string, Value>

  predicate HasOneOf(row: Row, column: string, names: seq<string>) {
    column in row && row[column].Characters? && row[column].s in names
  }

  predicate AtLeast(v: Value, low: Value) {
    match (v, low)
    case (Number(a), Number(b)) => a >= b
    case (Characters(a), Characters(b)) => Text.LexLeq(b, a)
    case _ => false
  }

  predicate Joined(row: Row) {
    "nd.disk_id" in row && "nf.disk_id" in row && row["nd.disk_id"] == row["nf.disk_id"]
  }

  predicate Wanted(f: Filters, ignoreColumn: string, row: Row) {
    && (f.ignored.Some? ==> "nf." + ignoreColumn in row && row["nf." + ignoreColumn] == Number(f.ignored.value))
    && (f.hostId.Some? && f.hostId.value != "" ==> "nd.host_id" in row && row["nd.host_id"] == Characters(f.hostId.value))
    && (f.diskIds != [] ==> HasOneOf(row, "nd.disk_id", f.diskIds))
    && (f.fileIds != [] ==> HasOneOf(row, "nf.file_id", f.fileIds))
    && (f.fileStatus != [] ==> HasOneOf(row, "nf.file_status", f.fileStatus))
    && (f.since.Some? && f.since.value != "" ==>
          "nf.ingestion_date" in row && AtLeast(row["nf.ingestion_date"], Characters(f.since.value)))
  }

  // ------------------------------------------------------- clauses of a statement

  datatype Clause =
    | Equal(column: string, value: Value)
    | OneOf(column: string, values: seq<Value>)
    | NotBelow(column: string, value: Value)

  predicate Holds(c: Clause, row: Row) {
    c.column in row &&
    match c
    case Equal(column, v) => row[column] == v
    case OneOf(column, vs) => row[column] in vs
    case NotBelow(column, v) => AtLeast(row[column], v)
  }

  ghost predicate AllHold(cs: seq<Clause>, row: Row) {
    forall c :: c in cs ==> Holds(c, row)
  }

  function Literally(s: string): seq<Piece<Value>> {
    seq(|s|, i requires 0 <= i < |s| => Plain(s[i]))
  }

  /** Values with commas between them. */
  function Listed(vs: seq<Value>): seq<Piece<Value>> {
    if vs == [] then [] else if |vs| == 1 then [Bound(vs[0])] else [Bound(vs[0]), Plain(',')] + Listed(vs[1..])
  }

  function Written(c: Clause): seq<Piece<Value>> {
    Literally(" AND " + c.column) + Test(c)
  }

  function Test(c: Clause): seq<Piece<Value>> {
    match c
    case Equal(_, v) => Literally("=") + [Bound(v)]
    case OneOf(_, vs) => Literally(" IN (") + Listed(vs) + Literally(")")
    case NotBelow(_, v) => Literally(" >= ") + [Bound(v)]
  }

  function AllWritten(cs: seq<Clause>): seq<Piece<Value>> {
    if cs == [] then [] else Written(cs[0]) + AllWritten(cs[1..])
  }

  // -------------------------------------------------- buildFileSummary1Query itself

  const ORDERING := " ORDER BY nd.slot_id" + ", nf.ingestion_date"

  function Head(columns: string): string {
    "SELECT " + columns + " FROM ngas_disks nd," + " ngas_files nf WHERE" + " nd.disk_id=nf.disk_id"
  }

  function AsValues(names: seq<string>): seq<Value> {
    seq(|names|, i requires 0 <= i < |names| => Characters(names[i]))
  }

  function InClause(column: string, names: seq<string>): seq<Clause> {
    if names == [] then [] else [OneOf(column, AsValues(names))]
  }

  function When(given: bool, c: Clause): seq<Clause> {
    if given then [c] else []
  }

  function IgnoreClause(f: Filters, ignoreColumn: string): Clause {
    Equal("nf." + ignoreColumn, Number(if f.ignored.Some? then f.ignored.value else 0))
  }

  function HostClause(f: Filters): Clause {
    Equal("nd.host_id", Characters(GivenValue(f.hostId)))
  }

  function SinceClause(f: Filters): Clause {
    NotBelow("nf.ingestion_date", Characters(GivenValue(f.since)))
  }

  function Clauses(f: Filters, ignoreColumn: string): seq<Clause> {
    When(f.ignored.Some?, IgnoreClause(f, ignoreColumn)) +
    When(Given(f.hostId), HostClause(f)) +
    InClause("nd.disk_id", f.diskIds) +
    InClause("nf.file_id", f.fileIds) +
    InClause("nf.file_status", f.fileStatus) +
    When(Given(f.since), SinceClause(f))
  }

  lemma ClausesFromNothing(f: Filters, ignoreColumn: string)
    ensures Clauses(f, ignoreColumn)
         == [] + When(f.ignored.Some?, IgnoreClause(f, ignoreColumn)) + When(Given(f.hostId), HostClause(f)) +
            InClause("nd.disk_id", f.diskIds) + InClause("nf.file_id", f.fileIds) +
            InClause("nf.file_status", f.fileStatus) + When(Given(f.since), SinceClause(f))
  {
    assert [] + When(f.ignored.Some?, IgnoreClause(f, ignoreColumn)) == When(f.ignored.Some?, IgnoreClause(f, ignoreColumn));
  }

  function Condition(cs: seq<Clause>, order: bool): seq<Piece<Value>> {
    AllWritten(cs) + if order then Literally(ORDERING) else []
  }

  /** The statement: head, clauses and ordering, with the values in their places. */
  function Statement(columns: string, cs: seq<Clause>, order: bool): seq<Piece<Value>> {
    Literally(Head(columns)) + Condition(cs, order)
  }

  /** ''.join(parts) */
  function Concat(parts: seq<string>): string {
    if parts == [] then "" else parts[0] + Concat(parts[1..])
  }

  lemma {:induction false} ConcatAppend(parts: seq<string>, s: string)
    ensures Concat(parts + [s]) == Concat(parts) + s
  {
    if parts == [] {
      assert parts + [s] == [s] && Concat([s]) == s + Concat([]);
    } else {
      assert (parts + [s])[1..] == parts[1..] + [s];
      ConcatAppend(parts[1..], s);
    }
  }

  lemma {:induction false} LiterallyIs(s: string)
    ensures Template(Literally(s)) == s && Values(Literally(s)) == []
  {
    if s != "" {
      assert Literally(s)[1..] == Literally(s[1..]);
      LiterallyIs(s[1..]);
      assert s == [s[0]] + s[1..];
    }
  }

  lemma LiterallyConcat(s: string, t: string)
    ensures Literally(s) + Literally(t) == Literally(s + t)
  {
  }

  lemma ListedStep(vs: seq<Value>)
    requires |vs| > 1
    ensures Template(Listed(vs)) == "{}," + Template(Listed(vs[1..])) && Values(Listed(vs)) == [vs[0]] + Values(Listed(vs[1..]))
  {
    assert Listed(vs) == [Bound(vs[0]), Plain(',')] + Listed(vs[1..]);
    hide Listed, Template, Values;
    TemplateConcat([Bound(vs[0]), Plain(',')], Listed(vs[1..]));
    PairIs(vs[0]);
  }

  lemma PlacesStep(n: nat)
    requires n > 1
    ensures Text.Join(seq(n, i => "{}"), ',') == "{}," + Text.Join(seq(n - 1, i => "{}"), ',')
  {
    var params := seq(n, i => "{}");
    assert params[1..] == seq(n - 1, i => "{}");
    assert "{}," == "{}" + [','];
  }

  lemma {:induction false} ListedIs(vs: seq<Value>)
    ensures Template(Listed(vs)) == Text.Join(seq(|vs|, i => "{}"), ',') && Values(Listed(vs)) == vs
  {
    if |vs| == 1 {
      BoundIs(vs[0]);
      assert seq(|vs|, i => "{}") == ["{}"];
    } else if vs != [] {
      hide *;
      ListedIs(vs[1..]);
      ListedStep(vs);
      PlacesStep(|vs|);
    }
  }

  lemma PairIs(v: Value)
    ensures Template([Bound(v), Plain(',')]) == "{}," && Values([Bound(v), Plain(',')]) == [v]
  {
    assert [Bound(v), Plain(',')][1..] == [Plain(',')];
    var comma: seq<Piece<Value>> := [Plain(',')];
    assert comma[1..] == [] && Template(comma) == ",";
  }

  lemma BoundIs(v: Value)
    ensures Template([Bound(v)]) == "{}" && Values([Bound(v)]) == [v]
  {
    assert [Bound(v)][1..] == [];
  }

  lemma ComparisonIs(column: string, sign: string, v: Value)
    ensures var ps := Literally(" AND " + column) + (Literally(sign) + [Bound(v)]);
            Template(ps) == " AND " + column + sign + "{}" && Values(ps) == [v]
  {
    TemplateConcat(Literally(" AND " + column), Literally(sign) + [Bound(v)]);
    TemplateConcat(Literally(sign), [Bound(v)]);
    LiterallyIs(" AND " + column);
    LiterallyIs(sign);
    BoundIs(v);
    hide Template, Values, Literally;
    Associative(" AND " + column, sign, "{}");
  }

  lemma MembershipIs(column: string, vs: seq<Value>)
    ensures var ps := Literally(" AND " + column) + (Literally(" IN (") + Listed(vs) + Literally(")"));
            && Template(ps) == " AND " + column + (" IN (" + Text.Join(seq(|vs|, i => "{}"), ',') + ")")
            && Values(ps) == vs
  {
    TemplateConcat(Literally(" AND " + column), Literally(" IN (") + Listed(vs) + Literally(")"));
    TemplateConcat(Literally(" IN (") + Listed(vs), Literally(")"));
    TemplateConcat(Literally(" IN ("), Listed(vs));
    LiterallyIs(" AND " + column);
    LiterallyIs(" IN (");
    LiterallyIs(")");
    ListedIs(vs);
    hide Template, Values, Literally, Listed;
    assert [] + ([] + vs + []) == vs;
  }

  lemma {:induction false} AllWrittenAppend(cs: seq<Clause>, ds: seq<Clause>)
    ensures AllWritten(cs + ds) == AllWritten(cs) + AllWritten(ds)
  {
    if cs == [] {
      assert cs + ds == ds;
    } else {
      assert (cs + ds)[1..] == cs[1..] + ds;
      AllWrittenAppend(cs[1..], ds);
      Associative(Written(cs[0]), AllWritten(cs[1..]), AllWritten(ds));
    }
  }

  /** The text and the values so far are those of the statement with these clauses. */
  ghost predicate Built(sql: seq<string>, vals: seq<Value>, columns: string, cs: seq<Clause>) {
    var ps := Literally(Head(columns)) + AllWritten(cs);
    Concat(sql) == Template(ps) && vals == Values(ps)
  }

  lemma BuiltAppend(sql: seq<string>, vals: seq<Value>, columns: string, cs: seq<Clause>, c: Clause)
    requires Built(sql, vals, columns, cs)
    ensures Built(sql + [Template(Written(c))], vals + Values(Written(c)), columns, cs + [c])
  {
    var ps := Literally(Head(columns)) + AllWritten(cs);
    AllWrittenAppend(cs, [c]);
    assert AllWritten([c]) == Written(c) by {
      assert Written(c) + [] == Written(c);
    }
    TemplateConcat(ps, Written(c));
    ConcatAppend(sql, Template(Written(c)));
    hide Template, Values, Literally, Concat, Written, AllWritten;
    Associative(Literally(Head(columns)), AllWritten(cs), Written(c));
  }

  /** One "column IN (...)" block: a placeholder and a value for each name. */
  method AppendIn(sql: seq<string>, vals: seq<Value>, column: string, names: seq<string>,
                  ghost columns: string, ghost cs: seq<Clause>)
    returns (newSql: seq<string>, newVals: seq<Value>)
    requires Built(sql, vals, columns, cs)
    ensures Built(newSql, newVals, columns, cs + InClause(column, names))
  {
    newSql, newVals := sql, vals;
    if names == [] {
      assert cs + [] == cs;
      return;
    }
    var params := [];
    for i := 0 to |names|
      invariant params == seq(i, k => "{}")
      invariant newVals == vals + AsValues(names)[..i]
    {
      params := params + ["{}"];
      newVals := newVals + [Characters(names[i])];
      assert AsValues(names)[..i + 1] == AsValues(names)[..i] + [Characters(names[i])];
    }
    newSql := newSql + [" AND " + column + (" IN (" + Text.Join(params, ',') + ")")];
    assert AsValues(names)[..|names|] == AsValues(names);
    MembershipIs(column, AsValues(names));
    BuiltAppend(sql, vals, columns, cs, OneOf(column, AsValues(names)));
    hide Template, Values, Built;
  }

  /** " AND <column>={}" or " AND <column> >= {}". */
  function Comparison(c: Clause): string {
    " AND " + c.column + (if c.Equal? then "=" else " >= ") + "{}"
  }

  /** One comparison, appended when its filter is given. */
  lemma ComparisonBuilt(sql: seq<string>, vals: seq<Value>, newSql: seq<string>, newVals: seq<Value>,
                        columns: string, cs: seq<Clause>, c: Clause, given: bool)
    requires Built(sql, vals, columns, cs) && !c.OneOf?
    requires newSql == if given then sql + [Comparison(c)] else sql
    requires newVals == if given then vals + [c.value] else vals
    ensures Built(newSql, newVals, columns, cs + When(given, c))
  {
    if given {
      ComparisonIs(c.column, if c.Equal? then "=" else " >= ", c.value);
      BuiltAppend(sql, vals, columns, cs, c);
    } else {
      assert cs + [] == cs;
    }
    hide Built;
  }

  lemma HeadBuilt(columns: string)
    ensures Built([Head(columns)], [], columns, [])
  {
    LiterallyIs(Head(columns));
    assert Literally(Head(columns)) + [] == Literally(Head(columns));
    assert Concat([Head(columns)]) == Head(columns) + Concat([]);
  }

  method BuildFileSummary1Query(columns: string, ignoreColumn: string, f: Filters)
    returns (query: string, vals: seq<Value>)
    ensures query == Template(Statement(columns, Clauses(f, ignoreColumn), f.order))
    ensures vals == Values(Statement(columns, Clauses(f, ignoreColumn), f.order))
  {
    var sql := [Head(columns)];
    vals := [];
    HeadBuilt(columns);
    ghost var was, had := sql, vals;
    ghost var cs: seq<Clause> := [];
    ClausesFromNothing(f, ignoreColumn);
    hide Built, Template, Values, Literally, Concat, InClause, When, Given, Head, Statement, Comparison, Clauses;

    if f.ignored.Some? {
      sql := sql + [Comparison(IgnoreClause(f, ignoreColumn))];
      vals := vals + [Number(f.ignored.value)];
    }
    ComparisonBuilt(was, had, sql, vals, columns, cs, IgnoreClause(f, ignoreColumn), f.ignored.Some?);
    cs := cs + When(f.ignored.Some?, IgnoreClause(f, ignoreColumn));

    was, had := sql, vals;
    if Given(f.hostId) {
      sql := sql + [Comparison(HostClause(f))];
      vals := vals + [Characters(GivenValue(f.hostId))];
    }
    ComparisonBuilt(was, had, sql, vals, columns, cs, HostClause(f), Given(f.hostId));
    cs := cs + When(Given(f.hostId), HostClause(f));

    sql, vals := AppendIn(sql, vals, "nd.disk_id", f.diskIds, columns, cs);
    cs := cs + InClause("nd.disk_id", f.diskIds);
    sql, vals := AppendIn(sql, vals, "nf.file_id", f.fileIds, columns, cs);
    cs := cs + InClause("nf.file_id", f.fileIds);
    sql, vals := AppendIn(sql, vals, "nf.file_status", f.fileStatus, columns, cs);
    cs := cs + InClause("nf.file_status", f.fileStatus);

    was, had := sql, vals;
    if Given(f.since) {
      sql := sql + [Comparison(SinceClause(f))];
      vals := vals + [Characters(GivenValue(f.since))];
    }
    ComparisonBuilt(was, had, sql, vals, columns, cs, SinceClause(f), Given(f.since));
    cs := cs + When(Given(f.since), SinceClause(f));

    OrderingIs(sql, vals, columns, cs, f.order);
    if f.order {
      sql := sql + [ORDERING];
    }
    query := Concat(sql);
  }

  lemma OrderingIs(sql: seq<string>, vals: seq<Value>, columns: string, cs: seq<Clause>, order: bool)
    requires Built(sql, vals, columns, cs)
    ensures Concat(if order then sql + [ORDERING] else sql) == Template(Statement(columns, cs, order))
    ensures vals == Values(Statement(columns, cs, order))
  {
    var ps := Literally(Head(columns)) + AllWritten(cs);
    var tail := if order then Literally(ORDERING) else [];
    Associative(Literally(Head(columns)), AllWritten(cs), tail);
    if order {
      TemplateConcat(ps, Literally(ORDERING));
      LiterallyIs(ORDERING);
      ConcatAppend(sql, ORDERING);
    } else {
      assert ps + [] == ps;
    }
  }

  // ------------------------------------------- reading a bound statement as SQL does

  predicate InName(c: char) {
    IsIdent(c) || c == '.'
  }

  function ColumnName(ps: seq<Piece<Value>>): (name: string)
    ensures |name| <= |ps|
  {
    if ps != [] && ps[0].Plain? && InName(ps[0].c) then [ps[0].c] + ColumnName(ps[1..]) else ""
  }

  /** Values with commas between them and a closing parenthesis behind. */
  function ReadList(ps: seq<Piece<Value>>): (vs: Option<seq<Value>>)
    ensures vs.Some? ==> 2 * |vs.value| <= |ps|
  {
    if |ps| < 2 || !ps[0].Bound? then None
    else if ps[1] == Plain(')') then Some([ps[0].v])
    else if ps[1] == Plain(',') then Prepend(ps[0].v, ReadList(ps[2..]))
    else None
  }

  /** What stands behind a column name: the condition on it, and how many pieces it takes. */
  function ReadTest(column: string, ps: seq<Piece<Value>>): (r: Option<(Clause, nat)>)
    ensures r.Some? ==> 0 < r.value.1 <= |ps|
  {
    if |ps| > 1 && ps[0] == Plain('=') && ps[1].Bound? then Some((Equal(column, ps[1].v), 2))
    else if |ps| > 4 && Literally(" >= ") <= ps && ps[4].Bound? then Some((NotBelow(column, ps[4].v), 5))
    else if Literally(" IN (") <= ps && ReadList(ps[5..]).Some? then
      var vs := ReadList(ps[5..]).value;
      Some((OneOf(column, vs), 5 + 2 * |vs|))
    else None
  }

  predicate IsOrdering(ps: seq<Piece<Value>>) {
    ps == Literally(" ORDER BY nd.slot_id" + ", nf.ingestion_date")
  }

  lemma ConjunctIsNoOrdering(ps: seq<Piece<Value>>)
    requires |ps| > 1 && ps[1] == Plain('A')
    ensures !IsOrdering(ps)
  {
    var text := " ORDER BY nd.slot_id" + ", nf.ingestion_date";
    assert text[1] == 'O';
    assert |text| > 1 ==> Literally(text)[1] == Plain(text[1]);
  }

  /** The conjuncts behind the head of a statement, None when it is not of this form. */
  function ReadCondition(ps: seq<Piece<Value>>): Option<seq<Clause>>
    decreases |ps|
  {
    if ps == [] || IsOrdering(ps) then Some([])
    else if !(Literally(" AND ") <= ps) then None
    else
      var column := ColumnName(ps[5..]);
      var test := ReadTest(column, ps[5 + |column|..]);
      if test.None? then None
      else Prepend(test.value.0, ReadCondition(ps[5 + |column| + test.value.1..]))
  }

  /** What stands behind a join of the two tables on disk_id, None when the statement is no such join. */
  function BehindJoin(ps: seq<Piece<Value>>, columns: string): Option<seq<Piece<Value>>> {
    var join := "SELECT " + columns + " FROM ngas_disks nd," + " ngas_files nf WHERE" + " nd.disk_id=nf.disk_id";
    if Literally(join) <= ps then Some(ps[|join|..]) else None
  }

  /** Does the statement select the row? */
  ghost predicate Selects(ps: seq<Piece<Value>>, columns: string, row: Row) {
    var condition := BehindJoin(ps, columns);
    condition.Some? &&
    var cs := ReadCondition(condition.value);
    cs.Some? && Joined(row) && AllHold(cs.value, row)
  }

  lemma HeadIsJoin(columns: string, rest: seq<Piece<Value>>)
    ensures BehindJoin(Literally(Head(columns)) + rest, columns) == Some(rest)
  {
    var head := Literally(Head(columns));
    assert |head| == |Head(columns)| && (head + rest)[|head|..] == rest;
  }

  predicate ColumnText(s: string) {
    forall ch :: ch in s ==> InName(ch)
  }

  predicate Readable(c: Clause) {
    ColumnText(c.column) && (c.OneOf? ==> c.values != [])
  }

  lemma {:induction false} ColumnNameOf(column: string, ps: seq<Piece<Value>>)
    requires ColumnText(column)
    requires ps != [] && ps[0].Plain? && !InName(ps[0].c)
    ensures ColumnName(Literally(column) + ps) == column
  {
    if column == "" {
      assert Literally(column) + ps == ps;
    } else {
      assert (Literally(column) + ps)[1..] == Literally(column[1..]) + ps;
      ColumnNameOf(column[1..], ps);
      assert column == [column[0]] + column[1..];
    }
  }

  lemma ReadListStep(v: Value, next: char, ps: seq<Piece<Value>>)
    ensures ReadList([Bound(v), Plain(next)] + ps)
         == if next == ')' then Some([v]) else if next == ',' then Prepend(v, ReadList(ps)) else None
  {
    assert ([Bound(v), Plain(next)] + ps)[2..] == ps;
  }

  lemma {:induction false} ReadListed(vs: seq<Value>, rest: seq<Piece<Value>>)
    requires vs != []
    ensures |Listed(vs)| == 2 * |vs| - 1
    ensures ReadList(Listed(vs) + Literally(")") + rest) == Some(vs)
  {
    if |vs| == 1 {
      ReadListStep(vs[0], ')', rest);
      assert Listed(vs) + Literally(")") == [Bound(vs[0]), Plain(')')];
      assert vs == [vs[0]];
    } else {
      var more := Listed(vs[1..]);
      ReadListed(vs[1..], rest);
      ReadListStep(vs[0], ',', more + Literally(")") + rest);
      assert Listed(vs) == [Bound(vs[0]), Plain(',')] + more;
      hide Listed, ReadList;
      Associative([Bound(vs[0]), Plain(',')], more, Literally(")"));
      Associative([Bound(vs[0]), Plain(',')], more + Literally(")"), rest);
      assert vs == [vs[0]] + vs[1..];
    }
  }

  lemma ReadInTest(column: string, vs: seq<Value>, list: seq<Piece<Value>>, rest: seq<Piece<Value>>)
    requires ReadList(list + rest) == Some(vs)
    ensures ReadTest(column, Literally(" IN (") + list + rest) == Some((OneOf(column, vs), 5 + 2 * |vs|))
  {
    var ps := Literally(" IN (") + list + rest;
    assert ps[0] == Plain(' ') && ps[1] == Plain('I') && Literally(" >= ")[1] == Plain('>');
    assert ps[..5] == Literally(" IN (");
    assert ps[5..] == list + rest;
    hide ReadList;
  }

  lemma ReadTestOf(c: Clause, rest: seq<Piece<Value>>)
    requires Readable(c)
    ensures ReadTest(c.column, Test(c) + rest) == Some((c, |Test(c)|))
    ensures |Test(c)| > 0 && Test(c)[0].Plain? && !InName(Test(c)[0].c)
  {
    var ps := Test(c) + rest;
    match c {
      case Equal(_, v) =>
        assert ps[0] == Plain('=') && ps[1] == Bound(v);
      case NotBelow(_, v) =>
        assert ps[0] == Plain(' ') && ps[4] == Bound(v);
        assert ps[..4] == Literally(" >= ");
      case OneOf(_, vs) =>
        ReadListed(vs, rest);
        hide ReadList, Listed;
        assert Literally(" IN (") + (Listed(vs) + Literally(")")) == Test(c);
        ReadInTest(c.column, vs, Listed(vs) + Literally(")"), rest);
    }
  }

  /** Where the parts of a concatenation are. */
  lemma Slices<T>(a: seq<T>, b: seq<T>, c: seq<T>, d: seq<T>)
    ensures var s := a + (b + c) + d;
            && a <= s && s[|a|..] == b + (c + d)
            && s[|a| + |b|..] == c + d && s[|a| + |b| + |c|..] == d
  {
    var s := a + (b + c) + d;
    assert s[..|a|] == a;
  }

  lemma WrittenIs(c: Clause)
    ensures Written(c) == Literally(" AND ") + (Literally(c.column) + Test(c))
    ensures |Literally(" AND ")| == 5 && |Literally(c.column)| == |c.column|
    ensures Literally(" AND ")[1] == Plain('A')
  {
    LiterallyConcat(" AND ", c.column);
    assert Literally(" AND ")[1] == Plain(" AND "[1]);
    hide Test, Literally;
    Associative(Literally(" AND "), Literally(c.column), Test(c));
  }

  lemma ReadClause(ps: seq<Piece<Value>>, column: string, c: Clause, n: nat)
    requires Literally(" AND ") <= ps && |ps| > 5 && ps[1] == Plain('A') && ColumnName(ps[5..]) == column
    requires ReadTest(column, ps[5 + |column|..]) == Some((c, n))
    ensures 5 + |column| + n <= |ps| && ReadCondition(ps) == Prepend(c, ReadCondition(ps[5 + |column| + n..]))
  {
    ConjunctIsNoOrdering(ps);
    hide IsOrdering, ReadTest, ColumnName, Literally;
  }

  lemma ReadWritten(c: Clause, rest: seq<Piece<Value>>)
    requires Readable(c)
    ensures ReadCondition(Written(c) + rest) == Prepend(c, ReadCondition(rest))
  {
    WrittenIs(c);
    ReadTestOf(c, rest);
    ColumnNameOf(c.column, Test(c) + rest);
    hide *;
    Slices(Literally(" AND "), Literally(c.column), Test(c), rest);
    assert (Written(c) + rest)[1] == Literally(" AND ")[1];
    ReadClause(Written(c) + rest, c.column, c, |Test(c)|);
  }

  lemma ConditionHead(c: Clause, cs: seq<Clause>, order: bool)
    ensures Condition([c] + cs, order) == Written(c) + Condition(cs, order)
  {
    assert ([c] + cs)[1..] == cs;
  }

  lemma {:induction false} ReadAllWritten(cs: seq<Clause>, order: bool)
    requires forall c :: c in cs ==> Readable(c)
    ensures ReadCondition(Condition(cs, order)) == Some(cs)
  {
    if cs != [] {
      assert cs == [cs[0]] + cs[1..];
      ReadAllWritten(cs[1..], order);
      ReadWritten(cs[0], Condition(cs[1..], order));
      ConditionHead(cs[0], cs[1..], order);
      hide ReadCondition, Condition, Readable, Written;
    }
  }

  // --------------------------------------------------------------- main theorem

  predicate HarmlessText(s: string) {
    forall c :: c in s ==> Harmless(c)
  }

  lemma HarmlessConcat(s: string, t: string)
    requires HarmlessText(s) && HarmlessText(t)
    ensures HarmlessText(s + t)
  {
  }

  lemma OrderingHarmless()
    ensures HarmlessText(ORDERING)
  {
    assert HarmlessText(" ORDER BY nd.slot_id");
    assert HarmlessText(", nf.ingestion_date");
    hide HarmlessText;
    HarmlessConcat(" ORDER BY nd.slot_id", ", nf.ingestion_date");
  }

  lemma TablesHarmless()
    ensures HarmlessText(" FROM ngas_disks nd,") && HarmlessText(" ngas_files nf WHERE")
  {
  }

  lemma HeadHarmless(columns: string)
    requires HarmlessText(columns)
    ensures HarmlessText(Head(columns))
  {
    assert HarmlessText("SELECT ");
    assert HarmlessText(" nd.disk_id=nf.disk_id");
    hide HarmlessText;
    TablesHarmless();
    HarmlessConcat("SELECT ", columns);
    HarmlessConcat("SELECT " + columns, " FROM ngas_disks nd,");
    HarmlessConcat("SELECT " + columns + " FROM ngas_disks nd,", " ngas_files nf WHERE");
    HarmlessConcat("SELECT " + columns + " FROM ngas_disks nd," + " ngas_files nf WHERE", " nd.disk_id=nf.disk_id");
  }

  lemma LiterallyTame(s: string)
    requires HarmlessText(s)
    ensures Tame(Literally(s))
  {
  }

  lemma {:induction false} ListedTame(vs: seq<Value>)
    ensures Tame(Listed(vs))
  {
    if |vs| > 1 {
      ListedTame(vs[1..]);
      var pair := [Bound(vs[0]), Plain(',')];
      forall i | 0 <= i < |Listed(vs)| - 1 && Listed(vs)[i].Bound? && Listed(vs)[i + 1].Plain?
        ensures !IsIdent(Listed(vs)[i + 1].c)
      {
        if i > 1 {
          assert Listed(vs)[i] == Listed(vs[1..])[i - 2] && Listed(vs)[i + 1] == Listed(vs[1..])[i - 1];
        }
      }
    }
  }

  lemma WrittenTame(c: Clause)
    requires HarmlessText(c.column)
    ensures Tame(Written(c)) && Written(c)[0] == Plain(' ')
  {
    LiterallyTame(" AND " + c.column);
    match c {
      case Equal(_, v) =>
        LiterallyTame("=");
        TameBound(Literally("="), v);
        TameConcat(Literally(" AND " + c.column), Literally("=") + [Bound(v)]);
      case NotBelow(_, v) =>
        LiterallyTame(" >= ");
        TameBound(Literally(" >= "), v);
        TameConcat(Literally(" AND " + c.column), Literally(" >= ") + [Bound(v)]);
      case OneOf(_, vs) =>
        LiterallyTame(" IN (");
        LiterallyTame(")");
        ListedTame(vs);
        TameConcat(Listed(vs), Literally(")"));
        TameAfterText(" IN (", Listed(vs) + Literally(")"));
        hide Tame;
        assert Literally(" IN (") + (Listed(vs) + Literally(")")) == Literally(" IN (") + Listed(vs) + Literally(")");
        TameConcat(Literally(" AND " + c.column), Literally(" IN (") + Listed(vs) + Literally(")"));
    }
  }

  lemma TameBound(ps: seq<Piece<Value>>, v: Value)
    requires Tame(ps)
    ensures Tame(ps + [Bound(v)])
  {
  }

  lemma TameAfterText(s: string, qs: seq<Piece<Value>>)
    requires HarmlessText(s) && Tame(qs)
    ensures Tame(Literally(s) + qs)
  {
    var rs := Literally(s) + qs;
    forall i | 0 <= i < |rs| - 1 && rs[i].Bound? && rs[i + 1].Plain?
      ensures !IsIdent(rs[i + 1].c)
    {
      assert rs[i] == qs[i - |s|] && rs[i + 1] == qs[i + 1 - |s|];
    }
  }

  lemma {:induction false} ConditionTame(cs: seq<Clause>, order: bool)
    requires forall c :: c in cs ==> HarmlessText(c.column)
    ensures Tame(Condition(cs, order))
    ensures Condition(cs, order) == [] || Condition(cs, order)[0] == Plain(' ')
  {
    if cs == [] {
      OrderingHarmless();
      LiterallyTame(ORDERING) by { hide HarmlessText; }
      assert [] + Literally(ORDERING) == Literally(ORDERING);
    } else {
      assert cs == [cs[0]] + cs[1..];
      WrittenTame(cs[0]);
      ConditionTame(cs[1..], order);
      ConditionHead(cs[0], cs[1..], order);
      hide Tame, Condition, Written, HarmlessText;
      TameConcat(Written(cs[0]), Condition(cs[1..], order));
    }
  }

  lemma ClausesHoldIff(f: Filters, ignoreColumn: string, row: Row)
    ensures AllHold(Clauses(f, ignoreColumn), row) <==> Wanted(f, ignoreColumn, row)
  {
    var a, b := When(f.ignored.Some?, IgnoreClause(f, ignoreColumn)), When(Given(f.hostId), HostClause(f));
    var c, d := InClause("nd.disk_id", f.diskIds), InClause("nf.file_id", f.fileIds);
    var e, g := InClause("nf.file_status", f.fileStatus), When(Given(f.since), SinceClause(f));
    HoldConcat(a, b, row);
    HoldConcat(a + b, c, row);
    HoldConcat(a + b + c, d, row);
    HoldConcat(a + b + c + d, e, row);
    HoldConcat(a + b + c + d + e, g, row);
    WhenHolds(f.ignored.Some?, IgnoreClause(f, ignoreColumn), row);
    WhenHolds(Given(f.hostId), HostClause(f), row);
    WhenHolds(Given(f.since), SinceClause(f), row);
    InClauseHolds("nd.disk_id", f.diskIds, row);
    InClauseHolds("nf.file_id", f.fileIds, row);
    InClauseHolds("nf.file_status", f.fileStatus, row);
    hide AllHold, InClause, When, HasOneOf;
  }

  lemma HoldConcat(cs: seq<Clause>, ds: seq<Clause>, row: Row)
    ensures AllHold(cs + ds, row) <==> AllHold(cs, row) && AllHold(ds, row)
  {
    assert forall c :: c in cs || c in ds ==> c in cs + ds;
  }

  lemma WhenHolds(given: bool, c: Clause, row: Row)
    ensures AllHold(When(given, c), row) <==> (given ==> Holds(c, row))
  {
    assert given ==> c in When(given, c);
  }

  lemma InClauseHolds(column: string, names: seq<string>, row: Row)
    ensures AllHold(InClause(column, names), row) <==> (names != [] ==> HasOneOf(row, column, names))
  {
    if names != [] {
      var c := OneOf(column, AsValues(names));
      assert c in InClause(column, names);
      if column in row && row[column].Characters? && row[column].s in names {
        var i :| 0 <= i < |names| && names[i] == row[column].s;
        assert AsValues(names)[i] == row[column];
      }
    }
  }

  lemma ColumnTextHarmless(s: string)
    requires ColumnText(s)
    ensures HarmlessText(s)
  {
  }

  lemma FixedColumns()
    ensures ColumnText("nd.host_id") && ColumnText("nd.disk_id") && ColumnText("nf.file_id")
    ensures ColumnText("nf.file_status") && ColumnText("nf.ingestion_date") && ColumnText("nf.")
  {
  }

  lemma ClausesReadable(f: Filters, ignoreColumn: string)
    requires ColumnText(ignoreColumn)
    ensures forall c :: c in Clauses(f, ignoreColumn) ==> Readable(c) && HarmlessText(c.column)
  {
    FixedColumns();
    assert ColumnText("nf." + ignoreColumn);
    hide ColumnText, HarmlessText;
    forall c | c in Clauses(f, ignoreColumn)
      ensures Readable(c) && HarmlessText(c.column)
    {
      assert ColumnText(c.column) && (c.OneOf? ==> c.values != []);
      hide Clauses;
      ColumnTextHarmless(c.column);
    }
    hide *;
  }

  /** Whatever the driver and the filters, the built query reaches the database as a statement that
      selects exactly the joined rows meeting every filter that is given. */
  lemma SummarySelectsWanted(style: Style, columns: string, ignoreColumn: string, f: Filters, row: Row)
    requires HarmlessText(columns) && ColumnText(ignoreColumn)
    requires Clauses(f, ignoreColumn) != []
    ensures var ps := Statement(columns, Clauses(f, ignoreColumn), f.order);
            Values(ps) != []
    ensures var ps := Statement(columns, Clauses(f, ignoreColumn), f.order);
            var p := Prepare(style, Template(ps), Values(ps));
            && p.Some? && Bind(style, p.value.0, p.value.1) == Some(ps)
            && (Selects(ps, columns, row) <==> Joined(row) && Wanted(f, ignoreColumn, row))
  {
    var cs := Clauses(f, ignoreColumn);
    var ps := Statement(columns, cs, f.order);
    ClausesReadable(f, ignoreColumn);
    ClausesHoldIff(f, ignoreColumn, row);
    ReadAllWritten(cs, f.order);
    ConditionTame(cs, f.order);
    HeadHarmless(columns);
    LiterallyTame(Head(columns)) by { hide HarmlessText; }
    ConditionAsks(cs, f.order);
    hide Clauses, Condition, Tame, AllHold, ReadCondition, Readable, HarmlessText;
    TameConcat(Literally(Head(columns)), Condition(cs, f.order));
    HeadIsJoin(columns, Condition(cs, f.order));
    hide BehindJoin, Head;
    TemplateConcat(Literally(Head(columns)), Condition(cs, f.order));
    AnyDriverBinds(style, ps);
  }

  lemma NoPercents(columns: string)
    ensures '%' in Head(columns) + ORDERING <==> '%' in columns
    ensures '%' in Head(columns) <==> '%' in columns
  {
    assert '%' !in ORDERING;
    assert '%' !in "SELECT " && '%' !in " FROM ngas_disks nd,";
    assert '%' !in " ngas_files nf WHERE" && '%' !in " nd.disk_id=nf.disk_id";
  }

  /** With no filter at all there is nothing to bind: the statement is sent as text, which selects every
      joined row, and is intact unless the columns have percent signs that the driver style doubles. */
  lemma SummaryWithoutFilters(style: Style, columns: string, ignoreColumn: string, f: Filters, row: Row)
    requires Clauses(f, ignoreColumn) == []
    ensures var ps := Statement(columns, [], f.order);
            && Values(ps) == [] && Literally(Template(ps)) == ps
            && (EscapedFor(style, Template(ps)) == Template(ps) <==>
                  !((style.Format? || style.PyFormat?) && '%' in columns))
            && (Selects(ps, columns, row) <==> Joined(row))
            && Wanted(f, ignoreColumn, row)
  {
    var text := Head(columns) + if f.order then ORDERING else "";
    var ps := Statement(columns, [], f.order);
    ClausesHoldIff(f, ignoreColumn, row);
    ReadAllWritten([], f.order);
    HeadIsJoin(columns, Condition([], f.order));
    hide Clauses, Wanted, ReadCondition, BehindJoin;
    assert AllWritten([]) == [];
    assert Literally("") == [];
    LiterallyConcat(Head(columns), if f.order then ORDERING else "");
    assert ps == Literally(text);
    LiterallyIs(text);
    NoPercents(columns);
    SentAsIsIff(style, text);
    hide EscapedFor, Head;
  }

  lemma ConditionAsks(cs: seq<Clause>, order: bool)
    requires cs != [] && Readable(cs[0])
    ensures Values(Condition(cs, order)) != []
  {
    assert Condition(cs, order) == Written(cs[0]) + (AllWritten(cs[1..]) + if order then Literally(ORDERING) else []);
    TemplateConcat(Written(cs[0]), AllWritten(cs[1..]) + if order then Literally(ORDERING) else []);
    match cs[0] {
      case Equal(column, v) => ComparisonIs(column, "=", v);
      case OneOf(column, vs) => MembershipIs(column, vs);
      case NotBelow(column, v) => ComparisonIs(column, " >= ", v);
    }
  }

  predicate EndsInE(ps: seq<Piece<Value>>) {
    ps != [] && ps[|ps| - 1] == Plain('e')
  }

  lemma {:induction false} ClausesEnd(cs: seq<Clause>)
    ensures cs != [] ==> AllWritten(cs) != []
    ensures !EndsInE(AllWritten(cs))
  {
    if cs != [] {
      ClausesEnd(cs[1..]);
      var c := Written(cs[0]);
      assert c[|c| - 1].Bound? || c[|c| - 1] == Plain(')');
    }
  }

  /** The statement ends with the ordering by slot and date exactly when that is asked for. */
  lemma OrderedIff(columns: string, cs: seq<Clause>, order: bool)
    ensures (exists ps :: Statement(columns, cs, order) == ps + Literally(" ORDER BY nd.slot_id" + ", nf.ingestion_date"))
       <==> order
  {
    var ps := Statement(columns, cs, order);
    var last := Literally(" ORDER BY nd.slot_id" + ", nf.ingestion_date");
    if order {
      Associative(Literally(Head(columns)), AllWritten(cs), last);
      assert ps == Literally(Head(columns)) + AllWritten(cs) + last;
    } else {
      assert ps == Literally(Head(columns)) + AllWritten(cs);
      assert Head(columns)[|Head(columns)| - 1] == 'd';
      assert (" ORDER BY nd.slot_id" + ", nf.ingestion_date")[|last| - 1] == 'e';
      assert EndsInE(last);
      ClausesEnd(cs);
      hide Head, AllWritten, Literally;
      assert !EndsInE(ps);
    }
  }
}
