/** Interning of server lists: a canonical text for each bag of servers, and a table of their IDs. */
module ServerLists {
  import opened Optional
  import opened Orders
  import opened Text

  // ------------------------------------------------------------- Python's str()

  function HexDigit(d: nat): char
    requires d < 16
  {
    "0123456789abcdef"[d]
  }

  predicate IsControl(c: char) {
    c < ' ' || c as int == 127
  }

  function EscapeChar(c: char, quote: char): string {
    if c == '\\' || c == quote then ['\\', c]
    else if c == '\n' then ['\\', 'n']
    else if c == '\t' then ['\\', 't']
    else if c == '\r' then ['\\', 'r']
    else if IsControl(c) then ['\\', 'x', HexDigit(c as int / 16), HexDigit(c as int % 16)]
    else [c]
  }

  function EscapeAll(s: string, quote: char): string {
    if s == "" then "" else EscapeChar(s[0], quote) + EscapeAll(s[1..], quote)
  }

  /** repr(s): in single quotes, unless the text has some of those and no double ones. */
  function Repr(s: string): string {
    var quote := if '\'' in s && '"' !in s then '"' else '\'';
    [quote] + EscapeAll(s, quote) + [quote]
  }

  /** str(parts)[1:-1] */
  function ListBody(parts: seq<string>): string {
    if parts == [] then ""
    else if |parts| == 1 then Repr(parts[0])
    else Repr(parts[0]) + ", " + ListBody(parts[1..])
  }

  // --------------------------------------------------------------- cleanSrvList

  function Servers(s: string): seq<string> {
    Split(Without(s, ' '), ',')
  }

  function Strip(s: string): string {
    Without(Without(s, '\''), ' ')
  }

  function Clean(s: string): string {
    Strip(ListBody(Sort(Servers(s))))
  }

  /** What is left of a list element. */
  function Bare(s: string): string {
    Strip(Repr(s))
  }

  function Bares(parts: seq<string>): seq<string> {
    if parts == [] then [] else [Bare(parts[0])] + Bares(parts[1..])
  }

  /** Neither single quotes nor characters that repr() escapes. */
  predicate IsPlain(c: char) {
    c != '\'' && c != '\\' && !IsControl(c)
  }

  ghost predicate Plain(s: string) {
    forall c :: c in s ==> IsPlain(c)
  }

  lemma {:induction false} WithoutConcat(a: string, b: string, c: char)
    ensures Without(a + b, c) == Without(a, c) + Without(b, c)
  {
    if a == "" {
      assert a + b == b;
    } else {
      assert (a + b)[1..] == a[1..] + b;
      WithoutConcat(a[1..], b, c);
    }
  }

  lemma StripConcat(a: string, b: string)
    ensures Strip(a + b) == Strip(a) + Strip(b)
  {
    WithoutConcat(a, b, '\'');
    WithoutConcat(Without(a, '\''), Without(b, '\''), ' ');
  }

  lemma StripSeparator()
    ensures Strip(", ") == ","
  {
    assert Without(", ", '\'') == ", " by { WithoutRemoves(", ", '\''); }
    assert ", "[1..] == " " && " "[1..] == "";
    assert Without(" ", ' ') == "";
  }

  lemma {:induction false} StripListBody(parts: seq<string>)
    ensures Strip(ListBody(parts)) == Join(Bares(parts), ',')
  {
    if |parts| == 1 {
      assert Bares(parts) == [Bare(parts[0])];
    } else if parts != [] {
      StripListBody(parts[1..]);
      StripSeparator();
      hide Strip;
      StripConcat(Repr(parts[0]) + ", ", ListBody(parts[1..]));
      StripConcat(Repr(parts[0]), ", ");
      assert Bares(parts)[1..] == Bares(parts[1..]);
    }
  }

  lemma StripRemoves(s: string)
    ensures '\'' !in Strip(s) && ' ' !in Strip(s)
    ensures '\'' !in s && ' ' !in s ==> Strip(s) == s
  {
    WithoutRemoves(s, '\'');
    WithoutRemoves(Without(s, '\''), ' ');
  }

  lemma EscapeCharLengthens(c: char)
    requires c != '\'' && c != ' '
    ensures var e := EscapeChar(c, '\'');
            && '\'' !in e && ' ' !in e
            && (if IsPlain(c) then e == [c] else |e| > 1 && '\\' in e)
  {
    var e := EscapeChar(c, '\'');
    assert !IsPlain(c) ==> e[0] == '\\';
  }

  /** Escaping lengthens exactly the texts that are not plain, and leaves a backslash in them. */
  lemma {:induction false} EscapeLengthens(s: string)
    requires '\'' !in s && ' ' !in s
    ensures '\'' !in EscapeAll(s, '\'') && ' ' !in EscapeAll(s, '\'')
    ensures Plain(s) ==> EscapeAll(s, '\'') == s
    ensures |EscapeAll(s, '\'')| >= |s|
    ensures !Plain(s) ==> |EscapeAll(s, '\'')| > |s| && '\\' in EscapeAll(s, '\'')
  {
    if s != "" {
      assert s == [s[0]] + s[1..];
      EscapeLengthens(s[1..]);
      EscapeCharLengthens(s[0]);
      assert Plain(s) <==> IsPlain(s[0]) && Plain(s[1..]);
      hide EscapeChar, IsPlain, Plain;
    }
  }

  lemma BareIs(s: string)
    requires '\'' !in s && ' ' !in s
    ensures Bare(s) == EscapeAll(s, '\'')
  {
    EscapeLengthens(s);
    var e := EscapeAll(s, '\'');
    StripConcat("'" + e, "'");
    StripConcat("'", e);
    StripRemoves(e);
    assert Without("'", '\'') == "" && Without("", ' ') == "";
  }

  lemma BareLengthens(s: string)
    requires '\'' !in s && ' ' !in s
    ensures Plain(s) ==> Bare(s) == s
    ensures |Bare(s)| >= |s|
    ensures !Plain(s) ==> |Bare(s)| > |s| && '\\' in Bare(s)
  {
    EscapeLengthens(s);
    BareIs(s);
  }

  /** The escapes are a prefix code. */
  lemma EscapePrefixFree(a: char, b: char, s: string, t: string)
    requires a != '\'' && b != '\'' && EscapeChar(a, '\'') + s == EscapeChar(b, '\'') + t
    ensures a == b && s == t
  {
    var e, f := EscapeChar(a, '\''), EscapeChar(b, '\'');
    var u := e + s;
    assert u[0] == e[0] && u[0] == f[0];
    assert |e| > 1 ==> u[1] == e[1];
    assert |f| > 1 ==> u[1] == f[1];
    if |e| == 4 && |f| == 4 {
      assert u[2] == e[2] && u[2] == f[2] && u[3] == e[3] && u[3] == f[3];
      HexDigitsDiffer(a as int / 16, b as int / 16);
      HexDigitsDiffer(a as int % 16, b as int % 16);
    }
    assert a == b;
    assert s == u[|e|..] && t == u[|f|..];
  }

  lemma HexDigitsDiffer(d: nat, e: nat)
    requires d < 16 && e < 16 && HexDigit(d) == HexDigit(e)
    ensures d == e
  {
  }

  lemma {:induction false} EscapeInjective(s: string, t: string)
    requires '\'' !in s && '\'' !in t && EscapeAll(s, '\'') == EscapeAll(t, '\'')
    ensures s == t
  {
    if s != "" && t != "" {
      hide EscapeChar;
      EscapePrefixFree(s[0], t[0], EscapeAll(s[1..], '\''), EscapeAll(t[1..], '\''));
      EscapeInjective(s[1..], t[1..]);
      assert s == [s[0]] + s[1..] && t == [t[0]] + t[1..];
    }
  }

  lemma {:induction false} BaresInjective(ps: seq<string>, qs: seq<string>)
    requires PartsBare(ps) && PartsBare(qs) && Bares(ps) == Bares(qs)
    ensures ps == qs
  {
    if ps != [] && qs != [] {
      BareIs(ps[0]);
      BareIs(qs[0]);
      hide Bare;
      assert Bares(ps)[0] == Bares(qs)[0] && Bares(ps)[1..] == Bares(qs)[1..];
      EscapeInjective(ps[0], qs[0]);
      BaresInjective(ps[1..], qs[1..]);
      assert ps == [ps[0]] + ps[1..] && qs == [qs[0]] + qs[1..];
    }
  }

  // ------------------------------------------------------ what repr() leaves of a text

  predicate IsEscaped(c: char, quote: char) {
    c == '\\' || c == quote || IsControl(c)
  }

  /** repr() escapes nothing in the text. */
  ghost predicate Unescaped(s: string) {
    && (forall c :: c in s ==> c != '\\' && !IsControl(c))
    && !('\'' in s && '"' in s)
  }

  lemma EscapeCharMakes(c: char, quote: char)
    requires quote == '\'' || quote == '"'
    ensures var e := EscapeChar(c, quote);
            && ('\\' in e <==> IsEscaped(c, quote))
            && (forall d :: d in e ==> !IsControl(d) && (d == ',' ==> c == ','))
  {
  }

  /** Escaping leaves a backslash exactly when it escapes something, and never a control character. */
  lemma {:induction false} EscapeAllMakes(s: string, quote: char)
    requires quote == '\'' || quote == '"'
    ensures '\\' in EscapeAll(s, quote) <==> exists c :: c in s && IsEscaped(c, quote)
    ensures forall d :: d in EscapeAll(s, quote) ==> !IsControl(d) && (d == ',' ==> ',' in s)
  {
    if s != "" {
      assert s == [s[0]] + s[1..];
      EscapeCharMakes(s[0], quote);
      EscapeAllMakes(s[1..], quote);
      hide EscapeChar, IsEscaped;
      assert forall d :: d in EscapeAll(s, quote) <==> d in EscapeChar(s[0], quote) || d in EscapeAll(s[1..], quote);
      assert forall c :: c in s <==> c == s[0] || c in s[1..];
    }
  }

  /** A stripped representation is plain exactly when nothing in it was escaped. */
  lemma BarePlainIff(s: string)
    ensures Plain(Bare(s)) <==> Unescaped(s)
    ensures '\'' !in Bare(s) && ' ' !in Bare(s) && (',' !in s ==> ',' !in Bare(s))
  {
    var quote := if '\'' in s && '"' !in s then '"' else '\'';
    var r := Repr(s);
    EscapeAllMakes(s, quote);
    StripRemoves(r);
    forall c | c != '\'' && c != ' '
      ensures c in Bare(s) <==> c in r
    {
      WithoutKeeps(r, c, '\'');
      WithoutKeeps(Without(r, '\''), c, ' ');
    }
    assert forall c :: c in r <==> c == quote || c in EscapeAll(s, quote);
    hide Strip, EscapeAll, Repr;
    assert '\\' in r <==> exists c :: c in s && IsEscaped(c, quote);
    assert Plain(Bare(s)) <==> '\\' !in r;
  }

  // --------------------------------------------------- lengths of joined texts

  function Total(parts: seq<string>): nat {
    if parts == [] then 0 else |parts[0]| + Total(parts[1..])
  }

  lemma {:induction false} JoinLength(parts: seq<string>)
    requires parts != []
    ensures |Join(parts, ',')| == Total(parts) + |parts| - 1
  {
    if |parts| == 1 {
      assert parts[1..] == [];
    } else {
      JoinLength(parts[1..]);
    }
  }

  lemma {:induction false} TotalInsert(x: string, parts: seq<string>)
    ensures Total(Insert(x, parts)) == |x| + Total(parts) && |Insert(x, parts)| == |parts| + 1
  {
    if parts == [] || LexLeq(x, parts[0]) {
      assert ([x] + parts)[1..] == parts;
    } else {
      TotalInsert(x, parts[1..]);
      assert Insert(x, parts)[1..] == Insert(x, parts[1..]);
    }
  }

  lemma {:induction false} TotalSort(parts: seq<string>)
    ensures Total(Sort(parts)) == Total(parts) && |Sort(parts)| == |parts|
  {
    if parts != [] {
      TotalSort(parts[1..]);
      TotalInsert(parts[0], Sort(parts[1..]));
    }
  }

  lemma {:induction false} JoinSplit(s: string)
    ensures Join(Split(s, ','), ',') == s
  {
    if s != "" {
      var rest := Split(s[1..], ',');
      JoinSplit(s[1..]);
      assert s == [s[0]] + s[1..];
      if s[0] == ',' {
        assert ([""] + rest)[1..] == rest;
        assert "" + [','] + Join(rest, ',') == [','] + Join(rest, ',');
      } else if |rest| > 1 {
        var parts := [[s[0]] + rest[0]] + rest[1..];
        assert parts[1..] == rest[1..];
        assert [s[0]] + rest[0] + [','] + Join(rest[1..], ',') == [s[0]] + (rest[0] + [','] + Join(rest[1..], ','));
      }
    }
  }

  ghost predicate PartsPlain(parts: seq<string>) {
    forall p :: p in parts ==> Plain(p)
  }

  /** No part has a quote or a space. */
  predicate PartsBare(parts: seq<string>) {
    forall p :: p in parts ==> '\'' !in p && ' ' !in p
  }

  lemma {:induction false} BaresLengthen(parts: seq<string>)
    requires PartsBare(parts)
    ensures |Bares(parts)| == |parts| && Total(Bares(parts)) >= Total(parts)
    ensures PartsPlain(parts) ==> Bares(parts) == parts
    ensures !PartsPlain(parts) ==> Total(Bares(parts)) > Total(parts) && exists b :: b in Bares(parts) && '\\' in b
  {
    if parts != [] {
      var p, rest := parts[0], parts[1..];
      assert parts == [p] + rest;
      BaresLengthen(rest);
      BareLengthens(p);
      hide Plain, Bare;
      assert PartsPlain(parts) <==> Plain(p) && PartsPlain(rest);
      assert Bares(parts)[1..] == Bares(rest);
      if !Plain(p) {
        assert Bare(p) in Bares(parts);
      } else if !PartsPlain(rest) {
        var b :| b in Bares(rest) && '\\' in b;
        assert b in Bares(parts);
      }
    }
  }

  lemma {:induction false} SplitKeepsChars(s: string, c: char)
    requires c != ','
    ensures c in s <==> exists p :: p in Split(s, ',') && c in p
  {
    if s == "" {
      assert Split(s, ',') == [""];
    } else {
      assert s == [s[0]] + s[1..];
      var rest := Split(s[1..], ',');
      SplitKeepsChars(s[1..], c);
      assert rest == [rest[0]] + rest[1..];
      var parts := Split(s, ',');
      if c in s {
        if c == s[0] {
          assert c in parts[0];
        } else {
          var p :| p in rest && c in p;
          if p in rest[1..] || s[0] == ',' { assert p in parts; } else { assert c in parts[0]; }
        }
      }
      SplitPartsLackSeparator(s, ',');
    }
  }

  lemma {:induction false} JoinKeepsChars(parts: seq<string>, p: string, c: char)
    requires p in parts && c in p
    ensures c in Join(parts, ',')
  {
    if |parts| > 1 && p != parts[0] {
      assert parts == [parts[0]] + parts[1..];
      JoinKeepsChars(parts[1..], p, c);
    }
  }

  lemma {:induction false} WithoutKeeps(s: string, c: char, d: char)
    requires c != d
    ensures c in Without(s, d) <==> c in s
  {
    if s != "" {
      assert s == [s[0]] + s[1..];
      WithoutKeeps(s[1..], c, d);
    }
  }

  lemma InSorted(parts: seq<string>, p: string)
    ensures p in Sort(parts) <==> p in parts
  {
    SortSorts(parts);
    assert p in multiset(Sort(parts)) <==> p in multiset(parts);
  }

  /** The characters of a list are those of its servers, but for spaces and commas. */
  lemma ServersKeepChars(s: string, c: char)
    requires c != ',' && c != ' '
    ensures c in s <==> exists p :: p in Sort(Servers(s)) && c in p
  {
    WithoutKeeps(s, c, ' ');
    SplitKeepsChars(Without(s, ' '), c);
    forall p
      ensures p in Sort(Servers(s)) <==> p in Servers(s)
    {
      InSorted(Servers(s), p);
    }
  }

  lemma ServersPlain(s: string)
    ensures Plain(s) <==> PartsPlain(Sort(Servers(s)))
    ensures forall p :: p in Sort(Servers(s)) ==> ',' !in p && ' ' !in p
    ensures '\'' !in s ==> PartsBare(Sort(Servers(s)))
  {
    WithoutRemoves(s, ' ');
    SplitPartsLackSeparator(Without(s, ' '), ',');
    forall p | p in Sort(Servers(s))
      ensures ',' !in p && ' ' !in p
    {
      InSorted(Servers(s), p);
    }
    forall c | c != ',' && c != ' '
      ensures c in s <==> exists p :: p in Sort(Servers(s)) && c in p
    {
      ServersKeepChars(s, c);
    }
    if !Plain(s) {
      var c :| c in s && !IsPlain(c);
      var p :| p in Sort(Servers(s)) && c in p;
      assert !Plain(p);
    }
    hide Sort, Servers;
  }

  // ---------------------------------------------------------------- main lemmas

  /** The sorted servers, joined by commas. */
  function Canonical(s: string): string {
    Join(Sort(Servers(s)), ',')
  }

  lemma SortedNonEmpty(s: string)
    ensures Sort(Servers(s)) != []
  {
    TotalSort(Servers(s));
  }

  /** cleanSrvList gives the sorted servers joined by commas exactly for lists of plain characters. */
  lemma CleanIsCanonicalIff(s: string)
    ensures Clean(s) == Canonical(s) <==> Plain(s)
  {
    var parts := Sort(Servers(s));
    StripListBody(parts);
    ServersPlain(s);
    SortedNonEmpty(s);
    if '\'' in s {
      ServersKeepChars(s, '\'');
      var p :| p in parts && '\'' in p;
      JoinKeepsChars(parts, p, '\'');
      StripRemoves(ListBody(parts));
    } else {
      BaresLengthen(parts);
      JoinLength(parts);
      JoinLength(Bares(parts));
    }
    hide Strip, Join, Sort, Servers, Bares, ListBody, PartsPlain, Total;
  }

  lemma CanonicalLength(s: string)
    requires ' ' !in s
    ensures |Canonical(s)| == |s|
  {
    WithoutRemoves(s, ' ');
    TotalSort(Split(s, ','));
    SortedNonEmpty(s);
    JoinLength(Sort(Split(s, ',')));
    JoinLength(Split(s, ','));
    JoinSplit(s);
  }

  lemma NotPlainAgain(s: string)
    requires '\'' !in s && !Plain(s)
    ensures var t := Clean(s); '\'' !in t && ' ' !in t && !Plain(t)
  {
    var parts := Sort(Servers(s));
    StripListBody(parts);
    ServersPlain(s);
    BaresLengthen(parts);
    var b :| b in Bares(parts) && '\\' in b;
    JoinKeepsChars(Bares(parts), b, '\\');
    StripRemoves(ListBody(parts));
    assert !IsPlain('\\');
  }

  lemma CleanGrows(t: string)
    requires '\'' !in t && ' ' !in t && !Plain(t)
    ensures |Clean(t)| > |t|
  {
    var parts := Sort(Servers(t));
    StripListBody(parts);
    ServersPlain(t);
    SortedNonEmpty(t);
    BaresLengthen(parts);
    JoinLength(parts);
    JoinLength(Bares(parts));
    CanonicalLength(t);
  }

  /** What cleaning gives, taken apart again. */
  lemma CleanParts(s: string)
    ensures '\'' !in Clean(s) && ' ' !in Clean(s)
    ensures Split(Clean(s), ',') == Bares(Sort(Servers(s)))
  {
    var parts := Sort(Servers(s));
    StripListBody(parts);
    StripRemoves(ListBody(parts));
    ServersPlain(s);
    SortedNonEmpty(s);
    BaresPlainIff(parts);
    hide Strip, Sort, Servers, ListBody;
    SplitJoin(Bares(parts), ',');
  }

  lemma {:induction false} BaresPlainIff(parts: seq<string>)
    ensures PartsPlain(Bares(parts)) <==> forall p :: p in parts ==> Unescaped(p)
    ensures |Bares(parts)| == |parts|
    ensures (forall p :: p in parts ==> ',' !in p) ==> forall b :: b in Bares(parts) ==> ',' !in b
  {
    if parts != [] {
      assert parts == [parts[0]] + parts[1..];
      BarePlainIff(parts[0]);
      BaresPlainIff(parts[1..]);
      hide Bare, Plain, Unescaped;
      assert Bares(parts) == [Bare(parts[0])] + Bares(parts[1..]);
      assert forall b :: b in Bares(parts) <==> b == Bare(parts[0]) || b in Bares(parts[1..]);
      assert forall p :: p in parts <==> p == parts[0] || p in parts[1..];
    }
  }

  /** Cleaning leaves a text alone exactly when it is a plain list in order. */
  lemma CleanFixesIff(t: string)
    requires '\'' !in t && ' ' !in t
    ensures Clean(t) == t <==> Plain(t) && Sorted(Split(t, ','))
  {
    var parts := Split(t, ',');
    WithoutRemoves(t, ' ');
    assert Servers(t) == parts;
    CleanIsCanonicalIff(t);
    if Plain(t) {
      JoinSplit(t);
      SortSorts(parts);
      SplitPartsLackSeparator(t, ',');
      forall p | p in Sort(parts) ensures ',' !in p { InSorted(parts, p); }
      SortedNonEmpty(t);
      SplitJoin(Sort(parts), ',');
      if Sorted(parts) { SortedUnique(parts, Sort(parts)); }
    } else {
      CleanGrows(t);
    }
  }

  /** Nothing in the list is escaped, and its servers stay in order when they lose their quotes. */
  ghost predicate Stable(s: string) {
    && (forall p :: p in Servers(s) ==> Unescaped(p))
    && Sorted(Bares(Sort(Servers(s))))
  }

  /** Cleaning twice is cleaning once exactly for stable lists. */
  lemma CleanIdempotentIff(s: string)
    ensures Clean(Clean(s)) == Clean(s) <==> Stable(s)
  {
    var t, parts := Clean(s), Sort(Servers(s));
    CleanParts(s);
    CleanFixesIff(t);
    BaresPlainIff(parts);
    PlainParts(t);
    forall p
      ensures p in parts <==> p in Servers(s)
    {
      InSorted(Servers(s), p);
    }
    hide Clean, Servers, Sort, Bares, Plain, Unescaped, Sorted;
  }

  lemma PlainParts(t: string)
    ensures Plain(t) <==> PartsPlain(Split(t, ','))
  {
    forall c | c != ','
      ensures c in t <==> exists p :: p in Split(t, ',') && c in p
    {
      SplitKeepsChars(t, c);
    }
    SplitPartsLackSeparator(t, ',');
    if !Plain(t) {
      var c :| c in t && !IsPlain(c);
      var p :| p in Split(t, ',') && c in p;
      assert !Plain(p);
    }
    hide Split;
  }

  /** Without single quotes the stable lists are the plain ones: each pass doubles a backslash again. */
  lemma StableIffPlain(s: string)
    requires '\'' !in s
    ensures Stable(s) <==> Plain(s)
  {
    var parts := Sort(Servers(s));
    ServersPlain(s);
    BaresLengthen(parts);
    SortSorts(Servers(s));
    forall p
      ensures p in parts <==> p in Servers(s)
    {
      InSorted(Servers(s), p);
    }
    hide Servers, Sort, Bares, Sorted;
    forall p | p in parts
      ensures Unescaped(p) <==> Plain(p)
    {
    }
  }

  predicate SameServers(s: string, t: string) {
    multiset(Servers(s)) == multiset(Servers(t))
  }

  /** Lists of the same servers, in whatever order, have one clean form. */
  lemma CleanPermuted(s: string, t: string)
    requires SameServers(s, t)
    ensures Clean(s) == Clean(t)
  {
    SortSorts(Servers(s));
    SortSorts(Servers(t));
    SortedUnique(Sort(Servers(s)), Sort(Servers(t)));
  }

  /** And lists without single quotes have one clean form only if they name the same servers. */
  lemma CleanEqualIff(s: string, t: string)
    requires '\'' !in s && '\'' !in t
    ensures Clean(s) == Clean(t) <==> SameServers(s, t)
  {
    if Clean(s) == Clean(t) {
      CleanParts(s);
      CleanParts(t);
      ServersPlain(s);
      ServersPlain(t);
      SortSorts(Servers(s));
      SortSorts(Servers(t));
      hide Clean, Servers, Sort, Bares;
      BaresInjective(Sort(Servers(s)), Sort(Servers(t)));
    }
    if SameServers(s, t) {
      CleanPermuted(s, t);
    }
  }

  /** Written with spaces anywhere, a list names the parts between its commas. */
  lemma ServersAre(s: string, parts: seq<string>)
    requires parts != [] && Without(s, ' ') == Join(parts, ',') && forall p :: p in parts ==> ',' !in p
    ensures Servers(s) == parts
  {
    SplitJoin(parts, ',');
  }

  // -------------------------------------------------------- the table of lists

  datatype Row = Row(id: nat, servers: string)

  /** The first row with the text, or with the ID, as a query returns it. */
  function FindList(rows: seq<Row>, servers: string): Option<nat> {
    if rows == [] then None else if rows[0].servers == servers then Some(rows[0].id) else FindList(rows[1..], servers)
  }

  function FindId(rows: seq<Row>, id: nat): Option<string> {
    if rows == [] then None else if rows[0].id == id then Some(rows[0].servers) else FindId(rows[1..], id)
  }

  /** Random numbers below 2**31, one of which is no ID yet. */
  predicate Draws(rows: seq<Row>, draws: seq<nat>) {
    exists k :: 0 <= k < |draws| && FindId(rows, draws[k]).None?
  }

  function FirstFree(rows: seq<Row>, draws: seq<nat>): nat
    requires Draws(rows, draws)
  {
    if FindId(rows, draws[0]).None? then draws[0]
    else
      assert Draws(rows, draws[1..]) by { LaterDraw(rows, draws); }
      FirstFree(rows, draws[1..])
  }

  lemma LaterDraw(rows: seq<Row>, draws: seq<nat>)
    requires Draws(rows, draws) && FindId(rows, draws[0]).Some?
    ensures Draws(rows, draws[1..])
  {
    var k :| 0 <= k < |draws| && FindId(rows, draws[k]).None?;
    assert draws[1..][k - 1] == draws[k];
  }

  function Added(rows: seq<Row>, s: string, draws: seq<nat>): seq<Row>
    requires Draws(rows, draws)
  {
    rows + [Row(FirstFree(rows, draws), Clean(s))]
  }

  /** Looking up a list, adding it when it is not there: the new table and the ID. */
  function Interned(rows: seq<Row>, s: string, draws: seq<nat>): (seq<Row>, nat)
    requires Draws(rows, draws)
  {
    var found := FindList(rows, Clean(s));
    if found.Some? then (rows, found.value)
    else (Added(rows, Clean(s), draws), FirstFree(rows, draws))
  }

  class ServerListTable {
    var rows: seq<Row>

    constructor ()
      ensures rows == []
    {
      rows := [];
    }

    method GetSrvListFromId(id: nat) returns (servers: Option<string>)
      ensures servers == FindId(rows, id)
    {
      var i := 0;
      while i < |rows|
        invariant 0 <= i <= |rows| && FindId(rows, id) == FindId(rows[i..], id)
      {
        if rows[i].id == id { return Some(rows[i].servers); }
        assert rows[i..][1..] == rows[i + 1..];
        i := i + 1;
      }
      return None;
    }

    method AddSrvList(s: string, draws: seq<nat>) returns (id: nat)
      requires Draws(rows, draws)
      modifies this
      ensures rows == Added(old(rows), s, draws)
      ensures id == FirstFree(old(rows), draws) && FindId(old(rows), id).None?
    {
      var k := 0;
      var taken := GetSrvListFromId(draws[0]);
      while taken.Some?
        invariant rows == old(rows) && 0 <= k < |draws| && taken == FindId(rows, draws[k])
        invariant Draws(rows, draws[k..]) && FirstFree(rows, draws[k..]) == FirstFree(rows, draws)
        decreases |draws| - k
      {
        LaterDraw(rows, draws[k..]);
        assert draws[k..][1..] == draws[k + 1..];
        k := k + 1;
        taken := GetSrvListFromId(draws[k]);
      }
      assert draws[k..][0] == draws[k];
      id := draws[k];
      rows := rows + [Row(id, Clean(s))];
    }

    method GetSrvListIdFromSrvList(s: string, draws: seq<nat>) returns (id: nat)
      requires Draws(rows, draws)
      modifies this
      ensures (rows, id) == Interned(old(rows), s, draws)
    {
      var servers := Clean(s);
      var found := FindList(rows, servers);
      if found.Some? { return found.value; }
      id := AddSrvList(servers, draws);
    }
  }
}
