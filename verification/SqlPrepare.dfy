/** Rewriting one SQL template into the parameter style of a PEP 249 driver. */
module SqlPrepare {
  import opened Optional
  import opened Text
  import opened Orders

  /** PEP 249 paramstyle; the Sybase module writes its named markers and keys with '@'. */
  datatype Style = QMark | Format | PyFormat | Named(sybase: bool)

  // -------------------------------------------------------------- str.format

  datatype Token = Chr(c: char) | Hole(i: nat)

  /** Numbering of the holes so far: "{}" and "{0}" cannot be mixed. */
  datatype Numbering = Unset | Auto(next: nat) | Manual

  function Prepend<T>(t: T, rest: Option<seq<T>>): Option<seq<T>> {
    if rest.Some? then Some([t] + rest.value) else None
  }

  /** The holes and characters of a template, None where str.format raises. */
  function Tokenize(s: string, n: Numbering): Option<seq<Token>>
    decreases |s|
  {
    if s == "" then Some([])
    else if s[0] == '{' then
      if |s| == 1 then None
      else if s[1] == '{' then Prepend(Chr('{'), Tokenize(s[2..], n))
      else if s[1] == '}' then
        if n.Manual? then None
        else
          var i := if n.Auto? then n.next else 0;
          Prepend(Hole(i), Tokenize(s[2..], Auto(i + 1)))
      else
        var d := Digits(s[1..]);
        if d == "" || |d| + 1 >= |s| || s[|d| + 1] != '}' || n.Auto? then None
        else Prepend(Hole(NumeralValue(d)), Tokenize(s[|d| + 2..], Manual))
    else if s[0] == '}' then
      if |s| > 1 && s[1] == '}' then Prepend(Chr('}'), Tokenize(s[2..], n)) else None
    else Prepend(Chr(s[0]), Tokenize(s[1..], n))
  }

  function Digits(s: string): (d: string)
    ensures |d| <= |s| && forall c :: c in d ==> IsDigit(c)
  {
    if s != "" && IsDigit(s[0]) then [s[0]] + Digits(s[1..]) else ""
  }

  predicate HolesBelow(ts: seq<Token>, n: nat) {
    forall t :: t in ts && t.Hole? ==> t.i < n
  }

  function Render(ts: seq<Token>, markers: seq<string>): string
    requires HolesBelow(ts, |markers|)
  {
    if ts == [] then ""
    else (if ts[0].Chr? then [ts[0].c] else markers[ts[0].i]) + Render(ts[1..], markers)
  }

  /** sql.format(*markers), None where it raises. */
  function FormatTemplate(sql: string, markers: seq<string>): Option<string> {
    var ts := Tokenize(sql, Unset);
    if ts.Some? && HolesBelow(ts.value, |markers|) then Some(Render(ts.value, markers)) else None
  }

  // ---------------------------------------------------------- _prepare_query

  function Key(style: Style, i: nat): string {
    if style == Named(true) then "@n" + Decimal(i) else "n" + Decimal(i)
  }

  function Marker(style: Style, i: nat): string {
    match style
    case QMark => "?"
    case Format => "%s"
    case PyFormat => "%(" + Key(style, i) + ")s"
    case Named(sybase) => if sybase then Key(style, i) else ":" + Key(style, i)
  }

  function Markers(style: Style, howMany: nat): seq<string> {
    seq(howMany, i requires 0 <= i < howMany => Marker(style, i))
  }

  datatype Data<V> = Positional(values: seq<V>) | Mapping(entries: map<string, V>)

  function NamedData<V>(style: Style, args: seq<V>): map<string, V> {
    if args == [] then map[]
    else NamedData(style, args[..|args| - 1])[Key(style, |args| - 1) := args[|args| - 1]]
  }

  function DataToBind<V>(style: Style, args: seq<V>): Data<V> {
    if style.Named? || style.PyFormat? then Mapping(NamedData(style, args)) else Positional(args)
  }

  function Escape(sql: string): string {
    if sql == "" then "" else (if sql[0] == '%' then "%%" else [sql[0]]) + Escape(sql[1..])
  }

  /** The text before the arguments are looked at; all that is sent when there are none. */
  function EscapedFor(style: Style, sql: string): string {
    if (style.Format? || style.PyFormat?) && '%' in sql then Escape(sql) else sql
  }

  /** _prepare_query for non-empty args, None where it raises. */
  function Prepare<V>(style: Style, sql: string, args: seq<V>): Option<(string, Data<V>)>
    requires args != []
  {
    var formatted := FormatTemplate(EscapedFor(style, sql), Markers(style, |args|));
    if formatted.Some? then Some((formatted.value, DataToBind(style, args))) else None
  }

  // ------------------------------------------------------ what a statement means

  /** A statement with its values in place. */
  datatype Piece<V> = Plain(c: char) | Bound(v: V)

  /** The template with argument i in the place of hole i. */
  function Substitute<V>(ts: seq<Token>, args: seq<V>): seq<Piece<V>>
    requires HolesBelow(ts, |args|)
  {
    if ts == [] then []
    else [if ts[0].Chr? then Plain(ts[0].c) else Bound(args[ts[0].i])] + Substitute(ts[1..], args)
  }

  function Meaning<V>(sql: string, args: seq<V>): Option<seq<Piece<V>>> {
    var ts := Tokenize(sql, Unset);
    if ts.Some? && HolesBelow(ts.value, |args|) then Some(Substitute(ts.value, args)) else None
  }

  predicate IsIdent(c: char) {
    IsDigit(c) || 'a' <= c <= 'z' || 'A' <= c <= 'Z' || c == '_'
  }

  function Ident(s: string): (d: string)
    ensures |d| <= |s|
  {
    if s != "" && IsIdent(s[0]) then [s[0]] + Ident(s[1..]) else ""
  }

  function UpTo(s: string, c: char): (d: string)
    ensures |d| <= |s|
  {
    if s == "" || s[0] == c then "" else [s[0]] + UpTo(s[1..], c)
  }

  /** The drivers. Positional values are taken one by one and must all be used. */
  function BindQMark<V>(s: string, values: seq<V>): Option<seq<Piece<V>>>
    decreases |s|
  {
    if s == "" then if values == [] then Some([]) else None
    else if s[0] == '?' then
      if values == [] then None else Prepend(Bound(values[0]), BindQMark(s[1..], values[1..]))
    else Prepend(Plain(s[0]), BindQMark(s[1..], values))
  }

  function BindFormat<V>(s: string, values: seq<V>): Option<seq<Piece<V>>>
    decreases |s|
  {
    if s == "" then if values == [] then Some([]) else None
    else if s[0] == '%' then
      if |s| == 1 then None
      else if s[1] == '%' then Prepend(Plain('%'), BindFormat(s[2..], values))
      else if s[1] == 's' && values != [] then Prepend(Bound(values[0]), BindFormat(s[2..], values[1..]))
      else None
    else Prepend(Plain(s[0]), BindFormat(s[1..], values))
  }

  function BindPyFormat<V>(s: string, entries: map<string, V>): Option<seq<Piece<V>>>
    decreases |s|
  {
    if s == "" then Some([])
    else if s[0] == '%' then
      if |s| == 1 then None
      else if s[1] == '%' then Prepend(Plain('%'), BindPyFormat(s[2..], entries))
      else if s[1] == '(' then
        var key := UpTo(s[2..], ')');
        if |key| + 3 < |s| && s[|key| + 3] == 's' && key in entries then
          Prepend(Bound(entries[key]), BindPyFormat(s[|key| + 4..], entries))
        else None
      else None
    else Prepend(Plain(s[0]), BindPyFormat(s[1..], entries))
  }

  function BindNamed<V>(prefix: char, s: string, entries: map<string, V>): Option<seq<Piece<V>>>
    decreases |s|
  {
    if s == "" then Some([])
    else if s[0] == prefix && |s| > 1 && IsIdent(s[1]) then
      var name := Ident(s[1..]);
      var key := if prefix == '@' then "@" + name else name;
      if key in entries then Prepend(Bound(entries[key]), BindNamed(prefix, s[|name| + 1..], entries)) else None
    else Prepend(Plain(s[0]), BindNamed(prefix, s[1..], entries))
  }

  function Prefix(sybase: bool): char {
    if sybase then '@' else ':'
  }

  function Bind<V>(style: Style, s: string, data: Data<V>): Option<seq<Piece<V>>>
    requires (style.Named? || style.PyFormat?) <==> data.Mapping?
  {
    match style
    case QMark => BindQMark(s, data.values)
    case Format => BindFormat(s, data.values)
    case PyFormat => BindPyFormat(s, data.entries)
    case Named(sybase) => BindNamed(Prefix(sybase), s, data.entries)
  }

  // ------------------------------------------------------------------ escaping

  function Double(ts: seq<Token>): seq<Token> {
    if ts == [] then []
    else (if ts[0] == Chr('%') then [Chr('%'), Chr('%')] else [ts[0]]) + Double(ts[1..])
  }

  lemma {:induction false} EscapeAfter(p: string, q: string)
    requires '%' !in p
    ensures Escape(p + q) == p + Escape(q)
  {
    if p == "" {
      assert p + q == q;
    } else {
      assert (p + q)[1..] == p[1..] + q;
      EscapeAfter(p[1..], q);
    }
  }

  lemma EscapeNothing(s: string)
    requires '%' !in s
    ensures Escape(s) == s
  {
    EscapeAfter(s, "");
    assert s + "" == s;
  }

  lemma {:induction false} EscapeLengthens(s: string)
    ensures |s| <= |Escape(s)| && ('%' in s ==> |s| < |Escape(s)|)
  {
    if s != "" {
      assert s == [s[0]] + s[1..];
      EscapeLengthens(s[1..]);
    }
  }

  /** A query without arguments reaches the driver as it is unless its percent signs are doubled, which
      no binding undoes. */
  lemma SentAsIsIff(style: Style, sql: string)
    ensures EscapedFor(style, sql) == sql <==> !((style.Format? || style.PyFormat?) && '%' in sql)
  {
    EscapeLengthens(sql);
  }

  lemma {:induction false} DigitsStop(s: string)
    ensures s == Digits(s) + s[|Digits(s)|..]
    ensures |Digits(s)| < |s| ==> !IsDigit(s[|Digits(s)|])
  {
    if s != "" && IsDigit(s[0]) {
      DigitsStop(s[1..]);
    }
  }

  lemma {:induction false} DigitsOf(d: string, rest: string)
    requires (forall c :: c in d ==> IsDigit(c)) && (rest == "" || !IsDigit(rest[0]))
    ensures Digits(d + rest) == d
  {
    if d == "" {
      assert d + rest == rest;
    } else {
      assert (d + rest)[1..] == d[1..] + rest;
      DigitsOf(d[1..], rest);
    }
  }

  ghost predicate EscapeCommutes(s: string, n: Numbering) {
    Tokenize(Escape(s), n) == if Tokenize(s, n).Some? then Some(Double(Tokenize(s, n).value)) else None
  }

  lemma DoubleStep(t: Token, ts: seq<Token>)
    ensures Double([t] + ts) == (if t == Chr('%') then [t, t] else [t]) + Double(ts)
  {
    assert ([t] + ts)[1..] == ts;
  }

  predicate StartsPair(s: string) {
    |s| > 1 && (s[0] == '{' || s[0] == '}') && (s[1] == s[0] || s[1] == '}')
  }

  function AfterPair(s: string, n: Numbering): Numbering
    requires StartsPair(s)
  {
    if s[1] == s[0] then n else Auto(if n.Auto? then n.next + 1 else 1)
  }

  lemma EscapePair(s: string, n: Numbering)
    requires StartsPair(s) && EscapeCommutes(s[2..], AfterPair(s, n))
    ensures EscapeCommutes(s, n)
  {
    EscapeAfter(s[..2], s[2..]);
    assert s == s[..2] + s[2..];
    assert Escape(s) == s[..2] + Escape(s[2..]);
    assert Escape(s)[2..] == Escape(s[2..]);
    hide Escape, Double, Digits, NumeralValue;
    var t := if s[1] == s[0] then Chr(s[0]) else Hole(if n.Auto? then n.next else 0);
    var rest := Tokenize(s[2..], AfterPair(s, n));
    if rest.Some? {
      DoubleStep(t, rest.value);
    }
  }

  lemma EscapeIndex(s: string, n: Numbering)
    requires |s| > 1 && s[0] == '{' && !StartsPair(s)
    requires |Digits(s[1..])| + 1 < |s| ==> EscapeCommutes(s[|Digits(s[1..])| + 2..], Manual)
    ensures EscapeCommutes(s, n)
  {
    TokenizeEscapedIndex(s, n);
    var d := Digits(s[1..]);
    hide Escape, Digits;
    if d != "" && |d| + 1 < |s| && s[|d| + 1] == '}' && Tokenize(s[|d| + 2..], Manual).Some? {
      DoubleStep(Hole(NumeralValue(d)), Tokenize(s[|d| + 2..], Manual).value);
    }
    hide Double;
  }

  lemma EscapePercent(s: string, n: Numbering)
    requires s != "" && s[0] == '%' && EscapeCommutes(s[1..], n)
    ensures EscapeCommutes(s, n)
  {
    assert Escape(s) == "%%" + Escape(s[1..]);
    TokenizePercents(Escape(s[1..]), n);
    if Tokenize(s[1..], n).Some? {
      DoubleStep(Chr('%'), Tokenize(s[1..], n).value);
    }
    hide Escape, Double;
  }

  lemma EscapePlain(s: string, n: Numbering)
    requires s != "" && s[0] != '%' && s[0] != '{' && s[0] != '}' && EscapeCommutes(s[1..], n)
    ensures EscapeCommutes(s, n)
  {
    assert Escape(s)[1..] == Escape(s[1..]);
    if Tokenize(s[1..], n).Some? {
      DoubleStep(Chr(s[0]), Tokenize(s[1..], n).value);
    }
  }

  lemma EscapeLoneBrace(s: string, n: Numbering)
    requires s != "" && !StartsPair(s) && (s[0] == '}' || s == "{")
    ensures EscapeCommutes(s, n)
  {
    assert s == s[..1] + s[1..];
    assert s == "{" ==> Escape(s[1..]) == "";
    assert |s| > 1 ==> Escape(s[1..])[0] == s[1];
  }

  /** Escaping never reaches into a hole: it doubles the '%' characters of the template, no more. */
  lemma {:induction false} TokenizeEscaped(s: string, n: Numbering)
    ensures EscapeCommutes(s, n)
    decreases |s|
  {
    if s != "" {
      hide EscapeCommutes;
      if StartsPair(s) {
        TokenizeEscaped(s[2..], AfterPair(s, n));
        EscapePair(s, n);
      } else if s[0] == '}' || s == "{" {
        EscapeLoneBrace(s, n);
      } else if s[0] == '{' {
        if |Digits(s[1..])| + 1 < |s| {
          TokenizeEscaped(s[|Digits(s[1..])| + 2..], Manual);
        }
        EscapeIndex(s, n);
      } else if s[0] == '%' {
        TokenizeEscaped(s[1..], n);
        EscapePercent(s, n);
      } else {
        TokenizeEscaped(s[1..], n);
        EscapePlain(s, n);
      }
    }
  }

  lemma TokenizePercents(s: string, n: Numbering)
    ensures Tokenize("%%" + s, n)
         == if Tokenize(s, n).Some? then Some([Chr('%'), Chr('%')] + Tokenize(s, n).value) else None
  {
    var t := "%%" + s;
    assert t[1..] == "%" + s && t[1..][1..] == s;
    if Tokenize(s, n).Some? {
      var ts := Tokenize(s, n).value;
      assert [Chr('%')] + ([Chr('%')] + ts) == [Chr('%'), Chr('%')] + ts;
    }
  }

  /** The "{index}" case: the digits and the closing brace are found where they were. */
  lemma TokenizeEscapedIndex(s: string, n: Numbering)
    requires |s| > 1 && s[0] == '{' && s[1] != '{' && s[1] != '}'
    ensures var d := Digits(s[1..]);
            && |Escape(s)| > 1 && Escape(s)[0] == '{' && Escape(s)[1] != '{' && Escape(s)[1] != '}'
            && Digits(Escape(s)[1..]) == d
            && (|d| + 1 < |s| <==> |d| + 1 < |Escape(s)|)
            && (|d| + 1 < |s| ==> Escape(s)[|d| + 1] == s[|d| + 1])
            && (|d| + 1 < |s| && s[|d| + 1] == '}' ==> Escape(s)[|d| + 2..] == Escape(s[|d| + 2..]))
  {
    var d := Digits(s[1..]);
    DigitsStop(s[1..]);
    var rest := s[1..][|d|..];
    EscapeAfter(s[..1], s[1..]);
    EscapeAfter(d, rest);
    EscapeHead(rest);
    assert s == s[..1] + s[1..];
    hide Escape;
    var e := Escape(rest);
    assert Escape(s)[1..] == d + e;
    DigitsOf(d, e);
    if rest != "" {
      assert rest[0] == s[|d| + 1] && rest[1..] == s[|d| + 2..];
      assert Escape(s)[|d| + 1] == e[0] && Escape(s)[|d| + 2..] == e[1..];
    }
  }

  lemma EscapeHead(s: string)
    ensures s == "" <==> Escape(s) == ""
    ensures s != "" ==> Escape(s)[0] == s[0] && (s[0] != '%' ==> Escape(s)[1..] == Escape(s[1..]))
  {
  }

  // -------------------------------------------------- positional parameter styles

  /** The arguments in the order of their holes. */
  function HoleArgs<V>(ts: seq<Token>, args: seq<V>): seq<V>
    requires HolesBelow(ts, |args|)
  {
    if ts == [] then [] else (if ts[0].Hole? then [args[ts[0].i]] else []) + HoleArgs(ts[1..], args)
  }

  function Holes(ts: seq<Token>): seq<nat> {
    if ts == [] then [] else (if ts[0].Hole? then [ts[0].i] else []) + Holes(ts[1..])
  }

  /** Every hole is used once and in order. */
  predicate InOrder(ts: seq<Token>, n: nat) {
    Holes(ts) == seq(n, i => i)
  }

  lemma PrependInjective<T>(t: T, rest: Option<seq<T>>, u: T, more: seq<T>)
    ensures Prepend(t, rest) == Some([u] + more) <==> t == u && rest == Some(more)
  {
    if rest.Some? {
      assert ([t] + rest.value)[0] == t && ([t] + rest.value)[1..] == rest.value;
      assert ([u] + more)[0] == u && ([u] + more)[1..] == more;
    }
  }

  lemma RenderHead(t: Token, ts: seq<Token>, markers: seq<string>)
    requires HolesBelow([t] + ts, |markers|)
    ensures HolesBelow(ts, |markers|) && (t.Hole? ==> t.i < |markers|)
    ensures Render([t] + ts, markers) == (if t.Chr? then [t.c] else markers[t.i]) + Render(ts, markers)
  {
    assert ([t] + ts)[1..] == ts && t in [t] + ts;
    assert forall u :: u in ts ==> u in [t] + ts;
  }

  lemma {:induction false} QMarkExact<V>(ts: seq<Token>, args: seq<V>, values: seq<V>)
    requires HolesBelow(ts, |args|)
    ensures BindQMark(Render(ts, Markers(QMark, |args|)), values) == Some(Substitute(ts, args))
       <==> Chr('?') !in ts && HoleArgs(ts, args) == values
  {
    if ts != [] {
      var t, rest := ts[0], ts[1..];
      assert ts == [t] + rest;
      var s := Render(rest, Markers(QMark, |args|));
      assert Render(ts, Markers(QMark, |args|))[1..] == s;
      if t.Hole? || t.c == '?' {
        if values != [] {
          QMarkExact(rest, args, values[1..]);
          PrependInjective(Bound(values[0]), BindQMark(s, values[1..]),
                           if t.Chr? then Plain(t.c) else Bound(args[t.i]), Substitute(rest, args));
          assert values == [values[0]] + values[1..];
        }
      } else {
        QMarkExact(rest, args, values);
        PrependInjective(Plain(t.c), BindQMark(s, values), Plain(t.c), Substitute(rest, args));
      }
    }
  }

  /** The text for one token of an escaped template. */
  function EscapedToken(t: Token, markers: seq<string>): string
    requires t.Hole? ==> t.i < |markers|
  {
    if t == Chr('%') then "%%" else if t.Chr? then [t.c] else markers[t.i]
  }

  lemma RenderDouble(t: Token, rest: seq<Token>, markers: seq<string>)
    requires HolesBelow(Double(rest), |markers|) && (t.Hole? ==> t.i < |markers|)
    ensures HolesBelow(Double([t] + rest), |markers|)
    ensures Render(Double([t] + rest), markers) == EscapedToken(t, markers) + Render(Double(rest), markers)
  {
    DoubleStep(t, rest);
    if t == Chr('%') {
      RenderPercent(Double(rest), markers);
    } else {
      RenderHead(t, Double(rest), markers);
    }
    hide Double, Render, HolesBelow;
  }

  lemma HolesPercent(more: seq<Token>, n: nat)
    requires HolesBelow(more, n)
    ensures HolesBelow([Chr('%')] + more, n) && HolesBelow([Chr('%')] + ([Chr('%')] + more), n)
  {
  }

  lemma RenderPercent(more: seq<Token>, markers: seq<string>)
    requires HolesBelow(more, |markers|)
    ensures HolesBelow([Chr('%'), Chr('%')] + more, |markers|)
    ensures Render([Chr('%'), Chr('%')] + more, markers) == "%%" + Render(more, markers)
  {
    var t := Chr('%');
    HolesPercent(more, |markers|);
    hide *;
    RenderHead(t, more, markers);
    RenderHead(t, [t] + more, markers);
    assert [t, t] + more == [t] + ([t] + more);
    assert "%" + ("%" + Render(more, markers)) == "%%" + Render(more, markers);
  }

  lemma FormatStep<V>(t: Token, s: string, markers: seq<string>, values: seq<V>)
    requires t.Hole? ==> t.i < |markers| && markers[t.i] == "%s"
    ensures BindFormat(EscapedToken(t, markers) + s, values)
         == if t.Chr? then Prepend(Plain(t.c), BindFormat(s, values))
            else if values == [] then None else Prepend(Bound(values[0]), BindFormat(s, values[1..]))
  {
    var e := EscapedToken(t, markers) + s;
    if t == Chr('%') || t.Hole? {
      assert e[2..] == s;
    } else {
      assert e[1..] == s;
    }
  }

  lemma TokenIn(t: Token, rest: seq<Token>, n: nat)
    requires HolesBelow([t] + rest, n)
    ensures HolesBelow(rest, n) && (t.Hole? ==> t.i < n)
  {
    assert t in [t] + rest && forall u :: u in rest ==> u in [t] + rest;
  }

  lemma HoleArgsHead<V>(t: Token, rest: seq<Token>, args: seq<V>)
    requires HolesBelow([t] + rest, |args|) && HolesBelow(rest, |args|) && (t.Hole? ==> t.i < |args|)
    ensures HoleArgs([t] + rest, args) == (if t.Hole? then [args[t.i]] else []) + HoleArgs(rest, args)
  {
    assert ([t] + rest)[1..] == rest;
  }

  lemma EmptyFormat<V>(args: seq<V>, values: seq<V>)
    ensures HolesBelow([], |args|) && HolesBelow(Double([]), |args|)
    ensures BindFormat(Render(Double([]), Markers(Format, |args|)), values) == Some(Substitute([], args))
       <==> HoleArgs([], args) == values
  {
  }

  lemma ConsEqual<V>(v: V, more: seq<V>, values: seq<V>)
    ensures [v] + more == values <==> values != [] && values[0] == v && values[1..] == more
  {
  }

  lemma {:induction false} FormatExact<V>(ts: seq<Token>, args: seq<V>, values: seq<V>)
    requires HolesBelow(ts, |args|)
    ensures HolesBelow(Double(ts), |args|)
    ensures BindFormat(Render(Double(ts), Markers(Format, |args|)), values) == Some(Substitute(ts, args))
       <==> HoleArgs(ts, args) == values
  {
    MarkersLength(Format, |args|);
    EmptyFormat(args, values);
    hide *;
    if ts != [] {
      var t, rest := ts[0], ts[1..];
      var markers := Markers(Format, |args|);
      assert ts == [t] + rest;
      TokenIn(t, rest, |args|);
      FormatExact(rest, args, if t.Hole? && values != [] then values[1..] else values);
      RenderDouble(t, rest, markers);
      SubstituteHead(t, rest, args);
      HoleArgsHead(t, rest, args);
      var s := Render(Double(rest), markers);
      if t.Hole? {
        MarkerAt(Format, |args|, t.i);
        MarkerOfFormat(t.i);
        ConsEqual(args[t.i], HoleArgs(rest, args), values);
        if values != [] {
          PrependInjective(Bound(values[0]), BindFormat(s, values[1..]), Bound(args[t.i]), Substitute(rest, args));
        }
      } else {
        PrependInjective(Plain(t.c), BindFormat(s, values), Plain(t.c), Substitute(rest, args));
        assert [] + HoleArgs(rest, args) == HoleArgs(rest, args);
      }
      FormatStep(t, s, markers, values);
    }
  }

  lemma MarkerOfFormat(i: nat)
    ensures Marker(Format, i) == "%s"
  {
  }

  /** For distinct arguments only the identity order takes them from left to right. */
  lemma {:induction false} HoleArgsAre<V>(ts: seq<Token>, args: seq<V>)
    requires HolesBelow(ts, |args|)
    ensures |HoleArgs(ts, args)| == |Holes(ts)|
    ensures forall j :: 0 <= j < |Holes(ts)| ==> Holes(ts)[j] < |args| && HoleArgs(ts, args)[j] == args[Holes(ts)[j]]
  {
    if ts != [] {
      HoleArgsAre(ts[1..], args);
    }
  }

  lemma OrderMatters<V>(ts: seq<Token>, args: seq<V>)
    requires HolesBelow(ts, |args|)
    ensures InOrder(ts, |args|) ==> HoleArgs(ts, args) == args
    ensures Distinct(args) && HoleArgs(ts, args) == args ==> InOrder(ts, |args|)
  {
    HoleArgsAre(ts, args);
    if Distinct(args) && HoleArgs(ts, args) == args {
      forall j | 0 <= j < |args|
        ensures Holes(ts)[j] == j
      {
        assert args[Holes(ts)[j]] == args[j];
      }
    }
  }

  // ------------------------------------------------------- named parameter styles

  ghost predicate Keyed<V>(style: Style, entries: map<string, V>, args: seq<V>) {
    forall i :: 0 <= i < |args| ==> Key(style, i) in entries && entries[Key(style, i)] == args[i]
  }

  lemma KeyInjective(style: Style, i: nat, j: nat)
    requires Key(style, i) == Key(style, j)
    ensures i == j
  {
    var p := if style == Named(true) then 2 else 1;
    assert Key(style, i)[p..] == Decimal(i) && Key(style, j)[p..] == Decimal(j);
    DecimalInjective(i, j);
  }

  lemma {:induction false} NamedDataIsKeyed<V>(style: Style, args: seq<V>)
    ensures Keyed(style, NamedData(style, args), args)
  {
    if args != [] {
      var n := |args| - 1;
      NamedDataIsKeyed(style, args[..n]);
      forall i | 0 <= i < |args|
        ensures Key(style, i) in NamedData(style, args) && NamedData(style, args)[Key(style, i)] == args[i]
      {
        if i < n {
          assert args[..n][i] == args[i];
          if Key(style, i) == Key(style, n) { KeyInjective(style, i, n); }
        }
      }
    }
  }

  lemma {:induction false} UpToFirst(p: string, c: char, q: string)
    requires c !in p
    ensures UpTo(p + [c] + q, c) == p
  {
    if p != "" {
      assert (p + [c] + q)[1..] == p[1..] + [c] + q;
      UpToFirst(p[1..], c, q);
    }
  }

  lemma PyFormatMarker<V>(i: nat, s: string, entries: map<string, V>)
    requires Key(PyFormat, i) in entries
    ensures BindPyFormat(Marker(PyFormat, i) + s, entries)
         == Prepend(Bound(entries[Key(PyFormat, i)]), BindPyFormat(s, entries))
  {
    var key := Key(PyFormat, i);
    var t := Marker(PyFormat, i) + s;
    DecimalRoundTrip(i);
    assert ')' !in key;
    UpToFirst(key, ')', "s" + s);
    assert t[2..] == key + ")" + ("s" + s);
    assert t[|key| + 4..] == s;
  }

  lemma PyFormatChar<V>(t: Token, s: string, markers: seq<string>, entries: map<string, V>)
    requires t.Chr?
    ensures BindPyFormat(EscapedToken(t, markers) + s, entries) == Prepend(Plain(t.c), BindPyFormat(s, entries))
  {
    var e := EscapedToken(t, markers) + s;
    if t == Chr('%') {
      assert e[2..] == s;
    } else {
      assert e[1..] == s;
    }
  }

  lemma EmptyPyFormat<V>(args: seq<V>, entries: map<string, V>)
    ensures HolesBelow([], |args|) && HolesBelow(Double([]), |args|)
    ensures BindPyFormat(Render(Double([]), Markers(PyFormat, |args|)), entries) == Some(Substitute([], args))
  {
  }

  lemma {:induction false} PyFormatExact<V>(ts: seq<Token>, args: seq<V>, entries: map<string, V>)
    requires HolesBelow(ts, |args|) && Keyed(PyFormat, entries, args)
    ensures HolesBelow(Double(ts), |args|)
    ensures BindPyFormat(Render(Double(ts), Markers(PyFormat, |args|)), entries) == Some(Substitute(ts, args))
  {
    MarkersLength(PyFormat, |args|);
    EmptyPyFormat(args, entries);
    hide *;
    if ts != [] {
      var t, rest := ts[0], ts[1..];
      var markers := Markers(PyFormat, |args|);
      assert ts == [t] + rest;
      TokenIn(t, rest, |args|);
      PyFormatExact(rest, args, entries);
      RenderDouble(t, rest, markers);
      SubstituteHead(t, rest, args);
      var s := Render(Double(rest), markers);
      if t.Hole? {
        MarkerAt(PyFormat, |args|, t.i);
        KeyedAt(PyFormat, entries, args, t.i);
        assert EscapedToken(t, markers) == Marker(PyFormat, t.i) by { EscapedHole(t, markers); }
        PyFormatMarker(t.i, s, entries);
        PrependInjective(Bound(args[t.i]), BindPyFormat(s, entries), Bound(args[t.i]), Substitute(rest, args));
      } else {
        PyFormatChar(t, s, markers, entries);
        PrependInjective(Plain(t.c), BindPyFormat(s, entries), Plain(t.c), Substitute(rest, args));
      }
    }
  }

  lemma EscapedHole(t: Token, markers: seq<string>)
    requires t.Hole? && t.i < |markers|
    ensures EscapedToken(t, markers) == markers[t.i]
  {
  }

  lemma KeyedAt<V>(style: Style, entries: map<string, V>, args: seq<V>, i: nat)
    requires Keyed(style, entries, args) && i < |args|
    ensures Key(style, i) in entries && entries[Key(style, i)] == args[i]
  {
  }

  // --------------------------------------------------------------- named markers

  /** How many of the first tokens a driver would take as part of a name. */
  function Swallowed(ts: seq<Token>): nat {
    if ts != [] && ts[0].Chr? && IsIdent(ts[0].c) then 1 + Swallowed(ts[1..]) else 0
  }

  /** No literal marker, and no hole with a name character behind it. */
  predicate Separated(prefix: char, ts: seq<Token>) {
    ts == [] || ((ts[0].Hole? || ts[0].c == prefix ==> Swallowed(ts[1..]) == 0) && Separated(prefix, ts[1..]))
  }

  lemma {:induction false} SwallowedBound(ts: seq<Token>)
    ensures Swallowed(ts) <= |ts|
    ensures forall j :: 0 <= j < Swallowed(ts) ==> ts[j].Chr?
  {
    if ts != [] && ts[0].Chr? && IsIdent(ts[0].c) {
      SwallowedBound(ts[1..]);
    }
  }

  lemma {:induction false} IdentOfRendered(sybase: bool, ts: seq<Token>, n: nat)
    requires HolesBelow(ts, n)
    ensures Swallowed(ts) <= |ts| && HolesBelow(ts[Swallowed(ts)..], n)
    ensures var s := Render(ts, Markers(Named(sybase), n));
            |Ident(s)| == Swallowed(ts) && s[Swallowed(ts)..] == Render(ts[Swallowed(ts)..], Markers(Named(sybase), n))
  {
    SwallowedBound(ts);
    if Swallowed(ts) > 0 {
      IdentOfRendered(sybase, ts[1..], n);
      assert Render(ts, Markers(Named(sybase), n))[1..] == Render(ts[1..], Markers(Named(sybase), n));
      assert ts[Swallowed(ts)..] == ts[1..][Swallowed(ts[1..])..];
    }
  }

  lemma {:induction false} IdentAppends(p: string, q: string)
    requires forall c :: c in p ==> IsIdent(c)
    ensures Ident(p + q) == p + Ident(q)
  {
    if p == "" {
      assert p + q == q;
    } else {
      assert (p + q)[1..] == p[1..] + q;
      IdentAppends(p[1..], q);
    }
  }

  /** What a driver makes of a name: it may run on into the characters that follow. */
  lemma BindName<V>(prefix: char, name: string, tail: string, entries: map<string, V>)
    requires name != "" && forall c :: c in name ==> IsIdent(c)
    ensures |Ident(tail)| <= |tail|
    ensures var key := (if prefix == '@' then "@" else "") + (name + Ident(tail));
            BindNamed(prefix, [prefix] + (name + tail), entries)
            == if key in entries then Prepend(Bound(entries[key]), BindNamed(prefix, tail[|Ident(tail)|..], entries)) else None
  {
    IdentAppends(name, tail);
    IdentBound(tail);
    NameStarts(name);
    NameSlices(prefix, name, tail, |Ident(tail)|);
    hide *;
    BindNamedAt(prefix, [prefix] + (name + tail), name + Ident(tail), tail[|Ident(tail)|..], entries);
  }

  lemma NameSlices(prefix: char, name: string, tail: string, n: nat)
    requires n <= |tail|
    ensures var t := [prefix] + (name + tail);
            && t[0] == prefix && t[1..] == name + tail && (name != "" ==> t[1] == name[0])
            && |name + tail[..n]| + 1 <= |t| && t[|name + tail[..n]| + 1..] == tail[n..]
  {
  }

  lemma NameStarts(name: string)
    requires name != "" && forall c :: c in name ==> IsIdent(c)
    ensures IsIdent(name[0])
  {
  }

  lemma {:induction false} IdentBound(s: string)
    ensures |Ident(s)| <= |s| && Ident(s) == s[..|Ident(s)|]
  {
    if s != "" && IsIdent(s[0]) {
      IdentBound(s[1..]);
    }
  }

  lemma BindNamedAt<V>(prefix: char, s: string, name: string, rest: string, entries: map<string, V>)
    requires |s| > 1 && s[0] == prefix && IsIdent(s[1]) && Ident(s[1..]) == name
    requires |name| + 1 <= |s| && s[|name| + 1..] == rest
    ensures var key := (if prefix == '@' then "@" else "") + name;
            BindNamed(prefix, s, entries)
            == if key in entries then Prepend(Bound(entries[key]), BindNamed(prefix, rest, entries)) else None
  {
    assert "" + name == name;
  }

  lemma NamedMarker<V>(sybase: bool, i: nat, rest: seq<Token>, n: nat, entries: map<string, V>)
    requires HolesBelow(rest, n) && Key(Named(sybase), i) in entries
    ensures Swallowed(rest) <= |rest| && HolesBelow(rest[Swallowed(rest)..], n)
    ensures var style := Named(sybase);
            var r := BindNamed(Prefix(sybase), Marker(style, i) + Render(rest, Markers(style, n)), entries);
            var s := BindNamed(Prefix(sybase), Render(rest[Swallowed(rest)..], Markers(style, n)), entries);
            && (Swallowed(rest) == 0 ==> r == Prepend(Bound(entries[Key(style, i)]), s))
            && (r.Some? ==> s.Some? && r.value != [] && r.value[0].Bound? && r.value[1..] == s.value)
  {
    var style, p := Named(sybase), Prefix(sybase);
    var name, tail := "n" + Decimal(i), Render(rest, Markers(style, n));
    NameIs(i);
    IdentOfRendered(sybase, rest, n);
    MarkerIs(sybase, i, tail);
    KeyIs(sybase, i, Ident(tail));
    hide *;
    BindName(p, name, tail, entries);
    var key := (if p == '@' then "@" else "") + (name + Ident(tail));
    if key in entries {
      PrependHead(entries[key], BindNamed(p, tail[|Ident(tail)|..], entries));
    }
  }

  lemma NameIs(i: nat)
    ensures "n" + Decimal(i) != "" && forall c :: c in "n" + Decimal(i) ==> IsIdent(c)
  {
    DecimalRoundTrip(i);
  }

  lemma MarkerIs(sybase: bool, i: nat, tail: string)
    ensures Marker(Named(sybase), i) + tail == [Prefix(sybase)] + ("n" + Decimal(i) + tail)
  {
  }

  lemma KeyIs(sybase: bool, i: nat, more: string)
    ensures more == "" ==> (if Prefix(sybase) == '@' then "@" else "") + ("n" + Decimal(i) + more) == Key(Named(sybase), i)
  {
  }

  lemma PrependHead<V>(v: V, rest: Option<seq<Piece<V>>>)
    ensures var r := Prepend(Bound(v), rest);
            r.Some? ==> rest.Some? && r.value != [] && r.value[0].Bound? && r.value[1..] == rest.value
  {
  }

  function Plains<V>(ps: seq<Piece<V>>): nat {
    if ps == [] then 0 else (if ps[0].Plain? then 1 else 0) + Plains(ps[1..])
  }

  function Chars(ts: seq<Token>): nat {
    if ts == [] then 0 else (if ts[0].Chr? then 1 else 0) + Chars(ts[1..])
  }

  lemma PlainsStep<V>(p: Piece<V>, rest: Option<seq<Piece<V>>>)
    requires rest.Some?
    ensures Prepend(p, rest).Some? && Plains(Prepend(p, rest).value) == (if p.Plain? then 1 else 0) + Plains(rest.value)
  {
    assert ([p] + rest.value)[1..] == rest.value;
  }

  lemma {:induction false} PlainsOfSubstitute<V>(ts: seq<Token>, args: seq<V>)
    requires HolesBelow(ts, |args|)
    ensures Plains(Substitute(ts, args)) == Chars(ts)
  {
    if ts != [] {
      PlainsOfSubstitute(ts[1..], args);
      assert Substitute(ts, args)[1..] == Substitute(ts[1..], args);
    }
  }

  lemma {:induction false} CharsAfter(ts: seq<Token>, k: nat)
    requires k <= |ts| && forall j :: 0 <= j < k ==> ts[j].Chr?
    ensures Chars(ts) == k + Chars(ts[k..])
  {
    if k > 0 {
      CharsAfter(ts[1..], k - 1);
      assert ts[k..] == ts[1..][k - 1..];
    }
  }

  lemma NamedLiteral<V>(sybase: bool, c: char, rest: seq<Token>, n: nat, entries: map<string, V>)
    requires HolesBelow(rest, n)
    ensures Swallowed(rest) <= |rest| && HolesBelow(rest[Swallowed(rest)..], n)
    ensures var tail := Render(rest, Markers(Named(sybase), n));
            var r := BindNamed(Prefix(sybase), [c] + tail, entries);
            if c == Prefix(sybase) && Swallowed(rest) > 0 then r.Some? ==> r.value != [] && r.value[0].Bound?
            else r == Prepend(Plain(c), BindNamed(Prefix(sybase), tail, entries))
    ensures c == Prefix(sybase) && Swallowed(rest) > 0 ==>
              var r := BindNamed(Prefix(sybase), [c] + Render(rest, Markers(Named(sybase), n)), entries);
              var s := BindNamed(Prefix(sybase), Render(rest[Swallowed(rest)..], Markers(Named(sybase), n)), entries);
              r.Some? ==> s.Some? && r.value[1..] == s.value
  {
    var tail, k := Render(rest, Markers(Named(sybase), n)), Swallowed(rest);
    IdentOfRendered(sybase, rest, n);
    IdentStarts(tail);
    hide *;
    assert ([c] + tail)[1..] == tail;
    if c == Prefix(sybase) && k > 0 {
      assert ([c] + tail)[1] == tail[0] && ([c] + tail)[k + 1..] == tail[k..];
      BindNamedAt(c, [c] + tail, Ident(tail), tail[k..], entries);
      var key := (if c == '@' then "@" else "") + Ident(tail);
      if key in entries {
        PrependHead(entries[key], BindNamed(c, tail[k..], entries));
      }
    } else {
      BindPlain(Prefix(sybase), c, tail, entries);
    }
  }

  lemma IdentStarts(s: string)
    ensures |Ident(s)| <= |s| && (|Ident(s)| > 0 <==> s != "" && IsIdent(s[0]))
  {
  }

  lemma BindPlain<V>(prefix: char, c: char, tail: string, entries: map<string, V>)
    requires c == prefix && tail != "" ==> !IsIdent(tail[0])
    ensures BindNamed(prefix, [c] + tail, entries) == Prepend(Plain(c), BindNamed(prefix, tail, entries))
  {
    assert ([c] + tail)[1..] == tail;
  }

  /** A driver yields at most one plain character for each literal one of the template. */
  lemma {:induction false} NamedPlains<V>(sybase: bool, ts: seq<Token>, args: seq<V>, entries: map<string, V>)
    requires HolesBelow(ts, |args|) && Keyed(Named(sybase), entries, args)
    ensures var r := BindNamed(Prefix(sybase), Render(ts, Markers(Named(sybase), |args|)), entries);
            r.Some? ==> Plains(r.value) <= Chars(ts)
    decreases |ts|
  {
    hide BindNamed, Markers, Keyed, Key;
    if ts == [] {
      assert Plains<V>([]) == 0;
      EmptyBinds(Prefix(sybase), entries);
    } else {
      var t, rest := ts[0], ts[1..];
      assert ts == [t] + rest;
      var k, n := Swallowed(rest), |args|;
      RenderHead(t, rest, Markers(Named(sybase), n)) by { MarkersLength(Named(sybase), n); }
      var r := BindNamed(Prefix(sybase), Render(ts, Markers(Named(sybase), n)), entries);
      SwallowedBound(rest);
      CharsAfter(rest, k);
      NamedPlains(sybase, rest, args, entries);
      if t.Chr? {
        NamedLiteral(sybase, t.c, rest, n, entries);
      } else {
        KeyedAt(Named(sybase), entries, args, t.i);
        MarkerAt(Named(sybase), n, t.i);
        NamedMarker(sybase, t.i, rest, n, entries);
      }
      NamedPlains(sybase, rest[k..], args, entries);
      hide Render;
      if r.Some? && !(t.Chr? && r.value[0].Plain?) {
        assert r.value == [r.value[0]] + r.value[1..];
      }
      if t.Chr? && r.Some? && r.value[0].Plain? {
        PlainsStep(Plain(t.c), BindNamed(Prefix(sybase), Render(rest, Markers(Named(sybase), n)), entries));
      }
    }
  }

  lemma EmptyBinds<V>(prefix: char, entries: map<string, V>)
    ensures BindNamed(prefix, "", entries) == Some([])
  {
  }

  lemma MarkersLength(style: Style, n: nat)
    ensures |Markers(style, n)| == n
  {
  }

  lemma MarkerAt(style: Style, n: nat, i: nat)
    requires i < n
    ensures |Markers(style, n)| == n && Markers(style, n)[i] == Marker(style, i)
  {
  }

  lemma SubstituteHead<V>(t: Token, rest: seq<Token>, args: seq<V>)
    requires HolesBelow([t] + rest, |args|)
    ensures HolesBelow(rest, |args|) && (t.Hole? ==> t.i < |args|)
    ensures Substitute([t] + rest, args)
         == [if t.Chr? then Plain(t.c) else Bound(args[t.i])] + Substitute(rest, args)
  {
    assert ([t] + rest)[1..] == rest && t in [t] + rest;
    assert forall u :: u in rest ==> u in [t] + rest;
  }

  /** A hole that runs on into the characters behind it loses them. */
  lemma RunOnLoses<V>(sybase: bool, rest: seq<Token>, args: seq<V>, entries: map<string, V>)
    requires HolesBelow(rest, |args|) && Keyed(Named(sybase), entries, args) && Swallowed(rest) > 0
    ensures Swallowed(rest) <= |rest| && HolesBelow(rest[Swallowed(rest)..], |args|)
    ensures BindNamed(Prefix(sybase), Render(rest[Swallowed(rest)..], Markers(Named(sybase), |args|)), entries)
         != Some(Substitute(rest, args))
  {
    SwallowedBound(rest);
    CharsAfter(rest, Swallowed(rest));
    PlainsOfSubstitute(rest, args);
    NamedPlains(sybase, rest[Swallowed(rest)..], args, entries);
  }

  /** Named markers carry a statement over exactly when no name runs on and no literal reads as a marker. */
  lemma {:induction false} NamedExact<V>(sybase: bool, ts: seq<Token>, args: seq<V>, entries: map<string, V>)
    requires HolesBelow(ts, |args|) && Keyed(Named(sybase), entries, args)
    ensures BindNamed(Prefix(sybase), Render(ts, Markers(Named(sybase), |args|)), entries) == Some(Substitute(ts, args))
       <==> Separated(Prefix(sybase), ts)
  {
    hide BindNamed, Markers, Keyed, Key;
    if ts == [] {
      EmptyBinds(Prefix(sybase), entries);
    } else {
      var t, rest := ts[0], ts[1..];
      assert ts == [t] + rest;
      var style, n := Named(sybase), |args|;
      RenderHead(t, rest, Markers(style, n)) by { MarkersLength(style, n); }
      SubstituteHead(t, rest, args);
      NamedExact(sybase, rest, args, entries);
      var more := BindNamed(Prefix(sybase), Render(rest, Markers(style, n)), entries);
      var plain := Substitute(rest, args);
      if t.Chr? {
        NamedLiteral(sybase, t.c, rest, n, entries);
        PrependInjective(Plain(t.c), more, Plain(t.c), plain);
      } else {
        KeyedAt(style, entries, args, t.i);
        MarkerAt(style, n, t.i);
        NamedMarker(sybase, t.i, rest, n, entries);
        PrependInjective(Bound(args[t.i]), more, Bound(args[t.i]), plain);
        if Swallowed(rest) > 0 {
          RunOnLoses(sybase, rest, args, entries);
          assert ([Bound(args[t.i])] + plain)[1..] == plain;
        } else {
          assert rest[0..] == rest;
        }
      }
    }
  }

  // ------------------------------------------------------------ the main theorem

  lemma {:induction false} DoubleHoles(ts: seq<Token>, n: nat)
    ensures HolesBelow(Double(ts), n) <==> HolesBelow(ts, n)
  {
    if ts != [] {
      var t, rest := ts[0], ts[1..];
      DoubleHoles(rest, n);
      assert ts == [t] + rest;
      assert HolesBelow(ts, n) <==> HolesBelow([t], n) && HolesBelow(rest, n);
      var d := if t == Chr('%') then [t, t] else [t];
      assert HolesBelow(d, n) <==> HolesBelow([t], n);
      assert Double(ts) == d + Double(rest);
    }
  }

  /** What a template must look like for a driver of the style to bind it as it reads. */
  predicate Carries<V(==)>(style: Style, ts: seq<Token>, args: seq<V>)
    requires HolesBelow(ts, |args|)
  {
    match style
    case QMark => Chr('?') !in ts && HoleArgs(ts, args) == args
    case Format => HoleArgs(ts, args) == args
    case PyFormat => true
    case Named(sybase) => Separated(Prefix(sybase), ts)
  }

  lemma PreparedText<V>(style: Style, sql: string, args: seq<V>)
    requires args != []
    ensures Prepare(style, sql, args).None? <==> Meaning(sql, args).None?
    ensures Prepare(style, sql, args).Some? ==>
              var ts := Tokenize(sql, Unset).value;
              && HolesBelow(Double(ts), |args|)
              && Prepare(style, sql, args).value.0
                 == Render(if style.Format? || style.PyFormat? then Double(ts) else ts, Markers(style, |args|))
  {
    TokenizeEscaped(sql, Unset);
    if Tokenize(sql, Unset).Some? {
      DoubleHoles(Tokenize(sql, Unset).value, |args|);
    }
    if '%' !in sql {
      EscapeNothing(sql);
    }
    MarkersLength(style, |args|);
    hide Markers, Render, Escape, Tokenize, HolesBelow, Substitute;
  }

  /** _prepare_query raises exactly when the template is unusable; otherwise binding the prepared
      statement gives the template with its arguments in place exactly when the style can carry it. */
  lemma PrepareKeepsMeaningIff<V>(style: Style, sql: string, args: seq<V>)
    requires args != []
    ensures Prepare(style, sql, args).None? <==> Meaning(sql, args).None?
    ensures Prepare(style, sql, args).Some? ==>
              && HolesBelow(Tokenize(sql, Unset).value, |args|)
              && (Bind(style, Prepare(style, sql, args).value.0, Prepare(style, sql, args).value.1) == Meaning(sql, args)
                  <==> Carries(style, Tokenize(sql, Unset).value, args))
  {
    PreparedText(style, sql, args);
    if Prepare(style, sql, args).Some? {
      var ts := Tokenize(sql, Unset).value;
      hide Tokenize, Render, Markers, Substitute, HoleArgs, Separated, NamedData, HolesBelow, Keyed;
      hide BindQMark, BindFormat, BindPyFormat, BindNamed;
      match style {
        case QMark => QMarkExact(ts, args, args);
        case Format => FormatExact(ts, args, args);
        case PyFormat =>
          NamedDataIsKeyed(style, args);
          PyFormatExact(ts, args, NamedData(style, args));
        case Named(sybase) =>
          NamedDataIsKeyed(style, args);
          NamedExact(sybase, ts, args, NamedData(style, args));
      }
    }
  }

  /** Holes used once each and in order suit every argument list of the positional styles; another
      use of the holes fails for some arguments. */
  lemma InOrderCarries<V>(style: Style, ts: seq<Token>, args: seq<V>)
    requires HolesBelow(ts, |args|) && (style.Format? || (style.QMark? && Chr('?') !in ts))
    ensures InOrder(ts, |args|) ==> Carries(style, ts, args)
    ensures Distinct(args) && Carries(style, ts, args) ==> InOrder(ts, |args|)
  {
    OrderMatters(ts, args);
  }
}
