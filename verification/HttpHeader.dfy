/** The header printer and parser of the HTTP-over-UDT relay, as functions on byte strings. */
module HttpHeader {
  import opened Text
  import Orders

  const MAXLINE: nat := 16384
  const MAXELEMENTS: nat := 100

  datatype Header = Header(status: string, vals: map<string, string>)

  const EMPTY_HEADER: Header := Header("", map[])

  // ----------------------------------------------------------------- printing

  function FieldLine(key: string, value: string): string {
    key + ":" + value + "\r"
  }

  function PrintFields(keys: seq<string>, vals: map<string, string>): string
    requires forall k :: k in keys ==> k in vals
  {
    if keys == [] then "" else FieldLine(keys[0], vals[keys[0]]) + "\n" + PrintFields(keys[1..], vals)
  }

  ghost predicate IsLeast(k: string, keys: set<string>) {
    k in keys && forall j :: j in keys ==> LexLeq(k, j)
  }

  lemma LeastExists(keys: set<string>)
    requires keys != {}
    ensures exists k :: IsLeast(k, keys)
  {
    LexIsTotalPreorder();
    Orders.LeastExists(LexLeq, keys);
    var k :| Orders.IsLeast(LexLeq, k, keys);
    assert IsLeast(k, keys);
  }

  lemma LeastUnique(a: string, b: string, keys: set<string>)
    requires IsLeast(a, keys) && IsLeast(b, keys)
    ensures a == b
  {
    LexAntisymmetric(a, b);
  }

  /** The keys in the order in which std::map yields them. */
  ghost function SortedKeys(keys: set<string>): (s: seq<string>)
    ensures forall k :: k in s <==> k in keys
    ensures |s| == |keys|
    ensures forall i, j :: 0 <= i < j < |s| ==> s[i] != s[j]
  {
    if keys == {} then []
    else
      LeastExists(keys);
      var k :| IsLeast(k, keys);
      [k] + SortedKeys(keys - {k})
  }

  lemma SortedKeysHead(keys: set<string>)
    requires keys != {}
    ensures IsLeast(SortedKeys(keys)[0], keys)
    ensures SortedKeys(keys)[1..] == SortedKeys(keys - {SortedKeys(keys)[0]})
  {
  }

  lemma PrintFieldsHead(keys: seq<string>, vals: map<string, string>)
    requires keys != [] && forall k :: k in keys ==> k in vals
    ensures PrintFields(keys, vals) == keys[0] + ":" + vals[keys[0]] + "\r\n" + PrintFields(keys[1..], vals)
  {
  }

  ghost function Print(h: Header): string {
    h.status + "\r\n" + PrintFields(SortedKeys(h.vals.Keys), h.vals) + "\r\n"
  }

  // ------------------------------------------------------------------ parsing

  /** What readline makes of a byte stream: a line with what follows its LF, a line that reached
      MAXLINE, or the end of the stream. */
  datatype Scan = Line(text: string, rest: string) | TooLong(rest: string) | Broken

  function ScanLine(acc: string, s: string): Scan
    decreases |s|
  {
    if s == "" then Broken
    else if s[0] == '\n' then Line(acc, s[1..])
    else if |acc| + 1 == MAXLINE then TooLong(s[1..])
    else ScanLine(acc + [s[0]], s[1..])
  }

  lemma {:induction false} ScanLineShrinks(acc: string, s: string)
    requires ScanLine(acc, s).Line?
    ensures |ScanLine(acc, s).rest| < |s|
    ensures '\n' !in acc ==> '\n' !in ScanLine(acc, s).text
    ensures |acc| < MAXLINE ==> |ScanLine(acc, s).text| < MAXLINE
    decreases |s|
  {
    if s[0] != '\n' {
      ScanLineShrinks(acc + [s[0]], s[1..]);
    }
  }

  function ToLower(s: string): string {
    seq(|s|, i requires 0 <= i < |s| => if 'A' <= s[i] <= 'Z' then (s[i] as int + 32) as char else s[i])
  }

  /** Index of the first c, or |s|. */
  function Find(s: string, c: char): (i: nat)
    ensures i <= |s| && c !in s[..i] && (i < |s| ==> s[i] == c)
  {
    if s == "" || s[0] == c then 0 else
      var i := 1 + Find(s[1..], c);
      assert s[..i] == [s[0]] + s[1..][..i - 1];
      i
  }

  function StripCR(line: string): string {
    if line != "" && line[|line| - 1] == '\r' then line[..|line| - 1] else line
  }

  function AddField(vals: map<string, string>, line: string): map<string, string> {
    var l := StripCR(line);
    var i := Find(l, ':');
    if i < |l| && i > 0 then vals[ToLower(l[..i]) := l[i + 1..]] else vals
  }

  datatype Parsed = Complete(header: Header, rest: string) | Bad

  predicate Blank(line: string) {
    line == "" || line == "\r"
  }

  function Parse(s: string, h: Header, first: bool): Parsed
    decreases |s|
  {
    match ScanLine("", s)
    case Line(text, rest) =>
      ScanLineShrinks("", s);
      if |h.vals| >= MAXELEMENTS then Bad
      else if Blank(text) then Complete(h, rest)
      else if first then Parse(rest, h.(status := text), false)
      else Parse(rest, h.(vals := AddField(h.vals, text)), false)
    case _ => Bad
  }

  function ReadHeader(s: string): Parsed {
    Parse(s, EMPTY_HEADER, true)
  }

  // --------------------------------------------------------------- round trip

  predicate LineFits(line: string) {
    |line| < MAXLINE
  }

  /** Fields a printed header can carry: the key is what the parser would store. */
  predicate FieldOk(key: string, value: string) {
    key != "" && ToLower(key) == key && ':' !in key && '\n' !in key && '\n' !in value
  }

  ghost predicate FieldsOk(vals: map<string, string>) {
    forall k :: k in vals ==> FieldOk(k, vals[k])
  }

  ghost predicate FieldsFit(vals: map<string, string>) {
    forall k :: k in vals ==> LineFits(FieldLine(k, vals[k]))
  }

  lemma {:induction false} ScanPrintedLine(acc: string, text: string, rest: string)
    requires '\n' !in text && |acc| < MAXLINE
    ensures var scan := ScanLine(acc, text + "\n" + rest);
            if |acc| + |text| < MAXLINE then scan == Line(acc + text, rest) else scan.TooLong?
    decreases |text|
  {
    var s := text + "\n" + rest;
    if text == "" {
      assert s == "\n" + rest && s[1..] == rest;
      assert acc + text == acc;
    } else {
      assert s[0] == text[0] && s[1..] == text[1..] + "\n" + rest;
      if |acc| + 1 < MAXLINE {
        ScanPrintedLine(acc + [text[0]], text[1..], rest);
        assert acc + [text[0]] + text[1..] == acc + text;
      }
    }
  }

  lemma {:induction false} FindAt(key: string, value: string)
    requires ':' !in key
    ensures Find(key + ":" + value, ':') == |key|
  {
    if key != "" {
      assert (key + ":" + value)[1..] == key[1..] + ":" + value;
      FindAt(key[1..], value);
    }
  }

  lemma AddPrintedField(vals: map<string, string>, key: string, value: string)
    requires FieldOk(key, value)
    ensures AddField(vals, FieldLine(key, value)) == vals[key := value]
    ensures !Blank(FieldLine(key, value)) && '\n' !in FieldLine(key, value)
  {
    var line, l := FieldLine(key, value), key + ":" + value;
    assert line[..|line| - 1] == l;
    FindAt(key, value);
    assert l[..|key|] == key && l[|key| + 1..] == value;
  }

  lemma ParseOneField(key: string, value: string, s: string, h: Header)
    requires FieldOk(key, value)
    ensures var line := FieldLine(key, value);
            Parse(line + "\n" + s, h, false)
            == if LineFits(line) && |h.vals| < MAXELEMENTS then Parse(s, h.(vals := h.vals[key := value]), false) else Bad
  {
    var line := FieldLine(key, value);
    AddPrintedField(h.vals, key, value);
    ScanPrintedLine("", line, s);
    assert "" + line == line;
    hide AddField, FieldLine, ScanLine;
  }

  lemma ParseStatus(status: string, s: string)
    requires status != "" && '\n' !in status
    ensures Parse(status + "\r" + "\n" + s, EMPTY_HEADER, true)
         == if LineFits(status + "\r") then Parse(s, Header(status + "\r", map[]), false) else Bad
  {
    var line := status + "\r";
    ScanPrintedLine("", line, s);
    assert "" + line == line;
    hide ScanLine;
  }

  lemma ParseEnd(h: Header, tail: string)
    ensures Parse("\r\n" + tail, h, false) == if |h.vals| < MAXELEMENTS then Complete(h, tail) else Bad
  {
    assert "\r\n" + tail == "\r" + "\n" + tail;
    ScanPrintedLine("", "\r", tail);
  }

  ghost function Restrict(vals: map<string, string>, keys: seq<string>): map<string, string> {
    map k | k in vals && k in keys :: vals[k]
  }

  lemma RestrictStep(done: map<string, string>, vals: map<string, string>, keys: seq<string>)
    requires keys != [] && keys[0] in vals && keys[0] !in keys[1..]
    ensures done[keys[0] := vals[keys[0]]] + Restrict(vals, keys[1..]) == done + Restrict(vals, keys)
  {
    assert forall k :: k in keys <==> k == keys[0] || k in keys[1..];
  }

  ghost predicate AllFit(vals: map<string, string>, keys: seq<string>)
    requires forall k :: k in keys ==> k in vals
  {
    forall k :: k in keys ==> LineFits(FieldLine(k, vals[k]))
  }

  lemma RestrictAll(vals: map<string, string>, keys: seq<string>)
    requires forall k :: k in keys <==> k in vals
    ensures map[] + Restrict(vals, keys) == vals
    ensures AllFit(vals, keys) <==> FieldsFit(vals)
  {
  }

  /** Parsing the fields keys of vals, printed in that order, into a header that has some already. */
  lemma {:induction false} ParsePrintedFields(keys: seq<string>, vals: map<string, string>, h: Header, tail: string)
    requires forall k :: k in keys ==> k in vals && k !in h.vals
    requires forall i, j :: 0 <= i < j < |keys| ==> keys[i] != keys[j]
    requires FieldsOk(vals)
    ensures Parse(PrintFields(keys, vals) + "\r\n" + tail, h, false)
         == if |h.vals| + |keys| < MAXELEMENTS && AllFit(vals, keys)
            then Complete(h.(vals := h.vals + Restrict(vals, keys)), tail) else Bad
    decreases |keys|
  {
    hide Parse, LineFits;
    if keys == [] {
      assert PrintFields(keys, vals) + "\r\n" + tail == "\r\n" + tail;
      ParseEnd(h, tail);
      assert h.vals + Restrict(vals, keys) == h.vals;
    } else {
      var key, rest := keys[0], keys[1..];
      var line, s := FieldLine(key, vals[key]), PrintFields(rest, vals) + "\r\n" + tail;
      assert PrintFields(keys, vals) + "\r\n" + tail == line + "\n" + s;
      ParseOneField(key, vals[key], s, h);
      hide FieldLine;
      assert forall k :: k in keys <==> k == key || k in rest;
      assert AllFit(vals, keys) <==> LineFits(line) && AllFit(vals, rest);
      if LineFits(line) && |h.vals| < MAXELEMENTS {
        var h' := h.(vals := h.vals[key := vals[key]]);
        ParsePrintedFields(rest, vals, h', tail);
        RestrictStep(h.vals, vals, keys);
      }
    }
  }

  /** Header round trip, with its exact limits: a printed header is read back as the same fields and
      the status with the CR kept, leaving just what follows it, if and only if there are at most 99
      fields and every line, its CR counted, is under 16384 characters; otherwise reading fails. */
  lemma HeaderRoundTripIff(h: Header, tail: string)
    requires h.status != "" && '\n' !in h.status && FieldsOk(h.vals)
    ensures ReadHeader(Print(h) + tail)
         == if |h.vals| < 100 && LineFits(h.status + "\r") && FieldsFit(h.vals)
            then Complete(Header(h.status + "\r", h.vals), tail) else Bad
  {
    hide Parse, LineFits, SortedKeys;
    var keys := SortedKeys(h.vals.Keys);
    var s := PrintFields(keys, h.vals) + "\r\n" + tail;
    assert Print(h) + tail == h.status + "\r" + "\n" + s;
    ParseStatus(h.status, s);
    if LineFits(h.status + "\r") {
      var h' := Header(h.status + "\r", map[]);
      ParsePrintedFields(keys, h.vals, h', tail);
      RestrictAll(h.vals, keys);
    }
  }

  // ---------------------------------------------------- what the parser yields

  predicate StatusOk(status: string) {
    '\n' !in status && |status| < MAXLINE && !Blank(status)
  }

  lemma ToLowerIdempotent(s: string)
    ensures ToLower(ToLower(s)) == ToLower(s)
    ensures ':' in ToLower(s) ==> ':' in s
    ensures '\n' in ToLower(s) ==> '\n' in s
  {
    var t := ToLower(s);
    forall c | c in t && (c == ':' || c == '\n')
      ensures c in s
    {
      var i :| 0 <= i < |t| && t[i] == c;
      assert s[i] == c;
    }
  }

  lemma AddFieldOk(vals: map<string, string>, line: string)
    requires '\n' !in line
    ensures FieldsOk(vals) ==> FieldsOk(AddField(vals, line))
    ensures |line| + 1 < MAXLINE && FieldsFit(vals) ==> FieldsFit(AddField(vals, line))
    ensures |AddField(vals, line)| <= |vals| + 1
  {
    var l := StripCR(line);
    var i := Find(l, ':');
    if 0 < i < |l| {
      ToLowerIdempotent(l[..i]);
      assert FieldOk(ToLower(l[..i]), l[i + 1..]);
    }
  }

  /** Every line up to the blank one is at most n characters long, its CR counted. */
  ghost predicate LinesWithin(s: string, n: nat)
    decreases |s|
  {
    match ScanLine("", s)
    case Line(text, rest) =>
      ScanLineShrinks("", s);
      |text| <= n && (Blank(text) || LinesWithin(rest, n))
    case _ => true
  }

  lemma {:induction false} ParseYields(s: string, h: Header, first: bool)
    requires FieldsOk(h.vals) && Parse(s, h, first).Complete?
    requires if first then h == EMPTY_HEADER else StatusOk(h.status)
    ensures var h' := Parse(s, h, first).header;
            && FieldsOk(h'.vals) && |h'.vals| < MAXELEMENTS
            && (h' == EMPTY_HEADER || StatusOk(h'.status))
            && (LinesWithin(s, MAXLINE - 2) && FieldsFit(h.vals) && (!first ==> |h.status| <= MAXLINE - 2) ==>
                  FieldsFit(h'.vals) && |h'.status| <= MAXLINE - 2)
    decreases |s|
  {
    hide FieldsFit, FieldsOk, ScanLine, AddField;
    match ScanLine("", s)
    case Line(text, rest) =>
      ScanLineShrinks("", s);
      if !Blank(text) {
        if first {
          ParseYields(rest, h.(status := text), false);
        } else {
          AddFieldOk(h.vals, text);
          ParseYields(rest, h.(vals := AddField(h.vals, text)), false);
        }
      }
    case _ =>
  }

  /** The header the relay sends on can be read back as the same field map exactly when the stored
      lines leave room for the CR that printing adds; request lines of at most 16382 characters do. */
  lemma ReparseIff(request: string, tail: string)
    requires ReadHeader(request).Complete? && ReadHeader(request).header.vals != map[]
    ensures var h := ReadHeader(request).header;
            && ReadHeader(Print(h) + tail)
               == (if LineFits(h.status + "\r") && FieldsFit(h.vals)
                   then Complete(Header(h.status + "\r", h.vals), tail) else Bad)
            && (LinesWithin(request, MAXLINE - 2) ==> LineFits(h.status + "\r") && FieldsFit(h.vals))
  {
    ParseYields(request, EMPTY_HEADER, true);
    HeaderRoundTripIff(ReadHeader(request).header, tail);
  }

  lemma OneFieldScans(line: string)
    requires LineFits(line) && '\n' !in line
    ensures var rest := line + "\n" + "\n";
            && ScanLine("", "s\n" + rest) == Line("s", rest)
            && ScanLine("", rest) == Line(line, "\n") && ScanLine("", "\n") == Line("", "")
  {
    var rest := line + "\n" + "\n";
    assert "s\n" + rest == "s" + "\n" + rest && "" + "s" == "s" && "" + line == line;
    assert ScanLine("", "\n") == Line("", "");
    hide ScanLine;
    ScanPrintedLine("", "s", rest);
    ScanPrintedLine("", line, "\n");
  }

  lemma OneFieldAccepted(line: string)
    requires LineFits(line) && '\n' !in line && !Blank(line)
    ensures ReadHeader("s\n" + (line + "\n" + "\n")) == Complete(Header("s", AddField(map[], line)), "")
  {
    var rest := line + "\n" + "\n";
    OneFieldScans(line);
    hide ScanLine, AddField, ReadHeader;
    assert Parse("\n", Header("s", AddField(map[], line)), false) == Complete(Header("s", AddField(map[], line)), "");
    hide Parse;
    StatusParsed("s\n" + rest, rest);
    FieldParsed(rest, line);
  }

  lemma StatusParsed(s: string, rest: string)
    requires ScanLine("", s) == Line("s", rest)
    ensures ReadHeader(s) == Parse(rest, Header("s", map[]), false)
  {
    hide ScanLine, AddField;
  }

  lemma FieldParsed(s: string, line: string)
    requires ScanLine("", s) == Line(line, "\n") && !Blank(line)
    ensures Parse(s, Header("s", map[]), false) == Parse("\n", Header("s", AddField(map[], line)), false)
  {
    hide ScanLine, AddField, Blank;
  }

  /** Such a request there is: a field line of the longest length the reader takes, ended by a bare LF. */
  lemma AcceptedButNotReparsed(v: string, tail: string)
    requires |v| == 16381 && '\n' !in v && v[|v| - 1] != '\r'
    ensures var request := "s\n" + (("k:" + v) + "\n" + "\n");
            && ReadHeader(request) == Complete(Header("s", map["k" := v]), "")
            && ReadHeader(Print(Header("s", map["k" := v])) + tail) == Bad
  {
    var line := "k:" + v;
    var h := Header("s", map["k" := v]);
    KeyOfLine(v);
    assert !FieldsFit(h.vals) by { assert h.vals["k"] == v; }
    hide ReadHeader, AddField, FieldsFit, Print;
    OneFieldAccepted(line);
    ReparseIff("s\n" + (line + "\n" + "\n"), tail);
  }

  lemma KeyOfLine(v: string)
    requires v != "" && v[|v| - 1] != '\r'
    ensures AddField(map[], "k:" + v) == map["k" := v]
  {
    var line := "k:" + v;
    assert StripCR(line) == line;
    assert Find(line, ':') == 1 by { assert line[1] == ':'; }
    assert ToLower("k") == "k";
    assert line[..1] == "k" && line[2..] == v;
  }

  // ------------------------------------------------- field names in any spelling

  predicate IsCapital(c: char) {
    'A' <= c <= 'Z'
  }

  predicate NoCapitals(s: string) {
    forall c :: c in s ==> !IsCapital(c)
  }

  /** The texts differ at most in that some letters of the first are capitals. */
  predicate SameButCase(typed: string, lower: string) {
    && |typed| == |lower|
    && forall i :: 0 <= i < |typed| ==>
         typed[i] == lower[i] || ('a' <= lower[i] <= 'z' && typed[i] as int == lower[i] as int - 'a' as int + 'A' as int)
  }

  lemma ToLowerIs(typed: string, lower: string)
    requires SameButCase(typed, lower) && NoCapitals(lower)
    ensures ToLower(typed) == lower
  {
    assert forall i :: 0 <= i < |lower| ==> lower[i] in lower;
  }

  ghost predicate KeysLower(vals: map<string, string>) {
    forall k :: k in vals ==> NoCapitals(k)
  }

  lemma AddFieldLowers(vals: map<string, string>, line: string)
    requires KeysLower(vals)
    ensures KeysLower(AddField(vals, line))
  {
  }

  lemma {:induction false} ParseLowers(s: string, h: Header, first: bool)
    requires Parse(s, h, first).Complete? && KeysLower(h.vals)
    ensures KeysLower(Parse(s, h, first).header.vals)
    decreases |s|
  {
    hide KeysLower, AddField, ScanLine;
    match ScanLine("", s)
    case Line(text, rest) =>
      ScanLineShrinks("", s);
      if !Blank(text) {
        AddFieldLowers(h.vals, text);
        ParseLowers(rest, if first then h.(status := text) else h.(vals := AddField(h.vals, text)), false);
      }
    case _ =>
  }

  /** No field name of a header that was read has a capital letter. */
  lemma ReadNamesAreLower(s: string, key: string, c: char)
    requires ReadHeader(s).Complete? && key in ReadHeader(s).header.vals && c in key
    ensures !('A' <= c <= 'Z')
  {
    ParseLowers(s, EMPTY_HEADER, true);
    hide Parse;
    assert NoCapitals(key);
  }

  datatype Field = Field(name: string, value: string)

  predicate FieldTyped(typed: Field, lower: Field) {
    && SameButCase(typed.name, lower.name) && typed.value == lower.value
    && lower.name != "" && NoCapitals(lower.name) && ':' !in typed.name && '\n' !in typed.name && '\n' !in typed.value
  }

  /** The lines of a client, which may end in CR LF or in a bare LF. */
  function TypedLine(f: Field, cr: bool): string {
    f.name + ":" + f.value + if cr then "\r" else ""
  }

  lemma StoredInAnyCase(vals: map<string, string>, typed: Field, lower: Field, cr: bool)
    requires FieldTyped(typed, lower) && (cr || typed.value == "" || typed.value[|typed.value| - 1] != '\r')
    ensures AddField(vals, TypedLine(typed, cr)) == vals[lower.name := lower.value]
    ensures '\n' !in TypedLine(typed, cr) && !Blank(TypedLine(typed, cr))
  {
    var l := typed.name + ":" + typed.value;
    FindAt(typed.name, typed.value);
    assert l[..|typed.name|] == typed.name && l[|typed.name| + 1..] == typed.value;
    assert StripCR(TypedLine(typed, cr)) == l by {
      if cr { assert TypedLine(typed, cr)[..|l|] == l; } else { assert TypedLine(typed, cr) == l; }
    }
    hide Find, SameButCase, NoCapitals;
    ToLowerIs(typed.name, lower.name);
  }

  function Lines(fields: seq<Field>, cr: bool): string {
    if fields == [] then "" else TypedLine(fields[0], cr) + "\n" + Lines(fields[1..], cr)
  }

  /** The field map: of fields of one name the last. */
  function Collected(vals: map<string, string>, fields: seq<Field>): map<string, string>
    decreases |fields|
  {
    if fields == [] then vals else Collected(vals[fields[0].name := fields[0].value], fields[1..])
  }

  lemma {:induction false} CollectedGrows(vals: map<string, string>, fields: seq<Field>)
    ensures |vals| <= |Collected(vals, fields)|
    decreases |fields|
  {
    if fields != [] {
      assert vals.Keys <= vals[fields[0].name := fields[0].value].Keys;
      CardinalityGrows(vals.Keys, vals[fields[0].name := fields[0].value].Keys);
      CollectedGrows(vals[fields[0].name := fields[0].value], fields[1..]);
    }
  }

  lemma CardinalityGrows(a: set<string>, b: set<string>)
    requires a <= b
    ensures |a| <= |b|
  {
    assert b == a + (b - a);
  }

  ghost predicate AllTyped(typed: seq<Field>, lower: seq<Field>, cr: bool) {
    && |typed| == |lower|
    && forall i :: 0 <= i < |typed| ==>
         && FieldTyped(typed[i], lower[i]) && LineFits(TypedLine(typed[i], cr))
         && (cr || typed[i].value == "" || typed[i].value[|typed[i].value| - 1] != '\r')
  }

  lemma ParseTypedField(typed: Field, lower: Field, cr: bool, s: string, h: Header)
    requires AllTyped([typed], [lower], cr) && |h.vals| < MAXELEMENTS
    ensures Parse(TypedLine(typed, cr) + "\n" + s, h, false) == Parse(s, h.(vals := h.vals[lower.name := lower.value]), false)
  {
    var line := TypedLine(typed, cr);
    assert FieldTyped([typed][0], [lower][0]) && LineFits(TypedLine([typed][0], cr));
    StoredInAnyCase(h.vals, typed, lower, cr);
    ScanPrintedLine("", line, s);
    assert "" + line == line;
    hide AddField, TypedLine, ScanLine, FieldTyped, AllTyped;
  }

  lemma {:induction false} ParseTypedFields(typed: seq<Field>, lower: seq<Field>, cr: bool, h: Header, tail: string)
    requires AllTyped(typed, lower, cr) && |Collected(h.vals, lower)| < MAXELEMENTS
    ensures Parse(Lines(typed, cr) + "\r\n" + tail, h, false) == Complete(h.(vals := Collected(h.vals, lower)), tail)
    decreases |typed|
  {
    CollectedGrows(h.vals, lower);
    hide Parse;
    if typed == [] {
      assert Lines(typed, cr) + "\r\n" + tail == "\r\n" + tail;
      ParseEnd(h, tail);
    } else {
      var s := Lines(typed[1..], cr) + "\r\n" + tail;
      assert Lines(typed, cr) + "\r\n" + tail == TypedLine(typed[0], cr) + "\n" + s;
      assert AllTyped([typed[0]], [lower[0]], cr) && AllTyped(typed[1..], lower[1..], cr);
      hide AllTyped, TypedLine;
      ParseTypedField(typed[0], lower[0], cr, s, h);
      ParseTypedFields(typed[1..], lower[1..], cr, h.(vals := h.vals[lower[0].name := lower[0].value]), tail);
    }
  }

  /** A request as a client types it, field names in any mix of cases and lines with or without CR, reads
      as one map with the names in lower case, of fields of one name the last. */
  lemma AnyCaseReadsAlike(status: string, typed: seq<Field>, lower: seq<Field>, cr: bool, tail: string)
    requires status != "" && '\n' !in status && LineFits(status + "\r")
    requires AllTyped(typed, lower, cr) && |Collected(map[], lower)| < MAXELEMENTS
    ensures ReadHeader(status + "\r" + "\n" + (Lines(typed, cr) + "\r\n" + tail))
         == Complete(Header(status + "\r", Collected(map[], lower)), tail)
  {
    hide Parse, AllTyped, Lines, Collected;
    ParseStatus(status, Lines(typed, cr) + "\r\n" + tail);
    ParseTypedFields(typed, lower, cr, Header(status + "\r", map[]), tail);
  }
}
