/** Reading what Python's repr() writes: string literals, and lists of them. */
module PythonLiterals {
  import opened Optional
  import opened ServerLists

  // ------------------------------------------------------------- string literals

  function HexValue(c: char): (v: Option<nat>)
    ensures v.Some? ==> v.value < 16
  {
    if '0' <= c <= '9' then Some(c as int - '0' as int)
    else if 'a' <= c <= 'f' then Some(c as int - 'a' as int + 10)
    else None
  }

  function Behind(c: char, more: Option<(string, string)>): Option<(string, string)> {
    if more.Some? then Some(([c] + more.value.0, more.value.1)) else None
  }

  /** The characters up to the closing quote, and what stands behind it. */
  function ReadChars(s: string, quote: char): Option<(string, string)>
    decreases |s|
  {
    if s == "" then None
    else if s[0] == quote then Some(("", s[1..]))
    else if s[0] != '\\' then Behind(s[0], ReadChars(s[1..], quote))
    else if |s| == 1 then None
    else
      match s[1]
      case 'n' => Behind('\n', ReadChars(s[2..], quote))
      case 't' => Behind('\t', ReadChars(s[2..], quote))
      case 'r' => Behind('\r', ReadChars(s[2..], quote))
      case 'x' =>
        if |s| < 4 || HexValue(s[2]).None? || HexValue(s[3]).None? then None
        else Behind((16 * HexValue(s[2]).value + HexValue(s[3]).value) as char, ReadChars(s[4..], quote))
      case c => if c == '\\' || c == '\'' || c == '"' then Behind(c, ReadChars(s[2..], quote)) else None
  }

  function ReadLiteral(s: string): Option<(string, string)> {
    if s != "" && (s[0] == '\'' || s[0] == '"') then ReadChars(s[1..], s[0]) else None
  }

  lemma HexReads(d: nat)
    requires d < 16
    ensures HexValue(HexDigit(d)) == Some(d)
  {
  }

  lemma ReadEscaped(c: char, quote: char, t: string)
    requires quote == '\'' || quote == '"'
    ensures ReadChars(EscapeChar(c, quote) + t, quote) == Behind(c, ReadChars(t, quote))
  {
    var s := EscapeChar(c, quote) + t;
    assert s[|EscapeChar(c, quote)|..] == t;
    if |EscapeChar(c, quote)| == 4 {
      HexReads(c as int / 16);
      HexReads(c as int % 16);
      hide HexDigit, HexValue;
    }
  }

  lemma {:induction false} ReadEscapes(s: string, quote: char, rest: string)
    requires quote == '\'' || quote == '"'
    ensures ReadChars(EscapeAll(s, quote) + [quote] + rest, quote) == Some((s, rest))
  {
    if s == "" {
      assert EscapeAll(s, quote) + [quote] + rest == [quote] + rest;
    } else {
      var more := EscapeAll(s[1..], quote) + [quote] + rest;
      assert EscapeAll(s, quote) + [quote] + rest == EscapeChar(s[0], quote) + more;
      hide ReadChars, EscapeChar;
      ReadEscaped(s[0], quote, more);
      ReadEscapes(s[1..], quote, rest);
      assert s == [s[0]] + s[1..];
    }
  }

  /** Every string is read back from its repr(), whatever quotes, backslashes and control characters it has. */
  lemma ReprReads(s: string, rest: string)
    ensures ReadLiteral(Repr(s) + rest) == Some((s, rest))
  {
    var quote := Repr(s)[0];
    assert quote == '\'' || quote == '"';
    assert Repr(s) + rest == [quote] + (EscapeAll(s, quote) + [quote] + rest);
    hide ReadChars, EscapeAll;
    ReadEscapes(s, quote, rest);
  }

  // ------------------------------------------------------------------------ lists

  function ReadItems(s: string): Option<seq<string>>
    decreases |s|
  {
    if s == "" then Some([])
    else
      var item := ReadLiteral(s);
      if item.None? then None
      else if item.value.1 == "" then Some([item.value.0])
      else if ", " <= item.value.1 && |item.value.1| <= |s| then
        var more := ReadItems(item.value.1[2..]);
        if more.Some? then Some([item.value.0] + more.value) else None
      else None
  }

  /** The text of a list, without its brackets, reads as the list. */
  lemma {:induction false} ListReads(parts: seq<string>)
    ensures ReadItems(ListBody(parts)) == Some(parts)
  {
    if parts != [] {
      var s := ListBody(parts);
      assert Repr(parts[0]) != "";
      hide Repr, ReadLiteral;
      ReprReads(parts[0], "");
      assert Repr(parts[0]) + "" == Repr(parts[0]);
      if |parts| == 1 {
        assert parts == [parts[0]];
      } else {
        var rest := ", " + ListBody(parts[1..]);
        assert s == Repr(parts[0]) + rest;
        ReprReads(parts[0], rest);
        assert ", " <= rest && |rest| <= |s| && rest[2..] == ListBody(parts[1..]);
        ListReads(parts[1..]);
        assert ReadItems(s) == Some([parts[0]] + parts[1..]);
        assert parts == [parts[0]] + parts[1..];
      }
    }
  }
}
