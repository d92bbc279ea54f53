/** Percent-encoding of URL values in the C client, against the decoding of section 2.1 of RFC 3986. */
module UrlEncode {

  /** What stands for a character in the encoded value. A backslash becomes an encoded '/'. */
  function Code(c: char): string {
    match c
    case ':' => "%3A"
    case '?' => "%3F"
    case '=' => "%3D"
    case '&' => "%26"
    case '*' => "%2A"
    case '\'' => "%27"
    case '"' => "%22"
    case '%' => "%25"
    case '+' => "%2B"
    case '\\' => "%2F"
    case '(' => "%28"
    case ')' => "%29"
    case ' ' => "%20"
    case _ => [c]
  }

  function Encode(s: string): string {
    if s == "" then "" else Code(s[0]) + Encode(s[1..])
  }

  /** How much of the value is copied as it stands. */
  function SchemeLength(s: string, skipScheme: bool): (n: nat)
    ensures n <= |s|
  {
    if !skipScheme then 0
    else if "http:" <= s || "file:" <= s then 5
    else if "ftp:" <= s then 4
    else 0
  }

  function Encoded(s: string, skipScheme: bool): string {
    var n := SchemeLength(s, skipScheme);
    s[..n] + Encode(s[n..])
  }

  lemma {:induction false} EncodeAppend(s: string, c: char)
    ensures Encode(s + [c]) == Encode(s) + Code(c)
  {
    if s == "" {
      assert s + [c] == [c] && [c][1..] == "";
    } else {
      assert (s + [c])[1..] == s[1..] + [c];
      EncodeAppend(s[1..], c);
      assert Code(s[0]) + (Encode(s[1..]) + Code(c)) == Code(s[0]) + Encode(s[1..]) + Code(c);
    }
  }

  /** One step of the loop: the code of a character, appended. */
  method AppendCode(buffer: string, c: char) returns (encodedUrl: string)
    ensures encodedUrl == buffer + Code(c)
  {
    encodedUrl := buffer;
    if c == ':' { encodedUrl := encodedUrl + "%3A"; }
    else if c == '?' { encodedUrl := encodedUrl + "%3F"; }
    else if c == '=' { encodedUrl := encodedUrl + "%3D"; }
    else if c == '&' { encodedUrl := encodedUrl + "%26"; }
    else if c == '*' { encodedUrl := encodedUrl + "%2A"; }
    else if c == '\'' { encodedUrl := encodedUrl + "%27"; }
    else if c == '"' { encodedUrl := encodedUrl + "%22"; }
    else if c == '%' { encodedUrl := encodedUrl + "%25"; }
    else if c == '+' { encodedUrl := encodedUrl + "%2B"; }
    else if c == '\\' { encodedUrl := encodedUrl + "%2F"; }
    else if c == '(' { encodedUrl := encodedUrl + "%28"; }
    else if c == ')' { encodedUrl := encodedUrl + "%29"; }
    else if c == ' ' { encodedUrl := encodedUrl + "%20"; }
    else { encodedUrl := encodedUrl + [c]; }
  }

  /** How far the value is copied before the loop starts. */
  method SkipScheme(urlVal: string, skipScheme: bool) returns (idx: nat)
    ensures idx == SchemeLength(urlVal, skipScheme)
  {
    idx := 0;
    if skipScheme {
      if "http:" <= urlVal || "file:" <= urlVal {
        idx := 5;
      } else if "ftp:" <= urlVal {
        idx := 4;
      }
    }
  }

  method EncodeUrlVal(urlVal: string, skipScheme: bool) returns (encodedUrl: string)
    ensures encodedUrl == Encoded(urlVal, skipScheme)
  {
    hide SchemeLength, Encode, Code;
    var idx := SkipScheme(urlVal, skipScheme);
    ghost var scheme, rest := urlVal[..idx], urlVal[idx..];
    encodedUrl := urlVal[..idx];
    EncodeNothing(rest, scheme);
    var k := idx;
    while k < |urlVal|
      invariant idx <= k <= |urlVal|
      invariant encodedUrl == scheme + Encode(rest[..k - idx])
    {
      EncodeNext(rest, k - idx, scheme);
      encodedUrl := AppendCode(encodedUrl, urlVal[k]);
      k := k + 1;
    }
    assert rest[..k - idx] == rest;
  }

  lemma EncodeNothing(s: string, scheme: string)
    ensures scheme + Encode(s[..0]) == scheme
  {
  }

  lemma EncodeNext(s: string, k: nat, scheme: string)
    requires k < |s|
    ensures scheme + Encode(s[..k + 1]) == scheme + Encode(s[..k]) + Code(s[k])
  {
    EncodeAppend(s[..k], s[k]);
    assert s[..k + 1] == s[..k] + [s[k]];
    hide Encode, Code;
  }

  // ------------------------------------------------------------------- decoding

  predicate IsHex(c: char) {
    '0' <= c <= '9' || 'A' <= c <= 'F' || 'a' <= c <= 'f'
  }

  function HexValue(c: char): (v: nat)
    requires IsHex(c)
    ensures v < 16
  {
    if c <= '9' then c as int - '0' as int
    else if c <= 'F' then c as int - 'A' as int + 10
    else c as int - 'a' as int + 10
  }

  function Decode(s: string): string {
    if s == "" then ""
    else if s[0] == '%' && |s| > 2 && IsHex(s[1]) && IsHex(s[2]) then
      [(16 * HexValue(s[1]) + HexValue(s[2])) as char] + Decode(s[3..])
    else [s[0]] + Decode(s[1..])
  }

  /** The value with every backslash replaced by '/'. */
  function Slashed(s: string): string {
    if s == "" then "" else [if s[0] == '\\' then '/' else s[0]] + Slashed(s[1..])
  }

  lemma {:induction false} DecodePlain(p: string, t: string)
    requires '%' !in p
    ensures Decode(p + t) == p + Decode(t)
  {
    if p == "" {
      assert p + t == t;
    } else {
      assert (p + t)[1..] == p[1..] + t;
      DecodePlain(p[1..], t);
    }
  }

  lemma CodeIs(c: char)
    ensures |Code(c)| == 1 ==> Code(c) == [c] && c != '%' && c != '\\'
    ensures |Code(c)| != 1 ==>
              var u := Code(c);
              && |u| == 3 && u[0] == '%' && IsHex(u[1]) && IsHex(u[2])
              && 16 * HexValue(u[1]) + HexValue(u[2]) == (if c == '\\' then '/' else c) as int
  {
  }

  lemma DecodeCode(c: char, t: string)
    ensures Decode(Code(c) + t) == [if c == '\\' then '/' else c] + Decode(t)
  {
    CodeIs(c);
    hide Code, HexValue;
    var s := Code(c) + t;
    if |Code(c)| == 1 {
      assert s[1..] == t;
    } else {
      assert s[3..] == t;
    }
  }

  lemma {:induction false} DecodeEncode(s: string)
    ensures Decode(Encode(s)) == Slashed(s)
  {
    if s != "" {
      DecodeCode(s[0], Encode(s[1..]));
      DecodeEncode(s[1..]);
    }
  }

  lemma {:induction false} SlashedConcat(p: string, t: string)
    ensures Slashed(p + t) == Slashed(p) + Slashed(t)
  {
    if p == "" {
      assert p + t == t;
    } else {
      assert (p + t)[1..] == p[1..] + t;
      SlashedConcat(p[1..], t);
    }
  }

  lemma {:induction false} SlashedSameIff(s: string)
    ensures |Slashed(s)| == |s|
    ensures Slashed(s) == s <==> '\\' !in s
  {
    if s != "" {
      assert s == [s[0]] + s[1..];
      SlashedSameIff(s[1..]);
      assert Slashed(s)[1..] == Slashed(s[1..]);
    }
  }

  predicate IsScheme(p: string) {
    p == "" || p == "http:" || p == "file:" || p == "ftp:"
  }

  lemma SchemeIs(s: string, skipScheme: bool)
    ensures IsScheme(s[..SchemeLength(s, skipScheme)])
    ensures s == s[..SchemeLength(s, skipScheme)] + s[SchemeLength(s, skipScheme)..]
  {
  }

  lemma SchemeIsPlain(p: string)
    requires IsScheme(p)
    ensures '%' !in p && '\\' !in p
  {
  }

  /** Decoding gives the value with '/' for each backslash: the value itself exactly when it has none. */
  lemma DecodeEncoded(s: string, skipScheme: bool)
    ensures Decode(Encoded(s, skipScheme)) == Slashed(s)
    ensures Decode(Encoded(s, skipScheme)) == s <==> '\\' !in s
  {
    var n := SchemeLength(s, skipScheme);
    var p, t := s[..n], s[n..];
    SchemeIs(s, skipScheme);
    SchemeIsPlain(p);
    DecodePlain(p, Encode(t));
    DecodeEncode(t);
    SlashedConcat(p, t);
    SlashedSameIff(p);
    SlashedSameIff(s);
  }

  lemma {:induction false} EncodeLength(s: string)
    ensures |s| <= |Encode(s)| <= 3 * |s|
  {
    if s != "" {
      EncodeLength(s[1..]);
    }
  }

  /** A buffer of three times the value, and its terminator, is always enough. */
  lemma EncodedLength(s: string, skipScheme: bool)
    ensures |s| <= |Encoded(s, skipScheme)| <= 3 * |s|
  {
    EncodeLength(s[SchemeLength(s, skipScheme)..]);
  }

  // ------------------------------------------------------------------ injectivity

  lemma CodePrefixFree(c: char, d: char, s: string, t: string)
    requires Code(c) + s == Code(d) + t
    ensures c == d && s == t
  {
    var u := Code(c) + s;
    assert u[0] == Code(c)[0] == Code(d)[0];
    if |Code(c)| == 3 && |Code(d)| == 3 {
      assert u[1] == Code(c)[1] && u[2] == Code(c)[2];
      assert u[1] == Code(d)[1] && u[2] == Code(d)[2];
    }
    assert c == d;
    assert s == u[|Code(c)|..] && t == u[|Code(d)|..];
  }

  lemma {:induction false} EncodeInjective(s: string, t: string)
    requires Encode(s) == Encode(t)
    ensures s == t
  {
    EncodeLength(s);
    EncodeLength(t);
    if s != "" && t != "" {
      CodePrefixFree(s[0], t[0], Encode(s[1..]), Encode(t[1..]));
      EncodeInjective(s[1..], t[1..]);
      assert s == [s[0]] + s[1..] && t == [t[0]] + t[1..];
    }
  }

  lemma {:induction false} EncodeHidesColons(s: string)
    ensures ':' !in Encode(s)
  {
    if s != "" {
      EncodeHidesColons(s[1..]);
    }
  }

  /** A scheme can be told from the encoded text, which has no ':' of its own. */
  lemma SchemeShows(p: string, e: string, q: string, f: string)
    requires IsScheme(p) && IsScheme(q) && ':' !in e && ':' !in f && p + e == q + f
    ensures p == q && e == f
  {
    var u := p + e;
    assert p != "" ==> u[|p| - 1] == ':';
    assert q != "" ==> u[|q| - 1] == ':';
    assert p == "" ==> u == e;
    assert q == "" ==> u == f;
    assert p != "" && q != "" ==> u[0] == p[0] && u[0] == q[0];
    assert |p| == |q|;
    assert e == u[|p|..] && f == u[|q|..];
  }

  /** No two values share an encoding. */
  lemma EncodedInjective(s: string, t: string, skipScheme: bool)
    requires Encoded(s, skipScheme) == Encoded(t, skipScheme)
    ensures s == t
  {
    var m, n := SchemeLength(s, skipScheme), SchemeLength(t, skipScheme);
    SchemeIs(s, skipScheme);
    SchemeIs(t, skipScheme);
    EncodeHidesColons(s[m..]);
    EncodeHidesColons(t[n..]);
    hide IsScheme, Encode, SchemeLength;
    SchemeShows(s[..m], Encode(s[m..]), t[..n], Encode(t[n..]));
    EncodeInjective(s[m..], t[n..]);
  }

  // ------------------------------------------------------- what is in the result

  predicate Reserved(c: char) {
    c in ":?=&*'\"+\\() "
  }

  lemma CodeShows(c: char, d: char)
    requires d in Code(c)
    ensures !Reserved(d)
    ensures d != c ==> d == '%' || IsHex(d)
  {
  }

  /** No reserved character is left in an encoded text, so it can stand in a query as one value. */
  lemma {:induction false} ReservedNeverShow(s: string, c: char)
    requires c in Encode(s)
    ensures c !in ":?=&*'\"+\\() "
  {
    if c in Code(s[0]) {
      CodeShows(s[0], c);
    } else {
      ReservedNeverShow(s[1..], c);
    }
  }

  /** All that is not reserved stands for itself. */
  lemma {:induction false} OthersStand(s: string)
    ensures Encode(s) == s <==> forall c :: c in s ==> c !in "%:?=&*'\"+\\() "
  {
    if s != "" {
      assert s == [s[0]] + s[1..];
      OthersStand(s[1..]);
      EncodeLength(s[1..]);
      assert s[0] in "%:?=&*'\"+\\() " <==> |Code(s[0])| == 3;
      CodeIs(s[0]);
      hide Code;
      if |Code(s[0])| == 1 {
        assert Encode(s)[1..] == Encode(s[1..]);
      }
    }
  }

  lemma LengthOfScheme(p: string, s: string)
    requires (p == "http:" || p == "file:" || p == "ftp:") && p <= s
    ensures SchemeLength(s, true) == |p|
  {
    assert s[0] == p[0] && s[1] == p[1];
    assert p == "ftp:" ==> s[1] == 't' && !("file:" <= s) && !("http:" <= s);
  }

  /** A scheme is copied where that is asked for, and everything else is encoded. */
  lemma SchemeIsCopied(p: string, t: string)
    requires p == "http:" || p == "file:" || p == "ftp:"
    ensures Encoded(p + t, true) == p + Encode(t)
  {
    var s := p + t;
    assert s[..|p|] == p && s[|p|..] == t;
    LengthOfScheme(p, s);
    hide Encode, SchemeLength;
  }

  lemma NothingIsCopied(s: string, skipScheme: bool)
    requires !skipScheme || (!("http:" <= s) && !("file:" <= s) && !("ftp:" <= s))
    ensures Encoded(s, skipScheme) == Encode(s)
  {
    assert s[..0] == "" && s[0..] == s;
    assert SchemeLength(s, skipScheme) == 0;
    hide Encode, SchemeLength;
  }
}
