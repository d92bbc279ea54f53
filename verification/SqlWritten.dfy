/** SQL templates from the text they are written in: what str.format reads there, and what reaches the driver. */
module SqlWritten {
  import opened Optional
  import opened Orders
  import opened Text
  import opened SqlPrepare

  /** A brace is written twice, hole i as its number in braces. */
  function Spelled(t: Token): string {
    match t
    case Chr(c) => if c == '{' || c == '}' then [c, c] else [c]
    case Hole(i) => "{" + Decimal(i) + "}"
  }

  function Written(ts: seq<Token>): string {
    if ts == [] then "" else Spelled(ts[0]) + Written(ts[1..])
  }

  /** The numbering once these tokens have been read. */
  function NumberingAfter(ts: seq<Token>, n: Numbering): Numbering {
    if exists t :: t in ts && t.Hole? then Manual else n
  }

  function Joined(ts: seq<Token>, rest: Option<seq<Token>>): Option<seq<Token>> {
    if rest.Some? then Some(ts + rest.value) else None
  }

  lemma ReadHole(i: nat, rest: string, n: Numbering)
    requires !n.Auto?
    ensures Tokenize(Spelled(Hole(i)) + rest, n) == Prepend(Hole(i), Tokenize(rest, Manual))
  {
    DecimalRoundTrip(i);
    var d := Decimal(i);
    var s := Spelled(Hole(i)) + rest;
    assert IsDigit(d[0]);
    assert s[1..] == d + ("}" + rest);
    DigitsOf(d, "}" + rest);
    assert s[1] == d[0] && s[|d| + 1] == '}' && s[|d| + 2..] == rest;
    hide Decimal, NumeralValue, Digits;
  }

  lemma ReadChar(c: char, rest: string, n: Numbering)
    ensures Tokenize(Spelled(Chr(c)) + rest, n) == Prepend(Chr(c), Tokenize(rest, n))
  {
    var s := Spelled(Chr(c)) + rest;
    assert s[|Spelled(Chr(c))|..] == rest;
  }

  lemma JoinedStep(t: Token, ts: seq<Token>, rest: Option<seq<Token>>)
    ensures Prepend(t, Joined(ts, rest)) == Joined([t] + ts, rest)
  {
    if rest.Some? {
      Associative([t], ts, rest.value);
    }
  }

  /** Reading what is written, with any text behind it. */
  lemma {:induction false} TokenizeBehind(ts: seq<Token>, rest: string, n: Numbering)
    requires !n.Auto?
    ensures Tokenize(Written(ts) + rest, n) == Joined(ts, Tokenize(rest, NumberingAfter(ts, n)))
  {
    if ts == [] {
      assert Written(ts) + rest == rest;
      assert Tokenize(rest, n).Some? ==> [] + Tokenize(rest, n).value == Tokenize(rest, n).value;
    } else {
      var t, more := ts[0], ts[1..];
      var m := if t.Hole? then Manual else n;
      assert ts == [t] + more;
      assert NumberingAfter(ts, n) == NumberingAfter(more, m);
      Associative(Spelled(t), Written(more), rest);
      hide Tokenize, Spelled, NumberingAfter;
      TokenizeBehind(more, rest, m);
      match t {
        case Chr(c) => ReadChar(c, Written(more) + rest, n);
        case Hole(i) => ReadHole(i, Written(more) + rest, n);
      }
      JoinedStep(t, more, Tokenize(rest, NumberingAfter(more, m)));
    }
  }

  /** Round trip: str.format finds in a written template just what was written. */
  lemma TokenizeWritten(ts: seq<Token>)
    ensures Tokenize(Written(ts), Unset) == Some(ts)
  {
    TokenizeBehind(ts, "", Unset);
    assert Written(ts) + "" == Written(ts) && ts + [] == ts;
    assert Tokenize("", NumberingAfter(ts, Unset)) == Some([]);
    hide Tokenize, Written;
  }

  /** A numbered hole makes an automatic one raise behind it, and a single brace always raises. */
  lemma UnreadableTemplates(ts: seq<Token>, rest: string)
    ensures (exists t :: t in ts && t.Hole?) ==> Tokenize(Written(ts) + ("{}" + rest), Unset).None?
    ensures Tokenize(Written(ts) + "{", Unset).None?
    ensures rest == "" || rest[0] != '}' ==> Tokenize(Written(ts) + ("}" + rest), Unset).None?
  {
    TokenizeBehind(ts, "{}" + rest, Unset);
    TokenizeBehind(ts, "{", Unset);
    TokenizeBehind(ts, "}" + rest, Unset);
    hide Written;
  }

  /** The statement meant: the characters, with argument i in each place where hole i was written. */
  function Intended<V>(ts: seq<Token>, args: seq<V>): seq<Piece<V>>
    requires HolesBelow(ts, |args|)
  {
    seq(|ts|, k requires 0 <= k < |ts| =>
      assert ts[k] in ts;
      match ts[k]
      case Chr(c) => Plain(c)
      case Hole(i) => Bound(args[i]))
  }

  lemma {:induction false} SubstituteIntends<V>(ts: seq<Token>, args: seq<V>)
    requires HolesBelow(ts, |args|)
    ensures Substitute(ts, args) == Intended(ts, args)
  {
    if ts != [] {
      var rest := ts[1..];
      assert ts[0] in ts && forall t :: t in rest ==> t in ts;
      SubstituteIntends(rest, args);
      assert Intended(ts, args)[1..] == Intended(rest, args);
      assert Intended(ts, args) == [Intended(ts, args)[0]] + Intended(ts, args)[1..];
    }
  }

  /** A written template is refused exactly when it asks for an argument that is not there; otherwise the
      driver executes the statement meant, argument i wherever hole i was written, in any order and
      however often, exactly when its style carries the template. */
  lemma WrittenBindsIff<V>(style: Style, ts: seq<Token>, args: seq<V>)
    requires args != []
    ensures var p := Prepare(style, Written(ts), args);
            && (p.Some? <==> HolesBelow(ts, |args|))
            && (p.Some? ==>
                  (Bind(style, p.value.0, p.value.1) == Some(Intended(ts, args)) <==> Carries(style, ts, args)))
  {
    TokenizeWritten(ts);
    PrepareKeepsMeaningIff(style, Written(ts), args);
    if HolesBelow(ts, |args|) {
      SubstituteIntends(ts, args);
    }
    hide Tokenize, Written, Prepare, Bind, Carries, Intended, Substitute;
  }

  /** The keys a mapping style binds the arguments to. */
  lemma KeysAreSpelled<V>(style: Style, args: seq<V>)
    requires style.PyFormat? || style.Named?
    ensures var data := DataToBind(style, args);
            && data.Mapping?
            && forall i :: 0 <= i < |args| ==>
                 var key := (if style == Named(true) then "@n" else "n") + Decimal(i);
                 key in data.entries && data.entries[key] == args[i]
  {
    NamedDataIsKeyed(style, args);
    forall i | 0 <= i < |args|
      ensures Key(style, i) == (if style == Named(true) then "@n" else "n") + Decimal(i)
    {
    }
    hide NamedData, Key, Decimal;
  }
}
