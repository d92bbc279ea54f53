/** Templates in which every hole is written "{}": what any driver makes of them. */
module SqlTemplates {
  import opened Optional
  import opened Orders
  import opened SqlPrepare

  /** The template of a statement: each value becomes an automatic hole. */
  function Template<V>(ps: seq<Piece<V>>): string {
    if ps == [] then "" else (if ps[0].Plain? then [ps[0].c] else "{}") + Template(ps[1..])
  }

  /** Its values, in the order of their holes. */
  function Values<V>(ps: seq<Piece<V>>): seq<V> {
    if ps == [] then [] else (if ps[0].Plain? then [] else [ps[0].v]) + Values(ps[1..])
  }

  lemma {:induction false} TemplateConcat<V>(ps: seq<Piece<V>>, qs: seq<Piece<V>>)
    ensures Template(ps + qs) == Template(ps) + Template(qs)
    ensures Values(ps + qs) == Values(ps) + Values(qs)
  {
    if ps == [] {
      assert ps + qs == qs;
    } else {
      assert (ps + qs)[1..] == ps[1..] + qs && (ps + qs)[0] == ps[0];
      TemplateConcat(ps[1..], qs);
      Associative(if ps[0].Plain? then [ps[0].c] else "{}", Template(ps[1..]), Template(qs));
      Associative(if ps[0].Plain? then [] else [ps[0].v], Values(ps[1..]), Values(qs));
    }
  }

  /** Text no parameter style reads as a marker, with no name running on behind a value. */
  predicate Harmless(c: char) {
    c != '{' && c != '}' && c != '?' && c != ':' && c != '@'
  }

  ghost predicate Tame<V(!new)>(ps: seq<Piece<V>>) {
    && (forall p :: p in ps && p.Plain? ==> Harmless(p.c))
    && (forall i :: 0 <= i < |ps| - 1 && ps[i].Bound? && ps[i + 1].Plain? ==> !IsIdent(ps[i + 1].c))
  }

  lemma TameTail<V(!new)>(ps: seq<Piece<V>>)
    requires Tame(ps) && ps != []
    ensures Tame(ps[1..])
    ensures ps[0].Plain? ==> Harmless(ps[0].c)
    ensures ps[0].Bound? && |ps| > 1 && ps[1].Plain? ==> !IsIdent(ps[1].c)
  {
    assert forall p :: p in ps[1..] ==> p in ps;
    forall i | 0 <= i < |ps[1..]| - 1 && ps[1..][i].Bound? && ps[1..][i + 1].Plain?
      ensures !IsIdent(ps[1..][i + 1].c)
    {
      assert ps[1..][i] == ps[i + 1] && ps[1..][i + 1] == ps[i + 2];
    }
  }

  lemma TameConcat<V(!new)>(ps: seq<Piece<V>>, qs: seq<Piece<V>>)
    requires Tame(ps) && Tame(qs)
    requires qs == [] || (qs[0].Plain? && !IsIdent(qs[0].c))
    ensures Tame(ps + qs)
  {
    var rs := ps + qs;
    forall i | 0 <= i < |rs| - 1 && rs[i].Bound? && rs[i + 1].Plain?
      ensures !IsIdent(rs[i + 1].c)
    {
      if i >= |ps| { assert rs[i] == qs[i - |ps|] && rs[i + 1] == qs[i + 1 - |ps|]; }
    }
  }

  function Tokens<V>(ps: seq<Piece<V>>, k: nat): seq<Token> {
    if ps == [] then []
    else if ps[0].Plain? then [Chr(ps[0].c)] + Tokens(ps[1..], k)
    else [Hole(k)] + Tokens(ps[1..], k + 1)
  }

  function NextHole(n: Numbering): nat {
    if n.Auto? then n.next else 0
  }

  lemma {:induction false} TokenizeTemplate<V(!new)>(ps: seq<Piece<V>>, n: Numbering)
    requires Tame(ps) && !n.Manual?
    ensures Tokenize(Template(ps), n) == Some(Tokens(ps, NextHole(n)))
  {
    if ps != [] {
      TameTail(ps);
      hide Tame;
      var rest := Template(ps[1..]);
      if ps[0].Plain? {
        TokenizeTemplate(ps[1..], n);
        TokenizeChar(ps[0].c, rest, n);
      } else {
        TokenizeTemplate(ps[1..], Auto(NextHole(n) + 1));
        TokenizeHole(rest, n);
      }
      hide Tokenize;
    }
  }

  lemma TokenizeChar(c: char, rest: string, n: Numbering)
    requires c != '{' && c != '}'
    ensures Tokenize([c] + rest, n) == Prepend(Chr(c), Tokenize(rest, n))
  {
    assert ([c] + rest)[1..] == rest;
  }

  lemma TokenizeHole(rest: string, n: Numbering)
    requires !n.Manual?
    ensures Tokenize("{}" + rest, n) == Prepend(Hole(NextHole(n)), Tokenize(rest, Auto(NextHole(n) + 1)))
  {
    assert ("{}" + rest)[2..] == rest;
  }

  /** args holds the values from position k on. */
  ghost predicate Window<V>(args: seq<V>, k: nat, values: seq<V>) {
    k + |values| <= |args| && forall j :: 0 <= j < |values| ==> args[k + j] == values[j]
  }

  lemma WindowTail<V>(args: seq<V>, k: nat, v: V, values: seq<V>)
    requires Window(args, k, [v] + values)
    ensures k < |args| && args[k] == v && Window(args, k + 1, values)
  {
    assert ([v] + values)[0] == v;
    forall j | 0 <= j < |values|
      ensures args[k + 1 + j] == values[j]
    {
      assert args[k + (j + 1)] == ([v] + values)[j + 1];
    }
  }

  lemma {:induction false} TokensMean<V>(ps: seq<Piece<V>>, k: nat, args: seq<V>)
    requires Window(args, k, Values(ps))
    ensures HolesBelow(Tokens(ps, k), |args|)
    ensures Substitute(Tokens(ps, k), args) == ps && HoleArgs(Tokens(ps, k), args) == Values(ps)
  {
    if ps != [] {
      hide Window, HolesBelow, Substitute, HoleArgs;
      var p, rest := ps[0], ps[1..];
      if p.Plain? {
        assert [] + Values(rest) == Values(rest);
        TokensMean(rest, k, args);
        HeadMeans(Chr(p.c), Tokens(rest, k), args);
      } else {
        WindowTail(args, k, p.v, Values(rest));
        TokensMean(rest, k + 1, args);
        HeadMeans(Hole(k), Tokens(rest, k + 1), args);
      }
      hide Tokens, Values;
      assert ps == [p] + rest;
    } else {
      assert Substitute([], args) == [];
    }
  }

  lemma HeadMeans<V>(t: Token, more: seq<Token>, args: seq<V>)
    requires HolesBelow(more, |args|) && (t.Hole? ==> t.i < |args|)
    ensures HolesBelow([t] + more, |args|)
    ensures Substitute([t] + more, args)
         == [if t.Chr? then Plain(t.c) else Bound(args[t.i])] + Substitute(more, args)
    ensures HoleArgs([t] + more, args) == (if t.Hole? then [args[t.i]] else []) + HoleArgs(more, args)
  {
    assert ([t] + more)[1..] == more;
  }

  lemma {:induction false} TokensAreHarmless<V(!new)>(ps: seq<Piece<V>>, k: nat)
    requires Tame(ps)
    ensures forall t :: t in Tokens(ps, k) && t.Chr? ==> Harmless(t.c)
    ensures forall sybase :: Separated(Prefix(sybase), Tokens(ps, k))
  {
    if ps != [] {
      TameTail(ps);
      hide Tame;
      var rest := Tokens(ps[1..], if ps[0].Plain? then k else k + 1);
      TokensAreHarmless(ps[1..], if ps[0].Plain? then k else k + 1);
      assert Tokens(ps, k)[1..] == rest;
      if ps[0].Bound? && |ps| > 1 {
        assert rest[0] == if ps[1].Plain? then Chr(ps[1].c) else Hole(k + 1);
      }
    }
  }

  /** Whatever the driver, it binds the prepared template to the statement it was made from. */
  lemma AnyDriverBinds<V(!new)>(style: Style, ps: seq<Piece<V>>)
    requires Tame(ps) && Values(ps) != []
    ensures var p := Prepare(style, Template(ps), Values(ps));
            p.Some? && Bind(style, p.value.0, p.value.1) == Some(ps)
  {
    var args := Values(ps);
    TokenizeTemplate(ps, Unset);
    TokensMean(ps, 0, args);
    TokensAreHarmless(ps, 0);
    PrepareKeepsMeaningIff(style, Template(ps), args);
    assert Carries(style, Tokens(ps, 0), args);
  }
}
