/** Parsing the repaired text again (parser/mux_parse.h): the input with its missing closers
    gives the same tree, with nothing missing, unless the last token swallows a closer. */
module Reparsing {
  import opened Substitutions
  import opened Sequences
  import opened Tokens
  import opened Syntax
  import opened Parsing
  import Grammar

  predicate IsCloser(c: char) {
    c == ')' || c == ']' || c == '}'
  }

  // ----- tokens that reach for the next character -----

  predicate NoAngle(s: string, k: nat) {
    forall j :: k <= j < |s| ==> s[j] != '>'
  }

  /** An angle bracket opens at k and does not close. */
  predicate Unclosed(s: string, k: nat) {
    k < |s| && s[k] == '<' && NoAngle(s, k + 1)
  }

  /** A substitution whose selecting character is at i takes whatever comes next. */
  predicate Hungry(s: string, i: nat, penn: bool) {
    || i >= |s|
    || (s[i] == '=' && Unclosed(s, i + 1))
    || ((Upper(s[i]) == 'Q' || (!penn && (Upper(s[i]) == 'C' || Upper(s[i]) == 'X'))) && (i + 1 >= |s| || Unclosed(s, i + 1)))
  }

  /** A token that is not finished: a lone backslash, or a substitution that lacks its name. */
  predicate OpenEnded(t: string, penn: bool) {
    t == "\\" || (t != "" && t[0] == '%' && Hungry(t, 1, penn))
  }

  /** The last token is finished. */
  predicate Sealed(tokens: seq<Token>, penn: bool) {
    tokens == [] || !OpenEnded(tokens[|tokens| - 1].text, penn)
  }

  // ----- one more closer -----

  lemma {:induction false} FindMore(s: string, i: nat, c: char)
    requires i <= |s| && c != '>'
    ensures Find(s + [c], i, '>') == if NoAngle(s, i) then |s| + 1 else Find(s, i, '>')
    ensures NoAngle(s, i) <==> Find(s, i, '>') == |s|
    decreases |s| - i
  {
    var t := s + [c];
    if i < |s| {
      assert t[i] == s[i];
      if s[i] != '>' {
        FindMore(s, i + 1, c);
        assert NoAngle(s, i) <==> NoAngle(s, i + 1);
      }
    } else {
      assert t[i] == c;
    }
  }

  lemma AngleMore(s: string, i: nat, c: char)
    requires i < |s| && s[i] == '<' && c != '>'
    ensures AngleEnd(s + [c], i) == if Unclosed(s, i) then |s| + 1 else AngleEnd(s, i)
    ensures Unclosed(s, i) ==> AngleEnd(s, i) == |s|
  {
    FindMore(s, i + 1, c);
  }

  lemma NameMore(s: string, i: nat, c: char)
    requires i <= |s| && IsCloser(c)
    ensures NameEnd(s + [c], i) == if i == |s| || Unclosed(s, i) then |s| + 1 else NameEnd(s, i)
    ensures i == |s| || Unclosed(s, i) ==> NameEnd(s, i) == |s|
  {
    var t := s + [c];
    if i < |s| {
      assert t[i] == s[i];
      if s[i] == '<' {
        AngleMore(s, i, c);
      }
    } else {
      assert t[i] == c;
    }
  }

  lemma UnitMore(s: string, i: nat, c: char, penn: bool)
    requires i <= |s| && IsCloser(c)
    ensures UnitEnd(s + [c], i, penn) == if Hungry(s, i, penn) then |s| + 1 else UnitEnd(s, i, penn)
    ensures Hungry(s, i, penn) ==> UnitEnd(s, i, penn) == |s|
  {
    var t := s + [c];
    if i < |s| {
      assert t[i] == s[i];
      assert i + 1 < |s| ==> t[i + 1] == s[i + 1];
      assert i + 1 == |s| ==> t[i + 1] == c;
      NameMore(s, i + 1, c);
      if i + 1 < |s| && s[i + 1] == '<' {
        AngleMore(s, i + 1, c);
      }
      hide AngleEnd, NameEnd, Unclosed;
    } else {
      assert t[i] == c;
    }
  }

  lemma {:induction false} RunsMore(s: string, i: nat, c: char)
    requires i <= |s| && IsCloser(c)
    ensures BlankEnd(s + [c], i) == BlankEnd(s, i) && LiteralEnd(s + [c], i) == LiteralEnd(s, i)
    decreases |s| - i
  {
    var t := s + [c];
    if i < |s| {
      assert t[i] == s[i];
      RunsMore(s, i + 1, c);
    } else {
      assert t[i] == c;
    }
  }

  lemma HungrySlice(s: string, i: nat, penn: bool)
    requires i < |s|
    ensures Hungry(s[i..], 1, penn) <==> Hungry(s, i + 1, penn)
  {
    var t := s[i..];
    assert forall j :: 0 <= j < |t| ==> t[j] == s[i + j];
    assert NoAngle(t, 3) <==> NoAngle(s, i + 3) by {
      if NoAngle(t, 3) {
        forall j | i + 3 <= j < |s| ensures s[j] != '>' {
          assert s[j] == t[j - i];
        }
      }
    }
  }

  /** A token is not changed by a closer behind it, unless it is the last one and open-ended. */
  lemma TokenMore(s: string, i: nat, c: char, penn: bool)
    requires i < |s| && IsCloser(c)
    ensures TokenEnd(s, i, penn) < |s| || !OpenEnded(s[i..], penn) ==> TokenEnd(s + [c], i, penn) == TokenEnd(s, i, penn)
    ensures TokenEnd(s, i, penn) == |s| && OpenEnded(s[i..], penn) ==> TokenEnd(s + [c], i, penn) == |s| + 1
  {
    var t := s + [c];
    assert t[i] == s[i] && (i + 1 < |s| ==> t[i + 1] == s[i + 1]) && (i + 1 == |s| ==> t[i + 1] == c);
    assert HashAt(t, i) <==> HashAt(s, i);
    assert s[i..][0] == s[i] && (s[i..] == "\\" <==> s[i] == '\\' && i + 1 == |s|);
    HungrySlice(s, i, penn);
    UnitMore(s, i + 1, c, penn);
    RunsMore(s, i + 1, c);
    hide UnitEnd, BlankEnd, LiteralEnd, Hungry, HashAt;
  }

  lemma KindMore(s: string, i: nat, e: nat, c: char)
    requires i < |s| && i < e <= |s| && IsCloser(c)
    ensures KindAt(s + [c], i, e) == KindAt(s, i, e)
  {
    var t := s + [c];
    assert t[i] == s[i] && (i + 1 < |s| ==> t[i + 1] == s[i + 1]) && (i + 1 == |s| ==> t[i + 1] == c);
    assert HashAt(t, i) <==> HashAt(s, i);
    assert e < |s| ==> t[e] == s[e];
    assert e == |s| ==> t[e] == c;
    hide HashAt;
  }

  function CloserToken(c: char): Token {
    Token(PunctKind(c), [c])
  }

  lemma CloserPunct(c: char)
    requires IsCloser(c)
    ensures IsPunct(c)
  {
  }

  lemma LastCloser(s: string, c: char, penn: bool)
    requires IsCloser(c)
    ensures Lex(s + [c], |s|, penn) == [CloserToken(c)]
  {
    hide UnitEnd, BlankEnd, LiteralEnd, HashAt;
    var t := s + [c];
    CloserPunct(c);
    hide IsPunct;
    assert t[|s|] == c;
    assert t[|s|..|s| + 1] == [t[|s|]];
    assert TokenEnd(t, |s|, penn) == |t|;
    assert Lex(t, |t|, penn) == [];
    assert TokenAt(t, |s|, penn) == CloserToken(c);
  }

  /** Behind a finished token a closer is a token of its own. */
  lemma {:induction false} LexMore(s: string, i: nat, c: char, penn: bool)
    requires i <= |s| && IsCloser(c) && Sealed(Lex(s, i, penn), penn)
    ensures Lex(s + [c], i, penn) == Lex(s, i, penn) + [CloserToken(c)]
    decreases |s| - i
  {
    var t := s + [c];
    if i == |s| {
      LastCloser(s, c, penn);
    } else {
      var e := TokenEnd(s, i, penn);
      var rest, tok := Lex(s, e, penn), TokenAt(s, i, penn);
      assert Lex(s, i, penn) == [tok] + rest && tok.text == s[i..e];
      assert e == |s| ==> s[i..e] == s[i..];
      assert e == |s| ==> rest == [];
      assert e < |s| ==> rest != [];
      TokenMore(s, i, c, penn);
      KindMore(s, i, e, c);
      assert t[i..e] == s[i..e];
      assert TokenEnd(t, i, penn) == e && TokenAt(t, i, penn) == tok;
      LexMore(s, e, c, penn);
      assert Lex(t, i, penn) == [tok] + Lex(t, e, penn);
      hide *;
      Regroup([tok], rest, [CloserToken(c)]);
    }
  }

  /** No token gets shorter. */
  ghost predicate Grown(a: seq<Token>, b: seq<Token>) {
    |a| <= |b| && forall j :: 0 <= j < |a| ==> |a[j].text| <= |b[j].text|
  }

  lemma GrownBehind(tok: Token, tok': Token, a: seq<Token>, b: seq<Token>)
    requires Grown(a, b) && |tok.text| <= |tok'.text|
    ensures Grown([tok] + a, [tok'] + b)
  {
  }

  /** An open-ended last token takes the closer in. */
  lemma {:induction false} LexSwallows(s: string, i: nat, c: char, penn: bool)
    requires i <= |s| && IsCloser(c) && !Sealed(Lex(s, i, penn), penn)
    ensures var a, b := Lex(s, i, penn), Lex(s + [c], i, penn);
      Grown(a, b) && |a| > 0 && |a[|a| - 1].text| < |b[|a| - 1].text|
    decreases |s| - i
  {
    hide TokenEnd, TokenAt, OpenEnded;
    var t, e := s + [c], TokenEnd(s, i, penn);
    var rest, tok := Lex(s, e, penn), TokenAt(s, i, penn);
    TokenText(s, i, penn);
    TokenMore(s, i, c, penn);
    var e' := TokenEnd(t, i, penn);
    TokenText(t, i, penn);
    assert Lex(s, i, penn) == [tok] + rest && Lex(t, i, penn) == [TokenAt(t, i, penn)] + Lex(t, e', penn);
    if e == |s| {
      assert s[i..e] == s[i..];
    } else {
      assert t[i..e] == s[i..e] && rest != [];
      LexSwallows(s, e, c, penn);
      GrownBehind(tok, TokenAt(t, i, penn), rest, Lex(t, e, penn));
    }
  }

  lemma LexGrows(s: string, c: char, penn: bool)
    requires IsCloser(c)
    ensures Grown(Lex(s, 0, penn), Lex(s + [c], 0, penn))
  {
    hide Lex, OpenEnded;
    if Sealed(Lex(s, 0, penn), penn) {
      LexMore(s, 0, c, penn);
    } else {
      LexSwallows(s, 0, c, penn);
    }
  }

  // ----- all the missing closers -----

  ghost predicate Inner(st: seq<Group>) {
    forall i :: 0 <= i < |st| ==> st[i] != Outer
  }

  lemma {:induction false} ScanInner(tokens: seq<Token>, q: nat)
    requires q <= |tokens|
    ensures Inner(Scan(tokens, 0, q, []))
  {
    if q > 0 {
      ScanInner(tokens, q - 1);
    }
  }

  lemma {:induction false} ScanSame(a: seq<Token>, b: seq<Token>, q: nat)
    requires q <= |a| && q <= |b| && forall i :: 0 <= i < q ==> a[i] == b[i]
    ensures Scan(a, 0, q, []) == Scan(b, 0, q, [])
  {
    if q > 0 {
      ScanSame(a, b, q - 1);
      hide Scan;
    }
  }

  function CloserChar(g: Group): char {
    match g
    case Paren => ')'
    case Bracket => ']'
    case _ => '}'
  }

  lemma CloserCloses(tokens: seq<Token>, n: nat, g: Group, rest: seq<Group>)
    requires n < |tokens| && g != Outer && tokens[n] == CloserToken(CloserChar(g))
    ensures Step(tokens, n, [g] + rest) == rest
  {
    assert ([g] + rest)[1..] == rest;
  }

  /** One closer more on the scanner's side. */
  lemma ScanClosed(lex: seq<Token>, g: Group, rest: seq<Group>)
    requires g != Outer && Scan(lex + [END], 0, |lex|, []) == [g] + rest
    ensures Scan(lex + [CloserToken(CloserChar(g))] + [END], 0, |lex| + 1, []) == rest
  {
    var n, tok := |lex|, CloserToken(CloserChar(g));
    var a, b := lex + [END], lex + [tok] + [END];
    assert forall i :: 0 <= i < n ==> a[i] == lex[i] && b[i] == lex[i];
    assert b[n] == tok;
    ScanSame(a, b, n);
    assert Scan(b, 0, n + 1, []) == Step(b, n, Scan(b, 0, n, []));
    hide Scan, CloserToken;
    CloserCloses(b, n, g, rest);
  }

  lemma CloserSeals(lex: seq<Token>, c: char, penn: bool)
    requires IsCloser(c)
    ensures Sealed(lex + [CloserToken(c)], penn) && Texts(lex + [CloserToken(c)]) == Texts(lex) + [[c]]
  {
    hide Hungry;
    var all := lex + [CloserToken(c)];
    assert all[|all| - 1] == CloserToken(c);
    assert "\\"[0] == '\\';
  }

  lemma MissingInner(s: string, penn: bool)
    ensures Inner(Missing(s, penn))
  {
    hide Lex, Scan, Inner;
    ScanInner(Tokenized(s, penn), |Lex(s, 0, penn)|);
  }

  /** The innermost missing closer, written behind a finished token, closes its group. */
  lemma CloseOne(s: string, penn: bool)
    requires Missing(s, penn) != [] && Sealed(Lex(s, 0, penn), penn)
    ensures var g, s' := Missing(s, penn)[0], s + [CloserChar(Missing(s, penn)[0])];
      && g != Outer && Closer(g) == [CloserChar(g)] && Missing(s', penn) == Missing(s, penn)[1..]
      && Sealed(Lex(s', 0, penn), penn) && Texts(Lex(s', 0, penn)) == Texts(Lex(s, 0, penn)) + [Closer(g)]
  {
    hide Lex, Scan, Sealed, CloserToken, Texts;
    MissingInner(s, penn);
    var lex, st := Lex(s, 0, penn), Missing(s, penn);
    var g, c := st[0], CloserChar(st[0]);
    LexMore(s, 0, c, penn);
    assert st == [g] + st[1..];
    ScanClosed(lex, g, st[1..]);
    CloserSeals(lex, c, penn);
  }

  /** All of them, innermost first. */
  lemma {:induction false} CloseAll(s: string, penn: bool)
    requires Sealed(Lex(s, 0, penn), penn)
    ensures var s' := s + Concat(Closers(Missing(s, penn)));
      Missing(s', penn) == [] && Texts(Lex(s', 0, penn)) == Texts(Lex(s, 0, penn)) + Closers(Missing(s, penn))
    decreases |Missing(s, penn)|
  {
    var st := Missing(s, penn);
    hide Missing, Lex, Sealed;
    if st == [] {
      assert Closers(st) == [] && s + Concat([]) == s;
    } else {
      CloseOne(s, penn);
      var c, rest := CloserChar(st[0]), Closers(st[1..]);
      var s1 := s + [c];
      CloseAll(s1, penn);
      assert Closers(st) == [Closer(st[0])] + rest && Closers(st)[1..] == rest;
      assert Concat(Closers(st)) == [c] + Concat(rest);
      Regroup(s, [c], Concat(rest));
      Regroup(Texts(Lex(s, 0, penn)), [Closer(st[0])], rest);
    }
  }

  /** However many closers follow, no token gets shorter. */
  lemma {:induction false} ClosersGrow(s: string, u: string, penn: bool)
    requires forall i :: 0 <= i < |u| ==> IsCloser(u[i])
    ensures Grown(Lex(s, 0, penn), Lex(s + u, 0, penn))
    decreases |u|
  {
    hide Lex, Grown;
    if u == "" {
      assert s + u == s;
      GrownSelf(Lex(s, 0, penn));
    } else {
      LexGrows(s, u[0], penn);
      ClosersGrow(s + [u[0]], u[1..], penn);
      assert s + u == (s + [u[0]]) + u[1..];
      GrownTwice(Lex(s, 0, penn), Lex(s + [u[0]], 0, penn), Lex(s + u, 0, penn));
    }
  }

  lemma GrownSelf(a: seq<Token>)
    ensures Grown(a, a)
  {
  }

  lemma GrownTwice(a: seq<Token>, b: seq<Token>, c: seq<Token>)
    requires Grown(a, b) && Grown(b, c)
    ensures Grown(a, c)
  {
    forall j | 0 <= j < |a| ensures |a[j].text| <= |c[j].text| {
      assert |a[j].text| <= |b[j].text| <= |c[j].text|;
    }
  }

  lemma {:induction false} CloserChars(st: seq<Group>)
    requires Inner(st)
    ensures var u := Concat(Closers(st)); |u| == |st| && forall i :: 0 <= i < |u| ==> IsCloser(u[i])
  {
    if st != [] {
      CloserChars(st[1..]);
      assert Closers(st)[1..] == Closers(st[1..]);
      assert Concat(Closers(st)) == Closer(st[0]) + Concat(Closers(st[1..]));
    }
  }

  lemma GrownPast(a: seq<Token>, b: seq<Token>, c: seq<Token>)
    requires 0 < |a| && Grown(a, b) && Grown(b, c) && |a[|a| - 1].text| < |b[|a| - 1].text|
    ensures |a| <= |c| && a[|a| - 1].text != c[|a| - 1].text
  {
    var k := |a| - 1;
    assert |a[k].text| < |b[k].text| <= |c[k].text|;
  }

  /** Behind an open-ended token the first closer is lost: the token that took it in differs. */
  lemma Swallowed(s: string, u: string, penn: bool)
    requires u != "" && (forall i :: 0 <= i < |u| ==> IsCloser(u[i])) && !Sealed(Lex(s, 0, penn), penn)
    ensures var a, b := Lex(s, 0, penn), Lex(s + u, 0, penn); 0 < |a| <= |b| && a[|a| - 1].text != b[|a| - 1].text
  {
    hide Lex, Sealed, Grown;
    var s1, u1 := s + [u[0]], u[1..];
    assert s + u == s1 + u1;
    LexSwallows(s, 0, u[0], penn);
    ClosersGrow(s1, u1, penn);
    GrownPast(Lex(s, 0, penn), Lex(s1, 0, penn), Lex(s1 + u1, 0, penn));
  }

  /** The input with its missing closers, innermost first. */
  function Repaired(s: string, penn: bool): string {
    s + Concat(Closers(Missing(s, penn)))
  }

  /** What Parse promises of the tree of a text. */
  ghost predicate TreeOf(s: string, penn: bool, n: Node) {
    LegalGroup(n, Outer) && Print(n) == Texts(Lex(s, 0, penn)) + Closers(Missing(s, penn))
  }

  /** The texts of two trees differ where their tokens do. */
  lemma TextsTell(a: seq<Token>, b: seq<Token>, u: seq<string>, v: seq<string>, k: nat)
    requires k < |a| && k < |b| && a[k].text != b[k].text
    ensures Texts(a) + u != Texts(b) + v
  {
    assert (Texts(a) + u)[k] == a[k].text && (Texts(b) + v)[k] == b[k].text;
  }

  /** What is lost once a closer is taken in. */
  lemma TreeDiffers(s: string, penn: bool, n: Node, m: Node)
    requires TreeOf(s, penn, n) && TreeOf(Repaired(s, penn), penn, m)
    requires Missing(s, penn) != [] && !Sealed(Lex(s, 0, penn), penn)
    ensures m != n
  {
    hide Lex, Missing, LegalGroup, Print, Sealed, Closers, Texts;
    MissingInner(s, penn);
    CloserChars(Missing(s, penn));
    Swallowed(s, Concat(Closers(Missing(s, penn))), penn);
    var a, b := Lex(s, 0, penn), Lex(Repaired(s, penn), 0, penn);
    TextsTell(a, b, Closers(Missing(s, penn)), Closers(Missing(Repaired(s, penn), penn)), |a| - 1);
  }

  /** Parsing the repaired text gives the same tree, with nothing missing, if and only if nothing
      was missing or the last token is finished. */
  lemma ReparseExactly(s: string, penn: bool, n: Node, m: Node)
    requires TreeOf(s, penn, n) && TreeOf(Repaired(s, penn), penn, m)
    ensures m == n && Missing(Repaired(s, penn), penn) == [] <==> Missing(s, penn) == [] || Sealed(Lex(s, 0, penn), penn)
  {
    hide Lex, Missing, LegalGroup, Print, Sealed, Texts;
    assert Closers([]) == [] && s + Concat([]) == s;
    if Missing(s, penn) == [] {
      Grammar.Unambiguous(n, m);
    } else if Sealed(Lex(s, 0, penn), penn) {
      CloseAll(s, penn);
      Grammar.Unambiguous(n, m);
    } else {
      TreeDiffers(s, penn, n, m);
    }
  }

  /** Such a text: in "[%q" the substitution takes the bracket that is written to close the group,
      and the group stays open. */
  lemma ClosersCanBeLost()
    ensures Missing("[%q", false) == [Bracket] && Repaired("[%q", false) == "[%q]" && Missing("[%q]", false) == [Bracket]
  {
    hide Missing;
    BracketFirst("[%q");
    BracketFirst("[%q]");
    assert Closers([Bracket]) == ["]"] && ["]"][1..] == [];
    assert Concat(["]"]) == "]";
    assert "[%q" + "]" == "[%q]";
  }

  lemma BracketFirst(s: string)
    requires s == "[%q" || s == "[%q]"
    ensures Missing(s, false) == [Bracket]
  {
    assert UnitEnd(s, 2, false) == |s|;
    assert TokenEnd(s, 0, false) == 1 && TokenEnd(s, 1, false) == |s|;
    var t0, t1 := TokenAt(s, 0, false), TokenAt(s, 1, false);
    assert t0.kind == LBrack && t1.kind == Pct;
    assert Lex(s, |s|, false) == [] && Lex(s, 1, false) == [t1] + Lex(s, |s|, false) == [t1];
    assert Lex(s, 0, false) == [t0] + Lex(s, 1, false) == [t0, t1];
    var tokens := Tokenized(s, false);
    assert tokens == [t0, t1, END];
    hide Lex, TokenAt;
    assert Scan(tokens, 0, 0, []) == [];
    assert Scan(tokens, 0, 1, []) == Step(tokens, 0, []) == [Bracket];
    assert Scan(tokens, 0, 2, []) == Step(tokens, 1, [Bracket]) == [Bracket];
  }
}
