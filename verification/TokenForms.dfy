/** The tokens of parser/mux_parse.h without the tokenizer: which texts are tokens, and that the
    tokenizer always takes the longest. */
module TokenForms {
  import opened Substitutions
  import opened Tokens
  import opened Sequences

  predicate IsHash(t: string) {
    |t| >= 2 && t[0] == '#' && t[1] in "#@$"
  }

  predicate IsRun(t: string) {
    t != "" && forall j :: 0 <= j < |t| ==> t[j] in " \t"
  }

  /** A word runs up to the next special character; a hash form is not the start of one. */
  predicate IsLiteral(t: string) {
    t != "" && !IsHash(t) && forall j :: 0 <= j < |t| ==> t[j] !in "[]{}(),;%\\ \t"
  }

  /** The whole text is one token. */
  predicate IsToken(t: string, penn: bool) {
    || (|t| == 1 && t[0] in "[]{}(),;")
    || (|t| == 2 && IsHash(t))
    || IsUnit(t, penn)
    || (1 <= |t| <= 2 && t[0] == '\\')
    || IsRun(t)
    || IsLiteral(t)
  }

  /** The kind of a token's text, in front of the rest of the input. */
  function KindOf(t: string, rest: string): Kind
    requires t != ""
  {
    match t[0]
    case '[' => LBrack
    case ']' => RBrack
    case '{' => LBrace
    case '}' => RBrace
    case '(' => LParen
    case ')' => RParen
    case ',' => Comma
    case ';' => Semi
    case '%' => Pct
    case '\\' => Esc
    case ' ' => Blank
    case '\t' => Blank
    case _ => if IsHash(t) then Pct else if rest != "" && rest[0] == '(' then Func else Lit
  }

  /** The token is the longest at the front of the text, and has its kind. */
  ghost predicate IsFirst(t: Token, s: string, penn: bool) {
    && t.text != "" && t.text <= s && IsToken(t.text, penn) && (forall j :: |t.text| < j <= |s| ==> !IsToken(s[..j], penn))
    && t.kind == KindOf(t.text, s[|t.text|..])
  }

  /** So is every token in turn, until the text is used up. */
  ghost predicate Munches(tokens: seq<Token>, s: string, penn: bool) {
    if tokens == [] then s == "" else IsFirst(tokens[0], s, penn) && Munches(tokens[1..], s[|tokens[0].text|..], penn)
  }

  lemma {:induction false} RunUpTo(s: string, i: nat, j: nat)
    requires i < j <= |s| && IsBlank(s[i])
    ensures IsRun(s[i..j]) <==> j <= BlankEnd(s, i + 1)
  {
    BlankStops(s, i + 1);
    var t, e := s[i..j], BlankEnd(s, i + 1);
    assert forall k :: 0 <= k < |t| ==> t[k] == s[i + k];
  }

  lemma {:induction false} BlankStops(s: string, i: nat)
    requires i <= |s|
    ensures BlankEnd(s, i) < |s| ==> s[BlankEnd(s, i)] !in " \t"
    decreases |s| - i
  {
    if i < |s| && IsBlank(s[i]) {
      BlankStops(s, i + 1);
    }
  }

  lemma EndsIs(c: char)
    ensures EndsLiteral(c) <==> c in "[]{}(),;%\\ \t"
    ensures IsBlank(c) <==> c in " \t"
    ensures IsPunct(c) <==> c in "[]{}(),;"
  {
  }

  lemma LiteralUpTo(s: string, i: nat, j: nat)
    requires i < j <= |s| && !EndsLiteral(s[i]) && !HashAt(s, i)
    ensures IsLiteral(s[i..j]) <==> j <= LiteralEnd(s, i + 1)
  {
    var t, e := s[i..j], LiteralEnd(s, i + 1);
    hide EndsLiteral;
    forall k | 0 <= k < |t| ensures t[k] == s[i + k] && (t[k] in "[]{}(),;%\\ \t" <==> EndsLiteral(s[i + k])) {
      EndsIs(t[k]);
    }
  }

  /** Which texts from i on are tokens, told from the first character. */
  lemma TokenUpTo(s: string, i: nat, j: nat, penn: bool)
    requires i < j <= |s|
    ensures IsToken(s[i..j], penn) <==>
      if s[i] in "[]{}(),;" then j == i + 1
      else if HashAt(s, i) then j == i + 1 || j == i + 2
      else if s[i] == '%' then IsUnit(s[i..j], penn)
      else if s[i] == '\\' then j <= i + 2
      else if s[i] in " \t" then IsRun(s[i..j])
      else IsLiteral(s[i..j])
  {
    var t := s[i..j];
    assert t[0] == s[i] && (|t| > 1 ==> t[1] == s[i + 1]);
    hide IsUnit;
    UnitStarts(t, penn);
  }

  lemma UnitStarts(t: string, penn: bool)
    ensures IsUnit(t, penn) ==> t != "" && t[0] == '%'
  {
  }

  /** The tokenizer takes the longest token. */
  lemma TokenIsLongest(s: string, i: nat, penn: bool)
    requires i < |s|
    ensures IsToken(s[i..TokenEnd(s, i, penn)], penn)
    ensures forall j :: TokenEnd(s, i, penn) < j <= |s| ==> !IsToken(s[i..j], penn)
  {
    var e := TokenEnd(s, i, penn);
    EndsIs(s[i]);
    hide IsToken, IsUnit, EndsLiteral, IsBlank, IsPunct, IsRun, IsLiteral, UnitEnd, BlankEnd, LiteralEnd;
    forall j | e <= j <= |s| ensures IsToken(s[i..j], penn) <==> j == e {
      TokenUpTo(s, i, j, penn);
      if s[i] == '%' {
        UnitIsLongest(s, i + 1, penn);
        assert s[i..j] == "%" + s[i + 1..j];
      } else if IsBlank(s[i]) {
        RunUpTo(s, i, j);
      } else if !EndsLiteral(s[i]) && !HashAt(s, i) {
        LiteralUpTo(s, i, j);
      }
    }
  }

  lemma KindIs(s: string, i: nat, penn: bool)
    requires i < |s|
    ensures var t := TokenAt(s, i, penn); t.text != "" && t.kind == KindOf(t.text, s[TokenEnd(s, i, penn)..])
  {
    var e := TokenEnd(s, i, penn);
    var t := s[i..e];
    assert t[0] == s[i] && (|t| > 1 ==> t[1] == s[i + 1]);
    assert HashAt(s, i) ==> e == i + 2;
    hide TokenEnd;
    EndsIs(s[i]);
  }

  /** No other token can come first. */
  lemma FirstExactly(s: string, i: nat, penn: bool, t: Token)
    requires i < |s|
    ensures IsFirst(t, s[i..], penn) <==> t == TokenAt(s, i, penn)
    ensures IsFirst(t, s[i..], penn) ==> |t.text| <= |s| - i
    ensures t == TokenAt(s, i, penn) ==> s[i..][|t.text|..] == s[TokenEnd(s, i, penn)..]
  {
    hide IsToken, TokenEnd, TokenAt, KindOf;
    var e, u := TokenEnd(s, i, penn), s[i..];
    TokenIsLongest(s, i, penn);
    KindIs(s, i, penn);
    TokenText(s, i, penn);
    assert u[..e - i] == s[i..e] && u[e - i..] == s[e..];
    forall j | e - i < j <= |u| ensures !IsToken(u[..j], penn) {
      assert u[..j] == s[i..i + j];
    }
    if IsFirst(t, u, penn) {
      var w := t.text;
      assert u[..|w|] == w && IsToken(u[..|w|], penn) && IsToken(u[..e - i], penn);
      assert |w| == e - i;
    }
  }

  /** The tokens are exactly the longest ones from left to right, each of its kind. */
  lemma {:induction false} LexExactly(s: string, i: nat, penn: bool, tokens: seq<Token>)
    requires i <= |s|
    ensures Munches(tokens, s[i..], penn) <==> tokens == Lex(s, i, penn)
    decreases |s| - i
  {
    hide IsFirst, TokenEnd, TokenAt;
    if i == |s| {
      if tokens != [] {
        NoFirst(tokens[0], penn);
      }
    } else if tokens != [] {
      var e, t := TokenEnd(s, i, penn), TokenAt(s, i, penn);
      FirstExactly(s, i, penn, tokens[0]);
      LexExactly(s, e, penn, tokens[1..]);
      assert Lex(s, i, penn) == [t] + Lex(s, e, penn);
      assert Munches(tokens, s[i..], penn) <==>
        IsFirst(tokens[0], s[i..], penn) && Munches(tokens[1..], s[i..][|tokens[0].text|..], penn);
      hide Lex, Munches;
      HeadAndTail(tokens, t, Lex(s, e, penn));
    } else {
      assert s[i..] != "";
    }
  }

  lemma NoFirst(t: Token, penn: bool)
    ensures !IsFirst(t, "", penn)
  {
  }
}
