/** The tokenizer of parser/mux_parse.h. */
module Tokens {
  import opened Substitutions
  import opened Sequences

  datatype Kind = Lit | Func | LParen | RParen | LBrack | RBrack | LBrace | RBrace | Comma | Semi | Pct | Esc | Blank | Eof

  datatype Token = Token(kind: Kind, text: string)

  predicate IsBlank(c: char) {
    c == ' ' || c == '\t'
  }

  predicate IsPunct(c: char) {
    c in "[]{}(),;"
  }

  /** The characters that end a literal. */
  predicate EndsLiteral(c: char) {
    IsPunct(c) || c == '%' || c == '\\' || IsBlank(c)
  }

  function PunctKind(c: char): Kind {
    if c == '[' then LBrack else if c == ']' then RBrack else if c == '{' then LBrace else if c == '}' then RBrace
    else if c == '(' then LParen else if c == ')' then RParen else if c == ',' then Comma else Semi
  }

  /** ##, #@ or #$ at i. */
  predicate HashAt(s: string, i: nat) {
    i + 1 < |s| && s[i] == '#' && s[i + 1] in "#@$"
  }

  function BlankEnd(s: string, i: nat): (e: nat)
    requires i <= |s|
    ensures i <= e <= |s| && forall k :: i <= k < e ==> IsBlank(s[k])
    decreases |s| - i
  {
    if i < |s| && IsBlank(s[i]) then BlankEnd(s, i + 1) else i
  }

  function LiteralEnd(s: string, i: nat): (e: nat)
    requires i <= |s|
    ensures i <= e <= |s| && (forall k :: i <= k < e ==> !EndsLiteral(s[k])) && (e < |s| ==> EndsLiteral(s[e]))
    decreases |s| - i
  {
    if i < |s| && !EndsLiteral(s[i]) then LiteralEnd(s, i + 1) else i
  }

  // ----- tokens by looking ahead -----

  function TokenEnd(s: string, i: nat, penn: bool): (e: nat)
    requires i < |s|
    ensures i < e <= |s|
  {
    if IsPunct(s[i]) then i + 1
    else if HashAt(s, i) then i + 2
    else if s[i] == '%' then UnitEnd(s, i + 1, penn)
    else if s[i] == '\\' then Skip(s, i + 1, true)
    else if IsBlank(s[i]) then BlankEnd(s, i + 1)
    else LiteralEnd(s, i + 1)
  }

  /** A literal right before a parenthesis names a function. */
  function KindAt(s: string, i: nat, e: nat): Kind
    requires i < |s|
  {
    if IsPunct(s[i]) then PunctKind(s[i])
    else if HashAt(s, i) || s[i] == '%' then Pct
    else if s[i] == '\\' then Esc
    else if IsBlank(s[i]) then Blank
    else if e < |s| && s[e] == '(' then Func
    else Lit
  }

  function TokenAt(s: string, i: nat, penn: bool): Token
    requires i < |s|
  {
    var e := TokenEnd(s, i, penn);
    Token(KindAt(s, i, e), s[i..e])
  }

  /** The tokens from i on. */
  function Lex(s: string, i: nat, penn: bool): seq<Token>
    requires i <= |s|
    decreases |s| - i
  {
    if i == |s| then [] else [TokenAt(s, i, penn)] + Lex(s, TokenEnd(s, i, penn), penn)
  }

  const END := Token(Eof, "")

  function Tokenized(s: string, penn: bool): seq<Token> {
    Lex(s, 0, penn) + [END]
  }

  // ----- the loop, which looks back instead -----

  /** The tokens so far once the parenthesis at i, if any, has renamed the last literal. */
  function Renamed(tokens: seq<Token>, s: string, i: nat): seq<Token> {
    if i < |s| && s[i] == '(' && tokens != [] && tokens[|tokens| - 1].kind == Lit
    then tokens[..|tokens| - 1] + [tokens[|tokens| - 1].(kind := Func)]
    else tokens
  }

  /** tokenize */
  method Tokenize(s: string, penn: bool) returns (tokens: seq<Token>)
    ensures tokens == Tokenized(s, penn)
  {
    tokens := [];
    var i := 0;
    while i < |s|
      invariant i <= |s| && Renamed(tokens, s, i) + Lex(s, i, penn) == Lex(s, 0, penn)
    {
      LexNext(s, i, penn, tokens);
      hide *;
      var e, token := ReadToken(s, i, penn);
      tokens := RenameLast(tokens, s, i);
      tokens := tokens + [token];
      i := e;
    }
    tokens := tokens + [END];
  }

  method RenameLast(tokens: seq<Token>, s: string, i: nat) returns (tokens': seq<Token>)
    requires i < |s|
    ensures tokens' == Renamed(tokens, s, i)
  {
    tokens' := tokens;
    if s[i] == '(' {
      var last := |tokens| - 1;
      if tokens != [] && tokens[last].kind == Lit {
        tokens' := tokens[..last] + [tokens[last].(kind := Func)];
      }
    }
  }

  /** A token as the loop first takes it, before any renaming. */
  function Taken(s: string, i: nat, penn: bool): Token
    requires i < |s|
  {
    var t := TokenAt(s, i, penn);
    if t.kind == Func then t.(kind := Lit) else t
  }

  lemma LexNext(s: string, i: nat, penn: bool, tokens: seq<Token>)
    requires i < |s|
    ensures Renamed(tokens, s, i) + Lex(s, i, penn) ==
      Renamed(Renamed(tokens, s, i) + [Taken(s, i, penn)], s, TokenEnd(s, i, penn)) + Lex(s, TokenEnd(s, i, penn), penn)
  {
    hide Renamed, Taken, TokenAt, TokenEnd;
    var before, t, e := Renamed(tokens, s, i), TokenAt(s, i, penn), TokenEnd(s, i, penn);
    RenamesTaken(s, i, penn, before);
    var rest := Lex(s, e, penn);
    assert Lex(s, i, penn) == [t] + rest;
    hide Lex;
    assert before + ([t] + rest) == (before + [t]) + rest;
  }

  lemma RenamesTaken(s: string, i: nat, penn: bool, tokens: seq<Token>)
    requires i < |s|
    ensures Renamed(tokens + [Taken(s, i, penn)], s, TokenEnd(s, i, penn)) == tokens + [TokenAt(s, i, penn)]
  {
    var t, e := Taken(s, i, penn), TokenEnd(s, i, penn);
    assert (tokens + [t])[..|tokens|] == tokens && (tokens + [t])[|tokens|] == t;
    assert t.kind == Lit && e < |s| && s[e] == '(' <==> TokenAt(s, i, penn).kind == Func;
    hide TokenEnd;
  }

  /** One turn of the loop, up to the renaming. */
  method ReadToken(s: string, i: nat, penn: bool) returns (e: nat, token: Token)
    requires i < |s|
    ensures e == TokenEnd(s, i, penn) && token == Taken(s, i, penn)
  {
    hide UnitEnd, BlankEnd, LiteralEnd, IsPunct, HashAt;
    e := i + 1;
    assert s[i..i + 1] == [s[i]];
    if IsPunct(s[i]) {
      token := Token(PunctKind(s[i]), [s[i]]);
    } else if HashAt(s, i) {
      e, token := HashToken(s, i);
    } else if s[i] == '%' {
      var unit;
      e, unit := GatherPercent(s, i + 1, penn);
      assert unit == s[i..e];
      token := Token(Pct, unit);
    } else if s[i] == '\\' {
      var rest;
      e, rest := GatherIf(s, i + 1, true);
      assert s[i..e] == [s[i]] + rest;
      token := Token(Esc, [s[i]] + rest);
    } else if IsBlank(s[i]) {
      var text;
      e, text := ReadBlanks(s, i);
      token := Token(Blank, text);
    } else {
      var text;
      e, text := ReadLiteral(s, i);
      token := Token(Lit, text);
    }
  }

  method HashToken(s: string, i: nat) returns (e: nat, token: Token)
    requires HashAt(s, i)
    ensures e == i + 2 <= |s| && token == Token(Pct, s[i..e])
  {
    e, token := i + 2, Token(Pct, [s[i], s[i + 1]]);
  }

  method ReadBlanks(s: string, i: nat) returns (e: nat, text: string)
    requires i < |s| && IsBlank(s[i])
    ensures e == BlankEnd(s, i + 1) && text == s[i..e]
  {
    e, text := i, "";
    while e < |s| && IsBlank(s[e])
      invariant i <= e <= |s| && text == s[i..e] && BlankEnd(s, e) == BlankEnd(s, i)
    {
      e, text := e + 1, text + [s[e]];
    }
  }

  method ReadLiteral(s: string, i: nat) returns (e: nat, text: string)
    requires i < |s| && !EndsLiteral(s[i])
    ensures e == LiteralEnd(s, i + 1) && text == s[i..e]
  {
    hide EndsLiteral;
    e, text := i, "";
    while e < |s| && !EndsLiteral(s[e])
      invariant i <= e <= |s| && text == s[i..e] && LiteralEnd(s, e) == LiteralEnd(s, i)
    {
      e, text := e + 1, text + [s[e]];
    }
  }

  // ----- what the tokens are -----

  function Texts(tokens: seq<Token>): seq<string> {
    seq(|tokens|, i requires 0 <= i < |tokens| => tokens[i].text)
  }

  lemma TokenText(s: string, i: nat, penn: bool)
    requires i < |s|
    ensures TokenAt(s, i, penn).text == s[i..TokenEnd(s, i, penn)]
  {
    hide TokenEnd;
  }

  /** Nothing of the input is lost or added. */
  lemma {:induction false} LexLossless(s: string, i: nat, penn: bool)
    requires i <= |s|
    ensures Concat(Texts(Lex(s, i, penn))) == s[i..]
    decreases |s| - i
  {
    hide TokenEnd, TokenAt, Texts, Concat;
    if i < |s| {
      var e, t := TokenEnd(s, i, penn), TokenAt(s, i, penn);
      var rest := Lex(s, e, penn);
      LexLossless(s, e, penn);
      assert Lex(s, i, penn) == [t] + rest;
      TokenText(s, i, penn);
      FirstText(t, rest);
      assert s[i..] == s[i..e] + s[e..];
    } else {
      NoTexts();
    }
  }

  lemma NoTexts()
    ensures Concat(Texts([])) == []
  {
  }

  lemma FirstText(t: Token, rest: seq<Token>)
    ensures Concat(Texts([t] + rest)) == t.text + Concat(Texts(rest))
  {
    assert Texts([t] + rest)[1..] == Texts(rest);
  }

  /** A substitution as it stands in the text. */
  predicate IsSubst(t: string) {
    t != "" && (t[0] == '%' || t == "##" || t == "#@" || t == "#$")
  }

  predicate IsPunctText(t: string) {
    |t| == 1 && IsPunct(t[0])
  }

  predicate IsEscape(t: string) {
    t != "" && t[0] == '\\'
  }

  predicate IsSpace(t: string) {
    t != "" && IsBlank(t[0])
  }

  /** None of the special forms. */
  predicate IsWord(t: string) {
    t != "" && !IsSubst(t) && !IsPunctText(t) && !IsEscape(t) && !IsSpace(t)
  }

  /** The text of a token fits its kind. */
  predicate Shaped(t: Token) {
    match t.kind
    case Pct => IsSubst(t.text)
    case Lit | Func => IsWord(t.text)
    case Esc => IsEscape(t.text)
    case Blank => IsSpace(t.text)
    case Eof => t.text == ""
    case _ => IsPunctText(t.text) && t.kind == PunctKind(t.text[0])
  }

  lemma TokenShaped(s: string, i: nat, penn: bool)
    requires i < |s|
    ensures Shaped(TokenAt(s, i, penn)) && TokenAt(s, i, penn).kind != Eof
  {
    hide UnitEnd, BlankEnd, LiteralEnd;
    var e := TokenEnd(s, i, penn);
    var text := s[i..e];
    assert text[0] == s[i];
  }

  /** A well-formed token vector: shaped, ended by the only Eof, and no literal where the
      parenthesis behind it makes it a function name. */
  ghost predicate WellLexed(tokens: seq<Token>) {
    && |tokens| > 0 && (forall k :: 0 <= k < |tokens| ==> Shaped(tokens[k]))
    && (forall k :: 0 <= k < |tokens| ==> (tokens[k].kind == Eof <==> k == |tokens| - 1))
    && (forall j, k :: 0 <= j && k == j + 1 < |tokens| && tokens[j].kind == Lit ==> tokens[k].kind != LParen)
  }

  lemma {:induction false} LexShaped(s: string, i: nat, penn: bool)
    requires i <= |s|
    ensures forall k :: 0 <= k < |Lex(s, i, penn)| ==> Shaped(Lex(s, i, penn)[k]) && Lex(s, i, penn)[k].kind != Eof
    decreases |s| - i
  {
    if i < |s| {
      TokenShaped(s, i, penn);
      LexShaped(s, TokenEnd(s, i, penn), penn);
      hide Shaped, TokenAt, TokenEnd;
    }
  }

  /** A literal is renamed exactly when a parenthesis follows: function names come before one,
      and other literals never do. */
  lemma {:induction false} NamesBeforeParens(s: string, i: nat, penn: bool, k: nat)
    requires i <= |s| && k < |Lex(s, i, penn)| && Lex(s, i, penn)[k].kind in {Lit, Func}
    ensures Lex(s, i, penn)[k].kind == Func <==> k + 1 < |Lex(s, i, penn)| && Lex(s, i, penn)[k + 1].kind == LParen
    decreases |s| - i
  {
    hide UnitEnd, BlankEnd, LiteralEnd;
    var e := TokenEnd(s, i, penn);
    var rest := Lex(s, e, penn);
    if k > 0 {
      hide TokenAt, TokenEnd;
      NamesBeforeParens(s, e, penn, k - 1);
      assert Lex(s, i, penn)[k] == rest[k - 1];
    } else if e < |s| {
      assert rest[0] == TokenAt(s, e, penn);
      assert rest[0].kind == LParen <==> s[e] == '(';
    }
  }

  lemma TokenizedWellLexed(s: string, penn: bool)
    ensures WellLexed(Tokenized(s, penn))
  {
    LexShaped(s, 0, penn);
    var lex, all := Lex(s, 0, penn), Tokenized(s, penn);
    hide Lex, Shaped;
    forall j, k | 0 <= j && k == j + 1 < |all| && all[j].kind == Lit ensures all[k].kind != LParen {
      NamesBeforeParens(s, 0, penn, j);
    }
  }
}
