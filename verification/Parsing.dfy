/** The recursive-descent parser of parser/mux_parse.h. A scanner with a stack of open groups,
    which builds no tree, says what the parser must make of the tokens. */
module Parsing {
  import opened Substitutions
  import opened Tokens
  import opened Syntax
  import opened Sequences

  // ----- the scanner -----

  function Closer(g: Group): string {
    match g
    case Outer => ""
    case Paren => ")"
    case Bracket => "]"
    case Curly => "}"
  }

  function Closers(st: seq<Group>): seq<string> {
    seq(|st|, i requires 0 <= i < |st| => Closer(st[i]))
  }

  /** The innermost open group. */
  function Context(st: seq<Group>): Group {
    if st == [] then Outer else st[0]
  }

  /** The open groups, innermost first, after token i. A parenthesis opens a group only behind a
      function name or a substitution; a closer only closes the innermost group. */
  function Step(tokens: seq<Token>, i: nat, st: seq<Group>): seq<Group>
    requires i < |tokens|
  {
    match tokens[i].kind
    case LBrack => [Bracket] + st
    case LBrace => [Curly] + st
    case LParen => if i > 0 && tokens[i - 1].kind in {Func, Pct} then [Paren] + st else st
    case RParen => if Context(st) == Paren then st[1..] else st
    case RBrack => if Context(st) == Bracket then st[1..] else st
    case RBrace => if Context(st) == Curly then st[1..] else st
    case _ => st
  }

  function Scan(tokens: seq<Token>, p: nat, q: nat, st: seq<Group>): seq<Group>
    requires p <= q <= |tokens|
    decreases q - p
  {
    if p == q then st else Step(tokens, q - 1, Scan(tokens, p, q - 1, st))
  }

  lemma {:induction false} ScanOn(tokens: seq<Token>, p: nat, q: nat, r: nat, st: seq<Group>)
    requires p <= q <= r <= |tokens|
    ensures Scan(tokens, p, r, st) == Scan(tokens, q, r, Scan(tokens, p, q, st))
    decreases r - q
  {
    if q < r {
      ScanOn(tokens, p, q, r - 1, st);
    }
  }

  // ----- what reading a stretch of tokens gives -----

  /** The texts are those of tokens p to q and, at the end of the input only, the closers of the
      groups still open beyond st. */
  ghost predicate Reads(tokens: seq<Token>, p: nat, q: nat, st: seq<Group>, extra: seq<Group>, texts: seq<string>) {
    && p <= q < |tokens| && texts == Texts(tokens[p..q]) + Closers(extra)
    && Scan(tokens, p, q, st) == extra + st
    && (extra != [] ==> q == |tokens| - 1)
  }

  lemma ReadsNothing(tokens: seq<Token>, p: nat, st: seq<Group>)
    requires p < |tokens|
    ensures Reads(tokens, p, p, st, [], [])
  {
    assert [] + st == st;
  }

  lemma ReadsThen(tokens: seq<Token>, p: nat, q: nat, r: nat, st: seq<Group>, extra: seq<Group>, t: seq<string>, t': seq<string>)
    requires Reads(tokens, p, q, st, [], t) && Reads(tokens, q, r, st, extra, t')
    ensures Reads(tokens, p, r, st, extra, t + t')
  {
    ScanOn(tokens, p, q, r, st);
    assert [] + st == st;
    assert tokens[p..r] == tokens[p..q] + tokens[q..r];
    assert Closers([]) == [];
    hide Scan;
    assert Texts(tokens[p..r]) == Texts(tokens[p..q]) + Texts(tokens[q..r]);
  }

  lemma ReadsOne(tokens: seq<Token>, p: nat, st: seq<Group>)
    requires p + 1 < |tokens| && Step(tokens, p, st) == st
    ensures Reads(tokens, p, p + 1, st, [], [tokens[p].text])
  {
    assert Scan(tokens, p, p + 1, st) == Step(tokens, p, Scan(tokens, p, p, st));
    assert [] + st == st;
    assert Closers([]) == [];
    hide Step;
    assert Texts(tokens[p..p + 1]) == [tokens[p].text];
  }

  /** A group whose contents end at the end of the input stays open. */
  lemma ReadsOpen(tokens: seq<Token>, p: nat, q: nat, g: Group, st: seq<Group>, extra: seq<Group>, t: seq<string>)
    requires p + 1 < |tokens| && Step(tokens, p, st) == [g] + st && q == |tokens| - 1
    requires Reads(tokens, p + 1, q, [g] + st, extra, t)
    ensures Reads(tokens, p, q, st, extra + [g], [tokens[p].text] + t + [Closer(g)])
  {
    ScanOn(tokens, p, p + 1, q, st);
    assert Scan(tokens, p, p + 1, st) == Step(tokens, p, Scan(tokens, p, p, st));
    hide Scan, Step;
    assert extra + ([g] + st) == (extra + [g]) + st;
    assert Texts(tokens[p..q]) == [tokens[p].text] + Texts(tokens[p + 1..q]);
    assert Closers(extra + [g]) == Closers(extra) + [Closer(g)];
  }

  /** A group whose contents end before its closer is read whole. */
  lemma ReadsClosed(tokens: seq<Token>, p: nat, q: nat, g: Group, st: seq<Group>, extra: seq<Group>, t: seq<string>)
    requires p + 1 < |tokens| && Step(tokens, p, st) == [g] + st && q < |tokens| - 1
    requires Reads(tokens, p + 1, q, [g] + st, extra, t)
    requires tokens[q].text == Closer(g) && Step(tokens, q, [g] + st) == st
    ensures extra == [] && Reads(tokens, p, q + 1, st, [], [tokens[p].text] + t + [Closer(g)])
  {
    ScanOn(tokens, p, p + 1, q, st);
    assert Scan(tokens, p, p + 1, st) == Step(tokens, p, Scan(tokens, p, p, st));
    assert Scan(tokens, p, q + 1, st) == Step(tokens, q, Scan(tokens, p, q, st));
    hide Scan, Step;
    assert [] + ([g] + st) == [g] + st && [] + st == st;
    TextsBetween(tokens, p, q);
    assert Closers([]) == [];
    hide Texts;
  }

  lemma TextsBetween(tokens: seq<Token>, p: nat, q: nat)
    requires p < q < |tokens|
    ensures Texts(tokens[p..q + 1]) == [tokens[p].text] + Texts(tokens[p + 1..q]) + [tokens[q].text]
  {
  }

  // ----- the parser's steps -----

  /** No call was cut in two: a parenthesis here does not follow a name or a substitution. */
  ghost predicate Fresh(tokens: seq<Token>, p: nat) {
    p < |tokens| && (p > 0 && tokens[p].kind == LParen ==> tokens[p - 1].kind !in {Func, Pct})
  }

  predicate IsEnd(tokens: seq<Token>, p: nat) {
    p >= |tokens| || tokens[p].kind == Eof
  }

  lemma EndIsLast(tokens: seq<Token>, p: nat)
    requires WellLexed(tokens) && p < |tokens|
    ensures IsEnd(tokens, p) <==> p == |tokens| - 1
  {
  }

  /** An item was read from p to q: its tokens, its legality, and nothing behind it that would
      have made it a call. */
  ghost predicate ItemRead(tokens: seq<Token>, p: nat, q: nat, st: seq<Group>, extra: seq<Group>, n: Node) {
    && p < q && Fresh(tokens, q) && Reads(tokens, p, q, st, extra, Print(n))
    && Legal(n, Context(st)) && (Names(n) ==> tokens[q].kind != LParen)
  }

  /** The node a single token becomes. */
  function Leaf(t: Token): Node {
    match t.kind
    case Blank => Space(t.text)
    case Pct => Subst(t.text)
    case Esc => Escape(t.text)
    case Semi => Semicolon(t.text)
    case _ => Literal(t.text)
  }

  lemma LeafReads(tokens: seq<Token>, p: nat, st: seq<Group>)
    requires WellLexed(tokens) && Fresh(tokens, p) && !IsEnd(tokens, p) && !Stops(Context(st), tokens[p].text)
    requires tokens[p].kind !in {LBrack, LBrace, Func, Pct}
    ensures ItemRead(tokens, p, p + 1, st, [], Leaf(tokens[p]))
  {
    EndIsLast(tokens, p);
    LeafLegal(tokens[p], Context(st));
    ReadsOne(tokens, p, st);
    hide Reads, Legal, Print, Shaped, Stops;
  }

  lemma LeafLegal(t: Token, g: Group)
    requires Shaped(t) && t.kind !in {LBrack, LBrace, Eof} && !Stops(g, t.text)
    ensures Legal(Leaf(t), g) && Print(Leaf(t)) == [t.text] && (Names(Leaf(t)) ==> t.kind in {Lit, Func, Pct})
    ensures !(t.kind == RParen && g == Paren) && !(t.kind == RBrack && g == Bracket) && !(t.kind == RBrace && g == Curly)
  {
  }

  lemma WordShaped(t: Token, g: Group)
    requires Shaped(t) && t.kind in {Func, Pct}
    ensures Legal(Leaf(t), g) && Print(Leaf(t)) == [t.text]
    ensures if t.kind == Pct then IsSubst(t.text) else IsWord(t.text)
  {
  }

  /** A token that cannot stop a sequence, whatever the context. */
  lemma WordReads(tokens: seq<Token>, p: nat, st: seq<Group>)
    requires WellLexed(tokens) && Fresh(tokens, p) && tokens[p].kind in {Func, Pct}
    ensures p + 1 < |tokens| && Reads(tokens, p, p + 1, st, [], [tokens[p].text])
    ensures tokens[p + 1].kind == LParen ==> p + 2 < |tokens| && Opens(tokens, p + 1, st, Paren)
  {
    EndIsLast(tokens, p);
    EndIsLast(tokens, p + 1);
    ReadsOne(tokens, p, st);
    assert Shaped(tokens[p + 1]);
    hide Reads, IsSubst, WellLexed, IsWord;
  }

  /** A name or a substitution that no parenthesis follows. */
  lemma WordItem(tokens: seq<Token>, p: nat, st: seq<Group>)
    requires WellLexed(tokens) && Fresh(tokens, p) && tokens[p].kind in {Func, Pct}
    requires p + 1 < |tokens| && (IsEnd(tokens, p + 1) || tokens[p + 1].kind != LParen)
    ensures ItemRead(tokens, p, p + 1, st, [], Leaf(tokens[p]))
  {
    WordReads(tokens, p, st);
    assert Shaped(tokens[p]);
    WordShaped(tokens[p], Context(st));
    hide Reads, WellLexed, Shaped, Legal, Print;
  }

  /** A name or a substitution and the arguments behind it. */
  lemma CallItem(tokens: seq<Token>, p: nat, q: nat, st: seq<Group>, extra: seq<Group>, args: seq<Node>)
    requires WellLexed(tokens) && Fresh(tokens, p) && tokens[p].kind in {Func, Pct}
    requires CallRead(tokens, p + 1, q, st, extra, args)
    ensures ItemRead(tokens, p, q, st, extra, if tokens[p].kind == Pct then DynCall(tokens[p].text, args) else Call(tokens[p].text, args))
  {
    hide Reads, Shaped, Legal, LegalArgs, Print, PrintArgs, IsWord, IsSubst, Opens, Context;
    assert Shaped(tokens[p]);
    hide WellLexed;
    WordReads(tokens, p, st);
    WordShaped(tokens[p], Context(st));
    ReadsThen(tokens, p, p + 1, q, st, extra, [tokens[p].text], ["("] + PrintArgs(args) + [")"]);
    CallPrints(tokens[p].text, args, Context(st));
  }

  lemma CallPrints(name: string, args: seq<Node>, g: Group)
    requires args != [] && LegalArgs(args)
    ensures Print(Call(name, args)) == [name] + (["("] + PrintArgs(args) + [")"]) == Print(DynCall(name, args))
    ensures IsWord(name) ==> Legal(Call(name, args), g)
    ensures IsSubst(name) ==> Legal(DynCall(name, args), g)
  {
    hide PrintArgs, LegalArgs;
  }

  lemma GroupPrints(n: Node, g: Group)
    ensures LegalGroup(n, Bracket) ==> Legal(Eval(n), g)
    ensures LegalGroup(n, Curly) ==> Legal(Brace(n), g)
    ensures Print(Eval(n)) == ["["] + Print(n) + ["]"] && Print(Brace(n)) == ["{"] + Print(n) + ["}"]
  {
  }

  /** Token p opens a group. */
  ghost predicate Opens(tokens: seq<Token>, p: nat, st: seq<Group>, g: Group) {
    && p + 1 < |tokens| && g != Outer && Step(tokens, p, st) == [g] + st && Fresh(tokens, p + 1)
    && tokens[p].text == (if g == Paren then "(" else if g == Bracket then "[" else "{")
  }

  lemma BracketOpens(tokens: seq<Token>, p: nat, st: seq<Group>)
    requires WellLexed(tokens) && p < |tokens| && tokens[p].kind in {LBrack, LBrace}
    ensures Opens(tokens, p, st, if tokens[p].kind == LBrack then Bracket else Curly)
    ensures p + 1 < |tokens| && Fresh(tokens, p + 1)
  {
    assert Shaped(tokens[p]);
  }

  /** A group is read to behind its closer, or to the end of the input with the closer missing. */
  lemma GroupEnds(tokens: seq<Token>, p: nat, q: nat, g: Group, st: seq<Group>, extra: seq<Group>, t: seq<string>)
    requires WellLexed(tokens) && Opens(tokens, p, st, g) && Reads(tokens, p + 1, q, [g] + st, extra, t)
    requires IsEnd(tokens, q) || tokens[q].text == Closer(g)
    ensures if IsEnd(tokens, q) then Reads(tokens, p, q, st, extra + [g], [tokens[p].text] + t + [Closer(g)]) && Fresh(tokens, q)
            else Reads(tokens, p, q + 1, st, [], [tokens[p].text] + t + [Closer(g)]) && Fresh(tokens, q + 1)
  {
    assert q < |tokens|;
    EndIsLast(tokens, q);
    CloserKind(tokens, q);
    hide Reads, WellLexed, Shaped, IsEnd;
    if q == |tokens| - 1 {
      ReadsOpen(tokens, p, q, g, st, extra, t);
    } else {
      assert ([g] + st)[1..] == st;
      assert Step(tokens, q, [g] + st) == st;
      ReadsClosed(tokens, p, q, g, st, extra, t);
    }
  }

  /** The contents of a group were read behind its opening token. */
  ghost predicate Inside(tokens: seq<Token>, p: nat, q: nat, g: Group, st: seq<Group>, extra: seq<Group>, contents: Node) {
    && Opens(tokens, p, st, g) && p < q < |tokens|
    && Reads(tokens, p + 1, q, [g] + st, extra, Print(contents)) && LegalGroup(contents, g)
    && (IsEnd(tokens, q) || Stops(g, tokens[q].text))
  }

  /** Brackets and braces around contents that were read. */
  lemma GroupReads(tokens: seq<Token>, p: nat, q: nat, g: Group, st: seq<Group>, extra: seq<Group>, contents: Node) returns (extra': seq<Group>)
    requires WellLexed(tokens) && g in {Bracket, Curly} && Inside(tokens, p, q, g, st, extra, contents)
    ensures var n, kind := if g == Bracket then Eval(contents) else Brace(contents), if g == Bracket then RBrack else RBrace;
      ItemRead(tokens, p, if !IsEnd(tokens, q) && tokens[q].kind == kind then q + 1 else q, st, extra', n)
  {
    extra' := if IsEnd(tokens, q) then extra + [g] else [];
    CloserKind(tokens, q);
    GroupPrints(contents, Context(st));
    assert Stops(g, tokens[q].text) ==> tokens[q].text == Closer(g);
    GroupEnds(tokens, p, q, g, st, extra, Print(contents));
    assert tokens[p].text == if g == Bracket then "[" else "{";
    hide Reads, WellLexed, Opens, Legal, LegalGroup, Print;
  }

  lemma AppendPrints(ns: seq<Node>, n: Node)
    ensures PrintAll(ns + [n]) == PrintAll(ns) + Print(n)
    ensures ns != [] ==> PrintArgs(ns + [n]) == PrintArgs(ns) + [","] + Print(n)
    ensures PrintArgs([n]) == Print(n)
  {
    assert (ns + [n])[..|ns|] == ns;
    assert PrintArgs([n]) == PrintArgs([n][..0]) + [] + Print(n);
  }

  lemma ReadsInside(tokens: seq<Token>, p: nat, q: nat, st: seq<Group>, extra: seq<Group>, t: seq<string>)
    requires Reads(tokens, p, q, st, extra, t)
    ensures p <= q < |tokens| && (q + 1 < |tokens| ==> extra == [])
  {
  }

  lemma CommaReads(tokens: seq<Token>, p: nat, st: seq<Group>)
    requires WellLexed(tokens) && p + 1 < |tokens| && tokens[p].kind == Comma
    ensures Reads(tokens, p, p + 1, st, [], [","])
  {
    CloserKind(tokens, p);
    ReadsOne(tokens, p, st);
  }

  lemma ItemReads(tokens: seq<Token>, p: nat, q: nat, r: nat, st: seq<Group>, was: seq<Group>, extra: seq<Group>, ns: seq<Node>, n: Node)
    requires WellLexed(tokens) && q < |tokens| && !IsEnd(tokens, q)
    requires Reads(tokens, p, q, st, was, PrintAll(ns)) && Reads(tokens, q, r, st, extra, Print(n))
    ensures Reads(tokens, p, r, st, extra, PrintAll(ns + [n]))
  {
    hide *;
    EndIsLast(tokens, q);
    ReadsInside(tokens, p, q, st, was, PrintAll(ns));
    AppendPrints(ns, n);
    ReadsThen(tokens, p, q, r, st, extra, PrintAll(ns), Print(n));
  }

  lemma ArgReads(tokens: seq<Token>, p: nat, q: nat, r: nat, st: seq<Group>, was: seq<Group>, extra: seq<Group>, ns: seq<Node>, n: Node)
    requires WellLexed(tokens) && q + 1 < |tokens| && tokens[q].kind == Comma && ns != []
    requires Reads(tokens, p, q, st, was, PrintArgs(ns)) && Reads(tokens, q + 1, r, st, extra, Print(n))
    ensures Reads(tokens, p, r, st, extra, PrintArgs(ns + [n]))
  {
    hide *;
    ReadsInside(tokens, p, q, st, was, PrintArgs(ns));
    CommaReads(tokens, q, st);
    AppendPrints(ns, n);
    ReadsThen(tokens, p, q, q + 1, st, [], PrintArgs(ns), [","]);
    ReadsThen(tokens, p, q + 1, r, st, extra, PrintArgs(ns) + [","], Print(n));
  }

  lemma LegalAppend(ns: seq<Node>, n: Node, g: Group)
    requires LegalAll(ns, g) && Legal(n, g) && (ns != [] && Names(ns[|ns| - 1]) ==> n != Literal("("))
    ensures LegalAll(ns + [n], g)
  {
    hide Legal;
  }

  /** A lone item stands for itself, without a sequence around it. */
  lemma SequenceDone(ns: seq<Node>, g: Group)
    requires LegalAll(ns, g)
    ensures var n := if |ns| == 1 then ns[0] else Sequence(ns);
      LegalGroup(n, g) && Print(n) == PrintAll(ns)
  {
    if |ns| == 1 {
      AppendPrints([], ns[0]);
      assert ns == [] + [ns[0]];
    }
  }

  lemma StopsByKind(t: Token, g: Group)
    requires Shaped(t)
    ensures Stops(g, t.text) <==> (g == Paren && (t.kind == RParen || t.kind == Comma)) || (g == Bracket && t.kind == RBrack) || (g == Curly && t.kind == RBrace)
  {
  }

  /** Trees for a literal parenthesis come from one. */
  lemma ParenLiteral(tokens: seq<Token>, p: nat, q: nat, st: seq<Group>, extra: seq<Group>, n: Node)
    requires WellLexed(tokens) && !IsEnd(tokens, p) && p < q && Reads(tokens, p, q, st, extra, Print(n)) && n == Literal("(")
    ensures tokens[p].kind == LParen
  {
    EndIsLast(tokens, p);
    assert Shaped(tokens[p]);
    assert Print(n)[0] == tokens[p..q][0].text;
  }

  /** The flags that go with the innermost group. */
  ghost predicate StopFlags(g: Group, stopRP: bool, stopRB: bool, stopRC: bool, stopCM: bool) {
    stopRP == stopCM == (g == Paren) && stopRB == (g == Bracket) && stopRC == (g == Curly)
  }

  /** The stack behind an opening bracket or brace. */
  lemma EnterGroup(tokens: seq<Token>, p: nat, st: seq<Group>, bracket: bool) returns (inner: seq<Group>)
    requires WellLexed(tokens) && p < |tokens| && tokens[p].kind == if bracket then LBrack else LBrace
    ensures var g := if bracket then Bracket else Curly;
      && inner == [g] + st && Context(inner) == g && StopFlags(Context(inner), false, bracket, !bracket, false)
      && Opens(tokens, p, st, g) && p + 1 < |tokens| && Fresh(tokens, p + 1)
  {
    BracketOpens(tokens, p, st);
    inner := [if bracket then Bracket else Curly] + st;
  }

  lemma ContentsRead(tokens: seq<Token>, p: nat, q: nat, g: Group, st: seq<Group>, inner: seq<Group>, extra: seq<Group>, contents: Node)
    requires Opens(tokens, p, st, g) && p < q && inner == [g] + st && Context(inner) == g && Fresh(tokens, q)
    requires Reads(tokens, p + 1, q, inner, extra, Print(contents)) && LegalGroup(contents, Context(inner))
    requires IsEnd(tokens, q) || Stops(Context(inner), tokens[q].text)
    ensures q < |tokens| && Inside(tokens, p, q, g, st, extra, contents)
  {
  }

  // ----- arguments -----

  /** The arguments so far were read behind the opening parenthesis at p. */
  ghost predicate ArgsRead(tokens: seq<Token>, p: nat, q: nat, st: seq<Group>, extra: seq<Group>, args: seq<Node>) {
    && Opens(tokens, p, st, Paren) && p < q < |tokens| && Fresh(tokens, q) && args != [] && LegalArgs(args)
    && Reads(tokens, p + 1, q, [Paren] + st, extra, PrintArgs(args))
    && (IsEnd(tokens, q) || Stops(Paren, tokens[q].text))
  }

  /** The parentheses and the arguments in them were read. */
  ghost predicate CallRead(tokens: seq<Token>, p: nat, q: nat, st: seq<Group>, extra: seq<Group>, args: seq<Node>) {
    && p < q && Fresh(tokens, q) && args != [] && LegalArgs(args)
    && Reads(tokens, p, q, st, extra, ["("] + PrintArgs(args) + [")"])
  }

  /** The stack behind the parenthesis of a call. */
  lemma EnterCall(tokens: seq<Token>, p: nat, st: seq<Group>) returns (inner: seq<Group>)
    requires Opens(tokens, p, st, Paren)
    ensures inner == [Paren] + st && StopFlags(Context(inner), true, false, false, true)
    ensures p + 1 < |tokens| && Fresh(tokens, p + 1)
  {
    inner := [Paren] + st;
  }

  lemma EnterAgain(tokens: seq<Token>, p: nat, q: nat, st: seq<Group>, extra: seq<Group>, args: seq<Node>) returns (inner: seq<Group>)
    requires ArgsRead(tokens, p, q, st, extra, args)
    ensures inner == [Paren] + st && StopFlags(Context(inner), true, false, false, true)
  {
    inner := EnterCall(tokens, p, st);
  }

  lemma FirstArg(tokens: seq<Token>, p: nat, q: nat, st: seq<Group>, inner: seq<Group>, extra: seq<Group>, arg: Node)
    requires Opens(tokens, p, st, Paren) && inner == [Paren] + st && p < q && Fresh(tokens, q)
    requires Reads(tokens, p + 1, q, inner, extra, Print(arg)) && LegalGroup(arg, Context(inner))
    requires IsEnd(tokens, q) || Stops(Context(inner), tokens[q].text)
    ensures q < |tokens| && ArgsRead(tokens, p, q, st, extra, [arg])
  {
    AppendPrints([], arg);
    hide Reads, PrintArgs, Print, LegalGroup, Opens;
  }

  lemma NextArg(tokens: seq<Token>, p: nat, q: nat, r: nat, st: seq<Group>, inner: seq<Group>, was: seq<Group>, extra: seq<Group>,
                args: seq<Node>, arg: Node)
    requires WellLexed(tokens) && ArgsRead(tokens, p, q, st, was, args) && q < |tokens| && tokens[q].kind == Comma && q < r
    requires inner == [Paren] + st && Fresh(tokens, r)
    requires q + 1 < |tokens| && Reads(tokens, q + 1, r, inner, extra, Print(arg)) && LegalGroup(arg, Context(inner))
    requires IsEnd(tokens, r) || Stops(Context(inner), tokens[r].text)
    ensures r < |tokens| && ArgsRead(tokens, p, r, st, extra, args + [arg])
  {
    hide Reads, PrintArgs, Print, LegalGroup, Opens, WellLexed;
    ArgReads(tokens, p + 1, q, r, inner, was, extra, args, arg);
  }

  /** The call ends behind its closing parenthesis, or at the end of the input. */
  lemma ArgsEnd(tokens: seq<Token>, p: nat, q: nat, st: seq<Group>, extra: seq<Group>, args: seq<Node>) returns (extra': seq<Group>)
    requires WellLexed(tokens) && ArgsRead(tokens, p, q, st, extra, args) && q < |tokens| && (IsEnd(tokens, q) || tokens[q].kind != Comma)
    ensures CallRead(tokens, p, if !IsEnd(tokens, q) && tokens[q].kind == RParen then q + 1 else q, st, extra', args)
  {
    extra' := if IsEnd(tokens, q) then extra + [Paren] else [];
    CloserKind(tokens, q);
    hide Reads, PrintArgs, LegalArgs, WellLexed;
    GroupEnds(tokens, p, q, Paren, st, extra, PrintArgs(args));
  }

  // ----- the parser -----

  class Parser {
    const tokens: seq<Token>
    var pos: nat

    constructor (tokens: seq<Token>)
      ensures this.tokens == tokens && pos == 0
    {
      this.tokens, pos := tokens, 0;
    }

    ghost predicate Ready()
      reads this
    {
      WellLexed(tokens) && Fresh(tokens, pos)
    }

    predicate AtEnd()
      reads this
    {
      IsEnd(tokens, pos)
    }

    /** parseSequence: everything up to the end or a token that stops the innermost group. */
    method ParseSequence(stopRP: bool, stopRB: bool, stopRC: bool, stopCM: bool, ghost st: seq<Group>) returns (n: Node, ghost extra: seq<Group>)
      requires Ready()
      requires StopFlags(Context(st), stopRP, stopRB, stopRC, stopCM)
      modifies this
      ensures Ready() && old(pos) <= pos && Reads(tokens, old(pos), pos, st, extra, Print(n))
      ensures LegalGroup(n, Context(st)) && (AtEnd() || Stops(Context(st), tokens[pos].text))
      decreases |tokens| - pos, 3
    {
      ghost var g := Context(st);
      var children: seq<Node> := [];
      extra := [];
      ReadsNothing(tokens, pos, st);
      hide Reads, Shaped, Stops, Legal, LegalAll, LegalGroup, IsEnd, Print, PrintAll;
      while !AtEnd()
        invariant Ready() && old(pos) <= pos && LegalAll(children, g)
        invariant Reads(tokens, old(pos), pos, st, extra, PrintAll(children))
        invariant children != [] && Names(children[|children| - 1]) ==> tokens[pos].kind != LParen
        decreases |tokens| - pos
      {
        var kind := tokens[pos].kind;
        StopsByKind(tokens[pos], g);
        if (stopRP && kind == RParen) || (stopRB && kind == RBrack) || (stopRC && kind == RBrace) || (stopCM && kind == Comma) {
          break;
        }
        ghost var q, was := pos, extra;
        var node;
        node, extra := ParseOne(st);
        ItemReads(tokens, old(pos), q, pos, st, was, extra, children, node);
        if node == Literal("(") {
          ParenLiteral(tokens, q, pos, st, extra, node);
        }
        LegalAppend(children, node, g);
        children := children + [node];
      }
      SequenceDone(children, g);
      if |children| == 1 {
        n := children[0];
      } else {
        n := Sequence(children);
      }
    }

    /** parseOne */
    method ParseOne(ghost st: seq<Group>) returns (n: Node, ghost extra: seq<Group>)
      requires Ready() && !AtEnd() && !Stops(Context(st), tokens[pos].text)
      modifies this
      ensures WellLexed(tokens) && ItemRead(tokens, old(pos), pos, st, extra, n)
      decreases |tokens| - pos, 2
    {
      var t := tokens[pos];
      extra := [];
      if t.kind !in {LBrack, LBrace, Func, Pct} {
        LeafReads(tokens, pos, st);
        LeafOf(t);
      }
      NotEnd(tokens, pos);
      hide WellLexed, Fresh, IsEnd, Opens, Reads, ItemRead, CallRead, ArgsRead, Inside, LegalGroup, LegalArgs, Legal, Print, PrintArgs, Stops, StopFlags, Context, Leaf;
      match t.kind {
        case Lit =>
          n, pos := Literal(t.text), pos + 1;
        case Blank =>
          n, pos := Space(t.text), pos + 1;
        case Pct =>
          n, extra := ParseSubst(st);
        case Esc =>
          n, pos := Escape(t.text), pos + 1;
        case Semi =>
          n, pos := Semicolon(t.text), pos + 1;
        case Func =>
          n, extra := ParseFuncCall(st);
        case LBrack =>
          n, extra := ParseEvalBracket(st);
        case LBrace =>
          n, extra := ParseBraceGroup(st);
        case RParen | RBrack | RBrace | Comma | LParen =>
          n, pos := Literal(t.text), pos + 1;
      }
    }

    /** A substitution, or parseDynCall when a parenthesis follows. */
    method ParseSubst(ghost st: seq<Group>) returns (n: Node, ghost extra: seq<Group>)
      requires Ready() && tokens[pos].kind == Pct
      modifies this
      ensures WellLexed(tokens) && ItemRead(tokens, old(pos), pos, st, extra, n)
      decreases |tokens| - pos, 0
    {
      var t := tokens[pos];
      ghost var p := pos;
      WordReads(tokens, p, st);
      hide WellLexed, Fresh, IsEnd, Opens, Reads, ItemRead, CallRead, ArgsRead, Inside, LegalGroup, LegalArgs, Legal, Print, PrintArgs, Stops, StopFlags, Context, Leaf;
      pos, extra := pos + 1, [];
      if !AtEnd() && tokens[pos].kind == LParen {
        pos := pos + 1;
        var args;
        args, extra := ParseArgList(st);
        CallItem(tokens, p, pos, st, extra, args);
        n := DynCall(t.text, args);
      } else {
        WordItem(tokens, p, st);
        LeafOf(t);
        n := Subst(t.text);
      }
    }

    /** parseFuncCall */
    method ParseFuncCall(ghost st: seq<Group>) returns (n: Node, ghost extra: seq<Group>)
      requires Ready() && tokens[pos].kind == Func
      modifies this
      ensures WellLexed(tokens) && ItemRead(tokens, old(pos), pos, st, extra, n)
      decreases |tokens| - pos, 0
    {
      var t := tokens[pos];
      ghost var p := pos;
      WordReads(tokens, p, st);
      hide WellLexed, Fresh, IsEnd, Opens, Reads, ItemRead, CallRead, ArgsRead, Inside, LegalGroup, LegalArgs, Legal, Print, PrintArgs, Stops, StopFlags, Context, Leaf;
      pos, extra := pos + 1, [];
      if AtEnd() || tokens[pos].kind != LParen {
        WordItem(tokens, p, st);
        LeafOf(t);
        return Literal(t.text), [];
      }
      pos := pos + 1;
      var args;
      args, extra := ParseArgList(st);
      CallItem(tokens, p, pos, st, extra, args);
      n := Call(t.text, args);
    }

    /** parseArgList: from behind the opening parenthesis to behind the closing one, if there. */
    method ParseArgList(ghost st: seq<Group>) returns (args: seq<Node>, ghost extra: seq<Group>)
      requires WellLexed(tokens) && 0 < pos && Opens(tokens, pos - 1, st, Paren)
      modifies this
      ensures WellLexed(tokens) && old(pos) <= pos && CallRead(tokens, old(pos) - 1, pos, st, extra, args)
      decreases |tokens| - pos, 5
    {
      hide WellLexed, Fresh, IsEnd, Opens, Reads, CallRead, ArgsRead, LegalGroup, LegalArgs, Print, PrintArgs, Stops, StopFlags, Context;
      ghost var p := pos - 1;
      args, extra := ParseFirstArg(st);
      while !IsEnd(tokens, pos) && tokens[pos].kind == Comma
        invariant WellLexed(tokens) && p < pos < |tokens| && ArgsRead(tokens, p, pos, st, extra, args)
        decreases |tokens| - pos
      {
        args, extra := ParseNextArg(args, p, st, extra);
      }
      extra := ArgsEnd(tokens, p, pos, st, extra, args);
      if !IsEnd(tokens, pos) && tokens[pos].kind == RParen {
        pos := pos + 1;
      }
    }

    /** The argument right behind the parenthesis. */
    method ParseFirstArg(ghost st: seq<Group>) returns (args: seq<Node>, ghost extra: seq<Group>)
      requires WellLexed(tokens) && 0 < pos && Opens(tokens, pos - 1, st, Paren)
      modifies this
      ensures WellLexed(tokens) && old(pos) <= pos < |tokens| && ArgsRead(tokens, old(pos) - 1, pos, st, extra, args)
      decreases |tokens| - pos, 4
    {
      hide WellLexed, Fresh, IsEnd, Opens, Reads, CallRead, ArgsRead, LegalGroup, LegalArgs, Print, PrintArgs, Stops, StopFlags, Context;
      ghost var p := pos - 1;
      ghost var inner := EnterCall(tokens, p, st);
      var arg;
      arg, extra := ParseSequence(true, false, false, true, inner);
      FirstArg(tokens, p, pos, st, inner, extra, arg);
      args := [arg];
    }

    /** A comma and the argument behind it. */
    method ParseNextArg(args: seq<Node>, ghost p: nat, ghost st: seq<Group>, ghost was: seq<Group>) returns (args': seq<Node>, ghost extra: seq<Group>)
      requires WellLexed(tokens) && pos < |tokens| && tokens[pos].kind == Comma && ArgsRead(tokens, p, pos, st, was, args)
      modifies this
      ensures WellLexed(tokens) && old(pos) < pos < |tokens| && ArgsRead(tokens, p, pos, st, extra, args')
      decreases |tokens| - pos, 4
    {
      hide WellLexed, Fresh, IsEnd, Opens, Reads, CallRead, ArgsRead, LegalGroup, LegalArgs, Print, PrintArgs, Stops, StopFlags, Context;
      ghost var q := pos;
      ghost var inner := EnterAgain(tokens, p, q, st, was, args);
      AfterComma(tokens, q);
      pos := pos + 1;
      var arg;
      arg, extra := ParseSequence(true, false, false, true, inner);
      NextArg(tokens, p, q, pos, st, inner, was, extra, args, arg);
      args' := args + [arg];
    }

    /** What parseEvalBracket and parseBraceGroup share: the opening token and the contents. */
    method ParseContents(bracket: bool, ghost st: seq<Group>) returns (contents: Node, ghost extra: seq<Group>)
      requires Ready() && tokens[pos].kind == if bracket then LBrack else LBrace
      modifies this
      ensures WellLexed(tokens) && Inside(tokens, old(pos), pos, if bracket then Bracket else Curly, st, extra, contents)
      ensures pos < |tokens|
      decreases |tokens| - pos, 0
    {
      ghost var p, g := pos, if bracket then Bracket else Curly;
      ghost var inner := EnterGroup(tokens, p, st, bracket);
      hide WellLexed, Fresh, IsEnd, Opens, Reads, ItemRead, CallRead, ArgsRead, Inside, LegalGroup, LegalArgs, Legal, Print, PrintArgs, Stops, StopFlags, Context, Leaf;
      pos := pos + 1;
      contents, extra := ParseSequence(false, bracket, !bracket, false, inner);
      ContentsRead(tokens, p, pos, g, st, inner, extra, contents);
    }

    /** parseEvalBracket */
    method ParseEvalBracket(ghost st: seq<Group>) returns (n: Node, ghost extra: seq<Group>)
      requires Ready() && tokens[pos].kind == LBrack
      modifies this
      ensures WellLexed(tokens) && ItemRead(tokens, old(pos), pos, st, extra, n)
      decreases |tokens| - pos, 1
    {
      ghost var p := pos;
      hide WellLexed, ItemRead, Inside, IsEnd;
      var contents;
      contents, extra := ParseContents(true, st);
      n := Eval(contents);
      extra := GroupReads(tokens, p, pos, Bracket, st, extra, contents);
      if !AtEnd() && tokens[pos].kind == RBrack {
        pos := pos + 1;
      }
    }

    /** parseBraceGroup */
    method ParseBraceGroup(ghost st: seq<Group>) returns (n: Node, ghost extra: seq<Group>)
      requires Ready() && tokens[pos].kind == LBrace
      modifies this
      ensures WellLexed(tokens) && ItemRead(tokens, old(pos), pos, st, extra, n)
      decreases |tokens| - pos, 1
    {
      ghost var p := pos;
      hide WellLexed, ItemRead, Inside, IsEnd;
      var contents;
      contents, extra := ParseContents(false, st);
      n := Brace(contents);
      extra := GroupReads(tokens, p, pos, Curly, st, extra, contents);
      if !AtEnd() && tokens[pos].kind == RBrace {
        pos := pos + 1;
      }
    }
  }

  lemma CloserKind(tokens: seq<Token>, p: nat)
    requires WellLexed(tokens) && p < |tokens|
    ensures (tokens[p].text == "]" <==> tokens[p].kind == RBrack) && (tokens[p].text == "}" <==> tokens[p].kind == RBrace)
    ensures (tokens[p].text == ")" <==> tokens[p].kind == RParen) && (tokens[p].text == "," <==> tokens[p].kind == Comma)
  {
    assert Shaped(tokens[p]);
  }

  lemma LeafOf(t: Token)
    ensures t.kind == Pct ==> Leaf(t) == Subst(t.text)
    ensures t.kind in {Lit, Func, RParen, RBrack, RBrace, Comma, LParen} ==> Leaf(t) == Literal(t.text)
    ensures t.kind == Blank ==> Leaf(t) == Space(t.text)
    ensures t.kind == Esc ==> Leaf(t) == Escape(t.text)
    ensures t.kind == Semi ==> Leaf(t) == Semicolon(t.text)
  {
  }

  lemma NotEnd(tokens: seq<Token>, p: nat)
    requires !IsEnd(tokens, p)
    ensures p < |tokens| && tokens[p].kind != Eof
  {
  }

  lemma AfterComma(tokens: seq<Token>, p: nat)
    requires WellLexed(tokens) && p < |tokens| && tokens[p].kind == Comma
    ensures p + 1 < |tokens| && Fresh(tokens, p + 1)
  {
    EndIsLast(tokens, p);
  }

  // ----- parsing a text -----

  /** The groups that the text leaves open, innermost first. */
  function Missing(s: string, penn: bool): seq<Group> {
    Scan(Tokenized(s, penn), 0, |Lex(s, 0, penn)|, [])
  }

  /** The raw text of the tree is the text with its missing closers, unless there is a dynamic
      call, which only prints an error. */
  lemma RawExactly(s: string, penn: bool, n: Node)
    requires LegalGroup(n, Outer) && Print(n) == Texts(Lex(s, 0, penn)) + Closers(Missing(s, penn))
    ensures HasDyn(n) <==> DynIn(Texts(Lex(s, 0, penn)))
    ensures Raw(n) == s + Concat(Closers(Missing(s, penn))) <==> !HasDyn(n)
  {
    var texts, closers := Texts(Lex(s, 0, penn)), Closers(Missing(s, penn));
    RawTells(n, Outer);
    DynPrinted(n, Outer);
    ConcatAdds(texts, closers);
    LexLossless(s, 0, penn);
    assert s[0..] == s;
    DynJoined(texts, closers);
    ClosersPlain(Missing(s, penn));
    hide Lex, Missing, Closers, Texts, Concat, Print, Raw, HasDyn;
  }

  lemma ClosersPlain(st: seq<Group>)
    ensures !DynIn(Closers(st)) && (st != [] ==> Closers(st)[0] != "(")
  {
    assert forall i :: 0 <= i < |st| ==> Closers(st)[i] == Closer(st[i]) != "(";
  }

  /** Such a call is easily written: in "%0(a)" a substitution stands right before a parenthesis,
      so the raw text of its tree is not the input. */
  lemma DynamicCallOccurs(penn: bool)
    ensures DynIn(Texts(Lex("%0(a)", 0, penn)))
  {
    var s := "%0(a)";
    assert UnitEnd(s, 1, penn) == 2;
    assert TokenAt(s, 0, penn).text == s[0..2] == "%0";
    assert TokenAt(s, 2, penn).text == s[2..3] == "(";
    var rest := Lex(s, 2, penn);
    assert Lex(s, 0, penn) == [TokenAt(s, 0, penn)] + rest && rest[0] == TokenAt(s, 2, penn);
    var texts := Texts(Lex(s, 0, penn));
    assert texts[0] == "%0" && texts[1] == "(" && IsSubst(texts[0]);
    hide Lex;
  }

  /** Tokenizing and parsing any text: a legal tree whose tokens are those of the text followed
      by the missing closers. */
  method Parse(s: string, penn: bool) returns (n: Node)
    ensures LegalGroup(n, Outer) && Print(n) == Texts(Lex(s, 0, penn)) + Closers(Missing(s, penn))
    ensures Raw(n) == s + Concat(Closers(Missing(s, penn))) <==> !DynIn(Texts(Lex(s, 0, penn)))
  {
    var tokens := Tokenize(s, penn);
    TokenizedWellLexed(s, penn);
    hide Lex, WellLexed, Scan, LegalGroup, Print;
    var parser := new Parser(tokens);
    ghost var extra;
    n, extra := parser.ParseSequence(false, false, false, false, []);
    EndIsLast(tokens, parser.pos);
    assert tokens[0..parser.pos] == Lex(s, 0, penn);
    assert extra + [] == extra;
    RawExactly(s, penn, n);
  }
}
