/** Syntax trees of parser/mux_parse.h, their raw text, and which trees the grammar allows. */
module Syntax {
  import opened Tokens
  import opened Sequences

  /** ASTNode. The name of a dynamic call is the text of the substitution that is its first child. */
  datatype Node =
    | Literal(text: string)
    | Space(text: string)
    | Subst(text: string)
    | Escape(text: string)
    | Semicolon(text: string)
    | Call(name: string, args: seq<Node>)
    | DynCall(name: string, args: seq<Node>)
    | Eval(contents: Node)
    | Brace(contents: Node)
    | Sequence(children: seq<Node>)

  // ----- printing -----

  /** ast_raw_text */
  function Raw(n: Node): string {
    match n
    case Literal(text) => text
    case Space(text) => text
    case Subst(text) => text
    case Escape(text) => text
    case Semicolon(_) => ";"
    case Call(name, args) => name + "(" + RawArgs(args) + ")"
    case DynCall(_, _) => "#-1 DYNAMIC"
    case Eval(contents) => "[" + Raw(contents) + "]"
    case Brace(contents) => "{" + Raw(contents) + "}"
    case Sequence(children) => RawAll(children)
  }

  function RawAll(ns: seq<Node>): string {
    if ns == [] then "" else RawAll(ns[..|ns| - 1]) + Raw(ns[|ns| - 1])
  }

  function RawArgs(ns: seq<Node>): string {
    if ns == [] then "" else RawArgs(ns[..|ns| - 1]) + (if |ns| > 1 then "," else "") + Raw(ns[|ns| - 1])
  }

  /** The texts of the tokens that a tree stands for. */
  function Print(n: Node): seq<string> {
    match n
    case Call(name, args) => [name, "("] + PrintArgs(args) + [")"]
    case DynCall(name, args) => [name, "("] + PrintArgs(args) + [")"]
    case Eval(contents) => ["["] + Print(contents) + ["]"]
    case Brace(contents) => ["{"] + Print(contents) + ["}"]
    case Sequence(children) => PrintAll(children)
    case _ => [n.text]
  }

  function PrintAll(ns: seq<Node>): seq<string> {
    if ns == [] then [] else PrintAll(ns[..|ns| - 1]) + Print(ns[|ns| - 1])
  }

  function PrintArgs(ns: seq<Node>): seq<string> {
    if ns == [] then [] else PrintArgs(ns[..|ns| - 1]) + (if |ns| > 1 then [","] else []) + Print(ns[|ns| - 1])
  }

  predicate HasDyn(n: Node) {
    match n
    case Call(_, args) => AnyDyn(args)
    case DynCall(_, _) => true
    case Eval(contents) => HasDyn(contents)
    case Brace(contents) => HasDyn(contents)
    case Sequence(children) => AnyDyn(children)
    case _ => false
  }

  predicate AnyDyn(ns: seq<Node>) {
    ns != [] && (AnyDyn(ns[..|ns| - 1]) || HasDyn(ns[|ns| - 1]))
  }

  // ----- the grammar -----

  /** What encloses a node most closely. */
  datatype Group = Outer | Paren | Bracket | Curly

  /** The texts that end a sequence in this group. */
  predicate Stops(g: Group, t: string) {
    match g
    case Outer => false
    case Paren => t == ")" || t == ","
    case Bracket => t == "]"
    case Curly => t == "}"
  }

  /** Punctuation that can stand for itself. */
  predicate IsStray(t: string) {
    t == "(" || t == ")" || t == "]" || t == "}" || t == ","
  }

  /** A single item directly inside a group. A literal is a word, or punctuation that would not
      have ended the sequence. */
  predicate Legal(n: Node, g: Group)
    decreases n, 0
  {
    match n
    case Literal(text) => IsWord(text) || (IsStray(text) && !Stops(g, text))
    case Space(text) => IsSpace(text)
    case Escape(text) => IsEscape(text)
    case Subst(text) => IsSubst(text)
    case Semicolon(text) => text == ";"
    case Call(name, args) => IsWord(name) && args != [] && LegalArgs(args)
    case DynCall(name, args) => IsSubst(name) && args != [] && LegalArgs(args)
    case Eval(contents) => LegalGroup(contents, Bracket)
    case Brace(contents) => LegalGroup(contents, Curly)
    case Sequence(_) => false
  }

  /** The contents of a group: an item, or a sequence of any number of items but one. */
  predicate LegalGroup(n: Node, g: Group)
    decreases n, 1
  {
    if n.Sequence? then |n.children| != 1 && LegalAll(n.children, g) else Legal(n, g)
  }

  predicate LegalArgs(ns: seq<Node>)
    decreases ns, 0
  {
    forall i :: 0 <= i < |ns| ==> LegalGroup(ns[i], Paren)
  }

  /** A parenthesis right behind would make this a call. */
  predicate Names(n: Node) {
    n.Subst? || (n.Literal? && IsWord(n.text))
  }

  /** Items side by side, none of which should have been a call. */
  predicate LegalAll(ns: seq<Node>, g: Group)
    decreases ns, 0
  {
    && (forall i :: 0 <= i < |ns| ==> Legal(ns[i], g))
    && (forall i, j :: 0 <= i < |ns| && j == i + 1 < |ns| && Names(ns[i]) ==> ns[j] != Literal("("))
  }

  // ----- raw text against tokens -----

  ghost predicate Diverges(x: string, y: string) {
    exists k :: 0 <= k < |x| && k < |y| && x[k] != y[k]
  }

  lemma DivergesMore(x: string, y: string, x': string, y': string)
    requires Diverges(x, y)
    ensures Diverges(x + x', y + y')
  {
    var k :| 0 <= k < |x| && k < |y| && x[k] != y[k];
    assert (x + x')[k] != (y + y')[k];
  }

  lemma DivergesLater(p: string, x: string, y: string)
    requires Diverges(x, y)
    ensures Diverges(p + x, p + y)
  {
    var k :| 0 <= k < |x| && k < |y| && x[k] != y[k];
    assert (p + x)[|p| + k] != (p + y)[|p| + k];
  }

  /** The text is the tokens' own, or parts from them at some character. */
  ghost predicate Tells(dyn: bool, raw: string, texts: seq<string>) {
    if dyn then Diverges(raw, Concat(texts)) else raw == Concat(texts)
  }

  lemma TellsJoined(d: bool, r: string, t: seq<string>, d': bool, r': string, t': seq<string>)
    requires Tells(d, r, t) && Tells(d', r', t')
    ensures Tells(d || d', r + r', t + t')
  {
    ConcatAdds(t, t');
    if d {
      DivergesMore(r, Concat(t), r', Concat(t'));
    } else if d' {
      DivergesLater(r, r', Concat(t'));
    }
  }

  lemma TellsOne(t: string)
    ensures Tells(false, t, [t])
  {
    assert [t][1..] == [];
  }

  lemma TellsDyn(name: string, texts: seq<string>)
    requires IsSubst(name)
    ensures Tells(true, "#-1 DYNAMIC", [name, "("] + texts)
  {
    var c, raw := Concat([name, "("] + texts), "#-1 DYNAMIC";
    assert c == name + Concat(([name, "("] + texts)[1..]);
    if name[0] == '%' {
      assert raw[0] != c[0];
    } else {
      assert c[1] == name[1] != raw[1];
    }
  }

  lemma TellsWrapped(dyn: bool, open: string, raw: string, texts: seq<string>, close: string)
    requires Tells(dyn, raw, texts)
    ensures Tells(dyn, open + raw + close, [open] + texts + [close])
  {
    TellsOne(open);
    TellsOne(close);
    TellsJoined(false, open, [open], dyn, raw, texts);
    TellsJoined(dyn, open + raw, [open] + texts, false, close, [close]);
  }

  /** Raw text is the text of the tokens exactly for trees without dynamic calls. */
  lemma {:induction false} RawTells(n: Node, g: Group)
    requires LegalGroup(n, g)
    ensures Tells(HasDyn(n), Raw(n), Print(n))
    decreases n
  {
    match n {
      case Call(name, args) =>
        RawArgsTell(args);
        TellsOne(name);
        TellsWrapped(AnyDyn(args), "(", RawArgs(args), PrintArgs(args), ")");
        TellsJoined(false, name, [name], AnyDyn(args), "(" + RawArgs(args) + ")", ["("] + PrintArgs(args) + [")"]);
        assert name + ("(" + RawArgs(args) + ")") == Raw(n);
        assert [name] + (["("] + PrintArgs(args) + [")"]) == Print(n);
      case DynCall(name, args) =>
        TellsDyn(name, PrintArgs(args) + [")"]);
        assert [name, "("] + (PrintArgs(args) + [")"]) == Print(n);
      case Eval(contents) =>
        RawTells(contents, Bracket);
        TellsWrapped(HasDyn(contents), "[", Raw(contents), Print(contents), "]");
      case Brace(contents) =>
        RawTells(contents, Curly);
        TellsWrapped(HasDyn(contents), "{", Raw(contents), Print(contents), "}");
      case Sequence(children) =>
        RawAllTell(children, g);
      case _ =>
        TellsOne(n.text);
    }
  }

  lemma {:induction false} RawAllTell(ns: seq<Node>, g: Group)
    requires LegalAll(ns, g)
    ensures Tells(AnyDyn(ns), RawAll(ns), PrintAll(ns))
    decreases ns
  {
    if ns != [] {
      var front, last := ns[..|ns| - 1], ns[|ns| - 1];
      RawAllTell(front, g);
      RawTells(last, g);
      TellsJoined(AnyDyn(front), RawAll(front), PrintAll(front), HasDyn(last), Raw(last), Print(last));
    }
  }

  lemma {:induction false} RawArgsTell(ns: seq<Node>)
    requires LegalArgs(ns)
    ensures Tells(AnyDyn(ns), RawArgs(ns), PrintArgs(ns))
    decreases ns
  {
    if ns != [] {
      var front, last := ns[..|ns| - 1], ns[|ns| - 1];
      RawArgsTell(front);
      RawTells(last, Paren);
      var comma, commas := if |ns| > 1 then "," else "", if |ns| > 1 then [","] else [];
      TellsOne(",");
      assert Tells(false, comma, commas);
      TellsJoined(AnyDyn(front), RawArgs(front), PrintArgs(front), false, comma, commas);
      TellsJoined(AnyDyn(front), RawArgs(front) + comma, PrintArgs(front) + commas, HasDyn(last), Raw(last), Print(last));
    }
  }

  // ----- dynamic calls, seen in the tokens -----

  /** A substitution right before a parenthesis. */
  ghost predicate DynIn(t: seq<string>) {
    exists i, j :: 0 <= i && j == i + 1 < |t| && IsSubst(t[i]) && t[j] == "("
  }

  predicate Meets(a: seq<string>, b: seq<string>) {
    a != [] && b != [] && IsSubst(a[|a| - 1]) && b[0] == "("
  }

  lemma DynJoined(a: seq<string>, b: seq<string>)
    ensures DynIn(a + b) <==> DynIn(a) || DynIn(b) || Meets(a, b)
  {
    hide IsSubst;
    var c := a + b;
    if DynIn(a) {
      var i, j :| 0 <= i && j == i + 1 < |a| && IsSubst(a[i]) && a[j] == "(";
      assert IsSubst(c[i]) && c[j] == "(";
    }
    if DynIn(b) {
      var i, j :| 0 <= i && j == i + 1 < |b| && IsSubst(b[i]) && b[j] == "(";
      assert c[|a| + i] == b[i] && c[|a| + j] == b[j];
    }
    if Meets(a, b) {
      assert c[|a| - 1] == a[|a| - 1] && c[|a|] == b[0];
    }
    if DynIn(c) {
      var i, j :| 0 <= i && j == i + 1 < |c| && IsSubst(c[i]) && c[j] == "(";
      if j < |a| {
        assert a[i] == c[i] && a[j] == c[j];
      } else if |a| <= i {
        assert b[i - |a|] == c[i] && b[j - |a|] == c[j];
      }
    }
  }

  lemma DynWrapped(open: seq<string>, a: seq<string>, close: string)
    requires |open| > 0 && !IsSubst(open[|open| - 1]) && close != "("
    ensures DynIn(open + a + [close]) <==> DynIn(open) || DynIn(a)
  {
    DynJoined(open, a);
    DynJoined(open + a, [close]);
  }

  /** Where an item starts with a parenthesis or ends with a substitution, it is just that. */
  lemma PrintEnds(n: Node, g: Group)
    requires Legal(n, g)
    ensures var t := Print(n);
      t != [] && (t[0] == "(" <==> n == Literal("(")) && (IsSubst(t[|t| - 1]) <==> n.Subst?)
  {
    hide PrintArgs, PrintAll;
  }

  /** A tree has a dynamic call exactly when its tokens show one. */
  lemma {:induction false} DynPrinted(n: Node, g: Group)
    requires LegalGroup(n, g)
    ensures HasDyn(n) <==> DynIn(Print(n))
    decreases n
  {
    match n {
      case Call(name, args) =>
        DynArgs(args);
        DynWrapped([name, "("], PrintArgs(args), ")");
      case DynCall(name, args) =>
        DynWrapped([name, "("], PrintArgs(args), ")");
        assert DynIn([name, "("]) by {
          assert IsSubst([name, "("][0]) && [name, "("][1] == "(";
        }
      case Eval(contents) =>
        DynPrinted(contents, Bracket);
        DynWrapped(["["], Print(contents), "]");
      case Brace(contents) =>
        DynPrinted(contents, Curly);
        DynWrapped(["{"], Print(contents), "}");
      case Sequence(children) =>
        DynAll(children, g);
      case _ =>
    }
  }

  lemma {:induction false} DynAll(ns: seq<Node>, g: Group)
    requires LegalAll(ns, g)
    ensures AnyDyn(ns) <==> DynIn(PrintAll(ns))
    ensures ns != [] ==> PrintAll(ns) != [] && (IsSubst(PrintAll(ns)[|PrintAll(ns)| - 1]) <==> ns[|ns| - 1].Subst?)
    decreases ns
  {
    if ns != [] {
      var front, last := ns[..|ns| - 1], ns[|ns| - 1];
      DynAll(front, g);
      DynPrinted(last, g);
      PrintEnds(last, g);
      DynJoined(PrintAll(front), Print(last));
      if front != [] {
        assert front[|front| - 1] == ns[|ns| - 2];
      }
      hide Print, DynIn, IsSubst;
    }
  }

  lemma {:induction false} DynArgs(ns: seq<Node>)
    requires LegalArgs(ns)
    ensures AnyDyn(ns) <==> DynIn(PrintArgs(ns))
    decreases ns
  {
    if ns != [] {
      var front, last := ns[..|ns| - 1], ns[|ns| - 1];
      DynArgs(front);
      DynPrinted(last, Paren);
      var a, b, commas := PrintArgs(front), Print(last), if |ns| > 1 then [","] else [];
      DynJoined(a, commas);
      DynJoined(a + commas, b);
      hide Print, DynIn;
    }
  }
}
