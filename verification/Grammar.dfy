/** The grammar of parser/mux_parse.h is unambiguous: at most one legal tree has given tokens, so
    the parser's contract leaves it no choice of tree. */
module Grammar {
  import opened Tokens
  import opened Syntax
  import opened Sequences

  type Texts = seq<string>

  lemma Cancel(a: Texts, x: Texts, y: Texts)
    requires a + x == a + y
    ensures x == y
  {
    assert (a + x)[|a|..] == x && (a + y)[|a|..] == y;
  }

  lemma CancelEnd(a: Texts, b: Texts, t: string, x: Texts, y: Texts)
    requires a == b && a + ([t] + x) == b + ([t] + y)
    ensures x == y
  {
    Cancel(a, [t] + x, [t] + y);
    Cancel([t], x, y);
  }

  // ----- printing from the left -----

  lemma {:induction false} PrintAllFirst(ns: seq<Node>)
    requires ns != []
    ensures PrintAll(ns) == Print(ns[0]) + PrintAll(ns[1..])
    decreases |ns|
  {
    var front, last := ns[..|ns| - 1], ns[|ns| - 1];
    if |ns| == 1 {
      assert front == [] && ns[1..] == [];
    } else {
      PrintAllFirst(front);
      var rest := ns[1..];
      assert rest[..|rest| - 1] == front[1..] && rest[|rest| - 1] == last;
      Regroup(Print(ns[0]), PrintAll(front[1..]), Print(last));
    }
  }

  /** What follows the first argument. */
  function MoreArgs(ns: seq<Node>): Texts {
    if |ns| <= 1 then [] else [","] + PrintArgs(ns[1..])
  }

  lemma PrintArgsLast(ns: seq<Node>, last: Node)
    ensures PrintArgs(ns + [last]) == PrintArgs(ns) + (if ns == [] then [] else [","]) + Print(last)
  {
    assert (ns + [last])[..|ns|] == ns && (ns + [last])[|ns|] == last;
    hide Print;
  }

  lemma {:induction false} PrintArgsFirst(ns: seq<Node>)
    requires ns != []
    ensures PrintArgs(ns) == Print(ns[0]) + MoreArgs(ns)
    decreases |ns|
  {
    var n, front, last := |ns| - 1, ns[..|ns| - 1], ns[|ns| - 1];
    assert ns == front + [last];
    PrintArgsLast(front, last);
    assert PrintArgs([]) == [];
    hide Print, PrintArgs;
    if n == 0 {
      assert front == [];
    } else {
      PrintArgsFirst(front);
      var rest := ns[1..];
      assert rest == front[1..] + [last];
      PrintArgsLast(front[1..], last);
      if n == 1 {
        assert front[1..] == [];
        assert Print(ns[0]) + [] + [","] + Print(last) == Print(ns[0]) + ([","] + Print(last));
      } else {
        RegroupArgs(Print(ns[0]), PrintArgs(front[1..]), Print(last));
      }
    }
  }

  lemma RegroupArgs(a: Texts, b: Texts, c: Texts)
    ensures (a + ([","] + b)) + [","] + c == a + ([","] + (b + [","] + c))
  {
  }

  // ----- what can come next -----

  /** The rest is empty or starts with something that ends the group. */
  predicate Ended(g: Group, x: Texts) {
    x == [] || Stops(g, x[0])
  }

  /** The rest does not make the item a call. */
  predicate Final(n: Node, x: Texts) {
    Names(n) && x != [] ==> x[0] != "("
  }

  lemma FirstText(n: Node, g: Group)
    requires Legal(n, g)
    ensures Print(n) != [] && !Stops(g, Print(n)[0])
    ensures Print(n)[0] == "(" <==> n == Literal("(")
  {
    PrintEnds(n, g);
  }

  /** The first text, and for names the one behind it, say what kind of item it is. */
  predicate SameKind(n: Node, m: Node) {
    match n
    case Literal(t) => m == n
    case Space(t) => m == n
    case Escape(t) => m == n
    case Semicolon(t) => m == n
    case Subst(t) => m == n
    case Call(name, _) => m.Call? && m.name == name
    case DynCall(name, _) => m.DynCall? && m.name == name
    case Eval(_) => m.Eval?
    case Brace(_) => m.Brace?
    case Sequence(_) => false
  }

  /** What an item shows of itself: its first text, and whether a parenthesis follows a name. */
  predicate Shows(n: Node, t: string, paren: bool) {
    match n
    case Literal(text) => text == t && (IsWord(t) ==> !paren) && (IsWord(t) || IsStray(t))
    case Space(text) => text == t && IsSpace(t)
    case Escape(text) => text == t && IsEscape(t)
    case Semicolon(text) => text == t == ";"
    case Subst(text) => text == t && IsSubst(t) && !paren
    case Call(name, _) => name == t && IsWord(t) && paren
    case DynCall(name, _) => name == t && IsSubst(t) && paren
    case Eval(_) => t == "["
    case Brace(_) => t == "{"
    case Sequence(_) => false
  }

  lemma ShowsFirst(n: Node, g: Group, x: Texts, all: Texts)
    requires Legal(n, g) && Final(n, x) && all == Print(n) + x
    ensures all != [] && Shows(n, all[0], |all| > 1 && all[1] == "(")
  {
    hide PrintArgs, PrintAll, LegalArgs, LegalGroup, IsWord, IsSubst, IsSpace, IsEscape;
  }

  lemma ShowsSame(n: Node, m: Node, t: string, paren: bool)
    requires Shows(n, t, paren) && Shows(m, t, paren)
    ensures SameKind(n, m)
  {
  }

  // ----- uniqueness -----

  /** Two legal items that start the same texts are the same. */
  lemma {:induction false} UniqueItem(n: Node, m: Node, g: Group, x: Texts, y: Texts)
    requires Legal(n, g) && Legal(m, g) && Final(n, x) && Final(m, y) && Print(n) + x == Print(m) + y
    ensures n == m && x == y
    decreases |Print(n)|, 0
  {
    var all := Print(n) + x;
    ShowsFirst(n, g, x, all);
    ShowsFirst(m, g, y, all);
    ShowsSame(n, m, all[0], |all| > 1 && all[1] == "(");
    hide Shows, Final;
    match n {
      case Call(name, args) =>
        UniqueCall([name, "("], args, m.args, x, y);
      case DynCall(name, args) =>
        UniqueCall([name, "("], args, m.args, x, y);
      case Eval(contents) =>
        UniqueWrapped("[", contents, m.contents, "]", Bracket, x, y);
      case Brace(contents) =>
        UniqueWrapped("{", contents, m.contents, "}", Curly, x, y);
      case _ =>
        Cancel(Print(n), x, y);
    }
  }

  lemma {:induction false} UniqueCall(open: Texts, a: seq<Node>, b: seq<Node>, x: Texts, y: Texts)
    requires a != [] && b != [] && LegalArgs(a) && LegalArgs(b)
    requires (open + PrintArgs(a) + [")"]) + x == (open + PrintArgs(b) + [")"]) + y
    ensures a == b && x == y
    decreases |PrintArgs(a)|, 4
  {
    var u, v := [")"] + x, [")"] + y;
    hide *;
    Unwrap(open, PrintArgs(a), ")", x);
    Unwrap(open, PrintArgs(b), ")", y);
    Cancel(open, PrintArgs(a) + u, PrintArgs(b) + v);
    UniqueArgs(a, b, u, v);
    CancelEnd([], [], ")", x, y);
  }

  lemma Unwrap(open: Texts, a: Texts, close: string, x: Texts)
    ensures (open + a + [close]) + x == open + (a + ([close] + x))
  {
  }

  lemma {:induction false} UniqueWrapped(open: string, c: Node, d: Node, close: string, g: Group, x: Texts, y: Texts)
    requires LegalGroup(c, g) && LegalGroup(d, g) && Stops(g, close)
    requires ([open] + Print(c) + [close]) + x == ([open] + Print(d) + [close]) + y
    ensures c == d && x == y
    decreases |Print(c)|, 4
  {
    var u, v := [close] + x, [close] + y;
    assert Ended(g, u) && Ended(g, v);
    hide *;
    Unwrap([open], Print(c), close, x);
    Unwrap([open], Print(d), close, y);
    Cancel([open], Print(c) + u, Print(d) + v);
    UniqueGroup(c, d, g, u, v);
    CancelEnd([], [], close, x, y);
  }

  /** The items of a group's contents. */
  function Items(n: Node): seq<Node> {
    if n.Sequence? then n.children else [n]
  }

  lemma ItemsOf(n: Node, g: Group)
    requires LegalGroup(n, g)
    ensures LegalAll(Items(n), g) && PrintAll(Items(n)) == Print(n) && (n.Sequence? <==> |Items(n)| != 1)
  {
    if !n.Sequence? {
      assert PrintAll([n]) == PrintAll([n][..0]) + Print(n);
    }
  }

  /** Two legal contents of a group that start the same texts, up to its end, are the same. */
  lemma {:induction false} UniqueGroup(c: Node, d: Node, g: Group, x: Texts, y: Texts)
    requires LegalGroup(c, g) && LegalGroup(d, g) && Ended(g, x) && Ended(g, y) && Print(c) + x == Print(d) + y
    ensures c == d && x == y
    decreases |Print(c)|, 2
  {
    ItemsOf(c, g);
    ItemsOf(d, g);
    hide LegalGroup, LegalAll, PrintAll, Print;
    UniqueAll(Items(c), Items(d), g, x, y);
  }

  lemma StopIsText(g: Group)
    ensures !Stops(g, "(")
  {
  }

  lemma RestFinal(ns: seq<Node>, g: Group, x: Texts)
    requires ns != [] && LegalAll(ns, g) && Ended(g, x)
    ensures Final(ns[0], PrintAll(ns[1..]) + x) && LegalAll(ns[1..], g)
  {
    var rest := ns[1..];
    StopIsText(g);
    if rest == [] {
      assert PrintAll(rest) + x == x;
    } else {
      PrintAllFirst(rest);
      FirstText(rest[0], g);
      assert rest[0] == ns[1];
      assert (PrintAll(rest) + x)[0] == Print(rest[0])[0];
    }
    hide Legal, PrintAll;
  }

  lemma PrintNone()
    ensures PrintAll([]) == []
  {
  }

  lemma NothingLeft(ms: seq<Node>, g: Group, x: Texts, y: Texts)
    requires ms != [] && LegalAll(ms, g) && Ended(g, x)
    ensures x != PrintAll(ms) + y
  {
    PrintAllFirst(ms);
    FirstText(ms[0], g);
    assert (PrintAll(ms) + y)[0] == Print(ms[0])[0];
  }

  lemma {:induction false} UniqueAll(ns: seq<Node>, ms: seq<Node>, g: Group, x: Texts, y: Texts)
    requires LegalAll(ns, g) && LegalAll(ms, g) && Ended(g, x) && Ended(g, y) && PrintAll(ns) + x == PrintAll(ms) + y
    ensures ns == ms && x == y
    decreases |PrintAll(ns)|, 1
  {
    hide PrintAll, Print, Final, Legal, Ended;
    if ns == [] || ms == [] {
      PrintNone();
      assert PrintAll([]) + x == x && PrintAll([]) + y == y;
      if ms != [] {
        NothingLeft(ms, g, x, y);
      }
      if ns != [] {
        NothingLeft(ns, g, y, x);
      }
    } else {
      var n, m, ns', ms' := ns[0], ms[0], ns[1..], ms[1..];
      PrintAllFirst(ns);
      PrintAllFirst(ms);
      RestFinal(ns, g, x);
      RestFinal(ms, g, y);
      FirstText(n, g);
      Regroup(Print(n), PrintAll(ns'), x);
      Regroup(Print(m), PrintAll(ms'), y);
      UniqueItem(n, m, g, PrintAll(ns') + x, PrintAll(ms') + y);
      UniqueAll(ns', ms', g, x, y);
      assert ns == [n] + ns' && ms == [m] + ms';
    }
  }

  lemma {:induction false} UniqueArgs(a: seq<Node>, b: seq<Node>, x: Texts, y: Texts)
    requires a != [] && b != [] && LegalArgs(a) && LegalArgs(b) && x != [] && y != [] && x[0] == y[0] == ")"
    requires PrintArgs(a) + x == PrintArgs(b) + y
    ensures a == b && x == y
    decreases |PrintArgs(a)|, 3
  {
    hide *;
    var u, v := MoreArgs(a) + x, MoreArgs(b) + y;
    ArgsFollow(a, x);
    ArgsFollow(b, y);
    UniqueGroup(a[0], b[0], Paren, u, v);
    assert |a| == 1 <==> |b| == 1;
    if |a| > 1 {
      Cancel([","], PrintArgs(a[1..]) + x, PrintArgs(b[1..]) + y);
      UniqueArgs(a[1..], b[1..], x, y);
      assert a == [a[0]] + a[1..] && b == [b[0]] + b[1..];
    } else {
      assert a == [a[0]] && b == [b[0]];
    }
  }

  lemma ArgsFollow(a: seq<Node>, x: Texts)
    requires a != [] && LegalArgs(a) && x != [] && x[0] == ")"
    ensures var u := MoreArgs(a) + x;
      && PrintArgs(a) + x == Print(a[0]) + u && LegalGroup(a[0], Paren) && Ended(Paren, u) && u != [] && |Print(a[0])| <= |PrintArgs(a)|
      && (if |a| == 1 then u == x && u[0] == ")"
          else u == [","] + (PrintArgs(a[1..]) + x) && u[0] == "," && LegalArgs(a[1..]) && |PrintArgs(a[1..])| < |PrintArgs(a)|)
  {
    PrintArgsFirst(a);
    Regroup(Print(a[0]), MoreArgs(a), x);
    hide PrintArgs, Print, LegalGroup;
    if |a| > 1 {
      Regroup([","], PrintArgs(a[1..]), x);
    }
  }

  /** At most one legal tree has given tokens. */
  lemma Unambiguous(n: Node, m: Node)
    requires LegalGroup(n, Outer) && LegalGroup(m, Outer) && Print(n) == Print(m)
    ensures n == m
  {
    UniqueGroup(n, m, Outer, [], []);
  }
}
