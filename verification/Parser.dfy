/**
 * The recursive-descent expression parser. Each method takes a ghost hint: a tree whose tokens stand at the
 * current place, or none. Without a hint it promises termination and a position inside the token list; with
 * one it promises to return that tree and to consume exactly its tokens.
 */
module Parser {
  import opened OrderedMap
  import opened Syntax

  /** A token that no parsing method of this level or deeper takes after an operand. */
  predicate Stops(level: nat, t: Token) {
    && t.text != "." && t.text != "("
    && (level <= MUL ==> t.text != "*" && t.text != "/" && t.text != "%")
    && (level <= ADD ==> t.text != "+" && t.text != "-")
    && (level <= LIKE ==> t.text != "like")
    && (level <= COMPARE ==> t.kind != Operator && t.text != "is" && t.text != "in")
    && (level <= AND ==> t.text != "and")
    && (level <= OR ==> t.text != "or")
  }

  /** The hint: nothing, a written tree, or a tree in parentheses that ends in a list and so will be refused. */
  datatype Want = Any | Whole(t: Tree) | Refused(t: Tree)

  function GroupTokens(t: Tree): seq<Token> {
    [P("(")] + (Tokens(t) + [P(")")])
  }

  ghost predicate At(tokens: seq<Token>, i: nat, ts: seq<Token>) {
    i + |ts| < |tokens| && tokens[i..i + |ts|] == ts
  }

  /** Where a list that ends before j leaves the parser: it takes a parenthesis that stands there. */
  ghost function ListEnd(tokens: seq<Token>, list: bool, j: nat): nat {
    if list && j < |tokens| && tokens[j].text == ")" then j + 1 else j
  }

  /** Where a tree written from i on leaves the parser. */
  ghost function EndOf(tokens: seq<Token>, t: Tree, i: nat): nat {
    ListEnd(tokens, EndsInList(t), i + |Tokens(t)|)
  }

  ghost predicate Expects(w: Want, level: nat, tokens: seq<Token>, i: nat) {
    match w
    case Any => true
    case Whole(t) =>
      && WellFormed(t) && Level(t) >= level && At(tokens, i, Tokens(t))
      && EndOf(tokens, t, i) < |tokens| && Stops(level, tokens[EndOf(tokens, t, i)])
    case Refused(t) =>
      && WellFormed(t) && EndsInList(t) && At(tokens, i, GroupTokens(t))
      && var next := tokens[i + |GroupTokens(t)|];
         Stops(OR, next) && next.text != ")"
  }

  ghost predicate Delivers(tokens: seq<Token>, w: Want, r: Ptr, n: nat, n': nat, i: nat, i': nat) {
    match w
    case Any => true
    case Whole(t) => r == Node(Meaning(t, n).0) && n' == Meaning(t, n).1 && i' == EndOf(tokens, t, i)
    case Refused(t) => r == Nothing && i' == i + |GroupTokens(t)|
  }

  ghost predicate Outcome(w: Want, failed: bool, failed': bool, closed': bool) {
    w.Any? || if w.Refused? then failed' && !closed' else failed' == failed
  }

  // ---- Chains of one operator level ----

  /** OR, AND, sums and products, whose operands follow each other in a loop. */
  predicate Chained(level: nat) {
    level == OR || level == AND || level == ADD || level == MUL
  }

  /** How often a tree goes on to the left with operators of the level. */
  function Depth(t: Tree, level: nat): nat {
    if t.TBinary? && OpLevel(t.bop) == level then 1 + Depth(t.left, level) else 0
  }

  /** What is left of a chain without its last d operators. */
  function Down(t: Tree, level: nat, d: nat): Tree
    requires d <= Depth(t, level)
    decreases d
  {
    if d == 0 then t else Down(t.left, level, d - 1)
  }

  lemma {:induction false} DownStep(t: Tree, level: nat, d: nat)
    requires d < Depth(t, level)
    ensures var v := Down(t, level, d);
            v.TBinary? && OpLevel(v.bop) == level && v.left == Down(t, level, d + 1)
    ensures Depth(Down(t, level, d), level) == Depth(t, level) - d
    decreases d
  {
    if d > 0 {
      DownStep(t.left, level, d - 1);
    }
  }

  lemma {:induction false} DownDepth(t: Tree, level: nat, d: nat)
    requires d <= Depth(t, level)
    ensures Depth(Down(t, level, d), level) == Depth(t, level) - d
    decreases d
  {
    if d > 0 {
      DownDepth(t.left, level, d - 1);
    }
  }

  /** What stands behind the first operators of a chain: the next one, or what follows the whole. */
  ghost predicate ChainAt(tokens: seq<Token>, i: nat, t: Tree, level: nat, d: nat)
    requires d <= Depth(t, level)
  {
    (d > 0 ==> Down(t, level, d - 1).TBinary?) &&
    var u := Down(t, level, d);
    && WellFormed(u) && Level(u) >= level && At(tokens, i, Tokens(u))
    && if d == 0 then EndOf(tokens, u, i) < |tokens| && Stops(level, tokens[EndOf(tokens, u, i)])
       else
         var op := Down(t, level, d - 1).bop;
         OpOk(op) && OpLevel(op) == level && tokens[i + |Tokens(u)|] == BinaryToken(op)
  }

  lemma OperatorStops(op: BinaryOp, level: nat)
    requires OpOk(op) && OpLevel(op) == level && Chained(level)
    ensures Stops(level + 1, BinaryToken(op)) && BinaryToken(op).text != ")"
  {
  }

  lemma StopsMonotonic(level: nat, t: Token)
    requires Stops(level, t)
    ensures Stops(level + 1, t)
  {
  }

  lemma WellFormedBinary(t: Tree)
    requires t.TBinary? && WellFormed(t)
    ensures OpOk(t.bop) && WellFormed(t.left) && WellFormed(t.right)
    ensures Level(t.left) >= LeftLevel(t.bop) && Level(t.right) >= RightLevel(t.bop)
    ensures EndsInList(t) == EndsInList(t.right)
  {
  }

  /** One operator and its right operand, inside a chain. */
  lemma ChainLink(tokens: seq<Token>, i: nat, t: Tree, level: nat, d: nat)
    requires Chained(level) && d < Depth(t, level) && ChainAt(tokens, i, t, level, d)
    ensures ChainAt(tokens, i, t, level, d + 1)
    ensures var v := Down(t, level, d);
            var u := Down(t, level, d + 1);
            && v.TBinary? && v.left == u && OpLevel(v.bop) == level
            && |Tokens(v)| == |Tokens(u)| + 1 + |Tokens(v.right)|
            && Expects(Whole(v.right), level + 1, tokens, i + |Tokens(u)| + 1)
            && EndOf(tokens, v.right, i + |Tokens(u)| + 1) == (if d == 0 then EndOf(tokens, t, i) else i + |Tokens(v)|)
  {
    hide Tokens, At, WellFormed, Stops, BinaryToken;
    DownStep(t, level, d);
    var v := Down(t, level, d);
    BinaryParts(tokens, i, v);
    WellFormedBinary(v);
    if d == 0 {
      StopsMonotonic(level, tokens[EndOf(tokens, v, i)]);
    } else {
      AtBound(tokens, i, Tokens(v));
      OperatorStops(Down(t, level, d - 1).bop, level);
    }
  }

  /** The first operand of a chain. */
  lemma {:induction false} ChainStart(tokens: seq<Token>, i: nat, t: Tree, level: nat, d: nat)
    requires Chained(level) && d <= Depth(t, level) && ChainAt(tokens, i, t, level, d)
    ensures var n := Depth(t, level);
            var u := Down(t, level, n);
            && ChainAt(tokens, i, t, level, n) && Expects(Whole(u), level + 1, tokens, i)
            && EndOf(tokens, u, i) == (if n == 0 then EndOf(tokens, t, i) else i + |Tokens(u)|)
    decreases Depth(t, level) - d
  {
    hide Tokens, At, WellFormed, Stops, BinaryToken;
    if d < Depth(t, level) {
      ChainLink(tokens, i, t, level, d);
      ChainStart(tokens, i, t, level, d + 1);
    } else {
      DownDepth(t, level, d);
      var u := Down(t, level, d);
      assert Level(u) != level;
      if d == 0 {
        StopsMonotonic(level, tokens[EndOf(tokens, u, i)]);
      } else {
        AtBound(tokens, i, Tokens(u));
        OperatorStops(Down(t, level, d - 1).bop, level);
      }
    }
  }

  lemma ChainBegin(tokens: seq<Token>, i: nat, t: Tree, level: nat)
    requires Chained(level) && Expects(Whole(t), level, tokens, i)
    ensures var n := Depth(t, level);
            var u := Down(t, level, n);
            && ChainAt(tokens, i, t, level, n) && Expects(Whole(u), level + 1, tokens, i)
            && EndOf(tokens, u, i) == (if n == 0 then EndOf(tokens, t, i) else i + |Tokens(u)|)
    ensures ChainAt(tokens, i, t, level, 0)
  {
    hide Tokens, At, WellFormed, Stops, BinaryToken, EndOf;
    ChainStart(tokens, i, t, level, 0);
  }

  predicate IsOperator(text: string, level: nat) {
    || (level == OR && text == "or") || (level == AND && text == "and")
    || (level == ADD && (text == "+" || text == "-"))
    || (level == MUL && (text == "*" || text == "/" || text == "%"))
  }

  /** The loop of a level goes on exactly while the chain does. */
  lemma ChainNext(tokens: seq<Token>, i: nat, t: Tree, level: nat, d: nat)
    requires Chained(level) && d <= Depth(t, level) && ChainAt(tokens, i, t, level, d)
    ensures var j := if d == 0 then EndOf(tokens, t, i) else i + |Tokens(Down(t, level, d))|;
            j < |tokens| && (IsOperator(tokens[j].text, level) <==> d > 0)
    ensures d > 0 ==>
              var v := Down(t, level, d - 1);
              v.TBinary? && tokens[i + |Tokens(Down(t, level, d))|].text == BinaryText(v.bop)
  {
    hide Tokens, WellFormed, EndOf;
  }

  /** One operator back: its right operand is a hint, and the meaning is put together from the parts. */
  lemma ChainBack(tokens: seq<Token>, i: nat, t: Tree, level: nat, d: nat, n: nat)
    requires Chained(level) && 0 < d <= Depth(t, level) && ChainAt(tokens, i, t, level, 0)
    ensures ChainAt(tokens, i, t, level, d - 1)
    ensures var v := Down(t, level, d - 1);
            var u := Down(t, level, d);
            && v.TBinary? && OpLevel(v.bop) == level
            && (level == OR ==> BinaryText(v.bop) == "or") && (level == AND ==> BinaryText(v.bop) == "and")
            && Expects(Whole(v.right), level + 1, tokens, i + |Tokens(u)| + 1)
            && EndOf(tokens, v.right, i + |Tokens(u)| + 1) == (if d == 1 then EndOf(tokens, t, i) else i + |Tokens(v)|)
            && var (e, m) := Meaning(u, n);
               var (f, k) := Meaning(v.right, m);
               Meaning(v, n) == (Binary(BinaryText(v.bop), Node(e), Node(f)), k)
  {
    hide Tokens, At, WellFormed, Stops, EndOf, Meaning, ChainAt, Down, Depth;
    ChainReach(tokens, i, t, level, d - 1);
    ChainLink(tokens, i, t, level, d - 1);
    BinaryMeaning(Down(t, level, d - 1), n);
  }

  lemma {:induction false} ChainReach(tokens: seq<Token>, i: nat, t: Tree, level: nat, d: nat)
    requires Chained(level) && d <= Depth(t, level) && ChainAt(tokens, i, t, level, 0)
    ensures ChainAt(tokens, i, t, level, d)
    decreases d
  {
    hide Tokens, At, WellFormed, Stops, BinaryToken, EndOf, ChainAt, Down, Depth;
    if d > 0 {
      ChainReach(tokens, i, t, level, d - 1);
      ChainLink(tokens, i, t, level, d - 1);
    }
  }

  lemma ChainWhole(t: Tree, level: nat)
    ensures Down(t, level, 0) == t
  {
  }

  /** Behind refused parentheses stands nothing that a loop would take. */
  lemma RefusedEnd(tokens: seq<Token>, i: nat, t: Tree)
    requires Expects(Refused(t), OR, tokens, i)
    ensures var next := tokens[i + |GroupTokens(t)|];
            && next.text != ")"
            && !IsOperator(next.text, OR) && !IsOperator(next.text, AND) && !IsOperator(next.text, ADD) && !IsOperator(next.text, MUL)
  {
    hide Tokens, WellFormed, GroupTokens, EndsInList;
  }

  // ---- Comparisons ----

  /** What the hint of a comparison says of the tokens behind its left operand. */
  datatype Rest = Unknown | Ends | Is(negated: bool) | In(items: seq<Tree>) | Operand(op: string, t: Tree)

  ghost function LeftOf(w: Want): Want {
    if w.Whole? && w.t.TBinary? && w.t.bop.Comparison? then Whole(w.t.left)
    else if w.Whole? && (w.t.TIsNull? || w.t.TIn?) then Whole(w.t.arg)
    else w
  }

  ghost function RestOf(w: Want): Rest {
    if w.Any? then Unknown
    else if w.Whole? && w.t.TBinary? && w.t.bop.Comparison? then Operand(BinaryText(w.t.bop), w.t.right)
    else if w.Whole? && w.t.TIsNull? then Is(w.t.negated)
    else if w.Whole? && w.t.TIn? then In(w.t.items)
    else Ends
  }

  ghost predicate RestAt(rest: Rest, tokens: seq<Token>, i: nat) {
    i < |tokens| &&
    match rest
    case Unknown => true
    case Ends => tokens[i].kind != Operator && tokens[i].text != "is" && tokens[i].text != "in"
    case Is(negated) =>
      && i + 2 < |tokens| && tokens[i] == W("is")
      && tokens[i + 1] == W(if negated then "not" else "null") && (negated ==> tokens[i + 2] == W("null"))
    case In(items) => tokens[i] == W("in") && ListAt(items, tokens, i + 1)
    case Operand(op, t) =>
      tokens[i] == O(op) && op != "is" && op != "in" && Expects(Whole(t), ADD, tokens, i + 1)
  }

  ghost predicate RestDone(rest: Rest, tokens: seq<Token>, left: Ptr, r: Ptr, n: nat, n': nat, i: nat, i': nat) {
    match rest
    case Unknown => true
    case Ends => r == left && n' == n && i' == i
    case Is(negated) => r == Node(IsNull(negated, left)) && n' == n && i' == i + if negated then 3 else 2
    case In(items) =>
      && r == Node(Call("in", [left] + MeaningAll(items, n).0)) && n' == MeaningAll(items, n).1
      && i' == ListEnd(tokens, items != [], i + |ArgTokens(items)| + 3)
    case Operand(op, t) =>
      && r == Node(Binary(op, left, Node(Meaning(t, n).0))) && n' == Meaning(t, n).1
      && i' == EndOf(tokens, t, i + 1)
  }

  ghost predicate TokensOk(tokens: seq<Token>) {
    tokens != [] && tokens[|tokens| - 1] == Token(End, "")
  }

  lemma AtParts(tokens: seq<Token>, i: nat, a: seq<Token>, b: seq<Token>)
    requires At(tokens, i, a + b)
    ensures i + |a| + |b| < |tokens|
    ensures tokens[i..i + |a|] == a && tokens[i + |a|..i + |a| + |b|] == b
    ensures b != [] ==> At(tokens, i, a) && tokens[i + |a|] == b[0]
    ensures At(tokens, i + |a|, b)
  {
    var c := tokens[i..i + |a| + |b|];
    assert c == a + b;
    assert tokens[i..i + |a|] == c[..|a|];
    assert tokens[i + |a|..i + |a| + |b|] == c[|a|..];
  }

  lemma AtBound(tokens: seq<Token>, i: nat, ts: seq<Token>)
    requires At(tokens, i, ts)
    ensures i + |ts| < |tokens|
  {
  }

  lemma AtFirst(tokens: seq<Token>, i: nat, ts: seq<Token>)
    requires At(tokens, i, ts) && ts != []
    ensures tokens[i] == ts[0]
  {
    assert tokens[i..i + |ts|][0] == tokens[i];
  }

  /** Where the parts of a binary tree stand. */
  lemma BinaryParts(tokens: seq<Token>, i: nat, t: Tree)
    requires t.TBinary? && At(tokens, i, Tokens(t))
    ensures At(tokens, i, Tokens(t.left))
    ensures var j := i + |Tokens(t.left)|;
            j + 1 < |tokens| && tokens[j] == BinaryToken(t.bop) && At(tokens, j + 1, Tokens(t.right))
    ensures |Tokens(t)| == |Tokens(t.left)| + 1 + |Tokens(t.right)|
  {
    var l, r := Tokens(t.left), Tokens(t.right);
    assert Tokens(t) == l + ([BinaryToken(t.bop)] + r);
    hide Tokens, At, BinaryToken;
    AtParts(tokens, i, l, [BinaryToken(t.bop)] + r);
    AtParts(tokens, i + |l|, [BinaryToken(t.bop)], r);
  }

  /** The operands of a comparison or a LIKE. */
  lemma BinaryHints(tokens: seq<Token>, i: nat, t: Tree, level: nat)
    requires t.TBinary? && (t.bop.Comparison? || t.bop.Like?) && Expects(Whole(t), level, tokens, i)
    ensures Expects(Whole(t.left), LeftLevel(t.bop), tokens, i) && EndOf(tokens, t.left, i) == i + |Tokens(t.left)|
    ensures var j := i + |Tokens(t.left)|;
            && j < |tokens| && tokens[j] == BinaryToken(t.bop)
            && Expects(Whole(t.right), ADD, tokens, j + 1) && EndOf(tokens, t.right, j + 1) == EndOf(tokens, t, i)
  {
    hide Tokens, At, WellFormed;
    BinaryParts(tokens, i, t);
    WellFormedBinary(t);
    assert Stops(LeftLevel(t.bop), BinaryToken(t.bop)) && BinaryToken(t.bop).text != ")";
  }

  lemma NullTestAt(tokens: seq<Token>, j: nat, negated: bool)
    requires At(tokens, j, NullTest(negated))
    ensures j + 2 < |tokens| && tokens[j] == W("is")
    ensures negated ==> j + 3 < |tokens| && tokens[j + 1] == W("not") && tokens[j + 2] == W("null")
    ensures !negated ==> tokens[j + 1] == W("null")
  {
    var k := |NullTest(negated)|;
    assert tokens[j..j + k][0] == tokens[j] && tokens[j..j + k][1] == tokens[j + 1];
    assert negated ==> tokens[j..j + k][2] == tokens[j + 2];
  }

  lemma IsNullShape(t: Tree)
    requires t.TIsNull? && WellFormed(t)
    ensures Tokens(t) == Tokens(t.arg) + NullTest(t.negated) && WellFormed(t.arg) && Level(t.arg) >= LIKE
    ensures |NullTest(t.negated)| == if t.negated then 3 else 2
    ensures NullTest(t.negated)[0] == W("is")
  {
  }

  lemma IsNullHints(tokens: seq<Token>, i: nat, t: Tree, level: nat)
    requires t.TIsNull? && Expects(Whole(t), level, tokens, i)
    ensures Expects(Whole(t.arg), LIKE, tokens, i) && EndOf(tokens, t.arg, i) == i + |Tokens(t.arg)|
    ensures var j := i + |Tokens(t.arg)|;
            && j + 2 < |tokens| && tokens[j] == W("is")
            && (t.negated ==> j + 3 < |tokens| && tokens[j + 1] == W("not") && tokens[j + 2] == W("null"))
            && (!t.negated ==> tokens[j + 1] == W("null"))
    ensures EndOf(tokens, t, i) == i + |Tokens(t.arg)| + if t.negated then 3 else 2
  {
    hide Tokens, At, NullTest, WellFormed;
    IsNullShape(t);
    assert Stops(LIKE, W("is"));
    AtParts(tokens, i, Tokens(t.arg), NullTest(t.negated));
    NullTestAt(tokens, i + |Tokens(t.arg)|, t.negated);
  }

  lemma UnaryShape(t: Tree)
    requires t.TUnary? && WellFormed(t)
    ensures Tokens(t) == [UnaryToken(t.uop)] + Tokens(t.arg) && WellFormed(t.arg) && Level(t.arg) >= UNARY
  {
  }

  lemma UnaryHints(tokens: seq<Token>, i: nat, t: Tree)
    requires t.TUnary? && Expects(Whole(t), UNARY, tokens, i)
    ensures tokens[i] == UnaryToken(t.uop) && Expects(Whole(t.arg), UNARY, tokens, i + 1)
    ensures EndOf(tokens, t.arg, i + 1) == EndOf(tokens, t, i)
  {
    hide Tokens, At, WellFormed, Stops;
    UnaryShape(t);
    AtParts(tokens, i, [UnaryToken(t.uop)], Tokens(t.arg));
  }

  /** Inside parentheses that come back. */
  lemma GroupHints(tokens: seq<Token>, i: nat, t: Tree)
    requires t.TGroup? && WellFormed(t) && At(tokens, i, Tokens(t))
    ensures tokens[i] == P("(") && Expects(Whole(t.inner), OR, tokens, i + 1)
    ensures var j := EndOf(tokens, t.inner, i + 1);
            j + 1 < |tokens| && tokens[j] == P(")") && EndOf(tokens, t, i) == j + 1
  {
    var inner := Tokens(t.inner);
    assert Tokens(t) == [P("(")] + (inner + [P(")")]) && WellFormed(t.inner) && !EndsInList(t.inner);
    hide Tokens, At, WellFormed;
    AtParts(tokens, i, [P("(")], inner + [P(")")]);
    AtParts(tokens, i + 1, inner, [P(")")]);
  }

  /** Inside parentheses whose closing one is taken by the list at the end. */
  lemma RefusedHints(tokens: seq<Token>, i: nat, t: Tree)
    requires Expects(Refused(t), OR, tokens, i)
    ensures tokens[i] == P("(") && Expects(Whole(t), OR, tokens, i + 1)
    ensures EndOf(tokens, t, i + 1) == i + |GroupTokens(t)|
  {
    hide Tokens, At, WellFormed, Stops, EndsInList;
    AtParts(tokens, i, [P("(")], Tokens(t) + [P(")")]);
    AtParts(tokens, i + 1, Tokens(t), [P(")")]);
  }

  lemma InShape(t: Tree)
    requires t.TIn? && WellFormed(t)
    ensures Tokens(t) == Tokens(t.arg) + ([W("in")] + ([P("(")] + (ArgTokens(t.items) + [P(")")])))
    ensures WellFormed(t.arg) && Level(t.arg) >= LIKE && ItemsOk(t.items)
  {
  }

  /** Where the parts of an IN test stand. */
  lemma InHints(tokens: seq<Token>, i: nat, t: Tree, level: nat)
    requires t.TIn? && Expects(Whole(t), level, tokens, i)
    ensures Expects(Whole(t.arg), LIKE, tokens, i) && EndOf(tokens, t.arg, i) == i + |Tokens(t.arg)|
    ensures var j := i + |Tokens(t.arg)|;
            j + 1 < |tokens| && tokens[j] == W("in") && ListAt(t.items, tokens, j + 1)
    ensures EndOf(tokens, t, i) == ListEnd(tokens, t.items != [], i + |Tokens(t.arg)| + |ArgTokens(t.items)| + 3)
  {
    hide Tokens, At, WellFormed, ArgTokens, ItemsOk;
    InShape(t);
    var list := [P("(")] + (ArgTokens(t.items) + [P(")")]);
    AtParts(tokens, i, Tokens(t.arg), [W("in")] + list);
    AtParts(tokens, i + |Tokens(t.arg)|, [W("in")], list);
    assert Stops(LIKE, W("in"));
  }

  /** The first token of an operand is never one that an operator position would take. */
  lemma FirstToken(t: Tree)
    requires WellFormed(t) && Level(t) == PRIMARY
    ensures t.TGroup? <==> Tokens(t)[0].text == "("
    ensures Tokens(t)[0].text !in ["not", "-", "+"]
    ensures !EndsInList(t)
  {
  }

  lemma NameHints(tokens: seq<Token>, i: nat, n: Name, rest: seq<Token>)
    requires At(tokens, i, NameTokens(n) + rest)
    ensures tokens[i] == NameTokens(n)[0]
    ensures n.Dotted? ==> tokens[i + 1] == P(".") && tokens[i + 2] == W(n.name)
    ensures At(tokens, i + |NameTokens(n)|, rest)
    ensures rest != [] ==> tokens[i + |NameTokens(n)|] == rest[0]
  {
    AtParts(tokens, i, NameTokens(n), rest);
    var k := |NameTokens(n)|;
    assert tokens[i..i + k][0] == tokens[i];
    if n.Dotted? {
      assert tokens[i..i + k][1] == tokens[i + 1] && tokens[i..i + k][2] == tokens[i + 2];
    }
  }

  ghost predicate ItemsOk(items: seq<Tree>) {
    && (items != [] ==> !EndsInList(items[|items| - 1]))
    && forall a :: a in items ==> !a.TStar? && WellFormed(a) && FirstText(a) != ")"
  }

  /** The arguments still to come, up to the closing parenthesis. */
  ghost predicate SeqAt(args: seq<Tree>, tokens: seq<Token>, i: nat) {
    && (forall a :: a in args ==> a.TStar? || WellFormed(a))
    && (args != [] ==> !EndsInList(args[|args| - 1]))
    && At(tokens, i, ArgTokens(args) + [P(")")])
  }

  /** An argument that is no star does not start like one. */
  ghost predicate ArgsAt(args: seq<Tree>, tokens: seq<Token>, i: nat) {
    SeqAt(args, tokens, i) && forall a :: a in args ==> a.TStar? || FirstText(a) != "*"
  }

  lemma NoArgs(tokens: seq<Token>, i: nat)
    requires SeqAt([], tokens, i)
    ensures tokens[i] == P(")") && ArgTokens([]) == []
  {
    assert ArgTokens([]) + [P(")")] == [P(")")];
    AtFirst(tokens, i, [P(")")]);
  }

  lemma LastArgParts(tokens: seq<Token>, i: nat, args: seq<Tree>)
    requires |args| == 1 && SeqAt(args, tokens, i)
    ensures At(tokens, i, Tokens(args[0]))
    ensures i + |Tokens(args[0])| + 1 < |tokens| && tokens[i + |Tokens(args[0])|] == P(")")
    ensures |ArgTokens(args)| == |Tokens(args[0])|
  {
    hide Tokens, At, WellFormed;
    AtParts(tokens, i, Tokens(args[0]), [P(")")]);
  }

  lemma MoreArgTokens(args: seq<Tree>)
    requires |args| > 1
    ensures ArgTokens(args) == Tokens(args[0]) + ([P(",")] + ArgTokens(args[1..]))
    ensures ArgTokens(args) + [P(")")] == Tokens(args[0]) + ([P(",")] + (ArgTokens(args[1..]) + [P(")")]))
    ensures |ArgTokens(args)| == |Tokens(args[0])| + 1 + |ArgTokens(args[1..])|
  {
    hide Tokens;
  }

  lemma MoreArgParts(tokens: seq<Token>, i: nat, args: seq<Tree>)
    requires |args| > 1 && SeqAt(args, tokens, i)
    ensures At(tokens, i, Tokens(args[0]))
    ensures var j := i + |Tokens(args[0])|;
            j + 1 < |tokens| && tokens[j] == P(",") && At(tokens, j + 1, ArgTokens(args[1..]) + [P(")")])
  {
    hide Tokens, At, WellFormed, ArgTokens;
    MoreArgTokens(args);
    var more := ArgTokens(args[1..]) + [P(")")];
    AtParts(tokens, i, Tokens(args[0]), [P(",")] + more);
    AtParts(tokens, i + |Tokens(args[0])|, [P(",")], more);
  }

  lemma SeqHints(tokens: seq<Token>, i: nat, args: seq<Tree>)
    requires args != [] && SeqAt(args, tokens, i)
    ensures i + |Tokens(args[0])| < |tokens| && tokens[i].text == FirstText(args[0])
    ensures args[0].TStar? ==> tokens[i] == O("*") && |Tokens(args[0])| == 1
    ensures !args[0].TStar? ==> Expects(Whole(args[0]), OR, tokens, i)
    ensures EndOf(tokens, args[0], i) == i + |Tokens(args[0])|
    ensures |args| == 1 ==> i + |Tokens(args[0])| + 1 < |tokens| && tokens[i + |Tokens(args[0])|] == P(")")
    ensures |args| > 1 ==> tokens[i + |Tokens(args[0])|] == P(",") && SeqAt(args[1..], tokens, i + |Tokens(args[0])| + 1)
    ensures |ArgTokens(args)| == |Tokens(args[0])| + if |args| == 1 then 0 else 1 + |ArgTokens(args[1..])|
  {
    hide Tokens, WellFormed, ArgTokens, At;
    if |args| == 1 {
      LastArgParts(tokens, i, args);
    } else {
      MoreArgTokens(args);
      MoreArgParts(tokens, i, args);
    }
    AtFirst(tokens, i, Tokens(args[0]));
    StarToken();
  }

  lemma ArgHints(tokens: seq<Token>, i: nat, args: seq<Tree>)
    requires args != [] && ArgsAt(args, tokens, i)
    ensures i + |Tokens(args[0])| < |tokens| && tokens[i].text == FirstText(args[0])
    ensures args[0].TStar? ==> tokens[i] == O("*") && |Tokens(args[0])| == 1
    ensures !args[0].TStar? ==> tokens[i].text != "*" && Expects(Whole(args[0]), OR, tokens, i)
    ensures EndOf(tokens, args[0], i) == i + |Tokens(args[0])|
    ensures |args| == 1 ==> tokens[i + |Tokens(args[0])|] == P(")")
    ensures |args| > 1 ==> tokens[i + |Tokens(args[0])|] == P(",") && ArgsAt(args[1..], tokens, i + |Tokens(args[0])| + 1)
    ensures |ArgTokens(args)| == |Tokens(args[0])| + if |args| == 1 then 0 else 1 + |ArgTokens(args[1..])|
  {
    hide Tokens, WellFormed, ArgTokens, At, SeqAt, FirstText, Expects;
    assert args[0] in args;
    SeqHints(tokens, i, args);
  }

  /** The parenthesised list of IN; a star is no item of it. */
  ghost predicate ListAt(items: seq<Tree>, tokens: seq<Token>, i: nat) {
    && ItemsOk(items)
    && At(tokens, i, [P("(")] + (ArgTokens(items) + [P(")")]))
  }

  ghost predicate ItemsAt(items: seq<Tree>, tokens: seq<Token>, i: nat) {
    SeqAt(items, tokens, i) && forall a :: a in items ==> !a.TStar? && FirstText(a) != ")"
  }

  lemma ItemHints(tokens: seq<Token>, i: nat, items: seq<Tree>)
    requires items != [] && ItemsAt(items, tokens, i)
    ensures tokens[i].text != ")" && Expects(Whole(items[0]), OR, tokens, i)
    ensures EndOf(tokens, items[0], i) == i + |Tokens(items[0])|
    ensures var j := i + |Tokens(items[0])|;
            && (|items| == 1 ==> j + 1 < |tokens| && tokens[j] == P(")") && j == i + |ArgTokens(items)|)
            && (|items| > 1 ==>
                  && tokens[j] == P(",") && ItemsAt(items[1..], tokens, j + 1)
                  && j + 1 + |ArgTokens(items[1..])| == i + |ArgTokens(items)|)
  {
    hide Tokens, WellFormed, ArgTokens, At, SeqAt, FirstText, Expects;
    assert items[0] in items;
    SeqHints(tokens, i, items);
  }

  lemma ListHints(tokens: seq<Token>, i: nat, items: seq<Tree>)
    requires ListAt(items, tokens, i)
    ensures tokens[i] == P("(") && ItemsAt(items, tokens, i + 1)
    ensures i + |ArgTokens(items)| + 2 < |tokens|
    ensures items == [] ==> tokens[i + 1] == P(")") && ArgTokens(items) == []
  {
    hide Tokens, WellFormed, FirstText, At;
    AtParts(tokens, i, [P("(")], ArgTokens(items) + [P(")")]);
    if items == [] { NoArgs(tokens, i + 1); }
  }

  /** The arguments read so far and the meaning of the rest make up the whole. */
  ghost predicate Owed(args: seq<Ptr>, rest: seq<Tree>, n: nat, whole: (seq<Ptr>, nat)) {
    whole == (args + MeaningAll(rest, n).0, MeaningAll(rest, n).1)
  }

  lemma OwedStart(front: seq<Ptr>, rest: seq<Tree>, n: nat)
    ensures Owed(front, rest, n, (front + MeaningAll(rest, n).0, MeaningAll(rest, n).1))
  {
  }

  lemma NoneOwed(left: Ptr, n: nat)
    ensures ([left] + MeaningAll([], n).0, MeaningAll([], n).1) == ([left], n)
  {
    assert [left] + [] == [left];
  }

  lemma OwedStep(args: seq<Ptr>, rest: seq<Tree>, n: nat, whole: (seq<Ptr>, nat))
    requires rest != [] && Owed(args, rest, n, whole)
    ensures var (e, m) := Meaning(rest[0], n);
            Owed(args + [Node(e)], rest[1..], m, whole) && (|rest| == 1 ==> whole == (args + [Node(e)], m))
  {
    hide Meaning;
    var (e, m) := Meaning(rest[0], n);
    var (es, k) := MeaningAll(rest[1..], m);
    assert args + ([Node(e)] + es) == args + [Node(e)] + es;
    if |rest| == 1 {
      assert args + [Node(e)] + [] == args + [Node(e)];
    }
  }

  lemma StarToken()
    ensures Tokens(TStar) == [O("*")]
  {
  }

  class Parser {
    const tokens: seq<Token>
    var index: nat
    var parameters: nat
    var closed: bool
    var failed: bool

    constructor (tokens: seq<Token>)
      requires TokensOk(tokens)
      ensures this.tokens == tokens && index == 0 && parameters == 0 && !closed && !failed && Ok()
    {
      this.tokens := tokens;
      index, parameters, closed, failed := 0, 0, false, false;
    }

    ghost predicate Ok()
      reads this
    {
      TokensOk(tokens) && index < |tokens|
    }

    /** A closing parenthesis that was just expected may be accepted a second time without being there. */
    method Accept(text: string) returns (yes: bool)
      requires Ok() && text != ""
      modifies this`index, this`closed
      ensures Ok()
      ensures text != ")" ==> !closed && yes == (tokens[old(index)].text == text)
      ensures text == ")" && tokens[old(index)].text == ")" ==> yes && index == old(index) + 1 && closed == old(closed)
      ensures text == ")" && tokens[old(index)].text != ")" ==> yes == old(closed) && !closed && index == old(index)
      ensures text != ")" ==> index == old(index) + if yes then 1 else 0
    {
      if text != ")" {
        closed := false;
      }
      if text == ")" && closed && tokens[index].text != ")" {
        closed := false;
        return true;
      }
      if tokens[index].text == text {
        index := index + 1;
        return true;
      }
      return false;
    }

    method Expect(text: string) returns (yes: bool)
      requires Ok() && text != ""
      modifies this`index, this`closed, this`failed
      ensures Ok() && index >= old(index)
      ensures tokens[old(index)].text == text ==>
                yes && index == old(index) + 1 && failed == old(failed) && closed == (text == ")")
      ensures yes && !old(closed) ==> tokens[old(index)].text == text
      ensures text != ")" && tokens[old(index)].text != text ==> !yes
      ensures !old(closed) && tokens[old(index)].text != text ==> !yes && failed && !closed && index == old(index)
    {
      yes := Accept(text);
      if yes {
        if text == ")" {
          closed := true;
        }
      } else {
        failed := true;
      }
    }

    method Identifier() returns (name: string)
      requires Ok()
      modifies this`index, this`failed
      ensures Ok() && index >= old(index)
      ensures tokens[old(index)].kind == Word ==>
                name == tokens[old(index)].text && index == old(index) + 1 && failed == old(failed)
    {
      if tokens[index].kind != Word {
        failed := true;
        return "";
      }
      name := tokens[index].text;
      index := index + 1;
    }

    method Expression(ghost w: Want) returns (r: Ptr)
      requires Ok() && Expects(w, OR, tokens, index)
      modifies this
      ensures Ok() && index >= old(index)
      ensures Delivers(tokens, w, r, old(parameters), parameters, old(index), index)
      ensures Outcome(w, old(failed), failed, closed) && (w.Any? || !closed)
      decreases |tokens| - index, 10
    {
      r := ParseOr(w);
    }

    method ParseOr(ghost w: Want) returns (left: Ptr)
      requires Ok() && Expects(w, OR, tokens, index)
      modifies this
      ensures Ok() && index >= old(index)
      ensures Delivers(tokens, w, left, old(parameters), parameters, old(index), index)
      ensures Outcome(w, old(failed), failed, closed) && (w.Any? || !closed)
      decreases |tokens| - index, 9
    {
      hide Tokens, At, WellFormed, GroupTokens, ArgTokens, MeaningAll, Meaning, EndsInList, EndOf, Stops, Down, Depth, ChainAt, BinaryToken;
      ghost var i, n := index, parameters;
      ghost var d: nat := if w.Whole? then Depth(w.t, OR) else 0;
      if w.Whole? {
        ChainBegin(tokens, i, w.t, OR);
      } else if w.Refused? {
        RefusedEnd(tokens, i, w.t);
      }
      left := ParseAnd(if w.Whole? then Whole(Down(w.t, OR, d)) else w);
      var more := left.Node?;
      if more {
        if w.Whole? { ChainNext(tokens, i, w.t, OR, d); }
        more := Accept("or");
      }
      while more
        invariant Ok() && index >= i && (more ==> index > i && left.Node?)
        invariant Outcome(w, old(failed), failed, closed)
        invariant w.Refused? ==> !more && Delivers(tokens, w, left, n, parameters, i, index) && !closed
        invariant w.Whole? ==>
                    && d <= Depth(w.t, OR) && ChainAt(tokens, i, w.t, OR, 0) && ChainAt(tokens, i, w.t, OR, d) && !closed && more == (d > 0)
                    && left == Node(Meaning(Down(w.t, OR, d), n).0) && parameters == Meaning(Down(w.t, OR, d), n).1
                    && index == if d == 0 then EndOf(tokens, w.t, i) else i + |Tokens(Down(w.t, OR, d))| + 1
        decreases |tokens| - index, more
      {
        if w.Whole? {
          ChainBack(tokens, i, w.t, OR, d, n);
          d := d - 1;
        }
        var right := ParseAnd(if w.Whole? then Whole(Down(w.t, OR, d).right) else Any);
        left := Node(Binary("or", left, right));
        if w.Whole? { ChainNext(tokens, i, w.t, OR, d); }
        more := Accept("or");
      }
      if w.Whole? { ChainWhole(w.t, OR); }
    }

    method ParseAnd(ghost w: Want) returns (left: Ptr)
      requires Ok() && Expects(w, AND, tokens, index)
      modifies this
      ensures Ok() && index >= old(index)
      ensures Delivers(tokens, w, left, old(parameters), parameters, old(index), index)
      ensures Outcome(w, old(failed), failed, closed) && (w.Any? || !closed)
      decreases |tokens| - index, 8
    {
      hide Tokens, At, WellFormed, GroupTokens, ArgTokens, MeaningAll, Meaning, EndsInList, EndOf, Stops, Down, Depth, ChainAt, BinaryToken;
      ghost var i, n := index, parameters;
      ghost var d: nat := if w.Whole? then Depth(w.t, AND) else 0;
      if w.Whole? {
        ChainBegin(tokens, i, w.t, AND);
      } else if w.Refused? {
        RefusedEnd(tokens, i, w.t);
      }
      left := ParseCompare(if w.Whole? then Whole(Down(w.t, AND, d)) else w);
      var more := left.Node?;
      if more {
        if w.Whole? { ChainNext(tokens, i, w.t, AND, d); }
        more := Accept("and");
      }
      while more
        invariant Ok() && index >= i && (more ==> index > i && left.Node?)
        invariant Outcome(w, old(failed), failed, closed)
        invariant w.Refused? ==> !more && Delivers(tokens, w, left, n, parameters, i, index) && !closed
        invariant w.Whole? ==>
                    && d <= Depth(w.t, AND) && ChainAt(tokens, i, w.t, AND, 0) && ChainAt(tokens, i, w.t, AND, d) && !closed && more == (d > 0)
                    && left == Node(Meaning(Down(w.t, AND, d), n).0) && parameters == Meaning(Down(w.t, AND, d), n).1
                    && index == if d == 0 then EndOf(tokens, w.t, i) else i + |Tokens(Down(w.t, AND, d))| + 1
        decreases |tokens| - index, more
      {
        if w.Whole? {
          ChainBack(tokens, i, w.t, AND, d, n);
          d := d - 1;
        }
        var right := ParseCompare(if w.Whole? then Whole(Down(w.t, AND, d).right) else Any);
        left := Node(Binary("and", left, right));
        if w.Whole? { ChainNext(tokens, i, w.t, AND, d); }
        more := Accept("and");
      }
      if w.Whole? { ChainWhole(w.t, AND); }
    }

    method ParseCompare(ghost w: Want) returns (r: Ptr)
      requires Ok() && Expects(w, COMPARE, tokens, index)
      modifies this
      ensures Ok() && index >= old(index)
      ensures Delivers(tokens, w, r, old(parameters), parameters, old(index), index)
      ensures Outcome(w, old(failed), failed, closed)
      decreases |tokens| - index, 7
    {
      hide Expects, Delivers, RestAt, RestDone;
      CompareHints(tokens, index, w);
      var left := ParseLike(LeftOf(w));
      ghost var j, m := index, parameters;
      if left.Nothing? {
        OnlyRefusedFail(tokens, w, left, old(parameters), m, old(index), j);
        return Nothing;
      }
      CompareMiddle(tokens, w, left, old(parameters), m, old(index), j);
      r := CompareRest(left, RestOf(w));
      CompareDone(tokens, w, left, r, old(parameters), m, parameters, old(index), j, index);
    }

    /** What follows the left operand of a comparison, if anything. */
    method CompareRest(left: Ptr, ghost rest: Rest) returns (r: Ptr)
      requires Ok() && RestAt(rest, tokens, index)
      modifies this
      ensures Ok() && index >= old(index)
      ensures RestDone(rest, tokens, left, r, old(parameters), parameters, old(index), index)
      ensures rest.Unknown? || failed == old(failed)
      ensures rest.Ends? ==> closed == old(closed)
      decreases |tokens| - index, 5
    {
      hide Tokens, At, WellFormed, ItemsOk, ArgTokens, MeaningAll, ListAt, Stops, Meaning;
      var op := tokens[index].text;
      if tokens[index].kind == Operator || op == "is" || op == "in" {
        index := index + 1;
        if op == "is" {
          r := ParseIs(left, if rest.Is? then Some(rest.negated) else None);
          return;
        }
        if op == "in" {
          r := ParseIn(left, if rest.In? then Some(rest.items) else None);
          return;
        }
        var right := ParseAdd(if rest.Operand? then Whole(rest.t) else Any);
        return Node(Binary(op, left, right));
      }
      r := left;
    }

    /** What follows IS. */
    method ParseIs(left: Ptr, ghost hint: Option<bool>) returns (r: Ptr)
      requires Ok()
      requires hint.Some? ==> index + 1 < |tokens| && tokens[index] == W(if hint.value then "not" else "null")
      requires hint.Some? && hint.value ==> tokens[index + 1] == W("null")
      modifies this
      ensures Ok() && index >= old(index) && parameters == old(parameters)
      ensures hint.Some? ==> r == Node(IsNull(hint.value, left)) && failed == old(failed)
      ensures hint.Some? ==> index == old(index) + if hint.value then 2 else 1
    {
      var negated := Accept("not");
      var ok := Expect("null");
      if !ok {
        return Nothing;
      }
      r := Node(IsNull(negated, left));
    }

    /**
     * The list of IN. Its closing parenthesis is expected, and then accepted once more: a non-empty list takes
     * one parenthesis too many exactly when another one follows it.
     */
    method ParseIn(left: Ptr, ghost items: Option<seq<Tree>>) returns (r: Ptr)
      requires Ok() && (items.Some? ==> ListAt(items.value, tokens, index))
      modifies this
      ensures Ok() && index >= old(index)
      ensures items.Some? ==>
                && failed == old(failed)
                && var (es, k) := MeaningAll(items.value, old(parameters));
                   r == Node(Call("in", [left] + es)) && parameters == k
      ensures items.Some? ==>
                var past := old(index) + |ArgTokens(items.value)| + 2;
                index == if items.value != [] && tokens[past].text == ")" then past + 1 else past
      decreases |tokens| - index, 12
    {
      hide At, WellFormed, Tokens, Meaning, ArgTokens, MeaningAll, Stops, Owed, ListAt, ItemsAt, GroupTokens,
           ListEnd;
      ghost var rest := if items.Some? then items.value else [];
      ghost var past := old(index) + |ArgTokens(rest)| + 2;
      ghost var meant := MeaningAll(rest, parameters);
      ghost var whole := ([left] + meant.0, meant.1);
      if items.Some? {
        OwedStart([left], rest, parameters);
        ListHints(tokens, index, rest);
      }
      var ok := Expect("(");
      if !ok {
        return Nothing;
      }
      var args := [left];
      if items.Some? {
        if rest == [] { NoneOwed(left, parameters); } else { ItemHints(tokens, index, rest); }
      }
      var end := Accept(")");
      while !end
        invariant Ok() && index > old(index)
        invariant items.Some? ==> failed == old(failed)
        invariant items.Some? && !end ==>
                    && rest != [] && ItemsAt(rest, tokens, index)
                    && Owed(args, rest, parameters, whole)
                    && index + |ArgTokens(rest)| + 1 == past
        invariant items.Some? && end ==>
                    && (args, parameters) == whole
                    && index == if items.value != [] && tokens[past].text == ")" then past + 1 else past
        decreases |tokens| - index, !end
      {
        if items.Some? {
          OwedStep(args, rest, parameters, whole);
        }
        var arg;
        ok, arg, end := ParseItem(if items.Some? then Some(rest) else None);
        if !ok {
          return Nothing;
        }
        args := args + [arg];
        rest := if items.Some? then rest[1..] else rest;
      }
      r := Node(Call("in", args));
    }

    /** One item of the list and what ends it; the last one may take a parenthesis that follows the list. */
    method ParseItem(ghost rest: Option<seq<Tree>>) returns (ok: bool, arg: Ptr, end: bool)
      requires Ok() && (rest.Some? ==> rest.value != [] && ItemsAt(rest.value, tokens, index))
      modifies this
      ensures Ok() && index >= old(index) && (ok && !end ==> index > old(index))
      ensures rest.Some? ==>
                && ok && failed == old(failed) && end == (|rest.value| == 1)
                && (arg, parameters) == (Node(Meaning(rest.value[0], old(parameters)).0), Meaning(rest.value[0], old(parameters)).1)
      ensures rest.Some? && !end ==>
                && ItemsAt(rest.value[1..], tokens, index)
                && index + |ArgTokens(rest.value[1..])| == old(index) + |ArgTokens(rest.value)|
      ensures rest.Some? && end ==>
                var past := old(index) + |ArgTokens(rest.value)| + 1;
                past < |tokens| && index == if tokens[past].text == ")" then past + 1 else past
      decreases |tokens| - index, 11
    {
      hide At, WellFormed, Tokens, Meaning, ArgTokens, MeaningAll, Stops, ItemsAt, GroupTokens,
           ListEnd;
      if rest.Some? {
        ItemHints(tokens, index, rest.value);
      }
      arg := Expression(if rest.Some? then Whole(rest.value[0]) else Any);
      if rest.Some? && |rest.value| > 1 {
        ItemHints(tokens, index + 1, rest.value[1..]);
      }
      end := false;
      var comma := Accept(",");
      if !comma {
        ok := Expect(")");
        if !ok {
          return;
        }
      }
      ok := true;
      end := Accept(")");
    }

    method ParseLike(ghost w: Want) returns (r: Ptr)
      requires Ok() && Expects(w, LIKE, tokens, index)
      modifies this
      ensures Ok() && index >= old(index)
      ensures Delivers(tokens, w, r, old(parameters), parameters, old(index), index)
      ensures Outcome(w, old(failed), failed, closed)
      decreases |tokens| - index, 6
    {
      hide Tokens, At, WellFormed, GroupTokens, ArgTokens, MeaningAll, Meaning, EndsInList, EndOf, BinaryToken;
      ghost var mine := w.Whole? && w.t.TBinary? && w.t.bop.Like?;
      if mine {
        BinaryHints(tokens, index, w.t, LIKE);
        BinaryMeaning(w.t, parameters);
      }
      LikeText();
      var left := ParseAdd(if mine then Whole(w.t.left) else w);
      if left.Node? {
        var like := Accept("like");
        if like {
          var right := ParseAdd(if mine then Whole(w.t.right) else Any);
          return Node(Binary("like", left, right));
        }
      }
      r := left;
    }

    method ParseAdd(ghost w: Want) returns (left: Ptr)
      requires Ok() && Expects(w, ADD, tokens, index)
      modifies this
      ensures Ok() && index >= old(index)
      ensures Delivers(tokens, w, left, old(parameters), parameters, old(index), index)
      ensures Outcome(w, old(failed), failed, closed)
      decreases |tokens| - index, 5
    {
      hide Tokens, At, WellFormed, GroupTokens, ArgTokens, MeaningAll, Meaning, EndsInList, EndOf, Stops, Down, Depth, ChainAt, BinaryToken;
      ghost var i, n := index, parameters;
      ghost var d: nat := if w.Whole? then Depth(w.t, ADD) else 0;
      if w.Whole? {
        ChainBegin(tokens, i, w.t, ADD);
        ChainNext(tokens, i, w.t, ADD, d);
      } else if w.Refused? {
        RefusedEnd(tokens, i, w.t);
      }
      left := ParseMul(if w.Whole? then Whole(Down(w.t, ADD, d)) else w);
      while tokens[index].text == "+" || tokens[index].text == "-"
        invariant Ok() && index >= i
        invariant Outcome(w, old(failed), failed, closed)
        invariant w.Refused? ==> Delivers(tokens, w, left, n, parameters, i, index)
        invariant w.Whole? ==>
                    && d <= Depth(w.t, ADD) && ChainAt(tokens, i, w.t, ADD, 0) && ChainAt(tokens, i, w.t, ADD, d)
                    && left == Node(Meaning(Down(w.t, ADD, d), n).0) && parameters == Meaning(Down(w.t, ADD, d), n).1
                    && index == if d == 0 then EndOf(tokens, w.t, i) else i + |Tokens(Down(w.t, ADD, d))|
        decreases |tokens| - index
      {
        var op := tokens[index].text;
        if w.Whole? {
          ChainNext(tokens, i, w.t, ADD, d);
          ChainBack(tokens, i, w.t, ADD, d, n);
          d := d - 1;
        }
        index := index + 1;
        var right := ParseMul(if w.Whole? then Whole(Down(w.t, ADD, d).right) else Any);
        left := Node(Binary(op, left, right));
      }
      if w.Whole? {
        ChainNext(tokens, i, w.t, ADD, d);
        ChainWhole(w.t, ADD);
      }
    }

    method ParseMul(ghost w: Want) returns (left: Ptr)
      requires Ok() && Expects(w, MUL, tokens, index)
      modifies this
      ensures Ok() && index >= old(index)
      ensures Delivers(tokens, w, left, old(parameters), parameters, old(index), index)
      ensures Outcome(w, old(failed), failed, closed)
      decreases |tokens| - index, 4
    {
      hide Tokens, At, WellFormed, GroupTokens, ArgTokens, MeaningAll, Meaning, EndsInList, EndOf, Stops, Down, Depth, ChainAt, BinaryToken;
      ghost var i, n := index, parameters;
      ghost var d: nat := if w.Whole? then Depth(w.t, MUL) else 0;
      if w.Whole? {
        ChainBegin(tokens, i, w.t, MUL);
        ChainNext(tokens, i, w.t, MUL, d);
      } else if w.Refused? {
        RefusedEnd(tokens, i, w.t);
      }
      left := ParseUnary(if w.Whole? then Whole(Down(w.t, MUL, d)) else w);
      while tokens[index].text == "*" || tokens[index].text == "/" || tokens[index].text == "%"
        invariant Ok() && index >= i
        invariant Outcome(w, old(failed), failed, closed)
        invariant w.Refused? ==> Delivers(tokens, w, left, n, parameters, i, index)
        invariant w.Whole? ==>
                    && d <= Depth(w.t, MUL) && ChainAt(tokens, i, w.t, MUL, 0) && ChainAt(tokens, i, w.t, MUL, d)
                    && left == Node(Meaning(Down(w.t, MUL, d), n).0) && parameters == Meaning(Down(w.t, MUL, d), n).1
                    && index == if d == 0 then EndOf(tokens, w.t, i) else i + |Tokens(Down(w.t, MUL, d))|
        decreases |tokens| - index
      {
        var op := tokens[index].text;
        if w.Whole? {
          ChainNext(tokens, i, w.t, MUL, d);
          ChainBack(tokens, i, w.t, MUL, d, n);
          d := d - 1;
        }
        index := index + 1;
        var right := ParseUnary(if w.Whole? then Whole(Down(w.t, MUL, d).right) else Any);
        left := Node(Binary(op, left, right));
      }
      if w.Whole? {
        ChainNext(tokens, i, w.t, MUL, d);
        ChainWhole(w.t, MUL);
      }
    }

    method ParseUnary(ghost w: Want) returns (r: Ptr)
      requires Ok() && Expects(w, UNARY, tokens, index)
      modifies this
      ensures Ok() && index >= old(index)
      ensures Delivers(tokens, w, r, old(parameters), parameters, old(index), index)
      ensures Outcome(w, old(failed), failed, closed)
      decreases |tokens| - index, 3
    {
      hide Tokens, At, WellFormed, GroupTokens, ArgTokens, MeaningAll, Meaning, EndsInList, EndOf, Stops;
      ghost var mine := w.Whole? && w.t.TUnary?;
      if mine {
        UnaryHints(tokens, index, w.t);
        UnaryMeaning(w.t, parameters);
      } else if w.Whole? {
        AtFirst(tokens, index, Tokens(w.t));
        FirstToken(w.t);
        StopsPrimary(tokens[EndOf(tokens, w.t, index)]);
      } else if w.Refused? {
        RefusedHints(tokens, index, w.t);
      }
      var yes := Accept("not");
      if !yes {
        yes := Accept("-");
      }
      if !yes {
        yes := Accept("+");
      }
      if yes {
        var op := tokens[index - 1].text;
        var arg := ParseUnary(if mine then Whole(w.t.arg) else Any);
        return Node(Unary(op, arg));
      }
      r := ParsePrimary(w);
    }

    method ParsePrimary(ghost w: Want) returns (r: Ptr)
      requires Ok() && Expects(w, PRIMARY, tokens, index)
      modifies this
      ensures Ok() && index >= old(index)
      ensures Delivers(tokens, w, r, old(parameters), parameters, old(index), index)
      ensures Outcome(w, old(failed), failed, closed)
      decreases |tokens| - index, 2
    {
      hide Tokens, At, WellFormed, ArgTokens, MeaningAll, Digits, Numeric, Meaning, Stops, EndsInList, EndOf, GroupTokens;
      if w.Whole? {
        AtFirst(tokens, index, Tokens(w.t));
        FirstToken(w.t);
        if w.t.TGroup? {
          GroupHints(tokens, index, w.t);
          GroupMeaning(w.t, parameters);
        }
      } else if w.Refused? {
        RefusedHints(tokens, index, w.t);
        RefusedEnd(tokens, index, w.t);
      }
      var open := Accept("(");
      if open {
        var value := Expression(if w.Whole? then Whole(w.t.inner) else if w.Refused? then Whole(w.t) else Any);
        var ok := Expect(")");
        if !ok {
          return Nothing;
        }
        return value;
      }
      r := ParseAtom(w);
    }

    /** A literal, a parameter, a column or a call. */
    method ParseAtom(ghost w: Want) returns (r: Ptr)
      requires Ok() && Expects(w, PRIMARY, tokens, index)
      requires w.Any? || (w.Whole? && !w.t.TGroup?)
      modifies this
      ensures Ok() && index >= old(index)
      ensures Delivers(tokens, w, r, old(parameters), parameters, old(index), index)
      ensures Outcome(w, old(failed), failed, closed)
      decreases |tokens| - index, 1
    {
      hide At, WellFormed, Tokens, GroupTokens, ArgTokens, MeaningAll, Digits, Numeric;
      var token := tokens[index];
      if w.Whole? {
        AtFirst(tokens, index, Tokens(w.t));
        AtomShape(w.t);
      }
      if token.kind == Number {
        index := index + 1;
        var value := Numeric(token.text);
        if value.None? {
          failed := true;
          return Nothing;
        }
        return Node(Constant(value.value));
      }
      if token.kind == Quoted {
        index := index + 1;
        return Node(Constant(LText(token.text)));
      }
      if token.kind == Parameter {
        index := index + 1;
        parameters := parameters + 1;
        return Node(Bound(parameters - 1));
      }
      if token.kind == Word {
        r := ParseWord(w);
        return;
      }
      failed := true;
      r := Nothing;
    }

    /** A name of one or two parts. */
    method ParseName(ghost hint: Option<Name>) returns (name: string)
      requires Ok() && tokens[index].kind == Word
      requires hint.Some? ==> NameAt(hint.value, tokens, index)
      modifies this
      ensures Ok() && index > old(index) && parameters == old(parameters)
      ensures hint.Some? ==>
                name == NameText(hint.value) && index == old(index) + |NameTokens(hint.value)| && failed == old(failed)
      ensures !closed
    {
      name := Identifier();
      var dot := Accept(".");
      if dot {
        var second := Identifier();
        name := name + "." + second;
      }
    }

    /** A literal keyword, a column, or a call. */
    method ParseWord(ghost w: Want) returns (r: Ptr)
      requires Ok() && Expects(w, PRIMARY, tokens, index) && tokens[index].kind == Word
      requires w.Whole? ==> !w.t.TGroup?
      requires w.Any? || w.Whole?
      modifies this
      ensures Ok() && index > old(index)
      ensures Delivers(tokens, w, r, old(parameters), parameters, old(index), index)
      ensures Outcome(w, old(failed), failed, closed)
      decreases |tokens| - index, 0
    {
      hide At, WellFormed, Tokens, NameTokens, NameText, ArgTokens, MeaningAll, Numeric;
      ghost var hint := if w.Whole? then NameOf(w.t) else None;
      if w.Whole? {
        AtFirst(tokens, index, Tokens(w.t));
        WordShape(tokens, index, w.t);
      }
      var text := tokens[index].text;
      if text == "null" || text == "true" || text == "false" {
        index := index + 1;
        return Node(Constant(if text == "null" then LNull else LBoolean(text == "true")));
      }
      var name := ParseName(hint);
      var open := Accept("(");
      if open {
        var ok, args := ParseArgs(if w.Whole? then Some(w.t.args) else None);
        if !ok {
          return Nothing;
        }
        return Node(Call(name, args));
      }
      r := Node(Column(name));
    }

    method ParseArgs(ghost all: Option<seq<Tree>>) returns (ok: bool, args: seq<Ptr>)
      requires Ok() && !closed
      requires all.Some? ==> ArgsAt(all.value, tokens, index) && (all.value != [] ==> FirstText(all.value[0]) != ")")
      modifies this
      ensures Ok() && index >= old(index)
      ensures all.Some? ==>
                && ok && (args, parameters) == MeaningAll(all.value, old(parameters))
                && index == old(index) + |ArgTokens(all.value)| + 1 && failed == old(failed)
      decreases |tokens| - index, 11
    {
      hide At, WellFormed, Tokens, Meaning, ArgTokens, Stops, Owed, FirstText, GroupTokens, ListEnd,
           SeqAt, ItemsOk;
      args := [];
      ghost var rest := if all.Some? then all.value else [];
      ghost var whole := MeaningAll(rest, parameters);
      ghost var past := index + |ArgTokens(rest)| + 1;
      if all.Some? {
        if rest == [] { NoArgs(tokens, index); } else { ArgHints(tokens, index, rest); }
        OwedStart([], rest, parameters);
        assert [] + whole.0 == whole.0;
      }
      var empty := Accept(")");
      if empty {
        return true, args;
      }
      while true
        invariant Ok() && index >= old(index)
        invariant all.Some? ==>
                    && rest != [] && ArgsAt(rest, tokens, index) && failed == old(failed)
                    && Owed(args, rest, parameters, whole) && index + |ArgTokens(rest)| + 1 == past
        decreases |tokens| - index
      {
        if all.Some? {
          ArgHints(tokens, index, rest);
          OwedStep(args, rest, parameters, whole);
        }
        var star := Accept("*");
        if star {
          args := args + [Node(Column("*"))];
          if all.Some? { StarMeaning(parameters); }
        } else {
          var e := Expression(if all.Some? then Whole(rest[0]) else Any);
          args := args + [e];
        }
        var close := Accept(")");
        if close {
          return true, args;
        }
        var comma := Expect(",");
        if !comma {
          return false, args;
        }
        if all.Some? {
          rest := rest[1..];
        }
      }
    }
  }

  lemma CompareHints(tokens: seq<Token>, i: nat, w: Want)
    requires Expects(w, COMPARE, tokens, i)
    ensures Expects(LeftOf(w), LIKE, tokens, i)
  {
    hide Tokens, At, WellFormed, GroupTokens, ItemsOk, ArgTokens, EndsInList;
    if w.Whole? && w.t.TBinary? && w.t.bop.Comparison? {
      BinaryHints(tokens, i, w.t, COMPARE);
    } else if w.Whole? && w.t.TIsNull? {
      IsNullHints(tokens, i, w.t, COMPARE);
    } else if w.Whole? && w.t.TIn? {
      InHints(tokens, i, w.t, COMPARE);
    }
  }

  lemma OnlyRefusedFail(tokens: seq<Token>, w: Want, left: Ptr, n: nat, m: nat, i: nat, j: nat)
    requires Delivers(tokens, LeftOf(w), left, n, m, i, j) && left.Nothing?
    ensures !w.Whole? && Delivers(tokens, w, Nothing, n, m, i, j)
  {
    hide Tokens, GroupTokens, Meaning, EndOf;
  }

  lemma CompareMiddle(tokens: seq<Token>, w: Want, left: Ptr, n: nat, m: nat, i: nat, j: nat)
    requires Expects(w, COMPARE, tokens, i) && Delivers(tokens, LeftOf(w), left, n, m, i, j) && left.Node? && j < |tokens|
    ensures RestAt(RestOf(w), tokens, j)
  {
    hide Tokens, At, WellFormed, GroupTokens, ItemsOk, ArgTokens, ListAt, Meaning, EndsInList;
    if w.Whole? && w.t.TBinary? && w.t.bop.Comparison? {
      BinaryHints(tokens, i, w.t, COMPARE);
      ComparisonText(w.t);
    } else if w.Whole? && w.t.TIsNull? {
      IsNullHints(tokens, i, w.t, COMPARE);
    } else if w.Whole? && w.t.TIn? {
      InHints(tokens, i, w.t, COMPARE);
    }
  }

  lemma CompareDone(tokens: seq<Token>, w: Want, left: Ptr, r: Ptr, n: nat, m: nat, n': nat, i: nat, j: nat, i': nat)
    requires Expects(w, COMPARE, tokens, i) && Delivers(tokens, LeftOf(w), left, n, m, i, j) && left.Node?
    requires RestDone(RestOf(w), tokens, left, r, m, n', j, i')
    ensures Delivers(tokens, w, r, n, n', i, i')
  {
    hide Tokens, At, WellFormed, GroupTokens, ItemsOk, ArgTokens, ListAt, MeaningAll, EndsInList, EndOf, Stops;
    if w.Whole? && w.t.TBinary? && w.t.bop.Comparison? {
      BinaryHints(tokens, i, w.t, COMPARE);
    } else if w.Whole? && w.t.TIsNull? {
      IsNullHints(tokens, i, w.t, COMPARE);
    } else if w.Whole? && w.t.TIn? {
      InHints(tokens, i, w.t, COMPARE);
    }
  }

  lemma LikeText()
    ensures BinaryToken(Like) == W("like") && BinaryText(Like) == "like"
  {
  }

  lemma StopsPrimary(t: Token)
    requires Stops(UNARY, t)
    ensures Stops(PRIMARY, t)
  {
  }

  lemma GroupMeaning(t: Tree, n: nat)
    requires t.TGroup?
    ensures Meaning(t, n) == Meaning(t.inner, n)
  {
  }

  lemma StarMeaning(n: nat)
    ensures Meaning(TStar, n) == (Column("*"), n)
  {
  }

  lemma BinaryMeaning(t: Tree, n: nat)
    requires t.TBinary?
    ensures var (e, m) := Meaning(t.left, n);
            var (f, k) := Meaning(t.right, m);
            Meaning(t, n) == (Binary(BinaryText(t.bop), Node(e), Node(f)), k)
  {
  }

  lemma UnaryMeaning(t: Tree, n: nat)
    requires t.TUnary?
    ensures var (e, m) := Meaning(t.arg, n); Meaning(t, n) == (Unary(UnaryText(t.uop), Node(e)), m)
  {
  }

  lemma ComparisonText(t: Tree)
    requires t.TBinary? && t.bop.Comparison? && WellFormed(t)
    ensures BinaryToken(t.bop).text !in ["is", "in"]
  {
  }

  lemma AtomShape(t: Tree)
    requires WellFormed(t) && Level(t) == PRIMARY && !t.TGroup?
    ensures match t
            case TNull => Tokens(t) == [W("null")]
            case TBoolean(b) => Tokens(t) == [W(if b then "true" else "false")]
            case TNumber(n) => Tokens(t) == [Token(Number, n)] && Numeric(n).Some?
            case TText(x) => Tokens(t) == [Token(Quoted, x)]
            case TParameter => Tokens(t) == [Token(Parameter, "?")]
            case TColumn(n) => Tokens(t) == NameTokens(n) && NameOk(n)
            case TCall(f, args) =>
              Tokens(t) == NameTokens(f) + ([P("(")] + (ArgTokens(args) + [P(")")])) && NameOk(f)
            case _ => false
  {
  }

  ghost function NameOf(t: Tree): Option<Name> {
    if t.TColumn? then Some(t.column) else if t.TCall? then Some(t.function_) else None
  }

  /** A name written here, and no dot behind its one or two parts. */
  ghost predicate NameAt(n: Name, tokens: seq<Token>, i: nat) {
    && i + |NameTokens(n)| < |tokens| && tokens[i] == NameTokens(n)[0]
    && (n.Dotted? ==> tokens[i + 1] == P(".") && tokens[i + 2] == W(n.name))
    && tokens[i + |NameTokens(n)|].text != "."
  }

  lemma ColumnHints(tokens: seq<Token>, i: nat, t: Tree)
    requires t.TColumn? && Expects(Whole(t), PRIMARY, tokens, i)
    ensures var j := i + |NameTokens(t.column)|;
            NameAt(t.column, tokens, i) && tokens[j].text != "(" && |Tokens(t)| == |NameTokens(t.column)|
  {
    hide At, WellFormed;
    AtomShape(t);
    assert NameTokens(t.column) + [] == NameTokens(t.column);
    NameHints(tokens, i, t.column, []);
  }

  lemma CallHints(tokens: seq<Token>, i: nat, t: Tree)
    requires t.TCall? && WellFormed(t) && At(tokens, i, Tokens(t))
    ensures var j := i + |NameTokens(t.function_)|;
            && NameAt(t.function_, tokens, i) && tokens[j] == P("(") && ArgsAt(t.args, tokens, j + 1)
            && (t.args != [] ==> FirstText(t.args[0]) != ")")
            && |Tokens(t)| == |NameTokens(t.function_)| + |ArgTokens(t.args)| + 2
  {
    hide At, ArgTokens, Tokens;
    AtomShape(t);
    var rest := ArgTokens(t.args) + [P(")")];
    NameHints(tokens, i, t.function_, [P("(")] + rest);
    AtParts(tokens, i + |NameTokens(t.function_)|, [P("(")], rest);
  }

  /** An operand that starts with a word is a literal keyword, a column or a call. */
  lemma WordShape(tokens: seq<Token>, i: nat, t: Tree)
    requires Expects(Whole(t), PRIMARY, tokens, i) && !t.TGroup? && tokens[i].kind == Word
    ensures t.TNull? || t.TBoolean? || NameOf(t).Some?
    ensures t.TNull? <==> tokens[i].text == "null"
    ensures t.TBoolean? <==> tokens[i].text in ["true", "false"]
    ensures t.TBoolean? ==> t.truth == (tokens[i].text == "true")
    ensures NameOf(t).None? ==> |Tokens(t)| == 1
    ensures NameOf(t).Some? ==>
            var n := NameOf(t).value;
            var j := i + |NameTokens(n)|;
            && NameAt(n, tokens, i)
            && (t.TColumn? ==> tokens[j].text != "(" && |Tokens(t)| == |NameTokens(n)|)
            && (t.TCall? ==>
                  && tokens[j] == P("(") && ArgsAt(t.args, tokens, j + 1)
                  && (t.args != [] ==> FirstText(t.args[0]) != ")")
                  && |Tokens(t)| == |NameTokens(n)| + |ArgTokens(t.args)| + 2)
  {
    hide At, Stops, ArgTokens, ArgsAt, Tokens, WellFormed, NameAt, FirstText, Numeric, Digits;
    AtFirst(tokens, i, Tokens(t));
    AtomShape(t);
    if t.TColumn? {
      ColumnHints(tokens, i, t);
    } else if t.TCall? {
      CallHints(tokens, i, t);
    }
  }
}
