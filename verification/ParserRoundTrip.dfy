/** What the expression parser makes of a written-out tree, and how it numbers the parameters. */
module ParserRoundTrip {
  import opened OrderedMap
  import opened Syntax
  import Parsing = Parser

  // ---- Parameters of a parsed expression, from left to right ----

  function Bounds(e: Expr): seq<nat>
    decreases e, 1
  {
    match e
    case Constant(_) => []
    case Column(_) => []
    case Bound(i) => [i]
    case Unary(_, a) => BoundsOf(a)
    case Binary(_, l, r) => BoundsOf(l) + BoundsOf(r)
    case IsNull(_, a) => BoundsOf(a)
    case Call(_, args) => BoundsAll(args)
  }

  function BoundsOf(p: Ptr): seq<nat>
    decreases p, 0
  {
    if p.Nothing? then [] else Bounds(p.e)
  }

  function BoundsAll(ps: seq<Ptr>): seq<nat>
    decreases ps, 0
  {
    if ps == [] then [] else BoundsOf(ps[0]) + BoundsAll(ps[1..])
  }

  /** The numbers n, n + 1, ..., m - 1. */
  function Upto(n: nat, m: nat): seq<nat>
    requires n <= m
  {
    seq(m - n, i requires 0 <= i => n + i)
  }

  lemma UptoJoin(n: nat, m: nat, k: nat)
    requires n <= m <= k
    ensures Upto(n, m) + Upto(m, k) == Upto(n, k)
  {
  }

  /** How many parameter tokens a token list holds. */
  function Marks(ts: seq<Token>): nat {
    if ts == [] then 0 else Marks(ts[..|ts| - 1]) + if ts[|ts| - 1].kind == Parameter then 1 else 0
  }

  lemma {:induction false} MarksJoin(a: seq<Token>, b: seq<Token>)
    ensures Marks(a + b) == Marks(a) + Marks(b)
    decreases b
  {
    if b == [] {
      assert a + b == a;
    } else {
      var front := b[..|b| - 1];
      assert (a + b)[..|a + b| - 1] == a + front;
      MarksJoin(a, front);
    }
  }

  lemma NoMarks(ts: seq<Token>)
    requires |ts| <= 3 && forall t :: t in ts ==> t.kind != Parameter
    ensures Marks(ts) == 0
  {
    if ts != [] {
      assert ts[|ts| - 1] in ts;
      NoMarks(ts[..|ts| - 1]);
    }
  }

  predicate NumberedFrom(e: Expr, n: nat, m: nat) {
    n <= m && Bounds(e) == Upto(n, m)
  }

  /** Reading a parsed expression from left to right, its parameters are n, n + 1, ... with none skipped. */
  lemma {:induction false} ParametersInOrder(t: Tree, n: nat)
    ensures NumberedFrom(Meaning(t, n).0, n, Meaning(t, n).1)
    decreases t, 1
  {
    match t
    case TUnary(_, a) => ParametersInOrder(a, n);
    case TIsNull(_, a) => ParametersInOrder(a, n);
    case TBinary(_, l, r) =>
      var m := Meaning(l, n).1;
      ParametersInOrder(l, n);
      ParametersInOrder(r, m);
      UptoJoin(n, m, Meaning(r, m).1);
    case TCall(_, args) => AllParametersInOrder(args, n);
    case TGroup(a) => ParametersInOrder(a, n);
    case TIn(a, items) =>
      var (e, m) := Meaning(a, n);
      var (es, k) := MeaningAll(items, m);
      ParametersInOrder(a, n);
      AllParametersInOrder(items, m);
      UptoJoin(n, m, k);
      assert ([Node(e)] + es)[1..] == es && ([Node(e)] + es)[0] == Node(e);
      assert BoundsAll([Node(e)] + es) == BoundsOf(Node(e)) + BoundsAll(es);
    case _ =>
  }

  lemma {:induction false} AllParametersInOrder(args: seq<Tree>, n: nat)
    ensures n <= MeaningAll(args, n).1 && BoundsAll(MeaningAll(args, n).0) == Upto(n, MeaningAll(args, n).1)
    decreases args, 0
  {
    if args != [] {
      var (e, m) := Meaning(args[0], n);
      var (es, k) := MeaningAll(args[1..], m);
      ParametersInOrder(args[0], n);
      AllParametersInOrder(args[1..], m);
      UptoJoin(n, m, k);
      assert ([Node(e)] + es)[1..] == es;
    }
  }

  lemma NameMarks(n: Name)
    ensures Marks(NameTokens(n)) == 0
  {
    NoMarks(NameTokens(n));
  }

  /** As many numbers are used as the written tree has parameter tokens. */
  lemma {:induction false} OneNumberPerMark(t: Tree, n: nat)
    ensures Meaning(t, n).1 == n + Marks(Tokens(t))
    decreases t, 1
  {
    hide Marks;
    match t
    case TCall(f, args) =>
      NameMarks(f);
      CallMarks(NameTokens(f), ArgTokens(args));
      AllNumbers(args, n);
    case TColumn(c) => NameMarks(c);
    case TUnary(op, a) =>
      OneNumberPerMark(a, n);
      MarksJoin([UnaryToken(op)], Tokens(a));
      NoMarks([UnaryToken(op)]);
    case TBinary(op, l, r) =>
      OneNumberPerMark(l, n);
      OneNumberPerMark(r, Meaning(l, n).1);
      MarksJoin(Tokens(l), [BinaryToken(op)] + Tokens(r));
      MarksJoin([BinaryToken(op)], Tokens(r));
      NoMarks([BinaryToken(op)]);
    case TIsNull(neg, a) =>
      OneNumberPerMark(a, n);
      MarksJoin(Tokens(a), NullTest(neg));
      NoMarks(NullTest(neg));
    case TIn(a, items) =>
      OneNumberPerMark(a, n);
      AllNumbers(items, Meaning(a, n).1);
      MarksJoin(Tokens(a), [W("in")] + ([P("(")] + (ArgTokens(items) + [P(")")])));
      CallMarks([W("in")], ArgTokens(items));
      NoMarks([W("in")]);
    case TGroup(a) =>
      OneNumberPerMark(a, n);
      CallMarks([], Tokens(a));
      EmptyFirst([P("(")] + (Tokens(a) + [P(")")]));
    case TParameter => OneMark();
    case _ => NoMarks(Tokens(t));
  }

  lemma OneMark()
    ensures Marks([Token(Parameter, "?")]) == 1
  {
    assert [Token(Parameter, "?")][..0] == [];
  }

  lemma CallMarks(f: seq<Token>, args: seq<Token>)
    ensures Marks(f + ([P("(")] + (args + [P(")")]))) == Marks(f) + Marks(args)
  {
    MarksJoin(f, [P("(")] + (args + [P(")")]));
    MarksJoin([P("(")], args + [P(")")]);
    MarksJoin(args, [P(")")]);
    NoMarks([P("(")]);
    NoMarks([P(")")]);
  }

  lemma EmptyFirst(ts: seq<Token>)
    ensures [] + ts == ts && Marks([]) == 0
  {
  }

  lemma {:induction false} AllNumbers(args: seq<Tree>, n: nat)
    ensures MeaningAll(args, n).1 == n + Marks(ArgTokens(args))
    decreases args, 0
  {
    if args != [] {
      OneNumberPerMark(args[0], n);
      var m := Meaning(args[0], n).1;
      AllNumbers(args[1..], m);
      if |args| > 1 {
        var more := ArgTokens(args[1..]);
        MarksJoin(Tokens(args[0]), [P(",")] + more);
        MarksJoin([P(",")], more);
        NoMarks([P(",")]);
      }
    }
  }

  // ---- The parser on whole inputs ----

  /**
   * A written tree comes back: the parser stops right behind its tokens, has counted its parameters, and owes no
   * parenthesis. Parentheses may stand wherever the tree has a group, needed or not.
   */
  method ParseWritten(t: Tree, following: seq<Token>) returns (p: Parsing.Parser, r: Ptr)
    requires WellFormed(t)
    requires Parsing.TokensOk(following) && Parsing.Stops(OR, following[0]) && (EndsInList(t) ==> following[0].text != ")")
    ensures r == Node(Meaning(t, 0).0)
    ensures p.tokens == Tokens(t) + following && p.index == |Tokens(t)| && !p.closed && !p.failed
    ensures p.parameters == Marks(Tokens(t)) && Bounds(r.e) == Upto(0, p.parameters)
  {
    hide Tokens, WellFormed, Meaning, Bounds, Marks, Parsing.Stops, EndsInList;
    var tokens := Tokens(t) + following;
    assert tokens[|tokens| - 1] == following[|following| - 1];
    assert tokens[0..|Tokens(t)|] == Tokens(t) && tokens[|Tokens(t)|] == following[0];
    p := new Parsing.Parser(tokens);
    assert Level(t) >= OR;
    r := p.Expression(Parsing.Whole(t));
    ParametersInOrder(t, 0);
    OneNumberPerMark(t, 0);
  }

  /**
   * A tree in parentheses comes back exactly when it does not end in an IN list: otherwise the list takes the outer
   * parenthesis, and the whole expression is refused.
   */
  method ParseGroup(t: Tree, following: seq<Token>) returns (p: Parsing.Parser, r: Ptr)
    requires WellFormed(t)
    requires Parsing.TokensOk(following) && Parsing.Stops(OR, following[0]) && following[0].text != ")"
    ensures p.tokens == Tokens(TGroup(t)) + following && p.index == |Tokens(TGroup(t))|
    ensures p.failed <==> EndsInList(t)
    ensures r == if EndsInList(t) then Nothing else Node(Meaning(t, 0).0)
  {
    if EndsInList(t) {
      assert Tokens(TGroup(t)) == Parsing.GroupTokens(t);
      hide Parsing.GroupTokens, WellFormed, Parsing.Stops, Tokens, EndsInList;
      var tokens := Parsing.GroupTokens(t) + following;
      ghost var n := |Parsing.GroupTokens(t)|;
      assert tokens[|tokens| - 1] == following[|following| - 1];
      assert tokens[0..n] == Parsing.GroupTokens(t) && tokens[n] == following[0];
      p := new Parsing.Parser(tokens);
      r := p.Expression(Parsing.Refused(t));
    } else {
      assert WellFormed(TGroup(t)) && Meaning(TGroup(t), 0) == Meaning(t, 0) && !EndsInList(TGroup(t));
      hide WellFormed, Tokens, Meaning, Parsing.Stops, EndsInList;
      p, r := ParseWritten(TGroup(t), following);
    }
  }

  /** Whatever the tokens are, parsing ends at a place inside them. */
  method ParseAnything(tokens: seq<Token>) returns (p: Parsing.Parser, r: Ptr)
    requires Parsing.TokensOk(tokens)
    ensures p.tokens == tokens && p.index < |tokens|
  {
    p := new Parsing.Parser(tokens);
    r := p.Expression(Parsing.Any);
  }

  // ---- Writers ----

  /** Parentheses around an operand that binds looser than its place asks for. */
  function Place(t: Tree, level: nat): Tree {
    if Level(t) >= level then t else TGroup(t)
  }

  /** With full, around every operand that is not a single one; without, only where they are needed. */
  function Needed(level: nat, full: bool): nat {
    if full then PRIMARY else level
  }

  function Write(t: Tree, full: bool): Tree
    decreases t, 1
  {
    match t
    case TUnary(op, a) => TUnary(op, Place(Write(a, full), Needed(UNARY, full)))
    case TBinary(op, l, r) =>
      TBinary(op, Place(Write(l, full), Needed(LeftLevel(op), full)), Place(Write(r, full), Needed(RightLevel(op), full)))
    case TIsNull(neg, a) => TIsNull(neg, Place(Write(a, full), Needed(LIKE, full)))
    case TCall(f, args) => TCall(f, WriteAll(args, full))
    case _ => t
  }

  function WriteAll(args: seq<Tree>, full: bool): (ts: seq<Tree>)
    ensures |ts| == |args|
    ensures forall i :: 0 <= i < |args| ==> ts[i] == Write(args[i], full)
    decreases args, 0
  {
    if args == [] then [] else [Write(args[0], full)] + WriteAll(args[1..], full)
  }

  /** A tree without groups and IN tests, whose names and strings are not spelled like what the parser takes there. */
  predicate Spelled(t: Tree, full: bool)
    decreases t
  {
    match t
    case TNumber(n) => Numeric(n).Some? && !Reserved(n)
    case TText(s) => !Reserved(s)
    case TColumn(n) => NameOk(n)
    case TUnary(_, a) => Spelled(a, full)
    case TBinary(op, l, r) => OpOk(op) && Spelled(l, full) && Spelled(r, full)
    case TIsNull(_, a) => Spelled(a, full)
    case TCall(f, args) =>
      && NameOk(f) && (args != [] ==> FirstText(Write(args[0], full)) != ")")
      && forall a :: a in args ==> a.TStar? || (Spelled(a, full) && FirstText(Write(a, full)) != "*")
    case TStar => false
    case TIn(_, _) => false
    case TGroup(_) => false
    case _ => true
  }

  lemma PlaceIsWellFormed(t: Tree, level: nat)
    requires WellFormed(t) && !EndsInList(t) && level <= PRIMARY
    ensures WellFormed(Place(t, level)) && Level(Place(t, level)) >= level && !EndsInList(Place(t, level))
  {
  }

  lemma PlaceMeaning(t: Tree, level: nat, n: nat)
    ensures Meaning(Place(t, level), n) == Meaning(t, n)
  {
  }

  lemma CallIsWellFormed(f: Name, args: seq<Tree>)
    requires NameOk(f) && (args != [] ==> FirstText(args[0]) != ")")
    requires forall i :: 0 <= i < |args| ==> !EndsInList(args[i])
    requires forall i :: 0 <= i < |args| ==> args[i].TStar? || (WellFormed(args[i]) && FirstText(args[i]) != "*")
    ensures WellFormed(TCall(f, args))
  {
    hide FirstText, EndsInList;
  }

  lemma SpelledArgs(t: Tree, full: bool)
    requires t.TCall? && Spelled(t, full)
    ensures NameOk(t.function_) && (t.args != [] ==> FirstText(Write(t.args[0], full)) != ")")
    ensures forall i :: 0 <= i < |t.args| ==>
              t.args[i].TStar? || (Spelled(t.args[i], full) && FirstText(Write(t.args[i], full)) != "*")
    ensures Write(t, full) == TCall(t.function_, WriteAll(t.args, full))
  {
    hide FirstText, NameOk;
  }

  /** Either way of writing a tree gives one that comes back. */
  lemma {:induction false} WriteIsWellFormed(t: Tree, full: bool)
    requires Spelled(t, full)
    ensures WellFormed(Write(t, full)) && Level(Write(t, full)) == Level(t) && !EndsInList(Write(t, full))
    decreases t, 1
  {
    hide Place, FirstText, Tokens, Numeric;
    match t
    case TUnary(op, a) =>
      WriteIsWellFormed(a, full);
      PlaceIsWellFormed(Write(a, full), Needed(UNARY, full));
    case TBinary(op, l, r) =>
      WriteIsWellFormed(l, full);
      WriteIsWellFormed(r, full);
      BinaryIsWellFormed(op, Write(l, full), Write(r, full), full);
    case TIsNull(_, a) =>
      WriteIsWellFormed(a, full);
      PlaceIsWellFormed(Write(a, full), Needed(LIKE, full));
    case TCall(f, args) => WriteCallIsWellFormed(t, full);
    case _ =>
  }

  lemma BinaryIsWellFormed(op: BinaryOp, l: Tree, r: Tree, full: bool)
    requires OpOk(op) && WellFormed(l) && WellFormed(r) && !EndsInList(l) && !EndsInList(r)
    ensures var t := TBinary(op, Place(l, Needed(LeftLevel(op), full)), Place(r, Needed(RightLevel(op), full)));
            WellFormed(t) && !EndsInList(t)
  {
    hide Place;
    PlaceIsWellFormed(l, Needed(LeftLevel(op), full));
    PlaceIsWellFormed(r, Needed(RightLevel(op), full));
  }

  lemma {:induction false} WriteCallIsWellFormed(t: Tree, full: bool)
    requires t.TCall? && Spelled(t, full)
    ensures WellFormed(Write(t, full)) && Level(Write(t, full)) == Level(t) && !EndsInList(Write(t, full))
    decreases t, 0
  {
    hide WellFormed, Spelled, FirstText, Write;
    SpelledArgs(t, full);
    var args := WriteAll(t.args, full);
    forall i | 0 <= i < |args|
      ensures args[i].TStar? || (WellFormed(args[i]) && FirstText(args[i]) != "*")
      ensures !EndsInList(args[i])
    {
      if t.args[i].TStar? {
        WriteStar(full);
      } else {
        WriteIsWellFormed(t.args[i], full);
      }
    }
    CallIsWellFormed(t.function_, args);
  }

  lemma WriteStar(full: bool)
    ensures Write(TStar, full) == TStar
  {
  }

  /** Parentheses change nothing in what a tree means. */
  lemma {:induction false} WriteKeepsMeaning(t: Tree, full: bool, n: nat)
    ensures Meaning(Write(t, full), n) == Meaning(t, n)
    decreases t, 1
  {
    hide Place, Numeric;
    match t
    case TUnary(op, a) =>
      WriteKeepsMeaning(a, full, n);
      PlaceMeaning(Write(a, full), Needed(UNARY, full), n);
    case TBinary(op, l, r) =>
      WriteKeepsMeaning(l, full, n);
      WriteKeepsMeaning(r, full, Meaning(l, n).1);
      PlaceMeaning(Write(l, full), Needed(LeftLevel(op), full), n);
      PlaceMeaning(Write(r, full), Needed(RightLevel(op), full), Meaning(l, n).1);
    case TIsNull(_, a) =>
      WriteKeepsMeaning(a, full, n);
      PlaceMeaning(Write(a, full), Needed(LIKE, full), n);
    case TCall(_, args) => WriteAllKeepsMeaning(args, full, n);
    case _ =>
  }

  lemma {:induction false} WriteAllKeepsMeaning(args: seq<Tree>, full: bool, n: nat)
    ensures MeaningAll(WriteAll(args, full), n) == MeaningAll(args, n)
    decreases args, 0
  {
    if args != [] {
      WriteKeepsMeaning(args[0], full, n);
      WriteAllKeepsMeaning(args[1..], full, Meaning(args[0], n).1);
      assert WriteAll(args, full)[1..] == WriteAll(args[1..], full);
    }
  }

  /**
   * Every tree comes back from its tokens with parentheses only where an operand binds looser than its place, and from
   * those with parentheses around every operand: precedence and association are those of the levels.
   */
  method ParseTree(t: Tree, full: bool, following: seq<Token>) returns (p: Parsing.Parser, r: Ptr)
    requires Spelled(t, full) && Parsing.TokensOk(following) && Parsing.Stops(OR, following[0])
    ensures p.tokens == Tokens(Write(t, full)) + following
    ensures r == Node(Meaning(t, 0).0) && p.index == |Tokens(Write(t, full))| && !p.closed && !p.failed
  {
    hide Tokens, WellFormed, Meaning, Spelled, Write, Parsing.Stops, EndsInList, Bounds, Marks;
    WriteIsWellFormed(t, full);
    WriteKeepsMeaning(t, full, 0);
    p, r := ParseWritten(Write(t, full), following);
  }

  // ---- How some expressions are read ----

  function Col(name: string): Tree {
    TColumn(Plain(name))
  }

  lemma EndStops()
    ensures Parsing.TokensOk([Token(End, "")]) && Parsing.Stops(OR, Token(End, ""))
  {
  }

  lemma ColumnIs(name: string, n: nat)
    requires NameOk(Plain(name))
    ensures Tokens(Col(name)) == [W(name)] && WellFormed(Col(name)) && !EndsInList(Col(name)) && Level(Col(name)) == PRIMARY
    ensures Meaning(Col(name), n) == (Column(name), n)
  {
  }

  lemma BinaryIs(op: BinaryOp, l: Tree, r: Tree, n: nat)
    requires OpOk(op) && WellFormed(l) && WellFormed(r) && Level(l) >= LeftLevel(op) && Level(r) >= RightLevel(op)
    ensures var t := TBinary(op, l, r);
            && Tokens(t) == Tokens(l) + ([BinaryToken(op)] + Tokens(r)) && WellFormed(t) && EndsInList(t) == EndsInList(r)
            && var (e, m) := Meaning(l, n);
               var (f, k) := Meaning(r, m);
               Meaning(t, n) == (Binary(BinaryText(op), Node(e), Node(f)), k)
  {
  }

  /** a and b or c: AND binds tighter than OR. */
  method AndBeforeOr(a: string, b: string, c: string) returns (p: Parsing.Parser, r: Ptr)
    requires NameOk(Plain(a)) && NameOk(Plain(b)) && NameOk(Plain(c))
    ensures p.tokens == [W(a), W("and"), W(b), W("or"), W(c), Token(End, "")]
    ensures r == Node(Binary("or", Node(Binary("and", Node(Column(a)), Node(Column(b)))), Node(Column(c))))
  {
    hide Tokens, WellFormed, EndsInList, Marks, Bounds, Meaning, NameOk, Parsing.Stops, Parsing.TokensOk;
    EndStops();
    ColumnIs(a, 0);
    ColumnIs(b, 0);
    ColumnIs(c, 0);
    BinaryIs(And, Col(a), Col(b), 0);
    BinaryIs(Or, TBinary(And, Col(a), Col(b)), Col(c), 0);
    p, r := ParseWritten(TBinary(Or, TBinary(And, Col(a), Col(b)), Col(c)), [Token(End, "")]);
  }

  /** a - b - c: sums, and likewise products, go from left to right. */
  method SumsToTheLeft(a: string, b: string, c: string, op: string, op': string) returns (p: Parsing.Parser, r: Ptr)
    requires NameOk(Plain(a)) && NameOk(Plain(b)) && NameOk(Plain(c)) && OpOk(Additive(op)) && OpOk(Additive(op'))
    ensures p.tokens == [W(a), O(op), W(b), O(op'), W(c), Token(End, "")]
    ensures r == Node(Binary(op', Node(Binary(op, Node(Column(a)), Node(Column(b)))), Node(Column(c))))
  {
    hide Tokens, WellFormed, EndsInList, Marks, Bounds, Meaning, NameOk, OpOk, Parsing.Stops, Parsing.TokensOk;
    EndStops();
    ColumnIs(a, 0);
    ColumnIs(b, 0);
    ColumnIs(c, 0);
    BinaryIs(Additive(op), Col(a), Col(b), 0);
    BinaryIs(Additive(op'), TBinary(Additive(op), Col(a), Col(b)), Col(c), 0);
    p, r := ParseWritten(TBinary(Additive(op'), TBinary(Additive(op), Col(a), Col(b)), Col(c)), [Token(End, "")]);
  }

  /** a + b * c: products bind tighter than sums. */
  method TimesBeforePlus(a: string, b: string, c: string, op: string, op': string) returns (p: Parsing.Parser, r: Ptr)
    requires NameOk(Plain(a)) && NameOk(Plain(b)) && NameOk(Plain(c)) && OpOk(Additive(op)) && OpOk(Multiplicative(op'))
    ensures p.tokens == [W(a), O(op), W(b), O(op'), W(c), Token(End, "")]
    ensures r == Node(Binary(op, Node(Column(a)), Node(Binary(op', Node(Column(b)), Node(Column(c))))))
  {
    hide Tokens, WellFormed, EndsInList, Marks, Bounds, Meaning, NameOk, OpOk, Parsing.Stops, Parsing.TokensOk;
    EndStops();
    ColumnIs(a, 0);
    ColumnIs(b, 0);
    ColumnIs(c, 0);
    BinaryIs(Multiplicative(op'), Col(b), Col(c), 0);
    BinaryIs(Additive(op), Col(a), TBinary(Multiplicative(op'), Col(b), Col(c)), 0);
    p, r := ParseWritten(TBinary(Additive(op), Col(a), TBinary(Multiplicative(op'), Col(b), Col(c))), [Token(End, "")]);
  }

  lemma NotIs(name: string, n: nat)
    requires NameOk(Plain(name))
    ensures var t := TUnary(Not, Col(name));
            && Tokens(t) == [W("not"), W(name)] && WellFormed(t) && !EndsInList(t) && Level(t) == UNARY
            && Meaning(t, n) == (Unary("not", Node(Column(name))), n)
  {
  }

  /** not a = b: NOT binds tighter than a comparison. */
  method NotBeforeEquals(a: string, b: string) returns (p: Parsing.Parser, r: Ptr)
    requires NameOk(Plain(a)) && NameOk(Plain(b))
    ensures p.tokens == [W("not"), W(a), O("="), W(b), Token(End, "")]
    ensures r == Node(Binary("=", Node(Unary("not", Node(Column(a)))), Node(Column(b))))
  {
    assert OpOk(Comparison("="));
    hide Tokens, WellFormed, EndsInList, Marks, Bounds, Meaning, NameOk, OpOk, Parsing.Stops, Parsing.TokensOk;
    EndStops();
    NotIs(a, 0);
    ColumnIs(b, 0);
    BinaryIs(Comparison("="), TUnary(Not, Col(a)), Col(b), 0);
    p, r := ParseWritten(TBinary(Comparison("="), TUnary(Not, Col(a)), Col(b)), [Token(End, "")]);
  }

  lemma NullTestIs(q: string, a: string, negated: bool, n: nat)
    requires NameOk(Dotted(q, a))
    ensures var t := TIsNull(negated, TColumn(Dotted(q, a)));
            && Tokens(t) == [W(q), P("."), W(a), W("is")] + (if negated then [W("not"), W("null")] else [W("null")])
            && WellFormed(t) && !EndsInList(t)
            && Meaning(t, n) == (IsNull(negated, Node(Column(q + "." + a))), n)
  {
    hide NameOk;
  }

  /** q.a is null, and q.a is not null. */
  method ReadsNullTest(q: string, a: string, negated: bool) returns (p: Parsing.Parser, r: Ptr)
    requires NameOk(Dotted(q, a))
    ensures p.tokens == [W(q), P("."), W(a), W("is")] + (if negated then [W("not"), W("null")] else [W("null")]) + [Token(End, "")]
    ensures r == Node(IsNull(negated, Node(Column(q + "." + a))))
  {
    hide Tokens, WellFormed, EndsInList, Marks, Bounds, Meaning, NameOk, Parsing.Stops, Parsing.TokensOk;
    EndStops();
    NullTestIs(q, a, negated, 0);
    p, r := ParseWritten(TIsNull(negated, TColumn(Dotted(q, a))), [Token(End, "")]);
  }

  lemma NumberIs(n: nat)
    requires n < 0x8000_0000_0000_0000
    ensures var t := TNumber(Decimal(n));
            && Tokens(t) == [Token(Number, Decimal(n))] && WellFormed(t) && Level(t) == PRIMARY && !EndsInList(t)
            && forall k: nat :: Meaning(t, k) == (Constant(LInteger(n)), k)
  {
    DigitsOfDecimal(n);
    DigitsExactly(Decimal(n));
    var text := Decimal(n);
    assert '0' <= text[0] <= '9';
    assert '.' !in text;
  }

  lemma CallTokens(f: string, n: nat)
    requires NameOk(Plain(f)) && n < 0x8000_0000_0000_0000
    ensures var t := TCall(Plain(f), [TStar, TNumber(Decimal(n)), TParameter]);
            && Tokens(t) == [W(f), P("("), O("*"), P(","), Token(Number, Decimal(n)), P(","), Token(Parameter, "?"), P(")")]
            && WellFormed(t) && !EndsInList(t)
  {
    var one := TNumber(Decimal(n));
    var args := [TStar, one, TParameter];
    NumberIs(n);
    assert FirstText(one) != "*" by { DigitsOfDecimal(n); DigitsExactly(Decimal(n)); assert '0' <= Decimal(n)[0]; }
    hide NameOk, Numeric, Decimal, Meaning;
    assert args[1..] == [one, TParameter] && args[1..][1..] == [TParameter];
    assert ArgTokens([TParameter]) == [Token(Parameter, "?")];
    assert ArgTokens(args[1..]) == Tokens(one) + ([P(",")] + ArgTokens([TParameter]));
    assert ArgTokens(args) == [O("*")] + ([P(",")] + ArgTokens(args[1..]));
  }

  lemma CallMeaning(f: string, n: nat, k: nat)
    requires n < 0x8000_0000_0000_0000
    ensures var t := TCall(Plain(f), [TStar, TNumber(Decimal(n)), TParameter]);
            Meaning(t, k) == (Call(f, [Node(Column("*")), Node(Constant(LInteger(n))), Node(Bound(k))]), k + 1)
  {
    var one := TNumber(Decimal(n));
    var args := [TStar, one, TParameter];
    NumberIs(n);
    hide Numeric, Decimal, Tokens, WellFormed;
    assert args[1..] == [one, TParameter] && args[1..][1..] == [TParameter] && args[1..][1..][1..] == [];
    assert MeaningAll([], k + 1) == ([], k + 1);
    assert [TParameter][1..] == [] && [Node(Bound(k))] + [] == [Node(Bound(k))];
    assert MeaningAll([TParameter], k) == ([Node(Bound(k))], k + 1);
    assert MeaningAll(args[1..], k) == ([Node(Constant(LInteger(n)))] + [Node(Bound(k))], k + 1);
    assert MeaningAll(args, k) == ([Node(Column("*"))] + MeaningAll(args[1..], k).0, k + 1);
    assert [Node(Column("*"))] + ([Node(Constant(LInteger(n)))] + [Node(Bound(k))])
        == [Node(Column("*")), Node(Constant(LInteger(n))), Node(Bound(k))];
  }

  /** f(*, n, ?): arguments keep their order, a number its value, and the first parameter is number 0. */
  method ReadsCall(f: string, n: nat) returns (p: Parsing.Parser, r: Ptr)
    requires NameOk(Plain(f)) && n < 0x8000_0000_0000_0000
    ensures p.tokens
         == [W(f), P("("), O("*"), P(","), Token(Number, Decimal(n)), P(","), Token(Parameter, "?"), P(")"), Token(End, "")]
    ensures r == Node(Call(f, [Node(Column("*")), Node(Constant(LInteger(n))), Node(Bound(0))])) && p.parameters == 1
  {
    hide Tokens, WellFormed, EndsInList, Marks, Bounds, Meaning, NameOk, Decimal, Parsing.Stops, Parsing.TokensOk;
    EndStops();
    CallTokens(f, n);
    CallMeaning(f, n, 0);
    OneNumberPerMark(TCall(Plain(f), [TStar, TNumber(Decimal(n)), TParameter]), 0);
    p, r := ParseWritten(TCall(Plain(f), [TStar, TNumber(Decimal(n)), TParameter]), [Token(End, "")]);
  }

  lemma LiteralsAre(text: string)
    requires !Reserved(text)
    ensures Tokens(TNull) == [W("null")] && Tokens(TBoolean(true)) == [W("true")] && Tokens(TBoolean(false)) == [W("false")]
    ensures Tokens(TText(text)) == [Token(Quoted, text)] && WellFormed(TText(text)) && !EndsInList(TText(text))
    ensures WellFormed(TNull) && WellFormed(TBoolean(true)) && WellFormed(TBoolean(false))
    ensures !EndsInList(TNull) && !EndsInList(TBoolean(true)) && !EndsInList(TBoolean(false))
    ensures Meaning(TNull, 0).0 == Constant(LNull) && Meaning(TBoolean(true), 0).0 == Constant(LBoolean(true))
    ensures Meaning(TBoolean(false), 0).0 == Constant(LBoolean(false)) && Meaning(TText(text), 0).0 == Constant(LText(text))
  {
  }

  /** The literals NULL, TRUE, FALSE and strings. */
  method ReadsLiterals(text: string) returns (n: Ptr, t: Ptr, f: Ptr, s: Ptr)
    requires !Reserved(text)
    ensures n == Node(Constant(LNull)) && t == Node(Constant(LBoolean(true))) && f == Node(Constant(LBoolean(false)))
    ensures s == Node(Constant(LText(text)))
  {
    hide Tokens, WellFormed, EndsInList, Marks, Bounds, Meaning, Parsing.Stops, Parsing.TokensOk;
    EndStops();
    LiteralsAre(text);
    var p;
    p, n := ParseWritten(TNull, [Token(End, "")]);
    assert p.tokens == [W("null"), Token(End, "")];
    p, t := ParseWritten(TBoolean(true), [Token(End, "")]);
    assert p.tokens == [W("true"), Token(End, "")];
    p, f := ParseWritten(TBoolean(false), [Token(End, "")]);
    assert p.tokens == [W("false"), Token(End, "")];
    p, s := ParseWritten(TText(text), [Token(End, "")]);
    assert p.tokens == [Token(Quoted, text), Token(End, "")];
  }

  lemma SmallIn()
    ensures var one, t := TNumber("1"), TIn(Col("x"), [TNumber("1")]);
            && Tokens(TGroup(t)) == [P("("), W("x"), W("in"), P("("), Token(Number, "1"), P(")"), P(")")]
            && WellFormed(t) && EndsInList(t)
  {
    var one := TNumber("1");
    assert Digits("1") == Some(1);
    assert Numeric("1") == Some(LInteger(1));
    hide Digits, Numeric;
    ColumnIs("x", 0);
    assert ArgTokens([one]) == [Token(Number, "1")];
    assert FirstText(one) == "1" && !EndsInList(one) && WellFormed(one);
  }

  /** (x in (1)), a whole WHERE clause in parentheses, is refused. */
  method InTakesOuterParenthesis() returns (p: Parsing.Parser, r: Ptr)
    ensures p.tokens == [P("("), W("x"), W("in"), P("("), Token(Number, "1"), P(")"), P(")"), Token(End, "")]
    ensures r == Nothing && p.failed && p.index == 7
  {
    hide Tokens, WellFormed, Meaning, EndsInList, Parsing.Stops, Parsing.TokensOk;
    EndStops();
    SmallIn();
    p, r := ParseGroup(TIn(Col("x"), [TNumber("1")]), [Token(End, "")]);
  }
}
