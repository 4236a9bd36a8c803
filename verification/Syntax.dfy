/** Tokens, expression trees, and how trees are written with and without parentheses. */
module Syntax {
  import opened OrderedMap

  datatype Kind = Word | Number | Quoted | Operator | Punctuation | Parameter | End

  datatype Token = Token(kind: Kind, text: string)

  // ---- What the parser builds ----

  datatype Literal = LNull | LBoolean(truth: bool) | LInteger(number: nat) | LReal(text: string) | LText(text: string)

  datatype Expr =
    | Constant(literal: Literal)
    | Column(name: string)
    | Bound(index: nat)
    | Unary(op: string, arg: Ptr)
    | Binary(op: string, left: Ptr, right: Ptr)
    | IsNull(negated: bool, arg: Ptr)
    | Call(name: string, args: seq<Ptr>)

  /** A node, or nothing where the parser failed. */
  datatype Ptr = Nothing | Node(e: Expr)

  /** The value of a run of decimal digits. */
  function Digits(text: string): Option<nat> {
    if text == "" then None
    else
      var c := text[|text| - 1];
      if !('0' <= c <= '9') then None
      else
        var d := c as int - '0' as int;
        if |text| == 1 then Some(d)
        else
          match Digits(text[..|text| - 1])
          case None => None
          case Some(n) => Some(10 * n + d)
  }

  /** The usual way to write a number. */
  function Decimal(n: nat): string {
    var digit := [('0' as int + n % 10) as char];
    if n < 10 then digit else Decimal(n / 10) + digit
  }

  /** Reading inverts writing. */
  lemma {:induction false} DigitsOfDecimal(n: nat)
    ensures Decimal(n) != "" && Digits(Decimal(n)) == Some(n)
  {
    var s := Decimal(n);
    if n < 10 {
      assert Digits(s) == Some(n);
    } else {
      DigitsOfDecimal(n / 10);
      assert s[..|s| - 1] == Decimal(n / 10);
    }
  }

  /** Exactly the runs of digits are numbers, and zeros in front change nothing. */
  lemma {:induction false} DigitsExactly(text: string)
    ensures Digits(text).Some? <==> text != "" && forall i :: 0 <= i < |text| ==> '0' <= text[i] <= '9'
    ensures text != "" ==> Digits("0" + text) == Digits(text)
  {
    if |text| > 1 {
      var front := text[..|text| - 1];
      DigitsExactly(front);
      assert ("0" + text)[..|text|] == "0" + front;
      assert forall i :: 0 <= i < |front| ==> front[i] == text[i];
    } else if |text| == 1 {
      assert ("0" + text)[..1] == "0";
    }
  }

  /** An integer that does not fit 64 bits is refused; a number with a point is kept as its text. */
  function Numeric(text: string): Option<Literal> {
    if '.' in text then Some(LReal(text))
    else
      match Digits(text)
      case None => None
      case Some(n) => if n < 0x8000_0000_0000_0000 then Some(LInteger(n)) else None
  }

  // ---- Trees to be written out ----

  datatype Name = Plain(name: string) | Dotted(qualifier: string, name: string)

  datatype BinaryOp = Or | And | Like | Comparison(text: string) | Additive(text: string) | Multiplicative(text: string)

  datatype UnaryOp = Not | Minus | Plus

  datatype Tree =
    | TNull
    | TBoolean(truth: bool)
    | TNumber(text: string)
    | TText(text: string)
    | TParameter
    | TColumn(column: Name)
    | TUnary(uop: UnaryOp, arg: Tree)
    | TBinary(bop: BinaryOp, left: Tree, right: Tree)
    | TIsNull(negated: bool, arg: Tree)
    | TCall(function_: Name, args: seq<Tree>)
    | TStar
    | TIn(arg: Tree, items: seq<Tree>)
    | TGroup(inner: Tree)

  function W(text: string): Token { Token(Word, text) }
  function O(text: string): Token { Token(Operator, text) }
  function P(text: string): Token { Token(Punctuation, text) }

  function NameTokens(n: Name): seq<Token> {
    match n
    case Plain(name) => [W(name)]
    case Dotted(q, name) => [W(q), P("."), W(name)]
  }

  function NameText(n: Name): string {
    match n
    case Plain(name) => name
    case Dotted(q, name) => q + "." + name
  }

  function BinaryToken(op: BinaryOp): Token {
    match op
    case Or => W("or")
    case And => W("and")
    case Like => W("like")
    case Comparison(t) => O(t)
    case Additive(t) => O(t)
    case Multiplicative(t) => O(t)
  }

  function UnaryToken(op: UnaryOp): Token {
    match op
    case Not => W("not")
    case Minus => O("-")
    case Plus => O("+")
  }

  function NullTest(negated: bool): seq<Token> {
    if negated then [W("is"), W("not"), W("null")] else [W("is"), W("null")]
  }

  /** A tree as it stands: parentheses are written where it has a group, and nowhere else. */
  function Tokens(t: Tree): (ts: seq<Token>)
    ensures ts != []
    decreases t, 1
  {
    match t
    case TNull => [W("null")]
    case TBoolean(b) => [W(if b then "true" else "false")]
    case TNumber(n) => [Token(Number, n)]
    case TText(s) => [Token(Quoted, s)]
    case TParameter => [Token(Parameter, "?")]
    case TColumn(n) => NameTokens(n)
    case TStar => [O("*")]
    case TCall(f, args) => NameTokens(f) + ([P("(")] + (ArgTokens(args) + [P(")")]))
    case TUnary(op, a) => [UnaryToken(op)] + Tokens(a)
    case TBinary(op, l, r) => Tokens(l) + ([BinaryToken(op)] + Tokens(r))
    case TIsNull(neg, a) => Tokens(a) + NullTest(neg)
    case TIn(a, items) => Tokens(a) + ([W("in")] + ([P("(")] + (ArgTokens(items) + [P(")")])))
    case TGroup(a) => [P("(")] + (Tokens(a) + [P(")")])
  }

  function ArgTokens(args: seq<Tree>): seq<Token>
    decreases args, 0
  {
    if args == [] then []
    else if |args| == 1 then Tokens(args[0])
    else Tokens(args[0]) + ([P(",")] + ArgTokens(args[1..]))
  }

  // ---- Binding ----

  // From OR, which binds loosest, to an operand.
  const OR := 1
  const AND := 2
  const COMPARE := 3
  const LIKE := 4
  const ADD := 5
  const MUL := 6
  const UNARY := 7
  const PRIMARY := 8

  function OpLevel(op: BinaryOp): nat {
    match op
    case Or => OR
    case And => AND
    case Comparison(_) => COMPARE
    case Like => LIKE
    case Additive(_) => ADD
    case Multiplicative(_) => MUL
  }

  function Level(t: Tree): nat {
    match t
    case TUnary(_, _) => UNARY
    case TIsNull(_, _) => COMPARE
    case TIn(_, _) => COMPARE
    case TBinary(op, _, _) => OpLevel(op)
    case _ => PRIMARY
  }

  /** How tightly a left operand must bind: OR, AND, sums and products go on to the left, comparisons do not. */
  function LeftLevel(op: BinaryOp): nat {
    match op
    case Comparison(_) => LIKE
    case Like => ADD
    case _ => OpLevel(op)
  }

  function RightLevel(op: BinaryOp): nat {
    match op
    case Comparison(_) => ADD
    case _ => OpLevel(op) + 1
  }

  // ---- Which written trees survive ----

  /** What the parser takes for itself where an operand may start. */
  predicate Reserved(text: string) {
    text in ["not", "-", "+", "("]
  }

  /** The spelling of the first token of a tree. */
  function FirstText(t: Tree): string {
    Tokens(t)[0].text
  }

  predicate NameOk(n: Name) {
    var first := if n.Plain? then n.name else n.qualifier;
    !Reserved(first) && first !in ["null", "true", "false"]
  }

  predicate OpOk(op: BinaryOp) {
    match op
    case Comparison(t) => t in ["=", "<", ">", "<=", ">=", "!=", "<>", "!"]
    case Additive(t) => t in ["+", "-"]
    case Multiplicative(t) => t in ["*", "/", "%"]
    case _ => true
  }

  /** The last token is that of an IN list which is not empty. */
  predicate EndsInList(t: Tree) {
    match t
    case TIn(_, items) => items != []
    case TBinary(_, _, r) => EndsInList(r)
    case TUnary(_, a) => EndsInList(a)
    case _ => false
  }

  /**
   * Every operand binds tightly enough for its place, no name or string is spelled like what the parser takes there,
   * and no closing parenthesis follows an IN list.
   */
  predicate WellFormed(t: Tree)
    decreases t
  {
    match t
    case TNumber(n) => Numeric(n).Some? && !Reserved(n)
    case TText(s) => !Reserved(s)
    case TColumn(n) => NameOk(n)
    case TUnary(_, a) => Level(a) >= UNARY && WellFormed(a)
    case TBinary(op, l, r) =>
      && OpOk(op) && Level(l) >= LeftLevel(op) && Level(r) >= RightLevel(op)
      && WellFormed(l) && WellFormed(r)
    case TIsNull(_, a) => Level(a) >= LIKE && WellFormed(a)
    case TCall(f, args) =>
      && NameOk(f) && (args != [] ==> FirstText(args[0]) != ")" && !EndsInList(args[|args| - 1]))
      && forall a :: a in args ==> a.TStar? || (WellFormed(a) && FirstText(a) != "*")
    case TIn(a, items) =>
      && Level(a) >= LIKE && WellFormed(a) && (items != [] ==> !EndsInList(items[|items| - 1]))
      && forall b :: b in items ==> !b.TStar? && WellFormed(b) && FirstText(b) != ")"
    case TGroup(a) => WellFormed(a) && !EndsInList(a)
    case TStar => false
    case _ => true
  }

  // ---- What a tree means ----

  function BinaryText(op: BinaryOp): string { BinaryToken(op).text }
  function UnaryText(op: UnaryOp): string { UnaryToken(op).text }

  /** The node for a tree, with parameters numbered from n, and the next number. */
  function Meaning(t: Tree, n: nat): (Expr, nat)
    decreases t, 1
  {
    match t
    case TNull => (Constant(LNull), n)
    case TBoolean(b) => (Constant(LBoolean(b)), n)
    case TNumber(s) => (Constant(if Numeric(s).Some? then Numeric(s).value else LNull), n)
    case TText(s) => (Constant(LText(s)), n)
    case TParameter => (Bound(n), n + 1)
    case TColumn(c) => (Column(NameText(c)), n)
    case TStar => (Column("*"), n)
    case TUnary(op, a) =>
      var (e, m) := Meaning(a, n);
      (Unary(UnaryText(op), Node(e)), m)
    case TIsNull(neg, a) =>
      var (e, m) := Meaning(a, n);
      (IsNull(neg, Node(e)), m)
    case TBinary(op, l, r) =>
      var (e, m) := Meaning(l, n);
      var (f, k) := Meaning(r, m);
      (Binary(BinaryText(op), Node(e), Node(f)), k)
    case TCall(f, args) =>
      var (es, m) := MeaningAll(args, n);
      (Call(NameText(f), es), m)
    case TIn(a, items) =>
      var (e, m) := Meaning(a, n);
      var (es, k) := MeaningAll(items, m);
      (Call("in", [Node(e)] + es), k)
    case TGroup(a) => Meaning(a, n)
  }

  function MeaningAll(args: seq<Tree>, n: nat): (seq<Ptr>, nat)
    decreases args, 0
  {
    if args == [] then ([], n)
    else
      var (e, m) := Meaning(args[0], n);
      var (es, k) := MeaningAll(args[1..], m);
      ([Node(e)] + es, k)
  }
}
