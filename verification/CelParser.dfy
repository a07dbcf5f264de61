/**
 * The CEL expression parser: the precedence-climbing `Parser` of
 * spp_cel_domain/services/cel_parser.py over its token stream, and a printer it inverts.
 *
 * The parser's position is the list of tokens still to read; its end stands for the EOF token.
 */
module CelParser {
  import opened Lists

  /** The values CEL handles: null, those of tokens, days, and links to a record of a model (0 for none). */
  datatype Value = Null | Bool(b: bool) | Num(n: int) | Str(s: string) | Day(d: int) | Link(model: nat, id: nat)

  datatype Op = OR | AND | EQ | NE | GT | GE | LT | LE | PLUS | MINUS | STAR | SLASH | PERCENT

  datatype Token =
    | Const(v: Value) | Id(name: string) | Infix(op: Op) | NotSign | Question | Colon
    | Dot | Comma | LParen | RParen | LBracket | RBracket

  type Tokens = List<Token>

  /** Binary covers the source's And, Or, Compare and BinOp nodes. */
  datatype Ast =
    | Literal(v: Value)
    | ListLiteral(items: List<Ast>)
    | Ident(name: string)
    | Attr(obj: Ast, name: string)
    | Call(func: Ast, args: List<Ast>)
    | Not(expr: Ast)
    | Neg(expr: Ast)
    | Binary(op: Op, left: Ast, right: Ast)
    | In(left: Ast, items: List<Ast>)
    | Ternary(condition: Ast, trueExpr: Ast, falseExpr: Ast)

  /** A syntax error, or a value with the tokens left. */
  datatype Parsed<+T> = Fail | Ok(value: T, rest: Tokens)

  // ----- the parser -----

  const QUESTION_POWER := 1
  const IN_POWER := 4
  const NEG_POWER := 7

  function Power(op: Op): nat {
    match op
    case OR => 2
    case AND => 3
    case EQ | NE => 5
    case GT | GE | LT | LE => 6
    case PLUS | MINUS => 7
    case STAR | SLASH | PERCENT => 8
  }

  /** `lbp` of the current token. */
  function LeftPower(tokens: Tokens): nat {
    match tokens
    case Cons(Question, _) => QUESTION_POWER
    case Cons(Infix(op), _) => Power(op)
    case Cons(Id(name), _) => if name == "in" then IN_POWER else 0
    case _ => 0
  }

  /** `eat`. */
  function Eat(token: Token, tokens: Tokens): (r: Parsed<()>)
    ensures r.Ok? ==> Size(r.rest) < Size(tokens)
  {
    if tokens.Cons? && tokens.head == token then Ok((), tokens.tail) else Fail
  }

  /** `expr`. */
  function Expr(power: nat, tokens: Tokens): (r: Parsed<Ast>)
    ensures r.Ok? ==> Size(r.rest) < Size(tokens)
    ensures r.Ok? ==> WellFormed(r.value)
    decreases Size(tokens), 1
  {
    match tokens
    case Nil => Fail
    case Cons(token, tail) =>
      match Nud(token, tail)
      case Fail => Fail
      case Ok(left, rest) => Climb(power, left, rest)
  }

  /** The loop of `expr`: extends `left` while the current token binds tighter than `power`. */
  function Climb(power: nat, left: Ast, tokens: Tokens): (r: Parsed<Ast>)
    ensures r.Ok? ==> Size(r.rest) <= Size(tokens)
    ensures r.Ok? && WellFormed(left) ==> WellFormed(r.value)
    decreases Size(tokens), 0
  {
    if LeftPower(tokens) <= power then Ok(left, tokens)
    else
      match Led(left, tokens.head, tokens.tail)
      case Fail => Fail
      case Ok(extended, rest) => Climb(power, extended, rest)
  }

  /** `nud`. */
  function Nud(token: Token, tokens: Tokens): (r: Parsed<Ast>)
    ensures r.Ok? ==> Size(r.rest) <= Size(tokens)
    ensures r.Ok? ==> WellFormed(r.value)
    decreases Size(tokens), 3
  {
    match token
    case Const(v) => Ok(Literal(v), tokens)
    case Id(name) => Postfix(Ident(name), tokens)
    case LParen =>
      (match Expr(0, tokens)
       case Fail => Fail
       case Ok(e, rest) => match Eat(RParen, rest)
                           case Fail => Fail
                           case Ok(_, after) => Ok(e, after))
    case LBracket =>
      (match Items(RBracket, tokens)
       case Fail => Fail
       case Ok(items, rest) => Ok(ListLiteral(items), rest))
    case NotSign =>
      (match Expr(0, tokens)
       case Fail => Fail
       case Ok(e, rest) => Ok(Not(e), rest))
    case Infix(op) =>
      if op != MINUS then Fail
      else (match Expr(NEG_POWER, tokens)
            case Fail => Fail
            case Ok(e, rest) => Ok(Neg(e), rest))
    case _ => Fail
  }

  /** Attribute access and calls after an identifier. */
  function Postfix(left: Ast, tokens: Tokens): (r: Parsed<Ast>)
    ensures r.Ok? ==> Size(r.rest) <= Size(tokens)
    ensures r.Ok? && IsPath(left) && WellFormed(left) ==> WellFormed(r.value)
    decreases Size(tokens), 0
  {
    match tokens
    case Cons(Dot, tail) =>
      if tail.Cons? && tail.head.Id? then
        assert Size(tokens) == 2 + Size(tail.tail);
        Postfix(Attr(left, tail.head.name), tail.tail)
      else Fail
    case Cons(LParen, tail) =>
      (match Items(RParen, tail)
       case Fail => Fail
       case Ok(args, rest) => Postfix(Call(left, args), rest))
    case _ => Ok(left, tokens)
  }

  /** Comma-separated expressions up to a closing token; a trailing comma is allowed. */
  function Items(close: Token, tokens: Tokens): (r: Parsed<List<Ast>>)
    ensures r.Ok? ==> Size(r.rest) < Size(tokens)
    ensures r.Ok? ==> AllWellFormed(r.value)
    decreases Size(tokens), 2
  {
    if tokens.Cons? && tokens.head == close then Ok(Nil, tokens.tail)
    else
      match Expr(0, tokens)
      case Fail => Fail
      case Ok(e, rest) =>
        if rest.Cons? && rest.head == Comma then
          (match Items(close, rest.tail)
           case Fail => Fail
           case Ok(items, after) => Ok(Cons(e, items), after))
        else
          (match Eat(close, rest)
           case Fail => Fail
           case Ok(_, after) => Ok(Cons(e, Nil), after))
  }

  /** `led`. */
  function Led(left: Ast, token: Token, tokens: Tokens): (r: Parsed<Ast>)
    ensures r.Ok? ==> Size(r.rest) <= Size(tokens)
    ensures r.Ok? && WellFormed(left) ==> WellFormed(r.value)
    decreases Size(tokens), 2
  {
    match token
    case Infix(op) =>
      (match Expr(Power(op), tokens)
       case Fail => Fail
       case Ok(right, rest) => Ok(Binary(op, left, right), rest))
    case Id(_) =>
      (match Expr(IN_POWER, tokens)
       case Fail => Fail
       case Ok(right, rest) => if right.ListLiteral? then Ok(In(left, right.items), rest) else Fail)
    case Question =>
      (match Expr(0, tokens)
       case Fail => Fail
       case Ok(trueExpr, rest) =>
         match Eat(Colon, rest)
         case Fail => Fail
         case Ok(_, after) =>
           match Expr(QUESTION_POWER - 1, after)
           case Fail => Fail
           case Ok(falseExpr, end) => Ok(Ternary(left, trueExpr, falseExpr), end))
    case _ => Fail
  }

  /** `parse`: one expression and nothing after it. */
  function Parse(tokens: Tokens): Parsed<Ast> {
    match Expr(0, tokens)
    case Fail => Fail
    case Ok(e, rest) => if rest == Nil then Ok(e, Nil) else Fail
  }

  // ----- a printer -----

  /** Attributes and calls hang off an identifier; the grammar has no others. */
  predicate IsPath(e: Ast) {
    match e
    case Ident(_) => true
    case Attr(obj, _) => IsPath(obj)
    case Call(func, _) => IsPath(func)
    case _ => false
  }

  /** Trees that some text parses to. */
  predicate WellFormed(e: Ast) {
    match e
    case Literal(_) | Ident(_) => true
    case ListLiteral(items) => AllWellFormed(items)
    case Attr(obj, _) => IsPath(obj) && WellFormed(obj)
    case Call(func, args) => IsPath(func) && WellFormed(func) && AllWellFormed(args)
    case Not(expr) => WellFormed(expr)
    case Neg(expr) => WellFormed(expr)
    case Binary(_, left, right) => WellFormed(left) && WellFormed(right)
    case In(left, items) => WellFormed(left) && AllWellFormed(items)
    case Ternary(c, t, f) => WellFormed(c) && WellFormed(t) && WellFormed(f)
  }

  predicate AllWellFormed(items: List<Ast>) {
    match items
    case Nil => true
    case Cons(e, rest) => WellFormed(e) && AllWellFormed(rest)
  }

  const ATOM := 9

  /** How tightly the printed form of a tree holds together. */
  function Level(e: Ast): nat {
    match e
    case Binary(op, _, _) => Power(op)
    case In(_, _) => IN_POWER
    case Neg(_) => NEG_POWER
    case Not(_) | Ternary(_, _, _) => 0
    case _ => ATOM
  }

  /** The tokens of `e` in front of `rest`, parenthesised only if `e` is looser than `level`. */
  function Print(e: Ast, level: nat, rest: Tokens): Tokens
    decreases e, 1
  {
    if Level(e) < level then Cons(LParen, Body(e, Cons(RParen, rest))) else Body(e, rest)
  }

  function Body(e: Ast, rest: Tokens): Tokens
    decreases e, 0
  {
    match e
    case Literal(v) => Cons(Const(v), rest)
    case ListLiteral(items) => Cons(LBracket, PrintItems(items, RBracket, rest))
    case Ident(name) => Cons(Id(name), rest)
    case Attr(obj, name) => Body(obj, Cons(Dot, Cons(Id(name), rest)))
    case Call(func, args) => Body(func, Cons(LParen, PrintItems(args, RParen, rest)))
    case Not(expr) => Cons(NotSign, Print(expr, 0, rest))
    case Neg(expr) => Cons(Infix(MINUS), Print(expr, NEG_POWER + 1, rest))
    case Binary(op, left, right) =>
      Print(left, Power(op), Cons(Infix(op), Print(right, Power(op) + 1, rest)))
    case In(left, items) =>
      Print(left, IN_POWER, Cons(Id("in"), Cons(LBracket, PrintItems(items, RBracket, rest))))
    case Ternary(c, t, f) =>
      Print(c, QUESTION_POWER + 1, Cons(Question, Print(t, 0, Cons(Colon, Print(f, 0, rest)))))
  }

  function PrintItems(items: List<Ast>, close: Token, rest: Tokens): Tokens
    decreases items
  {
    match items
    case Nil => Cons(close, rest)
    case Cons(e, Nil) => Print(e, 0, Cons(close, rest))
    case Cons(e, more) => Print(e, 0, Cons(Comma, PrintItems(more, close, rest)))
  }

  // ----- the round trip -----

  /** The next token does not continue a path. */
  predicate EndsPath(rest: Tokens) {
    !(rest.Cons? && rest.head in {Dot, LParen})
  }

  /** A printed tree never starts with a closing token. */
  lemma {:induction false} BodyStarts(e: Ast, rest: Tokens)
    ensures Body(e, rest).Cons? && Body(e, rest).head !in {RParen, RBracket}
  {
    match e {
      case Attr(obj, name) => BodyStarts(obj, Cons(Dot, Cons(Id(name), rest)));
      case Call(func, args) => BodyStarts(func, Cons(LParen, PrintItems(args, RParen, rest)));
      case Binary(op, left, right) =>
        BodyStarts(left, Cons(Infix(op), Print(right, Power(op) + 1, rest)));
      case In(left, items) =>
        BodyStarts(left, Cons(Id("in"), Cons(LBracket, PrintItems(items, RBracket, rest))));
      case Ternary(c, t, f) =>
        BodyStarts(c, Cons(Question, Print(t, 0, Cons(Colon, Print(f, 0, rest)))));
      case _ =>
    }
  }

  /** A printed path reads back as that path, whatever follows it. */
  lemma {:induction false} PathReads(e: Ast, rest: Tokens)
    requires IsPath(e) && WellFormed(e)
    ensures Body(e, rest).Cons? && Nud(Body(e, rest).head, Body(e, rest).tail) == Postfix(e, rest)
    decreases e, 1
  {
    match e {
      case Ident(_) =>
      case Attr(obj, name) => PathReads(obj, Cons(Dot, Cons(Id(name), rest)));
      case Call(func, args) =>
        PathReads(func, Cons(LParen, PrintItems(args, RParen, rest)));
        ItemsRead(args, RParen, rest);
    }
  }

  lemma {:induction false} ItemsRead(items: List<Ast>, close: Token, rest: Tokens)
    requires AllWellFormed(items) && close in {RParen, RBracket}
    ensures Items(close, PrintItems(items, close, rest)) == Ok(items, rest)
    decreases items, 0
  {
    match items {
      case Nil =>
      case Cons(e, Nil) =>
        BodyStarts(e, Cons(close, rest));
        Reads(e, 0, 0, Cons(close, rest));
        LastItemReads(Print(e, 0, Cons(close, rest)), close, e, rest);
      case Cons(e, more) =>
        var next := PrintItems(more, close, rest);
        BodyStarts(e, Cons(Comma, next));
        Reads(e, 0, 0, Cons(Comma, next));
        ItemsRead(more, close, rest);
        NextItemReads(Print(e, 0, Cons(Comma, next)), close, e, next, more, rest);
    }
  }

  lemma LastItemReads(tokens: Tokens, close: Token, e: Ast, rest: Tokens)
    requires tokens.Cons? && tokens.head != close && close != Comma && Expr(0, tokens) == Ok(e, Cons(close, rest))
    ensures Items(close, tokens) == Ok(Cons(e, Nil), rest)
  {
  }

  lemma NextItemReads(tokens: Tokens, close: Token, e: Ast, next: Tokens, more: List<Ast>, rest: Tokens)
    requires tokens.Cons? && tokens.head != close && Expr(0, tokens) == Ok(e, Cons(Comma, next))
    requires Items(close, next) == Ok(more, rest)
    ensures Items(close, tokens) == Ok(Cons(e, more), rest)
  {
  }

  lemma ClimbInfix(power: nat, left: Ast, op: Op, tokens: Tokens, right: Ast, rest: Tokens)
    requires power < Power(op) && Expr(Power(op), tokens) == Ok(right, rest)
    ensures Climb(power, left, Cons(Infix(op), tokens)) == Climb(power, Binary(op, left, right), rest)
  {
  }

  lemma ClimbIn(power: nat, left: Ast, tokens: Tokens, items: List<Ast>, rest: Tokens)
    requires power < IN_POWER && Items(RBracket, tokens) == Ok(items, rest) && LeftPower(rest) <= IN_POWER
    ensures Climb(power, left, Cons(Id("in"), Cons(LBracket, tokens))) == Climb(power, In(left, items), rest)
  {
    assert Expr(IN_POWER, Cons(LBracket, tokens)) == Ok(ListLiteral(items), rest);
  }

  lemma {:induction false} ClimbTernary(c: Ast, tokens: Tokens, t: Ast, middle: Tokens, f: Ast, rest: Tokens)
    requires Expr(0, tokens) == Ok(t, Cons(Colon, middle)) && Expr(0, middle) == Ok(f, rest)
    ensures Climb(0, c, Cons(Question, tokens)) == Climb(0, Ternary(c, t, f), rest)
  {
    LedTernary(c, tokens, t, middle, f, rest);
  }

  lemma LedTernary(c: Ast, tokens: Tokens, t: Ast, middle: Tokens, f: Ast, rest: Tokens)
    requires Expr(0, tokens) == Ok(t, Cons(Colon, middle)) && Expr(0, middle) == Ok(f, rest)
    ensures Led(c, Question, tokens) == Ok(Ternary(c, t, f), rest)
  {
    assert Eat(Colon, Cons(Colon, middle)) == Ok((), middle);
  }

  lemma ParenReads(power: nat, tokens: Tokens, e: Ast, rest: Tokens)
    requires Expr(0, tokens) == Ok(e, Cons(RParen, rest))
    ensures Expr(power, Cons(LParen, tokens)) == Climb(power, e, rest)
  {
  }

  lemma NotReads(tokens: Tokens, e: Ast, rest: Tokens)
    requires Expr(0, tokens) == Ok(e, rest)
    ensures Expr(0, Cons(NotSign, tokens)) == Climb(0, Not(e), rest)
  {
  }

  lemma NegReads(power: nat, tokens: Tokens, e: Ast, rest: Tokens)
    requires Expr(NEG_POWER, tokens) == Ok(e, rest)
    ensures Expr(power, Cons(Infix(MINUS), tokens)) == Climb(power, Neg(e), rest)
  {
  }

  lemma StartReads(power: nat, tokens: Tokens, e: Ast, rest: Tokens)
    requires tokens.Cons? && Nud(tokens.head, tokens.tail) == Ok(e, rest)
    ensures Expr(power, tokens) == Climb(power, e, rest)
  {
  }

  lemma PathEnds(e: Ast, rest: Tokens)
    requires EndsPath(rest)
    ensures Postfix(e, rest) == Ok(e, rest)
  {
  }

  lemma AtomReads(e: Ast, power: nat, rest: Tokens)
    requires WellFormed(e) && Level(e) == ATOM && EndsPath(rest)
    ensures Expr(power, Body(e, rest)) == Climb(power, e, rest)
    decreases e, 2
  {
    if e.ListLiteral? {
      ItemsRead(e.items, RBracket, rest);
      StartReads(power, Body(e, rest), e, rest);
    } else if IsPath(e) {
      PathReads(e, rest);
      PathEnds(e, rest);
      StartReads(power, Body(e, rest), e, rest);
    }
  }

  /**
   * Reading a printed tree at a power below its level, the parser first reads exactly that tree and
   * then goes on with what follows it.
   */
  lemma {:induction false} Reads(e: Ast, level: nat, power: nat, rest: Tokens)
    requires WellFormed(e) && (power < level || power == level == 0)
    requires LeftPower(rest) <= level && EndsPath(rest) && level <= ATOM
    ensures Expr(power, Print(e, level, rest)) == Climb(power, e, rest)
    decreases e, 4, level
  {
    if Level(e) < level {
      Reads(e, 0, 0, Cons(RParen, rest));
      ParenReads(power, Body(e, Cons(RParen, rest)), e, rest);
    } else {
      BodyReads(e, level, power, rest);
    }
  }

  lemma {:induction false} BodyReads(e: Ast, level: nat, power: nat, rest: Tokens)
    requires WellFormed(e) && (power < level || power == level == 0) && level <= Level(e)
    requires LeftPower(rest) <= level && EndsPath(rest)
    ensures Expr(power, Body(e, rest)) == Climb(power, e, rest)
    decreases e, 3
  {
    match e {
      case Not(expr) =>
        Reads(expr, 0, 0, rest);
        NotReads(Print(expr, 0, rest), expr, rest);
      case Neg(expr) =>
        Reads(expr, NEG_POWER + 1, NEG_POWER, rest);
        NegReads(power, Print(expr, NEG_POWER + 1, rest), expr, rest);
      case Binary(op, left, right) =>
        var after := Print(right, Power(op) + 1, rest);
        Reads(left, Power(op), power, Cons(Infix(op), after));
        Reads(right, Power(op) + 1, Power(op), rest);
        ClimbInfix(power, left, op, after, right, rest);
      case In(left, items) =>
        var list := PrintItems(items, RBracket, rest);
        Reads(left, IN_POWER, power, Cons(Id("in"), Cons(LBracket, list)));
        ItemsRead(items, RBracket, rest);
        ClimbIn(power, left, list, items, rest);
      case Ternary(c, t, f) =>
        var end := Print(f, 0, rest);
        var middle := Print(t, 0, Cons(Colon, end));
        Reads(c, QUESTION_POWER + 1, 0, Cons(Question, middle));
        Reads(t, 0, 0, Cons(Colon, end));
        Reads(f, 0, 0, rest);
        ClimbTernary(c, middle, t, end, f, rest);
      case _ => AtomReads(e, power, rest);
    }
  }

  /** Printing any tree and parsing it again gives the same tree. */
  lemma ParsePrint(e: Ast)
    requires WellFormed(e)
    ensures Parse(Print(e, 0, Nil)) == Ok(e, Nil)
  {
    Reads(e, 0, 0, Nil);
  }

  /** Every accepted text reads the same as the printed form of what it parses to. */
  lemma PrintParse(tokens: Tokens)
    requires Parse(tokens).Ok?
    ensures Parse(Print(Parse(tokens).value, 0, Nil)) == Parse(tokens)
  {
    ParsePrint(Parse(tokens).value);
  }

  // ----- ternary chains -----

  /** A ternary nested to the right: the first true condition chooses. */
  function Nested(branches: List<(Ast, Ast)>, otherwise: Ast): Ast {
    match branches
    case Nil => otherwise
    case Cons((c, t), rest) => Ternary(c, t, Nested(rest, otherwise))
  }

  /** The chain `c1 ? t1 : c2 ? t2 : ... : otherwise`, written without parentheses around its parts. */
  function Chain(branches: List<(Ast, Ast)>, otherwise: Ast, rest: Tokens): Tokens {
    match branches
    case Nil => Print(otherwise, 0, rest)
    case Cons((c, t), more) =>
      Print(c, QUESTION_POWER + 1, Cons(Question, Print(t, 0, Cons(Colon, Chain(more, otherwise, rest)))))
  }

  predicate BranchesWellFormed(branches: List<(Ast, Ast)>) {
    match branches
    case Nil => true
    case Cons((c, t), rest) => WellFormed(c) && WellFormed(t) && BranchesWellFormed(rest)
  }

  lemma {:induction false} ChainIsNested(branches: List<(Ast, Ast)>, otherwise: Ast, rest: Tokens)
    requires BranchesWellFormed(branches) && WellFormed(otherwise)
    ensures WellFormed(Nested(branches, otherwise))
    ensures Print(Nested(branches, otherwise), 0, rest) == Chain(branches, otherwise, rest)
  {
    match branches {
      case Nil =>
      case Cons(_, more) => ChainIsNested(more, otherwise, rest);
    }
  }

  /** An unparenthesised ternary chain of any length parses right-associatively. */
  lemma {:induction false} ChainParsesRight(branches: List<(Ast, Ast)>, otherwise: Ast)
    requires BranchesWellFormed(branches) && WellFormed(otherwise)
    ensures Parse(Chain(branches, otherwise, Nil)) == Ok(Nested(branches, otherwise), Nil)
  {
    ChainIsNested(branches, otherwise, Nil);
    ParsePrint(Nested(branches, otherwise));
  }

  // ----- precedence -----

  type Chained = List<(Op, Ast)>

  /** The tokens of infix operators between operands, with no parentheses of their own. */
  function InfixChain(first: Ast, rest: Chained, end: Tokens): Tokens
    decreases rest
  {
    match rest
    case Nil => Print(first, ATOM, end)
    case Cons((op, next), more) => Print(first, ATOM, Cons(Infix(op), InfixChain(next, more, end)))
  }

  predicate IsAtom(e: Ast) {
    WellFormed(e) && Level(e) == ATOM
  }

  /** Operands that need no parentheses, and operators each tighter than the one before. */
  predicate Tightening(power: nat, first: Ast, rest: Chained)
    decreases rest
  {
    IsAtom(first)
    && match rest
       case Nil => true
       case Cons((op, next), more) => power < Power(op) && Tightening(Power(op), next, more)
  }

  /** The tree nested to the right. */
  function RightNest(first: Ast, rest: Chained): Ast
    decreases rest
  {
    match rest
    case Nil => first
    case Cons((op, next), more) => Binary(op, first, RightNest(next, more))
  }

  lemma AtomPrint(e: Ast, level: nat, rest: Tokens)
    requires IsAtom(e) && level <= ATOM
    ensures Print(e, level, rest) == Print(e, ATOM, rest)
  {
  }

  lemma BinaryPrint(op: Op, left: Ast, right: Ast, level: nat, rest: Tokens)
    requires level <= Power(op) && IsAtom(left)
    ensures Print(Binary(op, left, right), level, rest)
        == Print(left, ATOM, Cons(Infix(op), Print(right, Power(op) + 1, rest)))
  {
    AtomPrint(left, Power(op), Cons(Infix(op), Print(right, Power(op) + 1, rest)));
  }

  lemma {:induction false} RightNestPrint(power: nat, first: Ast, rest: Chained, end: Tokens)
    requires Tightening(power, first, rest) && power < ATOM
    ensures WellFormed(RightNest(first, rest))
    ensures Print(RightNest(first, rest), power + 1, end) == InfixChain(first, rest, end)
    decreases rest
  {
    match rest {
      case Nil => AtomPrint(first, power + 1, end);
      case Cons((op, next), more) =>
        RightNestPrint(Power(op), next, more, end);
        BinaryPrint(op, first, RightNest(next, more), power + 1, end);
    }
  }

  /** Operators that tighten from left to right nest to the right without parentheses, in chains of any length. */
  lemma TighteningNests(first: Ast, rest: Chained)
    requires Tightening(0, first, rest)
    ensures Parse(InfixChain(first, rest, Nil)) == Ok(RightNest(first, rest), Nil)
  {
    RightNestPrint(0, first, rest, Nil);
    RightNestLevel(first, rest);
    ParsePrint(RightNest(first, rest));
  }

  lemma RightNestLevel(first: Ast, rest: Chained)
    requires Tightening(0, first, rest)
    ensures Print(RightNest(first, rest), 0, Nil) == Print(RightNest(first, rest), 1, Nil)
  {
  }

  /** Or, and, equality, order, sum and product, each by any of its operators, tighten in this order and nest to the right. */
  lemma PrecedenceLadder(a: Ast, b: Ast, c: Ast, d: Ast, e: Ast, f: Ast, g: Ast, equal: Op, order: Op, sum: Op, product: Op)
    requires IsAtom(a) && IsAtom(b) && IsAtom(c) && IsAtom(d) && IsAtom(e) && IsAtom(f) && IsAtom(g)
    requires equal in {EQ, NE} && order in {GT, GE, LT, LE} && sum in {PLUS, MINUS} && product in {STAR, SLASH, PERCENT}
    ensures var rest: Chained :=
        Cons((OR, b), Cons((AND, c), Cons((equal, d), Cons((order, e), Cons((sum, f), Cons((product, g), Nil))))));
      Parse(InfixChain(a, rest, Nil)) == Ok(RightNest(a, rest), Nil)
  {
    var one: Chained := Cons((product, g), Nil);
    var two, three := Cons((sum, f), one), Cons((order, e), Cons((sum, f), one));
    var four := Cons((equal, d), three);
    assert Tightening(8, g, Nil) && Tightening(7, f, one);
    assert Tightening(6, e, two) && Tightening(5, d, three);
    assert Tightening(3, c, four) && Tightening(2, b, Cons((AND, c), four));
    TighteningNests(a, Cons((OR, b), Cons((AND, c), four)));
  }

  lemma LoosePrint(op: Op, left: Ast, right: Ast, rest: Tokens)
    requires IsAtom(right)
    ensures Print(Binary(op, left, right), 0, rest) == Print(left, Power(op), Cons(Infix(op), Print(right, ATOM, rest)))
  {
    AtomPrint(right, Power(op) + 1, rest);
  }

  lemma AtomsPrint(op: Op, left: Ast, right: Ast, level: nat, rest: Tokens)
    requires IsAtom(left) && IsAtom(right) && level <= Power(op)
    ensures Print(Binary(op, left, right), level, rest) == Print(left, ATOM, Cons(Infix(op), Print(right, ATOM, rest)))
  {
    BinaryPrint(op, left, right, level, rest);
    AtomPrint(right, Power(op) + 1, rest);
  }

  lemma ThreeChain(op: Op, next: Op, a: Ast, b: Ast, c: Ast)
    ensures InfixChain(a, Cons((op, b), Cons((next, c), Nil)), Nil)
        == Print(a, ATOM, Cons(Infix(op), Print(b, ATOM, Cons(Infix(next), Print(c, ATOM, Nil)))))
  {
    assert InfixChain(c, Nil, Nil) == Print(c, ATOM, Nil);
    assert InfixChain(b, Cons((next, c), Nil), Nil) == Print(b, ATOM, Cons(Infix(next), Print(c, ATOM, Nil)));
  }

  /** Operators of one level associate to the left. */
  lemma {:induction false} LeftAssociative(op: Op, next: Op, a: Ast, b: Ast, c: Ast)
    requires IsAtom(a) && IsAtom(b) && IsAtom(c) && Power(op) == Power(next)
    ensures Parse(InfixChain(a, Cons((op, b), Cons((next, c), Nil)), Nil)) == Ok(Binary(next, Binary(op, a, b), c), Nil)
  {
    ThreeChain(op, next, a, b, c);
    LoosePrint(next, Binary(op, a, b), c, Nil);
    AtomsPrint(op, a, b, Power(next), Cons(Infix(next), Print(c, ATOM, Nil)));
    ParsePrint(Binary(next, Binary(op, a, b), c));
  }

  /** The operators that take the operand between them and an operator before them. */
  predicate Takes(next: Op, op: Op) {
    match op
    case OR => next != OR
    case AND => next !in {OR, AND}
    case EQ | NE => next in {GT, GE, LT, LE, PLUS, MINUS, STAR, SLASH, PERCENT}
    case GT | GE | LT | LE => next in {PLUS, MINUS, STAR, SLASH, PERCENT}
    case PLUS | MINUS => next in {STAR, SLASH, PERCENT}
    case STAR | SLASH | PERCENT => false
  }

  /** Any two operators in a row: the second takes the operand between them, or the first does. */
  lemma PrecedenceExact(op: Op, next: Op, a: Ast, b: Ast, c: Ast)
    requires IsAtom(a) && IsAtom(b) && IsAtom(c)
    ensures Parse(InfixChain(a, Cons((op, b), Cons((next, c), Nil)), Nil))
        == Ok(if Takes(next, op) then Binary(op, a, Binary(next, b, c)) else Binary(next, Binary(op, a, b), c), Nil)
  {
    ThreeChain(op, next, a, b, c);
    var end := Print(c, ATOM, Nil);
    if Takes(next, op) {
      AtomsPrint(next, b, c, Power(op) + 1, Nil);
      BinaryPrint(op, a, Binary(next, b, c), 0, Nil);
      ParsePrint(Binary(op, a, Binary(next, b, c)));
    } else {
      LoosePrint(next, Binary(op, a, b), c, Nil);
      AtomsPrint(op, a, b, Power(next), Cons(Infix(next), end));
      ParsePrint(Binary(next, Binary(op, a, b), c));
    }
  }

  /** `[..]` after `in`, and what follows. */
  function InList(items: List<Ast>, rest: Tokens): Tokens {
    Cons(Id("in"), Cons(LBracket, PrintItems(items, RBracket, rest)))
  }

  lemma {:induction false} InPrint(left: Ast, items: List<Ast>, level: nat, rest: Tokens)
    requires level <= IN_POWER
    ensures Print(In(left, items), level, rest) == Print(left, IN_POWER, InList(items, rest))
  {
  }

  lemma {:induction false} TwoChain(op: Op, a: Ast, b: Ast, end: Tokens)
    ensures InfixChain(a, Cons((op, b), Nil), end) == Print(a, ATOM, Cons(Infix(op), Print(b, ATOM, end)))
  {
    assert InfixChain(b, Nil, end) == Print(b, ATOM, end);
  }

  /** Membership is tighter than or and and, and looser than every other operator. */
  lemma {:induction false} InReaches(op: Op, a: Ast, b: Ast, items: List<Ast>)
    requires IsAtom(a) && IsAtom(b) && AllWellFormed(items)
    ensures Parse(InfixChain(a, Cons((op, b), Nil), InList(items, Nil)))
        == Ok(if op in {OR, AND} then Binary(op, a, In(b, items)) else In(Binary(op, a, b), items), Nil)
  {
    var end := InList(items, Nil);
    TwoChain(op, a, b, end);
    if op in {OR, AND} {
      InPrint(b, items, Power(op) + 1, Nil);
      AtomPrint(b, IN_POWER, end);
      BinaryPrint(op, a, In(b, items), 0, Nil);
      ParsePrint(Binary(op, a, In(b, items)));
    } else {
      InPrint(Binary(op, a, b), items, 0, Nil);
      AtomsPrint(op, a, b, IN_POWER, end);
      ParsePrint(In(Binary(op, a, b), items));
    }
  }

  /** A minus sign is tighter than membership, and a negation looser. */
  lemma {:induction false} SignedIn(a: Ast, items: List<Ast>)
    requires IsAtom(a) && AllWellFormed(items)
    ensures Parse(Cons(Infix(MINUS), Print(a, ATOM, InList(items, Nil)))) == Ok(In(Neg(a), items), Nil)
    ensures Parse(Cons(NotSign, Print(a, ATOM, InList(items, Nil)))) == Ok(Not(In(a, items)), Nil)
  {
    var end := InList(items, Nil);
    AtomPrint(a, NEG_POWER + 1, end);
    AtomPrint(a, IN_POWER, end);
    InPrint(Neg(a), items, 0, Nil);
    InPrint(a, items, 0, Nil);
    ParsePrint(In(Neg(a), items));
    ParsePrint(Not(In(a, items)));
  }

  lemma {:induction false} ListReads(items: List<Ast>, power: nat, rest: Tokens)
    requires AllWellFormed(items)
    ensures Expr(power, Cons(LBracket, PrintItems(items, RBracket, rest))) == Climb(power, ListLiteral(items), rest)
  {
    ItemsRead(items, RBracket, rest);
    StartReads(power, Cons(LBracket, PrintItems(items, RBracket, rest)), ListLiteral(items), rest);
  }

  lemma {:induction false} ClimbBeyondList(left: Ast, tokens: Tokens, right: Ast)
    requires Expr(IN_POWER, tokens) == Ok(right, Nil) && !right.ListLiteral?
    ensures Climb(0, left, Cons(Id("in"), tokens)) == Fail
  {
  }

  /** After a membership only or, and and another membership can follow; any other operator is a syntax error. */
  lemma {:induction false} InEnds(op: Op, a: Ast, b: Ast, items: List<Ast>)
    requires IsAtom(a) && IsAtom(b) && AllWellFormed(items)
    ensures Parse(Print(a, ATOM, InList(items, Cons(Infix(op), Print(b, ATOM, Nil)))))
        == if op in {OR, AND} then Ok(Binary(op, In(a, items), b), Nil) else Fail
  {
    var end := Cons(Infix(op), Print(b, ATOM, Nil));
    if op in {OR, AND} {
      AtomPrint(a, IN_POWER, InList(items, end));
      InPrint(a, items, Power(op), end);
      LoosePrint(op, In(a, items), b, Nil);
      ParsePrint(Binary(op, In(a, items), b));
    } else {
      AtomReads(a, 0, InList(items, end));
      ListReads(items, IN_POWER, end);
      AtomReads(b, Power(op), Nil);
      ClimbInfix(IN_POWER, ListLiteral(items), op, Print(b, ATOM, Nil), b, Nil);
      ClimbBeyondList(a, Cons(LBracket, PrintItems(items, RBracket, end)), Binary(op, ListLiteral(items), b));
    }
  }

  /** Memberships in a row associate to the left. */
  lemma {:induction false} InChain(a: Ast, items: List<Ast>, more: List<Ast>)
    requires IsAtom(a) && AllWellFormed(items) && AllWellFormed(more)
    ensures Parse(Print(a, ATOM, InList(items, InList(more, Nil)))) == Ok(In(In(a, items), more), Nil)
  {
    var end := InList(more, Nil);
    AtomPrint(a, IN_POWER, InList(items, end));
    InPrint(a, items, IN_POWER, end);
    InPrint(In(a, items), more, 0, Nil);
    ParsePrint(In(In(a, items), more));
  }

  lemma {:induction false} TernaryPrint(c: Ast, t: Ast, f: Ast)
    ensures Print(Ternary(c, t, f), 0, Nil)
        == Print(c, QUESTION_POWER + 1, Cons(Question, Print(t, 0, Cons(Colon, Print(f, 0, Nil)))))
  {
  }

  /** A ternary is looser than every operator: its condition and its last branch reach over any of them. */
  lemma {:induction false} TernaryReaches(op: Op, a: Ast, b: Ast, t: Ast, c: Ast, d: Ast)
    requires IsAtom(a) && IsAtom(b) && WellFormed(t) && IsAtom(c) && IsAtom(d)
    ensures Parse(InfixChain(a, Cons((op, b), Nil), Cons(Question, Print(t, 0, Cons(Colon, InfixChain(c, Cons((op, d), Nil), Nil))))))
        == Ok(Ternary(Binary(op, a, b), t, Binary(op, c, d)), Nil)
  {
    TwoChain(op, c, d, Nil);
    AtomsPrint(op, c, d, 0, Nil);
    var end := Cons(Question, Print(t, 0, Cons(Colon, Print(Binary(op, c, d), 0, Nil))));
    TwoChain(op, a, b, end);
    AtomsPrint(op, a, b, QUESTION_POWER + 1, end);
    TernaryPrint(Binary(op, a, b), t, Binary(op, c, d));
    ParsePrint(Ternary(Binary(op, a, b), t, Binary(op, c, d)));
  }

  /** A negation reaches over the whole expression that follows it. */
  lemma {:induction false} NotReaches(op: Op, a: Ast, b: Ast)
    requires IsAtom(a) && IsAtom(b)
    ensures Parse(Cons(NotSign, InfixChain(a, Cons((op, b), Nil), Nil))) == Ok(Not(Binary(op, a, b)), Nil)
  {
    BinaryPrint(op, a, b, 0, Nil);
    AtomPrint(b, Power(op) + 1, Nil);
    ParsePrint(Not(Binary(op, a, b)));
  }

  /** A minus sign reaches over a product, and over nothing looser. */
  lemma {:induction false} MinusReaches(op: Op, a: Ast, b: Ast)
    requires IsAtom(a) && IsAtom(b)
    ensures Parse(Cons(Infix(MINUS), InfixChain(a, Cons((op, b), Nil), Nil)))
        == Ok(if op in {STAR, SLASH, PERCENT} then Neg(Binary(op, a, b)) else Binary(op, Neg(a), b), Nil)
  {
    AtomPrint(b, Power(op) + 1, Nil);
    if op in {STAR, SLASH, PERCENT} {
      BinaryPrint(op, a, b, NEG_POWER + 1, Nil);
      ParsePrint(Neg(Binary(op, a, b)));
    } else {
      var end := Cons(Infix(op), Print(b, ATOM, Nil));
      AtomPrint(a, NEG_POWER + 1, end);
      assert Print(Neg(a), Power(op), end) == Cons(Infix(MINUS), Print(a, ATOM, end));
      ParsePrint(Binary(op, Neg(a), b));
    }
  }

  // ----- what parsing keeps of the text -----

  /** The tokens without parentheses and commas. */
  function Bare(tokens: Tokens): Tokens {
    match tokens
    case Nil => Nil
    case Cons(token, rest) => if token in {LParen, RParen, Comma} then Bare(rest) else Cons(token, Bare(rest))
  }

  /** The tokens of a tree, read from left to right. */
  function Yield(e: Ast, rest: Tokens): Tokens {
    match e
    case Literal(v) => Cons(Const(v), rest)
    case ListLiteral(items) => Cons(LBracket, YieldAll(items, Cons(RBracket, rest)))
    case Ident(name) => Cons(Id(name), rest)
    case Attr(obj, name) => Yield(obj, Cons(Dot, Cons(Id(name), rest)))
    case Call(func, args) => Yield(func, YieldAll(args, rest))
    case Not(expr) => Cons(NotSign, Yield(expr, rest))
    case Neg(expr) => Cons(Infix(MINUS), Yield(expr, rest))
    case Binary(op, left, right) => Yield(left, Cons(Infix(op), Yield(right, rest)))
    case In(left, items) => Yield(left, Cons(Id("in"), Cons(LBracket, YieldAll(items, Cons(RBracket, rest)))))
    case Ternary(c, t, f) => Yield(c, Cons(Question, Yield(t, Cons(Colon, Yield(f, rest)))))
  }

  function YieldAll(items: List<Ast>, rest: Tokens): Tokens {
    match items
    case Nil => rest
    case Cons(e, more) => Yield(e, YieldAll(more, rest))
  }

  lemma {:induction false} ExprYields(power: nat, tokens: Tokens)
    requires Expr(power, tokens).Ok?
    ensures var r := Expr(power, tokens); Bare(tokens) == Yield(r.value, Bare(r.rest))
    decreases Size(tokens), 1
  {
    NudYields(tokens.head, tokens.tail);
    var r := Nud(tokens.head, tokens.tail);
    ClimbYields(power, r.value, r.rest);
  }

  lemma {:induction false} ClimbYields(power: nat, left: Ast, tokens: Tokens)
    requires Climb(power, left, tokens).Ok?
    ensures var r := Climb(power, left, tokens); Yield(left, Bare(tokens)) == Yield(r.value, Bare(r.rest))
    decreases Size(tokens), 0
  {
    if LeftPower(tokens) > power {
      LedYields(left, tokens.head, tokens.tail);
      var r := Led(left, tokens.head, tokens.tail);
      ClimbYields(power, r.value, r.rest);
    }
  }

  lemma {:induction false} NudYields(token: Token, tokens: Tokens)
    requires Nud(token, tokens).Ok?
    ensures var r := Nud(token, tokens); Bare(Cons(token, tokens)) == Yield(r.value, Bare(r.rest))
    decreases Size(tokens), 3
  {
    match token {
      case Id(name) => PostfixYields(Ident(name), tokens);
      case LParen => ParenYields(tokens);
      case LBracket => ItemsYield(RBracket, tokens);
      case NotSign => ExprYields(0, tokens);
      case Infix(op) => MinusYields(op, tokens);
      case _ =>
    }
  }

  lemma {:induction false} ParenYields(tokens: Tokens)
    requires Nud(LParen, tokens).Ok?
    ensures var r := Nud(LParen, tokens); Bare(tokens) == Yield(r.value, Bare(r.rest))
    decreases Size(tokens), 2
  {
    ExprYields(0, tokens);
    var inner := Expr(0, tokens);
    assert inner.rest.head == RParen && Nud(LParen, tokens) == Ok(inner.value, inner.rest.tail);
  }

  lemma {:induction false} NudMinus(op: Op, tokens: Tokens)
    requires Nud(Infix(op), tokens).Ok?
    ensures var inner := Expr(NEG_POWER, tokens);
      op == MINUS && inner.Ok? && Nud(Infix(op), tokens) == Ok(Neg(inner.value), inner.rest)
  {
  }

  lemma {:induction false} LedInfix(left: Ast, op: Op, tokens: Tokens)
    requires Led(left, Infix(op), tokens).Ok?
    ensures var right := Expr(Power(op), tokens);
      right.Ok? && Led(left, Infix(op), tokens) == Ok(Binary(op, left, right.value), right.rest)
  {
  }

  lemma {:induction false} LedIn(left: Ast, tokens: Tokens)
    requires Led(left, Id("in"), tokens).Ok?
    ensures var right := Expr(IN_POWER, tokens);
      right.Ok? && right.value.ListLiteral? && Led(left, Id("in"), tokens) == Ok(In(left, right.value.items), right.rest)
  {
  }

  lemma {:induction false} MinusYields(op: Op, tokens: Tokens)
    requires Nud(Infix(op), tokens).Ok?
    ensures var r := Nud(Infix(op), tokens); Cons(Infix(op), Bare(tokens)) == Yield(r.value, Bare(r.rest))
    decreases Size(tokens), 2
  {
    NudMinus(op, tokens);
    ExprYields(NEG_POWER, tokens);
  }

  lemma {:induction false} PostfixYields(left: Ast, tokens: Tokens)
    requires Postfix(left, tokens).Ok?
    ensures var r := Postfix(left, tokens); Yield(left, Bare(tokens)) == Yield(r.value, Bare(r.rest))
    decreases Size(tokens), 0
  {
    if tokens.Cons? && tokens.head == Dot {
      PostfixDot(left, tokens.tail);
      assert Size(tokens) == 2 + Size(tokens.tail.tail);
      PostfixYields(Attr(left, tokens.tail.head.name), tokens.tail.tail);
    } else if tokens.Cons? && tokens.head == LParen {
      PostfixCall(left, tokens.tail);
      ItemsYield(RParen, tokens.tail);
      var r := Items(RParen, tokens.tail);
      PostfixYields(Call(left, r.value), r.rest);
    } else {
      PathEnds(left, tokens);
    }
  }

  lemma {:induction false} PostfixDot(left: Ast, tail: Tokens)
    requires Postfix(left, Cons(Dot, tail)).Ok?
    ensures tail.Cons? && tail.head.Id? && Postfix(left, Cons(Dot, tail)) == Postfix(Attr(left, tail.head.name), tail.tail)
  {
  }

  lemma {:induction false} PostfixCall(left: Ast, tail: Tokens)
    requires Postfix(left, Cons(LParen, tail)).Ok?
    ensures var r := Items(RParen, tail); r.Ok? && Postfix(left, Cons(LParen, tail)) == Postfix(Call(left, r.value), r.rest)
  {
  }

  lemma {:induction false} ItemsYield(close: Token, tokens: Tokens)
    requires Items(close, tokens).Ok? && close in {RParen, RBracket}
    ensures var r := Items(close, tokens); Bare(tokens) == YieldAll(r.value, Bare(Cons(close, r.rest)))
    decreases Size(tokens), 2
  {
    if tokens.head != close {
      ExprYields(0, tokens);
      var rest := Expr(0, tokens).rest;
      if rest.Cons? && rest.head == Comma {
        ItemsYield(close, rest.tail);
      }
    }
  }

  lemma {:induction false} LedYields(left: Ast, token: Token, tokens: Tokens)
    requires Led(left, token, tokens).Ok? && (token.Id? ==> token.name == "in")
    ensures var r := Led(left, token, tokens); Yield(left, Cons(token, Bare(tokens))) == Yield(r.value, Bare(r.rest))
    ensures Bare(Cons(token, tokens)) == Cons(token, Bare(tokens))
    decreases Size(tokens), 3
  {
    if token.Infix? {
      InfixYields(left, token.op, tokens);
    } else if token.Id? {
      InYields(left, tokens);
    } else {
      assert token == Question;
      TernaryYields(left, tokens);
    }
  }

  lemma {:induction false} InfixYields(left: Ast, op: Op, tokens: Tokens)
    requires Led(left, Infix(op), tokens).Ok?
    ensures var r := Led(left, Infix(op), tokens); Yield(left, Cons(Infix(op), Bare(tokens))) == Yield(r.value, Bare(r.rest))
    decreases Size(tokens), 2
  {
    LedInfix(left, op, tokens);
    ExprYields(Power(op), tokens);
  }

  lemma {:induction false} InYields(left: Ast, tokens: Tokens)
    requires Led(left, Id("in"), tokens).Ok?
    ensures var r := Led(left, Id("in"), tokens); Yield(left, Cons(Id("in"), Bare(tokens))) == Yield(r.value, Bare(r.rest))
    decreases Size(tokens), 2
  {
    LedIn(left, tokens);
    ExprYields(IN_POWER, tokens);
  }

  lemma {:induction false} TernaryYields(c: Ast, tokens: Tokens)
    requires Led(c, Question, tokens).Ok?
    ensures var r := Led(c, Question, tokens); Yield(c, Cons(Question, Bare(tokens))) == Yield(r.value, Bare(r.rest))
    decreases Size(tokens), 2
  {
    var t := Expr(0, tokens);
    var f := Expr(QUESTION_POWER - 1, t.rest.tail);
    LedTernary(c, tokens, t.value, t.rest.tail, f.value, f.rest);
    ExprYields(0, tokens);
    ExprYields(QUESTION_POWER - 1, t.rest.tail);
  }

  /** Parsing neither drops, adds nor reorders: parentheses and commas apart, an accepted text is its tree read from left to right. */
  lemma ParseYields(tokens: Tokens)
    requires Parse(tokens).Ok?
    ensures Bare(tokens) == Yield(Parse(tokens).value, Nil)
  {
    ExprYields(0, tokens);
  }
}
