/**
 * The two evaluations of a CEL expression, case by case: which expressions compile to SQL, how values
 * compare, and what a field that is not set reads as.
 */
module CelSqlMeaning {
  import opened CelParser
  import opened CelSql
  import opened Wrappers

  // ----- what compiles -----

  ghost predicate IsNull(e: Ast) {
    e == Literal(Null) || e == Ident("null")
  }

  /** An expression that compiles; any other is left to Python. */
  ghost predicate Compiles(e: Ast) {
    match e
    case Literal(_) => true
    case Ident(name) => name != "r"
    case Attr(obj, _) => obj == Ident("r")
    case Not(expr) => Compiles(expr)
    case Ternary(c, t, f) => Compiles(c) && Compiles(t) && Compiles(f)
    case Binary(op, left, right) =>
      if op == AND || op == OR then Compiles(left) && Compiles(right)
      else if op in {EQ, NE} then (IsNull(left) || Compiles(left)) && (IsNull(right) || Compiles(right))
      else
        && op in {GT, GE, LT, LE}
        && !IsNull(left) && !IsNull(right) && Compiles(left) && Compiles(right)
    case _ => false
  }

  lemma {:induction false} CompiledExactly(e: Ast)
    ensures ToSql(e).Some? <==> Compiles(e)
    decreases e, 1
  {
    match e {
      case Not(expr) => CompiledExactly(expr);
      case Binary(_, left, right) =>
        CompiledExactly(left);
        CompiledExactly(right);
      case Ternary(_, _, _) => BranchesExactly(e);
      case _ =>
    }
  }

  lemma {:induction false} BranchesExactly(e: Ast)
    ensures Branches(e).Some? <==> Compiles(e)
    decreases e, if e.Ternary? then 0 else 2
  {
    if e.Ternary? {
      CompiledExactly(e.condition);
      CompiledExactly(e.trueExpr);
      BranchesExactly(e.falseExpr);
    } else {
      CompiledExactly(e);
    }
  }

  /** The names that stand for values, and any other name for a column of the record. */
  lemma NamesCompile(name: string, env: Env)
    requires name != "r"
    ensures ToSql(Ident(name)).Some?
    ensures SqlEval(ToSql(Ident(name)).value, env) ==
        if name == "null" then Some(Null)
        else if name == "true" then Some(Bool(true))
        else if name == "false" then Some(Bool(false))
        else if name in env.row then Some(env.row[name])
        else None
  {
  }

  // ----- how values compare -----

  /** Numbers compare as numbers, true and false being one and zero; days as days; texts by the order given. */
  lemma ComparesMeaning(m: int, n: int, p: bool, q: bool, s: string, t: string, less: StringOrder)
    ensures Compares(EQ, Num(m), Num(n), less) == (m == n) && Compares(LT, Num(m), Num(n), less) == (m < n)
    ensures Compares(LE, Num(m), Num(n), less) == (m <= n)
    ensures Compares(EQ, Bool(p), Bool(q), less) == (p == q) && Compares(LT, Bool(p), Bool(q), less) == (!p && q)
    ensures Compares(EQ, Num(n), Bool(p), less) == (n == if p then 1 else 0)
    ensures Compares(LT, Num(n), Bool(p), less) == (n < if p then 1 else 0)
    ensures Compares(LE, Num(n), Bool(p), less) == (n <= if p then 1 else 0)
    ensures Compares(LE, Bool(p), Num(n), less) == ((if p then 1 else 0) <= n)
    ensures Compares(EQ, Day(m), Day(n), less) == (m == n) && Compares(LT, Day(m), Day(n), less) == (m < n)
    ensures Compares(LE, Day(m), Day(n), less) == (m <= n)
    ensures Compares(EQ, Str(s), Str(t), less) == (s == t) && Compares(LT, Str(s), Str(t), less) == less(s, t)
    ensures Compares(LE, Str(s), Str(t), less) == (s == t || less(s, t))
  {
  }

  /** Links compare as sets of records of one model: the empty one comes before any other. */
  lemma LinksCompare(m: nat, i: nat, n: nat, j: nat, less: StringOrder)
    ensures Compares(EQ, Link(m, i), Link(n, j), less) == (m == n && i == j)
    ensures Compares(LT, Link(m, i), Link(n, j), less) == (m == n && i == 0 && j > 0)
    ensures Compares(LE, Link(m, i), Link(n, j), less) == (m == n && (i == 0 || i == j))
  {
  }

  /** The other comparisons are negations and converses of these. */
  lemma ComparesConverse(a: Value, b: Value, less: StringOrder)
    ensures Compares(NE, a, b, less) == !Compares(EQ, a, b, less)
    ensures Compares(GT, a, b, less) == Compares(LT, b, a, less)
    ensures Compares(GE, a, b, less) == Compares(LE, b, a, less)
  {
  }

  /** Values that compare as numbers. */
  predicate Numeric(v: Value) {
    v.Num? || v.Bool?
  }

  predicate OneKind(a: Value, b: Value) {
    || (Numeric(a) && Numeric(b))
    || (a.Str? && b.Str?) || (a.Day? && b.Day?) || (a.Link? && b.Link?) || (a.Null? && b.Null?)
  }

  /** Values of two kinds are never equal and never ordered; neither is null with itself. */
  lemma KindsApart(a: Value, b: Value, less: StringOrder)
    ensures !OneKind(a, b) ==> !Compares(EQ, a, b, less) && !Compares(LT, a, b, less) && !Compares(LE, a, b, less)
    ensures Compares(EQ, Null, Null, less) && !Compares(LT, Null, Null, less) && !Compares(LE, Null, Null, less)
  {
  }

  // ----- what CEL reads -----

  /** A stored field reads as it is, a link as the record it points to; one not set as zero, an empty link or False. */
  lemma FieldReads(env: Env, name: string)
    requires env.Valid()
    ensures Eval(Attr(Ident("r"), name), env) ==
        if name !in env.row then Null
        else match env.row[name]
             case Null => (match env.schema[name]
                           case Number => Num(0)
                           case LinkTo(model) => Link(model, 0)
                           case Text | Flag | Date => Bool(false))
             case Num(n) => (match env.schema[name]
                             case LinkTo(model) => Link(model, n)
                             case _ => Num(n))
             case v => v
  {
  }

  /** What counts as true, and how the connectives and the ternary use it. */
  lemma TruthMeaning(e: Ast, other: Ast, third: Ast, env: Env)
    ensures Truthy(Eval(e, env)) <==> Eval(e, env) !in {Null, Bool(false), Num(0), Str("")}
                                      && forall model :: Eval(e, env) != Link(model, 0)
    ensures Eval(Not(e), env) == Bool(!Truthy(Eval(e, env)))
    ensures Eval(Binary(AND, e, other), env) == Bool(Truthy(Eval(e, env)) && Truthy(Eval(other, env)))
    ensures Eval(Binary(OR, e, other), env) == Bool(Truthy(Eval(e, env)) || Truthy(Eval(other, env)))
    ensures Eval(Ternary(e, other, third), env) == Eval(if Truthy(Eval(e, env)) then other else third, env)
  {
  }

  // ----- SQL's logic -----

  /** SQL's connectives take unknown as either truth value: the result is known where both give the same. */
  lemma ThreeValued(a: Value, b: Value)
    requires IsLogical(a) && IsLogical(b)
    ensures forall v :: And3(a, b) == Bool(v) <==> forall p, q :: CouldBe(a, p) && CouldBe(b, q) ==> (p && q) == v
    ensures forall v :: Or3(a, b) == Bool(v) <==> forall p, q :: CouldBe(a, p) && CouldBe(b, q) ==> (p || q) == v
  {
    forall v
      ensures And3(a, b) == Bool(v) <==> forall p, q :: CouldBe(a, p) && CouldBe(b, q) ==> (p && q) == v
      ensures Or3(a, b) == Bool(v) <==> forall p, q :: CouldBe(a, p) && CouldBe(b, q) ==> (p || q) == v
    {
      Possible(a);
      Possible(b);
    }
  }

  /** A truth value that a logical one may stand for. */
  predicate CouldBe(a: Value, p: bool) {
    a == Null || a == Bool(p)
  }

  lemma Possible(a: Value)
    requires IsLogical(a)
    ensures CouldBe(a, true) || CouldBe(a, false)
    ensures a == Null ==> CouldBe(a, true) && CouldBe(a, false)
  {
  }

  // ----- expressions that never raise -----

  datatype SqlType = Logical | Numeral | Textual | Dated

  /** A value of a type, or NULL, which is of every type. */
  predicate IsOf(v: Value, t: SqlType) {
    match v
    case Null => true
    case Bool(_) => t == Logical
    case Num(_) => t == Numeral
    case Str(_) => t == Textual
    case Day(_) => t == Dated
    case Link(_, _) => false
  }

  /** The type of a column; a link is stored as the number of its record. */
  function ColumnType(kind: Kind): SqlType {
    match kind
    case Number | LinkTo(_) => Numeral
    case Text => Textual
    case Flag => Logical
    case Date => Dated
  }

  /** The expression is well typed: comparisons are between two of one type, and conditions are logical. */
  ghost predicate HasType(s: Sql, t: SqlType, schema: Schema) {
    match s
    case Constant(v) => IsOf(v, t)
    case Column(name) => name in schema && ColumnType(schema[name]) == t
    case Comparison(_, left, right) => t == Logical && exists u :: HasType(left, u, schema) && HasType(right, u, schema)
    case IsNull(expr) => t == Logical && exists u :: HasType(expr, u, schema)
    case IsNotNull(expr) => t == Logical && exists u :: HasType(expr, u, schema)
    case SqlAnd(left, right) => t == Logical && HasType(left, Logical, schema) && HasType(right, Logical, schema)
    case SqlOr(left, right) => t == Logical && HasType(left, Logical, schema) && HasType(right, Logical, schema)
    case SqlNot(expr) => t == Logical && HasType(expr, Logical, schema)
    case Case(whens, otherwise) =>
      && (forall i :: 0 <= i < |whens| ==> HasType(whens[i].condition, Logical, schema) && HasType(whens[i].result, t, schema))
      && HasType(otherwise, t, schema)
  }

  /** A well-typed expression raises on no record of its schema: it has a value of its type, or NULL. */
  lemma {:induction false} NeverRaises(s: Sql, t: SqlType, env: Env)
    requires env.Valid() && HasType(s, t, env.schema)
    ensures SqlEval(s, env).Some? && IsOf(SqlEval(s, env).value, t)
    decreases s, if s.Case? then |s.whens| + 1 else 0
  {
    match s {
      case Constant(_) =>
      case Column(name) => assert Fits(env.schema[name], env.row[name]);
      case Comparison(_, left, right) =>
        var u :| HasType(left, u, env.schema) && HasType(right, u, env.schema);
        NeverRaises(left, u, env);
        NeverRaises(right, u, env);
      case IsNull(expr) =>
        var u :| HasType(expr, u, env.schema);
        NeverRaises(expr, u, env);
      case IsNotNull(expr) =>
        var u :| HasType(expr, u, env.schema);
        NeverRaises(expr, u, env);
      case SqlAnd(left, right) =>
        NeverRaises(left, Logical, env);
        NeverRaises(right, Logical, env);
      case SqlOr(left, right) =>
        NeverRaises(left, Logical, env);
        NeverRaises(right, Logical, env);
      case SqlNot(expr) => NeverRaises(expr, Logical, env);
      case Case(_, _) => CaseNeverRaises(s, t, 0, env);
    }
  }

  lemma {:induction false} CaseNeverRaises(s: Sql, t: SqlType, i: nat, env: Env)
    requires env.Valid() && s.Case? && i <= |s.whens| && HasType(s, t, env.schema)
    ensures CaseEval(s, i, env).Some? && IsOf(CaseEval(s, i, env).value, t)
    decreases s, |s.whens| - i
  {
    if i == |s.whens| {
      NeverRaises(s.otherwise, t, env);
    } else {
      NeverRaises(s.whens[i].condition, Logical, env);
      if SqlEval(s.whens[i].condition, env) == Some(Bool(true)) {
        NeverRaises(s.whens[i].result, t, env);
      } else {
        CaseNeverRaises(s, t, i + 1, env);
      }
    }
  }

  /** A comparison is unknown if an operand is NULL, and raises exactly if its operands are set and of no one type. */
  lemma ComparisonRaises(op: Op, left: Sql, right: Sql, a: Value, b: Value, env: Env)
    requires SqlEval(left, env) == Some(a) && SqlEval(right, env) == Some(b)
    ensures a == Null || b == Null ==> SqlEval(Comparison(op, left, right), env) == Some(Null)
    ensures a != Null && b != Null ==>
        SqlEval(Comparison(op, left, right), env)
        == if exists t :: IsOf(a, t) && IsOf(b, t) then Some(Bool(Compares(op, a, b, env.less))) else None
  {
    if a.Bool? && b.Bool? {
      assert IsOf(a, Logical) && IsOf(b, Logical);
    } else if a.Num? && b.Num? {
      assert IsOf(a, Numeral) && IsOf(b, Numeral);
    } else if a.Str? && b.Str? {
      assert IsOf(a, Textual) && IsOf(b, Textual);
    } else if a.Day? && b.Day? {
      assert IsOf(a, Dated) && IsOf(b, Dated);
    }
  }

  /** The connectives raise exactly if an operand is set and no truth value. */
  lemma ConnectivesRaise(left: Sql, right: Sql, a: Value, b: Value, env: Env)
    requires SqlEval(left, env) == Some(a) && SqlEval(right, env) == Some(b)
    ensures SqlEval(SqlAnd(left, right), env) == if IsOf(a, Logical) && IsOf(b, Logical) then Some(And3(a, b)) else None
    ensures SqlEval(SqlOr(left, right), env) == if IsOf(a, Logical) && IsOf(b, Logical) then Some(Or3(a, b)) else None
    ensures SqlEval(SqlNot(left), env)
         == if a == Null then Some(Null) else if IsOf(a, Logical) then Some(Bool(a == Bool(false))) else None
  {
  }
}
