/**
 * Compilation of CEL value expressions to SQL: `to_sql_case` and its helpers in
 * spp_cel_domain/models/cel_translator.py, `comparison` in cel_sql_builder.py, and the direct
 * evaluation (`evaluate`, `_compare`) of services/cel_parser.py that the SQL must agree with.
 *
 * SQL is evaluated with its three-valued logic: a comparison with NULL is NULL, and a WHEN branch
 * is taken only for TRUE. CEL reads the fields of an ORM record, where NULL reads as False, zero or
 * an empty recordset and never as null (`_evaluate_expression` of
 * spp_metric_service/models/demographic_dimension.py, which evaluates what is compiled here).
 */
module CelSql {
  import opened CelParser
  import opened Lists
  import opened Wrappers

  /** What a field stores. A link holds the id of a record of its model. */
  datatype Kind = Number | Text | Flag | Date | LinkTo(model: nat)

  /** An order on strings: both sides are given the same one. */
  type StringOrder = (string, string) -> bool

  /** A record: its fields' kinds, what the database holds for them, and the order of strings. */
  datatype Env = Env(schema: map<string, Kind>, row: map<string, Value>, less: StringOrder)
  {
    ghost predicate Valid() {
      schema.Keys == row.Keys && forall name :: name in row ==> Fits(schema[name], row[name])
    }
  }

  predicate Fits(kind: Kind, v: Value) {
    v.Null? || match kind
               case Number => v.Num?
               case Text => v.Str?
               case Flag => v.Bool?
               case Date => v.Day?
               case LinkTo(_) => v.Num? && v.n > 0
  }

  datatype Sql =
    | Constant(v: Value)
    | Column(name: string)
    | Comparison(op: Op, left: Sql, right: Sql)
    | IsNull(expr: Sql)
    | IsNotNull(expr: Sql)
    | SqlAnd(left: Sql, right: Sql)
    | SqlOr(left: Sql, right: Sql)
    | SqlNot(expr: Sql)
    | Case(whens: seq<When>, otherwise: Sql)

  datatype When = When(condition: Sql, result: Sql)

  // ----- direct evaluation -----

  /** What the ORM reads for NULL: zero, an empty recordset, or False. */
  function NullRead(kind: Kind): Value {
    match kind
    case Number => Num(0)
    case LinkTo(model) => Link(model, 0)
    case _ => Bool(false)
  }

  /** What CEL reads of a stored value: the attribute of an ORM record. */
  function Read(kind: Kind, v: Value): Value {
    if v.Null? then NullRead(kind)
    else match kind
         case LinkTo(model) => if v.Num? && v.n >= 0 then Link(model, v.n) else v
         case _ => v
  }

  function Lookup(env: Env, name: string): Value {
    if name in env.row && name in env.schema then Read(env.schema[name], env.row[name]) else Null
  }

  /** Python truthiness. */
  predicate Truthy(v: Value) {
    match v
    case Null => false
    case Bool(b) => b
    case Num(n) => n != 0
    case Str(s) => s != ""
    case Day(_) => true
    case Link(_, id) => id != 0
  }

  /** Python counts its booleans as numbers. */
  function AsNumber(v: Value): Option<int> {
    match v
    case Num(n) => Some(n)
    case Bool(b) => Some(if b then 1 else 0)
    case _ => None
  }

  predicate Equal(a: Value, b: Value) {
    if AsNumber(a).Some? && AsNumber(b).Some? then AsNumber(a) == AsNumber(b) else a == b
  }

  /** `<`: values that have no order compare false; recordsets compare as sets. */
  predicate Less(a: Value, b: Value, less: StringOrder) {
    if AsNumber(a).Some? && AsNumber(b).Some? then AsNumber(a).value < AsNumber(b).value
    else match (a, b)
         case (Str(s), Str(t)) => less(s, t)
         case (Day(x), Day(y)) => x < y
         case (Link(m, i), Link(n, j)) => m == n && i == 0 && j != 0
         case _ => false
  }

  predicate LessOrEqual(a: Value, b: Value, less: StringOrder) {
    if AsNumber(a).Some? && AsNumber(b).Some? then AsNumber(a).value <= AsNumber(b).value
    else match (a, b)
         case (Str(s), Str(t)) => s == t || less(s, t)
         case (Day(x), Day(y)) => x <= y
         case (Link(m, i), Link(n, j)) => m == n && (i == 0 || i == j)
         case _ => false
  }

  /** `_compare`. */
  function Compares(op: Op, a: Value, b: Value, less: StringOrder): bool {
    match op
    case EQ => Equal(a, b)
    case NE => !Equal(a, b)
    case LT => Less(a, b, less)
    case GT => Less(b, a, less)
    case LE => LessOrEqual(a, b, less)
    case GE => LessOrEqual(b, a, less)
    case _ => false
  }

  predicate IsComparison(op: Op) {
    op in {EQ, NE, GT, GE, LT, LE}
  }

  /** `evaluate` over the context `r`: other names are not in it, and read as null. */
  function Eval(e: Ast, env: Env): Value {
    match e
    case Literal(v) => v
    case Attr(Ident("r"), name) => Lookup(env, name)
    case Not(expr) => Bool(!Truthy(Eval(expr, env)))
    case Ternary(c, t, f) => if Truthy(Eval(c, env)) then Eval(t, env) else Eval(f, env)
    case Binary(op, left, right) =>
      if op == AND then Bool(Truthy(Eval(left, env)) && Truthy(Eval(right, env)))
      else if op == OR then Bool(Truthy(Eval(left, env)) || Truthy(Eval(right, env)))
      else Bool(Compares(op, Eval(left, env), Eval(right, env), env.less))
    case _ => Null
  }

  // ----- SQL evaluation -----

  /** SQL connectives take booleans or NULL. */
  predicate IsLogical(v: Value) {
    v.Null? || v.Bool?
  }

  function And3(a: Value, b: Value): Value {
    if a == Bool(false) || b == Bool(false) then Bool(false)
    else if a == Null || b == Null then Null
    else Bool(true)
  }

  function Or3(a: Value, b: Value): Value {
    if a == Bool(true) || b == Bool(true) then Bool(true)
    else if a == Null || b == Null then Null
    else Bool(false)
  }

  predicate SameKind(a: Value, b: Value) {
    (a.Bool? && b.Bool?) || (a.Num? && b.Num?) || (a.Str? && b.Str?) || (a.Day? && b.Day?)
  }

  /** The value of a SQL expression; None when it is ill-typed and the query raises. */
  function SqlEval(s: Sql, env: Env): Option<Value>
    decreases s, if s.Case? then |s.whens| + 1 else 0
  {
    match s
    case Constant(v) => Some(v)
    case Column(name) => if name in env.row then Some(env.row[name]) else None
    case Comparison(op, left, right) =>
      (match (SqlEval(left, env), SqlEval(right, env))
       case (Some(a), Some(b)) =>
         if a == Null || b == Null then Some(Null)
         else if SameKind(a, b) then Some(Bool(Compares(op, a, b, env.less))) else None
       case _ => None)
    case IsNull(expr) => (match SqlEval(expr, env) case Some(v) => Some(Bool(v == Null)) case None => None)
    case IsNotNull(expr) => (match SqlEval(expr, env) case Some(v) => Some(Bool(v != Null)) case None => None)
    case SqlNot(expr) =>
      (match SqlEval(expr, env)
       case Some(v) => if v.Bool? then Some(Bool(!v.b)) else if v.Null? then Some(Null) else None
       case None => None)
    case SqlAnd(left, right) =>
      (match (SqlEval(left, env), SqlEval(right, env))
       case (Some(a), Some(b)) => if IsLogical(a) && IsLogical(b) then Some(And3(a, b)) else None
       case _ => None)
    case SqlOr(left, right) =>
      (match (SqlEval(left, env), SqlEval(right, env))
       case (Some(a), Some(b)) => if IsLogical(a) && IsLogical(b) then Some(Or3(a, b)) else None
       case _ => None)
    case Case(_, _) => CaseEval(s, 0, env)
  }

  /** The branches of a CASE from the i-th on, tried in order. */
  function CaseEval(s: Sql, i: nat, env: Env): Option<Value>
    requires s.Case? && i <= |s.whens|
    decreases s, |s.whens| - i
  {
    if i == |s.whens| then SqlEval(s.otherwise, env)
    else
      match SqlEval(s.whens[i].condition, env)
      case Some(c) =>
        if !IsLogical(c) then None
        else if c == Bool(true) then SqlEval(s.whens[i].result, env)
        else CaseEval(s, i + 1, env)
      case None => None
  }

  // ----- compilation -----

  /** Identifiers that stand for values rather than columns. */
  function Reserved(name: string): Option<Value> {
    if name == "null" then Some(Null)
    else if name == "true" then Some(Bool(true))
    else if name == "false" then Some(Bool(false))
    else None
  }

  predicate IsNullNode(e: Ast) {
    e == Literal(Null) || e == Ident("null")
  }

  function Join(a: Option<Sql>, b: Option<Sql>, op: Op): Option<Sql> {
    match (a, b)
    case (Some(x), Some(y)) =>
      Some(if op == AND then SqlAnd(x, y) else if op == OR then SqlOr(x, y) else Comparison(op, x, y))
    case _ => None
  }

  /** A comparison with null compiles to a null test, or not at all. */
  function NullTest(s: Option<Sql>, op: Op): Option<Sql> {
    match s
    case Some(x) => if op == EQ then Some(IsNull(x)) else if op == NE then Some(IsNotNull(x)) else None
    case None => None
  }

  /** `_ast_to_sql_expr`, as a function; None when the caller must fall back to Python. */
  function ToSql(e: Ast): Option<Sql>
    decreases e, if e.Ternary? then 1 else 0
  {
    match e
    case Literal(v) => Some(Constant(v))
    case Ident(name) =>
      if name == "r" then None
      else if Reserved(name).Some? then Some(Constant(Reserved(name).value))
      else Some(Column(name))
    case Attr(Ident("r"), name) => Some(Column(name))
    case Not(expr) => (match ToSql(expr) case Some(s) => Some(SqlNot(s)) case None => None)
    case Binary(op, left, right) =>
      if op == AND || op == OR then Join(ToSql(left), ToSql(right), op)
      else if !IsComparison(op) then None
      else if IsNullNode(right) then NullTest(ToSql(left), op)
      else if IsNullNode(left) then NullTest(ToSql(right), op)
      else Join(ToSql(left), ToSql(right), op)
    case Ternary(_, _, _) =>
      (match Branches(e)
       case Some((whens, otherwise)) => Some(Case(whens, otherwise))
       case None => None)
    case _ => None
  }

  /** A chain of ternaries, flattened: its WHEN clauses and its ELSE value. */
  function Branches(e: Ast): Option<(seq<When>, Sql)>
    decreases e, if e.Ternary? then 0 else 1
  {
    match e
    case Ternary(c, t, f) =>
      (match (ToSql(c), ToSql(t), Branches(f))
       case (Some(condition), Some(result), Some((whens, otherwise))) =>
         Some(([When(condition, result)] + whens, otherwise))
       case _ => None)
    case _ => (match ToSql(e) case Some(s) => Some(([], s)) case None => None)
  }

  /** WHEN clauses found so far, in front of those of the rest of a chain. */
  function Prepend(whens: seq<When>, rest: Option<(seq<When>, Sql)>): Option<(seq<When>, Sql)> {
    match rest
    case Some((more, otherwise)) => Some((whens + more, otherwise))
    case None => None
  }

  lemma PrependNext(whens: seq<When>, e: Ast)
    requires e.Ternary?
    ensures Prepend(whens, Branches(e)) ==
        if ToSql(e.condition).None? || ToSql(e.trueExpr).None? then None
        else Prepend(whens + [When(ToSql(e.condition).value, ToSql(e.trueExpr).value)], Branches(e.falseExpr))
  {
    if ToSql(e.condition).Some? && ToSql(e.trueExpr).Some? && Branches(e.falseExpr).Some? {
      var when := When(ToSql(e.condition).value, ToSql(e.trueExpr).value);
      var more := Branches(e.falseExpr).value.0;
      assert whens + ([when] + more) == (whens + [when]) + more;
    }
  }

  /** `_ternary_to_case_sql`: walks the chain of false branches in a loop. */
  method TernaryToCase(e: Ast) returns (s: Option<Sql>)
    requires e.Ternary?
    ensures s == ToSql(e)
    decreases e, 0
  {
    var whens: seq<When> := [];
    var current := e;
    assert Branches(e) == Prepend(whens, Branches(e)) by {
      if Branches(e).Some? {
        assert [] + Branches(e).value.0 == Branches(e).value.0;
      }
    }
    while current.Ternary?
      invariant current == e || current < e
      invariant Branches(e) == Prepend(whens, Branches(current))
      decreases current
    {
      PrependNext(whens, current);
      var condition := AstToSql(current.condition);
      var result := AstToSql(current.trueExpr);
      if condition.None? || result.None? {
        return None;
      }
      whens := whens + [When(condition.value, result.value)];
      current := current.falseExpr;
    }
    var otherwise := AstToSql(current);
    if otherwise.None? {
      return None;
    }
    assert whens + [] == whens;
    return Some(Case(whens, otherwise.value));
  }

  /** `_ast_to_sql_expr`. */
  method AstToSql(e: Ast) returns (s: Option<Sql>)
    ensures s == ToSql(e)
    decreases e, 1
  {
    match e {
      case Ternary(_, _, _) => s := TernaryToCase(e);
      case Not(expr) =>
        var inner := AstToSql(expr);
        s := if inner.Some? then Some(SqlNot(inner.value)) else None;
      case Binary(op, left, right) =>
        if op != AND && op != OR && !IsComparison(op) {
          return None;
        }
        if IsComparison(op) && IsNullNode(right) {
          var tested := AstToSql(left);
          s := NullTest(tested, op);
        } else if IsComparison(op) && IsNullNode(left) {
          var tested := AstToSql(right);
          s := NullTest(tested, op);
        } else {
          var l := AstToSql(left);
          var r := AstToSql(right);
          s := Join(l, r, op);
        }
      case _ => s := ToSql(e);
    }
  }

  // ----- flattening -----

  /** Evaluating a CASE from its second branch on is evaluating the rest of the chain. */
  lemma {:induction false} CaseTail(s: Sql, tail: Sql, k: nat, i: nat, env: Env)
    requires s.Case? && tail.Case? && k <= |s.whens| && i <= |tail.whens|
    requires s.otherwise == tail.otherwise && s.whens[k..] == tail.whens
    ensures CaseEval(s, k + i, env) == CaseEval(tail, i, env)
    decreases |tail.whens| - i
  {
    if i < |tail.whens| {
      assert s.whens[k + i] == s.whens[k..][i];
      CaseTail(s, tail, k, i + 1, env);
    }
  }

  lemma {:induction false} CompiledParts(e: Ast)
    requires Branches(e).Some?
    ensures ToSql(e) == Some(if e.Ternary? then Case(Branches(e).value.0, Branches(e).value.1) else Branches(e).value.1)
    ensures e.Ternary? ==> ToSql(e.condition).Some? && ToSql(e.trueExpr).Some? && Branches(e.falseExpr).Some?
  {
  }

  /** The flattened CASE of a ternary evaluates like a CASE nested in the ELSE of another. */
  lemma FlattenNests(e: Ast, env: Env)
    requires e.Ternary? && ToSql(e).Some?
    ensures ToSql(e.condition).Some? && ToSql(e.trueExpr).Some? && ToSql(e.falseExpr).Some?
    ensures SqlEval(ToSql(e).value, env)
        == match SqlEval(ToSql(e.condition).value, env)
           case Some(c) =>
             if !IsLogical(c) then None
             else if c == Bool(true) then SqlEval(ToSql(e.trueExpr).value, env)
             else SqlEval(ToSql(e.falseExpr).value, env)
           case None => None
  {
    CompiledParts(e);
    CompiledParts(e.falseExpr);
    var flat := ToSql(e).value;
    var (more, otherwise) := Branches(e.falseExpr).value;
    assert flat.whens == [When(ToSql(e.condition).value, ToSql(e.trueExpr).value)] + more;
    assert flat.otherwise == otherwise;
    if e.falseExpr.Ternary? {
      CaseTail(flat, ToSql(e.falseExpr).value, 1, 0, env);
    } else {
      assert |flat.whens| == 1;
    }
    assert CaseEval(flat, 1, env) == SqlEval(ToSql(e.falseExpr).value, env);
  }

  // ----- conditions and branches that agree on every record -----

  type Schema = map<string, Kind>

  /** A value that is never NULL in SQL. */
  predicate NeverNull(e: Ast) {
    match e
    case Literal(v) => v != Null
    case Ternary(_, t, f) => NeverNull(t) && NeverNull(f)
    case _ => false
  }

  /** A field of the record that is not a link. */
  predicate IsPlainField(e: Ast, schema: Schema) {
    e.Attr? && e.obj == Ident("r") && e.name in schema && !schema[e.name].LinkTo?
  }

  /** The SQL value is the CEL value. */
  predicate ValueSafe(e: Ast, schema: Schema, less: StringOrder)
    decreases e, 2
  {
    match e
    case Literal(_) => true
    case Ident(name) => name == "null"
    case Ternary(c, t, f) => TrueSafe(c, schema, less) && ValueSafe(t, schema, less) && ValueSafe(f, schema, less)
    case Not(_) => TrueSafe(e, schema, less) && FalseSafe(e, schema, less)
    case Binary(_, _, _) => TrueSafe(e, schema, less) && FalseSafe(e, schema, less)
    case _ => false
  }

  /** The SQL value is the CEL value wherever it is not NULL. */
  predicate KnownSafe(e: Ast, schema: Schema, less: StringOrder)
    decreases e, 3
  {
    match e
    case Ternary(c, t, f) => TrueSafe(c, schema, less) && KnownSafe(t, schema, less) && KnownSafe(f, schema, less)
    case _ => ValueSafe(e, schema, less) || IsPlainField(e, schema)
  }

  /** One of the operands is the null literal: a null test. */
  predicate IsNullTest(left: Ast, right: Ast) {
    IsNullNode(left) || IsNullNode(right)
  }

  /** What CEL answers to a comparison of a field with a value when the field is NULL; None for other comparisons. */
  function WhenNull(op: Op, left: Ast, right: Ast, schema: Schema, less: StringOrder): Option<bool> {
    if IsPlainField(left, schema) && right.Literal? then
      Some(Compares(op, NullRead(schema[left.name]), right.v, less))
    else if left.Literal? && IsPlainField(right, schema) then
      Some(Compares(op, left.v, NullRead(schema[right.name]), less))
    else None
  }

  /** A comparison that SQL and CEL decide alike: a null test of safe values, or one that no NULL reaches. */
  predicate AlwaysDecided(e: Ast, schema: Schema, less: StringOrder)
    requires e.Binary?
    decreases e, 0
  {
    if IsNullTest(e.left, e.right) then ValueSafe(e.left, schema, less) && ValueSafe(e.right, schema, less)
    else NeverNull(e.left) && NeverNull(e.right) && KnownSafe(e.left, schema, less) && KnownSafe(e.right, schema, less)
  }

  /** SQL finds the condition TRUE exactly where CEL finds it true. */
  predicate TrueSafe(e: Ast, schema: Schema, less: StringOrder)
    decreases e, 1
  {
    match e
    case Not(expr) => FalseSafe(expr, schema, less)
    case Binary(op, left, right) =>
      if op == AND || op == OR then TrueSafe(left, schema, less) && TrueSafe(right, schema, less)
      else AlwaysDecided(e, schema, less)
           || (!IsNullTest(left, right) && WhenNull(op, left, right, schema, less) == Some(false))
    case Literal(_) => true
    case Attr(_, _) => IsPlainField(e, schema)
    case Ternary(c, t, f) => TrueSafe(c, schema, less) && TrueSafe(t, schema, less) && TrueSafe(f, schema, less)
    case _ => false
  }

  /** SQL finds the condition FALSE exactly where CEL finds it false. */
  predicate FalseSafe(e: Ast, schema: Schema, less: StringOrder)
    decreases e, 1
  {
    match e
    case Not(expr) => TrueSafe(expr, schema, less)
    case Binary(op, left, right) =>
      if op == AND || op == OR then FalseSafe(left, schema, less) && FalseSafe(right, schema, less)
      else AlwaysDecided(e, schema, less)
           || (!IsNullTest(left, right) && WhenNull(op, left, right, schema, less) == Some(true))
    case Literal(v) => v != Null
    case Ternary(c, t, f) => TrueSafe(c, schema, less) && FalseSafe(t, schema, less) && FalseSafe(f, schema, less)
    case _ => false
  }

  /** What a compiled expression, evaluated to `v` in SQL, promises about CEL's value. */
  ghost predicate Agrees(e: Ast, v: Value, env: Env) {
    var cel := Eval(e, env);
    && (ValueSafe(e, env.schema, env.less) ==> v == cel)
    && (KnownSafe(e, env.schema, env.less) && v != Null ==> v == cel)
    && (TrueSafe(e, env.schema, env.less) && IsLogical(v) ==> (v == Bool(true) <==> Truthy(cel)))
    && (FalseSafe(e, env.schema, env.less) && IsLogical(v) ==> (v == Bool(false) <==> !Truthy(cel)))
    && (NeverNull(e) ==> v != Null)
  }

  /** A condition decided both ways has CEL's own truth value. */
  lemma Decided(e: Ast, v: Value, env: Env)
    requires (e.Not? || e.Binary?) && IsLogical(v)
    requires TrueSafe(e, env.schema, env.less) ==> (v == Bool(true) <==> Truthy(Eval(e, env)))
    requires FalseSafe(e, env.schema, env.less) ==> (v == Bool(false) <==> !Truthy(Eval(e, env)))
    ensures Agrees(e, v, env)
  {
    var cel := Eval(e, env);
    assert cel.Bool?;
    if ValueSafe(e, env.schema, env.less) {
      if cel.b {
        assert v == Bool(true);
      } else {
        assert v == Bool(false);
      }
    }
  }

  /** SQL's comparison of two values: NULL if either is, else of one kind, and decided as Python does. */
  predicate SqlCompares(op: Op, a: Value, b: Value, v: Value, less: StringOrder) {
    if a == Null || b == Null then v == Null else SameKind(a, b) && v == Bool(Compares(op, a, b, less))
  }

  /** A comparison of a field with a value: NULL reaches it exactly where the field is NULL. */
  lemma FieldCompares(e: Ast, a: Value, b: Value, v: Value, env: Env)
    requires e.Binary? && IsComparison(e.op) && !IsNullTest(e.left, e.right) && env.Valid()
    requires WhenNull(e.op, e.left, e.right, env.schema, env.less).Some?
    requires SqlEval(ToSql(e.left).value, env) == Some(a) && SqlEval(ToSql(e.right).value, env) == Some(b)
    requires SqlCompares(e.op, a, b, v, env.less)
    ensures v == Null ==> Truthy(Eval(e, env)) == WhenNull(e.op, e.left, e.right, env.schema, env.less).value
    ensures v != Null ==> v == Eval(e, env)
  {
  }

  lemma EvalComparison(e: Ast, env: Env)
    requires e.Binary? && IsComparison(e.op)
    ensures Eval(e, env) == Bool(Compares(e.op, Eval(e.left, env), Eval(e.right, env), env.less))
  {
  }

  lemma ComparisonAgrees(e: Ast, a: Value, b: Value, v: Value, env: Env)
    requires e.Binary? && IsComparison(e.op) && !IsNullTest(e.left, e.right) && env.Valid()
    requires ToSql(e.left).Some? && ToSql(e.right).Some?
    requires SqlEval(ToSql(e.left).value, env) == Some(a) && SqlEval(ToSql(e.right).value, env) == Some(b)
    requires Agrees(e.left, a, env) && Agrees(e.right, b, env) && SqlCompares(e.op, a, b, v, env.less)
    ensures Agrees(e, v, env)
  {
    if WhenNull(e.op, e.left, e.right, env.schema, env.less).Some? {
      FieldCompares(e, a, b, v, env);
    }
    if AlwaysDecided(e, env.schema, env.less) {
      assert a == Eval(e.left, env) && b == Eval(e.right, env);
      EvalComparison(e, env);
    }
    Decided(e, v, env);
  }

  lemma NullTestAgrees(e: Ast, tested: Ast, a: Value, v: Value, env: Env)
    requires e.Binary? && (e.op == EQ || e.op == NE) && IsNullTest(e.left, e.right)
    requires tested == if IsNullNode(e.right) then e.left else e.right
    requires Agrees(tested, a, env) && v == Bool((a == Null) == (e.op == EQ))
    ensures Agrees(e, v, env)
  {
    EvalComparison(e, env);
    if AlwaysDecided(e, env.schema, env.less) {
      assert a == Eval(tested, env);
    }
    Decided(e, v, env);
  }

  lemma ConnectiveAgrees(e: Ast, a: Value, b: Value, v: Value, env: Env)
    requires e.Binary? && (e.op == AND || e.op == OR) && IsLogical(a) && IsLogical(b)
    requires Agrees(e.left, a, env) && Agrees(e.right, b, env)
    requires v == if e.op == AND then And3(a, b) else Or3(a, b)
    ensures Agrees(e, v, env)
  {
    Decided(e, v, env);
  }

  lemma NotAgrees(e: Ast, a: Value, v: Value, env: Env)
    requires e.Not? && IsLogical(a) && Agrees(e.expr, a, env)
    requires v == if a.Null? then Null else Bool(!a.b)
    ensures Agrees(e, v, env)
  {
    Decided(e, v, env);
  }

  lemma TernaryAgrees(e: Ast, c: Value, v: Value, env: Env)
    requires e.Ternary? && IsLogical(c) && Agrees(e.condition, c, env)
    requires Agrees(if c == Bool(true) then e.trueExpr else e.falseExpr, v, env)
    ensures Agrees(e, v, env)
  {
    if TrueSafe(e.condition, env.schema, env.less) {
      assert c == Bool(true) <==> Truthy(Eval(e.condition, env));
    }
  }

  /**
   * SQL and CEL agree on every record: wherever the SQL does not raise, a value-safe expression has
   * the same value in both, and a true-safe (false-safe) condition is TRUE (FALSE) in SQL exactly
   * when CEL finds it true (false). Safety depends on the expression and on its fields' kinds only.
   */
  lemma {:induction false} SqlAgrees(e: Ast, env: Env, v: Value)
    requires env.Valid() && ToSql(e).Some? && SqlEval(ToSql(e).value, env) == Some(v)
    ensures Agrees(e, v, env)
    decreases e
  {
    match e {
      case Ternary(condition, t, f) =>
        FlattenNests(e, env);
        var c := SqlEval(ToSql(condition).value, env).value;
        SqlAgrees(condition, env, c);
        if c == Bool(true) {
          SqlAgrees(t, env, v);
        } else {
          SqlAgrees(f, env, v);
        }
        TernaryAgrees(e, c, v, env);
      case Not(expr) =>
        var a := SqlEval(ToSql(expr).value, env).value;
        SqlAgrees(expr, env, a);
        NotAgrees(e, a, v, env);
      case Binary(_, _, _) => BinaryAgrees(e, env, v);
      case _ =>
    }
  }

  lemma {:induction false} BinaryAgrees(e: Ast, env: Env, v: Value)
    requires env.Valid() && e.Binary? && ToSql(e).Some? && SqlEval(ToSql(e).value, env) == Some(v)
    ensures Agrees(e, v, env)
    decreases e, 0
  {
    if IsComparison(e.op) && IsNullTest(e.left, e.right) {
      var tested := if IsNullNode(e.right) then e.left else e.right;
      var a := SqlEval(ToSql(tested).value, env).value;
      SqlAgrees(tested, env, a);
      NullTestAgrees(e, tested, a, v, env);
    } else {
      var a, b := SqlEval(ToSql(e.left).value, env).value, SqlEval(ToSql(e.right).value, env).value;
      SqlAgrees(e.left, env, a);
      SqlAgrees(e.right, env, b);
      if IsComparison(e.op) {
        ComparisonAgrees(e, a, b, v, env);
      } else {
        ConnectiveAgrees(e, a, b, v, env);
      }
    }
  }

  // ----- records without nulls -----

  /** A field that is stored, as the ORM reads it. */
  predicate IsStored(e: Ast, env: Env) {
    e.Attr? && e.obj == Ident("r") && e.name in env.row && env.row[e.name] != Null
  }

  /** No NULL is read, links are read in null tests only, and no name stands outside the record. */
  predicate NoNulls(e: Ast, env: Env) {
    match e
    case Literal(v) => v != Null
    case Ident(_) => false
    case Attr(_, _) => IsStored(e, env) && IsPlainField(e, env.schema)
    case Not(expr) => NoNulls(expr, env)
    case Binary(op, left, right) =>
      if IsComparison(op) && IsNullNode(right) then NoNulls(left, env) || IsStored(left, env)
      else if IsComparison(op) && IsNullNode(left) then NoNulls(right, env) || IsStored(right, env)
      else NoNulls(left, env) && NoNulls(right, env)
    case Ternary(c, t, f) => NoNulls(c, env) && NoNulls(t, env) && NoNulls(f, env)
    case _ => true
  }

  /** Where no NULL is read, every compiled expression has CEL's value, whatever its form. */
  lemma {:induction false} NoNullsAgree(e: Ast, env: Env, v: Value)
    requires env.Valid() && NoNulls(e, env) && ToSql(e).Some? && SqlEval(ToSql(e).value, env) == Some(v)
    ensures v == Eval(e, env) && v != Null
    decreases e, 1
  {
    match e {
      case Ternary(condition, t, f) =>
        FlattenNests(e, env);
        var c := SqlEval(ToSql(condition).value, env).value;
        NoNullsAgree(condition, env, c);
        if c == Bool(true) {
          NoNullsAgree(t, env, v);
        } else {
          NoNullsAgree(f, env, v);
        }
      case Not(expr) => NoNullsAgree(expr, env, SqlEval(ToSql(expr).value, env).value);
      case Binary(_, _, _) => NoNullsBinaryAgree(e, env, v);
      case _ =>
    }
  }

  lemma {:induction false} NoNullsBinaryAgree(e: Ast, env: Env, v: Value)
    requires env.Valid() && e.Binary? && NoNulls(e, env) && ToSql(e).Some? && SqlEval(ToSql(e).value, env) == Some(v)
    ensures v == Eval(e, env) && v != Null
    decreases e, 0
  {
    if IsComparison(e.op) && IsNullTest(e.left, e.right) {
      var tested := if IsNullNode(e.right) then e.left else e.right;
      if NoNulls(tested, env) {
        NoNullsAgree(tested, env, SqlEval(ToSql(tested).value, env).value);
      }
    } else {
      NoNullsAgree(e.left, env, SqlEval(ToSql(e.left).value, env).value);
      NoNullsAgree(e.right, env, SqlEval(ToSql(e.right).value, env).value);
    }
  }

  // ----- where it shows -----

  /** A field of the record. */
  function Field(name: string): Ast {
    Attr(Ident("r"), name)
  }

  /** The disability dimension: `r.disability_id != null ? "pwd" : "non_pwd"`. */
  function DisabilityStatus(): Ast {
    Ternary(Binary(NE, Field("disability_id"), Ident("null")), Literal(Str("pwd")), Literal(Str("non_pwd")))
  }

  lemma OneBranch(e: Ast, env: Env)
    requires e.Ternary? && !e.falseExpr.Ternary? && ToSql(e.falseExpr).Some?
    requires ToSql(e.condition).Some? && ToSql(e.trueExpr).Some?
    ensures ToSql(e).Some?
  {
    assert Branches(e.falseExpr).Some?;
  }

  /** On a person without a recorded disability CEL answers "pwd" and the SQL "non_pwd"; on others they agree. */
  lemma DisabilityDiffers(env: Env, model: nat)
    requires env.Valid() && "disability_id" in env.row && env.schema["disability_id"] == LinkTo(model)
    ensures ToSql(DisabilityStatus()).Some?
    ensures Eval(DisabilityStatus(), env) == Str("pwd")
    ensures SqlEval(ToSql(DisabilityStatus()).value, env)
        == Some(if env.row["disability_id"] == Null then Str("non_pwd") else Str("pwd"))
  {
    EvalComparison(DisabilityStatus().condition, env);
    assert Eval(Field("disability_id"), env).Link? && Eval(Ident("null"), env) == Null;
    OneBranch(DisabilityStatus(), env);
    FlattenNests(DisabilityStatus(), env);
  }

  /** `r.n == 0 ? "none" : "some"`. */
  function ZeroTest(): Ast {
    Ternary(Binary(EQ, Field("n"), Literal(Num(0))), Literal(Str("none")), Literal(Str("some")))
  }

  /** A number that is not set is zero for CEL, and unknown in SQL. */
  lemma UnsetNumberDiffers(env: Env)
    requires env.Valid() && "n" in env.row && env.schema["n"] == Number && env.row["n"] == Null
    ensures ToSql(ZeroTest()).Some?
    ensures Eval(ZeroTest(), env) == Str("none") && SqlEval(ToSql(ZeroTest()).value, env) == Some(Str("some"))
  {
    EvalComparison(ZeroTest().condition, env);
    assert Eval(Field("n"), env) == Num(0);
    OneBranch(ZeroTest(), env);
    FlattenNests(ZeroTest(), env);
  }
}
