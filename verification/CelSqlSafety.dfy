/**
 * Exactly when the SQL of a CEL value expression agrees with its direct evaluation: on one record, and
 * on every record of a schema, for conditions of comparisons, null tests and flags and for ternaries
 * over them. The static condition of CelSql is shown to be necessary here.
 */
module CelSqlSafety {
  import opened CelParser
  import opened CelSql
  import opened Wrappers

  // ----- three-valued and two-valued answers -----

  function And(a: Option<bool>, b: Option<bool>): Option<bool> {
    if (a.Some? && !a.value) || (b.Some? && !b.value) then Some(false)
    else if a.None? || b.None? then None
    else Some(true)
  }

  function Or(a: Option<bool>, b: Option<bool>): Option<bool> {
    if (a.Some? && a.value) || (b.Some? && b.value) then Some(true)
    else if a.None? || b.None? then None
    else Some(false)
  }

  function Negate(a: Option<bool>): Option<bool> {
    match a
    case None => None
    case Some(b) => Some(!b)
  }

  function AsValue(a: Option<bool>): Value {
    match a
    case None => Null
    case Some(b) => Bool(b)
  }

  /** A value or a field of the record. */
  predicate IsOperand(e: Ast, env: Env) {
    e.Literal? || IsNullNode(e) || (e.Attr? && e.obj == Ident("r") && e.name in env.row && e.name in env.schema)
  }

  /** A condition built from comparisons, null tests, flags and truth values by and, or and not. */
  predicate IsFlat(e: Ast, env: Env) {
    match e
    case Not(expr) => IsFlat(expr, env)
    case Binary(op, left, right) =>
      if op == AND || op == OR then IsFlat(left, env) && IsFlat(right, env)
      else IsComparison(op) && IsOperand(left, env) && IsOperand(right, env)
    case _ => IsOperand(e, env)
  }

  /** What the database holds for an operand. */
  function StoredValue(e: Ast, env: Env): Value
    requires IsOperand(e, env)
  {
    if e.Literal? then e.v else if e.Attr? then env.row[e.name] else Null
  }

  /** What CEL reads for it. */
  function ReadValue(e: Ast, env: Env): Value
    requires IsOperand(e, env)
  {
    if e.Literal? then e.v else if e.Attr? then Read(env.schema[e.name], env.row[e.name]) else Null
  }

  /** A null test asks the database; any other comparison is unknown where it meets NULL. */
  function AtomSql(e: Ast, env: Env): Option<bool>
    requires e.Binary? && IsOperand(e.left, env) && IsOperand(e.right, env)
  {
    var a, b := StoredValue(e.left, env), StoredValue(e.right, env);
    if IsNullNode(e.right) then Some((a == Null) == (e.op == EQ))
    else if IsNullNode(e.left) then Some((b == Null) == (e.op == EQ))
    else if a == Null || b == Null then None
    else Some(Compares(e.op, a, b, env.less))
  }

  predicate AtomCel(e: Ast, env: Env)
    requires e.Binary? && IsOperand(e.left, env) && IsOperand(e.right, env)
  {
    Compares(e.op, ReadValue(e.left, env), ReadValue(e.right, env), env.less)
  }

  /** SQL's answer to a condition, in three-valued logic over what is stored. */
  function SqlAnswer(e: Ast, env: Env): Option<bool>
    requires IsFlat(e, env)
  {
    match e
    case Not(expr) => Negate(SqlAnswer(expr, env))
    case Binary(op, left, right) =>
      if op == AND then And(SqlAnswer(left, env), SqlAnswer(right, env))
      else if op == OR then Or(SqlAnswer(left, env), SqlAnswer(right, env))
      else AtomSql(e, env)
    case _ => if StoredValue(e, env).Bool? then Some(StoredValue(e, env).b) else None
  }

  /** CEL's answer, in two-valued logic over what is read. */
  predicate CelAnswer(e: Ast, env: Env)
    requires IsFlat(e, env)
  {
    match e
    case Not(expr) => !CelAnswer(expr, env)
    case Binary(op, left, right) =>
      if op == AND then CelAnswer(left, env) && CelAnswer(right, env)
      else if op == OR then CelAnswer(left, env) || CelAnswer(right, env)
      else AtomCel(e, env)
    case _ => Truthy(ReadValue(e, env))
  }

  lemma ReadExact(e: Ast, env: Env)
    requires env.Valid() && IsOperand(e, env)
    ensures Eval(e, env) == ReadValue(e, env)
  {
  }

  /** Direct evaluation finds a condition true exactly if two-valued logic does. */
  lemma {:induction false} CelExact(e: Ast, env: Env)
    requires env.Valid() && IsFlat(e, env)
    ensures Truthy(Eval(e, env)) == CelAnswer(e, env)
  {
    match e {
      case Not(expr) => CelExact(expr, env);
      case Binary(op, left, right) =>
        if op == AND || op == OR {
          CelExact(left, env);
          CelExact(right, env);
        } else {
          ReadExact(left, env);
          ReadExact(right, env);
          EvalComparison(e, env);
        }
      case _ => ReadExact(e, env);
    }
  }

  lemma StoredExact(e: Ast, env: Env)
    requires env.Valid() && IsOperand(e, env)
    ensures ToSql(e).Some? && SqlEval(ToSql(e).value, env) == Some(StoredValue(e, env))
  {
  }

  lemma AtomExact(e: Ast, env: Env, v: Value)
    requires env.Valid() && e.Binary? && IsComparison(e.op) && IsOperand(e.left, env) && IsOperand(e.right, env)
    requires ToSql(e).Some? && SqlEval(ToSql(e).value, env) == Some(v)
    ensures v == AsValue(AtomSql(e, env))
  {
    StoredExact(e.left, env);
    StoredExact(e.right, env);
  }

  lemma ConnectiveExact(op: Op, a: Option<bool>, b: Option<bool>)
    ensures AsValue(And(a, b)) == And3(AsValue(a), AsValue(b))
    ensures AsValue(Or(a, b)) == Or3(AsValue(a), AsValue(b))
  {
  }

  /** The SQL of a condition has the answer of three-valued logic. */
  lemma {:induction false} SqlExact(e: Ast, env: Env, v: Value)
    requires env.Valid() && IsFlat(e, env) && ToSql(e).Some? && SqlEval(ToSql(e).value, env) == Some(v) && IsLogical(v)
    ensures v == AsValue(SqlAnswer(e, env))
    decreases e
  {
    match e {
      case Not(expr) => SqlExact(expr, env, SqlEval(ToSql(expr).value, env).value);
      case Binary(op, left, right) =>
        if op == AND || op == OR {
          var a, b := SqlEval(ToSql(left).value, env).value, SqlEval(ToSql(right).value, env).value;
          SqlExact(left, env, a);
          SqlExact(right, env, b);
          ConnectiveExact(op, SqlAnswer(left, env), SqlAnswer(right, env));
        } else {
          AtomExact(e, env, v);
        }
      case _ => StoredExact(e, env);
    }
  }

  /**
   * On any record, the SQL of a condition has the answer of three-valued logic over its stored values,
   * and its direct evaluation that of two-valued logic over what the ORM reads for them.
   */
  lemma ConditionExact(e: Ast, env: Env, v: Value)
    requires env.Valid() && IsFlat(e, env) && ToSql(e).Some? && SqlEval(ToSql(e).value, env) == Some(v) && IsLogical(v)
    ensures v == AsValue(SqlAnswer(e, env)) && Truthy(Eval(e, env)) == CelAnswer(e, env)
  {
    SqlExact(e, env, v);
    CelExact(e, env);
  }

  // ----- ternaries on one record -----

  function Leaves(e: Ast): set<Value> {
    match e
    case Ternary(_, t, f) => Leaves(t) + Leaves(f)
    case Literal(v) => {v}
    case _ => {}
  }

  /** Ternaries nested in any way over flat conditions, with a value of its own at every leaf. */
  predicate IsDecision(e: Ast, env: Env) {
    match e
    case Ternary(c, t, f) => IsFlat(c, env) && IsDecision(t, env) && IsDecision(f, env) && Leaves(t) !! Leaves(f)
    case _ => e.Literal?
  }

  /** The leaf that SQL's answers lead to. */
  function SqlChoice(e: Ast, env: Env): (v: Value)
    requires IsDecision(e, env)
    ensures v in Leaves(e)
  {
    match e
    case Ternary(c, t, f) => if SqlAnswer(c, env) == Some(true) then SqlChoice(t, env) else SqlChoice(f, env)
    case Literal(v) => v
  }

  /** The leaf that CEL's answers lead to. */
  function CelChoice(e: Ast, env: Env): (v: Value)
    requires IsDecision(e, env)
    ensures v in Leaves(e)
  {
    match e
    case Ternary(c, t, f) => if CelAnswer(c, env) then CelChoice(t, env) else CelChoice(f, env)
    case Literal(v) => v
  }

  lemma {:induction false} EvalChoice(e: Ast, env: Env)
    requires env.Valid() && IsDecision(e, env)
    ensures Eval(e, env) == CelChoice(e, env)
  {
    if e.Ternary? {
      CelExact(e.condition, env);
      EvalChoice(e.trueExpr, env);
      EvalChoice(e.falseExpr, env);
    }
  }

  lemma {:induction false} SqlEvalChoice(e: Ast, env: Env)
    requires env.Valid() && IsDecision(e, env) && ToSql(e).Some? && SqlEval(ToSql(e).value, env).Some?
    ensures SqlEval(ToSql(e).value, env) == Some(SqlChoice(e, env))
    decreases e
  {
    if e.Ternary? {
      FlattenNests(e, env);
      var c := SqlEval(ToSql(e.condition).value, env).value;
      SqlExact(e.condition, env, c);
      SqlEvalChoice(if c == Bool(true) then e.trueExpr else e.falseExpr, env);
    }
  }

  /** Of each condition on CEL's way, SQL finds it true exactly if CEL does. */
  predicate PathRight(e: Ast, env: Env)
    requires IsDecision(e, env)
  {
    match e
    case Ternary(c, t, f) =>
      && (SqlAnswer(c, env) == Some(true)) == CelAnswer(c, env)
      && PathRight(if CelAnswer(c, env) then t else f, env)
    case _ => true
  }

  lemma {:induction false} ChoicesAgree(e: Ast, env: Env)
    requires IsDecision(e, env)
    ensures SqlChoice(e, env) == CelChoice(e, env) <==> PathRight(e, env)
  {
    if e.Ternary? {
      ChoicesAgree(e.trueExpr, env);
      ChoicesAgree(e.falseExpr, env);
    }
  }

  /**
   * For ternaries nested in any way, over conditions of comparisons, null tests, flags, and, or and
   * not, the SQL has CEL's value on a record if and only if each condition on CEL's way through them
   * is true in three-valued logic over what is stored exactly if it is true in two-valued logic over
   * what is read.
   */
  lemma TernaryExact(e: Ast, env: Env, v: Value)
    requires env.Valid() && IsDecision(e, env) && ToSql(e).Some? && SqlEval(ToSql(e).value, env) == Some(v)
    ensures v == Eval(e, env) <==> PathRight(e, env)
  {
    SqlEvalChoice(e, env);
    EvalChoice(e, env);
    ChoicesAgree(e, env);
  }

  // ----- conditions over a schema -----

  predicate IsField(e: Ast, schema: Schema) {
    e.Attr? && e.obj == Ident("r") && e.name in schema
  }

  /** A null test of a field. */
  predicate IsFieldTest(e: Ast, schema: Schema) {
    e.Binary? && (e.op == EQ || e.op == NE)
    && ((IsField(e.left, schema) && IsNullNode(e.right)) || (IsNullNode(e.left) && IsField(e.right, schema)))
  }

  /** The name of the field an atom is about. */
  function NameOf(e: Ast): string {
    if e.Attr? then e.name
    else if e.Binary? && e.left.Attr? then e.left.name
    else if e.Binary? && e.right.Attr? then e.right.name
    else ""
  }

  /** A value a field of the kind can hold, NULL excepted. */
  predicate IsValueOf(kind: Kind, v: Value) {
    v != Null && Fits(kind, v)
  }

  /** A comparison of a plain field with a value of its kind. */
  predicate IsFieldComparison(e: Ast, schema: Schema) {
    e.Binary? && IsComparison(e.op)
    && ((IsPlainField(e.left, schema) && e.right.Literal? && IsValueOf(schema[e.left.name], e.right.v))
        || (e.left.Literal? && IsPlainField(e.right, schema) && IsValueOf(schema[e.right.name], e.left.v)))
  }

  predicate IsFlag(e: Ast, schema: Schema) {
    IsField(e, schema) && schema[e.name].Flag?
  }

  predicate IsAtom(e: Ast, schema: Schema) {
    IsFieldTest(e, schema) || IsFieldComparison(e, schema) || IsFlag(e, schema)
  }

  /** A condition of null tests, comparisons and flags by and, or and not. */
  predicate IsCondition(e: Ast, schema: Schema) {
    if e.Not? then IsCondition(e.expr, schema)
    else if e.Binary? && (e.op == AND || e.op == OR) then IsCondition(e.left, schema) && IsCondition(e.right, schema)
    else IsAtom(e, schema)
  }

  /** The fields of a condition or a ternary. */
  function Fields(e: Ast): set<string> {
    match e
    case Not(expr) => Fields(expr)
    case Ternary(c, t, f) => Fields(c) + Fields(t) + Fields(f)
    case Binary(op, left, right) => if op == AND || op == OR then Fields(left) + Fields(right) else {NameOf(e)}
    case Attr(_, _) => {NameOf(e)}
    case _ => {}
  }

  /** On every way through it each field occurs at most once. */
  predicate IsLinear(e: Ast) {
    match e
    case Not(expr) => IsLinear(expr)
    case Ternary(c, t, f) => IsLinear(c) && IsLinear(t) && IsLinear(f) && Fields(c) !! Fields(t) && Fields(c) !! Fields(f)
    case Binary(op, left, right) =>
      op == AND || op == OR ==> IsLinear(left) && IsLinear(right) && Fields(left) !! Fields(right)
    case _ => true
  }

  /** A comparison of a field with a value. */
  function Outcome(e: Ast, v: Value, less: StringOrder): bool
    requires e.Binary?
  {
    if e.left.Attr? then e.right.Literal? && Compares(e.op, v, e.right.v, less)
    else e.left.Literal? && Compares(e.op, e.left.v, v, less)
  }

  /** Every comparison is true of some values of its field's kind, and false of others. */
  ghost predicate AllLive(e: Ast, schema: Schema, less: StringOrder) {
    match e
    case Not(expr) => AllLive(expr, schema, less)
    case Ternary(c, t, f) => AllLive(c, schema, less) && AllLive(t, schema, less) && AllLive(f, schema, less)
    case Binary(op, left, right) =>
      if op == AND || op == OR then AllLive(left, schema, less) && AllLive(right, schema, less)
      else IsFieldComparison(e, schema) ==>
        && (exists v :: IsValueOf(schema[NameOf(e)], v) && Outcome(e, v, less))
        && (exists v :: IsValueOf(schema[NameOf(e)], v) && !Outcome(e, v, less))
    case _ => true
  }

  /** A record of a schema. */
  ghost predicate Of(env: Env, schema: Schema, less: StringOrder) {
    env.Valid() && env.schema == schema && env.less == less
  }

  lemma {:induction false} ConditionIsFlat(e: Ast, env: Env)
    requires env.Valid() && IsCondition(e, env.schema)
    ensures IsFlat(e, env)
  {
    if e.Not? {
      ConditionIsFlat(e.expr, env);
    } else if e.Binary? && (e.op == AND || e.op == OR) {
      ConditionIsFlat(e.left, env);
      ConditionIsFlat(e.right, env);
    }
  }

  /** The answers depend on the condition's fields only. */
  lemma {:induction false} AnswersFrame(e: Ast, a: Env, b: Env)
    requires a.Valid() && b.Valid() && a.schema == b.schema && a.less == b.less && IsCondition(e, a.schema)
    requires SameRows(Fields(e), a, b)
    ensures IsFlat(e, a) && IsFlat(e, b) && SqlAnswer(e, a) == SqlAnswer(e, b) && CelAnswer(e, a) == CelAnswer(e, b)
  {
    ConditionIsFlat(e, a);
    ConditionIsFlat(e, b);
    if e.Not? {
      AnswersFrame(e.expr, a, b);
    } else if e.Binary? && (e.op == AND || e.op == OR) {
      AnswersFrame(e.left, a, b);
      AnswersFrame(e.right, a, b);
    } else if e.Binary? {
      OperandsFrame(e, a, b);
    }
  }

  lemma OperandsFrame(e: Ast, a: Env, b: Env)
    requires a.Valid() && b.Valid() && a.schema == b.schema && a.less == b.less
    requires e.Binary? && e.op != AND && e.op != OR && IsAtom(e, a.schema)
    requires NameOf(e) in a.row ==> a.row[NameOf(e)] == b.row[NameOf(e)]
    ensures IsOperand(e.left, a) && IsOperand(e.right, a) && IsOperand(e.left, b) && IsOperand(e.right, b)
    ensures StoredValue(e.left, a) == StoredValue(e.left, b) && StoredValue(e.right, a) == StoredValue(e.right, b)
    ensures ReadValue(e.left, a) == ReadValue(e.left, b) && ReadValue(e.right, a) == ReadValue(e.right, b)
  {
  }

  /** A record that is like one on some fields, and like another on the rest. */
  function Mix(a: Env, b: Env, names: set<string>): Env
    requires a.schema.Keys == a.row.Keys && b.schema == a.schema && b.row.Keys == a.row.Keys
  {
    Env(a.schema, map n | n in a.row :: if n in names then a.row[n] else b.row[n], a.less)
  }

  /** Some record of the schema gives the two answers. */
  ghost predicate Can(e: Ast, schema: Schema, less: StringOrder, s: Option<bool>, c: bool) {
    exists env :: Of(env, schema, less) && IsFlat(e, env) && SqlAnswer(e, env) == s && CelAnswer(e, env) == c
  }

  lemma CanNot(e: Ast, schema: Schema, less: StringOrder, s: Option<bool>, c: bool)
    requires e.Not? && Can(e.expr, schema, less, s, c)
    ensures Can(e, schema, less, Negate(s), !c)
  {
    var env :| Of(env, schema, less) && IsFlat(e.expr, env) && SqlAnswer(e.expr, env) == s && CelAnswer(e.expr, env) == c;
    assert IsFlat(e, env) && SqlAnswer(e, env) == Negate(s) && CelAnswer(e, env) == !c;
  }

  /** Answers of two conditions without a common field come together. */
  lemma CanBoth(e: Ast, schema: Schema, less: StringOrder, s: Option<bool>, c: bool, t: Option<bool>, d: bool)
    requires e.Binary? && (e.op == AND || e.op == OR) && IsCondition(e, schema) && IsLinear(e)
    requires Can(e.left, schema, less, s, c) && Can(e.right, schema, less, t, d)
    ensures if e.op == AND then Can(e, schema, less, And(s, t), c && d) else Can(e, schema, less, Or(s, t), c || d)
  {
    var a :| Of(a, schema, less) && IsFlat(e.left, a) && SqlAnswer(e.left, a) == s && CelAnswer(e.left, a) == c;
    var b :| Of(b, schema, less) && IsFlat(e.right, b) && SqlAnswer(e.right, b) == t && CelAnswer(e.right, b) == d;
    MixFrame(e.left, e.right, a, b);
    AnswersOf(e, Mix(a, b, Fields(e.left)));
  }

  lemma AnswersOf(e: Ast, env: Env)
    requires e.Binary? && (e.op == AND || e.op == OR) && IsFlat(e.left, env) && IsFlat(e.right, env)
    ensures IsFlat(e, env)
    ensures SqlAnswer(e, env)
         == if e.op == AND then And(SqlAnswer(e.left, env), SqlAnswer(e.right, env)) else Or(SqlAnswer(e.left, env), SqlAnswer(e.right, env))
    ensures CelAnswer(e, env)
         == if e.op == AND then CelAnswer(e.left, env) && CelAnswer(e.right, env) else CelAnswer(e.left, env) || CelAnswer(e.right, env)
  {
  }

  /** Two rows agree on some fields. */
  ghost predicate SameRows(names: set<string>, a: Env, b: Env) {
    forall name :: name in names && name in a.row ==> name in b.row && a.row[name] == b.row[name]
  }

  lemma MixRows(a: Env, b: Env, names: set<string>, others: set<string>)
    requires a.Valid() && b.Valid() && a.schema == b.schema && a.less == b.less && names !! others
    ensures Of(Mix(a, b, names), a.schema, a.less)
    ensures SameRows(names, a, Mix(a, b, names)) && SameRows(others, b, Mix(a, b, names))
  {
  }

  lemma MixFrame(x: Ast, y: Ast, a: Env, b: Env)
    requires a.Valid() && b.Valid() && a.schema == b.schema && a.less == b.less
    requires IsCondition(x, a.schema) && IsCondition(y, a.schema) && Fields(x) !! Fields(y)
    ensures var env := Mix(a, b, Fields(x));
      && Of(env, a.schema, a.less) && IsFlat(x, a) && IsFlat(x, env) && IsFlat(y, b) && IsFlat(y, env)
      && SqlAnswer(x, env) == SqlAnswer(x, a) && CelAnswer(x, env) == CelAnswer(x, a)
      && SqlAnswer(y, env) == SqlAnswer(y, b) && CelAnswer(y, env) == CelAnswer(y, b)
  {
    var env := Mix(a, b, Fields(x));
    MixRows(a, b, Fields(x), Fields(y));
    AnswersFrame(x, a, env);
    AnswersFrame(y, b, env);
  }

  // ----- the atoms -----

  /** The record of a schema with one field set. */
  function Only(schema: Schema, less: StringOrder, name: string, v: Value): Env {
    Env(schema, map n | n in schema :: if n == name then v else Null, less)
  }

  lemma OnlyIsOf(schema: Schema, less: StringOrder, name: string, v: Value)
    requires name in schema && Fits(schema[name], v)
    ensures Of(Only(schema, less, name, v), schema, less)
  {
  }

  /** A value of each kind. */
  function Sample(kind: Kind): (v: Value)
    ensures IsValueOf(kind, v)
  {
    match kind
    case Number => Num(1)
    case Text => Str("a")
    case Flag => Bool(true)
    case Date => Day(1)
    case LinkTo(_) => Num(1)
  }

  /** A null test is wrong on NULL, and false or true in both on a value. */
  lemma TestCan(e: Ast, schema: Schema, less: StringOrder)
    requires IsFieldTest(e, schema)
    ensures Can(e, schema, less, Some(e.op == EQ), e.op == NE) && Can(e, schema, less, Some(e.op == NE), e.op == NE)
  {
    var name := NameOf(e);
    var unset, filled := Only(schema, less, name, Null), Only(schema, less, name, Sample(schema[name]));
    OnlyIsOf(schema, less, name, Null);
    OnlyIsOf(schema, less, name, Sample(schema[name]));
    assert SqlAnswer(e, unset) == Some(e.op == EQ) && CelAnswer(e, unset) == (e.op == NE);
    assert SqlAnswer(e, filled) == Some(e.op == NE) && CelAnswer(e, filled) == (e.op == NE);
  }

  lemma FlagCan(e: Ast, schema: Schema, less: StringOrder)
    requires IsFlag(e, schema)
    ensures Can(e, schema, less, Some(true), true) && Can(e, schema, less, Some(false), false) && Can(e, schema, less, None, false)
  {
    OnlyIsOf(schema, less, e.name, Bool(true));
    OnlyIsOf(schema, less, e.name, Bool(false));
    OnlyIsOf(schema, less, e.name, Null);
    var on, off, unset := Only(schema, less, e.name, Bool(true)), Only(schema, less, e.name, Bool(false)), Only(schema, less, e.name, Null);
    assert SqlAnswer(e, on) == Some(true) && CelAnswer(e, on);
    assert SqlAnswer(e, off) == Some(false) && !CelAnswer(e, off);
    assert SqlAnswer(e, unset) == None && !CelAnswer(e, unset);
  }

  lemma ComparisonAt(e: Ast, schema: Schema, less: StringOrder, v: Value)
    requires IsFieldComparison(e, schema) && Fits(schema[NameOf(e)], v)
    ensures var env := Only(schema, less, NameOf(e), v);
      && Of(env, schema, less) && IsFlat(e, env)
      && SqlAnswer(e, env) == (if v == Null then None else Some(Outcome(e, v, less)))
      && CelAnswer(e, env) == Outcome(e, if v == Null then NullRead(schema[NameOf(e)]) else v, less)
  {
    OnlyIsOf(schema, less, NameOf(e), v);
  }

  /** What CEL answers to a comparison on NULL. */
  predicate OnNull(e: Ast, schema: Schema, less: StringOrder)
    requires IsFieldComparison(e, schema)
  {
    Outcome(e, NullRead(schema[NameOf(e)]), less)
  }

  lemma ComparisonCan(e: Ast, schema: Schema, less: StringOrder)
    requires IsFieldComparison(e, schema) && AllLive(e, schema, less)
    ensures Can(e, schema, less, Some(true), true) && Can(e, schema, less, Some(false), false)
    ensures Can(e, schema, less, None, OnNull(e, schema, less))
  {
    var v :| IsValueOf(schema[NameOf(e)], v) && Outcome(e, v, less);
    var w :| IsValueOf(schema[NameOf(e)], w) && !Outcome(e, w, less);
    ComparisonAt(e, schema, less, v);
    ComparisonAt(e, schema, less, w);
    ComparisonAt(e, schema, less, Null);
  }

  // ----- the static condition is necessary -----

  /** Which answers of SQL and CEL come together. */
  type Answers = (Option<bool>, bool) -> bool

  /** Wrong for TRUE, and wrong for FALSE. */
  ghost predicate WrongTrue(p: Answers) {
    exists s, c :: p(s, c) && (s == Some(true)) != c
  }

  ghost predicate WrongFalse(p: Answers) {
    exists s, c :: p(s, c) && (s == Some(false)) == c
  }

  /** SQL can answer TRUE and FALSE. */
  ghost predicate Decides(p: Answers, t: bool, f: bool) {
    p(Some(true), t) && p(Some(false), f)
  }

  ghost predicate Conjoins(r: Answers, p: Answers, q: Answers) {
    forall s, c, t, d | p(s, c) && q(t, d) :: r(And(s, t), c && d)
  }

  ghost predicate Disjoins(r: Answers, p: Answers, q: Answers) {
    forall s, c, t, d | p(s, c) && q(t, d) :: r(Or(s, t), c || d)
  }

  lemma Shows(r: Answers, s: Option<bool>, c: bool)
    requires r(s, c)
    ensures (s == Some(true)) != c ==> WrongTrue(r)
    ensures (s == Some(false)) == c ==> WrongFalse(r)
  {
  }

  /** An operand that goes wrong makes a conjunction go wrong, with a suitable answer of the other operand. */
  lemma WrongAnd(r: Answers, p: Answers, q: Answers, t1: bool, f1: bool, t2: bool, f2: bool)
    requires Conjoins(r, p, q) && Decides(p, t1, f1) && Decides(q, t2, f2)
    ensures WrongTrue(p) ==> WrongTrue(r)
    ensures WrongFalse(p) ==> WrongFalse(r)
  {
    forall s, c | p(s, c)
      ensures (s == Some(true)) != c ==> WrongTrue(r)
      ensures (s == Some(false)) == c ==> WrongFalse(r)
    {
      if !c {
        Shows(r, And(s, Some(true)), c && t2);
      } else if exists t :: q(t, true) {
        var t :| q(t, true);
        Shows(r, And(s, t), c && true);
      } else {
        assert !t2;
        Shows(r, And(Some(true), Some(true)), t1 && t2);
      }
    }
  }

  /** And a disjunction. */
  lemma WrongOr(r: Answers, p: Answers, q: Answers, t1: bool, f1: bool, t2: bool, f2: bool)
    requires Disjoins(r, p, q) && Decides(p, t1, f1) && Decides(q, t2, f2)
    ensures WrongTrue(p) ==> WrongTrue(r)
    ensures WrongFalse(p) ==> WrongFalse(r)
  {
    forall s, c | p(s, c)
      ensures (s == Some(true)) != c ==> WrongTrue(r)
      ensures (s == Some(false)) == c ==> WrongFalse(r)
    {
      if c {
        Shows(r, Or(s, Some(false)), c || f2);
      } else if exists t :: q(t, false) {
        var t :| q(t, false);
        Shows(r, Or(s, t), c || false);
      } else {
        assert f2;
        Shows(r, Or(Some(false), Some(false)), f1 || f2);
      }
    }
  }

  /** Either way round. */
  lemma WrongConnective(op: Op, r: Answers, p: Answers, q: Answers, t1: bool, f1: bool, t2: bool, f2: bool)
    requires (op == AND && Conjoins(r, p, q)) || (op == OR && Disjoins(r, p, q))
    requires Decides(p, t1, f1) && Decides(q, t2, f2)
    ensures WrongTrue(p) || WrongTrue(q) ==> WrongTrue(r)
    ensures WrongFalse(p) || WrongFalse(q) ==> WrongFalse(r)
  {
    if op == AND {
      forall s, c, t, d | q(s, c) && p(t, d)
        ensures r(And(s, t), c && d)
      {
        assert r(And(t, s), d && c);
        assert And(t, s) == And(s, t);
      }
      WrongAnd(r, p, q, t1, f1, t2, f2);
      WrongAnd(r, q, p, t2, f2, t1, f1);
    } else {
      forall s, c, t, d | q(s, c) && p(t, d)
        ensures r(Or(s, t), c || d)
      {
        assert r(Or(t, s), d || c);
        assert Or(t, s) == Or(s, t);
      }
      WrongOr(r, p, q, t1, f1, t2, f2);
      WrongOr(r, q, p, t2, f2, t1, f1);
    }
  }

  lemma WrongNot(r: Answers, p: Answers)
    requires forall s, c | p(s, c) :: r(Negate(s), !c)
    ensures WrongTrue(p) ==> WrongFalse(r)
    ensures WrongFalse(p) ==> WrongTrue(r)
  {
    forall s, c | p(s, c)
      ensures (s == Some(true)) != c ==> WrongFalse(r)
      ensures (s == Some(false)) == c ==> WrongTrue(r)
    {
      assert r(Negate(s), !c);
    }
  }

  /** The answers that some record of the schema gives together. */
  ghost function AnswersTo(e: Ast, schema: Schema, less: StringOrder): Answers {
    (s, c) => Can(e, schema, less, s, c)
  }

  /** On some record of the schema SQL finds the condition TRUE and CEL does not find it true, or the other way round. */
  ghost predicate BadTrue(e: Ast, schema: Schema, less: StringOrder) {
    WrongTrue(AnswersTo(e, schema, less))
  }

  /** On some record SQL finds it FALSE and CEL does not find it false, or the other way round. */
  ghost predicate BadFalse(e: Ast, schema: Schema, less: StringOrder) {
    WrongFalse(AnswersTo(e, schema, less))
  }

  lemma OperandsJoin(e: Ast, schema: Schema, less: StringOrder)
    requires e.Binary? && (e.op == AND || e.op == OR) && IsCondition(e, schema) && IsLinear(e)
    ensures var r, p, q := AnswersTo(e, schema, less), AnswersTo(e.left, schema, less), AnswersTo(e.right, schema, less);
      if e.op == AND then Conjoins(r, p, q) else Disjoins(r, p, q)
  {
    var r, p, q := AnswersTo(e, schema, less), AnswersTo(e.left, schema, less), AnswersTo(e.right, schema, less);
    forall s, c, t, d | p(s, c) && q(t, d)
      ensures if e.op == AND then r(And(s, t), c && d) else r(Or(s, t), c || d)
    {
      CanBoth(e, schema, less, s, c, t, d);
    }
  }

  lemma {:induction false} Reaches(e: Ast, schema: Schema, less: StringOrder) returns (t: bool, f: bool)
    requires IsCondition(e, schema) && IsLinear(e) && AllLive(e, schema, less)
    ensures Can(e, schema, less, Some(true), t) && Can(e, schema, less, Some(false), f)
  {
    if e.Not? {
      var t', f' := Reaches(e.expr, schema, less);
      CanNot(e, schema, less, Some(true), t');
      CanNot(e, schema, less, Some(false), f');
      t, f := !f', !t';
    } else if e.Binary? && (e.op == AND || e.op == OR) {
      var t1, f1 := Reaches(e.left, schema, less);
      var t2, f2 := Reaches(e.right, schema, less);
      CanBoth(e, schema, less, Some(true), t1, Some(true), t2);
      CanBoth(e, schema, less, Some(false), f1, Some(false), f2);
      t, f := if e.op == AND then t1 && t2 else t1 || t2, if e.op == AND then f1 && f2 else f1 || f2;
    } else if IsFieldTest(e, schema) {
      TestCan(e, schema, less);
      t, f := e.op == NE, e.op == NE;
    } else {
      t, f := true, false;
      if IsFlag(e, schema) {
        FlagCan(e, schema, less);
      } else {
        ComparisonCan(e, schema, less);
      }
    }
  }

  lemma ComparisonSafety(e: Ast, schema: Schema, less: StringOrder)
    requires IsFieldComparison(e, schema)
    ensures TrueSafe(e, schema, less) <==> !OnNull(e, schema, less)
    ensures FalseSafe(e, schema, less) <==> OnNull(e, schema, less)
  {
    assert WhenNull(e.op, e.left, e.right, schema, less) == Some(OnNull(e, schema, less));
    assert !AlwaysDecided(e, schema, less);
  }

  lemma TestSafety(e: Ast, schema: Schema, less: StringOrder)
    requires IsFieldTest(e, schema)
    ensures !TrueSafe(e, schema, less) && !FalseSafe(e, schema, less)
  {
    assert !ValueSafe(if IsField(e.left, schema) then e.left else e.right, schema, less);
    assert !AlwaysDecided(e, schema, less);
  }

  /** A condition that is not safe goes wrong on some record of the schema. */
  lemma {:induction false} UnsafeGoesWrong(e: Ast, schema: Schema, less: StringOrder)
    requires IsCondition(e, schema) && IsLinear(e) && AllLive(e, schema, less)
    ensures !TrueSafe(e, schema, less) ==> BadTrue(e, schema, less)
    ensures !FalseSafe(e, schema, less) ==> BadFalse(e, schema, less)
  {
    if e.Not? {
      UnsafeGoesWrong(e.expr, schema, less);
      NotGoesWrong(e, schema, less);
    } else if e.Binary? && (e.op == AND || e.op == OR) {
      UnsafeGoesWrong(e.left, schema, less);
      UnsafeGoesWrong(e.right, schema, less);
      ConnectiveGoesWrong(e, schema, less);
    } else if IsFieldTest(e, schema) {
      TestGoesWrong(e, schema, less);
    } else if IsFlag(e, schema) {
      FlagGoesWrong(e, schema, less);
    } else {
      ComparisonGoesWrong(e, schema, less);
      ComparisonSafety(e, schema, less);
    }
  }

  lemma NotGoesWrong(e: Ast, schema: Schema, less: StringOrder)
    requires e.Not?
    ensures BadFalse(e.expr, schema, less) ==> BadTrue(e, schema, less)
    ensures BadTrue(e.expr, schema, less) ==> BadFalse(e, schema, less)
  {
    var r, p := AnswersTo(e, schema, less), AnswersTo(e.expr, schema, less);
    forall s, c | p(s, c)
      ensures r(Negate(s), !c)
    {
      CanNot(e, schema, less, s, c);
    }
    WrongNot(r, p);
  }

  lemma ConnectiveGoesWrong(e: Ast, schema: Schema, less: StringOrder)
    requires e.Binary? && (e.op == AND || e.op == OR)
    requires IsCondition(e, schema) && IsLinear(e) && AllLive(e, schema, less)
    ensures BadTrue(e.left, schema, less) || BadTrue(e.right, schema, less) ==> BadTrue(e, schema, less)
    ensures BadFalse(e.left, schema, less) || BadFalse(e.right, schema, less) ==> BadFalse(e, schema, less)
  {
    var t1, f1 := Decided(e.left, schema, less);
    var t2, f2 := Decided(e.right, schema, less);
    OperandsJoin(e, schema, less);
    WrongConnective(e.op, AnswersTo(e, schema, less), AnswersTo(e.left, schema, less), AnswersTo(e.right, schema, less), t1, f1, t2, f2);
  }

  lemma Decided(e: Ast, schema: Schema, less: StringOrder) returns (t: bool, f: bool)
    requires IsCondition(e, schema) && IsLinear(e) && AllLive(e, schema, less)
    ensures Decides(AnswersTo(e, schema, less), t, f)
  {
    t, f := Reaches(e, schema, less);
  }

  lemma TestGoesWrong(e: Ast, schema: Schema, less: StringOrder)
    requires IsFieldTest(e, schema)
    ensures BadTrue(e, schema, less) && BadFalse(e, schema, less)
  {
    TestCan(e, schema, less);
    assert AnswersTo(e, schema, less)(Some(e.op == EQ), e.op == NE);
  }

  lemma FlagGoesWrong(e: Ast, schema: Schema, less: StringOrder)
    requires IsFlag(e, schema)
    ensures BadFalse(e, schema, less)
  {
    FlagCan(e, schema, less);
    assert AnswersTo(e, schema, less)(None, false);
  }

  lemma ComparisonGoesWrong(e: Ast, schema: Schema, less: StringOrder)
    requires IsFieldComparison(e, schema) && AllLive(e, schema, less)
    ensures if OnNull(e, schema, less) then BadTrue(e, schema, less) else BadFalse(e, schema, less)
  {
    ComparisonCan(e, schema, less);
    assert AnswersTo(e, schema, less)(None, OnNull(e, schema, less));
  }

  /** A safe condition never does. */
  lemma {:induction false} SafeAnswers(e: Ast, env: Env)
    requires env.Valid() && IsCondition(e, env.schema) && IsFlat(e, env)
    ensures TrueSafe(e, env.schema, env.less) ==> ((SqlAnswer(e, env) == Some(true)) == CelAnswer(e, env))
    ensures FalseSafe(e, env.schema, env.less) ==> ((SqlAnswer(e, env) == Some(false)) != CelAnswer(e, env))
  {
    if e.Not? {
      SafeAnswers(e.expr, env);
    } else if e.Binary? && (e.op == AND || e.op == OR) {
      SafeAnswers(e.left, env);
      SafeAnswers(e.right, env);
    } else if IsFieldTest(e, env.schema) {
      TestSafety(e, env.schema, env.less);
    } else if IsFieldComparison(e, env.schema) {
      ComparisonSafety(e, env.schema, env.less);
    }
  }

  lemma AtomRuns(e: Ast, env: Env)
    requires env.Valid() && IsAtom(e, env.schema)
    ensures IsFlat(e, env) && ToSql(e).Some? && SqlEval(ToSql(e).value, env).Some? && IsLogical(SqlEval(ToSql(e).value, env).value)
  {
    if e.Binary? {
      StoredExact(e.left, env);
      StoredExact(e.right, env);
    }
  }

  /** The SQL of a condition never raises. */
  lemma {:induction false} ConditionRuns(e: Ast, env: Env)
    requires env.Valid() && IsCondition(e, env.schema)
    ensures ToSql(e).Some? && SqlEval(ToSql(e).value, env).Some? && IsLogical(SqlEval(ToSql(e).value, env).value)
  {
    if e.Not? {
      ConditionRuns(e.expr, env);
    } else if e.Binary? && (e.op == AND || e.op == OR) {
      ConditionRuns(e.left, env);
      ConditionRuns(e.right, env);
    } else {
      AtomRuns(e, env);
    }
  }

  /** SQL finds the condition TRUE on a record exactly if CEL finds it true. */
  ghost predicate AgreesOn(e: Ast, env: Env) {
    ToSql(e).Some? && (SqlEval(ToSql(e).value, env) == Some(Bool(true)) <==> Truthy(Eval(e, env)))
  }

  /**
   * The static condition is exact: a condition of null tests, comparisons and flags, each field once,
   * selects the same in SQL as in CEL on every record of a schema if and only if it is true-safe. A
   * null test never is, and a comparison is exactly if CEL finds it false where the field is unset.
   */
  lemma ConditionSafeIff(e: Ast, schema: Schema, less: StringOrder)
    requires IsCondition(e, schema) && IsLinear(e) && AllLive(e, schema, less)
    ensures TrueSafe(e, schema, less) <==> forall env | Of(env, schema, less) :: AgreesOn(e, env)
  {
    if TrueSafe(e, schema, less) {
      forall env | Of(env, schema, less)
        ensures AgreesOn(e, env)
      {
        SafeAgrees(e, env);
      }
    } else {
      var env := UnsafeDiffers(e, schema, less);
    }
  }

  lemma SafeAgrees(e: Ast, env: Env)
    requires env.Valid() && IsCondition(e, env.schema) && TrueSafe(e, env.schema, env.less)
    ensures AgreesOn(e, env)
  {
    AgreesExactly(e, env);
    SafeAnswers(e, env);
  }

  lemma UnsafeDiffers(e: Ast, schema: Schema, less: StringOrder) returns (env: Env)
    requires IsCondition(e, schema) && IsLinear(e) && AllLive(e, schema, less) && !TrueSafe(e, schema, less)
    ensures Of(env, schema, less) && !AgreesOn(e, env)
  {
    UnsafeGoesWrong(e, schema, less);
    env := BadRecord(e, schema, less);
    AgreesExactly(e, env);
  }

  lemma BadRecord(e: Ast, schema: Schema, less: StringOrder) returns (env: Env)
    requires BadTrue(e, schema, less)
    ensures Of(env, schema, less) && IsFlat(e, env) && (SqlAnswer(e, env) == Some(true)) != CelAnswer(e, env)
  {
    var s, c :| Can(e, schema, less, s, c) && (s == Some(true)) != c;
    env :| Of(env, schema, less) && IsFlat(e, env) && SqlAnswer(e, env) == s && CelAnswer(e, env) == c;
  }

  lemma AgreesExactly(e: Ast, env: Env)
    requires env.Valid() && IsCondition(e, env.schema)
    ensures IsFlat(e, env) && (AgreesOn(e, env) <==> (SqlAnswer(e, env) == Some(true)) == CelAnswer(e, env))
  {
    ConditionIsFlat(e, env);
    ConditionRuns(e, env);
    ConditionExact(e, env, SqlEval(ToSql(e).value, env).value);
  }

  // ----- ternaries over a schema -----

  /** Ternaries nested in any way over conditions of a schema, with a value of its own at every leaf. */
  predicate IsTree(e: Ast, schema: Schema) {
    match e
    case Ternary(c, t, f) => IsCondition(c, schema) && IsTree(t, schema) && IsTree(f, schema) && Leaves(t) !! Leaves(f)
    case _ => e.Literal?
  }

  lemma {:induction false} TreeIsDecision(e: Ast, env: Env)
    requires env.Valid() && IsTree(e, env.schema)
    ensures IsDecision(e, env)
  {
    if e.Ternary? {
      ConditionIsFlat(e.condition, env);
      TreeIsDecision(e.trueExpr, env);
      TreeIsDecision(e.falseExpr, env);
    }
  }

  lemma {:induction false} TreeCompiles(e: Ast, env: Env)
    requires env.Valid() && IsTree(e, env.schema)
    ensures ToSql(e).Some? && Branches(e).Some?
  {
    if e.Ternary? {
      ConditionRuns(e.condition, env);
      TreeCompiles(e.trueExpr, env);
      TreeCompiles(e.falseExpr, env);
    }
  }

  /** The SQL of such a tree never raises either. */
  lemma {:induction false} TreeRuns(e: Ast, env: Env)
    requires env.Valid() && IsTree(e, env.schema)
    ensures IsDecision(e, env) && ToSql(e).Some? && SqlEval(ToSql(e).value, env) == Some(SqlChoice(e, env))
    ensures Eval(e, env) == CelChoice(e, env)
  {
    TreeIsDecision(e, env);
    TreeCompiles(e, env);
    if e.Ternary? {
      ConditionRuns(e.condition, env);
      ConditionExact(e.condition, env, SqlEval(ToSql(e.condition).value, env).value);
      FlattenNests(e, env);
      TreeRuns(e.trueExpr, env);
      TreeRuns(e.falseExpr, env);
    }
    EvalChoice(e, env);
  }

  lemma {:induction false} ChoicesFrame(e: Ast, a: Env, b: Env)
    requires a.Valid() && b.Valid() && a.schema == b.schema && a.less == b.less && IsTree(e, a.schema)
    requires SameRows(Fields(e), a, b)
    ensures IsDecision(e, a) && IsDecision(e, b) && SqlChoice(e, a) == SqlChoice(e, b) && CelChoice(e, a) == CelChoice(e, b)
  {
    TreeIsDecision(e, a);
    TreeIsDecision(e, b);
    if e.Ternary? {
      AnswersFrame(e.condition, a, b);
      ChoicesFrame(e.trueExpr, a, b);
      ChoicesFrame(e.falseExpr, a, b);
    }
  }

  /** Some record of the schema takes SQL and CEL to different leaves. */
  ghost predicate Parts(e: Ast, schema: Schema, less: StringOrder) {
    exists env :: Of(env, schema, less) && IsDecision(e, env) && SqlChoice(e, env) != CelChoice(e, env)
  }

  lemma ReachRecord(e: Ast, schema: Schema, less: StringOrder, branch: bool) returns (env: Env)
    requires IsCondition(e, schema) && IsLinear(e) && AllLive(e, schema, less)
    ensures Of(env, schema, less) && IsFlat(e, env) && SqlAnswer(e, env) == Some(branch)
  {
    var t, f := Reaches(e, schema, less);
    env :| Of(env, schema, less) && IsFlat(e, env) && SqlAnswer(e, env) == Some(branch) && CelAnswer(e, env) == if branch then t else f;
  }

  /** A branch that a safe condition leads to can be reached with whatever record takes the branch apart. */
  lemma PartsBelow(e: Ast, schema: Schema, less: StringOrder, branch: bool)
    requires e.Ternary? && IsTree(e, schema) && IsLinear(e) && AllLive(e, schema, less)
    requires TrueSafe(e.condition, schema, less) && Parts(if branch then e.trueExpr else e.falseExpr, schema, less)
    ensures Parts(e, schema, less)
  {
    var below := if branch then e.trueExpr else e.falseExpr;
    var a := ReachRecord(e.condition, schema, less, branch);
    var b :| Of(b, schema, less) && IsDecision(below, b) && SqlChoice(below, b) != CelChoice(below, b);
    var env := Mix(a, b, Fields(e.condition));
    MixBelow(e.condition, below, a, b);
    SafeAnswers(e.condition, env);
    TreeIsDecision(e, env);
    assert SqlChoice(e, env) == SqlChoice(below, env) && CelChoice(e, env) == CelChoice(below, env);
  }

  lemma MixBelow(c: Ast, below: Ast, a: Env, b: Env)
    requires a.Valid() && b.Valid() && a.schema == b.schema && a.less == b.less
    requires IsCondition(c, a.schema) && IsTree(below, a.schema) && Fields(c) !! Fields(below)
    ensures var env := Mix(a, b, Fields(c));
      && Of(env, a.schema, a.less) && IsFlat(c, a) && IsFlat(c, env) && SqlAnswer(c, env) == SqlAnswer(c, a)
      && IsDecision(below, b) && IsDecision(below, env)
      && SqlChoice(below, env) == SqlChoice(below, b) && CelChoice(below, env) == CelChoice(below, b)
  {
    var env := Mix(a, b, Fields(c));
    MixRows(a, b, Fields(c), Fields(below));
    AnswersFrame(c, a, env);
    ChoicesFrame(below, b, env);
  }

  lemma PartsHere(e: Ast, schema: Schema, less: StringOrder)
    requires e.Ternary? && IsTree(e, schema) && BadTrue(e.condition, schema, less)
    ensures Parts(e, schema, less)
  {
    var env := BadRecord(e.condition, schema, less);
    TreeIsDecision(e, env);
  }

  lemma {:induction false} UnsafeParts(e: Ast, schema: Schema, less: StringOrder)
    requires IsTree(e, schema) && IsLinear(e) && AllLive(e, schema, less) && !ValueSafe(e, schema, less)
    ensures Parts(e, schema, less)
  {
    UnsafeGoesWrong(e.condition, schema, less);
    if !TrueSafe(e.condition, schema, less) {
      PartsHere(e, schema, less);
    } else if !ValueSafe(e.trueExpr, schema, less) {
      UnsafeParts(e.trueExpr, schema, less);
      PartsBelow(e, schema, less, true);
    } else {
      UnsafeParts(e.falseExpr, schema, less);
      PartsBelow(e, schema, less, false);
    }
  }

  /** The SQL has CEL's value on a record. */
  ghost predicate SameOn(e: Ast, env: Env) {
    ToSql(e).Some? && SqlEval(ToSql(e).value, env) == Some(Eval(e, env))
  }

  /**
   * And so it is for ternaries: nested in any way, over such conditions, the SQL has CEL's value on
   * every record of the schema if and only if the expression is value-safe, that is, every condition
   * in it is true-safe.
   */
  lemma TernarySafeIff(e: Ast, schema: Schema, less: StringOrder)
    requires IsTree(e, schema) && IsLinear(e) && AllLive(e, schema, less)
    ensures ValueSafe(e, schema, less) <==> forall env | Of(env, schema, less) :: SameOn(e, env)
  {
    forall env | Of(env, schema, less)
      ensures IsDecision(e, env) && (SameOn(e, env) <==> SqlChoice(e, env) == CelChoice(e, env))
      ensures ValueSafe(e, schema, less) ==> SameOn(e, env)
    {
      TreeRuns(e, env);
      SqlAgrees(e, env, SqlChoice(e, env));
    }
    if !ValueSafe(e, schema, less) {
      UnsafeParts(e, schema, less);
      var env :| Of(env, schema, less) && IsDecision(e, env) && SqlChoice(e, env) != CelChoice(e, env);
      assert !SameOn(e, env);
    }
  }
}
