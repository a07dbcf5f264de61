/**
 * Vocabulary-aware CEL predicates as prefix-notation Odoo domains: `_to_plan` and its handlers in
 * spp_cel_vocabulary/models/cel_vocabulary_translator.py, `_plan_to_domain` and `_and_domains` of
 * spp_cel_domain/models/cel_executor.py, and the direct evaluation of
 * spp_cel_vocabulary/services/cel_vocabulary_functions.py that they must agree with.
 */
module Vocabulary {
  import opened Lists
  import opened Wrappers

  // ----- codes and groups -----

  /** A vocabulary code; URIs are unique and set, a reference URI may be empty. */
  datatype Code = Code(id: nat, uri: string, referenceUri: string)

  /** A record's code fields: absent when the field is empty. */
  type Record = map<string, Code>

  /** Concept groups by name, with the URIs of their codes, and what `code()` resolves to. */
  datatype Vocab = Vocab(groups: map<string, set<string>>, resolved: map<string, Code>)

  ghost predicate ValidVocab(vocab: Vocab) {
    && (forall name :: name in vocab.groups ==> "" !in vocab.groups[name])
    && (forall identifier :: identifier in vocab.resolved ==> identifier != "" && vocab.resolved[identifier].uri != "")
  }

  /** Codes that share a URI are one code. */
  ghost predicate UniqueUris(record: Record, vocab: Vocab) {
    forall f, i :: f in record && i in vocab.resolved && record[f].uri == vocab.resolved[i].uri ==> record[f] == vocab.resolved[i]
  }

  // ----- domains -----

  /** What a leaf of a domain compares; `sql` leaves hold a SQL object instead of plain values. */
  datatype Test =
    | UriIn(field: string, uris: set<string>)
    | ReferenceIn(field: string, uris: set<string>)
    | UriNot(field: string, uri: string)
    | ReferenceNot(field: string, uri: string)
    | Constant(holds: bool)
    | Sql(holds: bool)

  datatype Term = Leaf(test: Test) | OpAnd | OpOr | OpNot

  type Domain = List<Term>

  /** The tree a prefix-notation domain stands for. */
  datatype Tree = TreeLeaf(test: Test) | TreeAnd(left: Tree, right: Tree) | TreeOr(left: Tree, right: Tree) | TreeNot(tree: Tree)

  /** Reads one expression off the front of a domain, by the arity of the operators. */
  function Read(domain: Domain): Option<(Tree, Domain)>
    ensures Read(domain).Some? ==> Size(Read(domain).value.1) < Size(domain)
    decreases Size(domain)
  {
    match domain
    case Nil => None
    case Cons(Leaf(test), rest) => Some((TreeLeaf(test), rest))
    case Cons(OpNot, rest) =>
      (match Read(rest)
       case Some((tree, after)) => Some((TreeNot(tree), after))
       case None => None)
    case Cons(op, rest) =>
      match Read(rest)
      case None => None
      case Some((left, middle)) =>
        match Read(middle)
        case None => None
        case Some((right, after)) => Some((if op == OpAnd then TreeAnd(left, right) else TreeOr(left, right), after))
  }

  /**
   * Whether a leaf accepts a record. An inequality on a missing code is left open: `missing` says
   * what the ORM answers there.
   */
  predicate Accepts(test: Test, record: Record, missing: bool) {
    match test
    case UriIn(field, uris) => field in record && record[field].uri in uris
    case ReferenceIn(field, uris) => field in record && record[field].referenceUri in uris
    case UriNot(field, uri) => if field in record then record[field].uri != uri else missing
    case ReferenceNot(field, uri) => if field in record then record[field].referenceUri != uri else missing
    case Constant(holds) => holds
    case Sql(holds) => holds
  }

  predicate Holds(tree: Tree, record: Record, missing: bool) {
    match tree
    case TreeLeaf(test) => Accepts(test, record, missing)
    case TreeAnd(left, right) => Holds(left, record, missing) && Holds(right, record, missing)
    case TreeOr(left, right) => Holds(left, record, missing) || Holds(right, record, missing)
    case TreeNot(inner) => !Holds(inner, record, missing)
  }

  /** A whole domain: consecutive expressions are implicitly and-ed, and the empty one accepts all. */
  predicate Matches(domain: Domain, record: Record, missing: bool)
    decreases Size(domain)
  {
    domain.Nil?
    || match Read(domain)
       case Some((tree, rest)) => Holds(tree, record, missing) && Matches(rest, record, missing)
       case None => false
  }

  /** How many expressions a domain holds side by side. */
  function Expressions(domain: Domain): nat
    decreases Size(domain)
  {
    if domain.Nil? then 0
    else
      match Read(domain)
      case Some((_, rest)) => 1 + Expressions(rest)
      case None => 1
  }

  // ----- plans -----

  /** Query plans; `Execute` stands for the nodes that no domain expresses. */
  datatype Plan = LeafDomain(domain: Domain) | And(left: Plan, right: Plan) | Or(left: Plan, right: Plan) | Not(plan: Plan) | Execute

  predicate ContainsSql(domain: Domain) {
    match domain
    case Nil => false
    case Cons(term, rest) => (term.Leaf? && term.test.Sql?) || ContainsSql(rest)
  }

  /** Makes implicit conjunction explicit, as the library's AND does. */
  function Explicit(domain: Domain, expressions: nat): Domain {
    if expressions <= 1 then domain else Cons(OpAnd, Explicit(domain, expressions - 1))
  }

  /** `_and_domains`: with SQL objects the two domains are only put side by side. */
  function AndDomains(a: Domain, b: Domain): Domain {
    if a.Nil? then b
    else if b.Nil? then a
    else if ContainsSql(a) || ContainsSql(b) then Append(a, b)
    else Cons(OpAnd, Append(Explicit(a, Expressions(a)), Explicit(b, Expressions(b))))
  }

  /** `flatten_and`, over the two nodes of a conjunction. */
  function FlattenAnd(plan: Plan): List<Plan> {
    match plan
    case And(left, right) => Append(FlattenAnd(left), FlattenAnd(right))
    case _ => Cons(plan, Nil)
  }

  function PlanSize(plan: Plan): nat {
    match plan
    case And(left, right) => 1 + PlanSize(left) + PlanSize(right)
    case Or(left, right) => 1 + PlanSize(left) + PlanSize(right)
    case Not(inner) => 1 + PlanSize(inner)
    case _ => 1
  }

  function PlansSize(plans: List<Plan>): nat {
    match plans
    case Nil => 0
    case Cons(plan, rest) => PlanSize(plan) + PlansSize(rest)
  }

  lemma {:induction false} AppendSize(a: List<Plan>, b: List<Plan>)
    ensures PlansSize(Append(a, b)) == PlansSize(a) + PlansSize(b)
  {
    match a {
      case Nil =>
      case Cons(_, rest) => AppendSize(rest, b);
    }
  }

  lemma {:induction false} FlattenSize(plan: Plan)
    ensures PlansSize(FlattenAnd(plan)) <= PlanSize(plan)
    ensures plan.And? ==> PlansSize(FlattenAnd(plan)) < PlanSize(plan)
  {
    if plan.And? {
      FlattenSize(plan.left);
      FlattenSize(plan.right);
      AppendSize(FlattenAnd(plan.left), FlattenAnd(plan.right));
    }
  }

  /** `_plan_to_domain`: a domain, and whether the plan has to be executed instead. */
  function PlanToDomain(plan: Plan): (Domain, bool)
    decreases PlanSize(plan), 0
  {
    match plan
    case LeafDomain(domain) => (domain, false)
    case And(_, _) =>
      FlattenSize(plan);
      ConjoinAll(FlattenAnd(plan), Nil)
    case Or(left, right) =>
      var (l, le) := PlanToDomain(left);
      var (r, re) := PlanToDomain(right);
      if le || re then (Nil, true) else (Cons(OpOr, Append(l, r)), false)
    case Not(inner) =>
      var (d, e) := PlanToDomain(inner);
      if e then (Nil, true) else (Cons(OpNot, d), false)
    case Execute => (Nil, true)
  }

  /** The loop over the flattened conjuncts. */
  function ConjoinAll(plans: List<Plan>, domains: Domain): (Domain, bool)
    decreases PlansSize(plans), 1
  {
    match plans
    case Nil => (domains, false)
    case Cons(plan, rest) =>
      var (d, e) := PlanToDomain(plan);
      var (all, more) := ConjoinAll(rest, if d.Nil? then domains else AndDomains(domains, d));
      (all, e || more)
  }

  // ----- reading a plan's domain back -----

  /** A domain that is exactly one prefix expression. */
  predicate IsOne(domain: Domain) {
    Read(domain).Some? && Read(domain).value.1 == Nil
  }

  /** Reading stops where the expression ends, whatever follows it. */
  lemma {:induction false} ReadAppend(domain: Domain, rest: Domain)
    requires Read(domain).Some?
    ensures Read(Append(domain, rest)) == Some((Read(domain).value.0, Append(Read(domain).value.1, rest)))
    decreases Size(domain)
  {
    if !domain.head.Leaf? {
      ReadAppend(domain.tail, rest);
      if domain.head != OpNot {
        ReadAppend(Read(domain.tail).value.1, rest);
      }
    }
  }

  /** What a plan accepts, its leaves read as whole domains. */
  predicate PlanHolds(plan: Plan, record: Record, missing: bool) {
    match plan
    case LeafDomain(domain) => Matches(domain, record, missing)
    case And(left, right) => PlanHolds(left, record, missing) && PlanHolds(right, record, missing)
    case Or(left, right) => PlanHolds(left, record, missing) || PlanHolds(right, record, missing)
    case Not(inner) => !PlanHolds(inner, record, missing)
    case Execute => false
  }

  /** A plan of which every leaf is one expression without SQL objects. */
  predicate Expressible(plan: Plan) {
    match plan
    case LeafDomain(domain) => IsOne(domain) && !ContainsSql(domain)
    case And(left, right) => Expressible(left) && Expressible(right)
    case Or(left, right) => Expressible(left) && Expressible(right)
    case Not(inner) => Expressible(inner)
    case Execute => false
  }

  predicate AllExpressible(plans: List<Plan>) {
    match plans
    case Nil => true
    case Cons(plan, rest) => Expressible(plan) && AllExpressible(rest)
  }

  predicate AllHold(plans: List<Plan>, record: Record, missing: bool) {
    match plans
    case Nil => true
    case Cons(plan, rest) => PlanHolds(plan, record, missing) && AllHold(rest, record, missing)
  }

  lemma {:induction false} AppendPlans(a: List<Plan>, b: List<Plan>, record: Record, missing: bool)
    ensures AllExpressible(Append(a, b)) <==> AllExpressible(a) && AllExpressible(b)
    ensures AllHold(Append(a, b), record, missing) <==> AllHold(a, record, missing) && AllHold(b, record, missing)
  {
    match a {
      case Nil =>
      case Cons(_, rest) => AppendPlans(rest, b, record, missing);
    }
  }

  lemma {:induction false} FlattenMeaning(plan: Plan, record: Record, missing: bool)
    requires Expressible(plan)
    ensures FlattenAnd(plan).Cons? && AllExpressible(FlattenAnd(plan))
    ensures AllHold(FlattenAnd(plan), record, missing) == PlanHolds(plan, record, missing)
  {
    if plan.And? {
      FlattenMeaning(plan.left, record, missing);
      FlattenMeaning(plan.right, record, missing);
      AppendPlans(FlattenAnd(plan.left), FlattenAnd(plan.right), record, missing);
    }
  }

  lemma {:induction false} NoSqlAppend(a: Domain, b: Domain)
    ensures ContainsSql(Append(a, b)) <==> ContainsSql(a) || ContainsSql(b)
  {
    match a {
      case Nil =>
      case Cons(_, rest) => NoSqlAppend(rest, b);
    }
  }

  /** A domain that is one expression, free of SQL objects, and accepts a record exactly if `holds`. */
  predicate Means(domain: Domain, holds: bool, record: Record, missing: bool) {
    IsOne(domain) && !ContainsSql(domain) && Matches(domain, record, missing) == holds
  }

  lemma OneMatches(domain: Domain, record: Record, missing: bool)
    requires IsOne(domain)
    ensures domain.Cons? && Expressions(domain) == 1
    ensures Matches(domain, record, missing) == Holds(Read(domain).value.0, record, missing)
  {
  }

  /** An operator in front of two expressions makes one expression of them. */
  lemma BinaryMeans(op: Term, a: Domain, b: Domain, x: bool, y: bool, record: Record, missing: bool)
    requires op in {OpAnd, OpOr} && Means(a, x, record, missing) && Means(b, y, record, missing)
    ensures Means(Cons(op, Append(a, b)), if op == OpAnd then x && y else x || y, record, missing)
  {
    OneMatches(a, record, missing);
    OneMatches(b, record, missing);
    ReadAppend(a, b);
    NoSqlAppend(a, b);
    OneMatches(Cons(op, Append(a, b)), record, missing);
  }

  lemma NotMeans(a: Domain, x: bool, record: Record, missing: bool)
    requires Means(a, x, record, missing)
    ensures Means(Cons(OpNot, a), !x, record, missing)
  {
    OneMatches(a, record, missing);
    OneMatches(Cons(OpNot, a), record, missing);
  }

  /**
   * The domain of a plan, read back by the arity of its operators, is one expression that accepts
   * a record exactly when the plan does.
   */
  lemma {:induction false} PlanReadsBack(plan: Plan, record: Record, missing: bool)
    requires Expressible(plan)
    ensures !PlanToDomain(plan).1
    ensures Means(PlanToDomain(plan).0, PlanHolds(plan, record, missing), record, missing)
    decreases PlanSize(plan), 0
  {
    match plan {
      case LeafDomain(_) =>
      case And(_, _) =>
        FlattenSize(plan);
        FlattenMeaning(plan, record, missing);
        ConjoinMeans(FlattenAnd(plan), Nil, true, record, missing);
      case Or(left, right) =>
        PlanReadsBack(left, record, missing);
        PlanReadsBack(right, record, missing);
        BinaryMeans(OpOr, PlanToDomain(left).0, PlanToDomain(right).0, PlanHolds(left, record, missing),
                    PlanHolds(right, record, missing), record, missing);
      case Not(inner) =>
        PlanReadsBack(inner, record, missing);
        NotMeans(PlanToDomain(inner).0, PlanHolds(inner, record, missing), record, missing);
    }
  }

  lemma {:induction false} ConjoinMeans(plans: List<Plan>, domains: Domain, holds: bool, record: Record, missing: bool)
    requires AllExpressible(plans) && (plans.Nil? ==> domains.Cons?)
    requires if domains.Nil? then holds else Means(domains, holds, record, missing)
    ensures !ConjoinAll(plans, domains).1
    ensures Means(ConjoinAll(plans, domains).0, holds && AllHold(plans, record, missing), record, missing)
    decreases PlansSize(plans), 1
  {
    match plans {
      case Nil =>
      case Cons(plan, rest) =>
        PlanReadsBack(plan, record, missing);
        var d := PlanToDomain(plan).0;
        OneMatches(d, record, missing);
        if domains.Nil? {
          ConjoinMeans(rest, d, PlanHolds(plan, record, missing), record, missing);
        } else {
          OneMatches(domains, record, missing);
          BinaryMeans(OpAnd, domains, d, holds, PlanHolds(plan, record, missing), record, missing);
          ConjoinMeans(rest, AndDomains(domains, d), holds && PlanHolds(plan, record, missing), record, missing);
        }
    }
  }

  /** A plan has to be executed. */
  predicate NeedsExecution(plan: Plan) {
    match plan
    case LeafDomain(_) => false
    case And(left, right) => NeedsExecution(left) || NeedsExecution(right)
    case Or(left, right) => NeedsExecution(left) || NeedsExecution(right)
    case Not(inner) => NeedsExecution(inner)
    case Execute => true
  }

  predicate SomeNeedExecution(plans: List<Plan>) {
    match plans
    case Nil => false
    case Cons(plan, rest) => NeedsExecution(plan) || SomeNeedExecution(rest)
  }

  lemma {:induction false} SomeAppend(a: List<Plan>, b: List<Plan>)
    ensures SomeNeedExecution(Append(a, b)) <==> SomeNeedExecution(a) || SomeNeedExecution(b)
  {
    match a {
      case Nil =>
      case Cons(_, rest) => SomeAppend(rest, b);
    }
  }

  lemma {:induction false} FlattenExecution(plan: Plan)
    ensures SomeNeedExecution(FlattenAnd(plan)) <==> NeedsExecution(plan)
  {
    if plan.And? {
      FlattenExecution(plan.left);
      FlattenExecution(plan.right);
      SomeAppend(FlattenAnd(plan.left), FlattenAnd(plan.right));
    }
  }

  /** A plan is handed to execution exactly when a node that no domain expresses occurs anywhere in it. */
  lemma {:induction false} ExecutedExactly(plan: Plan)
    ensures PlanToDomain(plan).1 <==> NeedsExecution(plan)
    decreases PlanSize(plan), 0
  {
    match plan {
      case LeafDomain(_) =>
      case And(_, _) =>
        FlattenSize(plan);
        FlattenExecution(plan);
        ConjoinExecuted(FlattenAnd(plan), Nil);
      case Or(left, right) =>
        ExecutedExactly(left);
        ExecutedExactly(right);
      case Not(inner) => ExecutedExactly(inner);
      case Execute =>
    }
  }

  lemma {:induction false} ConjoinExecuted(plans: List<Plan>, domains: Domain)
    ensures ConjoinAll(plans, domains).1 <==> SomeNeedExecution(plans)
    decreases PlansSize(plans), 1
  {
    match plans {
      case Nil =>
      case Cons(plan, rest) =>
        ExecutedExactly(plan);
        var d := PlanToDomain(plan).0;
        ConjoinExecuted(rest, if d.Nil? then domains else AndDomains(domains, d));
    }
  }

  // ----- the base domain -----

  /** A domain of whole expressions side by side. */
  predicate WellFormed(domain: Domain)
    decreases Size(domain)
  {
    domain.Nil? || (Read(domain).Some? && WellFormed(Read(domain).value.1))
  }

  /** Domains put side by side are and-ed. */
  lemma {:induction false} AppendMatches(a: Domain, b: Domain, record: Record, missing: bool)
    requires WellFormed(a) && WellFormed(b)
    ensures WellFormed(Append(a, b))
    ensures Matches(Append(a, b), record, missing) == (Matches(a, record, missing) && Matches(b, record, missing))
    decreases Size(a)
  {
    if a.Cons? {
      ReadAppend(a, b);
      AppendMatches(Read(a).value.1, b, record, missing);
    }
  }

  /** With enough operators in front the first `n` expressions read as one, their conjunction. */
  lemma {:induction false} ExplicitReads(domain: Domain, n: nat, record: Record, missing: bool)
    requires WellFormed(domain) && 1 <= n <= Expressions(domain)
    ensures var read := Read(Explicit(domain, n));
      && read.Some? && WellFormed(read.value.1) && Expressions(read.value.1) == Expressions(domain) - n
      && (Matches(domain, record, missing) <==>
            Holds(read.value.0, record, missing) && Matches(read.value.1, record, missing))
    decreases n
  {
    if n > 1 {
      ExplicitReads(domain, n - 1, record, missing);
    }
  }

  lemma NoneLeft(domain: Domain)
    requires WellFormed(domain) && Expressions(domain) == 0
    ensures domain.Nil?
  {
  }

  lemma ExplicitMeans(domain: Domain, record: Record, missing: bool)
    requires WellFormed(domain) && domain.Cons?
    ensures IsOne(Explicit(domain, Expressions(domain)))
    ensures Matches(Explicit(domain, Expressions(domain)), record, missing) == Matches(domain, record, missing)
  {
    ExplicitReads(domain, Expressions(domain), record, missing);
    NoneLeft(Read(Explicit(domain, Expressions(domain))).value.1);
  }

  /**
   * And-ing two domains at the top is conjunction, for any well-formed domains: whether their own
   * conjunctions are explicit or implicit, and with SQL objects or without.
   */
  lemma TopLevelAnd(a: Domain, b: Domain, record: Record, missing: bool)
    requires WellFormed(a) && WellFormed(b)
    ensures WellFormed(AndDomains(a, b))
    ensures Matches(AndDomains(a, b), record, missing) == (Matches(a, record, missing) && Matches(b, record, missing))
  {
    if a.Cons? && b.Cons? {
      if ContainsSql(a) || ContainsSql(b) {
        AppendMatches(a, b, record, missing);
      } else {
        var left, right := Explicit(a, Expressions(a)), Explicit(b, Expressions(b));
        ExplicitMeans(a, record, missing);
        ExplicitMeans(b, record, missing);
        ReadAppend(left, right);
        OneMatches(left, record, missing);
        OneMatches(right, record, missing);
        OneMatches(Cons(OpAnd, Append(left, right)), record, missing);
      }
    }
  }

  /**
   * What the executor searches with: any base domain together with the plan's own domain, or with
   * the SQL subquery that stands for the plan, accepts exactly the records that both accept.
   */
  lemma FinalDomain(base: Domain, plan: Plan, subquery: bool, record: Record, missing: bool)
    requires WellFormed(base) && Expressible(plan)
    ensures Matches(AndDomains(base, PlanToDomain(plan).0), record, missing) <==>
        Matches(base, record, missing) && PlanHolds(plan, record, missing)
    ensures Matches(AndDomains(base, Cons(Leaf(Sql(subquery)), Nil)), record, missing) <==>
        Matches(base, record, missing) && subquery
  {
    PlanReadsBack(plan, record, missing);
    TopLevelAnd(base, PlanToDomain(plan).0, record, missing);
    var sql := Cons(Leaf(Sql(subquery)), Nil);
    OneMatches(sql, record, missing);
    TopLevelAnd(base, sql, record, missing);
  }

  // ----- vocabulary predicates -----

  datatype Helper = IsFemale | IsMale | IsHead | IsPregnant

  /** The concept group behind each semantic helper. */
  function GroupOf(helper: Helper): string {
    match helper
    case IsFemale => "feminine_gender"
    case IsMale => "masculine_gender"
    case IsHead => "head_of_household"
    case IsPregnant => "pregnant_eligible"
  }

  datatype Predicate =
    | InGroup(field: string, group: string)
    | Semantic(helper: Helper, field: string)
    | CodeEq(field: string, identifier: string)
    | CodeCompare(field: string, equal: bool, identifier: string)

  datatype Expr = Pred(p: Predicate) | Truth(b: bool) | Both(left: Expr, right: Expr) | Either(left: Expr, right: Expr)
                | Negated(expr: Expr)

  function FieldOf(record: Record, field: string): Option<Code> {
    if field in record then Some(record[field]) else None
  }

  /** `code()`: what an identifier resolves to. */
  function Resolve(vocab: Vocab, identifier: string): Option<Code> {
    if identifier in vocab.resolved then Some(vocab.resolved[identifier]) else None
  }

  // Direct evaluation.

  predicate DirectInGroup(code: Option<Code>, group: string, vocab: Vocab) {
    && code.Some? && group != "" && group in vocab.groups
    && ((code.value.uri != "" && code.value.uri in vocab.groups[group])
        || (code.value.referenceUri != "" && code.value.referenceUri in vocab.groups[group]))
  }

  predicate DirectCodeEq(code: Option<Code>, target: Option<Code>) {
    && code.Some? && target.Some?
    && (code.value.uri == target.value.uri
        || (code.value.referenceUri != "" && code.value.referenceUri == target.value.uri)
        || (target.value.referenceUri != "" && target.value.referenceUri == code.value.uri))
  }

  predicate Direct(p: Predicate, record: Record, vocab: Vocab) {
    match p
    case InGroup(field, group) => DirectInGroup(FieldOf(record, field), group, vocab)
    case Semantic(helper, field) => DirectInGroup(FieldOf(record, field), GroupOf(helper), vocab)
    case CodeEq(field, identifier) => DirectCodeEq(FieldOf(record, field), Resolve(vocab, identifier))
    case CodeCompare(field, equal, identifier) => (FieldOf(record, field) == Resolve(vocab, identifier)) == equal
  }

  predicate Evaluate(e: Expr, record: Record, vocab: Vocab) {
    match e
    case Pred(p) => Direct(p, record, vocab)
    case Truth(b) => b
    case Both(left, right) => Evaluate(left, record, vocab) && Evaluate(right, record, vocab)
    case Either(left, right) => Evaluate(left, record, vocab) || Evaluate(right, record, vocab)
    case Negated(inner) => !Evaluate(inner, record, vocab)
  }

  // Translation.

  const NOTHING: Domain := Cons(Leaf(Constant(false)), Nil)

  function EitherUri(field: string, uris: set<string>): Domain {
    Cons(OpOr, Cons(Leaf(UriIn(field, uris)), Cons(Leaf(ReferenceIn(field, uris)), Nil)))
  }

  /** `_handle_in_group`: an unknown or empty group matches nothing. */
  function GroupDomain(field: string, group: string, vocab: Vocab): Domain {
    if group == "" || group !in vocab.groups || vocab.groups[group] == {} then NOTHING
    else EitherUri(field, vocab.groups[group])
  }

  function PredicateDomain(p: Predicate, vocab: Vocab): Domain {
    match p
    case InGroup(field, group) => GroupDomain(field, group, vocab)
    case Semantic(helper, field) => GroupDomain(field, GroupOf(helper), vocab)
    case CodeEq(field, identifier) =>
      (match Resolve(vocab, identifier)
       case None => NOTHING
       case Some(target) => EitherUri(field, {target.uri}))
    case CodeCompare(field, equal, identifier) =>
      match Resolve(vocab, identifier)
      case None => NOTHING
      case Some(target) =>
        if equal then EitherUri(field, {target.uri})
        else Cons(OpAnd, Cons(Leaf(UriNot(field, target.uri)), Cons(Leaf(ReferenceNot(field, target.uri)), Nil)))
  }

  /** `_to_plan`, over boolean combinations of vocabulary predicates. */
  function ToPlan(e: Expr, vocab: Vocab): Plan {
    match e
    case Pred(p) => LeafDomain(PredicateDomain(p, vocab))
    case Truth(b) => LeafDomain(Cons(Leaf(Constant(b)), Nil))
    case Both(left, right) => And(ToPlan(left, vocab), ToPlan(right, vocab))
    case Either(left, right) => Or(ToPlan(left, vocab), ToPlan(right, vocab))
    case Negated(inner) => Not(ToPlan(inner, vocab))
  }

  /** Where a predicate's domain and its direct evaluation come apart. */
  predicate Differs(p: Predicate, record: Record, vocab: Vocab, missing: bool) {
    match p
    case InGroup(_, _) => false
    case Semantic(_, _) => false
    case CodeEq(field, identifier) =>
      (match (FieldOf(record, field), Resolve(vocab, identifier))
       case (Some(code), Some(target)) =>
         // only the target refers to the field's code, which the domain does not ask
         target.referenceUri != "" && target.referenceUri == code.uri && code.uri != target.uri && code.referenceUri != target.uri
       case _ => false)
    case CodeCompare(field, equal, identifier) =>
      match (FieldOf(record, field), Resolve(vocab, identifier))
      case (None, None) => equal
      case (Some(_), None) => !equal
      case (None, Some(_)) => !equal && !missing
      case (Some(code), Some(target)) =>
        // the field's code refers to the target without being it
        code != target && code.referenceUri == target.uri
  }

  lemma EitherUriMatches(field: string, uris: set<string>, record: Record, missing: bool)
    ensures Means(EitherUri(field, uris),
                  field in record && (record[field].uri in uris || record[field].referenceUri in uris), record, missing)
  {
    var right := Cons(Leaf(ReferenceIn(field, uris)), Nil);
    assert Read(right) == Some((TreeLeaf(ReferenceIn(field, uris)), Nil));
    assert Read(Cons(Leaf(UriIn(field, uris)), right)) == Some((TreeLeaf(UriIn(field, uris)), right));
    assert !ContainsSql(right) && !ContainsSql(Cons(Leaf(UriIn(field, uris)), right));
    OneMatches(EitherUri(field, uris), record, missing);
  }

  lemma NothingMatches(record: Record, missing: bool)
    ensures Means(NOTHING, false, record, missing)
  {
    OneMatches(NOTHING, record, missing);
  }

  lemma NeitherUriMatches(field: string, uri: string, record: Record, missing: bool)
    ensures Means(Cons(OpAnd, Cons(Leaf(UriNot(field, uri)), Cons(Leaf(ReferenceNot(field, uri)), Nil))),
                  if field in record then record[field].uri != uri && record[field].referenceUri != uri else missing,
                  record, missing)
  {
    var right := Cons(Leaf(ReferenceNot(field, uri)), Nil);
    assert Read(right) == Some((TreeLeaf(ReferenceNot(field, uri)), Nil));
    assert Read(Cons(Leaf(UriNot(field, uri)), right)) == Some((TreeLeaf(UriNot(field, uri)), right));
    assert !ContainsSql(right) && !ContainsSql(Cons(Leaf(UriNot(field, uri)), right));
    OneMatches(Cons(OpAnd, Cons(Leaf(UriNot(field, uri)), right)), record, missing);
  }

  /** A group predicate's domain accepts a record exactly when direct evaluation does. */
  lemma GroupExact(field: string, group: string, record: Record, vocab: Vocab, missing: bool)
    requires ValidVocab(vocab)
    ensures Means(GroupDomain(field, group, vocab), DirectInGroup(FieldOf(record, field), group, vocab), record, missing)
  {
    NothingMatches(record, missing);
    if group in vocab.groups {
      EitherUriMatches(field, vocab.groups[group], record, missing);
    }
  }

  /** The semantic helpers are membership in four groups of fixed names. */
  lemma HelperMeaning(field: string, record: Record, vocab: Vocab)
    ensures Direct(Semantic(IsFemale, field), record, vocab) == Direct(InGroup(field, "feminine_gender"), record, vocab)
    ensures Direct(Semantic(IsMale, field), record, vocab) == Direct(InGroup(field, "masculine_gender"), record, vocab)
    ensures Direct(Semantic(IsHead, field), record, vocab) == Direct(InGroup(field, "head_of_household"), record, vocab)
    ensures Direct(Semantic(IsPregnant, field), record, vocab) == Direct(InGroup(field, "pregnant_eligible"), record, vocab)
  {
  }

  /** Domain and direct evaluation of a predicate agree on a record if and only if `Differs` is false. */
  lemma PredicateExact(p: Predicate, record: Record, vocab: Vocab, missing: bool)
    requires ValidVocab(vocab) && UniqueUris(record, vocab)
    ensures Expressible(LeafDomain(PredicateDomain(p, vocab)))
    ensures Matches(PredicateDomain(p, vocab), record, missing) == Direct(p, record, vocab) <==> !Differs(p, record, vocab, missing)
  {
    NothingMatches(record, missing);
    match p {
      case InGroup(field, group) => GroupExact(field, group, record, vocab, missing);
      case Semantic(helper, field) => GroupExact(field, GroupOf(helper), record, vocab, missing);
      case CodeEq(field, identifier) =>
        if identifier in vocab.resolved {
          EitherUriMatches(field, {vocab.resolved[identifier].uri}, record, missing);
        }
      case CodeCompare(field, equal, identifier) =>
        if identifier in vocab.resolved {
          EitherUriMatches(field, {vocab.resolved[identifier].uri}, record, missing);
          NeitherUriMatches(field, vocab.resolved[identifier].uri, record, missing);
        }
    }
  }

  /** No predicate of an expression differs on this record. */
  predicate NoneDiffers(e: Expr, record: Record, vocab: Vocab, missing: bool) {
    match e
    case Pred(p) => !Differs(p, record, vocab, missing)
    case Truth(_) => true
    case Both(left, right) => NoneDiffers(left, record, vocab, missing) && NoneDiffers(right, record, vocab, missing)
    case Either(left, right) => NoneDiffers(left, record, vocab, missing) && NoneDiffers(right, record, vocab, missing)
    case Negated(inner) => NoneDiffers(inner, record, vocab, missing)
  }

  /**
   * A difference comes through to the whole expression: that of one operand does if the other operand
   * does not decide the connective by itself, and two of them do if the operands evaluate alike.
   */
  predicate ComesThrough(e: Expr, record: Record, vocab: Vocab, missing: bool) {
    match e
    case Pred(p) => Differs(p, record, vocab, missing)
    case Truth(_) => false
    case Negated(inner) => ComesThrough(inner, record, vocab, missing)
    case Both(left, right) =>
      Propagates(ComesThrough(left, record, vocab, missing), ComesThrough(right, record, vocab, missing),
                 Evaluate(left, record, vocab), Evaluate(right, record, vocab), true)
    case Either(left, right) =>
      Propagates(ComesThrough(left, record, vocab, missing), ComesThrough(right, record, vocab, missing),
                 Evaluate(left, record, vocab), Evaluate(right, record, vocab), false)
  }

  /** `neutral` is the value of an operand that leaves the connective to the other one. */
  predicate Propagates(fromLeft: bool, fromRight: bool, left: bool, right: bool, neutral: bool) {
    if fromLeft && fromRight then left == right
    else (fromLeft && right == neutral) || (fromRight && left == neutral)
  }

  lemma {:induction false} NothingComesThrough(e: Expr, record: Record, vocab: Vocab, missing: bool)
    requires NoneDiffers(e, record, vocab, missing)
    ensures !ComesThrough(e, record, vocab, missing)
  {
    match e {
      case Pred(_) =>
      case Truth(_) =>
      case Both(left, right) =>
        NothingComesThrough(left, record, vocab, missing);
        NothingComesThrough(right, record, vocab, missing);
      case Either(left, right) =>
        NothingComesThrough(left, record, vocab, missing);
        NothingComesThrough(right, record, vocab, missing);
      case Negated(inner) => NothingComesThrough(inner, record, vocab, missing);
    }
  }

  lemma {:induction false} PlanMeaning(e: Expr, record: Record, vocab: Vocab, missing: bool)
    requires ValidVocab(vocab) && UniqueUris(record, vocab)
    ensures Expressible(ToPlan(e, vocab))
    ensures PlanHolds(ToPlan(e, vocab), record, missing) == Evaluate(e, record, vocab) <==> !ComesThrough(e, record, vocab, missing)
  {
    match e {
      case Pred(p) => PredicateExact(p, record, vocab, missing);
      case Truth(_) => OneMatches(Cons(Leaf(Constant(e.b)), Nil), record, missing);
      case Both(left, right) =>
        PlanMeaning(left, record, vocab, missing);
        PlanMeaning(right, record, vocab, missing);
      case Either(left, right) =>
        PlanMeaning(left, record, vocab, missing);
        PlanMeaning(right, record, vocab, missing);
      case Negated(inner) => PlanMeaning(inner, record, vocab, missing);
    }
  }

  /**
   * Translation preserves meaning, exactly: the domain of any boolean combination of vocabulary
   * predicates is one prefix expression, and it accepts a record as direct evaluation does if and only
   * if no difference of a code comparison comes through there; so it does wherever none differs.
   */
  lemma TranslationPreserves(e: Expr, record: Record, vocab: Vocab, missing: bool)
    requires ValidVocab(vocab) && UniqueUris(record, vocab)
    ensures var (domain, execute) := PlanToDomain(ToPlan(e, vocab));
      && !execute && IsOne(domain)
      && (Matches(domain, record, missing) == Evaluate(e, record, vocab) <==> !ComesThrough(e, record, vocab, missing))
      && (NoneDiffers(e, record, vocab, missing) ==> Matches(domain, record, missing) == Evaluate(e, record, vocab))
  {
    PlanMeaning(e, record, vocab, missing);
    PlanReadsBack(ToPlan(e, vocab), record, missing);
    if NoneDiffers(e, record, vocab, missing) {
      NothingComesThrough(e, record, vocab, missing);
    }
  }
}
