/**
 Contract expressions and their static judgement
 (crates/semasm-contract/src/eval.rs).
 */
module ContractExpr {
  import opened Basics
  import opened AliasEvidence

  datatype BinOp = Le | Lt | Ge | Gt | Eq | Ne | And | Or | Implies | Arithmetic

  datatype Expr =
    | BoolLit(truth: bool)
    | IntLit(value: int)
    | Ident(name: string)
    | Not(arg: Expr)
    | Neg(arg: Expr)
    | Binary(op: BinOp, left: Expr, right: Expr)
    | Regions(relation: Relation, first: string, second: string)
    | OtherCall(onRegions: bool, hasAtom: bool)  // any other call; on the `regions` receiver, or over an atom
    | Path(hasAtom: bool)                        // member, index or range

  datatype Bindings = Bindings(ints: map<string, int>, bools: map<string, bool>)

  predicate IsComparison(op: BinOp)
  {
    op in {Eq, Ne, Lt, Le, Gt, Ge}
  }

  predicate HasAtom(e: Expr)
  {
    match e
    case Regions(_, _, _) => true
    case OtherCall(on, atom) => on || atom
    case Path(atom) => atom
    case Not(a) => HasAtom(a)
    case Neg(a) => HasAtom(a)
    case Binary(_, l, r) => HasAtom(l) || HasAtom(r)
    case _ => false
  }

  function IntValue(e: Expr, b: Bindings): (v: Option<int>)
  {
    match e
    case IntLit(n) => Some(n)
    case Ident(x) => if x in b.ints then Some(b.ints[x]) else None
    case _ => None
  }

  function OfBool(t: bool): (j: Judgement)
  {
    if t then ProvenTrue else ProvenFalse
  }

  function Skip(force: bool): (j: Judgement)
  {
    if force then Incomplete else NotEvaluated
  }

  predicate Compared(op: BinOp, l: int, r: int)
  {
    match op
    case Eq => l == r
    case Ne => l != r
    case Lt => l < r
    case Le => l <= r
    case Gt => l > r
    case Ge => l >= r
    case _ => false
  }

  // ----- the evaluator -----

  /** Both sides of a conjunction were attempted and the left one holds. */
  function BothHeld(under: bool, right: Judgement): (j: Judgement)
  {
    if right in {ProvenFalse, Incomplete, NotEvaluated} then right
    else if under || right == TrueUnderPrecondition then TrueUnderPrecondition
    else ProvenTrue
  }

  function Judge(e: Expr, rows: Option<seq<AliasRow>>, b: Bindings, force: bool): (j: Judgement)
    decreases e
  {
    match e
    case BoolLit(t) => OfBool(t)
    case IntLit(_) => Incomplete
    case Ident(x) => if x in b.bools then OfBool(b.bools[x]) else Skip(force)
    case Not(a) =>
      (match Judge(a, rows, b, force)
       case ProvenTrue => ProvenFalse
       case ProvenFalse => ProvenTrue
       case TrueUnderPrecondition => Incomplete
       case other => other)
    case Neg(_) => Skip(force)
    case Binary(op, l, r) =>
      if op == And then
        var forced := force || HasAtom(l) || HasAtom(r);
        var jl := Judge(l, rows, b, forced);
        if jl == ProvenFalse || jl == Incomplete then jl
        else
          var jr := Judge(r, rows, b, forced);
          if jl == NotEvaluated then
            (if jr == NotEvaluated || jr == ProvenFalse then jr
             else if forced then Incomplete
             else jr)
          else if jr == NotEvaluated && forced then Incomplete
          else BothHeld(jl == TrueUnderPrecondition, jr)
      else if op == Or then
        var forced := force || HasAtom(l) || HasAtom(r);
        var jl := Judge(l, rows, b, forced);
        if jl == ProvenTrue || jl == TrueUnderPrecondition || jl == Incomplete then jl
        else
          var jr := Judge(r, rows, b, forced);
          if jl == NotEvaluated && jr != NotEvaluated && jr != ProvenTrue && forced then Incomplete else jr
      else if op == Implies then
        var jl := Judge(l, rows, b, force);
        if jl == ProvenFalse then ProvenTrue
        else if jl == Incomplete then Incomplete
        else if jl == NotEvaluated then
          (if force || HasAtom(l) || HasAtom(r) then Judge(r, rows, b, true) else NotEvaluated)
        else BothHeld(jl == TrueUnderPrecondition, Judge(r, rows, b, true))
      else if IsComparison(op) then
        var x, y := IntValue(l, b), IntValue(r, b);
        if x.Some? && y.Some? then OfBool(Compared(op, x.value, y.value)) else Skip(force || HasAtom(e))
      else Skip(force)
    case Regions(need, left, right) => JudgeAtom(rows, need, left, right)
    case OtherCall(on, _) => if force || on then Incomplete else NotEvaluated
    case Path(atom) => if atom || force then Incomplete else NotEvaluated
  }

  // ----- meaning -----

  /** Values for every name; `other` settles whatever lies outside the subset. */
  datatype World = World(
    ints: string -> int, bools: string -> bool, spans: string -> Span,
    term: Expr -> int, other: Expr -> bool)

  function Term(e: Expr, w: World): (v: int)
  {
    match e
    case IntLit(n) => n
    case Ident(x) => w.ints(x)
    case _ => w.term(e)
  }

  predicate Truth(e: Expr, w: World)
  {
    match e
    case BoolLit(t) => t
    case Ident(x) => w.bools(x)
    case Not(a) => !Truth(a, w)
    case Binary(op, l, r) =>
      if op == And then Truth(l, w) && Truth(r, w)
      else if op == Or then Truth(l, w) || Truth(r, w)
      else if op == Implies then Truth(l, w) ==> Truth(r, w)
      else if IsComparison(op) then Compared(op, Term(l, w), Term(r, w))
      else w.other(e)
    case Regions(need, left, right) => Related(need, w.spans(left), w.spans(right))
    case _ => w.other(e)
  }

  ghost predicate AgreesBindings(w: World, b: Bindings)
  {
    && (forall x | x in b.ints :: w.ints(x) == b.ints[x])
    && (forall x | x in b.bools :: w.bools(x) == b.bools[x])
  }

  // ----- where the rules are sound -----

  /** No operand is dropped: a side left unevaluated never hands its verdict to the other. */
  predicate Decided(e: Expr, rows: Option<seq<AliasRow>>, b: Bindings, force: bool)
    decreases e
  {
    match e
    case Not(a) => Decided(a, rows, b, force)
    case Binary(op, l, r) =>
      var forced := force || HasAtom(l) || HasAtom(r);
      if op == And then
        && Decided(l, rows, b, forced) && Decided(r, rows, b, forced)
        && (Judge(l, rows, b, forced) == NotEvaluated && !forced ==>
              Judge(r, rows, b, forced) in {NotEvaluated, ProvenFalse, Incomplete})
      else if op == Or then
        && Decided(l, rows, b, forced) && Decided(r, rows, b, forced)
        && (Judge(l, rows, b, forced) == NotEvaluated && !forced ==>
              Judge(r, rows, b, forced) != ProvenFalse)
      else if op == Implies then
        && Decided(l, rows, b, force) && Decided(r, rows, b, true)
        && (Judge(l, rows, b, force) == NotEvaluated && forced ==> Judge(r, rows, b, true) != ProvenFalse)
      else true
    case Regions(need, left, right) => SafeAtom(rows, need, left, right)
    case _ => true
  }

  /**
   Soundness of the judgement: in every world that agrees with the bindings and the
   alias evidence, meets the declared preconditions and has no empty region, an
   expression judged true is true and one judged false is false.
   */
  lemma {:induction false} JudgeSound(e: Expr, rows: Option<seq<AliasRow>>, b: Bindings, force: bool, w: World)
    requires AgreesBindings(w, b) && RowsTrue(rows, w.spans) && Inhabited(rows, w.spans)
    requires Decided(e, rows, b, force)
    ensures Judge(e, rows, b, force) in {ProvenTrue, TrueUnderPrecondition} ==> Truth(e, w)
    ensures Judge(e, rows, b, force) == ProvenFalse ==> !Truth(e, w)
    decreases e
  {
    hide RowsTrue;
    hide Inhabited;
    hide JudgeAtom;
    hide SafeAtom;
    hide Related;
    match e {
      case Not(a) => JudgeSound(a, rows, b, force, w);
      case Binary(op, l, r) =>
        if op == And || op == Or {
          var forced := force || HasAtom(l) || HasAtom(r);
          JudgeSound(l, rows, b, forced, w);
          JudgeSound(r, rows, b, forced, w);
        } else if op == Implies {
          JudgeSound(l, rows, b, force, w);
          JudgeSound(r, rows, b, true, w);
        }
      case Regions(need, left, right) => AtomSound(rows, need, left, right, w.spans);
      case _ =>
    }
  }

  /** No implication anywhere a verdict passes through. */
  predicate NoImplies(e: Expr)
  {
    match e
    case Not(a) => NoImplies(a)
    case Binary(op, l, r) => op != Implies && NoImplies(l) && NoImplies(r)
    case _ => true
  }

  /**
   Without implications, "proven" and "refuted" owe nothing to the caller: they are right
   even where the declared preconditions fail.
   */
  lemma {:induction false} JudgeUnconditional(
    e: Expr, rows: Option<seq<AliasRow>>, b: Bindings, force: bool, w: World)
    requires AgreesBindings(w, b) && RowsObserved(rows, w.spans) && Inhabited(rows, w.spans)
    requires Decided(e, rows, b, force) && NoImplies(e)
    ensures Judge(e, rows, b, force) == ProvenTrue ==> Truth(e, w)
    ensures Judge(e, rows, b, force) == ProvenFalse ==> !Truth(e, w)
    decreases e
  {
    hide RowsObserved;
    hide Inhabited;
    hide JudgeAtom;
    hide SafeAtom;
    hide Related;
    match e {
      case Not(a) => JudgeUnconditional(a, rows, b, force, w);
      case Binary(op, l, r) =>
        if op == And || op == Or {
          var forced := force || HasAtom(l) || HasAtom(r);
          JudgeUnconditional(l, rows, b, forced, w);
          JudgeUnconditional(r, rows, b, forced, w);
        }
      case Regions(need, left, right) => AtomUnconditional(rows, need, left, right, w.spans);
      case _ =>
    }
  }

  /**
   `!(regions.disjoint(a, b) ==> false)` with disjointness declared: the refuted implication
   rests on the precondition, its negation is proven without a word about it, and is right
   if and only if the caller keeps it.
   */
  lemma PreconditionLost(a: string, b: string, w: World)
    ensures var e := Not(Binary(Implies, Regions(Apart, a, b), BoolLit(false)));
            var rows := Some([AliasRow(a, b, Apart, MayOverlap, true)]);
            && Judge(e, rows, Bindings(map[], map[]), false) == ProvenTrue
            && (Truth(e, w) <==> Related(Apart, w.spans(a), w.spans(b)))
  {
    var rows := Some([AliasRow(a, b, Apart, MayOverlap, true)]);
    hide Related;
    assert JudgeAtom(rows, Apart, a, b) == TrueUnderPrecondition;
    hide JudgeAtom;
    var i := Binary(Implies, Regions(Apart, a, b), BoolLit(false));
    assert Judge(i, rows, Bindings(map[], map[]), false) == ProvenFalse;
    assert Truth(Regions(Apart, a, b), w) <==> Related(Apart, w.spans(a), w.spans(b));
    assert !Truth(BoolLit(false), w);
    assert Truth(i, w) <==> !Truth(Regions(Apart, a, b), w);
  }

  /** Built from literals and bound names by comparisons and connectives. */
  predicate Known(e: Expr, b: Bindings)
  {
    match e
    case BoolLit(_) => true
    case Ident(x) => x in b.bools
    case Not(a) => Known(a, b)
    case Binary(op, l, r) =>
      if op in {And, Or, Implies} then Known(l, b) && Known(r, b)
      else IsComparison(op) && IntValue(l, b).Some? && IntValue(r, b).Some?
    case _ => false
  }

  /** An expression of known parts is judged, and judged by its truth. */
  lemma {:induction false} KnownJudged(e: Expr, rows: Option<seq<AliasRow>>, b: Bindings, force: bool, w: World)
    requires AgreesBindings(w, b) && Known(e, b)
    ensures Judge(e, rows, b, force) == OfBool(Truth(e, w))
    decreases e
  {
    match e {
      case Not(a) => KnownJudged(a, rows, b, force, w);
      case Binary(op, l, r) =>
        if op == And || op == Or {
          var forced := force || HasAtom(l) || HasAtom(r);
          KnownJudged(l, rows, b, forced, w);
          KnownJudged(r, rows, b, forced, w);
        } else if op == Implies {
          KnownJudged(l, rows, b, force, w);
          KnownJudged(r, rows, b, true, w);
        }
      case _ =>
    }
  }

  /** An expression and everything it is built from. */
  function Parts(e: Expr): (es: set<Expr>)
  {
    match e
    case Not(a) => {e} + Parts(a)
    case Neg(a) => {e} + Parts(a)
    case Binary(_, l, r) => {e} + Parts(l) + Parts(r)
    case _ => {e}
  }

  /** A relation of regions, or a call or path over one. */
  predicate IsAtom(e: Expr)
  {
    || e.Regions?
    || (e.OtherCall? && (e.onRegions || e.hasAtom))
    || (e.Path? && e.hasAtom)
  }

  /** An expression counts as one over regions exactly if an atom is among its parts. */
  lemma {:induction false} HasAtomExact(e: Expr)
    ensures HasAtom(e) <==> exists p :: p in Parts(e) && IsAtom(p)
  {
    match e {
      case Not(a) =>
        HasAtomExact(a);
        assert Parts(e) == {e} + Parts(a) && !IsAtom(e);
      case Neg(a) =>
        HasAtomExact(a);
        assert Parts(e) == {e} + Parts(a) && !IsAtom(e);
      case Binary(_, l, r) =>
        HasAtomExact(l);
        HasAtomExact(r);
        assert Parts(e) == {e} + Parts(l) + Parts(r) && !IsAtom(e);
      case _ =>
        assert Parts(e) == {e} && e in Parts(e);
        assert HasAtom(e) <==> IsAtom(e);
    }
  }

  /** A region atom, or what stands for one, is where the judgement has to answer for it. */
  predicate AtomSeen(e: Expr)
  {
    match e
    case Regions(_, _, _) => true
    case OtherCall(on, _) => on
    case Path(atom) => atom
    case Not(a) => AtomSeen(a)
    case Binary(op, l, r) => (op in {And, Or, Implies} || IsComparison(op)) && (HasAtom(l) || HasAtom(r))
    case _ => false
  }

  /** Under force every expression is judged, given alias evidence. */
  lemma {:induction false} ForcedJudged(e: Expr, rows: Option<seq<AliasRow>>, b: Bindings)
    requires rows.Some?
    ensures Judge(e, rows, b, true) != NotEvaluated
    decreases e
  {
    match e {
      case Not(a) => ForcedJudged(a, rows, b);
      case Binary(op, l, r) =>
        if op == And || op == Or || op == Implies {
          ForcedJudged(l, rows, b);
          ForcedJudged(r, rows, b);
        }
      case _ =>
    }
  }

  /** Where there is alias evidence, an expression over regions is never passed over in silence. */
  lemma {:induction false} AtomsJudged(e: Expr, rows: Option<seq<AliasRow>>, b: Bindings)
    requires AtomSeen(e) && rows.Some?
    ensures Judge(e, rows, b, false) != NotEvaluated
    decreases e
  {
    match e {
      case Not(a) => AtomsJudged(a, rows, b);
      case Binary(op, l, r) =>
        if op == And || op == Or || op == Implies {
          ForcedJudged(l, rows, b);
          ForcedJudged(r, rows, b);
        }
      case _ =>
    }
  }

  // ----- where they are not -----

  /**
   The three branches `Decided` excludes, exactly: with the left side unevaluated the
   verdict is the right side's alone, and it is right in a world if and only if the
   dropped side is true there (false, for a refuted disjunction).
   */
  lemma {:induction false} DroppedOperandExact(
    l: Expr, r: Expr, rows: Option<seq<AliasRow>>, b: Bindings, force: bool, w: World)
    requires AgreesBindings(w, b) && RowsTrue(rows, w.spans) && Inhabited(rows, w.spans)
    requires Judge(l, rows, b, force) == NotEvaluated && Decided(r, rows, b, Forced(l, r, force))
    ensures !Forced(l, r, force) && Judge(r, rows, b, false) in {ProvenTrue, TrueUnderPrecondition} ==>
              && Judge(Binary(And, l, r), rows, b, force) == Judge(r, rows, b, false)
              && (Truth(Binary(And, l, r), w) <==> Truth(l, w))
    ensures !Forced(l, r, force) && Judge(r, rows, b, false) == ProvenFalse ==>
              && Judge(Binary(Or, l, r), rows, b, force) == ProvenFalse
              && (!Truth(Binary(Or, l, r), w) <==> !Truth(l, w))
    ensures Forced(l, r, force) && Judge(r, rows, b, true) == ProvenFalse ==>
              && Judge(Binary(Implies, l, r), rows, b, force) == ProvenFalse
              && (!Truth(Binary(Implies, l, r), w) <==> Truth(l, w))
  {
    JudgeSound(r, rows, b, Forced(l, r, force), w);
    hide Decided;
    hide RowsTrue;
    hide Inhabited;
    hide JudgeAtom;
  }

  predicate Forced(l: Expr, r: Expr, force: bool)
  {
    force || HasAtom(l) || HasAtom(r)
  }

  lemma LessUnevaluated(x: string, y: string, rows: Option<seq<AliasRow>>, w: World)
    ensures var e := Binary(Lt, Ident(x), Ident(y));
            && !HasAtom(e) && Judge(e, rows, Bindings(map[], map[]), false) == NotEvaluated
            && (Truth(e, w) <==> w.ints(x) < w.ints(y))
  {
    var e := Binary(Lt, Ident(x), Ident(y));
    assert IntValue(Ident(x), Bindings(map[], map[])) == None;
    assert Term(Ident(x), w) == w.ints(x) && Term(Ident(y), w) == w.ints(y);
    assert IsComparison(Lt);
  }

  /** `x < y && true`: the unevaluated left side is dropped and the conjunction is proven. */
  lemma DroppedConjunct(x: string, y: string, w: World)
    requires w.ints(x) >= w.ints(y)
    ensures var e := Binary(And, Binary(Lt, Ident(x), Ident(y)), BoolLit(true));
            Judge(e, None, Bindings(map[], map[]), false) == ProvenTrue && !Truth(e, w)
  {
    LessUnevaluated(x, y, None, w);
    assert Judge(BoolLit(true), None, Bindings(map[], map[]), false) == ProvenTrue;
  }

  /** `x < y || false`: the disjunction is refuted although its left side may hold. */
  lemma DroppedDisjunct(x: string, y: string, w: World)
    requires w.ints(x) < w.ints(y)
    ensures var e := Binary(Or, Binary(Lt, Ident(x), Ident(y)), BoolLit(false));
            Judge(e, None, Bindings(map[], map[]), false) == ProvenFalse && Truth(e, w)
  {
    LessUnevaluated(x, y, None, w);
    assert Judge(BoolLit(false), None, Bindings(map[], map[]), false) == ProvenFalse;
  }

  /**
   `x < y ==> regions.disjoint(a, b)` with equal regions: the unevaluated antecedent is
   dropped and the implication is refuted, although it holds wherever `x >= y`.
   */
  lemma DroppedAntecedent(x: string, y: string, a: string, b: string, w: World)
    requires w.ints(x) >= w.ints(y) && w.spans(a) == w.spans(b)
    ensures var e := Binary(Implies, Binary(Lt, Ident(x), Ident(y)), Regions(Apart, a, b));
            var rows := Some([AliasRow(a, b, Same, ProvenEqual, false)]);
            && RowsTrue(rows, w.spans) && Truth(e, w)
            && Judge(e, rows, Bindings(map[], map[]), false) == ProvenFalse
  {
    var rows := Some([AliasRow(a, b, Same, ProvenEqual, false)]);
    LessUnevaluated(x, y, rows, w);
    assert Judge(Regions(Apart, a, b), rows, Bindings(map[], map[]), true) == ProvenFalse;
  }

  // ----- the whole contract -----

  /** `requires` comparisons of an integer parameter with a literal are caller obligations. */
  predicate Obligation(e: Expr, b: Bindings, params: set<string>)
  {
    && e.Binary? && IsComparison(e.op)
    && !(IntValue(e.left, b).Some? && IntValue(e.right, b).Some?)
    && ((e.left.Ident? && e.right.IntLit? && e.left.name in params) ||
        (e.left.IntLit? && e.right.Ident? && e.right.name in params))
  }

  function JudgeRequires(e: Expr, rows: Option<seq<AliasRow>>, b: Bindings, params: set<string>): (j: Judgement)
  {
    if Obligation(e, b, params) then TrueUnderPrecondition else Judge(e, rows, b, false)
  }

  /** A comparison of an unbound parameter with a literal is an obligation, either way round, and nothing else is. */
  lemma ObligationExact(e: Expr, b: Bindings, params: set<string>)
    ensures Obligation(e, b, params) <==>
            exists op, x, n :: IsComparison(op) && x in params && x !in b.ints &&
              (e == Binary(op, Ident(x), IntLit(n)) || e == Binary(op, IntLit(n), Ident(x)))
  {
    if Obligation(e, b, params) {
      if e.left.Ident? {
        assert e == Binary(e.op, Ident(e.left.name), IntLit(e.right.value));
      } else {
        assert e == Binary(e.op, IntLit(e.left.value), Ident(e.right.name));
      }
    }
  }

  /** A `requires` row judged true is true wherever callers keep their obligations. */
  lemma RequiresSound(
    e: Expr, rows: Option<seq<AliasRow>>, b: Bindings, params: set<string>, w: World)
    requires AgreesBindings(w, b) && RowsTrue(rows, w.spans) && Inhabited(rows, w.spans)
    requires Decided(e, rows, b, false)
    requires Obligation(e, b, params) ==> Truth(e, w)
    ensures JudgeRequires(e, rows, b, params) in {ProvenTrue, TrueUnderPrecondition} ==> Truth(e, w)
    ensures JudgeRequires(e, rows, b, params) == ProvenFalse ==> !Truth(e, w)
    ensures Obligation(e, b, params) ==> JudgeRequires(e, rows, b, params) == TrueUnderPrecondition
  {
    JudgeSound(e, rows, b, false, w);
    hide Judge;
    hide Truth;
    hide Obligation;
  }

  datatype ExprStatus = ExprPassed | ExprUnderPreconditions | ExprIncomplete | ExprFailed

  /** The slice status of all judgements; none when nothing was evaluated. */
  method Aggregate(js: seq<Judgement>) returns (r: Option<ExprStatus>)
    ensures r.None? <==> forall i | 0 <= i < |js| :: js[i] == NotEvaluated
    ensures r == Some(ExprFailed) <==> exists i | 0 <= i < |js| :: js[i] == ProvenFalse
    ensures r == Some(ExprPassed) <==>
              && (exists i | 0 <= i < |js| :: js[i] == ProvenTrue)
              && (forall i | 0 <= i < |js| :: js[i] == ProvenTrue || js[i] == NotEvaluated)
    ensures r == Some(ExprUnderPreconditions) <==>
              && (exists i | 0 <= i < |js| :: js[i] == TrueUnderPrecondition)
              && (forall i | 0 <= i < |js| :: js[i] != ProvenFalse && js[i] != Incomplete)
  {
    var anyFalse, anyIncomplete, anyTrue, anyUnder := false, false, false, false;
    for i := 0 to |js|
      invariant anyFalse <==> exists k | 0 <= k < i :: js[k] == ProvenFalse
      invariant anyIncomplete <==> exists k | 0 <= k < i :: js[k] == Incomplete
      invariant anyUnder <==> exists k | 0 <= k < i :: js[k] == TrueUnderPrecondition
      invariant anyTrue <==> exists k | 0 <= k < i :: js[k] == ProvenTrue || js[k] == TrueUnderPrecondition
    {
      match js[i] {
        case ProvenFalse => anyFalse := true;
        case Incomplete => anyIncomplete := true;
        case ProvenTrue => anyTrue := true;
        case TrueUnderPrecondition => anyTrue, anyUnder := true, true;
        case NotEvaluated =>
      }
    }
    if !anyFalse && !anyIncomplete && !anyTrue {
      assert forall k | 0 <= k < |js| :: js[k] == NotEvaluated;
      return None;
    }
    r := Some(if anyFalse then ExprFailed else if anyIncomplete then ExprIncomplete
              else if anyUnder then ExprUnderPreconditions else ExprPassed);
  }
}
