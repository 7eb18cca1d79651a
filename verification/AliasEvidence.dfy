/**
 Alias evidence between declared regions (crates/semasm-contract/src/alias.rs) and
 how a region atom of a contract expression is judged from it
 (crates/semasm-contract/src/eval.rs).
 */
module AliasEvidence {
  import opened Basics
  import RegionAccess

  datatype Relation = Apart | Same | Covers

  datatype Observed =
    | ProvenDisjoint | ProvenEqual | ProvenContains | ProvenPartialOverlap
    | MayOverlap | InvalidRegion | NotObserved

  /** One row of evidence; `declared` when its relation is a stated precondition. */
  datatype AliasRow = AliasRow(left: string, right: string, required: Relation, observed: Observed, declared: bool)

  datatype Judgement = ProvenTrue | ProvenFalse | TrueUnderPrecondition | Incomplete | NotEvaluated

  // ----- regions as ranges of addresses -----

  datatype Span = Span(lo: int, hi: int)

  predicate Empty(a: Span)
  {
    a.lo >= a.hi
  }

  predicate Within(x: int, a: Span)
  {
    a.lo <= x < a.hi
  }

  predicate Related(rel: Relation, a: Span, b: Span)
  {
    match rel
    case Apart => Empty(a) || Empty(b) || a.hi <= b.lo || b.hi <= a.lo
    case Same => a == b || (Empty(a) && Empty(b))
    case Covers => Empty(b) || (a.lo <= b.lo && b.hi <= a.hi)
  }

  /** The relations are those of the sets of addresses. */
  lemma RelatedMeaning(a: Span, b: Span)
    ensures Related(Apart, a, b) <==> forall x :: !(Within(x, a) && Within(x, b))
    ensures Related(Covers, a, b) <==> forall x | Within(x, b) :: Within(x, a)
    ensures Related(Same, a, b) <==> forall x :: Within(x, a) <==> Within(x, b)
  {
    var x := if a.lo <= b.lo then b.lo else a.lo;
    assert (Within(x, a) && Within(x, b)) || Related(Apart, a, b);
    assert Within(a.lo, a) || Empty(a);
    assert Within(a.hi - 1, a) || Empty(a);
    assert Within(b.lo, b) || Empty(b);
    assert Within(b.hi - 1, b) || Empty(b);
  }

  // ----- observing a pair -----

  function LengthOf(l: RegionAccess.LengthSpec, lens: string -> int): (n: int)
  {
    match l
    case LengthLiteral(n) => n
    case LengthParam(x) => lens(x)
  }

  /** Where a declared region lies, given its base address and the lengths passed. */
  function SpanOf(r: RegionAccess.Region, bases: string -> int, lens: string -> int): (s: Span)
  {
    Span(bases(r.base) + r.offset, bases(r.base) + r.offset + LengthOf(r.length, lens))
  }

  function End(r: RegionAccess.Region): (n: int)
    requires r.length.LengthLiteral?
  {
    RegionAccess.Clamp(r.offset + r.length.bytes)
  }

  function Observe(l: RegionAccess.Region, r: RegionAccess.Region): (o: Observed)
  {
    if l.base != r.base then MayOverlap
    else if l.length.LengthLiteral? && r.length.LengthLiteral? then
      if l.offset == r.offset && End(l) == End(r) then ProvenEqual
      else if l.offset <= r.offset && End(l) >= End(r) then ProvenContains
      else if r.offset <= l.offset && End(r) >= End(l) then ProvenPartialOverlap
      else if End(l) <= r.offset || End(r) <= l.offset then ProvenDisjoint
      else ProvenPartialOverlap
    else if l.offset == r.offset && l.length == r.length then ProvenEqual
    else MayOverlap
  }

  /** What an observation says; a partial overlap may be the right region around the left one. */
  predicate ObservedTrue(o: Observed, a: Span, b: Span)
  {
    match o
    case ProvenDisjoint => a.hi <= b.lo || b.hi <= a.lo
    case ProvenEqual => a == b
    case ProvenContains => a.lo <= b.lo && b.hi <= a.hi && a != b
    case ProvenPartialOverlap =>
      && (b.lo < a.lo || a.hi < b.hi)
      && ((b.lo <= a.lo && a.hi <= b.hi) || (b.lo < a.hi && a.lo < b.hi))
    case _ => true
  }

  predicate IsI64Offset(r: RegionAccess.Region)
  {
    RegionAccess.I64_MIN <= r.offset <= RegionAccess.I64_MAX
  }

  /** Both ends reach the largest offset, and what lies beyond would decide otherwise. */
  predicate Saturates(l: RegionAccess.Region, r: RegionAccess.Region)
  {
    && l.base == r.base && l.length.LengthLiteral? && r.length.LengthLiteral?
    && var (le, re) := (l.offset + l.length.bytes, r.offset + r.length.bytes);
       && RegionAccess.I64_MAX <= le && RegionAccess.I64_MAX <= re
       && ((l.offset == r.offset && le != re) || (l.offset < r.offset && le < re) ||
           (r.offset < l.offset && re <= l.offset < le))
  }

  /** An observation is right wherever the regions are placed, if and only if no end saturates. */
  lemma ObserveExact(
    l: RegionAccess.Region, r: RegionAccess.Region, bases: string -> int, lens: string -> int)
    requires IsI64Offset(l) && IsI64Offset(r)
    ensures ObservedTrue(Observe(l, r), SpanOf(l, bases, lens), SpanOf(r, bases, lens)) <==>
              !Saturates(l, r)
  {
  }

  /** Nothing is observed exactly across bases, or where a length is a parameter and the regions are not the same. */
  lemma UnobservedExact(l: RegionAccess.Region, r: RegionAccess.Region)
    ensures Observe(l, r) == MayOverlap <==>
            || l.base != r.base
            || ((l.length.LengthParam? || r.length.LengthParam?) && !(l.offset == r.offset && l.length == r.length))
    ensures Observe(l, r) !in {InvalidRegion, NotObserved}
  {
  }

  // ----- rows -----

  predicate Contradicts(need: Relation, o: Observed)
  {
    match need
    case Apart => o in {ProvenEqual, ProvenContains, ProvenPartialOverlap}
    case Same => o in {ProvenDisjoint, ProvenPartialOverlap}
    case Covers => o in {ProvenDisjoint, ProvenPartialOverlap}
  }

  function Satisfied(need: Relation): (o: Observed)
  {
    match need
    case Apart => ProvenDisjoint
    case Same => ProvenEqual
    case Covers => ProvenContains
  }

  function FindRegion(regions: seq<RegionAccess.Region>, name: string): (r: Option<RegionAccess.Region>)
    ensures r.Some? ==> r.value in regions && r.value.name == name
  {
    if regions == [] then None
    else if regions[0].name == name then Some(regions[0])
    else FindRegion(regions[1..], name)
  }

  /** The row of one declared relation; a precondition counts only where nothing was proven. */
  function RowOf(
    regions: seq<RegionAccess.Region>, left: string, right: string, required: Relation, precondition: bool)
    : (row: AliasRow)
  {
    var l, r := FindRegion(regions, left), FindRegion(regions, right);
    if l.Some? && r.Some? then
      var o := Observe(l.value, r.value);
      AliasRow(left, right, required, o,
               precondition && o != Satisfied(required) && !Contradicts(required, o))
    else AliasRow(left, right, required, InvalidRegion, false)
  }

  /** A declared relation is one that observation neither settled nor contradicted. */
  predicate Produced(row: AliasRow)
  {
    row.declared ==> row.observed != Satisfied(row.required) && !Contradicts(row.required, row.observed)
  }

  /** What a row observed is so, and what it declares holds. */
  predicate RowTrue(row: AliasRow, spans: string -> Span)
  {
    && ObservedTrue(row.observed, spans(row.left), spans(row.right))
    && (row.declared ==> Related(row.required, spans(row.left), spans(row.right)))
  }

  /** Rows of the alias pass hold wherever the regions lie and the caller keeps the preconditions. */
  lemma RowOfTrue(
    regions: seq<RegionAccess.Region>, left: string, right: string, required: Relation, precondition: bool,
    spans: string -> Span, bases: string -> int, lens: string -> int)
    requires forall r | r in regions :: IsI64Offset(r) && spans(r.name) == SpanOf(r, bases, lens)
    requires forall l, r | l in regions && r in regions :: !Saturates(l, r)
    requires precondition ==> Related(required, spans(left), spans(right))
    ensures Produced(RowOf(regions, left, right, required, precondition))
    ensures RowTrue(RowOf(regions, left, right, required, precondition), spans)
  {
    var l, r := FindRegion(regions, left), FindRegion(regions, right);
    hide FindRegion;
    if l.Some? && r.Some? {
      ObserveExact(l.value, r.value, bases, lens);
      hide Saturates;
      hide Observe;
      hide Related;
      hide SpanOf;
    }
  }

  // ----- judging an atom -----

  /** The first row about the pair, in either direction; containment does not turn around. */
  function Lookup(rows: seq<AliasRow>, left: string, right: string): (r: Option<(AliasRow, Observed)>)
    ensures r.Some? ==> r.value.0 in rows && Found(r.value.0, r.value.1, left, right)
  {
    if rows == [] then None
    else
      var row := rows[0];
      if row.left == left && row.right == right then Some((row, row.observed))
      else if row.left == right && row.right == left then
        Some((row, if row.observed == ProvenContains then MayOverlap else row.observed))
      else Lookup(rows[1..], left, right)
  }

  predicate Reversed(row: AliasRow, left: string, right: string)
  {
    !(row.left == left && row.right == right)
  }

  /** `observed` is what a lookup of the pair reads off `row`. */
  predicate Found(row: AliasRow, observed: Observed, left: string, right: string)
  {
    if Reversed(row, left, right) then
      && row.left == right && row.right == left
      && observed == (if row.observed == ProvenContains then MayOverlap else row.observed)
    else observed == row.observed
  }

  function JudgeRow(need: Relation, row: AliasRow, observed: Observed): (j: Judgement)
  {
    if observed == Satisfied(need) then ProvenTrue
    else if row.declared && row.required == need then TrueUnderPrecondition
    else if observed in {MayOverlap, NotObserved, InvalidRegion} then Incomplete
    else ProvenFalse
  }

  function JudgeAtom(rows: Option<seq<AliasRow>>, need: Relation, left: string, right: string): (j: Judgement)
  {
    if rows.None? then NotEvaluated
    else match Lookup(rows.value, left, right)
      case None => Incomplete
      case Some((row, observed)) => JudgeRow(need, row, observed)
  }

  // ----- when a judgement is right -----

  /** A judgement agrees with the regions. */
  predicate Right(j: Judgement, need: Relation, a: Span, b: Span)
  {
    && (j == ProvenTrue || j == TrueUnderPrecondition ==> Related(need, a, b))
    && (j == ProvenFalse ==> !Related(need, a, b))
  }

  /**
   The reading of a row that goes wrong: containment asked of equal regions without a
   declaration of it, a declared containment read backwards, or a partial overlap read
   backwards.
   */
  predicate Misread(need: Relation, row: AliasRow, observed: Observed, left: string, right: string)
  {
    var declared := row.declared && row.required == Covers;
    need == Covers &&
    (|| (observed == ProvenEqual && !declared)
     || (Reversed(row, left, right) && declared && observed in {MayOverlap, NotObserved, InvalidRegion})
     || (Reversed(row, left, right) && !declared && observed == ProvenPartialOverlap))
  }

  lemma RowSound(
    need: Relation, row: AliasRow, observed: Observed, left: string, right: string, spans: string -> Span)
    requires Found(row, observed, left, right) && !Misread(need, row, observed, left, right)
    requires RowTrue(row, spans) && !Empty(spans(left)) && !Empty(spans(right))
    ensures Right(JudgeRow(need, row, observed), need, spans(left), spans(right))
  {
  }

  function Placed(left: string, a: Span, b: Span): (spans: string -> Span)
  {
    x => if x == left then a else b
  }

  /**
   Exactly when a row is read right: for a row the alias pass can produce, the judgement
   agrees with all non-empty regions that meet the row if and only if it is not misread.
   */
  lemma RowExact(
    need: Relation, row: AliasRow, observed: Observed, left: string, right: string)
    requires Produced(row) && row.left != row.right && Found(row, observed, left, right)
    ensures (forall spans: string -> Span |
               RowTrue(row, spans) && !Empty(spans(left)) && !Empty(spans(right)) ::
               Right(JudgeRow(need, row, observed), need, spans(left), spans(right))) <==>
            !Misread(need, row, observed, left, right)
  {
    if !Misread(need, row, observed, left, right) {
      forall spans: string -> Span | RowTrue(row, spans) && !Empty(spans(left)) && !Empty(spans(right))
        ensures Right(JudgeRow(need, row, observed), need, spans(left), spans(right))
      {
        RowSound(need, row, observed, left, right, spans);
      }
    } else {
      var spans :=
        if observed == ProvenEqual then Placed(row.left, Span(0, 1), Span(0, 1))
        else if observed == ProvenPartialOverlap then Placed(row.left, Span(2, 4), Span(0, 8))
        else Placed(row.left, Span(0, 2), Span(0, 1));
      assert RowTrue(row, spans) && !Empty(spans(left)) && !Empty(spans(right));
      assert !Right(JudgeRow(need, row, observed), need, spans(left), spans(right));
    }
  }

  /**
   Empty regions: a refuted `disjoint` is right if and only if both regions have an
   address, which a region whose length parameter is 0 has not.
   */
  lemma RefutedDisjointExact(
    row: AliasRow, observed: Observed, left: string, right: string, spans: string -> Span)
    requires Found(row, observed, left, right) && RowTrue(row, spans)
    requires JudgeRow(Apart, row, observed) == ProvenFalse
    ensures !Related(Apart, spans(left), spans(right)) <==> !Empty(spans(left)) && !Empty(spans(right))
  {
  }

  /** No region of a row is empty. */
  ghost predicate Inhabited(rows: Option<seq<AliasRow>>, spans: string -> Span)
  {
    rows.Some? ==> forall i | 0 <= i < |rows.value| ::
      !Empty(spans(rows.value[i].left)) && !Empty(spans(rows.value[i].right))
  }

  ghost predicate RowsTrue(rows: Option<seq<AliasRow>>, spans: string -> Span)
  {
    rows.Some? ==> forall i | 0 <= i < |rows.value| :: RowTrue(rows.value[i], spans)
  }

  /** The row an atom is judged from, if there is one, is not misread. */
  predicate SafeAtom(rows: Option<seq<AliasRow>>, need: Relation, left: string, right: string)
  {
    rows.Some? && Lookup(rows.value, left, right).Some? ==>
      var (row, observed) := Lookup(rows.value, left, right).value;
      !Misread(need, row, observed, left, right)
  }

  /** A region atom judged from the evidence is right about the regions. */
  lemma AtomSound(
    rows: Option<seq<AliasRow>>, need: Relation, left: string, right: string, spans: string -> Span)
    requires RowsTrue(rows, spans) && Inhabited(rows, spans) && SafeAtom(rows, need, left, right)
    ensures Right(JudgeAtom(rows, need, left, right), need, spans(left), spans(right))
  {
    if rows.Some? && Lookup(rows.value, left, right).Some? {
      var (row, observed) := Lookup(rows.value, left, right).value;
      var i :| 0 <= i < |rows.value| && rows.value[i] == row;
      hide Lookup;
      hide RowTrue;
      hide Right;
      hide Misread;
      assert RowTrue(rows.value[i], spans);
      RowSound(need, row, observed, left, right, spans);
    }
  }

  // ----- without the declared preconditions -----

  /** What the rows observed is so; what they declare may fail. */
  ghost predicate RowsObserved(rows: Option<seq<AliasRow>>, spans: string -> Span)
  {
    rows.Some? ==> forall i | 0 <= i < |rows.value| ::
      ObservedTrue(rows.value[i].observed, spans(rows.value[i].left), spans(rows.value[i].right))
  }

  lemma RowUnconditional(
    need: Relation, row: AliasRow, observed: Observed, left: string, right: string, spans: string -> Span)
    requires Found(row, observed, left, right) && !Misread(need, row, observed, left, right)
    requires ObservedTrue(row.observed, spans(row.left), spans(row.right))
    requires !Empty(spans(left)) && !Empty(spans(right))
    ensures JudgeRow(need, row, observed) == ProvenTrue ==> Related(need, spans(left), spans(right))
    ensures JudgeRow(need, row, observed) == ProvenFalse ==> !Related(need, spans(left), spans(right))
  {
  }

  /** An atom proven or refuted is so whether or not the caller keeps the preconditions. */
  lemma AtomUnconditional(
    rows: Option<seq<AliasRow>>, need: Relation, left: string, right: string, spans: string -> Span)
    requires RowsObserved(rows, spans) && Inhabited(rows, spans) && SafeAtom(rows, need, left, right)
    ensures JudgeAtom(rows, need, left, right) == ProvenTrue ==> Related(need, spans(left), spans(right))
    ensures JudgeAtom(rows, need, left, right) == ProvenFalse ==> !Related(need, spans(left), spans(right))
  {
    if rows.Some? && Lookup(rows.value, left, right).Some? {
      var (row, observed) := Lookup(rows.value, left, right).value;
      var i :| 0 <= i < |rows.value| && rows.value[i] == row;
      hide Lookup;
      hide ObservedTrue;
      hide Related;
      hide JudgeRow;
      hide Misread;
      RowUnconditional(need, row, observed, left, right, spans);
    }
  }

  // ----- misread rows -----

  /** Two equal regions contain each other, yet `contains` is judged false. */
  lemma EqualRegionsContain(left: string, right: string, spans: string -> Span)
    requires spans(left) == spans(right)
    ensures var rows := Some([AliasRow(left, right, Same, ProvenEqual, false)]);
            && RowsTrue(rows, spans) && Related(Covers, spans(left), spans(right))
            && JudgeAtom(rows, Covers, left, right) == ProvenFalse
  {
  }

  /** A declared `contains(a, b)` also passes the reversed atom under precondition. */
  lemma ReversedContainment(a: string, b: string, spans: string -> Span)
    requires a != b && spans(a) == Span(0, 2) && spans(b) == Span(0, 1)
    ensures var rows := Some([AliasRow(a, b, Covers, MayOverlap, true)]);
            && RowsTrue(rows, spans) && !Related(Covers, spans(b), spans(a))
            && JudgeAtom(rows, Covers, b, a) == TrueUnderPrecondition
  {
  }

  /**
   The right region around the left one is observed as a partial overlap, so asking
   whether it contains the left one is judged false.
   */
  lemma ReversedPartialOverlap(
    l: RegionAccess.Region, r: RegionAccess.Region, bases: string -> int, lens: string -> int, spans: string -> Span)
    requires l.name != r.name && l.base == r.base && l.offset == 2 && r.offset == 0
    requires l.length == RegionAccess.LengthLiteral(2) && r.length == RegionAccess.LengthLiteral(8)
    requires spans(l.name) == SpanOf(l, bases, lens) && spans(r.name) == SpanOf(r, bases, lens)
    ensures var rows := Some([RowOf([l, r], l.name, r.name, Covers, false)]);
            && RowsTrue(rows, spans) && Related(Covers, spans(r.name), spans(l.name))
            && JudgeAtom(rows, Covers, r.name, l.name) == ProvenFalse
  {
    assert [l, r][1..] == [r];
    assert FindRegion([r], r.name) == Some(r);
    assert Observe(l, r) == ProvenPartialOverlap;
  }
}
