/**
 Region-access evidence (crates/semasm-contract/src/region_access.rs): matching
 recorded accesses against the regions a contract declares, with the source's
 saturating 64-bit signed arithmetic.
 */
module RegionAccess {
  import opened Basics
  import opened X86
  import opened MemoryEffects

  const I64_MIN: int := -TWO63
  const I64_MAX: int := TWO63 - 1

  datatype LengthSpec = LengthParam(name: string) | LengthLiteral(bytes: nat)

  datatype Permission = Read | Write | ReadWrite

  datatype Region = Region(
    name: string, base: string, offset: int, length: LengthSpec, access: Permission)

  datatype Bounds = ProvenInside | ProvenOutside | MayEscape | BoundsUnknown

  datatype Verdict = Allowed | Denied | VerdictUnknown

  datatype Basis = ProvenStatic | DeclaredPrecondition | NoBasis

  datatype Evidence = Evidence(
    region: Option<Region>, bounds: Bounds, permission: Verdict, basis: Basis)

  datatype Status = Passed | PassedUnderPreconditions | Incomplete | Failed

  datatype RegionClass = Inside | Outside | Straddles

  function Clamp(n: int): (r: int)
    ensures I64_MIN <= r <= I64_MAX
    ensures I64_MIN <= n <= I64_MAX ==> r == n
  {
    if n > I64_MAX then I64_MAX else if n < I64_MIN then I64_MIN else n
  }

  predicate AccessAllowed(p: Permission, m: AccessMode)
  {
    p == ReadWrite || (p == Read && m == Load) || (p == Write && m == Store)
  }

  function ClassifyVsRegion(r: Region, lo: int, hi: int): (c: RegionClass)
  {
    match r.length
    case LengthLiteral(n) =>
      if lo >= r.offset && hi <= Clamp(r.offset + n) then Inside
      else if hi <= r.offset || lo >= Clamp(r.offset + n) then Outside
      else Straddles
    case LengthParam(_) =>
      if lo != r.offset && hi <= r.offset then Outside else Straddles
  }

  // ----- candidate lists -----

  function Candidates(regions: seq<Region>, base: string): (c: seq<Region>)
    ensures forall r :: r in c <==> r in regions && r.base == base
  {
    if regions == [] then []
    else
      var rest := Candidates(regions[1..], base);
      assert forall r :: r in regions <==> r == regions[0] || r in regions[1..];
      if regions[0].base == base then [regions[0]] + rest else rest
  }

  function Containing(c: seq<Region>, lo: int, hi: int): (inside: seq<Region>)
    ensures forall r :: r in inside <==> r in c && ClassifyVsRegion(r, lo, hi).Inside?
  {
    if c == [] then []
    else
      var rest := Containing(c[1..], lo, hi);
      assert forall r :: r in c <==> r == c[0] || r in c[1..];
      if ClassifyVsRegion(c[0], lo, hi).Inside? then [c[0]] + rest else rest
  }

  /** The first region that allows the mode, or the first one. */
  function Preferred(c: seq<Region>, m: AccessMode): (r: Region)
    requires c != []
    ensures r in c
    ensures AccessAllowed(r.access, m) <==> exists x :: x in c && AccessAllowed(x.access, m)
  {
    if AccessAllowed(c[0].access, m) then c[0]
    else
      assert forall r :: r in c <==> r == c[0] || r in c[1..];
      if c[1..] != [] && AccessAllowed(Preferred(c[1..], m).access, m)
      then Preferred(c[1..], m) else c[0]
  }

  function PermissionOf(r: Region, m: AccessMode): (v: Verdict)
  {
    if AccessAllowed(r.access, m) then Allowed else Denied
  }

  // ----- judging one access -----

  function JudgeAffine(regions: seq<Region>, a: Access, base: string, offset: int): (e: Evidence)
  {
    var c := Candidates(regions, base);
    var hi := Clamp(offset + a.width);
    if c == [] then Evidence(None, BoundsUnknown, VerdictUnknown, NoBasis)
    else if Containing(c, offset, hi) != [] then
      var r := Preferred(Containing(c, offset, hi), a.mode);
      Evidence(Some(r), ProvenInside, PermissionOf(r, a.mode), ProvenStatic)
    else if forall r | r in c :: ClassifyVsRegion(r, offset, hi).Outside? then
      Evidence(None, ProvenOutside, VerdictUnknown, ProvenStatic)
    else
      var r := Preferred(c, a.mode);
      Evidence(Some(r), MayEscape, PermissionOf(r, a.mode),
               if r.length.LengthParam? && AccessAllowed(r.access, a.mode)
               then DeclaredPrecondition else NoBasis)
  }

  method ScanCandidates(c: seq<Region>, lo: int, hi: int)
    returns (inside: seq<Region>, anyMay: bool, allOutside: bool)
    ensures inside == Containing(c, lo, hi)
    ensures allOutside && !anyMay <==> forall r | r in c :: ClassifyVsRegion(r, lo, hi).Outside?
  {
    hide ClassifyVsRegion;
    inside, anyMay, allOutside := [], false, true;
    for k := 0 to |c|
      invariant inside + Containing(c[k..], lo, hi) == Containing(c, lo, hi)
      invariant allOutside <==> forall j | 0 <= j < k :: ClassifyVsRegion(c[j], lo, hi).Outside?
      invariant anyMay ==> !allOutside
    {
      assert c[k..][1..] == c[k + 1..];
      match ClassifyVsRegion(c[k], lo, hi)
      case Inside =>
        allOutside := false;
        inside := inside + [c[k]];
      case Outside =>
      case Straddles =>
        allOutside := false;
        anyMay := true;
    }
  }

  method JudgeAffineAccess(regions: seq<Region>, a: Access, base: string, offset: int)
    returns (e: Evidence)
    ensures e == JudgeAffine(regions, a, base, offset)
  {
    hide Candidates;
    hide Containing;
    hide Preferred;
    hide ClassifyVsRegion;
    var c := Candidates(regions, base);
    if c == [] { return Evidence(None, BoundsUnknown, VerdictUnknown, NoBasis); }
    var hi := Clamp(offset + a.width);
    var inside, anyMay, allOutside := ScanCandidates(c, offset, hi);
    if inside != [] {
      var r := Preferred(inside, a.mode);
      return Evidence(Some(r), ProvenInside, PermissionOf(r, a.mode), ProvenStatic);
    }
    if allOutside && !anyMay {
      return Evidence(None, ProvenOutside, VerdictUnknown, ProvenStatic);
    }
    var r := Preferred(c, a.mode);
    e := Evidence(Some(r), MayEscape, PermissionOf(r, a.mode),
                  if r.length.LengthParam? && AccessAllowed(r.access, a.mode)
                  then DeclaredPrecondition else NoBasis);
  }

  function JudgeIndexed(regions: seq<Region>, a: Access, base: string): (e: Evidence)
    ensures e.bounds != ProvenInside
  {
    var c := Candidates(regions, base);
    if c == [] then Evidence(None, BoundsUnknown, VerdictUnknown, NoBasis)
    else
      var r := Preferred(c, a.mode);
      Evidence(Some(r), MayEscape, PermissionOf(r, a.mode),
               if AccessAllowed(r.access, a.mode) then DeclaredPrecondition else ProvenStatic)
  }

  predicate InsideAllowed(e: Evidence)
  {
    e.bounds == ProvenInside && e.permission == Allowed
  }

  function HighEnd(scale: nat, disp: int, max: nat): (hi: int)
    requires max > 0
  {
    Clamp(Clamp(Clamp(max - 1) * scale) + disp)
  }

  /** Both ends of `0..max` must be inside some region; the row names the high end's. */
  function JudgeRange(regions: seq<Region>, a: Access, base: string, scale: nat, disp: int, max: nat)
    : (e: Evidence)
  {
    if max == 0 then JudgeIndexed(regions, a, base)
    else
      var low := JudgeAffine(regions, a, base, disp);
      var high := JudgeAffine(regions, a, base, HighEnd(scale, disp, max));
      if InsideAllowed(low) && InsideAllowed(high)
      then Evidence(if high.region.Some? then high.region else low.region,
                    ProvenInside, Allowed, ProvenStatic)
      else JudgeIndexed(regions, a, base)
  }

  function Judge(regions: seq<Region>, a: Access): (e: Evidence)
    requires !a.addr.StackFrame?
  {
    match a.addr
    case UnknownAddr => Evidence(None, BoundsUnknown, VerdictUnknown, NoBasis)
    case Affine(base, offset) => JudgeAffine(regions, a, base, offset)
    case Indexed(base, scale, disp, c, max) =>
      if c.Some? then JudgeAffine(regions, a, base, Clamp(Clamp(Clamp(c.value) * scale) + disp))
      else if max.Some? then JudgeRange(regions, a, base, scale, disp, max.value)
      else JudgeIndexed(regions, a, base)
  }

  // ----- the report -----

  predicate FailingRow(e: Evidence)
  {
    e.bounds == ProvenOutside || e.permission == Denied
  }

  predicate UnknownRow(e: Evidence)
  {
    e.bounds == BoundsUnknown || e.permission == VerdictUnknown
  }

  /** Not shown to be inside, and taken to be so under the caller's word. */
  predicate RelyingRow(e: Evidence)
  {
    e.bounds == MayEscape && e.permission == Allowed && e.basis == DeclaredPrecondition
  }

  function StatusOf(rows: seq<Evidence>): (s: Status)
    ensures s == Passed <==> forall e | e in rows :: InsideAllowed(e)
    ensures s == Failed <==> exists e :: e in rows && FailingRow(e)
    ensures s == PassedUnderPreconditions <==>
              (forall e | e in rows :: InsideAllowed(e) || RelyingRow(e)) &&
              exists e :: e in rows && RelyingRow(e)
  {
    if exists e | e in rows :: FailingRow(e) then Failed
    else if exists e | e in rows :: !InsideAllowed(e) && !RelyingRow(e) then Incomplete
    else if exists e | e in rows :: RelyingRow(e) then PassedUnderPreconditions
    else Passed
  }

  function Rows(regions: seq<Region>, accesses: seq<Access>): (rows: seq<Evidence>)
    ensures forall a | a in accesses && !a.addr.StackFrame? :: Judge(regions, a) in rows
    ensures forall e | e in rows :: exists a :: a in accesses && !a.addr.StackFrame? && e == Judge(regions, a)
  {
    if accesses == [] then []
    else
      var rest := Rows(regions, accesses[..|accesses| - 1]);
      var last := accesses[|accesses| - 1];
      assert forall a :: a in accesses <==> a == last || a in accesses[..|accesses| - 1];
      if last.addr.StackFrame? then rest else rest + [Judge(regions, last)]
  }

  /** Neither shown to be inside nor vouched for. */
  predicate OpenRow(e: Evidence)
  {
    !InsideAllowed(e) && !RelyingRow(e)
  }

  predicate AnyOf(rows: seq<Evidence>, n: nat, row: Evidence -> bool)
    requires n <= |rows|
  {
    exists j | 0 <= j < n :: row(rows[j])
  }

  lemma RowKinds(e: Evidence)
    ensures FailingRow(e) ==> OpenRow(e)
    ensures !FailingRow(e) && !UnknownRow(e) && e.bounds == MayEscape ==>
              (e.basis == DeclaredPrecondition && e.permission == Allowed <==> RelyingRow(e)) &&
              (OpenRow(e) <==> !RelyingRow(e))
    ensures UnknownRow(e) ==> OpenRow(e)
    ensures !FailingRow(e) && !UnknownRow(e) && e.bounds != MayEscape ==>
              !RelyingRow(e) && (OpenRow(e) <==> e.bounds != ProvenInside || e.permission != Allowed)
    ensures RelyingRow(e) ==> !FailingRow(e) && !UnknownRow(e) && e.bounds == MayEscape
  {
  }

  lemma StatusFromFlags(rows: seq<Evidence>, failed: bool, open: bool, under: bool)
    requires failed <==> AnyOf(rows, |rows|, FailingRow)
    requires failed || open <==> AnyOf(rows, |rows|, OpenRow)
    requires under <==> AnyOf(rows, |rows|, RelyingRow)
    ensures StatusOf(rows) == if failed then Failed else if open then Incomplete
                              else if under then PassedUnderPreconditions else Passed
  {
    hide FailingRow;
    hide RelyingRow;
    hide InsideAllowed;
  }

  method Evaluate(regions: seq<Region>, accesses: seq<Access>)
    returns (rows: seq<Evidence>, status: Status)
    ensures rows == Rows(regions, accesses)
    ensures status == StatusOf(rows)
  {
    rows := [];
    for k := 0 to |accesses|
      invariant rows == Rows(regions, accesses[..k])
    {
      assert accesses[..k + 1][..k] == accesses[..k];
      if !accesses[k].addr.StackFrame? {
        rows := rows + [Judge(regions, accesses[k])];
      }
    }
    assert accesses[..|accesses|] == accesses;
    var anyFailed, anyIncomplete, anyUnder, unknown := false, false, false, 0;
    hide FailingRow;
    hide UnknownRow;
    hide RelyingRow;
    hide OpenRow;
    hide StatusOf;
    for k := 0 to |rows|
      invariant unknown >= 0
      invariant anyFailed <==> AnyOf(rows, k, FailingRow)
      invariant anyFailed || anyIncomplete || unknown > 0 <==> AnyOf(rows, k, OpenRow)
      invariant anyUnder <==> AnyOf(rows, k, RelyingRow)
    {
      var row := rows[k];
      RowKinds(row);
      if UnknownRow(row) { unknown := unknown + 1; }
      if FailingRow(row) {
        anyFailed := true;
      } else if UnknownRow(row) {
        anyIncomplete := true;
      } else if row.bounds == MayEscape {
        if row.basis == DeclaredPrecondition && row.permission == Allowed { anyUnder := true; }
        else { anyIncomplete := true; }
      } else if row.bounds != ProvenInside || row.permission != Allowed {
        anyIncomplete := true;
      }
    }
    StatusFromFlags(rows, anyFailed, anyIncomplete || unknown > 0, anyUnder);
    status := if anyFailed then Failed
              else if anyIncomplete || unknown > 0 then Incomplete
              else if anyUnder then PassedUnderPreconditions
              else Passed;
  }
}
