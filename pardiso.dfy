/** The driver around the Pardiso sparse direct solver (NumCore/PardisoSolver.cpp).

    The library routine `pardiso` is an oracle: every call is recorded in the
    solver's call log, and the error code it reports is a parameter of the
    driver operation that makes the call. Norms and random vectors, which the
    driver only passes through, are parameters as well. */
module Pardiso {

  datatype Option<T> = None | Some(value: T)

  /** Matrix_Type as requested by the caller of CreateSparseMatrix. */
  datatype MatrixType = RealSymmetric | RealUnsymmetric | RealSymmStructure | OtherType

  /** Storage formats: the compact symmetric and CRS formats the driver
      allocates, another compact format, and a matrix that is not compact. */
  datatype Storage = CompactSymm | Crs | OtherCompact | NotCompact

  /** What the driver reads of a sparse matrix. */
  datatype Matrix = Matrix(storage: Storage, rows: nat, nonzeroes: nat, hasPointers: bool)

  /** One call of `pardiso`: phase, matrix type, order, and the right-hand
      side for a solve (empty for the other phases). */
  datatype Call = Call(phase: int, mtype: int, n: int, rhs: seq<real>)

  /** How a driver operation ends: it returns, or the process exits with a code. */
  datatype Outcome = Returned(ok: bool) | Exit(code: int)

  /** Result of the condition-number estimate: the two factors ||A|| and
      the largest ||x|| whose product is the value returned, or the exit
      code of the solve that failed on the way. */
  datatype Estimate = Estimated(normA: real, normAi: real) | Aborted(code: int)
  {
    /** The estimated condition number. */
    function C(): real
      requires Estimated?
    {
      normA * normAi
    }
  }

  /** One trial of the estimator: the random vector drawn into b, the error
      code the solve reports, and the infinity norm of its solution x. */
  datatype Trial = Trial(rand: seq<real>, err: int, normx: real)

  const SymmetricCode := -2
  const UnsymmetricCode := 11
  const SymmStructureCode := 1
  const UnknownMessage := " Unknown"

  // ---------------------------------------------------------------- print_err

  /** The message print_err writes for a library error code. */
  function ErrorMessage(nerror: int): (m: string)
    ensures m == UnknownMessage <==> !(-8 <= nerror <= -1)
  {
    match -nerror
    case 1 => "Inconsistent input"
    case 2 => "Not enough memory"
    case 3 => "Reordering problem"
    case 4 => "Zero pivot, numerical fact. or iterative refinement problem"
    case 5 => "Unclassified (internal) error"
    case 6 => "Preordering failed"
    case 7 => "Diagonal matrix problem"
    case 8 => "32-bit integer overflow problem"
    case _ => UnknownMessage
  }

  // ------------------------------------------------------- matrix type codes

  /** The `mtype` code and storage CreateSparseMatrix chooses; None for a
      type it does not support. */
  function CreateChoice(t: MatrixType): (r: Option<(int, Storage)>)
    ensures r.None? <==> t.OtherType?
    ensures r.Some? ==> r.value.1 != NotCompact
  {
    match t
    case RealSymmetric => Some((SymmetricCode, CompactSymm))
    case RealUnsymmetric => Some((UnsymmetricCode, Crs))
    case RealSymmStructure => Some((SymmStructureCode, Crs))
    case OtherType => None
  }

  /** The `mtype` code SetSparseMatrix derives from a matrix's storage. */
  function SetChoice(s: Storage): (code: int)
    ensures code == UnsymmetricCode || code == SymmetricCode
  {
    if s.Crs? then UnsymmetricCode else SymmetricCode
  }

  /** Handing a matrix made by CreateSparseMatrix back to SetSparseMatrix
      keeps its `mtype` code, except for the structurally symmetric type,
      whose code 1 becomes 11: SetSparseMatrix only tells CRS from the rest. */
  lemma CreateThenSet(t: MatrixType)
    requires !t.OtherType?
    ensures var c := CreateChoice(t).value;
      SetChoice(c.1) == c.0 <==> !t.RealSymmStructure?
  {
  }

  /** Different supported types get different codes. */
  lemma CreateCodesDistinct(a: MatrixType, b: MatrixType)
    requires !a.OtherType? && !b.OtherType? && a != b
    ensures CreateChoice(a).value.0 != CreateChoice(b).value.0
  {
  }

  // ------------------------------------------------- condition number pieces

  /** Number of trials the estimator runs for an N-row matrix. */
  function Iters(n: int): (r: int)
    ensures r <= 50 && r <= n
    ensures r == 50 || r == n
  {
    if n < 50 then n else 50
  }

  /** The right-hand side built from a random vector: +1 where it is
      non-negative, -1 elsewhere. */
  function Signs(rand: seq<real>): (b: seq<real>)
    ensures |b| == |rand|
    ensures forall j :: 0 <= j < |b| ==> (b[j] == 1.0 || b[j] == -1.0)
    ensures forall j :: 0 <= j < |b| ==> (b[j] > 0.0 <==> rand[j] >= 0.0)
  {
    seq(|rand|, j requires 0 <= j < |rand| => if rand[j] >= 0.0 then 1.0 else -1.0)
  }

  /** Trials that complete before the first failing solve. */
  function Completed(trials: seq<Trial>): (k: nat)
    ensures k <= |trials|
    ensures forall i :: 0 <= i < k ==> trials[i].err == 0
    ensures k < |trials| ==> trials[k].err != 0
  {
    if trials == [] then 0
    else if trials[0].err != 0 then 0
    else 1 + Completed(trials[1..])
  }

  /** The running maximum of the solution norms, starting from 0. */
  function RunningMax(trials: seq<Trial>): real
  {
    if trials == [] then 0.0
    else
      var prev := RunningMax(trials[..|trials| - 1]);
      var x := trials[|trials| - 1].normx;
      if x > prev then x else prev
  }

  /** The running maximum is not negative, bounds every norm, and is 0 or
      one of the norms. */
  lemma {:induction false} RunningMaxBounds(trials: seq<Trial>)
    ensures RunningMax(trials) >= 0.0
    ensures forall i :: 0 <= i < |trials| ==> trials[i].normx <= RunningMax(trials)
    ensures RunningMax(trials) == 0.0 || exists i :: 0 <= i < |trials| && trials[i].normx == RunningMax(trials)
    decreases |trials|
  {
    if trials != [] {
      var k := |trials| - 1;
      var front := trials[..k];
      RunningMaxBounds(front);
      assert forall i :: 0 <= i < k ==> front[i] == trials[i];
      if trials[k].normx <= RunningMax(front) && RunningMax(front) != 0.0 {
        var j :| 0 <= j < k && front[j].normx == RunningMax(front);
        assert trials[j].normx == RunningMax(trials);
      }
    }
  }

  /** The running maximum never decreases as trials are added. */
  lemma {:induction false} RunningMaxMonotone(trials: seq<Trial>, k: nat)
    requires k <= |trials|
    ensures RunningMax(trials[..k]) <= RunningMax(trials)
  {
    var m := RunningMax(trials[..k]);
    RunningMaxBounds(trials[..k]);
    RunningMaxBounds(trials);
    if m != 0.0 {
      var i :| 0 <= i < k && trials[..k][i].normx == m;
      assert trials[i].normx == m;
    }
  }

  /** The estimate: ||A|| times the largest solution norm, unless a solve
      fails, which ends the process with code 3. */
  function EstimateOf(normA: real, trials: seq<Trial>): Estimate
  {
    if Completed(trials) < |trials| then Aborted(3) else Estimated(normA, RunningMax(trials))
  }

  /** The estimate aborts, always with exit code 3, iff some solve fails. */
  lemma EstimateAbortsIff(normA: real, trials: seq<Trial>)
    ensures EstimateOf(normA, trials).Aborted? <==> exists i :: 0 <= i < |trials| && trials[i].err != 0
    ensures EstimateOf(normA, trials).Aborted? ==> EstimateOf(normA, trials).code == 3
  {
  }

  /** The estimate never exceeds ||A|| times the largest norm seen, and is at
      least ||A|| times each of them (for non-negative ||A||). */
  lemma EstimateBounds(normA: real, trials: seq<Trial>, i: int)
    requires normA >= 0.0 && 0 <= i < |trials| && EstimateOf(normA, trials).Estimated?
    ensures normA * trials[i].normx <= EstimateOf(normA, trials).C()
    ensures EstimateOf(normA, trials).C() >= 0.0
  {
    var m := RunningMax(trials);
    RunningMaxBounds(trials);
    MulMono(normA, trials[i].normx, m);
  }

  lemma EstimateComplete(normA: real, trials: seq<Trial>, m: real)
    requires forall i :: 0 <= i < |trials| ==> trials[i].err == 0
    requires m == RunningMax(trials[..|trials|])
    ensures EstimateOf(normA, trials) == Estimated(normA, m)
    ensures Completed(trials) == |trials| == Made(trials)
  {
    assert trials[..|trials|] == trials;
    assert Completed(trials) == |trials|;
  }

  lemma EstimateAborted(normA: real, trials: seq<Trial>, i: int)
    requires 0 <= i < |trials| && trials[i].err != 0
    requires forall l :: 0 <= l < i ==> trials[l].err == 0
    ensures EstimateOf(normA, trials) == Aborted(3)
    ensures Completed(trials) == i && Made(trials) == i + 1
  {
  }

  lemma RunningMaxSnoc(trials: seq<Trial>, i: int)
    requires 0 <= i < |trials|
    ensures RunningMax(trials[..i + 1]) ==
      if trials[i].normx > RunningMax(trials[..i]) then trials[i].normx else RunningMax(trials[..i])
  {
    assert trials[..i + 1][..i] == trials[..i];
  }

  lemma MulMono(a: real, x: real, y: real)
    requires a >= 0.0 && x <= y
    ensures a * x <= a * y
  {
  }

  /** The library calls the estimator makes: one solve per trial up to and
      including the first one that fails. */
  function Made(trials: seq<Trial>): (k: nat)
    ensures k <= |trials|
  {
    if Completed(trials) < |trials| then Completed(trials) + 1 else |trials|
  }

  function SolveCalls(trials: seq<Trial>, mtype: int, n: int): (r: seq<Call>)
    ensures |r| == |trials|
    ensures forall i :: 0 <= i < |r| ==> r[i].phase == 33 && r[i].rhs == Signs(trials[i].rand)
  {
    seq(|trials|, i requires 0 <= i < |trials| => Call(33, mtype, n, Signs(trials[i].rand)))
  }

  lemma SolveCallsSnoc(trials: seq<Trial>, i: int, mtype: int, n: int)
    requires 0 <= i < |trials|
    ensures SolveCalls(trials[..i + 1], mtype, n)
      == SolveCalls(trials[..i], mtype, n) + [Call(33, mtype, n, Signs(trials[i].rand))]
  {
  }

  /** Progress percentage printed after trial i of iters, as written:
      the divisor iters-1 is zero when the matrix has a single row. */
  function ProgressAsWritten(i: int, iters: int): (pct: int)
    requires iters != 1
  {
    (100 * i) / (iters - 1)
  }

  /** For a one-row matrix the estimator runs one trial, and that trial
      divides by iters-1 = 0. */
  lemma ProgressDividesByZero(n: int)
    requires n == 1
    ensures Iters(n) == 1 && 0 < Iters(n)
    ensures Iters(n) - 1 == 0
  {
  }

  /** Progress percentage with the single-trial case reported as done. */
  function Progress(i: int, iters: int): (pct: int)
    requires 0 <= i < iters
    ensures 0 <= pct <= 100
    ensures iters >= 2 ==> pct == ProgressAsWritten(i, iters)
  {
    if iters <= 1 then 100 else ProgressBound(i, iters); (100 * i) / (iters - 1)
  }

  /** The percentages printed after the first k trials of iters. */
  function Percentages(k: nat, iters: int): seq<int>
    requires k <= iters
  {
    if k == 0 then [] else Percentages(k - 1, iters) + [Progress(k - 1, iters)]
  }

  /** The l-th percentage printed is the progress after trial l. */
  lemma {:induction false} PercentagesAt(k: nat, iters: int)
    requires k <= iters
    ensures |Percentages(k, iters)| == k
    ensures forall l :: 0 <= l < k ==> Percentages(k, iters)[l] == Progress(l, iters)
  {
    if k > 0 {
      PercentagesAt(k - 1, iters);
    }
  }

  lemma ProgressBound(i: int, iters: int)
    requires 0 <= i < iters && iters >= 2
    ensures 0 <= (100 * i) / (iters - 1) <= 100
  {
    var d := iters - 1;
    var q := (100 * i) / d;
    assert 100 * i == d * q + (100 * i) % d && 0 <= (100 * i) % d < d;
    if q < 0 {
      IntMulMono(d, q, -1);
    } else if q > 100 {
      IntMulMono(d, 101, q);
    }
  }

  lemma IntMulMono(d: int, a: int, b: int)
    requires d > 0 && a <= b
    ensures d * a <= d * b
  {
    assert d * b - d * a == d * (b - a);
  }

  // ----------------------------------------------------------------- Destroy

  /** The release calls of Destroy as written: it reads m_pA->Pointers(),
      so it is defined only when a matrix is attached. */
  function ReleaseAsWritten(pA: Option<Matrix>, mtype: int, n: int): (r: seq<Call>)
    requires pA.Some?
    ensures r == [] <==> !pA.value.hasPointers
  {
    if pA.value.hasPointers then [Call(-1, mtype, n, [])] else []
  }

  /** A freshly constructed solver has no matrix (m_pA is 0), and its
      destructor calls Destroy: ReleaseAsWritten's `requires pA.Some?`
      excludes exactly this state, so Destroy as written is undefined there. */
  lemma DestroyWithoutMatrix()
    ensures !Initial().Some?
  {
  }

  /** The matrix a newly constructed solver holds. */
  function Initial(): (pA: Option<Matrix>)
    ensures pA == None
  {
    None
  }

  /** The release calls of Destroy, with the missing matrix treated as
      nothing to release. */
  function Release(pA: Option<Matrix>, mtype: int, n: int): (r: seq<Call>)
    ensures pA.Some? ==> r == ReleaseAsWritten(pA, mtype, n)
    ensures pA.None? ==> r == []
    ensures forall c :: c in r ==> c.phase == -1
  {
    if pA.Some? && pA.value.hasPointers then [Call(-1, mtype, n, [])] else []
  }

  lemma SetTwice(a: seq<int>, k: int, v: int)
    requires 0 <= k < |a|
    ensures a[k := v][k := v] == a[k := v]
  {
  }

  // ------------------------------------------------------------ the solver

  /** PardisoSolver: the driver's state. */
  class PardisoSolver {
    var mtype: int              // m_mtype
    var pA: Option<Matrix>      // m_pA
    var iparm3: bool            // m_iparm3: iterative factorisation
    var printCn: bool           // m_print_cn
    const iparm: array<int>     // m_iparm[64]
    var n: int                  // m_n
    var nnz: int                // m_nnz
    var nrhs: int               // m_nrhs
    var maxfct: int             // m_maxfct
    var mnum: int               // m_mnum
    var msglvl: int             // m_msglvl
    var solves: nat             // solve count kept by UpdateStats
    var calls: seq<Call>        // every call made to the library, in order

    ghost predicate Valid()
      reads this
    {
      iparm.Length == 64
    }

    constructor ()
      ensures Valid() && fresh(iparm)
      ensures mtype == SymmetricCode && pA == Initial() && !iparm3 && !printCn
      ensures calls == [] && solves == 0
    {
      iparm := new int[64](k => 0);
      printCn, mtype, iparm3 := false, SymmetricCode, false;
      pA := None;
      n, nnz, nrhs, maxfct, mnum, msglvl := 0, 0, 0, 0, 0, 0;
      solves, calls := 0, [];
    }

    method PrintConditionNumber(b: bool)
      modifies this`printCn
      ensures printCn == b
    {
      printCn := b;
    }

    method UseIterativeFactorization(b: bool)
      modifies this`iparm3
      ensures iparm3 == b
    {
      iparm3 := b;
    }

    /** Allocates an empty matrix of the storage the type calls for and sets
        `mtype`; an unsupported type leaves no matrix. */
    method CreateSparseMatrix(t: MatrixType) returns (r: Option<Matrix>)
      modifies this`mtype, this`pA
      ensures r == pA
      ensures CreateChoice(t).Some? ==>
        && mtype == CreateChoice(t).value.0
        && r == Some(Matrix(CreateChoice(t).value.1, 0, 0, false))
      ensures CreateChoice(t).None? ==> r.None? && mtype == old(mtype)
    {
      match t {
      case RealSymmetric => {
        mtype := SymmetricCode;
        pA := Some(Matrix(CompactSymm, 0, 0, false));
      }
      case RealUnsymmetric => {
        mtype := UnsymmetricCode;
        pA := Some(Matrix(Crs, 0, 0, false));
      }
      case RealSymmStructure => {
        mtype := SymmStructureCode;
        pA := Some(Matrix(Crs, 0, 0, false));
      }
      case OtherType => {
        pA := None;
      }
      }
      r := pA;
    }

    /** Attaches a matrix the caller built. Only a compact matrix is kept;
        the result says whether one was. */
    method SetSparseMatrix(a: Option<Matrix>) returns (ok: bool)
      modifies this`pA, this`mtype
      ensures pA == (if a.Some? && a.value.storage != NotCompact then a else None)
      ensures mtype == (if a.Some? then SetChoice(a.value.storage) else SymmetricCode)
      ensures ok <==> pA.Some?
    {
      if a.Some? && a.value.storage != NotCompact {
        pA := a;
      } else {
        pA := None;
      }
      mtype := SymmetricCode;
      if a.Some? && a.value.storage.Crs? {
        mtype := UnsymmetricCode;
      }
      ok := pA.Some?;
    }

    /** Initialises the parameter array from the library defaults
        (pardisoinit, given here as `defaults`) and copies the matrix size.
        `baseOk` is the result of the base class's PreProcess. */
    method PreProcess(defaults: seq<int>, baseOk: bool) returns (ok: bool)
      requires Valid() && pA.Some? && |defaults| == 64
      modifies iparm, this`n, this`nnz, this`nrhs, this`maxfct, this`mnum, this`msglvl
      ensures iparm[..] == defaults
      ensures n == pA.value.rows && nnz == pA.value.nonzeroes
      ensures nrhs == 1 && maxfct == 1 && mnum == 1 && msglvl == 0
      ensures ok == baseOk
    {
      iparm[0] := 0;
      var k := 0;
      while k < 64
        invariant 0 <= k <= 64
        invariant forall j :: 0 <= j < k ==> iparm[j] == defaults[j]
      {
        iparm[k] := defaults[k];
        k := k + 1;
      }
      n := pA.value.rows;
      nnz := pA.value.nonzeroes;
      nrhs := 1;
      maxfct := 1;
      mnum := 1;
      msglvl := 0;
      ok := baseOk;
    }

    /** Solves with the factorisation: phase 33 with one refinement step.
        `err` is the code the library reports. */
    method BackSolve(b: seq<real>, err: int) returns (r: Outcome)
      requires Valid() && pA.Some?
      modifies iparm, this`calls, this`solves
      ensures pA.value.rows == 0 ==>
        r == Returned(true) && calls == old(calls) && solves == old(solves) && iparm[..] == old(iparm[..])
      ensures pA.value.rows != 0 ==>
        && calls == old(calls) + [Call(33, mtype, n, b)]
        && iparm[..] == old(iparm[..])[7 := 1]
        && (err != 0 ==> r == Exit(3) && solves == old(solves))
        && (err == 0 ==> r == Returned(true) && solves == old(solves) + 1)
    {
      if pA.value.rows == 0 {
        return Returned(true);
      }
      iparm[7] := 1;
      calls := calls + [Call(33, mtype, n, b)];
      if err != 0 {
        return Exit(3);
      }
      solves := solves + 1;
      r := Returned(true);
    }

    /** Estimates the condition number as ||A|| times the largest
        ||x|| over min(N, 50) solves with random +-1 right-hand sides.
        Also yields the progress percentages it prints. */
    method ConditionNumber(normA: real, trials: seq<Trial>) returns (r: Estimate, pcts: seq<int>)
      requires Valid() && pA.Some?
      requires |trials| == Iters(pA.value.rows)
      requires forall i :: 0 <= i < |trials| ==> |trials[i].rand| == pA.value.rows
      modifies iparm, this`calls, this`solves
      ensures r == EstimateOf(normA, trials)
      ensures calls == old(calls) + SolveCalls(trials[..Made(trials)], mtype, n)
      ensures solves == old(solves) + Completed(trials)
      ensures pcts == Percentages(Completed(trials), |trials|)
      ensures Made(trials) == 0 ==> iparm[..] == old(iparm[..])
      ensures Made(trials) > 0 ==> iparm[..] == old(iparm[..])[7 := 1]
    {
      var iters := Iters(pA.value.rows);
      var normAi := 0.0;
      pcts := [];
      var i := 0;
      while i < iters
        invariant 0 <= i <= iters
        invariant i <= Completed(trials)
        invariant normAi == RunningMax(trials[..i])
        invariant calls == old(calls) + SolveCalls(trials[..i], mtype, n)
        invariant solves == old(solves) + i
        invariant pcts == Percentages(i, |trials|)
        invariant i == 0 ==> iparm[..] == old(iparm[..])
        invariant i > 0 ==> iparm[..] == old(iparm[..])[7 := 1]
      {
        var b := Signs(trials[i].rand);
        ghost var before := iparm[..];
        var s := BackSolve(b, trials[i].err);
        SetTwice(old(iparm[..]), 7, 1);
        assert iparm[..] == old(iparm[..])[7 := 1] by {
          assert before == old(iparm[..]) || before == old(iparm[..])[7 := 1];
        }
        SolveCallsSnoc(trials, i, mtype, n);
        if s.Exit? {
          EstimateAborted(normA, trials, i);
          return Aborted(s.code), pcts;
        }
        RunningMaxSnoc(trials, i);
        var normx := trials[i].normx;
        if normx > normAi {
          normAi := normx;
        }
        pcts := pcts + [Progress(i, iters)];
        i := i + 1;
      }
      EstimateComplete(normA, trials, normAi);
      r := Estimated(normA, normAi);
    }

    /** Numerical factorisation: phase 11 (reordering and symbolic
        factorisation) then phase 22, with iparm[3] selecting iterative
        factorisation. `err11` and `err22` are the codes the library reports;
        `normA` and `trials` feed the condition-number estimate, whose value
        is returned in `cn` when it is printed. */
    method Factor(err11: int, err22: int, normA: real, trials: seq<Trial>) returns (r: Outcome, cn: Option<real>)
      requires Valid() && pA.Some?
      requires printCn ==> |trials| == Iters(pA.value.rows)
      requires printCn ==> forall i :: 0 <= i < |trials| ==> |trials[i].rand| == pA.value.rows
      modifies iparm, this`calls, this`solves
      ensures pA.value.rows == 0 ==>
        r == Returned(true) && cn.None? && calls == old(calls) && solves == old(solves) && iparm[..] == old(iparm[..])
      ensures pA.value.rows != 0 && err11 != 0 ==>
        && r == Exit(2) && cn.None? && calls == old(calls) + [Call(11, mtype, n, [])]
        && solves == old(solves) && iparm[..] == old(iparm[..])
      ensures pA.value.rows != 0 && err11 == 0 && (err22 != 0 || !printCn) ==>
        && calls == old(calls) + [Call(11, mtype, n, []), Call(22, mtype, n, [])]
        && solves == old(solves)
        && iparm[..] == old(iparm[..])[3 := (if iparm3 then 61 else 0)]
      ensures pA.value.rows != 0 && err11 == 0 && err22 != 0 ==> r == Returned(false) && cn.None?
      ensures pA.value.rows != 0 && err11 == 0 && err22 == 0 && !printCn ==> r == Returned(true) && cn.None?
      ensures pA.value.rows != 0 && err11 == 0 && err22 == 0 && printCn ==>
        && calls == old(calls) + [Call(11, mtype, n, []), Call(22, mtype, n, [])] + SolveCalls(trials[..Made(trials)], mtype, n)
        && solves == old(solves) + Completed(trials)
        && (Made(trials) == 0 ==> iparm[..] == old(iparm[..])[3 := (if iparm3 then 61 else 0)])
        && (Made(trials) > 0 ==> iparm[..] == old(iparm[..])[3 := (if iparm3 then 61 else 0)][7 := 1])
        && match EstimateOf(normA, trials)
           case Estimated(_, _) => r == Returned(true) && cn == Some(EstimateOf(normA, trials).C())
           case Aborted(code) => r == Exit(code) && cn.None?
    {
      cn := None;
      if pA.value.rows == 0 {
        return Returned(true), None;
      }
      calls := calls + [Call(11, mtype, n, [])];
      if err11 != 0 {
        return Exit(2), None;
      }
      iparm[3] := if iparm3 then 61 else 0;
      calls := calls + [Call(22, mtype, n, [])];
      if err22 != 0 {
        return Returned(false), None;
      }
      if printCn {
        var e, _ := ConditionNumber(normA, trials);
        if e.Aborted? {
          return Exit(e.code), None;
        }
        cn := Some(e.C());
      }
      r := Returned(true);
    }

    /** Releases the library's memory (phase -1) when the attached matrix has
        its pointer array; with no matrix attached nothing is released. */
    method Destroy()
      modifies this`calls
      ensures calls == old(calls) + Release(pA, mtype, n)
    {
      if pA.Some? && pA.value.hasPointers {
        calls := calls + [Call(-1, mtype, n, [])];
      }
    }
  }
}
