/** Model of FEBio/init.cpp: equation numbering (FEM::InitEquations), the
    linear-constraint table (FEM::InitConstraints), the step-data checks and
    plane-strain fixing of FEM::Init, and the counter resets of FEM::Reset. */
module FemInit {
  import opened Numbering

  /** The meaning of a DOF status code: >= 0 free with that equation number,
      -1 fixed, < -1 constrained with equation number -code-2. */
  datatype DofStatus = Free(eq: int) | Fixed | Constrained(eq: int)

  function Decode(code: int): (s: DofStatus)
    ensures s.Free? <==> code >= 0
    ensures s.Fixed? <==> code == -1
    ensures !s.Fixed? ==> s.eq >= 0
    ensures s.Constrained? ==> code == -s.eq - 2
  {
    if code >= 0 then Free(code) else if code == -1 then Fixed else Constrained(-code - 2)
  }

  function Encode(s: DofStatus): (code: int)
    requires !s.Fixed? ==> s.eq >= 0
    ensures Decode(code) == s
  {
    match s
    case Free(eq) => eq
    case Fixed => -1
    case Constrained(eq) => -eq - 2
  }

  /** Every code is the encoding of its decoded status (the other half of the
      round trip stated on Encode). */
  lemma EncodeDecode(code: int)
    ensures Encode(Decode(code)) == code
  {
  }

  /** The node slots a rigid body drives: displacements 0,1,2 and rotations 7,8,9. */
  predicate IsRigidSlot(j: int)
  {
    0 <= j < 3 || 7 <= j < 10
  }

  /** The rigid-body DOF (0..5) that drives rigid slot j of a node. */
  function RigidIndex(j: int): (k: int)
    requires IsRigidSlot(j)
    ensures 0 <= k < 6
    ensures k < 3 <==> j < 3
  {
    if j < 3 then j else j - 4
  }

  /** A status code that points at a rigid DOF whose equation number (or -1)
      is lm: a free rigid DOF yields a constrained node slot, a fixed one a
      fixed node slot. */
  lemma RigidLink(lm: int)
    requires lm >= -1
    ensures Decode(-lm - 2) == if lm == -1 then Fixed else Constrained(lm)
  {
  }

  /** Each rigid body carries the six boundary-condition codes m_bc of its
      rigid material (>= 0 active, > 0 prescribed, < 0 fixed). */
  ghost predicate RigidCodes(bc: seq<seq<int>>, nrb: nat)
  {
    |bc| == nrb && forall i :: 0 <= i < |bc| ==> |bc[i]| == 6
  }

  /** The initial rigid table the numbering pass works on: an active DOF is a
      free placeholder, an inactive one is fixed. */
  function Marks(bc: seq<seq<int>>): (m: seq<seq<int>>)
    ensures |m| == |bc|
    ensures forall i :: 0 <= i < |bc| ==> |m[i]| == |bc[i]|
  {
    seq(|bc|, i requires 0 <= i < |bc| =>
      seq(|bc[i]|, k requires 0 <= k < |bc[i]| => if bc[i][k] >= 0 then 0 else -1))
  }

  /** Shape of a node table: every row has `ndofs` slots. */
  ghost predicate Rows(t: seq<seq<int>>, ndofs: nat)
  {
    forall n :: 0 <= n < |t| ==> |t[n]| == ndofs
  }

  /** Every row has room for the rigid slots 0..9. */
  ghost predicate Wide(t: seq<seq<int>>)
  {
    forall n :: 0 <= n < |t| ==> |t[n]| >= 10
  }

  ghost predicate RigidIds(rid: seq<int>, nrb: nat)
  {
    forall n :: 0 <= n < |rid| && rid[n] >= 0 ==> rid[n] < nrb
  }

  /** Phase 3 of InitEquations: every node attached to a rigid body gets its
      rigid slots overwritten with -LM-2 of the body's matching DOF. */
  function AttachRigid(t: seq<seq<int>>, rid: seq<int>, lmt: seq<seq<int>>): (r: seq<seq<int>>)
    requires |rid| == |t| && Wide(t)
    requires RigidIds(rid, |lmt|) && Rows(lmt, 6)
    ensures |r| == |t| && forall n :: 0 <= n < |t| ==> |r[n]| == |t[n]|
  {
    seq(|t|, n requires 0 <= n < |t| =>
      if rid[n] < 0 then t[n]
      else
        seq(|t[n]|, j requires 0 <= j < |t[n]| =>
          if IsRigidSlot(j) then -lmt[rid[n]][RigidIndex(j)] - 2 else t[n][j]))
  }

  /** Phase 4 of InitEquations: a prescribed rigid DOF (code > 0) is turned
      from its equation number n into -n-2. */
  function Prescribe(lmt: seq<seq<int>>, bc: seq<seq<int>>): (r: seq<seq<int>>)
    requires Rows(lmt, 6) && RigidCodes(bc, |lmt|)
    ensures |r| == |lmt| && Rows(r, 6)
  {
    seq(|lmt|, i requires 0 <= i < |lmt| =>
      seq(6, k requires 0 <= k < 6 => if bc[i][k] > 0 then -lmt[i][k] - 2 else lmt[i][k]))
  }

  /** The order in which the node pass visits nodes. */
  function NodeOrder(bwopt: bool, p: seq<int>, nodes: nat): seq<int>
  {
    if bwopt then p else Identity(nodes)
  }

  /** What InitEquations computes. */
  datatype Equations = Equations(ids: seq<seq<int>>, lm: seq<seq<int>>, nreq: int, neq: int)

  ghost predicate EquationInputs(t: seq<seq<int>>, order: seq<int>, rid: seq<int>, bc: seq<seq<int>>)
  {
    Wide(t) && |rid| == |t| &&
    InRange(order, |t|) && RigidIds(rid, |bc|) && RigidCodes(bc, |bc|)
  }

  ghost function EquationsSpec(t: seq<seq<int>>, order: seq<int>, rid: seq<int>, bc: seq<seq<int>>): Equations
    requires EquationInputs(t, order, rid, bc)
  {
    var nodes := Numbered(t, order, 0);
    var rigid := Numbered(Marks(bc), Identity(|bc|), nodes.1);
    Equations(AttachRigid(nodes.0, rid, rigid.0), Prescribe(rigid.0, bc), nodes.1, rigid.1)
  }

  /** The number of active DOFs (m_bc >= 0) over all rigid bodies. */
  function ActiveRigid(bc: seq<seq<int>>): (n: nat)
    decreases |bc|
  {
    if bc == [] then 0 else ActiveRigid(bc[..|bc| - 1]) + FreeCount(bc[|bc| - 1])
  }

  lemma {:induction false} MarksCount(bc: seq<seq<int>>, i: nat)
    requires i <= |bc|
    ensures SumFree(Marks(bc), Identity(|bc|)[..i]) == ActiveRigid(bc[..i])
  {
    if i > 0 {
      MarksCount(bc, i - 1);
      assert Identity(|bc|)[..i][..i - 1] == Identity(|bc|)[..i - 1];
      assert bc[..i][..i - 1] == bc[..i - 1];
      FreeCountSigns(Marks(bc)[i - 1], bc[i - 1]);
    }
  }

  /** m_nreq is the number of free node DOFs visited, and m_neq adds one
      equation per active rigid DOF. */
  lemma EquationCounts(t: seq<seq<int>>, order: seq<int>, rid: seq<int>, bc: seq<seq<int>>)
    requires EquationInputs(t, order, rid, bc)
    ensures EquationsSpec(t, order, rid, bc).nreq == SumFree(t, order)
    ensures EquationsSpec(t, order, rid, bc).neq == SumFree(t, order) + ActiveRigid(bc)
  {
    NumberedCount(t, order, 0);
    var nreq := Numbered(t, order, 0).1;
    NumberedCount(Marks(bc), Identity(|bc|), nreq);
    MarksCount(bc, |bc|);
    assert Identity(|bc|)[..|bc|] == Identity(|bc|);
    assert bc[..|bc|] == bc;
  }

  /** The rigid DOFs, read body by body, receive c0, c0+1, ... (c0 is m_nreq
      in InitEquations); an inactive rigid DOF gets -1, an active one a number
      in [c0, c0 + number of active rigid DOFs). */
  lemma RigidNumbering(bc: seq<seq<int>>, c0: int)
    requires RigidCodes(bc, |bc|) && c0 >= 0
    ensures var rigid := Numbered(Marks(bc), Identity(|bc|), c0);
      && rigid.1 == c0 + ActiveRigid(bc)
      && Visited(rigid.0, Identity(|bc|)) == Iota(c0, ActiveRigid(bc))
      && forall i, k :: 0 <= i < |bc| && 0 <= k < 6 ==>
           (bc[i][k] < 0 ==> rigid.0[i][k] == -1) &&
           (bc[i][k] >= 0 ==> c0 <= rigid.0[i][k] < rigid.1)
  {
    var m := Marks(bc);
    var ord := Identity(|bc|);
    NumberedConsecutive(m, ord, c0);
    NumberedCount(m, ord, c0);
    MarksCount(bc, |bc|);
    assert ord[..|bc|] == ord;
    assert bc[..|bc|] == bc;
    NumberedKeepsSigns(m, ord, c0);
    forall i, k | 0 <= i < |bc| && 0 <= k < 6
      ensures bc[i][k] >= 0 ==> c0 <= Numbered(m, ord, c0).0[i][k] < Numbered(m, ord, c0).1
    {
      if bc[i][k] >= 0 {
        RigidInRange(m, c0, i, k);
      }
    }
  }

  /** An active rigid DOF is numbered between the start and the final counter. */
  lemma RigidInRange(m: seq<seq<int>>, c0: int, i: int, k: int)
    requires c0 >= 0 && 0 <= i < |m| && 0 <= k < |m[i]| && m[i][k] >= 0
    ensures var ord := Identity(|m|); c0 <= Numbered(m, ord, c0).0[i][k] < Numbered(m, ord, c0).1
  {
    var ord := Identity(|m|);
    NumberedRowClosedForm(m, ord, c0, i);
    assert ord[i] == i;
    SumFreeBound(m, ord, i);
    FreeCountPrefix(m[i], k);
    NumberedCount(m, ord, c0);
  }

  /** The rows before position k contribute no more than all rows. */
  lemma {:induction false} SumFreeBound(t: seq<seq<int>>, order: seq<int>, k: nat)
    requires InRange(order, |t|) && k < |order|
    ensures SumFree(t, order[..k]) + FreeCount(t[order[k]]) <= SumFree(t, order)
    decreases |order|
  {
    if k < |order| - 1 {
      assert order[..|order| - 1][..k] == order[..k];
      SumFreeBound(t, order[..|order| - 1], k);
    } else {
      assert order[..|order| - 1] == order[..k];
    }
  }

  /** A free slot's rank among the free slots of its row is below the row's free count. */
  lemma {:induction false} FreeCountPrefix(s: seq<int>, k: nat)
    requires k < |s| && s[k] >= 0
    ensures FreeCount(s[..k]) < FreeCount(s)
    decreases |s|
  {
    if k < |s| - 1 {
      assert s[..|s| - 1][..k] == s[..k];
      FreeCountPrefix(s[..|s| - 1], k);
    } else {
      assert s[..|s| - 1] == s[..k];
    }
  }

  /** After InitEquations a node attached to a rigid body has, in each rigid
      slot, the status of the body's matching DOF: fixed if that DOF is
      inactive, otherwise constrained to the rigid equation; its other slots
      keep what the node pass gave them. */
  lemma RigidNodeLinks(t: seq<seq<int>>, order: seq<int>, rid: seq<int>, bc: seq<seq<int>>, n: int, j: int)
    requires EquationInputs(t, order, rid, bc)
    requires 0 <= n < |t| && 0 <= j < |t[n]|
    ensures var e := EquationsSpec(t, order, rid, bc);
      && (rid[n] >= 0 && IsRigidSlot(j) && bc[rid[n]][RigidIndex(j)] < 0 ==> Decode(e.ids[n][j]) == Fixed)
      && (rid[n] >= 0 && IsRigidSlot(j) && bc[rid[n]][RigidIndex(j)] >= 0 ==>
            Decode(e.ids[n][j]).Constrained? && e.nreq <= Decode(e.ids[n][j]).eq < e.neq)
      && (rid[n] < 0 || !IsRigidSlot(j) ==> e.ids[n][j] == Numbered(t, order, 0).0[n][j])
  {
    NumberedKeepsSigns(t, order, 0);
    RigidNumbering(bc, Numbered(t, order, 0).1);
  }

  /** After InitEquations a prescribed rigid DOF (code > 0) holds -n-2 where n
      is the equation it was numbered with; the others keep their number or -1. */
  lemma PrescribedRigid(t: seq<seq<int>>, order: seq<int>, rid: seq<int>, bc: seq<seq<int>>, i: int, k: int)
    requires EquationInputs(t, order, rid, bc)
    requires 0 <= i < |bc| && 0 <= k < 6
    ensures var e := EquationsSpec(t, order, rid, bc);
      var n := Numbered(Marks(bc), Identity(|bc|), e.nreq).0[i][k];
      && (bc[i][k] > 0 ==> Decode(e.lm[i][k]) == Constrained(n) && e.nreq <= n < e.neq)
      && (bc[i][k] == 0 ==> Decode(e.lm[i][k]) == Free(n) && e.nreq <= n < e.neq)
      && (bc[i][k] < 0 ==> Decode(e.lm[i][k]) == Fixed)
  {
    NumberedKeepsSigns(t, order, 0);
    RigidNumbering(bc, Numbered(t, order, 0).1);
  }

  /** No node slot ends with an equation number outside the node equations,
      and a slot fixed or constrained on entry that no rigid body drives keeps
      its code. */
  lemma NodeStatusRange(t: seq<seq<int>>, order: seq<int>, rid: seq<int>, bc: seq<seq<int>>, n: int, j: int)
    requires EquationInputs(t, order, rid, bc) && Distinct(order)
    requires forall m :: 0 <= m < |t| ==> m in order
    requires 0 <= n < |t| && 0 <= j < |t[n]|
    ensures var e := EquationsSpec(t, order, rid, bc);
      && (e.ids[n][j] >= 0 ==> e.ids[n][j] < e.nreq)
      && (t[n][j] < 0 && (rid[n] < 0 || !IsRigidSlot(j)) ==> e.ids[n][j] == t[n][j])
  {
    NumberedKeepsSigns(t, order, 0);
    RigidNumbering(bc, Numbered(t, order, 0).1);
    if t[n][j] >= 0 {
      NodeNumberBelow(t, order, n, j);
    }
  }

  /** A free node slot of a visited node is numbered below the final counter. */
  lemma NodeNumberBelow(t: seq<seq<int>>, order: seq<int>, n: int, j: int)
    requires InRange(order, |t|) && Distinct(order) && n in order
    requires 0 <= n < |t| && 0 <= j < |t[n]| && t[n][j] >= 0
    ensures 0 <= Numbered(t, order, 0).0[n][j] < Numbered(t, order, 0).1
  {
    NumberedCount(t, order, 0);
    var k :| 0 <= k < |order| && order[k] == n;
    NumberedRowClosedForm(t, order, 0, k);
    SumFreeBound(t, order, k);
    FreeCountPrefix(t[n], j);
  }

  /** The rows of a two-dimensional array. */
  ghost function Table(a: array2<int>): (t: seq<seq<int>>)
    reads a
    ensures |t| == a.Length0 && Rows(t, a.Length1)
    ensures forall n, j :: 0 <= n < a.Length0 && 0 <= j < a.Length1 ==> t[n][j] == a[n, j]
  {
    seq(a.Length0, n requires 0 <= n < a.Length0 reads a =>
      seq(a.Length1, j requires 0 <= j < a.Length1 reads a => a[n, j]))
  }

  lemma TableEq(a: array2<int>, t: seq<seq<int>>)
    requires |t| == a.Length0 && Rows(t, a.Length1)
    requires forall n, j :: 0 <= n < a.Length0 && 0 <= j < a.Length1 ==> a[n, j] == t[n][j]
    ensures Table(a) == t
  {
    var u := Table(a);
    forall n | 0 <= n < |t| ensures u[n] == t[n] {
      assert forall j :: 0 <= j < |t[n]| ==> u[n][j] == t[n][j];
    }
  }

  /** Settings and counters of one analysis step (FEAnalysis). */
  class Analysis {
    var ntime: int        // number of time steps
    var dt0: real         // initial time step size
    var dt: real          // current time step size
    var autostep: bool
    var ntotref: int      // total stiffness reformations
    var ntotiter: int     // total non-linear iterations
    var ntimesteps: int   // time steps completed
    var ntotrhs: int      // total right-hand side evaluations

    constructor (ntime: int, dt0: real, autostep: bool)
      ensures this.ntime == ntime && this.dt0 == dt0 && this.autostep == autostep
      ensures dt == dt0 && ntotref == 0 && ntotiter == 0 && ntimesteps == 0 && ntotrhs == 0
    {
      this.ntime, this.dt0, this.autostep := ntime, dt0, autostep;
      dt, ntotref, ntotiter, ntimesteps, ntotrhs := dt0, 0, 0, 0, 0;
    }
  }

  /** Why FEM::Init rejects the step data; `step` is the 1-based step number. */
  datatype StepError = InvalidTimeSteps(step: int) | InvalidStepSize(step: int)

  datatype Option<T> = None | Some(value: T)

  /** A multi-point constraint DOF: node, local slot, and the equation code
      looked up in the node table. */
  datatype Dof = Dof(node: int, bc: int, neq: int)
  datatype SlaveDof = SlaveDof(dof: Dof, val: real)
  datatype LinearConstraint = LinearConstraint(master: Dof, slaves: seq<SlaveDof>)

  /** Every constraint names existing nodes and slots. */
  ghost predicate ConstraintRefs(linc: seq<LinearConstraint>, nodes: nat, ndofs: nat)
  {
    forall i :: 0 <= i < |linc| ==>
      && 0 <= linc[i].master.node < nodes && 0 <= linc[i].master.bc < ndofs
      && forall k :: 0 <= k < |linc[i].slaves| ==>
           0 <= linc[i].slaves[k].dof.node < nodes && 0 <= linc[i].slaves[k].dof.bc < ndofs
  }

  function Lookup(d: Dof, t: seq<seq<int>>): (r: Dof)
    requires 0 <= d.node < |t| && 0 <= d.bc < |t[d.node]|
    ensures r.node == d.node && r.bc == d.bc
  {
    d.(neq := t[d.node][d.bc])
  }

  /** A constraint with its master and slave equation codes copied from the node table. */
  function Resolve(lc: LinearConstraint, t: seq<seq<int>>): (r: LinearConstraint)
    requires 0 <= lc.master.node < |t| && 0 <= lc.master.bc < |t[lc.master.node]|
    requires forall k :: 0 <= k < |lc.slaves| ==>
      0 <= lc.slaves[k].dof.node < |t| && 0 <= lc.slaves[k].dof.bc < |t[lc.slaves[k].dof.node]|
    ensures |r.slaves| == |lc.slaves|
  {
    LinearConstraint(Lookup(lc.master, t),
      seq(|lc.slaves|, k requires 0 <= k < |lc.slaves| =>
        SlaveDof(Lookup(lc.slaves[k].dof, t), lc.slaves[k].val)))
  }

  /** The flat index of a constraint's master DOF in the table. */
  function Cell(lc: LinearConstraint, ndofs: nat): int
  {
    lc.master.node * ndofs + lc.master.bc
  }

  /** The last constraint whose master sits at cell c, or -1. */
  function LastMaster(linc: seq<LinearConstraint>, ndofs: nat, c: int): (v: int)
    ensures -1 <= v < |linc|
    decreases |linc|
  {
    if linc == [] then -1
    else if Cell(linc[|linc| - 1], ndofs) == c then |linc| - 1
    else LastMaster(linc[..|linc| - 1], ndofs, c)
  }

  /** The linear-constraint table m_LCT. */
  function ConstraintTable(linc: seq<LinearConstraint>, ndofs: nat, cells: nat): (r: seq<int>)
    ensures |r| == cells
  {
    seq(cells, c requires 0 <= c < cells => LastMaster(linc, ndofs, c))
  }

  /** What a table cell means: -1 when no constraint masters that cell,
      otherwise the index of the LAST constraint that does. */
  lemma {:induction false} LastMasterMeaning(linc: seq<LinearConstraint>, ndofs: nat, c: int)
    ensures var v := LastMaster(linc, ndofs, c);
      && (v == -1 <==> forall i :: 0 <= i < |linc| ==> Cell(linc[i], ndofs) != c)
      && (v != -1 ==> Cell(linc[v], ndofs) == c &&
                      forall i :: v < i < |linc| ==> Cell(linc[i], ndofs) != c)
    decreases |linc|
  {
    if linc != [] {
      var front := linc[..|linc| - 1];
      LastMasterMeaning(front, ndofs, c);
      assert forall i :: 0 <= i < |front| ==> front[i] == linc[i];
    }
  }

  /** Round trip of the table: the cell of constraint i holds i, unless a
      later constraint masters the same cell. */
  lemma ConstraintTableRoundTrip(linc: seq<LinearConstraint>, ndofs: nat, cells: nat, i: int)
    requires 0 <= i < |linc| && 0 <= Cell(linc[i], ndofs) < cells
    requires forall l :: i < l < |linc| ==> Cell(linc[l], ndofs) != Cell(linc[i], ndofs)
    ensures ConstraintTable(linc, ndofs, cells)[Cell(linc[i], ndofs)] == i
  {
    LastMasterMeaning(linc, ndofs, Cell(linc[i], ndofs));
  }

  lemma CellInRange(node: int, bc: int, nodes: nat, ndofs: nat)
    requires 0 <= node < nodes && 0 <= bc < ndofs
    ensures 0 <= node * ndofs + bc < nodes * ndofs
  {
    assert node * ndofs <= (nodes - 1) * ndofs;
  }

  /** Plane-strain fixing: slot bc of every node becomes -1 (fixed). */
  function PlaneStrain(t: seq<seq<int>>, bc: int): (r: seq<seq<int>>)
    requires bc < 0 || forall n :: 0 <= n < |t| ==> bc < |t[n]|
    ensures |r| == |t|
  {
    if bc < 0 then t else seq(|t|, n requires 0 <= n < |t| => t[n][bc := -1])
  }

  /** The FEM model: node DOF table, rigid bodies, linear constraints, steps. */
  class Fem {
    const ndofs: nat              // MAX_NDOFS, slots per node
    var id: array2<int>           // m_ID of every node: id[node, slot]
    var rid: seq<int>             // m_rid of every node (rigid body, or < 0)
    var lm: array2<int>           // m_LM of every rigid body: lm[body, dof]
    var neq: int                  // m_neq
    var nreq: int                 // m_nreq
    var bwopt: bool               // m_bwopt: number nodes in bandwidth-reducing order
    var nplaneStrain: int         // m_nplane_strain: slot fixed in plane strain, or < 0
    var linc: seq<LinearConstraint>  // m_LinC
    var lct: seq<int>             // m_LCT
    var lca: seq<int>             // m_LCA: index of the constraint each entry refers to
    var steps: seq<Analysis>      // m_Step
    var step: Analysis            // m_pStep, the current step
    var ftime: real               // m_ftime
    var ut: array2<real>          // m_Ut of every rigid body
    var up: array2<real>          // m_Up of every rigid body

    ghost predicate Valid()
      reads this
    {
      && ndofs >= 10 && id.Length1 == ndofs && lm.Length1 == 6 && id != lm
      && |rid| == id.Length0 && RigidIds(rid, lm.Length0)
      && nplaneStrain < ndofs
      && ut.Length0 == lm.Length0 && up.Length0 == lm.Length0
      && ut.Length1 == 6 && up.Length1 == 6 && ut != up
    }

    constructor (ndofs: nat, codes: seq<seq<int>>, rid: seq<int>, nrb: nat, steps: seq<Analysis>, step: Analysis)
      requires ndofs >= 10 && Rows(codes, ndofs) && |rid| == |codes| && RigidIds(rid, nrb)
      ensures Valid() && Table(id) == codes && lm.Length0 == nrb
      ensures this.rid == rid && this.steps == steps && this.step == step
      ensures linc == [] && lct == [] && lca == [] && !bwopt && nplaneStrain < 0
      ensures fresh(id) && fresh(lm) && fresh(ut) && fresh(up)
    {
      this.ndofs := ndofs;
      id := new int[|codes|, ndofs]((n, j) requires 0 <= n < |codes| && 0 <= j < ndofs => codes[n][j]);
      this.rid := rid;
      lm := new int[nrb, 6]((i, k) => -1);
      ut := new real[nrb, 6]((i, k) => 0.0);
      up := new real[nrb, 6]((i, k) => 0.0);
      neq, nreq, bwopt, nplaneStrain := 0, 0, false, -1;
      linc, lct, lca := [], [], [];
      this.steps, this.step, ftime := steps, step, 0.0;
      new;
      TableEq(id, codes);
    }

    /** Phase 1 of InitEquations: free node DOFs are numbered with the running
        counter, node by node in plain order or in the order of P. */
    method NumberNodes(p: seq<int>)
      requires bwopt ==> |p| == id.Length0 && InRange(p, id.Length0)
      modifies this`neq, id
      ensures Table(id) == Numbered(old(Table(id)), NodeOrder(bwopt, p, id.Length0), 0).0
      ensures neq == Numbered(old(Table(id)), NodeOrder(bwopt, p, id.Length0), 0).1
    {
      ghost var t0 := Table(id);
      ghost var order := NodeOrder(bwopt, p, id.Length0);
      assert |order| == id.Length0 && InRange(order, |t0|);
      neq := 0;
      var i := 0;
      while i < id.Length0
        invariant 0 <= i <= id.Length0 && InRange(order[..i], |t0|)
        invariant neq == Numbered(t0, order[..i], 0).1
        invariant Table(id) == Numbered(t0, order[..i], 0).0
      {
        var n := if bwopt then p[i] else i;
        assert n == order[i];
        NumberSlots(n, Table(id)[n]);
        NumberedStep(t0, order, 0, i);
        i := i + 1;
      }
      assert order[..id.Length0] == order;
    }

    /** The inner loop of the node pass: the free slots of node n, whose
        current codes are `row`, take the next counter values. */
    method NumberSlots(n: int, ghost row: seq<int>)
      requires 0 <= n < id.Length0 && row == Table(id)[n]
      modifies this`neq, id
      ensures neq == old(neq) + FreeCount(row)
      ensures Table(id) == old(Table(id))[n := NumberRow(row, old(neq))]
    {
      ghost var t := Table(id);
      var c := NumberRowSlots(n, row, neq);
      TableEq(id, t[n := NumberRow(row, neq)]);
      neq := c;
    }

    /** The slot loop itself, on node n's row of the table, counting from c0. */
    method NumberRowSlots(n: int, ghost row: seq<int>, c0: int) returns (c: int)
      requires 0 <= n < id.Length0 && |row| == id.Length1
      requires forall k :: 0 <= k < id.Length1 ==> id[n, k] == row[k]
      modifies id
      ensures c == c0 + FreeCount(row)
      ensures forall k :: 0 <= k < id.Length1 ==> id[n, k] == NumberRow(row, c0)[k]
      ensures forall m, k :: 0 <= m < id.Length0 && m != n && 0 <= k < id.Length1 ==> id[m, k] == old(id[m, k])
    {
      c := c0;
      var j := 0;
      while j < id.Length1
        invariant 0 <= j <= id.Length1
        invariant forall m, k :: 0 <= m < id.Length0 && m != n && 0 <= k < id.Length1 ==> id[m, k] == old(id[m, k])
        invariant forall k :: 0 <= k < j ==> id[n, k] == NumberRow(row, c0)[k]
        invariant forall k :: j <= k < id.Length1 ==> id[n, k] == row[k]
        invariant c == c0 + FreeCount(row[..j])
      {
        NumberRowAt(row, c0, j);
        if id[n, j] >= 0 {
          id[n, j] := c;
          c := c + 1;
        }
        j := j + 1;
      }
      assert row[..id.Length1] == row;
    }

    /** Phase 2 of InitEquations: every active rigid DOF (m_bc >= 0) takes the
        next equation number after the node equations, the others -1. */
    method NumberRigidBodies(bc: seq<seq<int>>)
      requires lm.Length1 == 6 && RigidCodes(bc, lm.Length0)
      modifies this`neq, this`nreq, lm
      ensures nreq == old(neq)
      ensures Table(lm) == Numbered(Marks(bc), Identity(|bc|), old(neq)).0
      ensures neq == Numbered(Marks(bc), Identity(|bc|), old(neq)).1
    {
      nreq := neq;
      ghost var m := Marks(bc);
      ghost var ord := Identity(|bc|);
      var i := 0;
      while i < lm.Length0
        invariant 0 <= i <= lm.Length0 && nreq == old(neq) && InRange(ord[..i], |m|)
        invariant forall b, k :: 0 <= b < i && 0 <= k < 6 ==> lm[b, k] == Numbered(m, ord[..i], nreq).0[b][k]
        invariant neq == Numbered(m, ord[..i], nreq).1
      {
        ghost var before := Numbered(m, ord[..i], nreq);
        assert i !in ord[..i] by {
          forall x | 0 <= x < i ensures ord[..i][x] != i { }
        }
        NumberedUnvisited(m, ord[..i], nreq, i);
        NumberBody(i, bc);
        NumberedStep(m, ord, nreq, i);
        i := i + 1;
      }
      assert ord[..lm.Length0] == ord;
      TableEq(lm, Numbered(m, ord, nreq).0);
    }

    /** The inner loop of the rigid pass: the six DOFs of body i. */
    method NumberBody(i: int, bc: seq<seq<int>>)
      requires lm.Length1 == 6 && RigidCodes(bc, lm.Length0) && 0 <= i < lm.Length0
      modifies this`neq, lm
      ensures neq == old(neq) + FreeCount(Marks(bc)[i])
      ensures forall b, k :: 0 <= b < lm.Length0 && 0 <= k < 6 ==>
        lm[b, k] == (if b == i then NumberRow(Marks(bc)[i], old(neq))[k] else old(lm[b, k]))
    {
      ghost var row := Marks(bc)[i];
      var j := 0;
      while j < 6
        invariant 0 <= j <= 6
        invariant forall b, k :: 0 <= b < lm.Length0 && 0 <= k < 6 ==>
          lm[b, k] == (if b == i && k < j then NumberRow(row, old(neq))[k] else old(lm[b, k]))
        invariant neq == old(neq) + FreeCount(row[..j])
      {
        if bc[i][j] >= 0 {
          lm[i, j] := neq;
          neq := neq + 1;
        } else {
          lm[i, j] := -1;
        }
        j := j + 1;
        assert row[..j][..j - 1] == row[..j - 1];
      }
      assert row[..6] == row;
    }

    /** Phase 3 of InitEquations: a node attached to a rigid body has its
        slots 0,1,2,7,8,9 pointed at the body's six DOFs. */
    method AttachRigidNodes()
      requires id.Length1 >= 10 && lm.Length1 == 6 && id != lm
      requires |rid| == id.Length0 && RigidIds(rid, lm.Length0)
      modifies id
      ensures Table(id) == AttachRigid(old(Table(id)), rid, Table(lm))
    {
      ghost var t0 := Table(id);
      ghost var rigid := Table(lm);
      ghost var goal := AttachRigid(t0, rid, rigid);
      var i := 0;
      while i < id.Length0
        invariant 0 <= i <= id.Length0
        invariant forall n, j :: 0 <= n < id.Length0 && 0 <= j < id.Length1 ==>
          id[n, j] == (if n < i then goal[n][j] else t0[n][j])
      {
        if rid[i] >= 0 {
          AttachNode(i);
        }
        i := i + 1;
      }
      TableEq(id, goal);
    }

    /** One node of the rigid-attachment loop: slots 0,1,2,7,8,9 of node i
        take -LM-2 of its body's six DOFs. */
    method AttachNode(i: int)
      requires id.Length1 >= 10 && lm.Length1 == 6 && id != lm
      requires 0 <= i < id.Length0 && i < |rid| && 0 <= rid[i] < lm.Length0
      modifies id
      ensures forall j :: 0 <= j < id.Length1 ==>
        id[i, j] == if IsRigidSlot(j) then -lm[rid[i], RigidIndex(j)] - 2 else old(id[i, j])
      ensures forall n, j :: 0 <= n < id.Length0 && n != i && 0 <= j < id.Length1 ==> id[n, j] == old(id[n, j])
    {
      var b := rid[i];
      id[i, 0] := -lm[b, 0] - 2;
      id[i, 1] := -lm[b, 1] - 2;
      id[i, 2] := -lm[b, 2] - 2;
      id[i, 7] := -lm[b, 3] - 2;
      id[i, 8] := -lm[b, 4] - 2;
      id[i, 9] := -lm[b, 5] - 2;
    }

    /** Phase 4 of InitEquations: a prescribed rigid DOF (m_bc > 0) trades its
        equation number n for -n-2. */
    method PrescribeRigid(bc: seq<seq<int>>)
      requires lm.Length1 == 6 && RigidCodes(bc, lm.Length0)
      modifies lm
      ensures Table(lm) == Prescribe(old(Table(lm)), bc)
    {
      ghost var l0 := Table(lm);
      var i := 0;
      while i < lm.Length0
        invariant 0 <= i <= lm.Length0
        invariant forall b, k :: 0 <= b < lm.Length0 && 0 <= k < 6 ==>
          lm[b, k] == (if b < i then Prescribe(l0, bc)[b][k] else l0[b][k])
      {
        var j := 0;
        while j < 6
          invariant 0 <= j <= 6
          invariant forall b, k :: 0 <= b < lm.Length0 && 0 <= k < 6 ==>
            lm[b, k] == (if b < i || (b == i && k < j) then Prescribe(l0, bc)[b][k] else l0[b][k])
        {
          var n := lm[i, j];
          if bc[i][j] > 0 {
            lm[i, j] := -n - 2;
          }
          j := j + 1;
        }
        i := i + 1;
      }
      TableEq(lm, Prescribe(l0, bc));
    }

    /** FEM::InitEquations. `p` is the node permutation of the bandwidth
        reordering (used when bwopt is set); `bc` holds the m_bc codes of each
        rigid body's material. */
    method InitEquations(p: seq<int>, bc: seq<seq<int>>) returns (ok: bool)
      requires Valid() && RigidCodes(bc, lm.Length0)
      requires bwopt ==> |p| == id.Length0 && InRange(p, id.Length0)
      modifies this`neq, this`nreq, id, lm
      ensures ok
      ensures var e := EquationsSpec(old(Table(id)), NodeOrder(bwopt, p, id.Length0), rid, bc);
        Table(id) == e.ids && Table(lm) == e.lm && nreq == e.nreq && neq == e.neq
    {
      NumberNodes(p);
      NumberRigidBodies(bc);
      AttachRigidNodes();
      PrescribeRigid(bc);
      ok := true;
    }

    /** FEM::InitConstraints: copies each constraint's master and slave
        equation codes from the node table, then builds m_LCT and m_LCA. */
    method InitConstraints() returns (ok: bool)
      requires Valid() && ConstraintRefs(linc, id.Length0, ndofs)
      requires forall i :: 0 <= i < |linc| ==> id[linc[i].master.node, linc[i].master.bc] == -1
      modifies this`linc, this`lct, this`lca
      ensures ok
      ensures old(linc) == [] ==> linc == old(linc) && lct == old(lct) && lca == old(lca)
      ensures old(linc) != [] ==>
        && |linc| == |old(linc)|
        && (forall i :: 0 <= i < |linc| ==> linc[i] == Resolve(old(linc)[i], Table(id)))
        && lct == ConstraintTable(linc, ndofs, id.Length0 * ndofs)
        && lca == Identity(|linc|)
    {
      ok := true;
      var nlin := |linc|;
      if nlin == 0 {
        return;
      }
      ResolveAll();
      BuildConstraintTable();
      lca := seq(nlin, k => 0);
      var i := 0;
      while i < nlin
        modifies this`lca
        invariant 0 <= i <= nlin && |lca| == nlin
        invariant forall k :: 0 <= k < i ==> lca[k] == k
      {
        lca := lca[i := i];
        i := i + 1;
      }
    }

    /** First loop of InitConstraints: every constraint's master and slave
        DOFs take their equation codes from the node table. */
    method ResolveAll()
      requires Valid() && ConstraintRefs(linc, id.Length0, ndofs)
      requires forall i :: 0 <= i < |linc| ==> id[linc[i].master.node, linc[i].master.bc] == -1
      modifies this`linc
      ensures |linc| == |old(linc)|
      ensures forall i :: 0 <= i < |linc| ==> linc[i] == Resolve(old(linc)[i], Table(id))
      ensures forall i :: 0 <= i < |linc| ==> linc[i].master.neq == -1
    {
      ghost var t := Table(id);
      ghost var l0 := linc;
      var i := 0;
      while i < |linc|
        invariant 0 <= i <= |linc| && |linc| == |l0|
        invariant forall l :: 0 <= l < i ==> linc[l] == Resolve(l0[l], t)
        invariant forall l :: i <= l < |linc| ==> linc[l] == l0[l]
      {
        var lc := linc[i];
        lc := lc.(master := lc.master.(neq := id[lc.master.node, lc.master.bc]));
        assert lc.master.neq == -1;
        var slaves := ResolveSlaves(lc.slaves);
        linc := linc[i := lc.(slaves := slaves)];
        i := i + 1;
      }
    }

    /** Inner loop of the resolve pass: the slave DOFs of one constraint take
        their equation codes from the node table. */
    method ResolveSlaves(slaves0: seq<SlaveDof>) returns (slaves: seq<SlaveDof>)
      requires Valid()
      requires forall k :: 0 <= k < |slaves0| ==>
        0 <= slaves0[k].dof.node < id.Length0 && 0 <= slaves0[k].dof.bc < ndofs
      ensures |slaves| == |slaves0|
      ensures forall k :: 0 <= k < |slaves| ==>
        slaves[k] == SlaveDof(Lookup(slaves0[k].dof, Table(id)), slaves0[k].val)
    {
      slaves := slaves0;
      var n := 0;
      while n < |slaves|
        invariant 0 <= n <= |slaves| && |slaves| == |slaves0|
        invariant forall k :: 0 <= k < n ==>
          slaves[k] == SlaveDof(Lookup(slaves0[k].dof, Table(id)), slaves0[k].val)
        invariant forall k :: n <= k < |slaves| ==> slaves[k] == slaves0[k]
      {
        var sn := slaves[n];
        slaves := slaves[n := sn.(dof := sn.dof.(neq := id[sn.dof.node, sn.dof.bc]))];
        n := n + 1;
      }
    }

    /** Second loop of InitConstraints: LCT maps each master DOF's cell to
        the last constraint on it, -1 elsewhere. */
    method BuildConstraintTable()
      requires Valid() && ConstraintRefs(linc, id.Length0, ndofs)
      modifies this`lct
      ensures lct == ConstraintTable(linc, ndofs, id.Length0 * ndofs)
    {
      lct := seq(id.Length0 * ndofs, c => -1);
      var i := 0;
      while i < |linc|
        invariant 0 <= i <= |linc|
        invariant lct == ConstraintTable(linc[..i], ndofs, id.Length0 * ndofs)
      {
        CellInRange(linc[i].master.node, linc[i].master.bc, id.Length0, ndofs);
        lct := lct[linc[i].master.node * ndofs + linc[i].master.bc := i];
        assert linc[..i + 1][..i] == linc[..i];
        i := i + 1;
      }
      assert linc[..|linc|] == linc;
    }

    /** The step-data check of FEM::Init: the first step with a non-positive
        number of time steps or time step size is reported. */
    method CheckSteps() returns (r: Option<StepError>)
      ensures r == None <==> forall k :: 0 <= k < |steps| ==> steps[k].ntime > 0 && steps[k].dt0 > 0.0
      ensures r.Some? ==>
        var k := r.value.step - 1;
        && 0 <= k < |steps|
        && (forall l :: 0 <= l < k ==> steps[l].ntime > 0 && steps[l].dt0 > 0.0)
        && (r.value.InvalidTimeSteps? <==> steps[k].ntime <= 0)
        && (r.value.InvalidStepSize? ==> steps[k].dt0 <= 0.0)
    {
      var i := 0;
      while i < |steps|
        invariant 0 <= i <= |steps|
        invariant forall l :: 0 <= l < i ==> steps[l].ntime > 0 && steps[l].dt0 > 0.0
      {
        var s := steps[i];
        if s.ntime <= 0 {
          return Some(InvalidTimeSteps(i + 1));
        }
        if s.dt0 <= 0.0 {
          return Some(InvalidStepSize(i + 1));
        }
        i := i + 1;
      }
      return None;
    }

    /** The part of FEM::Init modelled here: the step-data check, then in
        plane-strain mode slot m_nplane_strain of every node is fixed. */
    method Init() returns (ok: bool)
      requires Valid()
      modifies id
      ensures ok <==> forall k :: 0 <= k < |steps| ==> steps[k].ntime > 0 && steps[k].dt0 > 0.0
      ensures !ok ==> Table(id) == old(Table(id))
      ensures ok ==> Table(id) == PlaneStrain(old(Table(id)), nplaneStrain)
    {
      var e := CheckSteps();
      if e.Some? {
        return false;
      }
      if nplaneStrain >= 0 {
        ghost var t0 := Table(id);
        var bc := nplaneStrain;
        var i := 0;
        while i < id.Length0
          invariant 0 <= i <= id.Length0
          invariant forall n, j :: 0 <= n < id.Length0 && 0 <= j < id.Length1 ==>
            id[n, j] == (if n < i then PlaneStrain(t0, bc)[n][j] else t0[n][j])
        {
          id[i, bc] := -1;
          i := i + 1;
        }
        TableEq(id, PlaneStrain(t0, bc));
      }
      ok := true;
    }

    /** Rigid body i's total and previous displacements become zero. */
    method ZeroDisplacements(i: int)
      requires Valid() && 0 <= i < ut.Length0
      modifies ut, up
      ensures forall k :: 0 <= k < 6 ==> ut[i, k] == 0.0 && up[i, k] == 0.0
      ensures forall b, k :: 0 <= b < ut.Length0 && b != i && 0 <= k < 6 ==>
        ut[b, k] == old(ut[b, k]) && up[b, k] == old(up[b, k])
    {
      up[i, 0] := 0.0; ut[i, 0] := 0.0;
      up[i, 1] := 0.0; ut[i, 1] := 0.0;
      up[i, 2] := 0.0; ut[i, 2] := 0.0;
      up[i, 3] := 0.0; ut[i, 3] := 0.0;
      up[i, 4] := 0.0; ut[i, 4] := 0.0;
      up[i, 5] := 0.0; ut[i, 5] := 0.0;
    }

    /** The counter and rigid-body part of FEM::Reset. */
    method Reset() returns (ok: bool)
      requires Valid()
      modifies this`ftime, step, ut, up
      ensures ok && ftime == 0.0
      ensures step.dt == old(step.dt0) && step.dt0 == old(step.dt0)
      ensures step.ntotref == 0 && step.ntotiter == 0 && step.ntimesteps == 0 && step.ntotrhs == 0
      ensures step.ntime == old(step.ntime) && step.autostep == old(step.autostep)
      ensures forall i, k :: 0 <= i < ut.Length0 && 0 <= k < 6 ==> ut[i, k] == 0.0 && up[i, k] == 0.0
    {
      var i := 0;
      while i < ut.Length0
        modifies ut, up
        invariant 0 <= i <= ut.Length0
        invariant forall b, k :: 0 <= b < i && 0 <= k < 6 ==> ut[b, k] == 0.0 && up[b, k] == 0.0
      {
        ZeroDisplacements(i);
        i := i + 1;
      }
      ftime := 0.0;
      step.dt := step.dt0;
      step.ntotref := 0;
      step.ntotiter := 0;
      step.ntimesteps := 0;
      step.ntotrhs := 0;
      ok := true;
    }
  }
}
