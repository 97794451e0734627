/** The MeshData section of the FEBio input reader
    (FEBioXML/FEBioMeshDataSection.cpp): a table from element ID to element,
    the element-data records read from <elem> and <elset> tags, and the
    shell-thickness and fibre data they carry onto the elements. */
module MeshDataSection {

  /** The element classes the section tells apart (FE_ELEM_SHELL,
      FE_ELEM_FERGUSON_SHELL, anything else). */
  datatype ElemClass = Shell | FergusonShell | OtherClass

  /** An element: its 1-based ID, its class and its node count. */
  datatype Elem = Elem(id: int, cls: ElemClass, nodes: nat)

  /** The mesh: its domains' elements and its named element sets (1-based IDs). */
  datatype Mesh = Mesh(domains: seq<seq<Elem>>, sets: map<string, seq<int>>)

  /** ELEMENT_DATA: a 0-based element index and the values read for it. */
  datatype ElementData = ElementData(nid: int, val: seq<real>)

  datatype Vec3 = Vec3(x: real, y: real, z: real)

  /** XMLReader::InvalidTag and XMLReader::InvalidAttributeValue. */
  datatype Error = InvalidTag | InvalidAttributeValue(attr: string)

  datatype Result<T> = Ok(value: T) | Err(error: Error)

  datatype Option<T> = None | Some(value: T)

  /** A child of an <elem_data> tag: <elem id=..>, <elset set=..>, or any
      other tag. The id attribute is given as the number it converts to. */
  datatype DataTag =
    | ElemTag(id: int, values: seq<real>)
    | ElsetTag(setName: string, values: seq<real>)
    | OtherData(name: string)

  /** A child of the MeshData tag: <elem_data type=..> or any other tag. */
  datatype SectionTag = ElemData(kind: string, items: seq<DataTag>) | OtherSection(name: string)

  /** The first file version with this section, 2.5. */
  const RequiredVersion: int := 0x0205

  /** The number of values a fibre record carries. */
  const FiberValues: nat := 3

  // -------------------------------------------------------------- the mesh

  /** mesh.Elements(), in domain order. */
  function Elements(domains: seq<seq<Elem>>): seq<Elem>
  {
    if domains == [] then [] else Elements(domains[..|domains| - 1]) + domains[|domains| - 1]
  }

  /** The element IDs are exactly 1..nelems, each once: what the table
      build's indexing and its assertion rely on. */
  ghost predicate IdsExact(elems: seq<Elem>)
  {
    (forall i :: 0 <= i < |elems| ==> 1 <= elems[i].id <= |elems|) &&
    (forall i, j :: 0 <= i < j < |elems| ==> elems[i].id != elems[j].id) &&
    (forall k :: 1 <= k <= |elems| ==> HasId(elems, k))
  }

  ghost predicate HasId(elems: seq<Elem>, k: int)
  {
    exists i :: 0 <= i < |elems| && elems[i].id == k
  }

  /** Every member of every element set is a 1-based ID of the mesh. */
  ghost predicate SetsInRange(m: Mesh)
  {
    forall name :: name in m.sets ==>
      forall j :: 0 <= j < |m.sets[name]| ==> 1 <= m.sets[name][j] <= |Elements(m.domains)|
  }

  ghost predicate MeshWellFormed(m: Mesh)
  {
    IdsExact(Elements(m.domains)) && SetsInRange(m)
  }

  // ----------------------------------------------------------------- table

  ghost predicate IdsIn(elems: seq<Elem>, n: int)
  {
    forall i :: 0 <= i < |elems| ==> 1 <= elems[i].id <= n
  }

  /** m_pelem after entering the elements in order: slot ID-1 holds the element. */
  function Table(elems: seq<Elem>, n: nat): (t: seq<Option<Elem>>)
    requires IdsIn(elems, n)
    ensures |t| == n
  {
    if elems == [] then seq(n, _ => None)
    else
      var last := elems[|elems| - 1];
      Table(elems[..|elems| - 1], n)[last.id - 1 := Some(last)]
  }

  /** With distinct IDs, every element sits in slot ID-1, and a filled slot
      holds an element of the list whose ID is the slot plus one. */
  lemma {:induction false} TableContents(elems: seq<Elem>, n: nat)
    requires IdsIn(elems, n)
    requires forall i, j :: 0 <= i < j < |elems| ==> elems[i].id != elems[j].id
    ensures forall i :: 0 <= i < |elems| ==> Table(elems, n)[elems[i].id - 1] == Some(elems[i])
    ensures forall k :: 0 <= k < n && Table(elems, n)[k].Some? ==>
      Table(elems, n)[k].value.id == k + 1 && Table(elems, n)[k].value in elems
  {
    if elems != [] {
      var m := |elems| - 1;
      var front := elems[..m];
      assert IdsIn(front, n);
      TableContents(front, n);
      forall i | 0 <= i < m
        ensures Table(elems, n)[elems[i].id - 1] == Some(elems[i])
      {
        assert front[i] == elems[i];
      }
    }
  }

  /** With IDs exactly 1..nelems the table has no empty slot. */
  lemma TableFull(elems: seq<Elem>)
    requires IdsExact(elems)
    ensures forall k :: 0 <= k < |elems| ==> Table(elems, |elems|)[k].Some? && Table(elems, |elems|)[k].value.id == k + 1
  {
    TableContents(elems, |elems|);
    forall k | 0 <= k < |elems|
      ensures Table(elems, |elems|)[k].Some?
    {
      assert HasId(elems, k + 1);
      var i :| 0 <= i < |elems| && elems[i].id == k + 1;
    }
  }

  /** A prefix of the mesh's elements has IDs in range and distinct. */
  lemma PrefixIds(all: seq<Elem>, p: seq<Elem>)
    requires IdsExact(all) && p <= all
    ensures IdsIn(p, |all|)
    ensures forall i, j :: 0 <= i < j < |p| ==> p[i].id != p[j].id
  {
    assert forall i :: 0 <= i < |p| ==> p[i] == all[i];
  }

  /** Entering the next element of the mesh: its slot is still empty. */
  lemma TableStep(all: seq<Elem>, seen: seq<Elem>, el: Elem)
    requires IdsExact(all) && seen + [el] <= all
    ensures IdsIn(seen, |all|) && IdsIn(seen + [el], |all|) && 1 <= el.id <= |all|
    ensures Table(seen, |all|)[el.id - 1] == None
    ensures Table(seen + [el], |all|) == Table(seen, |all|)[el.id - 1 := Some(el)]
  {
    PrefixIds(all, seen + [el]);
    var n := |all|;
    assert (seen + [el])[..|seen|] == seen;
    assert (seen + [el])[|seen|] == el;
    forall e | e in seen
      ensures e.id != el.id
    {
      var k :| 0 <= k < |seen| && seen[k] == e;
      assert (seen + [el])[k] == e;
    }
    TableContents(seen, n);
  }

  lemma ElementsSnoc(domains: seq<seq<Elem>>, i: int)
    requires 0 <= i < |domains|
    ensures Elements(domains[..i + 1]) == Elements(domains[..i]) + domains[i]
  {
    assert domains[..i + 1][..i] == domains[..i];
  }

  lemma {:induction false} ElementsPrefix(domains: seq<seq<Elem>>, i: int)
    requires 0 <= i <= |domains|
    ensures Elements(domains[..i]) <= Elements(domains)
    decreases |domains| - i
  {
    if i < |domains| {
      ElementsPrefix(domains, i + 1);
      ElementsSnoc(domains, i);
    } else {
      assert domains[..i] == domains;
    }
  }

  // --------------------------------------------------------- element data

  /** tag.value(d, n): the first n of the tag's values. */
  function Take(values: seq<real>, n: nat): (r: seq<real>)
    ensures |r| <= n && r <= values
    ensures |values| <= n ==> r == values
  {
    if |values| > n then values[..n] else values
  }

  /** One record per member of the set, each with the same values. */
  function Expand(members: seq<int>, d: seq<real>): (r: seq<ElementData>)
    ensures |r| == |members|
    ensures forall j :: 0 <= j < |r| ==> r[j].nid == members[j] - 1 && r[j].val == d
  {
    seq(|members|, j requires 0 <= j < |members| => ElementData(members[j] - 1, d))
  }

  /** The records one child tag of <elem_data> yields. */
  function Item(m: Mesh, t: DataTag, nvalues: nat): (r: Result<seq<ElementData>>)
  {
    match t
    case ElemTag(id, values) =>
      var n := id - 1;
      if n < 0 || n >= |Elements(m.domains)| then Err(InvalidAttributeValue("id"))
      else Ok([ElementData(n, Take(values, nvalues))])
    case ElsetTag(name, values) =>
      if name !in m.sets then Err(InvalidAttributeValue("set"))
      else Ok(Expand(m.sets[name], Take(values, nvalues)))
    case OtherData(_) => Err(InvalidTag)
  }

  /** The records of a list of child tags, or the first error. */
  function Records(m: Mesh, items: seq<DataTag>, nvalues: nat): Result<seq<ElementData>>
  {
    if items == [] then Ok([])
    else
      match Item(m, items[0], nvalues)
      case Err(e) => Err(e)
      case Ok(rs) =>
        match Records(m, items[1..], nvalues)
        case Err(e) => Err(e)
        case Ok(rest) => Ok(rs + rest)
  }

  /** ParseElementData: an <elem_data> without children is rejected (the
      reader reaches the end tag); otherwise the records of its children. */
  function ElementDataSpec(m: Mesh, items: seq<DataTag>, nvalues: nat): Result<seq<ElementData>>
  {
    if items == [] then Err(InvalidTag) else Records(m, items, nvalues)
  }

  function Prepend(front: seq<ElementData>, r: Result<seq<ElementData>>): Result<seq<ElementData>>
  {
    match r
    case Err(e) => Err(e)
    case Ok(rest) => Ok(front + rest)
  }

  lemma RecordsUnfold(m: Mesh, items: seq<DataTag>, i: int, nvalues: nat)
    requires 0 <= i < |items|
    ensures Records(m, items[i..], nvalues) ==
      match Item(m, items[i], nvalues)
      case Err(e) => Err(e)
      case Ok(rs) => Prepend(rs, Records(m, items[i + 1..], nvalues))
  {
    assert items[i..][0] == items[i] && items[i..][1..] == items[i + 1..];
  }

  lemma PrependPrepend(a: seq<ElementData>, b: seq<ElementData>, r: Result<seq<ElementData>>)
    ensures Prepend(a, Prepend(b, r)) == Prepend(a + b, r)
  {
    if r.Ok? {
      assert a + (b + r.value) == (a + b) + r.value;
    }
  }

  /** The records of an <elem> tag or an <elset> tag, stated per tag: an
      <elem> needs a 1-based ID of the mesh and gives one record for it; an
      <elset> needs a known set and gives one record per member, in set
      order, with identical values. */
  lemma ItemMeaning(m: Mesh, t: DataTag, nvalues: nat)
    ensures t.ElemTag? ==>
      (Item(m, t, nvalues).Ok? <==> 1 <= t.id <= |Elements(m.domains)|)
    ensures t.ElemTag? && Item(m, t, nvalues).Ok? ==>
      |Item(m, t, nvalues).value| == 1 && Item(m, t, nvalues).value[0].nid == t.id - 1
    ensures t.ElsetTag? ==> (Item(m, t, nvalues).Ok? <==> t.setName in m.sets)
    ensures t.ElsetTag? && t.setName in m.sets ==>
      var rs := Item(m, t, nvalues).value;
      |rs| == |m.sets[t.setName]| &&
      forall j :: 0 <= j < |rs| ==> rs[j].nid == m.sets[t.setName][j] - 1 && rs[j].val == rs[0].val
    ensures t.OtherData? ==> Item(m, t, nvalues) == Err(InvalidTag)
  {
  }

  /** The records are rejected exactly when some child tag is. */
  lemma {:induction false} RecordsOkIff(m: Mesh, items: seq<DataTag>, nvalues: nat)
    ensures Records(m, items, nvalues).Ok? <==> forall i :: 0 <= i < |items| ==> Item(m, items[i], nvalues).Ok?
  {
    if items != [] {
      RecordsOkIff(m, items[1..], nvalues);
      assert forall i :: 1 <= i < |items| ==> items[1..][i - 1] == items[i];
    }
  }

  /** Every record names an element of the mesh (0-based) and carries at
      most nvalues values. */
  lemma {:induction false} RecordsInRange(m: Mesh, items: seq<DataTag>, nvalues: nat)
    requires SetsInRange(m)
    ensures Records(m, items, nvalues).Ok? ==> Fit(Records(m, items, nvalues).value, |Elements(m.domains)|, nvalues)
  {
    if items != [] {
      RecordsInRange(m, items[1..], nvalues);
      match Item(m, items[0], nvalues)
      case Err(_) =>
      case Ok(rs) =>
        assert Fit(rs, |Elements(m.domains)|, nvalues) by {
          if items[0].ElsetTag? {
            var members := m.sets[items[0].setName];
            assert forall j :: 0 <= j < |members| ==> 1 <= members[j] <= |Elements(m.domains)|;
          }
        }
    }
  }

  /** Every record names one of n elements and carries at most nvalues values. */
  ghost predicate Fit(rs: seq<ElementData>, n: int, nvalues: nat)
  {
    forall i :: 0 <= i < |rs| ==> 0 <= rs[i].nid < n && |rs[i].val| <= nvalues
  }

  /** The number of records: one per <elem>, one per member of each <elset>. */
  function Count(m: Mesh, items: seq<DataTag>): nat
  {
    if items == [] then 0
    else
      (match items[0]
       case ElemTag(_, _) => 1
       case ElsetTag(name, _) => if name in m.sets then |m.sets[name]| else 0
       case OtherData(_) => 0) + Count(m, items[1..])
  }

  lemma {:induction false} RecordsCount(m: Mesh, items: seq<DataTag>, nvalues: nat)
    ensures Records(m, items, nvalues).Ok? ==> |Records(m, items, nvalues).value| == Count(m, items)
  {
    if items != [] {
      RecordsCount(m, items[1..], nvalues);
    }
  }

  // -------------------------------------------------------- element effects

  /** Every record names a filled slot of the table. */
  ghost predicate Covers(table: seq<Option<Elem>>, data: seq<ElementData>)
  {
    forall i :: 0 <= i < |data| ==> 0 <= data[i].nid < |table| && table[data[i].nid].Some?
  }

  predicate IsShell(el: Elem)
  {
    el.cls == Shell || el.cls == FergusonShell
  }

  /** ParseShellThickness's loop: each record must name a shell whose node
      count equals the number of values, and sets that shell's m_h0; the
      first bad record stops the loop with what was written so far. */
  function Thickness(h0: map<int, seq<real>>, table: seq<Option<Elem>>, data: seq<ElementData>): (r: (Option<Error>, map<int, seq<real>>))
    requires Covers(table, data)
    decreases |data|
  {
    if data == [] then (None, h0)
    else
      var el := table[data[0].nid].value;
      if !IsShell(el) then (Some(InvalidTag), h0)
      else if el.nodes != |data[0].val| then (Some(InvalidTag), h0)
      else Thickness(h0[data[0].nid := data[0].val], table, data[1..])
  }

  /** No record after position i names the same element. */
  ghost predicate LastFor(data: seq<ElementData>, i: int)
    requires 0 <= i < |data|
  {
    forall j :: i < j < |data| ==> data[j].nid != data[i].nid
  }

  ghost predicate Untouched(data: seq<ElementData>, k: int)
  {
    forall i :: 0 <= i < |data| ==> data[i].nid != k
  }

  /** The record names a shell whose node count equals its value count. */
  ghost predicate ShellFits(table: seq<Option<Elem>>, d: ElementData)
  {
    0 <= d.nid < |table| && table[d.nid].Some? &&
    IsShell(table[d.nid].value) && table[d.nid].value.nodes == |d.val|
  }

  /** The thickness data is accepted exactly when every record names a
      shell with as many values as nodes. */
  lemma {:induction false} ThicknessAccepted(h0: map<int, seq<real>>, table: seq<Option<Elem>>, data: seq<ElementData>)
    requires Covers(table, data)
    ensures Thickness(h0, table, data).0.None? <==> forall i :: 0 <= i < |data| ==> ShellFits(table, data[i])
    decreases |data|
  {
    if data != [] {
      var rest := data[1..];
      assert Covers(table, rest);
      ThicknessAccepted(h0[data[0].nid := data[0].val], table, rest);
      assert forall i :: 1 <= i < |data| ==> rest[i - 1] == data[i];
    }
  }

  lemma TailUntouched(data: seq<ElementData>, k: int)
    requires data != [] && Untouched(data, k)
    ensures Untouched(data[1..], k)
  {
    forall j | 0 <= j < |data| - 1
      ensures data[1..][j].nid != k
    {
      assert data[1..][j] == data[j + 1];
    }
  }

  lemma TailLastFor(data: seq<ElementData>, i: int)
    requires 0 < i < |data| && LastFor(data, i)
    ensures data[1..][i - 1] == data[i] && LastFor(data[1..], i - 1)
  {
    var rest := data[1..];
    forall j | i - 1 < j < |rest|
      ensures rest[j].nid != rest[i - 1].nid
    {
      assert rest[j] == data[j + 1];
    }
  }

  lemma HeadLastFor(data: seq<ElementData>)
    requires data != [] && LastFor(data, 0)
    ensures Untouched(data[1..], data[0].nid)
  {
    forall j | 0 <= j < |data| - 1
      ensures data[1..][j].nid != data[0].nid
    {
      assert data[1..][j] == data[j + 1];
    }
  }

  /** Accepted thickness data gives each shell named the values of its last
      record and leaves every other element as it was. */
  lemma {:induction false} ThicknessWrites(h0: map<int, seq<real>>, table: seq<Option<Elem>>, data: seq<ElementData>)
    requires Covers(table, data) && Thickness(h0, table, data).0.None?
    ensures var h := Thickness(h0, table, data).1;
      (forall i :: 0 <= i < |data| && LastFor(data, i) ==> data[i].nid in h && h[data[i].nid] == data[i].val) &&
      (forall k :: Untouched(data, k) ==> (k in h <==> k in h0) && (k in h0 ==> h[k] == h0[k]))
    decreases |data|
  {
    if data != [] {
      var d := data[0];
      var rest := data[1..];
      var h1 := h0[d.nid := d.val];
      assert Covers(table, rest);
      assert Thickness(h0, table, data) == Thickness(h1, table, rest);
      ThicknessWrites(h1, table, rest);
      var h := Thickness(h1, table, rest).1;
      forall i | 0 <= i < |data| && LastFor(data, i)
        ensures data[i].nid in h && h[data[i].nid] == data[i].val
      {
        if i == 0 {
          HeadLastFor(data);
        } else {
          TailLastFor(data, i);
        }
      }
      forall k | Untouched(data, k)
        ensures (k in h <==> k in h0) && (k in h0 ==> h[k] == h0[k])
      {
        TailUntouched(data, k);
        assert data[0].nid != k;
      }
    }
  }

  /** ParseMaterialFibers's loop: each record must carry exactly three
      values, which become the element's fibre vector. */
  function Fibers(fibers: map<int, Vec3>, table: seq<Option<Elem>>, data: seq<ElementData>): (r: (Option<Error>, map<int, Vec3>))
    requires Covers(table, data)
    decreases |data|
  {
    if data == [] then (None, fibers)
    else
      var d := data[0];
      if |d.val| != FiberValues then (Some(InvalidTag), fibers)
      else Fibers(fibers[d.nid := FiberOf(d)], table, data[1..])
  }

  function FiberOf(d: ElementData): Vec3
    requires |d.val| == 3
  {
    Vec3(d.val[0], d.val[1], d.val[2])
  }

  /** The fibre data is accepted exactly when every record has three values. */
  lemma {:induction false} FibersAccepted(fibers: map<int, Vec3>, table: seq<Option<Elem>>, data: seq<ElementData>)
    requires Covers(table, data)
    ensures Fibers(fibers, table, data).0.None? <==> forall i :: 0 <= i < |data| ==> |data[i].val| == 3
    decreases |data|
  {
    if data != [] {
      var rest := data[1..];
      assert Covers(table, rest);
      if |data[0].val| == 3 {
        FibersAccepted(fibers[data[0].nid := FiberOf(data[0])], table, rest);
        assert forall i :: 1 <= i < |data| ==> rest[i - 1] == data[i];
      }
    }
  }

  /** Accepted fibre data gives each element named the vector of its last
      record and leaves every other element as it was. */
  lemma {:induction false} FibersWrites(fibers: map<int, Vec3>, table: seq<Option<Elem>>, data: seq<ElementData>)
    requires Covers(table, data) && Fibers(fibers, table, data).0.None?
    ensures var f := Fibers(fibers, table, data).1;
      (forall i :: 0 <= i < |data| && LastFor(data, i) ==>
         |data[i].val| == 3 && data[i].nid in f && f[data[i].nid] == FiberOf(data[i])) &&
      (forall k :: Untouched(data, k) ==> (k in f <==> k in fibers) && (k in fibers ==> f[k] == fibers[k]))
    decreases |data|
  {
    if data != [] {
      var d := data[0];
      var rest := data[1..];
      var f1 := fibers[d.nid := FiberOf(d)];
      assert Covers(table, rest);
      assert Fibers(fibers, table, data) == Fibers(f1, table, rest);
      FibersWrites(f1, table, rest);
      FibersAccepted(f1, table, rest);
      var f := Fibers(f1, table, rest).1;
      forall i | 0 <= i < |data| && LastFor(data, i)
        ensures |data[i].val| == 3 && data[i].nid in f && f[data[i].nid] == FiberOf(data[i])
      {
        if i == 0 {
          HeadLastFor(data);
        } else {
          TailLastFor(data, i);
        }
      }
      forall k | Untouched(data, k)
        ensures (k in f <==> k in fibers) && (k in fibers ==> f[k] == fibers[k])
      {
        TailUntouched(data, k);
        assert data[0].nid != k;
      }
    }
  }

  // -------------------------------------------------------------- sections

  /** The effect of one child of the MeshData tag on the elements' shell
      thicknesses and fibres. */
  function Section(m: Mesh, maxNodes: nat, table: seq<Option<Elem>>, h0: map<int, seq<real>>,
                   fibers: map<int, Vec3>, t: SectionTag): (Option<Error>, map<int, seq<real>>, map<int, Vec3>)
    requires SetsInRange(m) && |table| == |Elements(m.domains)| && forall k :: 0 <= k < |table| ==> table[k].Some?
  {
    match t
    case OtherSection(_) => (Some(InvalidTag), h0, fibers)
    case ElemData(kind, items) =>
      if kind == "shell thickness" then
        match ElementDataSpec(m, items, maxNodes)
        case Err(e) => (Some(e), h0, fibers)
        case Ok(data) =>
          RecordsInRange(m, items, maxNodes);
          var r := Thickness(h0, table, data);
          (r.0, r.1, fibers)
      else if kind == "fiber" then
        match ElementDataSpec(m, items, FiberValues)
        case Err(e) => (Some(e), h0, fibers)
        case Ok(data) =>
          RecordsInRange(m, items, FiberValues);
          var r := Fibers(fibers, table, data);
          (r.0, h0, r.1)
      else if kind == "mat_axis" then (Some(InvalidTag), h0, fibers)
      else (Some(InvalidAttributeValue("type")), h0, fibers)
  }

  /** The children of the MeshData tag in order, up to the first error. */
  function Sections(m: Mesh, maxNodes: nat, table: seq<Option<Elem>>, h0: map<int, seq<real>>,
                    fibers: map<int, Vec3>, tags: seq<SectionTag>): (Option<Error>, map<int, seq<real>>, map<int, Vec3>)
    requires SetsInRange(m) && |table| == |Elements(m.domains)| && forall k :: 0 <= k < |table| ==> table[k].Some?
    decreases |tags|
  {
    if tags == [] then (None, h0, fibers)
    else
      var r := Section(m, maxNodes, table, h0, fibers, tags[0]);
      if r.0.Some? then r else Sections(m, maxNodes, table, r.1, r.2, tags[1..])
  }

  /** A MeshData section is accepted only when every child is an
      <elem_data> of type "shell thickness" or "fiber"; in particular a
      "mat_axis" child always makes it fail. */
  lemma {:induction false} SectionsAccepted(m: Mesh, maxNodes: nat, table: seq<Option<Elem>>,
                                            h0: map<int, seq<real>>, fibers: map<int, Vec3>, tags: seq<SectionTag>)
    requires SetsInRange(m) && |table| == |Elements(m.domains)| && forall k :: 0 <= k < |table| ==> table[k].Some?
    ensures Sections(m, maxNodes, table, h0, fibers, tags).0.None? ==>
      forall i :: 0 <= i < |tags| ==>
        tags[i].ElemData? && (tags[i].kind == "shell thickness" || tags[i].kind == "fiber")
    decreases |tags|
  {
    if tags != [] {
      var r := Section(m, maxNodes, table, h0, fibers, tags[0]);
      if r.0.None? {
        SectionsAccepted(m, maxNodes, table, r.1, r.2, tags[1..]);
        assert forall i :: 1 <= i < |tags| ==> tags[1..][i - 1] == tags[i];
      }
    }
  }

  // ------------------------------------------------------------ the section

  /** FEBioMeshDataSection: the reader's file version and mesh, the
      element table m_pelem, and the shell thicknesses and fibre vectors the
      section has written to elements (by 0-based index). */
  class MeshDataSection {
    const version: int
    const mesh: Mesh
    const maxNodes: nat           // FEElement::MAX_NODES
    var pelem: seq<Option<Elem>>
    var h0: map<int, seq<real>>
    var fibers: map<int, Vec3>

    constructor (version: int, mesh: Mesh, maxNodes: nat)
      ensures this.version == version && this.mesh == mesh && this.maxNodes == maxNodes
      ensures pelem == [] && h0 == map[] && fibers == map[]
    {
      this.version := version;
      this.mesh := mesh;
      this.maxNodes := maxNodes;
      pelem := [];
      h0 := map[];
      fibers := map[];
    }

    /** ParseElementData: the records of an <elem_data> tag's children. */
    method ParseElementData(items: seq<DataTag>, nvalues: nat) returns (r: Result<seq<ElementData>>)
      ensures r == ElementDataSpec(mesh, items, nvalues)
    {
      var nelems := |Elements(mesh.domains)|;
      var values: seq<ElementData> := [];
      if items == [] {
        return Err(InvalidTag);
      }
      var i := 0;
      assert items[0..] == items;
      assert Prepend(values, Records(mesh, items, nvalues)) == Records(mesh, items, nvalues) by {
        var rs := Records(mesh, items, nvalues);
        if rs.Ok? {
          assert values + rs.value == rs.value;
        }
      }
      while i < |items|
        invariant 0 <= i <= |items|
        invariant Records(mesh, items, nvalues) == Prepend(values, Records(mesh, items[i..], nvalues))
      {
        RecordsUnfold(mesh, items, i, nvalues);
        ghost var before := values;
        ghost var item := Item(mesh, items[i], nvalues);
        match items[i] {
          case ElemTag(id, vals) =>
            var n := id - 1;
            if n < 0 || n >= nelems {
              return Err(InvalidAttributeValue("id"));
            }
            values := values + [ElementData(n, Take(vals, nvalues))];
          case ElsetTag(name, vals) =>
            if name !in mesh.sets {
              return Err(InvalidAttributeValue("set"));
            }
            var pset := mesh.sets[name];
            var d := Take(vals, nvalues);
            var n := |pset|;
            var j := 0;
            ghost var start := values;
            while j < n
              invariant 0 <= j <= n
              invariant values == start + Expand(pset[..j], d)
            {
              values := values + [ElementData(pset[j] - 1, d)];
              j := j + 1;
            }
            assert pset[..j] == pset;
          case OtherData(_) =>
            return Err(InvalidTag);
        }
        assert values == before + item.value;
        PrependPrepend(before, item.value, Records(mesh, items[i + 1..], nvalues));
        i := i + 1;
      }
      assert items[i..] == [];
      assert values + [] == values;
      r := Ok(values);
    }

    /** ParseShellThickness. */
    method ParseShellThickness(items: seq<DataTag>) returns (r: Option<Error>)
      requires SetsInRange(mesh) && |pelem| == |Elements(mesh.domains)|
      requires forall k :: 0 <= k < |pelem| ==> pelem[k].Some?
      modifies this`h0
      ensures var d := ElementDataSpec(mesh, items, maxNodes);
        (d.Err? ==> r == Some(d.error) && h0 == old(h0)) &&
        (d.Ok? ==> Covers(pelem, d.value) && (r, h0) == Thickness(old(h0), pelem, d.value))
    {
      var data := ParseElementData(items, maxNodes);
      if data.Err? {
        return Some(data.error);
      }
      RecordsInRange(mesh, items, maxNodes);
      var ds := data.value;
      var i := 0;
      while i < |ds|
        invariant 0 <= i <= |ds|
        invariant Thickness(old(h0), pelem, ds) == Thickness(h0, pelem, ds[i..])
      {
        assert ds[i..][1..] == ds[i + 1..];
        var di := ds[i];
        var el := pelem[di.nid].value;
        if !IsShell(el) {
          return Some(InvalidTag);
        }
        var ne := el.nodes;
        if ne != |di.val| {
          return Some(InvalidTag);
        }
        h0 := h0[di.nid := di.val];
        i := i + 1;
      }
      r := None;
    }

    /** ParseMaterialFibers: set_element_fiber records the vector per element. */
    method ParseMaterialFibers(items: seq<DataTag>) returns (r: Option<Error>)
      requires SetsInRange(mesh) && |pelem| == |Elements(mesh.domains)|
      requires forall k :: 0 <= k < |pelem| ==> pelem[k].Some?
      modifies this`fibers
      ensures var d := ElementDataSpec(mesh, items, FiberValues);
        (d.Err? ==> r == Some(d.error) && fibers == old(fibers)) &&
        (d.Ok? ==> Covers(pelem, d.value) && (r, fibers) == Fibers(old(fibers), pelem, d.value))
    {
      var data := ParseElementData(items, FiberValues);
      if data.Err? {
        return Some(data.error);
      }
      RecordsInRange(mesh, items, FiberValues);
      var ds := data.value;
      var i := 0;
      while i < |ds|
        invariant 0 <= i <= |ds|
        invariant Fibers(old(fibers), pelem, ds) == Fibers(fibers, pelem, ds[i..])
      {
        assert ds[i..][1..] == ds[i + 1..];
        var di := ds[i];
        if |di.val| != FiberValues {
          return Some(InvalidTag);
        }
        var v := FiberOf(di);
        fibers := fibers[di.nid := v];
        i := i + 1;
      }
      r := None;
    }

    /** ParseMaterialAxes: not implemented in the reader; always rejected. */
    method ParseMaterialAxes(items: seq<DataTag>) returns (r: Option<Error>)
      ensures r == Some(InvalidTag)
    {
      r := Some(InvalidTag);
    }

    /** The element-table build of Parse: m_pelem[ID-1] = element. */
    method BuildTable()
      requires IdsExact(Elements(mesh.domains))
      modifies this`pelem
      ensures pelem == Table(Elements(mesh.domains), |Elements(mesh.domains)|)
    {
      var nelems := |Elements(mesh.domains)|;
      ghost var all := Elements(mesh.domains);
      pelem := seq(nelems, _ => None);
      var nd := 0;
      assert mesh.domains[..0] == [];
      while nd < |mesh.domains|
        invariant 0 <= nd <= |mesh.domains|
        invariant Elements(mesh.domains[..nd]) <= all
        invariant IdsIn(Elements(mesh.domains[..nd]), nelems)
        invariant pelem == Table(Elements(mesh.domains[..nd]), nelems)
        modifies this`pelem
      {
        ElementsSnoc(mesh.domains, nd);
        ElementsPrefix(mesh.domains, nd + 1);
        PrefixIds(all, Elements(mesh.domains[..nd + 1]));
        FillDomain(mesh.domains[nd], Elements(mesh.domains[..nd]));
        nd := nd + 1;
      }
      assert mesh.domains[..nd] == mesh.domains;
    }

    /** The inner loop of the table build over one domain; `before` are the
        elements of the domains already entered. */
    method FillDomain(d: seq<Elem>, ghost before: seq<Elem>)
      requires IdsExact(Elements(mesh.domains)) && before + d <= Elements(mesh.domains)
      requires IdsIn(before, |Elements(mesh.domains)|)
      requires pelem == Table(before, |Elements(mesh.domains)|)
      modifies this`pelem
      ensures pelem == Table(before + d, |Elements(mesh.domains)|)
    {
      ghost var all := Elements(mesh.domains);
      var nelems := |all|;
      var i := 0;
      assert before + d[..0] == before;
      while i < |d|
        invariant 0 <= i <= |d|
        invariant before + d[..i] + d[i..] <= all
        invariant IdsIn(before + d[..i], nelems)
        invariant pelem == Table(before + d[..i], nelems)
      {
        ghost var seen := before + d[..i];
        var el := d[i];
        assert seen + [el] == before + d[..i + 1];
        assert seen + [el] <= all by {
          assert seen + [el] + d[i + 1..] == seen + d[i..];
        }
        TableStep(all, seen, el);
        // the slot is still empty: IDs are distinct
        assert pelem[el.id - 1] == None;
        pelem := pelem[el.id - 1 := Some(el)];
        i := i + 1;
      }
      assert d[..i] == d;
    }

    /** Parse: the version check, the element table, then each child of the
        MeshData tag in turn. */
    method Parse(tags: seq<SectionTag>) returns (r: Option<Error>)
      requires MeshWellFormed(mesh)
      modifies this`pelem, this`h0, this`fibers
      ensures version < RequiredVersion ==>
        r == Some(InvalidTag) && pelem == old(pelem) && h0 == old(h0) && fibers == old(fibers)
      ensures version >= RequiredVersion && tags == [] ==>
        r == None && pelem == old(pelem) && h0 == old(h0) && fibers == old(fibers)
      ensures version >= RequiredVersion && tags != [] && Elements(mesh.domains) == [] ==>
        r == Some(InvalidTag) && pelem == old(pelem) && h0 == old(h0) && fibers == old(fibers)
      ensures version >= RequiredVersion && tags != [] && Elements(mesh.domains) != [] ==>
        pelem == Table(Elements(mesh.domains), |Elements(mesh.domains)|) &&
        (forall k :: 0 <= k < |pelem| ==> pelem[k].Some?) &&
        (r, h0, fibers) == Sections(mesh, maxNodes, pelem, old(h0), old(fibers), tags)
    {
      if version < RequiredVersion {
        return Some(InvalidTag);
      }
      if tags == [] {
        return None;
      }
      var nelems := |Elements(mesh.domains)|;
      if nelems == 0 {
        return Some(InvalidTag);
      }
      BuildTable();
      TableFull(Elements(mesh.domains));
      ghost var h00, f00 := h0, fibers;
      var i := 0;
      while i < |tags|
        invariant 0 <= i <= |tags|
        invariant pelem == Table(Elements(mesh.domains), nelems)
        invariant Sections(mesh, maxNodes, pelem, h00, f00, tags) == Sections(mesh, maxNodes, pelem, h0, fibers, tags[i..])
        modifies this`h0, this`fibers
      {
        assert tags[i..][1..] == tags[i + 1..];
        var e := ParseTag(tags[i]);
        if e.Some? {
          return e;
        }
        i := i + 1;
      }
      r := None;
    }

    /** One child of the MeshData tag: the type dispatch of Parse. */
    method ParseTag(t: SectionTag) returns (r: Option<Error>)
      requires SetsInRange(mesh) && |pelem| == |Elements(mesh.domains)|
      requires forall k :: 0 <= k < |pelem| ==> pelem[k].Some?
      modifies this`h0, this`fibers
      ensures (r, h0, fibers) == Section(mesh, maxNodes, pelem, old(h0), old(fibers), t)
    {
      match t {
        case OtherSection(_) =>
          return Some(InvalidTag);
        case ElemData(kind, items) =>
          if kind == "shell thickness" {
            r := ParseShellThickness(items);
          } else if kind == "fiber" {
            r := ParseMaterialFibers(items);
          } else if kind == "mat_axis" {
            r := ParseMaterialAxes(items);
          } else {
            r := Some(InvalidAttributeValue("type"));
          }
      }
    }
  }
}
