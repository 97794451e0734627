/** Element selection for mesh adaptation (FECore/FEMeshAdaptor.cpp): a
    criterion checks every active element of the mesh, and GetElementList
    returns the global indices of the selected ones, optionally sorted by the
    value the check computed and cut to a maximum count. */
module MeshAdaptor {

  /** An element as the criteria see it: whether it is active, its volume
      (computed by its solid domain), and its nodes. */
  datatype Element = Element(active: bool, volume: real, nodes: seq<int>)

  /** A domain: whether it is a solid domain, and its elements. */
  datatype Domain = Domain(solid: bool, elems: seq<Element>)

  /** An element together with the kind of domain it lies in. */
  datatype Site = Site(solid: bool, el: Element)

  /** A selected element: global index and the value the check computed. */
  datatype Candidate = Candidate(index: int, value: real)

  /** The criteria: the base criterion, FEMaxVolumeCriterion (m_maxVolume)
      and FEMaxVariableCriterion (m_maxValue, m_dof). */
  datatype Kind = Base | MaxVolume(maxVolume: real) | MaxVariable(maxValue: real, dof: int)

  /** The start value of the running maximum, -1e99. */
  const Lowest: real := -1000000000000000000000000000000000000000000000000000000000000000000000000000000000000000000000000000.0

  /** The parameters a new FEMaxVolumeCriterion has. */
  function DefaultMaxVolume(): (k: Kind)
    ensures k.MaxVolume? && k.maxVolume == 0.0
  {
    MaxVolume(0.0)
  }

  /** The parameters a new FEMaxVariableCriterion has: no degree of freedom. */
  function DefaultMaxVariable(): (k: Kind)
    ensures k.MaxVariable? && k.maxValue == 0.0 && k.dof == -1
  {
    MaxVariable(0.0, -1)
  }

  // ------------------------------------------------------------------- Check

  /** The nodal values of degree of freedom `dof` can be read for these nodes. */
  ghost predicate Readable(values: seq<seq<real>>, nodes: seq<int>, dof: int)
  {
    forall i :: 0 <= i < |nodes| ==> 0 <= nodes[i] < |values| && 0 <= dof < |values[nodes[i]]|
  }

  /** The largest value of `dof` over the nodes, starting from -1e99. */
  function MaxNodal(values: seq<seq<real>>, nodes: seq<int>, dof: int): (m: real)
    requires Readable(values, nodes, dof)
    ensures m >= Lowest
    ensures forall i :: 0 <= i < |nodes| ==> values[nodes[i]][dof] <= m
    ensures m == Lowest || exists i :: 0 <= i < |nodes| && values[nodes[i]][dof] == m
  {
    if nodes == [] then Lowest
    else
      var prev := MaxNodal(values, nodes[..|nodes| - 1], dof);
      var v := values[nodes[|nodes| - 1]][dof];
      if v > prev then v else prev
  }

  /** What Check needs to read the element's nodal values. */
  ghost predicate CanCheck(kind: Kind, s: Site, values: seq<seq<real>>)
  {
    kind.MaxVariable? && kind.dof != -1 && s.solid ==> Readable(values, s.el.nodes, kind.dof)
  }

  /** Check(el, elemVal): whether the element is selected, and the value it
      leaves in elemVal (which the caller initialises to 0). */
  function CheckSpec(kind: Kind, s: Site, values: seq<seq<real>>): (r: (bool, real))
    requires CanCheck(kind, s, values)
  {
    match kind
    case Base => (false, 0.0)
    case MaxVolume(maxVolume) =>
      if !s.solid then (false, 0.0)
      else (s.el.volume >= maxVolume, s.el.volume)
    case MaxVariable(maxValue, dof) =>
      if dof == -1 || !s.solid then (false, 0.0)
      else
        var m := MaxNodal(values, s.el.nodes, dof);
        (m >= maxValue, m)
  }

  /** What each criterion selects, stated without the running maximum: the
      base criterion nothing; the volume criterion a solid element of at
      least m_maxVolume; the variable criterion, when it has a degree of
      freedom, a solid element one of whose nodes reaches m_maxValue. */
  lemma CheckMeaning(kind: Kind, s: Site, values: seq<seq<real>>)
    requires CanCheck(kind, s, values)
    ensures kind.Base? ==> !CheckSpec(kind, s, values).0
    ensures kind.MaxVolume? ==>
      (CheckSpec(kind, s, values).0 <==> s.solid && s.el.volume >= kind.maxVolume)
    ensures kind.MaxVariable? && kind.maxValue > Lowest ==>
      (CheckSpec(kind, s, values).0 <==>
        kind.dof != -1 && s.solid &&
        exists i :: 0 <= i < |s.el.nodes| && values[s.el.nodes[i]][kind.dof] >= kind.maxValue)
  {
    if kind.MaxVariable? && kind.dof != -1 && s.solid && kind.maxValue > Lowest {
      var m := MaxNodal(values, s.el.nodes, kind.dof);
      if m >= kind.maxValue {
        assert m != Lowest;
        var i :| 0 <= i < |s.el.nodes| && values[s.el.nodes[i]][kind.dof] == m;
      }
    }
  }

  // --------------------------------------------------------- the element list

  /** The elements of one domain with the domain's kind. */
  function DomainSites(d: Domain): (r: seq<Site>)
    ensures |r| == |d.elems|
  {
    seq(|d.elems|, j requires 0 <= j < |d.elems| => Site(d.solid, d.elems[j]))
  }

  /** All elements of the mesh in global order, domain after domain. */
  function Flat(mesh: seq<Domain>): seq<Site>
  {
    if mesh == [] then [] else Flat(mesh[..|mesh| - 1]) + DomainSites(mesh[|mesh| - 1])
  }

  ghost predicate CanCheckAll(kind: Kind, sites: seq<Site>, values: seq<seq<real>>)
  {
    forall k :: 0 <= k < |sites| ==> sites[k].el.active ==> CanCheck(kind, sites[k], values)
  }

  /** The (index, value) pairs of the active elements the check selects, in
      global order. */
  function Candidates(kind: Kind, sites: seq<Site>, values: seq<seq<real>>): (r: seq<Candidate>)
    requires CanCheckAll(kind, sites, values)
  {
    if sites == [] then []
    else
      var k := |sites| - 1;
      var front := Candidates(kind, sites[..k], values);
      if sites[k].el.active && CheckSpec(kind, sites[k], values).0
      then front + [Candidate(k, CheckSpec(kind, sites[k], values).1)]
      else front
  }

  function Indices(cs: seq<Candidate>): (r: seq<int>)
    ensures |r| == |cs| && forall i :: 0 <= i < |cs| ==> r[i] == cs[i].index
  {
    seq(|cs|, i requires 0 <= i < |cs| => cs[i].index)
  }

  /** The first m_maxelem entries when m_maxelem is positive and smaller
      than the list, otherwise the whole list. */
  function Truncated<T>(s: seq<T>, maxElem: int): (r: seq<T>)
    ensures |r| == if maxElem > 0 && |s| > maxElem then maxElem else |s|
    ensures r == s[..|r|]
  {
    if maxElem > 0 && |s| > maxElem then s[..maxElem] else s
  }

  /** Exactly the active elements the check selects are candidates, each with
      the value the check computed. */
  lemma {:induction false} CandidatesExactly(kind: Kind, sites: seq<Site>, values: seq<seq<real>>, x: int)
    requires CanCheckAll(kind, sites, values)
    ensures x in Indices(Candidates(kind, sites, values)) <==>
      0 <= x < |sites| && sites[x].el.active && CheckSpec(kind, sites[x], values).0
    ensures forall c :: c in Candidates(kind, sites, values) ==>
      0 <= c.index < |sites| && sites[c.index].el.active &&
      c.value == CheckSpec(kind, sites[c.index], values).1
  {
    if sites != [] {
      var k := |sites| - 1;
      assert CanCheckAll(kind, sites[..k], values);
      CandidatesExactly(kind, sites[..k], values, x);
      var front := Candidates(kind, sites[..k], values);
      assert forall c :: c in front ==> c.index < k;
      if sites[k].el.active && CheckSpec(kind, sites[k], values).0 {
        var c := Candidate(k, CheckSpec(kind, sites[k], values).1);
        assert Indices(front + [c]) == Indices(front) + [k];
      }
    }
  }

  ghost predicate IndicesIncreasing(cs: seq<Candidate>)
  {
    forall i, j :: 0 <= i < j < |cs| ==> cs[i].index < cs[j].index
  }

  /** Candidates come in strictly increasing index order. */
  lemma {:induction false} CandidatesIncreasing(kind: Kind, sites: seq<Site>, values: seq<seq<real>>)
    requires CanCheckAll(kind, sites, values)
    ensures IndicesIncreasing(Candidates(kind, sites, values))
    ensures forall c :: c in Candidates(kind, sites, values) ==> 0 <= c.index < |sites|
  {
    if sites != [] {
      var k := |sites| - 1;
      assert CanCheckAll(kind, sites[..k], values);
      CandidatesIncreasing(kind, sites[..k], values);
      var front := Candidates(kind, sites[..k], values);
      var r := Candidates(kind, sites, values);
      forall i, j | 0 <= i < j < |r|
        ensures r[i].index < r[j].index
      {
        if sites[k].el.active && CheckSpec(kind, sites[k], values).0 {
          var c := Candidate(k, CheckSpec(kind, sites[k], values).1);
          assert r == front + [c];
          if j == |front| {
            assert front[i] in front && r[i] == front[i] && r[j] == c;
          } else {
            assert r[i] == front[i] && r[j] == front[j];
          }
        } else {
          assert r == front;
        }
      }
    }
  }

  /** The base criterion selects nothing. */
  lemma {:induction false} BaseSelectsNothing(sites: seq<Site>, values: seq<seq<real>>)
    requires CanCheckAll(Base, sites, values)
    ensures Candidates(Base, sites, values) == []
  {
    if sites != [] {
      var k := |sites| - 1;
      assert CanCheckAll(Base, sites[..k], values);
      BaseSelectsNothing(sites[..k], values);
    }
  }

  lemma FlatSnoc(mesh: seq<Domain>, i: int)
    requires 0 <= i < |mesh|
    ensures Flat(mesh[..i + 1]) == Flat(mesh[..i]) + DomainSites(mesh[i])
  {
    assert mesh[..i + 1][..i] == mesh[..i];
  }

  lemma CanCheckSnoc(kind: Kind, sites: seq<Site>, values: seq<seq<real>>, s: Site)
    requires CanCheckAll(kind, sites, values)
    requires s.el.active ==> CanCheck(kind, s, values)
    ensures CanCheckAll(kind, sites + [s], values)
  {
  }

  lemma CandidatesSnoc(kind: Kind, sites: seq<Site>, values: seq<seq<real>>, s: Site)
    requires CanCheckAll(kind, sites, values)
    requires s.el.active ==> CanCheck(kind, s, values)
    ensures CanCheckAll(kind, sites + [s], values)
    ensures Candidates(kind, sites + [s], values) ==
      if s.el.active && CheckSpec(kind, s, values).0
      then Candidates(kind, sites, values) + [Candidate(|sites|, CheckSpec(kind, s, values).1)]
      else Candidates(kind, sites, values)
  {
    CanCheckSnoc(kind, sites, values, s);
    var all := sites + [s];
    assert all[..|sites|] == sites;
    assert all[|sites|] == s;
  }

  // ------------------------------------------------------------------ sorting

  ghost predicate NonIncreasing(cs: seq<Candidate>)
  {
    forall i, j :: 0 <= i < j < |cs| ==> cs[i].value >= cs[j].value
  }

  /** Inserts c into a list ordered by non-increasing value. */
  function Insert(cs: seq<Candidate>, c: Candidate): (r: seq<Candidate>)
    requires NonIncreasing(cs)
    ensures NonIncreasing(r)
    ensures multiset(r) == multiset(cs) + multiset{c}
    ensures |r| == |cs| + 1
    ensures forall x :: x in r ==> x in cs || x == c
  {
    if cs == [] then [c]
    else if c.value >= cs[0].value then [c] + cs
    else
      var t := Insert(cs[1..], c);
      assert cs == [cs[0]] + cs[1..];
      HeadBoundsTail(cs);
      ConsNonIncreasing(cs[0], t);
      [cs[0]] + t
  }

  lemma HeadBoundsTail(cs: seq<Candidate>)
    requires NonIncreasing(cs) && cs != []
    ensures forall x :: x in cs[1..] ==> cs[0].value >= x.value
  {
    forall x | x in cs[1..]
      ensures cs[0].value >= x.value
    {
      var i :| 0 <= i < |cs[1..]| && cs[1..][i] == x;
      assert cs[i + 1] == x;
    }
  }

  lemma ConsNonIncreasing(h: Candidate, t: seq<Candidate>)
    requires NonIncreasing(t)
    requires forall x :: x in t ==> h.value >= x.value
    ensures NonIncreasing([h] + t)
  {
    var r := [h] + t;
    forall i, j | 0 <= i < j < |r|
      ensures r[i].value >= r[j].value
    {
      assert r[j] == t[j - 1];
      if i == 0 {
        assert t[j - 1] in t;
      } else {
        assert r[i] == t[i - 1];
      }
    }
  }

  /** The std::sort of GetElementList: orders by non-increasing value. The
      order among equal values is not specified. */
  method SortByValue(s: seq<Candidate>) returns (r: seq<Candidate>)
    ensures multiset(r) == multiset(s)
    ensures NonIncreasing(r)
  {
    r := [];
    var i := 0;
    while i < |s|
      invariant 0 <= i <= |s|
      invariant NonIncreasing(r) && multiset(r) == multiset(s[..i])
    {
      r := Insert(r, s[i]);
      assert s[..i + 1] == s[..i] + [s[i]];
      i := i + 1;
    }
    assert s[..i] == s;
  }

  // ---------------------------------------------------------------- criterion

  /** FEMeshAdaptorCriterion and its two subclasses. */
  class Criterion {
    var sortList: bool      // m_sortList
    var maxElem: int        // m_maxelem
    var kind: Kind

    constructor (kind: Kind)
      ensures this.kind == kind && !sortList && maxElem == 0
    {
      this.kind := kind;
      sortList := false;
      maxElem := 0;
    }

    method SetSort(b: bool)
      modifies this`sortList
      ensures sortList == b
    {
      sortList := b;
    }

    method SetMaxElements(m: int)
      modifies this`maxElem
      ensures maxElem == m
    {
      maxElem := m;
    }

    /** FEMaxVariableCriterion::Check's loop: the largest nodal value. */
    method MaxNodalValue(el: Element, values: seq<seq<real>>, dof: int) returns (maxVal: real)
      requires Readable(values, el.nodes, dof)
      ensures maxVal == MaxNodal(values, el.nodes, dof)
    {
      maxVal := Lowest;
      var i := 0;
      while i < |el.nodes|
        invariant 0 <= i <= |el.nodes|
        invariant maxVal == MaxNodal(values, el.nodes[..i], dof)
      {
        var vi := values[el.nodes[i]][dof];
        if vi > maxVal {
          maxVal := vi;
        }
        assert el.nodes[..i + 1][..i] == el.nodes[..i];
        i := i + 1;
      }
      assert el.nodes[..i] == el.nodes;
    }

    /** Check(el, elemVal) of the criterion's kind. */
    method Check(s: Site, values: seq<seq<real>>) returns (selected: bool, elemVal: real)
      requires CanCheck(kind, s, values)
      ensures (selected, elemVal) == CheckSpec(kind, s, values)
      ensures selected ==> s.solid && !kind.Base?
    {
      elemVal := 0.0;
      match kind
      case Base => {
        selected := false;
      }
      case MaxVolume(maxVolume) => {
        if !s.solid {
          return false, elemVal;
        }
        elemVal := s.el.volume;
        selected := elemVal >= maxVolume;
      }
      case MaxVariable(maxValue, dof) => {
        if dof == -1 {
          return false, elemVal;
        }
        if !s.solid {
          return false, elemVal;
        }
        elemVal := MaxNodalValue(s.el, values, dof);
        selected := elemVal >= maxValue;
      }
    }

    /** GetElementList: the global indices of the selected active elements,
        in mesh order or by non-increasing check value, at most m_maxelem of
        them when m_maxelem is positive. `order` is the candidate list as
        sorted. */
    method GetElementList(mesh: seq<Domain>, values: seq<seq<real>>) returns (selected: seq<int>, ghost order: seq<Candidate>)
      requires CanCheckAll(kind, Flat(mesh), values)
      ensures !sortList ==> order == Candidates(kind, Flat(mesh), values)
      ensures sortList ==> multiset(order) == multiset(Candidates(kind, Flat(mesh), values)) && NonIncreasing(order)
      ensures selected == Indices(Truncated(order, maxElem))
    {
      var nselected := 0;
      var nelem := 0;
      var elem: seq<Candidate> := [];
      var i := 0;
      while i < |mesh|
        invariant 0 <= i <= |mesh|
        invariant nelem == |Flat(mesh[..i])|
        invariant CanCheckAll(kind, Flat(mesh[..i]), values)
        invariant elem == Candidates(kind, Flat(mesh[..i]), values) && nselected == |elem|
      {
        FlatSnoc(mesh, i);
        PrefixFlat(mesh, i + 1);
        CanCheckPrefix(kind, Flat(mesh), Flat(mesh[..i + 1]), values);
        CanCheckPrefix(kind, Flat(mesh), Flat(mesh[..i]), values);
        elem, nelem, nselected := CollectDomain(mesh[i], Flat(mesh[..i]), values, elem, nelem, nselected);
        i := i + 1;
      }
      assert mesh[..i] == mesh;

      order := elem;
      selected := [];
      if nselected > 0 {
        if sortList {
          elem := SortByValue(elem);
          order := elem;
        }
        var n := |elem|;
        if maxElem > 0 && n > maxElem {
          n := maxElem;
        }
        var k := 0;
        while k < n
          invariant 0 <= k <= n
          invariant selected == Indices(elem[..k])
        {
          selected := selected + [elem[k].index];
          k := k + 1;
        }
      }
    }

    /** The inner loop of GetElementList over the elements of one domain;
        `before` are the elements of the domains already visited. */
    method CollectDomain(dom: Domain, ghost before: seq<Site>, values: seq<seq<real>>,
                         elem0: seq<Candidate>, nelem0: int, nselected0: int)
      returns (elem: seq<Candidate>, nelem: int, nselected: int)
      requires CanCheckAll(kind, before + DomainSites(dom), values)
      requires CanCheckAll(kind, before, values)
      requires nelem0 == |before| && elem0 == Candidates(kind, before, values) && nselected0 == |elem0|
      ensures nelem == |before + DomainSites(dom)|
      ensures elem == Candidates(kind, before + DomainSites(dom), values) && nselected == |elem|
    {
      elem, nelem, nselected := elem0, nelem0, nselected0;
      ghost var all := before + DomainSites(dom);
      var ne := |dom.elems|;
      var j := 0;
      assert before + DomainSites(dom)[..0] == before;
      while j < ne
        invariant 0 <= j <= ne
        invariant CanCheckAll(kind, before + DomainSites(dom)[..j], values)
        invariant nelem == |before| + j
        invariant elem == Candidates(kind, before + DomainSites(dom)[..j], values)
        invariant nselected == |elem|
      {
        var site := Site(dom.solid, dom.elems[j]);
        ghost var seen := before + DomainSites(dom)[..j];
        assert seen + [site] == before + DomainSites(dom)[..j + 1];
        assert all[|seen|] == site;
        CandidatesSnoc(kind, seen, values, site);
        if dom.elems[j].active {
          var bselect, elemVal := Check(site, values);
          if bselect {
            elem := elem + [Candidate(nelem, elemVal)];
            nselected := nselected + 1;
          }
        }
        j := j + 1;
        nelem := nelem + 1;
      }
      assert DomainSites(dom)[..j] == DomainSites(dom);
    }
  }

  lemma CanCheckPrefix(kind: Kind, sites: seq<Site>, pre: seq<Site>, values: seq<seq<real>>)
    requires CanCheckAll(kind, sites, values) && pre <= sites
    ensures CanCheckAll(kind, pre, values)
  {
  }

  lemma {:induction false} PrefixFlat(mesh: seq<Domain>, i: int)
    requires 0 <= i <= |mesh|
    ensures Flat(mesh[..i]) <= Flat(mesh)
    decreases |mesh| - i
  {
    if i < |mesh| {
      PrefixFlat(mesh, i + 1);
      FlatSnoc(mesh, i);
    } else {
      assert mesh[..i] == mesh;
    }
  }

  /** Without sorting, the returned indices are strictly increasing. */
  lemma UnsortedIncreasing(kind: Kind, mesh: seq<Domain>, values: seq<seq<real>>, maxElem: int)
    requires CanCheckAll(kind, Flat(mesh), values)
    ensures var r := Indices(Truncated(Candidates(kind, Flat(mesh), values), maxElem));
      forall i, j :: 0 <= i < j < |r| ==> r[i] < r[j]
  {
    CandidatesIncreasing(kind, Flat(mesh), values);
  }

  /** With sorting, the check values along the returned list do not increase. */
  lemma SortedValuesNonIncreasing(order: seq<Candidate>, maxElem: int)
    requires NonIncreasing(order)
    ensures var r := Truncated(order, maxElem);
      forall i, j :: 0 <= i < j < |r| ==> r[i].value >= r[j].value
  {
  }
}
