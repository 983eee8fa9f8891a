/**
 * Degree centrality over an edge list, as the centrality module computes it:
 * `CentralityAccumulator` is the aggregate state (numRows and a flat vector
 * `data` holding the two endpoints of every edge, one after the other) and
 * `DegreeCentrality::compute` turns a state into parallel `vertex` and
 * `degree` vectors.
 *
 * The state is modelled as the code has it, including its two surprises:
 * merging two non-empty states adds their `data` vectors element by element
 * (while adding the row counts), and `compute` never advances the length of
 * its vertex list, so every endpoint becomes a vertex of degree 1.
 * `data << x` and `vertex << v` are read as appending at the end.
 */
module Centrality {

  /** The value of an accumulator: the row count and the endpoint vector. */
  datatype AccState = AccState(numRows: nat, data: seq<int>)

  /** The state of a new aggregate, before any edge. */
  const Empty: AccState := AccState(0, [])

  /**
   * What `bind` relies on when it reads the state back: `data` holds exactly
   * numRows entries, two per edge.
   */
  predicate Bindable(s: AccState)
  {
    s.numRows == |s.data| && s.numRows % 2 == 0
  }

  // ---------------------------------------------------------------------------
  // Appending edges
  // ---------------------------------------------------------------------------

  /** The state after `state << (x, y)`: two more rows, x then y at the end. */
  function WithEdge(s: AccState, x: int, y: int): (r: AccState)
    ensures r.numRows == s.numRows + 2
    ensures |r.data| == |s.data| + 2 && r.data[..|s.data|] == s.data
    ensures r.data[|s.data|] == x && r.data[|s.data| + 1] == y
  {
    AccState(s.numRows + 2, s.data + [x, y])
  }

  /** Appending an edge keeps the state bindable. */
  lemma WithEdgeBindable(s: AccState, x: int, y: int)
    requires Bindable(s)
    ensures Bindable(WithEdge(s, x, y))
  {
  }

  /** The endpoints of an edge list, flattened in order. */
  function Flatten(edges: seq<(int, int)>): (r: seq<int>)
    ensures |r| == 2 * |edges|
  {
    if edges == [] then []
    else Flatten(edges[..|edges| - 1]) + [edges[|edges| - 1].0, edges[|edges| - 1].1]
  }

  /** The state after appending every edge of `edges`, in order, to a new state. */
  function Accumulate(edges: seq<(int, int)>): (r: AccState)
    ensures r.numRows == 2 * |edges| && Bindable(r)
  {
    if edges == [] then Empty
    else WithEdge(Accumulate(edges[..|edges| - 1]), edges[|edges| - 1].0, edges[|edges| - 1].1)
  }

  /** Any run of appends from a new state leaves a bindable state holding the endpoints. */
  lemma {:induction false} AccumulateBindable(edges: seq<(int, int)>)
    ensures Accumulate(edges) == AccState(2 * |edges|, Flatten(edges))
    ensures Bindable(Accumulate(edges))
  {
    if edges != [] {
      AccumulateBindable(edges[..|edges| - 1]);
    }
  }

  // ---------------------------------------------------------------------------
  // Merging two states
  // ---------------------------------------------------------------------------

  /** Element-wise sum of two vectors of one length, as Eigen's `+=`. */
  function AddPointwise(a: seq<int>, b: seq<int>): (r: seq<int>)
    requires |a| == |b|
    ensures |r| == |a|
    ensures forall i :: 0 <= i < |a| ==> r[i] == a[i] + b[i]
  {
    seq(|a|, i requires 0 <= i < |a| => a[i] + b[i])
  }

  /** Eigen's `+=` needs equal lengths; only the third branch of merge uses it. */
  predicate MergeDefined(s: AccState, o: AccState)
  {
    s.numRows == 0 || o.numRows == 0 || |s.data| == |o.data|
  }

  /** The state after `state << other`. */
  function Merged(s: AccState, o: AccState): (r: AccState)
    requires MergeDefined(s, o)
    ensures r.numRows == s.numRows + o.numRows
    ensures s.numRows != 0 ==> |r.data| == |s.data|
  {
    if s.numRows == 0 then o
    else if o.numRows == 0 then s
    else AccState(s.numRows + o.numRows, AddPointwise(s.data, o.data))
  }

  /**
   * Eigen's `+=` is defined on the states of two edge lists only when one
   * list is empty or both have the same number of edges: partial aggregates
   * over different numbers of edges cannot be merged.
   */
  lemma MergeDefinedAccumulate(e1: seq<(int, int)>, e2: seq<(int, int)>)
    ensures MergeDefined(Accumulate(e1), Accumulate(e2)) <==> e1 == [] || e2 == [] || |e1| == |e2|
  {
    AccumulateBindable(e1);
    AccumulateBindable(e2);
  }

  /** Merging into an empty state copies the other state. */
  lemma MergeIntoEmpty(s: AccState, o: AccState)
    requires s.numRows == 0
    ensures Merged(s, o) == o
  {
  }

  /** Merging in an empty state leaves a bindable state unchanged. */
  lemma MergeEmptyOther(s: AccState, o: AccState)
    requires Bindable(s) && Bindable(o) && o.numRows == 0
    ensures Merged(s, o) == s
  {
  }

  /**
   * Merging two non-empty states of one length sums the row counts but
   * keeps the length of `data`: the result is no longer bindable.
   */
  lemma MergeNonEmpty(s: AccState, o: AccState)
    requires s.numRows != 0 && o.numRows != 0 && |s.data| == |o.data|
    ensures Merged(s, o).numRows == s.numRows + o.numRows
    ensures |Merged(s, o).data| == |s.data|
    ensures forall i :: 0 <= i < |s.data| ==> Merged(s, o).data[i] == s.data[i] + o.data[i]
    ensures Bindable(s) && Bindable(o) ==> !Bindable(Merged(s, o))
  {
  }

  /**
   * As written, the merge of the states of the edge lists [(1, 2)] and
   * [(3, 4)] keeps two rows of data, the sums 4 and 6, where the state of
   * both lists holds all four endpoints.
   */
  lemma MergeLosesEdges()
    ensures Merged(Accumulate([(1, 2)]), Accumulate([(3, 4)])) == AccState(4, [4, 6])
    ensures Accumulate([(1, 2), (3, 4)]) == AccState(4, [1, 2, 3, 4])
  {
    assert [(1, 2), (3, 4)][..1] == [(1, 2)];
    assert [(1, 2)][..0] == [];
    assert [(3, 4)][..0] == [];
  }

  /** The merge the row counts call for: the other state's endpoints are appended. */
  function MergedConcat(s: AccState, o: AccState): AccState
  {
    if s.numRows == 0 then o
    else if o.numRows == 0 then s
    else AccState(s.numRows + o.numRows, s.data + o.data)
  }

  lemma {:induction false} FlattenConcat(e1: seq<(int, int)>, e2: seq<(int, int)>)
    ensures Flatten(e1 + e2) == Flatten(e1) + Flatten(e2)
  {
    if e2 != [] {
      var init := e2[..|e2| - 1];
      assert (e1 + e2)[..|e1 + e2| - 1] == e1 + init;
      assert (e1 + e2)[|e1 + e2| - 1] == e2[|e2| - 1];
      FlattenConcat(e1, init);
      assert Flatten(e2) == Flatten(init) + [e2[|e2| - 1].0, e2[|e2| - 1].1];
    } else {
      assert e1 + e2 == e1;
    }
  }

  /**
   * Merging the states of two edge lists by concatenation gives the state of
   * the joined list, which is bindable: partial aggregates can be combined in
   * any split of the input.
   */
  lemma AccumulateConcat(e1: seq<(int, int)>, e2: seq<(int, int)>)
    ensures MergedConcat(Accumulate(e1), Accumulate(e2)) == Accumulate(e1 + e2)
    ensures Bindable(MergedConcat(Accumulate(e1), Accumulate(e2)))
  {
    AccumulateBindable(e1);
    AccumulateBindable(e2);
    AccumulateBindable(e1 + e2);
    FlattenConcat(e1, e2);
    if e1 == [] { assert e1 + e2 == e2; }
    if e2 == [] { assert e1 + e2 == e1; }
  }

  /** The concatenating merge preserves bindability. */
  lemma MergedConcatBindable(s: AccState, o: AccState)
    requires Bindable(s) && Bindable(o)
    ensures Bindable(MergedConcat(s, o))
    ensures |MergedConcat(s, o).data| == |s.data| + |o.data|
  {
  }

  // ---------------------------------------------------------------------------
  // The accumulator in place
  // ---------------------------------------------------------------------------

  class CentralityAccumulator {
    var numRows: nat
    var data: seq<int>

    function State(): AccState
      reads this
    {
      AccState(numRows, data)
    }

    /** A new state, as the aggregate starts with. */
    constructor ()
      ensures State() == Empty
    {
      numRows := 0;
      data := [];
    }

    /** `operator<<(tuple)`: appends the edge (x, y). */
    method AppendEdge(x: int, y: int)
      modifies this
      ensures State() == WithEdge(old(State()), x, y)
    {
      // On the first edge the source also resizes its storage; that has no
      // effect on numRows or data.
      numRows := numRows + 2;
      data := data + [x];
      data := data + [y];
    }

    /** `operator=(other)`: this state becomes a copy of the other one. */
    method Assign(other: CentralityAccumulator)
      modifies this
      ensures State() == old(other.State())
    {
      numRows, data := other.numRows, other.data;
    }

    /** `operator<<(other)`: merges another state into this one. */
    method Merge(other: CentralityAccumulator)
      requires MergeDefined(State(), other.State())
      modifies this
      ensures State() == Merged(old(State()), old(other.State()))
    {
      if numRows == 0 {
        Assign(other);
        return;
      } else if other.numRows == 0 {
        return;
      }
      var rows, more := other.numRows, other.data;
      numRows := numRows + rows;
      data := AddPointwise(data, more);
    }

    /** `operator<<(other)` with the other state's endpoints appended rather than added. */
    method MergeConcat(other: CentralityAccumulator)
      modifies this
      ensures State() == MergedConcat(old(State()), old(other.State()))
    {
      if numRows == 0 {
        Assign(other);
        return;
      } else if other.numRows == 0 {
        return;
      }
      var rows, more := other.numRows, other.data;
      numRows := numRows + rows;
      data := data + more;
    }
  }

  // ---------------------------------------------------------------------------
  // compute
  // ---------------------------------------------------------------------------

  /** The loop of compute visits i = 0, 2, 4, ... < numRows and reads data(i), data(i + 1). */
  function PairEnd(n: nat): (r: nat)
    ensures r % 2 == 0 && n <= r <= n + 1
  {
    n + n % 2
  }

  /** Every read of compute's loop is inside `data`. */
  predicate ReadsInBounds(s: AccState)
  {
    PairEnd(s.numRows) <= |s.data|
  }

  /** A bindable state can be computed on. */
  lemma BindableReadsInBounds(s: AccState)
    requires Bindable(s)
    ensures ReadsInBounds(s)
  {
  }

  /** A merge of two non-empty bindable states cannot be computed on. */
  lemma MergedNotReadable(s: AccState, o: AccState)
    requires Bindable(s) && Bindable(o) && s.numRows != 0 && o.numRows != 0 && |s.data| == |o.data|
    ensures !ReadsInBounds(Merged(s, o))
  {
  }

  /** n copies of 1. */
  function Ones(n: nat): (r: seq<int>)
    ensures |r| == n && forall i :: 0 <= i < n ==> r[i] == 1
  {
    seq(n, i => 1)
  }

  class DegreeCentrality {
    var vertex: seq<int>
    var degree: seq<int>

    /** vertex and degree are always appended together. */
    predicate Valid()
      reads this
    {
      |vertex| == |degree|
    }

    /** The constructor of DegreeCentrality: empty vectors, then compute. */
    constructor (inState: CentralityAccumulator)
      requires ReadsInBounds(inState.State())
      ensures Valid()
      ensures vertex == inState.data[..PairEnd(inState.numRows)]
      ensures degree == Ones(PairEnd(inState.numRows))
    {
      vertex := [];
      degree := [];
      new;
      Compute(inState);
    }

    /** The constructor with the corrected compute: each vertex once, with its degree. */
    constructor Aggregated(inState: CentralityAccumulator)
      requires ReadsInBounds(inState.State())
      ensures Valid() && Distinct(vertex)
      ensures Degrees(vertex, degree) == TallyAll(Degrees([], []), inState.data[..PairEnd(inState.numRows)])
    {
      vertex := [];
      degree := [];
      new;
      ComputeAggregated(inState);
    }

    /**
     * The search loop of compute (lines 146-156): over entries 0 .. len - 1,
     * add one to the degree of v1 and of v2 wherever they are found, and stop
     * once both were found. `stop` is where the scan ended.
     */
    method SearchPair(v1: int, v2: int, len: int) returns (found1: bool, found2: bool, ghost stop: int)
      requires 0 <= len <= |vertex| == |degree|
      modifies this
      ensures vertex == old(vertex) && |degree| == |old(degree)|
      ensures 0 <= stop <= len && (stop < len ==> found1 && found2)
      ensures 0 < stop ==> !(v1 in vertex[..stop - 1] && v2 in vertex[..stop - 1])
      ensures found1 <==> v1 in vertex[..stop]
      ensures found2 <==> v2 in vertex[..stop]
      ensures forall k :: 0 <= k < |degree| ==>
        degree[k] == old(degree[k]) + (if k < stop && vertex[k] == v1 then 1 else 0)
                                    + (if k < stop && vertex[k] == v2 then 1 else 0)
    {
      found1, found2 := false, false;
      var j := 0;
      while j < len
        invariant 0 <= j <= len && vertex == old(vertex) && |degree| == |old(degree)|
        invariant !(found1 && found2)
        invariant found1 <==> v1 in vertex[..j]
        invariant found2 <==> v2 in vertex[..j]
        invariant forall k :: 0 <= k < |degree| ==>
          degree[k] == old(degree[k]) + (if k < j && vertex[k] == v1 then 1 else 0)
                                      + (if k < j && vertex[k] == v2 then 1 else 0)
      {
        if vertex[j] == v1 {
          degree := degree[j := degree[j] + 1];
          found1 := true;
        }
        if vertex[j] == v2 {
          degree := degree[j := degree[j] + 1];
          found2 := true;
        }
        assert vertex[..j + 1] == vertex[..j] + [vertex[j]];
        if found1 && found2 {
          stop := j + 1;
          return;
        }
        j := j + 1;
      }
      assert j > 0 ==> vertex[..j] == vertex[..j - 1] + [vertex[j - 1]];
      stop := j;
    }

    /**
     * `compute(inState)`: for each pair, searches the first `len` vertices
     * and appends each endpoint it did not find with degree 1. `len` is 0
     * and stays 0, so every endpoint is appended.
     */
    method Compute(inState: CentralityAccumulator)
      requires Valid() && ReadsInBounds(inState.State())
      modifies this
      ensures Valid()
      ensures vertex == old(vertex) + inState.data[..PairEnd(inState.numRows)]
      ensures degree == old(degree) + Ones(PairEnd(inState.numRows))
    {
      ghost var v0, d0 := vertex, degree;
      var len := 0;
      var i := 0;
      while i < inState.numRows
        invariant i % 2 == 0 && i <= PairEnd(inState.numRows)
        invariant vertex == v0 + inState.data[..i]
        invariant degree == d0 + Ones(i)
      {
        var v1 := inState.data[i];
        var v2 := inState.data[i + 1];
        var found1, found2, _ := SearchPair(v1, v2, len);
        if !found1 {
          vertex := vertex + [v1];
          degree := degree + [1];
        }
        if !found2 {
          vertex := vertex + [v2];
          degree := degree + [1];
        }
        assert inState.data[..i + 2] == inState.data[..i] + [v1, v2];
        assert Ones(i + 2) == Ones(i) + [1, 1];
        i := i + 2;
      }
    }

    /**
     * One pair of compute with `len` read as the current length of the vertex
     * list, and with a self-loop on a new vertex added to that one entry:
     * v1 and then v2 are tallied.
     */
    method TallyPair(v1: int, v2: int)
      requires Valid() && Distinct(vertex)
      modifies this
      ensures Valid() && Distinct(vertex)
      ensures Degrees(vertex, degree) == Tally(Tally(old(Degrees(vertex, degree)), v1), v2)
    {
      ghost var vs, ds := vertex, degree;
      var found1, found2, stop := SearchPair(v1, v2, |vertex|);
      SearchCountsAll(vs, ds, degree, v1, v2, stop, found1, found2);
      ghost var b1 := Bumped(vs, ds, v1);
      if found1 {
        TallyPresent(vs, ds, v1);
        if found2 {
          TallyPresent(vs, b1, v2);
        } else {
          BumpedAbsent(vs, b1, v2);
          DistinctAppend(vs, v2);
          vertex := vertex + [v2];
          degree := degree + [1];
        }
      } else {
        BumpedAbsent(vs, ds, v1);
        DistinctAppend(vs, v1);
        vertex := vertex + [v1];
        degree := degree + [1];
        if found2 {
          TallyPresent(vs + [v1], ds + [1], v2);
          BumpedAppend(vs, ds, v1, 1, v2);
        } else if v2 == v1 {
          TallyPresent(vs + [v1], ds + [1], v2);
          BumpedAppend(vs, ds, v1, 1, v2);
          BumpedAbsent(vs, ds, v2);
          degree := degree[|degree| - 1 := degree[|degree| - 1] + 1];
        } else {
          DistinctAppend(vs + [v1], v2);
          vertex := vertex + [v2];
          degree := degree + [1];
        }
      }
    }

    /**
     * compute with every endpoint tallied into the entry of its vertex: the
     * degrees become those of TallyAll.
     */
    method ComputeAggregated(inState: CentralityAccumulator)
      requires Valid() && Distinct(vertex) && ReadsInBounds(inState.State())
      modifies this
      ensures Valid() && Distinct(vertex)
      ensures Degrees(vertex, degree) == TallyAll(old(Degrees(vertex, degree)), inState.data[..PairEnd(inState.numRows)])
    {
      ghost var t0 := Degrees(vertex, degree);
      var i := 0;
      while i < inState.numRows
        invariant i % 2 == 0 && i <= PairEnd(inState.numRows)
        invariant Valid() && Distinct(vertex)
        invariant Degrees(vertex, degree) == TallyAll(t0, inState.data[..i])
      {
        TallyAllPair(t0, inState.data, i);
        TallyPair(inState.data[i], inState.data[i + 1]);
        i := i + 2;
      }
    }
  }

  // ---------------------------------------------------------------------------
  // The degree tally compute evidently intends
  // ---------------------------------------------------------------------------

  /** Parallel vertex and degree lists. */
  datatype Degrees = Degrees(vertex: seq<int>, degree: seq<int>)

  predicate Distinct(vs: seq<int>)
  {
    forall i, j :: 0 <= i < j < |vs| ==> vs[i] != vs[j]
  }

  /** The first position of v in vs. */
  function IndexOf(vs: seq<int>, v: int): (k: nat)
    requires v in vs
    ensures k < |vs| && vs[k] == v && v !in vs[..k]
  {
    if vs[0] == v then 0
    else
      var k := 1 + IndexOf(vs[1..], v);
      assert vs[..k] == [vs[0]] + vs[1..][..k - 1];
      k
  }

  /** A position before k holds v only if v occurs before k. */
  lemma NotBefore(vs: seq<int>, v: int, j: int, k: int)
    requires 0 <= j < |vs| && 0 <= k <= |vs|
    ensures j < k && v !in vs[..k] ==> vs[j] != v
  {
    if j < k { assert vs[..k][j] == vs[j]; }
  }

  /** The first position of v is the one with no v before it. */
  lemma IndexOfIs(vs: seq<int>, v: int, k: int)
    requires 0 <= k < |vs| && vs[k] == v && v !in vs[..k]
    ensures IndexOf(vs, v) == k
  {
    var r := IndexOf(vs, v);
    NotBefore(vs, v, r, k);
    NotBefore(vs, v, k, r);
  }

  lemma DistinctIndex(vs: seq<int>, v: int, k: int)
    requires Distinct(vs) && 0 <= k < |vs| && vs[k] == v
    ensures IndexOf(vs, v) == k
  {
    assert forall j :: 0 <= j < k ==> vs[..k][j] != v;
    IndexOfIs(vs, v, k);
  }

  /** One more endpoint v: one more on its entry, or a new entry of degree 1. */
  function Tally(t: Degrees, v: int): (r: Degrees)
    requires |t.vertex| == |t.degree|
    ensures |r.vertex| == |r.degree|
  {
    if v in t.vertex then
      var k := IndexOf(t.vertex, v);
      Degrees(t.vertex, t.degree[k := t.degree[k] + 1])
    else Degrees(t.vertex + [v], t.degree + [1])
  }

  /** Every endpoint of e tallied, in order. */
  function TallyAll(t: Degrees, e: seq<int>): (r: Degrees)
    requires |t.vertex| == |t.degree|
    ensures |r.vertex| == |r.degree|
  {
    if e == [] then t else Tally(TallyAll(t, e[..|e| - 1]), e[|e| - 1])
  }

  /** The degree a tally gives v: its entry, or 0 when v is not a vertex. */
  function DegreeOf(t: Degrees, v: int): int
    requires |t.vertex| == |t.degree|
  {
    if v in t.vertex then t.degree[IndexOf(t.vertex, v)] else 0
  }

  /** How often v occurs in e. */
  function Count(e: seq<int>, v: int): nat
  {
    if e == [] then 0 else Count(e[..|e| - 1], v) + (if e[|e| - 1] == v then 1 else 0)
  }

  /** Tallying v keeps the vertices distinct and adds one to the degree of v only. */
  lemma TallyMeaning(t: Degrees, v: int)
    requires |t.vertex| == |t.degree| && Distinct(t.vertex)
    ensures Distinct(Tally(t, v).vertex)
    ensures forall w :: w in Tally(t, v).vertex <==> w in t.vertex || w == v
    ensures forall w :: DegreeOf(Tally(t, v), w) == DegreeOf(t, w) + (if w == v then 1 else 0)
  {
    var r := Tally(t, v);
    forall w
      ensures DegreeOf(r, w) == DegreeOf(t, w) + (if w == v then 1 else 0)
    {
      if w in t.vertex {
        var k := IndexOf(t.vertex, w);
        DistinctIndex(r.vertex, w, k);
        if v in t.vertex { DistinctIndex(t.vertex, v, IndexOf(t.vertex, v)); }
      } else if w == v {
        DistinctIndex(r.vertex, w, |t.vertex|);
      }
    }
  }

  /**
   * Tallying a list of endpoints from distinct vertices: the vertices stay
   * distinct, they are the old ones and the endpoints, and each degree grows
   * by the number of times its vertex occurs.
   */
  lemma {:induction false} TallyAllMeaning(t: Degrees, e: seq<int>)
    requires |t.vertex| == |t.degree| && Distinct(t.vertex)
    ensures Distinct(TallyAll(t, e).vertex)
    ensures forall w :: w in TallyAll(t, e).vertex <==> w in t.vertex || w in e
    ensures forall w :: DegreeOf(TallyAll(t, e), w) == DegreeOf(t, w) + Count(e, w)
  {
    if e != [] {
      var init := e[..|e| - 1];
      TallyAllMeaning(t, init);
      TallyMeaning(TallyAll(t, init), e[|e| - 1]);
      assert e == init + [e[|e| - 1]];
      assert forall w :: w in e <==> w in init || w == e[|e| - 1];
    }
  }

  /** From no vertices, each tallied vertex's degree is its number of endpoints. */
  lemma TallyFromEmpty(e: seq<int>, k: int)
    requires 0 <= k < |TallyAll(Degrees([], []), e).vertex|
    ensures TallyAll(Degrees([], []), e).degree[k] == Count(e, TallyAll(Degrees([], []), e).vertex[k])
  {
    var r := TallyAll(Degrees([], []), e);
    TallyAllMeaning(Degrees([], []), e);
    DistinctIndex(r.vertex, r.vertex[k], k);
  }

  /** Every entry of vertex v one higher. */
  function Bumped(vs: seq<int>, ds: seq<int>, v: int): (r: seq<int>)
    requires |vs| == |ds|
    ensures |r| == |ds|
    ensures forall k :: 0 <= k < |ds| ==> r[k] == ds[k] + (if vs[k] == v then 1 else 0)
  {
    seq(|ds|, k requires 0 <= k < |ds| => ds[k] + (if vs[k] == v then 1 else 0))
  }

  /** Tallying a vertex already present bumps its one entry. */
  lemma TallyPresent(vs: seq<int>, ds: seq<int>, v: int)
    requires |vs| == |ds| && Distinct(vs) && v in vs
    ensures Tally(Degrees(vs, ds), v) == Degrees(vs, Bumped(vs, ds, v))
  {
    var k := IndexOf(vs, v);
    forall j | 0 <= j < |vs| && vs[j] == v
      ensures j == k
    {
      DistinctIndex(vs, v, j);
    }
    assert ds[k := ds[k] + 1] == Bumped(vs, ds, v);
  }

  /** Appending a vertex extends the bumped degrees by its own entry. */
  lemma BumpedAppend(vs: seq<int>, ds: seq<int>, w: int, c: int, v: int)
    requires |vs| == |ds|
    ensures Bumped(vs + [w], ds + [c], v) == Bumped(vs, ds, v) + [c + (if w == v then 1 else 0)]
  {
  }

  /** Bumping a vertex not in the list changes nothing. */
  lemma BumpedAbsent(vs: seq<int>, ds: seq<int>, v: int)
    requires |vs| == |ds| && v !in vs
    ensures Bumped(vs, ds, v) == ds
  {
  }

  /** With distinct vertices, the scan finds v exactly when v is a vertex. */
  lemma FoundMeansPresent(vs: seq<int>, v: int, stop: int, found: bool)
    requires 0 <= stop <= |vs| && (stop < |vs| ==> found)
    requires found <==> v in vs[..stop]
    ensures found <==> v in vs
  {
    if found {
      var j :| 0 <= j < stop && vs[..stop][j] == v;
      assert vs[j] == v;
    } else {
      assert vs[..stop] == vs;
    }
  }

  /** A scan that ended early had passed the one entry of v, if any. */
  lemma ScannedPast(vs: seq<int>, v: int, stop: int, found: bool, k: int)
    requires Distinct(vs) && 0 <= k < |vs|
    requires 0 <= stop <= |vs| && (stop < |vs| ==> found)
    requires found <==> v in vs[..stop]
    ensures vs[k] == v ==> k < stop
  {
    if stop < |vs| {
      var j :| 0 <= j < stop && vs[..stop][j] == v;
      assert vs[j] == v;
    }
  }

  /**
   * Over distinct vertices, the search loop bumps v1 and v2 on their entries
   * whether or not it stopped early.
   */
  lemma SearchCountsAll(vs: seq<int>, ds: seq<int>, searched: seq<int>, v1: int, v2: int,
                        stop: int, found1: bool, found2: bool)
    requires |vs| == |ds| == |searched| && Distinct(vs)
    requires 0 <= stop <= |vs| && (stop < |vs| ==> found1 && found2)
    requires found1 <==> v1 in vs[..stop]
    requires found2 <==> v2 in vs[..stop]
    requires forall k :: 0 <= k < |ds| ==>
      searched[k] == ds[k] + (if k < stop && vs[k] == v1 then 1 else 0)
                           + (if k < stop && vs[k] == v2 then 1 else 0)
    ensures found1 <==> v1 in vs
    ensures found2 <==> v2 in vs
    ensures searched == Bumped(vs, Bumped(vs, ds, v1), v2)
  {
    FoundMeansPresent(vs, v1, stop, found1);
    FoundMeansPresent(vs, v2, stop, found2);
    forall k | 0 <= k < |vs|
      ensures searched[k] == Bumped(vs, Bumped(vs, ds, v1), v2)[k]
    {
      ScannedPast(vs, v1, stop, found1, k);
      ScannedPast(vs, v2, stop, found2, k);
    }
  }

  /** Appending a new vertex keeps the list distinct. */
  lemma DistinctAppend(vs: seq<int>, v: int)
    requires Distinct(vs) && v !in vs
    ensures Distinct(vs + [v])
  {
  }

  /** The tally of a pair of endpoints, from the degrees the tally of the first leaves. */
  lemma TallyAllPair(t: Degrees, e: seq<int>, i: int)
    requires |t.vertex| == |t.degree| && 0 <= i && i + 2 <= |e|
    ensures TallyAll(t, e[..i + 2]) == Tally(Tally(TallyAll(t, e[..i]), e[i]), e[i + 1])
  {
    assert e[..i + 2][..i + 1] == e[..i + 1];
    assert e[..i + 1][..i] == e[..i];
  }

  /** The result of the final step: no rows gives NULL, otherwise the pairs. */
  datatype Option<T> = None | Some(value: T)

  /**
   * The final step of the aggregate: NULL for an empty state, otherwise the
   * pairs (vertex(i), degree(i)) for i < numRows of a computed result.
   */
  method DegreeFinal(state: CentralityAccumulator) returns (out: Option<seq<(int, int)>>)
    requires ReadsInBounds(state.State())
    ensures state.numRows == 0 <==> out == None
    ensures out.Some? ==> |out.value| == state.numRows
    ensures out.Some? ==> forall i :: 0 <= i < state.numRows ==> out.value[i] == (state.data[i], 1)
  {
    if state.numRows == 0 {
      return None;
    }
    var result := new DegreeCentrality(state);
    var tuple: seq<(int, int)> := [];
    var i := 0;
    while i < state.numRows
      invariant 0 <= i <= state.numRows
      invariant |tuple| == i && forall k :: 0 <= k < i ==> tuple[k] == (state.data[k], 1)
    {
      tuple := tuple + [(result.vertex[i], result.degree[i])];
      i := i + 1;
    }
    return Some(tuple);
  }

  // ---------------------------------------------------------------------------
  // A vertex on two edges, as written and as intended
  // ---------------------------------------------------------------------------

  /**
   * As written: the edges (1, 2) and (1, 3) give four vertices of degree 1,
   * with vertex 1 listed twice.
   */
  method ComputeDuplicatesVertex() returns (vertex: seq<int>, degree: seq<int>)
    ensures vertex == [1, 2, 1, 3] && degree == [1, 1, 1, 1]
    ensures !Distinct(vertex)
  {
    var acc := new CentralityAccumulator();
    acc.AppendEdge(1, 2);
    acc.AppendEdge(1, 3);
    assert acc.data[..PairEnd(acc.numRows)] == [1, 2, 1, 3];
    var dc := new DegreeCentrality(acc);
    vertex, degree := dc.vertex, dc.degree;
    assert vertex[0] == vertex[2];
  }

  /** As intended: the same edges give vertex 1 once, with degree 2. */
  lemma TallyExample()
    ensures TallyAll(Degrees([], []), [1, 2, 1, 3]) == Degrees([1, 2, 3], [2, 1, 1])
  {
    var e := [1, 2, 1, 3];
    assert e[..3] == [1, 2, 1] && e[..3][..2] == [1, 2] && e[..2][..1] == [1] && e[..1][..0] == [];
    assert TallyAll(Degrees([], []), [1]) == Degrees([1], [1]);
    assert TallyAll(Degrees([], []), [1, 2]) == Degrees([1, 2], [1, 1]);
    IndexOfIs([1, 2], 1, 0);
    assert TallyAll(Degrees([], []), [1, 2, 1]) == Degrees([1, 2], [2, 1]);
  }

  /** Each tallied endpoint adds at most one vertex, and none when it is already a vertex. */
  lemma {:induction false} TallySize(t: Degrees, e: seq<int>)
    requires |t.vertex| == |t.degree|
    ensures |TallyAll(t, e).vertex| <= |t.vertex| + |e|
  {
    if e != [] {
      TallySize(t, e[..|e| - 1]);
    }
  }

  /**
   * An endpoint that occurs twice leaves fewer vertices than endpoints, so
   * with the corrected compute the final step cannot run its loop up to
   * numRows: it would read past `vertex`.
   */
  lemma {:induction false} TallyRepeatShrinks(e: seq<int>, i: int, j: int)
    requires 0 <= i < j < |e| && e[i] == e[j]
    ensures |TallyAll(Degrees([], []), e).vertex| < |e|
  {
    var init := e[..|e| - 1];
    if j == |e| - 1 {
      TallySize(Degrees([], []), init);
      TallyAllMeaning(Degrees([], []), init);
      assert init[i] == e[j];
    } else {
      TallyRepeatShrinks(init, i, j);
    }
  }

  /**
   * The final step over the corrected result: NULL for an empty state,
   * otherwise one pair per distinct vertex, holding its number of endpoints.
   */
  method DegreeFinalAggregated(state: CentralityAccumulator) returns (out: Option<seq<(int, int)>>)
    requires ReadsInBounds(state.State())
    ensures state.numRows == 0 <==> out == None
    ensures out.Some? ==>
      var t := TallyAll(Degrees([], []), state.data[..PairEnd(state.numRows)]);
      |out.value| == |t.vertex| && forall i :: 0 <= i < |out.value| ==> out.value[i] == (t.vertex[i], t.degree[i])
    ensures out.Some? ==> forall i :: 0 <= i < |out.value| ==>
      out.value[i].1 == Count(state.data[..PairEnd(state.numRows)], out.value[i].0)
  {
    if state.numRows == 0 {
      return None;
    }
    ghost var e := state.data[..PairEnd(state.numRows)];
    var result := new DegreeCentrality.Aggregated(state);
    var tuple: seq<(int, int)> := [];
    var i := 0;
    while i < |result.vertex|
      invariant 0 <= i <= |result.vertex|
      invariant |tuple| == i && forall k :: 0 <= k < i ==> tuple[k] == (result.vertex[k], result.degree[k])
    {
      tuple := tuple + [(result.vertex[i], result.degree[i])];
      i := i + 1;
    }
    forall k | 0 <= k < |tuple|
      ensures tuple[k].1 == Count(e, tuple[k].0)
    {
      TallyFromEmpty(e, k);
    }
    return Some(tuple);
  }
}
