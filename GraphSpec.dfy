/** The graph as a value: what a `Grafo` holds once object identity and
    the transient `visitado` flags are set aside, and what each of its
    operations does to that value. The class in Graphs.dfy is proved
    against these functions; the lemmas here state what the operations
    guarantee. */
module GraphSpec {
  import opened Wrappers
  import opened JavaLib

  /** The outgoing arcs of every vertex: vertex id -> destination id ->
      weight. The weight is None for an arc of an unweighted graph, whose
      `getPeso()` returns null. */
  type Adjacency = map<Int32, map<Int32, Option<Int32>>>

  /** The persistent state of a graph: its two mode flags and its arcs. */
  datatype Snapshot = Snapshot(weighted: bool, directed: bool, adj: Adjacency)

  /** The four edge-insertion strategies: AddArestaNPND, AddArestaPND,
      AddArestaNPD and AddArestaPD. */
  datatype Policy = UnweightedUndirected | WeightedUndirected | UnweightedDirected | WeightedDirected
  {
    predicate Weighted() {
      this == WeightedUndirected || this == WeightedDirected
    }

    predicate Directed() {
      this == UnweightedDirected || this == WeightedDirected
    }
  }

  /** The constructor's switch on `(ponderado ? 1 : 0) + (direcionado ? 2 : 0)`. */
  function SelectPolicy(weighted: bool, directed: bool): (p: Policy)
    ensures p.Weighted() == weighted && p.Directed() == directed
  {
    match (if weighted then 1 else 0) + (if directed then 2 else 0)
    case 0 => UnweightedUndirected
    case 1 => WeightedUndirected
    case 2 => UnweightedDirected
    case _ => WeightedDirected
  }

  /** The row of a vertex after `put(d, arc)`: the arc to d is added or overwritten. */
  function Put(row: map<Int32, Option<Int32>>, d: Int32, w: Option<Int32>): map<Int32, Option<Int32>> {
    row[d := w]
  }

  /** `vertices.get(k).addAresta(arc)` on the value: k's row gets the arc to d. */
  function WithArc(adj: Adjacency, k: Int32, d: Int32, w: Option<Int32>): Adjacency
    requires k in adj
  {
    adj[k := Put(adj[k], d, w)]
  }

  /** `vertices.get(k).removerAresta(d)` on the value. */
  function WithoutArc(adj: Adjacency, k: Int32, d: Int32): Adjacency
    requires k in adj
  {
    adj[k := adj[k] - {d}]
  }

  /** The weight a policy attaches to the arcs it creates. */
  function ArcWeight(p: Policy, weight: Int32): Option<Int32> {
    if p.Weighted() then Some(weight) else None
  }

  // ---------------------------------------------------------------------
  // Invariants and structural properties

  /** Every arc ends at a vertex of the graph. */
  ghost predicate NoDangling(adj: Adjacency) {
    forall k, d :: k in adj && d in adj[k] ==> d in adj
  }

  /** Arcs carry a weight exactly when the graph is weighted. */
  ghost predicate WeightsMatch(adj: Adjacency, weighted: bool) {
    forall k, d :: k in adj && d in adj[k] ==> adj[k][d].Some? == weighted
  }

  /** What every `Grafo` reachable through its public operations and its
      loader satisfies. */
  ghost predicate WellFormed(s: Snapshot) {
    NoDangling(s.adj) && WeightsMatch(s.adj, s.weighted)
  }

  ghost predicate NoSelfLoops(adj: Adjacency) {
    forall k :: k in adj ==> k !in adj[k]
  }

  /** Every arc has its reverse, with the same weight: the shape of an
      undirected graph. */
  ghost predicate Symmetric(adj: Adjacency) {
    forall a, b :: a in adj && b in adj[a] ==> b in adj && a in adj[b] && adj[b][a] == adj[a][b]
  }

  /** `completo()`: no vertex, or every vertex has n - 1 outgoing arcs. */
  ghost predicate Complete(adj: Adjacency) {
    |adj| == 0 || forall k :: k in adj ==> |adj[k]| == |adj| - 1
  }

  /** The textbook notion: an arc between every ordered pair of distinct vertices. */
  ghost predicate AllPairsLinked(adj: Adjacency) {
    forall a, b :: a in adj && b in adj && a != b ==> b in adj[a]
  }

  /** The destinations of all arcs. */
  ghost function Entered(adj: Adjacency): set<Int32> {
    set k, d | k in adj && d in adj[k] :: d
  }

  /** `fortementeConexo()`: every vertex is the destination of some arc. */
  ghost predicate AllEntered(adj: Adjacency) {
    forall k :: k in adj ==> k in Entered(adj)
  }

  /** A walk along arcs, visiting p[0], p[1], ... in turn. */
  ghost predicate IsPath(adj: Adjacency, p: seq<Int32>) {
    |p| >= 1 && p[0] in adj && forall i :: 0 <= i < |p| - 1 ==> p[i] in adj && p[i + 1] in adj[p[i]]
  }

  ghost predicate Reaches(adj: Adjacency, a: Int32, b: Int32) {
    exists p :: IsPath(adj, p) && |p| >= 2 && p[0] == a && p[|p| - 1] == b
  }

  /** The textbook notion: every vertex reaches every other one. */
  ghost predicate StronglyConnected(adj: Adjacency) {
    forall a, b :: a in adj && b in adj && a != b ==> Reaches(adj, a, b)
  }

  // ---------------------------------------------------------------------
  // Operations

  /** An operation's boolean result and the arcs afterwards. */
  datatype Outcome = Outcome(ok: bool, adj: Adjacency)

  /** `addVertice(id)`. */
  function AddVertex(adj: Adjacency, id: Int32): (r: Outcome)
    ensures r.ok <==> id !in adj
    ensures r.adj.Keys == adj.Keys + {id}
    ensures forall k :: k in adj ==> r.adj[k] == adj[k]
    ensures r.ok ==> r.adj[id] == map[]
  {
    if id in adj then Outcome(false, adj) else Outcome(true, adj[id := map[]])
  }

  /** The active policy's `addAresta(origem, destino)`: a directed policy
      puts origin -> dest only; an undirected one puts origin -> dest and,
      when that put was new, dest -> origin, both with the same weight. A
      put overwrites an arc already there and reports false, and the
      result is the `&&` of the puts. */
  function Connect(adj: Adjacency, p: Policy, o: Int32, d: Int32, weight: Int32): (r: Outcome)
    requires o in adj && d in adj
    ensures r.adj.Keys == adj.Keys
    ensures d in r.adj[o] && r.adj[o][d] == ArcWeight(p, weight)
    ensures forall k :: k in adj && k != o && k != d ==> r.adj[k] == adj[k]
    ensures p.Directed() ==> r.ok == (d !in adj[o]) && r.adj == WithArc(adj, o, d, ArcWeight(p, weight))
  {
    var w := ArcWeight(p, weight);
    var first := d !in adj[o];
    var adj1 := WithArc(adj, o, d, w);
    if p.Directed() || !first then Outcome(first, adj1)
    else Outcome(o !in adj1[d], WithArc(adj1, d, o, w))
  }

  /** `addAresta(id1, id2)`: refused when an endpoint is missing, for a
      self-loop, or when the arc id1 -> id2 exists; otherwise the policy's
      result. */
  function AddArc(adj: Adjacency, p: Policy, a: Int32, b: Int32, weight: Int32): (r: Outcome)
    ensures a !in adj || b !in adj || a == b || b in adj[a] ==> r == Outcome(false, adj)
    ensures r.adj.Keys == adj.Keys
    ensures a in adj && b in adj && a != b && b !in adj[a] ==>
              b in r.adj[a] && r.adj[a][b] == ArcWeight(p, weight)
  {
    if a !in adj || b !in adj || a == b || b in adj[a] then Outcome(false, adj)
    else Connect(adj, p, a, b, weight)
  }

  /** `removerVertice(id)`: refused when id is absent; otherwise the vertex
      goes, and so does every arc into it. */
  function RemoveVertex(adj: Adjacency, id: Int32): (r: Outcome)
    ensures r.ok <==> id in adj
    ensures r.adj.Keys == adj.Keys - {id}
  {
    if id !in adj then Outcome(false, adj)
    else Outcome(true, map k | k in adj && k != id :: adj[k] - {id})
  }

  /** Part way through `removerVertice`'s loop: every row except those
      still pending has lost its arc to id. */
  ghost function PrunedExcept(adj: Adjacency, id: Int32, pending: set<Int32>): (r: Adjacency)
    ensures r.Keys == adj.Keys
  {
    map k | k in adj :: if k in pending then adj[k] else adj[k] - {id}
  }

  /** One more row pruned. */
  lemma PruneStep(adj: Adjacency, id: Int32, pending: set<Int32>, k: Int32)
    requires k in pending && k in adj
    ensures WithoutArc(PrunedExcept(adj, id, pending), k, id) == PrunedExcept(adj, id, pending - {k})
  {
  }

  /** Once every row is pruned, the arcs are those `removerVertice` leaves. */
  lemma PruneDone(adj: Adjacency, id: Int32)
    requires id in adj
    ensures PrunedExcept(adj - {id}, id, {}) == RemoveVertex(adj, id).adj
  {
  }

  /** `removerAresta(id1, id2)`: refused when an endpoint or the arc is
      missing; otherwise id1 -> id2 goes, and in an undirected graph
      id2 -> id1 too, the result then saying whether that one existed. */
  function RemoveArc(adj: Adjacency, directed: bool, a: Int32, b: Int32): (r: Outcome)
    ensures a !in adj || b !in adj || b !in adj[a] ==> r == Outcome(false, adj)
    ensures r.adj.Keys == adj.Keys
  {
    if a !in adj || b !in adj || b !in adj[a] then Outcome(false, adj)
    else
      var adj1 := WithoutArc(adj, a, b);
      if directed then Outcome(true, adj1)
      else Outcome(a in adj1[b], WithoutArc(adj1, b, a))
  }

  // ---------------------------------------------------------------------
  // What the operations guarantee

  /** Adding the same vertex twice: the second call is refused and changes nothing. */
  lemma AddVertexTwice(adj: Adjacency, id: Int32)
    ensures var first := AddVertex(adj, id);
            var second := AddVertex(first.adj, id);
            !second.ok && second.adj == first.adj && |second.adj| == |first.adj|
  {
  }

  /** A new vertex has no arcs, so the graph stays well formed. */
  lemma AddVertexKeepsInvariants(s: Snapshot, id: Int32)
    requires WellFormed(s)
    ensures WellFormed(Snapshot(s.weighted, s.directed, AddVertex(s.adj, id).adj))
  {
  }

  /** A successful `addAresta` creates the arc a -> b, and b -> a as well
      in an undirected graph; in a directed graph it touches nothing but
      a's arcs. A refused one changes nothing. */
  lemma AddArcEffect(adj: Adjacency, p: Policy, a: Int32, b: Int32, weight: Int32)
    ensures var r := AddArc(adj, p, a, b, weight);
            && (!r.ok && !(a in adj && b in adj && a != b && b !in adj[a]) ==> r.adj == adj)
            && (r.ok ==> a in adj && b in adj && a != b && b !in adj[a] && b in r.adj[a])
            && (r.ok && !p.Directed() ==> a in r.adj[b] && r.adj[b][a] == r.adj[a][b])
            && (p.Directed() ==> forall k :: k in adj && k != a ==> r.adj[k] == adj[k])
  {
  }

  /** The asymmetric case the undirected policies allow: when b -> a
      already exists (a loaded file may hold it without a -> b), the call
      reports false yet has added a -> b and overwritten b -> a. */
  lemma AddArcOverwritesReverse(adj: Adjacency, p: Policy, a: Int32, b: Int32, weight: Int32)
    requires !p.Directed()
    requires a in adj && b in adj && a != b && b !in adj[a] && a in adj[b]
    ensures var w := ArcWeight(p, weight);
            AddArc(adj, p, a, b, weight) == Outcome(false, WithArc(WithArc(adj, a, b, w), b, a, w))
  {
  }

  /** In an undirected graph that is symmetric, `addAresta` fails only
      for the guard's reasons, and the graph stays symmetric. */
  lemma AddArcSymmetric(adj: Adjacency, p: Policy, a: Int32, b: Int32, weight: Int32)
    requires !p.Directed() && Symmetric(adj)
    ensures var r := AddArc(adj, p, a, b, weight);
            && Symmetric(r.adj)
            && (r.ok <==> a in adj && b in adj && a != b && b !in adj[a])
  {
    var r := AddArc(adj, p, a, b, weight);
    if a in adj && b in adj && a != b && b !in adj[a] {
      var w := ArcWeight(p, weight);
      assert a !in adj[b];
      assert r.adj == adj[a := Put(adj[a], b, w)][b := Put(adj[b], a, w)];
      forall x, y | x in r.adj && y in r.adj[x]
        ensures y in r.adj && x in r.adj[y] && r.adj[y][x] == r.adj[x][y]
      {
        if (x == a && y == b) || (x == b && y == a) {
        } else {
          assert y in adj[x];
        }
      }
    }
  }

  /** `addAresta` never creates a self-loop, never creates a dangling
      arc, and gives weights exactly in a weighted graph. */
  lemma AddArcKeepsInvariants(s: Snapshot, a: Int32, b: Int32, weight: Int32)
    requires WellFormed(s)
    ensures var r := AddArc(s.adj, SelectPolicy(s.weighted, s.directed), a, b, weight);
            && WellFormed(Snapshot(s.weighted, s.directed, r.adj))
            && (NoSelfLoops(s.adj) ==> NoSelfLoops(r.adj))
  {
    var p := SelectPolicy(s.weighted, s.directed);
    var r := AddArc(s.adj, p, a, b, weight);
    if a in s.adj && b in s.adj && a != b && b !in s.adj[a] {
      forall k, d | k in r.adj && d in r.adj[k]
        ensures d in r.adj && r.adj[k][d].Some? == s.weighted
        ensures NoSelfLoops(s.adj) ==> d != k
      {
        if (k == a && d == b) || (k == b && d == a) {
        } else {
          assert d in s.adj[k];
        }
      }
    }
  }

  /** `removerVertice(id)` leaves no arc into id and touches no other arc. */
  lemma RemoveVertexEffect(adj: Adjacency, id: Int32)
    requires id in adj
    ensures var r := RemoveVertex(adj, id);
            && (forall k :: k in r.adj ==> id !in r.adj[k])
            && (forall k, d :: k in r.adj && d in adj[k] && d != id ==> d in r.adj[k] && r.adj[k][d] == adj[k][d])
            && (forall k, d :: k in r.adj && d in r.adj[k] ==> d in adj[k])
  {
  }

  /** `removerVertice` keeps a well-formed graph well formed (no dangling
      arc survives), keeps it free of self-loops and keeps it symmetric. */
  lemma RemoveVertexKeepsInvariants(s: Snapshot, id: Int32)
    requires WellFormed(s)
    ensures var r := RemoveVertex(s.adj, id);
            && WellFormed(Snapshot(s.weighted, s.directed, r.adj))
            && (NoSelfLoops(s.adj) ==> NoSelfLoops(r.adj))
            && (Symmetric(s.adj) ==> Symmetric(r.adj))
  {
    var r := RemoveVertex(s.adj, id);
    if id in s.adj {
      forall k, d | k in r.adj && d in r.adj[k]
        ensures d in r.adj && d in s.adj[k] && r.adj[k][d] == s.adj[k][d]
      {
        assert d in s.adj[k] && d != id;
      }
    }
  }

  /** A successful `removerAresta(a, b)` deletes a -> b; in an undirected
      graph it also deletes b -> a, and in a directed one it keeps every
      other arc, b -> a included. */
  lemma RemoveArcEffect(adj: Adjacency, directed: bool, a: Int32, b: Int32)
    requires a in adj && b in adj && b in adj[a]
    ensures var r := RemoveArc(adj, directed, a, b);
            && b !in r.adj[a]
            && (!directed ==> a !in r.adj[b] && (r.ok <==> a != b && a in adj[b]))
            && (directed ==> r.ok)
            && (forall k, d :: k in adj && d in adj[k] && (k, d) != (a, b) && (directed || (k, d) != (b, a)) ==>
                  d in r.adj[k] && r.adj[k][d] == adj[k][d])
            && (forall k, d :: k in r.adj && d in r.adj[k] ==> d in adj[k] && r.adj[k][d] == adj[k][d])
  {
  }

  /** `removerAresta` keeps the graph well formed, loop-free and, when
      undirected, symmetric. */
  lemma RemoveArcKeepsInvariants(s: Snapshot, a: Int32, b: Int32)
    requires WellFormed(s)
    ensures var r := RemoveArc(s.adj, s.directed, a, b);
            && WellFormed(Snapshot(s.weighted, s.directed, r.adj))
            && (NoSelfLoops(s.adj) ==> NoSelfLoops(r.adj))
            && (!s.directed && Symmetric(s.adj) ==> Symmetric(r.adj))
  {
    var r := RemoveArc(s.adj, s.directed, a, b);
    if a in s.adj && b in s.adj && b in s.adj[a] {
      RemoveArcEffect(s.adj, s.directed, a, b);
      if !s.directed && Symmetric(s.adj) {
        forall x, y | x in r.adj && y in r.adj[x]
          ensures y in r.adj && x in r.adj[y] && r.adj[y][x] == r.adj[x][y]
        {
          assert y in s.adj[x];
          assert (x, y) != (a, b) && (x, y) != (b, a);
        }
      }
    }
  }

  // ---------------------------------------------------------------------
  // completo()

  lemma SubsetOfSameSize(a: set<Int32>, b: set<Int32>)
    requires a <= b && |a| == |b|
    ensures a == b
  {
    if a != b {
      var x :| x in b && x !in a;
      assert a <= b - {x};
      assert |b - {x}| == |b| - 1;
      SubsetSize(a, b - {x});
    }
  }

  lemma {:induction false} SubsetSize(a: set<Int32>, b: set<Int32>)
    requires a <= b
    ensures |a| <= |b|
    decreases b
  {
    if a != {} {
      var x :| x in a;
      SubsetSize(a - {x}, b - {x});
    }
  }

  /** One vertex of a graph without self-loops or dangling arcs has
      out-degree n - 1 exactly when it has an arc to every other vertex. */
  lemma DegreeIffLinked(adj: Adjacency, k: Int32)
    requires NoDangling(adj) && NoSelfLoops(adj) && k in adj
    ensures |adj[k]| == |adj| - 1 <==> adj[k].Keys == adj.Keys - {k}
  {
    var others := adj.Keys - {k};
    assert adj[k].Keys <= others;
    assert |others| == |adj.Keys| - 1;
    assert |adj[k]| == |adj[k].Keys|;
    if |adj[k]| == |adj| - 1 {
      SubsetOfSameSize(adj[k].Keys, others);
    }
  }

  /** Out-degree n - 1 everywhere is the textbook completeness as long as
      the graph has neither self-loops nor dangling arcs (both of which a
      loaded file can bring in). */
  lemma CompleteIffAllPairsLinked(adj: Adjacency)
    requires NoDangling(adj) && NoSelfLoops(adj)
    ensures Complete(adj) <==> AllPairsLinked(adj)
  {
    if AllPairsLinked(adj) && |adj| != 0 {
      forall k | k in adj
        ensures |adj[k]| == |adj| - 1
      {
        assert adj[k].Keys == adj.Keys - {k};
        DegreeIffLinked(adj, k);
      }
    }
    if Complete(adj) {
      forall a, b | a in adj && b in adj && a != b
        ensures b in adj[a]
      {
        DegreeIffLinked(adj, a);
        assert b in adj.Keys - {a};
      }
    }
  }

  lemma CompleteIffAllPairsLinkedIfLoopFree(adj: Adjacency)
    requires NoDangling(adj)
    ensures NoSelfLoops(adj) ==> (Complete(adj) <==> AllPairsLinked(adj))
  {
    if NoSelfLoops(adj) {
      CompleteIffAllPairsLinked(adj);
    }
  }

  ghost predicate InRange(x: int, n: int) {
    0 <= x < n
  }

  /** K_n on the vertices 0 .. n - 1, unweighted: what `gerarCompleto` builds. */
  ghost function CompleteGraph(n: Int32): Adjacency {
    map a: Int32 | InRange(a, n) :: map b: Int32 | InRange(b, n) && b != a :: None
  }

  lemma CompleteGraphProperties(n: Int32)
    ensures var g := CompleteGraph(n);
            && Complete(g) && AllPairsLinked(g) && Symmetric(g) && NoSelfLoops(g)
            && WellFormed(Snapshot(false, false, g))
  {
    var g := CompleteGraph(n);
    CompleteIffAllPairsLinked(g);
  }

  /** Deleting any one arc from a complete graph makes `completo()` false. */
  lemma RemoveArcBreaksCompleteness(n: Int32, directed: bool, a: Int32, b: Int32)
    requires 0 <= a < n && 0 <= b < n && a != b
    ensures !Complete(RemoveArc(CompleteGraph(n), directed, a, b).adj)
  {
    var g := CompleteGraph(n);
    CompleteGraphProperties(n);
    var r := RemoveArc(g, directed, a, b);
    RemoveArcKeepsInvariants(Snapshot(false, directed, g), a, b);
    RemoveArcEffect(g, directed, a, b);
    CompleteIffAllPairsLinked(r.adj);
  }

  /** The pairs `gerarCompleto`'s loops `for i, for j > i` have linked by
      the time they reach (i, j): those whose smaller end is below i, or
      is i with the larger end below j. */
  ghost predicate LinkedBy(i: int, j: int, a: int, b: int) {
    || (a < b && (a < i || (a == i && b < j)))
    || (b < a && (b < i || (b == i && a < j)))
  }

  /** The arcs of vertex a once the loops have reached (i, j). */
  ghost function LinkedRow(n: Int32, i: int, j: int, a: Int32): map<Int32, Option<Int32>> {
    map b: Int32 | InRange(b, n) && b != a && LinkedBy(i, j, a, b) :: None
  }

  ghost function PartiallyLinked(n: Int32, i: int, j: int): Adjacency {
    map a: Int32 | InRange(a, n) :: LinkedRow(n, i, j, a)
  }

  /** The vertices 0 .. i - 1 with no arcs. */
  ghost function Isolated(i: int): Adjacency {
    map a: Int32 | InRange(a, i) :: map[]
  }

  /** Two rows of unweighted arcs with the same destinations are equal. */
  lemma SameUnweightedRow(r1: map<Int32, Option<Int32>>, r2: map<Int32, Option<Int32>>)
    requires forall b :: b in r1 ==> r1[b] == None
    requires forall b :: b in r2 ==> r2[b] == None
    requires forall b :: b in r1 <==> b in r2
    ensures r1 == r2
  {
    assert r1.Keys == r2.Keys;
  }

  /** `addVertice(i)` after the vertices 0 .. i - 1. */
  lemma IsolatedStep(i: Int32)
    requires 0 <= i
    ensures AddVertex(Isolated(i), i) == Outcome(true, Isolated(i + 1))
  {
    assert Isolated(i)[i := map[]] == Isolated(i + 1);
  }

  lemma IsolatedIsPartiallyLinked(n: Int32)
    ensures Isolated(n) == PartiallyLinked(n, 0, 1)
  {
    forall a: Int32 | InRange(a, n)
      ensures LinkedRow(n, 0, 1, a) == map[]
    {
      SameUnweightedRow(LinkedRow(n, 0, 1, a), map[]);
    }
  }

  /** The row of i gains j, and that of j gains i, when the loops step
      from (i, j) to (i, j + 1); the other rows stay. */
  lemma LinkedRowsStep(n: Int32, i: Int32, j: Int32)
    requires 0 <= i < j < n
    ensures Put(LinkedRow(n, i, j, i), j, None) == LinkedRow(n, i, j + 1, i)
    ensures Put(LinkedRow(n, i, j, j), i, None) == LinkedRow(n, i, j + 1, j)
    ensures forall a: Int32 :: a != i && a != j ==> LinkedRow(n, i, j, a) == LinkedRow(n, i, j + 1, a)
  {
    SameUnweightedRow(Put(LinkedRow(n, i, j, i), j, None), LinkedRow(n, i, j + 1, i));
    SameUnweightedRow(Put(LinkedRow(n, i, j, j), i, None), LinkedRow(n, i, j + 1, j));
    forall a: Int32 | a != i && a != j
      ensures LinkedRow(n, i, j, a) == LinkedRow(n, i, j + 1, a)
    {
      SameUnweightedRow(LinkedRow(n, i, j, a), LinkedRow(n, i, j + 1, a));
    }
  }

  /** One step of the inner loop: `addAresta(i, j)` on an undirected,
      unweighted graph links the pair both ways and succeeds. */
  lemma LinkStep(n: Int32, i: Int32, j: Int32, weight: Int32)
    requires 0 <= i < j < n
    ensures AddArc(PartiallyLinked(n, i, j), UnweightedUndirected, i, j, weight)
            == Outcome(true, PartiallyLinked(n, i, j + 1))
  {
    var g := PartiallyLinked(n, i, j);
    var g' := PartiallyLinked(n, i, j + 1);
    assert InRange(i, n) && InRange(j, n);
    assert g[i] == LinkedRow(n, i, j, i) && g[j] == LinkedRow(n, i, j, j);
    assert !LinkedBy(i, j, i, j) && !LinkedBy(i, j, j, i);
    assert j !in g[i] && i !in g[j];
    LinkedRowsStep(n, i, j);
    var r := AddArc(g, UnweightedUndirected, i, j, weight);
    assert r.adj == g[i := Put(g[i], j, None)][j := Put(g[j], i, None)];
    assert r.adj.Keys == g'.Keys;
    assert r.adj == g';
  }

  /** The end of one inner loop is the start of the next. */
  lemma NextRow(n: Int32, i: Int32)
    requires 0 <= i < n
    ensures PartiallyLinked(n, i, n) == PartiallyLinked(n, i + 1, i + 2)
  {
    var g := PartiallyLinked(n, i, n);
    var g' := PartiallyLinked(n, i + 1, i + 2);
    forall a | a in g
      ensures g[a] == g'[a]
    {
      SameUnweightedRow(g[a], g'[a]);
    }
  }

  lemma AllRowsLinked(n: Int32)
    requires 0 <= n
    ensures PartiallyLinked(n, n, n + 1) == CompleteGraph(n)
  {
    var g := PartiallyLinked(n, n, n + 1);
    var g' := CompleteGraph(n);
    forall a | a in g
      ensures g[a] == g'[a]
    {
      SameUnweightedRow(g[a], g'[a]);
    }
  }

  // ---------------------------------------------------------------------
  // fortementeConexo()

  /** The destinations of the arcs leaving the vertices ks: what the
      marking loop has set `visitado` on once it has gone through ks. */
  ghost function EnteredFrom(adj: Adjacency, ks: set<Int32>): set<Int32> {
    set k, d | k in ks && k in adj && d in adj[k] :: d
  }

  lemma EnteredFromNone(adj: Adjacency)
    ensures EnteredFrom(adj, {}) == {}
  {
  }

  /** Going through one more vertex k adds k's destinations. */
  lemma EnteredFromStep(adj: Adjacency, ks: set<Int32>, k: Int32)
    requires k in adj
    ensures EnteredFrom(adj, ks + {k}) == EnteredFrom(adj, ks) + adj[k].Keys
  {
    forall j | j in adj[k]
      ensures j in EnteredFrom(adj, ks + {k})
    {
      assert k in ks + {k};
    }
  }

  /** Going through every vertex reaches every destination. */
  lemma EnteredFromAll(adj: Adjacency)
    ensures EnteredFrom(adj, adj.Keys) == Entered(adj)
  {
  }

  /** True strong connectivity implies what `fortementeConexo()` checks,
      once there are two vertices. */
  lemma StronglyConnectedImpliesAllEntered(adj: Adjacency)
    requires |adj| >= 2 && StronglyConnected(adj)
    ensures AllEntered(adj)
  {
    forall k | k in adj
      ensures k in Entered(adj)
    {
      assert |adj.Keys - {k}| == |adj| - 1;
      var j :| j in adj.Keys - {k};
      assert Reaches(adj, j, k);
      var p :| IsPath(adj, p) && |p| >= 2 && p[0] == j && p[|p| - 1] == k;
      var prev := p[|p| - 2];
      assert prev in adj && k in adj[prev];
    }
  }

  /** ... but not conversely: two separate two-vertex cycles give every
      vertex an incoming arc while 0 cannot reach 2. */
  lemma AllEnteredIsNotStrongConnectivity()
    ensures var g: Adjacency := map[0 := map[1 := None], 1 := map[0 := None],
                                    2 := map[3 := None], 3 := map[2 := None]];
            AllEntered(g) && !StronglyConnected(g)
  {
    var g: Adjacency := map[0 := map[1 := None], 1 := map[0 := None],
                            2 := map[3 := None], 3 := map[2 := None]];
    assert 1 in g[0] && 0 in g[1] && 3 in g[2] && 2 in g[3];
    if Reaches(g, 0, 2) {
      var p :| IsPath(g, p) && |p| >= 2 && p[0] == 0 && p[|p| - 1] == 2;
      StaysLow(g, p, |p| - 1);
      assert false;
    }
  }

  lemma {:induction false} StaysLow(g: Adjacency, p: seq<Int32>, i: nat)
    requires g == map[0 := map[1 := None], 1 := map[0 := None], 2 := map[3 := None], 3 := map[2 := None]]
    requires IsPath(g, p) && p[0] == 0 && i < |p|
    ensures p[i] == 0 || p[i] == 1
  {
    if i > 0 {
      StaysLow(g, p, i - 1);
      assert p[i] in g[p[i - 1]];
    }
  }

  /** The directed graph {0, 1} with the single arc 0 -> 1: vertex 0 has
      no incoming arc, so `fortementeConexo()` is false. */
  lemma SingleArcNotAllEntered()
    ensures !AllEntered(map[0 := map[1 := None], 1 := map[]])
  {
    var g: Adjacency := map[0 := map[1 := None], 1 := map[]];
    assert 0 !in Entered(g);
  }

  /** Under an undirected policy, linking two unlinked vertices puts the
      arc both ways with the same weight. */
  lemma LinkFresh(adj: Adjacency, p: Policy, a: Int32, b: Int32, weight: Int32)
    requires !p.Directed()
    requires a in adj && b in adj && a != b && b !in adj[a] && a !in adj[b]
    ensures AddArc(adj, p, a, b, weight)
            == Outcome(true, WithArc(WithArc(adj, a, b, ArcWeight(p, weight)), b, a, ArcWeight(p, weight)))
  {
  }

  /** The weighted undirected path 0 - 1 - 2 with weights 5 and 3. */
  const WeightedPath: Adjacency :=
    map[0 := map[1 := Some(5)], 1 := map[0 := Some(5), 2 := Some(3)], 2 := map[1 := Some(3)]]

  /** Three `addVertice` and two `addAresta` calls under the weighted
      undirected policy build that path. */
  lemma WeightedPathBuilt()
    ensures var p := WeightedUndirected;
            var g0 := AddVertex(AddVertex(AddVertex(map[], 0).adj, 1).adj, 2).adj;
            AddArc(AddArc(g0, p, 0, 1, 5).adj, p, 1, 2, 3).adj == WeightedPath
  {
    var p := WeightedUndirected;
    var a0 := AddVertex(map[], 0).adj;
    assert a0 == map[0 := map[]];
    var a1 := AddVertex(a0, 1).adj;
    assert a1 == map[0 := map[], 1 := map[]];
    var g0 := AddVertex(a1, 2).adj;
    assert g0 == map[0 := map[], 1 := map[], 2 := map[]];
    LinkFresh(g0, p, 0, 1, 5);
    var h := AddArc(g0, p, 0, 1, 5).adj;
    assert h.Keys == {0, 1, 2} && h[0] == map[1 := Some(5)] && h[1] == map[0 := Some(5)] && h[2] == map[];
    LinkFresh(h, p, 1, 2, 3);
    var g1 := AddArc(h, p, 1, 2, 3).adj;
    assert g1.Keys == {0, 1, 2} && g1[0] == map[1 := Some(5)];
    assert g1[1] == map[0 := Some(5), 2 := Some(3)] && g1[2] == map[1 := Some(3)];
  }

  /** `removerAresta(1, 2)` on the undirected path drops both arcs
      between 1 and 2 and leaves vertex 2 with no arcs. */
  lemma WeightedPathCut()
    ensures RemoveArc(WeightedPath, false, 1, 2)
            == Outcome(true, map[0 := map[1 := Some(5)], 1 := map[0 := Some(5)], 2 := map[]])
  {
    var g := WeightedPath;
    assert 2 in g[1] && 1 in g[2];
    assert g[1] - {2} == map[0 := Some(5)];
    assert g[2] - {1} == map[];
  }

  /** Every vertex of the path is entered. */
  lemma PathEntered()
    ensures AllEntered(WeightedPath)
  {
    var g := WeightedPath;
    assert g.Keys == {0, 1, 2};
    assert 0 in Entered(g) by { assert 0 in g[1]; }
    assert 1 in Entered(g) by { assert 1 in g[0]; }
    assert 2 in Entered(g) by { assert 2 in g[1]; }
  }

  /** A vertex no row has an arc to is not entered. */
  lemma NotEntered(adj: Adjacency, d: Int32)
    requires d in adj && forall k :: k in adj ==> d !in adj[k]
    ensures !AllEntered(adj)
  {
    assert d !in Entered(adj);
  }

  /** The path passes `fortementeConexo()`; after `removerAresta(1, 2)`
      vertex 2 has no incoming arc and it fails, although 0, 1 and 2 were
      connected both before the cut and (0 and 1) after it. */
  lemma WeightedPathScenario()
    ensures AllEntered(WeightedPath) && !AllEntered(RemoveArc(WeightedPath, false, 1, 2).adj)
  {
    PathEntered();
    CutPathNotEntered();
  }

  /** After the cut, vertex 2 is entered by no arc. */
  lemma CutPathNotEntered()
    ensures !AllEntered(RemoveArc(WeightedPath, false, 1, 2).adj)
  {
    WeightedPathCut();
    var g2 := RemoveArc(WeightedPath, false, 1, 2).adj;
    assert g2.Keys == {0, 1, 2} && g2[0] == map[1 := Some(5)] && g2[1] == map[0 := Some(5)] && g2[2] == map[];
    NotEntered(g2, 2);
  }
}
