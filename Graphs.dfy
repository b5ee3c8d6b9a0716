/** The graph (`Grafo`): a name, the two mode flags, the edge-insertion
    policy they select, and the vertices keyed by id. A ghost field holds
    the arcs as a value; every operation is proved to change it as its
    counterpart in GraphSpec does, and `Coherent()` ties it to the
    vertices' own arcs. */
module Graphs {
  import opened Wrappers
  import opened JavaLib
  import opened Edges
  import opened Vertices
  import opened GraphSpec
  import opened Codec

  class Graph {
    /** NOME */
    const name: string
    /** ponderado */
    const weighted: bool
    /** direcionado */
    const directed: bool
    /** addAresta: the strategy chosen by the constructor */
    const policy: Policy
    /** vertices: id -> vertex */
    var vertices: map<Int32, Vertex>
    /** The arcs of the graph as a value. */
    ghost var adj: Adjacency

    ghost function Value(): Snapshot
      reads this
    {
      Snapshot(weighted, directed, adj)
    }

    /** The object structure behind `adj`: the policy is the one the flags
        select, every vertex is filed under its own id (so distinct ids
        hold distinct vertices), and its arcs, filed under their
        destinations, are the row of `adj`. */
    ghost predicate Coherent()
      reads this, vertices.Values`arcs
    {
      && policy == SelectPolicy(weighted, directed)
      && adj.Keys == vertices.Keys
      && Filed()
      && (forall k :: k in vertices ==> vertices[k].Valid() && vertices[k].Row() == adj[k])
    }

    /** Every vertex is filed under its own id. */
    ghost predicate Filed()
      reads this
    {
      forall k :: k in vertices ==> vertices[k].id == k
    }

    ghost predicate Valid()
      reads this, vertices.Values`arcs
    {
      Coherent() && WellFormed(Value())
    }

    /** `new Grafo(nome, ponderado, direcionado)`: no vertices. */
    constructor(name: string, weighted: bool, directed: bool)
      ensures Valid()
      ensures this.name == name && Value() == Snapshot(weighted, directed, map[])
      ensures policy.Weighted() == weighted && policy.Directed() == directed
      ensures vertices == map[]
    {
      this.name := name;
      this.weighted := weighted;
      this.directed := directed;
      policy := SelectPolicy(weighted, directed);
      vertices := map[];
      adj := map[];
    }

    /** `addVertice(id)`. */
    method AddVertex(id: Int32) returns (added: bool)
      requires Valid()
      modifies this`vertices, this`adj
      ensures Valid()
      ensures Outcome(added, adj) == GraphSpec.AddVertex(old(adj), id)
      ensures forall v :: v in vertices.Values ==> v in old(vertices.Values) || fresh(v)
    {
      if id in vertices {
        return false;
      }
      ghost var before := Value();
      var v := new Vertex(id);
      vertices := vertices[id := v];
      adj := adj[id := map[]];
      added := true;
      AddVertexKeepsInvariants(before, id);
    }

    /** `vertices.get(k).addAresta(arc)`. */
    method PutArc(k: Int32, v: Vertex, arc: Arc) returns (added: bool)
      requires Coherent() && k in vertices && vertices[k] == v
      modifies this`adj, v`arcs
      ensures Coherent() && vertices == old(vertices)
      ensures added <==> arc.dest !in old(adj)[k]
      ensures adj == WithArc(old(adj), k, arc.dest, arc.weight)
    {
      added := v.AddArc(arc);
      adj := WithArc(adj, k, arc.dest, arc.weight);
      assert forall j :: j in vertices && j != k ==> vertices[j] != v;
    }

    /** `vertices.get(k).removerAresta(d)`. */
    method DropArc(k: Int32, v: Vertex, d: Int32) returns (removed: bool)
      requires Coherent() && k in vertices && vertices[k] == v
      modifies this`adj, v`arcs
      ensures Coherent() && vertices == old(vertices)
      ensures removed <==> d in old(adj)[k]
      ensures adj == WithoutArc(old(adj), k, d)
    {
      removed := v.RemoveArc(d);
      adj := WithoutArc(adj, k, d);
      assert forall j :: j in vertices && j != k ==> vertices[j] != v;
    }

    /** `new Aresta(destino)` or `new ArestaPonderada(destino, peso)`, as
        the policy makes them. */
    method NewArc(d: Int32, weight: Int32) returns (arc: Arc)
      ensures fresh(arc)
      ensures arc.dest == d && arc.weight == ArcWeight(policy, weight)
    {
      if policy.Weighted() {
        arc := new Arc.Weighted(d, weight);
      } else {
        arc := new Arc.Unweighted(d);
      }
    }

    /** The policy's `addAresta(origem, destino)`: an undirected policy
        adds the reverse arc when the first `addAresta` reported true. */
    method Link(a: Int32, origin: Vertex, b: Int32, dest: Vertex, weight: Int32) returns (added: bool)
      requires Coherent() && a in vertices && b in vertices
      requires vertices[a] == origin && vertices[b] == dest
      modifies this`adj, origin`arcs, dest`arcs
      ensures Coherent()
      ensures Outcome(added, adj) == Connect(old(adj), policy, a, b, weight)
    {
      var there := NewArc(dest.id, weight);
      added := PutArc(a, origin, there);
      if !policy.Directed() && added {
        var back := NewArc(origin.id, weight);
        added := PutArc(b, dest, back);
      }
    }

    /** `addAresta(id1, id2)`, the weight standing for what the weighted
        policies read from the user. */
    method AddArc(a: Int32, b: Int32, weight: Int32) returns (added: bool)
      requires Valid()
      modifies this`adj, vertices.Values`arcs
      ensures Valid() && vertices == old(vertices)
      ensures Outcome(added, adj) == GraphSpec.AddArc(old(adj), policy, a, b, weight)
    {
      if a !in vertices || b !in vertices || a == b || vertices[a].HasArc(vertices[b].id) {
        return false;
      }
      ghost var before := Value();
      added := Link(a, vertices[a], b, vertices[b], weight);
      AddArcKeepsInvariants(before, a, b, weight);
    }

    /** `vertices.values().forEach(v2 -> v2.removerAresta(id))`. */
    method DropArcsTo(id: Int32)
      requires Coherent()
      modifies this`adj, vertices.Values`arcs
      ensures Coherent()
      ensures vertices == old(vertices)
      ensures adj == PrunedExcept(old(adj), id, {})
    {
      ghost var start := adj;
      var pending := vertices.Keys;
      while pending != {}
        invariant pending <= vertices.Keys
        invariant vertices == old(vertices)
        invariant Coherent()
        invariant adj == PrunedExcept(start, id, pending)
        decreases pending
      {
        var k :| k in pending;
        var _ := DropArc(k, vertices[k], id);
        PruneStep(start, id, pending, k);
        pending := pending - {k};
      }
    }

    /** `removerVertice(id)`: the vertex goes, then every remaining vertex
        drops its arc to id. */
    method RemoveVertex(id: Int32) returns (removed: bool)
      requires Valid()
      modifies this`vertices, this`adj, vertices.Values`arcs
      ensures Valid()
      ensures Outcome(removed, adj) == GraphSpec.RemoveVertex(old(adj), id)
      ensures vertices.Values <= old(vertices.Values)
    {
      if id !in vertices {
        return false;
      }
      ghost var before := Value();
      vertices := vertices - {id};
      adj := adj - {id};
      DropArcsTo(id);
      removed := true;
      PruneDone(before.adj, id);
      RemoveVertexKeepsInvariants(before, id);
    }

    /** `removerAresta(id1, id2)`: the second removal runs only in an
        undirected graph, and the result is the `&&` of the two. */
    method RemoveArc(a: Int32, b: Int32) returns (removed: bool)
      requires Valid()
      modifies this`adj, vertices.Values`arcs
      ensures Valid()
      ensures Outcome(removed, adj) == GraphSpec.RemoveArc(old(adj), directed, a, b)
    {
      if a !in vertices || b !in vertices || !vertices[a].HasArc(vertices[b].id) {
        return false;
      }
      ghost var before := Value();
      var origin := vertices[a];
      var dest := vertices[b];
      removed := DropArc(a, origin, dest.id);
      if removed && !directed {
        removed := DropArc(b, dest, origin.id);
      }
      RemoveArcKeepsInvariants(before, a, b);
    }

    /** `completo()`: true for no vertex, otherwise whether every vertex
        has n - 1 arcs. In a graph without self-loops that is exactly an
        arc between every ordered pair of distinct vertices. */
    function IsComplete(): (b: bool)
      requires Valid()
      reads this, vertices.Values`arcs
      ensures b <==> Complete(adj)
      ensures NoSelfLoops(adj) ==> (b <==> AllPairsLinked(adj))
    {
      SameSize(vertices, adj);
      assert forall k :: k in vertices ==> |vertices[k].arcs| == |adj[k]| by {
        forall k | k in vertices
          ensures |vertices[k].arcs| == |adj[k]|
        {
          SameSize(vertices[k].arcs, adj[k]);
        }
      }
      CompleteIffAllPairsLinkedIfLoopFree(adj);
      |vertices| == 0 || forall k :: k in vertices ==> |vertices[k].arcs| == |vertices| - 1
    }

    /** `prepararBuscas()`: every vertex unvisited. */
    method PrepareSearch()
      requires Filed()
      modifies vertices.Values`visited
      ensures forall k :: k in vertices ==> !vertices[k].visited
    {
      var pending := vertices.Keys;
      while pending != {}
        invariant pending <= vertices.Keys
        invariant forall k :: k in vertices && k !in pending ==> !vertices[k].visited
        decreases pending
      {
        var k :| k in pending;
        vertices[k].SetVisited(false);
        pending := pending - {k};
      }
    }

    /** `setVisitado(true)` on the vertex filed under d. */
    method Mark(d: Int32, u: Vertex)
      requires Filed() && d in vertices && vertices[d] == u
      modifies u`visited
      ensures forall j :: j in vertices ==> vertices[j].visited == (old(vertices[j].visited) || j == d)
    {
      u.SetVisited(true);
      assert forall j :: j in vertices && j != d ==> vertices[j] != u;
    }

    /** `v.getArestas().forEach(a -> a.getDestino().setVisitado(true))`. */
    method MarkDestinations(v: Vertex)
      requires Filed() && v.Valid() && v.arcs.Keys <= vertices.Keys
      modifies vertices.Values`visited
      ensures forall j :: j in vertices ==> vertices[j].visited == (old(vertices[j].visited) || j in v.arcs)
    {
      var pending := v.arcs.Keys;
      while pending != {}
        invariant pending <= v.arcs.Keys
        invariant forall j :: j in vertices ==>
                    vertices[j].visited == (old(vertices[j].visited) || (j in v.arcs && j !in pending))
        decreases pending
      {
        var d :| d in pending;
        var arc := v.arcs[d];
        Mark(arc.dest, vertices[arc.dest]);
        pending := pending - {d};
      }
    }

    /** `prepararBuscas().forEach(v -> ...)`: every vertex unmarked, then
        every vertex's arcs in turn mark their destinations. */
    method Search()
      requires Valid()
      modifies vertices.Values`visited
      ensures forall j :: j in vertices ==> (vertices[j].visited <==> j in Entered(adj))
    {
      PrepareSearch();
      var pending := vertices.Keys;
      ghost var done: set<Int32> := {};
      ghost var marked: set<Int32> := {};
      EnteredFromNone(adj);
      while pending != {}
        invariant pending <= vertices.Keys && done == vertices.Keys - pending
        invariant marked == EnteredFrom(adj, done)
        invariant forall j :: j in vertices ==> (vertices[j].visited <==> j in marked)
        decreases pending
      {
        var k :| k in pending;
        var v := vertices[k];
        assert v.arcs.Keys == adj[k].Keys;
        MarkDestinations(v);
        EnteredFromStep(adj, done, k);
        marked := marked + adj[k].Keys;
        done := done + {k};
        pending := pending - {k};
      }
      EnteredFromAll(adj);
    }

    /** `fortementeConexo()`: true for no vertex; otherwise every vertex
        is unmarked, every arc's destination is marked, and the result is
        whether all are marked. That is whether every vertex has an
        incoming arc, which strong connectivity implies but does not
        follow from. */
    method StronglyConnected() returns (b: bool)
      requires Valid()
      modifies vertices.Values`visited
      ensures b <==> AllEntered(adj)
      ensures |vertices| > 0 ==> forall k :: k in vertices ==> (vertices[k].visited <==> k in Entered(adj))
    {
      if |vertices| == 0 {
        return true;
      }
      Search();
      b := forall k :: k in vertices ==> vertices[k].visited;
    }

    /** `gerarCompleto()`'s first loop: `addVertice(i)` for i in 0 .. n - 1. */
    method AddIsolated(n: Int32)
      requires Valid() && adj == map[] && 0 <= n
      modifies this`vertices, this`adj
      ensures Valid() && adj == Isolated(n)
      ensures forall v :: v in vertices.Values ==> fresh(v)
    {
      for i := 0 to n
        invariant Valid() && adj == Isolated(i)
        invariant forall v :: v in vertices.Values ==> fresh(v)
      {
        IsolatedStep(i);
        var _ := AddVertex(i);
      }
    }

    /** One turn of `gerarCompleto()`'s inner loop: `addAresta(i, j)`
        links i and j both ways, the first time. */
    method LinkPair(n: Int32, i: Int32, j: Int32)
      requires Valid() && policy == UnweightedUndirected && 0 <= i < j < n
      requires adj == PartiallyLinked(n, i, j)
      modifies this`adj, vertices.Values`arcs
      ensures Valid() && vertices == old(vertices)
      ensures adj == PartiallyLinked(n, i, j + 1)
    {
      LinkStep(n, i, j, 0);
      var added := AddArc(i, j, 0);
      assert added;
    }

    /** One turn of `gerarCompleto()`'s outer loop: `addAresta(i, j)` for
        j in i + 1 .. n - 1. */
    method LinkRow(n: Int32, i: Int32)
      requires Valid() && policy == UnweightedUndirected && 0 <= i < n
      requires adj == PartiallyLinked(n, i, i + 1)
      modifies this`adj, vertices.Values`arcs
      ensures Valid() && vertices == old(vertices)
      ensures adj == PartiallyLinked(n, i + 1, i + 2)
    {
      for j := i + 1 to n
        invariant Valid() && vertices == old(vertices)
        invariant adj == PartiallyLinked(n, i, j)
      {
        LinkPair(n, i, j);
      }
      NextRow(n, i);
    }

    /** `gerarCompleto()` with the user's answers as parameters: K_n on
        the vertices 0 .. n - 1, unweighted and undirected, or null when
        n < 1. */
    static method GenerateComplete(name: string, n: Int32) returns (g: Graph?)
      ensures g == null <==> n < 1
      ensures g != null ==> fresh(g) && g.Valid() && g.name == name
      ensures g != null ==> g.Value() == Snapshot(false, false, CompleteGraph(n))
    {
      if n < 1 {
        return null;
      }
      g := new Graph(name, false, false);
      g.AddIsolated(n);
      IsolatedIsPartiallyLinked(n);
      for i := 0 to n
        invariant fresh(g) && g.Valid() && g.name == name && !g.weighted && !g.directed
        invariant g.adj == PartiallyLinked(n, i, i + 1)
        invariant forall v :: v in g.vertices.Values ==> fresh(v)
      {
        g.LinkRow(n, i);
      }
      AllRowsLinked(n);
    }

    /** `salvar()`'s first loop: every vertex's id and a ';', in the
        map's iteration order, which is returned as `ids`. */
    method IdLine() returns (ids: seq<Int32>, line: string)
      requires Filed()
      ensures forall k :: k in ids <==> k in vertices
      ensures forall p, q :: 0 <= p < q < |ids| ==> ids[p] != ids[q]
      ensures line == Terminated(IdTokens(ids), ';')
    {
      line := "";
      ids := [];
      var pending := vertices.Keys;
      while pending != {}
        invariant pending <= vertices.Keys
        invariant forall k :: k in ids <==> k in vertices && k !in pending
        invariant forall p, q :: 0 <= p < q < |ids| ==> ids[p] != ids[q]
        invariant line == Terminated(IdTokens(ids), ';')
        decreases pending
      {
        var k :| k in pending;
        TerminatedIdsSnoc(ids, k);
        line := line + IntToString(vertices[k].id) + ";";
        ids := ids + [k];
        pending := pending - {k};
      }
    }

    /** `salvar()`'s second loop: every vertex's `toFile()`, in the order
        `ids` of the first. */
    method ArcLine(ids: seq<Int32>) returns (line: string)
      requires Coherent()
      requires forall k :: k in ids ==> k in vertices
      ensures line == Terminated(Tokens(ArcList(adj, ids)), ';')
    {
      line := "";
      var i := 0;
      while i < |ids|
        invariant 0 <= i <= |ids|
        invariant line == Terminated(Tokens(ArcList(adj, ids[..i])), ';')
      {
        var part := vertices[ids[i]].ToFile();
        TerminatedArcListStep(adj, ids, i);
        line := line + part;
        i := i + 1;
      }
      assert ids[..|ids|] == ids;
    }

    /** `salvar()` up to the file write: the text it passes to
        `salvarGrafo`. Both of its loops go through the vertex map in the
        same order, which the map leaves unspecified; `order` names it. */
    method Save() returns (text: string, ghost order: seq<Int32>)
      requires Valid()
      ensures IsEnumeration(order, adj)
      ensures text == Encode(Value(), order)
    {
      var header := (if weighted then "1" else "0") + (if directed then "1" else "0");
      assert header == Header(weighted, directed);
      var ids, idLine := IdLine();
      var arcLine := ArcLine(ids);
      text := header + "\n" + idLine + "\n" + arcLine;
      order := ids;
    }

    /** `lerGrafo`'s vertex loop: `addVertice(Integer.parseInt(id))` for
        every token of line 2. A token that does not parse makes the
        loader throw: false here, the graph then being discarded. */
    method LoadIds(toks: seq<string>) returns (ok: bool)
      requires Valid() && adj == map[]
      modifies this`vertices, this`adj
      ensures Valid()
      ensures forall v :: v in vertices.Values ==> fresh(v)
      ensures ok <==> DecodeIds(toks).Some?
      ensures ok ==> adj == Base(DecodeIds(toks).value)
    {
      ghost var ids: seq<Int32> := [];
      for i := 0 to |toks|
        invariant Valid()
        invariant forall v :: v in vertices.Values ==> fresh(v)
        invariant DecodeIds(toks[..i]) == Some(ids) && adj == Base(ids)
      {
        var id := ParseInt(toks[i]);
        DecodeIdsStep(toks, i, ids);
        if id.None? {
          return false;
        }
        BaseSnoc(ids, id.value);
        var _ := AddVertex(id.value);
        ids := ids + [id.value];
      }
      assert toks[..|toks|] == toks;
      return true;
    }

    /** One item of `lerGrafo`'s arc loop: a plain `addAresta` on the
        origin vertex, with no reverse arc. */
    method LoadItem(e: ArcEntry)
      requires Coherent() && e.src in vertices
      modifies this`adj, vertices.Values`arcs
      ensures Coherent() && vertices == old(vertices)
      ensures adj == WithArc(old(adj), e.src, e.dst, e.weight)
    {
      var arc: Arc;
      if e.weight.Some? {
        arc := new Arc.Weighted(e.dst, e.weight.value);
      } else {
        arc := new Arc.Unweighted(e.dst);
      }
      var _ := PutArc(e.src, vertices[e.src], arc);
    }

    /** `lerGrafo`'s arc loop over the items of line 3. An item with too
        few fields, a field that does not parse or an id with no vertex
        makes the loader throw: false here. */
    method LoadArcs(items: seq<string>) returns (ok: bool)
      requires Valid()
      modifies this`adj, vertices.Values`arcs
      ensures Coherent() && vertices == old(vertices)
      ensures ok <==> DecodeArcs(old(adj).Keys, items, weighted).Some?
      ensures ok ==> Valid() && adj == FoldArcs(old(adj), DecodeArcs(old(adj).Keys, items, weighted).value)
    {
      ghost var start := adj;
      ghost var es: seq<ArcEntry> := [];
      for i := 0 to |items|
        invariant Coherent() && vertices == old(vertices)
        invariant DecodeArcs(start.Keys, items[..i], weighted) == Some(es)
        invariant forall x :: x in es ==> x.src in start
        invariant adj == FoldArcs(start, es)
      {
        var e := DecodeItem(vertices.Keys, items[i], weighted);
        DecodeArcsStep(start.Keys, items[..], weighted, i, es);
        if e.None? {
          return false;
        }
        FoldArcsSnoc(start, es, e.value);
        LoadItem(e.value);
        es := es + [e.value];
      }
      assert items[..|items|] == items;
      FoldArcsKeepsWellFormed(start, es, weighted);
      return true;
    }

    /** `lerGrafo(nome)` on the file's text: null when the loader would
        throw, otherwise the graph the text describes. */
    static method Load(name: string, text: string) returns (g: Graph?)
      ensures g == null <==> Decode(text).None?
      ensures g != null ==> fresh(g) && g.Valid() && g.name == name && g.Value() == Decode(text).value
    {
      var lines := ReadLines(text);
      if |lines| < 3 || |lines[0]| < 2 {
        return null;
      }
      var info := lines[0];
      g := new Graph(name, info[0] == '1', info[1] == '1');
      var ok := g.LoadIds(Split(lines[1], ';'));
      if !ok {
        return null;
      }
      ok := g.LoadArcs(Split(lines[2], ';'));
      if !ok {
        return null;
      }
    }
  }

  /** Maps with the same keys have the same size. */
  lemma SameSize<V, W>(m1: map<Int32, V>, m2: map<Int32, W>)
    requires m1.Keys == m2.Keys
    ensures |m1| == |m2|
  {
    assert |m1| == |m1.Keys|;
    assert |m2| == |m2.Keys|;
  }
}
