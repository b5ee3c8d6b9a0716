/** A vertex (`Vertice`): its id, its outgoing arcs keyed by destination
    id (a TreeMap, so at most one arc per destination and iteration in
    ascending order), and the `visitado` flag used by the connectivity
    check. */
module Vertices {
  import opened Wrappers
  import opened JavaLib
  import opened Edges
  import opened GraphSpec
  import opened Codec

  /** A vertex's arcs as a row of the adjacency: destination -> weight. */
  function Weights(arcs: map<Int32, Arc>): (row: map<Int32, Option<Int32>>)
    ensures row.Keys == arcs.Keys
    ensures forall d :: d in arcs ==> row[d] == arcs[d].weight
  {
    map d | d in arcs :: arcs[d].weight
  }

  class Vertex {
    /** ID */
    const id: Int32
    /** arestas: destination id -> arc */
    var arcs: map<Int32, Arc>
    /** visitado */
    var visited: bool

    /** Every arc is filed under its own destination. */
    ghost predicate Valid()
      reads this`arcs
    {
      forall d :: d in arcs ==> arcs[d].dest == d
    }

    /** The destinations and weights of the arcs. */
    function Row(): map<Int32, Option<Int32>>
      reads this`arcs
    {
      Weights(arcs)
    }

    /** `new Vertice(id)`: no arcs, not visited. */
    constructor(id: Int32)
      ensures this.id == id && arcs == map[] && !visited && Valid()
    {
      this.id := id;
      arcs := map[];
      visited := false;
    }

    /** `addAresta(a)`: `put(a.getDestino().ID, a) == null`. An arc to the
        same destination is replaced, and the result says whether there
        was none. */
    method AddArc(a: Arc) returns (added: bool)
      requires Valid()
      modifies this`arcs
      ensures Valid()
      ensures added <==> a.dest !in old(arcs)
      ensures arcs == old(arcs)[a.dest := a]
      ensures Row() == Put(old(Row()), a.dest, a.weight)
    {
      added := a.dest !in arcs;
      arcs := arcs[a.dest := a];
    }

    /** `removerAresta(id)`: `remove(id) != null`. */
    method RemoveArc(d: Int32) returns (removed: bool)
      requires Valid()
      modifies this`arcs
      ensures Valid()
      ensures removed <==> d in old(arcs)
      ensures arcs == old(arcs) - {d}
      ensures Row() == old(Row()) - {d}
    {
      removed := d in arcs;
      arcs := arcs - {d};
    }

    /** `haAresta(id)`: whether the vertex has an arc to id. */
    function HasArc(d: Int32): (b: bool)
      reads this`arcs
      ensures b <==> d in Row()
    {
      d in arcs
    }

    /** `getVisitado()`. */
    function IsVisited(): bool
      reads this`visited
    {
      visited
    }

    /** `setVisitado(b)`: afterwards `getVisitado()` is b and the arcs are
        as they were. */
    method SetVisited(b: bool)
      modifies this`visited
      ensures IsVisited() == b
    {
      visited := b;
    }

    /** `compareTo(o)` as written: `this.ID - o.ID` in 32-bit arithmetic.
        Zero exactly for equal ids; the sign of the true difference only
        when that difference fits in an `int`. */
    function CompareTo(other: Vertex): (r: Int32)
      ensures r == 0 <==> id == other.id
      ensures InInt32Range(id - other.id) ==> (r < 0 <==> id < other.id)
    {
      Sub32(id, other.id)
    }

    /** The comparison `compareTo` evidently intends: its sign always
        agrees with the order of the ids. */
    function CompareIds(other: Vertex): (r: Int32)
      ensures r < 0 <==> id < other.id
      ensures r == 0 <==> id == other.id
      ensures r > 0 <==> id > other.id
    {
      Compare(id, other.id)
    }

    /** `toFile()`: one "ID-dest;" or "ID-dest-peso;" per arc, by
        ascending destination. */
    method ToFile() returns (s: string)
      requires Valid()
      ensures s == Terminated(Tokens(VertexArcs(id, Row())), ';')
    {
      ghost var row := Row();
      s := "";
      var remaining := arcs.Keys;
      ghost var done: seq<Int32> := [];
      WrittenNone(id, row);
      while remaining != {}
        invariant Written(id, row, done, remaining, s)
        decreases |remaining|
      {
        // Min's postcondition is the witness that the choice below exists.
        ghost var least := Min(remaining);
        var d :| d in remaining && forall x :: x in remaining ==> d <= x;
        var a := arcs[d];
        var token := IntToString(id) + "-" + IntToString(a.dest)
                     + (if a.weight.Some? then "-" + IntToString(a.weight.value) else "");
        WrittenNext(id, row, done, remaining, s, d);
        s := s + token + ";";
        done := done + [d];
        remaining := remaining - {d};
      }
      WrittenAll(id, row, done, s);
    }
  }

  /** The state of the `toFile` loop: the destinations `done` have been
      written, in ascending order, and `remaining` are the ones after them. */
  ghost predicate Written(k: Int32, row: map<Int32, Option<Int32>>, done: seq<Int32>, remaining: set<Int32>, s: string) {
    && remaining <= row.Keys
    && (forall x :: x in done ==> x in row)
    && SortedKeys(row.Keys) == done + SortedKeys(remaining)
    && s == Terminated(Tokens(EntriesOf(k, row, done)), ';')
  }

  lemma WrittenNone(k: Int32, row: map<Int32, Option<Int32>>)
    ensures Written(k, row, [], row.Keys, "")
  {
    assert [] + SortedKeys(row.Keys) == SortedKeys(row.Keys);
  }

  lemma ConcatAssoc(a: seq<Int32>, b: seq<Int32>, c: seq<Int32>)
    ensures a + (b + c) == (a + b) + c
  {
  }

  /** One turn of the `toFile` loop: the least destination left is the
      next in ascending order, and its token extends the text. */
  lemma WrittenNext(k: Int32, row: map<Int32, Option<Int32>>, done: seq<Int32>, remaining: set<Int32>, s: string, d: Int32)
    requires Written(k, row, done, remaining, s)
    requires d in remaining && forall x :: x in remaining ==> d <= x
    ensures Written(k, row, done + [d], remaining - {d}, s + Token(ArcEntry(k, d, row[d])) + ";")
  {
    var rest := SortedKeys(remaining - {d});
    SortedKeysOfMin(remaining, d);
    ConcatAssoc(done, [d], rest);
    TerminatedEntriesSnoc(k, row, done, d);
  }

  lemma WrittenAll(k: Int32, row: map<Int32, Option<Int32>>, done: seq<Int32>, s: string)
    requires Written(k, row, done, {}, s)
    ensures s == Terminated(Tokens(VertexArcs(k, row)), ';')
  {
    assert SortedKeys({}) == [];
    assert done + [] == done;
  }

  /** Subtraction ranks id 0 below id Integer.MIN_VALUE. */
  lemma CompareToMisordersExtremes(a: Vertex, b: Vertex)
    requires a.id == 0 && b.id == -0x8000_0000
    ensures a.CompareTo(b) < 0 && a.id > b.id
    ensures a.CompareIds(b) > 0
  {
    Sub32MisordersExtremes();
  }
}
