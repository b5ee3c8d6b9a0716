/** Arcs: `Aresta` (unweighted) and `ArestaPonderada` (weighted) in one
    class. The destination and the weight are fixed at construction; the
    `visitada` flag is the only state that changes. The destination is
    held as the destination vertex's id, which is what every use of
    `getDestino()` in the graph code reads. */
module Edges {
  import opened Wrappers
  import opened JavaLib

  class Arc {
    /** DESTINO: the destination vertex, by id. */
    const dest: Int32
    /** PESO, or None for an `Aresta`, whose `getPeso()` is null. */
    const weight: Option<Int32>
    /** visitada */
    var visited: bool

    /** `new Aresta(destino)`. */
    constructor Unweighted(dest: Int32)
      ensures this.dest == dest && weight == None && !visited
    {
      this.dest := dest;
      weight := None;
      visited := false;
    }

    /** `new ArestaPonderada(destino, peso)`. */
    constructor Weighted(dest: Int32, weight: Int32)
      ensures this.dest == dest && this.weight == Some(weight) && !visited
    {
      this.dest := dest;
      this.weight := Some(weight);
      visited := false;
    }

    /** `eVisitada()`. */
    function IsVisited(): bool
      reads this`visited
    {
      visited
    }

    /** `setVisitada(b)`: afterwards `eVisitada()` is b; the destination
        and the weight cannot change. */
    method SetVisited(b: bool)
      modifies this`visited
      ensures IsVisited() == b
    {
      visited := b;
    }

    /** `ArestaPonderada.compareTo(other)` as written: `PESO - other.PESO`
        in 32-bit arithmetic, after casting `other` to `ArestaPonderada`.
        An unweighted `other` makes the cast throw ClassCastException
        (None). Otherwise the result is zero exactly when the weights are
        equal, and it has the sign of the true difference only when that
        difference fits in an `int`. */
    function CompareTo(other: Arc): (r: Option<Int32>)
      requires weight.Some?
      ensures r.None? <==> other.weight.None?
      ensures r.Some? ==> (r.value == 0 <==> weight.value == other.weight.value)
      ensures r.Some? && InInt32Range(weight.value - other.weight.value) ==>
                (r.value < 0 <==> weight.value < other.weight.value)
    {
      if other.weight.None? then None else Some(Sub32(weight.value, other.weight.value))
    }

    /** The comparison `compareTo` evidently intends: its sign always
        agrees with the order of the weights. */
    function CompareWeights(other: Arc): (r: Option<Int32>)
      requires weight.Some?
      ensures r.None? <==> other.weight.None?
      ensures r.Some? ==> (r.value < 0 <==> weight.value < other.weight.value)
      ensures r.Some? ==> (r.value == 0 <==> weight.value == other.weight.value)
      ensures r.Some? ==> (r.value > 0 <==> weight.value > other.weight.value)
    {
      if other.weight.None? then None else Some(Compare(weight.value, other.weight.value))
    }
  }

  /** Subtraction ranks weight 0 below weight Integer.MIN_VALUE. */
  lemma CompareToMisordersExtremes(a: Arc, b: Arc)
    requires a.weight == Some(0) && b.weight == Some(-0x8000_0000)
    ensures a.CompareTo(b).Some? && a.CompareTo(b).value < 0 && a.weight.value > b.weight.value
    ensures a.CompareWeights(b).Some? && a.CompareWeights(b).value > 0
  {
    Sub32MisordersExtremes();
  }
}
