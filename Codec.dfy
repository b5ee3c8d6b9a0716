/** The text file a graph is saved to and loaded from (`salvar`,
    `Vertice.toFile` and `Arquivo.lerGrafo`):

      line 1   "PD": P is '1' for a weighted graph, D is '1' for a directed one
      line 2   every vertex id followed by ';', in the map's iteration order
      line 3   every arc as "origin-dest;" or "origin-dest-weight;", vertex by
               vertex in that same order, each vertex's arcs by ascending
               destination

    Encode is what `salvar` writes, Decode what `lerGrafo` makes of a
    text, None standing for every exception it lets escape. */
module Codec {
  import opened Wrappers
  import opened JavaLib
  import opened GraphSpec

  /** The first line. */
  function Header(weighted: bool, directed: bool): (h: string)
    ensures |h| == 2 && (h[0] == '1' <==> weighted) && (h[1] == '1' <==> directed)
  {
    [if weighted then '1' else '0', if directed then '1' else '0']
  }

  /** One arc as line 3 records it. */
  datatype ArcEntry = ArcEntry(src: Int32, dst: Int32, weight: Option<Int32>)

  /** The fields of an arc's token: origin, destination and, when there is
      one, the weight. */
  function Parts(e: ArcEntry): seq<string> {
    [IntToString(e.src), IntToString(e.dst)] + (if e.weight.Some? then [IntToString(e.weight.value)] else [])
  }

  /** An arc's token without its ';', as `toFile` appends it. */
  function Token(e: ArcEntry): string {
    IntToString(e.src) + "-" + IntToString(e.dst) + (if e.weight.Some? then "-" + IntToString(e.weight.value) else "")
  }

  function Tokens(es: seq<ArcEntry>): seq<string> {
    seq(|es|, i requires 0 <= i < |es| => Token(es[i]))
  }

  function IdTokens(ids: seq<Int32>): seq<string> {
    seq(|ids|, i requires 0 <= i < |ids| => IntToString(ids[i]))
  }

  // ---------------------------------------------------------------------
  // Ascending order of a vertex's destinations (the TreeMap's order)

  /** The least element of a non-empty set. */
  ghost function Min(s: set<Int32>): (m: Int32)
    requires s != {}
    ensures m in s && forall x :: x in s ==> m <= x
  {
    var y :| y in s;
    if s == {y} then y
    else
      var m := Min(s - {y});
      assert forall x :: x in s ==> x == y || x in s - {y};
      if y < m then y else m
  }

  /** The elements of s in strictly ascending order. */
  ghost function SortedKeys(s: set<Int32>): (r: seq<Int32>)
    ensures |r| == |s|
    ensures forall x :: x in r <==> x in s
    ensures forall i, j :: 0 <= i < j < |r| ==> r[i] < r[j]
    decreases |s|
  {
    if s == {} then []
    else
      var m := Min(s);
      var rest := SortedKeys(s - {m});
      assert forall x :: x in rest ==> m < x;
      PrependAscending(m, rest);
      [m] + rest
  }

  lemma PrependAscending(m: Int32, rest: seq<Int32>)
    requires forall x :: x in rest ==> m < x
    requires forall i, j :: 0 <= i < j < |rest| ==> rest[i] < rest[j]
    ensures forall i, j :: 0 <= i < j < |[m] + rest| ==> ([m] + rest)[i] < ([m] + rest)[j]
  {
    var r := [m] + rest;
    forall i, j | 0 <= i < j < |r|
      ensures r[i] < r[j]
    {
      assert r[j] == rest[j - 1];
      if i > 0 {
        assert r[i] == rest[i - 1];
      } else {
        assert rest[j - 1] in rest;
      }
    }
  }

  /** Taking away the least element leaves the rest of the ascending order. */
  lemma SortedKeysOfMin(s: set<Int32>, m: Int32)
    requires m in s && forall x :: x in s ==> m <= x
    ensures SortedKeys(s) == [m] + SortedKeys(s - {m})
  {
    assert Min(s) == m;
  }

  /** The arcs of vertex k with row `row`, for the destinations ks. */
  function EntriesOf(k: Int32, row: map<Int32, Option<Int32>>, ks: seq<Int32>): seq<ArcEntry>
    requires forall d :: d in ks ==> d in row
  {
    seq(|ks|, i requires 0 <= i < |ks| => ArcEntry(k, ks[i], row[ks[i]]))
  }

  /** What `Vertice.toFile` writes for vertex k, as entries: its arcs by
      ascending destination. */
  ghost function VertexArcs(k: Int32, row: map<Int32, Option<Int32>>): seq<ArcEntry> {
    EntriesOf(k, row, SortedKeys(row.Keys))
  }

  /** Line 3 as entries: the vertices' arcs in the given vertex order. */
  ghost function ArcList(adj: Adjacency, order: seq<Int32>): seq<ArcEntry>
    requires forall k :: k in order ==> k in adj
  {
    if order == [] then []
    else
      var k := order[|order| - 1];
      ArcList(adj, order[..|order| - 1]) + VertexArcs(k, adj[k])
  }

  /** `order` lists the vertices of adj, each once: an iteration order of
      the map. */
  ghost predicate IsEnumeration(order: seq<Int32>, adj: Adjacency) {
    && (forall k :: k in order <==> k in adj)
    && (forall i, j :: 0 <= i < j < |order| ==> order[i] != order[j])
  }

  /** The text `salvar` writes, the vertices being visited in `order`. */
  ghost function Encode(s: Snapshot, order: seq<Int32>): string
    requires forall k :: k in order ==> k in s.adj
  {
    Header(s.weighted, s.directed) + "\n"
    + Terminated(IdTokens(order), ';') + "\n"
    + Terminated(Tokens(ArcList(s.adj, order)), ';')
  }

  /** Writing one more entry appends its token and a ';'. */
  lemma TerminatedEntriesSnoc(k: Int32, row: map<Int32, Option<Int32>>, ks: seq<Int32>, d: Int32)
    requires forall x :: x in ks ==> x in row
    requires d in row
    ensures forall x :: x in ks + [d] ==> x in row
    ensures Terminated(Tokens(EntriesOf(k, row, ks + [d])), ';')
            == Terminated(Tokens(EntriesOf(k, row, ks)), ';') + Token(ArcEntry(k, d, row[d])) + ";"
  {
    var e := ArcEntry(k, d, row[d]);
    assert EntriesOf(k, row, ks + [d]) == EntriesOf(k, row, ks) + [e];
    assert Tokens(EntriesOf(k, row, ks) + [e]) == Tokens(EntriesOf(k, row, ks)) + [Token(e)];
    TerminatedConcat(Tokens(EntriesOf(k, row, ks)), [Token(e)], ';');
    assert Terminated([Token(e)], ';') == Token(e) + ";";
  }

  // ---------------------------------------------------------------------
  // Loading

  /** `Integer.parseInt` on every id of line 2. */
  function DecodeIds(toks: seq<string>): (r: Option<seq<Int32>>)
    ensures r.Some? ==> |r.value| == |toks|
  {
    if toks == [] then Some([])
    else
      match DecodeIds(toks[..|toks| - 1])
      case None => None
      case Some(ids) =>
        match ParseInt(toks[|toks| - 1])
        case None => None
        case Some(v) => Some(ids + [v])
  }

  /** The graph right after the vertex loop: every listed id, no arcs.
      A repeated id is added once (`addVertice` refuses the second). */
  function Base(ids: seq<Int32>): (m: Adjacency)
    ensures forall k :: k in m <==> k in ids
    ensures forall k :: k in m ==> m[k] == map[]
  {
    map k | k in ids :: map[]
  }

  /** One item of line 3: split at '-', the origin and destination parsed
      (and the weight, in a weighted graph), both ends looked up among the
      vertices. Too few fields, a field that does not parse or an unknown
      vertex makes the loader throw. */
  function DecodeItem(keys: set<Int32>, item: string, weighted: bool): (r: Option<ArcEntry>)
    ensures r.Some? ==> r.value.src in keys && r.value.dst in keys && (r.value.weight.Some? <==> weighted)
  {
    var parts := Split(item, '-');
    if |parts| < (if weighted then 3 else 2) then None
    else
      var src := ParseInt(parts[0]);
      var dst := ParseInt(parts[1]);
      var weight := if weighted then ParseInt(parts[2]) else Some(0);
      if src.None? || dst.None? || weight.None? then None
      else if src.value !in keys || dst.value !in keys then None
      else Some(ArcEntry(src.value, dst.value, if weighted then Some(weight.value) else None))
  }

  /** Every item of line 3, in file order. */
  function DecodeArcs(keys: set<Int32>, items: seq<string>, weighted: bool): (r: Option<seq<ArcEntry>>)
    ensures r.Some? ==> |r.value| == |items|
    ensures r.Some? ==> forall e :: e in r.value ==> e.src in keys && e.dst in keys && (e.weight.Some? <==> weighted)
  {
    if items == [] then Some([])
    else
      match DecodeArcs(keys, items[..|items| - 1], weighted)
      case None => None
      case Some(es) =>
        match DecodeItem(keys, items[|items| - 1], weighted)
        case None => None
        case Some(e) => Some(es + [e])
  }

  /** `vertices.get(src).addAresta(...)` for each entry in turn: a plain
      `put`, which overwrites an arc already there and adds no reverse arc. */
  function FoldArcs(m: Adjacency, es: seq<ArcEntry>): (r: Adjacency)
    requires forall e :: e in es ==> e.src in m
    ensures r.Keys == m.Keys
  {
    if es == [] then m
    else
      var e := es[|es| - 1];
      var r' := FoldArcs(m, es[..|es| - 1]);
      assert forall x :: x in es[..|es| - 1] ==> x in es;
      r'[e.src := Put(r'[e.src], e.dst, e.weight)]
  }

  /** `lerGrafo` on the file's text. */
  function Decode(text: string): (r: Option<Snapshot>)
    ensures r.Some? ==> WellFormed(r.value)
  {
    var lines := ReadLines(text);
    if |lines| < 3 || |lines[0]| < 2 then None
    else
      var weighted := lines[0][0] == '1';
      var directed := lines[0][1] == '1';
      match DecodeIds(Split(lines[1], ';'))
      case None => None
      case Some(ids) =>
        var base := Base(ids);
        match DecodeArcs(base.Keys, Split(lines[2], ';'), weighted)
        case None => None
        case Some(es) =>
          FoldArcsKeepsWellFormed(base, es, weighted);
          Some(Snapshot(weighted, directed, FoldArcs(base, es)))
  }

  /** Putting arcs whose ends are vertices, with weights as the graph's
      mode says, keeps the graph well formed. */
  lemma {:induction false} FoldArcsKeepsWellFormed(m: Adjacency, es: seq<ArcEntry>, weighted: bool)
    requires forall e :: e in es ==> e.src in m && e.dst in m && (e.weight.Some? <==> weighted)
    requires NoDangling(m) && WeightsMatch(m, weighted)
    ensures NoDangling(FoldArcs(m, es)) && WeightsMatch(FoldArcs(m, es), weighted)
  {
    if es != [] {
      assert forall x :: x in es[..|es| - 1] ==> x in es;
      FoldArcsKeepsWellFormed(m, es[..|es| - 1], weighted);
    }
  }

  // ---------------------------------------------------------------------
  // Characters of the written text

  /** Text made of digits and '-' only, as `Integer.toString` produces. */
  predicate NumericText(s: string) {
    forall i :: 0 <= i < |s| ==> IsDigit(s[i]) || s[i] == '-'
  }

  lemma IntToStringIsNumeric(x: int)
    ensures NumericText(IntToString(x))
  {
    var s := IntToString(x);
    if x < 0 {
      forall i | 0 <= i < |s|
        ensures IsDigit(s[i]) || s[i] == '-'
      {
        if i > 0 {
          assert s[i] == s[1..][i - 1];
        }
      }
    }
  }

  lemma NumericConcat(a: string, b: string)
    requires NumericText(a) && NumericText(b)
    ensures NumericText(a + b)
  {
    forall i | 0 <= i < |a + b|
      ensures IsDigit((a + b)[i]) || (a + b)[i] == '-'
    {
      if i >= |a| {
        assert (a + b)[i] == b[i - |a|];
      }
    }
  }

  lemma TokenIsNumeric(e: ArcEntry)
    ensures NumericText(Token(e))
  {
    var a := IntToString(e.src);
    var b := IntToString(e.dst);
    IntToStringIsNumeric(e.src);
    IntToStringIsNumeric(e.dst);
    NumericConcat(a, "-");
    NumericConcat(a + "-", b);
    if e.weight.Some? {
      var w := IntToString(e.weight.value);
      IntToStringIsNumeric(e.weight.value);
      NumericConcat("-", w);
      NumericConcat(a + "-" + b, "-" + w);
    } else {
      assert Token(e) == a + "-" + b;
    }
  }

  /** Numeric tokens followed by ';' hold no line terminator. */
  lemma {:induction false} TerminatedNoLineBreak(toks: seq<string>)
    requires forall t :: t in toks ==> NumericText(t)
    ensures NoLineBreak(Terminated(toks, ';'))
  {
    if toks != [] {
      assert forall t :: t in toks[1..] ==> t in toks;
      TerminatedNoLineBreak(toks[1..]);
      assert NumericText(toks[0]);
    }
  }

  lemma NumericSeparable(toks: seq<string>)
    requires forall t :: t in toks ==> NumericText(t) && t != []
    ensures Separable(toks, ';')
  {
    forall t | t in toks
      ensures ';' !in t
    {
      assert forall i :: 0 <= i < |t| ==> t[i] != ';';
    }
  }

  // ---------------------------------------------------------------------
  // Reading back what was written

  lemma DigitsHaveNoDash(s: string)
    requires AllDigits(s)
    ensures '-' !in s
  {
    assert forall i :: 0 <= i < |s| ==> s[i] != '-';
  }

  /** An arc's token is its fields joined by '-'. */
  lemma TokenIsJoined(e: ArcEntry)
    ensures Token(e) == Joined(Parts(e), '-')
  {
    var p := Parts(e);
    var a := IntToString(e.src);
    var b := IntToString(e.dst);
    if e.weight.Some? {
      var w := IntToString(e.weight.value);
      assert p[1..] == [b, w];
      assert p[1..][1..] == [w];
      assert Joined(p[1..], '-') == b + "-" + w;
      assert Token(e) == a + "-" + (b + "-" + w);
    } else {
      assert p[1..] == [b];
    }
  }

  /** With non-negative numbers, splitting a token at '-' gives its fields back. */
  lemma SplitToken(e: ArcEntry)
    requires e.src >= 0 && e.dst >= 0 && (e.weight.Some? ==> e.weight.value >= 0)
    ensures Split(Token(e), '-') == Parts(e)
  {
    TokenIsJoined(e);
    DigitsHaveNoDash(IntToString(e.src));
    DigitsHaveNoDash(IntToString(e.dst));
    if e.weight.Some? {
      DigitsHaveNoDash(IntToString(e.weight.value));
    }
    SplitJoined(Parts(e), '-');
  }

  lemma DecodeItemOfToken(keys: set<Int32>, e: ArcEntry, weighted: bool)
    requires e.src >= 0 && e.dst >= 0 && (e.weight.Some? ==> e.weight.value >= 0)
    requires e.src in keys && e.dst in keys && (e.weight.Some? <==> weighted)
    ensures DecodeItem(keys, Token(e), weighted) == Some(e)
  {
    SplitToken(e);
    ParseIntToString(e.src);
    ParseIntToString(e.dst);
    if weighted {
      ParseIntToString(e.weight.value);
    }
  }

  ghost predicate Loadable(es: seq<ArcEntry>, keys: set<Int32>, weighted: bool) {
    forall e :: e in es ==>
      && e.src >= 0 && e.dst >= 0 && (e.weight.Some? ==> e.weight.value >= 0)
      && e.src in keys && e.dst in keys && (e.weight.Some? <==> weighted)
  }

  lemma {:induction false} DecodeArcsOfTokens(keys: set<Int32>, es: seq<ArcEntry>, weighted: bool)
    requires Loadable(es, keys, weighted)
    ensures DecodeArcs(keys, Tokens(es), weighted) == Some(es)
  {
    if es != [] {
      var init := es[..|es| - 1];
      var last := es[|es| - 1];
      assert es == init + [last];
      var items := Tokens(es);
      assert items[..|items| - 1] == Tokens(init);
      assert items[|items| - 1] == Token(last);
      assert Loadable(init, keys, weighted);
      DecodeArcsOfTokens(keys, init, weighted);
      DecodeItemOfToken(keys, last, weighted);
    }
  }

  lemma IdTokensInit(ids: seq<Int32>)
    requires ids != []
    ensures IdTokens(ids)[..|ids| - 1] == IdTokens(ids[..|ids| - 1])
    ensures IdTokens(ids)[|ids| - 1] == IntToString(ids[|ids| - 1])
  {
  }

  lemma {:induction false} DecodeIdsOfIdTokens(ids: seq<Int32>)
    ensures DecodeIds(IdTokens(ids)) == Some(ids)
  {
    if ids != [] {
      var init := ids[..|ids| - 1];
      var last := ids[|ids| - 1];
      var toks := IdTokens(ids);
      IdTokensInit(ids);
      DecodeIdsOfIdTokens(init);
      ParseIntToString(last);
      assert init + [last] == ids;
    }
  }

  // ---------------------------------------------------------------------
  // Putting the written arcs back rebuilds the graph

  lemma {:induction false} FoldArcsConcat(m: Adjacency, a: seq<ArcEntry>, b: seq<ArcEntry>)
    requires forall e :: e in a + b ==> e.src in m
    ensures forall e :: e in a ==> e.src in m
    ensures forall e :: e in b ==> e.src in FoldArcs(m, a)
    ensures FoldArcs(m, a + b) == FoldArcs(FoldArcs(m, a), b)
  {
    assert forall e :: e in a ==> e in a + b;
    assert forall e :: e in b ==> e in a + b;
    if b == [] {
      assert a + b == a;
    } else {
      var init := b[..|b| - 1];
      assert (a + b)[..|a + b| - 1] == a + init;
      assert (a + b)[|a + b| - 1] == b[|b| - 1];
      assert forall e :: e in a + init ==> e in a + b;
      FoldArcsConcat(m, a, init);
    }
  }

  /** Row `row` restricted to the destinations in ks. */
  ghost function Restrict(row: map<Int32, Option<Int32>>, ks: seq<Int32>): map<Int32, Option<Int32>> {
    map d | d in row && d in ks :: row[d]
  }

  /** Putting the entries of vertex k's first j destinations into a graph
      where k has no arc yet gives k exactly those arcs. */
  lemma RestrictStep(row: map<Int32, Option<Int32>>, ks: seq<Int32>, j: nat)
    requires 0 < j <= |ks| && ks[j - 1] in row
    ensures Put(Restrict(row, ks[..j - 1]), ks[j - 1], row[ks[j - 1]]) == Restrict(row, ks[..j])
  {
    assert ks[..j] == ks[..j - 1] + [ks[j - 1]];
  }

  lemma {:induction false} FoldRow(m: Adjacency, k: Int32, row: map<Int32, Option<Int32>>, ks: seq<Int32>, j: nat)
    requires k in m && m[k] == map[]
    requires forall d :: d in ks ==> d in row
    requires j <= |ks|
    ensures forall e :: e in EntriesOf(k, row, ks[..j]) ==> e.src in m
    ensures FoldArcs(m, EntriesOf(k, row, ks[..j])) == m[k := Restrict(row, ks[..j])]
  {
    var es := EntriesOf(k, row, ks[..j]);
    assert forall e :: e in es ==> e.src == k;
    if j == 0 {
      assert Restrict(row, ks[..0]) == map[];
    } else {
      FoldRow(m, k, row, ks, j - 1);
      assert es[..|es| - 1] == EntriesOf(k, row, ks[..j - 1]);
      assert es[|es| - 1] == ArcEntry(k, ks[j - 1], row[ks[j - 1]]);
      RestrictStep(row, ks, j);
    }
  }

  lemma RestrictAll(row: map<Int32, Option<Int32>>, ks: seq<Int32>)
    requires forall d :: d in row ==> d in ks
    ensures Restrict(row, ks) == row
  {
  }

  /** Entries for every destination of the row, in any order, restore it. */
  lemma FoldWholeRow(m: Adjacency, k: Int32, row: map<Int32, Option<Int32>>, ks: seq<Int32>)
    requires k in m && m[k] == map[]
    requires forall d :: d in ks <==> d in row
    ensures forall e :: e in EntriesOf(k, row, ks) ==> e.src in m
    ensures FoldArcs(m, EntriesOf(k, row, ks)) == m[k := row]
  {
    FoldRow(m, k, row, ks, |ks|);
    assert ks[..|ks|] == ks;
    RestrictAll(row, ks);
  }

  /** The whole row: its arcs in ascending order restore it. */
  lemma FoldVertexArcs(m: Adjacency, k: Int32, row: map<Int32, Option<Int32>>)
    requires k in m && m[k] == map[]
    ensures forall e :: e in VertexArcs(k, row) ==> e.src in m
    ensures FoldArcs(m, VertexArcs(k, row)) == m[k := row]
  {
    FoldWholeRow(m, k, row, SortedKeys(row.Keys));
  }

  /** The graph after loading the arcs of the first vertices of `order`. */
  ghost function LoadedPrefix(adj: Adjacency, done: seq<Int32>): Adjacency {
    map k | k in adj :: if k in done then adj[k] else map[]
  }

  /** A vertex listed once in `order` is not among those before it. */
  lemma NotEarlier(order: seq<Int32>, i: nat)
    requires i < |order|
    requires forall p, q :: 0 <= p < q < |order| ==> order[p] != order[q]
    ensures order[i] !in order[..i]
  {
  }

  lemma LoadedPrefixStep(adj: Adjacency, done: seq<Int32>, k: Int32)
    requires k in adj
    ensures LoadedPrefix(adj, done)[k := adj[k]] == LoadedPrefix(adj, done + [k])
  {
  }

  lemma FoldArcListStep(adj: Adjacency, order: seq<Int32>, i: nat)
    requires IsEnumeration(order, adj)
    requires i < |order|
    requires forall e :: e in ArcList(adj, order[..i]) ==> e.src in Base(order)
    requires FoldArcs(Base(order), ArcList(adj, order[..i])) == LoadedPrefix(adj, order[..i])
    ensures forall e :: e in ArcList(adj, order[..i + 1]) ==> e.src in Base(order)
    ensures FoldArcs(Base(order), ArcList(adj, order[..i + 1])) == LoadedPrefix(adj, order[..i + 1])
  {
    var base := Base(order);
    var k := order[i];
    var done := order[..i];
    ArcListStep(adj, order, i);
    assert order[..i + 1] == done + [k];
    var before := LoadedPrefix(adj, done);
    NotEarlier(order, i);
    FoldArcsConcat(base, ArcList(adj, done), VertexArcs(k, adj[k]));
    FoldVertexArcs(before, k, adj[k]);
    LoadedPrefixStep(adj, done, k);
  }

  /** Putting the arcs of line 3, vertex after vertex, restores the rows
      of the vertices done so far. */
  lemma {:induction false} FoldArcList(adj: Adjacency, order: seq<Int32>, i: nat)
    requires IsEnumeration(order, adj)
    requires i <= |order|
    ensures forall e :: e in ArcList(adj, order[..i]) ==> e.src in Base(order)
    ensures FoldArcs(Base(order), ArcList(adj, order[..i])) == LoadedPrefix(adj, order[..i])
  {
    if i == 0 {
      assert LoadedPrefix(adj, order[..0]) == Base(order);
    } else {
      FoldArcList(adj, order, i - 1);
      FoldArcListStep(adj, order, i - 1);
    }
  }

  /** Every entry of line 3 is an arc of the graph, with its weight. */
  lemma {:induction false} ArcListSound(adj: Adjacency, order: seq<Int32>)
    requires forall k :: k in order ==> k in adj
    ensures forall e :: e in ArcList(adj, order) ==>
              e.src in adj && e.dst in adj[e.src] && e.weight == adj[e.src][e.dst]
  {
    if order != [] {
      var init := order[..|order| - 1];
      assert forall x :: x in init ==> x in order;
      ArcListSound(adj, init);
    }
  }

  /** Every arc of a vertex in `order` appears in line 3. */
  lemma {:induction false} ArcListComplete(adj: Adjacency, order: seq<Int32>, k: Int32, d: Int32)
    requires forall x :: x in order ==> x in adj
    requires k in order && d in adj[k]
    ensures ArcEntry(k, d, adj[k][d]) in ArcList(adj, order)
  {
    var last := order[|order| - 1];
    var init := order[..|order| - 1];
    assert forall x :: x in init ==> x in order;
    if k == last {
      var ks := SortedKeys(adj[k].Keys);
      var i :| 0 <= i < |ks| && ks[i] == d;
      assert VertexArcs(k, adj[k])[i] == ArcEntry(k, d, adj[k][d]);
    } else {
      assert order == init + [last];
      ArcListComplete(adj, init, k, d);
    }
  }

  // ---------------------------------------------------------------------
  // The round trip

  /** What a graph needs for its saved text to load back: at least one arc
      (an empty line 3 makes the loader parse "" as an id), and no negative
      number in line 3 (a '-' sign there is taken for a separator). */
  ghost predicate Reloadable(s: Snapshot) {
    && (exists k, d :: k in s.adj && d in s.adj[k])
    && (forall k, d :: k in s.adj && d in s.adj[k] ==>
          k >= 0 && d >= 0 && (s.adj[k][d].Some? ==> s.adj[k][d].value >= 0))
  }

  /** Saved text splits into its three lines. */
  lemma EncodeLines(s: Snapshot, order: seq<Int32>)
    requires forall k :: k in order ==> k in s.adj
    requires ArcList(s.adj, order) != []
    ensures ReadLines(Encode(s, order)) == [Header(s.weighted, s.directed),
                                             Terminated(IdTokens(order), ';'),
                                             Terminated(Tokens(ArcList(s.adj, order)), ';')]
  {
    var es := ArcList(s.adj, order);
    var header := Header(s.weighted, s.directed);
    var line2 := Terminated(IdTokens(order), ';');
    var line3 := Terminated(Tokens(es), ';');
    HeaderNoLineBreak(s.weighted, s.directed);
    IdLineNoLineBreak(order);
    ArcLineNoLineBreak(es);
    assert line3 == Token(es[0]) + [';'] + Terminated(Tokens(es)[1..], ';');
    ReadThreeLines(header, line2, line3);
  }

  lemma HeaderNoLineBreak(weighted: bool, directed: bool)
    ensures NoLineBreak(Header(weighted, directed))
  {
    var h := Header(weighted, directed);
    assert h[0] != '\n' && h[0] != '\r' && h[1] != '\n' && h[1] != '\r';
  }

  /** Line 2 holds no line terminator. */
  lemma IdLineNoLineBreak(ids: seq<Int32>)
    ensures NoLineBreak(Terminated(IdTokens(ids), ';'))
  {
    forall t | t in IdTokens(ids)
      ensures NumericText(t)
    {
      var i :| 0 <= i < |ids| && IdTokens(ids)[i] == t;
      IntToStringIsNumeric(ids[i]);
    }
    TerminatedNoLineBreak(IdTokens(ids));
  }

  /** Line 3 holds no line terminator. */
  lemma ArcLineNoLineBreak(es: seq<ArcEntry>)
    ensures NoLineBreak(Terminated(Tokens(es), ';'))
  {
    forall t | t in Tokens(es)
      ensures NumericText(t)
    {
      var i :| 0 <= i < |es| && Tokens(es)[i] == t;
      TokenIsNumeric(es[i]);
    }
    TerminatedNoLineBreak(Tokens(es));
  }

  /** Line 2 gives the vertex ids back, in order. */
  lemma DecodeLine2(order: seq<Int32>)
    requires order != []
    ensures DecodeIds(Split(Terminated(IdTokens(order), ';'), ';')) == Some(order)
  {
    forall t | t in IdTokens(order)
      ensures NumericText(t) && t != []
    {
      var i :| 0 <= i < |order| && IdTokens(order)[i] == t;
      IntToStringIsNumeric(order[i]);
    }
    NumericSeparable(IdTokens(order));
    SplitTerminated(IdTokens(order), ';');
    DecodeIdsOfIdTokens(order);
  }

  /** Line 3 gives the arc entries back. */
  lemma DecodeLine3(s: Snapshot, order: seq<Int32>)
    requires WellFormed(s) && IsEnumeration(order, s.adj) && Reloadable(s)
    requires ArcList(s.adj, order) != []
    ensures DecodeArcs(Base(order).Keys, Split(Terminated(Tokens(ArcList(s.adj, order)), ';'), ';'), s.weighted)
            == Some(ArcList(s.adj, order))
  {
    var es := ArcList(s.adj, order);
    TokensSeparable(es);
    SplitTerminated(Tokens(es), ';');
    ArcListLoadable(s, order);
    assert Base(order).Keys == s.adj.Keys;
    DecodeArcsOfTokens(Base(order).Keys, es, s.weighted);
  }

  lemma TokensSeparable(es: seq<ArcEntry>)
    ensures Separable(Tokens(es), ';')
  {
    forall t | t in Tokens(es)
      ensures NumericText(t) && t != []
    {
      var i :| 0 <= i < |es| && Tokens(es)[i] == t;
      TokenIsNumeric(es[i]);
    }
    NumericSeparable(Tokens(es));
  }

  lemma ArcListLoadable(s: Snapshot, order: seq<Int32>)
    requires WellFormed(s) && IsEnumeration(order, s.adj) && Reloadable(s)
    ensures Loadable(ArcList(s.adj, order), s.adj.Keys, s.weighted)
  {
    ArcListSound(s.adj, order);
  }

  /** What `lerGrafo` makes of three lines that parse. */
  lemma DecodeThreeLines(text: string, h: string, l2: string, l3: string, ids: seq<Int32>, es: seq<ArcEntry>)
    requires ReadLines(text) == [h, l2, l3] && |h| == 2
    requires DecodeIds(Split(l2, ';')) == Some(ids)
    requires DecodeArcs(Base(ids).Keys, Split(l3, ';'), h[0] == '1') == Some(es)
    ensures Decode(text) == Some(Snapshot(h[0] == '1', h[1] == '1', FoldArcs(Base(ids), es)))
  {
  }

  lemma LoadedAll(adj: Adjacency, order: seq<Int32>)
    requires forall k :: k in adj ==> k in order
    ensures LoadedPrefix(adj, order) == adj
  {
  }

  lemma ReloadableHasArcs(s: Snapshot, order: seq<Int32>)
    requires IsEnumeration(order, s.adj) && Reloadable(s)
    ensures ArcList(s.adj, order) != [] && order != []
  {
    var k, d :| k in s.adj && d in s.adj[k];
    ArcListComplete(s.adj, order, k, d);
  }

  /** Putting all the arcs of line 3 restores the graph. */
  lemma FoldAll(adj: Adjacency, order: seq<Int32>)
    requires IsEnumeration(order, adj)
    ensures forall e :: e in ArcList(adj, order) ==> e.src in Base(order)
    ensures FoldArcs(Base(order), ArcList(adj, order)) == adj
  {
    FoldArcList(adj, order, |order|);
    assert order[..|order|] == order;
    LoadedAll(adj, order);
  }

  /** The three lines of a saved reloadable graph and what each parses to. */
  lemma SavedLines(s: Snapshot, order: seq<Int32>)
    requires WellFormed(s) && IsEnumeration(order, s.adj) && Reloadable(s)
    ensures var es := ArcList(s.adj, order);
            var l2 := Terminated(IdTokens(order), ';');
            var l3 := Terminated(Tokens(es), ';');
            && ReadLines(Encode(s, order)) == [Header(s.weighted, s.directed), l2, l3]
            && DecodeIds(Split(l2, ';')) == Some(order)
            && DecodeArcs(Base(order).Keys, Split(l3, ';'), s.weighted) == Some(es)
            && FoldArcs(Base(order), es) == s.adj
  {
    ReloadableHasArcs(s, order);
    EncodeLines(s, order);
    DecodeLine2(order);
    DecodeLine3(s, order);
    FoldAll(s.adj, order);
  }

  /** Loading what `salvar` wrote gives the same graph back, whatever the
      map's iteration order, for every well-formed, reloadable graph. */
  lemma RoundTrip(s: Snapshot, order: seq<Int32>)
    requires WellFormed(s) && IsEnumeration(order, s.adj) && Reloadable(s)
    ensures Decode(Encode(s, order)) == Some(s)
  {
    SavedLines(s, order);
    var es := ArcList(s.adj, order);
    DecodeThreeLines(Encode(s, order), Header(s.weighted, s.directed),
                     Terminated(IdTokens(order), ';'), Terminated(Tokens(es), ';'), order, es);
  }

  /** A graph with no arcs saves to a text whose third line is empty, so
      `readLine` returns null for it and the loader fails. */
  lemma EdgelessDoesNotReload(s: Snapshot, order: seq<Int32>)
    requires forall k :: k in order ==> k in s.adj
    requires forall k :: k in s.adj ==> s.adj[k] == map[]
    ensures Decode(Encode(s, order)) == None
  {
    EmptyArcList(s.adj, order);
    var header := Header(s.weighted, s.directed);
    var line2 := Terminated(IdTokens(order), ';');
    IdLineNoLineBreak(order);
    HeaderNoLineBreak(s.weighted, s.directed);
    assert Encode(s, order) == header + "\n" + (line2 + "\n" + "");
    ReadLinesAfter(header, line2 + "\n" + "");
    ReadLinesAfter(line2, "");
  }

  lemma {:induction false} EmptyArcList(adj: Adjacency, order: seq<Int32>)
    requires forall k :: k in order ==> k in adj
    requires forall k :: k in adj ==> adj[k] == map[]
    ensures ArcList(adj, order) == []
  {
    if order != [] {
      var init := order[..|order| - 1];
      assert forall x :: x in init ==> x in order;
      EmptyArcList(adj, init);
      assert SortedKeys(adj[order[|order| - 1]].Keys) == [];
    }
  }

  lemma FieldsOfDashDigits(digits: string)
    requires '-' !in digits
    ensures Fields("-" + digits, '-') == ["", digits]
  {
    assert "-" + digits == "" + "-" + digits;
    FieldsAfter("", digits, '-');
    FindAbsent(digits, '-');
  }

  /** The fields of "o-d--w". */
  lemma NegativeWeightFields(a: string, b: string, digits: string)
    requires '-' !in a && '-' !in b && '-' !in digits
    ensures Fields(a + "-" + (b + "-" + ("-" + digits)), '-') == [a, b, "", digits]
  {
    var r2 := "-" + digits;
    FieldsOfDashDigits(digits);
    var r1 := b + "-" + r2;
    FieldsAfter(b, r2, '-');
    assert Fields(r1, '-') == [b, "", digits];
    FieldsAfter(a, r1, '-');
  }

  lemma NegativeWeightSplit(e: ArcEntry)
    requires e.src >= 0 && e.dst >= 0 && e.weight.Some? && e.weight.value < 0
    ensures Split(Token(e), '-') == [IntToString(e.src), IntToString(e.dst), "", NatDigits(0 - e.weight.value as int)]
  {
    var a := IntToString(e.src);
    var b := IntToString(e.dst);
    var digits := NatDigits(0 - e.weight.value as int);
    var t := Token(e);
    var fields := [a, b, "", digits];
    assert Fields(t, '-') == fields by {
      DigitsHaveNoDash(a);
      DigitsHaveNoDash(b);
      DigitsHaveNoDash(digits);
      assert t == a + "-" + (b + "-" + ("-" + digits));
      NegativeWeightFields(a, b, digits);
    }
    assert t[|a|] == '-';
    assert DropTrailingEmpty(fields) == fields;
  }

  /** The token of an arc with a negative weight, "o-d--w", splits into
      four fields with an empty third one, which does not parse. */
  lemma NegativeWeightDoesNotReload(keys: set<Int32>, e: ArcEntry)
    requires e.src >= 0 && e.dst >= 0 && e.weight.Some? && e.weight.value < 0
    ensures DecodeItem(keys, Token(e), true) == None
  {
    NegativeWeightSplit(e);
  }

  // ---------------------------------------------------------------------
  // One turn of the writer's and the loader's loops

  /** Writing one more id on line 2. */
  lemma TerminatedIdsSnoc(ids: seq<Int32>, k: Int32)
    ensures Terminated(IdTokens(ids + [k]), ';') == Terminated(IdTokens(ids), ';') + IntToString(k) + ";"
  {
    assert IdTokens(ids + [k]) == IdTokens(ids) + [IntToString(k)];
    TerminatedConcat(IdTokens(ids), [IntToString(k)], ';');
  }

  /** Writing one more vertex's `toFile()` on line 3. */
  lemma TokensConcat(a: seq<ArcEntry>, b: seq<ArcEntry>)
    ensures Tokens(a + b) == Tokens(a) + Tokens(b)
  {
    var l, r := Tokens(a + b), Tokens(a) + Tokens(b);
    assert |l| == |r|;
    forall i | 0 <= i < |l|
      ensures l[i] == r[i]
    {
      if i < |a| {
        assert (a + b)[i] == a[i];
      } else {
        assert (a + b)[i] == b[i - |a|];
      }
    }
  }

  /** Line 3 for one more vertex of `order`. */
  lemma ArcListStep(adj: Adjacency, order: seq<Int32>, i: nat)
    requires forall k :: k in order ==> k in adj
    requires i < |order|
    ensures forall k :: k in order[..i + 1] ==> k in adj
    ensures ArcList(adj, order[..i + 1]) == ArcList(adj, order[..i]) + VertexArcs(order[i], adj[order[i]])
  {
    assert order[..i + 1][..i] == order[..i];
  }

  lemma TerminatedArcListStep(adj: Adjacency, order: seq<Int32>, i: nat)
    requires forall k :: k in order ==> k in adj
    requires i < |order|
    ensures forall k :: k in order[..i + 1] ==> k in adj
    ensures Terminated(Tokens(ArcList(adj, order[..i + 1])), ';')
            == Terminated(Tokens(ArcList(adj, order[..i])), ';') + Terminated(Tokens(VertexArcs(order[i], adj[order[i]])), ';')
  {
    var a := ArcList(adj, order[..i]);
    var b := VertexArcs(order[i], adj[order[i]]);
    ArcListStep(adj, order, i);
    TokensConcat(a, b);
    TerminatedConcat(Tokens(a), Tokens(b), ';');
  }

  /** Once a prefix of line 2 fails to parse, the whole line does. */
  lemma {:induction false} DecodeIdsPrefixNone(toks: seq<string>, i: nat)
    requires i <= |toks| && DecodeIds(toks[..i]) == None
    ensures DecodeIds(toks) == None
    decreases |toks| - i
  {
    if i == |toks| {
      assert toks[..i] == toks;
    } else {
      var init := toks[..|toks| - 1];
      assert init[..i] == toks[..i];
      DecodeIdsPrefixNone(init, i);
    }
  }

  /** Parsing one more id of line 2. */
  lemma DecodeIdsStep(toks: seq<string>, i: nat, ids: seq<Int32>)
    requires i < |toks| && DecodeIds(toks[..i]) == Some(ids)
    ensures ParseInt(toks[i]).None? ==> DecodeIds(toks) == None
    ensures ParseInt(toks[i]).Some? ==> DecodeIds(toks[..i + 1]) == Some(ids + [ParseInt(toks[i]).value])
  {
    assert toks[..i + 1][..i] == toks[..i];
    if ParseInt(toks[i]).None? {
      DecodeIdsPrefixNone(toks, i + 1);
    }
  }

  /** Once a prefix of line 3 fails to load, the whole line does. */
  lemma {:induction false} DecodeArcsPrefixNone(keys: set<Int32>, items: seq<string>, weighted: bool, i: nat)
    requires i <= |items| && DecodeArcs(keys, items[..i], weighted) == None
    ensures DecodeArcs(keys, items, weighted) == None
    decreases |items| - i
  {
    if i == |items| {
      assert items[..i] == items;
    } else {
      var init := items[..|items| - 1];
      assert init[..i] == items[..i];
      DecodeArcsPrefixNone(keys, init, weighted, i);
    }
  }

  /** Loading one more item of line 3. */
  lemma DecodeArcsStep(keys: set<Int32>, items: seq<string>, weighted: bool, i: nat, es: seq<ArcEntry>)
    requires i < |items| && DecodeArcs(keys, items[..i], weighted) == Some(es)
    ensures DecodeItem(keys, items[i], weighted).None? ==> DecodeArcs(keys, items, weighted) == None
    ensures DecodeItem(keys, items[i], weighted).Some? ==>
              DecodeArcs(keys, items[..i + 1], weighted) == Some(es + [DecodeItem(keys, items[i], weighted).value])
  {
    assert items[..i + 1][..i] == items[..i];
    if DecodeItem(keys, items[i], weighted).None? {
      DecodeArcsPrefixNone(keys, items, weighted, i + 1);
    }
  }

  /** Putting one more arc. */
  lemma FoldArcsSnoc(m: Adjacency, es: seq<ArcEntry>, e: ArcEntry)
    requires forall x :: x in es ==> x.src in m
    requires e.src in m
    ensures forall x :: x in es + [e] ==> x.src in m
    ensures FoldArcs(m, es + [e]) == WithArc(FoldArcs(m, es), e.src, e.dst, e.weight)
  {
    assert (es + [e])[..|es|] == es;
  }

  /** Adding one more listed id. */
  lemma BaseSnoc(ids: seq<Int32>, k: Int32)
    ensures Base(ids + [k]) == GraphSpec.AddVertex(Base(ids), k).adj
  {
  }
}
