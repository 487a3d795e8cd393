/** Packing the build tree: children sorted in place by byte, nodes numbered depth first,
    each node's edges in a slice reserved before its subtrees are packed. */
module TokenizerPack {
  import opened Base
  import opened Ranking
  import opened TokenizerVocab
  import opened TokenizerTrie

  // ---- Sorting a child list -------------------------------------------------------------

  /** A rank that is higher the smaller the byte. */
  function ByByte(): Child -> real {
    (c: Child) => -(c.b as real)
  }

  /** The children in ascending order of bytes. */
  function Sorted(s: seq<Child>): (r: seq<Child>)
    ensures |r| == |s|
  {
    Ranked(s, ByByte())
  }

  ghost predicate Ascending(s: seq<Child>) {
    forall k, l :: 0 <= k < l < |s| ==> s[k].b <= s[l].b
  }

  /** Sorting permutes the children into ascending order of bytes. */
  lemma {:induction false} SortedCorrect(s: seq<Child>)
    ensures multiset(Sorted(s)) == multiset(s)
    ensures Ascending(Sorted(s))
  {
    hide Ranked;
    RankedCorrect(s, ByByte());
    var r := Sorted(s);
    forall k, l | 0 <= k < l < |r|
      ensures r[k].b <= r[l].b
    {
      assert ByByte()(r[k]) >= ByByte()(r[l]);
    }
  }

  /** The insertion sort, in place. */
  method SortChildren(a: array<Child>)
    modifies a
    ensures a[..] == Sorted(old(a[..]))
  {
    hide Ranked;
    assert a[..a.Length] == a[..];
    RankInPlace(a, a.Length, ByByte());
    assert a[..a.Length] == a[..];
  }

  // ---- Counting -------------------------------------------------------------------------

  /** Nodes of the subtree at `j`. */
  ghost function NodesIn(t: seq<BuildNode>, j: nat): (n: nat)
    requires WellFormed(t) && j < |t|
    ensures n >= 1
    decreases |t| - j, 1, 0
  {
    assert GoodChildren(j, t[j].children, |t|);
    1 + NodesOf(t, j, t[j].children)
  }

  /** Nodes below `j` that hang from the edges `cs`. */
  ghost function NodesOf(t: seq<BuildNode>, j: nat, cs: seq<Child>): (n: nat)
    requires WellFormed(t) && j < |t|
    requires forall k :: 0 <= k < |cs| ==> j < cs[k].node < |t|
    decreases |t| - j, 0, |cs|
  {
    if cs == [] then 0
    else NodesOf(t, j, cs[..|cs| - 1]) + NodesIn(t, cs[|cs| - 1].node)
  }

  lemma {:induction false} NodesOfPlace(t: seq<BuildNode>, j: nat, cs: seq<Child>, x: Child)
    requires WellFormed(t) && j < |t| && j < x.node < |t|
    requires forall k :: 0 <= k < |cs| ==> j < cs[k].node < |t|
    ensures forall k :: 0 <= k < |cs| + 1 ==> j < Place(cs, x, ByByte())[k].node < |t|
    ensures NodesOf(t, j, Place(cs, x, ByByte())) == NodesOf(t, j, cs) + NodesIn(t, x.node)
  {
    hide NodesOf, NodesIn, Place;
    PlaceUnfold(cs, x, ByByte());
    var n := |cs| - 1;
    if cs != [] && cs[n].b > x.b {
      NodesOfPlace(t, j, cs[..n], x);
      NodesOfSnoc(t, j, Place(cs[..n], x, ByByte()), cs[n]);
      NodesOfSnoc(t, j, cs[..n], cs[n]);
      assert cs == cs[..n] + [cs[n]];
    } else {
      NodesOfSnoc(t, j, cs, x);
    }
  }

  lemma {:induction false} NodesOfSnoc(t: seq<BuildNode>, j: nat, cs: seq<Child>, x: Child)
    requires WellFormed(t) && j < |t| && j < x.node < |t|
    requires forall k :: 0 <= k < |cs| ==> j < cs[k].node < |t|
    ensures NodesOf(t, j, cs + [x]) == NodesOf(t, j, cs) + NodesIn(t, x.node)
  {
    hide WellFormed, NodesIn;
    assert (cs + [x])[..|cs|] == cs;
  }

  /** Sorting a child list does not change how many nodes hang from it. */
  lemma {:induction false} NodesOfSorted(t: seq<BuildNode>, j: nat, cs: seq<Child>)
    requires WellFormed(t) && j < |t|
    requires forall k :: 0 <= k < |cs| ==> j < cs[k].node < |t|
    ensures forall k :: 0 <= k < |cs| ==> j < Sorted(cs)[k].node < |t|
    ensures NodesOf(t, j, Sorted(cs)) == NodesOf(t, j, cs)
  {
    if cs != [] {
      var n := |cs| - 1;
      NodesOfSorted(t, j, cs[..n]);
      NodesOfPlace(t, j, Sorted(cs[..n]), cs[n]);
    }
  }

  /** The depth-first count: a subtree has one edge fewer than nodes. */
  method Count(t: seq<BuildNode>, j: nat) returns (nodes: nat, edges: nat)
    requires WellFormed(t) && j < |t|
    ensures nodes == NodesIn(t, j)
    ensures edges == nodes - 1
    decreases |t| - j
  {
    var cs := t[j].children;
    assert GoodChildren(j, cs, |t|);
    nodes, edges := 1, |cs|;
    for i := 0 to |cs|
      invariant nodes == 1 + NodesOf(t, j, cs[..i])
      invariant edges == |cs| + nodes - 1 - i
    {
      var n, e := Count(t, cs[i].node);
      assert cs[..i + 1][..i] == cs[..i];
      nodes, edges := nodes + n, edges + e;
    }
    assert cs[..|cs|] == cs;
  }

  // ---- Packing --------------------------------------------------------------------------

  datatype PackedNode = PackedNode(terminal: Terminal, start: nat, count: nat)

  datatype PackedEdge = PackedEdge(b: byte, node: nat)

  /** The edges `es` are the children `cs`, packed node `p` standing for build node `src[p]`. */
  ghost predicate Slice(es: seq<PackedEdge>, cs: seq<Child>, src: seq<nat>) {
    && |es| == |cs|
    && forall k :: 0 <= k < |cs| ==>
         es[k].b == cs[k].b && es[k].node < |src| && src[es[k].node] == cs[k].node
  }

  /** A packed node with its slice, which lies between edges `lo` and `hi`. */
  ghost predicate PackedAs(t: seq<BuildNode>, src: seq<nat>, n: PackedNode, j: nat,
                           es: seq<PackedEdge>, lo: nat, hi: nat)
  {
    && j < |t| && n.terminal == t[j].terminal
    && lo <= n.start && n.start + n.count <= hi <= |es|
    && Slice(es[n.start..n.start + n.count], Sorted(t[j].children), src)
  }

  /** Packed nodes `from` to `to` are complete, with their edges between `lo` and `hi`. */
  ghost predicate Region(t: seq<BuildNode>, src: seq<nat>, ns: seq<PackedNode>,
                         es: seq<PackedEdge>, from: nat, to: nat, lo: nat, hi: nat)
  {
    && to <= |ns| && to <= |src|
    && forall p :: from <= p < to ==> PackedAs(t, src, ns[p], src[p], es, lo, hi)
  }

  /** The slices of nodes `from` to `to` follow one another without gap from `lo` to `hi`. */
  ghost predicate Tiled(ns: seq<PackedNode>, from: nat, to: nat, lo: nat, hi: nat) {
    && from <= to <= |ns|
    && (from == to ==> lo == hi)
    && (from < to ==> ns[from].start == lo && ns[to - 1].start + ns[to - 1].count == hi)
    && forall p :: from < p < to ==> ns[p].start == ns[p - 1].start + ns[p - 1].count
  }

  lemma TiledJoin(ns: seq<PackedNode>, a: nat, b: nat, c: nat, lo: nat, mid: nat, hi: nat)
    requires Tiled(ns, a, b, lo, mid) && Tiled(ns, b, c, mid, hi)
    ensures Tiled(ns, a, c, lo, hi)
  {
  }

  lemma TiledFrame(ns: seq<PackedNode>, ns': seq<PackedNode>, a: nat, b: nat, lo: nat, hi: nat)
    requires Tiled(ns, a, b, lo, hi) && b <= |ns'| && ns[..b] == ns'[..b]
    ensures Tiled(ns', a, b, lo, hi)
  {
    assert forall p :: 0 <= p < b ==> ns[p] == ns[..b][p] == ns'[p];
  }

  lemma SliceFrame(es: seq<PackedEdge>, es': seq<PackedEdge>, lo: nat, hi: nat, p: nat, q: nat)
    requires lo <= p <= q <= hi <= |es| && hi <= |es'| && es[lo..hi] == es'[lo..hi]
    ensures es[p..q] == es'[p..q]
  {
    forall k | p <= k < q
      ensures es[k] == es'[k]
    {
      assert es[lo..hi][k - lo] == es'[lo..hi][k - lo];
    }
    assert es[p..q] == es'[p..q];
  }

  lemma SliceLater(es: seq<PackedEdge>, cs: seq<Child>, src: seq<nat>, src': seq<nat>)
    requires Slice(es, cs, src) && src <= src'
    ensures Slice(es, cs, src')
  {
  }

  /** A complete region stays complete while packing goes on elsewhere. */
  lemma {:induction false} RegionFrame(t: seq<BuildNode>, src: seq<nat>, ns: seq<PackedNode>, es: seq<PackedEdge>,
                    src': seq<nat>, ns': seq<PackedNode>, es': seq<PackedEdge>,
                    from: nat, to: nat, lo: nat, hi: nat, lo': nat, hi': nat)
    requires Region(t, src, ns, es, from, to, lo, hi)
    requires src <= src' && to <= |ns'| && ns[..to] == ns'[..to]
    requires lo' <= lo <= hi <= hi' <= |es'| && hi <= |es| && es[lo..hi] == es'[lo..hi]
    ensures Region(t, src', ns', es', from, to, lo', hi')
  {
    hide Slice, Sorted;
    forall p | from <= p < to
      ensures PackedAs(t, src', ns'[p], src'[p], es', lo', hi')
    {
      var n := ns[p];
      assert n == ns[..to][p] == ns'[p];
      assert PackedAs(t, src, n, src[p], es, lo, hi);
      SliceFrame(es, es', lo, hi, n.start, n.start + n.count);
      SliceLater(es[n.start..n.start + n.count], Sorted(t[src[p]].children), src, src');
    }
  }

  lemma RegionJoin(t: seq<BuildNode>, src: seq<nat>, ns: seq<PackedNode>, es: seq<PackedEdge>,
                   a: nat, b: nat, c: nat, lo: nat, hi: nat)
    requires Region(t, src, ns, es, a, b, lo, hi) && Region(t, src, ns, es, b, c, lo, hi)
    ensures Region(t, src, ns, es, a, c, lo, hi)
  {
  }

  /** The edges of one node, filled up to child `i`. */
  ghost predicate Filled(es: seq<PackedEdge>, start: nat, cs: seq<Child>, i: nat, src: seq<nat>) {
    && i <= |cs| && start + |cs| <= |es|
    && Slice(es[start..start + i], cs[..i], src)
  }

  /** A child list, sorted. */
  method SortedChildren(cs: seq<Child>) returns (r: seq<Child>)
    ensures r == Sorted(cs)
  {
    var a := new Child[|cs|](k requires 0 <= k < |cs| => cs[k]);
    assert a[..] == cs;
    SortChildren(a);
    r := a[..];
  }

  ghost predicate Below(cs: seq<Child>, j: nat, n: nat) {
    forall k :: 0 <= k < |cs| ==> j < cs[k].node < n
  }

  lemma {:induction false} NodesOfPrefix(t: seq<BuildNode>, j: nat, cs: seq<Child>, k: nat)
    requires WellFormed(t) && j < |t| && Below(cs, j, |t|) && k <= |cs|
    ensures NodesOf(t, j, cs) >= NodesOf(t, j, cs[..k]) + |cs| - k
  {
    if k == |cs| {
      assert cs[..k] == cs;
    } else {
      var n := |cs| - 1;
      NodesOfPrefix(t, j, cs[..n], k);
      assert cs[..n][..k] == cs[..k];
    }
  }

  lemma NodesOfStep(t: seq<BuildNode>, j: nat, cs: seq<Child>, i: nat)
    requires WellFormed(t) && j < |t| && Below(cs, j, |t|) && i < |cs|
    ensures NodesOf(t, j, cs[..i + 1]) == NodesOf(t, j, cs[..i]) + NodesIn(t, cs[i].node)
  {
    assert cs[..i + 1][..i] == cs[..i];
  }

  /** The packed nodes behind `from` stand for build nodes behind `j`. */
  ghost predicate After(src: seq<nat>, from: nat, to: nat, j: nat) {
    to <= |src| && forall p :: from < p < to ==> j < src[p]
  }

  /** Packing of node `j` under way: node `ni` and the subtrees of its first `i` children are
      packed, up to node `nj` and edge `ej`. */
  ghost predicate Packing(t: seq<BuildNode>, j: nat, cs: seq<Child>, i: nat, src: seq<nat>,
                          ns: seq<PackedNode>, es: seq<PackedEdge>, ni: nat, ei: nat,
                          nj: nat, ej: nat)
    requires WellFormed(t) && j < |t| && Below(cs, j, |t|) && i <= |cs|
  {
    && ni < nj == |src| <= |ns| && ei + |cs| <= ej <= |es|
    && nj == ni + 1 + NodesOf(t, j, cs[..i])
    && ej == ei + |cs| + NodesOf(t, j, cs[..i]) - i
    && src[ni] == j && ns[ni] == PackedNode(t[j].terminal, ei, |cs|)
    && After(src, ni, nj, j)
    && Filled(es, ei, cs, i, src)
    && Region(t, src, ns, es, ni + 1, nj, ei + |cs|, ej)
    && Tiled(ns, ni, nj, ei, ej)
  }

  lemma PackingStart(t: seq<BuildNode>, j: nat, cs: seq<Child>, src: seq<nat>,
                     ns: seq<PackedNode>, es: seq<PackedEdge>, ni: nat, ei: nat)
    requires WellFormed(t) && j < |t| && Below(cs, j, |t|)
    requires |src| == ni + 1 <= |ns| && ei + |cs| <= |es|
    requires src[ni] == j && ns[ni] == PackedNode(t[j].terminal, ei, |cs|)
    ensures Packing(t, j, cs, 0, src, ns, es, ni, ei, ni + 1, ei + |cs|)
  {
  }

  lemma FilledStep(es: seq<PackedEdge>, es': seq<PackedEdge>, start: nat, cs: seq<Child>, i: nat,
                   src: seq<nat>, src': seq<nat>, child: nat)
    requires Filled(es, start, cs, i, src) && i < |cs| && start + |cs| <= |es'|
    requires es'[..start + i] == es[..start + i] && src <= src'
    requires child < |src'| && src'[child] == cs[i].node
    requires es'[start + i] == PackedEdge(cs[i].b, child)
    ensures Filled(es', start, cs, i + 1, src')
  {
    var before, after := es[start..start + i], es'[start..start + i + 1];
    SliceFrame(es, es', 0, start + i, start, start + i);
    assert after == before + [es'[start + i]];
    assert cs[..i + 1] == cs[..i] + [cs[i]];
  }

  lemma {:induction false} PackingStep(t: seq<BuildNode>, j: nat, cs: seq<Child>, i: nat, ni: nat, ei: nat,
                    src: seq<nat>, ns: seq<PackedNode>, es: seq<PackedEdge>, nj: nat, ej: nat,
                    src': seq<nat>, ns': seq<PackedNode>, sub: seq<PackedEdge>, nj': nat, ej': nat)
    requires WellFormed(t) && j < |t| && Below(cs, j, |t|) && i < |cs|
    requires Packing(t, j, cs, i, src, ns, es, ni, ei, nj, ej)
    requires nj' == nj + NodesIn(t, cs[i].node) && ej' == ej + NodesIn(t, cs[i].node) - 1
    requires |src'| == nj' && src <= src' && src'[nj] == cs[i].node
    requires After(src', nj, nj', cs[i].node)
    requires nj' <= |ns'| && ns'[..nj] == ns[..nj]
    requires ej' <= |sub| && sub[..ei + i] == es[..ei + i] && sub[ei + |cs|..ej] == es[ei + |cs|..ej]
    requires Region(t, src', ns', sub, nj, nj', ej, ej') && Tiled(ns', nj, nj', ej, ej')
    ensures Packing(t, j, cs, i + 1, src', ns', sub[ei + i := PackedEdge(cs[i].b, nj)], ni, ei,
                    nj', ej')
  {
    hide NodesIn, NodesOf, Region, Filled, Tiled;
    var es' := sub[ei + i := PackedEdge(cs[i].b, nj)];
    NodesOfStep(t, j, cs, i);
    assert ns'[ni] == ns'[..nj][ni] == ns[..nj][ni];
    TiledFrame(ns, ns', ni, nj, ei, ej);
    TiledJoin(ns', ni, nj, nj', ei, ej, ej');
    assert es'[..ei + i] == sub[..ei + i];
    FilledStep(es, es', ei, cs, i, src, src', nj);
    assert es'[ei + |cs|..ej] == sub[ei + |cs|..ej];
    RegionFrame(t, src, ns, es, src', ns', es', ni + 1, nj, ei + |cs|, ej, ei + |cs|, ej');
    assert es'[ej..ej'] == sub[ej..ej'];
    RegionFrame(t, src', ns', sub, src', ns', es', nj, nj', ej, ej', ei + |cs|, ej');
    RegionJoin(t, src', ns', es', ni + 1, nj, nj', ei + |cs|, ej');
  }

  lemma {:induction false} PackingDone(t: seq<BuildNode>, j: nat, cs: seq<Child>, src: seq<nat>,
                    ns: seq<PackedNode>, es: seq<PackedEdge>, ni: nat, ei: nat, nj: nat, ej: nat)
    requires WellFormed(t) && j < |t| && cs == Sorted(t[j].children) && Below(cs, j, |t|)
    requires Packing(t, j, cs, |cs|, src, ns, es, ni, ei, nj, ej)
    ensures nj == ni + NodesIn(t, j) && ej == ei + NodesIn(t, j) - 1
    ensures |src| == nj <= |ns| && src[ni] == j && Tiled(ns, ni, nj, ei, ej)
    ensures After(src, ni, nj, j)
    ensures Region(t, src, ns, es, ni, nj, ei, ej)
  {
    hide Sorted, Tiled, Slice;
    assert cs[..|cs|] == cs;
    PackStart(t, j);
    assert PackedAs(t, src, ns[ni], j, es, ei, ej);
    RegionFrame(t, src, ns, es, src, ns, es, ni + 1, nj, ei + |cs|, ej, ei, ej);
    assert Region(t, src, ns, es, ni, ni + 1, ei, ej);
    RegionJoin(t, src, ns, es, ni, ni + 1, nj, ei, ej);
  }

  lemma PackStart(t: seq<BuildNode>, j: nat)
    requires WellFormed(t) && j < |t|
    ensures Below(Sorted(t[j].children), j, |t|)
    ensures NodesIn(t, j) == 1 + NodesOf(t, j, Sorted(t[j].children))
  {
    assert GoodChildren(j, t[j].children, |t|);
    NodesOfSorted(t, j, t[j].children);
  }

  /** Packs the subtree at `j` into nodes from `ni` on and edges from `ei` on: it takes exactly
      the counted nodes and edges, tiles them, and leaves everything before alone. */
  method Pack(t: seq<BuildNode>, j: nat, ns: array<PackedNode>, es: array<PackedEdge>,
              ni: nat, ei: nat, ghost src: seq<nat>)
    returns (nj: nat, ej: nat, ghost src': seq<nat>)
    requires WellFormed(t) && j < |t| && |src| == ni
    requires ni + NodesIn(t, j) <= ns.Length && ei + NodesIn(t, j) - 1 <= es.Length
    modifies ns, es
    ensures nj == ni + NodesIn(t, j) && ej == ei + NodesIn(t, j) - 1
    ensures |src'| == nj && src <= src' && src'[ni] == j
    ensures After(src', ni, nj, j)
    ensures ns[..ni] == old(ns[..ni]) && es[..ei] == old(es[..ei])
    ensures Region(t, src', ns[..], es[..], ni, nj, ei, ej)
    ensures Tiled(ns[..], ni, nj, ei, ej)
    decreases |t| - j, 1
  {
    hide *;
    var cs := SortedChildren(t[j].children);
    PackStart(t, j);
    NodesOfPrefix(t, j, cs, 0);
    nj, ej, src' := ni + 1, ei + |cs|, src + [j];
    ns[ni] := PackedNode(t[j].terminal, ei, |cs|);
    assert ns[..ni] == old(ns[..ni]);
    PackingStart(t, j, cs, src', ns[..], es[..], ni, ei);
    var i := 0;
    while i < |cs|
      invariant 0 <= i <= |cs| && src <= src'
      invariant ns[..ni] == old(ns[..ni]) && es[..ei] == old(es[..ei])
      invariant Packing(t, j, cs, i, src', ns[..], es[..], ni, ei, nj, ej)
    {
      nj, ej, src' := PackChild(t, j, cs, i, ns, es, ni, ei, nj, ej, src');
      i := i + 1;
    }
    PackingDone(t, j, cs, src', ns[..], es[..], ni, ei, nj, ej);
  }

  /** One child: its edge's byte, its subtree, then the subtree's index in the edge. */
  method PackChild(t: seq<BuildNode>, j: nat, cs: seq<Child>, i: nat, ns: array<PackedNode>,
                   es: array<PackedEdge>, ghost ni: nat, ei: nat, nj: nat, ej: nat,
                   ghost src: seq<nat>)
    returns (nj': nat, ej': nat, ghost src': seq<nat>)
    requires WellFormed(t) && j < |t| && Below(cs, j, |t|) && i < |cs|
    requires ni + 1 + NodesOf(t, j, cs) <= ns.Length && ei + NodesOf(t, j, cs) <= es.Length
    requires Packing(t, j, cs, i, src, ns[..], es[..], ni, ei, nj, ej)
    modifies ns, es
    ensures src <= src'
    ensures ns[..ni] == old(ns[..ni]) && es[..ei] == old(es[..ei])
    ensures Packing(t, j, cs, i + 1, src', ns[..], es[..], ni, ei, nj', ej')
    decreases |t| - j, 0
  {
    PackChildRoom(t, j, cs, i, src, ns[..], es[..], ni, ei, nj, ej);
    hide *;
    es[ei + i] := es[ei + i].(b := cs[i].b);
    ghost var marked := es[..];
    nj', ej', src' := Pack(t, cs[i].node, ns, es, nj, ej, src);
    ghost var sub := es[..];
    Agree(old(es[..]), marked, sub, ei + i, ei + |cs|, ej);
    PackingStep(t, j, cs, i, ni, ei, src, old(ns[..]), old(es[..]), nj, ej, src', ns[..], sub,
                nj', ej');
    es[ei + i] := es[ei + i].(node := nj);
    assert es[..] == sub[ei + i := PackedEdge(cs[i].b, nj)];
    Before(old(es[..]), sub, es[..], ei, ei + i, ei + i);
    Before(old(ns[..]), old(ns[..]), ns[..], ni, nj, nj);
  }

  lemma Before<T>(a: seq<T>, b: seq<T>, c: seq<T>, n: nat, i: nat, j: nat)
    requires n <= i <= |a| && i <= |b| && n <= j <= |b| && j <= |c|
    requires a[..i] == b[..i] && b[..j] == c[..j]
    ensures a[..n] == c[..n]
  {
    assert a[..n] == a[..i][..n] == b[..n] == b[..j][..n] == c[..n];
  }

  lemma Agree(a: seq<PackedEdge>, marked: seq<PackedEdge>, sub: seq<PackedEdge>, at: nat,
              from: nat, to: nat)
    requires at < from <= to <= |a| == |marked| == |sub|
    requires forall k :: 0 <= k < |a| && k != at ==> marked[k] == a[k]
    requires sub[..to] == marked[..to]
    ensures sub[..at] == a[..at] && sub[from..to] == a[from..to] && sub[at] == marked[at]
  {
    assert forall k :: 0 <= k < to ==> sub[k] == sub[..to][k] == marked[..to][k] == marked[k];
  }

  lemma {:induction false} PackChildRoom(t: seq<BuildNode>, j: nat, cs: seq<Child>, i: nat, src: seq<nat>,
                      ns: seq<PackedNode>, es: seq<PackedEdge>, ni: nat, ei: nat,
                      nj: nat, ej: nat)
    requires WellFormed(t) && j < |t| && Below(cs, j, |t|) && i < |cs|
    requires ni + 1 + NodesOf(t, j, cs) <= |ns| && ei + NodesOf(t, j, cs) <= |es|
    requires Packing(t, j, cs, i, src, ns, es, ni, ei, nj, ej)
    ensures j < cs[i].node < |t| && |src| == nj && ni < nj && ei + |cs| <= ej <= |es|
    ensures nj + NodesIn(t, cs[i].node) <= |ns| && ej + NodesIn(t, cs[i].node) - 1 <= |es|
  {
    hide NodesIn, NodesOf, Region, Filled, Tiled;
    NodesOfStep(t, j, cs, i);
    NodesOfPrefix(t, j, cs, i + 1);
  }
}
