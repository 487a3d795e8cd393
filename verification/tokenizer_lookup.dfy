/** The packed trie as a refinement of the vocabulary, and the binary search that walks it. */
module TokenizerLookup {
  import opened Base
  import opened Sequences
  import opened TokenizerVocab
  import opened TokenizerTrie
  import opened TokenizerPack

  /** The packed arrays, which nothing writes once the trie is built. */
  datatype Trie = Trie(nodes: seq<PackedNode>, edges: seq<PackedEdge>)

  /** The slice of a node: strictly ascending bytes, every edge appends its byte to the path,
      and every byte that continues the path towards some text has an edge. */
  ghost predicate GoodSlice(vocab: seq<Entry>, es: seq<PackedEdge>, w: seq<byte>,
                            paths: seq<seq<byte>>)
  {
    && (forall k, l :: 0 <= k < l < |es| ==> es[k].b < es[l].b)
    && (forall k :: 0 <= k < |es| ==>
          es[k].node < |paths| && paths[es[k].node] == w + [es[k].b])
    && (forall b: byte :: Begins(vocab, w + [b]) ==> exists k :: 0 <= k < |es| && es[k].b == b)
  }

  /** The trie of a vocabulary, node `p` standing for the byte string `paths[p]`. The edge array
      is tiled by the nodes' slices: they are disjoint, in node order, and leave no gap. */
  ghost predicate Refines(trie: Trie, vocab: seq<Entry>, paths: seq<seq<byte>>) {
    && |paths| == |trie.nodes| > 0 && paths[0] == []
    && Tiled(trie.nodes, 0, |trie.nodes|, 0, |trie.edges|)
    && (forall p :: 0 <= p < |paths| ==> NodeRefines(trie, vocab, paths, p))
  }

  ghost predicate NodeRefines(trie: Trie, vocab: seq<Entry>, paths: seq<seq<byte>>, p: nat)
    requires p < |paths| == |trie.nodes|
  {
    var n := trie.nodes[p];
    && n.terminal == Lookup(vocab, paths[p])
    && (p != 0 ==> Begins(vocab, paths[p]))
    && n.start + n.count <= |trie.edges|
    && GoodSlice(vocab, trie.edges[n.start..n.start + n.count], paths[p], paths)
  }

  lemma SortedMembers(cs: seq<Child>, c: Child)
    ensures c in cs <==> c in Sorted(cs)
  {
    SortedCorrect(cs);
    assert c in cs <==> c in multiset(cs);
    assert c in Sorted(cs) <==> c in multiset(Sorted(cs));
  }

  /** Children with distinct bytes are strictly ascending once sorted. */
  lemma {:induction false} SortedStrict(cs: seq<Child>, k: nat, l: nat)
    requires forall k, l :: 0 <= k < l < |cs| ==> cs[k].b != cs[l].b
    requires k < l < |cs|
    ensures Sorted(cs)[k].b < Sorted(cs)[l].b
  {
    hide Sorted;
    SortedCorrect(cs);
    var s := Sorted(cs);
    if s[k].b == s[l].b {
      SortedMembers(cs, s[k]);
      SortedMembers(cs, s[l]);
      SameByte(cs, s[k], s[l]);
      StillDistinct(cs, s, k, l);
      assert false;
    }
  }

  lemma SameByte(cs: seq<Child>, x: Child, y: Child)
    requires forall k, l :: 0 <= k < l < |cs| ==> cs[k].b != cs[l].b
    requires x in cs && y in cs && x.b == y.b
    ensures x == y
  {
  }

  /** A complete packing of the build tree refines the vocabulary the tree was built from. */
  lemma {:induction false} PackedRefines(vocab: seq<Entry>, t: seq<BuildNode>, tp: seq<seq<byte>>,
                                         trie: Trie, src: seq<nat>, paths: seq<seq<byte>>)
    requires Built(vocab, t, tp)
    requires |src| == |trie.nodes| > 0 && src[0] == 0
    requires Region(t, src, trie.nodes, trie.edges, 0, |src|, 0, |trie.edges|)
    requires Tiled(trie.nodes, 0, |src|, 0, |trie.edges|)
    requires |paths| == |src|
    requires forall p :: 0 <= p < |src| ==> src[p] < |t| == |tp| && paths[p] == tp[src[p]]
    requires forall p :: 0 < p < |src| ==> src[p] > 0
    ensures Refines(trie, vocab, paths)
  {
    hide Tiled, Region, Built, NodeRefines;
    BuiltAt(vocab, t, tp, 0);
    forall p | 0 <= p < |src|
      ensures NodeRefines(trie, vocab, paths, p)
    {
      PackedNodeRefines(vocab, t, tp, trie, src, paths, p);
    }
  }

  lemma {:induction false} PackedNodeRefines(vocab: seq<Entry>, t: seq<BuildNode>, tp: seq<seq<byte>>,
                                             trie: Trie, src: seq<nat>, paths: seq<seq<byte>>, p: nat)
    requires Built(vocab, t, tp) && |t| == |tp|
    requires p < |src| == |trie.nodes| == |paths|
    requires Region(t, src, trie.nodes, trie.edges, 0, |src|, 0, |trie.edges|)
    requires forall q :: 0 <= q < |src| ==> src[q] < |t| && paths[q] == tp[src[q]]
    requires p != 0 ==> src[p] > 0
    ensures NodeRefines(trie, vocab, paths, p)
  {
    hide Slice, Covers, Appends, GoodSlice, GoodChildren, Sorted, Begins, Complete, Terminals, Distinct,
      Rooted, Lookup;
    var n, j := trie.nodes[p], src[p];
    assert PackedAs(t, src, n, j, trie.edges, 0, |trie.edges|);
    assert GoodChildren(j, t[j].children, |t|);
    assert Appends(t[j].children, tp[j], tp) && Covers(t[j].children, tp[j], tp);
    SliceRefines(vocab, t[j].children, j, |t|, tp, trie.edges[n.start..n.start + n.count], src, paths);
    BuiltAt(vocab, t, tp, j);
  }

  lemma {:induction false} BuiltAt(vocab: seq<Entry>, t: seq<BuildNode>, tp: seq<seq<byte>>, j: nat)
    requires Built(vocab, t, tp) && j < |t|
    ensures j < |tp| && t[j].terminal == Lookup(vocab, tp[j]) && (j > 0 ==> Begins(vocab, tp[j]))
    ensures tp[0] == []
  {
    hide Covers, Appends, GoodChildren, Begins, Distinct, Lookup, WellFormed;
    assert tp[j] in tp;
  }

  lemma {:induction false} SliceRefines(vocab: seq<Entry>, cs: seq<Child>, j: nat, n: nat,
                                        tp: seq<seq<byte>>, es: seq<PackedEdge>, src: seq<nat>,
                                        paths: seq<seq<byte>>)
    requires GoodChildren(j, cs, n) && j < n == |tp| && Slice(es, Sorted(cs), src)
    requires Appends(cs, tp[j], tp) && Covers(cs, tp[j], tp)
    requires Complete(vocab, tp)
    requires |paths| == |src|
    requires forall p :: 0 <= p < |src| ==> src[p] < |tp| && paths[p] == tp[src[p]]
    ensures GoodSlice(vocab, es, tp[j], paths)
  {
    hide Sorted, Begins;
    var s := Sorted(cs);
    forall k, l | 0 <= k < l < |es|
      ensures es[k].b < es[l].b
    {
      SortedStrict(cs, k, l);
    }
    forall k | 0 <= k < |es|
      ensures es[k].node < |paths| && paths[es[k].node] == tp[j] + [es[k].b]
    {
      SortedMembers(cs, s[k]);
    }
    forall b: byte | Begins(vocab, tp[j] + [b])
      ensures exists k :: 0 <= k < |es| && es[k].b == b
    {
      var i :| 0 <= i < |tp| && tp[i] == tp[j] + [b];
      Extend(tp[j], b);
      assert Child(Last(tp[i]), i) in cs;
      SortedMembers(cs, Child(b, i));
      var k :| 0 <= k < |s| && s[k] == Child(b, i);
      assert es[k].b == b;
    }
  }

  /** The whole construction: insert every entry, count, pack. Every node and edge counted is
      used, and the edges are one fewer than the nodes. */
  method BuildTrie(vocab: seq<Entry>) returns (trie: Trie, ghost paths: seq<seq<byte>>)
    ensures Refines(trie, vocab, paths)
    ensures |trie.edges| == |trie.nodes| - 1
  {
    var builder := new Builder();
    for i := 0 to |vocab|
      invariant builder.Valid() && builder.vocab == vocab[..i]
    {
      builder.Insert(vocab[i]);
      assert vocab[..i] + [vocab[i]] == vocab[..i + 1];
    }
    assert vocab[..|vocab|] == vocab;
    var t := builder.nodes;
    trie, paths := PackTree(vocab, t, builder.paths);
  }

  method PackTree(ghost vocab: seq<Entry>, t: seq<BuildNode>, ghost tp: seq<seq<byte>>)
    returns (trie: Trie, ghost paths: seq<seq<byte>>)
    requires Built(vocab, t, tp)
    ensures Refines(trie, vocab, paths)
    ensures |trie.edges| == |trie.nodes| - 1
  {
    BuiltShape(vocab, t, tp);
    hide *;
    ghost var es, src;
    trie, es, src := PackAll(t);
    paths := PackedPaths(vocab, t, tp, trie, es, src);
  }

  /** Counts, allocates and packs; `es` is the edge array, which has room for one edge even if
      there is none. */
  method PackAll(t: seq<BuildNode>)
    returns (trie: Trie, ghost es: seq<PackedEdge>, ghost src: seq<nat>)
    requires WellFormed(t) && t != []
    ensures |trie.edges| == |trie.nodes| - 1
    ensures |src| == |trie.nodes| && src[0] == 0 && After(src, 0, |src|, 0)
    ensures |trie.edges| <= |es| && trie.edges == es[..|trie.edges|]
    ensures Region(t, src, trie.nodes, es, 0, |src|, 0, |trie.edges|)
    ensures Tiled(trie.nodes, 0, |src|, 0, |trie.edges|)
  {
    hide *;
    var n, e := Count(t, 0);
    var ns := new PackedNode[n](_ => PackedNode(NO_TOKEN, 0, 0));
    var edges := new PackedEdge[if e > 0 then e else 1](_ => PackedEdge(0, 0));
    var n', e';
    n', e', src := Pack(t, 0, ns, edges, 0, 0, []);
    trie, es := Trie(ns[..n], edges[..e]), edges[..];
    assert ns[..] == trie.nodes;
  }

  lemma {:induction false} PackedPaths(vocab: seq<Entry>, t: seq<BuildNode>, tp: seq<seq<byte>>,
                                       trie: Trie, es: seq<PackedEdge>, src: seq<nat>)
    returns (paths: seq<seq<byte>>)
    requires Built(vocab, t, tp)
    requires |src| == |trie.nodes| > 0 && src[0] == 0 && After(src, 0, |src|, 0)
    requires |trie.edges| <= |es| && trie.edges == es[..|trie.edges|]
    requires Region(t, src, trie.nodes, es, 0, |src|, 0, |trie.edges|)
    requires Tiled(trie.nodes, 0, |src|, 0, |trie.edges|)
    ensures Refines(trie, vocab, paths)
  {
    BuiltShape(vocab, t, tp);
    hide Built, Region, Tiled, Refines;
    var n, e := |src|, |trie.edges|;
    assert es[0..e] == trie.edges[0..e];
    RegionFrame(t, src, trie.nodes, es, src, trie.nodes, trie.edges, 0, n, 0, e, 0, e);
    paths := SourcePaths(t, src, trie, tp);
    PackedRefines(vocab, t, tp, trie, src, paths);
  }

  ghost function SourcePaths(t: seq<BuildNode>, src: seq<nat>, trie: Trie, tp: seq<seq<byte>>)
    : (paths: seq<seq<byte>>)
    requires |t| == |tp| && |src| <= |trie.nodes|
    requires Region(t, src, trie.nodes, trie.edges, 0, |src|, 0, |trie.edges|)
    ensures |paths| == |src|
    ensures forall p :: 0 <= p < |src| ==> src[p] < |t| && paths[p] == tp[src[p]]
  {
    assert forall p :: 0 <= p < |src| ==>
             PackedAs(t, src, trie.nodes[p], src[p], trie.edges, 0, |trie.edges|);
    seq(|src|, p requires 0 <= p < |src| => tp[src[p]])
  }

  // ---- Walking --------------------------------------------------------------------------

  ghost predicate Edge(trie: Trie, p: nat, b: byte, q: nat) {
    && p < |trie.nodes|
    && var n := trie.nodes[p];
       n.start + n.count <= |trie.edges| && PackedEdge(b, q) in trie.edges[n.start..n.start + n.count]
  }

  /** The edges spelling `w` lead from the root to node `q`. */
  ghost predicate Leads(trie: Trie, w: seq<byte>, q: nat) {
    if w == [] then q == 0
    else exists p: nat :: Leads(trie, Init(w), p) && Edge(trie, p, Last(w), q)
  }

  /** Walking the packed trie is looking up the vocabulary: a byte string leads to a node exactly
      when it begins some text, and the node's terminal is that of the last entry with exactly
      that text. */
  lemma {:induction false} WalkIsLookup(trie: Trie, vocab: seq<Entry>, paths: seq<seq<byte>>,
                                        w: seq<byte>)
    requires Refines(trie, vocab, paths)
    ensures (exists q: nat :: Leads(trie, w, q)) <==> w == [] || Begins(vocab, w)
    ensures forall q: nat :: Leads(trie, w, q) ==>
              q < |paths| && paths[q] == w && trie.nodes[q].terminal == Lookup(vocab, w)
  {
    hide Begins, Lookup, Tiled;
    if w == [] {
      assert Leads(trie, w, 0);
      assert NodeRefines(trie, vocab, paths, 0);
    } else {
      WalkIsLookup(trie, vocab, paths, Init(w));
      assert w == Init(w) + [Last(w)];
      forall q: nat | Leads(trie, w, q)
        ensures q < |paths| && paths[q] == w && trie.nodes[q].terminal == Lookup(vocab, w)
        ensures Begins(vocab, w)
      {
        var p :| Leads(trie, Init(w), p) && Edge(trie, p, Last(w), q);
        assert NodeRefines(trie, vocab, paths, p);
        EdgeExtends(trie, vocab, paths, p, Last(w), q);
        assert NodeRefines(trie, vocab, paths, q);
        RootPath(paths, q);
      }
      if Begins(vocab, w) {
        BeginsInit(vocab, w);
        var p :| Leads(trie, Init(w), p);
        assert NodeRefines(trie, vocab, paths, p);
        var q := EdgeExists(trie, vocab, paths, p, Last(w));
        assert Leads(trie, w, q);
      }
    }
  }

  lemma RootPath(paths: seq<seq<byte>>, q: nat)
    requires 0 < |paths| && paths[0] == [] && q < |paths| && paths[q] != []
    ensures q != 0
  {
  }

  lemma BeginsInit(vocab: seq<Entry>, w: seq<byte>)
    requires w != [] && Begins(vocab, w)
    ensures Begins(vocab, Init(w))
  {
    var i :| 0 <= i < |vocab| && w <= vocab[i].text;
    assert Init(w) <= vocab[i].text;
  }

  lemma EdgeExtends(trie: Trie, vocab: seq<Entry>, paths: seq<seq<byte>>, p: nat, b: byte, q: nat)
    requires p < |paths| == |trie.nodes| && NodeRefines(trie, vocab, paths, p)
    requires Edge(trie, p, b, q)
    ensures q < |paths| && paths[q] == paths[p] + [b]
  {
    var n := trie.nodes[p];
    var es := trie.edges[n.start..n.start + n.count];
    var k :| 0 <= k < |es| && es[k] == PackedEdge(b, q);
    assert paths[es[k].node] == paths[p] + [es[k].b];
  }

  lemma EdgeExists(trie: Trie, vocab: seq<Entry>, paths: seq<seq<byte>>, p: nat, b: byte)
    returns (q: nat)
    requires p < |paths| == |trie.nodes| && NodeRefines(trie, vocab, paths, p)
    requires Begins(vocab, paths[p] + [b])
    ensures Edge(trie, p, b, q)
  {
    var n := trie.nodes[p];
    var es := trie.edges[n.start..n.start + n.count];
    var k :| 0 <= k < |es| && es[k].b == b;
    assert es[k] == PackedEdge(b, es[k].node);
    q := es[k].node;
  }

  lemma {:induction false} EdgeBegins(trie: Trie, vocab: seq<Entry>, paths: seq<seq<byte>>, p: nat,
                                      b: byte, q: nat)
    requires Refines(trie, vocab, paths) && Edge(trie, p, b, q)
    ensures q < |paths| && paths[q] == paths[p] + [b] && Begins(vocab, paths[p] + [b])
  {
    hide Begins, Lookup, Tiled, GoodSlice;
    assert NodeRefines(trie, vocab, paths, p);
    EdgeExtends(trie, vocab, paths, p, b, q);
    assert NodeRefines(trie, vocab, paths, q);
    RootPath(paths, q);
  }

  lemma {:induction false} SliceOrder(trie: Trie, vocab: seq<Entry>, paths: seq<seq<byte>>, p: nat)
    requires Refines(trie, vocab, paths) && p < |trie.nodes|
    ensures |paths| == |trie.nodes|
    ensures var n := trie.nodes[p];
            && n.start + n.count <= |trie.edges|
            && forall k, l :: n.start <= k < l < n.start + n.count ==> trie.edges[k].b < trie.edges[l].b
  {
    hide Begins, Lookup, Tiled;
    assert NodeRefines(trie, vocab, paths, p);
    var n := trie.nodes[p];
    var slice := trie.edges[n.start..n.start + n.count];
    assert GoodSlice(vocab, slice, paths[p], paths);
    forall k, l | n.start <= k < l < n.start + n.count
      ensures trie.edges[k].b < trie.edges[l].b
    {
      assert slice[k - n.start].b < slice[l - n.start].b;
    }
  }

  lemma SliceEdge(trie: Trie, p: nat, k: nat)
    requires p < |trie.nodes|
    requires trie.nodes[p].start <= k < trie.nodes[p].start + trie.nodes[p].count <= |trie.edges|
    ensures Edge(trie, p, trie.edges[k].b, trie.edges[k].node)
  {
    var n := trie.nodes[p];
    assert trie.edges[n.start..n.start + n.count][k - n.start] == trie.edges[k];
  }

  lemma {:induction false} NoEdge(trie: Trie, vocab: seq<Entry>, paths: seq<seq<byte>>, p: nat, b: byte)
    requires Refines(trie, vocab, paths) && p < |trie.nodes|
    requires var n := trie.nodes[p];
             && n.start + n.count <= |trie.edges|
             && forall k :: n.start <= k < n.start + n.count ==> trie.edges[k].b != b
    ensures !Begins(vocab, paths[p] + [b])
  {
    hide Begins, Lookup, Tiled;
    assert NodeRefines(trie, vocab, paths, p);
    var n := trie.nodes[p];
    var slice := trie.edges[n.start..n.start + n.count];
    assert forall k :: 0 <= k < |slice| ==> slice[k] == trie.edges[n.start + k];
  }

  /** The binary search in a node's slice: it finds the child whose path is one byte longer, and
      fails exactly when no text continues the path with that byte. */
  method FindChild(trie: Trie, ghost vocab: seq<Entry>, ghost paths: seq<seq<byte>>, parent: nat,
                   b: byte)
    returns (child: Option<nat>)
    requires Refines(trie, vocab, paths) && parent < |trie.nodes|
    ensures child.None? <==> !Begins(vocab, paths[parent] + [b])
    ensures child.Some? ==> child.value < |paths| && paths[child.value] == paths[parent] + [b]
    ensures child.Some? ==> Edge(trie, parent, b, child.value)
  {
    hide *;
    var p := trie.nodes[parent];
    SliceOrder(trie, vocab, paths, parent);
    var lo, hi := p.start, p.start + p.count;
    while lo < hi
      invariant p.start <= lo <= hi <= p.start + p.count
      invariant forall k :: p.start <= k < lo ==> trie.edges[k].b < b
      invariant forall k :: hi <= k < p.start + p.count ==> trie.edges[k].b > b
    {
      var mid := lo + (hi - lo) / 2;
      var mb := trie.edges[mid].b;
      if mb < b {
        lo := mid + 1;
      } else if mb > b {
        hi := mid;
      } else {
        SliceEdge(trie, parent, mid);
        EdgeBegins(trie, vocab, paths, parent, b, trie.edges[mid].node);
        return Some(trie.edges[mid].node);
      }
    }
    NoEdge(trie, vocab, paths, parent, b);
    return None;
  }
}
