/** The trie over the vocabulary: built as a tree of nodes with growing child lists, then
    packed depth first into a node array and an edge array. Build nodes live in an arena,
    and a pointer to a node is its position there. */
module TokenizerTrie {
  import opened Base
  import opened TokenizerVocab

  datatype Child = Child(b: byte, node: nat)

  datatype BuildNode = BuildNode(terminal: Terminal, children: seq<Child>)

  /** Children point to later nodes and carry distinct bytes. */
  ghost predicate WellFormed(t: seq<BuildNode>) {
    forall j :: 0 <= j < |t| ==> GoodChildren(j, t[j].children, |t|)
  }

  ghost predicate GoodChildren(j: nat, cs: seq<Child>, n: nat) {
    && (forall k :: 0 <= k < |cs| ==> j < cs[k].node < n)
    && (forall k, l :: 0 <= k < l < |cs| ==> cs[k].b != cs[l].b)
  }

  /** `paths[j]` is the byte string that leads from the root to node `j`: distinct nodes have
      distinct paths, an edge appends its byte, and every one-byte extension that is a path is
      an edge. */
  ghost predicate Spells(t: seq<BuildNode>, paths: seq<seq<byte>>) {
    && |paths| == |t| > 0
    && Rooted(paths)
    && Distinct(paths)
    && (forall j :: 0 <= j < |t| ==> Appends(t[j].children, paths[j], paths))
    && (forall j :: 0 <= j < |t| ==> Covers(t[j].children, paths[j], paths))
  }

  ghost predicate Distinct(paths: seq<seq<byte>>) {
    forall i, j :: 0 <= i < j < |paths| ==> paths[i] != paths[j]
  }

  ghost predicate Rooted(paths: seq<seq<byte>>) {
    && |paths| > 0 && paths[0] == []
    && forall i :: 0 < i < |paths| ==> paths[i] != [] && Init(paths[i]) in paths
  }

  ghost predicate Appends(cs: seq<Child>, w: seq<byte>, paths: seq<seq<byte>>) {
    forall k :: 0 <= k < |cs| ==> cs[k].node < |paths| && paths[cs[k].node] == w + [cs[k].b]
  }

  ghost predicate Covers(cs: seq<Child>, w: seq<byte>, paths: seq<seq<byte>>) {
    forall i :: 0 <= i < |paths| && paths[i] != [] && Init(paths[i]) == w ==>
      Child(Last(paths[i]), i) in cs
  }

  function Init(w: seq<byte>): seq<byte>
    requires w != []
  {
    w[..|w| - 1]
  }

  function Last(w: seq<byte>): byte
    requires w != []
  {
    w[|w| - 1]
  }

  lemma Extend(w: seq<byte>, b: byte)
    ensures Init(w + [b]) == w && Last(w + [b]) == b
  {
  }

  /** The paths are the beginnings of the vocabulary's texts. */
  ghost predicate Complete(vocab: seq<Entry>, paths: seq<seq<byte>>) {
    forall w: seq<byte> :: w in paths <==> w == [] || Begins(vocab, w)
  }

  /** Every node carries the terminal of its path. */
  ghost predicate Terminals(vocab: seq<Entry>, t: seq<BuildNode>, paths: seq<seq<byte>>)
    requires |paths| == |t|
  {
    forall j :: 0 <= j < |t| ==> t[j].terminal == Lookup(vocab, paths[j])
  }

  ghost predicate Shape(t: seq<BuildNode>, paths: seq<seq<byte>>) {
    WellFormed(t) && Spells(t, paths)
  }

  /** The tree of a vocabulary. */
  ghost predicate Built(vocab: seq<Entry>, t: seq<BuildNode>, paths: seq<seq<byte>>) {
    Shape(t, paths) && Complete(vocab, paths) && Terminals(vocab, t, paths)
  }

  /** The paths `before`, and every beginning of `text`. */
  ghost predicate Reaches(before: seq<seq<byte>>, paths: seq<seq<byte>>, text: seq<byte>) {
    forall w :: w in paths <==> w in before || w <= text
  }

  ghost predicate Adds(before: seq<seq<byte>>, paths: seq<seq<byte>>, path: seq<byte>) {
    forall w :: w in paths <==> w in before || w == path
  }

  /** New nodes are blank and spell new paths; old ones keep their terminals. */
  ghost predicate Keeps(t: seq<BuildNode>, before: seq<seq<byte>>, t': seq<BuildNode>,
                        paths: seq<seq<byte>>)
  {
    && |t| == |before| <= |t'| == |paths| && before <= paths
    && (forall j :: 0 <= j < |t| ==> t'[j].terminal == t[j].terminal)
    && (forall j :: |t| <= j < |t'| ==> t'[j].terminal == NO_TOKEN && paths[j] !in before)
  }

  /** Linear search among the children; the children's bytes are distinct. */
  method FindBuildChild(children: seq<Child>, b: byte) returns (r: Option<nat>)
    ensures r.Some? ==> Child(b, r.value) in children
    ensures r.None? ==> forall k :: 0 <= k < |children| ==> children[k].b != b
  {
    for i := 0 to |children|
      invariant forall k :: 0 <= k < i ==> children[k].b != b
    {
      if children[i].b == b {
        return Some(children[i].node);
      }
    }
    return None;
  }

  /** The tree being built, with the path of every node. */
  class Builder {
    var nodes: seq<BuildNode>
    ghost var paths: seq<seq<byte>>
    ghost var vocab: seq<Entry>

    ghost predicate Valid()
      reads this
    {
      Built(vocab, nodes, paths)
    }

    constructor ()
      ensures Valid() && vocab == []
    {
      nodes := [BuildNode(NO_TOKEN, [])];
      paths := [[]];
      vocab := [];
    }

    /** One step down from `cur`, growing the tree when the edge is missing. */
    method Descend(cur: nat, b: byte) returns (next: nat)
      requires Shape(nodes, paths) && cur < |nodes|
      modifies this`nodes, this`paths
      ensures Shape(nodes, paths) && next < |nodes|
      ensures paths[next] == old(paths)[cur] + [b]
      ensures Keeps(old(nodes), old(paths), nodes, paths)
      ensures Adds(old(paths), paths, paths[next])
    {
      hide *;
      ShapeLength(nodes, paths);
      var found := FindBuildChild(nodes[cur].children, b);
      if found.Some? {
        next := found.value;
        FoundChild(nodes, paths, cur, b, next);
      } else {
        next := |nodes|;
        GrowShape(nodes, paths, cur, b);
        paths := paths + [paths[cur] + [b]];
        nodes := nodes[cur := nodes[cur].(children := nodes[cur].children + [Child(b, next)])]
          + [BuildNode(NO_TOKEN, [])];
      }
    }

    /** The node of a text, with every node on the way to it. */
    method Follow(text: seq<byte>) returns (cur: nat)
      requires Valid()
      modifies this`nodes, this`paths
      ensures Shape(nodes, paths) && cur < |nodes| == |paths| && paths[cur] == text
      ensures Reaches(old(paths), paths, text)
      ensures Keeps(old(nodes), old(paths), nodes, paths)
    {
      BuiltShape(vocab, nodes, paths);
      hide *;
      cur := 0;
      var i := 0;
      while i < |text|
        invariant 0 <= i <= |text| && 0 <= cur < |nodes| == |paths|
        invariant Shape(nodes, paths) && paths[cur] == text[..i]
        invariant Reaches(old(paths), paths, text[..i])
        invariant Keeps(old(nodes), old(paths), nodes, paths)
      {
        ghost var t, before := nodes, paths;
        cur := Descend(cur, text[i]);
        FollowStep(old(nodes), old(paths), t, before, nodes, paths, text, i, cur);
        i := i + 1;
      }
      TakeAll(text);
    }

    /** Inserting an entry: afterwards the tree is the tree of the longer vocabulary. */
    method Insert(entry: Entry)
      requires Valid()
      modifies this
      ensures Valid() && vocab == old(vocab) + [entry]
    {
      hide WellFormed, Spells, Complete, AsInt32, Terminals, Shape, Reaches, Keeps;
      var cur := Follow(entry.text);
      InsertDone(old(vocab), old(nodes), old(paths), nodes, paths, cur, entry);
      nodes := nodes[cur := nodes[cur].(terminal := Terminal(AsInt32(entry.id), entry.score))];
      vocab := vocab + [entry];
    }
  }

  lemma TakeAll(text: seq<byte>)
    ensures text[..|text|] == text
  {
  }

  lemma {:induction false} FollowStep(t0: seq<BuildNode>, p0: seq<seq<byte>>, t1: seq<BuildNode>,
                   p1: seq<seq<byte>>, t2: seq<BuildNode>, p2: seq<seq<byte>>, text: seq<byte>,
                   i: nat, cur: nat)
    requires i < |text| && Shape(t2, p2) && cur < |t2|
    requires Reaches(p0, p1, text[..i]) && Adds(p1, p2, p2[cur])
    requires p2[cur] == text[..i] + [text[i]]
    requires Keeps(t0, p0, t1, p1) && Keeps(t1, p1, t2, p2)
    ensures |t2| == |p2| && p2[cur] == text[..i + 1]
    ensures Reaches(p0, p2, text[..i + 1]) && Keeps(t0, p0, t2, p2)
  {
    hide *;
    ShapeLength(t2, p2);
    assert text[..i] + [text[i]] == text[..i + 1];
    ReachesStep(p0, p1, p2, text, i);
    KeepsTrans(t0, p0, t1, p1, t2, p2);
  }

  lemma ShapeLength(t: seq<BuildNode>, paths: seq<seq<byte>>)
    requires Shape(t, paths)
    ensures |t| == |paths| > 0 && paths[0] == []
  {
  }

  lemma {:induction false} BuiltShape(vocab: seq<Entry>, t: seq<BuildNode>, paths: seq<seq<byte>>)
    requires Built(vocab, t, paths)
    ensures Shape(t, paths) && |t| == |paths| > 0 && paths[0] == []
    ensures Reaches(paths, paths, []) && Keeps(t, paths, t, paths)
  {
    hide WellFormed, Appends, Covers, Complete, Terminals, Distinct;
    assert paths[0] in paths;
  }

  lemma KeepsTrans(t0: seq<BuildNode>, p0: seq<seq<byte>>, t1: seq<BuildNode>,
                   p1: seq<seq<byte>>, t2: seq<BuildNode>, p2: seq<seq<byte>>)
    requires Keeps(t0, p0, t1, p1) && Keeps(t1, p1, t2, p2)
    ensures Keeps(t0, p0, t2, p2)
  {
    forall j | |t0| <= j < |t2|
      ensures t2[j].terminal == NO_TOKEN && p2[j] !in p0
    {
      if j < |t1| {
        assert t1[j].terminal == NO_TOKEN && p1[j] !in p0;
      } else {
        assert forall k :: 0 <= k < |p0| ==> p0[k] == p1[k];
      }
    }
  }

  lemma ReachesStep(start: seq<seq<byte>>, before: seq<seq<byte>>, paths: seq<seq<byte>>,
                    text: seq<byte>, i: nat)
    requires i < |text| && Reaches(start, before, text[..i])
    requires Adds(before, paths, text[..i + 1])
    ensures Reaches(start, paths, text[..i + 1])
  {
    forall w: seq<byte>
      ensures w in paths <==> w in start || w <= text[..i + 1]
    {
      PrefixStep(text, i, w);
    }
  }

  lemma {:induction false} InsertDone(vocab: seq<Entry>, t: seq<BuildNode>, before: seq<seq<byte>>,
                   t': seq<BuildNode>, paths: seq<seq<byte>>, cur: nat, entry: Entry)
    requires Built(vocab, t, before) && Shape(t', paths) && Keeps(t, before, t', paths)
    requires Reaches(before, paths, entry.text)
    requires cur < |t'| && paths[cur] == entry.text
    ensures Built(vocab + [entry],
                  t'[cur := t'[cur].(terminal := Terminal(AsInt32(entry.id), entry.score))], paths)
  {
    hide WellFormed, Spells, Complete, AsInt32;
    InsertComplete(vocab, before, paths, entry);
    UnseenTerminals(vocab, before, t', paths, |t|);
    InsertTerminals(vocab, t', paths, cur, entry);
  }

  lemma PrefixStep(text: seq<byte>, i: nat, w: seq<byte>)
    requires i < |text|
    ensures w <= text[..i + 1] <==> w <= text[..i] || w == text[..i + 1]
  {
    if |w| <= i {
      assert text[..i + 1][..|w|] == text[..i][..|w|];
    }
  }

  /** A byte with no edge extends the node's path to one that is not in the tree. */
  lemma MissingPath(cs: seq<Child>, w: seq<byte>, paths: seq<seq<byte>>, b: byte)
    requires Covers(cs, w, paths)
    requires forall k :: 0 <= k < |cs| ==> cs[k].b != b
    ensures w + [b] !in paths
  {
    Extend(w, b);
    forall i | 0 <= i < |paths|
      ensures paths[i] != w + [b]
    {
      assert paths[i] != [] && Init(paths[i]) == w ==> Child(Last(paths[i]), i) in cs;
    }
  }

  ghost function Grown(t: seq<BuildNode>, cur: nat, b: byte): seq<BuildNode>
    requires cur < |t|
  {
    t[cur := t[cur].(children := t[cur].children + [Child(b, |t|)])] + [BuildNode(NO_TOKEN, [])]
  }

  lemma GrowWellFormed(t: seq<BuildNode>, cur: nat, b: byte)
    requires WellFormed(t) && cur < |t|
    requires forall k :: 0 <= k < |t[cur].children| ==> t[cur].children[k].b != b
    ensures WellFormed(Grown(t, cur, b))
  {
    var t' := Grown(t, cur, b);
    forall j | 0 <= j < |t'|
      ensures GoodChildren(j, t'[j].children, |t'|)
    {
      if j < |t| {
        assert GoodChildren(j, t[j].children, |t|);
      }
    }
  }

  lemma GrowPaths(paths: seq<seq<byte>>, cur: nat, b: byte)
    requires Rooted(paths) && Distinct(paths) && cur < |paths| && paths[cur] + [b] !in paths
    ensures Rooted(paths + [paths[cur] + [b]]) && Distinct(paths + [paths[cur] + [b]])
  {
    var paths' := paths + [paths[cur] + [b]];
    Extend(paths[cur], b);
    forall i | 0 < i < |paths'|
      ensures paths'[i] != [] && Init(paths'[i]) in paths'
    {
      if i < |paths| {
        assert Init(paths[i]) in paths;
        var k :| 0 <= k < |paths| && paths[k] == Init(paths[i]);
        assert paths'[k] == Init(paths'[i]);
      } else {
        assert paths'[cur] == Init(paths'[i]);
      }
    }
  }

  /** The new node's own path has no extension in the tree. */
  lemma GrowLeaf(paths: seq<seq<byte>>, cur: nat, b: byte)
    requires Rooted(paths) && cur < |paths| && paths[cur] + [b] !in paths
    ensures Covers([], paths[cur] + [b], paths + [paths[cur] + [b]])
  {
    var w := paths[cur] + [b];
    var paths' := paths + [w];
    forall i | 0 <= i < |paths'| && paths'[i] != []
      ensures Init(paths'[i]) != w
    {
      if i < |paths| {
        assert Init(paths[i]) in paths;
      }
    }
  }

  lemma GrowCovers(cs: seq<Child>, w: seq<byte>, paths: seq<seq<byte>>, v: seq<byte>)
    requires Covers(cs, w, paths) && v != []
    ensures Init(v) != w ==> Covers(cs, w, paths + [v])
    ensures Init(v) == w ==> Covers(cs + [Child(Last(v), |paths|)], w, paths + [v])
  {
    var paths' := paths + [v];
    var cs' := if Init(v) == w then cs + [Child(Last(v), |paths|)] else cs;
    forall i | 0 <= i < |paths'| && paths'[i] != [] && Init(paths'[i]) == w
      ensures Child(Last(paths'[i]), i) in cs'
    {
      if i < |paths| {
        assert Child(Last(paths[i]), i) in cs;
      } else {
        assert cs'[|cs|] == Child(Last(v), i);
      }
    }
  }

  lemma {:induction false} GrowSpells(t: seq<BuildNode>, paths: seq<seq<byte>>, cur: nat, b: byte)
    requires Spells(t, paths) && cur < |t| && paths[cur] + [b] !in paths
    ensures Spells(Grown(t, cur, b), paths + [paths[cur] + [b]])
  {
    hide Rooted, Distinct, Covers, Init, Last;
    var t' := Grown(t, cur, b);
    var w := paths[cur] + [b];
    var paths' := paths + [w];
    GrowPaths(paths, cur, b);
    GrowLeaf(paths, cur, b);
    Extend(paths[cur], b);
    forall j | 0 <= j < |t'|
      ensures Appends(t'[j].children, paths'[j], paths')
      ensures Covers(t'[j].children, paths'[j], paths')
    {
      if j < |t| {
        assert Appends(t[j].children, paths[j], paths);
        GrowCovers(t[j].children, paths[j], paths, w);
        DistinctAt(paths, j, cur);
      }
    }
  }

  lemma {:induction false} FoundChild(t: seq<BuildNode>, paths: seq<seq<byte>>, cur: nat, b: byte, next: nat)
    requires Shape(t, paths) && cur < |t| && Child(b, next) in t[cur].children
    ensures next < |t| && paths[next] == paths[cur] + [b]
    ensures Keeps(t, paths, t, paths) && Adds(paths, paths, paths[next])
  {
    hide Rooted, Distinct, Covers, WellFormed;
    assert Appends(t[cur].children, paths[cur], paths);
    var k :| 0 <= k < |t[cur].children| && t[cur].children[k] == Child(b, next);
    assert paths[next] in paths;
  }

  lemma {:induction false} GrowShape(t: seq<BuildNode>, paths: seq<seq<byte>>, cur: nat, b: byte)
    requires Shape(t, paths) && cur < |t| == |paths|
    requires forall k :: 0 <= k < |t[cur].children| ==> t[cur].children[k].b != b
    ensures var t' := t[cur := t[cur].(children := t[cur].children + [Child(b, |t|)])]
                      + [BuildNode(NO_TOKEN, [])];
            var w := paths[cur] + [b];
            Shape(t', paths + [w]) && Keeps(t, paths, t', paths + [w]) && Adds(paths, paths + [w], w)
  {
    hide Rooted, Distinct, Covers, Appends, WellFormed, Spells;
    assert Covers(t[cur].children, paths[cur], paths) by {
      CoversAt(t, paths, cur);
    }
    MissingPath(t[cur].children, paths[cur], paths, b);
    GrowWellFormed(t, cur, b);
    GrowSpells(t, paths, cur, b);
  }

  lemma CoversAt(t: seq<BuildNode>, paths: seq<seq<byte>>, cur: nat)
    requires Spells(t, paths) && cur < |t|
    ensures Covers(t[cur].children, paths[cur], paths)
  {
  }

  lemma DistinctAt(paths: seq<seq<byte>>, i: nat, j: nat)
    requires Distinct(paths) && i < |paths| && j < |paths|
    ensures paths[i] == paths[j] ==> i == j
  {
    assert i < j ==> paths[i] != paths[j];
  }

  /** A new node's path begins no entry inserted before, so it carries no token yet. */
  lemma UnseenTerminals(vocab: seq<Entry>, before: seq<seq<byte>>, t: seq<BuildNode>,
                        paths: seq<seq<byte>>, n: nat)
    requires Complete(vocab, before) && |t| == |paths| && n <= |t|
    requires forall j :: 0 <= j < n ==> t[j].terminal == Lookup(vocab, paths[j])
    requires forall j :: n <= j < |t| ==> t[j].terminal == NO_TOKEN && paths[j] !in before
    ensures Terminals(vocab, t, paths)
  {
    forall j | n <= j < |t|
      ensures Lookup(vocab, paths[j]) == NO_TOKEN
    {
      LookupEntry(vocab, paths[j]);
      assert forall i :: 0 <= i < |vocab| && vocab[i].text == paths[j] ==>
               paths[j] <= vocab[i].text;
    }
  }

  lemma InsertComplete(vocab: seq<Entry>, before: seq<seq<byte>>, paths: seq<seq<byte>>,
                       entry: Entry)
    requires Complete(vocab, before)
    requires forall w :: w in paths <==> w in before || w <= entry.text
    ensures Complete(vocab + [entry], paths)
  {
    var longer := vocab + [entry];
    forall w: seq<byte>
      ensures w in paths <==> w == [] || Begins(longer, w)
    {
      if Begins(vocab, w) {
        var i :| 0 <= i < |vocab| && w <= vocab[i].text;
        assert w <= longer[i].text;
      }
      if w <= entry.text {
        assert w <= longer[|vocab|].text;
      }
      if Begins(longer, w) {
        var i :| 0 <= i < |longer| && w <= longer[i].text;
        assert i < |vocab| ==> w <= vocab[i].text;
      }
    }
  }

  lemma InsertTerminals(vocab: seq<Entry>, t: seq<BuildNode>, paths: seq<seq<byte>>, cur: nat,
                        entry: Entry)
    requires Spells(t, paths) && WellFormed(t) && Terminals(vocab, t, paths)
    requires cur < |t| && paths[cur] == entry.text
    ensures var t' := t[cur := t[cur].(terminal := Terminal(AsInt32(entry.id), entry.score))];
            Spells(t', paths) && WellFormed(t') && Terminals(vocab + [entry], t', paths)
  {
    var longer := vocab + [entry];
    assert longer[..|longer| - 1] == vocab;
    var t' := t[cur := t[cur].(terminal := Terminal(AsInt32(entry.id), entry.score))];
    SameChildren(t, t', paths);
    forall j | 0 <= j < |t|
      ensures t'[j].terminal == Lookup(longer, paths[j])
    {
      DistinctAt(paths, j, cur);
    }
  }

  lemma {:induction false} SameChildren(t: seq<BuildNode>, t': seq<BuildNode>, paths: seq<seq<byte>>)
    requires Spells(t, paths) && WellFormed(t)
    requires |t'| == |t| && forall j :: 0 <= j < |t| ==> t'[j].children == t[j].children
    ensures Spells(t', paths) && WellFormed(t')
  {
    hide Rooted, Distinct, Covers, Appends, GoodChildren;
  }
}
