/** What the chaining-value stack holds, and how finalization folds it into the root. */
module Blake3Forest {
  import opened Base
  import opened Bits
  import opened Blake3Spec
  import opened Blake3Tree
  import opened Blake3Stack

  /** `cv` is the chaining value of the `size` chunks of `msg` from chunk `start` on. */
  ghost predicate IsSubtree(m: Mode, msg: seq<byte>, cv: Cv, start: nat, size: nat) {
    && 1024 * (start + size) <= |msg|
    && cv == TreeCv(m, msg[1024 * start..1024 * (start + size)], start)
  }

  /** The stack holds the subtrees of the given sizes, side by side from the start of `msg`. */
  ghost predicate Holds(m: Mode, msg: seq<byte>, stack: seq<Cv>, sizes: seq<nat>) {
    && |stack| == |sizes|
    && (sizes != [] ==>
          var n := |sizes| - 1;
          && Holds(m, msg, stack[..n], sizes[..n])
          && IsSubtree(m, msg, stack[n], Sum(sizes[..n]), sizes[n]))
  }

  lemma SumNone()
    ensures Sum([]) == 0
  {
  }

  /** More input does not disturb the subtrees already on the stack. */
  lemma {:induction false} HoldsExtend(m: Mode, msg: seq<byte>, more: seq<byte>, stack: seq<Cv>, sizes: seq<nat>)
    requires Holds(m, msg, stack, sizes)
    ensures Holds(m, msg + more, stack, sizes)
    decreases |sizes|
  {
    hide Sum, TreeCv;
    if sizes != [] {
      var n := |sizes| - 1;
      HoldsExtend(m, msg, more, stack[..n], sizes[..n]);
      var a, b := 1024 * Sum(sizes[..n]), 1024 * (Sum(sizes[..n]) + sizes[n]);
      assert (msg + more)[a..b] == msg[a..b];
    }
  }

  lemma {:induction false} HoldsPush(m: Mode, msg: seq<byte>, stack: seq<Cv>, sizes: seq<nat>, cv: Cv, k: nat)
    requires Holds(m, msg, stack, sizes) && IsSubtree(m, msg, cv, Sum(sizes), k)
    ensures Holds(m, msg, stack + [cv], sizes + [k])
  {
    hide Sum, TreeCv, IsSubtree;
    assert (stack + [cv])[..|stack|] == stack && (sizes + [k])[..|sizes|] == sizes;
  }

  lemma HoldsPop(m: Mode, msg: seq<byte>, stack: seq<Cv>, sizes: seq<nat>)
    requires Holds(m, msg, stack, sizes) && sizes != []
    ensures |stack| == |sizes| && Holds(m, msg, stack[..|sizes| - 1], sizes[..|sizes| - 1])
    ensures IsSubtree(m, msg, stack[|sizes| - 1], Sum(sizes[..|sizes| - 1]), sizes[|sizes| - 1])
  {
  }

  /** Two neighbouring full subtrees of one size join into the next larger full subtree. */
  lemma {:induction false} JoinSubtrees(m: Mode, msg: seq<byte>, left: Cv, right: Cv, start: nat, k: nat)
    requires IsPow2(k) && k >= 1
    requires IsSubtree(m, msg, left, start, k) && IsSubtree(m, msg, right, start + k, k)
    ensures IsSubtree(m, msg, Join(m, left, right), start, 2 * k)
  {
    hide TreeCv, Join, IsPow2, LeftChunks;
    var data := msg[1024 * start..1024 * (start + 2 * k)];
    LeftChunksUnique(|data|, k);
    TreeStep(m, data, start);
    assert data[..1024 * k] == msg[1024 * start..1024 * (start + k)];
    assert data[1024 * k..] == msg[1024 * (start + k)..1024 * (start + k + k)];
  }

  lemma {:induction false} HoldsMerge(m: Mode, msg: seq<byte>, stack: seq<Cv>, sizes: seq<nat>)
    requires Holds(m, msg, stack, sizes) && |stack| == |sizes| >= 2
    requires sizes[|sizes| - 2] == sizes[|sizes| - 1] && IsPow2(sizes[|sizes| - 1])
    ensures Holds(m, msg, stack[..|stack| - 2] + [Join(m, stack[|stack| - 2], stack[|stack| - 1])], MergeLast(sizes))
  {
    hide TreeCv, Join, IsPow2, IsSubtree, Sum, Holds;
    var n := |sizes|;
    var k := sizes[n - 1];
    PositivePow2(k);
    HoldsPop(m, msg, stack, sizes);
    HoldsPop(m, msg, stack[..n - 1], sizes[..n - 1]);
    var front := sizes[..n - 2];
    assert sizes[..n - 1] == front + [k];
    assert sizes[..n - 1][..n - 2] == front && stack[..n - 1][..n - 2] == stack[..n - 2];
    assert sizes[..n - 1][n - 2] == k && stack[..n - 1][n - 2] == stack[n - 2];
    SumConcat(front, [k]);
    SumOne(k);
    JoinSubtrees(m, msg, stack[n - 2], stack[n - 1], Sum(front), k);
    HoldsPush(m, msg, stack[..n - 2], front, Join(m, stack[n - 2], stack[n - 1]), 2 * k);
  }

  /** Fold the stack from the top down into one node. */
  function RollUp(m: Mode, stack: seq<Cv>, node: Node): Node
    decreases |stack|
  {
    if stack == [] then node
    else RollUp(m, stack[..|stack| - 1], ParentNode(m, stack[|stack| - 1], NodeCv(m.core, node)))
  }

  /** Each subtree is at least as large as everything to its right, and something is to its right. */
  ghost predicate Covers(sizes: seq<nat>, tail: nat)
    decreases |sizes|
  {
    tail > 0 && (sizes != [] ==>
      var last := sizes[|sizes| - 1];
      IsPow2(last) && 1024 * last >= tail && Covers(sizes[..|sizes| - 1], tail + 1024 * last))
  }

  lemma {:induction false} StrictCovers(sizes: seq<nat>, tail: nat)
    requires Strict(sizes) && tail > 0
    requires sizes != [] ==> tail <= 1024 * sizes[|sizes| - 1]
    ensures Covers(sizes, tail)
    decreases |sizes|
  {
    hide IsPow2;
    if sizes != [] {
      var n := |sizes| - 1;
      if n > 0 {
        Pow2Gap(sizes[n], sizes[n - 1]);
      }
      StrictCovers(sizes[..n], tail + 1024 * sizes[n]);
    }
  }

  /** Rolling up the stack over the node of the remaining input gives the node of the whole input. */
  lemma {:induction false} RollUpIsTree(m: Mode, msg: seq<byte>, stack: seq<Cv>, sizes: seq<nat>)
    requires Holds(m, msg, stack, sizes)
    requires 1024 * Sum(sizes) < |msg| && Covers(sizes, |msg| - 1024 * Sum(sizes))
    ensures RollUp(m, stack, TreeNode(m, msg[1024 * Sum(sizes)..], Sum(sizes))) == TreeNode(m, msg, 0)
    decreases |sizes|
  {
    hide TreeNode, ParentNode, NodeCv, Sum, IsPow2, LeftChunks, RollUp;
    if sizes == [] {
      SumNone();
      assert msg[0..] == msg;
      RollUpNone(m, TreeNode(m, msg, 0));
    } else {
      var n := |sizes| - 1;
      var front, last := sizes[..n], sizes[n];
      assert sizes == front + [last];
      SumConcat(front, [last]);
      SumOne(last);
      RollUpIsTree(m, msg, stack[..n], front);
      TreeSplit(m, msg[1024 * Sum(front)..], Sum(front), last);
      assert msg[1024 * Sum(front)..][..1024 * last] == msg[1024 * Sum(front)..1024 * (Sum(front) + last)];
      assert msg[1024 * Sum(front)..][1024 * last..] == msg[1024 * Sum(sizes)..];
      RollUpStep(m, stack, TreeNode(m, msg[1024 * Sum(sizes)..], Sum(sizes)));
    }
  }

  lemma RollUpNone(m: Mode, node: Node)
    ensures RollUp(m, [], node) == node
  {
  }

  lemma RollUpStep(m: Mode, stack: seq<Cv>, node: Node)
    requires stack != []
    ensures RollUp(m, stack, node) ==
            RollUp(m, stack[..|stack| - 1], ParentNode(m, stack[|stack| - 1], NodeCv(m.core, node)))
  {
  }

  lemma {:induction false} TreeSplit(m: Mode, data: seq<byte>, counter: nat, l: nat)
    requires IsPow2(l) && 1024 * l < |data| <= 2048 * l
    ensures TreeNode(m, data, counter) ==
            ParentNode(m, TreeCv(m, data[..1024 * l], counter),
                       NodeCv(m.core, TreeNode(m, data[1024 * l..], counter + l)))
  {
    hide ParentNode, NodeCv, IsPow2, LeftChunks;
    PositivePow2(l);
    LeftChunksUnique(|data|, l);
  }
}
