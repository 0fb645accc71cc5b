/**
 Walking between two blocks of the tree (chain.c:22-49, chain.c:277-291).
 */
module StepTowards {
  import opened Wrappers
  import opened BlockTree

  /** Blocks no deeper than `b` that precede `c` are those that precede `b`. */
  ghost predicate SameBelow(t: seq<Node>, b: nat, c: nat)
    requires Tree(t) && b < |t| && c < |t|
  {
    && t[b].depth <= t[c].depth
    && forall x :: 0 <= x < |t| && t[x].depth <= t[b].depth ==> (Anc(t, x, b) <==> Anc(t, x, c))
  }

  lemma StepBack(t: seq<Node>, b: nat, c: nat)
    requires Tree(t) && b < |t| && c < |t| && SameBelow(t, b, c) && b != 0
    ensures SameBelow(t, t[b].prev, c)
  {
    var p := t[b].prev;
    assert Linked(t, b);
    forall x | 0 <= x < |t| && t[x].depth <= t[p].depth
      ensures Anc(t, x, p) <==> Anc(t, x, c)
    {
      assert Anc(t, x, b) <==> Anc(t, x, p);
    }
  }

  lemma {:induction false} DepthZero(t: seq<Node>, b: nat)
    requires Tree(t) && b < |t|
    ensures t[b].depth == 0 <==> b == 0
  {
    assert Linked(t, b);
  }

  /** The block one step from the common ancestor towards `target`; None when `target`
      is `curr` or precedes it. */
  method StepTowards(t: seq<Node>, curr0: nat, target0: nat) returns (r: Option<nat>)
    requires Tree(t) && curr0 < |t| && target0 < |t|
    ensures r.None? <==> Anc(t, target0, curr0)
    ensures r.Some? ==>
              && 0 < r.value < |t|
              && Anc(t, r.value, target0) && !Anc(t, r.value, curr0)
              && Anc(t, t[r.value].prev, curr0)
  {
    var curr: nat, target: nat := curr0, target0;
    while t[curr].depth > t[target].depth
      invariant curr < |t| && SameBelow(t, curr, curr0)
      invariant target == target0
      invariant t[target].depth <= t[curr].depth || curr == curr0
      decreases t[curr].depth
    {
      DepthZero(t, curr);
      assert Linked(t, curr);
      StepBack(t, curr, curr0);
      curr := t[curr].prev;
    }

    if curr == target {
      assert Anc(t, target0, curr);
      return None;
    }
    if Anc(t, target, curr0) {
      AncOrder(t, target, curr0);
      assert Anc(t, target, curr);
      AncOrder(t, target, curr);
      assert false;
    }

    var prevTarget: nat := target;
    while t[target].depth > t[curr].depth
      invariant target < |t| && prevTarget < |t| && SameBelow(t, target, target0)
      invariant Anc(t, target, target0)
      invariant t[curr].depth <= t[target].depth
      invariant curr == curr0 || t[target].depth == t[curr].depth
      invariant target != curr ==> !Anc(t, target, curr0)
      invariant target == curr ==> 0 < prevTarget && t[prevTarget].prev == target && Anc(t, prevTarget, target0) && !Anc(t, prevTarget, curr0)
      decreases t[target].depth
    {
      DepthZero(t, target);
      assert Linked(t, target);
      prevTarget := target;
      StepBack(t, target, target0);
      target := t[target].prev;
      assert Anc(t, target, prevTarget);
      AncTransitive(t, target, prevTarget, target0);
      NotAbove(t, target, curr, curr0);
      if Anc(t, target, curr0) {
        AncOrder(t, target, curr0);
      }
    }

    while curr != target
      invariant target < |t| && prevTarget < |t| && curr < |t|
      invariant SameBelow(t, target, target0) && SameBelow(t, curr, curr0)
      invariant Anc(t, target, target0) && Anc(t, curr, curr0)
      invariant t[curr].depth == t[target].depth
      invariant target != curr ==> !Anc(t, target, curr0)
      invariant target == curr ==> 0 < prevTarget && t[prevTarget].prev == target && Anc(t, prevTarget, target0) && !Anc(t, prevTarget, curr0)
      decreases t[curr].depth
    {
      DepthZero(t, target);
      DepthZero(t, curr);
      assert Linked(t, target) && Linked(t, curr);
      prevTarget := target;
      StepBack(t, target, target0);
      target := t[target].prev;
      assert Anc(t, target, prevTarget);
      AncTransitive(t, target, prevTarget, target0);
      StepBack(t, curr, curr0);
      AncTransitive(t, t[curr].prev, curr, curr0);
      curr := t[curr].prev;
      NotAbove(t, target, curr, curr0);
    }
    return Some(prevTarget);
  }

  /** At each depth only one block precedes `curr0`. */
  lemma NotAbove(t: seq<Node>, x: nat, curr: nat, curr0: nat)
    requires Tree(t) && x < |t| && curr < |t| && curr0 < |t|
    requires SameBelow(t, curr, curr0)
    ensures x != curr && t[x].depth == t[curr].depth ==> !Anc(t, x, curr0)
  {
    if x != curr && t[x].depth == t[curr].depth && Anc(t, x, curr0) {
      assert Anc(t, x, curr);
      AncOrder(t, x, curr);
    }
  }

  lemma AncNotDeeper(t: seq<Node>, b: nat)
    requires Tree(t) && b < |t|
    ensures forall x :: 0 <= x < |t| && Anc(t, x, b) ==> t[x].depth <= t[b].depth
  {
    forall x | 0 <= x < |t| && Anc(t, x, b) ensures t[x].depth <= t[b].depth {
      AncOrder(t, x, b);
    }
  }

  lemma OnePerDepth(t: seq<Node>, b: nat, c: nat)
    requires Tree(t) && b < |t| && c < |t| && Anc(t, b, c)
    ensures forall x :: 0 <= x < |t| && Anc(t, x, c) && t[x].depth == t[b].depth ==> x == b
  {
    forall x | 0 <= x < |t| && Anc(t, x, c) && t[x].depth == t[b].depth ensures x == b {
      AncLinear(t, x, b, c);
      AncOrder(t, x, b);
    }
  }

  /** The step towards `b` from `c` separates the ancestors of `b` that `c` lacks. */
  lemma StepSeparates(t: seq<Node>, s: nat, b: nat, c: nat)
    requires Tree(t) && 0 < s < |t| && b < |t| && c < |t|
    requires Anc(t, s, b) && !Anc(t, s, c) && Anc(t, t[s].prev, c)
    ensures Anc(t, t[s].prev, b)
    ensures forall x :: 0 <= x < |t| && Anc(t, x, b) ==> (t[t[s].prev].depth < t[x].depth <==> !Anc(t, x, c))
  {
    var p := t[s].prev;
    assert Linked(t, s);
    assert Anc(t, p, s);
    AncTransitive(t, p, s, b);
    forall x | 0 <= x < |t| && Anc(t, x, b) ensures t[p].depth < t[x].depth <==> !Anc(t, x, c) {
      if t[p].depth < t[x].depth {
        AncLinear(t, s, x, b);
        if Anc(t, x, c) { AncTransitive(t, s, x, c); }
      } else {
        AncLinear(t, x, p, b);
        AncTransitive(t, x, p, c);
      }
    }
  }

  /** steal_pending_txs: the blocks whose transactions go back to pending, tip first. */
  method StealPendingTxs(t: seq<Node>, old_: nat, new_: nat) returns (moved: seq<nat>)
    requires Tree(t) && old_ < |t| && new_ < |t|
    ensures forall x: nat :: x in moved <==> x < |t| && Anc(t, x, old_) && !Anc(t, x, new_)
    ensures TipFirst(t, moved)
  {
    var end := StepTowards(t, new_, old_);
    if end.Some? {
      StepSeparates(t, end.value, old_, new_);
      moved := PathBack(t, old_, t[end.value].prev);
    } else {
      forall x | 0 <= x < |t| && Anc(t, x, old_) ensures Anc(t, x, new_) {
        AncTransitive(t, x, old_, new_);
      }
      moved := [];
    }
  }

  ghost predicate TipFirst(t: seq<Node>, moved: seq<nat>) {
    && (forall i :: 0 <= i < |moved| ==> moved[i] < |t|)
    && (forall i, j :: 0 <= i < j < |moved| ==> t[moved[i]].depth > t[moved[j]].depth)
  }

  /** The loop of chain.c:288-289: from `b` back to, but not including, `stop`. */
  method PathBack(t: seq<Node>, b0: nat, stop: nat) returns (moved: seq<nat>)
    requires Tree(t) && b0 < |t| && stop < |t| && Anc(t, stop, b0)
    ensures forall x: nat :: x in moved <==> x < |t| && Anc(t, x, b0) && t[stop].depth < t[x].depth
    ensures TipFirst(t, moved)
  {
    moved := [];
    var b: nat := b0;
    AncNotDeeper(t, b0);
    while b != stop
      invariant b < |t| && Anc(t, b, b0) && Anc(t, stop, b)
      invariant forall x: nat :: x in moved <==> x < |t| && Anc(t, x, b0) && t[b].depth < t[x].depth
      invariant TipFirst(t, moved)
      decreases t[b].depth
    {
      AncOrder(t, stop, b);
      assert Linked(t, b);
      OnePerDepth(t, b, b0);
      AncTransitive(t, t[b].prev, b, b0);
      assert forall i :: 0 <= i < |moved| ==> moved[i] in moved;
      moved := moved + [b];
      b := t[b].prev;
    }
  }
}
