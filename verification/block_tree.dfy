/**
 The block tree as values (block.h, chain.h).

 A block is named by its arrival number: block 0 is the genesis block, and every other
 block is added after its parent.  The `prev` pointer of a block, its depth, its total
 work and the list of its children (in arrival order) make up a `Node`.
 */
module BlockTree {

  datatype Node = Node(prev: nat, depth: nat, work: nat, children: seq<nat>)

  /** Block `i` hangs below its parent, one deeper and with more work. */
  ghost predicate Linked(t: seq<Node>, i: nat)
    requires i < |t|
  {
    if i == 0 then t[0].prev == 0 && t[0].depth == 0
    else
      && t[i].prev < i
      && t[i].depth == t[t[i].prev].depth + 1
      && t[t[i].prev].work < t[i].work
      && i in t[t[i].prev].children
  }

  /** The children list of `b` names blocks whose parent is `b`, oldest first. */
  ghost predicate Siblings(t: seq<Node>, b: nat, cs: seq<nat>) {
    && (forall i :: 0 <= i < |cs| ==> b < cs[i] < |t| && t[cs[i]].prev == b)
    && (forall i, j :: 0 <= i < j < |cs| ==> cs[i] < cs[j])
  }

  /** What block_add (block.c:79-113) keeps of the linked structure. */
  ghost predicate Tree(t: seq<Node>) {
    && |t| > 0
    && (forall i {:trigger t[i].prev} {:trigger Linked(t, i)} :: 0 <= i < |t| ==> Linked(t, i))
    && (forall b {:trigger t[b].children} :: 0 <= b < |t| ==> Siblings(t, b, t[b].children))
  }

  /** `a` is `b` or is reached from `b` by following prev. */
  ghost predicate Anc(t: seq<Node>, a: nat, b: nat)
    requires Tree(t) && a < |t| && b < |t|
    decreases b
  {
    a == b || (b != 0 && Anc(t, a, t[b].prev))
  }

  lemma {:induction false} AncOrder(t: seq<Node>, a: nat, b: nat)
    requires Tree(t) && a < |t| && b < |t| && Anc(t, a, b)
    ensures a <= b
    ensures t[a].depth <= t[b].depth && t[a].work <= t[b].work
    ensures a != b ==> t[a].depth < t[b].depth && t[a].work < t[b].work
    decreases b
  {
    if a != b {
      AncOrder(t, a, t[b].prev);
    }
  }

  lemma {:induction false} AncTransitive(t: seq<Node>, a: nat, b: nat, c: nat)
    requires Tree(t) && a < |t| && b < |t| && c < |t|
    requires Anc(t, a, b) && Anc(t, b, c)
    ensures Anc(t, a, c)
    decreases c
  {
    if b != c {
      AncTransitive(t, a, b, t[c].prev);
    }
  }

  /** Two ancestors of one block lie on one line. */
  lemma {:induction false} AncLinear(t: seq<Node>, a: nat, b: nat, c: nat)
    requires Tree(t) && a < |t| && b < |t| && c < |t|
    requires Anc(t, a, c) && Anc(t, b, c)
    ensures t[a].depth <= t[b].depth ==> Anc(t, a, b)
    decreases c
  {
    if b == c {
    } else if a == c {
      AncOrder(t, b, c);
    } else {
      AncLinear(t, a, b, t[c].prev);
    }
  }

  lemma {:induction false} GenesisPrecedes(t: seq<Node>, b: nat)
    requires Tree(t) && b < |t|
    ensures Anc(t, 0, b)
    decreases b
  {
    if b != 0 {
      GenesisPrecedes(t, t[b].prev);
    }
  }

  /** block_preceeds, chain.h:13-22. */
  predicate BlockPreceeds(t: seq<Node>, a: nat, b: nat)
    requires Tree(t) && a < |t| && b < |t|
    decreases b
  {
    if a == b then true
    else if t[a].depth >= t[b].depth then false
    else BlockPreceeds(t, a, t[b].prev)
  }

  /** The depth cut-off of block_preceeds loses nothing. */
  lemma {:induction false} BlockPreceedsIsAncestry(t: seq<Node>, a: nat, b: nat)
    requires Tree(t) && a < |t| && b < |t|
    ensures BlockPreceeds(t, a, b) <==> Anc(t, a, b)
    decreases b
  {
    if Anc(t, a, b) {
      AncOrder(t, a, b);
    }
    if a != b && b != 0 {
      BlockPreceedsIsAncestry(t, a, t[b].prev);
    }
  }

  /** Adding block |t| below `prev`: new node, and prev's children list grows at its tail (block.c:96-113). */
  function Extend(t: seq<Node>, prev: nat, work: nat): (r: seq<Node>)
    requires prev < |t|
  {
    t[prev := t[prev].(children := t[prev].children + [|t|])] + [Node(prev, t[prev].depth + 1, t[prev].work + work, [])]
  }

  /** Old blocks keep their place and their work. */
  ghost predicate ExtendsTo(t: seq<Node>, r: seq<Node>) {
    |r| == |t| + 1 && forall i :: 0 <= i < |t| ==> r[i].prev == t[i].prev && r[i].work == t[i].work
  }

  lemma ExtendTree(t: seq<Node>, prev: nat, work: nat)
    requires Tree(t) && prev < |t| && work > 0
    ensures Tree(Extend(t, prev, work))
    ensures ExtendsTo(t, Extend(t, prev, work)) && Extend(t, prev, work)[|t|].prev == prev
    ensures Extend(t, prev, work)[|t|].work == t[prev].work + work
  {
    var r := Extend(t, prev, work);
    forall i | 0 <= i < |r| ensures Linked(r, i) {
      ExtendLinked(t, prev, work, i);
    }
    forall b | 0 <= b < |r| ensures Siblings(r, b, r[b].children) {
      ExtendSiblings(t, prev, work, b);
    }
  }

  lemma ExtendLinked(t: seq<Node>, prev: nat, work: nat, i: nat)
    requires Tree(t) && prev < |t| && work > 0 && i <= |t|
    ensures Linked(Extend(t, prev, work), i)
  {
    var r := Extend(t, prev, work);
    if i < |t| {
      assert Linked(t, i);
      var p := t[i].prev;
      assert r[p].children[..|t[p].children|] == t[p].children;
    } else {
      assert r[prev].children[|t[prev].children|] == |t|;
    }
  }

  lemma ExtendSiblings(t: seq<Node>, prev: nat, work: nat, b: nat)
    requires Tree(t) && prev < |t| && work > 0 && b <= |t|
    ensures Siblings(Extend(t, prev, work), b, Extend(t, prev, work)[b].children)
  {
    var r := Extend(t, prev, work);
    if b < |t| {
      var cs := t[b].children;
      assert Siblings(t, b, cs);
      assert r[b].children == if b == prev then cs + [|t|] else cs;
    }
  }

  lemma {:induction false} ExtendAnc(t: seq<Node>, prev: nat, work: nat, a: nat, b: nat)
    requires Tree(t) && prev < |t| && work > 0 && a < |t| && b < |t|
    ensures Tree(Extend(t, prev, work))
    ensures Anc(Extend(t, prev, work), a, b) == Anc(t, a, b)
    decreases b
  {
    ExtendTree(t, prev, work);
    if b != 0 {
      ExtendAnc(t, prev, work, a, t[b].prev);
    }
  }

  // ---------------------------------------------------------------- paths that stay inside a set

  /** Every block from `b` down to `x` is in `enter`, and all but `x` are in `descend`. */
  ghost predicate Path(t: seq<Node>, enter: set<nat>, descend: set<nat>, b: nat, x: nat)
    requires Tree(t) && b < |t| && x < |t|
    decreases x
  {
    x in enter && (x == b || (x != 0 && t[x].prev in descend && Path(t, enter, descend, b, t[x].prev)))
  }

  lemma {:induction false} PathAnc(t: seq<Node>, enter: set<nat>, descend: set<nat>, b: nat, x: nat)
    requires Tree(t) && b < |t| && x < |t| && Path(t, enter, descend, b, x)
    ensures Anc(t, b, x) && b in enter && (x != b ==> b in descend)
    decreases x
  {
    if x != b {
      PathAnc(t, enter, descend, b, t[x].prev);
    }
  }

  /** A path through a child is a path from the parent. */
  lemma {:induction false} PathFromParent(t: seq<Node>, enter: set<nat>, descend: set<nat>, b: nat, c: nat, x: nat)
    requires Tree(t) && b < c < |t| && x < |t| && t[c].prev == b
    requires b in enter && b in descend && Path(t, enter, descend, c, x)
    ensures Path(t, enter, descend, b, x)
    decreases x
  {
    if x != c {
      PathFromParent(t, enter, descend, b, c, t[x].prev);
    }
  }

  /** A path that moves at all goes through one of the children. */
  lemma {:induction false} PathFirstStep(t: seq<Node>, enter: set<nat>, descend: set<nat>, b: nat, x: nat) returns (c: nat)
    requires Tree(t) && b < |t| && x < |t| && x != b && Path(t, enter, descend, b, x)
    ensures b < c < |t| && t[c].prev == b && c in t[b].children
    ensures Path(t, enter, descend, c, x)
    decreases x
  {
    if t[x].prev == b {
      c := x;
    } else {
      c := PathFirstStep(t, enter, descend, b, t[x].prev);
    }
  }

  lemma {:induction false} ExtendPath(t: seq<Node>, prev: nat, work: nat, enter: set<nat>, descend: set<nat>, b: nat, x: nat)
    requires Tree(t) && prev < |t| && work > 0 && b < |t| && x < |t|
    ensures Tree(Extend(t, prev, work))
    ensures Path(Extend(t, prev, work), enter, descend, b, x) == Path(t, enter, descend, b, x)
    decreases x
  {
    ExtendTree(t, prev, work);
    if x != 0 {
      ExtendPath(t, prev, work, enter, descend, b, t[x].prev);
    }
  }

  // ---------------------------------------------------------------- depth-first walks

  /** The blocks a recursion over the children lists visits, in order, when it turns back
      at blocks outside `enter` and does not go below blocks outside `descend`. */
  function Walk(t: seq<Node>, enter: set<nat>, descend: set<nat>, b: nat): (r: seq<nat>)
    requires Tree(t) && b < |t|
    ensures forall i :: 0 <= i < |r| ==> r[i] < |t|
    decreases |t| - b, |t[b].children| + 1
  {
    if b !in enter then []
    else if b !in descend then [b]
    else [b] + WalkAll(t, enter, descend, b, t[b].children)
  }

  function WalkAll(t: seq<Node>, enter: set<nat>, descend: set<nat>, ghost b: nat, cs: seq<nat>): (r: seq<nat>)
    requires Tree(t) && b < |t|
    requires Siblings(t, b, cs)
    ensures forall i :: 0 <= i < |r| ==> r[i] < |t|
    decreases |t| - b, |cs|
  {
    if cs == [] then []
    else WalkAll(t, enter, descend, b, cs[..|cs| - 1]) + Walk(t, enter, descend, cs[|cs| - 1])
  }

  /** The walk visits exactly the ends of paths. */
  lemma {:induction false} WalkVisits(t: seq<Node>, enter: set<nat>, descend: set<nat>, b: nat, x: nat)
    requires Tree(t) && b < |t|
    ensures x in Walk(t, enter, descend, b) <==> x < |t| && Path(t, enter, descend, b, x)
    decreases |t| - b, |t[b].children| + 1
  {
    if b !in enter {
      if x < |t| && Path(t, enter, descend, b, x) { PathAnc(t, enter, descend, b, x); }
    } else if b !in descend {
      if x < |t| && Path(t, enter, descend, b, x) { PathAnc(t, enter, descend, b, x); }
    } else {
      WalkAllVisits(t, enter, descend, b, t[b].children, x);
      if x < |t| && x != b && Path(t, enter, descend, b, x) {
        var c := PathFirstStep(t, enter, descend, b, x);
      }
      if x != b && x in Walk(t, enter, descend, b) {
        var c :| c in t[b].children && Path(t, enter, descend, c, x);
        PathFromParent(t, enter, descend, b, c, x);
      }
    }
  }

  lemma {:induction false} WalkAllVisits(t: seq<Node>, enter: set<nat>, descend: set<nat>, b: nat, cs: seq<nat>, x: nat)
    requires Tree(t) && b < |t|
    requires Siblings(t, b, cs)
    ensures x in WalkAll(t, enter, descend, b, cs)
       <==> x < |t| && exists c :: c in cs && Path(t, enter, descend, c, x)
    decreases |t| - b, |cs|
  {
    if cs != [] {
      var last := cs[|cs| - 1];
      assert cs == cs[..|cs| - 1] + [last];
      WalkAllVisits(t, enter, descend, b, cs[..|cs| - 1], x);
      WalkVisits(t, enter, descend, last, x);
    }
  }

  /** A block comes before those below it, and of two branches the older one comes first. */
  ghost predicate Precedes(t: seq<Node>, x: nat, y: nat)
    requires Tree(t) && x < |t| && y < |t|
  {
    || (x != y && Anc(t, x, y))
    || exists c: nat, d: nat :: Branches(t, c, d) && Anc(t, c, x) && Anc(t, d, y)
  }

  /** Two children of one block, the older first. */
  ghost predicate Branches(t: seq<Node>, c: nat, d: nat) {
    0 < c < d < |t| && t[c].prev == t[d].prev
  }

  ghost predicate InOrder(t: seq<Node>, xs: seq<nat>)
    requires Tree(t)
  {
    && (forall i :: 0 <= i < |xs| ==> xs[i] < |t|)
    && (forall i, j :: 0 <= i < j < |xs| ==> Precedes(t, xs[i], xs[j]))
  }

  /** The order of the walk. */
  lemma {:induction false} WalkOrder(t: seq<Node>, enter: set<nat>, descend: set<nat>, b: nat)
    requires Tree(t) && b < |t|
    ensures InOrder(t, Walk(t, enter, descend, b))
    decreases |t| - b, |t[b].children| + 1
  {
    if b in enter && b in descend {
      var below := WalkAll(t, enter, descend, b, t[b].children);
      WalkAllOrder(t, enter, descend, b, t[b].children);
      forall i | 0 <= i < |below| ensures Precedes(t, b, below[i]) {
        var _ := WalkAllBelow(t, enter, descend, b, t[b].children, below[i]);
      }
      OrderJoins(t, [b], below);
    }
  }

  lemma {:induction false} WalkAllOrder(t: seq<Node>, enter: set<nat>, descend: set<nat>, b: nat, cs: seq<nat>)
    requires Tree(t) && b < |t| && Siblings(t, b, cs)
    ensures InOrder(t, WalkAll(t, enter, descend, b, cs))
    decreases |t| - b, |cs|
  {
    if cs != [] {
      var front, last := cs[..|cs| - 1], cs[|cs| - 1];
      var older, younger := WalkAll(t, enter, descend, b, front), Walk(t, enter, descend, last);
      WalkAllOrder(t, enter, descend, b, front);
      WalkOrder(t, enter, descend, last);
      forall i, j | 0 <= i < |older| && 0 <= j < |younger| ensures Precedes(t, older[i], younger[j]) {
        var c := WalkAllBelow(t, enter, descend, b, front, older[i]);
        WalkBelow(t, enter, descend, last, younger[j]);
        assert Branches(t, c, last);
      }
      OrderJoins(t, older, younger);
    }
  }

  lemma OrderJoins(t: seq<Node>, xs: seq<nat>, ys: seq<nat>)
    requires Tree(t) && InOrder(t, xs) && InOrder(t, ys)
    requires forall i, j :: 0 <= i < |xs| && 0 <= j < |ys| ==> Precedes(t, xs[i], ys[j])
    ensures InOrder(t, xs + ys)
  {
  }

  lemma WalkBelow(t: seq<Node>, enter: set<nat>, descend: set<nat>, b: nat, x: nat)
    requires Tree(t) && b < |t| && x in Walk(t, enter, descend, b)
    ensures Anc(t, b, x)
  {
    WalkVisits(t, enter, descend, b, x);
    PathAnc(t, enter, descend, b, x);
  }

  lemma {:induction false} WalkAllBelow(t: seq<Node>, enter: set<nat>, descend: set<nat>, b: nat, cs: seq<nat>, x: nat) returns (c: nat)
    requires Tree(t) && b < |t| && Siblings(t, b, cs) && x in WalkAll(t, enter, descend, b, cs)
    ensures c in cs && Anc(t, c, x) && x != b && Anc(t, b, x)
  {
    WalkAllVisits(t, enter, descend, b, cs, x);
    c :| c in cs && Path(t, enter, descend, c, x);
    PathAnc(t, enter, descend, c, x);
    AncOrder(t, c, x);
    assert Anc(t, b, t[c].prev);
    AncTransitive(t, b, c, x);
  }

  /** A new block outside `enter` is invisible to every walk. */
  lemma {:induction false} ExtendWalk(t: seq<Node>, prev: nat, work: nat, enter: set<nat>, descend: set<nat>, b: nat)
    requires Tree(t) && prev < |t| && work > 0 && b < |t|
    requires |t| !in enter
    ensures Tree(Extend(t, prev, work))
    ensures Walk(Extend(t, prev, work), enter, descend, b) == Walk(t, enter, descend, b)
    decreases |t| - b, |t[b].children| + 1
  {
    ExtendTree(t, prev, work);
    var t' := Extend(t, prev, work);
    if b in enter && b in descend {
      ExtendWalkAll(t, prev, work, enter, descend, b, t[b].children);
      if b == prev {
        var cs := t'[b].children;
        assert cs[..|cs| - 1] == t[b].children && cs[|cs| - 1] == |t|;
        assert Walk(t', enter, descend, |t|) == [];
      } else {
        assert t'[b].children == t[b].children;
      }
    }
  }

  lemma {:induction false} ExtendWalkAll(t: seq<Node>, prev: nat, work: nat, enter: set<nat>, descend: set<nat>, b: nat, cs: seq<nat>)
    requires Tree(t) && prev < |t| && work > 0 && b < |t|
    requires |t| !in enter
    requires Siblings(t, b, cs)
    ensures Tree(Extend(t, prev, work))
    ensures WalkAll(Extend(t, prev, work), enter, descend, b, cs) == WalkAll(t, enter, descend, b, cs)
    decreases |t| - b, |cs|
  {
    ExtendTree(t, prev, work);
    if cs != [] {
      ExtendWalkAll(t, prev, work, enter, descend, b, cs[..|cs| - 1]);
      ExtendWalk(t, prev, work, enter, descend, cs[|cs| - 1]);
    }
  }

  /** The part of the walk from `b` done after its first `i` children. */
  ghost function Seen(t: seq<Node>, enter: set<nat>, descend: set<nat>, b: nat, i: nat): (r: seq<nat>)
    requires Tree(t) && b < |t| && i <= |t[b].children|
    ensures forall k :: 0 <= k < |r| ==> r[k] < |t|
  {
    [b] + WalkAll(t, enter, descend, b, t[b].children[..i])
  }

  lemma SeenSteps(t: seq<Node>, enter: set<nat>, descend: set<nat>, b: nat, i: nat)
    requires Tree(t) && b < |t| && i <= |t[b].children|
    ensures i == 0 ==> Seen(t, enter, descend, b, i) == [b]
    ensures i > 0 ==> b < t[b].children[i - 1] < |t| && t[t[b].children[i - 1]].prev == b
    ensures i > 0 ==> Seen(t, enter, descend, b, i) == Seen(t, enter, descend, b, i - 1) + Walk(t, enter, descend, t[b].children[i - 1])
    ensures i == |t[b].children| && b in enter && b in descend ==> Seen(t, enter, descend, b, i) == Walk(t, enter, descend, b)
  {
    var cs := t[b].children;
    if i > 0 {
      assert cs[..i][..i - 1] == cs[..i - 1];
    }
    assert cs[..|cs|] == cs;
  }

  /** The walk from a block with no child, and with one or two. */
  lemma WalkSmall(t: seq<Node>, enter: set<nat>, descend: set<nat>, b: nat)
    requires Tree(t) && b < |t| && b in enter && b in descend && |t[b].children| <= 2
    ensures t[b].children == [] ==> Walk(t, enter, descend, b) == [b]
    ensures forall i :: 0 <= i < |t[b].children| ==> t[b].children[i] < |t|
    ensures |t[b].children| == 1 ==> Walk(t, enter, descend, b) == [b] + Walk(t, enter, descend, t[b].children[0])
    ensures |t[b].children| == 2 ==>
              Walk(t, enter, descend, b) ==
              [b] + Walk(t, enter, descend, t[b].children[0]) + Walk(t, enter, descend, t[b].children[1])
  {
    var n := |t[b].children|;
    SeenSteps(t, enter, descend, b, 0);
    SeenSteps(t, enter, descend, b, n);
    if n == 2 {
      SeenSteps(t, enter, descend, b, 1);
    }
  }
}
