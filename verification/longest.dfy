/**
 Keeping the list of blocks with the most work (set_single / tal_arr_append under
 cmp_work in chain.c): the running list, and what it holds after any sequence of visits.
 */
module Longest {
  import opened BlockTree

  ghost predicate InTree(t: seq<Node>, xs: seq<nat>) {
    forall i :: 0 <= i < |xs| ==> xs[i] < |t|
  }

  /** A list of candidates: not empty, all with the same work. */
  ghost predicate Tied(t: seq<Node>, bests: seq<nat>) {
    bests != [] && InTree(t, bests) && forall i :: 0 <= i < |bests| ==> t[bests[i]].work == t[bests[0]].work
  }

  function Elems(xs: seq<nat>): (s: set<nat>) {
    set x | x in xs
  }

  /** `x` has the most work of all blocks in `s`. */
  ghost predicate Heaviest(t: seq<Node>, s: set<nat>, x: nat)
    requires forall y :: y in s ==> y < |t|
  {
    x in s && forall y :: y in s ==> t[y].work <= t[x].work
  }

  /** One visit, chain.c:171-180 and chain.c:249-267. */
  function Visit(t: seq<Node>, bests: seq<nat>, b: nat): (r: seq<nat>)
    requires b < |t| && bests != [] && InTree(t, bests)
    ensures r != [] && InTree(t, r)
  {
    if t[b].work > t[bests[0]].work then [b]
    else if t[b].work == t[bests[0]].work then bests + [b]
    else bests
  }

  function Visits(t: seq<Node>, bests: seq<nat>, xs: seq<nat>): (r: seq<nat>)
    requires bests != [] && InTree(t, bests) && InTree(t, xs)
    ensures r != [] && InTree(t, r)
  {
    if xs == [] then bests
    else Visit(t, Visits(t, bests, xs[..|xs| - 1]), xs[|xs| - 1])
  }

  lemma {:induction false} VisitsConcat(t: seq<Node>, bests: seq<nat>, xs: seq<nat>, ys: seq<nat>)
    requires bests != [] && InTree(t, bests) && InTree(t, xs) && InTree(t, ys)
    ensures InTree(t, xs + ys)
    ensures Visits(t, bests, xs + ys) == Visits(t, Visits(t, bests, xs), ys)
  {
    if ys == [] {
      assert xs + ys == xs;
    } else {
      var n := |ys| - 1;
      assert (xs + ys)[..|xs + ys| - 1] == xs + ys[..n];
      VisitsConcat(t, bests, xs, ys[..n]);
    }
  }

  /** `bests` lists exactly the heaviest blocks of `s`. */
  ghost predicate Lists(t: seq<Node>, bests: seq<nat>, s: set<nat>) {
    && (forall y :: y in s ==> y < |t|)
    && Tied(t, bests)
    && (forall x :: x in bests <==> Heaviest(t, s, x))
  }

  lemma ListsOne(t: seq<Node>, b: nat)
    requires b < |t|
    ensures Tied(t, [b]) && Lists(t, [b], {b})
  {
  }

  lemma TiedLists(t: seq<Node>, bests: seq<nat>)
    requires Tied(t, bests)
    ensures Lists(t, bests, Elems(bests))
  {
  }

  lemma VisitLists(t: seq<Node>, bests: seq<nat>, s: set<nat>, b: nat)
    requires Lists(t, bests, s) && b < |t|
    ensures Lists(t, Visit(t, bests, b), s + {b})
    ensures t[Visit(t, bests, b)[0]].work >= t[bests[0]].work
  {
    var r := Visit(t, bests, b);
    assert bests[0] in bests && Heaviest(t, s, bests[0]);
    forall x ensures x in r <==> Heaviest(t, s + {b}, x) {
      if x in bests { assert Heaviest(t, s, x); }
      if Heaviest(t, s + {b}, x) && x != b { assert Heaviest(t, s, x); }
    }
  }

  /** Whatever the order of the visits, the list ends up holding exactly the blocks with the most work. */
  lemma {:induction false} VisitsHeaviest(t: seq<Node>, bests: seq<nat>, s: set<nat>, xs: seq<nat>)
    requires Lists(t, bests, s) && InTree(t, xs)
    ensures Lists(t, Visits(t, bests, xs), s + Elems(xs))
    ensures t[Visits(t, bests, xs)[0]].work >= t[bests[0]].work
  {
    if xs == [] {
      assert s + Elems(xs) == s;
    } else {
      var n := |xs| - 1;
      VisitsHeaviest(t, bests, s, xs[..n]);
      VisitLists(t, Visits(t, bests, xs[..n]), s + Elems(xs[..n]), xs[n]);
      assert xs == xs[..n] + [xs[n]];
      assert s + Elems(xs) == s + Elems(xs[..n]) + {xs[n]};
    }
  }

  /** The list is touched iff some visited block has at least the old work. */
  lemma {:induction false} VisitsChange(t: seq<Node>, bests: seq<nat>, xs: seq<nat>)
    requires Tied(t, bests) && InTree(t, xs)
    ensures var r := Visits(t, bests, xs);
            t[r[0]].work > t[bests[0]].work || (t[r[0]].work == t[bests[0]].work && bests <= r)
    ensures Visits(t, bests, xs) == bests <==> forall i :: 0 <= i < |xs| ==> t[xs[i]].work < t[bests[0]].work
  {
    if xs != [] {
      var n := |xs| - 1;
      VisitsChange(t, bests, xs[..n]);
      assert forall i :: 0 <= i < n ==> xs[..n][i] == xs[i];
      VisitChange(t, bests, Visits(t, bests, xs[..n]), xs[n]);
    }
  }

  lemma VisitChange(t: seq<Node>, bests: seq<nat>, r: seq<nat>, b: nat)
    requires Tied(t, bests) && r != [] && InTree(t, r) && b < |t|
    requires t[r[0]].work > t[bests[0]].work || (t[r[0]].work == t[bests[0]].work && bests <= r)
    ensures var r' := Visit(t, r, b);
            t[r'[0]].work > t[bests[0]].work || (t[r'[0]].work == t[bests[0]].work && bests <= r')
    ensures Visit(t, r, b) == bests <==> r == bests && t[b].work < t[bests[0]].work
  {
  }

  lemma FrontOutweighs(t: seq<Node>, bests: seq<nat>, xs: seq<nat>)
    requires Tied(t, bests) && InTree(t, xs)
    ensures Visits(t, bests, xs) != [] && Visits(t, bests, xs)[0] < |t|
    ensures forall j :: 0 <= j < |xs| ==> t[xs[j]].work <= t[Visits(t, bests, xs)[0]].work
  {
    TiedLists(t, bests);
    VisitsHeaviest(t, bests, Elems(bests), xs);
    var r := Visits(t, bests, xs);
    assert r[0] in r && Heaviest(t, Elems(bests) + Elems(xs), r[0]);
    forall j | 0 <= j < |xs| ensures t[xs[j]].work <= t[r[0]].work {
      assert xs[j] in Elems(xs);
    }
  }

  /** The front of the list is the first block met that has the final work. */
  lemma {:induction false} VisitsFront(t: seq<Node>, bests: seq<nat>, xs: seq<nat>)
    requires Tied(t, bests) && InTree(t, xs)
    ensures var f := Visits(t, bests, xs)[0];
            if t[f].work == t[bests[0]].work then f == bests[0]
            else exists k :: 0 <= k < |xs| && xs[k] == f && forall j :: 0 <= j < k ==> t[xs[j]].work < t[f].work
  {
    VisitsChange(t, bests, xs);
    if xs != [] {
      var n := |xs| - 1;
      VisitsFront(t, bests, xs[..n]);
      FrontOutweighs(t, bests, xs[..n]);
      var r, f := Visits(t, bests, xs[..n]), Visits(t, bests, xs)[0];
      if t[f].work != t[bests[0]].work {
        if t[xs[n]].work > t[r[0]].work {
          forall j | 0 <= j < n ensures t[xs[j]].work < t[f].work {
            assert xs[..n][j] == xs[j];
          }
        } else {
          var k :| 0 <= k < n && xs[..n][k] == r[0] && forall j :: 0 <= j < k ==> t[xs[..n][j]].work < t[r[0]].work;
          assert forall j :: 0 <= j < k ==> xs[..n][j] == xs[j];
          assert xs[k] == f;
        }
      }
    }
  }

  /** Later visits never bring an old list back. */
  lemma ChangeAdds(t: seq<Node>, bests: seq<nat>, xs: seq<nat>, ys: seq<nat>)
    requires Tied(t, bests) && InTree(t, xs) && InTree(t, ys)
    ensures InTree(t, xs + ys) && Tied(t, Visits(t, bests, xs)) && Tied(t, Visits(t, bests, xs + ys))
    ensures Visits(t, bests, xs + ys) == bests <==>
            Visits(t, bests, xs) == bests && Visits(t, bests, xs + ys) == Visits(t, bests, xs)
  {
    TiedLists(t, bests);
    VisitsHeaviest(t, bests, Elems(bests), xs);
    VisitsHeaviest(t, bests, Elems(bests), xs + ys);
    VisitsChange(t, bests, xs);
    VisitsChange(t, bests, xs + ys);
    assert forall i :: 0 <= i < |xs| ==> xs[i] == (xs + ys)[i];
  }

  lemma VisitSeen(t: seq<Node>, enter: set<nat>, descend: set<nat>, b: nat, i: nat, bests: seq<nat>)
    requires Tree(t) && b < |t| && i <= |t[b].children|
    requires b < |t| && bests != [] && InTree(t, bests)
    ensures i == 0 ==> Visits(t, bests, Seen(t, enter, descend, b, i)) == Visit(t, bests, b)
    ensures i > 0 ==> b < t[b].children[i - 1] < |t| && t[t[b].children[i - 1]].prev == b
    ensures i > 0 ==>
              Visits(t, bests, Seen(t, enter, descend, b, i)) ==
              Visits(t, Visits(t, bests, Seen(t, enter, descend, b, i - 1)), Walk(t, enter, descend, t[b].children[i - 1]))
  {
    SeenSteps(t, enter, descend, b, i);
    if i == 0 {
      assert Visits(t, bests, [b]) == Visit(t, Visits(t, bests, [b][..0]), b);
    } else {
      VisitsConcat(t, bests, Seen(t, enter, descend, b, i - 1), Walk(t, enter, descend, t[b].children[i - 1]));
    }
  }
}
