/**
 Walking the tokens (json.c): json_next, json_get_arr, json_get_member, and the retry loop
 that finds room for all tokens.
 */
module Json {
  import opened Wrappers
  import opened JsonTree
  import opened JsmnMachine
  import opened JsmnInvalid
  import opened Jsmn

  /** The tokens from i on begin with those of t. */
  ghost predicate TreeAt(toks: seq<Tok>, i: nat, t: Tree) {
    i + |TreeTokens(t)| <= |toks| && toks[i..i + |TreeTokens(t)|] == TreeTokens(t)
  }

  ghost predicate ForestAt(toks: seq<Tok>, i: nat, f: seq<Tree>) {
    i + |Tokens(f)| <= |toks| && toks[i..i + |Tokens(f)|] == Tokens(f)
  }

  /** Where the k-th tree of a forest that begins at i begins. */
  ghost function Place(i: nat, f: seq<Tree>, k: nat): (r: nat)
    requires k <= |f|
  {
    i + |Tokens(f[..k])|
  }

  lemma PlaceNext(i: nat, f: seq<Tree>, k: nat)
    requires k < |f|
    ensures Place(i, f, k + 1) == Place(i, f, k) + |TreeTokens(f[k])|
  {
    assert f[..k + 1] == f[..k] + [f[k]];
    TokensSnoc(f[..k], f[k]);
  }

  lemma PlaceLast(i: nat, f: seq<Tree>)
    ensures Place(i, f, |f|) == i + |Tokens(f)|
  {
    assert f[..|f|] == f;
  }

  lemma {:induction false} PlaceOrder(i: nat, f: seq<Tree>, j: nat, k: nat)
    requires j <= k <= |f|
    ensures Place(i, f, j) + (k - j) <= Place(i, f, k)
  {
    if j < k {
      PlaceOrder(i, f, j, k - 1);
      PlaceNext(i, f, k - 1);
    }
  }

  lemma Middle<T>(s: seq<T>, i: nat, a: seq<T>, m: seq<T>, b: seq<T>)
    requires i + |a| + |m| + |b| <= |s| && s[i..i + |a| + |m| + |b|] == a + m + b
    ensures s[i + |a|..i + |a| + |m|] == m
  {
    var whole := s[i..i + |a| + |m| + |b|];
    forall k: nat | k < |m| ensures s[i + |a| + k] == m[k] {
      assert whole[|a| + k] == m[k];
    }
  }

  lemma TokensJoin(l: seq<Tree>, x: Tree, r: seq<Tree>)
    ensures Tokens(l + [x] + r) == Tokens(l) + TreeTokens(x) + Tokens(r)
  {
    TokensSnoc(l, x);
    TokensAppend(l + [x], r);
  }

  lemma ChildAt(toks: seq<Tok>, i: nat, f: seq<Tree>, k: nat)
    requires ForestAt(toks, i, f) && k < |f|
    ensures TreeAt(toks, Place(i, f, k), f[k])
  {
    assert f == f[..k] + [f[k]] + f[k + 1..];
    TokensJoin(f[..k], f[k], f[k + 1..]);
    Middle(toks, i, Tokens(f[..k]), TreeTokens(f[k]), Tokens(f[k + 1..]));
  }

  lemma ChildrenAt(toks: seq<Tok>, i: nat, t: Tree)
    requires TreeAt(toks, i, t)
    ensures toks[i] == Tok(t.kind, t.start, t.end, |t.children|)
    ensures ForestAt(toks, i + 1, t.children)
  {
    var n := |TreeTokens(t)|;
    assert toks[i] == toks[i..i + n][0];
    assert toks[i + 1..i + n] == toks[i..i + n][1..] == Tokens(t.children);
  }

  /** Every token begins a tree, so json_next can be asked about each of them. */
  lemma {:induction false} EveryTokenBegins(toks: seq<Tok>, i: nat, f: seq<Tree>, at: nat) returns (t: Tree)
    requires ForestAt(toks, i, f) && i <= at < i + |Tokens(f)|
    ensures TreeAt(toks, at, t)
    decreases f
  {
    var n := |TreeTokens(f[0])|;
    ChildAt(toks, i, f, 0);
    assert Tokens(f[..0]) == [];
    if at == i {
      t := f[0];
    } else if at < i + n {
      ChildrenAt(toks, i, f[0]);
      t := EveryTokenBegins(toks, i + 1, f[0].children, at);
    } else {
      assert Tokens(f) == TreeTokens(f[0]) + Tokens(f[1..]) + [];
      Middle(toks, i, TreeTokens(f[0]), Tokens(f[1..]), []);
      t := EveryTokenBegins(toks, i + n, f[1..], at);
    }
  }

  /** json_next, json.c:69-78: the first token after the tree. */
  method JsonNext(toks: seq<Tok>, tok: nat, ghost t: Tree) returns (r: nat)
    requires TreeAt(toks, tok, t)
    ensures r == tok + |TreeTokens(t)|
    decreases t
  {
    ChildrenAt(toks, tok, t);
    ghost var f := t.children;
    r := tok + 1;
    var i := 0;
    while i < toks[tok].size
      invariant 0 <= i <= toks[tok].size
      invariant r == Place(tok + 1, f, i)
    {
      ChildAt(toks, tok + 1, f, i);
      PlaceNext(tok + 1, f, i);
      r := JsonNext(toks, r, f[i]);
      i := i + 1;
    }
    PlaceLast(tok + 1, f);
  }

  /** json_get_arr, json.c:95-110: the index-th element, or nothing past the last. */
  method JsonGetArr(toks: seq<Tok>, tok: nat, index: nat, ghost t: Tree) returns (r: Option<nat>)
    requires TreeAt(toks, tok, t)
    ensures r == if index < |t.children| then Some(Place(tok + 1, t.children, index)) else None
    ensures r.Some? ==> TreeAt(toks, r.value, t.children[index])
  {
    ChildrenAt(toks, tok, t);
    ghost var f := t.children;
    var end := JsonNext(toks, tok, t);
    PlaceLast(tok + 1, f);
    var at, left := tok + 1, index;
    ghost var k := 0;
    while at < end
      invariant 0 <= k <= |f| && at == Place(tok + 1, f, k)
      invariant k + left == index
      decreases |f| - k
    {
      PlaceOrder(tok + 1, f, k, |f|);
      ChildAt(toks, tok + 1, f, k);
      if left == 0 {
        return Some(at);
      }
      left := left - 1;
      PlaceNext(tok + 1, f, k);
      at := JsonNext(toks, at, f[k]);
      k := k + 1;
    }
    PlaceOrder(tok + 1, f, k, |f|);
    return None;
  }

  /** json_tok_streq, json.c:31-38. */
  predicate Names(js: string, t: Tok, name: string) {
    t.kind.String? && 0 <= t.start <= t.end <= |js| && js[t.start..t.end] == name
  }

  /** The members of an object come in pairs, a name and then a value; names have no children. */
  ghost predicate NamesAreLeaves(f: seq<Tree>) {
    forall k: nat :: k < |f| && k % 2 == 0 ==> f[k].children == []
  }

  ghost predicate NamedHere(js: string, f: seq<Tree>, name: string, k: nat)
    requires k < |f|
  {
    k % 2 == 0 && Names(js, TreeTokens(f[k])[0], name)
  }

  ghost predicate FirstNamed(js: string, f: seq<Tree>, name: string, k: nat) {
    k < |f| && NamedHere(js, f, name, k) && forall j: nat :: j < k ==> !NamedHere(js, f, name, j)
  }

  lemma PairAt(toks: seq<Tok>, i: nat, f: seq<Tree>, k: nat)
    requires ForestAt(toks, i, f) && NamesAreLeaves(f) && k < |f| && k % 2 == 0
    ensures Place(i, f, k) < |toks| && toks[Place(i, f, k)] == TreeTokens(f[k])[0]
    ensures Place(i, f, k + 1) == Place(i, f, k) + 1
    ensures if k + 1 < |f| then
              && TreeAt(toks, Place(i, f, k) + 1, f[k + 1])
              && Place(i, f, k + 2) == Place(i, f, k) + 1 + |TreeTokens(f[k + 1])|
            else Place(i, f, k) + 1 == i + |Tokens(f)|
  {
    ChildAt(toks, i, f, k);
    ChildrenAt(toks, Place(i, f, k), f[k]);
    PlaceNext(i, f, k);
    if k + 1 < |f| {
      ChildAt(toks, i, f, k + 1);
      PlaceNext(i, f, k + 1);
    } else {
      PlaceLast(i, f);
    }
  }

  /** Short of the end, there is another tree. */
  lemma BeforeEnd(i: nat, f: seq<Tree>, k: nat)
    requires k <= |f|
    ensures Place(i, f, k) < i + |Tokens(f)| <==> k < |f|
  {
    PlaceOrder(i, f, k, |f|);
    PlaceLast(i, f);
  }

  /** Every token from the first child on begins a tree, and so does the token after the object. */
  lemma MemberTree(toks: seq<Tok>, tok: nat, t: Tree, after: Tree, at: nat) returns (next: Tree)
    requires TreeAt(toks, tok, t) && TreeAt(toks, tok + |TreeTokens(t)|, after)
    requires tok < at <= tok + |TreeTokens(t)|
    ensures TreeAt(toks, at, next)
  {
    if at == tok + |TreeTokens(t)| {
      next := after;
    } else {
      ChildrenAt(toks, tok, t);
      next := EveryTokenBegins(toks, tok + 1, t.children, at);
    }
  }

  lemma {:induction false} TreeUnique(toks: seq<Tok>, i: nat, t: Tree, u: Tree)
    requires TreeAt(toks, i, t) && TreeAt(toks, i, u)
    ensures |TreeTokens(t)| == |TreeTokens(u)|
    decreases t
  {
    ChildrenAt(toks, i, t);
    ChildrenAt(toks, i, u);
    ForestUnique(toks, i + 1, t.children, u.children, |t.children|);
    PlaceLast(i + 1, t.children);
    PlaceLast(i + 1, u.children);
  }

  lemma {:induction false} ForestUnique(toks: seq<Tok>, i: nat, f: seq<Tree>, g: seq<Tree>, k: nat)
    requires ForestAt(toks, i, f) && ForestAt(toks, i, g) && |f| == |g| && k <= |f|
    ensures Place(i, f, k) == Place(i, g, k)
    decreases f, k
  {
    if k > 0 {
      ForestUnique(toks, i, f, g, k - 1);
      ChildAt(toks, i, f, k - 1);
      ChildAt(toks, i, g, k - 1);
      TreeUnique(toks, Place(i, f, k - 1), f[k - 1], g[k - 1]);
      PlaceNext(i, f, k - 1);
      PlaceNext(i, g, k - 1);
    }
  }

  /** The token the walk looks at is the name of pair k, and what follows is the rest of the pair. */
  lemma PairHere(js: string, toks: seq<Tok>, tok: nat, t: Tree, name: string, k: nat, at: nat)
    requires TreeAt(toks, tok, t) && NamesAreLeaves(t.children) && AtPair(js, t.children, name, tok, k, at)
    requires at < tok + |TreeTokens(t)|
    ensures k < |t.children| && toks[at] == TreeTokens(t.children[k])[0]
    ensures at + 1 == Place(tok + 1, t.children, k + 1)
    ensures k + 1 < |t.children| ==> TreeAt(toks, at + 1, t.children[k + 1])
  {
    ChildrenAt(toks, tok, t);
    BeforeEnd(tok + 1, t.children, k);
    PairAt(toks, tok + 1, t.children, k);
  }

  lemma PairMissed(js: string, tok: nat, f: seq<Tree>, name: string, k: nat, at: nat, n: nat)
    requires AtPair(js, f, name, tok, k, at) && k < |f| && !NamedHere(js, f, name, k)
    requires at + 1 == Place(tok + 1, f, k + 1) && n > 0
    requires k + 1 < |f| ==> n == |TreeTokens(f[k + 1])|
    ensures AtPair(js, f, name, tok, k + 2, at + 1 + n)
  {
    if k + 1 < |f| {
      PlaceNext(tok + 1, f, k + 1);
    } else {
      PlaceLast(tok + 1, f);
    }
  }

  /** At a pair: the name matches and the value follows, or the walk goes on to the next pair. */
  lemma PairStep(js: string, toks: seq<Tok>, tok: nat, t: Tree, name: string, k: nat, at: nat, next: Tree)
    requires TreeAt(toks, tok, t) && NamesAreLeaves(t.children) && AtPair(js, t.children, name, tok, k, at)
    requires at < tok + |TreeTokens(t)| && TreeAt(toks, at + 1, next)
    ensures Names(js, toks[at], name) ==> ValueAt(js, tok, t, name, k, at + 1)
    ensures !Names(js, toks[at], name) ==> AtPair(js, t.children, name, tok, k + 2, at + 1 + |TreeTokens(next)|)
  {
    PairHere(js, toks, tok, t, name, k, at);
    if Names(js, toks[at], name) {
      BeforeEnd(tok + 1, t.children, k + 1);
    } else {
      if k + 1 < |t.children| {
        TreeUnique(toks, at + 1, next, t.children[k + 1]);
      }
      PairMissed(js, tok, t.children, name, k, at, |TreeTokens(next)|);
    }
  }

  /** json_get_member, json.c:80-93.  What it returns follows a matching name inside the object.  If
      names have no children it is the token after the first matching name: the value, which is inside
      the object unless the name is the last thing in it. */
  method JsonGetMember(js: string, toks: seq<Tok>, tok: nat, name: string, ghost t: Tree, ghost after: Tree) returns (r: Option<nat>)
    requires TreeAt(toks, tok, t)
    requires TreeAt(toks, tok + |TreeTokens(t)|, after)
    ensures r.Some? ==> tok + 1 < r.value <= tok + |TreeTokens(t)| && Names(js, toks[r.value - 1], name)
    ensures r.None? && NamesAreLeaves(t.children) ==> forall k: nat :: k < |t.children| ==> !NamedHere(js, t.children, name, k)
    ensures r.Some? && NamesAreLeaves(t.children) ==> exists k: nat :: ValueAt(js, tok, t, name, k, r.value)
  {
    ghost var pairs := NamesAreLeaves(t.children);
    var end := JsonNext(toks, tok, t);
    var at := tok + 1;
    ghost var k: nat := 0;
    while at < end
      invariant at > tok
      invariant pairs ==> AtPair(js, t.children, name, tok, k, at)
      decreases end - at
    {
      ghost var next := MemberTree(toks, tok, t, after, at + 1);
      if pairs {
        PairStep(js, toks, tok, t, name, k, at, next);
      }
      if Names(js, toks[at], name) {
        return Some(at + 1);
      }
      at := JsonNext(toks, at + 1, next);
      k := k + 2;
    }
    if pairs && k <= |t.children| {
      BeforeEnd(tok + 1, t.children, k);
    }
    return None;
  }

  /** The walk over names is at pair k, and none before matched. */
  ghost predicate AtPair(js: string, f: seq<Tree>, name: string, tok: nat, k: nat, at: nat) {
    && k % 2 == 0
    && (if k <= |f| then at == Place(tok + 1, f, k) else at >= tok + 1 + |Tokens(f)|)
    && forall j: nat :: j < k && j < |f| ==> !NamedHere(js, f, name, j)
  }

  /** `at` is right after the first name that matches, the k-th child. */
  ghost predicate ValueAt(js: string, tok: nat, t: Tree, name: string, k: nat, at: nat) {
    && FirstNamed(js, t.children, name, k)
    && at == Place(tok + 1, t.children, k + 1)
    && (at < tok + |TreeTokens(t)| <==> k + 1 < |t.children|)
  }

  // ---- finding room ----

  /** toks[ret] of json_parse_input: always there to be looked at. */
  const Sentinel: Tok := Tok(Unset, 0, 0, 0)

  datatype Parsed = Nothing | Toks(toks: seq<Tok>)

  /** A parse that did not run out of tokens is the parse with all the room it could want. */
  lemma RoomEnough(js: string, len: nat, limit: nat)
    requires len <= |js| && ParseAll(js, len, limit) != NoMem
    ensures ParseAll(js, len, limit) == ParseAll(js, len, len)
  {
    var most := if limit < len then len else limit;
    ParseEnoughRoom(js, len, len, 0, Top([]));
    ParseMoreRoom(js, len, limit, most, 0, Top([]));
    ParseMoreRoom(js, len, len, most, 0, Top([]));
  }

  /** With room, a text is parsed into a forest exactly when the forest fills it. */
  lemma ReadExactly(js: string, len: nat, f: seq<Tree>)
    requires len <= |js|
    ensures ParseAll(js, len, len) == Done(f) <==> Fills(js, len, f)
  {
    var limit := |Tokens(f)| + len;
    ParsesExactly(js, len, limit, f);
    ParseEnoughRoom(js, len, limit, 0, Top([]));
    RoomEnough(js, len, limit);
  }

  lemma SpoiltExactly(js: string, len: nat)
    requires len <= |js|
    ensures ParseAll(js, len, len) == Invalid <==> Spoilt(js, len)
  {
    InvalidExactly(js, len, |js|);
    ParseEnoughRoom(js, len, |js|, 0, Top([]));
    RoomEnough(js, len, |js|);
  }

  /** json_parse_input, json.c:189-221: the token array doubles until the tokens fit. */
  method JsonParseInput(input: string, len: nat) returns (valid: bool, r: Parsed)
    requires len <= |input|
    ensures r.Toks? ==> exists f :: Fills(input, len, f) && r.toks == Tokens(f) + [Sentinel]
    ensures r.Nothing? ==> forall f :: !Fills(input, len, f)
    ensures valid <==> !Spoilt(input, len)
  {
    var count := 10;
    ParseEnoughRoom(input, len, len, 0, Top([]));
    ghost var o := ParseAll(input, len, len);
    forall f ensures o == Done(f) <==> Fills(input, len, f) {
      ReadExactly(input, len, f);
    }
    SpoiltExactly(input, len);
    while true
      invariant count >= 10
      decreases len - count
    {
      var toks := new Tok[count](_ => Sentinel);
      var parser := new Parser();
      var ret, _ := parser.JsmnParse(input, len, toks, count - 1, Top([]));
      if ParseAll(input, len, count - 1) != NoMem {
        RoomEnough(input, len, count - 1);
      }
      if ret == ErrorInval {
        return false, Nothing;
      } else if ret == ErrorPart {
        return true, Nothing;
      } else if ret != ErrorNoMem {
        return true, Toks(toks[..ret] + [Sentinel]);
      }
      if len <= count - 1 {
        ParseEnoughRoom(input, len, count - 1, 0, Top([]));
      }
      count := count * 2;
    }
  }

  // ---- a name without a value ----

  const LoneName: string := "{\"a\"}"

  function LoneObject(): (t: Tree) {
    Tree(Object, 0, 5, [Tree(String, 2, 3, [])])
  }

  lemma LoneObjectFills()
    ensures |LoneName| == 5 && Fills(LoneName, 5, [LoneObject()])
  {
    var js, leaf, t := LoneName, Tree(String, 2, 3, []), LoneObject();
    assert js == ['{', '"', 'a', '"', '}'];
    assert Quoted(js, 3, 3) && Quoted(js, 2, 3);
    assert TreeStands(js, 5, leaf);
    assert [leaf][1..] == [] && Stands(js, 5, [], 4, 4);
    assert Stands(js, 5, [leaf], 1, 4);
    assert TreeStands(js, 5, t);
    assert [t][1..] == [] && Stands(js, 5, [], 5, 5);
    assert Stands(js, 5, [t], 0, 5);
  }

  /** Asked for the one name in that object, json_get_member returns the token after the last. */
  method MissingValue() returns (toks: seq<Tok>, r: Option<nat>)
    ensures |LoneName| == 5 && Fills(LoneName, 5, [LoneObject()])
    ensures toks == Tokens([LoneObject()]) + [Sentinel]
    ensures r == Some(|Tokens([LoneObject()])|)
  {
    LoneObjectFills();
    ghost var leaf, t := Tree(String, 2, 3, []), LoneObject();
    ghost var after := Tree(Unset, 0, 0, []);
    toks := [Tok(Object, 0, 5, 1), Tok(String, 2, 3, 0), Sentinel];
    assert Tokens([leaf]) == TreeTokens(leaf) + Tokens([leaf][1..]) == [Tok(String, 2, 3, 0)];
    assert TreeTokens(t) == [Tok(Object, 0, 5, 1), Tok(String, 2, 3, 0)];
    assert Tokens([t]) == TreeTokens(t) + Tokens([t][1..]) == TreeTokens(t);
    assert TreeAt(toks, 0, t);
    assert TreeTokens(after) == [Sentinel] && TreeAt(toks, 2, after);
    r := JsonGetMember(LoneName, toks, 0, "a", t, after);
    assert LoneName[2..3] == "a";
    assert NamedHere(LoneName, t.children, "a", 0);
    assert t.children[..1] == [leaf];
  }
}
