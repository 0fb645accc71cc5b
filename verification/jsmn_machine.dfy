/**
 What jsmn_parse computes (jsmn/jsmn.c): one pass over the text with the objects and arrays
 that are still open.  It builds a forest exactly when the forest stands in the text.
 */
module JsmnMachine {
  import opened JsonTree

  // ---- strings and primitives ----

  /** How a scan ends: at a position, or with JSMN_ERROR_INVAL or JSMN_ERROR_PART. */
  datatype Scan = End(at: nat) | BadChar | CutShort

  /** How many of the next k characters are hex digits; -1 if one before a NUL is not. */
  function HexRun(js: string, i: nat, k: nat): (r: int)
    requires i <= |js|
    ensures -1 <= r <= k && i + r <= |js|
    ensures r == k <==> i + k <= |js| && forall d :: i <= d < i + k ==> IsHex(js[d])
    ensures 0 <= r < k ==> At(js, i + r) == '\0'
    decreases k
  {
    if k == 0 || At(js, i) == '\0' then 0
    else if !IsHex(At(js, i)) then -1
    else var r := HexRun(js, i + 1, k - 1); if r < 0 then -1 else r + 1
  }

  /** jsmn.c:115-144: where the scan goes on after a backslash before i; -1 for a bad escape. */
  function AfterEscape(js: string, i: nat): (r: int)
    requires i <= |js|
    ensures r == -1 || i < r <= |js|
  {
    if IsSimpleEscape(At(js, i)) then i + 1
    else if At(js, i) == 'u' then
      var k := HexRun(js, i + 1, 4);
      if k < 0 then -1 else i + 1 + k
    else -1
  }

  /** jsmn_parse_string, jsmn.c:86-148. */
  function ScanString(js: string, len: nat, i: nat): (r: Scan)
    requires len <= |js|
    ensures r.End? ==> i <= r.at < len
    decreases |js| - i
  {
    if !Live(js, len, i) then CutShort
    else if js[i] == '"' then End(i)
    else if js[i] == '\\' then
      var next := AfterEscape(js, i + 1);
      if next < 0 then BadChar else ScanString(js, len, next)
    else ScanString(js, len, i + 1)
  }

  /** jsmn_parse_primitive, jsmn.c:37-81. */
  function ScanPrimitive(js: string, len: nat, i: nat): (r: Scan)
    requires len <= |js|
    ensures r.End? ==> i <= r.at < len && IsDelimiter(js[r.at])
    decreases |js| - i
  {
    if !Live(js, len, i) then CutShort
    else if IsDelimiter(js[i]) then End(i)
    else if !IsPrintable(js[i]) then BadChar
    else ScanPrimitive(js, len, i + 1)
  }

  lemma {:induction false} ScanStringSound(js: string, len: nat, i: nat)
    requires len <= |js| && ScanString(js, len, i).End?
    ensures var e := ScanString(js, len, i).at; i <= e < len && Quoted(js, i, e) && js[e] == '"'
    decreases |js| - i
  {
    if js[i] == '"' {
    } else if js[i] == '\\' {
      var next := AfterEscape(js, i + 1);
      ScanStringSound(js, len, next);
      assert Live(js, len, next);
    } else {
      ScanStringSound(js, len, i + 1);
    }
  }

  lemma {:induction false} ScanStringComplete(js: string, len: nat, i: nat, e: nat)
    requires len <= |js| && i <= e < len && Quoted(js, i, e) && js[e] == '"'
    ensures ScanString(js, len, i) == End(e)
    decreases e - i
  {
    if i < e {
      if js[i] != '\0' && js[i] != '"' && js[i] != '\\' && Quoted(js, i + 1, e) {
        ScanStringComplete(js, len, i + 1, e);
      } else if i + 2 <= e && IsSimpleEscape(js[i + 1]) && Quoted(js, i + 2, e) {
        ScanStringComplete(js, len, i + 2, e);
      } else {
        ScanStringComplete(js, len, i + 6, e);
        assert HexRun(js, i + 2, 4) == 4;
      }
    }
  }

  /** A string ends where its inside is whole and a quote follows. */
  lemma ScanStringExactly(js: string, len: nat, i: nat, e: nat)
    requires len <= |js|
    ensures ScanString(js, len, i) == End(e) <==> i <= e < len && Quoted(js, i, e) && js[e] == '"'
  {
    if ScanString(js, len, i) == End(e) {
      ScanStringSound(js, len, i);
    } else if i <= e < len && Quoted(js, i, e) && js[e] == '"' {
      ScanStringComplete(js, len, i, e);
    }
  }

  lemma {:induction false} ScanPrimitiveExactly(js: string, len: nat, i: nat, e: nat)
    requires len <= |js|
    ensures ScanPrimitive(js, len, i) == End(e) <==>
      && i <= e < len && IsDelimiter(js[e])
      && forall k :: i <= k < e ==> IsPrintable(js[k]) && !IsDelimiter(js[k])
    decreases |js| - i
  {
    if Live(js, len, i) && !IsDelimiter(js[i]) {
      ScanPrimitiveExactly(js, len, i + 1, e);
    }
  }

  // ---- what is still open ----

  /** The finished trees at the top, or inside the innermost open object or array. */
  datatype Context =
    | Top(done: seq<Tree>)
    | Inside(outer: Context, kind: Kind, start: nat, done: seq<Tree>)
  {
    function Add(t: Tree): (c: Context) {
      this.(done := done + [t])
    }
  }

  /** The tokens so far.  An open token already counts the open child inside it. */
  function Layout(c: Context, open: nat): (r: seq<Tok>) {
    match c
    case Top(done) => Tokens(done)
    case Inside(outer, kind, start, done) => Layout(outer, 1) + [Tok(kind, start, -1, |done| + open)] + Tokens(done)
  }

  /** The index of the innermost open token, or -1. */
  function Super(c: Context): (i: int)
    ensures -1 <= i < |Layout(c, 0)|
  {
    if c.Top? then -1 else |Layout(c.outer, 1)|
  }

  lemma LayoutLength(c: Context, open: nat)
    ensures |Layout(c, open)| == |Layout(c, 0)|
  {
  }

  lemma LayoutAdd(c: Context, t: Tree)
    ensures Layout(c.Add(t), 0) == Layout(c, 1) + TreeTokens(t)
  {
    TokensSnoc(c.done, t);
  }

  lemma LayoutAddLength(c: Context, t: Tree)
    ensures |Layout(c.Add(t), 0)| == |Layout(c, 0)| + |TreeTokens(t)|
  {
    LayoutAdd(c, t);
    LayoutLength(c, 1);
  }

  lemma AddAll(c: Context, f: seq<Tree>)
    requires f != []
    ensures c.Add(f[0]).(done := c.Add(f[0]).done + f[1..]) == c.(done := c.done + f)
  {
    assert c.done + [f[0]] + f[1..] == c.done + f;
  }

  // ---- the machine ----

  datatype Outcome = Done(forest: seq<Tree>) | NoMem | Invalid | Partial

  /** One turn of the main loop: go on from a later position, or stop. */
  datatype Move = Go(i: nat, c: Context) | Stop(outcome: Outcome)

  function AddLeaf(scan: Scan, kind: Kind, start: nat, skip: nat, limit: nat, c: Context): (r: Move) {
    match scan
    case BadChar => Stop(Invalid)
    case CutShort => Stop(Partial)
    case End(at) =>
      if |Layout(c, 0)| >= limit then Stop(NoMem) else Go(at + skip, c.Add(Tree(kind, start, at, [])))
  }

  /** jsmn.c:164-260, with room for `limit` tokens. */
  function Turn(js: string, len: nat, limit: nat, i: nat, c: Context): (r: Move)
    requires len <= |js| && Live(js, len, i)
    ensures r.Go? ==> i < r.i <= len
  {
    if js[i] == '{' || js[i] == '[' then
      if |Layout(c, 0)| >= limit then Stop(NoMem)
      else Go(i + 1, Inside(c, if js[i] == '{' then Object else Array, i, []))
    else if js[i] == '}' || js[i] == ']' then
      if c.Top? || c.kind != (if js[i] == '}' then Object else Array) then Stop(Invalid)
      else Go(i + 1, c.outer.Add(Tree(c.kind, c.start, i + 1, c.done)))
    else if js[i] == '"' then
      AddLeaf(ScanString(js, len, i + 1), String, i + 1, 1, limit, c)
    else if IsBlank(js[i]) then Go(i + 1, c)
    else if StartsPrimitive(js[i]) then
      AddLeaf(ScanPrimitive(js, len, i), Primitive, i, 0, limit, c)
    else Stop(Invalid)
  }

  /** jsmn_parse from position i. */
  function Parse(js: string, len: nat, limit: nat, i: nat, c: Context): (r: Outcome)
    requires len <= |js|
    decreases |js| - i
  {
    if !Live(js, len, i) then
      if c.Top? then Done(c.done) else Partial
    else
      match Turn(js, len, limit, i, c)
      case Stop(outcome) => outcome
      case Go(i', c') => Parse(js, len, limit, i', c')
  }

  // ---- it accepts only forests that stand in the text ----

  /** The text before i is what the context records. */
  ghost predicate Reads(js: string, len: nat, c: Context, i: nat)
    requires len <= |js|
  {
    match c
    case Top(done) => Stands(js, len, done, 0, i)
    case Inside(outer, kind, start, done) =>
      && (kind.Object? || kind.Array?)
      && start < i <= len && js[start] == Opener(kind)
      && Reads(js, len, outer, start)
      && Stands(js, len, done, start + 1, i)
  }

  lemma ReadsAdd(js: string, len: nat, c: Context, t: Tree)
    requires len <= |js| && 0 <= From(t) <= To(t) <= len
    requires Reads(js, len, c, From(t)) && TreeStands(js, len, t)
    ensures Reads(js, len, c.Add(t), To(t))
  {
    StandsSnoc(js, len, c.done, if c.Top? then 0 else c.start + 1, t);
  }

  lemma ReadsBlank(js: string, len: nat, c: Context, i: nat)
    requires len <= |js| && i < len && Reads(js, len, c, i) && IsBlank(js[i])
    ensures Reads(js, len, c, i + 1)
  {
    StandsBlank(js, len, c.done, if c.Top? then 0 else c.start + 1, i);
  }

  lemma StringReads(js: string, len: nat, i: nat, at: nat, c: Context)
    requires len <= |js| && Live(js, len, i) && Reads(js, len, c, i)
    requires js[i] == '"' && ScanString(js, len, i + 1) == End(at)
    ensures Reads(js, len, c.Add(Tree(String, i + 1, at, [])), at + 1)
  {
    ScanStringExactly(js, len, i + 1, at);
    ReadsAdd(js, len, c, Tree(String, i + 1, at, []));
  }

  lemma PrimitiveReads(js: string, len: nat, i: nat, at: nat, c: Context)
    requires len <= |js| && Live(js, len, i) && Reads(js, len, c, i)
    requires StartsPrimitive(js[i]) && ScanPrimitive(js, len, i) == End(at)
    ensures Reads(js, len, c.Add(Tree(Primitive, i, at, [])), at)
  {
    ScanPrimitiveExactly(js, len, i, at);
    ReadsAdd(js, len, c, Tree(Primitive, i, at, []));
  }

  lemma CloseReads(js: string, len: nat, i: nat, c: Context)
    requires len <= |js| && i < len && Reads(js, len, c, i) && !c.Top? && js[i] == Closer(c.kind)
    ensures Reads(js, len, c.outer.Add(Tree(c.kind, c.start, i + 1, c.done)), i + 1)
  {
    ReadsAdd(js, len, c.outer, Tree(c.kind, c.start, i + 1, c.done));
  }

  lemma TurnReads(js: string, len: nat, limit: nat, i: nat, c: Context)
    requires len <= |js| && Live(js, len, i) && Reads(js, len, c, i)
    requires Turn(js, len, limit, i, c).Go?
    ensures var m := Turn(js, len, limit, i, c); Reads(js, len, m.c, m.i)
  {
    if js[i] == '{' || js[i] == '[' {
    } else if js[i] == '}' || js[i] == ']' {
      CloseReads(js, len, i, c);
    } else if js[i] == '"' {
      StringReads(js, len, i, ScanString(js, len, i + 1).at, c);
    } else if IsBlank(js[i]) {
      ReadsBlank(js, len, c, i);
    } else {
      PrimitiveReads(js, len, i, ScanPrimitive(js, len, i).at, c);
    }
  }

  lemma {:induction false} ParseSound(js: string, len: nat, limit: nat, i: nat, c: Context) returns (stop: nat)
    requires len <= |js| && i <= len && Reads(js, len, c, i)
    requires Parse(js, len, limit, i, c).Done?
    ensures i <= stop <= len && !Live(js, len, stop)
    ensures Stands(js, len, Parse(js, len, limit, i, c).forest, 0, stop)
    decreases |js| - i
  {
    if !Live(js, len, i) {
      stop := i;
    } else {
      TurnReads(js, len, limit, i, c);
      var m := Turn(js, len, limit, i, c);
      stop := ParseSound(js, len, limit, m.i, m.c);
    }
  }

  // ---- and every such forest, if there is room for its tokens ----

  lemma {:induction false} BlanksParsed(js: string, len: nat, limit: nat, i: nat, j: nat, c: Context)
    requires len <= |js| && j <= len && Blanks(js, i, j)
    ensures Parse(js, len, limit, i, c) == Parse(js, len, limit, j, c)
    decreases j - i
  {
    if i < j {
      assert IsBlank(js[i]);
      BlanksParsed(js, len, limit, i + 1, j, c);
    }
  }

  lemma LeafParsed(js: string, len: nat, limit: nat, t: Tree, c: Context)
    requires len <= |js| && (t.kind.String? || t.kind.Primitive?) && TreeStands(js, len, t)
    requires |Layout(c, 0)| < limit
    ensures 0 <= From(t) && Live(js, len, From(t))
    ensures Turn(js, len, limit, From(t), c) == Go(To(t), c.Add(t))
  {
    if t.kind.String? {
      ScanStringExactly(js, len, t.start, t.end);
    } else {
      ScanPrimitiveExactly(js, len, t.start, t.end);
      assert IsPrintable(js[t.start]);
    }
  }

  lemma {:induction false} TreeParsed(js: string, len: nat, limit: nat, t: Tree, c: Context)
    requires len <= |js| && TreeStands(js, len, t)
    requires |Layout(c, 0)| + |TreeTokens(t)| <= limit
    ensures 0 <= From(t) && Parse(js, len, limit, From(t), c) == Parse(js, len, limit, To(t), c.Add(t))
    decreases t, 0
  {
    if t.kind.String? || t.kind.Primitive? {
      LeafParsed(js, len, limit, t, c);
    } else {
      var inner := Inside(c, t.kind, t.start, []);
      LayoutLength(c, 1);
      ForestParsed(js, len, limit, t.children, t.start + 1, t.end - 1, inner);
      assert [] + t.children == t.children;
      assert Turn(js, len, limit, t.start, c) == Go(t.start + 1, inner);
      assert Turn(js, len, limit, t.end - 1, inner.(done := t.children)) == Go(t.end, c.Add(t));
    }
  }

  lemma {:induction false} ForestParsed(js: string, len: nat, limit: nat, f: seq<Tree>, i: nat, j: nat, c: Context)
    requires len <= |js| && Stands(js, len, f, i, j)
    requires |Layout(c, 0)| + |Tokens(f)| <= limit
    ensures Parse(js, len, limit, i, c) == Parse(js, len, limit, j, c.(done := c.done + f))
    decreases f, 1
  {
    if f == [] {
      assert c.done + f == c.done;
      BlanksParsed(js, len, limit, i, j, c);
    } else {
      BlanksParsed(js, len, limit, i, From(f[0]), c);
      TreeParsed(js, len, limit, f[0], c);
      LayoutAddLength(c, f[0]);
      AddAll(c, f);
      ForestParsed(js, len, limit, f[1..], To(f[0]), j, c.Add(f[0]));
    }
  }

  lemma TurnRoom(js: string, len: nat, limit: nat, i: nat, c: Context)
    requires len <= |js| && Live(js, len, i) && |Layout(c, 0)| <= limit
    ensures var m := Turn(js, len, limit, i, c); m.Go? ==> |Layout(m.c, 0)| <= limit && |Layout(m.c, 0)| <= |Layout(c, 0)| + 1
  {
    LayoutLength(c, 1);
    if !c.Top? && (js[i] == '}' || js[i] == ']') {
      LayoutAdd(c.outer, Tree(c.kind, c.start, i + 1, c.done));
    } else if js[i] == '"' && ScanString(js, len, i + 1).End? {
      LayoutAdd(c, Tree(String, i + 1, ScanString(js, len, i + 1).at, []));
    } else if StartsPrimitive(js[i]) && ScanPrimitive(js, len, i).End? {
      LayoutAdd(c, Tree(Primitive, i, ScanPrimitive(js, len, i).at, []));
    }
  }

  lemma {:induction false} ParseRoom(js: string, len: nat, limit: nat, i: nat, c: Context)
    requires len <= |js| && |Layout(c, 0)| <= limit
    requires Parse(js, len, limit, i, c).Done?
    ensures |Tokens(Parse(js, len, limit, i, c).forest)| <= limit
    decreases |js| - i
  {
    if Live(js, len, i) {
      TurnRoom(js, len, limit, i, c);
      var m := Turn(js, len, limit, i, c);
      ParseRoom(js, len, limit, m.i, m.c);
    }
  }

  /** jsmn_parse on a whole text. */
  function ParseAll(js: string, len: nat, limit: nat): (r: Outcome)
    requires len <= |js|
  {
    Parse(js, len, limit, 0, Top([]))
  }

  /** The forest fills the text up to its end or its first NUL. */
  ghost predicate Fills(js: string, len: nat, f: seq<Tree>)
    requires len <= |js|
  {
    exists stop: nat :: stop <= len && !Live(js, len, stop) && Stands(js, len, f, 0, stop)
  }

  /** The parser yields a forest exactly when that forest fills the text and its tokens fit. */
  lemma ParsesExactly(js: string, len: nat, limit: nat, f: seq<Tree>)
    requires len <= |js|
    ensures ParseAll(js, len, limit) == Done(f) <==> Fills(js, len, f) && |Tokens(f)| <= limit
  {
    if ParseAll(js, len, limit) == Done(f) {
      var stop := ParseSound(js, len, limit, 0, Top([]));
      ParseRoom(js, len, limit, 0, Top([]));
    }
    if Fills(js, len, f) && |Tokens(f)| <= limit {
      var stop: nat :| stop <= len && !Live(js, len, stop) && Stands(js, len, f, 0, stop);
      ForestParsed(js, len, limit, f, 0, stop, Top([]));
      assert [] + f == f;
    }
  }

  /** So a text has at most one reading. */
  lemma ReadingUnique(js: string, len: nat, f: seq<Tree>, g: seq<Tree>)
    requires len <= |js| && Fills(js, len, f) && Fills(js, len, g)
    ensures f == g
  {
    var limit := |Tokens(f)| + |Tokens(g)|;
    ParsesExactly(js, len, limit, f);
    ParsesExactly(js, len, limit, g);
  }

  // ---- how many tokens are needed ----

  lemma TurnMoreRoom(js: string, len: nat, limit: nat, i: nat, c: Context)
    requires len <= |js| && Live(js, len, i) && Turn(js, len, limit, i, c).Go?
    ensures forall more: nat :: limit <= more ==> Turn(js, len, more, i, c) == Turn(js, len, limit, i, c)
  {
  }

  lemma {:induction false} ParseMoreRoom(js: string, len: nat, limit: nat, more: nat, i: nat, c: Context)
    requires len <= |js| && limit <= more && Parse(js, len, limit, i, c) != NoMem
    ensures Parse(js, len, more, i, c) == Parse(js, len, limit, i, c)
    decreases |js| - i
  {
    if Live(js, len, i) {
      var m := Turn(js, len, limit, i, c);
      assert Turn(js, len, more, i, c) == m;
      if m.Go? {
        ParseMoreRoom(js, len, limit, more, m.i, m.c);
      }
    }
  }

  /** One token for each character is always enough. */
  lemma {:induction false} ParseEnoughRoom(js: string, len: nat, limit: nat, i: nat, c: Context)
    requires len <= |js| && i <= len && |Layout(c, 0)| + (len - i) <= limit
    ensures Parse(js, len, limit, i, c) != NoMem
    decreases |js| - i
  {
    if Live(js, len, i) {
      TurnRoom(js, len, limit, i, c);
      var m := Turn(js, len, limit, i, c);
      if m.Go? {
        ParseEnoughRoom(js, len, limit, m.i, m.c);
      }
    }
  }
}
