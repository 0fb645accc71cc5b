/**
 JSON values as jsmn sees them: trees, their tokens in preorder, and where a tree stands in a text.
 jsmn treats ':' and ',' as blanks, and json.c compiles it with JSMN_STRICT.
 */
module JsonTree {

  /** jsmntype_t; Unset is the -1 of json_parse_input's extra token. */
  datatype Kind = Primitive | Object | Array | String | Unset

  /** jsmntok_t.  An object or array that is not closed yet has end == -1. */
  datatype Tok = Tok(kind: Kind, start: int, end: int, size: nat)

  datatype Tree = Tree(kind: Kind, start: nat, end: nat, children: seq<Tree>)

  function TreeTokens(t: Tree): (r: seq<Tok>)
    ensures |r| > 0
  {
    [Tok(t.kind, t.start, t.end, |t.children|)] + Tokens(t.children)
  }

  /** The tokens of a forest, parents before children. */
  function Tokens(f: seq<Tree>): (r: seq<Tok>) {
    if f == [] then [] else TreeTokens(f[0]) + Tokens(f[1..])
  }

  lemma {:induction false} TokensAppend(f: seq<Tree>, g: seq<Tree>)
    ensures Tokens(f + g) == Tokens(f) + Tokens(g)
  {
    if f == [] {
      assert f + g == g;
    } else {
      assert (f + g)[1..] == f[1..] + g;
      TokensAppend(f[1..], g);
    }
  }

  lemma TokensSnoc(f: seq<Tree>, t: Tree)
    ensures Tokens(f + [t]) == Tokens(f) + TreeTokens(t)
  {
    TokensAppend(f, [t]);
    assert Tokens([t]) == TreeTokens(t) + Tokens([]);
  }

  // ---- characters ----

  /** The text is followed by a NUL, as C strings are. */
  function At(js: string, i: nat): (c: char)
    requires i <= |js|
  {
    if i < |js| then js[i] else '\0'
  }

  /** The guard of every scan: inside the length given, and not at a NUL. */
  predicate Live(js: string, len: nat, i: nat)
    requires len <= |js|
  {
    i < len && js[i] != '\0'
  }

  predicate IsBlank(c: char) {
    c == '\t' || c == '\r' || c == '\n' || c == ':' || c == ',' || c == ' '
  }

  /** What may follow a primitive. */
  predicate IsDelimiter(c: char) {
    c == '\t' || c == '\r' || c == '\n' || c == ' ' || c == ',' || c == ']' || c == '}'
  }

  predicate StartsPrimitive(c: char) {
    c == '-' || '0' <= c <= '9' || c == 't' || c == 'f' || c == 'n'
  }

  predicate IsPrintable(c: char) {
    32 <= c as int < 127
  }

  predicate IsHex(c: char) {
    '0' <= c <= '9' || 'A' <= c <= 'F' || 'a' <= c <= 'f'
  }

  predicate IsSimpleEscape(c: char) {
    c == '"' || c == '/' || c == '\\' || c == 'b' || c == 'f' || c == 'r' || c == 'n' || c == 't'
  }

  function Opener(k: Kind): (c: char)
    requires k.Object? || k.Array?
  {
    if k.Object? then '{' else '['
  }

  function Closer(k: Kind): (c: char)
    requires k.Object? || k.Array?
  {
    if k.Object? then '}' else ']'
  }

  // ---- where a tree stands in a text ----

  /** js[i..e] is the inside of a string: plain characters and whole escapes. */
  ghost predicate Quoted(js: string, i: nat, e: nat)
    requires e <= |js|
    decreases e - i
  {
    || i == e
    || (i < e && js[i] != '\0' && js[i] != '"' && js[i] != '\\' && Quoted(js, i + 1, e))
    || (i + 2 <= e && js[i] == '\\' && IsSimpleEscape(js[i + 1]) && Quoted(js, i + 2, e))
    || (i + 6 <= e && js[i] == '\\' && js[i + 1] == 'u'
        && (forall k :: i + 2 <= k < i + 6 ==> IsHex(js[k])) && Quoted(js, i + 6, e))
  }

  ghost predicate Blanks(js: string, i: nat, j: nat)
    requires j <= |js|
  {
    i <= j && forall k :: i <= k < j ==> IsBlank(js[k])
  }

  /** The first character of a tree; a string token leaves out its quotes. */
  function From(t: Tree): (i: int) {
    if t.kind.String? then t.start - 1 else t.start
  }

  /** The first character after it. */
  function To(t: Tree): (i: nat) {
    if t.kind.String? then t.end + 1 else t.end
  }

  ghost predicate LeafStands(js: string, t: Tree)
    requires t.kind.String? || t.kind.Primitive?
  {
    && t.children == []
    && t.start <= t.end < |js|
    && if t.kind.String? then
      t.start > 0 && js[t.start - 1] == '"' && Quoted(js, t.start, t.end) && js[t.end] == '"'
    else
      && StartsPrimitive(js[t.start]) && t.start < t.end
      && (forall k :: t.start <= k < t.end ==> IsPrintable(js[k]) && !IsDelimiter(js[k]))
      && IsDelimiter(js[t.end])
  }

  ghost predicate TreeStands(js: string, len: nat, t: Tree)
    requires len <= |js|
    decreases t, 0
  {
    match t.kind
    case String => t.end < len && LeafStands(js, t)
    case Primitive => t.end < len && LeafStands(js, t)
    case Unset => false
    case _ =>
      && t.start + 2 <= t.end <= len
      && js[t.start] == Opener(t.kind) && js[t.end - 1] == Closer(t.kind)
      && Stands(js, len, t.children, t.start + 1, t.end - 1)
  }

  /** Between i and j the text holds the trees of f, one after the other, and blanks. */
  ghost predicate Stands(js: string, len: nat, f: seq<Tree>, i: nat, j: nat)
    requires len <= |js|
    decreases f, 1
  {
    && i <= j <= len
    && if f == [] then Blanks(js, i, j)
    else
      && i <= From(f[0]) <= To(f[0]) <= j && Blanks(js, i, From(f[0]))
      && TreeStands(js, len, f[0])
      && Stands(js, len, f[1..], To(f[0]), j)
  }

  lemma {:induction false} StandsBlank(js: string, len: nat, f: seq<Tree>, i: nat, j: nat)
    requires len <= |js| && j < len && Stands(js, len, f, i, j) && IsBlank(js[j])
    ensures Stands(js, len, f, i, j + 1)
  {
    if f != [] {
      StandsBlank(js, len, f[1..], To(f[0]), j);
    }
  }

  lemma {:induction false} StandsSnoc(js: string, len: nat, f: seq<Tree>, i: nat, t: Tree)
    requires len <= |js| && From(t) >= 0 && TreeStands(js, len, t) && To(t) <= len
    requires Stands(js, len, f, i, From(t))
    requires From(t) <= To(t)
    ensures Stands(js, len, f + [t], i, To(t))
  {
    if f == [] {
      assert f + [t] == [t] && [t][1..] == [];
      assert Stands(js, len, [], To(t), To(t));
    } else {
      assert (f + [t])[1..] == f[1..] + [t];
      StandsSnoc(js, len, f[1..], To(f[0]), t);
    }
  }
}
