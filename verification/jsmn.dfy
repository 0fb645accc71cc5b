/**
 The jsmn tokenizer itself (jsmn/jsmn.c, strict mode, without parent links): a parser object
 and a token array, both updated in place.
 */
module Jsmn {
  import opened JsonTree
  import opened JsmnMachine

  const ErrorNoMem: int := -1
  const ErrorInval: int := -2
  const ErrorPart: int := -3

  /** What jsmn_parse returns for an outcome. */
  function Code(o: Outcome): (r: int) {
    match o
    case Done(f) => |Tokens(f)|
    case NoMem => ErrorNoMem
    case Invalid => ErrorInval
    case Partial => ErrorPart
  }

  predicate IsOpen(t: Tok) {
    t.start != -1 && t.end == -1
  }

  /** i is the last open token, or -1 if there is none. */
  ghost predicate LastOpen(s: seq<Tok>, i: int) {
    && -1 <= i < |s|
    && (i >= 0 ==> IsOpen(s[i]))
    && forall k: nat :: i < k < |s| ==> !IsOpen(s[k])
  }

  lemma LastOpenUnique(s: seq<Tok>, i: int, j: int)
    requires LastOpen(s, i) && LastOpen(s, j)
    ensures i == j
  {
  }

  lemma {:induction false} TokensClosed(f: seq<Tree>)
    ensures forall t :: t in Tokens(f) ==> !IsOpen(t)
    decreases f, 1
  {
    if f != [] {
      TreeClosed(f[0]);
      TokensClosed(f[1..]);
    }
  }

  lemma {:induction false} TreeClosed(t: Tree)
    ensures forall k :: k in TreeTokens(t) ==> !IsOpen(k)
    decreases t, 0
  {
    TokensClosed(t.children);
  }

  /** toksuper is always the last open token. */
  lemma SuperIsLastOpen(c: Context, open: nat)
    ensures LastOpen(Layout(c, open), Super(c))
  {
    TokensClosed(c.done);
    var s, inner := Layout(c, open), Tokens(c.done);
    forall k: nat | Super(c) < k < |s| ensures !IsOpen(s[k]) {
      assert s[k] == inner[k - (|s| - |inner|)];
      assert s[k] in inner;
    }
  }

  /** Counting the new child in the open token around it. */
  lemma BumpedLayout(c: Context, more: seq<Tok>)
    requires !c.Top?
    ensures var s, i := Layout(c, 0) + more, Super(c);
      s[i := s[i].(size := s[i].size + 1)] == Layout(c, 1) + more
  {
  }

  /** Closing the innermost open token. */
  lemma ClosedLayout(c: Context, end: nat)
    requires !c.Top?
    ensures var s, i := Layout(c, 0), Super(c);
      s[i := s[i].(end := end)] == Layout(c.outer.Add(Tree(c.kind, c.start, end, c.done)), 0)
  {
    LayoutAdd(c.outer, Tree(c.kind, c.start, end, c.done));
  }

  /** What parsing a leaf from position `from` does: the scan's error and nothing else, or one more
      token if there is room. */
  ghost predicate LeafAdded(scan: Scan, kind: Kind, from: nat, start: nat, back: nat, num: nat,
                            before: seq<Tok>, after: seq<Tok>, pos: int, r: int)
  {
    if scan.End? && |before| < num then
      r == 0 && pos == scan.at - back && after == before + [Tok(kind, start, scan.at, 0)]
    else
      && r == (if scan.BadChar? then ErrorInval else if scan.CutShort? then ErrorPart else ErrorNoMem)
      && pos == from && after == before
  }

  /** With at least `num` tokens, parsing from (i, c) leads on from (i', c'). */
  ghost predicate Resumes(js: string, len: nat, num: nat, i: nat, c: Context, i': nat, c': Context)
    requires len <= |js|
  {
    forall more: nat :: num <= more ==> Parse(js, len, more, i', c') == Parse(js, len, more, i, c)
  }

  lemma ResumesOn(js: string, len: nat, num: nat, i: nat, c: Context, i': nat, c': Context)
    requires len <= |js| && Resumes(js, len, num, i, c, i', c') && Live(js, len, i') && Turn(js, len, num, i', c').Go?
    ensures var m := Turn(js, len, num, i', c'); Resumes(js, len, num, i, c, m.i, m.c)
  {
    TurnMoreRoom(js, len, num, i', c');
  }

  class Parser {
    var pos: nat
    var toknext: nat
    var toksuper: int

    /** jsmn_init, jsmn.c:277-281. */
    constructor ()
      ensures pos == 0 && toknext == 0 && toksuper == -1
    {
      pos, toknext, toksuper := 0, 0, -1;
    }

    /** The parser and the token array are at context c. */
    ghost predicate Holds(tokens: array<Tok>, c: Context)
      reads this, tokens
    {
      && toknext <= tokens.Length
      && tokens[..toknext] == Layout(c, 0)
      && toksuper == Super(c)
    }

    /** jsmn_alloc_token and jsmn_fill_token, jsmn.c:8-32. */
    method NewToken(tokens: array<Tok>, num: nat, t: Tok) returns (ok: bool)
      requires toknext <= tokens.Length && num <= tokens.Length
      modifies this`toknext, tokens
      ensures ok <==> old(toknext) < num
      ensures !ok ==> toknext == old(toknext) && tokens[..] == old(tokens[..])
      ensures ok ==> toknext == old(toknext) + 1 && tokens[..toknext] == old(tokens[..toknext]) + [t]
    {
      if toknext >= num {
        return false;
      }
      tokens[toknext] := t;
      toknext := toknext + 1;
      return true;
    }

    /** jsmn_parse_primitive, jsmn.c:37-81. */
    method ParsePrimitive(js: string, len: nat, tokens: array<Tok>, num: nat) returns (r: int)
      requires len <= |js| && toknext <= tokens.Length && num <= tokens.Length
      requires Live(js, len, pos) && StartsPrimitive(js[pos])
      modifies this`pos, this`toknext, tokens
      ensures toknext <= tokens.Length
      ensures LeafAdded(ScanPrimitive(js, len, old(pos)), Primitive, old(pos), old(pos), 1, num,
                        old(tokens[..toknext]), tokens[..toknext], pos, r)
    {
      var start := pos;
      while Live(js, len, pos) && !IsDelimiter(js[pos])
        invariant start <= pos <= len
        invariant ScanPrimitive(js, len, pos) == ScanPrimitive(js, len, start)
        modifies this`pos
        decreases len - pos
      {
        if !IsPrintable(js[pos]) {
          pos := start;
          return ErrorInval;
        }
        pos := pos + 1;
      }
      if !Live(js, len, pos) {
        pos := start;
        return ErrorPart;
      }
      var ok := NewToken(tokens, num, Tok(Primitive, start, pos, 0));
      if !ok {
        pos := start;
        return ErrorNoMem;
      }
      pos := pos - 1;
      return 0;
    }

    /** The four digits of \u, jsmn.c:125-137. */
    method SkipHex(js: string) returns (ok: bool)
      requires pos <= |js|
      modifies this`pos
      ensures ok <==> HexRun(js, old(pos), 4) >= 0
      ensures ok ==> pos == old(pos) + HexRun(js, old(pos), 4)
    {
      var i := 0;
      while i < 4 && At(js, pos) != '\0'
        invariant 0 <= i <= 4 && pos == old(pos) + i <= |js|
        invariant HexRun(js, old(pos), 4) < 0 <==> HexRun(js, pos, 4 - i) < 0
        invariant HexRun(js, pos, 4 - i) >= 0 ==> HexRun(js, old(pos), 4) == i + HexRun(js, pos, 4 - i)
      {
        if !IsHex(At(js, pos)) {
          return false;
        }
        pos := pos + 1;
        i := i + 1;
      }
      return true;
    }

    /** From a backslash to the last character of the escape, jsmn.c:115-144. */
    method SkipEscape(js: string) returns (ok: bool)
      requires pos < |js|
      modifies this`pos
      ensures ok <==> AfterEscape(js, old(pos) + 1) >= 0
      ensures ok ==> pos + 1 == AfterEscape(js, old(pos) + 1)
    {
      pos := pos + 1;
      if IsSimpleEscape(At(js, pos)) {
        return true;
      } else if At(js, pos) == 'u' {
        pos := pos + 1;
        ok := SkipHex(js);
        if ok {
          pos := pos - 1;
        }
      } else {
        return false;
      }
    }

    /** jsmn_parse_string, jsmn.c:86-148. */
    method ParseString(js: string, len: nat, tokens: array<Tok>, num: nat) returns (r: int)
      requires len <= |js| && toknext <= tokens.Length && num <= tokens.Length
      requires pos < len
      modifies this`pos, this`toknext, tokens
      ensures toknext <= tokens.Length
      ensures LeafAdded(ScanString(js, len, old(pos) + 1), String, old(pos), old(pos) + 1, 0, num,
                        old(tokens[..toknext]), tokens[..toknext], pos, r)
    {
      var start := pos;
      pos := pos + 1;
      while Live(js, len, pos) && js[pos] != '"'
        invariant start < pos <= |js|
        invariant ScanString(js, len, pos) == ScanString(js, len, start + 1)
        modifies this`pos
        decreases |js| - pos
      {
        if js[pos] == '\\' {
          var ok := SkipEscape(js);
          if !ok {
            pos := start;
            return ErrorInval;
          }
        }
        pos := pos + 1;
      }
      if !Live(js, len, pos) {
        pos := start;
        return ErrorPart;
      }
      var ok := NewToken(tokens, num, Tok(String, start + 1, pos, 0));
      if !ok {
        pos := start;
        return ErrorNoMem;
      }
      return 0;
    }

    /** tokens[toksuper].size++ if there is an open token. */
    method CountChild(tokens: array<Tok>, ghost c: Context, ghost more: seq<Tok>)
      requires toknext <= tokens.Length && toksuper == Super(c)
      requires tokens[..toknext] == Layout(c, 0) + more
      modifies tokens
      ensures tokens[..toknext] == Layout(c, 1) + more
    {
      if toksuper != -1 {
        BumpedLayout(c, more);
        tokens[toksuper] := tokens[toksuper].(size := tokens[toksuper].size + 1);
      }
    }

    /** '{' and '[', jsmn.c:166-183. */
    method Open(tokens: array<Tok>, num: nat, kind: Kind, ghost c: Context) returns (ok: bool)
      requires num <= tokens.Length && Holds(tokens, c)
      modifies this`toknext, this`toksuper, tokens
      ensures ok <==> |Layout(c, 0)| < num
      ensures ok ==> Holds(tokens, Inside(c, kind, pos, [])) && toknext == old(toknext) + 1
      ensures !ok ==> Holds(tokens, c)
    {
      ok := NewToken(tokens, num, Tok(kind, pos, -1, 0));
      if ok {
        CountChild(tokens, c, [Tok(kind, pos, -1, 0)]);
        toksuper := toknext - 1;
        LayoutLength(c, 1);
      }
    }

    /** The last open token at or below i, or -1. */
    method FindOpen(tokens: array<Tok>, from: int) returns (i: int)
      requires -1 <= from < toknext <= tokens.Length || (from == -1 && toknext == 0)
      requires forall k: nat :: from < k < toknext ==> !IsOpen(tokens[k])
      ensures LastOpen(tokens[..toknext], i)
    {
      i := from;
      while i >= 0 && !IsOpen(tokens[i])
        invariant -1 <= i <= from
        invariant forall k: nat :: i < k < toknext ==> !IsOpen(tokens[k])
      {
        i := i - 1;
      }
    }

    /** '}' and ']', jsmn.c:184-229. */
    method Close(tokens: array<Tok>, kind: Kind, ghost c: Context) returns (ok: bool)
      requires Holds(tokens, c)
      modifies this`toksuper, tokens
      ensures ok <==> !c.Top? && c.kind == kind
      ensures ok ==> Holds(tokens, c.outer.Add(Tree(kind, c.start, pos + 1, c.done)))
      ensures !ok ==> Holds(tokens, c)
    {
      SuperIsLastOpen(c, 0);
      var i := FindOpen(tokens, toknext - 1);
      LastOpenUnique(tokens[..toknext], i, Super(c));
      if i == -1 || tokens[i].kind != kind {
        return false;
      }
      ClosedLayout(c, pos + 1);
      tokens[i] := tokens[i].(end := pos + 1);
      ghost var c' := c.outer.Add(Tree(kind, c.start, pos + 1, c.done));
      assert tokens[..toknext] == Layout(c', 0);
      SuperIsLastOpen(c', 0);
      toksuper := FindOpen(tokens, i);
      LastOpenUnique(tokens[..toknext], toksuper, Super(c'));
      return true;
    }

    /** A string or a primitive, jsmn.c:230-253. */
    method Leaf(js: string, len: nat, tokens: array<Tok>, num: nat, ghost c: Context) returns (r: int)
      requires len <= |js| && num <= tokens.Length && Holds(tokens, c)
      requires Live(js, len, pos) && (js[pos] == '"' || StartsPrimitive(js[pos]))
      modifies this`pos, this`toknext, tokens
      ensures match Turn(js, len, num, old(pos), c)
        case Stop(o) => r == Code(o) < 0 && pos == old(pos) && Holds(tokens, c)
        case Go(i, c') => r == 0 && pos + 1 == i && Holds(tokens, c') && toknext == old(toknext) + 1
    {
      if js[pos] == '"' {
        r := ParseString(js, len, tokens, num);
      } else {
        r := ParsePrimitive(js, len, tokens, num);
      }
      if r < 0 {
        return;
      }
      ghost var m := Turn(js, len, num, old(pos), c);
      ghost var t := m.c.done[|c.done|];
      LayoutAdd(c, t);
      CountChild(tokens, c, TreeTokens(t));
    }

    /** One turn of the main loop, jsmn.c:164-260, and what it adds to count. */
    method Dispatch(js: string, len: nat, tokens: array<Tok>, num: nat, ghost c: Context) returns (r: int, added: nat)
      requires len <= |js| && num <= tokens.Length && Holds(tokens, c) && Live(js, len, pos)
      modifies this, tokens
      ensures match Turn(js, len, num, old(pos), c)
        case Stop(o) => r == Code(o) < 0 && pos == old(pos) && Holds(tokens, c)
        case Go(i, c') => r == 0 && pos + 1 == i && Holds(tokens, c') && toknext == old(toknext) + added
    {
      r, added := 0, 0;
      match js[pos]
      case '{' | '[' =>
        var ok := Open(tokens, num, if js[pos] == '{' then Object else Array, c);
        r, added := if ok then 0 else ErrorNoMem, 1;
      case '}' | ']' =>
        var ok := Close(tokens, if js[pos] == '}' then Object else Array, c);
        r := if ok then 0 else ErrorInval;
      case '\t' | '\r' | '\n' | ':' | ',' | ' ' =>
      case _ =>
        if js[pos] == '"' || StartsPrimitive(js[pos]) {
          r := Leaf(js, len, tokens, num, c);
          added := 1;
        } else {
          r := ErrorInval;
        }
    }

    /** jsmn_parse, jsmn.c:153-271, from wherever an earlier call has left the parser.  Its result counts
        the tokens of this call only.  After an error the parser can go on, with more tokens, as if it
        had had them from the start. */
    method JsmnParse(js: string, len: nat, tokens: array<Tok>, num: nat, ghost c: Context) returns (r: int, ghost c': Context)
      requires len <= |js| && num <= tokens.Length && Holds(tokens, c)
      modifies this, tokens
      ensures Holds(tokens, c')
      ensures match Parse(js, len, num, old(pos), c)
        case Done(f) => r == |Tokens(f)| - |Layout(c, 0)| >= 0 && c' == Top(f)
        case o => r == Code(o) < 0
      ensures Resumes(js, len, num, old(pos), c, pos, c')
    {
      c' := c;
      var count := 0;
      while Live(js, len, pos)
        invariant Holds(tokens, c') && count == toknext - old(toknext) >= 0
        invariant Resumes(js, len, num, old(pos), c, pos, c')
        decreases |js| - pos
      {
        ghost var m := Turn(js, len, num, pos, c');
        if m.Go? {
          ResumesOn(js, len, num, old(pos), c, pos, c');
        }
        var added;
        r, added := Dispatch(js, len, tokens, num, c');
        if r < 0 {
          return;
        }
        c' := m.c;
        count := count + added;
        pos := pos + 1;
      }
      r := Finish(tokens, count, c');
    }

    /** jsmn.c:263-270 */
    method Finish(tokens: array<Tok>, count: nat, ghost c: Context) returns (r: int)
      requires Holds(tokens, c)
      ensures r == if c.Top? then count else ErrorPart
    {
      SuperIsLastOpen(c, 0);
      var i := FindOpen(tokens, toknext - 1);
      LastOpenUnique(tokens[..toknext], i, Super(c));
      r := if i >= 0 then ErrorPart else count;
    }
  }
}
