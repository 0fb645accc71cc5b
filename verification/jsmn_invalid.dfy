/**
 Which texts jsmn calls invalid, and what it makes of texts that have only partly arrived.
 */
module JsmnInvalid {
  import opened JsonTree
  import opened JsmnMachine

  // ---- which texts are invalid ----

  /** Neither a simple escape nor \\u with hex digits as far as the text goes. */
  ghost predicate BadEscape(js: string, i: nat)
    requires i <= |js|
  {
    && !IsSimpleEscape(At(js, i))
    && (At(js, i) == 'u' ==> NotHex(js, i + 1, 4))
  }

  ghost predicate NotHex(js: string, i: nat, k: nat) {
    exists h: nat :: h < k && NotHexAt(js, i, h)
  }

  /** After h hex digits comes something else, and not the end. */
  ghost predicate NotHexAt(js: string, i: nat, h: nat) {
    && i + h < |js| && js[i + h] != '\0' && !IsHex(js[i + h])
    && forall d: nat :: i <= d < i + h ==> IsHex(js[d])
  }

  lemma {:induction false} HexRunBad(js: string, i: nat, k: nat)
    requires i <= |js|
    ensures HexRun(js, i, k) < 0 <==> NotHex(js, i, k)
    decreases k
  {
    if k > 0 && At(js, i) != '\0' {
      if !IsHex(At(js, i)) {
        assert NotHexAt(js, i, 0);
      } else {
        var i' := i + 1;
        HexRunBad(js, i', k - 1);
        if h: nat :| h < k - 1 && NotHexAt(js, i', h) {
          assert NotHexAt(js, i, h + 1);
        }
        if h: nat :| h < k && NotHexAt(js, i, h) {
          assert NotHexAt(js, i', h - 1);
        }
      }
    } else {
      HexRunEnds(js, i, k);
    }
  }

  lemma HexRunEnds(js: string, i: nat, k: nat)
    requires i <= |js| && (k == 0 || At(js, i) == '\0')
    ensures forall h: nat :: h < k ==> !NotHexAt(js, i, h)
  {
    forall h: nat | h < k ensures !NotHexAt(js, i, h) {
      assert h > 0 && i < |js| ==> !IsHex(js[i]);
    }
  }

  lemma AfterEscapeBad(js: string, i: nat)
    requires i <= |js|
    ensures AfterEscape(js, i) < 0 <==> BadEscape(js, i)
  {
    if At(js, i) == 'u' {
      HexRunBad(js, i + 1, 4);
    }
  }

  /** A string goes on whole up to k, where a bad escape stands. */
  ghost predicate BadStringAt(js: string, len: nat, i: nat, k: nat)
    requires len <= |js|
  {
    i <= k < len && Quoted(js, i, k) && js[k] == '\\' && BadEscape(js, k + 1)
  }

  ghost predicate BadString(js: string, len: nat, i: nat)
    requires len <= |js|
  {
    exists k: nat :: BadStringAt(js, len, i, k)
  }

  lemma {:induction false} ScanStringBadSound(js: string, len: nat, i: nat) returns (k: nat)
    requires len <= |js| && ScanString(js, len, i).BadChar?
    ensures BadStringAt(js, len, i, k)
    decreases |js| - i
  {
    if js[i] == '\\' {
      AfterEscapeBad(js, i + 1);
      var next := AfterEscape(js, i + 1);
      if next < 0 {
        k := i;
      } else {
        k := ScanStringBadSound(js, len, next);
        assert Live(js, len, next);
      }
    } else {
      k := ScanStringBadSound(js, len, i + 1);
    }
  }

  lemma {:induction false} ScanStringBadComplete(js: string, len: nat, i: nat, k: nat)
    requires len <= |js| && BadStringAt(js, len, i, k)
    ensures ScanString(js, len, i).BadChar?
    decreases k - i
  {
    AfterEscapeBad(js, k + 1);
    if i < k {
      if js[i] != '\0' && js[i] != '"' && js[i] != '\\' && Quoted(js, i + 1, k) {
        ScanStringBadComplete(js, len, i + 1, k);
      } else if i + 2 <= k && IsSimpleEscape(js[i + 1]) && Quoted(js, i + 2, k) {
        ScanStringBadComplete(js, len, i + 2, k);
      } else {
        ScanStringBadComplete(js, len, i + 6, k);
        assert HexRun(js, i + 2, 4) == 4;
      }
    }
  }

  lemma ScanStringBad(js: string, len: nat, i: nat)
    requires len <= |js|
    ensures ScanString(js, len, i).BadChar? <==> BadString(js, len, i)
  {
    if ScanString(js, len, i).BadChar? {
      var k := ScanStringBadSound(js, len, i);
    }
    if k: nat :| BadStringAt(js, len, i, k) {
      ScanStringBadComplete(js, len, i, k);
    }
  }

  /** A primitive goes on up to k, where a character stands that is none of the allowed ones. */
  ghost predicate BadPrimitiveAt(js: string, len: nat, i: nat, k: nat)
    requires len <= |js|
  {
    && i <= k && Live(js, len, k) && !IsDelimiter(js[k]) && !IsPrintable(js[k])
    && forall d: nat :: i <= d < k ==> IsPrintable(js[d]) && !IsDelimiter(js[d])
  }

  ghost predicate BadPrimitive(js: string, len: nat, i: nat)
    requires len <= |js|
  {
    exists k: nat :: BadPrimitiveAt(js, len, i, k)
  }

  lemma {:induction false} ScanPrimitiveBad(js: string, len: nat, i: nat)
    requires len <= |js|
    ensures ScanPrimitive(js, len, i).BadChar? <==> BadPrimitive(js, len, i)
    decreases |js| - i
  {
    if Live(js, len, i) && !IsDelimiter(js[i]) && IsPrintable(js[i]) {
      var i' := i + 1;
      ScanPrimitiveBad(js, len, i');
      if k: nat :| BadPrimitiveAt(js, len, i', k) {
        assert BadPrimitiveAt(js, len, i, k);
      }
      if k: nat :| BadPrimitiveAt(js, len, i, k) {
        assert BadPrimitiveAt(js, len, i', k);
      }
    } else if Live(js, len, i) && !IsDelimiter(js[i]) {
      assert BadPrimitiveAt(js, len, i, i);
    } else {
      NoBadPrimitive(js, len, i);
    }
  }

  lemma NoBadPrimitive(js: string, len: nat, i: nat)
    requires len <= |js| && (Live(js, len, i) ==> IsDelimiter(js[i]))
    ensures forall k: nat :: !BadPrimitiveAt(js, len, i, k)
  {
    forall k: nat ensures !BadPrimitiveAt(js, len, i, k) {
      assert i < k < len ==> i < |js| && (!IsPrintable(js[i]) || IsDelimiter(js[i]));
    }
  }

  predicate IsCloser(c: char) {
    c == '}' || c == ']'
  }

  /** What stands at i cannot follow what was read before it. */
  ghost predicate Offends(js: string, len: nat, c: Context, i: nat)
    requires len <= |js| && Live(js, len, i)
  {
    || (IsCloser(js[i]) && (c.Top? || c.kind != if js[i] == '}' then Object else Array))
    || (js[i] == '"' && BadString(js, len, i + 1))
    || (StartsPrimitive(js[i]) && BadPrimitive(js, len, i))
    || !(js[i] == '{' || js[i] == '[' || IsCloser(js[i]) || js[i] == '"' || IsBlank(js[i]) || StartsPrimitive(js[i]))
  }

  lemma TurnOffends(js: string, len: nat, limit: nat, i: nat, c: Context)
    requires len <= |js| && Live(js, len, i)
    ensures Turn(js, len, limit, i, c) == Stop(Invalid) <==> Offends(js, len, c, i)
  {
    if js[i] == '"' {
      ScanStringBad(js, len, i + 1);
    } else if StartsPrimitive(js[i]) {
      ScanPrimitiveBad(js, len, i);
    }
  }

  /** Up to some place the text reads well, and what stands there offends. */
  ghost predicate Spoilt(js: string, len: nat)
    requires len <= |js|
  {
    exists i: nat, c: Context :: SpoiltAt(js, len, i, c)
  }

  ghost predicate SpoiltAt(js: string, len: nat, i: nat, c: Context)
    requires len <= |js|
  {
    Live(js, len, i) && Reads(js, len, c, i) && Offends(js, len, c, i)
  }

  lemma {:induction false} ParseInvalid(js: string, len: nat, limit: nat, i: nat, c: Context)
    requires len <= |js| && i <= len && Reads(js, len, c, i) && Parse(js, len, limit, i, c) == Invalid
    ensures Spoilt(js, len)
    decreases |js| - i
  {
    if Live(js, len, i) {
      var m := Turn(js, len, limit, i, c);
      if m.Go? {
        TurnReads(js, len, limit, i, c);
        ParseInvalid(js, len, limit, m.i, m.c);
      } else {
        TurnOffends(js, len, limit, i, c);
        assert SpoiltAt(js, len, i, c);
      }
    }
  }

  /** No more tokens than characters. */
  lemma {:induction false} TreeFits(js: string, len: nat, t: Tree)
    requires len <= |js| && TreeStands(js, len, t)
    ensures 0 <= From(t) && |TreeTokens(t)| <= To(t) - From(t)
    decreases t, 0
  {
    if t.kind.Object? || t.kind.Array? {
      ForestFits(js, len, t.children, t.start + 1, t.end - 1);
    }
  }

  lemma {:induction false} ForestFits(js: string, len: nat, f: seq<Tree>, i: nat, j: nat)
    requires len <= |js| && Stands(js, len, f, i, j)
    ensures |Tokens(f)| <= j - i
    decreases f, 1
  {
    if f != [] {
      TreeFits(js, len, f[0]);
      ForestFits(js, len, f[1..], To(f[0]), j);
    }
  }

  lemma {:induction false} ContextFits(js: string, len: nat, c: Context, i: nat)
    requires len <= |js| && Reads(js, len, c, i)
    ensures |Layout(c, 0)| <= i
    decreases c
  {
    if c.Top? {
      ForestFits(js, len, c.done, 0, i);
    } else {
      ContextFits(js, len, c.outer, c.start);
      LayoutLength(c.outer, 1);
      ForestFits(js, len, c.done, c.start + 1, i);
    }
  }

  /** The parser gets to every context that the text reads as. */
  lemma {:induction false} ReadsReached(js: string, len: nat, limit: nat, c: Context, i: nat)
    requires len <= |js| <= limit && i <= len && Reads(js, len, c, i)
    ensures ParseAll(js, len, limit) == Parse(js, len, limit, i, c)
    decreases c
  {
    if c.Top? {
      ForestFits(js, len, c.done, 0, i);
      ForestParsed(js, len, limit, c.done, 0, i, Top([]));
      assert [] + c.done == c.done;
    } else {
      ReadsReached(js, len, limit, c.outer, c.start);
      ContextFits(js, len, c.outer, c.start);
      ForestFits(js, len, c.done, c.start + 1, i);
      InsideParsed(js, len, limit, c, i);
    }
  }

  lemma OpenerTurns(js: string, len: nat, limit: nat, i: nat, c: Context, kind: Kind)
    requires len <= |js| && i < len && (kind.Object? || kind.Array?) && js[i] == Opener(kind) && |Layout(c, 0)| < limit
    ensures Live(js, len, i) && Turn(js, len, limit, i, c) == Go(i + 1, Inside(c, kind, i, []))
  {
  }

  lemma InsideParsed(js: string, len: nat, limit: nat, c: Context, i: nat)
    requires len <= |js| && !c.Top? && (c.kind.Object? || c.kind.Array?)
    requires c.start < i <= len && js[c.start] == Opener(c.kind) && Stands(js, len, c.done, c.start + 1, i)
    requires |Layout(c.outer, 0)| + 1 + |Tokens(c.done)| <= limit
    ensures Parse(js, len, limit, c.start, c.outer) == Parse(js, len, limit, i, c)
  {
    var inner := Inside(c.outer, c.kind, c.start, []);
    LayoutLength(c.outer, 1);
    OpenerTurns(js, len, limit, c.start, c.outer, c.kind);
    ForestParsed(js, len, limit, c.done, c.start + 1, i, inner);
    assert [] + c.done == c.done;
  }

  /** Invalid means exactly that: a place up to which the text reads well, and what stands there offends. */
  lemma InvalidExactly(js: string, len: nat, limit: nat)
    requires len <= |js| <= limit
    ensures ParseAll(js, len, limit) == Invalid <==> Spoilt(js, len)
  {
    if ParseAll(js, len, limit) == Invalid {
      ParseInvalid(js, len, limit, 0, Top([]));
    }
    if i: nat, c: Context :| SpoiltAt(js, len, i, c) {
      ReadsReached(js, len, limit, c, i);
      TurnOffends(js, len, limit, i, c);
    }
  }

  // ---- texts that are cut short ----

  lemma {:induction false} ScanStringCut(js: string, n: nat, len: nat, i: nat)
    requires n <= len <= |js|
    ensures ScanString(js, n, i).CutShort? || ScanString(js, n, i) == ScanString(js, len, i)
    decreases |js| - i
  {
    if Live(js, n, i) && js[i] != '"' {
      if js[i] == '\\' {
        var next := AfterEscape(js, i + 1);
        if next >= 0 {
          ScanStringCut(js, n, len, next);
        }
      } else {
        ScanStringCut(js, n, len, i + 1);
      }
    }
  }

  lemma {:induction false} ScanPrimitiveCut(js: string, n: nat, len: nat, i: nat)
    requires n <= len <= |js|
    ensures ScanPrimitive(js, n, i).CutShort? || ScanPrimitive(js, n, i) == ScanPrimitive(js, len, i)
    decreases |js| - i
  {
    if Live(js, n, i) && !IsDelimiter(js[i]) && IsPrintable(js[i]) {
      ScanPrimitiveCut(js, n, len, i + 1);
    }
  }

  /** A part of a text is never invalid unless the text is. */
  lemma {:induction false} CutNotInvalid(js: string, n: nat, len: nat, limit: nat, i: nat, c: Context)
    requires n <= len <= |js| && Parse(js, n, limit, i, c) == Invalid
    ensures Parse(js, len, limit, i, c) == Invalid
    decreases |js| - i
  {
    if Live(js, n, i) {
      ScanStringCut(js, n, len, i + 1);
      ScanPrimitiveCut(js, n, len, i);
      var m := Turn(js, n, limit, i, c);
      assert Turn(js, len, limit, i, c) == m;
      if m.Go? {
        CutNotInvalid(js, n, len, limit, m.i, m.c);
      }
    }
  }

  /** So what has arrived of a text that some forest fills is never invalid. */
  lemma PrefixNotInvalid(js: string, f: seq<Tree>, n: nat)
    requires n <= |js| && Fills(js, |js|, f)
    ensures ParseAll(js, n, n) != Invalid
  {
    var limit := |js| + |Tokens(f)|;
    ParsesExactly(js, |js|, limit, f);
    if ParseAll(js, n, n) == Invalid {
      ParseMoreRoom(js, n, n, limit, 0, Top([]));
      CutNotInvalid(js, n, |js|, limit, 0, Top([]));
    }
  }

  // ---- buffers that are cut short ----

  /** The two texts agree on their first n characters. */
  ghost predicate Agree(js: string, js': string, n: nat) {
    n <= |js| && n <= |js'| && forall k: nat :: k < n ==> js[k] == js'[k]
  }

  lemma {:induction false} QuotedSame(js: string, js': string, n: nat, i: nat, e: nat)
    requires Agree(js, js', n) && e <= n
    ensures Quoted(js, i, e) <==> Quoted(js', i, e)
    decreases e - i
  {
    if i < e {
      QuotedSame(js, js', n, i + 1, e);
      if i + 2 <= e {
        QuotedSame(js, js', n, i + 2, e);
      }
      if i + 6 <= e {
        QuotedSame(js, js', n, i + 6, e);
        assert (forall k :: i + 2 <= k < i + 6 ==> IsHex(js[k])) <==> (forall k :: i + 2 <= k < i + 6 ==> IsHex(js'[k]));
      }
    }
  }

  lemma {:induction false} TreeStandsOn(js: string, n: nat, js': string, len: nat, t: Tree)
    requires n == |js| && Agree(js, js', n) && n <= len <= |js'| && TreeStands(js, n, t)
    ensures TreeStands(js', len, t)
    decreases t, 0
  {
    if t.kind.String? {
      QuotedSame(js, js', n, t.start, t.end);
    } else if t.kind.Object? || t.kind.Array? {
      StandsOn(js, n, js', len, t.children, t.start + 1, t.end - 1);
    }
  }

  lemma {:induction false} StandsOn(js: string, n: nat, js': string, len: nat, f: seq<Tree>, i: nat, j: nat)
    requires n == |js| && Agree(js, js', n) && n <= len <= |js'| && Stands(js, n, f, i, j)
    ensures Stands(js', len, f, i, j)
    decreases f, 1
  {
    if f != [] {
      TreeStandsOn(js, n, js', len, f[0]);
      StandsOn(js, n, js', len, f[1..], To(f[0]), j);
    }
  }

  lemma {:induction false} ReadsOn(js: string, n: nat, js': string, len: nat, c: Context, i: nat)
    requires n == |js| && Agree(js, js', n) && n <= len <= |js'| && Reads(js, n, c, i)
    ensures Reads(js', len, c, i)
    decreases c
  {
    StandsOn(js, n, js', len, c.done, if c.Top? then 0 else c.start + 1, i);
    if !c.Top? {
      ReadsOn(js, n, js', len, c.outer, c.start);
    }
  }

  /** The text ends right after a backslash inside a string. */
  ghost predicate EndsInEscape(js: string) {
    exists i: nat, c: Context :: EndsInEscapeAt(js, i, c)
  }

  ghost predicate EndsInEscapeAt(js: string, i: nat, c: Context) {
    && i + 1 < |js| && Reads(js, |js|, c, i) && js[i] == '"'
    && Quoted(js, i + 1, |js| - 1) && js[|js| - 1] == '\\'
  }

  lemma BadStringOn(js: string, js': string, i: nat, k: nat)
    requires Agree(js, js', |js|) && BadStringAt(js, |js|, i, k) && k + 1 < |js|
    ensures BadStringAt(js', |js'|, i, k)
  {
    QuotedSame(js, js', |js|, i, k);
    if At(js, k + 1) == 'u' {
      var k' := k + 2;
      var h: nat :| h < 4 && NotHexAt(js, k', h);
      assert NotHexAt(js', k', h);
    }
  }

  lemma OffendsOn(js: string, js': string, c: Context, i: nat)
    requires Agree(js, js', |js|) && Live(js, |js|, i) && Offends(js, |js|, c, i) && Reads(js, |js|, c, i)
    ensures Offends(js', |js'|, c, i) || EndsInEscapeAt(js, i, c)
  {
    if js[i] == '"' {
      var i' := i + 1;
      var k: nat :| BadStringAt(js, |js|, i', k);
      if k + 1 < |js| {
        BadStringOn(js, js', i', k);
      }
    } else if StartsPrimitive(js[i]) {
      var k: nat :| BadPrimitiveAt(js, |js|, i, k);
      assert BadPrimitiveAt(js', |js'|, i, k);
    }
  }

  /** A buffer that holds only the first part of a text that some forest fills is invalid if and only if
      it ends right after the backslash of an escape. */
  lemma CutBufferExactly(js: string, f: seq<Tree>, n: nat)
    requires n <= |js| && Fills(js, |js|, f)
    ensures ParseAll(js[..n], n, n) == Invalid <==> EndsInEscape(js[..n])
  {
    var cut := js[..n];
    assert Agree(cut, js, n);
    InvalidExactly(cut, n, n);
    var limit := |js| + |Tokens(f)|;
    ParsesExactly(js, |js|, limit, f);
    InvalidExactly(js, |js|, limit);
    if i: nat, c: Context :| SpoiltAt(cut, n, i, c) {
      ReadsOn(cut, n, js, |js|, c, i);
      OffendsOn(cut, js, c, i);
      assert Offends(js, |js|, c, i) ==> SpoiltAt(js, |js|, i, c);
    }
    if i: nat, c: Context :| EndsInEscapeAt(cut, i, c) {
      assert BadStringAt(cut, n, i + 1, n - 1);
      assert SpoiltAt(cut, n, i, c);
    }
  }
}
