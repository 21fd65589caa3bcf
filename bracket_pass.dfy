/** The bracket pass of `json_to_tf` (the `\[[^{]*]` loop) over the streams list of a
    connection block: which closing braces gain a comma. */
module BracketPass {
  import opened Text
  import opened Scanner

  /** A line break and the indentation `json.dumps` writes after it. */
  predicate Indent(x: string)
  {
    |x| >= 1 && x[0] == '\n' && forall k :: 1 <= k < |x| ==> x[k] == ' '
  }

  /** A stream's opening brace and its lines before the cursor-field list, which open and
      close no list. */
  predicate StreamOpening(h: string)
  {
    |h| >= 1 && h[0] == '{' && '[' !in h && ']' !in h
  }

  /** An empty cursor-field list, then the primary-key line with an empty list. */
  function EmptyKeys(row: string): string
  {
    "[]" + row + "primary_key = []"
  }

  /** The first stream's closing brace, then the second stream's opening. */
  function Between(item: string, h2: string): string
  {
    item + "}" + item + h2
  }

  /** The last stream's lists, its closing brace written as `brace`, and the list's end. */
  function LastKeys(row: string, item: string, brace: string, close: string): string
  {
    EmptyKeys(row) + item + brace + close + "]"
  }

  /** The bracket pass over the streams list of a connection with two streams, as
      `json_to_tf` has it once every line is formatted, after lines that open no list and
      before lines that open or close none, as in a connection block: each stream opened by
      `h1` or `h2`, its keys indented by `row`, its braces by `item`, and the bracket that
      closes the list by `close`. The first match runs from the first stream's cursor field
      to its last `]`, since the next `{` comes before any further `]`, and holds no `}`; the
      second runs from the second stream's cursor field to the `]` that closes the list. So
      only the last stream's `}` gains a comma (`LastKeys` with `"},"`), and the one between
      the streams is left to the object-gap pass. */
  lemma StreamsListPass(pre: string, row: string, item: string, close: string, h1: string, h2: string,
                        rest: string)
    requires Indent(row) && Indent(item) && Indent(close) && |close| < |item| < |row|
    requires '[' !in pre && StreamOpening(h1) && StreamOpening(h2)
    requires '[' !in rest && ']' !in rest
    ensures Pass(ListLiteral, pre + "streams = " + "[" + item + h1 + EmptyKeys(row) + Between(item, h2)
                              + LastKeys(row, item, "}", close) + rest)
         == pre + "streams = " + "[" + item + h1 + EmptyKeys(row) + Between(item, h2)
            + LastKeys(row, item, "},", close) + rest
  {
    var a := pre + "streams = ";
    var b := item + h1;
    var t0 := EmptyKeys(row);
    var g1 := Between(item, h2);
    var t1 := LastKeys(row, item, "}", close);
    var t1' := LastKeys(row, item, "},", close);
    var s := a + "[" + b + t0 + g1 + t1 + rest;
    AppendAssoc(a + "[", item, h1);
    HeaderFree(pre);
    OpeningFree(item, h1);
    KeysFree(row);
    LastFree(row, item, close);
    BetweenFree(item, h2);
    StreamsFound(a, b, t0, g1, t1, rest);
    PassTwo(s, t0, t1);
    ReplaceAbsent(t0, "}", "},");
    ReplaceSelf(s, t0);
    assert Step(ListLiteral, s, t0) == s;
    LastStreamRewritten(row, item, close);
    assert Step(ListLiteral, s, t1) == Replace(s, t1, t1');
    var c := "]" + row + "primary_key = ";
    assert g1[|item| + 1 + |close|] == item[|close|];
    ChangeOnce(a, b, c, g1, t1, t1', rest, 2 + |item|, |t0| + |item| + 1 + |close|);
  }

  /** The pass over a text in which `findall` returns two matches. */
  lemma PassTwo(s: string, t0: string, t1: string)
    requires FindAll(ListLiteral, s, 0) == [t0, t1] && |t0| > 0 && |t1| > 0
    ensures Pass(ListLiteral, s) == Step(ListLiteral, Step(ListLiteral, s, t0), t1)
  {
    var founds := [t0, t1];
    assert founds[..1] == [t0] && [t0][..0] == [];
    assert RewriteAll(ListLiteral, s, [t0]) == Step(ListLiteral, s, t0);
  }

  lemma HeaderFree(pre: string)
    requires '[' !in pre
    ensures '[' !in pre + "streams = "
  {
    assert '[' !in "streams = ";
  }

  /** A stream's head holds a `{` before any `]`. */
  lemma OpeningFree(item: string, h: string)
    requires Indent(item) && StreamOpening(h)
    ensures BraceBeforeClose(item + h) && '[' !in item + h && ']' !in item + h
    ensures |item + h| > 0 && (item + h)[0] == '\n'
  {
    assert (item + h)[|item|] == h[0];
  }

  /** `t` is a match of the bracket pattern. */
  predicate ListToken(t: string)
  {
    |t| >= 2 && t[0] == '[' && t[|t| - 1] == ']' && '{' !in t
  }

  /** A `{` comes in `g` before any `]`. */
  ghost predicate BraceBeforeClose(g: string)
  {
    exists c :: 0 <= c < |g| && g[c] == '{' && forall k :: 0 <= k < c ==> g[k] != ']'
  }

  /** What the pass needs of the first stream's lists. */
  lemma KeysFree(row: string)
    requires Indent(row)
    ensures ListToken(EmptyKeys(row)) && '}' !in EmptyKeys(row)
    ensures !Contains(EmptyKeys(row), "}")
    ensures EmptyKeys(row) == "[" + ("]" + row + "primary_key = ") + "[]"
    ensures '[' !in "]" + row + "primary_key = "
  {
    var t := EmptyKeys(row);
    assert '{' !in "primary_key = []" && '}' !in "primary_key = []" && '[' !in "primary_key = ";
    assert '{' !in row && '}' !in row && '[' !in row;
    AbsentByFirst(t, "}");
  }

  /** What the pass needs of the last stream's lists: a match, which differs from the text
      where a scan could meet it at the other brackets. */
  lemma LastFree(row: string, item: string, close: string)
    requires Indent(row) && Indent(item) && Indent(close) && |close| < |item| < |row|
    ensures var t := LastKeys(row, item, "}", close);
            && ListToken(t) && t[1] == ']'
            && 2 + |item| < |t| && t[2 + |item|] == ' '
            && |EmptyKeys(row)| + |item| + 1 + |close| < |t| && t[|EmptyKeys(row)| + |item| + 1 + |close|] == ']'
  {
    KeysFree(row);
    var t := LastKeys(row, item, "}", close);
    assert t[2 + |item|] == row[|item|];
    assert '{' !in item && '{' !in close;
  }

  /** What the pass needs of the text between the two streams' lists. */
  lemma BetweenFree(item: string, h2: string)
    requires Indent(item) && StreamOpening(h2)
    ensures var g := Between(item, h2);
            && '[' !in g && BraceBeforeClose(g) && |g| > 2 * |item| + 1 && g[|item|] == '}'
            && forall k :: 0 <= k < |item| ==> g[|item| + 1 + k] == item[k]
  {
    var g := Between(item, h2);
    assert '[' !in item;
    assert g[2 * |item| + 1] == '{';
    assert forall k :: 0 <= k < 2 * |item| + 1 ==> g[k] != ']';
  }

  /** `'['` opens no list in a stretch without it. */
  lemma OpenFree(s: string, lo: nat, hi: nat)
    requires lo <= hi <= |s| && forall q :: lo <= q < hi ==> s[q] != '['
    ensures Quiet(ListLiteral, s, lo, hi)
  {
    forall q, e | lo <= q < hi && q < e <= |s| ensures !InLang(ListLiteral, s[q..e]) {
      assert s[q..e][0] == s[q];
    }
  }

  /** A match from `q` cannot end past `j` when a `{` at `c` comes before any `]` from `j` on. */
  lemma BraceFirst(s: string, q: nat, j: nat, c: nat)
    requires q < j <= c < |s| && s[c] == '{'
    requires forall k :: j <= k < c ==> s[k] != ']'
    ensures forall e :: j < e <= |s| ==> !InLang(ListLiteral, s[q..e])
  {
    forall e | j < e <= |s| ensures !InLang(ListLiteral, s[q..e]) {
      var f := s[q..e];
      if e - 1 <= c {
        assert f[|f| - 1] == s[e - 1];
      } else {
        assert f[c - q] == s[c];
      }
    }
  }

  /** The same, for a text laid out as `p + t + r` with a `{` in `r` before any `]`. */
  lemma BraceFirstAfter(p: string, t: string, r: string)
    requires |t| > 0 && BraceBeforeClose(r)
    ensures forall e :: |p| + |t| < e <= |p + t + r| ==> !InLang(ListLiteral, (p + t + r)[|p|..e])
  {
    var c :| 0 <= c < |r| && r[c] == '{' && forall k :: 0 <= k < c ==> r[k] != ']';
    var s := p + t + r;
    forall k | |p| + |t| <= k < |p| + |t| + c ensures s[k] != ']' {
      assert s[k] == r[k - |p| - |t|];
    }
    assert s[|p| + |t| + c] == r[c];
    BraceFirst(s, |p|, |p| + |t|, |p| + |t| + c);
  }

  /** A match from the start of `t` cannot end past it when no `]` follows. */
  lemma CloseNone(p: string, t: string, r: string)
    requires |t| > 0 && ']' !in r
    ensures forall e :: |p| + |t| < e <= |p + t + r| ==> !InLang(ListLiteral, (p + t + r)[|p|..e])
  {
    var s := p + t + r;
    forall e | |p| + |t| < e <= |s| ensures !InLang(ListLiteral, s[|p|..e]) {
      assert s[|p|..e][e - |p| - 1] == s[e - 1] == r[e - 1 - |p| - |t|];
    }
  }

  /** Nothing opens a list in a stretch without `[`. */
  lemma FreeQuiet(g: string, t: string, r: string)
    requires '[' !in g
    ensures Quiet(ListLiteral, g + t + r, 0, |g|)
  {
    forall q | 0 <= q < |g| ensures (g + t + r)[q] != '[' {
      assert (g + t + r)[q] == g[q];
    }
    OpenFree(g + t + r, 0, |g|);
  }

  /** `findall` over `a [ b t0 g1 t1 rest` finds `t0` and `t1`: the bracket after `a` is
      followed by a `{` before any `]`, `t0` cannot grow past the `{` in `g1`, and no `]`
      follows `t1`. */
  lemma StreamsFound(a: string, b: string, t0: string, g1: string, t1: string, rest: string)
    requires '[' !in a && '[' !in b && ']' !in b && BraceBeforeClose(b)
    requires ListToken(t0) && '[' !in g1 && BraceBeforeClose(g1) && ListToken(t1)
    requires '[' !in rest && ']' !in rest
    ensures FindAll(ListLiteral, a + "[" + b + t0 + g1 + t1 + rest, 0) == [t0, t1]
  {
    var g0 := a + "[" + b;
    var x := g0 + t0;
    var r0 := g1 + t1 + rest;
    AppendAssoc(x, g1, t1);
    AppendAssoc(x, g1 + t1, rest);
    AppendAssoc(g0, t0, r0);
    FirstGapQuiet(a, b, t0 + r0);
    BraceAppend(g1, t1 + rest);
    AppendAssoc(g1, t1, rest);
    BraceFirstAfter(g0, t0, r0);
    FindAllPiece(ListLiteral, g0, t0, r0);
    FreeQuiet(g1, t1, rest);
    CloseNone(g1, t1, rest);
    FindAllPiece(ListLiteral, g1, t1, rest);
    OpenFree(rest, 0, |rest|);
    FindAllQuiet(ListLiteral, rest, 0, |rest|);
  }

  /** A `{` before any `]` stays so when text is appended. */
  lemma BraceAppend(g: string, r: string)
    requires BraceBeforeClose(g)
    ensures BraceBeforeClose(g + r)
  {
    var c :| 0 <= c < |g| && g[c] == '{' && forall k :: 0 <= k < c ==> g[k] != ']';
    assert (g + r)[c] == '{';
    assert forall k :: 0 <= k < c ==> (g + r)[k] == g[k];
  }

  /** Before the first list only the streams bracket opens one, and a `{` follows it before
      any `]`. */
  lemma FirstGapQuiet(a: string, b: string, r: string)
    requires '[' !in a && ']' !in b && '[' !in b && BraceBeforeClose(b)
    ensures Quiet(ListLiteral, a + "[" + b + r, 0, |a + "[" + b|)
  {
    var s := a + "[" + b + r;
    var c :| 0 <= c < |b| && b[c] == '{' && forall k :: 0 <= k < c ==> b[k] != ']';
    forall q | 0 <= q < |a| ensures s[q] != '[' {
      assert s[q] == a[q];
    }
    OpenFree(s, 0, |a|);
    forall k | |a| + 1 <= k < |a| + 1 + c ensures s[k] != ']' {
      assert s[k] == b[k - |a| - 1];
    }
    assert s[|a| + 1 + c] == b[c];
    BraceFirst(s, |a|, |a| + 1, |a| + 1 + c);
    forall q | |a| + 1 <= q < |a| + 1 + |b| ensures s[q] != '[' {
      assert s[q] == b[q - |a| - 1];
    }
    OpenFree(s, |a| + 1, |a| + 1 + |b|);
  }

  /** The last stream's lists, rewritten: its `}` gains a comma. */
  lemma LastStreamRewritten(row: string, item: string, close: string)
    requires Indent(row) && Indent(item) && Indent(close)
    ensures Rewritten(ListLiteral, LastKeys(row, item, "}", close)) == LastKeys(row, item, "},", close)
  {
    KeysFree(row);
    var u := EmptyKeys(row) + item;
    assert '}' !in item && '}' !in close + "]";
    assert LastKeys(row, item, "}", close) == u + ("}" + (close + "]"));
    assert LastKeys(row, item, "},", close) == u + ("}," + (close + "]"));
    ReplaceSkipFree(u, "}" + (close + "]"), "}", "},");
    ReplaceFront("}", close + "]", "},");
    AbsentByFirst(close + "]", "}");
    ReplaceAbsent(close + "]", "}", "},");
  }

  /** A `[` whose `d`-th character differs from the pattern's starts no occurrence. */
  lemma OpenSkip(w: string, pat: string, rep: string, d: nat)
    requires d < |pat| && d <= |w| && ("[" + w)[d] != pat[d]
    ensures Replace("[" + w, pat, rep) == "[" + Replace(w, pat, rep)
  {
    NotAtBy("[" + w, pat, 0, d);
    ReplaceSkipPrefix("[", w, pat, rep);
  }

  /** In `a [ b [ c [ ] g1 t1 rest`, `t1` occurs once: it differs from the text at each of
      the three earlier brackets, at offsets 1, `d` and `e`. */
  lemma ChangeOnce(a: string, b: string, c: string, g1: string, t1: string, t1': string, rest: string,
                   e: nat, d: nat)
    requires '[' !in a && '[' !in b && '[' !in c && '[' !in g1 && '[' !in rest
    requires |t1| >= 2 && t1[0] == '[' && |b| > 0 && b[0] != t1[1]
    requires 2 <= e < 2 + |g1| && e < |t1| && g1[e - 2] != t1[e]
    requires |c| + 3 <= d < |c| + 3 + |g1| && d < |t1| && g1[d - |c| - 3] != t1[d]
    ensures Replace(a + "[" + b + ("[" + c + "[]") + g1 + t1 + rest, t1, t1')
            == a + "[" + b + ("[" + c + "[]") + g1 + t1' + rest
  {
    var w := "]" + (g1 + (t1 + rest));
    var w' := "]" + (g1 + (t1' + rest));
    assert '[' !in "]" + g1;
    TailOnce("]" + g1, t1, t1', rest);
    AppendAssoc("]", g1, t1 + rest);
    AppendAssoc("]", g1, t1' + rest);
    assert ("[" + w)[e] == g1[e - 2];
    OpenSkip(w, t1, t1', e);
    ReplaceSkipFree(c, "[" + w, t1, t1');
    var v := c + ("[" + w);
    assert ("[" + v)[d] == g1[d - |c| - 3];
    OpenSkip(v, t1, t1', d);
    var u := "[" + v;
    ReplaceSkipFree(b, u, t1, t1');
    assert ("[" + (b + u))[1] == b[0];
    OpenSkip(b + u, t1, t1', 1);
    ReplaceSkipFree(a, "[" + (b + u), t1, t1');
    Nested(a, b, c, g1, t1, rest);
    Nested(a, b, c, g1, t1', rest);
  }

  /** The text of `ChangeOnce`, grouped from the right. */
  lemma Nested(a: string, b: string, c: string, g1: string, t: string, rest: string)
    ensures a + "[" + b + ("[" + c + "[]") + g1 + t + rest
            == a + ("[" + (b + ("[" + (c + ("[" + ("]" + (g1 + (t + rest))))))))
  {
    var z := g1 + (t + rest);
    var k := "[" + c + "[]";
    assert k + z == "[" + (c + ("[" + ("]" + z)));
    var y := a + "[" + b;
    AppendAssoc(y + k + g1, t, rest);
    AppendAssoc(y + k, g1, t + rest);
    AppendAssoc(y, k, z);
    AppendAssoc(a + "[", b, k + z);
    AppendAssoc(a, "[", b + (k + z));
  }

  /** After the last bracket before the match, the match is replaced and the rest is kept. */
  lemma TailOnce(p: string, t: string, t': string, rest: string)
    requires |t| > 0 && t[0] == '[' && '[' !in p && '[' !in rest
    ensures Replace(p + (t + rest), t, t') == p + (t' + rest)
  {
    ReplaceSkipFree(p, t + rest, t, t');
    ReplaceFront(t, rest, t');
    AbsentByFirst(rest, t);
    ReplaceAbsent(rest, t, t');
  }

  // ---- the layout `json.dumps(indent=4)` gives a connection block ----

  /** Before a key of a stream, before a stream's braces, and before the bracket that closes
      the streams list, which sits in `configurations`, inside the connection. */
  const StreamRow: string := "\n                "
  const StreamItem: string := "\n            "
  const StreamsClose: string := "\n        "

  /** A stream's opening brace and its name, sync-mode and cursor-field keys. */
  function StreamHead(name: string, mode: string): string
  {
    "{" + StreamRow + "name = " + name + StreamRow + "sync_mode = " + mode + StreamRow + "cursor_field = "
  }

  /** A value with no bracket of either kind. */
  predicate Unbracketed(x: string)
  {
    '[' !in x && ']' !in x
  }

  lemma LayoutIndents()
    ensures Indent(StreamRow) && Indent(StreamItem) && Indent(StreamsClose)
    ensures |StreamsClose| < |StreamItem| < |StreamRow|
  {
  }

  lemma HeadOpens(name: string, mode: string)
    requires Unbracketed(name) && Unbracketed(mode)
    ensures StreamOpening(StreamHead(name, mode))
  {
    var r := StreamRow;
    assert Unbracketed(r) && Unbracketed("name = ") && Unbracketed("sync_mode = ") && Unbracketed("cursor_field = ");
    var h := "{" + r + "name = " + name + r + "sync_mode = " + mode + r + "cursor_field = ";
    assert h[0] == '{';
  }

  /** Two streams with empty cursor-field and primary-key lists, named `n1` and `n2` with
      sync modes `m1` and `m2`: the pass writes `},` after the second only. */
  lemma ConnectionStreamsPass(pre: string, n1: string, m1: string, n2: string, m2: string, rest: string)
    requires '[' !in pre && Unbracketed(n1) && Unbracketed(m1) && Unbracketed(n2) && Unbracketed(m2)
    requires Unbracketed(rest)
    ensures var row, item, close := StreamRow, StreamItem, StreamsClose;
            Pass(ListLiteral, pre + "streams = " + "[" + item + StreamHead(n1, m1) + EmptyKeys(row)
                              + Between(item, StreamHead(n2, m2)) + LastKeys(row, item, "}", close) + rest)
            == pre + "streams = " + "[" + item + StreamHead(n1, m1) + EmptyKeys(row)
               + Between(item, StreamHead(n2, m2)) + LastKeys(row, item, "},", close) + rest
  {
    LayoutIndents();
    HeadOpens(n1, m1);
    HeadOpens(n2, m2);
    StreamsListPass(pre, StreamRow, StreamItem, StreamsClose, StreamHead(n1, m1), StreamHead(n2, m2), rest);
  }
}
