/** Turning a configuration value into the text of a Terraform block (`json_to_tf` and
    `format_line`), and turning secret references into variable references
    (`add_var_to_secrets`). */
module Emitter {
  import opened Outcomes
  import opened Text
  import opened JsonValues
  import opened JsonDump
  import opened Scanner

  /** The key separator `json.dumps` was told to write. */
  const Sep: string := " = "

  /** `format_line`: a line without `" = "` is kept; a line with one is unpacked into key and
      value and the key loses its double quotes; a line with two raises ValueError, because
      `key, value = line.split(" = ")` gets too many values. */
  function FormatLine(line: string): (r: Result<string>)
    ensures r.Err? <==> TwiceApart(line, Sep)
    ensures r.Err? ==> r.error == ValueError
    ensures !Contains(line, Sep) ==> r == Ok(line)
  {
    SplitCount(line, Sep);
    SplitThree(line, Sep);
    if !Contains(line, Sep) then Ok(line)
    else
      var parts := Split(line, Sep);
      if |parts| != 2 then Err(ValueError)
      else Ok(Replace(parts[0], "\"", "") + Sep + parts[1])
  }

  /** A line whose only `" = "` is the one after the key: the value is kept verbatim and the
      key loses exactly its double quotes. */
  lemma {:induction false} FormatLineKeyValue(key: string, value: string)
    requires OnlyAt(key, Sep, value)
    ensures FormatLine(key + Sep + value) == Ok(Without(key, '"') + Sep + value)
  {
    var line := key + Sep + value;
    var k := |key|;
    assert line[k..k + 3] == Sep;
    SplitSkip(line, k, Sep);
    assert line[..k] == key && line[k + 3..] == value;
    SplitCount(value, Sep);
    SplitLeftmost(value, Sep);
    assert Split(line, Sep) == [key, value];
    assert OccursAt(line, Sep, k);
    ReplaceCharDelete(key, '"');
  }

  /** The list comprehension over the lines of the dump; the first failing line aborts it. */
  function FormatLines(lines: seq<string>): (r: Result<seq<string>>)
    ensures r.Ok? <==> forall i :: 0 <= i < |lines| ==> !TwiceApart(lines[i], Sep)
    ensures r.Err? ==> r.error == ValueError
    ensures r.Ok? ==> |r.value| == |lines|
                      && forall i :: 0 <= i < |lines| ==> FormatLine(lines[i]) == Ok(r.value[i])
  {
    if lines == [] then Ok([])
    else
      var first :- FormatLine(lines[0]);
      var rest :- FormatLines(lines[1..]);
      assert forall i :: 1 <= i < |lines| ==> lines[i] == lines[1..][i - 1];
      Ok([first] + rest)
  }

  /** `text.split("\n")`. */
  function Lines(text: string): (ls: seq<string>)
    ensures |ls| >= 1
  {
    Split(text, "\n")
  }

  /** What `json_to_tf` computes: dump, rewrite each line, then add a comma after every `}`
      inside each bracket run that holds no `{`. */
  function JsonTf(j: Json): (r: Result<string>)
    ensures r.Ok? <==> forall i :: 0 <= i < |Lines(Dumps(j))| ==> !TwiceApart(Lines(Dumps(j))[i], Sep)
  {
    var lines := FormatLines(Lines(Dumps(j)));
    if lines.Err? then Err(lines.error) else Ok(Pass(ListLiteral, Join(lines.value, "\n")))
  }

  method JsonToTf(j: Json) returns (r: Result<string>)
    ensures r == JsonTf(j)
  {
    var tfStr := Dumps(j);
    var lines := FormatLines(Lines(tfStr));
    if lines.Err? {
      return Err(lines.error);
    }
    tfStr := Join(lines.value, "\n");
    tfStr := RunPass(ListLiteral, tfStr);
    return Ok(tfStr);
  }

  method AddVarToSecrets(sourceTf: string) returns (r: string)
    ensures r == Pass(SecretRef, sourceTf)
  {
    r := RunPass(SecretRef, sourceTf);
  }

  /** The text of a secret reference `${x}`. */
  function SecretToken(x: string): string
  {
    "${" + x + "}"
  }

  /** A name the pattern rewrites: it does not start with `v`, `a` or `r` and holds no `$`,
      `}` or line break. */
  predicate SecretName(x: string)
  {
    |x| >= 1 && x[0] !in "var" && '$' !in x && '}' !in x && '\n' !in x
  }

  /** Every `$` of the text opens a reference starting with `v`, `a` or `r`, such as
      `${var.WORKSPACE_ID}`. */
  predicate VarOnly(g: string)
  {
    forall q :: 0 <= q < |g| && g[q] == '$' ==> q + 2 < |g| && g[q + 1] == '{' && g[q + 2] in "var"
  }

  /** No `}` comes before the first line break. */
  predicate BreakFirst(g: string)
  {
    forall e :: 0 <= e < |g| && g[e] == '}' ==> '\n' in g[..e]
  }

  /** A text holding secret references `${x}`, each with the text before it:
      `gap0 ${x0} gap1 ${x1} … last`. */
  function SecretPieces(refs: seq<(string, string)>): (r: seq<Piece>)
    ensures |r| == |refs|
    ensures forall i :: 0 <= i < |refs| ==> r[i] == Piece(refs[i].0, SecretToken(refs[i].1))
    decreases |refs|
  {
    if refs == [] then [] else [Piece(refs[0].0, SecretToken(refs[0].1))] + SecretPieces(refs[1..])
  }

  /** The same text with every reference turned into `${var.x}`. */
  function VarPieces(refs: seq<(string, string)>): (r: seq<Piece>)
    ensures |r| == |refs|
    ensures forall i :: 0 <= i < |refs| ==> r[i] == Piece(refs[i].0, "${var." + refs[i].1 + "}")
    decreases |refs|
  {
    if refs == [] then [] else [Piece(refs[0].0, "${var." + refs[0].1 + "}")] + VarPieces(refs[1..])
  }

  /** The shape of a Terraform block as `json_to_tf` writes it, one value per line: names the
      pattern rewrites, no other `$` than those of `${var.…}` references, and after each
      reference a line break before any further `}`. */
  ghost predicate SecretLayout(refs: seq<(string, string)>, last: string)
    decreases |refs|
  {
    if refs == [] then VarOnly(last)
    else
      && VarOnly(refs[0].0) && SecretName(refs[0].1)
      && (if |refs| == 1 then BreakFirst(last) else '\n' in refs[1].0 && BreakFirst(refs[1].0))
      && SecretLayout(refs[1..], last)
  }

  lemma SecretTokenInLang(x: string)
    requires SecretName(x)
    ensures InLang(SecretRef, SecretToken(x))
  {
    var f := SecretToken(x);
    forall k | 3 <= k < |f| - 1 ensures f[k] != '\n' {
      assert f[k] == x[k - 2];
    }
  }

  lemma SecretTokenRewritten(x: string)
    requires '$' !in x
    ensures Rewritten(SecretRef, SecretToken(x)) == "${var." + x + "}"
  {
    assert SecretToken(x) == "${" + (x + "}");
    ReplaceFront("${", x + "}", "${var.");
    AbsentByFirst(x + "}", "${");
    ReplaceAbsent(x + "}", "${", "${var.");
  }

  /** No match of the pattern starts inside a `VarOnly` stretch. */
  lemma QuietVarOnly(g: string, rest: string)
    requires VarOnly(g)
    ensures Quiet(SecretRef, g + rest, 0, |g|)
  {
    var s := g + rest;
    forall q, e | 0 <= q < |g| && q < e <= |s| ensures !InLang(SecretRef, s[q..e]) {
      assert s[q] == g[q];
      if g[q] == '$' {
        assert s[q + 2] == g[q + 2];
      }
    }
  }

  /** A line break before any `}` ends every longer match at the reference's own `}`. */
  lemma SecretLongest(g: string, x: string, rest: string)
    requires BreakFirst(rest)
    ensures var s := g + SecretToken(x) + rest;
            forall e :: |g| + |SecretToken(x)| < e <= |s| ==> !InLang(SecretRef, s[|g|..e])
  {
    var t := SecretToken(x);
    var s := g + t + rest;
    forall e | |g| + |t| < e <= |s| ensures !InLang(SecretRef, s[|g|..e]) {
      var f := s[|g|..e];
      var m := e - |g| - |t| - 1;
      assert f[|f| - 1] == rest[m];
      if rest[m] == '}' {
        var n :| 0 <= n < m && rest[..m][n] == '\n';
        assert f[|t| + n] == rest[n];
      }
    }
  }

  /** A `BreakFirst` stretch that holds a line break keeps that property whatever follows. */
  lemma BreakFirstAppend(g: string, h: string)
    requires '\n' in g && BreakFirst(g)
    ensures BreakFirst(g + h)
  {
    var n :| 0 <= n < |g| && g[n] == '\n';
    forall e | 0 <= e < |g + h| && (g + h)[e] == '}' ensures '\n' in (g + h)[..e] {
      if e < |g| {
        assert (g + h)[..e] == g[..e];
      } else {
        assert (g + h)[..e][n] == '\n';
      }
    }
  }

  /** What `findall` sees in such a text: the references, in order. */
  lemma {:induction false} ScansSecret(refs: seq<(string, string)>, last: string)
    requires SecretLayout(refs, last)
    ensures Scans(SecretRef, SecretPieces(refs), last)
    decreases |refs|
  {
    if refs == [] {
      QuietVarOnly(last, []);
      assert last + [] == last;
    } else {
      var g, x := refs[0].0, refs[0].1;
      var rest := Laid(SecretPieces(refs[1..]), last);
      ScansSecret(refs[1..], last);
      if |refs| > 1 {
        var g1, t1 := refs[1].0, SecretToken(refs[1].1);
        assert rest == g1 + (t1 + Laid(SecretPieces(refs[2..]), last));
        BreakFirstAppend(g1, t1 + Laid(SecretPieces(refs[2..]), last));
      }
      assert g + SecretToken(x) + rest == g + (SecretToken(x) + rest);
      QuietVarOnly(g, SecretToken(x) + rest);
      SecretTokenInLang(x);
      SecretLongest(g, x, rest);
    }
  }

  /** A reference the pattern rewrites does not occur where a `VarOnly` stretch starts. */
  lemma GapClear(g: string, rest: string, x: string)
    requires VarOnly(g) && |x| >= 1 && x[0] !in "var"
    ensures forall q :: 0 <= q < |g| ==> !OccursAt(g + rest, SecretToken(x), q)
  {
    var s, f := g + rest, SecretToken(x);
    forall q | 0 <= q < |g| ensures !OccursAt(s, f, q) {
      assert s[q] == g[q];
      if g[q] == '$' {
        assert s[q + 2] == g[q + 2];
      }
    }
  }

  /** Nor inside another reference, before or after its rewriting. */
  lemma TokenClear(y: string, t: string, rest: string, x: string)
    requires SecretName(x) && SecretName(y)
    requires t == SecretToken(y) || t == "${var." + y + "}"
    requires t != SecretToken(x)
    ensures forall q :: 0 <= q < |t| ==> !OccursAt(t + rest, SecretToken(x), q)
  {
    var s, f := t + rest, SecretToken(x);
    forall q | 0 <= q < |t| ensures !OccursAt(s, f, q) {
      if q > 0 {
        assert s[q] == t[q];
        if t == SecretToken(y) {
          assert q == 1 || q == |t| - 1 || t[q] == y[q - 2];
        } else {
          assert q < 6 || q == |t| - 1 || t[q] == y[q - 6];
        }
      } else if |f| <= |s| {
        var w := s[..|f|];
        if t != SecretToken(y) {
          assert w[2] == 'v' && f[2] == x[0];
        } else if |y| > |x| {
          assert w[|x| + 2] == y[|x|] && f[|x| + 2] == '}';
        } else if |y| < |x| {
          assert w[|y| + 2] == '}' && f[|y| + 2] == x[|y|];
        } else {
          assert w == t;
        }
      }
    }
  }

  lemma AbsentVarOnly(last: string, x: string)
    requires VarOnly(last) && |x| >= 1 && x[0] !in "var"
    ensures !Contains(last, SecretToken(x))
  {
    GapClear(last, [], x);
    assert last + [] == last;
  }

  /** Whatever the loop has rewritten so far, a reference occurs only where a token equal to it
      starts. */
  lemma {:induction false} ClearSecret(refs: seq<(string, string)>, last: string, done: seq<string>, x: string)
    requires SecretLayout(refs, last) && SecretName(x)
    ensures Clear(SecretToken(x), Settle(SecretRef, SecretPieces(refs), done), last)
    decreases |refs|
  {
    if refs == [] {
      AbsentVarOnly(last, x);
    } else {
      var pieces := SecretPieces(refs);
      var t := SecretToken(refs[0].1);
      var st := Settle(SecretRef, pieces, done);
      assert pieces[1..] == SecretPieces(refs[1..]);
      assert st[1..] == Settle(SecretRef, pieces[1..], done);
      assert st[0] == Piece(refs[0].0, if t in done then Outcome(SecretRef, t) else t);
      ClearSecret(refs[1..], last, done, x);
      PieceClearSecret(refs[0].0, refs[0].1, Laid(Settle(SecretRef, pieces[1..], done), last), x, done);
      ClearFront(SecretToken(x), st, last, refs[0].0, if t in done then Outcome(SecretRef, t) else t,
                 Laid(Settle(SecretRef, pieces[1..], done), last));
    }
  }

  /** The first piece of a partly settled block holds no secret reference other than its own
      token. */
  lemma PieceClearSecret(g: string, y: string, rest: string, x: string, done: seq<string>)
    requires VarOnly(g) && SecretName(y) && SecretName(x)
    ensures var t := SecretToken(y);
            var t' := if t in done then Outcome(SecretRef, t) else t;
            && (forall q :: 0 <= q < |g| ==> !OccursAt(g + t' + rest, SecretToken(x), q))
            && (t' != SecretToken(x) ==> forall q :: 0 <= q < |t'| ==> !OccursAt(t' + rest, SecretToken(x), q))
  {
    var t := SecretToken(y);
    var t' := if t in done then Outcome(SecretRef, t) else t;
    SecretTokenRewritten(y);
    assert g + t' + rest == g + (t' + rest);
    GapClear(g, t' + rest, x);
    if t' != SecretToken(x) {
      TokenClear(y, t', rest, x);
    }
  }

  lemma {:induction false} LayoutNames(refs: seq<(string, string)>, last: string)
    requires SecretLayout(refs, last)
    ensures forall i :: 0 <= i < |refs| ==> SecretName(refs[i].1)
    decreases |refs|
  {
    if refs != [] {
      LayoutNames(refs[1..], last);
      assert forall i :: 1 <= i < |refs| ==> refs[i] == refs[1..][i - 1];
    }
  }

  /** A rewritten reference `${var.x}` is never one of the references found. */
  lemma DistinctSecret(refs: seq<(string, string)>)
    requires forall i :: 0 <= i < |refs| ==> SecretName(refs[i].1)
    ensures Distinct(SecretRef, SecretPieces(refs))
  {
  }

  lemma {:induction false} FinishedSecret(refs: seq<(string, string)>)
    requires forall i :: 0 <= i < |refs| ==> SecretName(refs[i].1)
    ensures Finished(SecretRef, SecretPieces(refs)) == VarPieces(refs)
    decreases |refs|
  {
    if refs != [] {
      SecretTokenRewritten(refs[0].1);
      assert forall i :: 1 <= i < |refs| ==> refs[i] == refs[1..][i - 1];
      FinishedSecret(refs[1..]);
      assert SecretPieces(refs)[1..] == SecretPieces(refs[1..]);
    }
  }

  /** `add_var_to_secrets` on a block laid out as `json_to_tf` writes it: every `${x}` whose
      name does not start with `v`, `a` or `r` becomes `${var.x}`, the `${var.…}` references
      already there and all other text stay as they are. */
  lemma SecretBecomesVar(refs: seq<(string, string)>, last: string)
    requires SecretLayout(refs, last)
    ensures Pass(SecretRef, Laid(SecretPieces(refs), last)) == Laid(VarPieces(refs), last)
  {
    var pieces := SecretPieces(refs);
    ScansSecret(refs, last);
    LayoutNames(refs, last);
    DistinctSecret(refs);
    forall i | 0 <= i < |pieces| && !Skipped(SecretRef, pieces[i].token)
      ensures Clear(pieces[i].token, Settle(SecretRef, pieces, Tokens(pieces)[..i]), last)
    {
      ClearSecret(refs, last, Tokens(pieces)[..i], refs[i].1);
    }
    PassLaid(SecretRef, pieces, last);
    FinishedSecret(refs);
  }

  /** A text whose every `$` opens a reference starting with `v`, `a` or `r`, such as
      `${var.WORKSPACE_ID}`, passes through unchanged. */
  lemma SecretRefKept(s: string)
    requires VarOnly(s)
    ensures Pass(SecretRef, s) == s
  {
    QuietVarOnly(s, []);
    assert s + [] == s;
    PassUntouched(SecretRef, s);
  }

  /** The text a greedy match covers when a secret reference `${x}` and, later on its line, a
      `${var.y}` reference meet: `${x}m${var.y}`. */
  function GreedyToken(x: string, m: string, y: string): string
  {
    "${" + x + "}" + m + "${var." + y + "}"
  }

  lemma GreedyTokenRewritten(x: string, m: string, y: string)
    requires '$' !in x && '$' !in m && '$' !in y
    ensures Rewritten(SecretRef, GreedyToken(x, m, y)) == "${var." + x + "}" + m + "${var.var." + y + "}"
  {
    var a, b := x + "}" + m, "var." + y + "}";
    assert GreedyToken(x, m, y) == "${" + a + "${" + b;
    ReplaceTwice("${", a, b, "${var.");
    assert "${var." + a + "${var." + b == "${var." + x + "}" + m + "${var.var." + y + "}";
  }

  /** Two copies of a pattern, each followed by text without its first character. */
  lemma ReplaceTwice(pat: string, a: string, b: string, rep: string)
    requires |pat| > 0 && pat[0] !in a && pat[0] !in b
    ensures Replace(pat + a + pat + b, pat, rep) == rep + a + rep + b
  {
    FrontThenFree(pat, a, pat + b, rep);
    FrontThenFree(pat, b, [], rep);
    assert pat + a + pat + b == pat + a + (pat + b);
    assert pat + b + [] == pat + b;
    ReplaceAbsentShort([], pat, rep);
    assert rep + b + [] == rep + b;
    assert rep + a + (rep + b) == rep + a + rep + b;
  }

  lemma FrontThenFree(pat: string, a: string, t: string, rep: string)
    requires |pat| > 0 && pat[0] !in a
    ensures Replace(pat + a + t, pat, rep) == rep + a + Replace(t, pat, rep)
  {
    assert pat + a + t == pat + (a + t);
    ReplaceFront(pat, a + t, rep);
    ReplaceSkipFree(a, t, pat, rep);
    assert rep + (a + Replace(t, pat, rep)) == rep + a + Replace(t, pat, rep);
  }

  lemma GreedyTokenInLang(x: string, m: string, y: string)
    requires SecretName(x) && '\n' !in m && '\n' !in y
    ensures InLang(SecretRef, GreedyToken(x, m, y))
  {
    var f := GreedyToken(x, m, y);
    var c := |x| + 3 + |m|;
    forall k | 3 <= k < |f| - 1 ensures f[k] != '\n' {
      assert k < |x| + 2 ==> f[k] == x[k - 2];
      assert |x| + 3 <= k < c ==> f[k] == m[k - |x| - 3];
      assert c + 6 <= k ==> f[k] == y[k - c - 6];
    }
  }

  /** The pattern's `.*` is greedy: on a line where a secret reference comes before a
      `${var.…}` reference, the single match runs to the last `}` of the line, and its rewrite
      turns the second reference into `${var.var.…}`. */
  lemma GreedyLine(g: string, x: string, m: string, y: string, rest: string)
    requires VarOnly(g) && VarOnly(rest) && BreakFirst(rest)
    requires SecretName(x) && '$' !in m && '\n' !in m && '$' !in y && '\n' !in y
    ensures Pass(SecretRef, g + GreedyToken(x, m, y) + rest)
         == g + "${var." + x + "}" + m + "${var.var." + y + "}" + rest
  {
    GreedyMatch(g, x, m, y, rest);
    GreedyTokenRewritten(x, m, y);
    assert g + ("${var." + x + "}" + m + "${var.var." + y + "}") + rest
        == g + "${var." + x + "}" + m + "${var.var." + y + "}" + rest;
  }

  /** Such a line is one match. */
  lemma GreedyMatch(g: string, x: string, m: string, y: string, rest: string)
    requires VarOnly(g) && VarOnly(rest) && BreakFirst(rest)
    requires SecretName(x) && '\n' !in m && '\n' !in y
    ensures Pass(SecretRef, g + GreedyToken(x, m, y) + rest) == g + Rewritten(SecretRef, GreedyToken(x, m, y)) + rest
  {
    var t := GreedyToken(x, m, y);
    assert g + t + rest == g + (t + rest);
    QuietVarOnly(g, t + rest);
    QuietVarOnly(rest, []);
    assert rest + [] == rest;
    GreedyTokenInLang(x, m, y);
    assert t == SecretToken(x + "}" + m + "${var." + y);
    SecretLongest(g, x + "}" + m + "${var." + y, rest);
    PassSingle(SecretRef, g, t, rest);
  }

  /** Two `VarOnly` texts joined are `VarOnly`. */
  lemma VarOnlyAppend(a: string, b: string)
    requires VarOnly(a) && VarOnly(b)
    ensures VarOnly(a + b)
  {
    var s := a + b;
    forall q | 0 <= q < |s| && s[q] == '$' ensures q + 2 < |s| && s[q + 1] == '{' && s[q + 2] in "var" {
      if q < |a| {
        assert s[q] == a[q] && s[q + 1] == a[q + 1] && s[q + 2] == a[q + 2];
      } else {
        assert s[q] == b[q - |a|] && s[q + 1] == b[q - |a| + 1] && s[q + 2] == b[q - |a| + 2];
      }
    }
  }

  lemma VarRefOnly(y: string)
    requires '$' !in y
    ensures VarOnly("${var." + y + "}")
  {
    var s := "${var." + y + "}";
    forall q | 0 <= q < |s| ensures s[q] == '$' ==> q == 0 {
      assert q < 6 || q == |s| - 1 || s[q] == y[q - 6];
    }
  }

  /** The name of the password secret in the block below. */
  const Password: string := "DB_PASSWORD"

  /** A source block as `json_to_tf` writes it, around a secret: the lines before the secret's
      value, and the lines after it, which hold the workspace reference. */
  const BlockHead: string := "{\n    configuration = {\n        password = \""
  const BlockTail: string := "\"\n" + "    }\n    workspace_id = \"" + "${var.WORKSPACE_ID}" + "\"\n}"

  lemma TailVarOnly()
    ensures VarOnly(BlockTail)
  {
    var a, m, w, b := "\"\n", "    }\n    workspace_id = \"", "${var.WORKSPACE_ID}", "\"\n}";
    assert '$' !in a && '$' !in m && '$' !in b;
    VarRefOnly("WORKSPACE_ID");
    assert "${var." + "WORKSPACE_ID" + "}" == w;
    VarOnlyAppend(a, m);
    VarOnlyAppend(a + m, w);
    VarOnlyAppend(a + m + w, b);
  }

  lemma TailBreakFirst()
    ensures BreakFirst(BlockTail)
  {
    var a, m, w, b := "\"\n", "    }\n    workspace_id = \"", "${var.WORKSPACE_ID}", "\"\n}";
    assert a[1] == '\n' && BreakFirst(a);
    BreakFirstAppend(a, m + w + b);
    assert a + m + w + b == a + (m + w + b);
  }

  lemma HeadVarOnly()
    ensures VarOnly(BlockHead)
  {
    assert '$' !in BlockHead;
  }

  /** In such a block the secret becomes a variable and the workspace reference is kept. */
  lemma SecretInBlock()
    ensures Pass(SecretRef, BlockHead + SecretToken(Password) + BlockTail)
         == BlockHead + "${var." + Password + "}" + BlockTail
  {
    TailVarOnly();
    TailBreakFirst();
    HeadVarOnly();
    assert SecretName(Password);
    SecretOnce(BlockHead, Password, BlockTail);
  }

  /** A text with one secret reference, laid out as a block: the reference becomes a
      variable and the rest is kept. */
  lemma SecretOnce(g: string, x: string, last: string)
    requires VarOnly(g) && SecretName(x) && VarOnly(last) && BreakFirst(last)
    ensures Pass(SecretRef, g + SecretToken(x) + last) == g + "${var." + x + "}" + last
  {
    var refs := [(g, x)];
    assert SecretLayout(refs[1..], last);
    assert SecretLayout(refs, last);
    SecretBecomesVar(refs, last);
    assert SecretPieces(refs)[1..] == [];
    assert VarPieces(refs)[1..] == [];
    assert Laid(SecretPieces(refs), last) == g + SecretToken(x) + last;
    assert Laid(VarPieces(refs), last) == g + "${var." + x + "}" + last;
  }
}
