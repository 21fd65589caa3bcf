/** The whole-document substitutions `clean_file_to_valid_tf` makes on the accumulated output
    before it is written, in their order. */
module Normalizer {
  import opened Text
  import opened Scanner

  const NamespaceRef: string := "${SOURCE_NAMESPACE}"
  const EscapedNamespaceRef: string := "$${SOURCE_NAMESPACE}"

  /** The data product names whose output gets the GitHub credentials fix. */
  const GithubMarker: string := "_github_"

  /** Lines 365-385: drop the quotes around every reference except the source-namespace one,
      escape that one for Terraform, pull each `{` up onto the line before it, and put a comma
      between a list and the next list and between a block and the next block. */
  function Prepared(s: string): string
  {
    var s1 := Pass(QuotedRef, s);
    var s2 := Replace(s1, NamespaceRef, EscapedNamespaceRef);
    var s3 := Replace(s2, "\n{", "{");
    var s4 := Pass(ArrayGap, s3);
    Pass(ObjectGap, s4)
  }

  /** A list of `s = s.replace(pattern, replacement)` steps. */
  predicate ValidRules(rules: seq<(string, string)>)
  {
    forall i :: 0 <= i < |rules| ==> |rules[i].0| > 0 && '\n' !in rules[i].0
  }

  /** The steps of a rule list, first to last. */
  function ApplyRules(s: string, rules: seq<(string, string)>): string
    requires ValidRules(rules)
    decreases |rules|
  {
    if rules == [] then s else ApplyRules(Replace(s, rules[0].0, rules[0].1), rules[1..])
  }

  /** Lines 392-397: comment out `definition_id`, rename the declarative-manifest resource
      type, and delete empty primary keys and cursor fields. */
  const FinalRules: seq<(string, string)> := [
    ("definition_id", "# definition_id"),
    ("airbyte_source_declarative_manifest", "airbyte_source_custom"),
    ("primary_key = []", ""),
    ("cursor_field = []", "")]

  lemma FinalRulesValid()
    ensures ValidRules(FinalRules)
  {
    assert forall i :: 0 <= i < 4 ==> '\n' !in FinalRules[i].0;
  }

  function Finish(s: string): string
  {
    FinalRulesValid();
    ApplyRules(s, FinalRules)
  }

  /** What `clean_file_to_valid_tf` leaves in `OUTPUT`; `fixGithub` stands for
      `fix_github_source`, applied when the data product name contains `_github_`. */
  function CleanText(s: string, dpName: string, fixGithub: string -> string): string
  {
    var s5 := Prepared(s);
    var s6 := if Contains(dpName, GithubMarker) then fixGithub(s5) else s5;
    Finish(s6)
  }

  // ---- the final substitutions ----

  /** The rules work on each line separately: none of them can reach across a line break. */
  lemma {:induction false} ApplyRulesAcross(a: string, b: string, rules: seq<(string, string)>)
    requires ValidRules(rules)
    ensures ApplyRules(a + "\n" + b, rules) == ApplyRules(a, rules) + "\n" + ApplyRules(b, rules)
    decreases |rules|
  {
    if rules != [] {
      ReplaceAcross(a, '\n', b, rules[0].0, rules[0].1);
      assert "\n" == ['\n'];
      ApplyRulesAcross(Replace(a, rules[0].0, rules[0].1), Replace(b, rules[0].0, rules[0].1), rules[1..]);
    }
  }

  lemma FinishAcross(a: string, b: string)
    ensures Finish(a + "\n" + b) == Finish(a) + "\n" + Finish(b)
  {
    FinalRulesValid();
    ApplyRulesAcross(a, b, FinalRules);
  }

  /** Each line with the final substitutions made. */
  function FinishEach(lines: seq<string>): (r: seq<string>)
    ensures |r| == |lines| && forall i :: 0 <= i < |lines| ==> r[i] == Finish(lines[i])
  {
    if lines == [] then [] else [Finish(lines[0])] + FinishEach(lines[1..])
  }

  /** The final substitutions rewrite a document line by line. */
  lemma {:induction false} FinishByLine(lines: seq<string>)
    ensures Finish(Join(lines, "\n")) == Join(FinishEach(lines), "\n")
    decreases |lines|
  {
    if |lines| > 1 {
      FinishByLine(lines[1..]);
      FinishAcross(lines[0], Join(lines[1..], "\n"));
      assert FinishEach(lines)[1..] == FinishEach(lines[1..]);
    }
  }

  /** A text in which no rule's pattern occurs goes through untouched. */
  lemma {:induction false} ApplyRulesAbsent(s: string, rules: seq<(string, string)>)
    requires ValidRules(rules)
    requires forall j :: 0 <= j < |rules| ==> !Contains(s, rules[j].0)
    ensures ApplyRules(s, rules) == s
    decreases |rules|
  {
    if rules != [] {
      ReplaceAbsent(s, rules[0].0, rules[0].1);
      ApplyRulesAbsent(s, rules[1..]);
    }
  }

  /** The first occurrence of rule `i`'s pattern, when it is the only one apart from any it
      overlaps, in a text where no earlier pattern occurs and no later pattern occurs once it
      is replaced, is replaced in place and nothing else changes. */
  lemma {:induction false} ApplyRulesIsolated(pre: string, post: string, rules: seq<(string, string)>, i: nat)
    requires ValidRules(rules) && i < |rules|
    requires OnlyAt(pre, rules[i].0, post)
    requires forall j :: 0 <= j < i ==> !Contains(pre + rules[i].0 + post, rules[j].0)
    requires forall j :: i < j < |rules| ==> !Contains(pre + rules[i].1 + post, rules[j].0)
    ensures ApplyRules(pre + rules[i].0 + post, rules) == pre + rules[i].1 + post
    decreases i
  {
    var s := pre + rules[i].0 + post;
    if i == 0 {
      ReplaceOnlyAt(pre, rules[0].0, post, rules[0].1);
      ApplyRulesAbsent(pre + rules[0].1 + post, rules[1..]);
    } else {
      ReplaceAbsent(s, rules[0].0, rules[0].1);
      assert rules[1..][i - 1] == rules[i];
      ApplyRulesIsolated(pre, post, rules[1..], i - 1);
    }
  }

  /** A document with none of the four patterns is left as it is. */
  lemma FinishUntouched(s: string)
    requires forall j :: 0 <= j < 4 ==> !Contains(s, FinalRules[j].0)
    ensures Finish(s) == s
  {
    FinalRulesValid();
    ApplyRulesAbsent(s, FinalRules);
  }

  /** A `definition_id`, the only one in the document, is commented out. */
  lemma CommentsDefinitionId(pre: string, post: string)
    requires OnlyAt(pre, "definition_id", post)
    requires forall j :: 1 <= j < 4 ==> !Contains(pre + "# definition_id" + post, FinalRules[j].0)
    ensures Finish(pre + "definition_id" + post) == pre + "# definition_id" + post
  {
    FinalRulesValid();
    ApplyRulesIsolated(pre, post, FinalRules, 0);
  }

  /** The declarative-manifest resource type, named once in the document, becomes the custom
      source type. */
  lemma RenamesManifestType(pre: string, post: string)
    requires OnlyAt(pre, "airbyte_source_declarative_manifest", post)
    requires !Contains(pre + "airbyte_source_declarative_manifest" + post, "definition_id")
    requires forall j :: 2 <= j < 4 ==> !Contains(pre + "airbyte_source_custom" + post, FinalRules[j].0)
    ensures Finish(pre + "airbyte_source_declarative_manifest" + post) == pre + "airbyte_source_custom" + post
  {
    FinalRulesValid();
    ApplyRulesIsolated(pre, post, FinalRules, 1);
  }

  /** An empty primary key, the only one in the document, is deleted. */
  lemma DeletesEmptyPrimaryKey(pre: string, post: string)
    requires OnlyAt(pre, "primary_key = []", post)
    requires forall j :: 0 <= j < 2 ==> !Contains(pre + "primary_key = []" + post, FinalRules[j].0)
    requires !Contains(pre + post, "cursor_field = []")
    ensures Finish(pre + "primary_key = []" + post) == pre + post
  {
    assert pre + "" + post == pre + post;
    FinalRulesValid();
    ApplyRulesIsolated(pre, post, FinalRules, 2);
  }

  /** An empty cursor field, the only one in the document, is deleted. */
  lemma DeletesEmptyCursorField(pre: string, post: string)
    requires OnlyAt(pre, "cursor_field = []", post)
    requires forall j :: 0 <= j < 3 ==> !Contains(pre + "cursor_field = []" + post, FinalRules[j].0)
    ensures Finish(pre + "cursor_field = []" + post) == pre + post
  {
    FinalRulesValid();
    ApplyRulesIsolated(pre, post, FinalRules, 3);
    assert pre + "" + post == pre + post;
  }

  // ---- the reference and bracket passes ----

  /** The text of a quoted reference `"${x}"`. */
  function QuotedToken(x: string): string
  {
    "\"${" + x + "}\""
  }

  lemma QuotedTokenInLang(x: string)
    requires '\n' !in x
    ensures InLang(QuotedRef, QuotedToken(x))
  {
    var f := QuotedToken(x);
    forall k | 3 <= k < |f| - 2 ensures f[k] != '\n' {
      assert f[k] == x[k - 3];
    }
  }

  /** Removing `"${` from `"${x}"` leaves `x}"`. */
  lemma QuoteOpenRemoved(x: string)
    requires '"' !in x
    ensures Replace(QuotedToken(x), "\"${", "") == x + "}\""
  {
    var t := x + "}\"";
    assert QuotedToken(x) == "\"${" + t;
    ReplaceFront("\"${", t, "");
    forall k | 0 <= k <= |t| - 3 ensures !OccursAt(t, "\"${", k) {
      assert t[k] == x[k];
      NotAtBy(t, "\"${", k, 0);
    }
    ReplaceAbsent(t, "\"${", "");
  }

  /** Removing `}"` from `x}"` leaves `x`. */
  lemma QuoteCloseRemoved(x: string)
    requires '"' !in x
    ensures Replace(x + "}\"", "}\"", "") == x
  {
    var t := x + "}\"";
    forall j | 0 <= j < |x| ensures !OccursAt(t, "}\"", j) {
      if j + 1 < |x| {
        assert t[j + 1] == x[j + 1];
      } else {
        assert t[j + 1] == '}';
      }
      NotAtBy(t, "}\"", j, 1);
    }
    ReplaceSkip(t, |x|, "}\"", "");
    assert t[..|x|] == x && t[|x|..] == "}\"";
    ReplaceFront("}\"", [], "");
    assert Replace([], "}\"", "") == [];
    assert "}\"" + [] == "}\"";
  }

  /** The rewrite of a quoted reference is the bare reference text. */
  lemma QuotedTokenRewritten(x: string)
    requires '"' !in x
    ensures Rewritten(QuotedRef, QuotedToken(x)) == x
  {
    QuoteOpenRemoved(x);
    QuoteCloseRemoved(x);
  }

  const Namespace: string := "SOURCE_NAMESPACE"

  lemma NamespaceTokenShape()
    ensures QuotedToken(Namespace) == "\"" + NamespaceRef + "\""
    ensures NamespaceRef[0] == '$'
  {
    assert NamespaceRef == "${" + Namespace + "}";
  }

  /** The pass leaves a quoted reference alone exactly when its text mentions the source
      namespace. */
  lemma NamespaceTokenSkipped(x: string)
    ensures Skipped(QuotedRef, QuotedToken(x)) <==> Contains(x, Namespace)
  {
    var t := QuotedToken(x);
    assert t == "\"${" + x + "}\"";
    if Contains(t, Namespace) {
      ContainedInMiddle("\"${", x, "}\"", Namespace);
    }
    if Contains(x, Namespace) {
      var k :| 0 <= k <= |x| - |Namespace| && OccursAt(x, Namespace, k);
      assert t[k + 3..k + 3 + |Namespace|] == x[k..k + |Namespace|];
      ContainsAt(t, Namespace, k + 3);
    }
  }

  /** A reference name as the blocks hold one: not empty, and no quote, `$`, `}` or line
      break. */
  predicate RefName(x: string)
  {
    |x| >= 1 && '"' !in x && '$' !in x && '}' !in x && '\n' !in x
  }

  /** No `}"` comes before the first line break. */
  predicate QuoteBreakFirst(g: string)
  {
    forall e :: 0 <= e < |g| - 1 && g[e] == '}' && g[e + 1] == '"' ==> '\n' in g[..e]
  }

  /** A document holding quoted references `"${x}"`, each with the text before it:
      `gap0 "${x0}" gap1 "${x1}" … last`. */
  function QuotedPieces(refs: seq<(string, string)>): (r: seq<Piece>)
    ensures |r| == |refs|
    ensures forall i :: 0 <= i < |refs| ==> r[i] == Piece(refs[i].0, QuotedToken(refs[i].1))
    decreases |refs|
  {
    if refs == [] then [] else [Piece(refs[0].0, QuotedToken(refs[0].1))] + QuotedPieces(refs[1..])
  }

  /** What the reference pass leaves of `"${x}"`: the bare `x`, or the quoted reference when
      it mentions the source namespace. */
  function Unquoted(x: string): string
  {
    if Contains(x, Namespace) then QuotedToken(x) else x
  }

  function UnquotedPieces(refs: seq<(string, string)>): (r: seq<Piece>)
    ensures |r| == |refs|
    ensures forall i :: 0 <= i < |refs| ==> r[i] == Piece(refs[i].0, Unquoted(refs[i].1))
    decreases |refs|
  {
    if refs == [] then [] else [Piece(refs[0].0, Unquoted(refs[0].1))] + UnquotedPieces(refs[1..])
  }

  /** Every `$` of a stretch opens a reference closed by a `}` later in the same stretch, as
      `${var.ENV}` and `${local.bigquery_gcp_project}` in the fixed blocks do. */
  predicate RefsClosed(g: string)
  {
    forall k :: 0 <= k < |g| && g[k] == '$' ==> '}' in g[k + 1..]
  }

  /** The text before a quoted reference `"${x}"`: no quoted reference starts in it, not even
      one running into the token, it holds no namespace reference, and its references are
      closed inside it. */
  ghost predicate PlainGap(g: string, x: string)
  {
    Quiet(QuotedRef, g + QuotedToken(x), 0, |g|) && !Contains(g, NamespaceRef) && RefsClosed(g)
  }

  /** The shape of the generated document, one value per line: quoted references with plain
      text between them, and after each reference a line break comes before any further `}"`. */
  ghost predicate QuotedLayout(refs: seq<(string, string)>, last: string)
    decreases |refs|
  {
    if refs == [] then Quiet(QuotedRef, last, 0, |last|) && !Contains(last, NamespaceRef)
    else
      && RefName(refs[0].1) && PlainGap(refs[0].0, refs[0].1)
      && (if |refs| == 1 then QuoteBreakFirst(last) else '\n' in refs[1].0 && QuoteBreakFirst(refs[1].0))
      && QuotedLayout(refs[1..], last)
  }

  /** A match starting before a token that ends in `}"` and running past it would, cut at the
      token's end, be a match already. */
  lemma QuietPastToken(g: string, t: string, rest: string)
    requires |t| >= 4 && t[|t| - 2] == '}' && t[|t| - 1] == '"'
    requires Quiet(QuotedRef, g + t, 0, |g|)
    ensures Quiet(QuotedRef, g + t + rest, 0, |g|)
  {
    var s, u := g + t + rest, g + t;
    forall q, e | 0 <= q < |g| && q < e <= |s| ensures !InLang(QuotedRef, s[q..e]) {
      if e <= |u| {
        assert s[q..e] == u[q..e];
      } else {
        var f, h := s[q..e], u[q..|u|];
        assert forall k :: 0 <= k < |h| ==> h[k] == f[k];
        assert h[|h| - 2] == '}' && h[|h| - 1] == '"';
        assert !InLang(QuotedRef, h);
      }
    }
  }

  /** No copy of `"${x}"` starts in the plain text before a token, whether the token is still
      quoted or already bare. */
  lemma GapClearAt(g: string, y: string, t: string, rest: string, x: string, q: nat)
    requires PlainGap(g, y) && RefName(y) && RefName(x) && QuoteBreakFirst(rest)
    requires t == QuotedToken(y) || t == y
    requires q < |g|
    ensures !OccursAt(g + t + rest, QuotedToken(x), q)
  {
    var s, u, f := g + t + rest, g + QuotedToken(y), QuotedToken(x);
    QuotedTokenInLang(x);
    if q + |f| > |s| {
    } else if q + |f| <= |g| || (t == QuotedToken(y) && q + |f| == |g| + 1) {
      assert s[q..q + |f|] == u[q..q + |f|];
      assert !InLang(QuotedRef, u[q..q + |f|]);
    } else if t == QuotedToken(y) {
      var d := |g| - q;
      assert s[q + d] == '"';
      assert d == 1 || d == 2 || d == |f| - 2 || f[d] == x[d - 3];
      NotAtBy(s, f, q, d);
    } else if q + |f| <= |g| + |y| {
      assert s[q + |f| - 1] == y[q + |f| - 1 - |g|];
      NotAtBy(s, f, q, |f| - 1);
    } else if q + |f| - 2 < |g| + |y| {
      assert s[q + |f| - 2] == y[q + |f| - 2 - |g|];
      NotAtBy(s, f, q, |f| - 2);
    } else {
      var m := q + |f| - 2 - |g| - |y|;
      assert s[q + |f| - 2] == rest[m] && s[q + |f| - 1] == rest[m + 1];
      if rest[m] != '}' {
        NotAtBy(s, f, q, |f| - 2);
      } else if rest[m + 1] != '"' {
        NotAtBy(s, f, q, |f| - 1);
      } else {
        var n :| 0 <= n < m && rest[..m][n] == '\n';
        var o := |g| + |y| + n - q;
        assert s[q + o] == rest[n];
        assert o == 1 || o == 2 || f[o] == x[o - 3];
        NotAtBy(s, f, q, o);
      }
    }
  }

  /** A line break before any `}"` ends every longer match at the reference's own `}"`. */
  lemma QuotedLongest(g: string, x: string, rest: string)
    requires QuoteBreakFirst(rest)
    ensures var s := g + QuotedToken(x) + rest;
            forall e :: |g| + |QuotedToken(x)| < e <= |s| ==> !InLang(QuotedRef, s[|g|..e])
  {
    var t := QuotedToken(x);
    var s := g + t + rest;
    forall e | |g| + |t| < e <= |s| ensures !InLang(QuotedRef, s[|g|..e]) {
      var f := s[|g|..e];
      var m := e - |g| - |t| - 2;
      if m < 0 {
        assert f[|f| - 2] == t[|t| - 1];
      } else {
        assert f[|f| - 2] == rest[m] && f[|f| - 1] == rest[m + 1];
        if rest[m] == '}' && rest[m + 1] == '"' {
          var n :| 0 <= n < m && rest[..m][n] == '\n';
          assert f[|t| + n] == rest[n];
        }
      }
    }
  }

  /** What `findall` sees in such a document: the quoted references, in order. */
  lemma {:induction false} ScansQuoted(refs: seq<(string, string)>, last: string)
    requires QuotedLayout(refs, last)
    ensures Scans(QuotedRef, QuotedPieces(refs), last)
    decreases |refs|
  {
    if refs != [] {
      var pieces := QuotedPieces(refs);
      assert pieces[1..] == QuotedPieces(refs[1..]);
      ScansQuoted(refs[1..], last);
      RestBreakFirst(refs, last);
      ScansQuotedFront(refs[0].0, refs[0].1, Laid(QuotedPieces(refs[1..]), last));
    }
  }

  /** The first reference of such a document is found where it stands. */
  lemma ScansQuotedFront(g: string, x: string, rest: string)
    requires RefName(x) && PlainGap(g, x) && QuoteBreakFirst(rest)
    ensures var t := QuotedToken(x);
            var s := g + t + rest;
            && Quiet(QuotedRef, s, 0, |g|) && InLang(QuotedRef, t)
            && forall e :: |g| + |t| < e <= |s| ==> !InLang(QuotedRef, s[|g|..e])
  {
    QuietPastToken(g, QuotedToken(x), rest);
    QuotedTokenInLang(x);
    QuotedLongest(g, x, rest);
  }

  /** The text after the first reference has no `}"` before a line break. */
  lemma RestBreakFirst(refs: seq<(string, string)>, last: string)
    requires refs != [] && QuotedLayout(refs, last)
    ensures QuoteBreakFirst(Laid(QuotedPieces(refs[1..]), last))
  {
    if |refs| > 1 {
      var g1, t1 := refs[1].0, QuotedToken(refs[1].1);
      var ps := QuotedPieces(refs[1..]);
      assert ps[1..] == QuotedPieces(refs[2..]);
      assert Laid(ps, last) == g1 + (t1 + Laid(QuotedPieces(refs[2..]), last));
      QuoteBreakFirstAppend(g1, t1 + Laid(QuotedPieces(refs[2..]), last));
    }
  }

  lemma QuoteBreakFirstAppend(g: string, h: string)
    requires '\n' in g && QuoteBreakFirst(g)
    ensures QuoteBreakFirst(g + h)
  {
    var n :| 0 <= n < |g| && g[n] == '\n';
    var s := g + h;
    forall e | 0 <= e < |s| - 1 && s[e] == '}' && s[e + 1] == '"' ensures '\n' in s[..e] {
      if e < |g| - 1 {
        assert s[..e] == g[..e] && s[e + 1] == g[e + 1];
      } else {
        assert e >= |g| || s[e] == g[e];
        assert s[..e][n] == '\n';
      }
    }
  }

  /** Inside another reference, before or after the pass has turned it into its bare name, a
      quoted reference does not occur either. */
  lemma TokenClearQuoted(y: string, t: string, rest: string, x: string)
    requires RefName(x) && RefName(y) && QuoteBreakFirst(rest)
    requires t == QuotedToken(y) || t == y
    requires t != QuotedToken(x)
    ensures forall q :: 0 <= q < |t| ==> !OccursAt(t + rest, QuotedToken(x), q)
  {
    var s, f := t + rest, QuotedToken(x);
    forall q | 0 <= q < |t| ensures !OccursAt(s, f, q) {
      if t == y {
        assert s[q] == y[q];
        NotAtBy(s, f, q, 0);
      } else if q == 0 {
        if |f| <= |s| {
          var w := s[..|f|];
          if |y| > |x| {
            assert w[|x| + 3] == y[|x|] && f[|x| + 3] == '}';
          } else if |y| < |x| {
            assert w[|y| + 3] == '}' && f[|y| + 3] == x[|y|];
          } else {
            assert w == t;
          }
        }
      } else if q == |t| - 1 {
        CloseQuoteClear(t, rest, x);
      } else {
        assert q < 3 || q == |t| - 2 || s[q] == y[q - 3];
        assert s[q] == t[q];
        NotAtBy(s, f, q, 0);
      }
    }
  }

  /** No quoted reference starts at a token's closing quote: it would need a `}"` before the
      next line break. */
  lemma CloseQuoteClear(t: string, rest: string, x: string)
    requires |t| > 0 && RefName(x) && QuoteBreakFirst(rest)
    ensures !OccursAt(t + rest, QuotedToken(x), |t| - 1)
  {
    var s, f, q := t + rest, QuotedToken(x), |t| - 1;
    if q + |f| <= |s| {
      var m := |f| - 3;
      assert s[q + |f| - 2] == rest[m] && s[q + |f| - 1] == rest[m + 1];
      if rest[m] != '}' {
        NotAtBy(s, f, q, |f| - 2);
      } else if rest[m + 1] != '"' {
        NotAtBy(s, f, q, |f| - 1);
      } else {
        var n :| 0 <= n < m && rest[..m][n] == '\n';
        assert s[q + 1 + n] == rest[n];
        assert n == 0 || n == 1 || f[1 + n] == x[n - 2];
        NotAtBy(s, f, q, 1 + n);
      }
    }
  }

  /** The text after the first piece has no `}"` before a line break. */
  lemma LeadBreakFirst(refs: seq<(string, string)>, last: string, done: seq<string>)
    requires refs != [] && QuotedLayout(refs, last)
    ensures QuoteBreakFirst(Laid(Settle(QuotedRef, QuotedPieces(refs[1..]), done), last))
  {
    var ps := Settle(QuotedRef, QuotedPieces(refs[1..]), done);
    if |refs| > 1 {
      assert ps[0].gap == refs[1].0;
      assert Laid(ps, last) == refs[1].0 + (ps[0].token + Laid(ps[1..], last));
      QuoteBreakFirstAppend(refs[1].0, ps[0].token + Laid(ps[1..], last));
    }
  }

  /** Whatever the loop has rewritten so far, a quoted reference occurs only where a token
      equal to it starts. */
  lemma {:induction false} ClearQuoted(refs: seq<(string, string)>, last: string, done: seq<string>, x: string)
    requires QuotedLayout(refs, last) && RefName(x)
    ensures Clear(QuotedToken(x), Settle(QuotedRef, QuotedPieces(refs), done), last)
    decreases |refs|
  {
    if refs == [] {
      var f := QuotedToken(x);
      QuotedTokenInLang(x);
      forall q | 0 <= q <= |last| - |f| ensures !OccursAt(last, f, q) {
        assert !InLang(QuotedRef, last[q..q + |f|]);
      }
    } else {
      var pieces := QuotedPieces(refs);
      var t := QuotedToken(refs[0].1);
      var st := Settle(QuotedRef, pieces, done);
      assert pieces[1..] == QuotedPieces(refs[1..]);
      assert st[1..] == Settle(QuotedRef, pieces[1..], done);
      assert st[0] == Piece(refs[0].0, if t in done then Outcome(QuotedRef, t) else t);
      ClearQuoted(refs[1..], last, done, x);
      LeadBreakFirst(refs, last, done);
      PieceClearQuoted(refs[0].0, refs[0].1, Laid(Settle(QuotedRef, pieces[1..], done), last), x, done);
      ClearFront(QuotedToken(x), st, last, refs[0].0, if t in done then Outcome(QuotedRef, t) else t,
                 Laid(Settle(QuotedRef, pieces[1..], done), last));
    }
  }

  /** The first piece of a partly settled document holds no quoted reference other than its
      own token. */
  lemma PieceClearQuoted(g: string, y: string, rest: string, x: string, done: seq<string>)
    requires PlainGap(g, y) && RefName(y) && RefName(x) && QuoteBreakFirst(rest)
    ensures var t := QuotedToken(y);
            var t' := if t in done then Outcome(QuotedRef, t) else t;
            && (forall q :: 0 <= q < |g| ==> !OccursAt(g + t' + rest, QuotedToken(x), q))
            && (t' != QuotedToken(x) ==> forall q :: 0 <= q < |t'| ==> !OccursAt(t' + rest, QuotedToken(x), q))
  {
    var t := QuotedToken(y);
    var t' := if t in done then Outcome(QuotedRef, t) else t;
    QuotedTokenRewritten(y);
    assert t' == t || t' == y;
    forall q | 0 <= q < |g| ensures !OccursAt(g + t' + rest, QuotedToken(x), q) {
      GapClearAt(g, y, t', rest, x, q);
    }
    if t' != QuotedToken(x) {
      TokenClearQuoted(y, t', rest, x);
    }
  }

  lemma {:induction false} LayoutRefNames(refs: seq<(string, string)>, last: string)
    requires QuotedLayout(refs, last)
    ensures forall i :: 0 <= i < |refs| ==> RefName(refs[i].1)
    decreases |refs|
  {
    if refs != [] {
      LayoutRefNames(refs[1..], last);
      assert forall i :: 1 <= i < |refs| ==> refs[i] == refs[1..][i - 1];
    }
  }

  /** A bare name is never one of the quoted references found. */
  lemma DistinctQuoted(refs: seq<(string, string)>)
    requires forall i :: 0 <= i < |refs| ==> RefName(refs[i].1)
    ensures Distinct(QuotedRef, QuotedPieces(refs))
  {
  }

  lemma {:induction false} FinishedQuoted(refs: seq<(string, string)>)
    requires forall i :: 0 <= i < |refs| ==> RefName(refs[i].1)
    ensures Finished(QuotedRef, QuotedPieces(refs)) == UnquotedPieces(refs)
    decreases |refs|
  {
    if refs != [] {
      QuotedTokenRewritten(refs[0].1);
      NamespaceTokenSkipped(refs[0].1);
      assert forall i :: 1 <= i < |refs| ==> refs[i] == refs[1..][i - 1];
      FinishedQuoted(refs[1..]);
      assert QuotedPieces(refs)[1..] == QuotedPieces(refs[1..]);
    }
  }

  /** The reference pass on a generated document: every `"${x}"` loses its quotes and braces,
      except those that mention the source namespace, which are kept as they are; all other
      text is kept. */
  lemma UnquotesReference(refs: seq<(string, string)>, last: string)
    requires QuotedLayout(refs, last)
    ensures Pass(QuotedRef, Laid(QuotedPieces(refs), last)) == Laid(UnquotedPieces(refs), last)
  {
    var pieces := QuotedPieces(refs);
    ScansQuoted(refs, last);
    LayoutRefNames(refs, last);
    DistinctQuoted(refs);
    forall i | 0 <= i < |pieces| && !Skipped(QuotedRef, pieces[i].token)
      ensures Clear(pieces[i].token, Settle(QuotedRef, pieces, Tokens(pieces)[..i]), last)
    {
      ClearQuoted(refs, last, Tokens(pieces)[..i], refs[i].1);
    }
    PassLaid(QuotedRef, pieces, last);
    FinishedQuoted(refs);
  }

  /** What the namespace escape leaves of `"${x}"` after the reference pass: the quoted
      reference with `$$` when it is exactly the source namespace, otherwise as before. */
  function Escaped(x: string): string
  {
    if x == Namespace then "\"" + EscapedNamespaceRef + "\"" else Unquoted(x)
  }

  function EscapedPieces(refs: seq<(string, string)>): (r: seq<Piece>)
    ensures |r| == |refs|
    ensures forall i :: 0 <= i < |refs| ==> r[i] == Piece(refs[i].0, Escaped(refs[i].1))
    decreases |refs|
  {
    if refs == [] then [] else [Piece(refs[0].0, Escaped(refs[0].1))] + EscapedPieces(refs[1..])
  }

  /** A quoted reference other than the namespace one holds no copy of the namespace
      reference. */
  lemma NamespaceRefNotIn(x: string, rest: string)
    requires RefName(x) && x != Namespace
    ensures var v := "${" + x + "}\"";
            forall j :: 0 <= j < |v| ==> !OccursAt(v + rest, NamespaceRef, j)
  {
    assert NamespaceRef == "${" + Namespace + "}";
    RefNotAt(x, Namespace, rest);
  }

  /** A quoted reference `${x}"` holds no copy of the reference `${n}` to another name. */
  lemma RefNotAt(x: string, n: string, rest: string)
    requires '$' !in x && '}' !in x && '}' !in n && x != n
    ensures var v := "${" + x + "}\"";
            forall j :: 0 <= j < |v| ==> !OccursAt(v + rest, "${" + n + "}", j)
  {
    var v := "${" + x + "}\"";
    var s, pat := v + rest, "${" + n + "}";
    RefNotAtFront(x, n, rest);
    forall j | 0 < j < |v| ensures !OccursAt(s, pat, j) {
      assert j == 1 || j == |v| - 2 || j == |v| - 1 || s[j] == x[j - 2];
      assert s[j] == v[j];
      NotAtBy(s, pat, j, 0);
    }
  }

  lemma RefNotAtFront(x: string, n: string, rest: string)
    requires '}' !in x && '}' !in n && x != n
    ensures !OccursAt("${" + x + "}\"" + rest, "${" + n + "}", 0)
  {
    var s, pat := "${" + x + "}\"" + rest, "${" + n + "}";
    if |x| > |n| {
      assert s[2 + |n|] == x[|n|] && pat[2 + |n|] == '}';
      NotAtBy(s, pat, 0, 2 + |n|);
    } else if |x| < |n| {
      assert s[2 + |x|] == '}' && pat[2 + |x|] == n[|x|];
      NotAtBy(s, pat, 0, 2 + |x|);
    } else {
      var i :| 0 <= i < |n| && x[i] != n[i];
      assert s[2 + i] == x[i] && pat[2 + i] == n[i];
      NotAtBy(s, pat, 0, 2 + i);
    }
  }

  lemma NamespaceRefFirst()
    ensures |NamespaceRef| > 0 && NamespaceRef[0] == '$'
  {
  }

  /** The namespace reference in quotes becomes the escaped one in quotes. */
  lemma NamespaceTokenEscaped(rest: string)
    ensures Replace("\"" + NamespaceRef + "\"" + rest, NamespaceRef, EscapedNamespaceRef)
            == "\"" + EscapedNamespaceRef + "\"" + Replace(rest, NamespaceRef, EscapedNamespaceRef)
  {
    var pat, rep := NamespaceRef, EscapedNamespaceRef;
    NamespaceRefFirst();
    assert "\"" + pat + "\"" + rest == "\"" + (pat + ("\"" + rest));
    ReplaceSkipFree("\"", pat + ("\"" + rest), pat, rep);
    ReplaceFront(pat, "\"" + rest, rep);
    ReplaceSkipFree("\"", rest, pat, rep);
    assert "\"" + rep + "\"" + Replace(rest, pat, rep) == "\"" + (rep + ("\"" + Replace(rest, pat, rep)));
  }

  /** Any other quoted reference is kept. */
  lemma OtherTokenKept(x: string, rest: string)
    requires RefName(x) && x != Namespace
    ensures Replace(QuotedToken(x) + rest, NamespaceRef, EscapedNamespaceRef)
            == QuotedToken(x) + Replace(rest, NamespaceRef, EscapedNamespaceRef)
  {
    NamespaceRefFirst();
    var v := "${" + x + "}\"";
    assert QuotedToken(x) == "\"" + v;
    NamespaceRefNotIn(x, rest);
    KeptAfterQuote(v, rest, NamespaceRef, EscapedNamespaceRef);
  }

  lemma KeptAfterQuote(v: string, rest: string, pat: string, rep: string)
    requires |pat| > 0 && pat[0] != '"'
    requires forall j :: 0 <= j < |v| ==> !OccursAt(v + rest, pat, j)
    ensures Replace("\"" + v + rest, pat, rep) == "\"" + v + Replace(rest, pat, rep)
  {
    assert "\"" + v + rest == "\"" + (v + rest);
    ReplaceSkipFree("\"", v + rest, pat, rep);
    ReplaceSkipPrefix(v, rest, pat, rep);
    assert "\"" + v + Replace(rest, pat, rep) == "\"" + (v + Replace(rest, pat, rep));
  }

  /** What the escape leaves of one reference after the reference pass. */
  lemma TokenEscaped(x: string, rest: string)
    requires RefName(x)
    ensures Replace(Unquoted(x) + rest, NamespaceRef, EscapedNamespaceRef)
            == Escaped(x) + Replace(rest, NamespaceRef, EscapedNamespaceRef)
  {
    if x == Namespace {
      NamespaceTokenShape();
      assert Contains(x, Namespace) by {
        assert OccursAt(x, Namespace, 0);
      }
      NamespaceTokenEscaped(rest);
    } else if Contains(x, Namespace) {
      OtherTokenKept(x, rest);
    } else {
      NamespaceRefFirst();
      ReplaceSkipFree(x, rest, NamespaceRef, EscapedNamespaceRef);
    }
  }

  /** The namespace reference has no `}` before its last character. */
  lemma NamespaceRefOpen()
    ensures |NamespaceRef| == 19 && NamespaceRef[0] == '$'
    ensures forall i :: 0 <= i < |NamespaceRef| - 1 ==> NamespaceRef[i] != '}'
  {
    assert NamespaceRef == "${" + Namespace + "}";
  }

  /** A stretch with no namespace reference, whose every `$` is closed inside it, holds no
      start of one whatever follows it: a start there would have that `}` inside it. */
  lemma GapNoNamespaceRef(g: string, u: string)
    requires !Contains(g, NamespaceRef) && RefsClosed(g)
    ensures forall j :: 0 <= j < |g| ==> !OccursAt(g + u, NamespaceRef, j)
  {
    var s, pat := g + u, NamespaceRef;
    NamespaceRefOpen();
    forall j | 0 <= j < |g| ensures !OccursAt(s, pat, j) {
      if j + |pat| <= |g| {
        assert !OccursAt(g, pat, j);
        assert s[j..j + |pat|] == g[j..j + |pat|];
      } else if g[j] != '$' {
        assert s[j] == g[j];
        NotAtBy(s, pat, j, 0);
      } else {
        var i :| 0 <= i < |g[j + 1..]| && g[j + 1..][i] == '}';
        assert s[j + 1 + i] == '}';
        NotAtBy(s, pat, j, 1 + i);
      }
    }
  }

  /** One piece under the namespace escape. */
  lemma PieceEscaped(g: string, x: string, rest: string)
    requires !Contains(g, NamespaceRef) && RefsClosed(g) && RefName(x)
    ensures Replace(g + Unquoted(x) + rest, NamespaceRef, EscapedNamespaceRef)
            == g + Escaped(x) + Replace(rest, NamespaceRef, EscapedNamespaceRef)
  {
    NamespaceRefFirst();
    TokenEscaped(x, rest);
    GapNoNamespaceRef(g, Unquoted(x) + rest);
    PieceReplaced(g, Unquoted(x), rest, NamespaceRef, EscapedNamespaceRef, Escaped(x));
  }

  /** A stretch holding no start of the pattern, then a token the replace turns into `w`. */
  lemma PieceReplaced(g: string, u: string, rest: string, pat: string, rep: string, w: string)
    requires |pat| > 0 && forall j :: 0 <= j < |g| ==> !OccursAt(g + (u + rest), pat, j)
    requires Replace(u + rest, pat, rep) == w + Replace(rest, pat, rep)
    ensures Replace(g + u + rest, pat, rep) == g + w + Replace(rest, pat, rep)
  {
    assert g + u + rest == g + (u + rest);
    ReplaceSkipPrefix(g, u + rest, pat, rep);
    assert g + (w + Replace(rest, pat, rep)) == g + w + Replace(rest, pat, rep);
  }

  /** The namespace escape on a document after the reference pass. */
  lemma {:induction false} EscapeLaid(refs: seq<(string, string)>, last: string)
    requires QuotedLayout(refs, last)
    ensures Replace(Laid(UnquotedPieces(refs), last), NamespaceRef, EscapedNamespaceRef)
            == Laid(EscapedPieces(refs), last)
    decreases |refs|
  {
    if refs == [] {
      NamespaceRefFirst();
      ReplaceAbsent(last, NamespaceRef, EscapedNamespaceRef);
    } else {
      assert UnquotedPieces(refs)[1..] == UnquotedPieces(refs[1..]);
      assert EscapedPieces(refs)[1..] == EscapedPieces(refs[1..]);
      EscapeLaid(refs[1..], last);
      PieceEscaped(refs[0].0, refs[0].1, Laid(UnquotedPieces(refs[1..]), last));
    }
  }

  /** The reference pass and then the namespace escape, on a generated document: every
      `"${x}"` becomes the bare `x`, those that mention the source namespace keep their quotes,
      and the namespace reference itself is escaped as `"$${SOURCE_NAMESPACE}"`. */
  lemma EscapesNamespace(refs: seq<(string, string)>, last: string)
    requires QuotedLayout(refs, last)
    ensures Replace(Pass(QuotedRef, Laid(QuotedPieces(refs), last)), NamespaceRef, EscapedNamespaceRef)
            == Laid(EscapedPieces(refs), last)
  {
    UnquotesReference(refs, last);
    EscapeLaid(refs, last);
  }

  /** Spaces around one line break. */
  lemma GapChars(gap: string)
    requires IsGapBody(gap)
    ensures |gap| > 0 && forall k :: 0 <= k < |gap| ==> gap[k] == ' ' || gap[k] == '\n'
  {
  }

  /** A closing bracket, spaces around one line break, and the next opening bracket. */
  function GapToken(p: Pattern, body: string): string
    requires p.ArrayGap? || p.ObjectGap?
  {
    [GapClose(p)] + body + [GapOpen(p)]
  }

  /** The same with a comma after the closing bracket. */
  function SeparatedToken(p: Pattern, body: string): string
    requires p.ArrayGap? || p.ObjectGap?
  {
    [GapClose(p), ','] + body + [GapOpen(p)]
  }

  lemma GapTokenInLang(p: Pattern, body: string)
    requires p.ArrayGap? || p.ObjectGap?
    requires IsGapBody(body)
    ensures InLang(p, GapToken(p, body))
  {
    var f := GapToken(p, body);
    GapChars(body);
    assert f[1..|f| - 1] == body;
  }

  /** Extending a gap match past its opening bracket puts that bracket inside the gap. */
  lemma GapLongestHere(p: Pattern, pre: string, body: string, post: string)
    requires p.ArrayGap? || p.ObjectGap?
    ensures var f := GapToken(p, body);
            forall e :: |pre| + |f| < e <= |pre + f + post| ==> !InLang(p, (pre + f + post)[|pre|..e])
  {
    var f := GapToken(p, body);
    var s := pre + f + post;
    forall e | |pre| + |f| < e <= |s| ensures !InLang(p, s[|pre|..e]) {
      var g := s[|pre|..e];
      assert f[1 + |body|] == GapOpen(p);
      assert g[1 + |body|] == s[|pre| + 1 + |body|] == f[1 + |body|];
      assert g[1..|g| - 1][|body|] == g[1 + |body|];
      NotGapForeign(g[1..|g| - 1], |body|);
    }
  }

  /** The rewrite of a gap match adds a comma after its closing bracket only. */
  lemma GapRewritten(p: Pattern, body: string)
    requires p.ArrayGap? || p.ObjectGap?
    requires IsGapBody(body)
    ensures Rewritten(p, GapToken(p, body)) == SeparatedToken(p, body)
  {
    var close, open := GapClose(p), GapOpen(p);
    GapChars(body);
    var t := body + [open];
    assert GapToken(p, body) == [close] + t;
    ReplaceFront([close], t, [close, ',']);
    AbsentByFirst(t, [close]);
    ReplaceAbsent(t, [close], [close, ',']);
    assert [close, ','] + t == SeparatedToken(p, body);
  }

  /** A document cut at its gap matches: `text0 gap0 text1 gap1 … last`, where each `gap` is
      a closing bracket, spaces around one line break and an opening bracket, and no text
      holds a match of its own. */
  function GapPieces(p: Pattern, refs: seq<(string, string)>): (r: seq<Piece>)
    requires p.ArrayGap? || p.ObjectGap?
    ensures |r| == |refs|
    ensures forall i :: 0 <= i < |refs| ==> r[i] == Piece(refs[i].0, GapToken(p, refs[i].1))
    decreases |refs|
  {
    if refs == [] then [] else [Piece(refs[0].0, GapToken(p, refs[0].1))] + GapPieces(p, refs[1..])
  }

  function SeparatedPieces(p: Pattern, refs: seq<(string, string)>): (r: seq<Piece>)
    requires p.ArrayGap? || p.ObjectGap?
    ensures |r| == |refs|
    ensures forall i :: 0 <= i < |refs| ==> r[i] == Piece(refs[i].0, SeparatedToken(p, refs[i].1))
    decreases |refs|
  {
    if refs == [] then [] else [Piece(refs[0].0, SeparatedToken(p, refs[0].1))] + SeparatedPieces(p, refs[1..])
  }

  ghost predicate GapLayout(p: Pattern, refs: seq<(string, string)>, last: string)
    requires p.ArrayGap? || p.ObjectGap?
  {
    && (forall i :: 0 <= i < |refs| ==> Quiet(p, refs[i].0, 0, |refs[i].0|) && IsGapBody(refs[i].1))
    && Quiet(p, last, 0, |last|)
  }

  lemma GapLayoutTail(p: Pattern, refs: seq<(string, string)>, last: string)
    requires p.ArrayGap? || p.ObjectGap?
    requires refs != [] && GapLayout(p, refs, last)
    ensures GapLayout(p, refs[1..], last)
    ensures Quiet(p, refs[0].0, 0, |refs[0].0|) && IsGapBody(refs[0].1)
  {
    assert forall i :: 1 <= i < |refs| ==> refs[1..][i - 1] == refs[i];
  }

  /** Text with no gap match of its own, followed by a closing bracket, still has none
      starting in it: a match reaching the bracket would have it inside the gap or last. */
  lemma QuietBeforeClose(p: Pattern, g: string, u: string)
    requires p.ArrayGap? || p.ObjectGap?
    requires Quiet(p, g, 0, |g|) && |u| > 0 && u[0] == GapClose(p)
    ensures Quiet(p, g + u, 0, |g|)
  {
    var s := g + u;
    forall q, e | 0 <= q < |g| && q < e <= |s| ensures !InLang(p, s[q..e]) {
      var f := s[q..e];
      if e <= |g| {
        assert f == g[q..e];
      } else {
        assert f[|g| - q] == GapClose(p);
        if e - 1 > |g| && |f| >= 3 {
          assert f[1..|f| - 1][|g| - q - 1] == GapClose(p);
          NotGapForeign(f[1..|f| - 1], |g| - q - 1);
        }
      }
    }
  }

  /** What `findall` sees: the gap matches, in order. */
  lemma {:induction false} ScansGap(p: Pattern, refs: seq<(string, string)>, last: string)
    requires p.ArrayGap? || p.ObjectGap?
    requires GapLayout(p, refs, last)
    ensures Scans(p, GapPieces(p, refs), last)
    decreases |refs|
  {
    if refs != [] {
      var g, b := refs[0].0, refs[0].1;
      var t := GapToken(p, b);
      var rest := Laid(GapPieces(p, refs[1..]), last);
      GapLayoutTail(p, refs, last);
      ScansGap(p, refs[1..], last);
      assert GapPieces(p, refs)[1..] == GapPieces(p, refs[1..]);
      assert g + t + rest == g + (t + rest);
      QuietBeforeClose(p, g, t + rest);
      GapTokenInLang(p, b);
      GapLongestHere(p, g, b, rest);
    }
  }

  /** A gap token, plain or separated, holds no other gap match: its first character is the
      only closing bracket in it, and a match there ends at its own opening bracket. */
  lemma TokenClearGap(p: Pattern, b: string, t: string, rest: string, y: string)
    requires p.ArrayGap? || p.ObjectGap?
    requires IsGapBody(b) && IsGapBody(y)
    requires t == GapToken(p, b) || t == SeparatedToken(p, b)
    requires t != GapToken(p, y)
    ensures forall q :: 0 <= q < |t| ==> !OccursAt(t + rest, GapToken(p, y), q)
  {
    var s, f := t + rest, GapToken(p, y);
    GapChars(b);
    GapChars(y);
    forall q | 0 <= q < |t| ensures !OccursAt(s, f, q) {
      if q > 0 {
        assert s[q] == t[q];
        assert t == SeparatedToken(p, b) ==> q == 1 || q == |t| - 1 || t[q] == b[q - 2];
        assert t == GapToken(p, b) ==> q == |t| - 1 || t[q] == b[q - 1];
        NotAtBy(s, f, q, 0);
      } else if t == SeparatedToken(p, b) {
        assert s[1] == ',' && f[1] == y[0];
        NotAtBy(s, f, 0, 1);
      } else if |f| > |t| {
        assert s[|t| - 1] == GapOpen(p) && f[|t| - 1] == y[|t| - 2];
        NotAtBy(s, f, 0, |t| - 1);
      } else if |f| < |t| {
        assert f[|f| - 1] == GapOpen(p) && s[|f| - 1] == b[|f| - 2];
        NotAtBy(s, f, 0, |f| - 1);
      } else {
        assert s[0..|f|] == t;
      }
    }
  }

  /** The first piece of a partly settled document holds no gap match other than its own
      token. */
  lemma PieceClearGap(p: Pattern, g: string, b: string, rest: string, y: string, done: seq<string>)
    requires p.ArrayGap? || p.ObjectGap?
    requires Quiet(p, g, 0, |g|) && IsGapBody(b) && IsGapBody(y)
    ensures var t := GapToken(p, b);
            var t' := if t in done then Outcome(p, t) else t;
            && (forall q :: 0 <= q < |g| ==> !OccursAt(g + t' + rest, GapToken(p, y), q))
            && (t' != GapToken(p, y) ==> forall q :: 0 <= q < |t'| ==> !OccursAt(t' + rest, GapToken(p, y), q))
  {
    var t := GapToken(p, b);
    var t' := if t in done then Outcome(p, t) else t;
    var f := GapToken(p, y);
    GapRewritten(p, b);
    assert t' == t || t' == SeparatedToken(p, b);
    assert g + t' + rest == g + (t' + rest);
    QuietBeforeClose(p, g, t' + rest);
    GapTokenInLang(p, y);
    forall q | 0 <= q < |g| ensures !OccursAt(g + t' + rest, f, q) {
      if q + |f| <= |g + t' + rest| {
        assert !InLang(p, (g + t' + rest)[q..q + |f|]);
      }
    }
    if t' != f {
      TokenClearGap(p, b, t', rest, y);
    }
  }

  /** Whatever the loop has rewritten so far, a gap match occurs only where a token equal to
      it starts. */
  lemma {:induction false} ClearGap(p: Pattern, refs: seq<(string, string)>, last: string, done: seq<string>, y: string)
    requires p.ArrayGap? || p.ObjectGap?
    requires GapLayout(p, refs, last) && IsGapBody(y)
    ensures Clear(GapToken(p, y), Settle(p, GapPieces(p, refs), done), last)
    decreases |refs|
  {
    var f := GapToken(p, y);
    if refs == [] {
      GapTokenInLang(p, y);
      forall q | 0 <= q <= |last| - |f| ensures !OccursAt(last, f, q) {
        assert !InLang(p, last[q..q + |f|]);
      }
    } else {
      var pieces := GapPieces(p, refs);
      var t := GapToken(p, refs[0].1);
      var st := Settle(p, pieces, done);
      assert pieces[1..] == GapPieces(p, refs[1..]);
      assert st[1..] == Settle(p, pieces[1..], done);
      assert st[0] == Piece(refs[0].0, if t in done then Outcome(p, t) else t);
      GapLayoutTail(p, refs, last);
      ClearGap(p, refs[1..], last, done, y);
      PieceClearGap(p, refs[0].0, refs[0].1, Laid(Settle(p, pieces[1..], done), last), y, done);
      ClearFront(f, st, last, refs[0].0, if t in done then Outcome(p, t) else t,
                 Laid(Settle(p, pieces[1..], done), last));
    }
  }

  /** No gap match is rewritten into another: a rewritten one has a comma second. */
  lemma DistinctGap(p: Pattern, refs: seq<(string, string)>)
    requires p.ArrayGap? || p.ObjectGap?
    requires forall i :: 0 <= i < |refs| ==> IsGapBody(refs[i].1)
    ensures Distinct(p, GapPieces(p, refs))
  {
    var pieces := GapPieces(p, refs);
    forall i, j | 0 <= i < |refs| && 0 <= j < |refs|
      ensures Rewritten(p, pieces[i].token) != pieces[j].token
    {
      GapRewrittenApart(p, refs[i].1, refs[j].1);
    }
  }

  lemma GapRewrittenApart(p: Pattern, a: string, b: string)
    requires p.ArrayGap? || p.ObjectGap?
    requires IsGapBody(a) && IsGapBody(b)
    ensures Rewritten(p, GapToken(p, a)) != GapToken(p, b)
  {
    GapRewritten(p, a);
    GapChars(b);
    assert SeparatedToken(p, a)[1] == ',';
    assert GapToken(p, b)[1] == b[0];
  }

  lemma {:induction false} FinishedGap(p: Pattern, refs: seq<(string, string)>)
    requires p.ArrayGap? || p.ObjectGap?
    requires forall i :: 0 <= i < |refs| ==> IsGapBody(refs[i].1)
    ensures Finished(p, GapPieces(p, refs)) == SeparatedPieces(p, refs)
    decreases |refs|
  {
    if refs != [] {
      GapRewritten(p, refs[0].1);
      assert forall i :: 1 <= i < |refs| ==> refs[i] == refs[1..][i - 1];
      FinishedGap(p, refs[1..]);
      assert GapPieces(p, refs)[1..] == GapPieces(p, refs[1..]);
    }
  }

  /** The bracket passes on any document cut at its gap matches: each list (or block)
      followed, across spaces and one line break, by another gets a comma after its closing
      bracket, and all other text is kept. */
  lemma SeparatesAdjacent(p: Pattern, refs: seq<(string, string)>, last: string)
    requires p.ArrayGap? || p.ObjectGap?
    requires GapLayout(p, refs, last)
    ensures Pass(p, Laid(GapPieces(p, refs), last)) == Laid(SeparatedPieces(p, refs), last)
  {
    var pieces := GapPieces(p, refs);
    ScansGap(p, refs, last);
    DistinctGap(p, refs);
    forall i | 0 <= i < |pieces| && !Skipped(p, pieces[i].token)
      ensures Clear(pieces[i].token, Settle(p, pieces, Tokens(pieces)[..i]), last)
    {
      ClearGap(p, refs, last, Tokens(pieces)[..i], refs[i].1);
    }
    PassLaid(p, pieces, last);
    FinishedGap(p, refs);
  }

  /** A document in which no quoted reference and no gap matches, and which holds neither the
      namespace reference nor a line break before `{`, goes through the first steps
      untouched. */
  lemma PreparedUntouched(s: string)
    requires Quiet(QuotedRef, s, 0, |s|) && Quiet(ArrayGap, s, 0, |s|) && Quiet(ObjectGap, s, 0, |s|)
    requires !Contains(s, NamespaceRef) && !Contains(s, "\n{")
    ensures Prepared(s) == s
  {
    PassUntouched(QuotedRef, s);
    ReplaceAbsent(s, NamespaceRef, EscapedNamespaceRef);
    ReplaceAbsent(s, "\n{", "{");
    PassUntouched(ArrayGap, s);
    PassUntouched(ObjectGap, s);
  }

  /** A document with nothing to rewrite, for a data product that is not a GitHub one, is
      written as it is. */
  lemma CleanUntouched(s: string, dpName: string, fixGithub: string -> string)
    requires Quiet(QuotedRef, s, 0, |s|) && Quiet(ArrayGap, s, 0, |s|) && Quiet(ObjectGap, s, 0, |s|)
    requires !Contains(s, NamespaceRef) && !Contains(s, "\n{")
    requires forall j :: 0 <= j < 4 ==> !Contains(s, FinalRules[j].0)
    requires !Contains(dpName, GithubMarker)
    ensures CleanText(s, dpName, fixGithub) == s
  {
    PreparedUntouched(s);
    FinishUntouched(s);
  }
}
