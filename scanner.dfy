/** The five regular expressions of `generate_tf.py`, each as a hand-written scanner, with
    `re.findall` as a left-to-right scan and the `for found in founds: s = s.replace(...)`
    loops as a fold. Each pattern's language is stated declaratively by `InLang`; the scanner
    returns the longest match at a position, which is what Python's greedy backtracking
    matcher returns for these patterns. */
module Scanner {
  import opened Outcomes
  import opened Text

  datatype Pattern =
    | SecretRef    // r"\${[^var].*}"        (generate_tf.py:255)
    | QuotedRef    // r"\"\${.*}\""          (generate_tf.py:366)
    | ArrayGap     // r"] *\n *\["           (generate_tf.py:378)
    | ObjectGap    // r"} *\n *\{"           (generate_tf.py:383)
    | ListLiteral  // r"\[[^{]*]", re.DOTALL (generate_tf.py:335)

  function FirstChar(p: Pattern): char
  {
    match p
    case SecretRef => '$'
    case QuotedRef => '"'
    case ArrayGap => ']'
    case ObjectGap => '}'
    case ListLiteral => '['
  }

  /** The closing and opening brackets a gap pattern joins. */
  function GapClose(p: Pattern): char
    requires p.ArrayGap? || p.ObjectGap?
  {
    if p.ArrayGap? then ']' else '}'
  }

  function GapOpen(p: Pattern): char
    requires p.ArrayGap? || p.ObjectGap?
  {
    if p.ArrayGap? then '[' else '{'
  }

  /** ` *\n *`: spaces, one line break, spaces. */
  ghost predicate IsGapBody(g: string)
  {
    exists n :: 0 <= n < |g| && g[n] == '\n'
      && (forall k :: 0 <= k < |g| && k != n ==> g[k] == ' ')
  }

  /** The strings the pattern matches. `.` does not match a line break (no DOTALL), while a
      negated class such as `[^var]` or `[^{]` does. */
  ghost predicate InLang(p: Pattern, f: string)
  {
    match p
    case SecretRef =>
      |f| >= 4 && f[0] == '$' && f[1] == '{' && f[2] !in "var" && f[|f| - 1] == '}'
      && forall k :: 3 <= k < |f| - 1 ==> f[k] != '\n'
    case QuotedRef =>
      |f| >= 5 && f[0] == '"' && f[1] == '$' && f[2] == '{' && f[|f| - 2] == '}' && f[|f| - 1] == '"'
      && forall k :: 3 <= k < |f| - 2 ==> f[k] != '\n'
    case ArrayGap =>
      |f| >= 3 && f[0] == ']' && f[|f| - 1] == '[' && IsGapBody(f[1..|f| - 1])
    case ObjectGap =>
      |f| >= 3 && f[0] == '}' && f[|f| - 1] == '{' && IsGapBody(f[1..|f| - 1])
    case ListLiteral =>
      |f| >= 2 && f[0] == '[' && f[|f| - 1] == ']' && forall k :: 1 <= k < |f| - 1 ==> f[k] != '{'
  }

  /** What `re.match` at position `i` promises: a match is the longest prefix of `s[i..]` in the
      language, and no match means no prefix is in it. */
  ghost predicate IsLongestMatch(p: Pattern, s: string, i: nat, r: Option<nat>)
    requires i < |s|
  {
    && (r.Some? ==> i < r.value <= |s| && InLang(p, s[i..r.value])
                    && forall e :: r.value < e <= |s| ==> !InLang(p, s[i..e]))
    && (r.None? ==> forall e :: i < e <= |s| ==> !InLang(p, s[i..e]))
  }

  // ---- search helpers ----

  /** The first index from `k` on that holds `c`, or the end of the text. */
  function FirstOf(s: string, k: nat, c: char): (e: nat)
    requires k <= |s|
    ensures k <= e <= |s| && (e < |s| ==> s[e] == c)
    decreases |s| - k
  {
    if k == |s| || s[k] == c then k else FirstOf(s, k + 1, c)
  }

  /** No `c` comes before the index `FirstOf` returns. */
  lemma {:induction false} FirstOfSkips(s: string, k: nat, c: char)
    requires k <= |s|
    ensures forall m :: k <= m < FirstOf(s, k, c) ==> s[m] != c
    decreases |s| - k
  {
    if k < |s| && s[k] != c {
      FirstOfSkips(s, k + 1, c);
    }
  }

  /** The first index from `k` on that is not a space, or the end of the text. */
  function SkipSpaces(s: string, k: nat): (e: nat)
    requires k <= |s|
    ensures k <= e <= |s| && (e < |s| ==> s[e] != ' ')
    ensures forall m :: k <= m < e ==> s[m] == ' '
    decreases |s| - k
  {
    if k == |s| || s[k] != ' ' then k else SkipSpaces(s, k + 1)
  }

  /** The last index in `[lo, hi)` that holds `c`. */
  function LastOf(s: string, lo: nat, hi: nat, c: char): (r: Option<nat>)
    requires lo <= hi <= |s|
    ensures r.Some? ==> lo <= r.value < hi && s[r.value] == c
                        && forall m :: r.value < m < hi ==> s[m] != c
    ensures r.None? ==> forall m :: lo <= m < hi ==> s[m] != c
    decreases hi - lo
  {
    if hi == lo then None
    else if s[hi - 1] == c then Some(hi - 1)
    else LastOf(s, lo, hi - 1, c)
  }

  predicate CloseQuoteAt(s: string, j: int)
  {
    0 <= j && j + 1 < |s| && s[j] == '}' && s[j + 1] == '"'
  }

  /** The last `j` with `}"` at `j` and both characters inside `[lo, hi)`. */
  function LastCloseQuote(s: string, lo: nat, hi: nat): (r: Option<nat>)
    requires lo <= hi <= |s|
    ensures r.Some? ==> lo <= r.value && r.value + 1 < hi && CloseQuoteAt(s, r.value)
                        && forall m :: r.value < m && m + 1 < hi ==> !CloseQuoteAt(s, m)
    ensures r.None? ==> forall m :: lo <= m && m + 1 < hi ==> !CloseQuoteAt(s, m)
    decreases hi - lo
  {
    if hi < lo + 2 then None
    else if s[hi - 2] == '}' && s[hi - 1] == '"' then Some(hi - 2)
    else LastCloseQuote(s, lo, hi - 1)
  }

  // ---- the scanners ----

  function MatchSecretRef(s: string, i: nat): (r: Option<nat>)
    requires i < |s|
    ensures r.Some? ==> i < r.value <= |s|
  {
    if i + 2 < |s| && s[i] == '$' && s[i + 1] == '{' && s[i + 2] !in "var" then
      var j := LastOf(s, i + 3, FirstOf(s, i + 3, '\n'), '}');
      if j.Some? then Some(j.value + 1) else None
    else None
  }

  function MatchQuotedRef(s: string, i: nat): (r: Option<nat>)
    requires i < |s|
    ensures r.Some? ==> i < r.value <= |s|
  {
    if i + 2 < |s| && s[i] == '"' && s[i + 1] == '$' && s[i + 2] == '{' then
      var j := LastCloseQuote(s, i + 3, FirstOf(s, i + 3, '\n'));
      if j.Some? then Some(j.value + 2) else None
    else None
  }

  function MatchGap(p: Pattern, s: string, i: nat): (r: Option<nat>)
    requires p.ArrayGap? || p.ObjectGap?
    requires i < |s|
    ensures r.Some? ==> i < r.value <= |s|
  {
    if s[i] != GapClose(p) then None
    else
      var k := SkipSpaces(s, i + 1);
      if k == |s| || s[k] != '\n' then None
      else
        var m := SkipSpaces(s, k + 1);
        if m < |s| && s[m] == GapOpen(p) then Some(m + 1) else None
  }

  function MatchList(s: string, i: nat): (r: Option<nat>)
    requires i < |s|
    ensures r.Some? ==> i < r.value <= |s|
  {
    if s[i] != '[' then None
    else
      var j := LastOf(s, i + 1, FirstOf(s, i + 1, '{'), ']');
      if j.Some? then Some(j.value + 1) else None
  }

  /** The end of the match of `p` at position `i`, if there is one. */
  function MatchAt(p: Pattern, s: string, i: nat): (r: Option<nat>)
    requires i < |s|
    ensures r.Some? ==> i < r.value <= |s|
  {
    match p
    case SecretRef => MatchSecretRef(s, i)
    case QuotedRef => MatchQuotedRef(s, i)
    case ArrayGap => MatchGap(p, s, i)
    case ObjectGap => MatchGap(p, s, i)
    case ListLiteral => MatchList(s, i)
  }

  // ---- the scanners meet their languages ----

  lemma SecretRefLongest(s: string, i: nat)
    requires i < |s|
    ensures IsLongestMatch(SecretRef, s, i, MatchSecretRef(s, i))
  {
    if i + 2 < |s| && s[i] == '$' && s[i + 1] == '{' && s[i + 2] !in "var" {
      var line := FirstOf(s, i + 3, '\n');
      FirstOfSkips(s, i + 3, '\n');
      var j := LastOf(s, i + 3, line, '}');
      forall e | i < e <= |s| && (j.None? || e > j.value + 1) ensures !InLang(SecretRef, s[i..e]) {
        if e >= i + 4 {
          if e - 1 < line {
            assert s[e - 1] != '}';
          } else {
            assert s[i..e][line - i] == '\n';
          }
        }
      }
      if j.Some? {
        var f := s[i..j.value + 1];
        forall k | 3 <= k < |f| - 1 ensures f[k] != '\n' {
          assert f[k] == s[i + k];
        }
        assert InLang(SecretRef, f);
      }
    } else {
      forall e | i < e <= |s| ensures !InLang(SecretRef, s[i..e]) {
        if e >= i + 4 { assert s[i..e][0] == s[i] && s[i..e][1] == s[i + 1] && s[i..e][2] == s[i + 2]; }
      }
    }
  }

  lemma QuotedRefLongest(s: string, i: nat)
    requires i < |s|
    ensures IsLongestMatch(QuotedRef, s, i, MatchQuotedRef(s, i))
  {
    if i + 2 < |s| && s[i] == '"' && s[i + 1] == '$' && s[i + 2] == '{' {
      var line := FirstOf(s, i + 3, '\n');
      var j := LastCloseQuote(s, i + 3, line);
      QuotedRefNoLonger(s, i);
      if j.Some? {
        FirstOfSkips(s, i + 3, '\n');
        var f := s[i..j.value + 2];
        forall k | 3 <= k < |f| - 2 ensures f[k] != '\n' {
          assert f[k] == s[i + k];
        }
        assert InLang(QuotedRef, f);
      }
    } else {
      forall e | i < e <= |s| ensures !InLang(QuotedRef, s[i..e]) {
        if e >= i + 5 { assert s[i..e][0] == s[i] && s[i..e][1] == s[i + 1] && s[i..e][2] == s[i + 2]; }
      }
    }
  }

  /** No quoted reference starting at `i` ends past the last `}"` before the line break. */
  lemma QuotedRefNoLonger(s: string, i: nat)
    requires i + 2 < |s|
    ensures var line := FirstOf(s, i + 3, '\n');
            var j := LastCloseQuote(s, i + 3, line);
            forall e :: i < e <= |s| && (j.None? || e > j.value + 2) ==> !InLang(QuotedRef, s[i..e])
  {
    var line := FirstOf(s, i + 3, '\n');
    FirstOfSkips(s, i + 3, '\n');
    var j := LastCloseQuote(s, i + 3, line);
    forall e | i < e <= |s| && (j.None? || e > j.value + 2) ensures !InLang(QuotedRef, s[i..e]) {
      if e >= i + 5 {
        if e - 1 < line {
          assert !CloseQuoteAt(s, e - 2);
        } else if line < e - 2 {
          assert s[i..e][line - i] == '\n';
        } else {
          assert s[line] == '\n';
        }
      }
    }
  }

  /** A character that is neither a space nor a line break rules out a gap. */
  lemma NotGapForeign(g: string, x: nat)
    requires x < |g| && g[x] != ' ' && g[x] != '\n'
    ensures !IsGapBody(g)
  {
  }

  /** Two line breaks rule out a gap. */
  lemma NotGapTwoBreaks(g: string, a: nat, b: nat)
    requires a < b < |g| && g[a] == '\n' && g[b] == '\n'
    ensures !IsGapBody(g)
  {
  }

  /** Spaces alone are not a gap. */
  lemma NotGapNoBreak(g: string)
    requires forall k :: 0 <= k < |g| ==> g[k] == ' '
    ensures !IsGapBody(g)
  {
  }

  /** No prefix longer than the scanner's answer is a gap. */
  lemma GapNoLonger(p: Pattern, s: string, i: nat, e: nat)
    requires p.ArrayGap? || p.ObjectGap?
    requires i < e <= |s|
    requires var r := MatchGap(p, s, i); r.None? || e > r.value
    ensures !InLang(p, s[i..e])
  {
    if e >= i + 3 && s[i] == GapClose(p) && s[e - 1] == GapOpen(p) {
      var g := s[i + 1..e - 1];
      GapBodySlice(s, i, e);
      var k := SkipSpaces(s, i + 1);
      if e - 1 <= k {
        NotGapNoBreak(g);
      } else if s[k] != '\n' {
        NotGapForeign(g, k - i - 1);
      } else {
        var m := SkipSpaces(s, k + 1);
        if m < e - 1 {
          if s[m] == '\n' {
            NotGapTwoBreaks(g, k - i - 1, m - i - 1);
          } else {
            NotGapForeign(g, m - i - 1);
          }
        }
      }
    }
  }

  lemma GapBodySlice(s: string, i: nat, e: nat)
    requires i + 3 <= e <= |s|
    ensures s[i..e][1..e - i - 1] == s[i + 1..e - 1]
  {
    var a, b := s[i..e][1..e - i - 1], s[i + 1..e - 1];
    assert |a| == |b|;
    forall x | 0 <= x < |a| ensures a[x] == b[x] {
      assert a[x] == s[i..e][x + 1] == s[i + 1 + x];
    }
  }

  lemma GapLongest(p: Pattern, s: string, i: nat)
    requires p.ArrayGap? || p.ObjectGap?
    requires i < |s|
    ensures IsLongestMatch(p, s, i, MatchGap(p, s, i))
  {
    var r := MatchGap(p, s, i);
    forall e | i < e <= |s| && (r.None? || e > r.value) ensures !InLang(p, s[i..e]) {
      GapNoLonger(p, s, i, e);
    }
    if r.Some? {
      var k := SkipSpaces(s, i + 1);
      var g := s[i + 1..r.value - 1];
      GapBodySlice(s, i, r.value);
      assert g[k - i - 1] == '\n';
      assert IsGapBody(g);
    }
  }

  lemma ListLongest(s: string, i: nat)
    requires i < |s|
    ensures IsLongestMatch(ListLiteral, s, i, MatchList(s, i))
  {
    if s[i] == '[' {
      var brace := FirstOf(s, i + 1, '{');
      FirstOfSkips(s, i + 1, '{');
      var j := LastOf(s, i + 1, brace, ']');
      forall e | i < e <= |s| && (j.None? || e > j.value + 1) ensures !InLang(ListLiteral, s[i..e]) {
        if e >= i + 2 {
          if e - 1 < brace {
            assert s[e - 1] != ']';
          } else {
            assert s[i..e][brace - i] == '{';
          }
        }
      }
      if j.Some? {
        var f := s[i..j.value + 1];
        forall k | 1 <= k < |f| - 1 ensures f[k] != '{' {
          assert f[k] == s[i + k];
        }
        assert InLang(ListLiteral, f);
      }
    }
  }

  /** Every scanner returns the longest match at its position. */
  lemma MatchAtLongest(p: Pattern, s: string, i: nat)
    requires i < |s|
    ensures IsLongestMatch(p, s, i, MatchAt(p, s, i))
  {
    match p
    case SecretRef => SecretRefLongest(s, i);
    case QuotedRef => QuotedRefLongest(s, i);
    case ArrayGap => GapLongest(p, s, i);
    case ObjectGap => GapLongest(p, s, i);
    case ListLiteral => ListLongest(s, i);
  }

  /** Every match starts with the pattern's first character. */
  lemma InLangFirst(p: Pattern, f: string)
    requires InLang(p, f)
    ensures |f| >= 2 && f[0] == FirstChar(p)
  {
  }

  // ---- re.findall ----

  /** `re.findall(p, s[from..])`: scanning from the left, each match is taken whole and the
      scan resumes after it. */
  function FindAll(p: Pattern, s: string, from: nat): (r: seq<string>)
    requires from <= |s|
    decreases |s| - from
  {
    if from == |s| then []
    else
      var m := MatchAt(p, s, from);
      if m.Some? then [s[from..m.value]] + FindAll(p, s, m.value)
      else FindAll(p, s, from + 1)
  }

  /** Everything `findall` returns is in the pattern's language. */
  lemma {:induction false} FindAllInLang(p: Pattern, s: string, from: nat)
    requires from <= |s|
    ensures forall k :: 0 <= k < |FindAll(p, s, from)| ==> InLang(p, FindAll(p, s, from)[k])
    decreases |s| - from
  {
    if from < |s| {
      var m := MatchAt(p, s, from);
      MatchAtLongest(p, s, from);
      if m.Some? {
        FindAllInLang(p, s, m.value);
        var r := FindAll(p, s, from);
        assert r == [s[from..m.value]] + FindAll(p, s, m.value);
        forall k | 0 <= k < |r| ensures InLang(p, r[k]) {
          if k > 0 { assert r[k] == FindAll(p, s, m.value)[k - 1]; }
        }
      } else {
        FindAllInLang(p, s, from + 1);
      }
    }
  }

  /** No match of `p` starts in `s[lo..hi]`; a match that starts there may run past `hi`. */
  ghost predicate Quiet(p: Pattern, s: string, lo: nat, hi: nat)
    requires lo <= hi <= |s|
  {
    forall q, e :: lo <= q < hi && q < e <= |s| ==> !InLang(p, s[q..e])
  }

  /** Positions where no match starts are passed over by the scan. */
  lemma {:induction false} FindAllQuiet(p: Pattern, s: string, from: nat, to: nat)
    requires from <= to <= |s| && Quiet(p, s, from, to)
    ensures FindAll(p, s, from) == FindAll(p, s, to)
    decreases (to as int) - (from as int)
  {
    if from < to {
      MatchAtLongest(p, s, from);
      FindAllQuiet(p, s, from + 1, to);
    }
  }

  /** A longest match from `i` to `j` is the next thing found from `i`. */
  lemma FindAllAt(p: Pattern, s: string, i: nat, j: nat)
    requires i < j <= |s| && InLang(p, s[i..j])
    requires forall e :: j < e <= |s| ==> !InLang(p, s[i..e])
    ensures FindAll(p, s, i) == [s[i..j]] + FindAll(p, s, j)
  {
    MatchAtLongest(p, s, i);
  }

  /** The match at a position depends only on the text from that position on. */
  lemma MatchShift(p: Pattern, s: string, d: nat, k: nat)
    requires d + k < |s|
    ensures var a, b := MatchAt(p, s, d + k), MatchAt(p, s[d..], k);
            (a.Some? <==> b.Some?) && (a.Some? ==> a.value == b.value + d)
  {
    var t := s[d..];
    MatchAtLongest(p, s, d + k);
    MatchAtLongest(p, t, k);
    forall e | k < e <= |t| ensures s[d + k..e + d] == t[k..e] {
    }
    LongestUnique(p, s, t, k, d, MatchAt(p, s, d + k), MatchAt(p, t, k));
  }

  /** Two texts that agree from the match position on have the same longest match there. */
  lemma LongestUnique(p: Pattern, s: string, t: string, k: nat, d: nat, a: Option<nat>, b: Option<nat>)
    requires k < |t| && |s| == |t| + d
    requires forall e :: k < e <= |t| ==> s[d + k..e + d] == t[k..e]
    requires IsLongestMatch(p, s, d + k, a) && IsLongestMatch(p, t, k, b)
    ensures (a.Some? <==> b.Some?) && (a.Some? ==> a.value == b.value + d)
  {
    if a.Some? {
      assert s[d + k..(a.value - d) + d] == t[k..a.value - d];
    }
    if b.Some? {
      assert s[d + k..b.value + d] == t[k..b.value];
    }
  }

  /** What `findall` finds from `i` is what it finds from `j` in the text cut at `d`, where
      `i` is `j + d`. */
  lemma {:induction false} FindAllShift(p: Pattern, s: string, t: string, d: nat, i: nat, j: nat)
    requires d <= |s| && t == s[d..] && i == j + d && i <= |s|
    ensures FindAll(p, s, i) == FindAll(p, t, j)
    decreases |s| - i
  {
    if i < |s| {
      MatchShift(p, s, d, j);
      FindAllStep(p, s, i);
      FindAllStep(p, t, j);
      var a, b := MatchAt(p, s, i), MatchAt(p, t, j);
      if a.Some? {
        SliceShift(s, t, d, i, j, a.value, b.value);
        FindAllShift(p, s, t, d, a.value, b.value);
        assert FindAll(p, s, i) == FindAll(p, t, j);
      } else {
        FindAllShift(p, s, t, d, i + 1, j + 1);
        assert FindAll(p, s, i) == FindAll(p, t, j);
      }
    } else {
      assert j == |t|;
      assert FindAll(p, t, j) == [];
    }
  }

  lemma SliceShift(s: string, t: string, d: nat, i: nat, j: nat, e: nat, f: nat)
    requires d <= |s| && t == s[d..] && i == j + d && e == f + d && i <= e <= |s|
    ensures s[i..e] == t[j..f]
  {
  }

  /** One step of `findall`: a match at `i` is returned and the scan resumes after it;
      otherwise the scan moves one character on. */
  lemma FindAllStep(p: Pattern, s: string, i: nat)
    requires i < |s|
    ensures var m := MatchAt(p, s, i);
            && (m.Some? ==> FindAll(p, s, i) == [s[i..m.value]] + FindAll(p, s, m.value))
            && (m.None? ==> FindAll(p, s, i) == FindAll(p, s, i + 1))
  {
  }

  // ---- the replacement loops ----

  /** What `found` is replaced by. */
  function Rewritten(p: Pattern, f: string): string
  {
    match p
    case SecretRef => Replace(f, "${", "${var.")                      // generate_tf.py:257
    case QuotedRef => Replace(Replace(f, "\"${", ""), "}\"", "")       // generate_tf.py:370
    case ArrayGap => Replace(f, "]", "],")                            // generate_tf.py:380
    case ObjectGap => Replace(f, "}", "},")                           // generate_tf.py:385
    case ListLiteral => Replace(f, "}", "},")                         // generate_tf.py:337
  }

  /** A found reference that mentions `SOURCE_NAMESPACE` is left alone (generate_tf.py:368). */
  predicate Skipped(p: Pattern, f: string)
  {
    p == QuotedRef && Contains(f, "SOURCE_NAMESPACE")
  }

  /** One iteration: `s = s.replace(found, rewritten)`, which replaces every copy of `found`
      in the current text, not only the one that was matched. */
  function Step(p: Pattern, s: string, f: string): string
    requires |f| > 0
  {
    if Skipped(p, f) then s else Replace(s, f, Rewritten(p, f))
  }

  predicate NonEmpty(founds: seq<string>)
  {
    forall k :: 0 <= k < |founds| ==> |founds[k]| > 0
  }

  /** The loop over `founds`, in order. */
  function RewriteAll(p: Pattern, s: string, founds: seq<string>): string
    requires NonEmpty(founds)
    decreases |founds|
  {
    if founds == [] then s
    else Step(p, RewriteAll(p, s, founds[..|founds| - 1]), founds[|founds| - 1])
  }

  /** Visiting one more match is one more step. */
  lemma RewriteAllSnoc(p: Pattern, s: string, founds: seq<string>, i: nat)
    requires NonEmpty(founds) && i < |founds|
    ensures RewriteAll(p, s, founds[..i + 1]) == Step(p, RewriteAll(p, s, founds[..i]), founds[i])
  {
    assert founds[..i + 1][..i] == founds[..i];
  }

  lemma FindAllNonEmpty(p: Pattern, s: string)
    ensures NonEmpty(FindAll(p, s, 0))
  {
    FindAllInLang(p, s, 0);
    forall k | 0 <= k < |FindAll(p, s, 0)| ensures |FindAll(p, s, 0)[k]| > 0 {
      InLangFirst(p, FindAll(p, s, 0)[k]);
    }
  }

  /** The match pass of `p` over a whole text: find every match, then replace each in turn. */
  function Pass(p: Pattern, s: string): string
  {
    FindAllNonEmpty(p, s);
    RewriteAll(p, s, FindAll(p, s, 0))
  }

  /** A text in which the pattern matches nowhere passes through unchanged. */
  lemma PassUntouched(p: Pattern, s: string)
    requires Quiet(p, s, 0, |s|)
    ensures Pass(p, s) == s
  {
    FindAllQuiet(p, s, 0, |s|);
  }

  /** The `for found in founds` loop of the source, with the invariant that the text so far is
      the fold of the matches already visited. */
  method RunPass(p: Pattern, s: string) returns (r: string)
    ensures r == Pass(p, s)
  {
    var founds := FindAll(p, s, 0);
    FindAllNonEmpty(p, s);
    r := s;
    var i := 0;
    while i < |founds|
      invariant 0 <= i <= |founds|
      invariant r == RewriteAll(p, s, founds[..i])
    {
      var found := founds[i];
      RewriteAllSnoc(p, s, founds, i);
      if !Skipped(p, found) {
        r := Replace(r, found, Rewritten(p, found));
      }
      i := i + 1;
    }
    assert founds[..i] == founds;
  }


  // ---- texts laid out around their matches ----

  /** A stretch of text followed by a token: in the texts below, the stretches hold no match
      and the tokens are the matches `findall` returns. */
  datatype Piece = Piece(gap: string, token: string)

  /** The text `gap0 token0 gap1 token1 … last`. */
  function Laid(pieces: seq<Piece>, last: string): string
    decreases |pieces|
  {
    if pieces == [] then last else pieces[0].gap + pieces[0].token + Laid(pieces[1..], last)
  }

  function Tokens(pieces: seq<Piece>): (r: seq<string>)
    ensures |r| == |pieces| && forall i :: 0 <= i < |pieces| ==> r[i] == pieces[i].token
    decreases |pieces|
  {
    if pieces == [] then [] else [pieces[0].token] + Tokens(pieces[1..])
  }

  /** What `findall` sees in a laid-out text: no match starts in a stretch, each token is the
      longest match at its place, and nothing matches in the last stretch. */
  ghost predicate Scans(p: Pattern, pieces: seq<Piece>, last: string)
    decreases |pieces|
  {
    if pieces == [] then Quiet(p, last, 0, |last|)
    else
      var s := Laid(pieces, last);
      var i := |pieces[0].gap|;
      var j := i + |pieces[0].token|;
      && Quiet(p, s, 0, i)
      && InLang(p, pieces[0].token)
      && (forall e :: j < e <= |s| ==> !InLang(p, s[i..e]))
      && Scans(p, pieces[1..], last)
  }

  /** `findall` over a laid-out text returns its tokens, in order. */
  lemma {:induction false} FindAllLaid(p: Pattern, pieces: seq<Piece>, last: string)
    requires Scans(p, pieces, last)
    ensures FindAll(p, Laid(pieces, last), 0) == Tokens(pieces)
    decreases |pieces|
  {
    if pieces == [] {
      FindAllQuiet(p, last, 0, |last|);
    } else {
      FindAllLaid(p, pieces[1..], last);
      FindAllPiece(p, pieces[0].gap, pieces[0].token, Laid(pieces[1..], last));
    }
  }

  /** One piece of a laid-out text under `findall`. */
  lemma FindAllPiece(p: Pattern, g: string, t: string, rest: string)
    requires Quiet(p, g + t + rest, 0, |g|) && InLang(p, t)
    requires forall e :: |g| + |t| < e <= |g + t + rest| ==> !InLang(p, (g + t + rest)[|g|..e])
    ensures FindAll(p, g + t + rest, 0) == [t] + FindAll(p, rest, 0)
  {
    var s := g + t + rest;
    var i, j := |g|, |g| + |t|;
    assert s[i..j] == t && s[j..] == rest;
    InLangFirst(p, t);
    FindAllQuiet(p, s, 0, i);
    FindAllAt(p, s, i, j);
    FindAllShift(p, s, rest, j, j, 0);
  }

  /** The tokens of a laid-out text are matches, so none is empty. */
  lemma {:induction false} ScansTokens(p: Pattern, pieces: seq<Piece>, last: string)
    requires Scans(p, pieces, last)
    ensures forall i :: 0 <= i < |pieces| ==> |pieces[i].token| > 0
    decreases |pieces|
  {
    if pieces != [] {
      InLangFirst(p, pieces[0].token);
      ScansTokens(p, pieces[1..], last);
      assert forall i :: 1 <= i < |pieces| ==> pieces[i] == pieces[1..][i - 1];
    }
  }

  /** What `findall` returns on a laid-out text, and that none of it is empty. */
  lemma ScansFound(p: Pattern, pieces: seq<Piece>, last: string)
    requires Scans(p, pieces, last)
    ensures FindAll(p, Laid(pieces, last), 0) == Tokens(pieces)
    ensures forall i :: 0 <= i < |pieces| ==> |pieces[i].token| > 0
  {
    FindAllLaid(p, pieces, last);
    ScansTokens(p, pieces, last);
  }

  /** Every token equal to `f` replaced by `rep`. */
  function Swap(pieces: seq<Piece>, f: string, rep: string): (r: seq<Piece>)
    ensures |r| == |pieces|
    decreases |pieces|
  {
    if pieces == [] then []
    else [Piece(pieces[0].gap, if pieces[0].token == f then rep else pieces[0].token)] + Swap(pieces[1..], f, rep)
  }

  /** `f` occurs in a laid-out text only where a token equal to it starts. */
  ghost predicate Clear(f: string, pieces: seq<Piece>, last: string)
    decreases |pieces|
  {
    if pieces == [] then !Contains(last, f)
    else
      var g, t := pieces[0].gap, pieces[0].token;
      var rest := Laid(pieces[1..], last);
      && (forall q :: 0 <= q < |g| ==> !OccursAt(g + t + rest, f, q))
      && (t != f ==> forall q :: 0 <= q < |t| ==> !OccursAt(t + rest, f, q))
      && Clear(f, pieces[1..], last)
  }

  /** A first piece that holds `f` only as its own token, before a clear rest, leaves the
      whole text clear. */
  lemma ClearFront(f: string, pieces: seq<Piece>, last: string, g: string, t: string, rest: string)
    requires pieces != [] && pieces[0] == Piece(g, t) && Laid(pieces[1..], last) == rest
    requires forall q :: 0 <= q < |g| ==> !OccursAt(g + t + rest, f, q)
    requires t != f ==> forall q :: 0 <= q < |t| ==> !OccursAt(t + rest, f, q)
    requires Clear(f, pieces[1..], last)
    ensures Clear(f, pieces, last)
  {
  }

  /** `s.replace(f, rep)` on a laid-out text replaces exactly the tokens equal to `f`. */
  lemma {:induction false} ReplaceLaid(pieces: seq<Piece>, last: string, f: string, rep: string)
    requires |f| > 0 && Clear(f, pieces, last)
    ensures Replace(Laid(pieces, last), f, rep) == Laid(Swap(pieces, f, rep), last)
    decreases |pieces|
  {
    if pieces == [] {
      ReplaceAbsent(last, f, rep);
    } else {
      ReplaceLaid(pieces[1..], last, f, rep);
      ReplacePiece(pieces[0].gap, pieces[0].token, Laid(pieces[1..], last), f, rep);
    }
  }

  /** One piece of a laid-out text under `s.replace(f, rep)`. */
  lemma ReplacePiece(g: string, t: string, rest: string, f: string, rep: string)
    requires |f| > 0
    requires forall q :: 0 <= q < |g| ==> !OccursAt(g + t + rest, f, q)
    requires t != f ==> forall q :: 0 <= q < |t| ==> !OccursAt(t + rest, f, q)
    ensures Replace(g + t + rest, f, rep) == g + (if t == f then rep else t) + Replace(rest, f, rep)
  {
    assert g + t + rest == g + (t + rest);
    ReplaceSkipPrefix(g, t + rest, f, rep);
    if t == f {
      ReplaceFront(f, rest, rep);
    } else {
      ReplaceSkipPrefix(t, rest, f, rep);
    }
  }

  /** What the loop leaves of a found token. */
  function Outcome(p: Pattern, t: string): string
  {
    if Skipped(p, t) then t else Rewritten(p, t)
  }

  /** The tokens listed in `done` rewritten, the others as they were. */
  function Settle(p: Pattern, pieces: seq<Piece>, done: seq<string>): (r: seq<Piece>)
    ensures |r| == |pieces|
    decreases |pieces|
  {
    if pieces == [] then []
    else
      var t := pieces[0].token;
      [Piece(pieces[0].gap, if t in done then Outcome(p, t) else t)] + Settle(p, pieces[1..], done)
  }

  lemma {:induction false} SettleNone(p: Pattern, pieces: seq<Piece>)
    ensures Settle(p, pieces, []) == pieces
    decreases |pieces|
  {
    if pieces != [] {
      SettleNone(p, pieces[1..]);
    }
  }

  /** Visiting a skipped token changes nothing. */
  lemma {:induction false} SettleSkipped(p: Pattern, pieces: seq<Piece>, done: seq<string>, f: string)
    requires Skipped(p, f)
    ensures Settle(p, pieces, done + [f]) == Settle(p, pieces, done)
    decreases |pieces|
  {
    if pieces != [] {
      SettleSkipped(p, pieces[1..], done, f);
    }
  }

  /** Rewriting `f` in a partly settled text settles `f` too, when no token already rewritten
      has become `f` (unless `f` rewrites to itself). */
  lemma {:induction false} SwapSettle(p: Pattern, pieces: seq<Piece>, done: seq<string>, f: string)
    requires !Skipped(p, f)
    requires forall i :: (0 <= i < |pieces| && pieces[i].token in done && !Skipped(p, pieces[i].token)
                         && Rewritten(p, pieces[i].token) == f) ==> Rewritten(p, f) == f
    ensures Swap(Settle(p, pieces, done), f, Rewritten(p, f)) == Settle(p, pieces, done + [f])
    decreases |pieces|
  {
    if pieces != [] {
      assert forall i :: 1 <= i < |pieces| ==> pieces[1..][i - 1] == pieces[i];
      SwapSettle(p, pieces[1..], done, f);
    }
  }

  /** No token is rewritten into another found token, unless that one rewrites to itself. */
  ghost predicate Distinct(p: Pattern, pieces: seq<Piece>)
  {
    forall i, j :: (0 <= i < |pieces| && 0 <= j < |pieces| && !Skipped(p, pieces[i].token)
      && Rewritten(p, pieces[i].token) == pieces[j].token) ==> Rewritten(p, pieces[j].token) == pieces[j].token
  }

  /** Each token, once it comes up, occurs only where tokens equal to it start. */
  ghost predicate ClearInTurn(p: Pattern, pieces: seq<Piece>, last: string, k: nat)
    requires k <= |pieces|
  {
    forall i :: 0 <= i < k && !Skipped(p, pieces[i].token)
      ==> Clear(pieces[i].token, Settle(p, pieces, Tokens(pieces)[..i]), last)
  }

  /** One turn of the loop over a partly settled laid-out text settles one more token. */
  lemma SettleStep(p: Pattern, pieces: seq<Piece>, last: string, done: seq<string>, f: string)
    requires |f| > 0
    requires !Skipped(p, f) ==> Clear(f, Settle(p, pieces, done), last)
    requires forall i :: (0 <= i < |pieces| && pieces[i].token in done && !Skipped(p, pieces[i].token)
                         && Rewritten(p, pieces[i].token) == f) ==> Rewritten(p, f) == f
    ensures Step(p, Laid(Settle(p, pieces, done), last), f) == Laid(Settle(p, pieces, done + [f]), last)
  {
    if Skipped(p, f) {
      SettleSkipped(p, pieces, done, f);
    } else {
      ReplaceLaid(Settle(p, pieces, done), last, f, Rewritten(p, f));
      SwapSettle(p, pieces, done, f);
    }
  }

  /** What `Distinct` says about the token the loop is on. */
  lemma DistinctAt(p: Pattern, pieces: seq<Piece>, done: seq<string>, j: nat)
    requires Distinct(p, pieces) && j < |pieces|
    ensures var f := pieces[j].token;
            forall i :: (0 <= i < |pieces| && pieces[i].token in done && !Skipped(p, pieces[i].token)
                         && Rewritten(p, pieces[i].token) == f) ==> Rewritten(p, f) == f
  {
  }

  /** The loop over the first `k` tokens of a laid-out text settles exactly those tokens. */
  lemma {:induction false} RewriteLaid(p: Pattern, pieces: seq<Piece>, last: string, k: nat)
    requires k <= |pieces|
    requires forall i :: 0 <= i < |pieces| ==> |pieces[i].token| > 0
    requires ClearInTurn(p, pieces, last, k) && Distinct(p, pieces)
    ensures NonEmpty(Tokens(pieces)[..k])
    ensures RewriteAll(p, Laid(pieces, last), Tokens(pieces)[..k]) == Laid(Settle(p, pieces, Tokens(pieces)[..k]), last)
    decreases k
  {
    TokensNonEmpty(pieces, k);
    if k == 0 {
      SettleNone(p, pieces);
    } else {
      TokensNonEmpty(pieces, k - 1);
      assert ClearInTurn(p, pieces, last, k - 1);
      RewriteLaid(p, pieces, last, k - 1);
      RewriteLaidStep(p, pieces, last, k);
    }
  }

  /** One more turn of the loop over a laid-out text settles one more token. */
  lemma RewriteLaidStep(p: Pattern, pieces: seq<Piece>, last: string, k: nat)
    requires 0 < k <= |pieces|
    requires forall i :: 0 <= i < |pieces| ==> |pieces[i].token| > 0
    requires ClearInTurn(p, pieces, last, k) && Distinct(p, pieces)
    requires NonEmpty(Tokens(pieces)[..k - 1])
    requires RewriteAll(p, Laid(pieces, last), Tokens(pieces)[..k - 1])
             == Laid(Settle(p, pieces, Tokens(pieces)[..k - 1]), last)
    ensures RewriteAll(p, Laid(pieces, last), Tokens(pieces)[..k]) == Laid(Settle(p, pieces, Tokens(pieces)[..k]), last)
  {
    var ts := Tokens(pieces);
    var f := ts[k - 1];
    RewriteAllSnoc(p, Laid(pieces, last), ts, k - 1);
    TakeLast(ts, k);
    DistinctAt(p, pieces, ts[..k - 1], k - 1);
    SettleStep(p, pieces, last, ts[..k - 1], f);
  }

  lemma TokensNonEmpty(pieces: seq<Piece>, k: nat)
    requires k <= |pieces|
    requires forall i :: 0 <= i < |pieces| ==> |pieces[i].token| > 0
    ensures NonEmpty(Tokens(pieces)[..k])
  {
  }

  lemma TakeLast(ts: seq<string>, k: nat)
    requires 0 < k <= |ts|
    ensures ts[..k] == ts[..k - 1] + [ts[k - 1]]
  {
  }

  /** Each token replaced by what the loop leaves of it. */
  function Finished(p: Pattern, pieces: seq<Piece>): (r: seq<Piece>)
    ensures |r| == |pieces|
    decreases |pieces|
  {
    if pieces == [] then [] else [Piece(pieces[0].gap, Outcome(p, pieces[0].token))] + Finished(p, pieces[1..])
  }

  lemma {:induction false} SettleAll(p: Pattern, pieces: seq<Piece>, done: seq<string>)
    requires forall i :: 0 <= i < |pieces| ==> pieces[i].token in done
    ensures Settle(p, pieces, done) == Finished(p, pieces)
    decreases |pieces|
  {
    if pieces != [] {
      assert forall i :: 1 <= i < |pieces| ==> pieces[1..][i - 1] == pieces[i];
      SettleAll(p, pieces[1..], done);
    }
  }

  /** The pass over a laid-out text rewrites every token in place and keeps the stretches. */
  lemma PassLaid(p: Pattern, pieces: seq<Piece>, last: string)
    requires Scans(p, pieces, last)
    requires ClearInTurn(p, pieces, last, |pieces|) && Distinct(p, pieces)
    ensures Pass(p, Laid(pieces, last)) == Laid(Finished(p, pieces), last)
  {
    ScansFound(p, pieces, last);
    RewriteFound(p, pieces, last);
  }

  /** The same, once `findall` is known to return the tokens. */
  lemma RewriteFound(p: Pattern, pieces: seq<Piece>, last: string)
    requires FindAll(p, Laid(pieces, last), 0) == Tokens(pieces)
    requires forall i :: 0 <= i < |pieces| ==> |pieces[i].token| > 0
    requires ClearInTurn(p, pieces, last, |pieces|) && Distinct(p, pieces)
    ensures Pass(p, Laid(pieces, last)) == Laid(Finished(p, pieces), last)
  {
    RewriteLaid(p, pieces, last, |pieces|);
    SettledFound(p, pieces, last);
  }

  /** Once every token has come up, the loop has settled all of them. */
  lemma SettledFound(p: Pattern, pieces: seq<Piece>, last: string)
    requires FindAll(p, Laid(pieces, last), 0) == Tokens(pieces)
    requires NonEmpty(Tokens(pieces)[..|pieces|])
    requires RewriteAll(p, Laid(pieces, last), Tokens(pieces)[..|pieces|])
             == Laid(Settle(p, pieces, Tokens(pieces)[..|pieces|]), last)
    ensures Pass(p, Laid(pieces, last)) == Laid(Finished(p, pieces), last)
  {
    var ts := Tokens(pieces);
    assert ts[..|pieces|] == ts;
    SettleAll(p, pieces, ts);
  }

  /** A text in which the pattern matches only at `|pre|`, with `f` the longest match there,
      gets that match rewritten in place, or kept when it is skipped, and keeps the rest. */
  lemma PassSingle(p: Pattern, pre: string, f: string, post: string)
    requires Quiet(p, pre + f + post, 0, |pre|)
    requires InLang(p, f)
    requires forall e :: |pre| + |f| < e <= |pre + f + post| ==> !InLang(p, (pre + f + post)[|pre|..e])
    requires Quiet(p, post, 0, |post|)
    ensures Pass(p, pre + f + post) == if Skipped(p, f) then pre + f + post else pre + Rewritten(p, f) + post
  {
    var pieces := [Piece(pre, f)];
    var s := pre + f + post;
    assert pieces[1..] == [];
    assert Laid(pieces, post) == s;
    assert Scans(p, pieces, post);
    if !Skipped(p, f) {
      forall q | 0 <= q < |pre| ensures !OccursAt(s, f, q) {
      }
      forall k | 0 <= k <= |post| - |f| ensures !OccursAt(post, f, k) {
      }
      assert Clear(f, pieces, post);
      assert Settle(p, pieces, Tokens(pieces)[..0]) == pieces;
    }
    PassLaid(p, pieces, post);
  }
}
