/** Python's string primitives as the synthesis code uses them: `pat in s`, `s.split(sep)`,
    `sep.join(parts)` and `s.replace(pat, rep)`, all on non-empty literal patterns. */
module Text {

  /** `pat` occurs in `s` starting at position `k`. */
  predicate OccursAt(s: string, pat: string, k: int)
  {
    0 <= k && k + |pat| <= |s| && s[k..k + |pat|] == pat
  }

  /** Python's `pat in s`. */
  predicate Contains(s: string, pat: string)
  {
    exists k | 0 <= k <= |s| - |pat| :: OccursAt(s, pat, k)
  }

  /** Python's `sep.join(parts)`. */
  function Join(parts: seq<string>, sep: string): string
  {
    if |parts| == 0 then []
    else if |parts| == 1 then parts[0]
    else parts[0] + sep + Join(parts[1..], sep)
  }

  /** Python's `s.split(sep)` for a non-empty separator: the pieces between the occurrences
      of `sep`, found from the left without overlap. There is always at least one piece. */
  function Split(s: string, sep: string): (parts: seq<string>)
    requires |sep| > 0
    ensures |parts| >= 1
    decreases |s|
  {
    if |s| < |sep| then [s]
    else if sep <= s then [[]] + Split(s[|sep|..], sep)
    else
      var rest := Split(s[1..], sep);
      [[s[0]] + rest[0]] + rest[1..]
  }

  /** Python's `s.replace(pat, rep)`: every occurrence of `pat`, found from the left without
      overlap, is replaced by `rep`, and the text between occurrences is kept as it is. */
  function Replace(s: string, pat: string, rep: string): string
    requires |pat| > 0
    decreases |s|
  {
    if |s| < |pat| then s
    else if pat <= s then rep + Replace(s[|pat|..], pat, rep)
    else [s[0]] + Replace(s[1..], pat, rep)
  }

  /** `s.replace(pat, rep)` is `rep.join(s.split(pat))`. */
  lemma {:induction false} ReplaceJoinsSplit(s: string, pat: string, rep: string)
    requires |pat| > 0
    ensures Replace(s, pat, rep) == Join(Split(s, pat), rep)
    decreases |s|
  {
    if |s| < |pat| {
    } else if pat <= s {
      ReplaceJoinsSplit(s[|pat|..], pat, rep);
      assert ([[]] + Split(s[|pat|..], pat))[1..] == Split(s[|pat|..], pat);
    } else {
      ReplaceJoinsSplit(s[1..], pat, rep);
      JoinConsFirst(s[0], Split(s[1..], pat), rep);
    }
  }

  /** The reference for removing one character: the characters of `s` other than `c`, in order. */
  function Without(s: string, c: char): (r: string)
    ensures c !in r && |r| <= |s|
  {
    if s == [] then []
    else (if s[0] == c then [] else [s[0]]) + Without(s[1..], c)
  }

  lemma JoinConsFirst(c: char, parts: seq<string>, sep: string)
    requires |parts| >= 1
    ensures Join([[c] + parts[0]] + parts[1..], sep) == [c] + Join(parts, sep)
  {
    var ps := [[c] + parts[0]] + parts[1..];
    if |parts| > 1 {
      assert ps[1..] == parts[1..];
    }
  }

  lemma OccursShift(s: string, pat: string, k: int)
    requires |s| > 0 && k >= 0
    ensures OccursAt(s[1..], pat, k) <==> OccursAt(s, pat, k + 1)
  {
    if k + 1 + |pat| <= |s| {
      assert s[1..][k..k + |pat|] == s[k + 1..k + 1 + |pat|];
    }
  }

  lemma OccursAtFront(s: string, pat: string)
    ensures OccursAt(s, pat, 0) <==> pat <= s
  {
    if |pat| <= |s| {
      assert s[0..|pat|] == s[..|pat|];
    }
  }

  /** Splitting and joining back with the same separator gives the text back. */
  lemma {:induction false} JoinSplit(s: string, sep: string)
    requires |sep| > 0
    ensures Join(Split(s, sep), sep) == s
    decreases |s|
  {
    if |s| < |sep| {
    } else if sep <= s {
      var p := Split(s[|sep|..], sep);
      JoinSplit(s[|sep|..], sep);
      assert ([[]] + p)[1..] == p;
      assert s == sep + s[|sep|..];
    } else {
      var p := Split(s[1..], sep);
      JoinSplit(s[1..], sep);
      JoinConsFirst(s[0], p, sep);
      assert s == [s[0]] + s[1..];
    }
  }

  /** The first piece of a split is a prefix of the text. */
  lemma SplitFirstPrefix(s: string, sep: string)
    requires |sep| > 0
    ensures Split(s, sep)[0] <= s
  {
    var parts := Split(s, sep);
    JoinSplit(s, sep);
    if |parts| > 1 {
      assert Join(parts, sep) == parts[0] + sep + Join(parts[1..], sep);
    }
  }

  /** An occurrence inside a prefix is an occurrence in the whole text. */
  lemma OccursInPrefix(p: string, s: string, pat: string, k: int)
    requires p <= s && OccursAt(p, pat, k)
    ensures OccursAt(s, pat, k)
  {
    assert s[k..k + |pat|] == p[k..k + |pat|];
  }

  /** The first piece ends at the first occurrence of the separator; there is one exactly
      when there are two pieces or more. */
  lemma {:induction false} SplitLeftmost(s: string, sep: string)
    requires |sep| > 0
    ensures forall k :: 0 <= k < |Split(s, sep)[0]| ==> !OccursAt(s, sep, k)
    ensures |Split(s, sep)| > 1 ==> OccursAt(s, sep, |Split(s, sep)[0]|)
    ensures |Split(s, sep)| == 1 ==> Split(s, sep)[0] == s
    decreases |s|
  {
    var parts := Split(s, sep);
    OccursAtFront(s, sep);
    if |s| < |sep| {
    } else if sep <= s {
      JoinSplit(s, sep);
    } else {
      var p := Split(s[1..], sep);
      SplitLeftmost(s[1..], sep);
      assert parts == [[s[0]] + p[0]] + p[1..];
      forall k | 0 <= k < |parts[0]| ensures !OccursAt(s, sep, k) {
        if k > 0 { OccursShift(s, sep, k - 1); }
      }
      if |parts| > 1 {
        OccursShift(s, sep, |p[0]|);
      } else {
        assert s == [s[0]] + s[1..];
      }
    }
  }

  /** No piece of a split holds the separator. */
  lemma {:induction false} SplitPiecesFree(s: string, sep: string)
    requires |sep| > 0
    ensures forall i :: 0 <= i < |Split(s, sep)| ==> !Contains(Split(s, sep)[i], sep)
    decreases |s|
  {
    var parts := Split(s, sep);
    SplitLeftmost(s, sep);
    SplitFirstPrefix(s, sep);
    assert !Contains(parts[0], sep) by {
      forall k | 0 <= k <= |parts[0]| - |sep| ensures !OccursAt(parts[0], sep, k) {
        if OccursAt(parts[0], sep, k) {
          OccursInPrefix(parts[0], s, sep, k);
        }
      }
    }
    if |s| < |sep| {
    } else if sep <= s {
      var p := Split(s[|sep|..], sep);
      SplitPiecesFree(s[|sep|..], sep);
      forall i | 1 <= i < |parts| ensures !Contains(parts[i], sep) {
        assert parts[i] == p[i - 1];
      }
    } else {
      var p := Split(s[1..], sep);
      SplitPiecesFree(s[1..], sep);
      forall i | 1 <= i < |parts| ensures !Contains(parts[i], sep) {
        assert parts[i] == p[i];
      }
    }
  }

  /** `pat in s` exactly when `s.split(pat)` has more than one piece. */
  lemma SplitCount(s: string, sep: string)
    requires |sep| > 0
    ensures Contains(s, sep) <==> |Split(s, sep)| > 1
  {
    SplitLeftmost(s, sep);
    var parts := Split(s, sep);
    if |parts| > 1 {
      JoinSplit(s, sep);
      assert OccursAt(s, sep, |parts[0]|);
    } else {
      forall k | 0 <= k <= |s| - |sep| ensures !OccursAt(s, sep, k) {
        assert k < |parts[0]|;
      }
    }
  }

  /** Replacing a pattern that does not occur changes nothing. */
  lemma ReplaceAbsent(s: string, pat: string, rep: string)
    requires |pat| > 0 && !Contains(s, pat)
    ensures Replace(s, pat, rep) == s
  {
    SplitCount(s, pat);
    SplitLeftmost(s, pat);
    ReplaceJoinsSplit(s, pat, rep);
  }

  /** Replacing a pattern by itself changes nothing. */
  lemma ReplaceSelf(s: string, pat: string)
    requires |pat| > 0
    ensures Replace(s, pat, pat) == s
  {
    JoinSplit(s, pat);
    ReplaceJoinsSplit(s, pat, pat);
  }

  /** A pattern at the front is replaced, and the scan continues after it. */
  lemma ReplaceFront(pat: string, t: string, rep: string)
    requires |pat| > 0
    ensures Replace(pat + t, pat, rep) == rep + Replace(t, pat, rep)
  {
    assert pat <= pat + t;
    assert (pat + t)[|pat|..] == t;
  }

  /** Text before the first occurrence is copied unchanged. */
  lemma {:induction false} ReplaceSkip(s: string, k: nat, pat: string, rep: string)
    requires |pat| > 0 && k <= |s|
    requires forall j :: 0 <= j < k ==> !OccursAt(s, pat, j)
    ensures Replace(s, pat, rep) == s[..k] + Replace(s[k..], pat, rep)
    decreases k
  {
    if k == 0 {
      assert s[..0] == [] && s[0..] == s;
    } else if |s| < |pat| {
      ReplaceAbsentShort(s[k..], pat, rep);
    } else {
      OccursAtFront(s, pat);
      assert !OccursAt(s, pat, 0);
      var t := s[1..];
      forall j | 0 <= j < k - 1 ensures !OccursAt(t, pat, j) {
        OccursShift(s, pat, j);
      }
      ReplaceSkip(t, k - 1, pat, rep);
      SliceTail(s, k, k);
      AppendAssoc([s[0]], t[..k - 1], Replace(s[k..], pat, rep));
    }
  }

  /** A prefix holding no start of the pattern is copied unchanged. */
  lemma ReplaceSkipPrefix(a: string, b: string, pat: string, rep: string)
    requires |pat| > 0
    requires forall j :: 0 <= j < |a| ==> !OccursAt(a + b, pat, j)
    ensures Replace(a + b, pat, rep) == a + Replace(b, pat, rep)
  {
    ReplaceSkip(a + b, |a|, pat, rep);
    assert (a + b)[..|a|] == a && (a + b)[|a|..] == b;
  }

  /** The pattern alone becomes the replacement. */
  lemma ReplaceWhole(pat: string, rep: string)
    requires |pat| > 0
    ensures Replace(pat, pat, rep) == rep
  {
    ReplaceFront(pat, [], rep);
    assert pat + [] == pat;
    ReplaceAbsentShort([], pat, rep);
    assert rep + [] == rep;
  }

  lemma ReplaceAbsentShort(s: string, pat: string, rep: string)
    requires |pat| > 0 && |s| < |pat|
    ensures Replace(s, pat, rep) == s
  {
  }

  /** Text made of characters other than the pattern's first passes through unchanged. */
  lemma ReplaceSkipFree(p: string, t: string, pat: string, rep: string)
    requires |pat| > 0 && pat[0] !in p
    ensures Replace(p + t, pat, rep) == p + Replace(t, pat, rep)
  {
    var s := p + t;
    forall j | 0 <= j < |p| ensures !OccursAt(s, pat, j) {
      assert s[j] == p[j] && p[j] in p;
      NotAtBy(s, pat, j, 0);
    }
    ReplaceSkip(s, |p|, pat, rep);
    assert s[..|p|] == p && s[|p|..] == t;
  }

  /** A position whose `d`-th character differs from the pattern's is no occurrence. */
  lemma NotAtBy(s: string, pat: string, k: nat, d: nat)
    requires d < |pat| && k + d < |s| && s[k + d] != pat[d]
    ensures !OccursAt(s, pat, k)
  {
    assert k + |pat| <= |s| ==> s[k..k + |pat|][d] == s[k + d];
  }

  /** A text without the pattern's first character cannot contain the pattern. */
  lemma AbsentByFirst(s: string, pat: string)
    requires |pat| > 0 && pat[0] !in s
    ensures !Contains(s, pat)
  {
    forall k | 0 <= k <= |s| - |pat| ensures !OccursAt(s, pat, k) {
      assert s[k] in s;
      NotAtBy(s, pat, k, 0);
    }
  }

  /** Replacing one character by another is a pointwise substitution that keeps the length. */
  lemma {:induction false} ReplaceChar(s: string, c: char, d: char)
    ensures |Replace(s, [c], [d])| == |s|
    ensures forall k :: 0 <= k < |s| ==> Replace(s, [c], [d])[k] == if s[k] == c then d else s[k]
    decreases |s|
  {
    if |s| > 0 {
      ReplaceChar(s[1..], c, d);
      var r := Replace(s, [c], [d]);
      var t := Replace(s[1..], [c], [d]);
      if s[0] == c {
        assert [c] <= s;
        assert r == [d] + t;
      } else {
        assert !([c] <= s);
        assert r == [s[0]] + t;
      }
      forall k | 0 <= k < |s| ensures r[k] == if s[k] == c then d else s[k] {
        if k > 0 { assert r[k] == t[k - 1] && s[k] == s[1..][k - 1]; }
      }
    }
  }

  /** Replacing one character by nothing removes every copy of it and keeps the rest in order. */
  lemma {:induction false} ReplaceCharDelete(s: string, c: char)
    ensures Replace(s, [c], []) == Without(s, c)
    decreases |s|
  {
    if |s| > 0 {
      ReplaceCharDelete(s[1..], c);
      if [c] <= s {
        assert [] + Replace(s[1..], [c], []) == Replace(s[1..], [c], []);
      }
    }
  }

  /** In `pre + pat + post`, the copy of `pat` after `pre` is the first one, and `post` holds
      none. */
  predicate OnlyAt(pre: string, pat: string, post: string)
  {
    (forall q :: 0 <= q < |pre| ==> !OccursAt(pre + pat + post, pat, q)) && !Contains(post, pat)
  }

  /** Such a copy is the one replaced, and the rest is kept. */
  lemma ReplaceOnlyAt(pre: string, pat: string, post: string, rep: string)
    requires |pat| > 0 && OnlyAt(pre, pat, post)
    ensures Replace(pre + pat + post, pat, rep) == pre + rep + post
  {
    assert pre + pat + post == pre + (pat + post);
    ReplaceSkipPrefix(pre, pat + post, pat, rep);
    ReplaceFront(pat, post, rep);
    ReplaceAbsent(post, pat, rep);
  }

  /** `pat` occurs twice in `s` without overlap. */
  predicate TwiceApart(s: string, pat: string)
  {
    exists a, b | 0 <= a && a + |pat| <= b <= |s| - |pat| :: OccursAt(s, pat, a) && OccursAt(s, pat, b)
  }

  /** With no occurrence before `k` and one at `k`, the first piece is `s[..k]` and the other
      pieces are those of the text after that occurrence. */
  lemma {:induction false} SplitSkip(s: string, k: nat, sep: string)
    requires |sep| > 0 && OccursAt(s, sep, k)
    requires forall j :: 0 <= j < k ==> !OccursAt(s, sep, j)
    ensures Split(s, sep) == [s[..k]] + Split(s[k + |sep|..], sep)
    decreases k
  {
    OccursAtFront(s, sep);
    if k > 0 {
      assert !OccursAt(s, sep, 0);
      forall j | 0 <= j < k - 1 ensures !OccursAt(s[1..], sep, j) {
        OccursShift(s, sep, j);
      }
      OccursShift(s, sep, k - 1);
      var t := s[1..];
      SplitSkip(t, k - 1, sep);
      SplitPastFirst(s, k, sep);
    }
  }

  /** One step of `SplitSkip`: a text not starting with the separator splits as its tail does,
      with its first character put back on the first piece. */
  lemma SplitPastFirst(s: string, k: nat, sep: string)
    requires |sep| > 0 && 0 < k && k + |sep| <= |s| && !(sep <= s)
    requires Split(s[1..], sep) == [s[1..][..k - 1]] + Split(s[1..][k - 1 + |sep|..], sep)
    ensures Split(s, sep) == [s[..k]] + Split(s[k + |sep|..], sep)
  {
    SplitNotAtFront(s, sep);
    SliceTail(s, k, k + |sep|);
    PieceBack(s[0], Split(s[1..], sep), s[1..][..k - 1], Split(s[1..][k - 1 + |sep|..], sep));
    var after := s[k + |sep|..];
    assert s[1..][k - 1 + |sep|..] == after;
    PiecesAgree(Split(s, sep), [s[0]] + s[1..][..k - 1], s[..k],
                Split(s[1..][k - 1 + |sep|..], sep), Split(after, sep));
  }

  /** Equal first pieces and equal remaining pieces make equal splits. */
  lemma PiecesAgree(a: seq<string>, x: string, y: string, q1: seq<string>, q2: seq<string>)
    requires a == [x] + q1 && x == y && q1 == q2
    ensures a == [y] + q2
  {
  }

  /** A text long enough for the separator but not starting with it. */
  lemma SplitNotAtFront(s: string, sep: string)
    requires |sep| > 0 && |s| >= |sep| && !(sep <= s)
    ensures Split(s, sep) == [[s[0]] + Split(s[1..], sep)[0]] + Split(s[1..], sep)[1..]
  {
  }

  /** Putting a character back on the first of the pieces `[p] + q`. */
  lemma PieceBack(c: char, rest: seq<string>, p: string, q: seq<string>)
    requires rest == [p] + q
    ensures [[c] + rest[0]] + rest[1..] == [[c] + p] + q
  {
    assert rest[1..] == q;
  }

  /** The pieces after the first are the pieces of the text after the first occurrence. */
  lemma SplitRest(s: string, sep: string)
    requires |sep| > 0 && |Split(s, sep)| > 1
    ensures |Split(s, sep)[0]| + |sep| <= |s|
    ensures Split(s, sep)[1..] == Split(s[|Split(s, sep)[0]| + |sep|..], sep)
    ensures |Split(s[|Split(s, sep)[0]| + |sep|..], sep)| == |Split(s, sep)| - 1
  {
    SplitLeftmost(s, sep);
    SplitSkip(s, |Split(s, sep)[0]|, sep);
  }

  /** An occurrence in a suffix is an occurrence in the whole text, shifted. */
  lemma OccursSuffix(s: string, d: nat, pat: string, k: int)
    requires d <= |s| && k >= 0
    ensures OccursAt(s[d..], pat, k) <==> OccursAt(s, pat, d + k)
  {
    if k + |pat| <= |s| - d {
      assert s[d..][k..k + |pat|] == s[d + k..d + k + |pat|];
    }
  }

  /** An occurrence, and another in the text after it, are two apart. */
  lemma TwiceAfter(s: string, sep: string, a: nat, k: nat)
    requires OccursAt(s, sep, a) && OccursAt(s[a + |sep|..], sep, k)
    ensures TwiceApart(s, sep)
  {
    OccursSuffix(s, a + |sep|, sep, k);
    assert OccursAt(s, sep, a + |sep| + k);
  }

  /** With two pieces or more, the separator occurs right after the first piece. */
  lemma SplitFirstOccurs(s: string, sep: string)
    requires |sep| > 0 && |Split(s, sep)| > 1
    ensures OccursAt(s, sep, |Split(s, sep)[0]|)
  {
    SplitLeftmost(s, sep);
  }

  /** Three pieces mean a second occurrence after the first. */
  lemma SplitThreeTwice(s: string, sep: string)
    requires |sep| > 0 && |Split(s, sep)| > 2
    ensures TwiceApart(s, sep)
  {
    SplitRest(s, sep);
    SplitFirstOccurs(s, sep);
    var a := |Split(s, sep)[0]|;
    var t := s[a + |sep|..];
    FewerAfterFirst(Split(s, sep), Split(t, sep));
    SeparatorAgain(s, sep, a);
  }

  /** The text after the first occurrence, when it splits in two pieces or more, holds
      the second occurrence. */
  lemma SeparatorAgain(s: string, sep: string, a: nat)
    requires |sep| > 0 && OccursAt(s, sep, a)
    requires |Split(s[a + |sep|..], sep)| > 1
    ensures TwiceApart(s, sep)
  {
    var t := s[a + |sep|..];
    SplitFirstOccurs(t, sep);
    TwiceAfter(s, sep, a, |Split(t, sep)[0]|);
  }

  /** Dropping the first of three pieces or more leaves two or more. */
  lemma FewerAfterFirst(parts: seq<string>, rest: seq<string>)
    requires |parts| > 2 && |rest| == |parts| - 1
    ensures |rest| > 1
  {
  }

  /** Pieces after the first that number two or more come from a rest of the text that still
      holds the separator. */
  lemma ThirdPiece(parts: seq<string>, rest: seq<string>)
    requires |parts| > 0 && parts[1..] == rest && |rest| > 1
    ensures |parts| > 2
  {
    assert |parts[1..]| == |parts| - 1;
  }

  /** An occurrence makes the text contain the pattern. */
  lemma ContainsAt(s: string, pat: string, k: nat)
    requires OccursAt(s, pat, k)
    ensures Contains(s, pat)
  {
  }

  /** Two occurrences apart mean three pieces or more. */
  lemma TwiceSplitThree(s: string, sep: string)
    requires |sep| > 0 && TwiceApart(s, sep)
    ensures |Split(s, sep)| > 2
  {
    var x, y :| 0 <= x && x + |sep| <= y <= |s| - |sep| && OccursAt(s, sep, x) && OccursAt(s, sep, y);
    ContainsAt(s, sep, x);
    SplitCount(s, sep);
    FirstAtOrBefore(s, sep, x);
    SplitRest(s, sep);
    var a := |Split(s, sep)[0]|;
    LaterInRest(s, sep, a + |sep|, y);
    var t := s[a + |sep|..];
    SplitCount(t, sep);
    ThirdPiece(Split(s, sep), Split(t, sep));
  }

  /** An occurrence at or after `d` lies in the text from `d` on. */
  lemma LaterInRest(s: string, sep: string, d: nat, y: nat)
    requires d <= y && OccursAt(s, sep, y)
    ensures Contains(s[d..], sep)
  {
    OccursSuffix(s, d, sep, y - d);
    ContainsAt(s[d..], sep, y - d);
  }

  /** The first piece ends no later than any occurrence. */
  lemma FirstAtOrBefore(s: string, sep: string, x: nat)
    requires |sep| > 0 && OccursAt(s, sep, x)
    ensures |Split(s, sep)[0]| <= x
  {
    SplitLeftmost(s, sep);
  }

  /** A text splits into three or more pieces exactly when the separator occurs twice. */
  lemma SplitThree(s: string, sep: string)
    requires |sep| > 0
    ensures |Split(s, sep)| > 2 <==> TwiceApart(s, sep)
  {
    if |Split(s, sep)| > 2 {
      SplitThreeTwice(s, sep);
    }
    if TwiceApart(s, sep) {
      TwiceSplitThree(s, sep);
    }
  }

  /** Splitting undoes joining when no piece holds the one-character separator. */
  lemma {:induction false} SplitJoinChar(parts: seq<string>, c: char)
    requires |parts| >= 1
    requires forall i :: 0 <= i < |parts| ==> c !in parts[i]
    ensures Split(Join(parts, [c]), [c]) == parts
    decreases |parts|
  {
    var s := Join(parts, [c]);
    if |parts| == 1 {
      AbsentByFirst(parts[0], [c]);
      SplitCount(parts[0], [c]);
      SplitLeftmost(parts[0], [c]);
    } else {
      var k := |parts[0]|;
      assert s == parts[0] + [c] + Join(parts[1..], [c]);
      assert s[k..k + 1] == [c];
      forall j | 0 <= j < k ensures !OccursAt(s, [c], j) {
        assert s[j] == parts[0][j] && parts[0][j] in parts[0];
        NotAtBy(s, [c], j, 0);
      }
      SplitSkip(s, k, [c]);
      assert s[..k] == parts[0];
      assert s[k + 1..] == Join(parts[1..], [c]);
      SplitJoinChar(parts[1..], c);
    }
  }

  /** `s.replace(pat, rep)` exchanges each occurrence for `rep` and keeps every piece between
      occurrences as it is; no kept piece holds `pat`. */
  lemma ReplaceExchanges(s: string, pat: string, rep: string)
    requires |pat| > 0
    ensures s == Join(Split(s, pat), pat)
    ensures Replace(s, pat, rep) == Join(Split(s, pat), rep)
    ensures forall i :: 0 <= i < |Split(s, pat)| ==> !Contains(Split(s, pat)[i], pat)
  {
    JoinSplit(s, pat);
    ReplaceJoinsSplit(s, pat, rep);
    SplitPiecesFree(s, pat);
  }

  /** A one-character pattern occurs exactly when the character does. */
  lemma ContainsChar(s: string, c: char)
    ensures Contains(s, [c]) <==> c in s
  {
    if c in s {
      var k :| 0 <= k < |s| && s[k] == c;
      assert OccursAt(s, [c], k);
    }
    if Contains(s, [c]) {
      var k :| 0 <= k <= |s| - 1 && OccursAt(s, [c], k);
      assert s[k..k + 1][0] == s[k];
    }
  }

  /** `s.replace` on a text that starts with the pattern. */
  lemma ReplaceMatchFirst(s: string, pat: string, rep: string)
    requires |pat| > 0 && |s| >= |pat| && pat <= s
    ensures Replace(s, pat, rep) == rep + Replace(s[|pat|..], pat, rep)
  {
  }

  /** `s.replace` on a text that does not start with the pattern. */
  lemma ReplaceKeepFirst(s: string, pat: string, rep: string)
    requires |pat| > 0 && |s| > 0 && !(|s| >= |pat| && pat <= s)
    ensures Replace(s, pat, rep) == [s[0]] + Replace(s[1..], pat, rep)
  {
    if |s| < |pat| {
      ReplaceAbsentShort(s[1..], pat, rep);
      assert s == [s[0]] + s[1..];
    }
  }

  /** A prefix of `a` is a prefix of anything that starts with `a`. */
  lemma PrefixExtends(a: string, t: string, pat: string)
    ensures |a| >= |pat| && pat <= a ==> pat <= a + t
  {
  }

  /** A prefix agrees with the text position by position. */
  lemma CharOfPrefix(s: string, pat: string, k: int)
    ensures |pat| <= |s| && pat <= s && 0 <= k < |pat| ==> s[k] == pat[k] && pat[k] in pat
  {
  }

  /** A prefix of `a + [c] + b` that does not hold `c` is a prefix of `a`. */
  lemma PrefixWithin(a: string, c: char, b: string, pat: string)
    requires c !in pat && |a + [c] + b| >= |pat| && pat <= a + [c] + b
    ensures |a| >= |pat| && pat <= a
  {
    var s := a + [c] + b;
    CharOfPrefix(s, pat, |a|);
    assert a[..|pat|] == s[..|pat|];
  }

  /** The step of `ReplaceAcross` where `a` does not start with the pattern. */
  lemma ReplaceAcrossKeep(a: string, c: char, b: string, pat: string, rep: string)
    requires |pat| > 0 && |a| > 0
    requires !(|a + [c] + b| >= |pat| && pat <= a + [c] + b)
    requires Replace(a[1..] + [c] + b, pat, rep) == Replace(a[1..], pat, rep) + [c] + Replace(b, pat, rep)
    ensures Replace(a + [c] + b, pat, rep) == Replace(a, pat, rep) + [c] + Replace(b, pat, rep)
  {
    var s := a + [c] + b;
    ReplaceKeepFirst(s, pat, rep);
    PrefixExtends(a, [c] + b, pat);
    assert s == a + ([c] + b);
    ReplaceKeepFirst(a, pat, rep);
    TailOfJoined(a, c, b);
    var u, v := Replace(a[1..], pat, rep), Replace(b, pat, rep);
    assert Replace(s, pat, rep) == [a[0]] + (u + [c] + v);
    assert Replace(a, pat, rep) == [a[0]] + u;
    ConsAssoc(a[0], u, c, v);
  }

  /** Slicing the tail of a text and slicing the text agree. */
  lemma SliceTail(s: string, k: nat, m: nat)
    requires 0 < k <= m <= |s|
    ensures s[1..][m - 1..] == s[m..] && s[..k] == [s[0]] + s[1..][..k - 1]
  {
  }

  lemma AppendAssoc(a: string, b: string, c: string)
    ensures a + (b + c) == (a + b) + c
  {
  }

  lemma ConsAssoc(x: char, u: string, c: char, v: string)
    ensures [x] + (u + [c] + v) == ([x] + u) + [c] + v
  {
  }

  lemma TailOfJoined(a: string, c: char, b: string)
    requires |a| > 0
    ensures (a + [c] + b)[0] == a[0] && (a + [c] + b)[1..] == a[1..] + [c] + b
  {
  }

  /** A text starting with a character the pattern lacks does not start with the pattern. */
  lemma NotPrefixByFirst(c: char, b: string, pat: string)
    requires |pat| > 0 && c !in pat
    ensures !(pat <= [c] + b)
  {
    assert pat[0] in pat;
    assert ([c] + b)[0] == c;
  }

  /** Replacing a pattern that does not hold `c` works on each side of a `c` separately:
      no occurrence can reach across it. */
  lemma {:induction false} ReplaceAcross(a: string, c: char, b: string, pat: string, rep: string)
    requires |pat| > 0 && c !in pat
    ensures Replace(a + [c] + b, pat, rep) == Replace(a, pat, rep) + [c] + Replace(b, pat, rep)
    decreases |a|
  {
    var s := a + [c] + b;
    if a == [] {
      assert s == [c] + b && s[1..] == b;
      NotPrefixByFirst(c, b, pat);
      ReplaceKeepFirst(s, pat, rep);
    } else if |s| >= |pat| && pat <= s {
      PrefixWithin(a, c, b, pat);
      ReplaceMatchFirst(s, pat, rep);
      ReplaceMatchFirst(a, pat, rep);
      assert s[|pat|..] == a[|pat|..] + [c] + b;
      ReplaceAcross(a[|pat|..], c, b, pat, rep);
    } else {
      TailOfJoined(a, c, b);
      ReplaceAcross(a[1..], c, b, pat, rep);
      ReplaceAcrossKeep(a, c, b, pat, rep);
    }
  }

  /** An occurrence that cannot start in `a` nor end in `b` lies inside `x`. */
  lemma ContainedInMiddle(a: string, x: string, b: string, pat: string)
    requires |pat| > 0 && pat[0] !in a && pat[|pat| - 1] !in b
    requires Contains(a + x + b, pat)
    ensures Contains(x, pat)
  {
    var s := a + x + b;
    var k :| 0 <= k <= |s| - |pat| && OccursAt(s, pat, k);
    assert s[k] == pat[0];
    assert s[k + |pat| - 1] == pat[|pat| - 1];
    assert |a| <= k && k + |pat| <= |a| + |x|;
    assert x[k - |a|..k - |a| + |pat|] == s[k..k + |pat|];
    assert OccursAt(x, pat, k - |a|);
  }
}
