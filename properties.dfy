/**
 * Facts about replacing the span `s[i..e]` of a text by another text, the
 * one edit `String.prototype.replace` makes when its regex has no `g` flag.
 */
module TextSplice {
  import opened PublicPathPattern

  /** `s` with `s[i..e]` replaced by `rep`. */
  function Splice(s: string, i: int, e: int, rep: string): (r: string)
    requires 0 <= i <= e <= |s|
    ensures |r| == |s| - (e - i) + |rep|
    ensures r[..i] == s[..i]
    ensures r[i..i + |rep|] == rep
    ensures r[i + |rep|..] == s[e..]
  {
    var r := s[..i] + rep + s[e..];
    assert r[i..i + |rep|] == rep;
    assert r[i + |rep|..] == s[e..];
    r
  }

  /** Splicing in a text that ends in `)` over a span that ends in `;` always changes the text. */
  lemma SpliceChanges(s: string, i: int, e: int, rep: string)
    requires 0 <= i < e <= |s| && s[e - 1] == ';'
    requires |rep| > 0 && rep[|rep| - 1] == ')'
    ensures Splice(s, i, e, rep) != s
  {
    var r := Splice(s, i, e, rep);
    if |r| == |s| {
      assert r[e - 1] == r[i..i + |rep|][|rep| - 1];
    }
  }

  /** Equal suffixes have equal slices at corresponding places. */
  lemma SliceOfEqualSuffix(a: string, b: string, p: int, q: int, j: int, f: int)
    requires 0 <= p <= j <= f <= |a| && 0 <= q <= |b| && a[p..] == b[q..]
    ensures q + (j - p) >= 0 && q + (f - p) <= |b|
    ensures b[q + (j - p)..q + (f - p)] == a[j..f]
  {
    assert |a| - p == |b| - q;
    forall k | 0 <= k < f - j ensures b[q + (j - p)..q + (f - p)][k] == a[j..f][k] {
      assert b[q + (j - p) + k] == b[q..][j - p + k] == a[p..][j - p + k] == a[j + k];
    }
  }

  /** A match lying after the replaced span is still a match in the spliced text, moved by the change in length. */
  lemma SpliceKeepsLaterMatch(s: string, i: int, e: int, rep: string, j: int, f: int)
    requires 0 <= i <= e <= j && Matches(s, j, f)
    ensures var d := |rep| - (e - i);
            && Splice(s, i, e, rep)[j + d..f + d] == s[j..f]
            && Matches(Splice(s, i, e, rep), j + d, f + d)
  {
    var r := Splice(s, i, e, rep);
    var d := |rep| - (e - i);
    SliceOfEqualSuffix(s, r, e, i + |rep|, j, f);
    MatchesShift(s, j, f, r, d);
  }

  /** The same, with the shift written as the change in the text's length. */
  lemma SpliceKeepsLaterMatchShift(s: string, i: int, e: int, rep: string, r: string, j: int, f: int)
    requires 0 <= i <= e <= j && Matches(s, j, f) && r == Splice(s, i, e, rep)
    ensures var d := |r| - |s|;
            && Matches(r, j + d, f + d)
            && r[j + d..f + d] == s[j..f]
  {
    assert |r| - |s| == |rep| - (e - i);
    SpliceKeepsLaterMatch(s, i, e, rep, j, f);
  }

  /** Splicing over the middle one of three texts keeps the outer two. */
  lemma SpliceMiddle(pre: string, mid: string, after: string, rep: string)
    ensures Splice(pre + mid + after, |pre|, |pre| + |mid|, rep) == pre + rep + after
  {
    var s := pre + mid + after;
    assert s[..|pre|] == pre;
    assert s[|pre| + |mid|..] == after;
  }

  /** A match inside the inserted text is a match in the spliced text. */
  lemma SpliceKeepsInsertedMatch(s: string, i: int, e: int, rep: string, a: int, b: int)
    requires 0 <= i <= e <= |s| && Matches(rep, a, b)
    ensures Matches(Splice(s, i, e, rep), i + a, i + b)
  {
    var r := Splice(s, i, e, rep);
    assert r[i + a..i + b] == r[i..i + |rep|][a..b] == rep[a..b];
    MatchesShift(rep, a, b, r, i);
  }
}

/**
 * What the rewrite guarantees about the bootstrap text it is given: where the
 * replaced span begins and ends, what is kept around it, what the replacement
 * looks like, and that applying the rewrite again changes the text again.
 */
module RewriteProperties {
  import opened Optional
  import opened PublicPathPattern
  import opened Substitution
  import opened DynamicPubPathPlugin
  import opened TextSplice

  /** No character of `t` ends a line. */
  predicate SingleLine(t: string) {
    forall k :: 0 <= k < |t| ==> !IsLineTerminator(t[k])
  }

  /** Two texts without a line terminator make one without a line terminator. */
  lemma SingleLineConcat(a: string, b: string)
    requires SingleLine(a) && SingleLine(b)
    ensures SingleLine(a + b)
  {
    forall k | 0 <= k < |a + b| ensures !IsLineTerminator((a + b)[k]) {
      if k >= |a| {
        assert (a + b)[k] == b[k - |a|];
      }
    }
  }

  /**
   * The greedy `(.*);` of the selected match: no line terminator inside the
   * span, and no `;` after it on the same line, so the span ends at that
   * line's last `;`.
   */
  lemma SelectedEndsAtLastSemicolon(s: string, i: int, e: int)
    requires IsSelected(s, i, e)
    ensures forall k :: i <= k < e ==> !IsLineTerminator(s[k])
    ensures forall k :: e <= k < LineEnd(s, e) ==> s[k] != ';'
  {
    var n := |Assign|;
    forall k | i <= k < i + n ensures !IsLineTerminator(s[k]) {
      assert s[k] == s[i..i + n][k - i] == Assign[k - i];
    }
    forall k | e <= k < LineEnd(s, e) ensures s[k] != ';' {
      if s[k] == ';' {
        assert Matches(s, i, k + 1);
        assert false;
      }
    }
  }

  /**
   * Only the selected span changes: the text before it and the text after it
   * are copied, and the length changes by the replacement's length less the
   * span's length (the old `;` is not written back).
   */
  lemma RewriteSplices(source: string, text: string, i: int, e: int)
    requires IsSelected(source, i, e)
    ensures Rewrite(source, text) == Splice(source, i, e, Replacement(source, i, e, text))
  {
  }

  /** The rewrite leaves the text unchanged exactly when the pattern finds nothing to replace. */
  lemma RewriteIdentityIffNoMatch(source: string, text: string)
    ensures Rewrite(source, text) == source <==> !HasMatch(source)
  {
    var found := FindMatch(source);
    if found.Some? {
      var (i, e) := found.value;
      var rep := Replacement(source, i, e, text);
      assert rep[|rep| - 1] == Tail[|Tail| - 1] == ')';
      RewriteSplices(source, text, i, e);
      SpliceChanges(source, i, e, rep);
    }
  }

  /** With a `$`-free expression the replacement carries the expression verbatim. */
  lemma ReplacementShape(s: string, i: int, e: int, text: string)
    requires Matches(s, i, e) && NoDollar(text)
    ensures Replacement(s, i, e, text)
         == "__webpack_require__.p" + " = (function(o){ " + "o.toString = " + "function() { " + "return "
            + text + " }; return o; }({}))"
  {
    ExpandLiteral(text, Context(s, i, e));
  }

  /**
   * Later assignments are untouched: a match that starts at or after the end of
   * the selected one is still a match, with the same text, in the rewritten
   * source, moved by the change in length.
   */
  lemma LaterMatchesSurvive(source: string, text: string, r: string, i: int, e: int, j: int, f: int)
    requires r == Rewrite(source, text)
    requires IsSelected(source, i, e) && e <= j && Matches(source, j, f)
    ensures var d := |r| - |source|;
            && Matches(r, j + d, f + d)
            && r[j + d..f + d] == source[j..f]
  {
    RewriteSplices(source, text, i, e);
    SpliceKeepsLaterMatchShift(source, i, e, Replacement(source, i, e, text), r, j, f);
  }

  /** The fixed head holds no line terminator and opens with ` = `. */
  lemma HeadIsSingleLine()
    ensures SingleLine(Head) && Head[..3] == " = "
  {
    var a, b, c, d := " = (function(o){ ", "o.toString = ", "function() { ", "return ";
    assert SingleLine(a) && SingleLine(b) && SingleLine(c) && SingleLine(d);
    SingleLineConcat(a, b);
    SingleLineConcat(a + b, c);
    SingleLineConcat(a + b + c, d);
    assert Head == a + b + c + d;
  }

  /**
   * The fixed tail holds no line terminator and opens with ` };`; its last `;`
   * is the one after `return o`, at index 12.
   */
  lemma TailIsSingleLine()
    ensures SingleLine(Tail) && Tail[..3] == " };"
    ensures |Tail| > 13 && Tail[12] == ';' && forall k :: 13 <= k < |Tail| ==> Tail[k] != ';'
  {
  }

  /**
   * The replacement for a single-line expression without `$` is itself a match
   * of the pattern, and the greedy `.*` takes it up to the `;` after `return o`,
   * the last `;` of the replacement.
   */
  lemma ReplacementRematches(rep: string, text: string)
    requires rep == Accessor + Head + text + Tail && SingleLine(text)
    ensures Matches(rep, 0, |Accessor| + |Head| + |text| + 13)
    ensures forall e' :: |Accessor| + |Head| + |text| + 13 < e' ==> !Matches(rep, 0, e')
  {
    var a := |Accessor|;
    var mid := Head + text;
    var t := a + |mid|;
    HeadIsSingleLine();
    TailIsSingleLine();
    SingleLineConcat(Head, text);
    assert rep == Accessor + mid + Tail;
    assert rep[..|Assign|] == Accessor + mid[..3] == Assign;
    assert rep[t..] == Tail;
    forall k | |Assign| <= k < t + 12 ensures !IsLineTerminator(rep[k]) {
      if k < t {
        assert rep[k] == mid[k - a];
      } else {
        assert rep[k] == rep[t..][k - t];
      }
    }
    assert rep[t + 12] == rep[t..][12];
    forall e' | t + 13 < e' ensures !Matches(rep, 0, e') {
      if e' <= |rep| {
        assert rep[e' - 1] == rep[t..][e' - 1 - t];
      }
    }
  }

  /**
   * The rewrite is not a fixed point: the replacement itself contains
   * `__webpack_require__.p = ` and a `;` on one line, so when the expression
   * has no `$` and no line break, rewriting the output changes it again.
   */
  lemma NotAFixedPoint(source: string, text: string)
    requires HasMatch(source) && NoDollar(text) && SingleLine(text)
    ensures Rewrite(Rewrite(source, text), text) != Rewrite(source, text)
  {
    var (i, e) := FindMatch(source).value;
    var rep := Replacement(source, i, e, text);
    ExpandLiteral(text, Context(source, i, e));
    ReplacementRematches(rep, text);
    RewriteSplices(source, text, i, e);
    SpliceKeepsInsertedMatch(source, i, e, rep, 0, |Accessor| + |Head| + |text| + 13);
    RewriteIdentityIffNoMatch(Rewrite(source, text), text);
  }

  /** `$$` in the expression comes out as a single `$`: the expression is not always verbatim. */
  lemma DollarPairCollapses(s: string, i: int, e: int)
    requires Matches(s, i, e)
    ensures Replacement(s, i, e, "a$$b") == Accessor + Head + "a$b" + Tail
  {
    var m := Context(s, i, e);
    assert "a$$b" == "a" + ("$$" + "b");
    ExpandLiteralPrefix("a", "$$" + "b", m);
    assert Token("$$" + "b", m) == ("$", 2);
    assert ("$$" + "b")[2..] == "b";
    ExpandLiteral("b", m);
  }

  /** `$&` in the expression comes out as the whole matched assignment. */
  lemma MatchedTextPattern(s: string, i: int, e: int)
    requires Matches(s, i, e)
    ensures Replacement(s, i, e, "$&") == Accessor + Head + s[i..e] + Tail
  {
    var m := Context(s, i, e);
    assert Token("$&", m) == (s[i..e], 2);
    assert "$&"[2..] == "";
  }

  /**
   * An assignment that ends its line, in the shape webpack emits, after code
   * holding no earlier match, with no `expression` option: the line up to its
   * final `;` is replaced by the template with `null` as the expression,
   * whatever `;` the old right-hand side holds; the code before it and the
   * text from the line break on are kept.
   */
  lemma AssignmentEndingItsLine(pre: string, rhs: string, after: string)
    requires SingleLine(rhs) && |after| > 0 && IsLineTerminator(after[0])
    requires forall i', e' :: i' < |pre| ==> !Matches(pre + (Assign + rhs + ";") + after, i', e')
    ensures Apply(None, pre + (Assign + rhs + ";") + after) == pre + (Accessor + Head + "null" + Tail) + after
  {
    var line := Assign + rhs + ";";
    var s := pre + line + after;
    var p := |pre|;
    var end := p + |line|;
    assert IsSelected(s, p, end) by {
      AssignmentLineSelected(pre, line, rhs, after);
    }
    var rep := Replacement(s, p, end, "null");
    assert rep == Accessor + Head + "null" + Tail by {
      ExpandLiteral("null", Context(s, p, end));
    }
    assert Apply(None, s) == Splice(s, p, end, rep) by {
      RewriteSplices(s, "null", p, end);
    }
    SpliceMiddle(pre, line, after, rep);
  }

  /** In such a text the match is the assignment's line up to its final `;`. */
  lemma AssignmentLineSelected(pre: string, line: string, rhs: string, after: string)
    requires SingleLine(rhs) && line == Assign + rhs + ";"
    requires |after| > 0 && IsLineTerminator(after[0])
    requires forall i', e' :: i' < |pre| ==> !Matches(pre + line + after, i', e')
    ensures IsSelected(pre + line + after, |pre|, |pre| + |line|)
  {
    var s := pre + line + after;
    var p := |pre|;
    var n := |Assign|;
    var end := p + |line|;
    assert s[p..end] == line;
    assert s[p..p + n] == line[..n] == Assign;
    assert s[end] == after[0] && s[end - 1] == line[|line| - 1] == ';';
    forall k | p + n <= k < end - 1 ensures !IsLineTerminator(s[k]) {
      assert s[k] == line[k - p] == rhs[k - p - n];
    }
    assert Matches(s, p, end);
    forall e' | end < e' ensures !Matches(s, p, e') {
      assert IsLineTerminator(s[end]);
    }
  }
}
