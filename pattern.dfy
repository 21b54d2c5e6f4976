/** The small Option datatype shared by the modules below. */
module Optional {
  datatype Option<+T> = None | Some(value: T)
}

/**
 * The one regular expression the plugin uses, `/(__webpack_require__\.p) = (.*);/`,
 * modelled by hand rather than through a regex engine.
 *
 * `Matches(s, i, e)` says what it means for the pattern to match the text `s[i..e]`;
 * `IsSelected(s, i, e)` adds the choice JavaScript's backtracking matcher makes among
 * all such matches when the regex has no `g` flag: the leftmost start, and for that
 * start the longest `.*`. The scanning functions `LineEnd`, `LastSemicolon`,
 * `MatchEndAt` and `FindMatch` compute that choice and are proved against it.
 */
module PublicPathPattern {
  import opened Optional

  /** The text of the first capture group: the runtime's public-path property. */
  const Accessor: string := "__webpack_require__.p"

  /** The literal part of the pattern in front of `(.*)`. */
  const Assign: string := Accessor + " = "

  /** The characters the regex `.` refuses without the `s` flag. */
  predicate IsLineTerminator(c: char) {
    c == '\n' || c == '\r' || c == '\U{2028}' || c == '\U{2029}'
  }

  /** The literal `__webpack_require__.p = ` occurs at index `i` of `s`. */
  predicate LiteralAt(s: string, i: int) {
    0 <= i && i + |Assign| <= |s| && s[i..i + |Assign|] == Assign
  }

  /**
   * The pattern matches exactly `s[i..e]`: the literal at `i`, then any run of
   * characters other than line terminators, then the `;` at `e - 1`.
   */
  predicate Matches(s: string, i: int, e: int) {
    && LiteralAt(s, i)
    && i + |Assign| < e <= |s|
    && s[e - 1] == ';'
    && forall k :: i + |Assign| <= k < e - 1 ==> !IsLineTerminator(s[k])
  }

  /** Some match of the pattern exists somewhere in `s`. */
  ghost predicate HasMatch(s: string) {
    exists i, e :: Matches(s, i, e)
  }

  /**
   * The match `String.prototype.replace` uses: no match starts further left,
   * and no longer match starts at the same index (the `.*` is greedy).
   */
  ghost predicate IsSelected(s: string, i: int, e: int) {
    && Matches(s, i, e)
    && (forall i', e' :: i' < i ==> !Matches(s, i', e'))
    && (forall e' :: e < e' ==> !Matches(s, i, e'))
  }

  /** The second capture group: the old right-hand side, between ` = ` and the `;`. */
  function RightHandSide(s: string, i: int, e: int): (rhs: string)
    requires Matches(s, i, e)
    ensures s[i..e] == Assign + rhs + ";"
    ensures forall c :: c in rhs ==> !IsLineTerminator(c)
  {
    assert s[i..e] == s[i..i + |Assign|] + s[i + |Assign|..e - 1] + [s[e - 1]];
    s[i + |Assign|..e - 1]
  }

  /** A selected match is the only one: there is at most one leftmost-greedy match. */
  lemma SelectedUnique(s: string, i: int, e: int, i2: int, e2: int)
    requires IsSelected(s, i, e) && IsSelected(s, i2, e2)
    ensures i == i2 && e == e2
  {
  }

  /** The first line terminator at or after `k`, or `|s|` when the line runs to the end. */
  function LineEnd(s: string, k: nat): (j: nat)
    requires k <= |s|
    ensures k <= j <= |s|
    ensures j == |s| || IsLineTerminator(s[j])
    ensures forall m :: k <= m < j ==> !IsLineTerminator(s[m])
    decreases |s| - k
  {
    if k == |s| || IsLineTerminator(s[k]) then k else LineEnd(s, k + 1)
  }

  /**
   * The last `;` in `s[lo..hi]`: the greedy `.*` first takes the whole line and
   * gives characters back from the right until a `;` follows it.
   */
  function LastSemicolon(s: string, lo: nat, hi: nat): (r: Option<nat>)
    requires lo <= hi <= |s|
    ensures r.Some? ==> lo <= r.value < hi && s[r.value] == ';'
    ensures r.Some? ==> forall m :: r.value < m < hi ==> s[m] != ';'
    ensures r.None? ==> forall m :: lo <= m < hi ==> s[m] != ';'
    decreases hi - lo
  {
    if lo == hi then None
    else if s[hi - 1] == ';' then Some(hi - 1)
    else LastSemicolon(s, lo, hi - 1)
  }

  /** The end of the greedy match starting at `i`, if the pattern matches there at all. */
  function MatchEndAt(s: string, i: nat): (r: Option<nat>)
    requires i <= |s|
    ensures r.Some? ==> Matches(s, i, r.value)
    ensures r.Some? ==> forall e :: r.value < e ==> !Matches(s, i, e)
    ensures r.None? ==> forall e :: !Matches(s, i, e)
  {
    if !LiteralAt(s, i) then None
    else
      var body := i + |Assign|;
      var lineEnd := LineEnd(s, body);
      match LastSemicolon(s, body, lineEnd)
      case None => None
      case Some(semi) => Some(semi + 1)
  }

  /** The leftmost match starting at or after `i`, with its greedy end. */
  function FindFrom(s: string, i: nat): (r: Option<(nat, nat)>)
    requires i <= |s|
    ensures r.Some? ==> i <= r.value.0 && Matches(s, r.value.0, r.value.1)
    ensures r.Some? ==> forall i', e' :: i <= i' < r.value.0 ==> !Matches(s, i', e')
    ensures r.Some? ==> forall e' :: r.value.1 < e' ==> !Matches(s, r.value.0, e')
    ensures r.None? ==> forall i', e' :: i <= i' ==> !Matches(s, i', e')
    decreases |s| - i
  {
    match MatchEndAt(s, i)
    case Some(e) => Some((i, e))
    case None =>
      if i == |s| then None else FindFrom(s, i + 1)
  }

  /**
   * The match `source.replace` acts on: `Some((start, end))` exactly when the
   * pattern matches, and then it is the leftmost-greedy one.
   */
  function FindMatch(s: string): (r: Option<(nat, nat)>)
    ensures r.None? <==> !HasMatch(s)
    ensures r.Some? ==> IsSelected(s, r.value.0, r.value.1)
    ensures forall i, e :: IsSelected(s, i, e) ==> r == Some((i, e))
  {
    var r := FindFrom(s, 0);
    if r.Some? then SelectedIsUnique(s, r.value.0, r.value.1); r else r
  }

  /** Every leftmost-greedy match coincides with the given one. */
  lemma SelectedIsUnique(s: string, i: int, e: int)
    requires IsSelected(s, i, e)
    ensures forall i2, e2 :: IsSelected(s, i2, e2) ==> i2 == i && e2 == e
  {
    forall i2, e2 | IsSelected(s, i2, e2) ensures i2 == i && e2 == e {
      SelectedUnique(s, i, e, i2, e2);
    }
  }

  /** Matching looks only at the matched text: a match survives being moved to another text by `d` places. */
  lemma MatchesShift(a: string, i: int, e: int, b: string, d: int)
    requires Matches(a, i, e)
    requires 0 <= i + d && e + d <= |b| && b[i + d..e + d] == a[i..e]
    ensures Matches(b, i + d, e + d)
  {
    var n := |Assign|;
    assert b[i + d..i + d + n] == b[i + d..e + d][..n];
    assert a[i..i + n] == a[i..e][..n];
    assert b[e + d - 1] == b[i + d..e + d][e - 1 - i];
    forall k | i + d + n <= k < e + d - 1 ensures !IsLineTerminator(b[k]) {
      assert b[k] == b[i + d..e + d][k - i - d] == a[k - d];
    }
  }
}
