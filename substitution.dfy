/**
 * How `String.prototype.replace` expands the `$`-patterns of a replacement
 * string: the GetSubstitution abstract operation of ECMA-262 (section 22.1.3.19.1
 * in the 2023 edition), for a regular expression without named groups.
 */
module Substitution {

  /**
   * What a replacement template can refer to: the subject string, the index
   * where the match starts, the matched text and the capture groups in order.
   */
  datatype MatchContext = MatchContext(subject: string, position: nat, matched: string, captures: seq<string>)
  {
    /** The matched text lies inside the subject. */
    predicate Valid() {
      position + |matched| <= |subject|
    }
  }

  predicate IsDigit(c: char) {
    '0' <= c <= '9'
  }

  function DigitValue(c: char): nat
    requires IsDigit(c)
  {
    c as int - '0' as int
  }

  /** The template holds no `$`, so GetSubstitution has nothing to expand in it. */
  predicate NoDollar(t: string) {
    '$' !in t
  }

  /**
   * A character that, following a `$`, starts no pattern: the `$` before it
   * stands for itself whatever came before.
   */
  predicate InertAfterDollar(c: char) {
    c != '$' && c != '&' && c != '`' && c != '\'' && c != '<' && !IsDigit(c)
  }

  /**
   * The first token of a non-empty template under GetSubstitution: what it
   * expands to and how many characters of the template it spans. `$$` is a
   * dollar sign, `$&` the matched text, `` $` `` the text before the match, `$'`
   * the text after it, `$n` and `$nn` the capture groups (a two-digit reference
   * that is out of range falls back to one digit; one still out of range is
   * copied as it stands), `$<` stays as it is because the pattern has no named
   * groups, and any other character, a lone `$` included, is copied.
   */
  function Token(t: string, m: MatchContext): (r: (string, nat))
    requires m.Valid() && |t| > 0
    ensures 1 <= r.1 <= |t| && r.1 <= 3
    ensures t[0] != '$' ==> r == (t[..1], 1)
  {
    if t[0] != '$' || |t| == 1 then (t[..1], 1)
    else if t[1] == '$' then ("$", 2)
    else if t[1] == '&' then (m.matched, 2)
    else if t[1] == '`' then (m.subject[..m.position], 2)
    else if t[1] == '\'' then (m.subject[m.position + |m.matched|..], 2)
    else if t[1] == '<' then ("$<", 2)
    else if IsDigit(t[1]) then
      var twoDigits := |t| >= 3 && IsDigit(t[2]) && 10 * DigitValue(t[1]) + DigitValue(t[2]) <= |m.captures|;
      var width := if twoDigits then 3 else 2;
      var index := if twoDigits then 10 * DigitValue(t[1]) + DigitValue(t[2]) else DigitValue(t[1]);
      (if 1 <= index <= |m.captures| then m.captures[index - 1] else t[..width], width)
    else ("$", 1)
  }

  /** GetSubstitution: the template with every token replaced by its expansion, left to right. */
  function Expand(t: string, m: MatchContext): string
    requires m.Valid()
    decreases |t|
  {
    if |t| == 0 then ""
    else
      var (piece, width) := Token(t, m);
      piece + Expand(t[width..], m)
  }

  /** One step of the expansion: the first token's text, then the expansion of what follows it. */
  lemma ExpandStep(t: string, m: MatchContext)
    requires m.Valid() && |t| > 0
    ensures Expand(t, m) == Token(t, m).0 + Expand(t[Token(t, m).1..], m)
  {
  }

  /** A template without `$` is its own expansion. */
  lemma {:induction false} ExpandLiteral(t: string, m: MatchContext)
    requires m.Valid() && NoDollar(t)
    ensures Expand(t, m) == t
    decreases |t|
  {
    if |t| > 0 {
      assert NoDollar(t[1..]);
      ExpandLiteral(t[1..], m);
      assert t == t[..1] + t[1..];
    }
  }

  /** A leading run without `$` is copied and the rest is expanded on its own. */
  lemma {:induction false} ExpandLiteralPrefix(x: string, y: string, m: MatchContext)
    requires m.Valid() && NoDollar(x)
    ensures Expand(x + y, m) == x + Expand(y, m)
    decreases |x|
  {
    if |x| > 0 {
      var t := x + y;
      assert t[0] == x[0] && t[..1] == x[..1];
      assert t[1..] == x[1..] + y;
      assert NoDollar(x[1..]);
      ExpandLiteralPrefix(x[1..], y, m);
      assert Expand(t, m) == x[..1] + (x[1..] + Expand(y, m));
      assert x == x[..1] + x[1..];
    } else {
      assert x + y == y;
    }
  }

  /**
   * Appending text that cannot continue a pattern leaves the first token of a
   * template as it was.
   */
  lemma TokenInertSuffix(x: string, y: string, m: MatchContext)
    requires m.Valid() && |x| > 0
    requires |y| > 0 ==> InertAfterDollar(y[0])
    ensures Token(x + y, m) == Token(x, m)
  {
    var t := x + y;
    assert t[0] == x[0] && t[..1] == x[..1];
    if |x| >= 2 {
      assert t[1] == x[1] && t[..2] == x[..2];
      if |x| >= 3 {
        assert t[2] == x[2] && t[..3] == x[..3];
      } else if |y| > 0 {
        assert t[2] == y[0];
      }
    } else if |y| > 0 {
      assert t[1] == y[0];
      assert x[0] == '$' ==> x[..1] == "$";
    }
  }

  /**
   * A trailing run without `$` that cannot continue a pattern begun before it
   * is copied unchanged after the expansion of what precedes it.
   */
  lemma {:induction false} ExpandInertSuffix(x: string, y: string, m: MatchContext)
    requires m.Valid() && NoDollar(y)
    requires |y| > 0 ==> InertAfterDollar(y[0])
    ensures Expand(x + y, m) == Expand(x, m) + y
    decreases |x|
  {
    if |x| == 0 {
      assert x + y == y;
      ExpandLiteral(y, m);
    } else {
      var piece := Token(x, m).0;
      var width := Token(x, m).1;
      calc {
        Expand(x + y, m);
      == { ExpandStep(x + y, m); }
        Token(x + y, m).0 + Expand((x + y)[Token(x + y, m).1..], m);
      == { TokenInertSuffix(x, y, m); assert (x + y)[width..] == x[width..] + y; }
        piece + Expand(x[width..] + y, m);
      == { ExpandInertSuffix(x[width..], y, m); }
        piece + (Expand(x[width..], m) + y);
      == { ExpandStep(x, m); }
        Expand(x, m) + y;
      }
    }
  }

  /** Regrouping four concatenated texts, as the expansion lemmas leave them. */
  lemma Regroup(a: string, b: string, c: string, d: string)
    ensures a + (b + (c + d)) == a + b + c + d
  {
  }
}
