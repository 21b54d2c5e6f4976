/**
 * DynamicPubPathPlugin: the plugin's options and the rewrite it applies to the
 * webpack bootstrap text through the main template's `requireExtensions` hook.
 *
 * The first assignment `__webpack_require__.p = <rhs>;` (the leftmost match of
 * `/(__webpack_require__\.p) = (.*);/`) is replaced by
 * `__webpack_require__.p = (function(o){ o.toString = function() { return <expression> }; return o; }({}))`,
 * with the replacement string going through the `$`-pattern expansion of
 * `String.prototype.replace`; the rest of the text is kept as it was.
 */
module DynamicPubPathPlugin {
  import opened Optional
  import opened PublicPathPattern
  import opened Substitution

  /** The JavaScript values the `expression` option is modelled over. */
  datatype JsValue = Null | Undefined | Bool(b: bool) | Str(s: string)

  /** A plain options object, as its own enumerable properties. */
  type Properties = map<string, JsValue>

  const ExpressionKey: string := "expression"

  /**
   * The one key that `Object.assign` does not copy as an own property: writing
   * it calls the `__proto__` setter of `Object.prototype`, which creates no key
   * (and, for the primitive values modelled here, changes nothing).
   */
  const ProtoKey: string := "__proto__"

  /**
   * `Object.assign({ expression: null }, options)`: the defaults overlaid with
   * the caller's own properties, except `__proto__`. An `undefined` or `null`
   * options argument (`None`) contributes nothing.
   */
  function Configure(options: Option<Properties>): (config: Properties)
    ensures ExpressionKey in config
    ensures forall k :: k in config <==> k == ExpressionKey || (options.Some? && k in options.value && k != ProtoKey)
    ensures options.Some? ==> forall k :: k in options.value && k != ProtoKey ==> config[k] == options.value[k]
    ensures options.None? || ExpressionKey !in options.value ==> config[ExpressionKey] == Null
  {
    var defaults := map[ExpressionKey := Null];
    match options
    case None => defaults
    case Some(props) => defaults + (props - {ProtoKey})
  }

  /**
   * ToString of the value, as the template literal's `${expression}` applies
   * it. Only a string can bring a `$` into the template; the other values
   * render as fixed non-empty words.
   */
  function ToText(v: JsValue): (r: string)
    ensures v.Str? ==> r == v.s
    ensures v == Null ==> r == "null"
    ensures v == Undefined ==> r == "undefined"
    ensures v.Bool? ==> r == (if v.b then "true" else "false")
    ensures !v.Str? ==> |r| > 0 && NoDollar(r)
  {
    match v
    case Null => "null"
    case Undefined => "undefined"
    case Bool(b) => if b then "true" else "false"
    case Str(s) => s
  }

  /** The replacement template's text between `$1` and the expression. */
  const Head: string := " = (function(o){ " + "o.toString = " + "function() { " + "return "

  /** The replacement template's text after the expression. */
  const Tail: string := " }; return o; }({}))"

  /**
   * The string the template literal builds, before `replace` expands its
   * `$`-patterns. It opens with `$1`, and when the expression holds no `$`
   * that is the template's only `$`-pattern.
   */
  function Template(text: string): string {
    "$1" + (Head + (text + Tail))
  }

  /**
   * The template opens with `$1`, and when the expression holds no `$` that
   * is the only `$`-pattern in it.
   */
  lemma TemplateDollarSigns(text: string)
    ensures |Template(text)| >= 2 && Template(text)[..2] == "$1"
    ensures NoDollar(text) ==> NoDollar(Template(text)[2..])
  {
    var rest := Head + (text + Tail);
    assert Template(text) == "$1" + rest;
    assert Template(text)[2..] == rest;
    if NoDollar(text) {
      FixedPartsAreLiteral();
    }
  }

  /** What `replace` hands to the `$`-pattern expansion for the match `s[i..e]`. */
  function Context(s: string, i: int, e: int): (m: MatchContext)
    requires Matches(s, i, e)
    ensures m.Valid() && m.subject[m.position..m.position + |m.matched|] == m.matched
    ensures m.subject == s && m.position == i && m.matched == s[i..e]
    ensures m.captures == [Accessor, RightHandSide(s, i, e)]
  {
    MatchContext(s, i, s[i..e], [Accessor, RightHandSide(s, i, e)])
  }

  /**
   * The text that takes the place of the matched assignment: the first group,
   * the fixed head, the expression with its `$`-patterns expanded, the fixed tail.
   */
  function Replacement(s: string, i: int, e: int, text: string): (r: string)
    requires Matches(s, i, e)
    ensures r == Accessor + Head + Expand(text, Context(s, i, e)) + Tail
  {
    var m := Context(s, i, e);
    TemplateExpansion(text, m);
    Expand(Template(text), m)
  }

  /** The fixed parts of the template contain no `$`, and each begins with a space. */
  lemma FixedPartsAreLiteral()
    ensures NoDollar(Head) && NoDollar(Tail)
    ensures |Head| > 0 && Head[0] == ' ' && |Tail| > 0 && Tail[0] == ' '
  {
  }

  /** `$1` followed by a non-digit is the first capture group, and spans two characters. */
  lemma FirstGroupToken(y: string, m: MatchContext)
    requires m.Valid() && |m.captures| == 2
    requires |y| > 0 && !IsDigit(y[0])
    ensures Token("$1" + y, m) == (m.captures[0], 2)
  {
    var t := "$1" + y;
    assert t[0] == '$' && t[1] == '1' && t[2] == y[0];
  }

  /** The template's leading `$1` expands to the first group; what follows it is expanded on its own. */
  lemma TemplateFirstGroup(text: string, m: MatchContext)
    requires m.Valid() && |m.captures| == 2 && m.captures[0] == Accessor
    ensures Expand(Template(text), m) == Accessor + Expand(Head + (text + Tail), m)
  {
    FixedPartsAreLiteral();
    var rest := Head + (text + Tail);
    var t := "$1" + rest;
    assert Template(text) == t;
    assert rest[0] == ' ';
    FirstGroupToken(rest, m);
    assert t[2..] == rest;
    ExpandStep(t, m);
  }

  /** `$1` expands to the first group; the head and tail are copied; only the expression is expanded. */
  lemma TemplateExpansion(text: string, m: MatchContext)
    requires m.Valid() && |m.captures| == 2 && m.captures[0] == Accessor
    ensures Expand(Template(text), m) == Accessor + Head + Expand(text, m) + Tail
  {
    TemplateFirstGroup(text, m);
    FixedPartsAreLiteral();
    ExpandLiteralPrefix(Head, text + Tail, m);
    ExpandInertSuffix(text, Tail, m);
    Regroup(Accessor, Head, Expand(text, m), Tail);
  }

  /**
   * The `requireExtensions` callback: `source.replace(pattern, template)`.
   * Without a match the source comes back as it was; otherwise the
   * leftmost-greedy match, and only it, gives way to the replacement.
   */
  function Rewrite(source: string, text: string): (r: string)
    ensures !HasMatch(source) ==> r == source
    ensures forall i, e :: IsSelected(source, i, e) ==> r == source[..i] + Replacement(source, i, e, text) + source[e..]
  {
    match FindMatch(source)
    case None => source
    case Some((i, e)) => source[..i] + Replacement(source, i, e, text) + source[e..]
  }

  /** The plugin as configured by `options` applied to one bootstrap text. */
  function Apply(options: Option<Properties>, source: string): (r: string)
    ensures options.None? || ExpressionKey !in options.value ==> r == Rewrite(source, "null")
    ensures options.Some? && ExpressionKey in options.value ==> r == Rewrite(source, ToText(options.value[ExpressionKey]))
  {
    Rewrite(source, ToText(Configure(options)[ExpressionKey]))
  }
}
