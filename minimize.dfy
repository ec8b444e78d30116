/**
 * The validation side of the test-case minimiser (`src/bin/minimize.rs`):
 * the three kinds of case rule and how each is checked against a rendering,
 * the Rust text each rule becomes in a generated regression test, the rule
 * for accepting a test name, the `next_must_be` condition, and the layout of
 * the generated test file. The greedy minimisation loop, the HTML parser,
 * the file system and the terminal are not part of this model; what they
 * produce enters as parameters.
 */
module Minimize {
  import opened Wrappers
  import opened Dom
  import SedLang
  import SedEval
  import Strings

  // ---------------------------------------------------------------------
  // Case rules
  // ---------------------------------------------------------------------

  /** How a rule relates the failing and the passing rendering. */
  datatype CaseType<T> =
    | InvariantHas(rule: T)  // both the failing and the fixed output satisfy it
    | FailHas(rule: T)       // the failing output satisfies it, the fixed one must not
    | FailOmits(rule: T)     // the failing output misses it, the fixed one must have it

  /** A rule is a literal substring or a regular expression (by its source text). */
  datatype Rule = Substring(text: string) | Pattern(re: string)

  /** `check_is_neg`: only a `FailOmits` rule is checked negated. */
  function CheckIsNeg<T>(c: CaseType<T>): (r: bool)
    ensures r <==> c.FailOmits?
  {
    match c
    case InvariantHas(_) => false
    case FailHas(_) => false
    case FailOmits(_) => true
  }

  /** `CaseRule::satisfies`: `contains` for a string, `is_match` for a regex. */
  function Satisfies(rule: Rule, rendered: string, eng: Engine): (r: bool)
    ensures rule.Substring? ==> (r <==> exists i :: 0 <= i <= |rendered| && Strings.OccursAt(rendered, rule.text, i))
  {
    match rule
    case Substring(s) => Strings.Contains(rendered, s)
    case Pattern(re) => eng.regexMatches(re, rendered)
  }

  /** `CaseType::check`: whether a rendering still shows the failure this rule describes. */
  function Check(c: CaseType<Rule>, rendered: string, eng: Engine): bool
  {
    var res := Satisfies(c.rule, rendered, eng);
    if CheckIsNeg(c) then !res else res
  }

  /** `InvariantHas` and `FailHas` check the rule itself; `FailOmits` checks its negation. */
  lemma CheckPolarity(c: CaseType<Rule>, rendered: string, eng: Engine)
    ensures (c.InvariantHas? || c.FailHas?) ==> (Check(c, rendered, eng) <==> Satisfies(c.rule, rendered, eng))
    ensures c.FailOmits? ==> (Check(c, rendered, eng) <==> !Satisfies(c.rule, rendered, eng))
  {
  }

  /** On the same rule, `FailHas` and `FailOmits` accept complementary renderings. */
  lemma FailHasOmitsComplementary(rule: Rule, rendered: string, eng: Engine)
    ensures Check(FailHas(rule), rendered, eng) <==> !Check(FailOmits(rule), rendered, eng)
    ensures Check(InvariantHas(rule), rendered, eng) == Check(FailHas(rule), rendered, eng)
  {
    CheckPolarity(FailHas(rule), rendered, eng);
    CheckPolarity(FailOmits(rule), rendered, eng);
    CheckPolarity(InvariantHas(rule), rendered, eng);
  }

  /** The string rule "abc" is found inside "xxabcxx" and in "abc" itself. */
  lemma SubstringExamples(eng: Engine)
    ensures Satisfies(Substring("abc"), "xxabcxx", eng)
    ensures Satisfies(Substring("abc"), "abc", eng)
    ensures !Satisfies(Substring("abc"), "a c", eng)
  {
    assert Strings.OccursAt("xxabcxx", "abc", 2);
    assert Strings.OccursAt("abc", "abc", 0);
    assert "a c"[0..3][1] != "abc"[1];
  }

  /** Each case type on "abc" against "abc" and "a c". */
  lemma CaseTypeNegations(eng: Engine)
    ensures Check(InvariantHas(Substring("abc")), "abc", eng) && !Check(InvariantHas(Substring("abc")), "a c", eng)
    ensures Check(FailHas(Substring("abc")), "abc", eng) && !Check(FailHas(Substring("abc")), "a c", eng)
    ensures !Check(FailOmits(Substring("abc")), "abc", eng) && Check(FailOmits(Substring("abc")), "a c", eng)
  {
    SubstringExamples(eng);
  }

  // ---------------------------------------------------------------------
  // Rust string escaping (`str::escape_default`)
  // ---------------------------------------------------------------------

  predicate IsScalar(n: int)
  {
    (0 <= n < 0xD800) || (0xE000 <= n < 0x11_0000)
  }

  function HexDigit(d: nat): (c: char)
    requires d < 16
    ensures IsHexDigit(c)
  {
    if d < 10 then ('0' as int + d) as char else ('a' as int + d - 10) as char
  }

  predicate IsHexDigit(c: char)
  {
    ('0' <= c <= '9') || ('a' <= c <= 'f')
  }

  function HexValue(c: char): (d: nat)
    requires IsHexDigit(c)
    ensures d < 16
  {
    if c <= '9' then c as int - '0' as int else c as int - 'a' as int + 10
  }

  predicate AllHex(s: string)
  {
    forall i :: 0 <= i < |s| ==> IsHexDigit(s[i])
  }

  /** Lower-case hexadecimal without leading zeros, as in `\u{..}`. */
  function Hex(n: nat): (r: string)
    ensures |r| > 0 && AllHex(r)
    ensures |r| > 1 ==> r[0] != '0'
  {
    if n < 16 then [HexDigit(n)] else Hex(n / 16) + [HexDigit(n % 16)]
  }

  function ParseHex(s: string): nat
    requires AllHex(s)
  {
    if s == [] then 0 else 16 * ParseHex(s[..|s| - 1]) + HexValue(s[|s| - 1])
  }

  lemma {:induction false} ParseHexOfHex(n: nat)
    ensures ParseHex(Hex(n)) == n
  {
    var r := Hex(n);
    if n >= 16 {
      assert r[..|r| - 1] == Hex(n / 16);
      ParseHexOfHex(n / 16);
    }
  }

  /** `char::escape_default`. */
  function EscapeChar(c: char): (r: string)
    ensures |r| > 0
    ensures forall i :: 0 <= i < |r| ==> ' ' <= r[i] <= '~'
  {
    if c == '\t' then "\\t"
    else if c == '\r' then "\\r"
    else if c == '\n' then "\\n"
    else if c == '\\' || c == '\'' || c == '"' then ['\\', c]
    else if ' ' <= c <= '~' then [c]
    else "\\u{" + Hex(c as int) + "}"
  }

  /** `str::escape_default`: every character escaped in turn; the result is printable ASCII. */
  function Escape(s: string): (r: string)
    ensures forall i :: 0 <= i < |r| ==> ' ' <= r[i] <= '~'
  {
    if s == [] then [] else EscapeChar(s[0]) + Escape(s[1..])
  }

  /** The character a one-letter escape stands for. */
  function SimpleUnescape(e: char): Option<char>
  {
    if e == 't' then Some('\t')
    else if e == 'r' then Some('\r')
    else if e == 'n' then Some('\n')
    else if e == '\\' || e == '\'' || e == '"' then Some(e)
    else None
  }

  function Prepend(c: char, o: Option<string>): Option<string>
  {
    match o
    case None => None
    case Some(t) => Some([c] + t)
  }

  /** The first `}` at or after `i`, or `|s|`. */
  function CloseBrace(s: string, i: nat): (k: nat)
    requires i <= |s|
    ensures i <= k <= |s|
    ensures k < |s| ==> s[k] == '}'
    ensures forall j :: i <= j < k ==> s[j] != '}'
    decreases |s| - i
  {
    if i == |s| || s[i] == '}' then i else CloseBrace(s, i + 1)
  }

  /**
   * How a Rust string literal reads the escapes `escape_default` writes:
   * the partner that shows the escaping loses nothing.
   */
  function Unescape(s: string): Option<string>
    decreases |s|
  {
    if s == [] then Some([])
    else if s[0] != '\\' then Prepend(s[0], Unescape(s[1..]))
    else if |s| < 2 then None
    else if SimpleUnescape(s[1]).Some? then Prepend(SimpleUnescape(s[1]).value, Unescape(s[2..]))
    else if s[1] != 'u' || |s| < 3 || s[2] != '{' then None
    else
      var k := CloseBrace(s, 3);
      if k == |s| || k == 3 || !AllHex(s[3..k]) then None
      else
        var n := ParseHex(s[3..k]);
        if IsScalar(n) then Prepend(n as char, Unescape(s[k + 1..])) else None
  }

  lemma UnescapePlain(c: char, rest: string)
    requires c != '\\'
    ensures Unescape([c] + rest) == Prepend(c, Unescape(rest))
  {
    assert ([c] + rest)[1..] == rest;
  }

  lemma UnescapeSimple(c: char, e: char, rest: string)
    requires SimpleUnescape(e) == Some(c)
    ensures Unescape(['\\', e] + rest) == Prepend(c, Unescape(rest))
  {
    assert (['\\', e] + rest)[2..] == rest;
  }

  lemma UnescapeUnicode(c: char, rest: string)
    ensures Unescape("\\u{" + Hex(c as int) + "}" + rest) == Prepend(c, Unescape(rest))
  {
    var h := Hex(c as int);
    var x := "\\u{" + h + "}" + rest;
    assert forall j :: 3 <= j < 3 + |h| ==> x[j] == h[j - 3];
    assert x[3 + |h|] == '}';
    var k := CloseBrace(x, 3);
    assert k == 3 + |h|;
    assert x[3..k] == h;
    ParseHexOfHex(c as int);
    assert x[k + 1..] == rest;
  }

  lemma UnescapeEscapeChar(c: char, rest: string)
    ensures Unescape(EscapeChar(c) + rest) == Prepend(c, Unescape(rest))
  {
    if c == '\t' {
      UnescapeSimple(c, 't', rest);
    } else if c == '\r' {
      UnescapeSimple(c, 'r', rest);
    } else if c == '\n' {
      UnescapeSimple(c, 'n', rest);
    } else if c == '\\' || c == '\'' || c == '"' {
      UnescapeSimple(c, c, rest);
    } else if ' ' <= c <= '~' {
      UnescapePlain(c, rest);
    } else {
      UnescapeUnicode(c, rest);
    }
  }

  /** Reading back what `escape_default` wrote gives the original string. */
  lemma {:induction false} UnescapeEscape(s: string)
    ensures Unescape(Escape(s)) == Some(s)
  {
    if s != [] {
      UnescapeEscape(s[1..]);
      UnescapeEscapeChar(s[0], Escape(s[1..]));
      assert [s[0]] + s[1..] == s;
    }
  }

  // ---------------------------------------------------------------------
  // Rules as generated Rust
  // ---------------------------------------------------------------------

  /** `CaseRule::as_text`: the positive test on the rendered text `t`. */
  function AsText(rule: Rule): (r: string)
    ensures |r| > 0 && (r[0] == 't' || r[0] == 'r')
    ensures rule.Substring? ==> r == "t.contains(\"" + Escape(rule.text) + "\")"
    ensures rule.Pattern? ==> r == "regex_lite::Regex::parse(\"" + Escape(rule.re) + "\").unwrap().is_match(&t)"
  {
    match rule
    case Substring(s) =>
      var r := "t.contains(\"" + Escape(s) + "\")";
      assert r[0] == 't';
      r
    case Pattern(re) =>
      var r := "regex_lite::Regex::parse(\"" + Escape(re) + "\").unwrap().is_match(&t)";
      assert r[0] == 'r';
      r
  }

  /**
   * The associated functions that build a `regex_lite::Regex` from a
   * pattern string: only `new`. (`parse` belongs to `str`, and `from_str`
   * needs the `FromStr` trait in scope.)
   */
  const REGEX_CONSTRUCTORS: set<string> := {"new"}

  const CONTAINS_OPEN := "t.contains(\""
  const REGEX_NEW_OPEN := "regex_lite::Regex::new(\""
  const REGEX_CLOSE := "\").unwrap().is_match(&t)"

  /** As written, a pattern rule calls `Regex::parse`, which is no constructor of `regex_lite::Regex`. */
  lemma AsTextCallsParse(re: string)
    ensures var r := AsText(Pattern(re));
      |r| > 25 && r[..25] == "regex_lite::Regex::parse(" && "parse" !in REGEX_CONSTRUCTORS
  {
    var r := AsText(Pattern(re));
    assert r == "regex_lite::Regex::parse(" + ("\"" + Escape(re) + "\").unwrap().is_match(&t)");
  }

  /**
   * `as_text` as evidently intended: a substring rule is the `t.contains`
   * call and a pattern rule builds its regex with `Regex::new`; in both the
   * Rust string literal reads back as the rule's text.
   */
  function AsTextFixed(rule: Rule): (r: string)
    ensures |r| > 0 && (r[0] == 't' || r[0] == 'r')
    ensures rule.Substring? ==> var n := |Escape(rule.text)|;
      |r| == n + 14 && r[..12] == CONTAINS_OPEN && Unescape(r[12..12 + n]) == Some(rule.text) && r[12 + n..] == "\")"
    ensures rule.Pattern? ==> var n := |Escape(rule.re)|;
      |r| == n + 48 && r[..24] == REGEX_NEW_OPEN && "new" in REGEX_CONSTRUCTORS &&
      Unescape(r[24..24 + n]) == Some(rule.re) && r[24 + n..] == REGEX_CLOSE
  {
    match rule
    case Substring(s) =>
      var e := Escape(s);
      var r := CONTAINS_OPEN + e + "\")";
      assert r[12..12 + |e|] == e;
      UnescapeEscape(s);
      assert r[0] == 't';
      r
    case Pattern(re) =>
      var e := Escape(re);
      var r := REGEX_NEW_OPEN + e + REGEX_CLOSE;
      assert r[24..24 + |e|] == e;
      UnescapeEscape(re);
      assert r[0] == 'r';
      r
  }

  const ASSERT_OPEN := "assert!("

  /** The `assert!` statement of a test text, negated or not. */
  function AssertLine(neg: bool, text: string): (r: string)
    ensures |r| > |ASSERT_OPEN| && r[..|ASSERT_OPEN|] == ASSERT_OPEN
  {
    var r := ASSERT_OPEN + ((if neg then "!" else "") + text + ");");
    assert r[..|ASSERT_OPEN|] == ASSERT_OPEN;
    r
  }

  /** An assertion line holds its text right after the marker and the optional `!`. */
  lemma AssertLineParts(neg: bool, text: string, m: nat)
    requires 0 < m <= |text|
    ensures var r := AssertLine(neg, text); var p := |ASSERT_OPEN| + (if neg then 1 else 0);
      |r| >= p + m && r[p..p + m] == text[..m] && r[|ASSERT_OPEN|] == if neg then '!' else text[0]
  {
    var n := if neg then "!" else "";
    var r := AssertLine(neg, text);
    assert r == (ASSERT_OPEN + n) + text + ");";
    SliceAfter(ASSERT_OPEN + n, text, ");", m);
    if !neg {
      assert r[|ASSERT_OPEN|] == r[|ASSERT_OPEN|..|ASSERT_OPEN| + m][0];
    }
  }

  /** `CaseType::as_assert`: the assertion a generated test makes about the fixed output. */
  function AsAssert(c: CaseType<Rule>): (r: string)
    ensures |r| > |ASSERT_OPEN| && r[..|ASSERT_OPEN|] == ASSERT_OPEN
  {
    AssertLine(c.FailHas?, AsText(c.rule))
  }

  /** `as_assert` on the corrected `AsTextFixed`. */
  function AsAssertFixed(c: CaseType<Rule>): (r: string)
    ensures |r| > |ASSERT_OPEN| && r[..|ASSERT_OPEN|] == ASSERT_OPEN
  {
    AssertLine(c.FailHas?, AsTextFixed(c.rule))
  }

  /**
   * The corrected assertion is the one written for a substring rule; for a
   * pattern rule it is negated alike and calls `Regex::new` where the
   * written one calls `Regex::parse`.
   */
  lemma AsAssertFixedDiffers(c: CaseType<Rule>)
    ensures c.rule.Substring? ==> AsAssertFixed(c) == AsAssert(c)
    ensures AsAssertFixed(c)[|ASSERT_OPEN|] == AsAssert(c)[|ASSERT_OPEN|]
    ensures c.rule.Pattern? ==> var p := |ASSERT_OPEN| + (if c.FailHas? then 1 else 0);
      |AsAssert(c)| >= p + 25 && AsAssert(c)[p..p + 25] == "regex_lite::Regex::parse(" &&
      |AsAssertFixed(c)| >= p + 24 && AsAssertFixed(c)[p..p + 24] == REGEX_NEW_OPEN
  {
    var t, f := AsText(c.rule), AsTextFixed(c.rule);
    TextsAgreeFirst(c.rule);
    if c.rule.Substring? {
      TextsAgree(c.rule.text);
      AssertLineParts(c.FailHas?, t, 1);
    } else {
      AsTextCallsParse(c.rule.re);
      AssertLineParts(c.FailHas?, t, 25);
      AssertLineParts(c.FailHas?, f, 24);
    }
  }

  /** A substring rule has the same text either way. */
  lemma TextsAgree(text: string)
    ensures AsTextFixed(Substring(text)) == AsText(Substring(text))
  {
  }

  /** Both texts of a rule start with the same character. */
  lemma TextsAgreeFirst(rule: Rule)
    ensures AsTextFixed(rule)[0] == AsText(rule)[0]
  {
    if rule.Pattern? {
      assert AsTextFixed(rule)[..24] == REGEX_NEW_OPEN;
      assert AsText(rule) == "regex_lite::Regex::parse(\"" + Escape(rule.re) + REGEX_CLOSE;
    }
  }

  lemma SliceAfter(x: string, y: string, z: string, m: nat)
    requires m <= |y|
    ensures |x + y + z| >= |x| + m && (x + y + z)[|x|..|x| + m] == y[..m]
  {
    assert (x + y + z)[|x|..|x| + |y|] == y;
  }

  /** The generated assertion is negated exactly for `FailHas`. */
  lemma AsAssertNegated(c: CaseType<Rule>)
    ensures AsAssert(c)[|ASSERT_OPEN|] == '!' <==> c.FailHas?
  {
    var t := AsText(c.rule);
    var tail := (if c.FailHas? then "!" else "") + t + ");";
    assert AsAssert(c) == ASSERT_OPEN + tail;
    IndexAfter(ASSERT_OPEN, tail);
    assert tail[0] == (if c.FailHas? then '!' else t[0]);
  }

  lemma IndexAfter(x: string, y: string)
    requires |y| > 0
    ensures (x + y)[|x|] == y[0]
  {
  }

  /** Whether the generated assertion passes on a rendering, read off its text. */
  predicate AssertionHolds(c: CaseType<Rule>, rendered: string, eng: Engine)
  {
    var neg := AsAssert(c)[|ASSERT_OPEN|] == '!';
    if neg then !Satisfies(c.rule, rendered, eng) else Satisfies(c.rule, rendered, eng)
  }

  /**
   * A generated test passes exactly on renderings that no longer show the
   * bug: its assertion is the opposite of `check` for `FailHas` and
   * `FailOmits`, and agrees with it for `InvariantHas`.
   */
  lemma AssertionOpposesCheck(c: CaseType<Rule>, rendered: string, eng: Engine)
    ensures c.InvariantHas? ==> (AssertionHolds(c, rendered, eng) <==> Check(c, rendered, eng))
    ensures !c.InvariantHas? ==> (AssertionHolds(c, rendered, eng) <==> !Check(c, rendered, eng))
  {
    AsAssertNegated(c);
  }

  // ---------------------------------------------------------------------
  // Validation of a candidate
  // ---------------------------------------------------------------------

  /** The serialisation the rules are checked against. */
  datatype SerStyle = Xml | Markdown

  /** `ValidateRule`. */
  datatype Validation = Validation(
    regexRules: seq<CaseType<Rule>>,
    containRules: seq<CaseType<Rule>>,
    invariantHtml: seq<SedLang.Sed>,
    nextMustBe: Option<bool>,
    style: SerStyle)

  /** The next-chapter URL every link is rewritten to when it is not the real one. */
  const NOT_NEXT := "https://example.com/not_next"

  /** The `next_must_be` condition on the next-chapter URL the rules found. */
  function NextOk(mustBe: Option<bool>, next: Option<string>): (r: bool)
  {
    match mustBe
    case None => true
    case Some(b) =>
      match (b, next)
      case (true, Some(u)) => u == NOT_NEXT
      case (false, None) => true
      case (false, Some(_)) => false
      case (true, None) => false
  }

  /** `Some(true)` accepts exactly the rewritten wrong URL, `Some(false)` exactly no URL. */
  lemma NextOkMeaning(mustBe: Option<bool>, next: Option<string>)
    ensures mustBe == None ==> NextOk(mustBe, next)
    ensures mustBe == Some(true) ==> (NextOk(mustBe, next) <==> next == Some(NOT_NEXT))
    ensures mustBe == Some(false) ==> (NextOk(mustBe, next) <==> next == None)
  {
  }

  /**
   * The declarative reading of `is_valid`: the page parsed, the next URL
   * is as required, every invariant matcher matches below the root, and
   * every contain and regex rule checks on the rendering.
   * `parsed` is the parse of the re-serialised page as the rendered chapters
   * in the chosen style together with the next URL, or `None` on an error.
   */
  /** The invariant matchers come from `Sed::new_matcher`, so each has a selector or an expression. */
  predicate MatchersFormed(v: Validation)
  {
    forall k :: 0 <= k < |v.invariantHtml| ==>
      v.invariantHtml[k].op.Match? ==> v.invariantHtml[k].sel.Some? || v.invariantHtml[k].reg.Some?
  }

  predicate Valid(v: Validation, d: Doc, root: nat, parsed: Option<(string, Option<string>)>, eng: Engine)
    requires MatchersFormed(v)
  {
    parsed.Some? &&
    NextOk(v.nextMustBe, parsed.value.1) &&
    (forall k :: 0 <= k < |v.invariantHtml| ==> SedEval.ContainsMatch(v.invariantHtml[k], d, root, eng)) &&
    (forall k :: 0 <= k < |v.containRules| ==> Check(v.containRules[k], parsed.value.0, eng)) &&
    (forall k :: 0 <= k < |v.regexRules| ==> Check(v.regexRules[k], parsed.value.0, eng))
  }

  /** `ValidateRule::is_valid`, with its early returns. */
  method IsValid(v: Validation, d: Doc, root: nat, parsed: Option<(string, Option<string>)>, eng: Engine)
    returns (r: bool)
    requires MatchersFormed(v)
    ensures r == Valid(v, d, root, parsed, eng)
  {
    if parsed.None? {
      return false;
    }
    var (txt, next) := parsed.value;
    if !NextOk(v.nextMustBe, next) {
      return false;
    }
    for k := 0 to |v.invariantHtml|
      invariant forall j :: 0 <= j < k ==> SedEval.ContainsMatch(v.invariantHtml[j], d, root, eng)
    {
      if !SedEval.ContainsMatch(v.invariantHtml[k], d, root, eng) {
        return false;
      }
    }
    for k := 0 to |v.containRules|
      invariant forall j :: 0 <= j < k ==> Check(v.containRules[j], txt, eng)
    {
      if !Check(v.containRules[k], txt, eng) {
        return false;
      }
    }
    for k := 0 to |v.regexRules|
      invariant forall j :: 0 <= j < k ==> Check(v.regexRules[j], txt, eng)
    {
      if !Check(v.regexRules[k], txt, eng) {
        return false;
      }
    }
    return true;
  }

  /** The four lines `test_code` writes before the assertions. */
  function CodeHeader(style: SerStyle): seq<string>
  {
    ["#[allow(unused)]",
     "let (ch, next) = wn3::common::Rules::new_il().parse(&html).expect(\"failed to parse\");",
     "let t = " + (if style.Xml? then "format!(\"{ch}\")" else "format!(\"{ch:#}\")") + ";",
     "println!(\"==== begin output ====\\n{t}\\n====  end output  ====\");"]
  }

  /** The assertions for a list of rules, in order. */
  function Asserts(rules: seq<CaseType<Rule>>): (r: seq<string>)
    ensures |r| == |rules|
  {
    MapLines(rules, AsAssert)
  }

  /** `f` applied to each item, in order. */
  function MapLines<T>(xs: seq<T>, f: T -> string): (r: seq<string>)
    ensures |r| == |xs|
  {
    if xs == [] then [] else MapLines(xs[..|xs| - 1], f) + [f(xs[|xs| - 1])]
  }

  /** The `k`-th line is `f` of the `k`-th item. */
  lemma {:induction false} MapLinesAt<T>(xs: seq<T>, f: T -> string, k: nat)
    requires k < |xs|
    ensures MapLines(xs, f)[k] == f(xs[k])
  {
    var init := xs[..|xs| - 1];
    if k < |init| {
      MapLinesAt(init, f, k);
      assert init[k] == xs[k];
    }
  }

  lemma MapLinesSnoc<T>(xs: seq<T>, f: T -> string, k: nat)
    requires k < |xs|
    ensures MapLines(xs[..k + 1], f) == MapLines(xs[..k], f) + [f(xs[k])]
  {
    assert xs[..k + 1][..k] == xs[..k];
  }

  /** The `k`-th assertion line is the `k`-th rule's. */
  lemma AssertsAt(rules: seq<CaseType<Rule>>, k: nat)
    requires k < |rules|
    ensures Asserts(rules)[k] == AsAssert(rules[k])
  {
    MapLinesAt(rules, AsAssert, k);
  }

  /** One of `test_code`'s loops: pushes each rule's assertion in turn. */
  method PushAsserts(out0: seq<string>, rules: seq<CaseType<Rule>>) returns (out: seq<string>)
    ensures out == out0 + Asserts(rules)
  {
    out := out0;
    for k := 0 to |rules|
      invariant out == out0 + MapLines(rules[..k], AsAssert)
    {
      MapLinesSnoc(rules, AsAssert, k);
      out := out + [AsAssert(rules[k])];
    }
    assert rules[..|rules|] == rules;
  }

  /** `ValidateRule::test_code`: the header, then one assertion per contain rule, then per regex rule. */
  method TestCode(v: Validation) returns (out: seq<string>)
    ensures out == CodeHeader(v.style) + Asserts(v.containRules) + Asserts(v.regexRules)
  {
    out := PushAsserts(CodeHeader(v.style), v.containRules);
    out := PushAsserts(out, v.regexRules);
  }

  /** `test_code` with every assertion on the corrected `AsAssertFixed`: Minimize.TestCodeFixedDiffers states its lines. */
  function TestCodeFixed(v: Validation): (r: seq<string>)
    ensures |r| == 4 + |v.containRules| + |v.regexRules| && r[..4] == CodeHeader(v.style)
  {
    var h := CodeHeader(v.style);
    var r := h + MapLines(v.containRules + v.regexRules, AsAssertFixed);
    assert r[..4] == h;
    r
  }

  lemma IndexThird<T>(a: seq<T>, b: seq<T>, c: seq<T>, i: nat)
    requires i < |c|
    ensures (a + b + c)[|a| + |b| + i] == c[i]
  {
  }

  /**
   * The corrected test code has the lines of the code as written, except
   * that each pattern rule's assertion calls `Regex::new` instead of `Regex::parse`.
   */
  lemma TestCodeFixedDiffers(v: Validation)
    ensures var h := CodeHeader(v.style); var w := h + Asserts(v.containRules) + Asserts(v.regexRules);
      var r := TestCodeFixed(v); var rules := v.containRules + v.regexRules;
      |r| == |w| && r[..|h|] == w[..|h|] &&
      forall k :: 0 <= k < |rules| ==>
        (rules[k].rule.Substring? ==> r[|h| + k] == w[|h| + k]) &&
        (rules[k].rule.Pattern? ==> r[|h| + k] == AsAssertFixed(rules[k]) && w[|h| + k] == AsAssert(rules[k]))
  {
    var h := CodeHeader(v.style);
    assert TestCodeFixed(v) == h + MapLines(v.containRules + v.regexRules, AsAssertFixed);
    LinesDiffer(h, v.containRules, v.regexRules);
  }

  /** After any header, the corrected lines differ from the written ones only for pattern rules. */
  lemma LinesDiffer(h: seq<string>, cs: seq<CaseType<Rule>>, rs: seq<CaseType<Rule>>)
    ensures var w := h + Asserts(cs) + Asserts(rs);
      var r := h + MapLines(cs + rs, AsAssertFixed); var rules := cs + rs;
      |r| == |w| && r[..|h|] == w[..|h|] &&
      forall k :: 0 <= k < |rules| ==>
        (rules[k].rule.Substring? ==> r[|h| + k] == w[|h| + k]) &&
        (rules[k].rule.Pattern? ==> r[|h| + k] == AsAssertFixed(rules[k]) && w[|h| + k] == AsAssert(rules[k]))
  {
    var rules := cs + rs;
    forall k | 0 <= k < |rules|
      ensures (h + MapLines(rules, AsAssertFixed))[|h| + k] == AsAssertFixed(rules[k])
      ensures (h + Asserts(cs) + Asserts(rs))[|h| + k] == AsAssert(rules[k])
      ensures rules[k].rule.Substring? ==> AsAssertFixed(rules[k]) == AsAssert(rules[k])
    {
      LinesAt(h, cs, rs, k);
      if rules[k].rule.Substring? {
        AsAssertFixedDiffers(rules[k]);
      }
    }
    assert (h + Asserts(cs) + Asserts(rs))[..|h|] == h;
    assert (h + MapLines(rules, AsAssertFixed))[..|h|] == h;
  }

  /** The `k`-th rule's line after a header, written and corrected. */
  lemma LinesAt(h: seq<string>, cs: seq<CaseType<Rule>>, rs: seq<CaseType<Rule>>, k: nat)
    requires k < |cs| + |rs|
    ensures (h + MapLines(cs + rs, AsAssertFixed))[|h| + k] == AsAssertFixed((cs + rs)[k])
    ensures (h + Asserts(cs) + Asserts(rs))[|h| + k] == AsAssert((cs + rs)[k])
  {
    MapLinesAt(cs + rs, AsAssertFixed, k);
    if k < |cs| {
      AssertsAt(cs, k);
    } else {
      AssertsAt(rs, k - |cs|);
      IndexThird(h, Asserts(cs), Asserts(rs), k - |cs|);
    }
  }

  // ---------------------------------------------------------------------
  // Test names
  // ---------------------------------------------------------------------

  /** Why a typed test name is refused. */
  datatype NameError = EmptyName | LeadingDigit | IllegalCharacter | AlreadyExists

  predicate IsAsciiDigit(c: char)
  {
    '0' <= c <= '9'
  }

  predicate IsNameChar(c: char)
  {
    ('a' <= c <= 'z') || ('A' <= c <= 'Z') || IsAsciiDigit(c) || c == '_'
  }

  /** `contains(|c| !c.is_ascii_alphanumeric() && c != '_')`, as a scan. */
  function HasIllegal(t: string): (r: bool)
  {
    t != [] && (!IsNameChar(t[0]) || HasIllegal(t[1..]))
  }

  lemma {:induction false} HasIllegalIff(t: string)
    ensures HasIllegal(t) <==> exists i :: 0 <= i < |t| && !IsNameChar(t[i])
  {
    if t != [] {
      HasIllegalIff(t[1..]);
      if !IsNameChar(t[0]) {
      } else if exists i :: 0 <= i < |t| && !IsNameChar(t[i]) {
        var i :| 0 <= i < |t| && !IsNameChar(t[i]);
        assert t[1..][i - 1] == t[i];
      }
    }
  }

  /** Where the test for a name is written. */
  function TestPath(name: string): string
  {
    "tests/generated/" + name + ".rs"
  }

  /** One pass of the prompt loop on a line read from the terminal; `taken` says which paths exist on disk. */
  function CheckName(line: string, taken: string -> bool): (r: Result<string, NameError>)
    ensures r.Ok? ==> r.value == Strings.Trim(line)
  {
    CheckTrimmed(Strings.Trim(line), taken)
  }

  /** The checks on the trimmed line, in the order the loop makes them. */
  function CheckTrimmed(t: string, taken: string -> bool): (r: Result<string, NameError>)
    ensures r.Ok? ==> r.value == t
  {
    if t == [] then Err(EmptyName)
    else if IsAsciiDigit(t[0]) then Err(LeadingDigit)
    else if HasIllegal(t) then Err(IllegalCharacter)
    else if taken(TestPath(t)) then Err(AlreadyExists)
    else Ok(t)
  }

  /**
   * A name is accepted iff, once trimmed, it is non-empty, does not start
   * with an ASCII digit, consists of ASCII letters, digits and `_`, and no
   * test of that name exists.
   */
  lemma CheckNameAccepts(line: string, taken: string -> bool)
    ensures CheckName(line, taken).Ok? <==> NameRule(Strings.Trim(line), taken)
  {
    HasIllegalIff(Strings.Trim(line));
  }

  /** The rule a test name follows, stated without the order of the checks. */
  predicate NameRule(t: string, taken: string -> bool)
  {
    t != [] && !IsAsciiDigit(t[0]) && (forall i :: 0 <= i < |t| ==> IsNameChar(t[i])) && !taken(TestPath(t))
  }

  /** Emptiness is reported first, then a leading digit, then a bad character. */
  lemma CheckNameOrder(line: string, taken: string -> bool)
    ensures Strings.Trim(line) == [] ==> CheckName(line, taken) == Err(EmptyName)
    ensures Strings.Trim(line) != [] && IsAsciiDigit(Strings.Trim(line)[0]) ==> CheckName(line, taken) == Err(LeadingDigit)
  {
  }

  /** `ch_2` is accepted when no such test exists. */
  lemma NameAccepted(taken: string -> bool)
    requires !taken(TestPath(['c', 'h', '_', '2']))
    ensures CheckTrimmed(['c', 'h', '_', '2'], taken).Ok?
  {
    var t := ['c', 'h', '_', '2'];
    assert !HasIllegal(t) by {
      assert t[1..] == ['h', '_', '2'] && t[1..][1..] == ['_', '2'] && t[1..][1..][1..] == ['2'];
    }
  }

  /** `2nd` starts with a digit. */
  lemma NameLeadingDigit(taken: string -> bool)
    ensures CheckTrimmed(['2', 'n', 'd'], taken) == Err(LeadingDigit)
  {
  }

  /** `a-b` holds a hyphen. */
  lemma NameIllegal(taken: string -> bool)
    ensures CheckTrimmed(['a', '-', 'b'], taken) == Err(IllegalCharacter)
  {
    var t := ['a', '-', 'b'];
    assert t[1..] == ['-', 'b'];
  }

  /** Surrounding whitespace is trimmed before the checks. */
  lemma NameTrimmed(taken: string -> bool)
    ensures CheckName([' ', 'a', '\n'], taken) == CheckTrimmed(['a'], taken)
  {
    var s := [' ', 'a', '\n'];
    var u := ['a', '\n'];
    assert Strings.TrimStart(s) == u by {
      assert s[1..] == u;
      assert Strings.TrimStart(u) == u;
    }
    assert Strings.TrimEnd(u) == ['a'] by {
      assert u[..1] == ['a'];
      assert Strings.TrimEnd(['a']) == ['a'];
    }
    assert Strings.Trim(s) == ['a'];
  }

  /** A blank line is refused. */
  lemma BlankNameRefused(taken: string -> bool)
    ensures CheckName([' '], taken) == Err(EmptyName)
  {
    assert Strings.TrimStart([' ']) == [] by {
      assert [' '][1..] == [];
    }
  }

  /** Some line is accepted. */
  predicate AnyAccepted(lines: seq<string>, check: string -> Result<string, NameError>)
  {
    lines != [] && (check(lines[0]).Ok? || AnyAccepted(lines[1..], check))
  }

  /**
   * How many lines the prompt loop reads: up to and including the first
   * line `check` accepts, or all of them.
   */
  function LinesRead(lines: seq<string>, check: string -> Result<string, NameError>): (n: nat)
    ensures n <= |lines|
  {
    if lines == [] then 0
    else if check(lines[0]).Ok? then 1
    else 1 + LinesRead(lines[1..], check)
  }

  /**
   * When some line is accepted, the loop stops at the first: the last line
   * read is accepted and every line before it refused. Otherwise every line
   * is read and refused.
   */
  lemma {:induction false} LinesReadFirstAccepted(lines: seq<string>, check: string -> Result<string, NameError>)
    ensures var n := LinesRead(lines, check);
      (forall k :: 0 <= k < n - 1 ==> check(lines[k]).Err?) &&
      (AnyAccepted(lines, check) ==> 0 < n && check(lines[n - 1]).Ok?) &&
      (!AnyAccepted(lines, check) ==> n == |lines| && forall k :: 0 <= k < |lines| ==> check(lines[k]).Err?)
  {
    if lines != [] && check(lines[0]).Err? {
      LinesReadFirstAccepted(lines[1..], check);
      forall k | 0 < k < |lines|
        ensures lines[k] == lines[1..][k - 1]
      {
      }
    }
  }

  /**
   * The prompt loop over the lines typed; `check` is `CheckName` with the
   * file system's answer to which tests exist. The name is the last line
   * read, trimmed, when that line was accepted.
   */
  method PromptName(lines: seq<string>, check: string -> Result<string, NameError>) returns (name: Option<string>, read: nat)
    ensures read == LinesRead(lines, check)
    ensures name.Some? <==> AnyAccepted(lines, check)
    ensures name.Some? ==> 0 < read && check(lines[read - 1]) == Ok(name.value)
  {
    read := 0;
    assert lines[0..] == lines;
    while read < |lines|
      invariant read <= |lines|
      invariant LinesRead(lines, check) == LinesRead(lines[read..], check) + read
      invariant AnyAccepted(lines, check) == AnyAccepted(lines[read..], check)
    {
      var res := check(lines[read]);
      PromptStep(lines, check, read);
      if res.Ok? {
        name := Some(res.value);
        read := read + 1;
        return;
      }
      read := read + 1;
    }
    assert lines[read..] == [];
    name := None;
  }

  /**
   * With the real check, the prompt ends on the first line whose trimmed
   * text follows the name rule, having refused every line before it.
   */
  lemma PromptFollowsNameRule(lines: seq<string>, taken: string -> bool)
    ensures var check := (l: string) => CheckName(l, taken);
      var n := LinesRead(lines, check);
      (forall k :: 0 <= k < n - 1 ==> !NameRule(Strings.Trim(lines[k]), taken)) &&
      (AnyAccepted(lines, check) ==> 0 < n && NameRule(Strings.Trim(lines[n - 1]), taken))
  {
    var check := (l: string) => CheckName(l, taken);
    LinesReadFirstAccepted(lines, check);
    var n := LinesRead(lines, check);
    forall k | 0 <= k < |lines|
      ensures check(lines[k]).Ok? <==> NameRule(Strings.Trim(lines[k]), taken)
    {
      CheckNameAccepts(lines[k], taken);
    }
  }

  /** Reading one more line: it is taken, or the loop goes on with the rest. */
  lemma PromptStep(lines: seq<string>, check: string -> Result<string, NameError>, i: nat)
    requires i < |lines|
    ensures check(lines[i]).Ok? ==> LinesRead(lines[i..], check) == 1 && AnyAccepted(lines[i..], check)
    ensures check(lines[i]).Err? ==>
      LinesRead(lines[i..], check) == 1 + LinesRead(lines[i + 1..], check) &&
      AnyAccepted(lines[i..], check) == AnyAccepted(lines[i + 1..], check)
  {
    assert lines[i..][0] == lines[i];
    assert lines[i..][1..] == lines[i + 1..];
  }

  // ---------------------------------------------------------------------
  // The generated test file
  // ---------------------------------------------------------------------

  /** `html.len() > 1024 * 2`: the page is kept in a file of its own when over 2048 bytes of UTF-8. */
  predicate SeparateInput(html: string)
  {
    Strings.Utf8Len(html) > 1024 * 2
  }

  /** For an ASCII page the limit is 2048 characters. */
  lemma SeparateInputAscii(html: string)
    requires forall i :: 0 <= i < |html| ==> html[i] as int < 0x80
    ensures SeparateInput(html) <==> |html| > 2048
  {
    Strings.Utf8LenAscii(html);
  }

  function InputPath(name: string): string
  {
    "tests/generated/" + name + ".input.html"
  }

  /** The input file written beside the test, with its contents, when the page is large. */
  function InputFile(name: string, html: string): (r: Option<(string, string)>)
    ensures r.Some? <==> SeparateInput(html)
    ensures r.Some? ==> r.value == (InputPath(name), html)
  {
    if SeparateInput(html) then Some((InputPath(name), html)) else None
  }

  function ConstLine(html: string): string
  {
    "const HTML: &str = \"" + Escape(html) + "\";"
  }

  function ReadLine(name: string): string
  {
    "    let html: &str = &std::fs::read_to_string(\"" + InputPath(name) + "\").unwrap();"
  }

  /** The statement binding `html` to the parsed document `src`. */
  function ParseLine(src: string): string
  {
    "    let html = scraper::Html::parse_document(" + src + ");"
  }

  /** A parsing statement is indented by spaces, and `html` is followed by a space. */
  lemma ParseLineIndent(src: string)
    ensures |ParseLine(src)| > 12 && ParseLine(src)[1] == ' ' && ParseLine(src)[12] == ' '
  {
    var pre := "    let html = scraper::Html::parse_document(";
    assert ParseLine(src) == pre + (src + ");");
    assert ParseLine(src)[..|pre|] == pre;
    assert pre[1] == ' ' && pre[12] == ' ';
    assert ParseLine(src)[1] == pre[1] && ParseLine(src)[12] == pre[12];
  }

  /** The statement the source writes after reading a separate input file. */
  const PARSE_LINE_AS_WRITTEN := "    let html: scraper::HTML::parse_document(html);"

  /** The test file's lines before the test code, as the source writes them. */
  function PrologueAsWritten(name: string, html: string): (r: seq<string>)
    ensures |r| > 0
  {
    if SeparateInput(html) then
      ["#[test]", "fn generated() {", ReadLine(name), PARSE_LINE_AS_WRITTEN]
    else
      [ConstLine(html), "", "#[test]", "fn generated() {", ParseLine("HTML")]
  }

  /**
   * As written, a test generated for a page over 2048 bytes never binds
   * `html` to a parsed document: its last prologue line is a type
   * ascription, not a `let` with `=`, so the test does not compile.
   */
  lemma LongInputNotParsed(name: string, html: string)
    requires SeparateInput(html)
    ensures forall src :: PrologueAsWritten(name, html)[|PrologueAsWritten(name, html)| - 1] != ParseLine(src)
  {
    assert PARSE_LINE_AS_WRITTEN[12] == ':';
    forall src
      ensures PARSE_LINE_AS_WRITTEN != ParseLine(src)
    {
      assert ParseLine(src)[12] == ' ';
    }
  }

  /** The prologue with the separate-file branch binding `html` as the inline branch does. */
  function Prologue(name: string, html: string): (r: seq<string>)
    ensures |r| > 0
  {
    if SeparateInput(html) then
      ["#[test]", "fn generated() {", ReadLine(name), ParseLine("html")]
    else
      [ConstLine(html), "", "#[test]", "fn generated() {", ParseLine("HTML")]
  }

  /**
   * Either way the prologue ends by parsing the page: inline, the constant
   * holds the page escaped so that the literal reads back as the page; in a
   * separate file, the test reads the file the page was written to.
   */
  lemma PrologueParsesPage(name: string, html: string)
    ensures var p := Prologue(name, html);
      p[|p| - 1] == ParseLine(if SeparateInput(html) then "html" else "HTML")
    ensures !SeparateInput(html) ==> Prologue(name, html)[0] == ConstLine(html) && Unescape(Escape(html)) == Some(html)
    ensures SeparateInput(html) ==>
      Prologue(name, html)[2] == ReadLine(name) && InputFile(name, html) == Some((InputPath(name), html))
  {
    UnescapeEscape(html);
  }

  /** A test file: the prologue, the test code indented by four spaces, and the closing brace. */
  function Assemble(prologue: seq<string>, code: seq<string>): (r: seq<string>)
    ensures |r| == |prologue| + |code| + 1
    ensures r[..|prologue|] == prologue
    ensures forall k :: 0 <= k < |code| ==> r[|prologue| + k] == "    " + code[k]
    ensures r[|r| - 1] == "}"
  {
    prologue + seq(|code|, k requires 0 <= k < |code| => "    " + code[k]) + ["}"]
  }

  /** `create_test`'s test file as the source writes it, on the prologue as written. */
  function TestSource(name: string, html: string, code: seq<string>): (r: seq<string>)
  {
    Assemble(PrologueAsWritten(name, html), code)
  }

  /** The test file on the corrected prologue. */
  function TestSourceFixed(name: string, html: string, code: seq<string>): (r: seq<string>)
  {
    Assemble(Prologue(name, html), code)
  }

  /**
   * As written, the test file for a long page holds the test code after a
   * prologue whose last line parses nothing, and no line of the prologue
   * binds `html` to a parsed document.
   */
  lemma TestSourceLongNotParsed(name: string, html: string, code: seq<string>)
    requires SeparateInput(html)
    ensures var p := PrologueAsWritten(name, html); var r := TestSource(name, html, code);
      |r| == |p| + |code| + 1 && r[..|p|] == p && r[|r| - 1] == "}" &&
      (forall k :: 0 <= k < |code| ==> r[|p| + k] == "    " + code[k]) &&
      forall i, src :: 0 <= i < |p| ==> r[i] != ParseLine(src)
  {
    var p := PrologueAsWritten(name, html);
    var r := TestSource(name, html, code);
    LongInputNotParsed(name, html);
    forall i, src | 0 <= i < |p|
      ensures r[i] != ParseLine(src)
    {
      assert r[i] == p[i];
      ParseLineIndent(src);
      if i < 2 {
        assert p[i][1] != ' ';
      } else if i == 2 {
        assert p[i][12] == ':';
      }
    }
  }

  /**
   * With the corrected prologue, the test code follows a line that parses the
   * page, whether the page is inline or in the file written beside the test.
   */
  lemma TestSourceFixedParses(name: string, html: string, code: seq<string>)
    ensures var p := Prologue(name, html); var r := TestSourceFixed(name, html, code);
      |r| == |p| + |code| + 1 && r[..|p|] == p && r[|r| - 1] == "}" &&
      (forall k :: 0 <= k < |code| ==> r[|p| + k] == "    " + code[k]) &&
      r[|p| - 1] == ParseLine(if SeparateInput(html) then "html" else "HTML")
  {
    PrologueParsesPage(name, html);
    var p := Prologue(name, html);
    assert TestSourceFixed(name, html, code)[|p| - 1] == TestSourceFixed(name, html, code)[..|p|][|p| - 1];
  }
}
