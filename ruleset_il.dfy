/**
 * The current Reigokai rule set (src/rulesets/il.rs): exclusion that also
 * consults the override rules, a translator's-note strip that resets when
 * it has gone too far, and scene separators written as `◇ … ◇`.
 */
module RulesetIl {
  import opened Wrappers
  import Dom
  import Strings
  import SedEval
  import Overrides
  import Common
  import CB = ChapterBuilder
  import Il
  import Chapter

  /** `IlConfig`: whether a leading translator's note is stripped. */
  datatype IlConfig = IlConfig(stripFwdTln: bool)

  /** `IlConfig::default`: stripping is on. */
  const DEFAULT_CONFIG: IlConfig := IlConfig(true)

  const P_SEL: string := "body div.entry-content > *:is(p,hr,ol,ul)"
  const NO_PARAGRAPHS: string := "no paragraphs"

  /** More consumed paragraphs than this before a rule is taken as a mistake. */
  const RULE_LIMIT: nat := 10
  /** More consumed paragraphs than this with no rule is taken as a mistake. */
  const NO_RULE_LIMIT: nat := 25

  // ---------------------------------------------------------------- exclusion

  /** Some override rule deletes the element. */
  predicate OverrideDeletes(o: Overrides.OverrideSet, d: Dom.Doc, el: nat, eng: Dom.Engine)
  {
    var rs := Overrides.Replacers(o);
    exists k :: 0 <= k < |rs| && SedEval.ShouldDelete(rs[k], d, el, eng)
  }

  /** `simple_exclude`: an override deletes the element, or the older exclusion applies. */
  predicate Excluded(o: Overrides.OverrideSet, d: Dom.Doc, el: nat, eng: Dom.Engine)
  {
    OverrideDeletes(o, d, el, eng) || Il.SimpleExcluded(d, el, eng)
  }

  /** `simple_exclude`: the override rules first, each returning early; then the matched descendants. */
  method SimpleExclude(o: Overrides.OverrideSet, d: Dom.Doc, el: nat, eng: Dom.Engine) returns (r: bool)
    ensures r == Excluded(o, d, el, eng)
  {
    var rs := Overrides.Replacers(o);
    for i := 0 to |rs|
      invariant forall k :: 0 <= k < i ==> !SedEval.ShouldDelete(rs[k], d, el, eng)
    {
      if SedEval.ShouldDelete(rs[i], d, el, eng) {
        return true;
      }
    }
    r := Il.SimpleExclude(d, el, eng);
  }

  /** With no override rules only the older exclusion is left. */
  lemma NoOverridesExclusion(d: Dom.Doc, el: nat, eng: Dom.Engine)
    ensures Excluded(Overrides.Empty(), d, el, eng) == Il.SimpleExcluded(d, el, eng)
  {
    assert Overrides.Replacers(Overrides.Empty()) == [];
  }

  /** The selected elements that are not excluded, in order (the `filter` over `html.select`). */
  function Kept(o: Overrides.OverrideSet, d: Dom.Doc, eng: Dom.Engine, es: seq<nat>): (r: seq<nat>)
    ensures |r| <= |es|
    ensures Il.Elements(d, es) ==> Il.Elements(d, r)
  {
    if es == [] then []
    else Kept(o, d, eng, es[..|es| - 1]) + (if Excluded(o, d, es[|es| - 1], eng) then [] else [es[|es| - 1]])
  }

  /** Filtering drops exactly the excluded elements. */
  lemma {:induction false} KeptMembers(o: Overrides.OverrideSet, d: Dom.Doc, eng: Dom.Engine, es: seq<nat>)
    ensures forall e :: e in Kept(o, d, eng, es) <==> e in es && !Excluded(o, d, e, eng)
  {
    if es != [] {
      KeptMembers(o, d, eng, es[..|es| - 1]);
      assert es == es[..|es| - 1] + [es[|es| - 1]];
    }
  }

  /** The lazy filter, one element at a time. */
  method Filter(o: Overrides.OverrideSet, d: Dom.Doc, eng: Dom.Engine, es: seq<nat>) returns (kept: seq<nat>)
    ensures kept == Kept(o, d, eng, es)
  {
    kept := [];
    for i := 0 to |es|
      invariant kept == Kept(o, d, eng, es[..i])
    {
      assert es[..i + 1][..i] == es[..i];
      var excluded := SimpleExclude(o, d, es[i], eng);
      if !excluded {
        kept := kept + [es[i]];
      }
    }
    assert es[..|es|] == es;
  }

  // ---------------------------------------------------------------- stripping

  /** The position of the first rule, or the length when there is none. */
  function FirstRule(hrs: seq<bool>): (r: nat)
    ensures r <= |hrs|
    ensures r < |hrs| ==> hrs[r]
    ensures forall k :: 0 <= k < r ==> !hrs[k]
  {
    if hrs == [] then 0
    else if hrs[0] then 0
    else
      var rest := hrs[1..];
      assert forall k :: 0 <= k < |rest| ==> rest[k] == hrs[k + 1];
      1 + FirstRule(rest)
  }

  /**
   * How many kept paragraphs the strip removes. A rule reached within the
   * first eleven paragraphs ends the note and is removed with it; a rule
   * reached later, or no rule among the first twenty-six paragraphs, resets
   * the strip so nothing is removed; a short page with no rule loses all of
   * its paragraphs.
   */
  function Cut(hrs: seq<bool>): (r: nat)
    ensures r <= |hrs|
  {
    var p := FirstRule(hrs);
    if p < |hrs| && p <= NO_RULE_LIMIT then (if p < RULE_LIMIT then p + 1 else 0)
    else if |hrs| > NO_RULE_LIMIT then 0
    else |hrs|
  }

  /** The `while let` strip loop: `removed` counts the paragraphs taken, and a reset starts over from the first paragraph. */
  method StripPrefix(hrs: seq<bool>) returns (start: nat)
    ensures start == Cut(hrs)
  {
    var removed := 0;
    var i := 0;
    while i < |hrs|
      invariant removed == i <= |hrs| && i <= NO_RULE_LIMIT
      invariant forall k :: 0 <= k < i ==> !hrs[k]
    {
      var hr := hrs[i];
      i := i + 1;
      removed := removed + 1;
      if hr {
        assert FirstRule(hrs) == i - 1 by {
          FirstRuleAt(hrs, i - 1);
        }
        if removed > RULE_LIMIT {
          return 0;
        }
        return i;
      }
      if removed > NO_RULE_LIMIT {
        NoRuleBefore(hrs, i);
        return 0;
      }
    }
    NoRuleBefore(hrs, i);
    return i;
  }

  /** The first rule is where the description says. */
  lemma FirstRuleAt(hrs: seq<bool>, p: nat)
    requires p < |hrs| && hrs[p] && forall k :: 0 <= k < p ==> !hrs[k]
    ensures FirstRule(hrs) == p
  {
    var f := FirstRule(hrs);
    if f < p {
      assert false;
    }
  }

  /** No rule among the first `n` paragraphs puts the first rule at or after `n`. */
  lemma NoRuleBefore(hrs: seq<bool>, n: nat)
    requires n <= |hrs| && forall k :: 0 <= k < n ==> !hrs[k]
    ensures FirstRule(hrs) >= n
  {
  }

  /** A rule among the first ten paragraphs: everything up to and including it goes. */
  lemma EarlyRuleEndsNote(hrs: seq<bool>, p: nat)
    requires p < RULE_LIMIT && p < |hrs| && hrs[p] && forall k :: 0 <= k < p ==> !hrs[k]
    ensures Cut(hrs) == p + 1
  {
    FirstRuleAt(hrs, p);
  }

  /** A first rule at the eleventh to twenty-sixth paragraph: the strip resets. */
  lemma LateRuleResets(hrs: seq<bool>, p: nat)
    requires RULE_LIMIT <= p <= NO_RULE_LIMIT && p < |hrs| && hrs[p] && forall k :: 0 <= k < p ==> !hrs[k]
    ensures Cut(hrs) == 0
  {
    FirstRuleAt(hrs, p);
  }

  /** No rule among the first twenty-six paragraphs of a longer page: the strip resets. */
  lemma LongNoteResets(hrs: seq<bool>)
    requires |hrs| > NO_RULE_LIMIT && forall k :: 0 <= k <= NO_RULE_LIMIT ==> !hrs[k]
    ensures Cut(hrs) == 0
  {
    NoRuleBefore(hrs, NO_RULE_LIMIT + 1);
  }

  /** A page of at most twenty-five paragraphs and no rule loses all of them. */
  lemma ShortPageWithoutRuleEmptied(hrs: seq<bool>)
    requires |hrs| <= NO_RULE_LIMIT && forall k :: 0 <= k < |hrs| ==> !hrs[k]
    ensures Cut(hrs) == |hrs|
  {
    NoRuleBefore(hrs, |hrs|);
  }

  /** "Sponsored Chapter!", a rule, then the text: only the text is left. */
  lemma SponsoredThenRule()
    ensures Cut([false, true, false]) == 2
  {
    EarlyRuleEndsNote([false, true, false], 1);
  }

  /** Which kept paragraphs are rules. */
  function Rules(d: Dom.Doc, es: seq<nat>): (r: seq<bool>)
    requires Il.Elements(d, es)
    ensures |r| == |es| && forall k :: 0 <= k < |es| ==> r[k] == Common.IsHr(d, es[k])
  {
    seq(|es|, k requires 0 <= k < |es| => Common.IsHr(d, es[k]))
  }

  /** Stripping happens when it is configured and the first kept paragraph mentions a note or a sponsor. */
  predicate StripsNote(cfg: IlConfig, d: Dom.Doc, kept: seq<nat>)
  {
    cfg.stripFwdTln && kept != [] &&
    (Il.TextContains(d, kept[0], "TLN") || Il.TextContains(d, kept[0], "Sponsored"))
  }

  /** The kept paragraphs that are emitted. */
  function Body(cfg: IlConfig, d: Dom.Doc, kept: seq<nat>): (r: seq<nat>)
    requires Il.Elements(d, kept)
    ensures Il.Elements(d, r)
  {
    if StripsNote(cfg, d, kept) then kept[Cut(Rules(d, kept))..] else kept
  }

  /** Whatever is stripped, the emitted paragraphs are a suffix of the kept ones. */
  lemma BodyIsSuffix(cfg: IlConfig, d: Dom.Doc, kept: seq<nat>)
    requires Il.Elements(d, kept)
    ensures var b := Body(cfg, d, kept); |b| <= |kept| && b == kept[|kept| - |b|..]
  {
  }

  // ---------------------------------------------------------------- scene separators

  /** `\s` of the regular-expression engine, which is ASCII-only. */
  predicate AsciiSpace(c: char)
  {
    c == ' ' || c == '\t' || c == '\n' || c == '\U{000B}' || c == '\U{000C}' || c == '\r'
  }

  predicate AllAsciiSpace(s: string)
  {
    forall i :: 0 <= i < |s| ==> AsciiSpace(s[i])
  }

  predicate NoDiamond(s: string)
  {
    forall i :: 0 <= i < |s| ==> s[i] != '◇'
  }

  /** The position of the first `◇` in `s`, or its length. */
  function DiamondAt(s: string): (r: nat)
    ensures r <= |s| && (r < |s| ==> s[r] == '◇') && NoDiamond(s[..r])
  {
    if s == [] || s[0] == '◇' then 0
    else
      var r := 1 + DiamondAt(s[1..]);
      assert s[..r] == [s[0]] + s[1..][..r - 1];
      r
  }

  /** The capture `^◇([^◇]*)◇?\s*$` takes from `t`, if it matches. */
  function SceneCapture(t: string): Option<string>
  {
    if t == [] || t[0] != '◇' then None
    else
      var rest := t[1..];
      var k := DiamondAt(rest);
      if k == |rest| then Some(rest)
      else if AllAsciiSpace(rest[k + 1..]) then Some(rest[..k])
      else None
  }

  /**
   * What a match of `^◇([^◇]*)◇?\s*$` with capture `x` looks like: a
   * diamond, then `x`, which holds no diamond, then either nothing or a
   * diamond followed only by spaces. (Without a closing diamond the greedy
   * group takes trailing spaces too.)
   */
  predicate SceneShape(t: string, x: string)
  {
    |t| >= |x| + 1 && t[0] == '◇' && t[1..|x| + 1] == x && NoDiamond(x) &&
    var tail := t[|x| + 1..];
    tail == [] || (tail[0] == '◇' && AllAsciiSpace(tail[1..]))
  }

  /** A string of the pattern's shape is matched with that capture. */
  lemma ShapeCaptured(t: string, x: string)
    requires SceneShape(t, x)
    ensures SceneCapture(t) == Some(x)
  {
    var rest := t[1..];
    var tail := t[|x| + 1..];
    assert rest[..|x|] == x;
    assert rest[|x|..] == tail;
    var k := DiamondAt(rest);
    assert k == |x|;
    if tail == [] {
      assert rest == x;
    } else {
      assert rest[k + 1..] == tail[1..];
    }
  }

  /** The matcher finds exactly the captures of the pattern. */
  lemma SceneCaptureIff(t: string, x: string)
    ensures SceneCapture(t) == Some(x) <==> SceneShape(t, x)
  {
    if SceneShape(t, x) {
      ShapeCaptured(t, x);
    }
    if SceneCapture(t) == Some(x) {
      var rest := t[1..];
      var k := DiamondAt(rest);
      if k == |rest| {
        assert rest[..k] == rest;
        assert x == rest;
        assert |t| >= |x| + 1 && t[0] == '◇';
        assert t[1..|x| + 1] == x;
        assert NoDiamond(x);
        assert t[|x| + 1..] == [];
      } else {
        assert x == rest[..k];
        assert |t| >= |x| + 1 && t[0] == '◇';
        assert t[1..k + 1] == rest[..k];
        assert NoDiamond(x);
        assert t[k + 1..] == rest[k..];
        assert rest[k..][1..] == rest[k + 1..];
        assert AllAsciiSpace(rest[k + 1..]);
      }
    }
  }

  /** A lone diamond, and a title between two diamonds, match; the capture keeps the spaces for `trim`. */
  lemma SceneCaptureTitled()
    ensures SceneCapture(['◇']) == Some([])
    ensures SceneCapture(['◇', ' ', 'A', ' ', '◇', ' ']) == Some([' ', 'A', ' '])
  {
    ShapeCaptured(['◇'], []);
    var t := ['◇', ' ', 'A', ' ', '◇', ' '];
    assert t[1..4] == [' ', 'A', ' '];
    assert t[4..] == ['◇', ' '];
    ShapeCaptured(t, [' ', 'A', ' ']);
  }

  /** Text after the closing diamond, or none at the start, is not a separator. */
  lemma SceneCaptureRejects()
    ensures SceneCapture(['◇', 'a', '◇', 'b']) == None
    ensures SceneCapture(['a', '◇']) == None
  {
    var t := ['◇', 'a', '◇', 'b'];
    var rest := t[1..];
    assert rest == ['a', '◇', 'b'];
    assert rest[1..] == ['◇', 'b'];
    assert DiamondAt(rest) == 1;
    assert rest[2..][0] == 'b';
    assert !AllAsciiSpace(rest[2..]);
  }

  // ---------------------------------------------------------------- emission

  /** One paragraph: a scene separator with the trimmed capture, or `add_basic`. */
  function EmitOne(st: CB.BuilderState, d: Dom.Doc, e: nat): CB.BuilderState
    requires Dom.ParentsBefore(d) && e < |d|
  {
    var first := Common.FirstText(d, e);
    if first.Some? && SceneCapture(first.value).Some? then CB.AddSceneSepStep(st, Strings.Trim(SceneCapture(first.value).value))
    else Common.DescendNode(st, d, e)
  }

  function EmitAll(st: CB.BuilderState, d: Dom.Doc, es: seq<nat>): CB.BuilderState
    requires Dom.ParentsBefore(d) && Il.Elements(d, es)
  {
    if es == [] then st else EmitOne(EmitAll(st, d, es[..|es| - 1]), d, es[|es| - 1])
  }

  lemma EmitAllSnoc(st: CB.BuilderState, d: Dom.Doc, es: seq<nat>, i: nat)
    requires Dom.ParentsBefore(d) && Il.Elements(d, es) && i < |es|
    ensures EmitAll(st, d, es[..i + 1]) == EmitOne(EmitAll(st, d, es[..i]), d, es[i])
  {
    assert es[..i + 1][..i] == es[..i];
  }

  /** The emission `for` loop. */
  method Emit(ch: CB.ChapterBuilder, d: Dom.Doc, es: seq<nat>)
    requires Dom.ParentsBefore(d) && Il.Elements(d, es)
    modifies ch
    ensures ch.State() == EmitAll(old(ch.State()), d, es)
  {
    ghost var st0 := ch.State();
    for i := 0 to |es|
      invariant ch.State() == EmitAll(st0, d, es[..i])
    {
      EmitAllSnoc(st0, d, es, i);
      var el := es[i];
      var first := Common.FirstText(d, el);
      var sep := if first.Some? then SceneCapture(first.value) else None;
      if sep.Some? {
        ch.AddSceneSep(Strings.Trim(sep.value));
      } else {
        Common.AddBasic(ch, d, el);
      }
    }
    assert es[..|es|] == es;
  }

  /** Each emitted paragraph keeps the builder's invariant. */
  lemma {:induction false} EmitAllInv(st: CB.BuilderState, d: Dom.Doc, es: seq<nat>)
    requires Dom.ParentsBefore(d) && Il.Elements(d, es) && CB.Inv(st)
    ensures CB.Inv(EmitAll(st, d, es))
  {
    if es != [] {
      var prev := EmitAll(st, d, es[..|es| - 1]);
      EmitAllInv(st, d, es[..|es| - 1]);
      var e := es[|es| - 1];
      var first := Common.FirstText(d, e);
      if first.Some? && SceneCapture(first.value).Some? {
        CB.ParagraphFinishInv(prev);
        CB.AppendMajorInv(CB.ParagraphFinishStep(prev), Chapter.SceneSep(Strings.Trim(SceneCapture(first.value).value)));
      } else {
        Common.DescendInv(prev, d, e);
      }
    }
  }

  // ---------------------------------------------------------------- parse_body

  /**
   * `parse_body`: no kept paragraph is an error and leaves the builder
   * alone; otherwise the note is stripped as configured and every remaining
   * paragraph is emitted.
   */
  method ParseBody(ch: CB.ChapterBuilder, cfg: IlConfig, o: Overrides.OverrideSet, d: Dom.Doc, eng: Dom.Engine)
    returns (r: Result<(), string>)
    requires Dom.ParentsBefore(d)
    modifies ch
    ensures var kept := Kept(o, d, eng, SedEval.SelectAll(P_SEL, d, 0, eng));
      (kept == [] ==> r == Err(NO_PARAGRAPHS) && ch.State() == old(ch.State())) &&
      (kept != [] ==> r == Ok(()) && ch.State() == EmitAll(old(ch.State()), d, Body(cfg, d, kept)))
  {
    var all := SedEval.SelectAll(P_SEL, d, 0, eng);
    var kept := Filter(o, d, eng, all);
    if kept == [] {
      return Err(NO_PARAGRAPHS);
    }
    var start := 0;
    if cfg.stripFwdTln && (Il.TextContains(d, kept[0], "TLN") || Il.TextContains(d, kept[0], "Sponsored")) {
      start := StripPrefix(Rules(d, kept));
    }
    Emit(ch, d, kept[start..]);
    return Ok(());
  }
}
