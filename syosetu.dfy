/**
 * The syosetu rule set (src/rulesets/syosetu.rs): the chapter title with
 * its fallback, the next-chapter link made absolute, and a body whose
 * diamond-only paragraphs become scene separators.
 *
 * The document model keeps only element names and classes, so attribute
 * lookup is a parameter.
 */
module Syosetu {
  import opened Wrappers
  import Dom
  import Strings
  import SedEval
  import Overrides
  import Common
  import CB = ChapterBuilder
  import Chapter
  import Il
  import RulesetIl
  import Img = Image

  const NEXT_SEL: string := "a.c-pager__item--next"
  const TITLE_SEL: string := "h1.p-novel__title--rensai"
  const P_SEL: string := "div.p-novel__text > *"
  const FALLBACK_TITLE: string := "〇〇話"
  const HOST: string := "https://ncode.syosetu.com"
  const SCENE: string := "◇"
  const NO_PARAGRAPHS: string := "no paragraphs"

  /** `attr(name)` of an element. */
  type Attrs = (Dom.Doc, nat, string) -> Option<string>

  /** `title`: the first text of the first title element, or the placeholder when either is missing. */
  function Title(d: Dom.Doc, eng: Dom.Engine): (r: string)
    ensures var ts := SedEval.SelectAll(TITLE_SEL, d, 0, eng);
      if ts != [] && Common.FirstText(d, ts[0]).Some? then r == Common.FirstText(d, ts[0]).value
      else r == FALLBACK_TITLE
  {
    var ts := SedEval.SelectAll(TITLE_SEL, d, 0, eng);
    if ts == [] then FALLBACK_TITLE
    else match Common.FirstText(d, ts[0])
      case Some(t) => t
      case None => FALLBACK_TITLE
  }

  /** Some title element is selected and it has a text node below it. */
  predicate HasTitleText(d: Dom.Doc, eng: Dom.Engine)
  {
    var ts := SedEval.SelectAll(TITLE_SEL, d, 0, eng);
    ts != [] && Common.FirstText(d, ts[0]).Some?
  }

  /**
   * The title is the fallback when no title text is selected, and otherwise
   * the text of the first text node below the first title element; so a
   * title other than the fallback always comes from the page.
   */
  lemma TitleFallback(d: Dom.Doc, eng: Dom.Engine)
    ensures !HasTitleText(d, eng) ==> Title(d, eng) == FALLBACK_TITLE
    ensures HasTitleText(d, eng) ==> var n := SedEval.SelectAll(TITLE_SEL, d, 0, eng)[0];
      exists t: nat :: Dom.IsText(d, t) && Dom.IsAncestor(d, n, t) && Title(d, eng) == d[t].kind.text &&
        forall u: nat :: u < t && Dom.IsText(d, u) ==> !Dom.IsAncestor(d, n, u)
    ensures Title(d, eng) != FALLBACK_TITLE ==> HasTitleText(d, eng)
  {
    if HasTitleText(d, eng) {
      var n := SedEval.SelectAll(TITLE_SEL, d, 0, eng)[0];
      var ts := Dom.TextsUnder(d, n, n + 1);
      assert ts[0] in ts;
      var t: nat := ts[0];
      forall u: nat | u < t && Dom.IsText(d, u)
        ensures !Dom.IsAncestor(d, n, u)
      {
        if Dom.IsAncestor(d, n, u) {
          Dom.AncestorBefore(d, n, u);
          assert false;
        }
      }
    }
  }

  /** The href made absolute: protocol-relative links get `https:`, site-relative ones the host. */
  function NormalizeHref(href: string): (r: string)
  {
    if Strings.StartsWith(href, "//") then "https:" + href
    else if Strings.StartsWith(href, "/") then HOST + href
    else href
  }

  /** The link always ends the result; a link starting with `/` becomes an `https://` address, and any other link is untouched. */
  lemma NormalizeHrefShape(href: string)
    ensures var r := NormalizeHref(href);
      |href| <= |r| && r[|r| - |href|..] == href &&
      (Strings.StartsWith(href, "/") ==> Strings.StartsWith(r, "https://")) &&
      (!Strings.StartsWith(href, "/") ==> r == href)
  {
    var r := NormalizeHref(href);
    if Strings.StartsWith(href, "//") {
      assert r[..8] == "https:" + href[..2] == "https://";
      assert r[|r| - |href|..] == href;
    } else if Strings.StartsWith(href, "/") {
      assert r[..|HOST|] == HOST;
      assert r[..8] == HOST[..8] == "https://";
      assert r[|r| - |href|..] == href;
    }
  }

  /** Normalising twice is normalising once. */
  lemma NormalizeHrefIdempotent(href: string)
    ensures NormalizeHref(NormalizeHref(href)) == NormalizeHref(href)
  {
    NormalizeHrefShape(href);
    var r := NormalizeHref(href);
    if Strings.StartsWith(href, "/") {
      assert r[0] == 'h';
      assert !Strings.StartsWith(r, "/") && !Strings.StartsWith(r, "//");
    }
  }

  /** `next_chapter`: the `href` of the first next-page link, normalised; nothing without a link or an `href`. */
  function NextChapter(d: Dom.Doc, eng: Dom.Engine, attr: Attrs): (r: Option<string>)
    ensures var ns := SedEval.SelectAll(NEXT_SEL, d, 0, eng);
      r.Some? <==> ns != [] && attr(d, ns[0], "href").Some?
    ensures r.Some? ==> r.value == NormalizeHref(attr(d, SedEval.SelectAll(NEXT_SEL, d, 0, eng)[0], "href").value)
  {
    var ns := SedEval.SelectAll(NEXT_SEL, d, 0, eng);
    if ns == [] then None
    else match attr(d, ns[0], "href")
      case None => None
      case Some(href) => Some(NormalizeHref(href))
  }

  /**
   * A next-chapter link exists exactly when the first next-page element has
   * an `href`; the link ends with that `href`, is an `https://` address when
   * the `href` starts with `/`, and is the `href` itself otherwise.
   */
  lemma NextChapterLink(d: Dom.Doc, eng: Dom.Engine, attr: Attrs)
    ensures var ns := SedEval.SelectAll(NEXT_SEL, d, 0, eng); var r := NextChapter(d, eng, attr);
      (r.Some? <==> ns != [] && attr(d, ns[0], "href").Some?) &&
      (r.Some? ==> var href := attr(d, ns[0], "href").value;
        |href| <= |r.value| && r.value[|r.value| - |href|..] == href &&
        (Strings.StartsWith(href, "/") ==> Strings.StartsWith(r.value, "https://")) &&
        (!Strings.StartsWith(href, "/") ==> r.value == href))
  {
    var ns := SedEval.SelectAll(NEXT_SEL, d, 0, eng);
    if ns != [] && attr(d, ns[0], "href").Some? {
      NormalizeHrefShape(attr(d, ns[0], "href").value);
    }
  }

  /** `^\s*◇+\s*$`: optional spaces, one or more diamonds, optional spaces. */
  predicate DiamondsOnly(t: string)
  {
    exists i, j :: 0 <= i < j <= |t| && RulesetIl.AllAsciiSpace(t[..i]) &&
      (forall k :: i <= k < j ==> t[k] == '◇') && RulesetIl.AllAsciiSpace(t[j..])
  }

  /** A diamond is not a space. */
  lemma DiamondNotSpace(s: string, k: nat)
    requires k < |s| && s[k] == '◇'
    ensures !RulesetIl.AllAsciiSpace(s)
  {
    assert !RulesetIl.AsciiSpace(s[k]);
  }

  /** Three diamonds and a spaced diamond are separators; diamonds split by a space or an empty text are not. */
  lemma DiamondsOnlyExamples()
    ensures DiamondsOnly(['◇', '◇', '◇'])
    ensures DiamondsOnly([' ', '◇', ' '])
    ensures !DiamondsOnly(['◇', ' ', '◇'])
    ensures !DiamondsOnly([])
  {
    var a := ['◇', '◇', '◇'];
    assert a[..0] == [] && a[3..] == [];
    var b := [' ', '◇', ' '];
    assert b[..1] == [' '] && b[2..] == [' '];
    var c := ['◇', ' ', '◇'];
    forall i, j | 0 <= i < j <= |c|
      ensures !(RulesetIl.AllAsciiSpace(c[..i]) && (forall k :: i <= k < j ==> c[k] == '◇') && RulesetIl.AllAsciiSpace(c[j..]))
    {
      if i > 0 {
        DiamondNotSpace(c[..i], 0);
      } else if j == 1 {
        DiamondNotSpace(c[j..], 1);
      } else {
        assert c[1] != '◇';
      }
    }
  }

  /** The paragraph's first text is diamonds only. */
  predicate IsSceneSep(d: Dom.Doc, e: nat)
  {
    e < |d| && var first := Common.FirstText(d, e);
    first.Some? && DiamondsOnly(first.value)
  }

  /** The selected paragraphs no override deletes, in order. */
  function Kept(o: Overrides.OverrideSet, d: Dom.Doc, eng: Dom.Engine, es: seq<nat>): (r: seq<nat>)
    ensures |r| <= |es|
    ensures Il.Elements(d, es) ==> Il.Elements(d, r)
  {
    if es == [] then []
    else Kept(o, d, eng, es[..|es| - 1]) + (if RulesetIl.OverrideDeletes(o, d, es[|es| - 1], eng) then [] else [es[|es| - 1]])
  }

  /** One paragraph: a diamond separator, or `add_basic`. */
  function EmitOne(st: CB.BuilderState, d: Dom.Doc, e: nat): CB.BuilderState
    requires Dom.ParentsBefore(d) && e < |d|
  {
    if IsSceneSep(d, e) then CB.AddSceneSepStep(st, SCENE) else Common.DescendNode(st, d, e)
  }

  function EmitAll(st: CB.BuilderState, d: Dom.Doc, es: seq<nat>): CB.BuilderState
    requires Dom.ParentsBefore(d) && Il.Elements(d, es)
  {
    if es == [] then st else EmitOne(EmitAll(st, d, es[..|es| - 1]), d, es[|es| - 1])
  }

  lemma EmitAllSnoc(st: CB.BuilderState, d: Dom.Doc, es: seq<nat>, i: nat)
    requires Dom.ParentsBefore(d) && Il.Elements(d, es) && i < |es|
    ensures EmitAll(st, d, es[..i + 1]) == EmitOne(EmitAll(st, d, es[..i]), d, es[i])
  {
    assert es[..i + 1][..i] == es[..i];
  }

  /** Some paragraph is not a separator. */
  predicate HasText(d: Dom.Doc, es: seq<nat>)
  {
    exists k :: 0 <= k < |es| && !IsSceneSep(d, es[k])
  }

  function AllTrue(bs: seq<bool>): bool
  {
    bs == [] || (AllTrue(bs[..|bs| - 1]) && bs[|bs| - 1])
  }

  lemma AllTrueSnoc(bs: seq<bool>, i: nat)
    requires i < |bs|
    ensures AllTrue(bs[..i + 1]) == (AllTrue(bs[..i]) && bs[i])
  {
    assert bs[..i + 1][..i] == bs[..i];
  }

  lemma {:induction false} AllTrueIff(bs: seq<bool>)
    ensures AllTrue(bs) <==> forall k :: 0 <= k < |bs| ==> bs[k]
  {
    if bs != [] {
      AllTrueIff(bs[..|bs| - 1]);
    }
  }

  /** Which paragraphs are separators. */
  function Separators(d: Dom.Doc, es: seq<nat>): (r: seq<bool>)
    ensures |r| == |es| && forall k :: 0 <= k < |es| ==> r[k] == IsSceneSep(d, es[k])
  {
    seq(|es|, k requires 0 <= k < |es| => IsSceneSep(d, es[k]))
  }

  /** All paragraphs are separators exactly when none is text. */
  lemma SeparatorsHasText(d: Dom.Doc, es: seq<nat>)
    ensures AllTrue(Separators(d, es)) <==> !HasText(d, es)
  {
    var seps := Separators(d, es);
    AllTrueIff(seps);
    if HasText(d, es) {
      var k :| 0 <= k < |es| && !IsSceneSep(d, es[k]);
      assert !seps[k];
    }
  }

  /** The body of `parse_body`'s loop: a separator for a diamond-only paragraph, otherwise `add_basic`; reports which it was. */
  method EmitParagraph(ch: CB.ChapterBuilder, d: Dom.Doc, el: nat) returns (sep: bool)
    requires Dom.ParentsBefore(d) && Dom.IsElement(d, el)
    modifies ch
    ensures ch.State() == EmitOne(old(ch.State()), d, el)
    ensures sep == IsSceneSep(d, el)
  {
    var first := Common.FirstText(d, el);
    sep := first.Some? && DiamondsOnly(first.value);
    if sep {
      ch.AddSceneSep(SCENE);
    } else {
      Common.AddBasic(ch, d, el);
    }
  }

  /** `parse_body`'s loop: every paragraph is emitted, and `empty` is cleared by the first one that is not a separator. */
  method Emit(ch: CB.ChapterBuilder, d: Dom.Doc, es: seq<nat>) returns (empty: bool)
    requires Dom.ParentsBefore(d) && Il.Elements(d, es)
    modifies ch
    ensures ch.State() == EmitAll(old(ch.State()), d, es)
    ensures empty <==> !HasText(d, es)
  {
    ghost var st0 := ch.State();
    ghost var seps := Separators(d, es);
    empty := true;
    for i := 0 to |es|
      invariant ch.State() == EmitAll(st0, d, es[..i])
      invariant empty == AllTrue(seps[..i])
    {
      EmitAllSnoc(st0, d, es, i);
      AllTrueSnoc(seps, i);
      var sep := EmitParagraph(ch, d, es[i]);
      if !sep {
        empty := false;
      }
    }
    assert es[..|es|] == es && seps[..|es|] == seps;
    SeparatorsHasText(d, es);
  }

  /** The override filter. */
  method Filter(o: Overrides.OverrideSet, d: Dom.Doc, eng: Dom.Engine, es: seq<nat>) returns (kept: seq<nat>)
    ensures kept == Kept(o, d, eng, es)
  {
    kept := [];
    for i := 0 to |es|
      invariant kept == Kept(o, d, eng, es[..i])
    {
      assert es[..i + 1][..i] == es[..i];
      if !RulesetIl.OverrideDeletes(o, d, es[i], eng) {
        kept := kept + [es[i]];
      }
    }
    assert es[..|es|] == es;
  }

  /**
   * `parse_body`: every kept paragraph is emitted, then the call fails with
   * "no paragraphs" when all of them were separators (or there were none);
   * the separators stay in the builder either way.
   */
  method ParseBody(ch: CB.ChapterBuilder, o: Overrides.OverrideSet, d: Dom.Doc, eng: Dom.Engine)
    returns (r: Result<(), string>)
    requires Dom.ParentsBefore(d)
    modifies ch
    ensures var kept := Kept(o, d, eng, SedEval.SelectAll(P_SEL, d, 0, eng));
      ch.State() == EmitAll(old(ch.State()), d, kept) &&
      (r.Ok? <==> HasText(d, kept)) && (r.Err? ==> r.error == NO_PARAGRAPHS)
  {
    var all := SedEval.SelectAll(P_SEL, d, 0, eng);
    var kept := Filter(o, d, eng, all);
    var empty := Emit(ch, d, kept);
    if empty {
      return Err(NO_PARAGRAPHS);
    }
    return Ok(());
  }

  /** A page of separators only adds at least one completed element per paragraph. */
  lemma {:induction false} SeparatorsOnly(st: CB.BuilderState, d: Dom.Doc, es: seq<nat>)
    requires Dom.ParentsBefore(d) && Il.Elements(d, es) && !HasText(d, es)
    ensures |EmitAll(st, d, es).completeP| >= |st.completeP| + |es|
  {
    if es != [] {
      var init := es[..|es| - 1];
      assert !HasText(d, init) by {
        assert forall k :: 0 <= k < |init| ==> init[k] == es[k];
      }
      SeparatorsOnly(st, d, init);
      var prev := EmitAll(st, d, init);
      assert IsSceneSep(d, es[|es| - 1]);
      CB.ParagraphFinishSpec(prev);
      CB.AddMajorSpec(prev, SCENE, Img.Image(0, "", None));
    }
  }

  /** Each emitted paragraph keeps the builder's invariant. */
  lemma {:induction false} EmitAllInv(st: CB.BuilderState, d: Dom.Doc, es: seq<nat>)
    requires Dom.ParentsBefore(d) && Il.Elements(d, es) && CB.Inv(st)
    ensures CB.Inv(EmitAll(st, d, es))
  {
    if es != [] {
      var prev := EmitAll(st, d, es[..|es| - 1]);
      EmitAllInv(st, d, es[..|es| - 1]);
      if IsSceneSep(d, es[|es| - 1]) {
        CB.ParagraphFinishInv(prev);
        CB.AppendMajorInv(CB.ParagraphFinishStep(prev), Chapter.SceneSep(SCENE));
      } else {
        Common.DescendInv(prev, d, es[|es| - 1]);
      }
    }
  }
}
