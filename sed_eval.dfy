/**
 * The evaluation predicates of src/def/sed.rs: whether a rule selects an
 * element of a document, whether it deletes it or finds a match below it,
 * the nearest selected ancestor, and the text rewrite of a substitution.
 */
module SedEval {
  import opened Wrappers
  import opened Dom
  import opened SedLang

  predicate IsDel(p: Sed) { p.op.Delete? }
  predicate IsSub(p: Sed) { p.op.Replace? }
  predicate IsPrint(p: Sed) { p.op.Print? }
  predicate IsPrintAll(p: Sed) { p.op.PrintAll? }
  predicate IsPrintAny(p: Sed) { p.op.Print? || p.op.PrintAll? }
  predicate IsMatcher(p: Sed) { p.op.Match? }
  predicate IsDestructive(p: Sed) { p.op.Delete? || p.op.Replace? }

  /** `new_matcher`: a rule that parses and is a plain match. */
  function NewMatcher(s: string, eng: Engine): (r: Result<Sed, ParseError>)
    ensures r.Ok? <==> Parse(s, eng).Ok? && IsMatcher(Parse(s, eng).value)
    ensures r.Ok? ==> r == Parse(s, eng)
    ensures Parse(s, eng).Err? ==> r == Parse(s, eng)
  {
    var res := Parse(s, eng);
    if res.Err? then res
    else if !IsMatcher(res.value) then Err(NotMatcher)
    else res
  }

  /** A text node whose text the expression matches. */
  predicate TextMatches(re: string, d: Doc, t: nat, eng: Engine)
  {
    IsText(d, t) && eng.regexMatches(re, d[t].kind.text)
  }

  /** `any(|t| r.is_match(t))` over a list of text nodes. */
  function AnyMatch(re: string, d: Doc, ts: seq<nat>, eng: Engine): (r: bool)
    ensures r <==> exists k :: 0 <= k < |ts| && TextMatches(re, d, ts[k], eng)
  {
    if ts == [] then false
    else TextMatches(re, d, ts[0], eng) || AnyMatch(re, d, ts[1..], eng)
  }

  /** `el.text().any(|t| r.is_match(t))`: the text nodes below `el`, in document order. */
  function HasMatchingText(re: string, d: Doc, el: nat, eng: Engine): bool
  {
    AnyMatch(re, d, TextsUnder(d, el, el + 1), eng)
  }

  /** Some text node below `el` matches exactly when one of its strict descendants is a matching text node. */
  lemma HasMatchingTextIff(re: string, d: Doc, el: nat, eng: Engine)
    ensures HasMatchingText(re, d, el, eng) <==> exists t: nat :: IsAncestor(d, el, t) && TextMatches(re, d, t, eng)
  {
    var ts := TextsUnder(d, el, el + 1);
    if exists t: nat :: IsAncestor(d, el, t) && TextMatches(re, d, t, eng) {
      var t: nat :| IsAncestor(d, el, t) && TextMatches(re, d, t, eng);
      AncestorBefore(d, el, t);
      assert t in ts;
      var k :| 0 <= k < |ts| && ts[k] == t;
      assert TextMatches(re, d, ts[k], eng);
    }
  }

  /** `is_css_match`: the selector matches, or there is none and every element matches. */
  predicate IsCssMatch(p: Sed, d: Doc, el: nat, eng: Engine)
  {
    p.sel.None? || eng.selectorMatches(p.sel.value, d, el)
  }

  /** `is_el_match`: a css match whose text matches the expression, if there is one. */
  predicate IsElMatch(p: Sed, d: Doc, el: nat, eng: Engine)
  {
    IsCssMatch(p, d, el, eng) && (p.reg.None? || HasMatchingText(p.reg.value, d, el, eng))
  }

  /** `should_delete`: the rule deletes and the element is a full match. */
  predicate ShouldDelete(p: Sed, d: Doc, el: nat, eng: Engine)
  {
    IsDel(p) && IsElMatch(p, d, el, eng)
  }

  /** Only a delete rule deletes; one deletes an element when it is selected (or there is no selector) and a text node below it matches (or there is no expression). */
  lemma ShouldDeleteIff(p: Sed, d: Doc, el: nat, eng: Engine)
    ensures ShouldDelete(p, d, el, eng) <==>
      p.op.Delete? && (p.sel.None? || eng.selectorMatches(p.sel.value, d, el))
      && (p.reg.None? || exists t: nat :: IsAncestor(d, el, t) && TextMatches(p.reg.value, d, t, eng))
  {
    if p.reg.Some? {
      HasMatchingTextIff(p.reg.value, d, el, eng);
    }
  }

  /** An element strictly below `el` that the selector matches. */
  predicate SelectedBelow(sel: string, d: Doc, el: nat, e: nat, eng: Engine)
  {
    IsElement(d, e) && IsAncestor(d, el, e) && eng.selectorMatches(sel, d, e)
  }

  /** `el.select(s)`: the elements strictly below `el` that the selector matches, with index at least `i`, in document order. */
  function Select(sel: string, d: Doc, el: nat, i: nat, eng: Engine): (r: seq<nat>)
    ensures forall e: nat :: e in r <==> i <= e && SelectedBelow(sel, d, el, e, eng)
    decreases |d| - i
  {
    if i >= |d| then []
    else (if SelectedBelow(sel, d, el, i, eng) then [i] else []) + Select(sel, d, el, i + 1, eng)
  }

  /** Whether some element of `es` has a matching text node below it. */
  function AnyElementText(re: string, d: Doc, es: seq<nat>, eng: Engine): (r: bool)
    ensures r <==> exists k :: 0 <= k < |es| && HasMatchingText(re, d, es[k], eng)
  {
    if es == [] then false
    else HasMatchingText(re, d, es[0], eng) || AnyElementText(re, d, es[1..], eng)
  }

  /**
   * `contains_match`: false unless the rule is a plain match; otherwise a
   * text node below `el` matches, a selected element lies below it, or a
   * selected element below it has a matching text node. A plain match has a
   * selector or an expression (the source treats the other case as
   * unreachable).
   */
  function ContainsMatch(p: Sed, d: Doc, el: nat, eng: Engine): (r: bool)
    requires p.op.Match? ==> p.sel.Some? || p.reg.Some?
  {
    if !IsMatcher(p) then false
    else if p.sel.None? then HasMatchingText(p.reg.value, d, el, eng)
    else
      var below := Select(p.sel.value, d, el, el + 1, eng);
      if p.reg.None? then below != [] else AnyElementText(p.reg.value, d, below, eng)
  }

  /** What `contains_match` finds, stated without the lists it walks. */
  lemma ContainsMatchIff(p: Sed, d: Doc, el: nat, eng: Engine)
    requires p.op.Match? ==> p.sel.Some? || p.reg.Some?
    ensures !p.op.Match? ==> !ContainsMatch(p, d, el, eng)
    ensures p.op.Match? && p.sel.None? ==>
      (ContainsMatch(p, d, el, eng) <==> exists t: nat :: IsAncestor(d, el, t) && TextMatches(p.reg.value, d, t, eng))
    ensures p.op.Match? && p.sel.Some? && p.reg.None? ==>
      (ContainsMatch(p, d, el, eng) <==> exists e: nat :: SelectedBelow(p.sel.value, d, el, e, eng))
    ensures p.op.Match? && p.sel.Some? && p.reg.Some? ==>
      (ContainsMatch(p, d, el, eng) <==>
        exists e: nat, t: nat :: SelectedBelow(p.sel.value, d, el, e, eng) && IsAncestor(d, e, t) && TextMatches(p.reg.value, d, t, eng))
  {
    if p.op.Match? && p.sel.None? {
      HasMatchingTextIff(p.reg.value, d, el, eng);
    } else if p.op.Match? && p.sel.Some? {
      var sel := p.sel.value;
      var below := Select(sel, d, el, el + 1, eng);
      if p.reg.None? {
        if exists e: nat :: SelectedBelow(sel, d, el, e, eng) {
          var e: nat :| SelectedBelow(sel, d, el, e, eng);
          AncestorBefore(d, el, e);
          assert e in below;
        }
        if below != [] {
          assert below[0] in below;
        }
      } else {
        SelectedTextIff(p.reg.value, sel, d, el, eng);
      }
    }
  }

  /** The selected elements below `el` with a matching text node below them, stated without lists. */
  lemma SelectedTextIff(re: string, sel: string, d: Doc, el: nat, eng: Engine)
    ensures AnyElementText(re, d, Select(sel, d, el, el + 1, eng), eng) <==>
      exists e: nat, t: nat :: SelectedBelow(sel, d, el, e, eng) && IsAncestor(d, e, t) && TextMatches(re, d, t, eng)
  {
    var below := Select(sel, d, el, el + 1, eng);
    if AnyElementText(re, d, below, eng) {
      var k :| 0 <= k < |below| && HasMatchingText(re, d, below[k], eng);
      var e := below[k];
      assert e in below;
      HasMatchingTextIff(re, d, e, eng);
      var t: nat :| IsAncestor(d, e, t) && TextMatches(re, d, t, eng);
      assert SelectedBelow(sel, d, el, e, eng) && IsAncestor(d, e, t) && TextMatches(re, d, t, eng);
    }
    if exists e: nat, t: nat :: SelectedBelow(sel, d, el, e, eng) && IsAncestor(d, e, t) && TextMatches(re, d, t, eng) {
      var e: nat, t: nat :| SelectedBelow(sel, d, el, e, eng) && IsAncestor(d, e, t) && TextMatches(re, d, t, eng);
      AncestorBefore(d, el, e);
      assert e in below;
      var k :| 0 <= k < |below| && below[k] == e;
      HasMatchingTextIff(re, d, e, eng);
      assert HasMatchingText(re, d, below[k], eng);
    }
  }

  /** An element that the selector matches. */
  predicate Selected(sel: string, d: Doc, e: nat, eng: Engine)
  {
    IsElement(d, e) && eng.selectorMatches(sel, d, e)
  }

  /** `html.select(s)`: the selected elements of the whole document with index at least `i`, in document order. */
  function SelectAll(sel: string, d: Doc, i: nat, eng: Engine): (r: seq<nat>)
    ensures forall e: nat :: e in r <==> i <= e && Selected(sel, d, e, eng)
    ensures forall k :: 0 <= k < |r| ==> Selected(sel, d, r[k], eng)
    decreases |d| - i
  {
    if i >= |d| then []
    else (if Selected(sel, d, i, eng) then [i] else []) + SelectAll(sel, d, i + 1, eng)
  }

  /** The first node of `ns` that is a selected element. */
  function FirstSelected(sel: string, d: Doc, ns: seq<nat>, eng: Engine): (r: Option<nat>)
    ensures r.Some? ==> exists k :: (0 <= k < |ns| && ns[k] == r.value && Selected(sel, d, r.value, eng)
      && forall j :: 0 <= j < k ==> !Selected(sel, d, ns[j], eng))
    ensures r.None? ==> forall k :: 0 <= k < |ns| ==> !Selected(sel, d, ns[k], eng)
  {
    if ns == [] then None
    else if Selected(sel, d, ns[0], eng) then Some(ns[0])
    else
      var rest := FirstSelected(sel, d, ns[1..], eng);
      if rest.Some? then
        ghost var k :| (0 <= k < |ns[1..]| && ns[1..][k] == rest.value && Selected(sel, d, rest.value, eng)
          && forall j :: 0 <= j < k ==> !Selected(sel, d, ns[1..][j], eng));
        assert ns[k + 1] == rest.value && forall j :: 0 <= j < k + 1 ==> !Selected(sel, d, ns[j], eng);
        rest
      else rest
  }

  /** `parent_css_match`: `el` itself without a selector, otherwise the nearest selected element among its strict ancestors. */
  function ParentCssMatch(p: Sed, d: Doc, el: nat, eng: Engine): Option<nat>
  {
    if p.sel.None? then Some(el) else FirstSelected(p.sel.value, d, Ancestors(d, el), eng)
  }

  /** Found: the result is a selected strict ancestor, and no selected element lies between it and `el`. */
  lemma ParentCssMatchFound(p: Sed, d: Doc, el: nat, eng: Engine)
    requires p.sel.Some? && ParentCssMatch(p, d, el, eng).Some?
    ensures var a := ParentCssMatch(p, d, el, eng).value;
      IsAncestor(d, a, el) && Selected(p.sel.value, d, a, eng)
      && forall b: nat :: IsAncestor(d, b, el) && IsAncestor(d, a, b) ==> !Selected(p.sel.value, d, b, eng)
  {
    var sel := p.sel.value;
    var anc := Ancestors(d, el);
    var a := FirstSelected(sel, d, anc, eng).value;
    var k :| (0 <= k < |anc| && anc[k] == a && Selected(sel, d, a, eng)
      && forall j :: 0 <= j < k ==> !Selected(sel, d, anc[j], eng));
    AncestorsIff(d, a, el);
    forall b: nat | IsAncestor(d, b, el) && IsAncestor(d, a, b)
      ensures !Selected(sel, d, b, eng)
    {
      NearerUnselected(sel, d, el, k, b, eng);
    }
  }

  /** An ancestor below the `k`-th one in the list `ancestors()` walks comes earlier in it. */
  lemma NearerUnselected(sel: string, d: Doc, el: nat, k: nat, b: nat, eng: Engine)
    requires k < |Ancestors(d, el)| && forall j :: 0 <= j < k ==> !Selected(sel, d, Ancestors(d, el)[j], eng)
    requires IsAncestor(d, b, el) && IsAncestor(d, Ancestors(d, el)[k], b)
    ensures !Selected(sel, d, b, eng)
  {
    var anc := Ancestors(d, el);
    AncestorsIff(d, b, el);
    AncestorBefore(d, anc[k], b);
    var kb :| 0 <= kb < |anc| && anc[kb] == b;
    assert kb < k;
  }

  /** Not found: exactly when no strict ancestor is selected; with no selector the result is `el` itself. */
  lemma ParentCssMatchNone(p: Sed, d: Doc, el: nat, eng: Engine)
    ensures p.sel.None? ==> ParentCssMatch(p, d, el, eng) == Some(el)
    ensures p.sel.Some? ==>
      (ParentCssMatch(p, d, el, eng).None? <==> forall a: nat :: IsAncestor(d, a, el) ==> !Selected(p.sel.value, d, a, eng))
  {
    if p.sel.Some? {
      var sel := p.sel.value;
      var anc := Ancestors(d, el);
      if FirstSelected(sel, d, anc, eng).None? {
        forall a: nat | IsAncestor(d, a, el)
          ensures !Selected(sel, d, a, eng)
        {
          AncestorsIff(d, a, el);
        }
      } else {
        ParentCssMatchFound(p, d, el, eng);
      }
    }
  }

  /**
   * `apply_text`: only a substitution rewrites text; it replaces every match
   * with the literal replacement, and text without a match comes back as it
   * was. A substitution always has an expression (the source treats the other
   * case as unreachable).
   */
  function ApplyText(p: Sed, s: string, eng: Engine): (r: string)
    requires p.op.Replace? ==> p.reg.Some?
  {
    if !p.op.Replace? then s
    else if !eng.regexMatches(p.reg.value, s) then s
    else eng.replaceAll(p.reg.value, p.op.rep, s)
  }

  /** What `apply_text` returns, case by case: identity unless a substitution matches. */
  lemma ApplyTextCases(p: Sed, s: string, eng: Engine)
    requires p.op.Replace? ==> p.reg.Some?
    ensures !IsSub(p) ==> ApplyText(p, s, eng) == s
    ensures IsSub(p) && !eng.regexMatches(p.reg.value, s) ==> ApplyText(p, s, eng) == s
    ensures IsSub(p) && eng.regexMatches(p.reg.value, s) ==> ApplyText(p, s, eng) == eng.replaceAll(p.reg.value, p.op.rep, s)
    ensures ApplyText(p, s, eng) != s ==> IsSub(p) && eng.regexMatches(p.reg.value, s)
  {
  }
}
