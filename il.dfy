/**
 * The older Reigokai rule set (src/il.rs): which paragraphs are page
 * furniture (`simple_exclude`), and how `parse_body` drops a translator's
 * note at the top of a chapter before handing the rest to `add_basic`.
 *
 * The strip loop works on one record per selected element holding the two
 * facts it looks at: whether the element is excluded and whether it is a
 * horizontal rule.
 */
module Il {
  import opened Wrappers
  import Dom
  import Strings
  import SedEval
  import Common
  import CB = ChapterBuilder

  const BASIC_EXCLUDE_SEL: string := ".sharedaddy,p a,script"
  const P_SEL: string := "body *.entry-content p,hr"
  const NO_PARAGRAPHS: string := "no paragraphs"

  /** Some class name of the element contains `s`; a space-separated `class` attribute contains a space-free `s` exactly then. */
  predicate ClassHas(cs: seq<string>, s: string)
  {
    exists k :: 0 <= k < |cs| && Strings.Contains(cs[k], s)
  }

  /** Some text node below `e` contains `p` (`e.text().any(|t| t.contains(p))`). */
  predicate TextContains(d: Dom.Doc, e: nat, p: string)
  {
    var ts := Dom.TextsUnder(d, e, e + 1);
    exists k :: 0 <= k < |ts| && ts[k] < |d| && d[ts[k]].kind.Text? && Strings.Contains(d[ts[k]].kind.text, p)
  }

  /** A text below `e` names a neighbouring chapter. */
  predicate ChapterLink(d: Dom.Doc, e: nat)
  {
    TextContains(d, e, "Next Chapter") || TextContains(d, e, "Previous Chapter")
  }

  /** What makes a matched descendant exclude its paragraph: a script, a sharing widget, or a chapter link. */
  predicate BasicExcluded(d: Dom.Doc, e: nat)
    requires Dom.IsElement(d, e)
  {
    d[e].kind.name == "script" || ClassHas(d[e].kind.classes, "sharedaddy") || ChapterLink(d, e)
  }

  /** `simple_exclude`: some descendant matched by the exclusion selector is one of the above. */
  predicate SimpleExcluded(d: Dom.Doc, el: nat, eng: Dom.Engine)
  {
    var es := SedEval.Select(BASIC_EXCLUDE_SEL, d, el, el + 1, eng);
    exists k :: 0 <= k < |es| && Dom.IsElement(d, es[k]) && BasicExcluded(d, es[k])
  }

  /** The exclusion, stated without the selection list: some selected strict descendant is a script, a widget or a link. */
  lemma SimpleExcludedIff(d: Dom.Doc, el: nat, eng: Dom.Engine)
    ensures SimpleExcluded(d, el, eng) <==>
      exists e: nat :: SedEval.SelectedBelow(BASIC_EXCLUDE_SEL, d, el, e, eng) && BasicExcluded(d, e)
  {
    var es := SedEval.Select(BASIC_EXCLUDE_SEL, d, el, el + 1, eng);
    if SimpleExcluded(d, el, eng) {
      var k :| 0 <= k < |es| && Dom.IsElement(d, es[k]) && BasicExcluded(d, es[k]);
      assert es[k] in es;
    }
    if e: nat :| SedEval.SelectedBelow(BASIC_EXCLUDE_SEL, d, el, e, eng) && BasicExcluded(d, e) {
      Dom.AncestorBefore(d, el, e);
      assert e in es;
      var k :| 0 <= k < |es| && es[k] == e;
    }
  }

  /** `simple_exclude`: a loop over the matched descendants that returns at the first reason to exclude. */
  method SimpleExclude(d: Dom.Doc, el: nat, eng: Dom.Engine) returns (r: bool)
    ensures r == SimpleExcluded(d, el, eng)
  {
    var es := SedEval.Select(BASIC_EXCLUDE_SEL, d, el, el + 1, eng);
    for i := 0 to |es|
      invariant forall k :: 0 <= k < i ==> !(Dom.IsElement(d, es[k]) && BasicExcluded(d, es[k]))
    {
      var e := es[i];
      assert e in es;
      if d[e].kind.name == "script" {
        return true;
      }
      if ClassHas(d[e].kind.classes, "sharedaddy") {
        return true;
      }
      if ChapterLink(d, e) {
        return true;
      }
    }
    return false;
  }

  /** What the strip loop knows about one selected element. */
  datatype Para = Para(excluded: bool, hr: bool)

  /** The loop stops at an element that is not excluded and is a rule. */
  predicate Stops(p: Para)
  {
    !p.excluded && p.hr
  }

  /** `r` elements are consumed: up to and including the first stopping element, or all of them when none stops. */
  predicate IsCut(ps: seq<Para>, r: nat)
  {
    if exists k :: 0 <= k < |ps| && Stops(ps[k]) then
      0 < r <= |ps| && Stops(ps[r - 1]) && forall k :: 0 <= k < r - 1 ==> !Stops(ps[k])
    else r == |ps|
  }

  /** The number of elements the strip loop consumes. */
  function Cut(ps: seq<Para>): (r: nat)
    ensures IsCut(ps, r)
  {
    if ps == [] then 0
    else if Stops(ps[0]) then 1
    else
      var rest := ps[1..];
      assert forall k :: 0 <= k < |rest| ==> rest[k] == ps[k + 1];
      1 + Cut(rest)
  }

  /** At most one count fits the description: a smaller one would put a stop before the first. */
  lemma CutUnique(ps: seq<Para>, r: nat)
    requires IsCut(ps, r)
    ensures r == Cut(ps)
  {
    var c := Cut(ps);
    if r < c {
      assert false;
    }
  }

  /** The `while let` strip loop: it skips excluded elements and stops after the first rule; the source's `removed` counter only feeds a log line. */
  method StripPrefix(ps: seq<Para>) returns (consumed: nat)
    ensures consumed == Cut(ps)
  {
    var i := 0;
    while i < |ps|
      invariant i <= |ps|
      invariant forall k :: 0 <= k < i ==> !Stops(ps[k])
    {
      var p := ps[i];
      i := i + 1;
      if p.excluded {
        continue;
      }
      if p.hr {
        CutUnique(ps, i);
        return i;
      }
    }
    CutUnique(ps, i);
    return i;
  }

  /** Every index of `es` is an element of `d`. */
  predicate Elements(d: Dom.Doc, es: seq<nat>)
  {
    forall k :: 0 <= k < |es| ==> Dom.IsElement(d, es[k])
  }

  /** The records of the selected elements. */
  function Facts(d: Dom.Doc, eng: Dom.Engine, es: seq<nat>): (r: seq<Para>)
    requires Elements(d, es)
    ensures |r| == |es|
    ensures forall k :: 0 <= k < |es| ==> r[k] == Para(SimpleExcluded(d, es[k], eng), Common.IsHr(d, es[k]))
  {
    seq(|es|, k requires 0 <= k < |es| => Para(SimpleExcluded(d, es[k], eng), Common.IsHr(d, es[k])))
  }

  /** The elements of `es` that are not excluded, in order. */
  function Kept(d: Dom.Doc, eng: Dom.Engine, es: seq<nat>): (r: seq<nat>)
    ensures |r| <= |es|
    ensures Elements(d, es) ==> Elements(d, r)
  {
    if es == [] then []
    else Kept(d, eng, es[..|es| - 1]) + (if SimpleExcluded(d, es[|es| - 1], eng) then [] else [es[|es| - 1]])
  }

  /** Filtering drops exactly the excluded elements. */
  lemma {:induction false} KeptMembers(d: Dom.Doc, eng: Dom.Engine, es: seq<nat>)
    ensures forall e :: e in Kept(d, eng, es) <==> e in es && !SimpleExcluded(d, e, eng)
  {
    if es != [] {
      KeptMembers(d, eng, es[..|es| - 1]);
      assert es == es[..|es| - 1] + [es[|es| - 1]];
    }
  }

  /** Taking one more element of `es` into account. */
  lemma KeptSnoc(d: Dom.Doc, eng: Dom.Engine, es: seq<nat>, i: nat)
    requires i < |es|
    ensures Kept(d, eng, es[..i + 1]) == Kept(d, eng, es[..i]) + (if SimpleExcluded(d, es[i], eng) then [] else [es[i]])
  {
    assert es[..i + 1][..i] == es[..i];
  }

  /** Stripping is attempted when the first selected element mentions a translator's note. */
  predicate StartsWithNote(d: Dom.Doc, es: seq<nat>)
  {
    es != [] && TextContains(d, es[0], "TLN")
  }

  /** The elements `parse_body` hands to `add_basic`. */
  function Emitted(d: Dom.Doc, eng: Dom.Engine, es: seq<nat>): (r: seq<nat>)
    requires Elements(d, es)
    ensures Elements(d, r)
  {
    var start := if StartsWithNote(d, es) then Cut(Facts(d, eng, es)) else 0;
    Kept(d, eng, es[start..])
  }

  /** `add_basic` on each element in turn. */
  function AddBasicAll(st: CB.BuilderState, d: Dom.Doc, es: seq<nat>): CB.BuilderState
    requires Dom.ParentsBefore(d) && Elements(d, es)
  {
    if es == [] then st
    else Common.DescendNode(AddBasicAll(st, d, es[..|es| - 1]), d, es[|es| - 1])
  }

  /** Emitting one more element. */
  lemma AddBasicAllSnoc(st: CB.BuilderState, d: Dom.Doc, es: seq<nat>, e: nat)
    requires Dom.ParentsBefore(d) && Elements(d, es) && Dom.IsElement(d, e)
    ensures Elements(d, es + [e])
    ensures AddBasicAll(st, d, es + [e]) == Common.DescendNode(AddBasicAll(st, d, es), d, e)
  {
    assert (es + [e])[..|es|] == es;
  }

  /** The emission `for` loop: the excluded elements are skipped, the others go to `add_basic`. */
  method EmitKept(ch: CB.ChapterBuilder, d: Dom.Doc, eng: Dom.Engine, es: seq<nat>)
    requires Dom.ParentsBefore(d) && Elements(d, es)
    modifies ch
    ensures ch.State() == AddBasicAll(old(ch.State()), d, Kept(d, eng, es))
  {
    ghost var st0 := ch.State();
    for i := 0 to |es|
      invariant ch.State() == AddBasicAll(st0, d, Kept(d, eng, es[..i]))
    {
      KeptSnoc(d, eng, es, i);
      ghost var before := Kept(d, eng, es[..i]);
      var excluded := SimpleExclude(d, es[i], eng);
      if !excluded {
        assert Elements(d, before);
        Common.AddBasic(ch, d, es[i]);
        AddBasicAllSnoc(st0, d, before, es[i]);
        assert Kept(d, eng, es[..i + 1]) == before + [es[i]];
        assert ch.State() == AddBasicAll(st0, d, before + [es[i]]);
      } else {
        assert Kept(d, eng, es[..i + 1]) == before;
      }
    }
    assert es[..|es|] == es;
  }

  /** `parse_body`: no selected element is an error; otherwise the note is stripped and the rest is emitted. */
  method ParseBody(ch: CB.ChapterBuilder, d: Dom.Doc, eng: Dom.Engine) returns (r: Result<(), string>)
    requires Dom.ParentsBefore(d)
    modifies ch
    ensures var es := SedEval.SelectAll(P_SEL, d, 0, eng);
      (es == [] ==> r == Err(NO_PARAGRAPHS) && ch.State() == old(ch.State())) &&
      (es != [] ==> r == Ok(()) && ch.State() == AddBasicAll(old(ch.State()), d, Emitted(d, eng, es)))
  {
    var es := SedEval.SelectAll(P_SEL, d, 0, eng);
    if es == [] {
      return Err(NO_PARAGRAPHS);
    }
    var start := 0;
    if TextContains(d, es[0], "TLN") {
      start := StripPrefix(Facts(d, eng, es));
    }
    EmitKept(ch, d, eng, es[start..]);
    return Ok(());
  }

  /** Without a note nothing is stripped: every element that is not excluded is emitted. */
  lemma NoNoteKeepsAll(d: Dom.Doc, eng: Dom.Engine, es: seq<nat>)
    requires Elements(d, es)
    requires !StartsWithNote(d, es)
    ensures Emitted(d, eng, es) == Kept(d, eng, es)
  {
    assert es[0..] == es;
  }

  /** With a note, the first element that is a rule and not excluded ends the stripped prefix. */
  lemma NoteEndsAtRule(d: Dom.Doc, eng: Dom.Engine, es: seq<nat>, j: nat)
    requires Elements(d, es)
    requires StartsWithNote(d, es) && j < |es|
    requires !SimpleExcluded(d, es[j], eng) && Common.IsHr(d, es[j])
    requires forall k :: 0 <= k < j ==> SimpleExcluded(d, es[k], eng) || !Common.IsHr(d, es[k])
    ensures Emitted(d, eng, es) == Kept(d, eng, es[j + 1..])
  {
    var ps := Facts(d, eng, es);
    assert Stops(ps[j]);
    assert IsCut(ps, j + 1);
    CutUnique(ps, j + 1);
  }

  /** With a note and no rule to end it, everything is stripped (there is no reset in this version). */
  lemma NoteWithoutRuleEmitsNothing(d: Dom.Doc, eng: Dom.Engine, es: seq<nat>)
    requires Elements(d, es)
    requires StartsWithNote(d, es)
    requires forall k :: 0 <= k < |es| ==> SimpleExcluded(d, es[k], eng) || !Common.IsHr(d, es[k])
    ensures Emitted(d, eng, es) == []
  {
    var ps := Facts(d, eng, es);
    assert IsCut(ps, |es|);
    CutUnique(ps, |es|);
  }

  /** Emitting one element at a time keeps the builder's invariant. */
  lemma {:induction false} AddBasicAllInv(st: CB.BuilderState, d: Dom.Doc, es: seq<nat>)
    requires Dom.ParentsBefore(d) && Elements(d, es)
    requires CB.Inv(st)
    ensures CB.Inv(AddBasicAll(st, d, es))
  {
    if es != [] {
      AddBasicAllInv(st, d, es[..|es| - 1]);
      Common.DescendInv(AddBasicAll(st, d, es[..|es| - 1]), d, es[|es| - 1]);
    }
  }
}
