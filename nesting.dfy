/**
 * Whether the tags a paragraph's transitions produce nest properly.
 *
 * `span_style_actualize` (generate/src/chapter.rs:445-458) closes the
 * removed flags and opens the added ones as sets, without regard to the
 * order in which the tags were opened. Written out as XHTML this can close
 * an element while one opened after it is still open. This module reads the
 * tags as a stack machine, shows a paragraph the builder produces that the
 * machine rejects, and gives a corrected transition that closes down to the
 * first unwanted element and reopens what is still wanted, proved to nest
 * for every sequence of styled runs.
 */
module Nesting {
  import opened Wrappers
  import opened Style
  import opened Chapter
  import opened ChapterBuilder

  datatype TagEvent = OpenTag(el: SpanStyleEl) | CloseTag(el: SpanStyleEl)

  function OpenEvents(els: seq<SpanStyleEl>): seq<TagEvent>
  {
    if els == [] then [] else [OpenTag(els[0])] + OpenEvents(els[1..])
  }

  /** Closing is in reverse, like `Closes`. */
  function CloseEvents(els: seq<SpanStyleEl>): seq<TagEvent>
  {
    if els == [] then [] else CloseEvents(els[1..]) + [CloseTag(els[0])]
  }

  /** The tags one inline element writes. */
  function Events(e: InlineElement): seq<TagEvent>
  {
    match e
    case EnableStyles(s) => OpenEvents(ElIter(s))
    case DisableStyles(s) => CloseEvents(ElIter(s))
    case _ => []
  }

  function EventsOf(elms: seq<InlineElement>): seq<TagEvent>
  {
    if elms == [] then [] else Events(elms[0]) + EventsOf(elms[1..])
  }

  lemma {:induction false} EventsOfAppend(a: seq<InlineElement>, b: seq<InlineElement>)
    ensures EventsOf(a + b) == EventsOf(a) + EventsOf(b)
  {
    if a == [] {
      assert a + b == b;
    } else {
      assert (a + b)[0] == a[0];
      assert (a + b)[1..] == a[1..] + b;
      EventsOfAppend(a[1..], b);
      AppendAssoc(Events(a[0]), EventsOf(a[1..]), EventsOf(b));
    }
  }

  lemma AppendAssoc<T>(x: seq<T>, y: seq<T>, z: seq<T>)
    ensures x + (y + z) == (x + y) + z
  {
  }

  function TagXml(ev: TagEvent): string
  {
    match ev
    case OpenTag(el) => Open(el)
    case CloseTag(el) => Close(el)
  }

  function TagsXml(evs: seq<TagEvent>): string
  {
    if evs == [] then "" else TagXml(evs[0]) + TagsXml(evs[1..])
  }

  lemma {:induction false} TagsXmlAppend(a: seq<TagEvent>, b: seq<TagEvent>)
    ensures TagsXml(a + b) == TagsXml(a) + TagsXml(b)
  {
    if a == [] {
      assert a + b == b;
    } else {
      assert (a + b)[0] == a[0];
      assert (a + b)[1..] == a[1..] + b;
      TagsXmlAppend(a[1..], b);
    }
  }

  lemma {:induction false} OpensXml(els: seq<SpanStyleEl>)
    ensures TagsXml(OpenEvents(els)) == Opens(els)
  {
    if els != [] {
      TagsXmlAppend([OpenTag(els[0])], OpenEvents(els[1..]));
      OpensXml(els[1..]);
    }
  }

  lemma {:induction false} ClosesXml(els: seq<SpanStyleEl>)
    ensures TagsXml(CloseEvents(els)) == Closes(els)
  {
    if els != [] {
      TagsXmlAppend(CloseEvents(els[1..]), [CloseTag(els[0])]);
      ClosesXml(els[1..]);
    }
  }

  /** The events are exactly the tags the XHTML form writes for a transition. */
  lemma EventsXml(e: InlineElement)
    requires e.EnableStyles? || e.DisableStyles?
    requires !EmptyTransition(e)
    ensures TagsXml(Events(e)) == InlineXml(e)
  {
    OpensXml(ElIter(e.style));
    ClosesXml(ElIter(e.style));
  }

  /** Reads tags with a stack of open elements; a close tag must match the innermost one. */
  function Run(stack: seq<SpanStyleEl>, evs: seq<TagEvent>): Option<seq<SpanStyleEl>>
    decreases |evs|
  {
    if evs == [] then Some(stack)
    else match evs[0]
      case OpenTag(el) => Run(stack + [el], evs[1..])
      case CloseTag(el) =>
        if stack != [] && stack[|stack| - 1] == el then Run(stack[..|stack| - 1], evs[1..]) else None
  }

  lemma {:induction false} RunAppend(stack: seq<SpanStyleEl>, a: seq<TagEvent>, b: seq<TagEvent>)
    ensures Run(stack, a + b) == if Run(stack, a).Some? then Run(Run(stack, a).value, b) else None
    decreases |a|
  {
    if a == [] {
      assert a + b == b;
    } else {
      assert (a + b)[0] == a[0];
      assert (a + b)[1..] == a[1..] + b;
      match a[0]
      case OpenTag(el) => RunAppend(stack + [el], a[1..], b);
      case CloseTag(el) =>
        if stack != [] && stack[|stack| - 1] == el {
          RunAppend(stack[..|stack| - 1], a[1..], b);
        }
    }
  }

  /** A paragraph whose tags open and close in matching order, leaving nothing open. */
  predicate WellNested(elms: seq<InlineElement>)
  {
    Run([], EventsOf(elms)) == Some([])
  }

  /** The paragraph of bold-italic `x` followed by italic `y`, as the builder writes it. */
  function Misnested(x: string, y: string): seq<InlineElement>
  {
    [EnableStyles(BOLD_ITALIC), Text(x), DisableStyles(BOLD), Text(y), DisableStyles(ITALIC)]
  }

  lemma MisnestedTransitions()
    ensures Transitions(NoStyle(), BOLD_ITALIC) == [EnableStyles(BOLD_ITALIC)]
    ensures Transitions(BOLD_ITALIC, ITALIC) == [DisableStyles(BOLD)]
    ensures Transitions(ITALIC, NoStyle()) == [DisableStyles(ITALIC)]
  {
  }

  /**
   * The builder produces that paragraph: moving from bold-italic to italic
   * disables bold alone.
   */
  lemma MisnestedBuild(x: string, y: string)
    ensures ParagraphFinishStep(AddTextStyledStep(AddTextStyledStep(Initial(0), x, BOLD_ITALIC), y, ITALIC)).completeP ==
      [Paragraph(DEFAULT_PARAGRAPH_STYLE, Misnested(x, y))]
  {
    MisnestedTransitions();
    StyledStep(Initial(0), x, BOLD_ITALIC, [EnableStyles(BOLD_ITALIC)]);
    var s1 := AddTextStyledStep(Initial(0), x, BOLD_ITALIC);
    StyledStep(s1, y, ITALIC, [DisableStyles(BOLD)]);
    var s2 := AddTextStyledStep(s1, y, ITALIC);
    assert s2.currentP + [DisableStyles(ITALIC)] == Misnested(x, y);
    FinishParagraphStep(s2, [DisableStyles(ITALIC)]);
  }

  lemma BoldItalicEvents()
    ensures Events(EnableStyles(BOLD_ITALIC)) == [OpenTag(Bold), OpenTag(Italic)]
    ensures Events(DisableStyles(BOLD)) == [CloseTag(Bold)]
  {
    ElIterBoldItalic();
    assert BOLD_ITALIC == BoldItalic();
    ElIterSingle(Bold);
    assert BOLD == FromEl(Bold);
    assert OpenEvents([Bold, Italic]) == [OpenTag(Bold), OpenTag(Italic)];
    assert CloseEvents([Bold]) == [CloseTag(Bold)];
  }

  lemma EventsOfCons(e: InlineElement, rest: seq<InlineElement>)
    ensures EventsOf([e] + rest) == Events(e) + EventsOf(rest)
  {
    assert ([e] + rest)[1..] == rest;
  }

  /** A close tag for an element that is not innermost is rejected, whatever follows. */
  lemma CrossedClose(stack: seq<SpanStyleEl>, a: SpanStyleEl, b: SpanStyleEl, rest: seq<TagEvent>)
    requires a != b
    ensures Run(stack, [OpenTag(a), OpenTag(b), CloseTag(a)] + rest) == None
  {
    assert [OpenTag(a), OpenTag(b), CloseTag(a)] + rest == [OpenTag(a)] + ([OpenTag(b)] + ([CloseTag(a)] + rest));
    RunOpen(stack, a, [OpenTag(b)] + ([CloseTag(a)] + rest));
    RunOpen(stack + [a], b, [CloseTag(a)] + rest);
    var s := stack + [a] + [b];
    assert s[|s| - 1] == b;
    assert ([CloseTag(a)] + rest)[0] == CloseTag(a);
  }

  lemma Concat3<T>(p: seq<T>, q: seq<T>, r: seq<T>, t: seq<T>, a: T, b: T, c: T)
    requires p == [a, b] && q == [] && r == [c]
    ensures p + (q + (r + t)) == [a, b, c] + t
  {
  }

  lemma EventsOf3(a: InlineElement, b: InlineElement, c: InlineElement, rest: seq<InlineElement>)
    ensures EventsOf([a] + ([b] + ([c] + rest))) == Events(a) + (Events(b) + (Events(c) + EventsOf(rest)))
  {
    EventsOfCons(a, [b] + ([c] + rest));
    EventsOfCons(b, [c] + rest);
    EventsOfCons(c, rest);
  }

  lemma CrossedEvents(e1: InlineElement, e2: InlineElement, e3: InlineElement, rest: seq<InlineElement>, a: SpanStyleEl, b: SpanStyleEl)
    requires Events(e1) == [OpenTag(a), OpenTag(b)] && Events(e2) == [] && Events(e3) == [CloseTag(a)]
    ensures EventsOf([e1] + ([e2] + ([e3] + rest))) == [OpenTag(a), OpenTag(b), CloseTag(a)] + EventsOf(rest)
  {
    EventsOf3(e1, e2, e3, rest);
    Concat3(Events(e1), Events(e2), Events(e3), EventsOf(rest), OpenTag(a), OpenTag(b), CloseTag(a));
  }

  /**
   * A paragraph that opens `a` then `b`, writes no tag, and then closes `a`
   * is rejected, whatever follows.
   */
  lemma CrossedParagraph(e1: InlineElement, e2: InlineElement, e3: InlineElement, rest: seq<InlineElement>, a: SpanStyleEl, b: SpanStyleEl)
    requires a != b
    requires Events(e1) == [OpenTag(a), OpenTag(b)] && Events(e2) == [] && Events(e3) == [CloseTag(a)]
    ensures !WellNested([e1] + ([e2] + ([e3] + rest)))
  {
    CrossedEvents(e1, e2, e3, rest, a, b);
    CrossedClose([], a, b, EventsOf(rest));
  }

  /**
   * The as-written transitions mis-nest: the XHTML of that paragraph is
   * `<b><i>x</b>y</i>`, which the stack machine rejects.
   */
  lemma MisnestedAsWritten(x: string, y: string)
    ensures !WellNested(Misnested(x, y))
  {
    var rest := [Text(y), DisableStyles(ITALIC)];
    var e1, e2, e3 := EnableStyles(BOLD_ITALIC), Text(x), DisableStyles(BOLD);
    assert Misnested(x, y) == [e1] + ([e2] + ([e3] + rest));
    assert Events(e1) == [OpenTag(Bold), OpenTag(Italic)] && Events(e2) == [] && Events(e3) == [CloseTag(Bold)] by {
      BoldItalicEvents();
    }
    CrossedParagraph(e1, e2, e3, rest, Bold, Italic);
  }

  /** The elements a corrected transition may push: the ones a chapter's text can carry. */
  predicate Tag3(el: SpanStyleEl)
  {
    el == Bold || el == Italic || el == Footnote
  }

  function FromEl3(el: SpanStyleEl): (r: SpanStyle3)
    requires Tag3(el)
    ensures forall e :: Has(r, e) <==> e == el
  {
    FromEl(el)
  }

  predicate Stack3(stack: seq<SpanStyleEl>)
  {
    forall i :: 0 <= i < |stack| ==> Tag3(stack[i])
  }

  /** The first position of the stack whose element is not wanted, or its length. */
  function FirstUnwanted(stack: seq<SpanStyleEl>, desired: SpanStyle): (k: nat)
    ensures k <= |stack|
    ensures forall i :: 0 <= i < k ==> Has(desired, stack[i])
    ensures k < |stack| ==> !Has(desired, stack[k])
  {
    if stack == [] || !Has(desired, stack[0]) then 0 else 1 + FirstUnwanted(stack[1..], desired)
  }

  /** One `DisableStyles` per element, innermost first. */
  function Closing(els: seq<SpanStyleEl>): (r: seq<InlineElement>)
    requires Stack3(els)
    ensures NoEmptyTransition(r)
  {
    if els == [] then []
    else
      [DisableStyles(FromEl3(els[|els| - 1]))] + Closing(els[..|els| - 1])
  }

  /** One `EnableStyles` per element, in order. */
  function Opening(els: seq<SpanStyleEl>): (r: seq<InlineElement>)
    requires Stack3(els)
    ensures NoEmptyTransition(r)
  {
    if els == [] then [] else [EnableStyles(FromEl3(els[0]))] + Opening(els[1..])
  }

  lemma EventsOfOne(e: InlineElement)
    ensures EventsOf([e]) == Events(e)
  {
    assert [e][1..] == [];
  }

  lemma OneElEvents(el: SpanStyleEl)
    ensures OpenEvents([el]) == [OpenTag(el)] && CloseEvents([el]) == [CloseTag(el)]
  {
    assert [el][1..] == [];
  }

  /** A single-flag transition writes one tag. */
  lemma SingleEvents(el: SpanStyleEl)
    requires Tag3(el)
    ensures EventsOf([DisableStyles(FromEl3(el))]) == [CloseTag(el)]
    ensures EventsOf([EnableStyles(FromEl3(el))]) == [OpenTag(el)]
  {
    ElIterSingle(el);
    OneElEvents(el);
    EventsOfOne(DisableStyles(FromEl3(el)));
    EventsOfOne(EnableStyles(FromEl3(el)));
  }

  lemma RunClose(s: seq<SpanStyleEl>, el: SpanStyleEl, rest: seq<TagEvent>)
    ensures Run(s + [el], [CloseTag(el)] + rest) == Run(s, rest)
  {
    assert ([CloseTag(el)] + rest)[1..] == rest;
    assert (s + [el])[..|s + [el]| - 1] == s;
  }

  lemma RunOpen(s: seq<SpanStyleEl>, el: SpanStyleEl, rest: seq<TagEvent>)
    ensures Run(s, [OpenTag(el)] + rest) == Run(s + [el], rest)
  {
    assert ([OpenTag(el)] + rest)[1..] == rest;
  }

  lemma SplitAt<T>(s: seq<T>, k: nat)
    requires k <= |s|
    ensures s[..k] + s[k..] == s
  {
  }

  lemma SplitLast(base: seq<SpanStyleEl>, els: seq<SpanStyleEl>)
    requires els != []
    ensures base + els == (base + els[..|els| - 1]) + [els[|els| - 1]]
  {
  }

  lemma SplitFirst(base: seq<SpanStyleEl>, els: seq<SpanStyleEl>)
    requires els != []
    ensures base + [els[0]] + els[1..] == base + els
  {
  }

  lemma Stack3Slice(els: seq<SpanStyleEl>, i: nat, j: nat)
    requires Stack3(els) && i <= j <= |els|
    ensures Stack3(els[i..j])
  {
    forall k | 0 <= k < j - i ensures Tag3(els[i..j][k]) {
      assert els[i..j][k] == els[i + k];
    }
  }

  lemma {:induction false} ClosingRun(base: seq<SpanStyleEl>, els: seq<SpanStyleEl>)
    requires Stack3(els)
    ensures Run(base + els, EventsOf(Closing(els))) == Some(base)
    decreases |els|
  {
    if els == [] {
      assert base + els == base;
    } else {
      var last := els[|els| - 1];
      var init := els[..|els| - 1];
      var e := DisableStyles(FromEl3(last));
      var rest := EventsOf(Closing(init));
      assert Closing(els) == [e] + Closing(init);
      SingleEvents(last);
      EventsOfAppend([e], Closing(init));
      assert EventsOf(Closing(els)) == [CloseTag(last)] + rest;
      SplitLast(base, els);
      RunClose(base + init, last, rest);
      ClosingRun(base, init);
    }
  }

  lemma {:induction false} OpeningRun(base: seq<SpanStyleEl>, els: seq<SpanStyleEl>)
    requires Stack3(els)
    ensures Run(base, EventsOf(Opening(els))) == Some(base + els)
    decreases |els|
  {
    if els == [] {
      assert base + els == base;
    } else {
      var e := EnableStyles(FromEl3(els[0]));
      var tail := els[1..];
      assert tail == els[1..|els|];
      Stack3Slice(els, 1, |els|);
      var rest := EventsOf(Opening(tail));
      assert Opening(els) == [e] + Opening(tail);
      SingleEvents(els[0]);
      EventsOfAppend([e], Opening(tail));
      assert EventsOf(Opening(els)) == [OpenTag(els[0])] + rest;
      RunOpen(base, els[0], rest);
      OpeningRun(base + [els[0]], tail);
      SplitFirst(base, els);
    }
  }

  /** What is reopened: wanted elements not kept at the bottom of the stack, in `el_iter` order. */
  function Reopen(stack: seq<SpanStyleEl>, desired: SpanStyle3): (r: seq<SpanStyleEl>)
    ensures Stack3(r)
  {
    var r := ElIter(RemovalsNeeded(desired, FromIter(stack[..FirstUnwanted(stack, desired)])));
    assert Stack3(r) by {
      forall i | 0 <= i < |r| ensures Tag3(r[i]) {
        assert r[i] in r;
      }
    }
    r
  }

  lemma ReopenMembers(stack: seq<SpanStyleEl>, desired: SpanStyle3)
    ensures forall el :: el in Reopen(stack, desired) <==>
      Has(desired, el) && el !in stack[..FirstUnwanted(stack, desired)]
  {
  }

  /** The stack after the corrected transition. */
  function NestedStack(stack: seq<SpanStyleEl>, desired: SpanStyle3): seq<SpanStyleEl>
  {
    stack[..FirstUnwanted(stack, desired)] + Reopen(stack, desired)
  }

  /** The corrected `span_style_actualize`: close down to the first unwanted element, then reopen. */
  function NestedTransitions(stack: seq<SpanStyleEl>, desired: SpanStyle3): (r: seq<InlineElement>)
    requires Stack3(stack)
    ensures NoEmptyTransition(r)
  {
    var k := FirstUnwanted(stack, desired);
    assert Stack3(stack[k..]) by {
      forall i | 0 <= i < |stack[k..]| ensures Tag3(stack[k..][i]) {
        assert stack[k..][i] == stack[k + i];
      }
    }
    Closing(stack[k..]) + Opening(Reopen(stack, desired))
  }

  lemma NestedStackMembers(stack: seq<SpanStyleEl>, desired: SpanStyle3)
    ensures forall el :: el in NestedStack(stack, desired) <==> Has(desired, el)
  {
    var k := FirstUnwanted(stack, desired);
    var low := stack[..k];
    var re := Reopen(stack, desired);
    ReopenMembers(stack, desired);
    forall el ensures el in low + re <==> Has(desired, el) {
      if el in low {
        var i :| 0 <= i < k && low[i] == el;
        assert Has(desired, stack[i]);
      }
    }
  }

  lemma Stack3Concat(a: seq<SpanStyleEl>, b: seq<SpanStyleEl>)
    requires Stack3(a) && Stack3(b)
    ensures Stack3(a + b)
  {
    forall i | 0 <= i < |a + b| ensures Tag3((a + b)[i]) {
      if i < |a| {
        assert (a + b)[i] == a[i];
      } else {
        assert (a + b)[i] == b[i - |a|];
      }
    }
  }

  lemma NestedStack3(stack: seq<SpanStyleEl>, desired: SpanStyle3)
    requires Stack3(stack)
    ensures Stack3(NestedStack(stack, desired))
  {
    var k := FirstUnwanted(stack, desired);
    Stack3Slice(stack, 0, k);
    assert stack[0..k] == stack[..k];
    Stack3Concat(stack[..k], Reopen(stack, desired));
  }

  lemma NestedTransitionsEvents(stack: seq<SpanStyleEl>, desired: SpanStyle3)
    requires Stack3(stack)
    ensures Run(stack, EventsOf(NestedTransitions(stack, desired))) == Some(NestedStack(stack, desired))
  {
    var k := FirstUnwanted(stack, desired);
    var low := stack[..k];
    var top := stack[k..];
    assert top == stack[k..|stack|];
    Stack3Slice(stack, k, |stack|);
    var re := Reopen(stack, desired);
    var c := EventsOf(Closing(top));
    var o := EventsOf(Opening(re));
    assert EventsOf(NestedTransitions(stack, desired)) == c + o by {
      assert NestedTransitions(stack, desired) == Closing(top) + Opening(re);
      EventsOfAppend(Closing(top), Opening(re));
    }
    assert Run(stack, c) == Some(low) by {
      SplitAt(stack, k);
      ClosingRun(low, top);
    }
    assert Run(low, o) == Some(low + re) by {
      OpeningRun(low, re);
    }
    RunAppend(stack, c, o);
  }

  /**
   * The corrected transition's tags match the stack, and afterwards exactly
   * the wanted elements are open.
   */
  lemma NestedTransitionsRun(stack: seq<SpanStyleEl>, desired: SpanStyle3)
    requires Stack3(stack)
    ensures Run(stack, EventsOf(NestedTransitions(stack, desired))) == Some(NestedStack(stack, desired))
    ensures Stack3(NestedStack(stack, desired))
    ensures forall el :: el in NestedStack(stack, desired) <==> Has(desired, el)
  {
    NestedTransitionsEvents(stack, desired);
    NestedStackMembers(stack, desired);
    NestedStack3(stack, desired);
  }

  /**
   * A paragraph of runs of text, each with its desired style, written with
   * the corrected transitions and closed at the end.
   */
  function NestedRender(stack: seq<SpanStyleEl>, runs: seq<(string, SpanStyle3)>): seq<InlineElement>
    requires Stack3(stack)
    decreases |runs|
  {
    if runs == [] then NestedTransitions(stack, NoStyle())
    else
      NestedStack3(stack, runs[0].1);
      NestedTransitions(stack, runs[0].1) + [Text(runs[0].0)] + NestedRender(NestedStack(stack, runs[0].1), runs[1..])
  }

  /** The same runs written with the transitions of `span_style_actualize` as written. */
  function AsWrittenRender(actual: SpanStyle3, runs: seq<(string, SpanStyle3)>): seq<InlineElement>
    decreases |runs|
  {
    if runs == [] then Transitions(actual, NoStyle())
    else Transitions(actual, runs[0].1) + [Text(runs[0].0)] + AsWrittenRender(runs[0].1, runs[1..])
  }

  /** Closing everything leaves nothing open: the corrected rendering of no runs brings any stack of open tags back to empty. */
  lemma NestedRenderEmpty(stack: seq<SpanStyleEl>)
    requires Stack3(stack)
    ensures Run(stack, EventsOf(NestedRender(stack, []))) == Some([])
  {
    NestedTransitionsEvents(stack, NoStyle());
  }

  /** Text writes no tags. */
  lemma EventsOfText(a: seq<InlineElement>, t: string)
    ensures EventsOf(a + [Text(t)]) == EventsOf(a)
  {
    EventsOfAppend(a, [Text(t)]);
    assert [Text(t)][1..] == [];
  }

  /** So a run's tags are its transition's followed by the rest's. */
  lemma NestedRenderEvents(stack: seq<SpanStyleEl>, runs: seq<(string, SpanStyle3)>)
    requires Stack3(stack) && runs != []
    ensures Stack3(NestedStack(stack, runs[0].1))
    ensures EventsOf(NestedRender(stack, runs)) ==
      EventsOf(NestedTransitions(stack, runs[0].1)) + EventsOf(NestedRender(NestedStack(stack, runs[0].1), runs[1..]))
  {
    var d := runs[0].1;
    NestedStack3(stack, d);
    var head := NestedTransitions(stack, d) + [Text(runs[0].0)];
    var rest := NestedRender(NestedStack(stack, d), runs[1..]);
    assert NestedRender(stack, runs) == head + rest;
    EventsOfAppend(head, rest);
    EventsOfText(NestedTransitions(stack, d), runs[0].0);
  }

  lemma {:induction false} NestedRenderRun(stack: seq<SpanStyleEl>, runs: seq<(string, SpanStyle3)>)
    requires Stack3(stack)
    ensures Run(stack, EventsOf(NestedRender(stack, runs))) == Some([])
    decreases |runs|
  {
    if runs == [] {
      NestedRenderEmpty(stack);
    } else {
      var d := runs[0].1;
      NestedRenderEvents(stack, runs);
      var n := NestedStack(stack, d);
      NestedTransitionsEvents(stack, d);
      RunAppend(stack, EventsOf(NestedTransitions(stack, d)), EventsOf(NestedRender(n, runs[1..])));
      NestedRenderRun(n, runs[1..]);
    }
  }

  /** Every paragraph the corrected transitions write is well nested. */
  lemma NestedRenderWellNested(runs: seq<(string, SpanStyle3)>)
    ensures WellNested(NestedRender([], runs))
  {
    NestedRenderRun([], runs);
  }

  lemma AsWrittenCons(actual: SpanStyle3, x: string, d: SpanStyle3, rest: seq<(string, SpanStyle3)>)
    ensures AsWrittenRender(actual, [(x, d)] + rest) == Transitions(actual, d) + [Text(x)] + AsWrittenRender(d, rest)
  {
    assert ([(x, d)] + rest)[1..] == rest;
  }

  lemma Interleave<T>(p: seq<T>, q: seq<T>, r: seq<T>, a: T, b: T, c: T, u: T, v: T)
    requires p == [a] && q == [b] && r == [c]
    ensures p + [u] + (q + [v] + r) == [a, u, b, v, c]
  {
  }

  /** The as-written rendering of the runs that show the mis-nesting is that paragraph. */
  lemma AsWrittenMisnested(x: string, y: string)
    ensures AsWrittenRender(NoStyle(), [(x, BOLD_ITALIC), (y, ITALIC)]) == Misnested(x, y)
  {
    var none: seq<(string, SpanStyle3)> := [];
    var runs := [(x, BOLD_ITALIC)] + ([(y, ITALIC)] + none);
    assert runs == [(x, BOLD_ITALIC), (y, ITALIC)];
    MisnestedTransitions();
    AsWrittenCons(NoStyle(), x, BOLD_ITALIC, [(y, ITALIC)] + none);
    AsWrittenCons(BOLD_ITALIC, y, ITALIC, none);
    Interleave(Transitions(NoStyle(), BOLD_ITALIC), Transitions(BOLD_ITALIC, ITALIC), Transitions(ITALIC, NoStyle()),
      EnableStyles(BOLD_ITALIC), DisableStyles(BOLD), DisableStyles(ITALIC), Text(x), Text(y));
  }

  /** So the as-written transitions do not nest for those runs. */
  lemma AsWrittenNotWellNested(x: string, y: string)
    ensures !WellNested(AsWrittenRender(NoStyle(), [(x, BOLD_ITALIC), (y, ITALIC)]))
  {
    AsWrittenMisnested(x, y);
    MisnestedAsWritten(x, y);
  }
}
