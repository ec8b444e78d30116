/**
 * `ChapterBuilder` (generate/src/chapter.rs:358-598): a chapter is built by
 * adding text under a desired span style; the builder tracks the style that
 * is actually open and emits the minimal enable/disable transitions, groups
 * inline elements into paragraphs, and checks the result in `finish`.
 *
 * Each step is a function on `BuilderState`; the class `ChapterBuilder`
 * updates its fields in place and its methods are proved to perform exactly
 * those steps. The lemmas establish `Inv`, which every step preserves, and
 * what `finish` guarantees.
 */
module ChapterBuilder {
  import opened Wrappers
  import opened Style
  import opened HtmlWriter
  import opened Chapter
  import Img = Image

  datatype BuilderState = BuilderState(
    id: nat,
    title: Option<string>,
    paragraphStyle: ParagraphStyle,
    spanStyle: SpanStyle3,
    actual: SpanStyle3,
    preserveLineFeeds: bool,
    unresolved: map<string, Img.Image>,
    currentP: seq<InlineElement>,
    completeP: seq<MajorElement>)

  /** The style in force after a run of inline elements, starting from `s`. */
  function StyleAfter(s: SpanStyle, elms: seq<InlineElement>): SpanStyle
    decreases |elms|
  {
    if elms == [] then s
    else
      var e := elms[|elms| - 1];
      var t := StyleAfter(s, elms[..|elms| - 1]);
      match e
      case EnableStyles(x) => Add(t, x)
      case DisableStyles(x) => RemovalsNeeded(t, x)
      case _ => t
  }

  lemma {:induction false} StyleAfterAppend(s: SpanStyle, a: seq<InlineElement>, b: seq<InlineElement>)
    ensures StyleAfter(s, a + b) == StyleAfter(StyleAfter(s, a), b)
    decreases |b|
  {
    if b == [] {
      assert a + b == a;
    } else {
      assert (a + b)[..|a + b| - 1] == a + b[..|b| - 1];
      assert (a + b)[|a + b| - 1] == b[|b| - 1];
      StyleAfterAppend(s, a, b[..|b| - 1]);
    }
  }

  /** A disable of `rem` and then an enable of `add`, each only when it is not empty. */
  function CloseThenOpen(rem: SpanStyle3, add: SpanStyle3): seq<InlineElement>
  {
    (if !IsNone(rem) then [DisableStyles(rem)] else []) + (if !IsNone(add) then [EnableStyles(add)] else [])
  }

  lemma CloseThenOpenShape(rem: SpanStyle3, add: SpanStyle3)
    ensures var r := CloseThenOpen(rem, add);
      NoEmptyTransition(r) && |r| <= 2 && (r == [] <==> IsNone(rem) && IsNone(add)) &&
      forall i :: 0 <= i < |r| ==> r[i].EnableStyles? || r[i].DisableStyles?
  {
  }

  lemma StyleAfterOne(s: SpanStyle, x: SpanStyle3)
    ensures StyleAfter(s, [DisableStyles(x)]) == RemovalsNeeded(s, x)
    ensures StyleAfter(s, [EnableStyles(x)]) == Add(s, x)
  {
    assert [DisableStyles(x)][..0] == [];
    assert [EnableStyles(x)][..0] == [];
  }

  lemma NoneNeutral(s: SpanStyle, x: SpanStyle)
    requires IsNone(x)
    ensures RemovalsNeeded(s, x) == s && Add(s, x) == s
  {
    Extensionality(RemovalsNeeded(s, x), s);
    Extensionality(Add(s, x), s);
  }

  lemma CloseThenOpenStyle(s: SpanStyle, rem: SpanStyle3, add: SpanStyle3)
    ensures StyleAfter(s, CloseThenOpen(rem, add)) == Add(RemovalsNeeded(s, rem), add)
  {
    var mid := if !IsNone(rem) then [DisableStyles(rem)] else [];
    var post := if !IsNone(add) then [EnableStyles(add)] else [];
    StyleAfterAppend(s, mid, post);
    StyleAfterOne(s, rem);
    StyleAfterOne(RemovalsNeeded(s, rem), add);
    if IsNone(rem) {
      NoneNeutral(s, rem);
    }
    if IsNone(add) {
      NoneNeutral(RemovalsNeeded(s, rem), add);
    }
  }

  /**
   * `span_style_actualize`'s output: `DisableStyles(removals)` and then
   * `EnableStyles(additional)`, each only when it is not empty.
   */
  function Transitions(actual: SpanStyle3, desired: SpanStyle3): (r: seq<InlineElement>)
    ensures NoEmptyTransition(r) && |r| <= 2
    ensures r == [] <==> actual == desired
    ensures StyleAfter(actual, r) == desired
    ensures forall i :: 0 <= i < |r| ==> r[i].EnableStyles? || r[i].DisableStyles?
  {
    Closed(actual, desired);
    Transition(actual, desired);
    var rem := RemovalsNeeded(actual, desired);
    var add := AdditionalNeeded(actual, desired);
    CloseThenOpenShape(rem, add);
    CloseThenOpenStyle(actual, rem, add);
    CloseThenOpen(rem, add)
  }

  /** `span_style_actualize`: emit the transitions and take the desired style as the actual one. */
  function Actualize(st: BuilderState): BuilderState
  {
    st.(currentP := st.currentP + Transitions(st.actual, st.spanStyle), actual := st.spanStyle)
  }

  /**
   * Actualizing only appends to the open paragraph, at most two style
   * changes and none when the written style is already the desired one;
   * when the open paragraph produced the written style, the extended one
   * produces the desired style, which is recorded as written.
   */
  lemma ActualizeWrites(st: BuilderState)
    requires StyleAfter(NoStyle(), st.currentP) == st.actual
    ensures var a := Actualize(st);
      |st.currentP| <= |a.currentP| <= |st.currentP| + 2 && a.currentP[..|st.currentP|] == st.currentP &&
      StyleAfter(NoStyle(), a.currentP) == st.spanStyle && a.actual == st.spanStyle &&
      (st.actual == st.spanStyle <==> a == st) &&
      a.completeP == st.completeP && a.spanStyle == st.spanStyle && a.unresolved == st.unresolved
  {
    var t := Transitions(st.actual, st.spanStyle);
    StyleAfterAppend(NoStyle(), st.currentP, t);
    assert (st.currentP + t)[..|st.currentP|] == st.currentP;
    if st.actual != st.spanStyle {
      assert |Actualize(st).currentP| != |st.currentP|;
    }
  }

  /**
   * `paragraph_finish`: reset the desired style and close what is open; then,
   * only if the paragraph has elements, move it with the paragraph style into
   * the completed list and reset the paragraph style.
   */
  function ParagraphFinishStep(st: BuilderState): BuilderState
  {
    var a := Actualize(st.(spanStyle := NoStyle()));
    if a.currentP == [] then a
    else a.(currentP := [], paragraphStyle := DEFAULT_PARAGRAPH_STYLE,
      completeP := a.completeP + [Paragraph(a.paragraphStyle, a.currentP)])
  }

  /** `add_separator`. */
  function AddSeparatorStep(st: BuilderState): BuilderState
  {
    var f := ParagraphFinishStep(st);
    f.(completeP := f.completeP + [HorizLine])
  }

  /** `add_scene_sep`. */
  function AddSceneSepStep(st: BuilderState, scene: string): BuilderState
  {
    var f := ParagraphFinishStep(st);
    f.(completeP := f.completeP + [SceneSep(scene)])
  }

  /** `add_image`: the image is placed by id and registered as unresolved under its URL. */
  function AddImageStep(st: BuilderState, img: Img.Image): BuilderState
  {
    var f := ParagraphFinishStep(st);
    f.(completeP := f.completeP + [Image(img.id)], unresolved := f.unresolved[img.url := img])
  }

  /** `add_text`: actualise, then one text element (`Text` for borrowed, `TextOwned` for owned content). */
  function AddTextStep(st: BuilderState, content: string, owned: bool): BuilderState
  {
    var a := Actualize(st);
    a.(currentP := a.currentP + [if owned then TextOwned(content) else Text(content)])
  }

  /** `add_text_styled`: add borrowed text under `style`, then restore the desired style. */
  function AddTextStyledStep(st: BuilderState, content: string, style: SpanStyle3): BuilderState
  {
    AddTextStep(st.(spanStyle := style), content, false).(spanStyle := st.spanStyle)
  }

  /**
   * `finish`: complete the open paragraph, then fail if the title is
   * missing, nothing was completed or an image is still unresolved.
   */
  function FinishStep(st: BuilderState): Result<Chapter, ChapterBuilderError>
  {
    var f := ParagraphFinishStep(st);
    var error := ChapterBuilderError(f.completeP == [], f.title.None?, f.unresolved != map[]);
    if Any(error) then Err(error) else Ok(Chapter(f.id, f.title.value, f.completeP))
  }

  /** A freshly built state: nothing set, no style open. */
  function Initial(id: nat): BuilderState
  {
    BuilderState(id, None, DEFAULT_PARAGRAPH_STYLE, NoStyle(), NoStyle(), false, map[], [], [])
  }

  /** A completed paragraph is not empty, has no empty transition and closes everything it opened. */
  predicate ClosedParagraph(m: MajorElement)
  {
    m.Paragraph? ==> m.elms != [] && NoEmptyTransition(m.elms) && StyleAfter(NoStyle(), m.elms) == NoStyle()
  }

  /**
   * The builder's invariant: the open paragraph's transitions lead from no
   * style to the actual style, completed paragraphs are closed, and every
   * placed image is registered under its URL.
   */
  predicate Inv(st: BuilderState)
  {
    NoEmptyTransition(st.currentP) &&
    StyleAfter(NoStyle(), st.currentP) == st.actual &&
    (forall i :: 0 <= i < |st.completeP| ==> ClosedParagraph(st.completeP[i])) &&
    (forall u :: u in st.unresolved ==> st.unresolved[u].url == u) &&
    (forall i :: 0 <= i < |st.completeP| && st.completeP[i].Image? ==>
      exists u :: u in st.unresolved && st.unresolved[u].id == st.completeP[i].id)
  }

  lemma InitialInv(id: nat)
    ensures Inv(Initial(id))
  {
  }

  lemma NoEmptyAppend(a: seq<InlineElement>, b: seq<InlineElement>)
    requires NoEmptyTransition(a) && NoEmptyTransition(b)
    ensures NoEmptyTransition(a + b)
  {
    forall i | 0 <= i < |a + b| ensures !EmptyTransition((a + b)[i]) {
      if i < |a| {
        assert (a + b)[i] == a[i];
      } else {
        assert (a + b)[i] == b[i - |a|];
      }
    }
  }

  /** Changing only the open paragraph and the actual style keeps the invariant when they agree. */
  lemma InvOpenPart(st: BuilderState, p: seq<InlineElement>, act: SpanStyle3)
    requires Inv(st)
    requires NoEmptyTransition(p) && StyleAfter(NoStyle(), p) == act
    ensures Inv(st.(currentP := p, actual := act))
  {
  }

  lemma ActualizeInv(st: BuilderState)
    requires Inv(st)
    ensures Inv(Actualize(st))
  {
    var t := Transitions(st.actual, st.spanStyle);
    StyleAfterAppend(NoStyle(), st.currentP, t);
    NoEmptyAppend(st.currentP, t);
    InvOpenPart(st, st.currentP + t, st.spanStyle);
  }

  /** `paragraph_finish` keeps the invariant, leaves no style open and an empty open paragraph. */
  lemma ParagraphFinishInv(st: BuilderState)
    requires Inv(st)
    ensures var f := ParagraphFinishStep(st);
      Inv(f) && f.currentP == [] && f.actual == NoStyle() && f.spanStyle == NoStyle()
  {
    var a := Actualize(st.(spanStyle := NoStyle()));
    ActualizeInv(st.(spanStyle := NoStyle()));
    if a.currentP != [] {
      var f := ParagraphFinishStep(st);
      forall i | 0 <= i < |f.completeP| ensures ClosedParagraph(f.completeP[i]) {
        if i < |a.completeP| {
          assert f.completeP[i] == a.completeP[i];
        }
      }
      forall i | 0 <= i < |f.completeP| && f.completeP[i].Image?
        ensures exists u :: u in f.unresolved && f.unresolved[u].id == f.completeP[i].id
      {
        assert f.completeP[i] == a.completeP[i];
      }
    }
  }

  /**
   * `paragraph_finish`: without open elements it only resets the span style;
   * otherwise it appends exactly one paragraph, holding the open elements and
   * the closing transition, under the old paragraph style.
   */
  lemma ParagraphFinishSpec(st: BuilderState)
    ensures var f := ParagraphFinishStep(st);
      var elms := st.currentP + Transitions(st.actual, NoStyle());
      (elms == [] ==> f == st.(spanStyle := NoStyle(), actual := NoStyle())) &&
      (elms != [] ==> (f.completeP == st.completeP + [Paragraph(st.paragraphStyle, elms)] &&
        f.paragraphStyle == DEFAULT_PARAGRAPH_STYLE && f.currentP == []))
  {
  }

  /** The three adders of major elements finish the paragraph first and then append their element. */
  lemma AddMajorSpec(st: BuilderState, scene: string, img: Img.Image)
    ensures AddSeparatorStep(st).completeP == ParagraphFinishStep(st).completeP + [HorizLine]
    ensures AddSceneSepStep(st, scene).completeP == ParagraphFinishStep(st).completeP + [SceneSep(scene)]
    ensures AddImageStep(st, img).completeP == ParagraphFinishStep(st).completeP + [Image(img.id)]
    ensures img.url in AddImageStep(st, img).unresolved
  {
  }

  /** Appending a major element that is not an image keeps the invariant. */
  lemma AppendMajorInv(f: BuilderState, m: MajorElement)
    requires Inv(f) && ClosedParagraph(m) && !m.Image?
    ensures Inv(f.(completeP := f.completeP + [m]))
  {
    var g := f.(completeP := f.completeP + [m]);
    forall i | 0 <= i < |g.completeP| ensures ClosedParagraph(g.completeP[i]) {
      if i < |f.completeP| {
        assert g.completeP[i] == f.completeP[i];
      }
    }
    forall i | 0 <= i < |g.completeP| && g.completeP[i].Image?
      ensures exists u :: u in g.unresolved && g.unresolved[u].id == g.completeP[i].id
    {
      assert g.completeP[i] == f.completeP[i];
    }
  }

  /** Placing an image and registering it under its URL keeps the invariant. */
  lemma AppendImageInv(f: BuilderState, img: Img.Image)
    requires Inv(f)
    requires img.url in f.unresolved ==> f.unresolved[img.url].id == img.id
    ensures Inv(f.(completeP := f.completeP + [Image(img.id)], unresolved := f.unresolved[img.url := img]))
  {
    var g := f.(completeP := f.completeP + [Image(img.id)], unresolved := f.unresolved[img.url := img]);
    forall i | 0 <= i < |g.completeP| ensures ClosedParagraph(g.completeP[i]) {
      if i < |f.completeP| {
        assert g.completeP[i] == f.completeP[i];
      }
    }
    forall i | 0 <= i < |g.completeP| && g.completeP[i].Image?
      ensures exists u :: u in g.unresolved && g.unresolved[u].id == g.completeP[i].id
    {
      if i == |f.completeP| {
        assert g.unresolved[img.url].id == g.completeP[i].id;
      } else {
        assert g.completeP[i] == f.completeP[i];
        var u :| u in f.unresolved && f.unresolved[u].id == f.completeP[i].id;
        assert g.unresolved[u].id == g.completeP[i].id;
      }
    }
  }

  lemma AddMajorInv(st: BuilderState, scene: string, img: Img.Image)
    requires Inv(st)
    requires img.url in st.unresolved ==> st.unresolved[img.url].id == img.id
    ensures Inv(AddSeparatorStep(st)) && Inv(AddSceneSepStep(st, scene)) && Inv(AddImageStep(st, img))
  {
    ParagraphFinishInv(st);
    var f := ParagraphFinishStep(st);
    AppendMajorInv(f, HorizLine);
    AppendMajorInv(f, SceneSep(scene));
    AppendImageInv(f, img);
  }

  /**
   * `add_text` appends the transitions to the desired style and then exactly
   * one text element, which comes last; `add_text_styled` leaves the desired
   * style as it was.
   */
  lemma AddTextSpec(st: BuilderState, content: string, owned: bool, style: SpanStyle3)
    ensures var r := AddTextStep(st, content, owned);
      r.currentP == st.currentP + Transitions(st.actual, st.spanStyle) + [if owned then TextOwned(content) else Text(content)] &&
      r.actual == st.spanStyle && r.completeP == st.completeP
    ensures var r := AddTextStyledStep(st, content, style);
      r.spanStyle == st.spanStyle && r.actual == style && r.currentP[|r.currentP| - 1] == Text(content)
  {
  }

  /** A text element changes no style. */
  lemma StyleAfterText(s: SpanStyle, e: InlineElement)
    requires e.Text? || e.TextOwned?
    ensures StyleAfter(s, [e]) == s
  {
    assert [e][..0] == [];
  }

  lemma AddTextInv(st: BuilderState, content: string, owned: bool)
    requires Inv(st)
    ensures Inv(AddTextStep(st, content, owned))
  {
    var a := Actualize(st);
    var t := [if owned then TextOwned(content) else Text(content)];
    assert Inv(a.(currentP := a.currentP + t, actual := a.actual)) by {
      ActualizeInv(st);
      StyleAfterAppend(NoStyle(), a.currentP, t);
      StyleAfterText(a.actual, t[0]);
      NoEmptyAppend(a.currentP, t);
      InvOpenPart(a, a.currentP + t, a.actual);
    }
    assert AddTextStep(st, content, owned) == a.(currentP := a.currentP + t, actual := a.actual);
  }

  lemma AddTextStyledInv(st: BuilderState, content: string, style: SpanStyle3)
    requires Inv(st)
    ensures Inv(AddTextStyledStep(st, content, style))
  {
    AddTextInv(st.(spanStyle := style), content, false);
  }

  /** `finish` fails exactly when the title is missing, nothing is complete, or an image is unresolved. */
  lemma FinishErr(st: BuilderState)
    ensures var f := ParagraphFinishStep(st);
      FinishStep(st).Err? <==> f.title.None? || f.completeP == [] || f.unresolved != map[]
    ensures FinishStep(st).Err? ==> Any(FinishStep(st).error)
  {
  }

  /**
   * A chapter `finish` accepts renders in both forms: no unresolved image is
   * left in it and no empty style transition, and each paragraph closes
   * every style it opens.
   */
  lemma FinishRenderable(st: BuilderState)
    requires Inv(st) && FinishStep(st).Ok?
    ensures var c := FinishStep(st).value;
      c.p != [] &&
      (forall i :: 0 <= i < |c.p| ==> Renderable(c.p[i]) && ClosedParagraph(c.p[i]))
  {
    ParagraphFinishInv(st);
    var f := ParagraphFinishStep(st);
    var c := FinishStep(st).value;
    forall i | 0 <= i < |c.p| ensures Renderable(c.p[i]) && ClosedParagraph(c.p[i]) {
      assert c.p[i] == f.completeP[i];
    }
  }

  /**
   * With no style open and a title set, `finish` completes the open paragraph
   * unchanged and returns every completed element in order.
   */
  lemma FinishClosed(st: BuilderState)
    requires st.actual == NoStyle() && st.currentP != [] && st.title.Some? && st.unresolved == map[]
    ensures FinishStep(st) == Ok(Chapter(st.id, st.title.value, st.completeP + [Paragraph(st.paragraphStyle, st.currentP)]))
  {
    assert Transitions(NoStyle(), NoStyle()) == [];
    assert st.currentP + [] == st.currentP;
  }

  /** One `add_text` with known transitions: nothing but the open paragraph and the actual style changes. */
  lemma TextStep(st: BuilderState, content: string, owned: bool, t: seq<InlineElement>)
    requires Transitions(st.actual, st.spanStyle) == t
    ensures AddTextStep(st, content, owned) ==
      st.(currentP := st.currentP + t + [if owned then TextOwned(content) else Text(content)], actual := st.spanStyle)
  {
  }

  /** One `add_text_styled` with known transitions. */
  lemma StyledStep(st: BuilderState, content: string, style: SpanStyle3, t: seq<InlineElement>)
    requires Transitions(st.actual, style) == t
    ensures AddTextStyledStep(st, content, style) == st.(currentP := st.currentP + t + [Text(content)], actual := style)
  {
  }

  /** One `paragraph_finish` of a paragraph that is not empty, with known closing transitions. */
  lemma FinishParagraphStep(st: BuilderState, t: seq<InlineElement>)
    requires Transitions(st.actual, NoStyle()) == t && st.currentP + t != []
    ensures ParagraphFinishStep(st) == st.(spanStyle := NoStyle(), actual := NoStyle(), currentP := [],
      paragraphStyle := DEFAULT_PARAGRAPH_STYLE, completeP := st.completeP + [Paragraph(st.paragraphStyle, st.currentP + t)])
  {
  }

  const BOLD: SpanStyle3 := NoStyle().(bold := true)
  const ITALIC: SpanStyle3 := NoStyle().(italic := true)
  const BOLD_ITALIC: SpanStyle3 := NoStyle().(bold := true, italic := true)

  /** The transitions between no style and bold. */
  lemma BoldTransitions()
    ensures Transitions(NoStyle(), NoStyle()) == [] && Transitions(BOLD, BOLD) == []
    ensures Transitions(NoStyle(), BOLD) == [EnableStyles(BOLD)]
    ensures Transitions(BOLD, NoStyle()) == [DisableStyles(BOLD)]
  {
  }

  /** The transitions among bold, italic and both. */
  lemma MixedTransitions()
    ensures Transitions(NoStyle(), BOLD_ITALIC) == [EnableStyles(BOLD_ITALIC)]
    ensures Transitions(BOLD_ITALIC, BOLD) == [DisableStyles(ITALIC)]
    ensures Transitions(BOLD, ITALIC) == [DisableStyles(BOLD), EnableStyles(ITALIC)]
    ensures Transitions(ITALIC, BOLD) == [DisableStyles(ITALIC), EnableStyles(BOLD)]
  {
  }

  /** The builder steps of the `it_works` test of generate/src/chapter.rs. */
  function ItWorksState(): BuilderState
  {
    var s0 := Initial(0).(title := Some("it works"));
    AddTextStep(AddTextStyledStep(AddTextStep(s0, "hello, ", false), "world", BOLD), "!", false)
  }

  /** Those steps give one paragraph holding exactly the minimal transitions. */
  lemma ItWorksBuild()
    ensures FinishStep(ItWorksState()) ==
      Ok(Chapter(0, "it works", [Paragraph(DEFAULT_PARAGRAPH_STYLE,
        [Text("hello, "), EnableStyles(BOLD), Text("world"), DisableStyles(BOLD), Text("!")])]))
  {
    BoldTransitions();
    var s0 := Initial(0).(title := Some("it works"));
    TextStep(s0, "hello, ", false, []);
    var s1 := AddTextStep(s0, "hello, ", false);
    StyledStep(s1, "world", BOLD, [EnableStyles(BOLD)]);
    var s2 := AddTextStyledStep(s1, "world", BOLD);
    TextStep(s2, "!", false, [DisableStyles(BOLD)]);
    var s3 := AddTextStep(s2, "!", false);
    var p := [Text("hello, "), EnableStyles(BOLD), Text("world"), DisableStyles(BOLD), Text("!")];
    assert s3 == ItWorksState();
    assert s3.currentP == p && s3.actual == NoStyle() && s3.completeP == [];
    FinishClosed(s3);
    assert s3.completeP + [Paragraph(DEFAULT_PARAGRAPH_STYLE, p)] == [Paragraph(DEFAULT_PARAGRAPH_STYLE, p)];
  }

  /** The builder steps of the `transitions` test of generate/src/chapter.rs. */
  function TransitionsState(): BuilderState
  {
    var s0 := Initial(0).(title := Some("transitions"));
    var s1 := AddTextStyledStep(AddTextStep(s0, "aaa", false), "bbb", BOLD_ITALIC);
    var s2 := AddTextStyledStep(AddTextStyledStep(s1.(spanStyle := BOLD), "ccc", BOLD), "ddd", ITALIC);
    var s3 := AddTextStep(AddTextStep(s2, "eee", false), "fff", false);
    AddTextStep(AddTextStep(s3.(spanStyle := NoStyle()), "ggg", false), "hhh", false)
  }

  /**
   * The paragraph that test expects, `aaa<b><i>bbb</i>ccc</b><i>ddd</i><b>eeefff</b>ggghhh`
   * once each transition is written as its tags.
   */
  const TRANSITIONS_P: seq<InlineElement> := [Text("aaa"), EnableStyles(BOLD_ITALIC), Text("bbb"), DisableStyles(ITALIC),
    Text("ccc"), DisableStyles(BOLD), EnableStyles(ITALIC), Text("ddd"), DisableStyles(ITALIC), EnableStyles(BOLD),
    Text("eee"), Text("fff"), DisableStyles(BOLD), Text("ggg"), Text("hhh")]

  /** After the first two runs: `aaa` and bold-italic `bbb`. */
  lemma TransitionsFirstQuarter(s0: BuilderState)
    requires s0 == Initial(0).(title := Some("transitions"))
    ensures AddTextStyledStep(AddTextStep(s0, "aaa", false), "bbb", BOLD_ITALIC) ==
      s0.(actual := BOLD_ITALIC, currentP := TRANSITIONS_P[..3])
  {
    MixedTransitions();
    TextStep(s0, "aaa", false, []);
    var a0 := AddTextStep(s0, "aaa", false);
    assert a0 == s0.(currentP := [Text("aaa")]);
    StyledStep(a0, "bbb", BOLD_ITALIC, [EnableStyles(BOLD_ITALIC)]);
  }

  /** Then bold `ccc` and italic `ddd`. */
  lemma TransitionsSecondQuarter(s1: BuilderState)
    requires s1.actual == BOLD_ITALIC && s1.currentP == TRANSITIONS_P[..3]
    ensures AddTextStyledStep(AddTextStyledStep(s1.(spanStyle := BOLD), "ccc", BOLD), "ddd", ITALIC) ==
      s1.(spanStyle := BOLD, actual := ITALIC, currentP := TRANSITIONS_P[..8])
  {
    BoldTransitions();
    MixedTransitions();
    StyledStep(s1.(spanStyle := BOLD), "ccc", BOLD, [DisableStyles(ITALIC)]);
    var a1 := AddTextStyledStep(s1.(spanStyle := BOLD), "ccc", BOLD);
    assert a1 == s1.(spanStyle := BOLD, actual := BOLD, currentP := TRANSITIONS_P[..5]);
    StyledStep(a1, "ddd", ITALIC, [DisableStyles(BOLD), EnableStyles(ITALIC)]);
  }

  /** After the first four runs: `aaa`, bold-italic `bbb`, bold `ccc`, italic `ddd`. */
  lemma TransitionsFirstHalf(s0: BuilderState)
    requires s0 == Initial(0).(title := Some("transitions"))
    ensures var s1 := AddTextStyledStep(AddTextStep(s0, "aaa", false), "bbb", BOLD_ITALIC);
      AddTextStyledStep(AddTextStyledStep(s1.(spanStyle := BOLD), "ccc", BOLD), "ddd", ITALIC) ==
      s0.(spanStyle := BOLD, actual := ITALIC, currentP := TRANSITIONS_P[..8])
  {
    TransitionsFirstQuarter(s0);
    TransitionsSecondQuarter(s0.(actual := BOLD_ITALIC, currentP := TRANSITIONS_P[..3]));
  }

  /** The last four runs: `eee` and `fff` in bold, `ggg` and `hhh` plain. */
  lemma TransitionsSecondHalf(s2: BuilderState)
    requires s2.spanStyle == BOLD && s2.actual == ITALIC
    ensures var s3 := AddTextStep(AddTextStep(s2, "eee", false), "fff", false);
      AddTextStep(AddTextStep(s3.(spanStyle := NoStyle()), "ggg", false), "hhh", false) ==
      s2.(spanStyle := NoStyle(), actual := NoStyle(), currentP := s2.currentP + TRANSITIONS_P[8..])
  {
    BoldTransitions();
    MixedTransitions();
    TextStep(s2, "eee", false, [DisableStyles(ITALIC), EnableStyles(BOLD)]);
    var a2 := AddTextStep(s2, "eee", false);
    TextStep(a2, "fff", false, []);
    var s3 := AddTextStep(a2, "fff", false);
    TextStep(s3.(spanStyle := NoStyle()), "ggg", false, [DisableStyles(BOLD)]);
    var a3 := AddTextStep(s3.(spanStyle := NoStyle()), "ggg", false);
    TextStep(a3, "hhh", false, []);
  }

  lemma TransitionsBuild()
    ensures FinishStep(TransitionsState()) == Ok(Chapter(0, "transitions", [Paragraph(DEFAULT_PARAGRAPH_STYLE, TRANSITIONS_P)]))
  {
    var s0 := Initial(0).(title := Some("transitions"));
    TransitionsFirstHalf(s0);
    var s2 := s0.(spanStyle := BOLD, actual := ITALIC, currentP := TRANSITIONS_P[..8]);
    TransitionsSecondHalf(s2);
    var st := TransitionsState();
    assert TRANSITIONS_P[..8] + TRANSITIONS_P[8..] == TRANSITIONS_P;
    assert st == s0.(currentP := TRANSITIONS_P);
    FinishClosed(st);
    assert st.completeP + [Paragraph(DEFAULT_PARAGRAPH_STYLE, TRANSITIONS_P)] == [Paragraph(DEFAULT_PARAGRAPH_STYLE, TRANSITIONS_P)];
  }

  /** The builder steps of the `markdown` test of generate/src/chapter.rs. */
  function MarkdownState(): BuilderState
  {
    var s0 := Initial(0).(title := Some("markdown"));
    var s1 := AddTextStep(AddTextStep(s0, "hello, ", false), "world", false);
    var s2 := ParagraphFinishStep(AddTextStep(s1.(spanStyle := BOLD), "!", false));
    AddTextStep(ParagraphFinishStep(AddTextStep(s2, "paragraph 2", false)), "paragraph 3", false)
  }

  /**
   * Three paragraphs; finishing the first closes the bold it left open
   * inside it, which the alternate form writes as `hello, world**!**`.
   */
  lemma MarkdownBuild()
    ensures FinishStep(MarkdownState()) == Ok(Chapter(0, "markdown", [
      Paragraph(DEFAULT_PARAGRAPH_STYLE, [Text("hello, "), Text("world"), EnableStyles(BOLD), Text("!"), DisableStyles(BOLD)]),
      Paragraph(DEFAULT_PARAGRAPH_STYLE, [Text("paragraph 2")]),
      Paragraph(DEFAULT_PARAGRAPH_STYLE, [Text("paragraph 3")])]))
  {
    BoldTransitions();
    var s0 := Initial(0).(title := Some("markdown"));
    TextStep(s0, "hello, ", false, []);
    var a0 := AddTextStep(s0, "hello, ", false);
    TextStep(a0, "world", false, []);
    var s1 := AddTextStep(a0, "world", false);
    TextStep(s1.(spanStyle := BOLD), "!", false, [EnableStyles(BOLD)]);
    var t1 := AddTextStep(s1.(spanStyle := BOLD), "!", false);
    FinishParagraphStep(t1, [DisableStyles(BOLD)]);
    var s2 := ParagraphFinishStep(t1);
    TextStep(s2, "paragraph 2", false, []);
    var t2 := AddTextStep(s2, "paragraph 2", false);
    FinishParagraphStep(t2, []);
    var s3 := ParagraphFinishStep(t2);
    TextStep(s3, "paragraph 3", false, []);
    var st := AddTextStep(s3, "paragraph 3", false);
    assert st == MarkdownState();
    var p1 := [Text("hello, "), Text("world"), EnableStyles(BOLD), Text("!"), DisableStyles(BOLD)];
    assert t1.currentP + [DisableStyles(BOLD)] == p1;
    assert t2.currentP + [] == [Text("paragraph 2")];
    assert st.currentP == [Text("paragraph 3")] && st.actual == NoStyle();
    assert st.completeP == [Paragraph(DEFAULT_PARAGRAPH_STYLE, p1), Paragraph(DEFAULT_PARAGRAPH_STYLE, [Text("paragraph 2")])];
    FinishClosed(st);
    assert st.completeP + [Paragraph(DEFAULT_PARAGRAPH_STYLE, st.currentP)] == [
      Paragraph(DEFAULT_PARAGRAPH_STYLE, p1),
      Paragraph(DEFAULT_PARAGRAPH_STYLE, [Text("paragraph 2")]),
      Paragraph(DEFAULT_PARAGRAPH_STYLE, [Text("paragraph 3")])];
  }

  /** The builder itself, with the fields of the source; `id` comes from a global counter, so it is given. */
  class ChapterBuilder {
    var id: nat
    var title: Option<string>
    var paragraphStyle: ParagraphStyle
    var spanStyle: SpanStyle3
    var spanStyleActual: SpanStyle3
    var preserveLineFeeds: bool
    var resourcesUnresolved: map<string, Img.Image>
    var currentP: seq<InlineElement>
    var completeP: seq<MajorElement>

    function State(): BuilderState
      reads this
    {
      BuilderState(id, title, paragraphStyle, spanStyle, spanStyleActual, preserveLineFeeds,
        resourcesUnresolved, currentP, completeP)
    }

    constructor (id: nat)
      ensures State() == Initial(id) && Inv(State())
    {
      this.id := id;
      title := None;
      paragraphStyle := DEFAULT_PARAGRAPH_STYLE;
      spanStyle := NoStyle();
      spanStyleActual := NoStyle();
      preserveLineFeeds := false;
      resourcesUnresolved := map[];
      currentP := [];
      completeP := [];
    }

    method TitleSet(s: string)
      modifies this
      ensures State() == old(State()).(title := Some(s))
    {
      title := Some(s);
    }

    method PreserveLineFeeds(enable: bool)
      modifies this
      ensures State() == old(State()).(preserveLineFeeds := enable)
    {
      preserveLineFeeds := enable;
    }

    method SpanStyleSet(style: SpanStyle3)
      modifies this
      ensures State() == old(State()).(spanStyle := style)
    {
      spanStyle := style;
    }

    method SpanStyleReset()
      modifies this
      ensures State() == old(State()).(spanStyle := NoStyle())
    {
      spanStyle := NoStyle();
    }

    method ParagraphStyleSet(style: ParagraphStyle)
      modifies this
      ensures State() == old(State()).(paragraphStyle := style)
    {
      paragraphStyle := style;
    }

    method SpanStyleActualize()
      modifies this
      ensures State() == Actualize(old(State()))
    {
      var current := spanStyleActual;
      var desired := spanStyle;
      Closed(current, desired);
      var removals := RemovalsNeeded(current, desired);
      if !IsNone(removals) {
        currentP := currentP + [DisableStyles(removals)];
      }
      var additional := AdditionalNeeded(current, desired);
      if !IsNone(additional) {
        currentP := currentP + [EnableStyles(additional)];
      }
      spanStyleActual := desired;
    }

    method ParagraphFinish()
      modifies this
      ensures State() == ParagraphFinishStep(old(State()))
    {
      SpanStyleReset();
      SpanStyleActualize();
      if |currentP| == 0 {
        return;
      }
      var spans := currentP;
      currentP := [];
      var style := paragraphStyle;
      paragraphStyle := DEFAULT_PARAGRAPH_STYLE;
      completeP := completeP + [Paragraph(style, spans)];
    }

    method AddSeparator()
      modifies this
      ensures State() == AddSeparatorStep(old(State()))
    {
      ParagraphFinish();
      completeP := completeP + [HorizLine];
    }

    method AddSceneSep(scene: string)
      modifies this
      ensures State() == AddSceneSepStep(old(State()), scene)
    {
      ParagraphFinish();
      completeP := completeP + [SceneSep(scene)];
    }

    method AddImage(img: Img.Image)
      modifies this
      ensures State() == AddImageStep(old(State()), img)
    {
      ParagraphFinish();
      completeP := completeP + [Image(img.id)];
      resourcesUnresolved := resourcesUnresolved[img.url := img];
    }

    /** `requires_resolution`: some image is still unresolved. */
    method RequiresResolution() returns (r: bool)
      ensures r <==> exists u :: u in resourcesUnresolved
    {
      r := resourcesUnresolved != map[];
      if r {
        var u :| u in resourcesUnresolved;
      }
    }

    method AddText(content: string, owned: bool)
      modifies this
      ensures State() == AddTextStep(old(State()), content, owned)
    {
      SpanStyleActualize();
      currentP := currentP + [if owned then TextOwned(content) else Text(content)];
    }

    method AddTextStyled(content: string, style: SpanStyle3)
      modifies this
      ensures State() == AddTextStyledStep(old(State()), content, style)
    {
      var prevStyle := spanStyle;
      spanStyle := style;
      AddText(content, false);
      spanStyle := prevStyle;
    }

    method Finish() returns (r: Result<Chapter, ChapterBuilderError>)
      modifies this
      ensures r == FinishStep(old(State()))
    {
      ParagraphFinish();
      var error := ChapterBuilderError(completeP == [], title.None?, resourcesUnresolved != map[]);
      if Any(error) {
        return Err(error);
      }
      return Ok(Chapter(id, title.value, completeP));
    }
  }
}
