/**
 * The rules shared by every site (src/common.rs): walking a block of the
 * page into the chapter builder (`descend`), recognising horizontal rules,
 * the italic and bold tags, and the order in which `Rules::parse` drives a
 * rule set.
 */
module Common {
  import opened Wrappers
  import opened Style
  import opened Chapter
  import opened CB = ChapterBuilder
  import Dom
  import Strings

  /** `is_italics_tag`. */
  predicate IsItalicsTag(name: string)
  {
    name == "i" || name == "em"
  }

  /** `is_bold_tag`. */
  predicate IsBoldTag(name: string)
  {
    name == "b"
  }

  /** `+=` on the builder's span style: flag-wise or, which stays within the three flags. */
  function Plus(s: SpanStyle3, t: SpanStyle3): SpanStyle3
  {
    Closed(s, t);
    Add(s, t)
  }

  /** The span style the children of an element named `name` are walked with. */
  function ChildStyle(s: SpanStyle3, name: string): SpanStyle3
  {
    var s1 := if IsItalicsTag(name) then Plus(s, ITALIC) else s;
    if IsBoldTag(name) then Plus(s1, BOLD) else s1
  }

  /** Only `i` and `em` add italic, only `b` adds bold, and nothing is taken away. */
  lemma ChildStyleFlags(s: SpanStyle3, name: string)
    ensures ChildStyle(s, name).italic == (s.italic || name == "i" || name == "em")
    ensures ChildStyle(s, name).bold == (s.bold || name == "b")
    ensures ChildStyle(s, name).footnote == s.footnote
  {
  }

  /** An element that is walked into: anything but `hr`, `br` and `script`. */
  predicate Walked(name: string)
  {
    name != "hr" && name != "br" && name != "script"
  }

  /**
   * Reference definition of `descend` on the builder's state: text is added
   * as it is, `hr` is a separator, `br` a line feed, `script` and every
   * non-element node nothing; any other element walks its children in
   * document order with its style added, then restores the style it found,
   * and a `p` finishes the paragraph.
   */
  function DescendNode(st: BuilderState, d: Dom.Doc, n: nat): BuilderState
    requires Dom.ParentsBefore(d) && n < |d|
    decreases |d| - n, 1, 0
  {
    match d[n].kind
    case Text(t) => AddTextStep(st, t, false)
    case Element(name, _) =>
      if name == "hr" then AddSeparatorStep(st)
      else if name == "br" then AddTextStep(st, "\n", false)
      else if name == "script" then st
      else
        var inner := DescendChildren(st.(spanStyle := ChildStyle(st.spanStyle, name)), d, n, Dom.Children(d, n));
        var restored := inner.(spanStyle := st.spanStyle);
        if name == "p" then ParagraphFinishStep(restored) else restored
    case _ => st
  }

  /** The children `cs` of `n`, walked one after another. */
  function DescendChildren(st: BuilderState, d: Dom.Doc, n: nat, cs: seq<nat>): BuilderState
    requires Dom.ParentsBefore(d) && n < |d|
    requires forall k :: 0 <= k < |cs| ==> n < cs[k] < |d|
    decreases |d| - n, 0, |cs|
  {
    if cs == [] then st
    else DescendNode(DescendChildren(st, d, n, cs[..|cs| - 1]), d, n := cs[|cs| - 1])
  }

  /** `descend`: the recursion over the node's children, changing the shared builder. */
  method Descend(ch: CB.ChapterBuilder, d: Dom.Doc, n: nat)
    requires Dom.ParentsBefore(d) && n < |d|
    modifies ch
    ensures ch.State() == DescendNode(old(ch.State()), d, n)
    decreases |d| - n, 2
  {
    match d[n].kind
    case Text(t) =>
      ch.AddText(t, false);
    case Element(name, _) =>
      if name == "hr" {
        ch.AddSeparator();
      } else if name == "br" {
        ch.AddText("\n", false);
      } else if name != "script" {
        DescendElement(ch, d, n, name);
      }
    case DocumentNode =>
    case FragmentNode =>
    case Doctype =>
    case Comment =>
    case ProcessingInstruction =>
  }

  /** The last arm of `descend`: the children walked with the element's style, which is then restored. */
  method DescendElement(ch: CB.ChapterBuilder, d: Dom.Doc, n: nat, name: string)
    requires Dom.ParentsBefore(d) && n < |d| && d[n].kind.Element? && d[n].kind.name == name && Walked(name)
    modifies ch
    ensures ch.State() == DescendNode(old(ch.State()), d, n)
    decreases |d| - n, 1
  {
    ghost var st := ch.State();
    var prevStyle := ch.spanStyle;
    if IsItalicsTag(name) {
      ch.spanStyle := Plus(ch.spanStyle, ITALIC);
    }
    if IsBoldTag(name) {
      ch.spanStyle := Plus(ch.spanStyle, BOLD);
    }
    assert ch.State() == st.(spanStyle := ChildStyle(st.spanStyle, name));
    DescendAll(ch, d, n, Dom.Children(d, n));
    ch.SpanStyleSet(prevStyle);
    if name == "p" {
      ch.ParagraphFinish();
    }
  }

  /** `for child in el.children() { descend(ch, child) }`. */
  method DescendAll(ch: CB.ChapterBuilder, d: Dom.Doc, n: nat, cs: seq<nat>)
    requires Dom.ParentsBefore(d) && n < |d|
    requires forall k :: 0 <= k < |cs| ==> n < cs[k] < |d|
    modifies ch
    ensures ch.State() == DescendChildren(old(ch.State()), d, n, cs)
    decreases |d| - n, 0
  {
    ghost var st0 := ch.State();
    for i := 0 to |cs|
      invariant ch.State() == DescendChildren(st0, d, n, cs[..i])
    {
      assert cs[..i + 1][..i] == cs[..i];
      Descend(ch, d, cs[i]);
    }
    assert cs[..|cs|] == cs;
  }

  /** `add_basic`: a block is walked like any node. */
  method AddBasic(ch: CB.ChapterBuilder, d: Dom.Doc, n: nat)
    requires Dom.ParentsBefore(d) && Dom.IsElement(d, n)
    modifies ch
    ensures ch.State() == DescendNode(old(ch.State()), d, n)
  {
    Descend(ch, d, n);
  }

  /**
   * After a node the desired span style is what it was before, except that
   * a separator and a finished paragraph leave no style.
   */
  lemma DescendRestoresStyle(st: BuilderState, d: Dom.Doc, n: nat)
    requires Dom.ParentsBefore(d) && n < |d|
    ensures DescendNode(st, d, n).spanStyle ==
      if d[n].kind.Element? && (d[n].kind.name == "hr" || d[n].kind.name == "p") then NoStyle() else st.spanStyle
  {
  }

  /** A separator keeps the builder's invariant. */
  lemma SeparatorInv(st: BuilderState)
    requires Inv(st)
    ensures Inv(AddSeparatorStep(st))
  {
    ParagraphFinishInv(st);
    AppendMajorInv(ParagraphFinishStep(st), HorizLine);
  }

  /** Walking any node keeps the builder's invariant. */
  lemma {:induction false} DescendInv(st: BuilderState, d: Dom.Doc, n: nat)
    requires Dom.ParentsBefore(d) && n < |d| && Inv(st)
    ensures Inv(DescendNode(st, d, n))
    decreases |d| - n, 1, 0
  {
    match d[n].kind
    case Text(t) => AddTextInv(st, t, false);
    case Element(name, _) =>
      if name == "hr" {
        SeparatorInv(st);
      } else if name == "br" {
        AddTextInv(st, "\n", false);
      } else if name != "script" {
        var cs := Dom.Children(d, n);
        var st0 := st.(spanStyle := ChildStyle(st.spanStyle, name));
        DescendChildrenInv(st0, d, n, cs);
        var restored := DescendChildren(st0, d, n, cs).(spanStyle := st.spanStyle);
        if name == "p" {
          ParagraphFinishInv(restored);
        }
      }
    case DocumentNode =>
    case FragmentNode =>
    case Doctype =>
    case Comment =>
    case ProcessingInstruction =>
  }

  lemma {:induction false} DescendChildrenInv(st: BuilderState, d: Dom.Doc, n: nat, cs: seq<nat>)
    requires Dom.ParentsBefore(d) && n < |d| && Inv(st)
    requires forall k :: 0 <= k < |cs| ==> n < cs[k] < |d|
    ensures Inv(DescendChildren(st, d, n, cs))
    decreases |d| - n, 0, |cs|
  {
    if cs != [] {
      DescendChildrenInv(st, d, n, cs[..|cs| - 1]);
      DescendInv(DescendChildren(st, d, n, cs[..|cs| - 1]), d, cs[|cs| - 1]);
    }
  }

  /** `b` went on from `a`: its completed paragraphs start with those of `a`. */
  predicate Extends(a: BuilderState, b: BuilderState)
  {
    |a.completeP| <= |b.completeP| && b.completeP[..|a.completeP|] == a.completeP
  }

  lemma ExtendsTrans(a: BuilderState, b: BuilderState, c: BuilderState)
    requires Extends(a, b) && Extends(b, c)
    ensures Extends(a, c)
  {
    assert c.completeP[..|a.completeP|] == c.completeP[..|b.completeP|][..|a.completeP|];
  }

  lemma FinishExtends(st: BuilderState)
    ensures Extends(st, ParagraphFinishStep(st)) && Extends(st, AddSeparatorStep(st))
  {
    var f := ParagraphFinishStep(st);
    assert Extends(f, AddSeparatorStep(st)) by {
      assert AddSeparatorStep(st).completeP[..|f.completeP|] == f.completeP;
    }
    ExtendsTrans(st, f, AddSeparatorStep(st));
  }

  /** Completed paragraphs are only ever appended to. */
  lemma {:induction false} DescendExtends(st: BuilderState, d: Dom.Doc, n: nat)
    requires Dom.ParentsBefore(d) && n < |d|
    ensures Extends(st, DescendNode(st, d, n))
    decreases |d| - n, 1, 0
  {
    if d[n].kind.Element? {
      var name := d[n].kind.name;
      if name == "hr" {
        FinishExtends(st);
      } else if Walked(name) {
        var cs := Dom.Children(d, n);
        var st0 := st.(spanStyle := ChildStyle(st.spanStyle, name));
        DescendChildrenExtends(st0, d, n, cs);
        var restored := DescendChildren(st0, d, n, cs).(spanStyle := st.spanStyle);
        if name == "p" {
          FinishExtends(restored);
          ExtendsTrans(st, restored, ParagraphFinishStep(restored));
        }
      }
    }
  }

  lemma {:induction false} DescendChildrenExtends(st: BuilderState, d: Dom.Doc, n: nat, cs: seq<nat>)
    requires Dom.ParentsBefore(d) && n < |d|
    requires forall k :: 0 <= k < |cs| ==> n < cs[k] < |d|
    ensures Extends(st, DescendChildren(st, d, n, cs))
    decreases |d| - n, 0, |cs|
  {
    if cs != [] {
      var mid := DescendChildren(st, d, n, cs[..|cs| - 1]);
      DescendChildrenExtends(st, d, n, cs[..|cs| - 1]);
      DescendExtends(mid, d, cs[|cs| - 1]);
      ExtendsTrans(st, mid, DescendNode(mid, d, cs[|cs| - 1]));
    }
  }

  // ----- horizontal rules -----

  /** The characters `^[\u{2014}\u{2013}=-]+$` accepts. */
  predicate HrChar(c: char)
  {
    c == '—' || c == '–' || c == '=' || c == '-'
  }

  /** The whole (trimmed) text is one or more dash-like characters. */
  predicate HrText(t: string)
  {
    |t| > 0 && forall i :: 0 <= i < |t| ==> HrChar(t[i])
  }

  /** `el.text().next()`: the first text node below the element, in document order. */
  function FirstText(d: Dom.Doc, n: nat): (r: Option<string>)
    requires n < |d|
    ensures r.Some? <==> Dom.TextsUnder(d, n, n + 1) != []
  {
    var ts := Dom.TextsUnder(d, n, n + 1);
    if ts == [] then None
    else
      assert ts[0] in ts;
      Some(d[ts[0]].kind.text)
  }

  /** `is_hr`: an `hr` element, or an element whose first text, trimmed, is all dashes. */
  function IsHr(d: Dom.Doc, n: nat): (r: bool)
    requires Dom.IsElement(d, n)
    ensures d[n].kind.name == "hr" ==> r
    ensures FirstText(d, n).None? ==> (r <==> d[n].kind.name == "hr")
  {
    if d[n].kind.name == "hr" then true
    else match FirstText(d, n)
      case Some(t) => HrText(Strings.Trim(t))
      case None => false
  }

  /** Only the first text node decides: the text after it is not looked at. */
  lemma IsHrFirstTextOnly(d: Dom.Doc, n: nat, e: Dom.Doc)
    requires Dom.IsElement(d, n) && Dom.IsElement(e, n)
    requires d[n].kind.name == e[n].kind.name && FirstText(d, n) == FirstText(e, n)
    ensures IsHr(d, n) == IsHr(e, n)
  {
  }

  /** A non-`hr` element is a rule exactly when its first text, trimmed, is all dashes. */
  lemma IsHrText(d: Dom.Doc, n: nat)
    requires Dom.IsElement(d, n) && d[n].kind.name != "hr"
    ensures IsHr(d, n) <==> FirstText(d, n).Some? && HrText(Strings.Trim(FirstText(d, n).value))
  {
  }

  /** The text-level cases of the source's test: runs of dashes, with or without trailing space. */
  lemma HrTextTests()
    ensures HrText("-") && HrText("--") && HrText("---") && HrText("===")
    ensures HrText("——-") && HrText("——–") && HrText("—-") && HrText("—")
    ensures !HrText("—Great Forest—")
    ensures !HrText("")
  {
    assert !HrChar("—Great Forest—"[1]);
  }

  /** Trailing whitespace is trimmed before the test. */
  lemma HrTrimTest()
    ensures Strings.Trim("——- ") == "——-"
  {
    var s := "——- ";
    assert Strings.TrimStart(s) == s;
    assert s[..3] == "——-";
    assert Strings.TrimEnd(s[..3]) == s[..3];
  }

  // ----- Rules::parse -----

  /** A rule set: the title, the next chapter's link and the body parser (which may fail with a message). */
  datatype RuleSet = RuleSet(
    title: Dom.Doc -> string,
    nextChapter: Dom.Doc -> Option<string>,
    parseBody: (Dom.Doc, BuilderState) -> Result<BuilderState, string>)

  /** What went wrong, under the `invalid chapter: {title}` context. */
  datatype Cause = BodyFailed(msg: string) | FinishFailed(e: ChapterBuilderError)
  datatype ParseError = InvalidChapter(title: string, cause: Cause)

  /** `Rules::parse`: the title is set first, then the body is parsed, the next link found and the chapter finished. */
  function Parse(rules: RuleSet, id: nat, d: Dom.Doc): (r: Result<(Chapter, Option<string>), ParseError>)
    ensures r.Err? ==> r.error.title == rules.title(d)
    ensures r.Ok? ==> r.value.1 == rules.nextChapter(d)
  {
    var title := rules.title(d);
    var st := Initial(id).(title := Some(title));
    match rules.parseBody(d, st)
    case Err(msg) => Err(InvalidChapter(title, BodyFailed(msg)))
    case Ok(body) =>
      match FinishStep(body)
      case Err(e) => Err(InvalidChapter(title, FinishFailed(e)))
      case Ok(c) => Ok((c, rules.nextChapter(d)))
  }

  /** The body parser sees a builder whose title is already set. */
  lemma ParseBodySeesTitle(rules: RuleSet, id: nat, d: Dom.Doc)
    ensures var st := Initial(id).(title := Some(rules.title(d)));
      (rules.parseBody(d, st).Err? ==> Parse(rules, id, d) == Err(InvalidChapter(rules.title(d), BodyFailed(rules.parseBody(d, st).error))))
      && (rules.parseBody(d, st).Ok? ==> (Parse(rules, id, d).Ok? <==> FinishStep(rules.parseBody(d, st).value).Ok?))
  {
  }

  /** A body parser that keeps the title gives a chapter with the rule set's title and the given id. */
  lemma ParseKeepsTitle(rules: RuleSet, id: nat, d: Dom.Doc)
    requires var st := Initial(id).(title := Some(rules.title(d)));
      rules.parseBody(d, st).Ok? ==> rules.parseBody(d, st).value.title == st.title && rules.parseBody(d, st).value.id == id
    ensures Parse(rules, id, d).Ok? ==> Parse(rules, id, d).value.0.title == rules.title(d) && Parse(rules, id, d).value.0.id == id
  {
  }
}
