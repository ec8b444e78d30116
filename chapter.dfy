/**
 * A finished chapter and its two renderings, as generate/src/chapter.rs
 * defines them: inline elements grouped into paragraphs and other major
 * elements, written either as XHTML (plain `Display`) or as Markdown (the
 * alternate `{:#}` form).
 *
 * generate/src/chapter.rs keeps its own three-flag span style (bold, italic,
 * footnote). It is the six-flag style of generate/src/chapter/style.rs with
 * the three ruby flags clear, and every operation of the two files agrees on
 * such styles, so it is modelled as that subset.
 */
module Chapter {
  import opened Wrappers
  import opened Style
  import opened HtmlWriter
  import Strings

  /** The span style of generate/src/chapter.rs:14-19. */
  type SpanStyle3 = s: SpanStyle | !s.ruby && !s.rubyRt && !s.rubyRp witness NoStyle()

  /** The style-flag algebra stays inside the three flags. */
  lemma Closed(a: SpanStyle3, b: SpanStyle3)
    ensures var r := Add(a, b); !r.ruby && !r.rubyRt && !r.rubyRp
    ensures var r := AdditionalNeeded(a, b); !r.ruby && !r.rubyRt && !r.rubyRp
    ensures var r := RemovalsNeeded(a, b); !r.ruby && !r.rubyRt && !r.rubyRp
  {
    assert !Has(Add(a, b), Ruby) && !Has(Add(a, b), RubyRt) && !Has(Add(a, b), RubyRp);
    assert !Has(AdditionalNeeded(a, b), Ruby) && !Has(AdditionalNeeded(a, b), RubyRt);
    assert !Has(AdditionalNeeded(a, b), RubyRp) && !Has(RemovalsNeeded(a, b), Ruby);
    assert !Has(RemovalsNeeded(a, b), RubyRt) && !Has(RemovalsNeeded(a, b), RubyRp);
  }

  /** `InlineElement` (generate/src/chapter.rs:226-232): `Text` borrows, `TextOwned` owns. */
  datatype InlineElement =
    | EnableStyles(style: SpanStyle3)
    | DisableStyles(style: SpanStyle3)
    | Text(text: string)
    | TextOwned(owned: string)
    | LineFeed

  /** A style transition with no flag, which the XHTML form refuses. */
  predicate EmptyTransition(e: InlineElement)
  {
    (e.EnableStyles? || e.DisableStyles?) && IsNone(e.style)
  }

  /** The text of a text element (`Text` or `TextOwned`). */
  function TextOf(e: InlineElement): string
    requires e.Text? || e.TextOwned?
  {
    if e.Text? then e.text else e.owned
  }

  /** A resolved image is written by its own `Display`, which is not part of this model; it carries both forms. */
  datatype MajorElement =
    | Paragraph(pstyle: ParagraphStyle, elms: seq<InlineElement>)
    | Image(id: nat)
    | ImageResolved(md: string, xml: string)
    | SceneSep(scene: string)
    | HorizLine

  datatype Chapter = Chapter(id: nat, title: string, p: seq<MajorElement>)

  /** `InlineElement::size`: 8 for a style change, the byte length for text, 6 for a line feed. */
  function InlineSize(e: InlineElement): (r: nat)
    ensures (e.EnableStyles? || e.DisableStyles?) ==> r == 8
    ensures e.LineFeed? ==> r == 6
    ensures (e.Text? || e.TextOwned?) ==> r == Strings.Utf8Len(TextOf(e))
  {
    match e
    case EnableStyles(_) => 8
    case DisableStyles(_) => 8
    case Text(t) => Strings.Utf8Len(t)
    case LineFeed => 6
    case TextOwned(t) => Strings.Utf8Len(t)
  }

  function SumInline(elms: seq<InlineElement>): nat
  {
    if elms == [] then 0 else InlineSize(elms[0]) + SumInline(elms[1..])
  }

  /** The text of a paragraph's elements, joined, without its style changes and line feeds. */
  function PlainText(elms: seq<InlineElement>): string
  {
    if elms == [] then ""
    else (if elms[0].Text? || elms[0].TextOwned? then TextOf(elms[0]) else "") + PlainText(elms[1..])
  }

  /** The number of style changes among a paragraph's elements. */
  function StyleChanges(elms: seq<InlineElement>): nat
  {
    if elms == [] then 0
    else (if elms[0].EnableStyles? || elms[0].DisableStyles? then 1 else 0) + StyleChanges(elms[1..])
  }

  /** The number of line feeds among a paragraph's elements. */
  function LineFeeds(elms: seq<InlineElement>): nat
  {
    if elms == [] then 0 else (if elms[0].LineFeed? then 1 else 0) + LineFeeds(elms[1..])
  }

  /**
   * The inline size of a paragraph is 8 bytes per style change, 6 per line
   * feed, and the UTF-8 length of all its text taken together.
   */
  lemma {:induction false} SumInlineBreakdown(elms: seq<InlineElement>)
    ensures SumInline(elms) == 8 * StyleChanges(elms) + 6 * LineFeeds(elms) + Strings.Utf8Len(PlainText(elms))
  {
    if elms != [] {
      SumInlineBreakdown(elms[1..]);
      var head := if elms[0].Text? || elms[0].TextOwned? then TextOf(elms[0]) else "";
      Strings.Utf8LenAppend(head, PlainText(elms[1..]));
      if !(elms[0].Text? || elms[0].TextOwned?) {
        assert Strings.Utf8Len(head) == 0;
      }
    }
  }

  /** `Chapter::size`: paragraphs only, each the sum of its elements plus 8, and 64 for the chapter. */
  function SizeOf(p: seq<MajorElement>): nat
  {
    if p == [] then 0
    else (if p[0].Paragraph? then SumInline(p[0].elms) + 8 else 0) + SizeOf(p[1..])
  }

  function Size(c: Chapter): (r: nat)
    ensures r >= 64
  {
    SizeOf(c.p) + 64
  }

  lemma {:induction false} SizeOfAppend(a: seq<MajorElement>, b: seq<MajorElement>)
    ensures SizeOf(a + b) == SizeOf(a) + SizeOf(b)
  {
    if a == [] {
      assert a + b == b;
    } else {
      assert (a + b)[0] == a[0];
      assert (a + b)[1..] == a[1..] + b;
      SizeOfAppend(a[1..], b);
    }
  }

  /** Only paragraphs count: a chapter without paragraphs has the base size whatever else it holds. */
  lemma {:induction false} SizeIgnoresOthers(p: seq<MajorElement>)
    requires forall i :: 0 <= i < |p| ==> !p[i].Paragraph?
    ensures SizeOf(p) == 0
  {
    if p != [] {
      assert forall i :: 0 <= i < |p[1..]| ==> p[1..][i] == p[i + 1];
      SizeIgnoresOthers(p[1..]);
    }
  }

  /** A paragraph adds its element sizes plus 8. */
  lemma SizeParagraph(p: seq<MajorElement>, st: ParagraphStyle, elms: seq<InlineElement>)
    ensures SizeOf(p + [Paragraph(st, elms)]) == SizeOf(p) + SumInline(elms) + 8
  {
    SizeOfAppend(p, [Paragraph(st, elms)]);
    assert [Paragraph(st, elms)][1..] == [];
  }

  function Concat(items: seq<string>): string
  {
    Join(items, "")
  }

  /** The Markdown emphasis marker of a style: `***`, `**`, `*` or nothing; only bold and italic count. */
  function MdMarker(s: SpanStyle3): (r: string)
    ensures r == (if s.bold then "**" else "") + (if s.italic then "*" else "")
  {
    match (s.bold, s.italic)
    case (true, true) => "***"
    case (true, false) => "**"
    case (false, true) => "*"
    case (false, false) => ""
  }

  /** Alternate `Display` of an inline element (generate/src/chapter.rs:258-278). */
  function InlineMd(e: InlineElement): (r: string)
    ensures (e.Text? || e.TextOwned?) ==> r == Escape(Md, TextOf(e))
    ensures e.LineFeed? ==> r == " "
    ensures (e.EnableStyles? || e.DisableStyles?) ==> r == MdMarker(e.style)
  {
    match e
    case EnableStyles(s) => MdMarker(s)
    case DisableStyles(s) => MdMarker(s)
    case Text(t) => Escape(Md, t)
    case TextOwned(t) => Escape(Md, t)
    case LineFeed => " "
  }

  /** Text written in the alternate form is recovered by unescaping it. */
  lemma InlineMdText(e: InlineElement)
    requires e.Text? || e.TextOwned?
    ensures Unescape(Md, InlineMd(e)) == TextOf(e)
  {
    UnescapeEscape(Md, TextOf(e));
  }

  function Opens(els: seq<SpanStyleEl>): string
  {
    if els == [] then "" else Open(els[0]) + Opens(els[1..])
  }

  function Closes(els: seq<SpanStyleEl>): string
  {
    if els == [] then "" else Closes(els[1..]) + Close(els[0])
  }

  /**
   * Plain `Display` of an inline element (generate/src/chapter.rs:279-302):
   * the set elements opened in `el_iter` order or closed in reverse, text
   * escaped, a line feed as a break element. An empty transition is
   * `unreachable!`.
   */
  function InlineXml(e: InlineElement): (r: string)
    requires !EmptyTransition(e)
    ensures e.EnableStyles? ==> r == Opens(ElIter(e.style))
    ensures e.DisableStyles? ==> r == Closes(ElIter(e.style))
    ensures (e.Text? || e.TextOwned?) ==> r == Escape(Body, TextOf(e))
    ensures e.LineFeed? ==> r == "<br />\n"
  {
    match e
    case EnableStyles(s) => Opens(ElIter(s))
    case DisableStyles(s) => Closes(ElIter(s))
    case Text(t) => Escape(Body, t)
    case TextOwned(t) => Escape(Body, t)
    case LineFeed => "<br />\n"
  }

  /** Text written in the XHTML form is recovered by decoding its entities. */
  lemma InlineXmlText(e: InlineElement)
    requires e.Text? || e.TextOwned?
    ensures Unescape(Body, InlineXml(e)) == TextOf(e)
  {
    UnescapeEscape(Body, TextOf(e));
  }

  /** Text cannot open or close a tag in the XHTML form. */
  lemma InlineXmlTextSafe(e: InlineElement)
    requires e.Text? || e.TextOwned?
    ensures forall i :: 0 <= i < |InlineXml(e)| ==> InlineXml(e)[i] != '<' && InlineXml(e)[i] != '>'
  {
    NoRawAngles(Body, TextOf(e));
  }

  function MapInlineMd(elms: seq<InlineElement>): (r: seq<string>)
    ensures |r| == |elms| && forall i :: 0 <= i < |elms| ==> r[i] == InlineMd(elms[i])
  {
    if elms == [] then [] else [InlineMd(elms[0])] + MapInlineMd(elms[1..])
  }

  predicate NoEmptyTransition(elms: seq<InlineElement>)
  {
    forall i :: 0 <= i < |elms| ==> !EmptyTransition(elms[i])
  }

  function MapInlineXml(elms: seq<InlineElement>): (r: seq<string>)
    requires NoEmptyTransition(elms)
    ensures |r| == |elms| && forall i :: 0 <= i < |elms| ==> r[i] == InlineXml(elms[i])
  {
    if elms == [] then [] else [InlineXml(elms[0])] + MapInlineXml(elms[1..])
  }

  /** A major element the renderers accept: no unresolved image (`todo!`), no empty transition. */
  predicate Renderable(m: MajorElement)
  {
    !m.Image? && (m.Paragraph? ==> NoEmptyTransition(m.elms))
  }

  /** Alternate `Display` of a major element (generate/src/chapter.rs:188-214). */
  function MajorMd(m: MajorElement): (r: string)
    requires !m.Image?
    ensures m.Paragraph? ==> r == (if m.pstyle.mode == BlockQuote then "> " else "") + Concat(MapInlineMd(m.elms))
    ensures m.HorizLine? ==> r == "---"
    ensures m.SceneSep? && m.scene == [] ==> r == "### ◇◇\n"
    ensures m.SceneSep? && m.scene != [] ==> r == "### ◇ " + Escape(Md, m.scene) + " ◇\n"
  {
    match m
    case Paragraph(st, elms) =>
      (match st.mode case Normal => "" case BlockQuote => "> ") + Concat(MapInlineMd(elms))
    case ImageResolved(md, _) => md
    case HorizLine => "---"
    case SceneSep(s) =>
      if s == [] then "### ◇◇\n" else "### ◇ " + Escape(Md, s) + " ◇\n"
  }

  /** Plain `Display` of a major element (generate/src/chapter.rs:197-218). */
  function MajorXml(m: MajorElement): (r: string)
    requires Renderable(m)
    ensures m.Paragraph? && m.pstyle.mode == Normal ==> r == TagSurround("p", Concat(MapInlineXml(m.elms)))
    ensures m.Paragraph? && m.pstyle.mode == BlockQuote ==> r == TagSurround("blockquote", Concat(MapInlineXml(m.elms)))
    ensures m.HorizLine? ==> r == "<hr />"
    ensures m.SceneSep? ==> r == Surround("<h3 class=\"scene-sep\">", "</h3>", "◇ " + Escape(Body, m.scene) + " ◇")
  {
    match m
    case Paragraph(st, elms) =>
      TagSurround(match st.mode case Normal => "p" case BlockQuote => "blockquote", Concat(MapInlineXml(elms)))
    case ImageResolved(_, xml) => xml
    case HorizLine => "<hr />"
    case SceneSep(s) =>
      Surround("<h3 class=\"scene-sep\">", "</h3>", "◇ " + Escape(Body, s) + " ◇")
  }

  function MapMajorMd(p: seq<MajorElement>): (r: seq<string>)
    requires forall i :: 0 <= i < |p| ==> !p[i].Image?
    ensures |r| == |p| && forall i :: 0 <= i < |p| ==> r[i] == MajorMd(p[i])
  {
    if p == [] then [] else [MajorMd(p[0])] + MapMajorMd(p[1..])
  }

  function MapMajorXml(p: seq<MajorElement>): (r: seq<string>)
    requires forall i :: 0 <= i < |p| ==> Renderable(p[i])
    ensures |r| == |p| && forall i :: 0 <= i < |p| ==> r[i] == MajorXml(p[i])
  {
    if p == [] then [] else [MajorXml(p[0])] + MapMajorXml(p[1..])
  }

  /** Alternate `Display` of a chapter: `# title`, a blank line, the elements joined by blank lines. */
  function ChapterMd(c: Chapter): string
    requires forall i :: 0 <= i < |c.p| ==> !c.p[i].Image?
  {
    "# " + Escape(Md, c.title) + "\n" + "\n" + Join(MapMajorMd(c.p), "\n\n")
  }

  /** Plain `Display` of a chapter: the escaped `h2` title on its own line, the elements one per line. */
  function ChapterXml(c: Chapter): string
    requires forall i :: 0 <= i < |c.p| ==> Renderable(c.p[i])
  {
    TagSurround("h2", Escape(Body, c.title)) + "\n" + Join(MapMajorXml(c.p), "\n")
  }

  /** A named scene separator carries its name in the Markdown form, recovered by unescaping. */
  lemma MajorMdSceneSep(s: string)
    ensures s != [] ==> var r := MajorMd(SceneSep(s)); var n := |Escape(Md, s)|;
      |r| == n + 9 && r[..6] == "### ◇ " && Unescape(Md, r[6..6 + n]) == s && r[6 + n..] == " ◇\n"
  {
    if s != [] {
      var em := Escape(Md, s);
      var r := MajorMd(SceneSep(s));
      assert r == "### ◇ " + em + " ◇\n";
      assert r[6..6 + |em|] == em;
      UnescapeEscape(Md, s);
    }
  }

  /** A block-quote paragraph is marked `> ` in Markdown; after the marker come the elements' forms. */
  lemma MajorMdParagraph(st: ParagraphStyle, elms: seq<InlineElement>)
    ensures var r := MajorMd(Paragraph(st, elms)); var body := Concat(MapInlineMd(elms));
      (st.mode == BlockQuote ==> |r| == |body| + 2 && r[..2] == "> " && r[2..] == body) &&
      (st.mode == Normal ==> r == body)
  {
  }

  /** A scene separator's name is recovered from its XHTML heading, and cannot open or close a tag there. */
  lemma MajorXmlSceneSep(s: string)
    ensures var r := MajorXml(SceneSep(s)); var n := |Escape(Body, s)|;
      |r| == n + 31 && r[..24] == "<h3 class=\"scene-sep\">◇ " && r[24 + n..] == " ◇</h3>" &&
      Unescape(Body, r[24..24 + n]) == s &&
      forall i :: 24 <= i < 24 + n ==> r[i] != '<' && r[i] != '>'
  {
    var eb := Escape(Body, s);
    var r := MajorXml(SceneSep(s));
    assert r == "<h3 class=\"scene-sep\">◇ " + eb + " ◇</h3>";
    assert r[24..24 + |eb|] == eb;
    UnescapeEscape(Body, s);
    NoRawAngles(Body, s);
  }

  /** A paragraph's XHTML is its elements' forms between `<p>` and `</p>`, or block-quote tags. */
  lemma MajorXmlParagraph(st: ParagraphStyle, elms: seq<InlineElement>)
    requires NoEmptyTransition(elms)
    ensures var r := MajorXml(Paragraph(st, elms)); var body := Concat(MapInlineXml(elms));
      (st.mode == Normal ==> |r| == |body| + 7 && r[..3] == "<p>" && r[3..3 + |body|] == body && r[3 + |body|..] == "</p>") &&
      (st.mode == BlockQuote ==> |r| == |body| + 25 && r[..12] == "<blockquote>" && r[12..12 + |body|] == body && r[12 + |body|..] == "</blockquote>")
  {
    var body := Concat(MapInlineXml(elms));
    if st.mode == Normal {
      assert TagOpen("p") == "<p>" && TagClose("p") == "</p>";
    } else {
      assert TagOpen("blockquote") == "<blockquote>" && TagClose("blockquote") == "</blockquote>";
    }
  }

  /** The Markdown form of a chapter: `# `, the title recovered by unescaping, a blank line, then the joined elements. */
  lemma ChapterMdParts(c: Chapter)
    requires forall i :: 0 <= i < |c.p| ==> !c.p[i].Image?
    ensures var r := ChapterMd(c); var n := |Escape(Md, c.title)|;
      |r| >= n + 4 && r[..2] == "# " && Unescape(Md, r[2..2 + n]) == c.title &&
      r[2 + n..4 + n] == "\n\n" && r[4 + n..] == Join(MapMajorMd(c.p), "\n\n")
  {
    var e := Escape(Md, c.title);
    var r := ChapterMd(c);
    assert r == "# " + e + "\n\n" + Join(MapMajorMd(c.p), "\n\n");
    assert r[2..2 + |e|] == e;
    UnescapeEscape(Md, c.title);
  }

  /** The XHTML form of a chapter: the `h2` line whose text unescapes to the title, then the joined elements. */
  lemma ChapterXmlParts(c: Chapter)
    requires forall i :: 0 <= i < |c.p| ==> Renderable(c.p[i])
    ensures var r := ChapterXml(c); var n := |Escape(Body, c.title)|;
      |r| >= n + 10 && r[..4] == "<h2>" && Unescape(Body, r[4..4 + n]) == c.title &&
      r[4 + n..10 + n] == "</h2>\n" && r[10 + n..] == Join(MapMajorXml(c.p), "\n")
  {
    var e := Escape(Body, c.title);
    var r := ChapterXml(c);
    assert TagSurround("h2", e) == "<h2>" + e + "</h2>";
    assert r == "<h2>" + e + "</h2>\n" + Join(MapMajorXml(c.p), "\n");
    assert r[4..4 + |e|] == e;
    UnescapeEscape(Body, c.title);
  }

  /** `Chapter::id`: the anchor `chapter-N`; distinct ids give distinct anchors. */
  function IdAnchor(id: nat): (r: string)
    ensures |r| > 8 && r[..8] == "chapter-" && r[8..] == Strings.NatToString(id)
    ensures Strings.ParseNat(Strings.NatToString(id)) == id
  {
    Strings.ParseNatToString(id);
    "chapter-" + Strings.NatToString(id)
  }

  /** `ChapterBuilderError`: which of the three checks of `finish` failed. */
  datatype ChapterBuilderError = ChapterBuilderError(empty: bool, missingTitle: bool, unresolvedResources: bool)

  function Any(e: ChapterBuilderError): bool
  {
    e.missingTitle || e.empty || e.unresolvedResources
  }

  const BUG_NOTICE := "Unknown chapter error (this is a bug)"
  const HEADER := "Chapter invalid:"
  const NO_CONTENT := "No content"
  const MISSING_TITLE := "Missing title"
  const UNRESOLVED := "Unresolved resources"

  /** One tab-indented line of the error text, written only when its check failed. */
  function ErrorLine(failed: bool, text: string): string
  {
    if failed then "\t" + text + "\n" else ""
  }

  /** `Display` for the error: a header, then one tab-indented line per failed check. */
  function ErrorDisplay(e: ChapterBuilderError): string
  {
    if !Any(e) then BUG_NOTICE + "\n"
    else
      HEADER + "\n" + ErrorLine(e.empty, NO_CONTENT) + ErrorLine(e.missingTitle, MISSING_TITLE)
      + ErrorLine(e.unresolvedResources, UNRESOLVED)
  }

  function Flag(b: bool): nat { if b then 1 else 0 }

  /** The number of failed checks. */
  function Failed(e: ChapterBuilderError): nat
  {
    Flag(e.empty) + Flag(e.missingTitle) + Flag(e.unresolvedResources)
  }

  /** `c` occurs `n` times in `s`. */
  predicate Counts(s: string, c: char, n: nat)
  {
    multiset(s)[c] == n
  }

  /** `s` holds neither a tab nor a newline. */
  predicate Plain(s: string)
  {
    '\t' !in s && '\n' !in s
  }

  /** No message text holds a tab or a newline (one lemma per text keeps each check small). */
  lemma BugNoticePlain() ensures Plain(BUG_NOTICE) {}
  lemma HeaderPlain() ensures Plain(HEADER) {}
  lemma NoContentPlain() ensures Plain(NO_CONTENT) {}
  lemma MissingTitlePlain() ensures Plain(MISSING_TITLE) {}
  lemma UnresolvedPlain() ensures Plain(UNRESOLVED) {}

  lemma TextsPlain()
    ensures Plain(BUG_NOTICE) && Plain(HEADER) && Plain(NO_CONTENT) && Plain(MISSING_TITLE) && Plain(UNRESOLVED)
  {
    BugNoticePlain();
    HeaderPlain();
    NoContentPlain();
    MissingTitlePlain();
    UnresolvedPlain();
  }

  /** A line of text without tab or newline, ended by a newline: no tab, one newline. */
  lemma PlainLine(text: string)
    requires Plain(text)
    ensures Counts(text + "\n", '\t', 0) && Counts(text + "\n", '\n', 1)
  {
    assert multiset(text + "\n") == multiset(text) + multiset("\n");
  }

  /** An error line holds one tab and one newline when written, and nothing otherwise. */
  lemma ErrorLineCounts(b: bool, text: string)
    requires Plain(text)
    ensures Counts(ErrorLine(b, text), '\t', Flag(b)) && Counts(ErrorLine(b, text), '\n', Flag(b))
  {
    if b {
      assert multiset("\t" + text + "\n") == multiset("\t") + multiset(text) + multiset("\n");
    }
  }

  /** A header line followed by three optional lines: its prefix and its tab and newline counts. */
  lemma HeaderAndLines(h: string, l1: string, l2: string, l3: string, n1: nat, n2: nat, n3: nat)
    requires Counts(h, '\t', 0) && Counts(h, '\n', 1)
    requires Counts(l1, '\t', n1) && Counts(l2, '\t', n2) && Counts(l3, '\t', n3)
    requires Counts(l1, '\n', n1) && Counts(l2, '\n', n2) && Counts(l3, '\n', n3)
    ensures var r := h + l1 + l2 + l3;
      Strings.StartsWith(r, h) && Counts(r, '\t', n1 + n2 + n3) && Counts(r, '\n', 1 + n1 + n2 + n3)
  {
    var r := h + l1 + l2 + l3;
    assert multiset(r) == multiset(h) + multiset(l1) + multiset(l2) + multiset(l3);
    assert r == h + (l1 + l2 + l3);
    assert r[..|h|] == h;
  }

  /** With some failed check the text starts with the header line. */
  lemma ErrorDisplaySomeHeader(e: ChapterBuilderError)
    requires Any(e)
    ensures Strings.StartsWith(ErrorDisplay(e), HEADER + "\n")
  {
    TextsPlain();
    PlainLine(HEADER);
    ErrorLineCounts(e.empty, NO_CONTENT);
    ErrorLineCounts(e.missingTitle, MISSING_TITLE);
    ErrorLineCounts(e.unresolvedResources, UNRESOLVED);
    HeaderAndLines(HEADER + "\n", ErrorLine(e.empty, NO_CONTENT), ErrorLine(e.missingTitle, MISSING_TITLE),
      ErrorLine(e.unresolvedResources, UNRESOLVED), Flag(e.empty), Flag(e.missingTitle), Flag(e.unresolvedResources));
  }

  /** With some failed check there is one tab per failed check. */
  lemma ErrorDisplaySomeTabs(e: ChapterBuilderError)
    requires Any(e)
    ensures Counts(ErrorDisplay(e), '\t', Failed(e))
  {
    TextsPlain();
    PlainLine(HEADER);
    ErrorLineCounts(e.empty, NO_CONTENT);
    ErrorLineCounts(e.missingTitle, MISSING_TITLE);
    ErrorLineCounts(e.unresolvedResources, UNRESOLVED);
    HeaderAndLines(HEADER + "\n", ErrorLine(e.empty, NO_CONTENT), ErrorLine(e.missingTitle, MISSING_TITLE),
      ErrorLine(e.unresolvedResources, UNRESOLVED), Flag(e.empty), Flag(e.missingTitle), Flag(e.unresolvedResources));
  }

  /** With some failed check there is one line per failed check after the header. */
  lemma ErrorDisplaySomeNewlines(e: ChapterBuilderError)
    requires Any(e)
    ensures Counts(ErrorDisplay(e), '\n', 1 + Failed(e))
  {
    TextsPlain();
    PlainLine(HEADER);
    ErrorLineCounts(e.empty, NO_CONTENT);
    ErrorLineCounts(e.missingTitle, MISSING_TITLE);
    ErrorLineCounts(e.unresolvedResources, UNRESOLVED);
    HeaderAndLines(HEADER + "\n", ErrorLine(e.empty, NO_CONTENT), ErrorLine(e.missingTitle, MISSING_TITLE),
      ErrorLine(e.unresolvedResources, UNRESOLVED), Flag(e.empty), Flag(e.missingTitle), Flag(e.unresolvedResources));
  }

  /** With no failed check the text is the bug notice, without the header. */
  lemma ErrorDisplayNoneHeader(e: ChapterBuilderError)
    requires !Any(e)
    ensures !Strings.StartsWith(ErrorDisplay(e), HEADER + "\n")
  {
    var r := ErrorDisplay(e);
    assert r[0] == 'U' && (HEADER + "\n")[0] == 'C';
    assert |HEADER + "\n"| <= |r| ==> r[..|HEADER + "\n"|][0] == r[0];
  }

  /** With no failed check the text is one line without a tab. */
  lemma ErrorDisplayNoneLines(e: ChapterBuilderError)
    requires !Any(e)
    ensures Counts(ErrorDisplay(e), '\t', 0) && Counts(ErrorDisplay(e), '\n', 1)
  {
    TextsPlain();
    PlainLine(BUG_NOTICE);
  }

  /** The error text has the `Chapter invalid:` header exactly when some check failed. */
  lemma ErrorDisplayHeader(e: ChapterBuilderError)
    ensures Any(e) <==> Strings.StartsWith(ErrorDisplay(e), HEADER + "\n")
  {
    if Any(e) {
      ErrorDisplaySomeHeader(e);
    } else {
      ErrorDisplayNoneHeader(e);
    }
  }

  /** The error text holds one tab per failed check: each failed check has its own indented line. */
  lemma ErrorDisplayTabs(e: ChapterBuilderError)
    ensures Counts(ErrorDisplay(e), '\t', Failed(e))
  {
    if Any(e) {
      ErrorDisplaySomeTabs(e);
    } else {
      ErrorDisplayNoneLines(e);
    }
  }

  /** The error text holds one more line than there are failed checks: the first line, then one per failed check. */
  lemma ErrorDisplayNewlines(e: ChapterBuilderError)
    ensures Counts(ErrorDisplay(e), '\n', 1 + Failed(e))
  {
    if Any(e) {
      ErrorDisplaySomeNewlines(e);
    } else {
      ErrorDisplayNoneLines(e);
    }
  }
}
