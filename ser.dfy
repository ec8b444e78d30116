/**
 * The two chapter serialisers of generate/src/chapter/ser/md.rs and
 * generate/src/chapter/ser/xml.rs. They see an inline element type that has
 * one variant more than generate/src/chapter.rs declares, an external link;
 * it is modelled as the inline element of `Chapter` or a link. A resolved
 * image is the `Image` of generate/src/image.rs, written by its own two forms.
 */
module Ser {
  import opened Wrappers
  import opened Style
  import opened HtmlWriter
  import C = Chapter
  import N = Nesting
  import Img = Image

  datatype Link = Link(href: string, text: string)

  /** The inline elements the serialisers match on. */
  datatype SerInline = Inline(e: C.InlineElement) | ExternalLink(link: Link)

  datatype SerMajor =
    | Paragraph(pstyle: ParagraphStyle, elms: seq<SerInline>)
    | Image(id: nat)
    | ImageResolved(img: Img.Image)
    | SceneSep(scene: string)
    | HorizLine

  datatype SerChapter = SerChapter(id: nat, title: string, p: seq<SerMajor>)

  /** `MdInline`: the Markdown form of an inline element. */
  function MdInline(e: SerInline): (r: string)
    ensures e.Inline? ==> r == C.InlineMd(e.e)
    ensures e.ExternalLink? ==> r == "[" + Escape(Md, e.link.text) + "](" + e.link.href + ")"
  {
    match e
    case Inline(x) => C.InlineMd(x)
    case ExternalLink(l) => "[" + Escape(Md, l.text) + "](" + l.href + ")"
  }

  /**
   * Plain text written by the serialisers reads back as the same text in both
   * forms, and carries no raw angle bracket into the XHTML.
   */
  lemma SerInlineText(x: C.InlineElement)
    requires x.Text? || x.TextOwned?
    ensures Unescape(Md, MdInline(Inline(x))) == C.TextOf(x)
    ensures Unescape(Body, XmlInline(Inline(x))) == C.TextOf(x)
    ensures var r := XmlInline(Inline(x)); forall i :: 0 <= i < |r| ==> r[i] != '<' && r[i] != '>'
  {
    C.InlineMdText(x);
    C.InlineXmlText(x);
    C.InlineXmlTextSafe(x);
  }

  /**
   * `XmlInline`: the XHTML form of an inline element. An empty style
   * transition is only a debug assertion here; it writes nothing.
   */
  function XmlInline(e: SerInline): (r: string)
    ensures e.Inline? && e.e.EnableStyles? ==> r == C.Opens(ElIter(e.e.style))
    ensures e.Inline? && e.e.DisableStyles? ==> r == C.Closes(ElIter(e.e.style))
    ensures e.Inline? && !C.EmptyTransition(e.e) ==> r == C.InlineXml(e.e)
    ensures e.ExternalLink? ==> r == "<a href=\"" + e.link.href + "\">" + e.link.text + "</a>"
  {
    match e
    case Inline(x) =>
      if C.EmptyTransition(x) then
        ElIterEmpty(x.style);
        ""
      else C.InlineXml(x)
    case ExternalLink(l) => "<a href=\"" + l.href + "\">" + l.text + "</a>"
  }

  /** `MdMajor`; an unresolved image is `todo!`. */
  function MdMajor(m: SerMajor): (r: string)
    requires !m.Image?
  {
    match m
    case Paragraph(st, elms) =>
      (match st.mode case Normal => "" case BlockQuote => "> ") + C.Concat(Map(elms, MdInline))
    case ImageResolved(i) => Img.DisplayMd(i)
    case HorizLine => "---"
    case SceneSep(s) =>
      if s == [] then "### ◇◇\n" else "### ◇ " + Escape(Md, s) + " ◇\n"
  }

  /** `XmlMajor`; an unresolved image is `todo!`. */
  function XmlMajor(m: SerMajor): (r: string)
    requires !m.Image?
  {
    match m
    case Paragraph(st, elms) =>
      TagSurround(match st.mode case Normal => "p" case BlockQuote => "blockquote", C.Concat(Map(elms, XmlInline)))
    case ImageResolved(i) => Img.DisplayXml(i)
    case HorizLine => "<hr />"
    case SceneSep(s) =>
      Surround("<h3 class=\"scene-sep\">", "</h3>", "◇ " + Escape(Body, s) + " ◇")
  }

  predicate Resolved(p: seq<SerMajor>)
  {
    forall i :: 0 <= i < |p| ==> !p[i].Image?
  }

  function MapMajorMd(p: seq<SerMajor>): (r: seq<string>)
    requires Resolved(p)
    ensures |r| == |p| && forall i :: 0 <= i < |p| ==> r[i] == MdMajor(p[i])
  {
    if p == [] then [] else [MdMajor(p[0])] + MapMajorMd(p[1..])
  }

  function MapMajorXml(p: seq<SerMajor>): (r: seq<string>)
    requires Resolved(p)
    ensures |r| == |p| && forall i :: 0 <= i < |p| ==> r[i] == XmlMajor(p[i])
  {
    if p == [] then [] else [XmlMajor(p[0])] + MapMajorXml(p[1..])
  }

  /** `MdChapter`: the escaped title as a first-level heading, a blank line, the major elements separated by blank lines. */
  function MdChapter(c: SerChapter): (r: string)
    requires Resolved(c.p)
  {
    "# " + Escape(Md, c.title) + "\n" + "\n" + Join(MapMajorMd(c.p), "\n\n")
  }

  const SECTION_OPEN: string := "<section epub:type=\"chapter\" id=\""

  /** `XmlChapter`: the section start line, the `h2` title line, the major elements one per line, the section end. */
  function XmlChapter(c: SerChapter): (r: string)
    requires Resolved(c.p)
  {
    Section(C.IdAnchor(c.id), TagSurround("h2", Escape(Body, c.title)), Join(MapMajorXml(c.p), "\n"))
  }

  /** The section text around an anchor, a title line and a body. */
  function Section(a: string, t: string, j: string): (r: string)
    ensures |r| == |SECTION_OPEN| + |a| + |t| + |j| + 15
    ensures r[..|SECTION_OPEN|] == SECTION_OPEN && r[|SECTION_OPEN|..|SECTION_OPEN| + |a|] == a
    ensures r[|SECTION_OPEN| + |a| + 3..|SECTION_OPEN| + |a| + 3 + |t|] == t
    ensures r[|r| - 10..] == "</section>"
  {
    SectionHead(a, t, j);
    SectionTail(a, t, j);
    SECTION_OPEN + (a + ("\">\n" + (t + ("\n" + (j + "\n</section>")))))
  }

  /** A style change is written with the same Markdown token when it opens as when it closes, and with none for a style without bold and italic. */
  lemma MdStyleTokens(s: C.SpanStyle3)
    ensures MdInline(Inline(C.EnableStyles(s))) == MdInline(Inline(C.DisableStyles(s)))
    ensures MdInline(Inline(C.EnableStyles(s))) == "" <==> !s.bold && !s.italic
    ensures s.bold && s.italic ==> MdInline(Inline(C.EnableStyles(s))) == "***"
  {
  }

  /** The text of a link is recovered from its Markdown form, and the target follows it unchanged. */
  lemma MdLinkParts(l: Link)
    ensures var r := MdInline(ExternalLink(l));
      var n := |Escape(Md, l.text)|;
      |r| == n + |l.href| + 4 && r[0] == '[' && Unescape(Md, r[1..1 + n]) == l.text &&
      r[1 + n..3 + n] == "](" && r[3 + n..|r| - 1] == l.href && r[|r| - 1] == ')'
  {
    var e := Escape(Md, l.text);
    var r := MdInline(ExternalLink(l));
    assert r == "[" + e + "](" + l.href + ")";
    assert r[1..1 + |e|] == e;
    UnescapeEscape(Md, l.text);
  }

  /** The XHTML form writes a link's target and text exactly as given. */
  lemma XmlLinkVerbatim(l: Link)
    ensures var r := XmlInline(ExternalLink(l));
      var k := 9 + |l.href| + 2;
      |r| == k + |l.text| + 4 && r[9..9 + |l.href|] == l.href && r[k..k + |l.text|] == l.text
  {
  }

  /** Both forms turn a line feed into a single separator: a space, or a break element. */
  lemma LineFeedForms()
    ensures MdInline(Inline(C.LineFeed)) == " "
    ensures XmlInline(Inline(C.LineFeed)) == "<br />\n"
  {
  }

  lemma {:induction false} RunOpenClose(base: seq<SpanStyleEl>, els: seq<SpanStyleEl>)
    ensures N.Run(base, N.OpenEvents(els) + N.CloseEvents(els)) == Some(base)
    decreases |els|
  {
    if els != [] {
      var t := els[1..];
      var o := N.OpenEvents(t);
      var c := N.CloseEvents(t);
      assert N.OpenEvents(els) + N.CloseEvents(els) == [N.OpenTag(els[0])] + ((o + c) + [N.CloseTag(els[0])]);
      N.RunOpen(base, els[0], (o + c) + [N.CloseTag(els[0])]);
      N.RunAppend(base + [els[0]], o + c, [N.CloseTag(els[0])]);
      RunOpenClose(base + [els[0]], t);
      N.RunClose(base, els[0], []);
    }
  }

  /**
   * Enabling a style and then disabling the same style writes the open tags
   * in `el_iter` order and the close tags in reverse, so the tags nest and
   * leave whatever was open before as it was.
   */
  lemma XmlEnableDisableNest(s: C.SpanStyle3, stack: seq<SpanStyleEl>)
    ensures N.TagsXml(N.OpenEvents(ElIter(s))) == XmlInline(Inline(C.EnableStyles(s)))
    ensures N.TagsXml(N.CloseEvents(ElIter(s))) == XmlInline(Inline(C.DisableStyles(s)))
    ensures N.Run(stack, N.OpenEvents(ElIter(s)) + N.CloseEvents(ElIter(s))) == Some(stack)
  {
    N.OpensXml(ElIter(s));
    N.ClosesXml(ElIter(s));
    RunOpenClose(stack, ElIter(s));
  }

  /** A paragraph's XHTML is its elements' forms, concatenated, between `<p>` and `</p>` (or the block-quote tags). */
  lemma XmlParagraphWrapped(st: ParagraphStyle, elms: seq<SerInline>)
    ensures var r := XmlMajor(Paragraph(st, elms));
      var tag := if st.mode == BlockQuote then "blockquote" else "p";
      var body := C.Concat(Map(elms, XmlInline));
      r[..|tag| + 2] == "<" + tag + ">" && r[|tag| + 2..|r| - |tag| - 3] == body && r[|r| - |tag| - 3..] == "</" + tag + ">"
  {
    var tag := if st.mode == BlockQuote then "blockquote" else "p";
    TagSurroundContent(tag, C.Concat(Map(elms, XmlInline)));
  }

  /** A scene separator's text is recovered from its Markdown form; an empty one is the bare marker. */
  lemma MdSceneSepText(s: string)
    ensures s != [] ==> var r := MdMajor(SceneSep(s)); var n := |Escape(Md, s)|;
      |r| == n + 9 && r[..6] == "### ◇ " && Unescape(Md, r[6..6 + n]) == s
    ensures s == [] ==> MdMajor(SceneSep(s)) == "### ◇◇\n"
  {
    var em := Escape(Md, s);
    if s != [] {
      var pre := "### ◇ ";
      assert |pre| == 6;
      assert MdMajor(SceneSep(s)) == pre + (em + " ◇\n");
      Front(pre, em + " ◇\n");
      Mid(pre, em + " ◇\n", 6, 6 + |em|);
      UnescapeEscape(Md, s);
    }
  }

  /** A scene separator's text is recovered from its XHTML form, and cannot open or close a tag there. */
  lemma XmlSceneSepSlice(s: string)
    ensures var r := XmlMajor(SceneSep(s)); var eb := Escape(Body, s);
      |r| == |eb| + 31 && r[24..24 + |eb|] == eb
  {
    var eb := Escape(Body, s);
    var content := "◇ " + eb + " ◇";
    assert |"<h3 class=\"scene-sep\">"| == 22;
    assert content == "◇ " + (eb + " ◇");
    Mid("◇ ", eb + " ◇", 2, 2 + |eb|);
  }

  /** A scene separator's text is recovered from its XHTML form. */
  lemma XmlSceneSepText(s: string)
    ensures var r := XmlMajor(SceneSep(s)); var n := |Escape(Body, s)|;
      |r| == n + 31 && Unescape(Body, r[24..24 + n]) == s
  {
    XmlSceneSepSlice(s);
    UnescapeEscape(Body, s);
  }

  /** A scene separator's text cannot open or close a tag in the XHTML form. */
  lemma XmlSceneSepSafe(s: string)
    ensures var r := XmlMajor(SceneSep(s)); var n := |Escape(Body, s)|;
      |r| == n + 31 && forall i :: 24 <= i < 24 + n ==> r[i] != '<' && r[i] != '>'
  {
    var eb := Escape(Body, s);
    var r := XmlMajor(SceneSep(s));
    XmlSceneSepSlice(s);
    NoRawAngles(Body, s);
    forall i | 24 <= i < 24 + |eb|
      ensures r[i] != '<' && r[i] != '>'
    {
      assert r[i] == eb[i - 24];
    }
  }

  /** The Markdown form of a chapter starts with its title, recovered by unescaping, and a blank line. */
  lemma MdChapterTitle(c: SerChapter)
    requires Resolved(c.p)
    ensures var r := MdChapter(c); var n := |Escape(Md, c.title)|;
      |r| >= n + 4 && r[..2] == "# " && Unescape(Md, r[2..2 + n]) == c.title && r[2 + n..4 + n] == "\n\n"
  {
    var e := Escape(Md, c.title);
    var r := MdChapter(c);
    assert r == "# " + e + "\n\n" + Join(MapMajorMd(c.p), "\n\n");
    assert r[2..2 + |e|] == e;
    UnescapeEscape(Md, c.title);
  }

  lemma Front<T>(a: seq<T>, b: seq<T>)
    ensures |a + b| == |a| + |b| && (a + b)[..|a|] == a
  {
  }

  lemma Mid<T>(a: seq<T>, b: seq<T>, i: nat, j: nat)
    requires |a| <= i <= j <= |a| + |b|
    ensures (a + b)[i..j] == b[i - |a|..j - |a|]
  {
  }

  lemma Back<T>(a: seq<T>, b: seq<T>, n: nat)
    requires n <= |b|
    ensures (a + b)[|a + b| - n..] == b[|b| - n..]
  {
  }

  /** The shape of the XHTML chapter text, for any anchor, title line and body. */
  lemma SectionHead(a: string, t: string, j: string)
    ensures var r := SECTION_OPEN + (a + ("\">\n" + (t + ("\n" + (j + "\n</section>")))));
      var k := |SECTION_OPEN| + |a| + 3;
      |r| == k + |t| + |j| + 12 && r[..|SECTION_OPEN|] == SECTION_OPEN &&
      r[|SECTION_OPEN|..|SECTION_OPEN| + |a|] == a && r[k..k + |t|] == t
  {
    var r3 := t + ("\n" + (j + "\n</section>"));
    var r2 := "\">\n" + r3;
    var r1 := a + r2;
    var k := |SECTION_OPEN| + |a| + 3;
    Front(SECTION_OPEN, r1);
    Mid(SECTION_OPEN, r1, |SECTION_OPEN|, |SECTION_OPEN| + |a|);
    Front(a, r2);
    Mid(SECTION_OPEN, r1, k, k + |t|);
    Mid(a, r2, k - |SECTION_OPEN|, k - |SECTION_OPEN| + |t|);
    Mid("\">\n", r3, 3, 3 + |t|);
    Front(t, ("\n" + (j + "\n</section>")));
  }

  lemma SectionTail(a: string, t: string, j: string)
    ensures var r := SECTION_OPEN + (a + ("\">\n" + (t + ("\n" + (j + "\n</section>")))));
      |r| >= 10 && r[|r| - 10..] == "</section>"
  {
    var r5 := j + "\n</section>";
    var r4 := "\n" + r5;
    var r3 := t + r4;
    var r2 := "\">\n" + r3;
    var r1 := a + r2;
    Back(j, "\n</section>", 10);
    Back("\n", r5, 10);
    Back(t, r4, 10);
    Back("\">\n", r3, 10);
    Back(a, r2, 10);
    Back(SECTION_OPEN, r1, 10);
  }

  /** The XHTML form of a chapter is one section, whose anchor names the chapter id, ending with `</section>`. */
  lemma XmlChapterFrame(c: SerChapter)
    requires Resolved(c.p)
    ensures var r := XmlChapter(c); var a := C.IdAnchor(c.id);
      |r| > |SECTION_OPEN| + |a| + 10 && r[..|SECTION_OPEN|] == SECTION_OPEN &&
      r[|SECTION_OPEN|..|SECTION_OPEN| + |a|] == a && r[|r| - 10..] == "</section>"
  {
  }

  /** The second line of a chapter's XHTML form holds its escaped title between `h2` tags. */
  lemma XmlChapterTitle(c: SerChapter)
    requires Resolved(c.p)
    ensures var r := XmlChapter(c); var t := TagSurround("h2", Escape(Body, c.title));
      var k := |SECTION_OPEN| + |C.IdAnchor(c.id)| + 3;
      |r| > k + |t| && r[k..k + |t|] == t
  {
  }

  /** The title is recovered from the title line by dropping the tags and decoding the entities. */
  lemma TitleLineText(title: string)
    ensures var e := Escape(Body, title); var t := TagSurround("h2", e);
      |t| == |e| + 9 && t[..4] == "<h2>" && Unescape(Body, t[4..4 + |e|]) == title && t[4 + |e|..] == "</h2>"
  {
    TagSurroundContent("h2", Escape(Body, title));
    UnescapeEscape(Body, title);
  }
}
