/**
 * The six-flag span style and its flag algebra
 * (generate/src/chapter/style.rs).
 *
 * A style is a set of inline elements that are open. `Has` reads one flag, so
 * every operation is stated flag by flag.
 */
module Style {

  datatype SpanStyle = SpanStyle(bold: bool, italic: bool, footnote: bool, ruby: bool, rubyRt: bool, rubyRp: bool)

  datatype SpanStyleEl = Bold | Italic | Ruby | RubyRt | RubyRp | Footnote

  /** Whether the flag for `el` is set. */
  function Has(s: SpanStyle, el: SpanStyleEl): bool
  {
    match el
    case Bold => s.bold
    case Italic => s.italic
    case Footnote => s.footnote
    case Ruby => s.ruby
    case RubyRt => s.rubyRt
    case RubyRp => s.rubyRp
  }

  /** Two styles are equal when they agree on every flag. */
  lemma Extensionality(a: SpanStyle, b: SpanStyle)
    requires forall el :: Has(a, el) == Has(b, el)
    ensures a == b
  {
    assert Has(a, Bold) == Has(b, Bold) && Has(a, Italic) == Has(b, Italic);
    assert Has(a, Footnote) == Has(b, Footnote) && Has(a, Ruby) == Has(b, Ruby);
    assert Has(a, RubyRt) == Has(b, RubyRt) && Has(a, RubyRp) == Has(b, RubyRp);
  }

  /** The element name both tags of `el` carry. */
  function TagName(el: SpanStyleEl): string
  {
    match el
    case Bold => "b"
    case Italic => "i"
    case Footnote => "aside"
    case Ruby => "ruby"
    case RubyRt => "rt"
    case RubyRp => "rp"
  }

  /** `SpanStyleEl::open`: a start tag for the element, with the footnote's role attribute. */
  function Open(el: SpanStyleEl): (r: string)
    ensures el != Footnote ==> r == "<" + TagName(el) + ">"
    ensures el == Footnote ==> r == "<" + TagName(el) + " role=\"doc-footnote\">"
  {
    match el
    case Bold => "<b>"
    case Italic => "<i>"
    case Footnote => "<aside role=\"doc-footnote\">"
    case Ruby => "<ruby>"
    case RubyRt => "<rt>"
    case RubyRp => "<rp>"
  }

  /** `SpanStyleEl::close`: the end tag for the same element `Open` starts. */
  function Close(el: SpanStyleEl): (r: string)
    ensures r == "</" + TagName(el) + ">"
  {
    match el
    case Bold => "</b>"
    case Italic => "</i>"
    case Footnote => "</aside>"
    case Ruby => "</ruby>"
    case RubyRt => "</rt>"
    case RubyRp => "</rp>"
  }

  /** Distinct elements have distinct tags. */
  lemma TagNameInjective(a: SpanStyleEl, b: SpanStyleEl)
    requires TagName(a) == TagName(b)
    ensures a == b
  {
  }

  /** `SpanStyle::none` (also the `Default`). */
  function NoStyle(): (r: SpanStyle)
    ensures forall el :: !Has(r, el)
  {
    SpanStyle(false, false, false, false, false, false)
  }

  /** `is_none`: no flag is set. */
  function IsNone(s: SpanStyle): (r: bool)
    ensures r <==> forall el :: !Has(s, el)
  {
    !Has(s, Bold) && !Has(s, Italic) && !Has(s, Footnote) && !Has(s, Ruby) && !Has(s, RubyRt) && !Has(s, RubyRp)
  }

  /** `From<SpanStyleEl>`: exactly the one flag. */
  function FromEl(el: SpanStyleEl): (r: SpanStyle)
    ensures forall e :: Has(r, e) <==> e == el
  {
    match el
    case Bold => NoStyle().(bold := true)
    case Italic => NoStyle().(italic := true)
    case Footnote => NoStyle().(footnote := true)
    case Ruby => NoStyle().(ruby := true)
    case RubyRt => NoStyle().(rubyRt := true)
    case RubyRp => NoStyle().(rubyRp := true)
  }

  /** `bold_italic`. */
  function BoldItalic(): (r: SpanStyle)
    ensures forall e :: Has(r, e) <==> e == Bold || e == Italic
  {
    NoStyle().(bold := true, italic := true)
  }

  /** `Add`: flag-wise or. */
  function Add(a: SpanStyle, b: SpanStyle): (r: SpanStyle)
    ensures forall el :: Has(r, el) == (Has(a, el) || Has(b, el))
  {
    SpanStyle(a.bold || b.bold, a.italic || b.italic, a.footnote || b.footnote,
      a.ruby || b.ruby, a.rubyRt || b.rubyRt, a.rubyRp || b.rubyRp)
  }

  /** `additional_needed`: what must be opened to go from `a` to `b`. */
  function AdditionalNeeded(a: SpanStyle, b: SpanStyle): (r: SpanStyle)
    ensures forall el :: Has(r, el) == (!Has(a, el) && Has(b, el))
  {
    SpanStyle(!a.bold && b.bold, !a.italic && b.italic, !a.footnote && b.footnote,
      !a.ruby && b.ruby, !a.rubyRt && b.rubyRt, !a.rubyRp && b.rubyRp)
  }

  /** `removals_needed`: what must be closed to go from `a` to `b`; also the flag-wise difference of `a` and `b`. */
  function RemovalsNeeded(a: SpanStyle, b: SpanStyle): (r: SpanStyle)
    ensures forall el :: Has(r, el) == (Has(a, el) && !Has(b, el))
  {
    SpanStyle(a.bold && !b.bold, a.italic && !b.italic, a.footnote && !b.footnote,
      a.ruby && !b.ruby, a.rubyRt && !b.rubyRt, a.rubyRp && !b.rubyRp)
  }

  /** Closing the removals and then opening the additions reaches the target, and no flag is both closed and opened. */
  lemma Transition(a: SpanStyle, b: SpanStyle)
    ensures Add(RemovalsNeeded(a, RemovalsNeeded(a, b)), AdditionalNeeded(a, b)) == b
    ensures forall el :: !(Has(RemovalsNeeded(a, b), el) && Has(AdditionalNeeded(a, b), el))
    ensures IsNone(RemovalsNeeded(a, b)) && IsNone(AdditionalNeeded(a, b)) <==> a == b
  {
    Extensionality(Add(RemovalsNeeded(a, RemovalsNeeded(a, b)), AdditionalNeeded(a, b)), b);
    if IsNone(RemovalsNeeded(a, b)) && IsNone(AdditionalNeeded(a, b)) {
      Extensionality(a, b);
    }
  }

  /** Position of an element in `el_iter` order: bold, italic, footnote, ruby, rt, rp. */
  function Rank(el: SpanStyleEl): nat
  {
    match el
    case Bold => 0
    case Italic => 1
    case Footnote => 2
    case Ruby => 3
    case RubyRt => 4
    case RubyRp => 5
  }

  /** The element at each position of the order `el_iter` walks: bold, italic, footnote, ruby, rt, rp. */
  function ElAt(k: nat): (r: SpanStyleEl)
    requires k < 6
    ensures Rank(r) == k
  {
    if k == 0 then Bold
    else if k == 1 then Italic
    else if k == 2 then Footnote
    else if k == 3 then Ruby
    else if k == 4 then RubyRt
    else RubyRp
  }

  /** The set flags from position `k` of that order on, each once, in order (`then_some` and `flatten`). */
  function ElIterFrom(s: SpanStyle, k: nat): (r: seq<SpanStyleEl>)
    requires k <= 6
    ensures forall el :: el in r <==> Has(s, el) && k <= Rank(el)
    ensures forall i :: 0 <= i < |r| ==> k <= Rank(r[i])
    ensures forall i, j :: 0 <= i < j < |r| ==> Rank(r[i]) < Rank(r[j])
    decreases 6 - k
  {
    if k == 6 then []
    else
      var el := ElAt(k);
      assert forall e :: Rank(e) == k ==> e == el;
      (if Has(s, el) then [el] else []) + ElIterFrom(s, k + 1)
  }

  /** `el_iter`: the set flags, each once, in the order bold, italic, footnote, ruby, rt, rp. */
  function ElIter(s: SpanStyle): (r: seq<SpanStyleEl>)
    ensures forall el :: el in r <==> Has(s, el)
    ensures forall i, j :: 0 <= i < j < |r| ==> Rank(r[i]) < Rank(r[j])
  {
    ElIterFrom(s, 0)
  }

  /** The first element of a strictly ordered sequence has the lowest rank of all its members. */
  lemma RankSortedHead(r: seq<SpanStyleEl>, el: SpanStyleEl)
    requires forall i, j :: 0 <= i < j < |r| ==> Rank(r[i]) < Rank(r[j])
    requires el in r
    ensures Rank(r[0]) <= Rank(el)
    ensures el in r[1..] <==> el != r[0]
  {
    var i :| 0 <= i < |r| && r[i] == el;
    if i > 0 {
      assert r[1..][i - 1] == el;
    }
  }

  /** Two sequences of elements, each in strict `el_iter` order, with the same members are equal. */
  lemma {:induction false} RankSortedUnique(r: seq<SpanStyleEl>, q: seq<SpanStyleEl>)
    requires forall i, j :: 0 <= i < j < |r| ==> Rank(r[i]) < Rank(r[j])
    requires forall i, j :: 0 <= i < j < |q| ==> Rank(q[i]) < Rank(q[j])
    requires forall el :: el in r <==> el in q
    ensures r == q
    decreases |r|
  {
    assert r != [] ==> r[0] in q;
    assert q != [] ==> q[0] in r;
    if r != [] {
      RankSortedHead(r, q[0]);
      RankSortedHead(q, r[0]);
      forall el ensures el in r[1..] <==> el in q[1..] {
        if el in r {
          RankSortedHead(r, el);
          RankSortedHead(q, el);
        }
      }
      RankSortedUnique(r[1..], q[1..]);
      assert r == [r[0]] + r[1..] && q == [q[0]] + q[1..];
    }
  }

  /** So `el_iter` is fixed by which flags are set: one flag gives one element. */
  lemma ElIterSingle(el: SpanStyleEl)
    ensures ElIter(FromEl(el)) == [el]
  {
    RankSortedUnique(ElIter(FromEl(el)), [el]);
  }

  /** Bold-italic is walked bold first. */
  lemma ElIterBoldItalic()
    ensures ElIter(BoldItalic()) == [Bold, Italic]
  {
    RankSortedUnique(ElIter(BoldItalic()), [Bold, Italic]);
  }

  /** `FromIterator`: the or-fold of the elements' single-flag styles, starting from none. */
  function FromIter(els: seq<SpanStyleEl>): (r: SpanStyle)
    ensures forall el :: Has(r, el) <==> el in els
  {
    if els == [] then NoStyle()
    else Add(FromIter(els[..|els| - 1]), FromEl(els[|els| - 1]))
  }

  /** Collecting `el_iter` gives the style back. */
  lemma FromIterElIter(s: SpanStyle)
    ensures FromIter(ElIter(s)) == s
  {
    Extensionality(FromIter(ElIter(s)), s);
  }

  /** A style's `el_iter` is empty exactly when it is none. */
  lemma ElIterEmpty(s: SpanStyle)
    ensures ElIter(s) == [] <==> IsNone(s)
  {
    if ElIter(s) != [] {
      assert ElIter(s)[0] in ElIter(s);
    }
  }

  /** Paragraph-level layout (identical definitions appear in generate/src/chapter.rs). */
  datatype Align = Left | Center | Right

  datatype ParagraphMode = Normal | BlockQuote

  datatype ParagraphStyle = ParagraphStyle(mode: ParagraphMode, align: Align)

  /** The `Default` paragraph style. */
  const DEFAULT_PARAGRAPH_STYLE: ParagraphStyle := ParagraphStyle(Normal, Left)
}
