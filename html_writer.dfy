/**
 * Escaping and joining helpers used by the chapter renderers
 * (generate/src/html_writer.rs).
 *
 * The three escapers share one shape: every character either has a
 * replacement or is copied unchanged. `Escape` is the reference definition,
 * `WriteEscaped` is the source's slice-and-`last`-index loop, and `Unescape`
 * is an independent decoder that undoes each escaper.
 */
module HtmlWriter {
  import opened Wrappers

  /** Which of the three escapers. */
  datatype Escaper = Body | Attr | Md

  /** The replacement for one character, or `None` when it is copied. */
  function Replacement(e: Escaper, c: char): (r: Option<string>)
    ensures r.Some? ==> |r.value| >= 2
    ensures e == Md && r.Some? ==> r.value == ['\\', c]
  {
    match e
    case Body =>
      if c == '>' then Some("&gt;")
      else if c == '<' then Some("&lt;")
      else if c == '&' then Some("&amp;")
      else None
    case Attr =>
      if c == '>' then Some("&gt;")
      else if c == '<' then Some("&lt;")
      else if c == '&' then Some("&amp;")
      else if c == '"' then Some("\\\"")
      else None
    case Md =>
      if c in "`\\*[]" then Some(['\\', c]) else None
  }

  /** What one character becomes. */
  function EscChar(e: Escaper, c: char): string
  {
    if Replacement(e, c).Some? then Replacement(e, c).value else [c]
  }

  /** Reference definition: each character escaped in turn. */
  function Escape(e: Escaper, s: string): string
  {
    if s == [] then [] else EscChar(e, s[0]) + Escape(e, s[1..])
  }

  /** No character of `s` has a replacement. */
  predicate Plain(e: Escaper, s: string)
  {
    forall i :: 0 <= i < |s| ==> Replacement(e, s[i]).None?
  }

  lemma {:induction false} EscapeAppend(e: Escaper, a: string, b: string)
    ensures Escape(e, a + b) == Escape(e, a) + Escape(e, b)
  {
    if a == [] {
      assert a + b == b;
    } else {
      assert (a + b)[0] == a[0];
      assert (a + b)[1..] == a[1..] + b;
      EscapeAppend(e, a[1..], b);
    }
  }

  /** Escaping is the identity on strings with nothing to escape. */
  lemma {:induction false} EscapePlain(e: Escaper, s: string)
    requires Plain(e, s)
    ensures Escape(e, s) == s
  {
    if s != [] {
      assert Plain(e, s[1..]) by {
        forall i | 0 <= i < |s[1..]| ensures Replacement(e, s[1..][i]).None? {
          assert s[1..][i] == s[i + 1];
        }
      }
      EscapePlain(e, s[1..]);
    }
  }

  /**
   * `Display` for `EscapeBody`, `EscapeAttr` and `EscapeMd`: the characters
   * between two replacements are written as one slice `raw[last..i]`, and the
   * tail after the last replacement at the end.
   */
  method WriteEscaped(e: Escaper, s: string) returns (out: string)
    ensures out == Escape(e, s)
  {
    out := "";
    var last := 0;
    var i := 0;
    while i < |s|
      invariant last <= i <= |s|
      invariant out == Escape(e, s[..last])
      invariant Plain(e, s[last..i])
    {
      var rep := Replacement(e, s[i]);
      if rep.Some? {
        SpliceReplacement(e, s, last, i);
        out := out + s[last..i] + rep.value;
        last := i + 1;
      } else {
        PlainExtend(e, s, last, i);
      }
      i := i + 1;
    }
    assert s[last..i] == s[last..];
    PlainTail(e, s, last);
    if last < |s| {
      out := out + s[last..];
    }
  }

  lemma PlainExtend(e: Escaper, s: string, last: int, i: int)
    requires 0 <= last <= i < |s|
    requires Plain(e, s[last..i]) && Replacement(e, s[i]).None?
    ensures Plain(e, s[last..i + 1])
  {
    assert s[last..i + 1] == s[last..i] + [s[i]];
  }

  /** After the loop: the escaped prefix and the unescaped plain tail make up the whole. */
  lemma PlainTail(e: Escaper, s: string, last: int)
    requires 0 <= last <= |s| && Plain(e, s[last..])
    ensures Escape(e, s[..last]) + s[last..] == Escape(e, s)
  {
    var head, tail := s[..last], s[last..];
    EscapePlain(e, tail);
    assert head + tail == s;
    EscapeAppend(e, head, tail);
  }

  /** A replacement step: the prefix up to `i + 1` is the old output, the plain slice and the replacement. */
  lemma SpliceReplacement(e: Escaper, s: string, last: int, i: int)
    requires 0 <= last <= i < |s|
    requires Plain(e, s[last..i]) && Replacement(e, s[i]).Some?
    ensures Escape(e, s[..i + 1]) == Escape(e, s[..last]) + s[last..i] + Replacement(e, s[i]).value
  {
    EscapePlain(e, s[last..i]);
    Splice(e, s, last, i);
  }

  /** One step of the loop: the prefix up to `i + 1` escapes to the old output, the slice, and the replacement. */
  lemma Splice(e: Escaper, s: string, last: int, i: int)
    requires 0 <= last <= i < |s|
    ensures Escape(e, s[..i + 1]) == Escape(e, s[..last]) + Escape(e, s[last..i]) + EscChar(e, s[i])
  {
    assert s[..i + 1] == s[..last] + s[last..i] + [s[i]];
    EscapeAppend(e, s[..last] + s[last..i], [s[i]]);
    EscapeAppend(e, s[..last], s[last..i]);
    assert Escape(e, [s[i]]) == EscChar(e, s[i]) + Escape(e, []);
  }

  /** The body and attribute escapers leave no raw angle bracket behind. */
  lemma {:induction false} NoRawAngles(e: Escaper, s: string)
    requires e != Md
    ensures forall i :: 0 <= i < |Escape(e, s)| ==> Escape(e, s)[i] != '<' && Escape(e, s)[i] != '>'
  {
    if s != [] {
      NoRawAngles(e, s[1..]);
      var h := EscChar(e, s[0]);
      assert forall i :: 0 <= i < |h| ==> h[i] != '<' && h[i] != '>';
      var t := Escape(e, s[1..]);
      assert Escape(e, s) == h + t;
      forall i | 0 <= i < |h + t| ensures (h + t)[i] != '<' && (h + t)[i] != '>' {
        if i >= |h| {
          assert (h + t)[i] == t[i - |h|];
        }
      }
    }
  }

  /** The attribute escaper never starts its output with a raw quote. */
  lemma AttrNoLeadingQuote(s: string)
    ensures Escape(Attr, s) == [] || Escape(Attr, s)[0] != '"'
  {
  }

  /** The three character entities, recognised at the front of `s`. */
  function DecodeEntity(s: string): (r: Option<(char, nat)>)
    ensures r.Some? ==> |s| > 0 && s[0] == '&' && 4 <= r.value.1 <= |s|
  {
    if |s| >= 4 && s[0] == '&' && s[1..4] == "gt;" then Some(('>', 4))
    else if |s| >= 4 && s[0] == '&' && s[1..4] == "lt;" then Some(('<', 4))
    else if |s| >= 5 && s[0] == '&' && s[1..5] == "amp;" then Some(('&', 5))
    else None
  }

  /** Decodes one escaped character: the character and how many were consumed. */
  function Decode1(e: Escaper, s: string): (r: (char, nat))
    requires |s| > 0
    ensures 1 <= r.1 <= |s|
  {
    match e
    case Md =>
      if |s| >= 2 && s[0] == '\\' then (s[1], 2) else (s[0], 1)
    case Body =>
      if DecodeEntity(s).Some? then DecodeEntity(s).value else (s[0], 1)
    case Attr =>
      if DecodeEntity(s).Some? then DecodeEntity(s).value
      else if |s| >= 2 && s[0] == '\\' && s[1] == '"' then ('"', 2)
      else (s[0], 1)
  }

  /** An independent decoder for the three escapers. */
  function Unescape(e: Escaper, s: string): string
    decreases |s|
  {
    if s == [] then []
    else
      var (c, n) := Decode1(e, s);
      [c] + Unescape(e, s[n..])
  }

  /** Decoding the escape of one character in front of escaped text. */
  lemma DecodeEscChar(e: Escaper, c: char, rest: string)
    requires e == Attr ==> rest == [] || rest[0] != '"'
    ensures Decode1(e, EscChar(e, c) + rest) == (c, |EscChar(e, c)|)
  {
    var w := EscChar(e, c) + rest;
    if Replacement(e, c).Some? {
      var h := EscChar(e, c);
      assert w[0] == h[0] && w[1] == h[1];
      if |h| >= 4 {
        assert w[1..|h|] == h[1..];
      }
    } else {
      assert w[0] == c;
    }
  }

  /** Each escaper is undone by its decoder. */
  lemma {:induction false} UnescapeEscape(e: Escaper, s: string)
    ensures Unescape(e, Escape(e, s)) == s
  {
    if s != [] {
      var h := EscChar(e, s[0]);
      var t := Escape(e, s[1..]);
      if e == Attr {
        AttrNoLeadingQuote(s[1..]);
      }
      DecodeEscChar(e, s[0], t);
      assert (h + t)[|h|..] == t;
      UnescapeEscape(e, s[1..]);
    }
  }

  /** Consequently each escaper is injective. */
  lemma EscapeInjective(e: Escaper, s: string, t: string)
    requires Escape(e, s) == Escape(e, t)
    ensures s == t
  {
    UnescapeEscape(e, s);
    UnescapeEscape(e, t);
  }

  /** Reference definition of `Join`: the items with `sep` between two neighbours. */
  function Join(items: seq<string>, sep: string): string
  {
    if items == [] then ""
    else if |items| == 1 then items[0]
    else items[0] + sep + Join(items[1..], sep)
  }

  /** `Join` grows at the end by one separator and one item. */
  lemma {:induction false} JoinSnoc(items: seq<string>, x: string, sep: string)
    requires items != []
    ensures Join(items + [x], sep) == Join(items, sep) + sep + x
  {
    if |items| == 1 {
      assert (items + [x])[1..] == [x];
    } else {
      assert (items + [x])[1..] == items[1..] + [x];
      JoinSnoc(items[1..], x, sep);
    }
  }

  function Sum(items: seq<string>): nat
  {
    if items == [] then 0 else |items[0]| + Sum(items[1..])
  }

  /** The join adds exactly one separator between each two items and none at the ends. */
  lemma {:induction false} JoinLength(items: seq<string>, sep: string)
    requires items != []
    ensures |Join(items, sep)| == Sum(items) + (|items| - 1) * |sep|
  {
    if |items| > 1 {
      JoinLength(items[1..], sep);
    }
  }

  /** Each item, mapped. */
  function Map<T>(items: seq<T>, f: T -> string): (r: seq<string>)
    ensures |r| == |items|
    ensures forall i :: 0 <= i < |items| ==> r[i] == f(items[i])
  {
    if items == [] then [] else [f(items[0])] + Map(items[1..], f)
  }

  /**
   * `Display` for `Join` and `MapJoin`: the first item, then a separator and
   * an item for each further one. `Join` is the case where `f` is the
   * identity.
   */
  method WriteMapJoin<T>(items: seq<T>, sep: string, f: T -> string) returns (out: string)
    ensures out == Join(Map(items, f), sep)
    ensures items == [] ==> out == ""
  {
    if |items| == 0 {
      return "";
    }
    out := f(items[0]);
    var i := 1;
    while i < |items|
      invariant 1 <= i <= |items|
      invariant out == Join(Map(items[..i], f), sep)
    {
      assert Map(items[..i + 1], f) == Map(items[..i], f) + [f(items[i])];
      JoinSnoc(Map(items[..i], f), f(items[i]), sep);
      out := out + sep + f(items[i]);
      i := i + 1;
    }
    assert items[..i] == items;
  }

  /** `Surround`: open, content, close. */
  function Surround(open: string, close: string, content: string): (r: string)
    ensures |r| == |open| + |content| + |close|
    ensures r[..|open|] == open && r[|open|..|open| + |content|] == content && r[|open| + |content|..] == close
  {
    open + content + close
  }

  /** `Tag::open` for a plain tag name. */
  function TagOpen(name: string): string
  {
    "<" + name + ">"
  }

  /** `Tag::close` (`WrapClose`), shared by plain tags and `Tag2`. */
  function TagClose(name: string): string
  {
    "</" + name + ">"
  }

  /** `TagSurround` for a plain tag: the content between the open and the close tag. */
  function TagSurround(name: string, content: string): (r: string)
    ensures r == Surround(TagOpen(name), TagClose(name), content)
  {
    TagOpen(name) + content + TagClose(name)
  }

  /** The content is recovered from a tag surround by dropping both tags. */
  lemma TagSurroundContent(name: string, content: string)
    ensures var r := TagSurround(name, content);
      |r| == |content| + 2 * |name| + 5 &&
      r[|name| + 2..|r| - |name| - 3] == content
  {
  }

  /** `Tag2::open`: a start tag with two attributes, not escaped. */
  function Tag2Open(name: string, k1: string, a1: string, k2: string, a2: string): (r: string)
    ensures r == TagOpen(name + " " + k1 + "=\"" + a1 + "\" " + k2 + "=\"" + a2 + "\"")
  {
    "<" + name + " " + k1 + "=\"" + a1 + "\" " + k2 + "=\"" + a2 + "\">"
  }

  /** `Tag2` values are written as given: an attribute may close its own quote. */
  lemma Tag2Unescaped()
    ensures Tag2Open("a", "href", "x\" y=\"z", "id", "n") == "<a href=\"x\" y=\"z\" id=\"n\">"
  {
  }
}
