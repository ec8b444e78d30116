/**
 * Images placed in a chapter and how they are written
 * (generate/src/image.rs). The id is the hash of the URL; the hash function
 * itself is not part of this model, so the id is given.
 */
module Image {
  import opened Wrappers
  import opened HtmlWriter

  const U64_LIMIT: nat := 0x1_0000_0000_0000_0000

  datatype Image = Image(id: nat, url: string, alt: Option<string>)

  predicate ValidImage(img: Image)
  {
    img.id < U64_LIMIT
  }

  /** `Image::new`: the id comes from hashing the URL; there is no alt text yet. */
  function New(url: string, urlId: nat): (r: Image)
    requires urlId < U64_LIMIT
    ensures ValidImage(r) && r.url == url && r.alt.None?
  {
    Image(urlId, url, None)
  }

  /** A lowercase hexadecimal digit. */
  function HexChar(d: nat): (c: char)
    requires d < 16
    ensures '0' <= c <= '9' || 'a' <= c <= 'f'
  {
    if d < 10 then ('0' as int + d) as char else ('a' as int + d - 10) as char
  }

  /** The last `k` hexadecimal digits of `n`, most significant first, zero-padded. */
  function Hex(n: nat, k: nat): (r: string)
    ensures |r| == k
    ensures forall i :: 0 <= i < k ==> '0' <= r[i] <= '9' || 'a' <= r[i] <= 'f'
  {
    if k == 0 then [] else Hex(n / 16, k - 1) + [HexChar(n % 16)]
  }

  function HexValue(c: char): nat
  {
    if '0' <= c <= '9' then c as int - '0' as int
    else if 'a' <= c <= 'f' then c as int - 'a' as int + 10
    else 0
  }

  /** Reads hexadecimal digits back. */
  function ParseHex(s: string): nat
  {
    if s == [] then 0 else 16 * ParseHex(s[..|s| - 1]) + HexValue(s[|s| - 1])
  }

  function Pow16(k: nat): (r: nat)
    ensures r > 0
  {
    if k == 0 then 1 else 16 * Pow16(k - 1)
  }

  /** `k` digits are enough for any number below `16^k`, and reading them back gives it. */
  lemma {:induction false} ParseHexOfHex(n: nat, k: nat)
    requires n < Pow16(k)
    ensures ParseHex(Hex(n, k)) == n
  {
    if k > 0 {
      var r := Hex(n, k);
      assert r[..|r| - 1] == Hex(n / 16, k - 1);
      assert n / 16 < Pow16(k - 1);
      ParseHexOfHex(n / 16, k - 1);
      assert r[|r| - 1] == HexChar(n % 16);
    } else {
      assert n == 0;
    }
  }

  /** `src`: the asset path, 16 zero-padded lowercase hexadecimal digits of the id. */
  function Src(img: Image): (r: string)
    ensures |r| == |"assets/image_"| + 16 && r[..13] == "assets/image_"
  {
    "assets/image_" + Hex(img.id, 16)
  }

  /** The id can be read back from the path, so distinct ids give distinct paths. */
  lemma SrcId(img: Image)
    requires ValidImage(img)
    ensures ParseHex(Src(img)[13..]) == img.id
  {
    assert Src(img)[13..] == Hex(img.id, 16);
    assert Pow16(4) == 0x1_0000;
    assert Pow16(8) == 0x1_0000 * Pow16(4);
    assert Pow16(16) == U64_LIMIT;
    ParseHexOfHex(img.id, 16);
  }

  const NO_ALT: string := "an image without alt text"

  /** The alt text written, with the fallback for a missing one. */
  function AltText(img: Image): (r: string)
    ensures img.alt.Some? ==> r == img.alt.value
    ensures img.alt.None? ==> r == NO_ALT
  {
    match img.alt
    case Some(a) => a
    case None => NO_ALT
  }

  /** The alternate (Markdown) form: `![EscapeMd(alt)](src)`. */
  function DisplayMd(img: Image): string
  {
    "![" + Escape(Md, AltText(img)) + "](" + Src(img) + ")"
  }

  /** The plain (XHTML) form: an `img` element with escaped alt text. */
  function DisplayXml(img: Image): string
  {
    "<img src=\"" + Src(img) + "\" alt=\"" + Escape(Attr, AltText(img)) + "\" />"
  }

  /**
   * The Markdown form is `![`, the escaped alt text, which unescapes back to
   * the alt text, `](`, the asset path and `)`.
   */
  lemma DisplayMdAlt(img: Image)
    ensures var r := DisplayMd(img);
      var n := |Escape(Md, AltText(img))|;
      |r| == n + 34 && r[..2] == "![" && Unescape(Md, r[2..2 + n]) == AltText(img) &&
      r[2 + n..4 + n] == "](" && r[4 + n..33 + n] == Src(img) && r[33 + n..] == ")"
  {
    var r := DisplayMd(img);
    var e := Escape(Md, AltText(img));
    var n := |e|;
    assert r == "![" + e + "](" + Src(img) + ")";
    assert r[2..2 + n] == e;
    assert r[4 + n..33 + n] == Src(img);
    UnescapeEscape(Md, AltText(img));
  }

  /**
   * The XHTML form is the `img` element with the asset path in `src` and the
   * escaped alt text in `alt`; the alt value unescapes back to the alt text and
   * holds no raw angle bracket, whatever the alt text.
   */
  lemma DisplayXmlAltSafe(img: Image)
    ensures var r := DisplayXml(img);
      var n := |Escape(Attr, AltText(img))|;
      |r| == n + 50 && r[..10] == "<img src=\"" && r[10..39] == Src(img) && r[39..46] == "\" alt=\"" &&
      Unescape(Attr, r[46..46 + n]) == AltText(img) && r[46 + n..] == "\" />" &&
      forall i :: 46 <= i < 46 + n ==> r[i] != '<' && r[i] != '>'
  {
    var r := DisplayXml(img);
    var e := Escape(Attr, AltText(img));
    var n := |e|;
    assert r == "<img src=\"" + Src(img) + "\" alt=\"" + e + "\" />";
    assert r[10..39] == Src(img);
    assert r[46..46 + n] == e;
    UnescapeEscape(Attr, AltText(img));
    NoRawAngles(Attr, AltText(img));
  }
}
