/** `MediaType` of the fetcher's object cache (fetch/src/cache.rs). */
module FetchCache {
  import opened Wrappers

  datatype MediaType = Xhtml | Xml | Png | Jpg | Svg | Css | Gif | Webp | Html

  /** The `#[repr(C)]` discriminant stored in the database. */
  function Discriminant(m: MediaType): nat
  {
    match m
    case Xhtml => 0
    case Xml => 1
    case Png => 2
    case Jpg => 3
    case Svg => 4
    case Css => 5
    case Gif => 6
    case Webp => 7
    case Html => 8
  }

  /** `try_new`: the variant whose discriminant is `id`, if any. */
  function TryNew(id: int): (r: Option<MediaType>)
    ensures r.Some? <==> 0 <= id <= 8
    ensures r.Some? ==> Discriminant(r.value) == id
  {
    match id
    case 0 => Some(Xhtml)
    case 1 => Some(Xml)
    case 2 => Some(Png)
    case 3 => Some(Jpg)
    case 4 => Some(Svg)
    case 5 => Some(Css)
    case 6 => Some(Gif)
    case 7 => Some(Webp)
    case 8 => Some(Html)
    case _ => None
  }

  /** `new`: `try_new(id).expect(..)`, so an out-of-range id is a panic. */
  function New(id: int): (r: MediaType)
    requires 0 <= id <= 8
    ensures Discriminant(r) == id
    ensures TryNew(id) == Some(r)
  {
    TryNew(id).value
  }

  /** `is_image`. */
  predicate IsImage(m: MediaType)
  {
    m in {Png, Jpg, Svg, Gif, Webp}
  }

  /** The image types are exactly the media types whose MIME type lies under `image/`. */
  lemma IsImageMime(m: MediaType)
    ensures IsImage(m) <==> |Mime(m)| >= 6 && Mime(m)[..6] == "image/"
  {
    var r := Mime(m);
    if IsImage(m) {
      assert r[..6] == "image/";
    } else {
      assert r[1] != 'm';
      assert |r| >= 6 ==> r[..6][1] == r[1];
    }
  }

  /** The MIME type of a media type. */
  function Mime(m: MediaType): (r: string)
    ensures IsMime(r)
    ensures FromMime(r) == m
  {
    match m
    case Xhtml => "application/xhtml+xml"
    case Xml => "application/xml"
    case Png => "image/png"
    case Jpg => "image/jpeg"
    case Svg => "image/svg+xml"
    case Css => "text/css"
    case Gif => "image/gif"
    case Webp => "image/webp"
    case Html => "text/html"
  }

  /** The strings `from_mime` accepts; any other string makes it panic. */
  predicate IsMime(s: string)
  {
    s in {"application/xhtml+xml", "application/xml", "image/png", "image/jpeg",
          "image/svg+xml", "text/css", "image/gif", "image/webp", "text/html"}
  }

  /** `from_mime`, defined on the strings it does not panic on. */
  function FromMime(s: string): (r: MediaType)
    requires IsMime(s)
  {
    if s == "application/xhtml+xml" then Xhtml
    else if s == "application/xml" then Xml
    else if s == "image/png" then Png
    else if s == "image/jpeg" then Jpg
    else if s == "image/svg+xml" then Svg
    else if s == "text/css" then Css
    else if s == "image/gif" then Gif
    else if s == "image/webp" then Webp
    else Html
  }

  /** `from_extension`; `jpeg` and `jpg` both name `Jpg`. */
  function FromExtension(s: string): (r: Option<MediaType>)
    ensures r == None <==> s !in {"xhtml", "xml", "png", "jpeg", "jpg", "svg", "css", "gif", "webp", "html"}
    ensures s == "jpeg" ==> r == Some(Jpg)
  {
    if s == "xhtml" then Some(Xhtml)
    else if s == "xml" then Some(Xml)
    else if s == "png" then Some(Png)
    else if s == "jpeg" || s == "jpg" then Some(Jpg)
    else if s == "svg" then Some(Svg)
    else if s == "css" then Some(Css)
    else if s == "gif" then Some(Gif)
    else if s == "webp" then Some(Webp)
    else if s == "html" then Some(Html)
    else None
  }

  /** The file extension without its dot. */
  function Extension(m: MediaType): (r: string)
    ensures FromExtension(r) == Some(m)
  {
    match m
    case Xhtml => "xhtml"
    case Xml => "xml"
    case Png => "png"
    case Jpg => "jpg"
    case Svg => "svg"
    case Css => "css"
    case Gif => "gif"
    case Webp => "webp"
    case Html => "html"
  }

  lemma {:induction false} DiscriminantRoundTrip(m: MediaType)
    ensures TryNew(Discriminant(m)) == Some(m)
  {
    match m
    case Xhtml =>
    case Xml =>
    case Png =>
    case Jpg =>
    case Svg =>
    case Css =>
    case Gif =>
    case Webp =>
    case Html =>
  }

  /** The three cases of the documentation example on `extension`. */
  lemma ExtensionExamples()
    ensures Extension(Xhtml) == "xhtml" && Extension(Png) == "png" && Extension(Jpg) == "jpg"
  {
  }
}
