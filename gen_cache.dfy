/** `MediaType` of the generator's object cache (generate/src/cache.rs). */
module GenCache {
  import opened Wrappers

  datatype MediaType = Xhtml | Xml | Png | Jpg | Svg | Css

  /** The `#[repr(C)]` discriminant stored in the database. */
  function Discriminant(m: MediaType): nat
  {
    match m
    case Xhtml => 0
    case Xml => 1
    case Png => 2
    case Jpg => 3
    case Svg => 4
    case Css => 5
  }

  /** `try_new`: the variant whose discriminant is `id`, if any. */
  function TryNew(id: int): (r: Option<MediaType>)
    ensures r.Some? <==> 0 <= id <= 5
    ensures r.Some? ==> Discriminant(r.value) == id
  {
    match id
    case 0 => Some(Xhtml)
    case 1 => Some(Xml)
    case 2 => Some(Png)
    case 3 => Some(Jpg)
    case 4 => Some(Svg)
    case 5 => Some(Css)
    case _ => None
  }

  /** `new`: `try_new(id).expect(..)`, so an out-of-range id is a panic. */
  function New(id: int): (r: MediaType)
    requires 0 <= id <= 5
    ensures Discriminant(r) == id
    ensures TryNew(id) == Some(r)
  {
    TryNew(id).value
  }

  /** `mime`; the `Xml` arm is a `todo!()` panic. */
  function Mime(m: MediaType): (r: string)
    requires m != Xml
    ensures |r| > 0
  {
    match m
    case Xhtml => "application/xhtml+xml"
    case Png => "image/png"
    case Jpg => "image/jpeg"
    case Svg => "image/svg+xml"
    case Css => "text/css"
  }

  /** Distinct media types have distinct MIME types. */
  lemma MimeInjective(m: MediaType, n: MediaType)
    requires m != Xml && n != Xml && Mime(m) == Mime(n)
    ensures m == n
  {
  }

  lemma {:induction false} DiscriminantRoundTrip(m: MediaType)
    ensures TryNew(Discriminant(m)) == Some(m)
  {
    match m
    case Xhtml =>
    case Xml =>
    case Png =>
    case Jpg =>
    case Svg =>
    case Css =>
  }
}
