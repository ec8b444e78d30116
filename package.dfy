/**
 * The EPUB 3 package document builder (generate/src/epub/package.rs):
 * manifest items, the checks `finish` makes before a package can be
 * written (section 5 "Package document" of the W3C EPUB 3.3
 * recommendation requires an identifier and a navigation document, and
 * unique item ids), the reading-order spine and the MARC relator codes.
 */
module Package {
  import opened Wrappers
  import opened GenUtil

  /** The position of the last `c` in `s`, if any. */
  function LastIndex(s: string, c: char): (r: Option<nat>)
    ensures r.None? <==> c !in s
    ensures r.Some? ==> r.value < |s| && s[r.value] == c && c !in s[r.value + 1..]
  {
    if s == [] then None
    else if s[|s| - 1] == c then Some(|s| - 1)
    else
      var r := LastIndex(s[..|s| - 1], c);
      assert s == s[..|s| - 1] + [s[|s| - 1]];
      r
  }

  /** `str::rsplit_once(c)`: the text before and after the last `c`. */
  function RSplitOnce(s: string, c: char): (r: Option<(string, string)>)
    ensures r.None? <==> c !in s
    ensures r.Some? ==> s == r.value.0 + [c] + r.value.1 && c !in r.value.1
  {
    match LastIndex(s, c)
    case None => None
    case Some(i) =>
      assert s == s[..i] + [c] + s[i + 1..];
      Some((s[..i], s[i + 1..]))
  }

  /** The last `c` of `a + [c] + b` is the one in the middle when `b` has none. */
  lemma RSplitOnceAt(a: string, c: char, b: string)
    requires c !in b
    ensures RSplitOnce(a + [c] + b, c) == Some((a, b))
  {
    var s := a + [c] + b;
    var i := LastIndex(s, c).value;
    assert s[|a| + 1..] == b;
    assert forall k :: |a| < k < |s| ==> s[k] == b[k - |a| - 1];
    assert s[|a|] == c;
    assert s[..i] == a && s[i + 1..] == b;
  }

  /** `id` of a manifest item: the file stem after the last `/`. */
  function IdOf(href: string): (r: Option<string>)
    ensures r.Some? <==> '.' in href
    ensures r.Some? ==> '/' !in r.value
  {
    match RSplitOnce(href, '.')
    case None => None
    case Some((stem, _)) =>
      match RSplitOnce(stem, '/')
      case None => Some(stem)
      case Some((_, id)) => Some(id)
  }

  /** The id is exactly the name between the last `/` and the extension. */
  lemma IdOfPath(dir: string, id: string, ext: string)
    requires '/' !in id && '.' !in ext
    ensures IdOf(id + ['.'] + ext) == Some(id)
    ensures IdOf(dir + ['/'] + id + ['.'] + ext) == Some(id)
  {
    RSplitOnceAt(id, '.', ext);
    RSplitOnceAt(dir + ['/'] + id, '.', ext);
    RSplitOnceAt(dir, '/', id);
  }

  const XHTML_MEDIA: string := "application/xhtml+xml"

  /** The media type inferred from a file extension. */
  function MediaTypeOf(ext: string): Option<string>
  {
    if ext == "xhtml" then Some(XHTML_MEDIA)
    else if ext == "png" then Some("image/png")
    else if ext == "jpeg" || ext == "jpg" then Some("image/jpeg")
    else if ext == "svg" then Some("image/svg+xml")
    else if ext == "css" then Some("text/css")
    else None
  }

  /** An `<item />` of the manifest: a file and its media type. */
  datatype ManifestItem = ManifestItem(href: string, mediaType: string)

  /** `ManifestItem::try_new`: an href with a known extension and a non-empty id. */
  function TryNew(href: string): (r: Option<ManifestItem>)
    ensures r.Some? <==> ('.' in href
                          && MediaTypeOf(RSplitOnce(href, '.').value.1).Some?
                          && IdOf(href).value != [])
    ensures r.Some? ==> r.value.href == href
    ensures r.Some? ==> r.value.mediaType == MediaTypeOf(RSplitOnce(href, '.').value.1).value
  {
    match RSplitOnce(href, '.')
    case None => None
    case Some((_, ext)) =>
      match MediaTypeOf(ext)
      case None => None
      case Some(media) =>
        if IdOf(href).value == [] then None
        else Some(ManifestItem(href, media))
  }

  /** A manifest item as `try_new` builds it; the fields are private, so no other kind exists. */
  predicate WellFormed(m: ManifestItem)
  {
    TryNew(m.href) == Some(m)
  }

  /** `id()`: its `expect` holds for items with an extension, which every well-formed item has. */
  function Id(m: ManifestItem): (r: string)
    requires '.' in m.href
    ensures '/' !in r
  {
    IdOf(m.href).value
  }

  /** A well-formed item has an extension and a non-empty id. */
  lemma WellFormedId(m: ManifestItem)
    requires WellFormed(m)
    ensures '.' in m.href && Id(m) != []
  {
  }

  predicate Stemmed(items: seq<ManifestItem>)
  {
    forall i :: 0 <= i < |items| ==> '.' in items[i].href
  }

  /** A file `dir/id.ext` with a known extension is accepted, with the media type of its extension. */
  lemma TryNewAccepts(dir: string, id: string, ext: string)
    requires '/' !in id && '.' !in ext && id != [] && MediaTypeOf(ext).Some?
    ensures TryNew(id + ['.'] + ext) == Some(ManifestItem(id + ['.'] + ext, MediaTypeOf(ext).value))
    ensures Id(ManifestItem(id + ['.'] + ext, MediaTypeOf(ext).value)) == id
    ensures TryNew(dir + ['/'] + id + ['.'] + ext) == Some(ManifestItem(dir + ['/'] + id + ['.'] + ext, MediaTypeOf(ext).value))
    ensures Id(ManifestItem(dir + ['/'] + id + ['.'] + ext, MediaTypeOf(ext).value)) == id
  {
    IdOfPath(dir, id, ext);
    RSplitOnceAt(id, '.', ext);
    RSplitOnceAt(dir + ['/'] + id, '.', ext);
  }

  /** An href without an extension is rejected. */
  lemma TryNewNoExtension(href: string)
    requires '.' !in href
    ensures TryNew(href).None?
  {
  }

  /** An href with an unknown extension is rejected. */
  lemma TryNewUnknownExtension(stem: string, ext: string)
    requires '.' !in ext && MediaTypeOf(ext).None?
    ensures TryNew(stem + ['.'] + ext).None?
  {
    RSplitOnceAt(stem, '.', ext);
  }

  /** An href whose file name is only an extension has an empty id and is rejected. */
  lemma TryNewEmptyId(dir: string, ext: string)
    requires '.' !in ext
    ensures TryNew(dir + ['/', '.'] + ext).None?
  {
    var h := dir + ['/', '.'] + ext;
    assert h == (dir + ['/']) + ['.'] + ext;
    RSplitOnceAt(dir + ['/'], '.', ext);
    RSplitOnceAt(dir, '/', []);
    assert IdOf(h) == Some([]);
  }

  /** `IdentifierType`, with its derived order (declaration order). */
  datatype IdentifierType = Doi | Isbn13 | Isbn10 | Issn | Url | Adhoc

  function IdRank(t: IdentifierType): nat
  {
    match t
    case Doi => 0
    case Isbn13 => 1
    case Isbn10 => 2
    case Issn => 3
    case Url => 4
    case Adhoc => 5
  }

  /** The derived `Ord`: `<` on declaration positions. */
  predicate IdLess(a: IdentifierType, b: IdentifierType)
  {
    IdRank(a) < IdRank(b)
  }

  /** The derived order is Doi < Isbn13 < Isbn10 < Issn < Url < Adhoc, and total. */
  lemma IdentifierOrder(a: IdentifierType, b: IdentifierType)
    ensures IdLess(Doi, Isbn13) && IdLess(Isbn13, Isbn10) && IdLess(Isbn10, Issn)
    ensures IdLess(Issn, Url) && IdLess(Url, Adhoc)
    ensures a == b || IdLess(a, b) || IdLess(b, a)
    ensures !(IdLess(a, b) && IdLess(b, a))
  {
  }

  /** `ContributorRole`, a MARC relator role. */
  datatype ContributorRole = Author | Illustrator | Editor | Narrator | Funder | Translator | Programmer

  /** `marc_code`: the three-letter MARC relator code. */
  function MarcCode(r: ContributorRole): (c: string)
    ensures |c| == 3
  {
    match r
    case Author => "aut"
    case Illustrator => "ill"
    case Editor => "edt"
    case Narrator => "nrt"
    case Funder => "fnd"
    case Translator => "trl"
    case Programmer => "prg"
  }

  /** No two roles share a code. */
  lemma MarcCodeInjective(a: ContributorRole, b: ContributorRole)
    ensures MarcCode(a) == MarcCode(b) ==> a == b
  {
    if MarcCode(a) == MarcCode(b) {
      var c := MarcCode(a);
      assert c[0] == MarcCode(b)[0] && c[1] == MarcCode(b)[1] && c[2] == MarcCode(b)[2];
    }
  }

  /** `OpfError`: which of the three package checks failed. */
  datatype OpfError = OpfError(noNav: bool, noIdentifiers: bool, duplicateManifestItem: bool)

  predicate Any(e: OpfError)
  {
    e.noNav || e.noIdentifiers || e.duplicateManifestItem
  }

  /** An item paired with its id, as `finish` pairs them before collecting. */
  type Keyed = (string, ManifestItem)

  /** Each item with its id, in manifest order. */
  function KeyAll(items: seq<ManifestItem>): (r: seq<Keyed>)
    requires Stemmed(items)
    ensures |r| == |items|
    ensures forall i :: 0 <= i < |items| ==> r[i] == (Id(items[i]), items[i])
  {
    seq(|items|, i requires 0 <= i < |items| => (Id(items[i]), items[i]))
  }

  /** The ids, in order. */
  function Keys(ps: seq<Keyed>): (r: seq<string>)
    ensures |r| == |ps|
  {
    if ps == [] then [] else Keys(ps[..|ps| - 1]) + [ps[|ps| - 1].0]
  }

  /** The id at each position is that item's id. */
  lemma {:induction false} KeysAt(ps: seq<Keyed>, i: nat)
    requires i < |ps|
    ensures Keys(ps)[i] == ps[i].0
  {
    if i < |ps| - 1 {
      KeysAt(ps[..|ps| - 1], i);
    }
  }

  /** The ids of the manifest, in order. */
  function Ids(items: seq<ManifestItem>): (r: seq<string>)
    requires Stemmed(items)
  {
    Keys(KeyAll(items))
  }

  /** `HashMap::from_iter`: a later item replaces an earlier one with the same id. */
  function ToMap(ps: seq<Keyed>): (r: map<string, ManifestItem>)
  {
    if ps == [] then map[]
    else ToMap(ps[..|ps| - 1])[ps[|ps| - 1].0 := ps[|ps| - 1].1]
  }

  /** The ids, in order, whose entry in `m` is XHTML (`spine.retain`). */
  function Retained(ids: seq<string>, m: map<string, ManifestItem>): (r: seq<string>)
  {
    if ids == [] then []
    else
      var last := ids[|ids| - 1];
      Retained(ids[..|ids| - 1], m)
        + (if last in m && m[last].mediaType == XHTML_MEDIA then [last] else [])
  }

  /** Reference definition of the spine: the ids of the XHTML items in manifest order. */
  function XhtmlIds(ps: seq<Keyed>): (r: seq<string>)
  {
    if ps == [] then []
    else
      var last := ps[|ps| - 1];
      XhtmlIds(ps[..|ps| - 1]) + (if last.1.mediaType == XHTML_MEDIA then [last.0] else [])
  }

  predicate Distinct(s: seq<string>)
  {
    forall i, j :: 0 <= i < j < |s| ==> s[i] != s[j]
  }

  /** The errors `finish` reports for these identifiers and this manifest. */
  function Errors(identifiers: seq<(IdentifierType, string)>, items: seq<ManifestItem>): (e: OpfError)
    requires Stemmed(items)
    ensures e.noNav <==> "nav" !in Ids(items)
    ensures e.noIdentifiers <==> identifiers == []
    ensures e.duplicateManifestItem <==> !Distinct(Ids(items))
  {
    var ps := KeyAll(items);
    ToMapKeys(ps);
    ToMapSize(ps);
    OpfError("nav" !in ToMap(ps), identifiers == [], |ToMap(ps)| != |items|)
  }

  lemma {:induction false} KeysPrefix(ps: seq<Keyed>, n: nat)
    requires n <= |ps|
    ensures Keys(ps[..n]) == Keys(ps)[..n]
  {
    if n < |ps| {
      KeysPrefix(ps[..|ps| - 1], n);
      assert ps[..|ps| - 1][..n] == ps[..n];
    } else {
      assert ps[..n] == ps;
    }
  }

  /** The keys of the map are the ids. */
  lemma {:induction false} ToMapKeys(ps: seq<Keyed>)
    ensures forall k :: k in ToMap(ps) <==> k in Keys(ps)
  {
    if ps != [] {
      var n := |ps| - 1;
      ToMapKeys(ps[..n]);
    }
  }

  /** Appending keeps the ids distinct exactly when the new one is fresh. */
  lemma DistinctSnoc(s: seq<string>, x: string)
    ensures Distinct(s + [x]) <==> Distinct(s) && x !in s
  {
    var t := s + [x];
    if Distinct(t) {
      forall i, j | 0 <= i < j < |s| ensures s[i] != s[j] {
        assert s[i] == t[i] && s[j] == t[j];
      }
      forall i | 0 <= i < |s| ensures s[i] != x {
        assert s[i] == t[i] && x == t[|s|];
      }
    }
  }

  /** Updating a map adds one to its size exactly when the key is new. */
  lemma MapUpdateSize(m: map<string, ManifestItem>, k: string, v: ManifestItem)
    ensures |m[k := v]| == if k in m then |m| else |m| + 1
  {
    if k in m {
      assert m[k := v].Keys == m.Keys;
    } else {
      assert m[k := v].Keys == m.Keys + {k};
    }
  }

  /** The map loses a key exactly when two items share an id. */
  lemma {:induction false} ToMapSize(ps: seq<Keyed>)
    ensures |ToMap(ps)| <= |ps|
    ensures |ToMap(ps)| == |ps| <==> Distinct(Keys(ps))
  {
    if ps != [] {
      var n := |ps| - 1;
      var pre := ps[..n];
      ToMapSize(pre);
      ToMapKeys(pre);
      var id := ps[n].0;
      DistinctSnoc(Keys(pre), id);
      MapUpdateSize(ToMap(pre), id, ps[n].1);
      assert id in ToMap(pre) <==> id in Keys(pre);
    }
  }

  /** With distinct ids, every item is the map's entry for its id. */
  lemma {:induction false} ToMapEntry(ps: seq<Keyed>, i: nat)
    requires Distinct(Keys(ps)) && i < |ps|
    ensures ps[i].0 in ToMap(ps) && ToMap(ps)[ps[i].0] == ps[i].1
  {
    var n := |ps| - 1;
    var pre := ps[..n];
    if i < n {
      DistinctSnoc(Keys(pre), ps[n].0);
      ToMapEntry(pre, i);
      KeysAt(pre, i);
    }
  }

  /** With distinct ids, retaining the XHTML ids of the map is the reference spine. */
  lemma {:induction false} RetainedIsXhtmlIds(ps: seq<Keyed>, all: seq<Keyed>)
    requires Distinct(Keys(all)) && |ps| <= |all| && ps == all[..|ps|]
    ensures Retained(Keys(ps), ToMap(all)) == XhtmlIds(ps)
  {
    if ps != [] {
      var n := |ps| - 1;
      var pre := ps[..n];
      assert pre == all[..n];
      RetainedIsXhtmlIds(pre, all);
      ToMapEntry(all, n);
    }
  }

  /** The ids of a two-item manifest. */
  lemma IdsOfTwo(a: ManifestItem, b: ManifestItem)
    requires '.' in a.href && '.' in b.href
    ensures Ids([a, b]) == [Id(a), Id(b)]
  {
    var ps := KeyAll([a, b]);
    assert ps[..1][..0] == [];
    assert Keys(ps[..1]) == [Id(a)];
  }

  /**
   * The source's test: a manifest of the navigation page and one chapter
   * (`IdsOfTwo` gives its ids), with one identifier, passes every check.
   */
  lemma FinishExample(items: seq<ManifestItem>, identifiers: seq<(IdentifierType, string)>, chapter: string)
    requires Stemmed(items) && identifiers != [] && Ids(items) == ["nav", chapter] && chapter != "nav"
    ensures !Any(Errors(identifiers, items))
  {
    assert Distinct(["nav", chapter]);
    assert Ids(items)[0] == "nav";
  }

  /** `OpfSpec`: a checked package, ready to be written. */
  datatype OpfSpec = OpfSpec(
    language: Setting,
    title: Setting,
    publisher: OptSetting,
    date: int,
    identifiers: seq<(IdentifierType, string)>,
    contributors: seq<(ContributorRole, string)>,
    manifestNav: ManifestItem,
    manifestCover: Option<ManifestItem>,
    manifest: map<string, ManifestItem>,
    spine: seq<string>)

  /** The Unix epoch, which `finish` reads as "no date set". */
  const UNIX_EPOCH: int := 0

  /** `OpfBuilder`: the metadata and the manifest collected for one book. */
  class OpfBuilder {
    var language: Setting
    var title: Setting
    var publisher: OptSetting
    var date: int
    var identifiers: seq<(IdentifierType, string)>
    var contributors: seq<(ContributorRole, string)>
    var manifest: seq<ManifestItem>

    /** Every manifest item was made by `try_new`. */
    ghost predicate Valid()
      reads this
    {
      forall i :: 0 <= i < |manifest| ==> WellFormed(manifest[i])
    }

    /** `OpfBuilder::new` (and `Default`). */
    constructor ()
      ensures Valid()
      ensures language == Dft("en") && title == Dft("Ebook") && publisher == NewOptSetting()
      ensures date == UNIX_EPOCH && identifiers == [] && contributors == [] && manifest == []
    {
      language := Dft("en");
      title := Dft("Ebook");
      publisher := NewOptSetting();
      date := UNIX_EPOCH;
      identifiers := [];
      contributors := [];
      manifest := [];
    }

    /** `add_identifier`: appends one identifier. */
    method AddIdentifier(ty: IdentifierType, val: string)
      modifies this
      requires Valid()
      ensures Valid()
      ensures identifiers == old(identifiers) + [(ty, val)]
      ensures language == old(language) && title == old(title) && publisher == old(publisher)
      ensures date == old(date) && contributors == old(contributors) && manifest == old(manifest)
    {
      identifiers := identifiers + [(ty, val)];
    }

    /**
     * `finish`: checks the package and splits `nav` and `cover` off the
     * manifest. `now` stands for the wall clock read when no date was set.
     */
    method Finish(now: int) returns (r: Result<OpfSpec, OpfError>)
      requires Valid()
      ensures Stemmed(manifest)
      ensures r.Err? <==> Any(Errors(identifiers, manifest))
      ensures r.Err? ==> r.error == Errors(identifiers, manifest)
      ensures r.Ok? ==> Distinct(Ids(manifest)) && "nav" in Ids(manifest) && identifiers != []
      ensures r.Ok? ==> r.value.spine == XhtmlIds(KeyAll(manifest))
      ensures r.Ok? ==> r.value.manifestNav == ToMap(KeyAll(manifest))["nav"]
      ensures r.Ok? ==> r.value.manifestCover == (if "cover" in ToMap(KeyAll(manifest)) then Some(ToMap(KeyAll(manifest))["cover"]) else None)
      ensures r.Ok? ==> r.value.manifest == ToMap(KeyAll(manifest)) - {"nav", "cover"}
      ensures r.Ok? ==> r.value.date == (if date == UNIX_EPOCH then now else date)
      ensures r.Ok? ==> r.value.identifiers == identifiers && r.value.contributors == contributors
      ensures r.Ok? ==> r.value.language == language && r.value.title == title && r.value.publisher == publisher
    {
      var items := manifest;
      forall i | 0 <= i < |items| ensures '.' in items[i].href {
        WellFormedId(items[i]);
      }
      var e := OpfError(false, false, false);
      if identifiers == [] {
        e := e.(noIdentifiers := true);
      }
      var ps := KeyAll(items);
      var m, ids := Collect(ps);
      var spine := Retain(ids, m);
      if "nav" !in m {
        e := e.(noNav := true);
      }
      if |m| != |items| {
        e := e.(duplicateManifestItem := true);
      }
      assert e == Errors(identifiers, items);
      if Any(e) {
        return Err(e);
      }
      RetainedIsXhtmlIds(ps, ps);
      assert ps[..|ps|] == ps;
      var nav := m["nav"];
      var cover := if "cover" in m then Some(m["cover"]) else None;
      var rest := m - {"nav", "cover"};
      var d := if date == UNIX_EPOCH then now else date;
      r := Ok(OpfSpec(language, title, publisher, d, identifiers, contributors, nav, cover, rest, spine));
    }
  }

  /** The map of items by id and the list of ids, built by one pass over the keyed manifest. */
  method Collect(ps: seq<Keyed>) returns (m: map<string, ManifestItem>, ids: seq<string>)
    ensures m == ToMap(ps) && ids == Keys(ps)
  {
    m := map[];
    ids := [];
    for n := 0 to |ps|
      invariant m == ToMap(ps[..n]) && ids == Keys(ps[..n])
    {
      assert ps[..n + 1][..n] == ps[..n];
      m := m[ps[n].0 := ps[n].1];
      ids := ids + [ps[n].0];
    }
    assert ps[..|ps|] == ps;
  }

  /** `spine.retain(|i| manifest[i].media_type == "application/xhtml+xml")`. */
  method Retain(ids: seq<string>, m: map<string, ManifestItem>) returns (spine: seq<string>)
    ensures spine == Retained(ids, m)
  {
    spine := [];
    for n := 0 to |ids|
      invariant spine == Retained(ids[..n], m)
    {
      assert ids[..n + 1][..n] == ids[..n];
      if ids[n] in m && m[ids[n]].mediaType == XHTML_MEDIA {
        spine := spine + [ids[n]];
      }
    }
    assert ids[..|ids|] == ids;
  }
}
