/**
 * The EPUB builder's bookkeeping (generate/src/epub/book.rs): how chapters
 * are grouped into file chunks, how sections split the table of contents,
 * which href each chapter gets, and the builder's own state.
 */
module Book {
  import opened Wrappers
  import Ch = Chapter
  import Strings
  import opened Package

  /** `usize::MAX` on the 64-bit targets the generator runs on. */
  const USIZE_MAX: nat := 0xFFFF_FFFF_FFFF_FFFF

  /** `(title, first chapter index)` of a section. */
  type Section = (string, nat)

  /** A range of chapters before it is filtered: title, start, end. */
  type RawRange = (Option<string>, nat, nat)

  /** `Range::len`: zero when the range is empty or reversed. */
  function RangeLen(start: nat, end: nat): nat
  {
    if start < end then end - start else 0
  }

  /** The ranges `section_ranges` chains together, before empty ones are dropped. */
  function RawRanges(sections: seq<Section>): (r: seq<RawRange>)
    requires sections != []
    ensures |r| == |sections| + 1
    ensures r[0] == (None, 0, sections[0].1)
    ensures forall i :: 0 <= i < |sections| - 1 ==> r[i + 1] == (Some(sections[i].0), sections[i].1, sections[i + 1].1)
    ensures r[|sections|] == (Some(sections[|sections| - 1].0), sections[|sections| - 1].1, USIZE_MAX)
  {
    var last := sections[|sections| - 1];
    [(None, 0, sections[0].1)]
      + seq(|sections| - 1, i requires 0 <= i < |sections| - 1 => (Some(sections[i].0), sections[i].1, sections[i + 1].1))
      + [(Some(last.0), last.1, USIZE_MAX)]
  }

  /** `.filter(|(_, r)| !r.is_empty()).map(|(t, r)| (t, r.len()))`. */
  function NonEmpty(rs: seq<RawRange>): (r: seq<(Option<string>, nat)>)
    ensures |r| <= |rs|
    ensures forall i :: 0 <= i < |r| ==> r[i].1 > 0
  {
    if rs == [] then []
    else
      var x := rs[|rs| - 1];
      NonEmpty(rs[..|rs| - 1]) + (if x.1 < x.2 then [(x.0, RangeLen(x.1, x.2))] else [])
  }

  /** `section_ranges`: `None` exactly when there are no sections. */
  function SectionRanges(sections: seq<Section>): (r: Option<seq<(Option<string>, nat)>>)
    ensures r.None? <==> sections == []
    ensures r.Some? ==> forall i :: 0 <= i < |r.value| ==> r.value[i].1 > 0
  {
    if sections == [] then None else Some(NonEmpty(RawRanges(sections)))
  }

  /** Section starts as `add_section` produces them: never decreasing, below `usize::MAX`. */
  predicate Ordered(sections: seq<Section>)
  {
    (forall i :: 0 <= i < |sections| - 1 ==> sections[i].1 <= sections[i + 1].1)
    && (forall i :: 0 <= i < |sections| ==> sections[i].1 <= USIZE_MAX)
  }

  function SumLens(rs: seq<(Option<string>, nat)>): nat
  {
    if rs == [] then 0 else SumLens(rs[..|rs| - 1]) + rs[|rs| - 1].1
  }

  function SumRaw(rs: seq<RawRange>): nat
  {
    if rs == [] then 0 else SumRaw(rs[..|rs| - 1]) + RangeLen(rs[|rs| - 1].1, rs[|rs| - 1].2)
  }

  /** Dropping empty ranges does not change the total. */
  lemma {:induction false} NonEmptySum(rs: seq<RawRange>)
    ensures SumLens(NonEmpty(rs)) == SumRaw(rs)
  {
    if rs != [] {
      var x := rs[|rs| - 1];
      NonEmptySum(rs[..|rs| - 1]);
      var pre := NonEmpty(rs[..|rs| - 1]);
      if x.1 < x.2 {
        assert (pre + [(x.0, RangeLen(x.1, x.2))])[..|pre|] == pre;
      } else {
        assert pre + [] == pre;
      }
    }
  }

  /** The first `k` raw ranges together cover chapters `0 .. sections[k-1].1`. */
  lemma {:induction false} RawPrefixSum(sections: seq<Section>, k: nat)
    requires sections != [] && Ordered(sections) && 1 <= k <= |sections|
    ensures SumRaw(RawRanges(sections)[..k]) == sections[k - 1].1
  {
    var rs := RawRanges(sections);
    if k > 1 {
      RawPrefixSum(sections, k - 1);
      assert rs[..k][..k - 1] == rs[..k - 1];
      assert rs[k - 1] == (Some(sections[k - 2].0), sections[k - 2].1, sections[k - 1].1);
    } else {
      assert rs[..1][..0] == rs[..0];
    }
  }

  /**
   * For sections in `add_section` order, the ranges partition every chapter
   * index below `usize::MAX`, so every chapter falls in exactly one group.
   */
  lemma SectionRangesCover(sections: seq<Section>)
    requires sections != [] && Ordered(sections)
    ensures SumLens(SectionRanges(sections).value) == USIZE_MAX
  {
    var rs := RawRanges(sections);
    var n := |sections|;
    RawPrefixSum(sections, n);
    assert rs[..|rs| - 1] == rs[..n];
    assert SumRaw(rs) == SumRaw(rs[..n]) + RangeLen(sections[n - 1].1, USIZE_MAX);
    NonEmptySum(rs);
    assert SectionRanges(sections).value == NonEmpty(rs);
  }

  /** With no chapters before the first section, there is no untitled group; otherwise it comes first. */
  lemma SectionRangesUntitled(sections: seq<Section>)
    requires sections != []
    ensures sections[0].1 == 0 ==> forall i :: 0 <= i < |SectionRanges(sections).value| ==> SectionRanges(sections).value[i].0.Some?
    ensures sections[0].1 > 0 ==> |SectionRanges(sections).value| > 0
    ensures sections[0].1 > 0 ==> SectionRanges(sections).value[0] == (None, sections[0].1)
  {
    var rs := RawRanges(sections);
    if sections[0].1 > 0 {
      NonEmptyFirst(rs);
    } else {
      NonEmptyTitled(rs);
    }
  }

  lemma {:induction false} NonEmptyTitled(rs: seq<RawRange>)
    requires rs != [] && (rs[0].1 < rs[0].2 ==> rs[0].0.Some?)
    requires forall i :: 1 <= i < |rs| ==> rs[i].0.Some?
    ensures forall i :: 0 <= i < |NonEmpty(rs)| ==> NonEmpty(rs)[i].0.Some?
  {
    if |rs| > 1 {
      NonEmptyTitled(rs[..|rs| - 1]);
    }
  }

  lemma {:induction false} NonEmptyFirst(rs: seq<RawRange>)
    requires rs != [] && rs[0].1 < rs[0].2
    ensures NonEmpty(rs) != [] && NonEmpty(rs)[0] == (rs[0].0, RangeLen(rs[0].1, rs[0].2))
  {
    if |rs| > 1 {
      NonEmptyFirst(rs[..|rs| - 1]);
    }
  }

  // ----- chunks -----

  /** Total `Chapter::size` of a run of chapters. */
  function Total(cs: seq<Ch.Chapter>): nat
  {
    if cs == [] then 0 else Total(cs[..|cs| - 1]) + Ch.Size(cs[|cs| - 1])
  }

  function Concat<T>(ss: seq<seq<T>>): seq<T>
  {
    if ss == [] then [] else Concat(ss[..|ss| - 1]) + ss[|ss| - 1]
  }

  lemma ConcatSnoc<T>(ss: seq<seq<T>>, s: seq<T>)
    ensures Concat(ss + [s]) == Concat(ss) + s
  {
    assert (ss + [s])[..|ss|] == ss;
  }

  lemma TotalSnoc(cs: seq<Ch.Chapter>, c: Ch.Chapter)
    ensures (cs + [c])[..|cs|] == cs
    ensures Total(cs + [c]) == Total(cs) + Ch.Size(c)
  {
    assert (cs + [c])[..|cs|] == cs;
  }

  /** A chunk closes at the first chapter that brings it to `chunk_size`. */
  predicate ShortestRun(c: seq<Ch.Chapter>, chunkSize: nat)
  {
    c != [] && Total(c[..|c| - 1]) < chunkSize
  }

  /**
   * The `chunk_by` in `finish`: the closure's captured `size` is the total
   * of the chunk so far, and a new chunk starts once it reached `chunk_size`
   * (at once when `chunk_size` is 0).
   */
  method ChunkChapters(chapters: seq<Ch.Chapter>, chunkSize: nat) returns (chunks: seq<seq<Ch.Chapter>>)
    requires chapters != []
    ensures Concat(chunks) == chapters
    ensures forall i :: 0 <= i < |chunks| ==> chunks[i] != []
    ensures chunkSize == 0 ==> forall i :: 0 <= i < |chunks| ==> |chunks[i]| == 1
    ensures chunkSize > 0 ==> forall i :: 0 <= i < |chunks| ==> ShortestRun(chunks[i], chunkSize)
    ensures chunkSize > 0 ==> forall i :: 0 <= i < |chunks| - 1 ==> Total(chunks[i]) >= chunkSize
  {
    var size: nat := if chunkSize > 0 then Ch.Size(chapters[0]) else 0;
    var cur := [chapters[0]];
    assert |cur[..0]| == 0;
    chunks := [];
    for i := 1 to |chapters|
      invariant cur != [] && Concat(chunks) + cur == chapters[..i]
      invariant AllClosed(chunks, chunkSize)
      invariant chunkSize == 0 ==> |cur| == 1
      invariant chunkSize > 0 ==> size == Total(cur) && ShortestRun(cur, chunkSize)
    {
      var rsz := Ch.Size(chapters[i]);
      assert chapters[..i + 1] == chapters[..i] + [chapters[i]];
      if size >= chunkSize {
        ConcatSnoc(chunks, cur);
        ClosedSnoc(chunks, cur, chunkSize);
        chunks := chunks + [cur];
        cur := [chapters[i]];
        assert |cur[..0]| == 0;
        size := rsz;
      } else {
        size := size + rsz;
        TotalSnoc(cur, chapters[i]);
        cur := cur + [chapters[i]];
      }
    }
    ConcatSnoc(chunks, cur);
    LastSnoc(chunks, cur, chunkSize);
    chunks := chunks + [cur];
    assert chapters[..|chapters|] == chapters;
  }

  /** A chunk that was closed: nonempty, and a single chapter or the shortest run reaching the size. */
  predicate Closed(c: seq<Ch.Chapter>, chunkSize: nat)
  {
    c != []
    && (chunkSize == 0 ==> |c| == 1)
    && (chunkSize > 0 ==> ShortestRun(c, chunkSize) && Total(c) >= chunkSize)
  }

  predicate AllClosed(chunks: seq<seq<Ch.Chapter>>, chunkSize: nat)
  {
    forall k :: 0 <= k < |chunks| ==> Closed(chunks[k], chunkSize)
  }

  lemma ClosedSnoc(chunks: seq<seq<Ch.Chapter>>, c: seq<Ch.Chapter>, chunkSize: nat)
    requires AllClosed(chunks, chunkSize) && Closed(c, chunkSize)
    ensures AllClosed(chunks + [c], chunkSize)
  {
    forall k | 0 <= k < |chunks + [c]| ensures Closed((chunks + [c])[k], chunkSize) {
      if k < |chunks| { assert (chunks + [c])[k] == chunks[k]; }
    }
  }

  /** The last chunk need not reach the size. */
  lemma LastSnoc(chunks: seq<seq<Ch.Chapter>>, c: seq<Ch.Chapter>, chunkSize: nat)
    requires AllClosed(chunks, chunkSize) && c != []
    requires chunkSize == 0 ==> |c| == 1
    requires chunkSize > 0 ==> ShortestRun(c, chunkSize)
    ensures var r := chunks + [c];
      && (forall i :: 0 <= i < |r| ==> r[i] != [])
      && (chunkSize == 0 ==> forall i :: 0 <= i < |r| ==> |r[i]| == 1)
      && (chunkSize > 0 ==> forall i :: 0 <= i < |r| ==> ShortestRun(r[i], chunkSize))
      && (chunkSize > 0 ==> forall i :: 0 <= i < |r| - 1 ==> Total(r[i]) >= chunkSize)
  {
    var r := chunks + [c];
    forall i | 0 <= i < |chunks| ensures r[i] == chunks[i] && Closed(r[i], chunkSize) {
      assert r[i] == chunks[i];
    }
  }

  // ----- navigation -----

  /** An entry of the table of contents: the chapter's href and title. */
  datatype Entry = Entry(href: string, title: string)

  /** `format!("chunk_{i}.xhtml#{id}")`. */
  function Href(chunk: nat, ch: Ch.Chapter): string
  {
    "chunk_" + Strings.NatToString(chunk) + ".xhtml#" + Ch.IdAnchor(ch.id)
  }

  /** `chapter_hrefs`: every chapter of every chunk, in chunk order then chapter order. */
  function ChapterHrefs(org: seq<seq<Ch.Chapter>>): (r: seq<Entry>)
    ensures |r| == |Concat(org)|
  {
    if org == [] then []
    else
      var n := |org| - 1;
      ChapterHrefs(org[..n]) + ChunkEntries(n, org[n])
  }

  /** The entries of the chapters of chunk `n`. */
  function ChunkEntries(n: nat, c: seq<Ch.Chapter>): (r: seq<Entry>)
    ensures |r| == |c|
  {
    seq(|c|, j requires 0 <= j < |c| => Entry(Href(n, c[j]), c[j].title))
  }

  lemma ChunkEntriesAt(n: nat, c: seq<Ch.Chapter>, j: nat)
    requires j < |c|
    ensures ChunkEntries(n, c)[j] == Entry(Href(n, c[j]), c[j].title)
  {
  }

  /** The entry of chapter `j` of chunk `i` sits after every chapter of the earlier chunks. */
  lemma {:induction false} ChapterHrefsAt(org: seq<seq<Ch.Chapter>>, i: nat, j: nat)
    requires i < |org| && j < |org[i]|
    ensures |Concat(org[..i])| + j < |ChapterHrefs(org)|
    ensures ChapterHrefs(org)[|Concat(org[..i])| + j] == Entry(Href(i, org[i][j]), org[i][j].title)
    ensures Concat(org)[|Concat(org[..i])| + j] == org[i][j]
  {
    var n := |org| - 1;
    var pre := ChapterHrefs(org[..n]);
    assert org[..n + 1] == org;
    assert ChapterHrefs(org) == pre + ChunkEntries(n, org[n]);
    assert Concat(org) == Concat(org[..n]) + org[n];
    if i < n {
      ChapterHrefsAt(org[..n], i, j);
      assert org[..n][..i] == org[..i];
    } else {
      assert org[..i] == org[..n];
      ChunkEntriesAt(n, org[n], j);
    }
  }

  /** One group of the table of contents: an `<li>` with a title, or loose entries. */
  datatype Group = Group(title: Option<string>, entries: seq<Entry>)

  /** The table of contents: grouped by sections, or one flat list. */
  datatype Toc = Sections(groups: seq<Group>) | NoSections(entries: seq<Entry>)

  function Min(a: nat, b: nat): nat
  {
    if a < b then a else b
  }

  /** Reference definition: each group takes the next `len` entries, or what is left. */
  function Distribute(entries: seq<Entry>, ranges: seq<(Option<string>, nat)>): (r: seq<Group>)
    ensures |r| == |ranges|
  {
    if ranges == [] then []
    else
      var k := Min(ranges[0].1, |entries|);
      [Group(ranges[0].0, entries[..k])] + Distribute(entries[k..], ranges[1..])
  }

  function UnionEntries(gs: seq<Group>): seq<Entry>
  {
    if gs == [] then [] else gs[0].entries + UnionEntries(gs[1..])
  }

  function SumNat(ranges: seq<(Option<string>, nat)>): nat
  {
    if ranges == [] then 0 else ranges[0].1 + SumNat(ranges[1..])
  }

  /** The groups list a prefix of the entries, each once, and all of them when the ranges are long enough. */
  lemma {:induction false} DistributeUnion(entries: seq<Entry>, ranges: seq<(Option<string>, nat)>)
    ensures UnionEntries(Distribute(entries, ranges)) == entries[..Min(SumNat(ranges), |entries|)]
  {
    if ranges != [] {
      var k := Min(ranges[0].1, |entries|);
      DistributeUnion(entries[k..], ranges[1..]);
      var rest := Min(SumNat(ranges[1..]), |entries| - k);
      assert entries[..k] + entries[k..][..rest] == entries[..k + rest];
    }
  }

  lemma {:induction false} SumNatLens(ranges: seq<(Option<string>, nat)>)
    ensures SumNat(ranges) == SumLens(ranges)
  {
    if ranges != [] {
      var n := |ranges| - 1;
      SumNatLens(ranges[1..]);
      if n > 0 {
        SumNatLens(ranges[..n]);
        SumNatLens(ranges[1..][..n - 1]);
        assert ranges[1..][..n - 1] == ranges[..n][1..];
        SumNatLens(ranges[..n][1..]);
      } else {
        assert ranges[..0] == [];
      }
    }
  }

  /**
   * `write_sections`: one shared iterator over the chapter entries, each
   * section taking `len` of them. With sections in `add_section` order
   * every chapter is listed exactly once, in order.
   */
  method WriteSections(entries: seq<Entry>, ranges: seq<(Option<string>, nat)>) returns (groups: seq<Group>)
    ensures groups == Distribute(entries, ranges)
  {
    groups := [];
    var pos := 0;
    for s := 0 to |ranges|
      invariant pos <= |entries|
      invariant groups + Distribute(entries[pos..], ranges[s..]) == Distribute(entries, ranges)
    {
      var k := Min(ranges[s].1, |entries| - pos);
      assert entries[pos..][..k] == entries[pos..pos + k];
      assert entries[pos..][k..] == entries[pos + k..];
      assert ranges[s..][1..] == ranges[s + 1..];
      groups := groups + [Group(ranges[s].0, entries[pos..pos + k])];
      pos := pos + k;
    }
  }

  /** With sections, every chapter appears exactly once in the grouped table of contents, in order. */
  lemma SectionsListEveryChapter(sections: seq<Section>, entries: seq<Entry>)
    requires sections != [] && Ordered(sections) && |entries| <= USIZE_MAX
    ensures UnionEntries(Distribute(entries, SectionRanges(sections).value)) == entries
  {
    var ranges := SectionRanges(sections).value;
    SectionRangesCover(sections);
    SumNatLens(ranges);
    DistributeUnion(entries, ranges);
    assert entries[..|entries|] == entries;
  }

  /** `write_nav`'s choice between the grouped and the flat table of contents. */
  method WriteNav(org: seq<seq<Ch.Chapter>>, sections: seq<Section>) returns (toc: Toc)
    ensures sections == [] ==> toc == NoSections(ChapterHrefs(org))
    ensures sections != [] ==> toc == Sections(Distribute(ChapterHrefs(org), SectionRanges(sections).value))
  {
    var hrefs := ChapterHrefs(org);
    match SectionRanges(sections)
    case Some(ranges) =>
      var groups := WriteSections(hrefs, ranges);
      toc := Sections(groups);
    case None =>
      toc := NoSections(hrefs);
  }

  // ----- identifiers -----

  /** The identifiers of one type, in the order they were added. */
  function OfType(ids: seq<(IdentifierType, string)>, t: IdentifierType): (r: seq<(IdentifierType, string)>)
    ensures forall i :: 0 <= i < |r| ==> r[i].0 == t
  {
    if ids == [] then []
    else OfType(ids[..|ids| - 1], t) + (if ids[|ids| - 1].0 == t then [ids[|ids| - 1]] else [])
  }

  /** Reference definition of the stable sort by type: each type's identifiers in turn, in `Ord` order. */
  function SortByType(ids: seq<(IdentifierType, string)>): seq<(IdentifierType, string)>
  {
    OfType(ids, Doi) + (OfType(ids, Isbn13) + (OfType(ids, Isbn10)
      + (OfType(ids, Issn) + (OfType(ids, Url) + OfType(ids, Adhoc)))))
  }

  predicate SortedByType(ids: seq<(IdentifierType, string)>)
  {
    forall i, j :: 0 <= i < j < |ids| ==> IdRank(ids[i].0) <= IdRank(ids[j].0)
  }

  /** The sort orders by type, keeps every identifier, and keeps equal types in insertion order. */
  lemma SortByTypeCorrect(ids: seq<(IdentifierType, string)>)
    ensures SortedByType(SortByType(ids))
    ensures multiset(SortByType(ids)) == multiset(ids)
    ensures forall t :: OfType(SortByType(ids), t) == OfType(ids, t)
  {
    var s := SortByType(ids);
    var parts := [OfType(ids, Doi), OfType(ids, Isbn13), OfType(ids, Isbn10), OfType(ids, Issn), OfType(ids, Url), OfType(ids, Adhoc)];
    forall i, j | 0 <= i < j < |s| ensures IdRank(s[i].0) <= IdRank(s[j].0) {
      PartRank(ids, i);
      PartRank(ids, j);
    }
    OfTypeMultiset(ids);
    forall t ensures OfType(s, t) == OfType(ids, t) {
      OfTypeOfSorted(ids, t);
    }
  }

  /** The rank of the element at position `i` of the sorted list. */
  lemma PartRank(ids: seq<(IdentifierType, string)>, i: nat)
    requires i < |SortByType(ids)|
    ensures var a := |OfType(ids, Doi)|;
      var b := a + |OfType(ids, Isbn13)|;
      var c := b + |OfType(ids, Isbn10)|;
      var d := c + |OfType(ids, Issn)|;
      var e := d + |OfType(ids, Url)|;
      IdRank(SortByType(ids)[i].0) == (if i < a then 0 else if i < b then 1 else if i < c then 2 else if i < d then 3 else if i < e then 4 else 5)
  {
    var a := |OfType(ids, Doi)|;
    var b := a + |OfType(ids, Isbn13)|;
    var c := b + |OfType(ids, Isbn10)|;
    var d := c + |OfType(ids, Issn)|;
    var e := d + |OfType(ids, Url)|;
    var s := SortByType(ids);
    if i < a { assert s[i] == OfType(ids, Doi)[i]; }
    else if i < b { assert s[i] == OfType(ids, Isbn13)[i - a]; }
    else if i < c { assert s[i] == OfType(ids, Isbn10)[i - b]; }
    else if i < d { assert s[i] == OfType(ids, Issn)[i - c]; }
    else if i < e { assert s[i] == OfType(ids, Url)[i - d]; }
    else { assert s[i] == OfType(ids, Adhoc)[i - e]; }
  }

  /** Appending one identifier adds it to the part of its own type only. */
  lemma OfTypeSnoc(pre: seq<(IdentifierType, string)>, x: (IdentifierType, string), t: IdentifierType)
    ensures multiset(OfType(pre + [x], t)) == multiset(OfType(pre, t)) + (if x.0 == t then multiset{x} else multiset{})
  {
    assert (pre + [x])[..|pre|] == pre;
  }

  /** The parts for the listed types, one after another. */
  function ByTypes(ids: seq<(IdentifierType, string)>, ts: seq<IdentifierType>): seq<(IdentifierType, string)>
  {
    if ts == [] then [] else OfType(ids, ts[0]) + ByTypes(ids, ts[1..])
  }

  const ALL_ID_TYPES: seq<IdentifierType> := [Doi, Isbn13, Isbn10, Issn, Url, Adhoc]

  lemma ByTypesCons(ids: seq<(IdentifierType, string)>, t: IdentifierType, ts: seq<IdentifierType>)
    ensures ByTypes(ids, [t] + ts) == OfType(ids, t) + ByTypes(ids, ts)
  {
    assert ([t] + ts)[1..] == ts;
  }

  lemma SortByTypeIsByTypes(ids: seq<(IdentifierType, string)>)
    ensures SortByType(ids) == ByTypes(ids, ALL_ID_TYPES)
  {
    ByTypesCons(ids, Adhoc, []);
    ByTypesCons(ids, Url, [Adhoc]);
    ByTypesCons(ids, Issn, [Url, Adhoc]);
    ByTypesCons(ids, Isbn10, [Issn, Url, Adhoc]);
    ByTypesCons(ids, Isbn13, [Isbn10, Issn, Url, Adhoc]);
    ByTypesCons(ids, Doi, [Isbn13, Isbn10, Issn, Url, Adhoc]);
    assert [Doi] + [Isbn13, Isbn10, Issn, Url, Adhoc] == ALL_ID_TYPES;
  }

  /** Appending one identifier adds it to the parts once when its type is listed once. */
  lemma {:induction false} ByTypesSnoc(pre: seq<(IdentifierType, string)>, x: (IdentifierType, string), ts: seq<IdentifierType>)
    requires forall i, j :: 0 <= i < j < |ts| ==> ts[i] != ts[j]
    ensures multiset(ByTypes(pre + [x], ts)) == multiset(ByTypes(pre, ts)) + (if x.0 in ts then multiset{x} else multiset{})
  {
    if ts != [] {
      var a, b := OfType(pre + [x], ts[0]), ByTypes(pre + [x], ts[1..]);
      assert multiset(ByTypes(pre + [x], ts)) == multiset(a) + multiset(b);
      assert multiset(ByTypes(pre, ts)) == multiset(OfType(pre, ts[0])) + multiset(ByTypes(pre, ts[1..]));
      OfTypeSnoc(pre, x, ts[0]);
      ByTypesSnoc(pre, x, ts[1..]);
      if x.0 == ts[0] {
        assert x.0 !in ts[1..];
      } else {
        assert x.0 in ts <==> x.0 in ts[1..];
      }
    }
  }

  /** Every type is listed exactly once. */
  lemma AllIdTypes(t: IdentifierType)
    ensures forall i, j :: 0 <= i < j < |ALL_ID_TYPES| ==> ALL_ID_TYPES[i] != ALL_ID_TYPES[j]
    ensures t in ALL_ID_TYPES
  {
    assert ALL_ID_TYPES[IdRank(t)] == t;
  }

  lemma {:induction false} ByTypesEmpty(ts: seq<IdentifierType>)
    ensures ByTypes([], ts) == []
  {
    if ts != [] {
      ByTypesEmpty(ts[1..]);
    }
  }

  lemma {:induction false} ByTypesMultiset(ids: seq<(IdentifierType, string)>)
    ensures multiset(ByTypes(ids, ALL_ID_TYPES)) == multiset(ids)
  {
    if ids != [] {
      var n := |ids| - 1;
      var pre, x := ids[..n], ids[n];
      ByTypesMultiset(pre);
      assert ids == pre + [x];
      AllIdTypes(x.0);
      ByTypesSnoc(pre, x, ALL_ID_TYPES);
    } else {
      ByTypesEmpty(ALL_ID_TYPES);
    }
  }

  /** The six parts together hold every identifier once. */
  lemma OfTypeMultiset(ids: seq<(IdentifierType, string)>)
    ensures multiset(SortByType(ids)) == multiset(ids)
  {
    SortByTypeIsByTypes(ids);
    ByTypesMultiset(ids);
  }

  lemma {:induction false} OfTypeAppend(a: seq<(IdentifierType, string)>, b: seq<(IdentifierType, string)>, t: IdentifierType)
    ensures OfType(a + b, t) == OfType(a, t) + OfType(b, t)
  {
    if b != [] {
      var n := |b| - 1;
      OfTypeAppend(a, b[..n], t);
      assert (a + b)[..|a + b| - 1] == a + b[..n];
    } else {
      assert a + b == a;
    }
  }

  lemma {:induction false} OfTypeOnly(a: seq<(IdentifierType, string)>, u: IdentifierType, t: IdentifierType)
    requires forall i :: 0 <= i < |a| ==> a[i].0 == u
    ensures OfType(a, t) == if u == t then a else []
  {
    if a != [] {
      OfTypeOnly(a[..|a| - 1], u, t);
      assert a == a[..|a| - 1] + [a[|a| - 1]];
    }
  }

  lemma OfTypeIdem(ids: seq<(IdentifierType, string)>, u: IdentifierType, t: IdentifierType)
    ensures OfType(OfType(ids, u), t) == if u == t then OfType(ids, u) else []
  {
    OfTypeOnly(OfType(ids, u), u, t);
  }

  lemma {:induction false} ByTypesOfType(ids: seq<(IdentifierType, string)>, ts: seq<IdentifierType>, t: IdentifierType)
    requires forall i, j :: 0 <= i < j < |ts| ==> ts[i] != ts[j]
    ensures OfType(ByTypes(ids, ts), t) == if t in ts then OfType(ids, t) else []
  {
    if ts == [] {
    } else {
      OfTypeAppend(OfType(ids, ts[0]), ByTypes(ids, ts[1..]), t);
      OfTypeIdem(ids, ts[0], t);
      ByTypesOfType(ids, ts[1..], t);
      if t == ts[0] {
        assert t !in ts[1..];
      } else {
        assert t in ts <==> t in ts[1..];
      }
    }
  }

  lemma OfTypeOfSorted(ids: seq<(IdentifierType, string)>, t: IdentifierType)
    ensures OfType(SortByType(ids), t) == OfType(ids, t)
  {
    SortByTypeIsByTypes(ids);
    AllIdTypes(t);
    ByTypesOfType(ids, ALL_ID_TYPES, t);
  }

  // ----- the builder -----

  datatype Compression = Store | Deflate

  /**
   * `EpubBuilder`: the chapters, sections and settings collected for one
   * book. Of the package metadata only the identifiers are kept here.
   */
  class EpubBuilder {
    var chapters: seq<Ch.Chapter>
    var sections: seq<Section>
    var identifiers: seq<(IdentifierType, string)>
    var compression: Compression
    var chunkSize: nat

    /** Sections are recorded in chapter order. */
    ghost predicate Valid()
      reads this
    {
      Ordered(sections)
      && (forall i :: 0 <= i < |sections| ==> sections[i].1 <= |chapters|)
      && |chapters| <= USIZE_MAX
    }

    /** `EpubBuilder::new` (and `Default`). */
    constructor ()
      ensures Valid()
      ensures chapters == [] && sections == [] && identifiers == []
      ensures compression == Deflate && chunkSize == 0
    {
      chapters := [];
      sections := [];
      identifiers := [];
      compression := Deflate;
      chunkSize := 0;
    }

    method SetCompression(c: Compression)
      modifies this
      ensures compression == c
      ensures chapters == old(chapters) && sections == old(sections)
      ensures identifiers == old(identifiers) && chunkSize == old(chunkSize)
    {
      compression := c;
    }

    /** `set_chunk_size`: 0 puts every chapter in its own file. */
    method SetChunkSize(size: nat)
      modifies this
      ensures chunkSize == size
      ensures chapters == old(chapters) && sections == old(sections)
      ensures identifiers == old(identifiers) && compression == old(compression)
    {
      chunkSize := size;
    }

    /** `add_section`: a section starts at the next chapter to be added. */
    method AddSection(title: string)
      modifies this
      requires Valid()
      ensures Valid()
      ensures sections == old(sections) + [(title, |chapters|)]
      ensures chapters == old(chapters) && identifiers == old(identifiers)
      ensures compression == old(compression) && chunkSize == old(chunkSize)
    {
      sections := sections + [(title, |chapters|)];
    }

    /** `add_chapter` (the chapter's resources are not modelled). */
    method AddChapter(ch: Ch.Chapter)
      modifies this
      requires Valid() && |chapters| < USIZE_MAX
      ensures Valid()
      ensures chapters == old(chapters) + [ch]
      ensures sections == old(sections) && identifiers == old(identifiers)
      ensures compression == old(compression) && chunkSize == old(chunkSize)
    {
      chapters := chapters + [ch];
    }

    /** `add_identifier`. */
    method AddIdentifier(ty: IdentifierType, val: string)
      modifies this
      ensures identifiers == old(identifiers) + [(ty, val)]
      ensures chapters == old(chapters) && sections == old(sections)
      ensures compression == old(compression) && chunkSize == old(chunkSize)
    {
      identifiers := identifiers + [(ty, val)];
    }

    /** `sort_identifiers`: the stable sort by type (see `SortByTypeCorrect`). */
    method SortIdentifiers()
      modifies this
      ensures identifiers == SortByType(old(identifiers))
      ensures chapters == old(chapters) && sections == old(sections)
      ensures compression == old(compression) && chunkSize == old(chunkSize)
    {
      identifiers := SortByType(identifiers);
    }

    /**
     * The layout half of `finish`: the chunks, with everything
     * `ChunkChapters` promises of them, and the table of contents `WriteNav`
     * writes for them. Every chapter is listed once, in order.
     */
    method Layout() returns (chunks: seq<seq<Ch.Chapter>>, toc: Toc)
      requires Valid() && chapters != []
      ensures Concat(chunks) == chapters
      ensures forall i :: 0 <= i < |chunks| ==> chunks[i] != []
      ensures chunkSize == 0 ==> forall i :: 0 <= i < |chunks| ==> |chunks[i]| == 1
      ensures chunkSize > 0 ==> forall i :: 0 <= i < |chunks| ==> ShortestRun(chunks[i], chunkSize)
      ensures chunkSize > 0 ==> forall i :: 0 <= i < |chunks| - 1 ==> Total(chunks[i]) >= chunkSize
      ensures sections != [] ==> toc == Sections(Distribute(ChapterHrefs(chunks), SectionRanges(sections).value))
      ensures sections == [] ==> toc == NoSections(ChapterHrefs(chunks))
      ensures sections != [] ==> toc.Sections? && UnionEntries(toc.groups) == ChapterHrefs(chunks)
    {
      chunks := ChunkChapters(chapters, chunkSize);
      toc := WriteNav(chunks, sections);
      if sections != [] {
        SectionsListEveryChapter(sections, ChapterHrefs(chunks));
      }
    }
  }
}
