/**
 * The shapes a selection of chapter URLs can take in a book definition, and
 * the key rules of its map form (src/def/urlsel.rs). URLs are plain strings.
 */
module UrlSel {
  import opened Wrappers
  import opened De

  datatype UrlSelection =
    | Range(start: string, end: string)
    | Url(url: string)
    | List(urls: seq<string>)

  /** `as_slice`: the URLs of a selection that is not a range, in order. */
  function AsSlice(s: UrlSelection): (r: Option<seq<string>>)
    ensures r.None? <==> s.Range?
    ensures s.Url? ==> r == Some([s.url])
    ensures s.List? ==> r == Some(s.urls)
  {
    match s
    case Range(_, _) => None
    case Url(u) => Some([u])
    case List(l) => Some(l)
  }

  /**
   * What `as_slice` keeps: a selection without a slice is a range, a list is
   * determined by its slice, and a single URL reads like the one-element list
   * holding it; so the slice forgets only the difference between those two.
   */
  lemma AsSliceKeeps(a: UrlSelection, b: UrlSelection)
    ensures AsSlice(a).None? ==> exists x, y :: a == Range(x, y)
    ensures a.List? && b.List? && AsSlice(a) == AsSlice(b) ==> a == b
    ensures a.Url? ==> AsSlice(a) == AsSlice(List([a.url]))
    ensures !a.Range? && !b.Range? && AsSlice(a) == AsSlice(b) ==> a == b || (a.Url? && b == List([a.url])) || (b.Url? && a == List([b.url]))
  {
    if AsSlice(a).None? {
      assert a == Range(a.start, a.end);
    }
  }

  /** `visit_str`: a bare string is a single URL. */
  function VisitStr(v: string): (r: UrlSelection)
    ensures AsSlice(r) == Some([v])
  {
    Url(v)
  }

  /** `visit_seq`: a bare sequence is a list, in order. */
  method VisitSeq(items: seq<string>) returns (r: UrlSelection)
    ensures AsSlice(r) == Some(items) && r.List?
  {
    var v: seq<string> := [];
    var i := 0;
    while i < |items|
      invariant i <= |items| && v == items[..i]
    {
      v := v + [items[i]];
      i := i + 1;
    }
    assert items[..i] == items;
    r := List(v);
  }

  /** The four keys of the map form. */
  datatype Field = Start | End | UrlKey | Urls

  const FIELDS: seq<string> := ["start", "end", "url", "urls"]

  /** The key as written in the definition file (`rename_all = "lowercase"`). */
  function FieldName(f: Field): string
  {
    match f
    case Start => "start"
    case End => "end"
    case UrlKey => "url"
    case Urls => "urls"
  }

  /** The field identifier deserialiser: only the four lower-case names are keys. */
  function FieldOf(key: string): (r: Result<Field, DeError>)
    ensures r.Ok? <==> key in FIELDS
    ensures r.Ok? ==> FieldName(r.value) == key
    ensures r.Err? ==> r.error == UnknownField(key, FIELDS)
  {
    if key == "start" then Ok(Start)
    else if key == "end" then Ok(End)
    else if key == "url" then Ok(UrlKey)
    else if key == "urls" then Ok(Urls)
    else Err(UnknownField(key, FIELDS))
  }

  /** A map value: a string or a sequence of strings. */
  datatype Value = VStr(s: string) | VSeq(items: seq<string>)

  function UrlValue(v: Value): Result<string, DeError>
  {
    match v
    case VStr(s) => Ok(s)
    case VSeq(_) => Err(InvalidType("a url"))
  }

  function UrlsValue(v: Value): Result<seq<string>, DeError>
  {
    match v
    case VSeq(l) => Ok(l)
    case VStr(_) => Err(InvalidType("a sequence of urls"))
  }

  /** The four `Option` locals of `visit_map`. */
  datatype MapState = MapState(
    start: Option<string>, end: Option<string>, url: Option<string>, urls: Option<seq<string>>)

  const EMPTY: MapState := MapState(None, None, None, None)

  /** One iteration of the key loop: the duplicate check, then the conflict check, then the value. */
  function Step(st: MapState, key: Field, v: Value): Result<MapState, DeError>
  {
    match key
    case Start =>
      if st.start.Some? then Err(DuplicateField("start"))
      else if st.urls.Some? || st.url.Some? then Err(DuplicateField("url range"))
      else (match UrlValue(v) case Err(e) => Err(e) case Ok(u) => Ok(st.(start := Some(u))))
    case End =>
      if st.end.Some? then Err(DuplicateField("end"))
      else if st.urls.Some? || st.url.Some? then Err(DuplicateField("url range"))
      else (match UrlValue(v) case Err(e) => Err(e) case Ok(u) => Ok(st.(end := Some(u))))
    case UrlKey =>
      if st.url.Some? then Err(DuplicateField("url"))
      else if st.urls.Some? || st.start.Some? || st.end.Some? then Err(DuplicateField("url range"))
      else (match UrlValue(v) case Err(e) => Err(e) case Ok(u) => Ok(st.(url := Some(u))))
    case Urls =>
      if st.urls.Some? then Err(DuplicateField("urls"))
      else if st.url.Some? || st.start.Some? || st.end.Some? then Err(DuplicateField("url range"))
      else (match UrlsValue(v) case Err(e) => Err(e) case Ok(l) => Ok(st.(urls := Some(l))))
  }

  type MapEntry = (string, Value)

  function FoldFrom(rest: seq<MapEntry>, st: MapState): Result<MapState, DeError>
    decreases |rest|
  {
    if rest == [] then Ok(st)
    else match FieldOf(rest[0].0)
      case Err(e) => Err(e)
      case Ok(f) =>
        match Step(st, f, rest[0].1)
        case Err(e) => Err(e)
        case Ok(st') => FoldFrom(rest[1..], st')
  }

  /** What the locals decide once the keys are exhausted. */
  function Finish(st: MapState): Result<UrlSelection, DeError>
  {
    if st.start.Some? && st.end.Some? then Ok(Range(st.start.value, st.end.value))
    else if st.start.None? && st.end.Some? then Err(MissingField("start"))
    else if st.start.Some? && st.end.None? then Err(MissingField("end"))
    else if st.url.Some? then Ok(Url(st.url.value))
    else if st.urls.Some? then Ok(List(st.urls.value))
    else Err(InvalidValue("struct variant", "either single url, range start..=end, or list"))
  }

  /** What `visit_map` produces for a map given as its entries in order. */
  function VisitMapSpec(entries: seq<MapEntry>): Result<UrlSelection, DeError>
  {
    match FoldFrom(entries, EMPTY)
    case Err(e) => Err(e)
    case Ok(st) => Finish(st)
  }

  /** `visit_map`: four optional locals updated per key, with early returns. */
  method VisitMap(entries: seq<MapEntry>) returns (r: Result<UrlSelection, DeError>)
    ensures r == VisitMapSpec(entries)
  {
    var start: Option<string> := None;
    var end: Option<string> := None;
    var url: Option<string> := None;
    var urls: Option<seq<string>> := None;
    var i := 0;
    while i < |entries|
      invariant i <= |entries|
      invariant FoldFrom(entries, EMPTY) == FoldFrom(entries[i..], MapState(start, end, url, urls))
    {
      ghost var st := MapState(start, end, url, urls);
      assert entries[i..][1..] == entries[i + 1..];
      var key := FieldOf(entries[i].0);
      if key.Err? {
        return Err(key.error);
      }
      var v := entries[i].1;
      match key.value {
        case Start =>
          if start.Some? { return Err(DuplicateField("start")); }
          if urls.Some? || url.Some? { return Err(DuplicateField("url range")); }
          var u := UrlValue(v);
          if u.Err? { return Err(u.error); }
          start := Some(u.value);
        case End =>
          if end.Some? { return Err(DuplicateField("end")); }
          if urls.Some? || url.Some? { return Err(DuplicateField("url range")); }
          var u := UrlValue(v);
          if u.Err? { return Err(u.error); }
          end := Some(u.value);
        case UrlKey =>
          if url.Some? { return Err(DuplicateField("url")); }
          if urls.Some? || start.Some? || end.Some? { return Err(DuplicateField("url range")); }
          var u := UrlValue(v);
          if u.Err? { return Err(u.error); }
          url := Some(u.value);
        case Urls =>
          if urls.Some? { return Err(DuplicateField("urls")); }
          if url.Some? || start.Some? || end.Some? { return Err(DuplicateField("url range")); }
          var l := UrlsValue(v);
          if l.Err? { return Err(l.error); }
          urls := Some(l.value);
      }
      i := i + 1;
    }
    var st := MapState(start, end, url, urls);
    if start.Some? && end.Some? {
      return Ok(Range(start.value, end.value));
    } else if start.None? && end.Some? {
      return Err(MissingField("start"));
    } else if start.Some? && end.None? {
      return Err(MissingField("end"));
    }
    if url.Some? {
      return Ok(Url(url.value));
    }
    if urls.Some? {
      return Ok(List(urls.value));
    }
    r := Err(InvalidValue("struct variant", "either single url, range start..=end, or list"));
  }

  /** Every key is one of the four names and carries a value of the right shape. */
  predicate WellTyped(e: seq<MapEntry>)
  {
    forall i :: 0 <= i < |e| ==> e[i].0 in FIELDS && (e[i].1.VSeq? <==> e[i].0 == "urls")
  }

  function Keys(e: seq<MapEntry>): set<string>
  {
    set i | 0 <= i < |e| :: e[i].0
  }

  predicate DistinctKeys(e: seq<MapEntry>)
  {
    forall i, j :: 0 <= i < j < |e| ==> e[i].0 != e[j].0
  }

  /** Key sets that do not mix the three forms. */
  predicate Compatible(k: set<string>)
  {
    ("url" in k ==> k == {"url"}) && ("urls" in k ==> k == {"urls"})
  }

  /** The locals record exactly the keys seen so far. */
  predicate Records(st: MapState, k: set<string>)
  {
    && (st.start.Some? <==> "start" in k)
    && (st.end.Some? <==> "end" in k)
    && (st.url.Some? <==> "url" in k)
    && (st.urls.Some? <==> "urls" in k)
    && k <= {"start", "end", "url", "urls"}
  }

  lemma StepOk(st: MapState, k: set<string>, f: Field, v: Value)
    requires Records(st, k) && Compatible(k)
    requires v.VSeq? <==> f == Urls
    ensures Step(st, f, v).Ok? <==> FieldName(f) !in k && Compatible(k + {FieldName(f)})
    ensures Step(st, f, v).Ok? ==> Records(Step(st, f, v).value, k + {FieldName(f)})
    ensures Step(st, f, v).Err? ==> Step(st, f, v).error.DuplicateField?
  {
    var k' := k + {FieldName(f)};
    match f
    case UrlKey =>
      if Step(st, f, v).Ok? { assert k == {}; assert k' == {"url"}; }
    case Urls =>
      if Step(st, f, v).Ok? { assert k == {}; assert k' == {"urls"}; }
    case Start =>
      if "urls" in k { assert "start" in k'; assert k' != {"urls"}; }
      if "url" in k { assert "start" in k'; assert k' != {"url"}; }
    case End =>
      if "urls" in k { assert "end" in k'; assert k' != {"urls"}; }
      if "url" in k { assert "end" in k'; assert k' != {"url"}; }
  }

  lemma WellTypedCons(e: seq<MapEntry>)
    requires e != [] && WellTyped(e)
    ensures WellTyped(e[1..])
    ensures FieldOf(e[0].0).Ok?
    ensures Keys(e) == {e[0].0} + Keys(e[1..])
  {
    forall i | 0 <= i < |e[1..]| ensures e[1..][i].0 in FIELDS && (e[1..][i].1.VSeq? <==> e[1..][i].0 == "urls") {
      assert e[1..][i] == e[i + 1];
    }
    forall x | x in Keys(e) ensures x in {e[0].0} + Keys(e[1..]) {
      var i :| 0 <= i < |e| && e[i].0 == x;
      if i > 0 { assert e[1..][i - 1] == e[i]; }
    }
    forall x | x in Keys(e[1..]) ensures x in Keys(e) {
      var i :| 0 <= i < |e[1..]| && e[1..][i].0 == x;
      assert e[i + 1] == e[1..][i];
    }
  }

  lemma DistinctCons(e: seq<MapEntry>)
    requires e != []
    ensures DistinctKeys(e) <==> e[0].0 !in Keys(e[1..]) && DistinctKeys(e[1..])
  {
    if DistinctKeys(e) {
      forall i, j | 0 <= i < j < |e[1..]| ensures e[1..][i].0 != e[1..][j].0 {
        assert e[1..][i] == e[i + 1] && e[1..][j] == e[j + 1];
      }
      forall i | 0 <= i < |e[1..]| ensures e[1..][i].0 != e[0].0 {
        assert e[1..][i] == e[i + 1];
      }
    }
    if e[0].0 !in Keys(e[1..]) && DistinctKeys(e[1..]) {
      forall i, j | 0 <= i < j < |e| ensures e[i].0 != e[j].0 {
        assert e[j] == e[1..][j - 1];
        if i > 0 { assert e[i] == e[1..][i - 1]; }
      }
    }
  }

  /**
   * Over well-typed entries, the key loop succeeds iff no key repeats, no key
   * was seen before, and the keys seen overall do not mix forms; every failure
   * is a duplicate-field error.
   */
  lemma {:induction false} FoldFromOk(rest: seq<MapEntry>, st: MapState, k: set<string>)
    requires WellTyped(rest) && Records(st, k) && Compatible(k)
    ensures FoldFrom(rest, st).Ok? <==> DistinctKeys(rest) && Keys(rest) !! k && Compatible(k + Keys(rest))
    ensures FoldFrom(rest, st).Ok? ==> Records(FoldFrom(rest, st).value, k + Keys(rest))
    ensures FoldFrom(rest, st).Err? ==> FoldFrom(rest, st).error.DuplicateField?
    decreases |rest|
  {
    if rest == [] {
      assert Keys(rest) == {};
      assert k + Keys(rest) == k;
    } else {
      WellTypedCons(rest);
      DistinctCons(rest);
      var f := FieldOf(rest[0].0).value;
      var v := rest[0].1;
      StepOk(st, k, f, v);
      var k' := k + {rest[0].0};
      assert k + Keys(rest) == k' + Keys(rest[1..]);
      if Step(st, f, v).Ok? {
        FoldFromOk(rest[1..], Step(st, f, v).value, k');
      } else {
        if rest[0].0 !in k && !Compatible(k') {
          assert !Compatible(k + Keys(rest)) by {
            if "url" in k' && k' != {"url"} {
              var y :| y in k' && y != "url";
              assert y in k + Keys(rest);
            }
            if "urls" in k' && k' != {"urls"} {
              var y :| y in k' && y != "urls";
              assert y in k + Keys(rest);
            }
          }
        }
      }
    }
  }

  lemma FinishOk(st: MapState, k: set<string>)
    requires Records(st, k) && Compatible(k)
    ensures Finish(st).Ok? <==> k in {{"start", "end"}, {"url"}, {"urls"}}
  {
    if "url" !in k && "urls" !in k {
      assert k <= {"start", "end"};
      assert k != {"url"} && k != {"urls"};
      if "start" in k && "end" in k {
        assert k == {"start", "end"};
      } else {
        assert k != {"start", "end"};
      }
    }
  }

  /**
   * The map form over well-typed entries: it is accepted iff no key repeats
   * and the keys are exactly {start, end}, {url} or {urls}, with the matching
   * selection; a repeated or mixed key is a duplicate-field error; a lone
   * `start` or `end` is a missing-field error, and an empty map an invalid value.
   */
  lemma VisitMapCharacterised(e: seq<MapEntry>)
    requires WellTyped(e)
    ensures VisitMapSpec(e).Ok? <==> DistinctKeys(e) && Keys(e) in {{"start", "end"}, {"url"}, {"urls"}}
    ensures !DistinctKeys(e) || !Compatible(Keys(e)) ==> VisitMapSpec(e).Err? && VisitMapSpec(e).error.DuplicateField?
    ensures VisitMapSpec(e).Ok? && Keys(e) == {"start", "end"} ==> VisitMapSpec(e).value.Range?
    ensures VisitMapSpec(e).Ok? && Keys(e) == {"url"} ==> VisitMapSpec(e).value.Url?
    ensures VisitMapSpec(e).Ok? && Keys(e) == {"urls"} ==> VisitMapSpec(e).value.List?
    ensures DistinctKeys(e) && Keys(e) == {"start"} ==> VisitMapSpec(e) == Err(MissingField("end"))
    ensures DistinctKeys(e) && Keys(e) == {"end"} ==> VisitMapSpec(e) == Err(MissingField("start"))
    ensures e == [] ==> VisitMapSpec(e).Err? && VisitMapSpec(e).error.InvalidValue?
  {
    FoldFromOk(e, EMPTY, {});
    assert {} + Keys(e) == Keys(e);
    var k := Keys(e);
    if FoldFrom(e, EMPTY).Ok? {
      var st := FoldFrom(e, EMPTY).value;
      FinishOk(st, k);
    }
  }

  /** The two key orders of a range give the same selection. */
  lemma RangeEitherOrder(a: string, b: string)
    ensures VisitMapSpec([("start", VStr(a)), ("end", VStr(b))]) == Ok(Range(a, b))
    ensures VisitMapSpec([("end", VStr(b)), ("start", VStr(a))]) == Ok(Range(a, b))
  {
    var e1 := [("start", VStr(a)), ("end", VStr(b))];
    var e2 := [("end", VStr(b)), ("start", VStr(a))];
    assert e1[1..][1..] == [] && e2[1..][1..] == [];
    assert FoldFrom(e1[1..][1..], MapState(Some(a), Some(b), None, None)) == Ok(MapState(Some(a), Some(b), None, None));
    assert FoldFrom(e1[1..], MapState(Some(a), None, None, None)) == Ok(MapState(Some(a), Some(b), None, None));
    assert FoldFrom(e1, EMPTY) == Ok(MapState(Some(a), Some(b), None, None));
    assert FoldFrom(e2[1..], MapState(None, Some(b), None, None)) == Ok(MapState(Some(a), Some(b), None, None));
    assert FoldFrom(e2, EMPTY) == Ok(MapState(Some(a), Some(b), None, None));
  }
}
