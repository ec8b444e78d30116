/**
 * Deserialisation of languages and multi-language strings (src/def/langde.rs),
 * modelled as a fold over the key/value entries of a map.
 */
module LangDe {
  import opened Wrappers
  import opened De
  import opened Lang

  /** `LangV::visit_str`: a language code, or an unknown-variant error listing the codes. */
  function LangVisitStr(v: string): (r: Result<Lang, DeError>)
    ensures r.Ok? <==> v in ALL_LANGS_STR
    ensures r.Ok? ==> ToStr(r.value) == v
    ensures r.Err? ==> r.error == UnknownVariant(v, ALL_LANGS_STR)
  {
    match FromStr(v)
    case Ok(l) => Ok(l)
    case Err(_) => Err(UnknownVariant(v, ALL_LANGS_STR))
  }

  /** `StrLangV::visit_str`: a plain string is a `StrLang` in the default language. */
  method StrLangVisitStr(v: string) returns (r: StrLang)
    ensures fresh(r) && r.Valid() && r.Pairs() == [(DEFAULT_LANG, v)]
  {
    r := new StrLang.FromStr(v);
  }

  type Entry = (string, string)

  /** The fold `visit_map` performs over the entries after the first one. */
  function DecodeRest(rest: seq<Entry>, acc: seq<Pair>): Result<seq<Pair>, DeError>
    decreases |rest|
  {
    if rest == [] then Ok(acc)
    else match LangVisitStr(rest[0].0)
      case Err(e) => Err(e)
      case Ok(l) =>
        if l in Langs(acc) then Err(DuplicateField(ToStr(l)))
        else DecodeRest(rest[1..], acc + [(l, rest[0].1)])
  }

  /** What `visit_map` produces for a map given as its entries in order. */
  function DecodeMap(entries: seq<Entry>): Result<seq<Pair>, DeError>
  {
    if entries == [] then Err(MissingField("language"))
    else match LangVisitStr(entries[0].0)
      case Err(e) => Err(e)
      case Ok(l) => DecodeRest(entries[1..], [(l, entries[0].1)])
  }

  /** One step of the fold at entry `i`: a bad code or a repeated language stops it, anything else is appended. */
  lemma DecodeRestAt(entries: seq<Entry>, i: nat, acc: seq<Pair>)
    requires i < |entries|
    ensures LangVisitStr(entries[i].0).Err? ==> DecodeRest(entries[i..], acc) == Err(LangVisitStr(entries[i].0).error)
    ensures LangVisitStr(entries[i].0).Ok? ==> var l := LangVisitStr(entries[i].0).value;
      DecodeRest(entries[i..], acc) ==
        if l in Langs(acc) then Err(DuplicateField(ToStr(l))) else DecodeRest(entries[i + 1..], acc + [(l, entries[i].1)])
  {
    assert entries[i..][0] == entries[i];
    assert entries[i..][1..] == entries[i + 1..];
  }

  /** `StrLangV::visit_map`. */
  method StrLangVisitMap(entries: seq<Entry>) returns (r: Result<StrLang, DeError>)
    ensures r.Ok? <==> DecodeMap(entries).Ok?
    ensures r.Ok? ==> fresh(r.value) && r.value.Valid() && r.value.Pairs() == DecodeMap(entries).value
    ensures r.Err? ==> r.error == DecodeMap(entries).error
  {
    if entries == [] {
      return Err(MissingField("language"));
    }
    var first := LangVisitStr(entries[0].0);
    if first.Err? {
      return Err(first.error);
    }
    var ret := new StrLang(first.value, entries[0].1);
    assert DecodeMap(entries) == DecodeRest(entries[1..], ret.Pairs());
    var i := 1;
    while i < |entries|
      invariant 1 <= i <= |entries|
      invariant fresh(ret) && ret.Valid()
      invariant DecodeMap(entries) == DecodeRest(entries[i..], ret.Pairs())
    {
      ghost var acc := ret.Pairs();
      DecodeRestAt(entries, i, acc);
      var key := LangVisitStr(entries[i].0);
      if key.Err? {
        return Err(key.error);
      }
      var lang := key.value;
      var res := ret.TrySetAlt(lang, entries[i].1);
      if res.Err? {
        return Err(DuplicateField(ToStr(lang)));
      }
      i := i + 1;
    }
    assert entries[i..] == [];
    return Ok(ret);
  }

  predicate AllKnown(e: seq<Entry>)
  {
    forall i :: 0 <= i < |e| ==> e[i].0 in ALL_LANGS_STR
  }

  /** The pairs a map of known language codes decodes to, one per entry, in order. */
  function Decoded(e: seq<Entry>): (r: seq<Pair>)
    requires AllKnown(e)
    ensures |r| == |e|
  {
    if e == [] then [] else AllKnownCons(e); [(New(e[0].0).value, e[0].1)] + Decoded(e[1..])
  }

  /** Each decoded pair is its entry's code read as a language, with the entry's text. */
  lemma {:induction false} DecodedAt(e: seq<Entry>, i: nat)
    requires AllKnown(e) && i < |e|
    ensures ToStr(Decoded(e)[i].0) == e[i].0 && Decoded(e)[i].1 == e[i].1
  {
    AllKnownCons(e);
    if i > 0 {
      DecodedAt(e[1..], i - 1);
    }
  }

  predicate DistinctKeys(e: seq<Entry>)
  {
    forall i, j :: 0 <= i < j < |e| ==> e[i].0 != e[j].0
  }

  lemma AllKnownCons(e: seq<Entry>)
    requires e != []
    ensures AllKnown(e) <==> e[0].0 in ALL_LANGS_STR && AllKnown(e[1..])
  {
    if e[0].0 in ALL_LANGS_STR && AllKnown(e[1..]) {
      forall i | 0 <= i < |e| ensures e[i].0 in ALL_LANGS_STR {
        if i > 0 { assert e[i] == e[1..][i - 1]; }
      }
    }
    if AllKnown(e) {
      forall i | 0 <= i < |e[1..]| ensures e[1..][i].0 in ALL_LANGS_STR {
        assert e[1..][i] == e[i + 1];
      }
    }
  }

  lemma DistinctSnoc(acc: seq<Pair>, l: Lang, s: string)
    requires DistinctLangs(acc) && l !in Langs(acc)
    ensures DistinctLangs(acc + [(l, s)])
  {
    var acc' := acc + [(l, s)];
    forall i, j | 0 <= i < j < |acc'| ensures acc'[i].0 != acc'[j].0 {
      if j == |acc| { assert Langs(acc)[i] == acc[i].0; }
    }
  }

  lemma NotDistinctIfPresent(acc: seq<Pair>, l: Lang, rest: seq<Pair>)
    requires l in Langs(acc) && rest != [] && rest[0].0 == l
    ensures !DistinctLangs(acc + rest)
  {
    var p :| 0 <= p < |acc| && Langs(acc)[p] == l;
    var q := acc + rest;
    assert q[p].0 == l && q[|acc|].0 == l;
  }

  lemma {:induction false} DecodeRestOk(rest: seq<Entry>, acc: seq<Pair>)
    requires DistinctLangs(acc)
    ensures DecodeRest(rest, acc).Ok? <==> AllKnown(rest) && DistinctLangs(acc + Decoded(rest))
    ensures DecodeRest(rest, acc).Ok? ==> DecodeRest(rest, acc).value == acc + Decoded(rest)
    decreases |rest|
  {
    if rest == [] {
      assert acc + [] == acc;
    } else {
      AllKnownCons(rest);
      var k := rest[0].0;
      if k in ALL_LANGS_STR {
        var l := New(k).value;
        if l in Langs(acc) {
          if AllKnown(rest) {
            NotDistinctIfPresent(acc, l, Decoded(rest));
          }
        } else {
          var acc' := acc + [(l, rest[0].1)];
          DistinctSnoc(acc, l, rest[0].1);
          DecodeRestOk(rest[1..], acc');
          if AllKnown(rest) {
            assert acc' + Decoded(rest[1..]) == acc + Decoded(rest);
          }
        }
      }
    }
  }

  /**
   * A map decodes iff it is non-empty, every key is a known language code and
   * no language appears twice; the languages and texts are the entries', in order.
   */
  lemma DecodeMapOk(e: seq<Entry>)
    ensures DecodeMap(e).Ok? <==> |e| > 0 && AllKnown(e) && DistinctLangs(Decoded(e))
    ensures DecodeMap(e).Ok? ==> DecodeMap(e).value == Decoded(e)
  {
    if e != [] {
      AllKnownCons(e);
      if e[0].0 in ALL_LANGS_STR {
        var l := New(e[0].0).value;
        DecodeRestOk(e[1..], [(l, e[0].1)]);
        if AllKnown(e) {
          assert Decoded(e) == [(l, e[0].1)] + Decoded(e[1..]);
        }
      }
    }
  }

  /** A map of known codes that fails to decode names a repeated language. */
  lemma {:induction false} DecodeRestDuplicate(rest: seq<Entry>, acc: seq<Pair>)
    requires AllKnown(rest)
    ensures DecodeRest(rest, acc).Err? ==> DecodeRest(rest, acc).error.DuplicateField?
    decreases |rest|
  {
    if rest != [] {
      assert rest[0].0 in ALL_LANGS_STR;
      var l := New(rest[0].0).value;
      if l !in Langs(acc) {
        AllKnownCons(rest);
        DecodeRestDuplicate(rest[1..], acc + [(l, rest[0].1)]);
      }
    }
  }

  /** An empty map is a missing-field "language" error; a single known entry becomes the primary string. */
  lemma DecodeMapSmall(k: string, v: string)
    ensures DecodeMap([]) == Err(MissingField("language"))
    ensures k in ALL_LANGS_STR ==> DecodeMap([(k, v)]) == Ok([(New(k).value, v)])
    ensures k !in ALL_LANGS_STR ==> DecodeMap([(k, v)]) == Err(UnknownVariant(k, ALL_LANGS_STR))
  {
  }

  /** The same language twice is a duplicate-field error naming that language. */
  lemma DecodeMapRepeated(k: string, v: string, w: string)
    requires k in ALL_LANGS_STR
    ensures DecodeMap([(k, v), (k, w)]) == Err(DuplicateField(k))
  {
    var l := New(k).value;
    assert [(k, v), (k, w)][1..] == [(k, w)];
    assert Langs([(l, v)]) == [l];
  }
}
