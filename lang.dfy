/**
 * Languages and strings with alternate scripts (generate/src/lang.rs).
 * A `StrLang` is either a single (language, text) pair or a list of them;
 * the list never holds the same language twice.
 */
module Lang {
  import opened Wrappers

  datatype Lang = En | De | Zh | Ja

  const DEFAULT_LANG: Lang := En
  const ALL_LANGS: seq<Lang> := [En, De, Zh, Ja]
  const ALL_LANGS_STR: seq<string> := ["en", "de", "zh", "ja"]

  /** `Lang::new`: the language with this code, if it is implemented. */
  function New(s: string): (r: Option<Lang>)
    ensures r.Some? <==> s in ALL_LANGS_STR
  {
    if s == "en" then Some(En)
    else if s == "de" then Some(De)
    else if s == "zh" then Some(Zh)
    else if s == "ja" then Some(Ja)
    else None
  }

  /** `Lang::to_str` (also `as_str`, `Display`, `Debug`). */
  function ToStr(l: Lang): (r: string)
    ensures New(r) == Some(l)
    ensures r in ALL_LANGS_STR
  {
    match l
    case En => "en"
    case De => "de"
    case Zh => "zh"
    case Ja => "ja"
  }

  /** `FromStr for Lang`: `new` with its failure turned into an error message. */
  function FromStr(s: string): (r: Result<Lang, string>)
    ensures r.Ok? <==> s in ALL_LANGS_STR
    ensures r.Ok? ==> ToStr(r.value) == s
    ensures r.Err? ==> r.error == "invalid or unimplemented language"
  {
    match New(s)
    case Some(l) => NewInverse(s); Ok(l)
    case None => Err("invalid or unimplemented language")
  }

  /** Every code `new` accepts is the `to_str` of what it returns. */
  lemma NewInverse(s: string)
    requires New(s).Some?
    ensures ToStr(New(s).value) == s
  {
  }

  /** The two constant tables list the same languages in the same order. */
  lemma {:induction false} AllLangsTablesAgree(i: nat)
    requires i < |ALL_LANGS|
    ensures |ALL_LANGS_STR| == |ALL_LANGS| && ALL_LANGS_STR[i] == ToStr(ALL_LANGS[i])
  {
  }

  type Pair = (Lang, string)

  /** The languages of a list of pairs, in order. */
  function Langs(p: seq<Pair>): (r: seq<Lang>)
    ensures |r| == |p| && forall i :: 0 <= i < |p| ==> r[i] == p[i].0
  {
    if p == [] then [] else [p[0].0] + Langs(p[1..])
  }

  predicate DistinctLangs(p: seq<Pair>)
  {
    forall i, j :: 0 <= i < j < |p| ==> p[i].0 != p[j].0
  }

  /** Reference definition of a lookup: the text of the first pair for `l`. */
  function Lookup(p: seq<Pair>, l: Lang): Option<string>
  {
    if p == [] then None
    else if p[0].0 == l then Some(p[0].1)
    else Lookup(p[1..], l)
  }

  /**
   * Reference definition of `set_alt` on the list of pairs: overwrite the
   * text of the first pair for `l` in place, or append `(l, s)`.
   */
  function Upsert(p: seq<Pair>, l: Lang, s: string): seq<Pair>
  {
    if p == [] then [(l, s)]
    else if p[0].0 == l then [(l, s)] + p[1..]
    else [p[0]] + Upsert(p[1..], l, s)
  }

  lemma {:induction false} LookupSomeIff(p: seq<Pair>, l: Lang)
    ensures Lookup(p, l).Some? <==> l in Langs(p)
    ensures Lookup(p, l).Some? ==> (l, Lookup(p, l).value) in p
  {
    if p != [] {
      LookupSomeIff(p[1..], l);
      assert Langs(p) == [p[0].0] + Langs(p[1..]);
    }
  }

  /** After an upsert, the language reads back the new text. */
  lemma {:induction false} LookupUpsertSame(p: seq<Pair>, l: Lang, s: string)
    ensures Lookup(Upsert(p, l, s), l) == Some(s)
  {
    if p != [] && p[0].0 != l {
      LookupUpsertSame(p[1..], l, s);
    }
  }

  /** ... and every other language reads back what it read before. */
  lemma {:induction false} LookupUpsertOther(p: seq<Pair>, l: Lang, s: string, m: Lang)
    requires m != l
    ensures Lookup(Upsert(p, l, s), m) == Lookup(p, m)
  {
    if p != [] && p[0].0 != l {
      LookupUpsertOther(p[1..], l, s, m);
    }
  }

  /** An upsert keeps the order of the pairs and either keeps the length or appends one pair. */
  lemma {:induction false} UpsertShape(p: seq<Pair>, l: Lang, s: string)
    ensures l in Langs(p) ==> |Upsert(p, l, s)| == |p| && Langs(Upsert(p, l, s)) == Langs(p)
    ensures l !in Langs(p) ==> Upsert(p, l, s) == p + [(l, s)]
  {
    if p != [] {
      UpsertShape(p[1..], l, s);
      assert Langs(p) == [p[0].0] + Langs(p[1..]);
      if p[0].0 != l {
        assert Langs(Upsert(p, l, s)) == [p[0].0] + Langs(Upsert(p[1..], l, s));
      } else {
        assert Langs(Upsert(p, l, s)) == [l] + Langs(p[1..]);
      }
    }
  }

  /** An upsert never introduces a second pair for a language. */
  lemma UpsertDistinct(p: seq<Pair>, l: Lang, s: string)
    requires DistinctLangs(p)
    ensures DistinctLangs(Upsert(p, l, s))
  {
    UpsertShape(p, l, s);
    var q := Upsert(p, l, s);
    if l in Langs(p) {
      forall i, j | 0 <= i < j < |q| ensures q[i].0 != q[j].0 {
        assert Langs(q)[i] == Langs(p)[i] && Langs(q)[j] == Langs(p)[j];
      }
    } else {
      forall i, j | 0 <= i < j < |q| ensures q[i].0 != q[j].0 {
        if j == |p| {
          assert q[j].0 == l && q[i] == p[i];
          assert Langs(p)[i] == p[i].0;
        }
      }
    }
  }

  datatype StrLangInner = Single(lang: Lang, s: string) | Many(v: seq<Pair>)

  /** `StrLang`: a string with possible alternate scripts. */
  class StrLang {
    var inner: StrLangInner

    ghost predicate Valid()
      reads this
    {
      DistinctLangs(Pairs()) && (inner.Many? ==> |inner.v| >= 2)
    }

    /** `StrLang::new`. */
    constructor (lang: Lang, s: string)
      ensures Valid() && inner == Single(lang, s)
    {
      inner := Single(lang, s);
    }

    /** `From<&str>`, `From<String>`, `From<Box<str>>`: the default language. */
    constructor FromStr(value: string)
      ensures Valid() && inner == Single(DEFAULT_LANG, value)
    {
      inner := Single(DEFAULT_LANG, value);
    }

    /** `iter`: the pairs in insertion order. */
    function Pairs(): seq<Pair>
      reads this
    {
      match inner
      case Single(l, s) => [(l, s)]
      case Many(v) => v
    }

    /** `no_alts`: holds iff the value is a `Single`. */
    predicate NoAlts()
      reads this
      requires Valid()
      ensures NoAlts() <==> |Pairs()| == 1
    {
      inner.Single?
    }

    /** `for_lang`: the text stored for `l`, if any. */
    function ForLang(l: Lang): (r: Option<string>)
      reads this
      ensures r.Some? <==> l in Langs(Pairs())
      ensures r.Some? ==> (l, r.value) in Pairs()
    {
      LookupSomeIff(Pairs(), l);
      match inner
      case Single(l0, s) => if l0 == l then Some(s) else None
      case Many(v) => Lookup(v, l)
    }

    /** `set_primary_lang`: only a `Single` may change its language. */
    method SetPrimaryLang(newLang: Lang) returns (r: Result<(), string>)
      requires Valid()
      modifies this
      ensures Valid()
      ensures old(inner).Single? ==> r.Ok? && inner == Single(newLang, old(inner).s)
      ensures old(inner).Many? ==> r == Err("cannot set primary language ") && inner == old(inner)
    {
      match inner
      case Single(_, s) =>
        inner := Single(newLang, s);
        r := Ok(());
      case Many(_) =>
        r := Err("cannot set primary language ");
    }

    /** Index of the first pair for `l` in `v`, or `|v|`. */
    static method Find(v: seq<Pair>, l: Lang) returns (i: nat)
      ensures i <= |v|
      ensures i < |v| ==> v[i].0 == l
      ensures forall k :: 0 <= k < i ==> v[k].0 != l
    {
      i := 0;
      while i < |v| && v[i].0 != l
        invariant i <= |v|
        invariant forall k :: 0 <= k < i ==> v[k].0 != l
      {
        i := i + 1;
      }
    }

    /** `set_alt`: overwrite the text for `l`, or add `(l, s)`. */
    method SetAlt(l: Lang, s: string)
      requires Valid()
      modifies this
      ensures Valid()
      ensures Pairs() == Upsert(old(Pairs()), l, s)
      ensures old(inner).Single? && old(inner).lang != l ==> inner == Many([(old(inner).lang, old(inner).s), (l, s)])
    {
      UpsertDistinct(Pairs(), l, s);
      match inner
      case Single(l0, s0) =>
        if l0 == l {
          inner := Single(l, s);
        } else {
          inner := Many([(l0, s0), (l, s)]);
        }
      case Many(v) =>
        var i := Find(v, l);
        UpsertAt(v, l, s, i);
        if i < |v| {
          inner := Many(v[i := (l, s)]);
        } else {
          inner := Many(v + [(l, s)]);
        }
    }

    /** `try_set_alt`: like `set_alt`, but an existing language is an error and nothing changes. */
    method TrySetAlt(l: Lang, s: string) returns (r: Result<(), ()>)
      requires Valid()
      modifies this
      ensures Valid()
      ensures r.Err? <==> l in Langs(old(Pairs()))
      ensures r.Err? ==> inner == old(inner)
      ensures r.Ok? ==> Pairs() == old(Pairs()) + [(l, s)]
    {
      UpsertShape(Pairs(), l, s);
      UpsertDistinct(Pairs(), l, s);
      match inner {
        case Single(l0, s0) =>
          if l0 == l {
            return Err(());
          }
          inner := Many([(l0, s0), (l, s)]);
        case Many(v) =>
          var i := Find(v, l);
          if i < |v| {
            assert Langs(v)[i] == l;
            return Err(());
          }
          assert l !in Langs(v);
          inner := Many(v + [(l, s)]);
      }
      r := Ok(());
    }
  }

  /** Ties a found index to the reference upsert. */
  lemma {:induction false} UpsertAt(v: seq<Pair>, l: Lang, s: string, i: nat)
    requires i <= |v|
    requires i < |v| ==> v[i].0 == l
    requires forall k :: 0 <= k < i ==> v[k].0 != l
    ensures i < |v| ==> Upsert(v, l, s) == v[i := (l, s)]
    ensures i == |v| ==> Upsert(v, l, s) == v + [(l, s)]
  {
    if v != [] && v[0].0 != l {
      UpsertAt(v[1..], l, s, i - 1);
      if i < |v| {
        assert v[1..][i - 1 := (l, s)] == v[i := (l, s)][1..];
      } else {
        assert v[1..] + [(l, s)] == (v + [(l, s)])[1..];
      }
    }
  }
}
