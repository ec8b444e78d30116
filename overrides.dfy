/**
 * Per-page rule overrides (src/overrides.rs). A book lists override
 * choices, each a selection of chapter URLs with an optional title and a
 * group of rules. The tracker keeps two maps from URL to pending choices:
 * `unactivated`, keyed by the URL that switches a choice on, and `active`,
 * keyed by the URL after which it switches off. Visiting a page moves the
 * choices it switches on, then retires the ones it ends, and returns the
 * rules in force on that page.
 *
 * The rule groups are shared through `Rc` in the source; here they are
 * values. URLs are plain strings.
 */
module Overrides {
  import opened Wrappers
  import opened UrlSel
  import opened SedLang

  /** `def::OverrideChoice`, as read from the book definition. */
  datatype InputChoice = InputChoice(urls: UrlSelection, title: Option<string>, subs: seq<Sed>)

  /** The tracker's `OverrideChoice`: its selection is a single URL or a range. */
  datatype Choice = Choice(urls: UrlSelection, title: Option<string>, subs: seq<Sed>)

  /** `OverrideSet`: the rule groups in force on a page and its title override. */
  datatype OverrideSet = OverrideSet(seds: seq<seq<Sed>>, title: Option<string>)

  type Pending = map<string, seq<Choice>>

  /** `empty`: no rule group and no title override. */
  function Empty(): (r: OverrideSet)
    ensures IsEmpty(r) && Replacers(r) == []
  {
    OverrideSet([], None)
  }

  /** `is_empty`: no rule group and no title. */
  function IsEmpty(o: OverrideSet): (r: bool)
  {
    o.seds == [] && o.title.None?
  }

  /** `replacers`: the rules of the groups, group by group. */
  function Replacers(o: OverrideSet): (r: seq<Sed>)
  {
    Flatten(o.seds)
  }

  function Flatten(gs: seq<seq<Sed>>): (r: seq<Sed>)
  {
    if gs == [] then [] else gs[0] + Flatten(gs[1..])
  }

  /** The rules are exactly those of the groups, each group's in its own order, the groups in order. */
  lemma {:induction false} FlattenMembers(gs: seq<seq<Sed>>, x: Sed)
    ensures x in Flatten(gs) <==> exists i :: 0 <= i < |gs| && x in gs[i]
  {
    if gs != [] {
      FlattenMembers(gs[1..], x);
      if x in Flatten(gs[1..]) {
        var i :| 0 <= i < |gs[1..]| && x in gs[1..][i];
        assert x in gs[i + 1];
      }
      if exists i :: 0 <= i < |gs| && x in gs[i] {
        var i :| 0 <= i < |gs| && x in gs[i];
        if i > 0 {
          assert x in gs[1..][i - 1];
        }
      }
    }
  }

  lemma {:induction false} FlattenAppend(a: seq<seq<Sed>>, b: seq<seq<Sed>>)
    ensures Flatten(a + b) == Flatten(a) + Flatten(b)
  {
    if a == [] {
      assert a + b == b;
    } else {
      assert (a + b)[1..] == a[1..] + b;
      FlattenAppend(a[1..], b);
    }
  }

  /** An empty set of overrides has no rules; a set with rules is not empty. */
  lemma ReplacersOfEmpty(o: OverrideSet)
    ensures IsEmpty(o) ==> Replacers(o) == []
    ensures Replacers(o) == [] <==> forall i :: 0 <= i < |o.seds| ==> o.seds[i] == []
  {
    if Replacers(o) != [] {
      FlattenMembers(o.seds, Replacers(o)[0]);
    } else {
      forall i | 0 <= i < |o.seds|
        ensures o.seds[i] == []
      {
        if o.seds[i] != [] {
          FlattenMembers(o.seds, o.seds[i][0]);
        }
      }
    }
  }

  /** The key under which an active choice waits to be retired: its URL, or the end of its range. */
  function EndKey(c: Choice): string
    requires !c.urls.List?
  {
    match c.urls
    case Url(u) => u
    case Range(_, e) => e
  }

  /** Appends a choice to the list under `k`. */
  function Push(m: Pending, k: string, c: Choice): Pending
  {
    m[k := (if k in m then m[k] else []) + [c]]
  }

  /** A list entry fanned out: each distinct URL of `urls` gets one single-URL choice. */
  function FanOut(m: Pending, urls: set<string>, title: Option<string>, subs: seq<Sed>): Pending
  {
    map k | k in m.Keys + urls :: if k in urls then (if k in m then m[k] else []) + [Choice(Url(k), title, subs)] else m[k]
  }

  /** What `new` does with one entry of the book's overrides. */
  function AddEntry(m: Pending, e: InputChoice): Pending
  {
    match e.urls
    case Range(s, end) => Push(m, s, Choice(Range(s, end), None, e.subs))
    case Url(u) => Push(m, u, Choice(Url(u), e.title, e.subs))
    case List(us) => FanOut(m, (set u | u in us), e.title, e.subs)
  }

  /** The `unactivated` map `new` builds from the entries, in order. */
  function Build(es: seq<InputChoice>): Pending
  {
    if es == [] then map[] else AddEntry(Build(es[..|es| - 1]), es[|es| - 1])
  }

  lemma BuildStep(es: seq<InputChoice>, n: nat)
    requires n < |es|
    ensures Build(es[..n + 1]) == AddEntry(Build(es[..n]), es[n])
  {
    assert es[..n + 1][..n] == es[..n];
  }

  /** A list entry fans out one URL at a time. */
  lemma FanOutStep(m: Pending, urls: set<string>, rest: set<string>, url: string, title: Option<string>, subs: seq<Sed>)
    requires url in rest && rest <= urls
    ensures Push(FanOut(m, urls - rest, title, subs), url, Choice(Url(url), title, subs)) == FanOut(m, urls - (rest - {url}), title, subs)
  {
    assert urls - (rest - {url}) == (urls - rest) + {url};
  }

  /** Where a choice waits before it is switched on: a single URL under itself, a range under its start without its title. */
  predicate WaitsToStart(k: string, c: Choice)
  {
    (c.urls.Url? && c.urls.url == k) || (c.urls.Range? && c.urls.start == k && c.title.None?)
  }

  predicate Unactivated(m: Pending)
  {
    forall k, c :: k in m && c in m[k] ==> WaitsToStart(k, c)
  }

  /** An active choice is a range waiting under its end. */
  predicate Active(m: Pending)
  {
    forall k, c :: k in m && c in m[k] ==> c.urls.Range? && c.urls.end == k
  }

  lemma UnactivatedAt(m: Pending, k: string)
    requires Unactivated(m) && k in m
    ensures forall i :: 0 <= i < |m[k]| ==> WaitsToStart(k, m[k][i])
  {
    forall i | 0 <= i < |m[k]|
      ensures WaitsToStart(k, m[k][i])
    {
      assert m[k][i] in m[k];
    }
  }

  lemma UnactivatedRemove(m: Pending, k: string)
    requires Unactivated(m)
    ensures Unactivated(m - {k})
  {
  }

  lemma ActiveRemove(m: Pending, k: string)
    requires Active(m)
    ensures Active(m - {k})
  {
  }

  lemma PushUnactivated(m: Pending, k: string, c: Choice)
    requires Unactivated(m) && WaitsToStart(k, c)
    ensures Unactivated(Push(m, k, c))
  {
    var r := Push(m, k, c);
    forall j, x | j in r && x in r[j]
      ensures WaitsToStart(j, x)
    {
      if j == k && x != c {
        assert x in (if k in m then m[k] else []);
      }
    }
  }

  lemma FanOutUnactivated(m: Pending, urls: set<string>, title: Option<string>, subs: seq<Sed>)
    requires Unactivated(m)
    ensures Unactivated(FanOut(m, urls, title, subs))
  {
    var r := FanOut(m, urls, title, subs);
    forall j, x | j in r && x in r[j]
      ensures WaitsToStart(j, x)
    {
      if j in urls && x != Choice(Url(j), title, subs) {
        assert x in (if j in m then m[j] else []);
      }
    }
  }

  /** Every choice `new` builds waits where `Unactivated` says. */
  lemma {:induction false} BuildUnactivated(es: seq<InputChoice>)
    ensures Unactivated(Build(es))
  {
    if es != [] {
      var m := Build(es[..|es| - 1]);
      var e := es[|es| - 1];
      BuildUnactivated(es[..|es| - 1]);
      match e.urls
      case Range(s, end) => PushUnactivated(m, s, Choice(Range(s, end), None, e.subs));
      case Url(u) => PushUnactivated(m, u, Choice(Url(u), e.title, e.subs));
      case List(us) => FanOutUnactivated(m, (set u | u in us), e.title, e.subs);
    }
  }

  /** A list is de-duplicated: each distinct URL gets exactly one single-URL choice, carrying the title and rules. */
  lemma ListFansOut(urls: seq<string>, title: Option<string>, subs: seq<Sed>)
    ensures var m := Build([InputChoice(List(urls), title, subs)]);
      m.Keys == (set u | u in urls) && forall u :: u in m ==> m[u] == [Choice(Url(u), title, subs)]
  {
    assert [InputChoice(List(urls), title, subs)][..0] == [];
  }

  /** A range waits under its start, without its title; a single URL waits under itself with its title. */
  lemma RangeAndUrlKeys(s: string, end: string, u: string, title: Option<string>, subs: seq<Sed>)
    ensures Build([InputChoice(Range(s, end), title, subs)]) == map[s := [Choice(Range(s, end), None, subs)]]
    ensures Build([InputChoice(Url(u), title, subs)]) == map[u := [Choice(Url(u), title, subs)]]
  {
    assert [InputChoice(Range(s, end), title, subs)][..0] == [];
    assert [InputChoice(Url(u), title, subs)][..0] == [];
    assert [] + [Choice(Range(s, end), None, subs)] == [Choice(Range(s, end), None, subs)];
    assert [] + [Choice(Url(u), title, subs)] == [Choice(Url(u), title, subs)];
  }

  /** The first loop of `with_url`: each switched-on choice moves, in order, to the key that retires it. */
  function PushAll(act: Pending, cs: seq<Choice>): Pending
    requires forall i :: 0 <= i < |cs| ==> !cs[i].urls.List?
  {
    if cs == [] then act
    else Push(PushAll(act, cs[..|cs| - 1]), EndKey(cs[|cs| - 1]), cs[|cs| - 1])
  }

  lemma PushAllStep(act: Pending, cs: seq<Choice>, i: nat)
    requires forall j :: 0 <= j < |cs| ==> !cs[j].urls.List?
    requires i < |cs|
    ensures PushAll(act, cs[..i + 1]) == Push(PushAll(act, cs[..i]), EndKey(cs[i]), cs[i])
  {
    assert cs[..i + 1][..i] == cs[..i];
  }

  /** `active` once the choices switched on by `u` have moved. */
  function Activated(un: Pending, act: Pending, u: string): Pending
    requires Unactivated(un)
  {
    if u in un then
      UnactivatedAt(un, u);
      PushAll(act, un[u])
    else act
  }

  /** The choices visiting `u` retires: those waiting under `u` once activation is done. */
  function Ending(un: Pending, act: Pending, u: string): seq<Choice>
    requires Unactivated(un)
  {
    var mid := Activated(un, act, u);
    if u in mid then mid[u] else []
  }

  /** The title of the last choice that has one. */
  function LastTitle(cs: seq<Choice>): (r: Option<string>)
    ensures r.Some? <==> exists i :: 0 <= i < |cs| && cs[i].title.Some?
    ensures r.Some? ==> exists i :: 0 <= i < |cs| && cs[i].title == r && forall j :: i < j < |cs| ==> cs[j].title.None?
  {
    if cs == [] then None
    else if cs[|cs| - 1].title.Some? then cs[|cs| - 1].title
    else LastTitle(cs[..|cs| - 1])
  }

  /** The rule groups of the choices, in order. */
  function SubsOf(cs: seq<Choice>): (r: seq<seq<Sed>>)
    ensures |r| == |cs| && forall i :: 0 <= i < |cs| ==> r[i] == cs[i].subs
  {
    if cs == [] then [] else SubsOf(cs[..|cs| - 1]) + [cs[|cs| - 1].subs]
  }

  lemma PrefixStep(cs: seq<Choice>, i: nat)
    requires i < |cs|
    ensures SubsOf(cs[..i + 1]) == SubsOf(cs[..i]) + [cs[i].subs]
    ensures LastTitle(cs[..i + 1]) == if cs[i].title.Some? then cs[i].title else LastTitle(cs[..i])
  {
    assert cs[..i + 1][..i] == cs[..i];
  }

  /** The rule groups of every choice in a map, as a bag (map iteration order is not specified). */
  ghost function Groups(m: Pending): multiset<seq<Sed>>
    decreases |m|
  {
    if m == map[] then multiset{}
    else
      var k :| k in m;
      multiset(SubsOf(m[k])) + Groups(m - {k})
  }

  /** `Groups` does not depend on which key is taken first. */
  lemma {:induction false} GroupsRemove(m: Pending, k: string)
    requires k in m
    ensures Groups(m) == multiset(SubsOf(m[k])) + Groups(m - {k})
    decreases |m|
  {
    var k2 :| k2 in m && Groups(m) == multiset(SubsOf(m[k2])) + Groups(m - {k2});
    if k2 != k {
      RemoveBoth(m, k, k2);
      GroupsRemove(m - {k2}, k);
      GroupsRemove(m - {k}, k2);
    }
  }

  lemma RemoveBoth(m: Pending, k: string, k2: string)
    requires k in m && k2 in m && k != k2
    ensures k in m - {k2} && (m - {k2})[k] == m[k] && |m - {k2}| < |m|
    ensures k2 in m - {k} && (m - {k})[k2] == m[k2] && |m - {k}| < |m|
    ensures (m - {k2}) - {k} == (m - {k}) - {k2}
  {
    assert (m - {k2}).Keys == m.Keys - {k2};
    assert (m - {k}).Keys == m.Keys - {k};
  }

  /** Pushing keeps what was there and adds exactly the pushed choices, each under its retiring key. */
  lemma {:induction false} PushAllHolds(act: Pending, cs: seq<Choice>, k: string, c: Choice)
    requires forall i :: 0 <= i < |cs| ==> !cs[i].urls.List?
    ensures k in PushAll(act, cs) && c in PushAll(act, cs)[k] <==>
      (k in act && c in act[k]) || (c in cs && EndKey(c) == k)
  {
    if cs != [] {
      PushAllHolds(act, cs[..|cs| - 1], k, c);
      assert cs == cs[..|cs| - 1] + [cs[|cs| - 1]];
    }
  }

  /** After a visit, every choice left active is a range waiting under its end. */
  lemma ActiveAfter(un: Pending, act: Pending, u: string)
    requires Unactivated(un) && Active(act)
    ensures Active(Activated(un, act, u) - {u})
  {
    if u in un {
      UnactivatedAt(un, u);
      var r: Pending := PushAll(act, un[u]);
      forall k, c | k in r - {u} && c in (r - {u})[k]
        ensures c.urls.Range? && c.urls.end == k
      {
        PushAllHolds(act, un[u], k, c);
        if !(k in act && c in act[k]) {
          assert WaitsToStart(u, c);
        }
      }
    }
  }

  /** A choice is in a map when it is one of the choices listed under some key. */
  predicate Holds(m: Pending, c: Choice)
  {
    exists k :: k in m && c in m[k]
  }

  /**
   * A visit switches on what waits under its URL and retires what then
   * waits under it: a single URL contributes on that visit and is gone;
   * a range contributes on its first visit and is gone at once when it
   * starts and ends there, and otherwise stays active until its end.
   */
  lemma VisitLifecycle(un: Pending, act: Pending, u: string, c: Choice)
    requires Unactivated(un) && Active(act)
    requires u in un && c in un[u]
    ensures c.urls.Url? ==> c in Ending(un, act, u) && !Holds(Activated(un, act, u) - {u}, c)
    ensures c.urls.Range? && c.urls.end == u ==> c in Ending(un, act, u)
    ensures c.urls.Range? && c.urls.end != u ==> c.urls.end in Activated(un, act, u) - {u} && c in (Activated(un, act, u) - {u})[c.urls.end]
  {
    assert WaitsToStart(u, c);
    UnactivatedAt(un, u);
    PushAllHolds(act, un[u], EndKey(c), c);
    if c.urls.Url? {
      ActiveAfter(un, act, u);
    }
  }

  /** An active range not ending at `u` survives the visit. */
  lemma ActiveSurvives(un: Pending, act: Pending, u: string, k: string, c: Choice)
    requires Unactivated(un)
    requires k in act && c in act[k] && k != u
    ensures k in Activated(un, act, u) - {u} && c in (Activated(un, act, u) - {u})[k]
  {
    if u in un {
      UnactivatedAt(un, u);
      PushAllHolds(act, un[u], k, c);
    }
  }

  /** The inner loop of `new` for a list entry: one single-URL choice per distinct URL, in any order. */
  method FanOutList(un0: Pending, us: seq<string>, title: Option<string>, subs: seq<Sed>) returns (un: Pending)
    ensures un == FanOut(un0, (set u | u in us), title, subs)
  {
    un := un0;
    var urls := set u | u in us;
    var rest := urls;
    while rest != {}
      invariant rest <= urls
      invariant un == FanOut(un0, urls - rest, title, subs)
      decreases |rest|
    {
      var url :| url in rest;
      FanOutStep(un0, urls, rest, url, title, subs);
      un := Push(un, url, Choice(Url(url), title, subs));
      rest := rest - {url};
    }
    assert urls - {} == urls;
  }

  /** The inner loop of the last loop of `with_url`: one active list's rule groups, in order. */
  method PushRanges(tail0: seq<seq<Sed>>, entries: seq<Choice>) returns (tail: seq<seq<Sed>>)
    requires forall i :: 0 <= i < |entries| ==> entries[i].urls.Range?
    ensures tail == tail0 + SubsOf(entries)
  {
    tail := tail0;
    for i := 0 to |entries|
      invariant tail == tail0 + SubsOf(entries[..i])
    {
      PrefixStep(entries, i);
      match entries[i].urls {
        case Range(_, _) =>
          tail := tail + [entries[i].subs];
      }
    }
    assert entries[..|entries|] == entries;
  }

  lemma ActiveAt(m: Pending, k: string)
    requires Active(m) && k in m
    ensures forall i :: 0 <= i < |m[k]| ==> m[k][i].urls.Range?
  {
    forall i | 0 <= i < |m[k]|
      ensures m[k][i].urls.Range?
    {
      assert m[k][i] in m[k];
    }
  }

  /** The last loop of `with_url`: the rule groups of every remaining active range, in the map's order. */
  method CollectActive(act: Pending) returns (tail: seq<seq<Sed>>)
    requires Active(act)
    ensures multiset(tail) == Groups(act)
  {
    tail := [];
    var rest := act;
    while rest != map[]
      invariant Active(rest)
      invariant multiset(tail) + Groups(rest) == Groups(act)
      decreases |rest|
    {
      var k :| k in rest;
      GroupsRemove(rest, k);
      ActiveAt(rest, k);
      ghost var before := tail;
      tail := PushRanges(tail, rest[k]);
      assert multiset(tail) == multiset(before) + multiset(SubsOf(rest[k]));
      ActiveRemove(rest, k);
      rest := rest - {k};
    }
  }

  /** The tracker of `src/overrides.rs`, updated once per visited page. */
  class OverrideTracker {
    var active: Pending
    var unactivated: Pending

    ghost predicate Valid()
      reads this
    {
      Unactivated(unactivated) && Active(active)
    }

    /** `new`: every entry waits under the URL that switches it on; nothing is active. */
    constructor (overrides: seq<InputChoice>)
      ensures Valid()
      ensures unactivated == Build(overrides) && active == map[]
    {
      var un: Pending := map[];
      for n := 0 to |overrides|
        invariant un == Build(overrides[..n])
      {
        BuildStep(overrides, n);
        var entry := overrides[n];
        match entry.urls {
          case Range(s, end) =>
            un := Push(un, s, Choice(Range(s, end), None, entry.subs));
          case Url(u) =>
            un := Push(un, u, Choice(Url(u), entry.title, entry.subs));
          case List(us) =>
            un := FanOutList(un, us, entry.title, entry.subs);
        }
      }
      assert overrides[..|overrides|] == overrides;
      BuildUnactivated(overrides);
      unactivated := un;
      active := map[];
    }

    /**
     * `with_url`: switches on what waits under `url`, retires what then
     * waits under it (taking the last title any of them carries), and
     * returns their rules followed by those of every range still active.
     */
    method WithUrl(url: string) returns (ret: OverrideSet)
      requires Valid()
      modifies this
      ensures Valid()
      ensures unactivated == old(unactivated) - {url}
      ensures active == Activated(old(unactivated), old(active), url) - {url}
      ensures ret.title == LastTitle(Ending(old(unactivated), old(active), url))
      ensures var e := |Ending(old(unactivated), old(active), url)|;
        e <= |ret.seds| && ret.seds[..e] == SubsOf(Ending(old(unactivated), old(active), url)) &&
        multiset(ret.seds[e..]) == Groups(active)
    {
      ghost var un0 := unactivated;
      ghost var act0 := active;
      var act := active;
      if url in unactivated {
        var newV := unactivated[url];
        UnactivatedAt(unactivated, url);
        unactivated := unactivated - {url};
        for i := 0 to |newV|
          invariant act == PushAll(act0, newV[..i])
          invariant unactivated == un0 - {url}
        {
          PushAllStep(act0, newV, i);
          var entry := newV[i];
          var k := match entry.urls
            case Url(u) => u
            case Range(_, e) => e;
          act := Push(act, k, entry);
        }
        assert newV[..|newV|] == newV;
      } else {
        assert unactivated - {url} == unactivated;
      }
      UnactivatedRemove(un0, url);
      assert act == Activated(un0, act0, url);
      var seds: seq<seq<Sed>> := [];
      var title: Option<string> := None;
      var ending: seq<Choice> := [];
      if url in act {
        ending := act[url];
        act := act - {url};
        for i := 0 to |ending|
          invariant seds == SubsOf(ending[..i])
          invariant title == LastTitle(ending[..i])
          invariant unactivated == un0 - {url}
        {
          PrefixStep(ending, i);
          var entry := ending[i];
          if entry.title.Some? {
            title := entry.title;
          }
          seds := seds + [entry.subs];
        }
        assert ending[..|ending|] == ending;
      } else {
        assert act - {url} == act;
      }
      assert ending == Ending(un0, act0, url);
      ActiveAfter(un0, act0, url);
      active := act;
      var tail := CollectActive(act);
      assert (seds + tail)[..|seds|] == seds && (seds + tail)[|seds|..] == tail;
      seds := seds + tail;
      ret := OverrideSet(seds, title);
    }
  }
}
