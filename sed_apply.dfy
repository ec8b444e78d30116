/**
 * `apply_full_expensive` of src/def/sed.rs: a delete rule detaches the
 * elements it deletes, a substitute rule rewrites the text nodes it matches,
 * and every other rule leaves the document alone. The document is the node
 * arena of `Dom`; node indices are taken as document order.
 */
module SedApply {
  import opened Wrappers
  import opened Dom
  import opened SedLang
  import opened SedEval

  /** The strict ancestors of `n`. */
  ghost function AncSet(d: Doc, n: nat): set<nat>
  {
    set a: nat | a < |d| && IsAncestor(d, a, n)
  }

  /** `a` is a strict ancestor of some node of `ts`. */
  ghost predicate AboveSome(d: Doc, ts: seq<nat>, a: nat)
  {
    exists k :: 0 <= k < |ts| && IsAncestor(d, a, ts[k])
  }

  /** The strict ancestors of some node of `ts`. */
  ghost function AncestorsOf(d: Doc, ts: seq<nat>): set<nat>
  {
    set a: nat | a < |d| && AboveSome(d, ts, a)
  }

  /** A set that holds every ancestor of each of its members. */
  ghost predicate Closed(d: Doc, ids: set<nat>)
  {
    forall x: nat, a: nat :: x in ids && IsAncestor(d, a, x) ==> a in ids
  }

  /** The strict ancestors of `n` that lie below `cur` (all of them once `cur` is none). */
  ghost function PathBelow(d: Doc, n: nat, cur: Option<nat>): set<nat>
  {
    set a: nat | a < |d| && IsAncestor(d, a, n) && (cur.None? || a > cur.value)
  }

  /** Walking starts at the parent: nothing lies between a node and its parent. */
  lemma PathStart(d: Doc, n: nat)
    requires ParentsBefore(d) && n < |d|
    ensures PathBelow(d, n, d[n].parent) == {}
  {
    forall a: nat | a < |d| && IsAncestor(d, a, n)
      ensures d[n].parent.Some? && a <= d[n].parent.value
    {
      if a != d[n].parent.value {
        AncestorBefore(d, a, d[n].parent.value);
      }
    }
  }

  /** One step up: the ancestor `a` joins the path, and the walk moves to its parent. */
  lemma PathStep(d: Doc, n: nat, a: nat)
    requires ParentsBefore(d) && a < |d| && IsAncestor(d, a, n)
    ensures PathBelow(d, n, d[a].parent) == PathBelow(d, n, Some(a)) + {a}
    ensures d[a].parent.Some? ==> IsAncestor(d, d[a].parent.value, n)
  {
    AncestorBefore(d, a, n);
    if d[a].parent.Some? {
      AncestorTrans(d, d[a].parent.value, a, n);
    }
    forall x: nat | x in PathBelow(d, n, d[a].parent)
      ensures x in PathBelow(d, n, Some(a)) + {a}
    {
      if x < a {
        AncestorChain(d, x, a, n);
        if x != d[a].parent.value {
          AncestorBefore(d, x, d[a].parent.value);
        }
      }
    }
  }

  /** Stopping at an ancestor already collected: a closed set holds everything above it. */
  lemma PathBreak(d: Doc, n: nat, a: nat, r0: set<nat>)
    requires IsAncestor(d, a, n) && a in r0 && Closed(d, r0)
    ensures AncSet(d, n) <= r0 + PathBelow(d, n, Some(a))
  {
    forall x: nat | x in AncSet(d, n)
      ensures x in r0 + PathBelow(d, n, Some(a))
    {
      if x < a {
        AncestorChain(d, x, a, n);
      }
    }
  }

  /** Adding the ancestors of one more node keeps the set closed and extends `AncestorsOf` by one. */
  lemma ClosureStep(d: Doc, ts: seq<nat>, i: nat, r0: set<nat>)
    requires i < |ts| && r0 == AncestorsOf(d, ts[..i]) && Closed(d, r0)
    ensures r0 + AncSet(d, ts[i]) == AncestorsOf(d, ts[..i + 1])
    ensures Closed(d, r0 + AncSet(d, ts[i]))
  {
    var n := ts[i];
    forall x: nat, a: nat | x in AncSet(d, n) && IsAncestor(d, a, x)
      ensures a in AncSet(d, n)
    {
      AncestorTrans(d, a, x, n);
      AncestorBefore(d, a, x);
    }
    assert ts[..i + 1][i] == n;
    forall a: nat | a in AncestorsOf(d, ts[..i + 1])
      ensures a in r0 + AncSet(d, n)
    {
      var k :| 0 <= k < i + 1 && IsAncestor(d, a, ts[..i + 1][k]);
      if k < i {
        assert ts[..i][k] == ts[..i + 1][k];
      }
    }
    forall a: nat | a in r0
      ensures a in AncestorsOf(d, ts[..i + 1])
    {
      var k :| 0 <= k < i && IsAncestor(d, a, ts[..i][k]);
      assert ts[..i + 1][k] == ts[..i][k];
    }
  }

  /**
   * The `reg_ids` loop: the ancestors of every node of `ts`, walking up from
   * each and stopping at the first ancestor already collected.
   */
  method AncestorClosure(d: Doc, ts: seq<nat>) returns (ids: set<nat>)
    requires ParentsBefore(d)
    requires forall k :: 0 <= k < |ts| ==> ts[k] < |d|
    ensures ids == AncestorsOf(d, ts)
  {
    ids := {};
    for i := 0 to |ts|
      invariant ids == AncestorsOf(d, ts[..i])
      invariant Closed(d, ids)
    {
      var n := ts[i];
      ghost var r0 := ids;
      var cur := d[n].parent;
      PathStart(d, n);
      while cur.Some?
        invariant cur.Some? ==> cur.value < |d| && IsAncestor(d, cur.value, n)
        invariant ids == r0 + PathBelow(d, n, cur)
        decreases if cur.Some? then cur.value + 1 else 0
      {
        var a := cur.value;
        if a in ids {
          assert a !in PathBelow(d, n, cur);
          PathBreak(d, n, a, r0);
          break;
        }
        ids := ids + {a};
        PathStep(d, n, a);
        cur := d[a].parent;
      }
      assert ids == r0 + AncSet(d, n);
      ClosureStep(d, ts, i, r0);
    }
    assert ts[..|ts|] == ts;
  }

  /** The `reg_match_ids` loop: the text nodes the expression matches, in document order. */
  method MatchingTexts(re: string, d: Doc, eng: Engine) returns (ts: seq<nat>)
    ensures forall t: nat :: t in ts <==> t < |d| && TextMatches(re, d, t, eng)
    ensures forall k :: 0 <= k < |ts| ==> ts[k] < |d|
  {
    ts := [];
    for i := 0 to |d|
      invariant forall t: nat :: t in ts <==> t < i && TextMatches(re, d, t, eng)
      invariant forall k :: 0 <= k < |ts| ==> ts[k] < i
    {
      if d[i].kind.Text? && eng.regexMatches(re, d[i].kind.text) {
        ts := ts + [i];
      }
    }
  }

  /** Some text node below `a` matches the expression. */
  ghost predicate UnderMatch(re: string, d: Doc, a: nat, eng: Engine)
  {
    exists t: nat :: IsAncestor(d, a, t) && TextMatches(re, d, t, eng)
  }

  /** The strict ancestors of the matching text nodes are the nodes with a matching text node below them. */
  lemma AncestorsOfMatches(re: string, d: Doc, ts: seq<nat>, eng: Engine)
    requires forall t: nat :: t in ts <==> t < |d| && TextMatches(re, d, t, eng)
    ensures forall a: nat :: a in AncestorsOf(d, ts) <==> a < |d| && UnderMatch(re, d, a, eng)
  {
    forall a: nat | a < |d| && UnderMatch(re, d, a, eng)
      ensures AboveSome(d, ts, a)
    {
      var t: nat :| IsAncestor(d, a, t) && TextMatches(re, d, t, eng);
      assert t in ts;
      var k :| 0 <= k < |ts| && ts[k] == t;
    }
    forall a: nat | a in AncestorsOf(d, ts)
      ensures UnderMatch(re, d, a, eng)
    {
      var k :| 0 <= k < |ts| && IsAncestor(d, a, ts[k]);
      assert ts[k] in ts;
    }
  }

  /** `html.select(sel)` as a set of ids; every element when there is no selector. */
  method SelectIds(sel: Option<string>, d: Doc, eng: Engine) returns (ids: set<nat>)
    ensures forall e: nat :: e in ids <==> e < |d| && IsElement(d, e) && (sel.None? || eng.selectorMatches(sel.value, d, e))
  {
    ids := {};
    for i := 0 to |d|
      invariant forall e: nat :: e in ids <==> e < i && IsElement(d, e) && (sel.None? || eng.selectorMatches(sel.value, d, e))
    {
      if d[i].kind.Element? && (sel.None? || eng.selectorMatches(sel.value, d, i)) {
        ids := ids + {i};
      }
    }
  }

  /** The elements a delete rule deletes: those `should_delete` accepts. */
  ghost function DeleteTargets(p: Sed, d: Doc, eng: Engine): set<nat>
  {
    set e: nat | e < |d| && IsElement(d, e) && ShouldDelete(p, d, e, eng)
  }

  /** With an expression, a delete rule deletes exactly the selected elements with a matching text node below them. */
  lemma DeleteTargetsRegex(p: Sed, d: Doc, eng: Engine)
    requires p.op.Delete? && p.reg.Some?
    ensures forall e: nat :: e in DeleteTargets(p, d, eng) <==>
      e < |d| && IsElement(d, e) && IsCssMatch(p, d, e, eng) && UnderMatch(p.reg.value, d, e, eng)
  {
    forall e: nat
      ensures e in DeleteTargets(p, d, eng) <==>
        e < |d| && IsElement(d, e) && IsCssMatch(p, d, e, eng) && UnderMatch(p.reg.value, d, e, eng)
    {
      HasMatchingTextIff(p.reg.value, d, e, eng);
    }
  }

  /** Without an expression, a delete rule deletes exactly the selected elements. */
  lemma DeleteTargetsNoRegex(p: Sed, d: Doc, eng: Engine)
    requires p.op.Delete? && p.reg.None?
    ensures forall e: nat :: e in DeleteTargets(p, d, eng) <==> e < |d| && IsElement(d, e) && IsCssMatch(p, d, e, eng)
  {
  }

  /** The document with the nodes of `ids` detached from their parents; their subtrees go with them. */
  function Detached(d: Doc, ids: set<nat>): Doc
  {
    seq(|d|, k requires 0 <= k < |d| => if k in ids then Node(d[k].kind, None) else d[k])
  }

  /** A text node below some selected element. */
  ghost predicate SelectedAbove(sel: string, d: Doc, t: nat, eng: Engine)
  {
    exists e: nat :: Selected(sel, d, e, eng) && IsAncestor(d, e, t)
  }

  /** The text nodes a substitution rewrites: matching ones, and with a selector only those below a selected element. */
  ghost function SubTargets(p: Sed, d: Doc, eng: Engine): set<nat>
    requires p.reg.Some?
  {
    set t: nat | t < |d| && TextMatches(p.reg.value, d, t, eng) && (p.sel.None? || SelectedAbove(p.sel.value, d, t, eng))
  }

  /** The document with the text of the text nodes of `ids` rewritten by `apply_text`. */
  function Substituted(d: Doc, ids: set<nat>, p: Sed, eng: Engine): Doc
    requires p.op.Replace? ==> p.reg.Some?
  {
    seq(|d|, k requires 0 <= k < |d| =>
      if k in ids && d[k].kind.Text? then Node(Text(ApplyText(p, d[k].kind.text, eng)), d[k].parent) else d[k])
  }

  /** What `apply_full_expensive` makes of a document. */
  ghost function FullStep(d: Doc, p: Sed, eng: Engine): Doc
    requires p.op.Replace? ==> p.reg.Some?
  {
    if p.op.Delete? then Detached(d, DeleteTargets(p, d, eng))
    else if p.op.Replace? then Substituted(d, SubTargets(p, d, eng), p, eng)
    else d
  }

  /** Whether some node of `xs` is in `s` (`ancestors().any(|el| visited.contains(el))`). */
  function AnyIn(xs: seq<nat>, s: set<nat>): (r: bool)
    ensures r <==> exists k :: 0 <= k < |xs| && xs[k] in s
  {
    if xs == [] then false else xs[0] in s || AnyIn(xs[1..], s)
  }

  /** The matching text nodes below `e` (`e.descendants()` filtered). */
  method TextsBelow(re: string, d: Doc, e: nat, eng: Engine) returns (ts: set<nat>)
    ensures forall t: nat :: t in ts <==> t < |d| && IsAncestor(d, e, t) && TextMatches(re, d, t, eng)
  {
    ts := {};
    var i := e + 1;
    forall t: nat | IsAncestor(d, e, t)
      ensures e < t
    {
      AncestorBefore(d, e, t);
    }
    while i < |d|
      invariant e + 1 <= i || |d| <= i
      invariant forall t: nat :: t in ts <==> t < i && IsAncestor(d, e, t) && TextMatches(re, d, t, eng)
      decreases |d| - i
    {
      if d[i].kind.Text? && IsAncestor(d, e, i) && eng.regexMatches(re, d[i].kind.text) {
        ts := ts + {i};
      }
      i := i + 1;
    }
  }

  /** A text node below a selected element with index below `i`. */
  ghost predicate CoveredBy(sel: string, d: Doc, t: nat, i: nat, eng: Engine)
  {
    exists e: nat :: e < i && Selected(sel, d, e, eng) && IsAncestor(d, e, t)
  }

  /** Moving past node `e`: it covers what lies below it, if it is selected. */
  lemma CoveredStep(sel: string, d: Doc, t: nat, e: nat, eng: Engine)
    ensures CoveredBy(sel, d, t, e + 1, eng) <==> CoveredBy(sel, d, t, e, eng) || (Selected(sel, d, e, eng) && IsAncestor(d, e, t))
  {
    if CoveredBy(sel, d, t, e + 1, eng) && !CoveredBy(sel, d, t, e, eng) {
      var x: nat :| x < e + 1 && Selected(sel, d, x, eng) && IsAncestor(d, x, t);
      assert x == e;
    }
  }

  /** A selected element below an earlier selected element adds nothing: what lies below it is covered already. */
  lemma CoveredSkip(sel: string, d: Doc, e: nat, visited: set<nat>, eng: Engine)
    requires forall x: nat :: x in visited <==> x < e + 1 && Selected(sel, d, x, eng)
    requires AnyIn(Ancestors(d, e), visited)
    ensures forall t: nat :: CoveredBy(sel, d, t, e + 1, eng) <==> CoveredBy(sel, d, t, e, eng)
  {
    var anc := Ancestors(d, e);
    var k :| 0 <= k < |anc| && anc[k] in visited;
    var a := anc[k];
    AncestorsIff(d, a, e);
    AncestorBefore(d, a, e);
    forall t: nat
      ensures CoveredBy(sel, d, t, e + 1, eng) <==> CoveredBy(sel, d, t, e, eng)
    {
      CoveredStep(sel, d, t, e, eng);
      if Selected(sel, d, e, eng) && IsAncestor(d, e, t) {
        AncestorTrans(d, a, e, t);
      }
    }
  }

  /**
   * The selector branch of `apply_subs_expensive`: selected elements in
   * document order, each skipped when an ancestor was visited before it,
   * collecting the matching text nodes below the others (the outermost ones).
   */
  method SelectedTexts(sel: string, re: string, d: Doc, eng: Engine) returns (subs: set<nat>)
    ensures forall t: nat :: t in subs <==> t < |d| && TextMatches(re, d, t, eng) && SelectedAbove(sel, d, t, eng)
  {
    var visited: set<nat> := {};
    subs := {};
    for e := 0 to |d|
      invariant forall x: nat :: x in visited <==> x < e && Selected(sel, d, x, eng)
      invariant forall t: nat :: t in subs <==> t < |d| && TextMatches(re, d, t, eng) && CoveredBy(sel, d, t, e, eng)
    {
      if d[e].kind.Element? && eng.selectorMatches(sel, d, e) {
        visited := visited + {e};
        if AnyIn(Ancestors(d, e), visited) {
          CoveredSkip(sel, d, e, visited, eng);
        } else {
          var below := TextsBelow(re, d, e, eng);
          subs := subs + below;
          forall t: nat
            ensures CoveredBy(sel, d, t, e + 1, eng) <==> CoveredBy(sel, d, t, e, eng) || IsAncestor(d, e, t)
          {
            CoveredStep(sel, d, t, e, eng);
          }
        }
      } else {
        forall t: nat
          ensures CoveredBy(sel, d, t, e + 1, eng) <==> CoveredBy(sel, d, t, e, eng)
        {
          CoveredStep(sel, d, t, e, eng);
        }
      }
    }
    forall t: nat
      ensures CoveredBy(sel, d, t, |d|, eng) <==> SelectedAbove(sel, d, t, eng)
    {
    }
  }

  /** Every matching text node below a selected element lies below an outermost one: a selected element with no selected strict ancestor. */
  lemma {:induction false} OutermostSelected(sel: string, d: Doc, e: nat, eng: Engine)
    requires Selected(sel, d, e, eng)
    ensures exists o: nat :: (Selected(sel, d, o, eng) && (o == e || IsAncestor(d, o, e))
      && forall a: nat :: IsAncestor(d, a, o) ==> !Selected(sel, d, a, eng))
    decreases e
  {
    if exists a: nat :: IsAncestor(d, a, e) && Selected(sel, d, a, eng) {
      var a: nat :| IsAncestor(d, a, e) && Selected(sel, d, a, eng);
      AncestorBefore(d, a, e);
      OutermostSelected(sel, d, a, eng);
      var o: nat :| Selected(sel, d, o, eng) && (o == a || IsAncestor(d, o, a))
        && forall b: nat :: IsAncestor(d, b, o) ==> !Selected(sel, d, b, eng);
      if o != a {
        AncestorTrans(d, o, a, e);
      }
    } else {
      assert Selected(sel, d, e, eng) && forall b: nat :: IsAncestor(d, b, e) ==> !Selected(sel, d, b, eng);
    }
  }

  /** A substitution with a selector rewrites exactly the matching text nodes below an outermost selected element. */
  lemma SubTargetsOutermost(p: Sed, d: Doc, t: nat, eng: Engine)
    requires p.reg.Some? && p.sel.Some?
    ensures t in SubTargets(p, d, eng) <==>
      (t < |d| && TextMatches(p.reg.value, d, t, eng)
       && exists o: nat :: (Selected(p.sel.value, d, o, eng) && IsAncestor(d, o, t)
         && forall a: nat :: IsAncestor(d, a, o) ==> !Selected(p.sel.value, d, a, eng)))
  {
    var sel := p.sel.value;
    if t in SubTargets(p, d, eng) {
      var e: nat :| Selected(sel, d, e, eng) && IsAncestor(d, e, t);
      OutermostSelected(sel, d, e, eng);
      var o: nat :| Selected(sel, d, o, eng) && (o == e || IsAncestor(d, o, e))
        && forall a: nat :: IsAncestor(d, a, o) ==> !Selected(sel, d, a, eng);
      if o != e {
        AncestorTrans(d, o, e, t);
      }
    }
  }

  /** A detached node keeps its kind and loses its parent; every other node is unchanged. */
  lemma DetachedFrame(d: Doc, ids: set<nat>, k: nat)
    requires k < |d|
    ensures |Detached(d, ids)| == |d|
    ensures Detached(d, ids)[k].kind == d[k].kind
    ensures Detached(d, ids)[k].parent == if k in ids then None else d[k].parent
  {
  }

  /** Detaching only removes parent links: an ancestor afterwards was one before. */
  lemma {:induction false} DetachedAncestor(d: Doc, ids: set<nat>, a: nat, n: nat)
    requires IsAncestor(Detached(d, ids), a, n)
    ensures IsAncestor(d, a, n)
    decreases n
  {
    var p := d[n].parent.value;
    if p != a {
      DetachedAncestor(d, ids, a, p);
    }
  }

  /**
   * Detaching cuts a subtree loose: nothing at or below a detached node
   * keeps an ancestor that lay above it, so the subtree is gone from the
   * document once it is written out and read back.
   */
  lemma {:induction false} DetachedCut(d: Doc, ids: set<nat>, e: nat, a: nat, t: nat)
    requires e in ids && a < e && InSubtree(d, e, t)
    ensures !IsAncestor(Detached(d, ids), a, t)
    decreases t
  {
    var dd := Detached(d, ids);
    if t != e && IsAncestor(dd, a, t) {
      var p := d[t].parent.value;
      assert dd[t].parent == Some(p);
      if p == e {
        assert !IsAncestor(dd, a, e);
      } else {
        AncestorBefore(d, e, p);
        DetachedCut(d, ids, e, a, p);
      }
    }
  }

  /** Detaching keeps every parent before its child. */
  lemma DetachedParentsBefore(d: Doc, ids: set<nat>)
    requires ParentsBefore(d)
    ensures ParentsBefore(Detached(d, ids))
  {
  }

  /** A rewritten text node keeps its parent and gets `apply_text` of its text; every other node is unchanged. */
  lemma SubstitutedFrame(d: Doc, ids: set<nat>, p: Sed, eng: Engine, k: nat)
    requires p.op.Replace? ==> p.reg.Some?
    requires k < |d|
    ensures |Substituted(d, ids, p, eng)| == |d|
    ensures Substituted(d, ids, p, eng)[k].parent == d[k].parent
    ensures k in ids && IsText(d, k) ==> Substituted(d, ids, p, eng)[k].kind == Text(ApplyText(p, d[k].kind.text, eng))
    ensures k !in ids || !IsText(d, k) ==> Substituted(d, ids, p, eng)[k] == d[k]
  {
  }

  /** Rewriting texts leaves the shape of the tree alone. */
  lemma {:induction false} SubstitutedShape(d: Doc, ids: set<nat>, p: Sed, eng: Engine, a: nat, n: nat)
    requires p.op.Replace? ==> p.reg.Some?
    ensures IsAncestor(Substituted(d, ids, p, eng), a, n) <==> IsAncestor(d, a, n)
    decreases n
  {
    if n < |d| && d[n].parent.Some? && d[n].parent.value < n {
      SubstitutedShape(d, ids, p, eng, a, d[n].parent.value);
    }
  }

  /** A rule that neither deletes nor substitutes changes nothing. */
  lemma FullStepNonDestructive(d: Doc, p: Sed, eng: Engine)
    requires p.op.Replace? ==> p.reg.Some?
    ensures !IsDestructive(p) ==> FullStep(d, p, eng) == d
    ensures IsDestructive(p) ==> |FullStep(d, p, eng)| == |d|
  {
  }

  /** Applying a rule keeps every parent before its child. */
  lemma FullStepParentsBefore(d: Doc, p: Sed, eng: Engine)
    requires p.op.Replace? ==> p.reg.Some?
    requires ParentsBefore(d)
    ensures ParentsBefore(FullStep(d, p, eng))
  {
    if p.op.Delete? {
      DetachedParentsBefore(d, DeleteTargets(p, d, eng));
    }
  }

  /**
   * `sel().expect("delete has sel")` in the expression branch of
   * `apply_deletes_expensive`: a delete rule with an expression and no
   * selector reaches it with nothing to unwrap.
   */
  predicate DeletePanics(p: Sed)
  {
    p.op.Delete? && p.reg.Some? && p.sel.None?
  }

  /** `d/./` parses, and applying it as written panics. */
  lemma DeleteRegexOnlyPanics(eng: Engine)
    requires eng.regexParses(".")
    ensures Parse("d/./", eng).Ok? && DeletePanics(Parse("d/./", eng).value)
  {
    ParseSuccDeleteRegex(eng);
  }

  /** Detaching one more node. */
  lemma DetachedStep(d: Doc, done: set<nat>, id: nat)
    requires id < |d| && id !in done
    ensures var cur := Detached(d, done);
      cur[id := Node(cur[id].kind, None)] == Detached(d, done + {id})
  {
  }

  /** Rewriting one more text node. */
  lemma SubstitutedStep(d: Doc, done: set<nat>, id: nat, p: Sed, eng: Engine)
    requires p.op.Replace? ==> p.reg.Some?
    requires IsText(d, id) && id !in done
    ensures var cur := Substituted(d, done, p, eng);
      cur[id] == d[id] && IsText(cur, id) &&
      cur[id := Node(Text(ApplyText(p, cur[id].kind.text, eng)), cur[id].parent)] == Substituted(d, done + {id}, p, eng)
  {
  }

  /** `<html><head></head><body><p></p></body></html>` under its document node. */
  const Page: Doc := [
    Node(DocumentNode, None),
    Node(Element("html", []), Some(0)),
    Node(Element("head", []), Some(1)),
    Node(Element("body", []), Some(1)),
    Node(Element("p", []), Some(3))]

  /** `apply_full_delete`, the case `d;p`: the paragraph is cut loose from the body, and nothing else changes. */
  lemma ApplyFullDeleteP(eng: Engine)
    requires forall d: Doc, e: nat :: eng.selectorMatches("p", d, e) <==> IsElement(d, e) && d[e].kind.name == "p"
    ensures FullStep(Page, Sed(Delete, Some("p"), None), eng) == Page[4 := Node(Element("p", []), None)]
    ensures !IsAncestor(FullStep(Page, Sed(Delete, Some("p"), None), eng), 3, 4)
  {
    var p := Sed(Delete, Some("p"), None);
    DeleteTargetsNoRegex(p, Page, eng);
    assert DeleteTargets(p, Page, eng) == {4};
    DetachedCut(Page, {4}, 4, 3, 4);
  }

  /** The document under a `scraper::Html`, updated in place. */
  class Html {
    var nodes: Doc

    /** `Html::parse_document`: the parser is foreign, so the parsed arena is given. */
    constructor (d: Doc)
      ensures nodes == d
    {
      nodes := d;
    }

    /** `detach()`: the node leaves its parent, taking its subtree with it. */
    method Detach(id: nat)
      requires id < |nodes|
      modifies this
      ensures nodes == old(nodes)[id := Node(old(nodes)[id].kind, None)]
    {
      nodes := nodes[id := Node(nodes[id].kind, None)];
    }

    /** Detaches each node of `ids`, in any order. */
    method DetachAll(ids: set<nat>)
      requires forall id :: id in ids ==> id < |nodes|
      modifies this
      ensures nodes == Detached(old(nodes), ids)
    {
      var rest := ids;
      ghost var done: set<nat> := {};
      while rest != {}
        invariant rest + done == ids && rest !! done
        invariant nodes == Detached(old(nodes), done)
        decreases |rest|
      {
        var id :| id in rest;
        DetachedStep(old(nodes), done, id);
        Detach(id);
        rest := rest - {id};
        done := done + {id};
      }
    }

    /** The last loop of `apply_subs_expensive`: each text node of `ids` gets `apply_text` of its text. */
    method RewriteAll(ids: set<nat>, p: Sed, eng: Engine)
      requires p.op.Replace? ==> p.reg.Some?
      requires forall id :: id in ids ==> IsText(nodes, id)
      modifies this
      ensures nodes == Substituted(old(nodes), ids, p, eng)
    {
      ghost var d0 := nodes;
      var rest := ids;
      ghost var done: set<nat> := {};
      while rest != {}
        invariant rest + done == ids && rest !! done
        invariant nodes == Substituted(d0, done, p, eng)
        decreases |rest|
      {
        var id :| id in rest;
        SubstitutedStep(d0, done, id, p, eng);
        nodes := nodes[id := Node(Text(ApplyText(p, nodes[id].kind.text, eng)), nodes[id].parent)];
        rest := rest - {id};
        done := done + {id};
      }
    }

    /**
     * `apply_deletes_expensive`, with the missing selector of an
     * expression-only rule read as "every element", as `should_delete`
     * reads it.
     */
    method ApplyDeletes(p: Sed, eng: Engine)
      requires p.op.Delete? && (p.sel.Some? || p.reg.Some?)
      requires ParentsBefore(nodes)
      modifies this
      ensures nodes == Detached(old(nodes), DeleteTargets(p, old(nodes), eng))
    {
      var d := nodes;
      var targets: set<nat>;
      if p.reg.Some? {
        var ts := MatchingTexts(p.reg.value, d, eng);
        var regIds := AncestorClosure(d, ts);
        AncestorsOfMatches(p.reg.value, d, ts, eng);
        var elIds := SelectIds(p.sel, d, eng);
        targets := elIds * regIds;
        DeleteTargetsRegex(p, d, eng);
      } else {
        targets := SelectIds(p.sel, d, eng);
        DeleteTargetsNoRegex(p, d, eng);
      }
      assert targets == DeleteTargets(p, d, eng);
      DetachAll(targets);
    }

    /** `apply_subs_expensive`: every matching text node, or with a selector those below an outermost selected element. */
    method ApplySubs(p: Sed, eng: Engine)
      requires p.op.Replace? && p.reg.Some?
      modifies this
      ensures nodes == Substituted(old(nodes), SubTargets(p, old(nodes), eng), p, eng)
    {
      var d := nodes;
      var ids: set<nat>;
      if p.sel.Some? {
        ids := SelectedTexts(p.sel.value, p.reg.value, d, eng);
      } else {
        var ts := MatchingTexts(p.reg.value, d, eng);
        ids := set t | t in ts;
      }
      assert ids == SubTargets(p, d, eng);
      RewriteAll(ids, p, eng);
    }

    /** `apply_full_expensive`: deletes or substitutes, and leaves the document alone for every other rule. */
    method ApplyFull(p: Sed, eng: Engine)
      requires ParentsBefore(nodes)
      requires p.op.Replace? ==> p.reg.Some?
      requires p.op.Delete? ==> p.sel.Some? || p.reg.Some?
      modifies this
      ensures nodes == FullStep(old(nodes), p, eng)
    {
      if !IsDestructive(p) {
        return;
      }
      if p.op.Delete? {
        ApplyDeletes(p, eng);
      } else {
        ApplySubs(p, eng);
      }
    }
  }
}
