/**
 * The parsed HTML document the rules work on (the `scraper`/`ego_tree` tree),
 * as a flat arena of nodes, each with the index of its parent. Node indices
 * are taken as document order, and a parent always precedes its children.
 *
 * The CSS-selector engine, the regular-expression engine and the HTML parser
 * are foreign libraries; they enter the model only through `Engine`.
 */
module Dom {
  import opened Wrappers

  datatype NodeKind =
    | DocumentNode
    | FragmentNode
    | Doctype
    | Comment
    | ProcessingInstruction
    | Text(text: string)
    | Element(name: string, classes: seq<string>)

  datatype Node = Node(kind: NodeKind, parent: Option<nat>)

  type Doc = seq<Node>

  /** Every parent precedes its child; a detached node or the root has no parent. */
  predicate ParentsBefore(d: Doc)
  {
    forall i :: 0 <= i < |d| && d[i].parent.Some? ==> d[i].parent.value < i
  }

  predicate IsElement(d: Doc, n: nat)
  {
    n < |d| && d[n].kind.Element?
  }

  predicate IsText(d: Doc, n: nat)
  {
    n < |d| && d[n].kind.Text?
  }

  /** `a` is a strict ancestor of `n`: it is reached by following parent links from `n`. */
  predicate IsAncestor(d: Doc, a: nat, n: nat)
    decreases n
  {
    n < |d| && d[n].parent.Some? && d[n].parent.value < n &&
    (d[n].parent.value == a || IsAncestor(d, a, d[n].parent.value))
  }

  /** `n` is `a` itself or below it. */
  predicate InSubtree(d: Doc, a: nat, n: nat)
  {
    n == a || IsAncestor(d, a, n)
  }

  /** An ancestor comes before its descendants. */
  lemma {:induction false} AncestorBefore(d: Doc, a: nat, n: nat)
    requires IsAncestor(d, a, n)
    ensures a < n
    decreases n
  {
    var p := d[n].parent.value;
    if p != a {
      AncestorBefore(d, a, p);
    }
  }

  /** Being an ancestor is transitive. */
  lemma {:induction false} AncestorTrans(d: Doc, a: nat, b: nat, n: nat)
    requires IsAncestor(d, a, b) && IsAncestor(d, b, n)
    ensures IsAncestor(d, a, n)
    decreases n
  {
    var p := d[n].parent.value;
    if p != b {
      AncestorTrans(d, a, b, p);
    }
  }

  /** Two ancestors of the same node lie on one chain: the higher is an ancestor of the lower. */
  lemma {:induction false} AncestorChain(d: Doc, a: nat, c: nat, n: nat)
    requires IsAncestor(d, a, n) && IsAncestor(d, c, n) && a < c
    ensures IsAncestor(d, a, c)
    decreases n
  {
    var p := d[n].parent.value;
    if c != p {
      if a == p {
        AncestorBefore(d, c, p);
      } else {
        AncestorChain(d, a, c, p);
      }
    }
  }

  /** `ancestors()`: the parent, its parent, and so on up to the root, nearest first. */
  function Ancestors(d: Doc, n: nat): (r: seq<nat>)
    ensures forall k :: 0 <= k < |r| ==> r[k] < n
    ensures forall i, j :: 0 <= i < j < |r| ==> r[i] > r[j]
    decreases n
  {
    if n < |d| && d[n].parent.Some? && d[n].parent.value < n then
      [d[n].parent.value] + Ancestors(d, d[n].parent.value)
    else []
  }

  /** The list `ancestors()` walks holds exactly the strict ancestors. */
  lemma {:induction false} AncestorsIff(d: Doc, a: nat, n: nat)
    ensures a in Ancestors(d, n) <==> IsAncestor(d, a, n)
    decreases n
  {
    if n < |d| && d[n].parent.Some? && d[n].parent.value < n {
      AncestorsIff(d, a, d[n].parent.value);
    }
  }

  /** The text nodes with index at least `i` below `a`, in document order (`text()` of `a` for `i == a + 1`). */
  function TextsUnder(d: Doc, a: nat, i: nat): (r: seq<nat>)
    ensures forall t: nat :: t in r <==> i <= t && IsText(d, t) && IsAncestor(d, a, t)
    ensures forall k, l :: 0 <= k < l < |r| ==> r[k] < r[l]
    ensures forall k :: 0 <= k < |r| ==> i <= r[k]
    decreases |d| - i
  {
    if i >= |d| then []
    else (if IsText(d, i) && IsAncestor(d, a, i) then [i] else []) + TextsUnder(d, a, i + 1)
  }

  /** The children of `n` with index at least `i`, in document order. */
  function ChildrenFrom(d: Doc, n: nat, i: nat): (r: seq<nat>)
    ensures forall c: nat :: c in r <==> i <= c < |d| && d[c].parent == Some(n)
    ensures forall k :: 0 <= k < |r| ==> i <= r[k] < |d|
    decreases |d| - i
  {
    if i >= |d| then []
    else (if d[i].parent == Some(n) then [i] else []) + ChildrenFrom(d, n, i + 1)
  }

  /** `children()`: in a document whose parents come first, every child of `n` follows it. */
  function Children(d: Doc, n: nat): (r: seq<nat>)
    requires ParentsBefore(d)
    ensures forall c: nat :: c in r <==> c < |d| && d[c].parent == Some(n)
    ensures forall k :: 0 <= k < |r| ==> n < r[k] < |d|
  {
    assert forall c: nat :: c < |d| && d[c].parent == Some(n) ==> n < c;
    ChildrenFrom(d, n, n + 1)
  }

  /**
   * The foreign engines: whether a selector or a regular expression compiles,
   * whether a selector matches an element of a document, whether a regular
   * expression matches somewhere in a text, and `replace_all` with a literal
   * (`NoExpand`) replacement.
   */
  datatype Engine = Engine(
    selectorParses: string -> bool,
    regexParses: string -> bool,
    selectorMatches: (string, Doc, nat) -> bool,
    regexMatches: (string, string) -> bool,
    replaceAll: (string, string, string) -> string)
}
