/**
 * The parsed library document as an element tree, and the subset of
 * ElementTree's path language the exporter uses: a chain of child steps,
 * each a tag optionally followed by an attribute test `[@name="value"]`.
 */
module ElementTree {
  import opened Wrappers

  datatype Element = Element(tag: string, attrs: map<string, string>, children: seq<Element>)

  /** `[@name="value"]`. */
  datatype AttrTest = AttrTest(name: string, value: string)

  /** One step of a path: `tag` or `tag[@name="value"]`. */
  datatype Step = Step(tag: string, test: Option<AttrTest>)

  /** `e.get(name)`. */
  function Get(e: Element, name: string): Option<string> {
    if name in e.attrs then Some(e.attrs[name]) else None
  }

  predicate Matches(e: Element, step: Step) {
    && e.tag == step.tag
    && match step.test
       case None => true
       case Some(t) => Get(e, t.name) == Some(t.value)
  }

  /** The elements of `es` that match `step`, in their original order. */
  function Filter(es: seq<Element>, step: Step): (r: seq<Element>)
    ensures |r| <= |es|
    ensures forall x :: x in r <==> x in es && Matches(x, step)
  {
    if es == [] then []
    else if Matches(es[0], step) then [es[0]] + Filter(es[1..], step)
    else Filter(es[1..], step)
  }

  /** A one-element sequence is kept exactly when that element matches. */
  lemma FilterSingleton(x: Element, step: Step)
    ensures Filter([x], step) == (if Matches(x, step) then [x] else [])
  {
  }

  /**
   * Filtering commutes with concatenation; with `FilterSingleton` this fixes
   * the result as the matching elements in their original order, each as
   * often as it occurs.
   */
  lemma {:induction false} FilterAppend(a: seq<Element>, b: seq<Element>, step: Step)
    ensures Filter(a + b, step) == Filter(a, step) + Filter(b, step)
    decreases |a|
  {
    if a == [] {
      assert a + b == b;
    } else {
      assert (a + b)[0] == a[0];
      assert (a + b)[1..] == a[1..] + b;
      FilterAppend(a[1..], b, step);
    }
  }

  /** One stage of ElementPath: the matching children of each context element, context by context. */
  function ChildStep(context: seq<Element>, step: Step): seq<Element> {
    if context == [] then [] else Filter(context[0].children, step) + ChildStep(context[1..], step)
  }

  /** ElementPath's evaluation: apply the steps one stage at a time to the whole context. */
  function Select(context: seq<Element>, path: seq<Step>): seq<Element>
    decreases |path|
  {
    if path == [] then context else Select(ChildStep(context, path[0]), path[1..])
  }

  /** `e.iterfind(path)`: the matches in document order. */
  function IterFind(e: Element, path: seq<Step>): seq<Element> {
    Select([e], path)
  }

  /** Reference definition, one element at a time: the matches below each matching child, child by child. */
  function Descend(e: Element, path: seq<Step>): seq<Element>
    decreases |path|, 0, 0
  {
    if path == [] then [e] else DescendAll(Filter(e.children, path[0]), path[1..])
  }

  function DescendAll(es: seq<Element>, path: seq<Step>): seq<Element>
    decreases |path|, 1, |es|
  {
    if es == [] then [] else Descend(es[0], path) + DescendAll(es[1..], path)
  }

  /** The matches under earlier elements come first: concatenation is preserved. */
  lemma {:induction false} DescendAllAppend(a: seq<Element>, b: seq<Element>, path: seq<Step>)
    ensures DescendAll(a + b, path) == DescendAll(a, path) + DescendAll(b, path)
    decreases |a|
  {
    if a == [] {
      assert a + b == b;
    } else {
      assert (a + b)[0] == a[0];
      assert (a + b)[1..] == a[1..] + b;
      DescendAllAppend(a[1..], b, path);
    }
  }

  lemma {:induction false} DescendAllNoSteps(es: seq<Element>)
    ensures DescendAll(es, []) == es
    decreases |es|
  {
    if es != [] {
      DescendAllNoSteps(es[1..]);
    }
  }

  /** Descending from a context through one stage of `ChildStep` is descending from the context itself. */
  lemma {:induction false} DescendAllChildStep(context: seq<Element>, path: seq<Step>)
    requires path != []
    ensures DescendAll(ChildStep(context, path[0]), path[1..]) == DescendAll(context, path)
    decreases |context|
  {
    if context != [] {
      DescendAllAppend(Filter(context[0].children, path[0]), ChildStep(context[1..], path[0]), path[1..]);
      DescendAllChildStep(context[1..], path);
    }
  }

  /** ElementPath's stage-by-stage evaluation equals the per-element reference definition. */
  lemma {:induction false} SelectIsDescend(context: seq<Element>, path: seq<Step>)
    ensures Select(context, path) == DescendAll(context, path)
    decreases |path|
  {
    if path == [] {
      DescendAllNoSteps(context);
    } else {
      SelectIsDescend(ChildStep(context, path[0]), path[1..]);
      DescendAllChildStep(context, path);
    }
  }

  lemma {:induction false} DescendAllMember(es: seq<Element>, path: seq<Step>, x: Element)
    ensures x in DescendAll(es, path) <==> exists c :: c in es && x in Descend(c, path)
    decreases |es|
  {
    if es != [] {
      DescendAllMember(es[1..], path, x);
      if x in Descend(es[0], path) {
        assert es[0] in es;
      }
      if x in DescendAll(es[1..], path) {
        var c :| c in es[1..] && x in Descend(c, path);
        assert c in es;
      }
    }
  }

  /**
   * `chain` walks from `e` down `|path|` levels of children, the element at
   * level `i + 1` matching step `i`.
   */
  ghost predicate IsChain(e: Element, path: seq<Step>, chain: seq<Element>) {
    && |chain| == |path| + 1
    && chain[0] == e
    && forall i :: 0 <= i < |path| ==> chain[i + 1] in chain[i].children && Matches(chain[i + 1], path[i])
  }

  /** A chain from a matching child extends to a chain from its parent. */
  lemma ChainCons(e: Element, path: seq<Step>, tail: seq<Element>)
    requires path != [] && |tail| > 0 && IsChain(tail[0], path[1..], tail)
    requires tail[0] in e.children && Matches(tail[0], path[0])
    ensures IsChain(e, path, [e] + tail)
  {
    var chain := [e] + tail;
    forall i | 0 <= i < |path| ensures chain[i + 1] in chain[i].children && Matches(chain[i + 1], path[i]) {
      if i > 0 { assert path[1..][i - 1] == path[i]; }
    }
  }

  /** A chain of positive length continues as a chain from its second element. */
  lemma ChainTail(e: Element, path: seq<Step>, chain: seq<Element>)
    requires path != [] && IsChain(e, path, chain)
    ensures IsChain(chain[1], path[1..], chain[1..])
    ensures chain[1] in e.children && Matches(chain[1], path[0])
  {
    var tail := chain[1..];
    forall i | 0 <= i < |path| - 1 ensures tail[i + 1] in tail[i].children && Matches(tail[i + 1], path[1..][i]) {
      assert chain[i + 2] in chain[i + 1].children && Matches(chain[i + 2], path[i + 1]);
    }
  }

  /** Every match is the end of a chain. */
  lemma {:induction false} DescendHasChain(e: Element, path: seq<Step>, x: Element) returns (chain: seq<Element>)
    requires x in Descend(e, path)
    ensures IsChain(e, path, chain) && chain[|path|] == x
    decreases |path|
  {
    if path == [] {
      chain := [e];
    } else {
      var kids := Filter(e.children, path[0]);
      DescendAllMember(kids, path[1..], x);
      var c :| c in kids && x in Descend(c, path[1..]);
      var tail := DescendHasChain(c, path[1..], x);
      ChainCons(e, path, tail);
      chain := [e] + tail;
    }
  }

  /** The end of every chain is a match. */
  lemma {:induction false} ChainInDescend(e: Element, path: seq<Step>, chain: seq<Element>)
    requires IsChain(e, path, chain)
    ensures chain[|path|] in Descend(e, path)
    decreases |path|
  {
    if path != [] {
      var kids := Filter(e.children, path[0]);
      ChainTail(e, path, chain);
      ChainInDescend(chain[1], path[1..], chain[1..]);
      DescendAllMember(kids, path[1..], chain[|path|]);
    }
  }

  /** The matches are exactly the ends of chains of children that match the steps, level by level. */
  lemma DescendChains(e: Element, path: seq<Step>, x: Element)
    ensures x in Descend(e, path) <==> exists chain :: IsChain(e, path, chain) && chain[|path|] == x
  {
    if x in Descend(e, path) {
      var chain := DescendHasChain(e, path, x);
    }
    if exists chain :: IsChain(e, path, chain) && chain[|path|] == x {
      var chain: seq<Element> :| IsChain(e, path, chain) && chain[|path|] == x;
      ChainInDescend(e, path, chain);
    }
  }

  /** What `iterfind` visits: exactly the ends of matching chains from `e`, in document order. */
  lemma IterFindChains(e: Element, path: seq<Step>, x: Element)
    ensures x in IterFind(e, path) <==> exists chain :: IsChain(e, path, chain) && chain[|path|] == x
  {
    SelectIsDescend([e], path);
    assert DescendAll([e], path) == Descend(e, path) + DescendAll([], path);
    DescendChains(e, path, x);
  }
}
