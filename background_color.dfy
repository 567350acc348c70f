/**
 * The background-colour resolver: an element's own background, whether it is
 * opaque, the elements that sit visually behind it, and the single flattened
 * colour seen behind it, or `None` when that colour cannot be determined.
 */
module BackgroundColor {
  import opened Wrappers
  import opened Dom

  /** The colour of a `transparent` background. */
  const NoColor := Color(0, 0, 0, 0.0)

  /** The colour assumed behind an `HTML` root that has nothing behind it. */
  const White := Color(255, 255, 255, 1.0)

  // ---------------------------------------------------------------------
  // One element's own background
  // ---------------------------------------------------------------------

  /**
   * The element's own background, before any blending: `None` for an image
   * background, otherwise its colour with the alpha scaled by its opacity.
   */
  function SingleNodeBackground(page: Page, n: Node): Option<Color> {
    var style := page.computedStyle(n);
    if style.backgroundImage != NoImage then
      None
    else
      var parsed := if style.backgroundColor.Transparent? then NoColor else style.backgroundColor.color;
      Some(Color(parsed.red, parsed.green, parsed.blue, parsed.alpha * style.opacity))
  }

  /**
   * An image background gives `None` whatever the colour and opacity; the
   * `transparent` keyword gives (0,0,0,0) whatever the opacity; a parsed colour
   * keeps its channels and has its alpha multiplied by the opacity.
   */
  lemma SingleNodeBackgroundCases(page: Page, n: Node)
    ensures var style := page.computedStyle(n); var bg := SingleNodeBackground(page, n);
      (style.backgroundImage != NoImage <==> bg.None?) &&
      (style.backgroundImage == NoImage && style.backgroundColor.Transparent? ==> bg.Some? && bg.value == NoColor) &&
      (style.backgroundImage == NoImage && style.backgroundColor.Rgba? ==>
        var parsed := style.backgroundColor.color;
        bg.Some? && bg.value == Color(parsed.red, parsed.green, parsed.blue, parsed.alpha * style.opacity))
  {
  }

  /** Whether the element hides everything behind it: an image background, or a colour of alpha exactly 1. */
  predicate IsOpaque(page: Page, n: Node) {
    var bg := SingleNodeBackground(page, n);
    bg.None? || bg.value.alpha == 1.0
  }

  /** In terms of the style: an image, or a parsed colour whose alpha times the opacity is exactly 1. */
  lemma IsOpaqueFromStyle(page: Page, n: Node)
    ensures IsOpaque(page, n) <==>
      var style := page.computedStyle(n);
      style.backgroundImage != NoImage ||
      (style.backgroundColor.Rgba? && style.backgroundColor.color.alpha * style.opacity == 1.0)
  {
  }

  // ---------------------------------------------------------------------
  // The elements behind an element
  // ---------------------------------------------------------------------

  /** The flow-order walk stops at an element that is opaque and has a non-zero height. */
  predicate StopsWalk(page: Page, n: Node) {
    IsOpaque(page, n) && page.computedStyle(n).height != 0
  }

  /**
   * A style after which flow order may no longer be stacking order: a position
   * other than `static` and `relative`, or `relative` with some offset set.
   */
  predicate EstablishesStacking(style: Style) {
    style.position.OtherPosition? ||
    (style.position == Relative &&
      (style.left != Auto || style.right != Auto || style.top != Auto || style.bottom != Auto))
  }

  /** What the flow-order walk yields: the ancestors it pushed and whether it set the ambiguity flag. */
  datatype Walk = Walk(parents: seq<Node>, ambiguous: bool)

  /**
   * The walk from `current` on: unless `current` stops it, note whether its
   * style establishes stacking, move to its parent, keep the parent when its
   * height is non-zero, and go on from there.
   */
  function WalkFrom(page: Page, current: Node): Walk
    requires WellFormed(page)
    decreases current
  {
    if StopsWalk(page, current) then
      Walk([], false)
    else
      var flag := EstablishesStacking(page.computedStyle(current));
      if current !in page.parentElement then
        Walk([], flag)
      else
        var parent := page.parentElement[current];
        var rest := WalkFrom(page, parent);
        Walk((if page.computedStyle(parent).height != 0 then [parent] else []) + rest.parents, flag || rest.ambiguous)
  }

  /** The flow-order list of `n`. */
  function FlowOrder(page: Page, n: Node): seq<Node>
    requires WellFormed(page)
  {
    WalkFrom(page, n).parents
  }

  /** Whether the walk from `n` set the ambiguity flag. */
  predicate StackingAmbiguous(page: Page, n: Node)
    requires WellFormed(page)
  {
    WalkFrom(page, n).ambiguous
  }

  /** `Array.prototype.indexOf`: the first position of `x` in `s`, or -1. */
  function IndexOf(s: seq<Node>, x: Node): (i: int)
    ensures -1 <= i < |s|
    ensures i == -1 <==> x !in s
    ensures 0 <= i ==> s[i] == x && x !in s[..i]
  {
    if s == [] then -1
    else if s[0] == x then 0
    else
      var j := IndexOf(s[1..], x);
      assert s[1..][..j + 1] == s[1..j + 2] by { assert j + 2 <= |s| || j == -1; }
      if j == -1 then -1 else j + 1
  }

  /** The elements behind `n`: the flow-order list, replaced by a hit-test list when stacking is ambiguous. */
  function VisualParents(page: Page, n: Node, rect: Rect): seq<Node>
    requires WellFormed(page)
  {
    if StackingAmbiguous(page, n) && page.supportsElementsFromPoint then
      var hits := page.elementsFromPoint(Ceil(rect.left + 1.0), Ceil(rect.top + 1.0));
      if hits.Some? && IndexOf(hits.value, n) < |hits.value| - 1 then hits.value[IndexOf(hits.value, n) + 1..]
      else FlowOrder(page, n)
    else
      FlowOrder(page, n)
  }

  /** The walk up the parent chain, then the hit test. */
  method GetVisualParents(page: Page, node: Node, rect: Rect) returns (parents: seq<Node>)
    requires WellFormed(page)
    ensures parents == VisualParents(page, node, rect)
  {
    parents := [];
    var fallbackToVisual := false;
    var currentNode: Option<Node> := Some(node);
    var nodeStyle := page.computedStyle(node);
    while currentNode.Some? && (!IsOpaque(page, currentNode.value) || nodeStyle.height == 0)
      invariant currentNode.Some? ==>
        nodeStyle == page.computedStyle(currentNode.value) &&
        parents + WalkFrom(page, currentNode.value).parents == FlowOrder(page, node) &&
        (fallbackToVisual || WalkFrom(page, currentNode.value).ambiguous) == StackingAmbiguous(page, node)
      invariant currentNode.None? ==>
        parents == FlowOrder(page, node) && fallbackToVisual == StackingAmbiguous(page, node)
      decreases if currentNode.Some? then currentNode.value + 1 else 0
    {
      var n := currentNode.value;
      if EstablishesStacking(nodeStyle) {
        fallbackToVisual := true;
      }
      if n in page.parentElement {
        var p := page.parentElement[n];
        currentNode := Some(p);
        nodeStyle := page.computedStyle(p);
        if nodeStyle.height != 0 {
          parents := parents + [p];
        }
      } else {
        currentNode := None;
      }
    }

    if fallbackToVisual && page.supportsElementsFromPoint {
      var visualParents := page.elementsFromPoint(Ceil(rect.left + 1.0), Ceil(rect.top + 1.0));
      if visualParents.Some? {
        var thisIndex := IndexOf(visualParents.value, node);
        if thisIndex < |visualParents.value| - 1 {
          parents := visualParents.value[thisIndex + 1..];
        }
      }
    }
  }

  // The walk described on the ancestor chain instead.

  /** The position in `chain` of the first element at which the walk stops, or `|chain|` if there is none. */
  function StopIndex(page: Page, chain: seq<Node>): (k: nat)
    ensures k <= |chain|
  {
    if chain == [] || StopsWalk(page, chain[0]) then 0 else 1 + StopIndex(page, chain[1..])
  }

  /** The walk stops at no element before the stop index, and at the element there. */
  lemma {:induction false} StopIndexFirst(page: Page, chain: seq<Node>)
    ensures var k := StopIndex(page, chain);
      (forall i :: 0 <= i < k ==> !StopsWalk(page, chain[i])) &&
      (k < |chain| ==> StopsWalk(page, chain[k]))
  {
    if chain != [] && !StopsWalk(page, chain[0]) {
      StopIndexFirst(page, chain[1..]);
      forall i | 0 < i < StopIndex(page, chain) ensures !StopsWalk(page, chain[i]) {
        assert chain[i] == chain[1..][i - 1];
      }
    }
  }

  /** The ancestors the walk moves to: those up to and including the one where it stops, or all of them. */
  function Reached(page: Page, n: Node): seq<Node>
    requires WellFormed(page)
  {
    var chain := Ancestry(page, n);
    var k := StopIndex(page, chain);
    chain[1..if k < |chain| then k + 1 else |chain|]
  }

  /** The elements of `nodes` with a non-zero height, in their order. */
  function NonZeroHeight(page: Page, nodes: seq<Node>): seq<Node> {
    if nodes == [] then []
    else (if page.computedStyle(nodes[0]).height != 0 then [nodes[0]] else []) + NonZeroHeight(page, nodes[1..])
  }

  /** Strictly decreasing element numbers: nearest ancestor first. */
  predicate NearestFirst(s: seq<Node>) {
    forall i, j :: 0 <= i < j < |s| ==> s[i] > s[j]
  }

  /** The kept elements are exactly the elements with a non-zero height, in their order. */
  lemma {:induction false} NonZeroHeightKeeps(page: Page, nodes: seq<Node>)
    ensures forall x :: x in NonZeroHeight(page, nodes) <==> x in nodes && page.computedStyle(x).height != 0
    ensures NearestFirst(nodes) ==> NearestFirst(NonZeroHeight(page, nodes))
  {
    if nodes != [] {
      var rest := nodes[1..];
      NonZeroHeightKeeps(page, rest);
      assert nodes == [nodes[0]] + rest;
      if NearestFirst(nodes) {
        assert NearestFirst(rest) by {
          forall i, j | 0 <= i < j < |rest| ensures rest[i] > rest[j] {
            assert rest[i] == nodes[i + 1] && rest[j] == nodes[j + 1];
          }
        }
        var kept := NonZeroHeight(page, rest);
        forall x | x in kept ensures x < nodes[0] {
          var j :| 0 <= j < |rest| && rest[j] == x;
          assert nodes[j + 1] == x;
        }
        var all := NonZeroHeight(page, nodes);
        if page.computedStyle(nodes[0]).height != 0 {
          forall i, j | 0 <= i < j < |all| ensures all[i] > all[j] {
            assert all[j] == kept[j - 1] && all[j] in kept;
            if i > 0 { assert all[i] == kept[i - 1]; }
          }
        }
      }
    }
  }

  /** One step of the walk on the chain: the chain, the stop index and the reached ancestors of the parent. */
  lemma ChainStep(page: Page, n: Node)
    requires WellFormed(page) && !StopsWalk(page, n) && n in page.parentElement
    ensures var p := page.parentElement[n];
      Ancestry(page, n) == [n] + Ancestry(page, p) &&
      StopIndex(page, Ancestry(page, n)) == 1 + StopIndex(page, Ancestry(page, p)) &&
      Reached(page, n) == [p] + Reached(page, p)
  {
    var p := page.parentElement[n];
    var chain, chain' := Ancestry(page, n), Ancestry(page, p);
    assert chain[1..] == chain';
    var k' := StopIndex(page, chain');
    assert Reached(page, n) == chain'[..if k' < |chain'| then k' + 1 else |chain'|];
  }

  /** The walk's list is the reached ancestors with a non-zero height. */
  lemma {:induction false} WalkFromReached(page: Page, n: Node)
    requires WellFormed(page)
    ensures FlowOrder(page, n) == NonZeroHeight(page, Reached(page, n))
    decreases n
  {
    if !StopsWalk(page, n) && n in page.parentElement {
      var p := page.parentElement[n];
      WalkFromReached(page, p);
      ChainStep(page, n);
      var reached' := Reached(page, p);
      assert ([p] + reached')[1..] == reached';
    } else if !StopsWalk(page, n) {
      assert Ancestry(page, n) == [n];
    }
  }

  /** The walk's flag is set exactly when an element passed over (one before the stop) establishes stacking. */
  lemma {:induction false} WalkFromFlag(page: Page, n: Node)
    requires WellFormed(page)
    ensures var chain := Ancestry(page, n);
      StackingAmbiguous(page, n) <==>
        exists j :: 0 <= j < StopIndex(page, chain) && EstablishesStacking(page.computedStyle(chain[j]))
    decreases n
  {
    var chain := Ancestry(page, n);
    if !StopsWalk(page, n) && n in page.parentElement {
      var p := page.parentElement[n];
      WalkFromFlag(page, p);
      ChainStep(page, n);
      var chain' := Ancestry(page, p);
      var k' := StopIndex(page, chain');
      if StackingAmbiguous(page, n) {
        if EstablishesStacking(page.computedStyle(n)) {
          assert chain[0] == n;
        } else {
          var j :| 0 <= j < k' && EstablishesStacking(page.computedStyle(chain'[j]));
          assert chain[j + 1] == chain'[j];
        }
      }
      if exists j :: 0 <= j < StopIndex(page, chain) && EstablishesStacking(page.computedStyle(chain[j])) {
        var j :| 0 <= j < StopIndex(page, chain) && EstablishesStacking(page.computedStyle(chain[j]));
        if j > 0 {
          assert chain'[j - 1] == chain[j];
        }
      }
    } else if !StopsWalk(page, n) {
      assert chain == [n];
    }
  }

  /** The flow-order list holds only proper ancestors of `n` with a non-zero height, nearest first. */
  lemma FlowOrderAncestors(page: Page, n: Node)
    requires WellFormed(page)
    ensures forall x :: x in FlowOrder(page, n) ==>
      x in Ancestry(page, n)[1..] && page.computedStyle(x).height != 0
    ensures NearestFirst(FlowOrder(page, n))
  {
    var chain := Ancestry(page, n);
    var reached := Reached(page, n);
    WalkFromReached(page, n);
    AncestryDecreasing(page, n);
    assert NearestFirst(reached) by {
      forall i, j | 0 <= i < j < |reached| ensures reached[i] > reached[j] {
        assert reached[i] == chain[i + 1] && reached[j] == chain[j + 1];
      }
    }
    NonZeroHeightKeeps(page, reached);
    forall x | x in FlowOrder(page, n) ensures x in chain[1..] {
      var j :| 0 <= j < |reached| && reached[j] == x;
      assert chain[1..][j] == x;
    }
  }

  /**
   * The flow-order list holds every ancestor with a non-zero height up to the
   * one where the walk stops; when the walk stops at an ancestor (the first
   * opaque one with a non-zero height), that ancestor is its last entry.
   */
  lemma FlowOrderComplete(page: Page, n: Node)
    requires WellFormed(page)
    ensures var chain := Ancestry(page, n);
      forall j :: 1 <= j < |chain| && j <= StopIndex(page, chain) && page.computedStyle(chain[j]).height != 0 ==>
        chain[j] in FlowOrder(page, n)
    ensures var chain := Ancestry(page, n); var k := StopIndex(page, chain);
      1 <= k < |chain| ==> FlowOrder(page, n) != [] && FlowOrder(page, n)[|FlowOrder(page, n)| - 1] == chain[k]
  {
    var chain := Ancestry(page, n);
    var k := StopIndex(page, chain);
    var reached := Reached(page, n);
    ReachedShape(page, n);
    WalkFromReached(page, n);
    forall j | 1 <= j < |chain| && j <= k && page.computedStyle(chain[j]).height != 0
      ensures chain[j] in FlowOrder(page, n)
    {
      assert reached[j - 1] == chain[j];
      NonZeroHeightHas(page, reached, j - 1);
    }
    if 1 <= k < |chain| {
      StopIndexFirst(page, chain);
      assert reached[|reached| - 1] == chain[k];
      NonZeroHeightLast(page, reached);
    }
  }

  /** The reached ancestors are the chain from position 1 up to and including the stop, or to the root. */
  lemma ReachedShape(page: Page, n: Node)
    requires WellFormed(page)
    ensures var chain := Ancestry(page, n); var k := StopIndex(page, chain);
      |Reached(page, n)| == (if k < |chain| then k else |chain| - 1) &&
      forall i :: 0 <= i < |Reached(page, n)| ==> Reached(page, n)[i] == chain[i + 1]
  {
  }

  /** An element with a non-zero height is kept. */
  lemma {:induction false} NonZeroHeightHas(page: Page, nodes: seq<Node>, i: nat)
    requires i < |nodes| && page.computedStyle(nodes[i]).height != 0
    ensures nodes[i] in NonZeroHeight(page, nodes)
  {
    if i > 0 {
      NonZeroHeightHas(page, nodes[1..], i - 1);
    }
  }

  /** When the last element has a non-zero height, it is the last element kept. */
  lemma {:induction false} NonZeroHeightLast(page: Page, nodes: seq<Node>)
    requires nodes != [] && page.computedStyle(nodes[|nodes| - 1]).height != 0
    ensures NonZeroHeight(page, nodes) != []
    ensures NonZeroHeight(page, nodes)[|NonZeroHeight(page, nodes)| - 1] == nodes[|nodes| - 1]
  {
    if |nodes| > 1 {
      NonZeroHeightLast(page, nodes[1..]);
    }
  }

  /**
   * When stacking is not ambiguous, or the host has no hit test or gives no
   * list, the result is the flow-order list. Otherwise, when the hit-test list holds the target
   * before its last position, the result is everything after the target's
   * first occurrence; when the list does not hold the target at all, it is
   * the whole non-empty list.
   */
  lemma VisualParentsChoice(page: Page, n: Node, rect: Rect)
    requires WellFormed(page)
    ensures !(StackingAmbiguous(page, n) && page.supportsElementsFromPoint) ==>
      VisualParents(page, n, rect) == FlowOrder(page, n)
    ensures var hits := page.elementsFromPoint(Ceil(rect.left + 1.0), Ceil(rect.top + 1.0));
      StackingAmbiguous(page, n) && page.supportsElementsFromPoint && hits.None? ==>
        VisualParents(page, n, rect) == FlowOrder(page, n)
    ensures var hits := page.elementsFromPoint(Ceil(rect.left + 1.0), Ceil(rect.top + 1.0));
      StackingAmbiguous(page, n) && page.supportsElementsFromPoint && hits.Some? ==>
        if exists j :: 0 <= j < |hits.value| - 1 && hits.value[j] == n then
          exists before :: hits.value == before + [n] + VisualParents(page, n, rect) && n !in before
        else if n !in hits.value && hits.value != [] then
          VisualParents(page, n, rect) == hits.value
        else
          VisualParents(page, n, rect) == FlowOrder(page, n)
  {
    var hits := page.elementsFromPoint(Ceil(rect.left + 1.0), Ceil(rect.top + 1.0));
    if StackingAmbiguous(page, n) && page.supportsElementsFromPoint && hits.Some? {
      var s := hits.value;
      var i := IndexOf(s, n);
      if exists j :: 0 <= j < |s| - 1 && s[j] == n {
        var j :| 0 <= j < |s| - 1 && s[j] == n;
        assert n in s[..j + 1];
        assert s == s[..i] + [n] + s[i + 1..];
      } else if n in s {
        assert i == |s| - 1;
      }
    }
  }

  // ---------------------------------------------------------------------
  // The colour stack and its flattening
  // ---------------------------------------------------------------------

  /** One entry of the colour stack; the assumed white layer has no element. */
  datatype Layer = Layer(color: Color, node: Option<Node>)

  /** What the outward walk yields: the whole colour stack or `None`, and the elements it appended to `bgNodes`. */
  datatype Gathered = Gathered(layers: Option<seq<Layer>>, visited: seq<Node>)

  /** The answer of the resolver: the flattened colour or `None`, and the elements appended to `bgNodes`. */
  datatype Resolution = Resolution(color: Option<Color>, bgNodes: seq<Node>)

  /** `bgNodes` receives an element whose own background is an image or has a non-zero alpha. */
  predicate Contributes(bg: Option<Color>) {
    bg.None? || bg.value.alpha != 0.0
  }

  /**
   * The outward walk: while the top of the stack is not fully opaque, take the
   * next parent; with none left, assume white under an `HTML` frontier and
   * otherwise give up; give up on a parent that does not visually contain
   * `node` or has an image background; otherwise push the parent's colour.
   */
  function Gather(page: Page, node: Node, parents: seq<Node>, current: Node, stack: seq<Layer>): (g: Gathered)
    requires stack != []
    ensures g.layers.Some? ==>
      |g.layers.value| >= |stack| && g.layers.value[..|stack|] == stack &&
      g.layers.value[|g.layers.value| - 1].color.alpha == 1.0
    decreases |parents|
  {
    if stack[|stack| - 1].color.alpha == 1.0 then
      Gathered(Some(stack), [])
    else if parents == [] then
      if page.tagName(current) == "HTML" then Gathered(Some(stack + [Layer(White, None)]), [])
      else Gathered(None, [])
    else
      var parent := parents[0];
      if !page.visuallyContains(node, parent) then
        Gathered(None, [])
      else
        var parentColor := SingleNodeBackground(page, parent);
        var pushed := if Contributes(parentColor) then [parent] else [];
        if parentColor.None? then
          Gathered(None, pushed)
        else
          var rest := Gather(page, node, parents[1..], parent, stack + [Layer(parentColor.value, Some(parent))]);
          assert rest.layers.Some? ==> rest.layers.value[..|stack|] == stack by {
            if rest.layers.Some? {
              assert (stack + [Layer(parentColor.value, Some(parent))])[..|stack|] == stack;
              assert rest.layers.value[..|stack|] == rest.layers.value[..|stack| + 1][..|stack|];
            }
          }
          Gathered(rest.layers, pushed + rest.visited)
  }

  /** One step of the outward walk when the top of the stack is not opaque and a parent is left. */
  lemma GatherStep(page: Page, node: Node, parents: seq<Node>, current: Node, stack: seq<Layer>)
    requires stack != [] && stack[|stack| - 1].color.alpha != 1.0 && parents != []
    ensures var parent := parents[0];
      var parentColor := SingleNodeBackground(page, parent);
      var pushed := if Contributes(parentColor) then [parent] else [];
      Gather(page, node, parents, current, stack) ==
        if !page.visuallyContains(node, parent) then Gathered(None, [])
        else if parentColor.None? then Gathered(None, pushed)
        else
          var rest := Gather(page, node, parents[1..], parent, stack + [Layer(parentColor.value, Some(parent))]);
          Gathered(rest.layers, pushed + rest.visited)
  {
  }

  // The outward walk described by how far it gets.

  /** A parent the walk passes through: it visually contains `node` and has a colour that is not fully opaque. */
  predicate PassesThrough(page: Page, node: Node, p: Node) {
    var bg := SingleNodeBackground(page, p);
    page.visuallyContains(node, p) && bg.Some? && bg.value.alpha != 1.0
  }

  /** How many leading parents the walk passes through. */
  function LeadingPasses(page: Page, node: Node, parents: seq<Node>): (k: nat)
    ensures k <= |parents|
  {
    if parents == [] || !PassesThrough(page, node, parents[0]) then 0
    else 1 + LeadingPasses(page, node, parents[1..])
  }

  /** The walk passes through every parent before position `k` and not through the one at `k`. */
  lemma {:induction false} LeadingPassesFirst(page: Page, node: Node, parents: seq<Node>)
    ensures var k := LeadingPasses(page, node, parents);
      (forall i :: 0 <= i < k ==> PassesThrough(page, node, parents[i])) &&
      (k < |parents| ==> !PassesThrough(page, node, parents[k]))
  {
    if parents != [] && PassesThrough(page, node, parents[0]) {
      LeadingPassesFirst(page, node, parents[1..]);
      forall i | 0 < i < LeadingPasses(page, node, parents) ensures PassesThrough(page, node, parents[i]) {
        assert parents[i] == parents[1..][i - 1];
      }
    }
  }

  /** The colour-stack entries of `nodes`, each element with its own background colour. */
  function ParentLayers(page: Page, nodes: seq<Node>): (layers: seq<Layer>)
    ensures |layers| == |nodes|
  {
    if nodes == [] then []
    else
      var bg := SingleNodeBackground(page, nodes[0]);
      [Layer(if bg.Some? then bg.value else NoColor, Some(nodes[0]))] + ParentLayers(page, nodes[1..])
  }

  /** The elements of `nodes` that `bgNodes` receives: an image background or a non-zero alpha. */
  function Contributing(page: Page, nodes: seq<Node>): seq<Node> {
    if nodes == [] then []
    else (if Contributes(SingleNodeBackground(page, nodes[0])) then [nodes[0]] else []) + Contributing(page, nodes[1..])
  }

  /**
   * The outward walk without recursion. Unless the stack is already opaque,
   * the walk passes through the first `k` parents, pushing their colours and
   * recording the contributing ones. With no parent left it assumes white
   * under an `HTML` frontier (the last element reached) and gives up
   * otherwise. Otherwise parent `k` decides: one that does not visually
   * contain `node` ends the walk unrecorded; one that does is recorded, and
   * its colour, fully opaque, closes the stack unless it is an image.
   */
  function GatherOutcome(page: Page, node: Node, parents: seq<Node>, current: Node, stack: seq<Layer>): Gathered
    requires stack != []
  {
    if stack[|stack| - 1].color.alpha == 1.0 then
      Gathered(Some(stack), [])
    else
      var k := LeadingPasses(page, node, parents);
      var passed := stack + ParentLayers(page, parents[..k]);
      var seen := Contributing(page, parents[..k]);
      if k == |parents| then
        var frontier := if k == 0 then current else parents[k - 1];
        Gathered(if page.tagName(frontier) == "HTML" then Some(passed + [Layer(White, None)]) else None, seen)
      else
        var p := parents[k];
        var bg := SingleNodeBackground(page, p);
        if !page.visuallyContains(node, p) then Gathered(None, seen)
        else if bg.None? then Gathered(None, seen + [p])
        else Gathered(Some(passed + [Layer(bg.value, Some(p))]), seen + [p])
  }

  /** Passing through one more parent extends the pushed layers and the recorded elements by that parent. */
  lemma PassOne(page: Page, node: Node, parents: seq<Node>)
    requires parents != [] && PassesThrough(page, node, parents[0])
    ensures var k := LeadingPasses(page, node, parents); var p := parents[0];
      var k' := LeadingPasses(page, node, parents[1..]);
      k == k' + 1 &&
      ParentLayers(page, parents[..k]) == [Layer(SingleNodeBackground(page, p).value, Some(p))] + ParentLayers(page, parents[1..][..k']) &&
      Contributing(page, parents[..k]) ==
        (if Contributes(SingleNodeBackground(page, p)) then [p] else []) + Contributing(page, parents[1..][..k'])
  {
    var k' := LeadingPasses(page, node, parents[1..]);
    assert parents[..k' + 1] == [parents[0]] + parents[1..][..k'];
  }

  /** The recursive walk and its description agree. */
  lemma {:induction false} GatherAgrees(page: Page, node: Node, parents: seq<Node>, current: Node, stack: seq<Layer>)
    requires stack != []
    ensures Gather(page, node, parents, current, stack) == GatherOutcome(page, node, parents, current, stack)
    decreases |parents|
  {
    if stack[|stack| - 1].color.alpha != 1.0 {
      if parents == [] {
        assert stack + ParentLayers(page, parents[..0]) == stack;
      } else if !PassesThrough(page, node, parents[0]) {
        GatherStep(page, node, parents, current, stack);
        assert stack + ParentLayers(page, parents[..0]) == stack;
        assert [] + [parents[0]] == [parents[0]];
      } else {
        var p := parents[0];
        var top := Layer(SingleNodeBackground(page, p).value, Some(p));
        var rest := parents[1..];
        GatherStep(page, node, parents, current, stack);
        GatherAgrees(page, node, rest, p, stack + [top]);
        PassOne(page, node, parents);
        var k' := LeadingPasses(page, node, rest);
        assert stack + [top] + ParentLayers(page, rest[..k']) == stack + ([top] + ParentLayers(page, rest[..k']));
        var pushed := if Contributes(SingleNodeBackground(page, p)) then [p] else [];
        var seen' := Contributing(page, rest[..k']);
        if k' == |rest| {
          assert (if k' == 0 then p else rest[k' - 1]) == parents[k' + 1 - 1];
        } else {
          var q := rest[k'];
          assert q == parents[k' + 1];
          assert pushed + (seen' + [q]) == (pushed + seen') + [q];
        }
      }
    }
  }

  /** `flattenColors(fg, bg)` applied from the back: `layers[0]` over `layers[1]` over ... over `base`. */
  function FlattenOnto(flattenColors: (Color, Color) -> Color, layers: seq<Layer>, base: Color): Color {
    if layers == [] then base
    else flattenColors(layers[0].color, FlattenOnto(flattenColors, layers[1..], base))
  }

  /** The stack folded back to front: the last-pushed colour is the base. */
  function Flatten(flattenColors: (Color, Color) -> Color, stack: seq<Layer>): Color
    requires stack != []
  {
    FlattenOnto(flattenColors, stack[..|stack| - 1], stack[|stack| - 1].color)
  }

  /** Popping the nearest-to-base layer and flattening it onto the base leaves the fold unchanged. */
  lemma {:induction false} FlattenOntoSnoc(flattenColors: (Color, Color) -> Color, layers: seq<Layer>, top: Layer, base: Color)
    ensures FlattenOnto(flattenColors, layers + [top], base) == FlattenOnto(flattenColors, layers, flattenColors(top.color, base))
  {
    if layers != [] {
      assert (layers + [top])[1..] == layers[1..] + [top];
      FlattenOntoSnoc(flattenColors, layers[1..], top, base);
    }
  }

  /** What `color.getBackgroundColor` computes, with `rect` the element's bounding rectangle. */
  function Resolve(page: Page, flattenColors: (Color, Color) -> Color, node: Node, rect: Rect): Resolution
    requires WellFormed(page)
  {
    var bg := SingleNodeBackground(page, node);
    var own := if Contributes(bg) then [node] else [];
    if bg.None? || bg.value.alpha == 1.0 then
      Resolution(bg, own)
    else
      var g := Gather(page, node, VisualParents(page, node, rect), node, [Layer(bg.value, Some(node))]);
      Resolution(if g.layers.Some? then Some(Flatten(flattenColors, g.layers.value)) else None, own + g.visited)
  }

  /**
   * An element whose own background is an image gives `None`; one whose own
   * colour is fully opaque gives that colour unblended. Either way only the
   * element itself is recorded.
   */
  lemma BackgroundColorOwn(page: Page, flattenColors: (Color, Color) -> Color, node: Node, rect: Rect)
    requires WellFormed(page)
    ensures var bg := SingleNodeBackground(page, node); var r := Resolve(page, flattenColors, node, rect);
      (bg.None? ==> r == Resolution(None, [node])) &&
      (bg.Some? && bg.value.alpha == 1.0 ==> r == Resolution(bg, [node]))
  {
  }

  /**
   * Otherwise, with `k` the number of elements behind `node` the walk passes
   * through: the colour is undetermined exactly when the walk runs out under
   * a frontier that is not `HTML`, or the next element does not visually
   * contain `node` or has an image background; a determined colour is the
   * fold of the passed layers onto the closing one (white, or the next
   * element's opaque colour); and the recorded elements are `node` when its
   * alpha is non-zero, the contributing passed elements, and the next element
   * when it contains `node`.
   */
  lemma BackgroundColorBlended(page: Page, flattenColors: (Color, Color) -> Color, node: Node, rect: Rect)
    requires WellFormed(page)
    requires var bg := SingleNodeBackground(page, node); bg.Some? && bg.value.alpha != 1.0
    ensures var bg := SingleNodeBackground(page, node); var r := Resolve(page, flattenColors, node, rect);
      var parents := VisualParents(page, node, rect);
      var k := LeadingPasses(page, node, parents);
      var frontier := if k == 0 then node else parents[k - 1];
      var passed := [Layer(bg.value, Some(node))] + ParentLayers(page, parents[..k]);
      var own := if bg.value.alpha != 0.0 then [node] else [];
      (r.color.None? <==>
        if k == |parents| then page.tagName(frontier) != "HTML"
        else !page.visuallyContains(node, parents[k]) || SingleNodeBackground(page, parents[k]).None?) &&
      (r.color.Some? ==>
        r.color.value ==
          if k == |parents| then Flatten(flattenColors, passed + [Layer(White, None)])
          else Flatten(flattenColors, passed + [Layer(SingleNodeBackground(page, parents[k]).value, Some(parents[k]))])) &&
      r.bgNodes ==
        own + Contributing(page, parents[..k]) +
        (if k < |parents| && page.visuallyContains(node, parents[k]) then [parents[k]] else [])
  {
    var bg := SingleNodeBackground(page, node);
    var parents := VisualParents(page, node, rect);
    var stack := [Layer(bg.value, Some(node))];
    GatherAgrees(page, node, parents, node, stack);
    var k := LeadingPasses(page, node, parents);
    LeadingPassesFirst(page, node, parents);
    var seen := Contributing(page, parents[..k]);
    var own := if bg.value.alpha != 0.0 then [node] else [];
    if k < |parents| {
      if page.visuallyContains(node, parents[k]) {
        assert own + (seen + [parents[k]]) == own + seen + [parents[k]];
      } else {
        assert own + seen + [] == own + seen;
      }
    } else {
      assert own + seen + [] == own + seen;
    }
  }

  /** The source-over alpha rule: the result's alpha is `fg.alpha + bg.alpha * (1 - fg.alpha)`. */
  ghost predicate OverAlpha(flattenColors: (Color, Color) -> Color) {
    forall fg, bg :: flattenColors(fg, bg).alpha == fg.alpha + bg.alpha * (1.0 - fg.alpha)
  }

  /** Folding any layers onto a fully opaque base under the source-over rule gives a fully opaque colour. */
  lemma {:induction false} FlattenOntoOpaque(flattenColors: (Color, Color) -> Color, layers: seq<Layer>, base: Color)
    requires OverAlpha(flattenColors) && base.alpha == 1.0
    ensures FlattenOnto(flattenColors, layers, base).alpha == 1.0
  {
    if layers != [] {
      FlattenOntoOpaque(flattenColors, layers[1..], base);
    }
  }

  /** When `flattenColors` follows the source-over rule, every determined background colour is fully opaque. */
  lemma BackgroundColorOpaque(page: Page, flattenColors: (Color, Color) -> Color, node: Node, rect: Rect)
    requires WellFormed(page) && OverAlpha(flattenColors)
    ensures var r := Resolve(page, flattenColors, node, rect);
      r.color.Some? ==> r.color.value.alpha == 1.0
  {
    var bg := SingleNodeBackground(page, node);
    if bg.Some? && bg.value.alpha != 1.0 {
      var g := Gather(page, node, VisualParents(page, node, rect), node, [Layer(bg.value, Some(node))]);
      if g.layers.Some? {
        var layers := g.layers.value;
        FlattenOntoOpaque(flattenColors, layers[..|layers| - 1], layers[|layers| - 1].color);
      }
    }
  }

  /** The flattened colour behind `node`, with the elements visited on the way. */
  method GetBackgroundColor(page: Page, flattenColors: (Color, Color) -> Color, node: Node, rect: Rect)
    returns (result: Option<Color>, bgNodes: seq<Node>)
    requires WellFormed(page)
    ensures Resolution(result, bgNodes) == Resolve(page, flattenColors, node, rect)
  {
    bgNodes := [];
    var bgColor := SingleNodeBackground(page, node);
    if Contributes(bgColor) {
      bgNodes := bgNodes + [node];
    }
    if bgColor.None? || bgColor.value.alpha == 1.0 {
      return bgColor, bgNodes;
    }

    var currentNode := node;
    var colour := bgColor.value;
    var colorStack := [Layer(colour, Some(node))];
    var parents := GetVisualParents(page, node, rect);
    ghost var whole := Gather(page, node, parents, node, colorStack);
    ghost var own := bgNodes;

    while colour.alpha != 1.0
      invariant colorStack != [] && colorStack[|colorStack| - 1].color == colour
      invariant Gather(page, node, parents, currentNode, colorStack).layers == whole.layers
      invariant own + whole.visited == bgNodes + Gather(page, node, parents, currentNode, colorStack).visited
      decreases |parents|, if colour.alpha == 1.0 then 0 else 1
    {
      ghost var before := parents;
      if parents == [] {
        if page.tagName(currentNode) != "HTML" {
          assert Gather(page, node, parents, currentNode, colorStack) == Gathered(None, []);
          assert bgNodes + [] == bgNodes;
          return None, bgNodes;
        }
        colour := White;
        colorStack := colorStack + [Layer(White, None)];
      } else {
        var parent := parents[0];
        ghost var prevVisited := bgNodes;
        GatherStep(page, node, parents, currentNode, colorStack);
        parents := parents[1..];
        if !page.visuallyContains(node, parent) {
          assert bgNodes + [] == bgNodes;
          return None, bgNodes;
        }
        var parentColor := SingleNodeBackground(page, parent);
        if Contributes(parentColor) {
          bgNodes := bgNodes + [parent];
        }
        if parentColor.None? {
          assert bgNodes + [] == bgNodes;
          return None, bgNodes;
        }
        currentNode := parent;
        colour := parentColor.value;
        colorStack := colorStack + [Layer(colour, Some(parent))];
        assert bgNodes + Gather(page, node, parents, currentNode, colorStack).visited ==
          prevVisited + ((if Contributes(parentColor) then [parent] else []) + Gather(page, node, parents, currentNode, colorStack).visited);
      }
    }

    assert Gather(page, node, parents, currentNode, colorStack) == Gathered(Some(colorStack), []);
    assert bgNodes + [] == bgNodes;
    var top := colorStack[|colorStack| - 1];
    ghost var stack := colorStack;
    colorStack := colorStack[..|colorStack| - 1];
    var flattenedColor := top.color;
    while colorStack != []
      invariant FlattenOnto(flattenColors, colorStack, flattenedColor) == Flatten(flattenColors, stack)
      decreases |colorStack|
    {
      ghost var prev := colorStack;
      var entry := colorStack[|colorStack| - 1];
      colorStack := colorStack[..|colorStack| - 1];
      assert prev == colorStack + [entry];
      FlattenOntoSnoc(flattenColors, colorStack, entry, flattenedColor);
      flattenedColor := flattenColors(entry.color, flattenedColor);
    }
    return Some(flattenedColor), bgNodes;
  }
}
