/**
 * The host document as the background-colour resolver sees it: a tree of
 * elements given by their parent links, the computed style of each element
 * (already parsed), and the geometry and hit-test queries of the browser.
 */
module Dom {
  import opened Wrappers

  /** Elements are numbered in document order, so a parent's number is below its children's. */
  type Node = nat

  /** An RGBA colour: three channels and an alpha that is a real number. */
  datatype Color = Color(red: int, green: int, blue: int, alpha: real)

  /** A computed `background-image`: `none`, or any other value (an image, a gradient, ...); `Image` never holds the text `none`. */
  datatype BackgroundImage = NoImage | Image(value: string)

  /** A computed `background-color`: the keyword `transparent`, or a colour the RGB parser has read. */
  datatype BackgroundColorValue = Transparent | Rgba(color: Color)

  /** A computed `position`: `static`, `relative`, or another keyword (`absolute`, `fixed`, ...); `OtherPosition` never holds `static` or `relative`. */
  datatype Position = Static | Relative | OtherPosition(value: string)

  /** A computed `top`, `bottom`, `left` or `right`: `auto`, or a length; `Length` never holds the text `auto`. */
  datatype Offset = Auto | Length(value: string)

  /**
   * The computed style properties the resolver reads, already parsed.
   * `height` is the result of `parseInt` on the computed height (a height
   * that does not parse, NaN, is non-zero at every comparison the resolver
   * makes, so any non-zero value stands for it).
   */
  datatype Style = Style(
    backgroundImage: BackgroundImage,
    backgroundColor: BackgroundColorValue,
    opacity: real,
    position: Position,
    top: Offset,
    bottom: Offset,
    left: Offset,
    right: Offset,
    height: int)

  /** The part of an element's bounding rectangle the resolver uses. */
  datatype Rect = Rect(left: real, top: real)

  /**
   * The document and the host queries on it. `parentElement` has no entry for
   * the root. `elementsFromPoint` returns the elements at a point, nearest
   * first, or `None` when the host gives no list.
   */
  datatype Page = Page(
    parentElement: map<Node, Node>,
    tagName: Node -> string,
    computedStyle: Node -> Style,
    visuallyContains: (Node, Node) -> bool,
    supportsElementsFromPoint: bool,
    elementsFromPoint: (int, int) -> Option<seq<Node>>)

  /** The parent links form a tree: every parent comes before its child in document order. */
  predicate WellFormed(page: Page) {
    forall n :: n in page.parentElement ==> page.parentElement[n] < n
  }

  /** `n`, its parent, its grandparent, and so on up to the root. */
  function Ancestry(page: Page, n: Node): (chain: seq<Node>)
    requires WellFormed(page)
    ensures |chain| >= 1 && chain[0] == n
    ensures chain[|chain| - 1] !in page.parentElement
    decreases n
  {
    if n in page.parentElement then [n] + Ancestry(page, page.parentElement[n]) else [n]
  }

  /** Walking up the tree the numbers strictly decrease, so every element of the chain is distinct. */
  lemma {:induction false} AncestryDecreasing(page: Page, n: Node)
    requires WellFormed(page)
    ensures forall i, j :: 0 <= i < j < |Ancestry(page, n)| ==> Ancestry(page, n)[i] > Ancestry(page, n)[j]
    decreases n
  {
    if n in page.parentElement {
      var p := page.parentElement[n];
      AncestryDecreasing(page, p);
      var c, c' := Ancestry(page, n), Ancestry(page, p);
      assert c == [n] + c';
      forall i, j | 0 <= i < j < |c| ensures c[i] > c[j] {
        if i == 0 {
          assert c[j] == c'[j - 1];
          if j > 1 { assert c'[0] > c'[j - 1]; }
        }
      }
    }
  }

  /** `Math.ceil`: the least integer not below `x`. */
  function Ceil(x: real): (c: int)
    ensures c as real - 1.0 < x <= c as real
  {
    -((-x).Floor)
  }
}
