/** The page as the checkers see it. Every DOM query of the bookmarklets
    (`getComputedStyle`, `getBoundingClientRect`, `getAttribute`, the
    `parentElement` chain, `offsetParent`, `closest`) is replaced by a field
    of an explicit snapshot record. */
module Dom {
  import opened Seqs

  /** The computed style properties the checkers read, as the strings the
      browser reports; opacity and font size as the numbers `parseFloat`
      reads from them. */
  datatype Style = Style(
    display: string,
    visibility: string,
    opacity: real,
    color: string,
    backgroundColor: string,
    backgroundImage: string,
    fontSizePx: real,
    fontWeight: string)

  /** One element. `key` is its identity (JavaScript compares elements by
      reference); `className` is None when it is not a string (an SVG
      element's animated class name). `sameTypeSiblings` is the number of
      children of its parent with the same tag name (0 without a parent) and
      `typeIndex` its position among them. `currentSrc` and `srcProperty` are
      the image properties (empty when absent), `offsetParentNull` says
      `offsetParent === null`, `insideLink` says `closest('a')` is not null,
      and `accessibleName` is the result of the name computation, an input
      of the model. */
  datatype Element = Element(
    key: nat,
    tagName: string,
    id: string,
    className: Option<string>,
    classList: seq<string>,
    attributes: map<string, string>,
    textContent: string,
    style: Style,
    width: real,
    height: real,
    sameTypeSiblings: nat,
    typeIndex: nat,
    currentSrc: string,
    srcProperty: string,
    offsetParentNull: bool,
    insideLink: bool,
    accessibleName: string)

  /** `document.body` and `document.documentElement`. */
  datatype Document = Document(body: Element, root: Element)

  /** `el.getAttribute(name)`: the attribute's value, or None when it is
      absent. */
  function Attribute(el: Element, name: string): (v: Option<string>)
    ensures v.Some? <==> name in el.attributes
    ensures v.Some? ==> v.value == el.attributes[name]
  {
    if name in el.attributes then Some(el.attributes[name]) else None
  }

  /** The shared `getAttr` helper: `el.getAttribute(name) || null`, so an
      attribute present with the empty value reads as absent. */
  function GetAttr(el: Element, name: string): (v: Option<string>)
    ensures v.Some? <==> name in el.attributes && el.attributes[name] != ""
    ensures v.Some? ==> v.value == el.attributes[name] && v.value != ""
  {
    match Attribute(el, name)
    case Some(s) => if s == "" then None else Some(s)
    case None => None
  }

  /** What getAttr loses: it agrees with getAttribute except on an attribute
      whose value is empty, which it reports as missing. */
  lemma GetAttrLosesEmpty(el: Element, name: string)
    ensures GetAttr(el, name) != Attribute(el, name) <==> Attribute(el, name) == Some("")
  {
  }

  /** An ancestor chain: chain[0] is the element, chain[i + 1] the parent of
      chain[i]; the chain ends at the element without a parent. */
  type Chain = seq<Element>
}
