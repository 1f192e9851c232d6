/** The WCAG 1.1.1 (non-text content) checker: it collects the images,
    image inputs, image-map areas, SVG graphics, image objects and CSS
    background images of the page, judges each one's text alternative, and
    summarises the results for the runner. */
module NonText {
  import opened Seqs
  import opened Text
  import opened Dom
  import Runner

  // ===== Pattern tests =====

  /** A character of the regular-expression class `\w`. */
  predicate IsWordChar(c: char) {
    ('a' <= c <= 'z') || ('A' <= c <= 'Z') || ('0' <= c <= '9') || c == '_'
  }

  /** `[a-z0-9]` under the `i` flag. */
  predicate IsAlnum(c: char) {
    ('a' <= c <= 'z') || ('A' <= c <= 'Z') || ('0' <= c <= '9')
  }

  /** The lower-case word w occurs in s at i, ignoring case. */
  predicate MatchesAt(s: string, i: nat, w: string) {
    i + |w| <= |s| && Lower(s[i..i + |w|]) == w
  }

  /** `/w/i.test(s)` for a lower-case word w without special characters:
      w occurs somewhere in s, ignoring case. */
  predicate ContainsWord(s: string, w: string) {
    exists i: nat :: i <= |s| && MatchesAt(s, i, w)
  }

  /** The left-to-right search for w from position i on. */
  predicate FindsWord(s: string, w: string, i: nat)
    decreases |s| - i
  {
    i + |w| <= |s| && (MatchesAt(s, i, w) || FindsWord(s, w, i + 1))
  }

  /** The search finds w exactly when w occurs at or after i. */
  lemma {:induction false} FindsWordFrom(s: string, w: string, i: nat)
    ensures FindsWord(s, w, i) <==> exists j: nat :: i <= j <= |s| && MatchesAt(s, j, w)
    decreases |s| - i
  {
    if i + |w| <= |s| {
      FindsWordFrom(s, w, i + 1);
      if !MatchesAt(s, i, w) && exists j: nat :: i <= j <= |s| && MatchesAt(s, j, w) {
        var j: nat :| i <= j <= |s| && MatchesAt(s, j, w);
        assert j != i;
      }
    }
  }

  /** `/\burl\(/i.test(s)`: "url(" in any case, not preceded by a word
      character. */
  predicate HasUrlCall(s: string) {
    exists i: nat :: i < |s| && (i == 0 || !IsWordChar(s[i - 1])) && MatchesAt(s, i, "url(")
  }

  const Extensions: seq<string> := ["jpg", "jpeg", "png", "gif", "webp", "svg"]

  /** At i a dot, then one of the extensions in any case, then the end or a
      non-word character. */
  predicate ExtensionHere(s: string, i: nat) {
    i < |s| && s[i] == '.' && exists k :: 0 <= k < |Extensions| && ExtensionAt(s, i + 1, Extensions[k])
  }

  predicate ExtensionAt(s: string, i: nat, e: string) {
    MatchesAt(s, i, e) && (i + |e| == |s| || !IsWordChar(s[i + |e|]))
  }

  /** `/\.(jpg|jpeg|png|gif|webp|svg)\b/i.test(s)`. */
  predicate HasImageExtension(s: string) {
    exists i: nat :: i < |s| && ExtensionHere(s, i)
  }

  /** The left-to-right search for an image extension from position i on. */
  predicate FindsExtension(s: string, i: nat)
    decreases |s| - i
  {
    i < |s| && (ExtensionHere(s, i) || FindsExtension(s, i + 1))
  }

  /** The search finds an extension exactly when one starts at or after i. */
  lemma {:induction false} FindsExtensionFrom(s: string, i: nat)
    ensures FindsExtension(s, i) <==> exists j: nat :: i <= j < |s| && ExtensionHere(s, j)
    decreases |s| - i
  {
    if i < |s| {
      FindsExtensionFrom(s, i + 1);
      if !ExtensionHere(s, i) && exists j: nat :: i <= j < |s| && ExtensionHere(s, j) {
        var j: nat :| i <= j < |s| && ExtensionHere(s, j);
        assert j != i;
      }
    }
  }

  /** `a.toLowerCase() === b.toLowerCase()`, compared character by
      character. */
  predicate SameFold(a: string, b: string) {
    if a == [] || b == [] then a == [] && b == []
    else LowerChar(a[0]) == LowerChar(b[0]) && SameFold(a[1..], b[1..])
  }

  lemma {:induction false} SameFoldSpec(a: string, b: string)
    ensures SameFold(a, b) <==> Lower(a) == Lower(b)
  {
    if a != [] && b != [] {
      SameFoldSpec(a[1..], b[1..]);
      if Lower(a) == Lower(b) {
        assert Lower(a[1..]) == Lower(a)[1..] && Lower(b[1..]) == Lower(b)[1..];
      }
    }
  }

  // ===== filenameFromSrc =====

  /** `pathname.split('/').pop()`: the text after the last '/'. */
  function LastSegment(p: string): (r: string)
    ensures |r| <= |p|
  {
    if p == [] || p[|p| - 1] == '/' then [] else LastSegment(p[..|p| - 1]) + [p[|p| - 1]]
  }

  /** The last segment is the longest suffix without '/': it ends the path,
      has no '/', and is the whole path or follows a '/'. */
  lemma {:induction false} LastSegmentSpec(p: string)
    ensures LastSegment(p) == p[|p| - |LastSegment(p)|..]
    ensures forall k :: 0 <= k < |LastSegment(p)| ==> LastSegment(p)[k] != '/'
    ensures |LastSegment(p)| < |p| ==> p[|p| - |LastSegment(p)| - 1] == '/'
  {
    if p != [] && p[|p| - 1] != '/' {
      var init := p[..|p| - 1];
      LastSegmentSpec(init);
      assert p == init + [p[|p| - 1]];
    }
  }

  /** Length of the longest run of `[a-z0-9]` characters at the end of s. */
  function AlnumSuffix(s: string): (k: nat)
    ensures k <= |s|
    ensures forall j :: |s| - k <= j < |s| ==> IsAlnum(s[j])
    ensures k < |s| ==> !IsAlnum(s[|s| - k - 1])
  {
    if s == [] || !IsAlnum(s[|s| - 1]) then 0 else AlnumSuffix(s[..|s| - 1]) + 1
  }

  /** `name.replace(/\.[a-z0-9]+$/i, '')`. */
  function StripExtension(s: string): (r: string)
    ensures |r| <= |s|
  {
    var k := AlnumSuffix(s);
    if 0 < k < |s| && s[|s| - k - 1] == '.' then s[..|s| - k - 1] else s
  }

  /** Stripping removes exactly a final dot followed by one or more
      `[a-z0-9]` characters, and leaves a name without one alone. */
  lemma StripExtensionSpec(s: string)
    ensures StripExtension(s) == s[..|StripExtension(s)|]
    ensures var r := StripExtension(s);
            r != s ==> |r| + 1 < |s| && s[|r|] == '.' && forall j :: |r| < j < |s| ==> IsAlnum(s[j])
    ensures StripExtension(s) == s ==>
              !exists d :: 0 <= d < |s| - 1 && s[d] == '.' && forall j :: d < j < |s| ==> IsAlnum(s[j])
  {
    var k := AlnumSuffix(s);
    if StripExtension(s) == s && exists d :: 0 <= d < |s| - 1 && s[d] == '.' && forall j :: d < j < |s| ==> IsAlnum(s[j]) {
      assert false;
    }
  }

  predicate IsDash(c: char) { c == '-' || c == '_' }

  /** `s.replace(/[-_]+/g, ' ')`: every run of '-' and '_' becomes one
      space. */
  function DashesToSpaces(s: string): (r: string)
    decreases |s|
  {
    if s == [] then []
    else if !IsDash(s[0]) then [s[0]] + DashesToSpaces(s[1..])
    else [' '] + DashesToSpaces(s[Span(s, 0, IsDash)..])
  }

  /** No '-' or '_' survives, and a string without them is left alone. */
  lemma {:induction false} DashesToSpacesSpec(s: string)
    ensures forall k :: 0 <= k < |DashesToSpaces(s)| ==> !IsDash(DashesToSpaces(s)[k])
    ensures (forall k :: 0 <= k < |s| ==> !IsDash(s[k])) ==> DashesToSpaces(s) == s
    decreases |s|
  {
    if s != [] {
      if !IsDash(s[0]) {
        DashesToSpacesSpec(s[1..]);
        assert forall k :: 1 <= k < |s| ==> s[k] == s[1..][k - 1];
      } else {
        DashesToSpacesSpec(s[Span(s, 0, IsDash)..]);
      }
    }
  }

  /** A run of dashes between dash-free text becomes exactly one space. */
  lemma {:induction false} DashRun(a: string, d: string, b: string)
    requires forall k :: 0 <= k < |a| ==> !IsDash(a[k])
    requires d != [] && forall k :: 0 <= k < |d| ==> IsDash(d[k])
    requires b == [] || !IsDash(b[0])
    ensures DashesToSpaces(a + d + b) == a + " " + DashesToSpaces(b)
    decreases |a|
  {
    if a == [] {
      assert a + d + b == d + b;
      LeadingDashes(d, b);
    } else {
      var t := a + d + b;
      assert t[0] == a[0] && t[1..] == a[1..] + d + b;
      DashRun(a[1..], d, b);
      assert a == [a[0]] + a[1..];
    }
  }

  lemma LeadingDashes(d: string, b: string)
    requires d != [] && forall k :: 0 <= k < |d| ==> IsDash(d[k])
    requires b == [] || !IsDash(b[0])
    ensures DashesToSpaces(d + b) == " " + DashesToSpaces(b)
  {
    SpanAt(d + b, 0, d, IsDash);
    assert (d + b)[|d|..] == b;
  }

  /** The file name of a path: its last segment without its extension,
      dashes and underscores read as spaces. */
  function FileName(pathname: string): string {
    DashesToSpaces(StripExtension(LastSegment(pathname)))
  }

  /** `filenameFromSrc(src)`. Resolving src against the page address
      (`new URL(src, location.href).pathname`) is a parameter that yields
      None when the constructor throws, and then the guess is "". */
  function FilenameFromSrc(src: string, urlPath: string -> Option<string>): string {
    match urlPath(src)
    case Some(p) => FileName(p)
    case None => ""
  }

  /** For `dir/base.ext`, the guess is the base with its dashes read as
      spaces. */
  lemma FileNameOf(dir: string, base: string, ext: string)
    requires forall k :: 0 <= k < |base| ==> base[k] != '/'
    requires ext != [] && forall k :: 0 <= k < |ext| ==> IsAlnum(ext[k])
    ensures FileName(dir + "/" + base + "." + ext) == DashesToSpaces(base)
  {
    SegmentOfPath(dir, base, ext);
    StripExtensionOf(base, ext);
  }

  lemma SegmentOfPath(dir: string, base: string, ext: string)
    requires forall k :: 0 <= k < |base| ==> base[k] != '/'
    requires forall k :: 0 <= k < |ext| ==> IsAlnum(ext[k])
    ensures LastSegment(dir + "/" + base + "." + ext) == base + "." + ext
  {
    var seg := base + "." + ext;
    var d := dir + "/";
    Regroup(d, base, ".", ext);
    NoSlash(base, ext);
    LastSegmentOf(d, seg);
  }

  lemma NoSlash(base: string, ext: string)
    requires forall k :: 0 <= k < |base| ==> base[k] != '/'
    requires forall k :: 0 <= k < |ext| ==> IsAlnum(ext[k])
    ensures forall k :: 0 <= k < |base + "." + ext| ==> (base + "." + ext)[k] != '/'
  {
    var b := base + ".";
    forall k | 0 <= k < |b + ext|
      ensures (b + ext)[k] != '/'
    {
      if k < |b| {
        assert (b + ext)[k] == b[k];
      } else {
        assert (b + ext)[k] == ext[k - |b|];
      }
    }
  }

  /** The segment after a final '/'. */
  lemma {:induction false} LastSegmentOf(dir: string, seg: string)
    requires dir != [] && dir[|dir| - 1] == '/'
    requires forall k :: 0 <= k < |seg| ==> seg[k] != '/'
    ensures LastSegment(dir + seg) == seg
  {
    if seg == [] {
      assert dir + seg == dir;
    } else {
      var init := seg[..|seg| - 1];
      LastSegmentOf(dir, init);
      assert (dir + seg)[..|dir + seg| - 1] == dir + init;
      assert seg == init + [seg[|seg| - 1]];
    }
  }

  /** The alphanumeric run at the end of pre + ext is ext when pre does not
      end in one. */
  lemma {:induction false} AlnumSuffixOf(pre: string, ext: string)
    requires pre == [] || !IsAlnum(pre[|pre| - 1])
    requires forall k :: 0 <= k < |ext| ==> IsAlnum(ext[k])
    ensures AlnumSuffix(pre + ext) == |ext|
  {
    if ext == [] {
      assert pre + ext == pre;
    } else {
      var init := ext[..|ext| - 1];
      AlnumSuffixOf(pre, init);
      assert (pre + ext)[..|pre + ext| - 1] == pre + init;
    }
  }

  lemma StripExtensionOf(base: string, ext: string)
    requires ext != [] && forall k :: 0 <= k < |ext| ==> IsAlnum(ext[k])
    ensures StripExtension(base + "." + ext) == base
  {
    var s := base + "." + ext;
    assert s == (base + ".") + ext;
    AlnumSuffixOf(base + ".", ext);
    assert s[..|base|] == base;
  }

  // ===== Candidates =====

  /** The kinds of candidate. The query for objects and embeds yields only
      those two tags. */
  datatype Kind = Img | InputImage | Area | Svg | Object | Embed | CssBg

  /** The `type` string of a candidate. */
  function KindName(k: Kind): string {
    match k
    case Img => "img"
    case InputImage => "input-image"
    case Area => "area"
    case Svg => "svg"
    case Object => "object"
    case Embed => "embed"
    case CssBg => "css-bg"
  }

  datatype Item = Item(kind: Kind, el: Element)

  /** The results of the page queries, in document order: `img`,
      `input[type="image"]`, `area`, the `closest('svg')` of every SVG hit
      (None when there is none), `object, embed`, and the elements that may
      carry a CSS background image. */
  datatype Query = Query(
    imgs: seq<Element>,
    inputImages: seq<Element>,
    areas: seq<Element>,
    svgHits: seq<Option<Element>>,
    embeds: seq<Element>,
    backgrounds: seq<Element>)

  /** The `type` attribute of an object or embed declares an image. */
  predicate IsImageType(el: Element) {
    var t := Lower(match GetAttr(el, "type") case Some(v) => v case None => "");
    |t| >= 6 && t[..6] == "image/"
  }

  function EmbedKind(el: Element): Kind {
    if Lower(el.tagName) == "embed" then Embed else Object
  }

  /** `hasBGImage`. */
  predicate HasBgImage(el: Element) {
    HasUrlCall(el.style.backgroundImage)
  }

  function Tagged(els: seq<Element>, k: Kind): (r: seq<Item>)
    ensures |r| == |els|
    ensures forall i :: 0 <= i < |els| ==> r[i] == Item(k, els[i])
  {
    seq(|els|, i requires 0 <= i < |els| => Item(k, els[i]))
  }

  /** The SVG items: the hits that have an enclosing svg, in order. */
  function SvgItems(hits: seq<Option<Element>>): seq<Item> {
    if hits == [] then []
    else SvgItems(hits[..|hits| - 1])
         + (if hits[|hits| - 1].Some? then [Item(Svg, hits[|hits| - 1].value)] else [])
  }

  function EmbedItems(els: seq<Element>): seq<Item> {
    if els == [] then []
    else EmbedItems(els[..|els| - 1])
         + (if IsImageType(els[|els| - 1]) then [Item(EmbedKind(els[|els| - 1]), els[|els| - 1])] else [])
  }

  function BgItems(els: seq<Element>): seq<Item> {
    if els == [] then []
    else BgItems(els[..|els| - 1]) + (if HasBgImage(els[|els| - 1]) then [Item(CssBg, els[|els| - 1])] else [])
  }

  /** Every item the pushes produce, before de-duplication. */
  function RawItems(q: Query): seq<Item> {
    Tagged(q.imgs, Img) + Tagged(q.inputImages, InputImage) + Tagged(q.areas, Area)
    + SvgItems(q.svgHits) + EmbedItems(q.embeds) + BgItems(q.backgrounds)
  }

  /** The identities of the items' elements, in order. */
  function Keys(items: seq<Item>): (r: seq<nat>)
    ensures |r| == |items|
    ensures forall i :: 0 <= i < |items| ==> r[i] == items[i].el.key
  {
    seq(|items|, i requires 0 <= i < |items| => items[i].el.key)
  }

  /** The `seen`-set filter: an item whose element was met before is
      dropped. */
  function Dedup(items: seq<Item>): seq<Item> {
    if items == [] then []
    else
      var d := Dedup(items[..|items| - 1]);
      if items[|items| - 1].el.key in Keys(d) then d else d + [items[|items| - 1]]
  }

  /** The elements kept are exactly JavaScript's `new Set` of the elements:
      each element once, in the order of its first item. */
  lemma {:induction false} DedupKeys(items: seq<Item>)
    ensures Keys(Dedup(items)) == Unique(Keys(items))
  {
    if items != [] {
      var init := items[..|items| - 1];
      var last := items[|items| - 1];
      DedupKeys(init);
      assert Keys(items) == Keys(init) + [last.el.key];
      assert Keys(items)[..|items| - 1] == Keys(init);
      var d := Dedup(init);
      if last.el.key !in Keys(d) {
        assert Keys(d + [last]) == Keys(d) + [last.el.key];
      }
    }
  }

  /** x is the first item of the list for its element. */
  predicate FirstOf(items: seq<Item>, x: Item) {
    var k := IndexOf(Keys(items), x.el.key);
    k < |items| && x == items[k]
  }

  lemma FirstOfSnoc(init: seq<Item>, last: Item, x: Item)
    requires FirstOf(init, x)
    ensures FirstOf(init + [last], x)
  {
    assert Keys(init + [last]) == Keys(init) + [last.el.key];
    IndexOfPrefix(Keys(init), [last.el.key], x.el.key);
  }

  lemma FirstOfLast(init: seq<Item>, last: Item)
    requires last.el.key !in Keys(init)
    ensures FirstOf(init + [last], last)
  {
    assert Keys(init + [last]) == Keys(init) + [last.el.key];
    IndexOfAbsent(Keys(init), last.el.key);
  }

  /** Each kept item is the first item of the list for its element. */
  lemma {:induction false} DedupFirst(items: seq<Item>)
    ensures forall i :: 0 <= i < |Dedup(items)| ==> FirstOf(items, Dedup(items)[i])
  {
    if items != [] {
      var init := items[..|items| - 1];
      var last := items[|items| - 1];
      assert items == init + [last];
      DedupFirst(init);
      var d := Dedup(init);
      forall i | 0 <= i < |d|
        ensures FirstOf(items, d[i])
      {
        FirstOfSnoc(init, last, d[i]);
      }
      if last.el.key !in Keys(d) {
        DedupKeys(init);
        UniqueIn(Keys(init), last.el.key);
        FirstOfLast(init, last);
        var r := d + [last];
        forall i | 0 <= i < |r|
          ensures FirstOf(items, r[i])
        {
          if i < |d| {
            assert r[i] == d[i];
          }
        }
      }
    }
  }

  /** The de-duplication as the loop in collectCandidates performs it. */
  method Dedupe(items: seq<Item>) returns (kept: seq<Item>)
    ensures kept == Dedup(items)
  {
    var seen: set<nat> := {};
    kept := [];
    var i := 0;
    while i < |items|
      invariant i <= |items|
      invariant kept == Dedup(items[..i])
      invariant forall x :: x in seen <==> x in Keys(kept)
    {
      assert items[..i + 1][..i] == items[..i];
      var item := items[i];
      if item.el.key !in seen {
        seen := seen + {item.el.key};
        assert Keys(kept + [item]) == Keys(kept) + [item.el.key];
        kept := kept + [item];
      }
      i := i + 1;
    }
    assert items[..|items|] == items;
  }

  /** `items.push` of each element of a query result under one kind. */
  method PushAll(items: seq<Item>, els: seq<Element>, k: Kind) returns (r: seq<Item>)
    ensures r == items + Tagged(els, k)
  {
    r := items;
    var i := 0;
    while i < |els|
      invariant i <= |els|
      invariant r == items + Tagged(els[..i], k)
    {
      assert Tagged(els[..i + 1], k) == Tagged(els[..i], k) + [Item(k, els[i])];
      r := r + [Item(k, els[i])];
      i := i + 1;
    }
    assert els[..|els|] == els;
  }

  method PushSvgs(items: seq<Item>, hits: seq<Option<Element>>) returns (r: seq<Item>)
    ensures r == items + SvgItems(hits)
  {
    r := items;
    var i := 0;
    while i < |hits|
      invariant i <= |hits|
      invariant r == items + SvgItems(hits[..i])
    {
      assert hits[..i + 1][..i] == hits[..i];
      if hits[i].Some? {
        r := r + [Item(Svg, hits[i].value)];
      }
      i := i + 1;
    }
    assert hits[..|hits|] == hits;
  }

  method PushEmbeds(items: seq<Item>, els: seq<Element>) returns (r: seq<Item>)
    ensures r == items + EmbedItems(els)
  {
    r := items;
    var i := 0;
    while i < |els|
      invariant i <= |els|
      invariant r == items + EmbedItems(els[..i])
    {
      assert els[..i + 1][..i] == els[..i];
      if IsImageType(els[i]) {
        r := r + [Item(EmbedKind(els[i]), els[i])];
      }
      i := i + 1;
    }
    assert els[..|els|] == els;
  }

  method PushBackgrounds(items: seq<Item>, els: seq<Element>) returns (r: seq<Item>)
    ensures r == items + BgItems(els)
  {
    r := items;
    var i := 0;
    while i < |els|
      invariant i <= |els|
      invariant r == items + BgItems(els[..i])
    {
      assert els[..i + 1][..i] == els[..i];
      if HasBgImage(els[i]) {
        r := r + [Item(CssBg, els[i])];
      }
      i := i + 1;
    }
    assert els[..|els|] == els;
  }

  /** `collectCandidates`. */
  method CollectCandidates(q: Query) returns (candidates: seq<Item>)
    ensures candidates == Dedup(RawItems(q))
  {
    var items: seq<Item> := [];
    items := PushAll(items, q.imgs, Img);
    assert items == Tagged(q.imgs, Img);
    items := PushAll(items, q.inputImages, InputImage);
    items := PushAll(items, q.areas, Area);
    items := PushSvgs(items, q.svgHits);
    items := PushEmbeds(items, q.embeds);
    items := PushBackgrounds(items, q.backgrounds);
    candidates := Dedupe(items);
  }

  /** The candidate list names every collected element once, keeps for each
      the first item collected for it, and keeps the order of first
      occurrence. */
  lemma CandidatesSpec(q: Query)
    ensures Distinct(Keys(Dedup(RawItems(q))))
    ensures forall i :: 0 <= i < |RawItems(q)| ==> RawItems(q)[i].el.key in Keys(Dedup(RawItems(q)))
    ensures forall i :: 0 <= i < |Dedup(RawItems(q))| ==> FirstOf(RawItems(q), Dedup(RawItems(q))[i])
    ensures forall i, j :: 0 <= i < j < |Dedup(RawItems(q))| ==>
              IndexOf(Keys(RawItems(q)), Dedup(RawItems(q))[i].el.key)
              < IndexOf(Keys(RawItems(q)), Dedup(RawItems(q))[j].el.key)
  {
    var items := RawItems(q);
    var d := Dedup(items);
    DedupKeys(items);
    DedupFirst(items);
    UniqueSpec(Keys(items));
    forall i | 0 <= i < |items|
      ensures items[i].el.key in Keys(d)
    {
      assert Keys(items)[i] == items[i].el.key;
    }
    forall i, j | 0 <= i < j < |d|
      ensures IndexOf(Keys(items), d[i].el.key) < IndexOf(Keys(items), d[j].el.key)
    {
      assert Keys(d)[i] == d[i].el.key && Keys(d)[j] == d[j].el.key;
    }
  }

  // ===== Evaluation =====

  /** `isDecorativeByRole`. */
  predicate IsDecorative(el: Element) {
    var role := Lower(match GetAttr(el, "role") case Some(v) => v case None => "");
    role == "presentation" || role == "none" || GetAttr(el, "aria-hidden") == Some("true")
  }

  /** Decorative means role presentation or none in any case, or aria-hidden
      exactly "true", as the attributes are written. */
  lemma IsDecorativeSpec(el: Element)
    ensures IsDecorative(el) <==>
              || ("role" in el.attributes && Lower(el.attributes["role"]) in {"presentation", "none"})
              || ("aria-hidden" in el.attributes && el.attributes["aria-hidden"] == "true")
  {
    if "role" in el.attributes && el.attributes["role"] == "" {
      assert Lower(el.attributes["role"]) == "";
    }
  }

  /** `isHidden`: no offset parent (except for areas, which never have
      one), or computed visibility hidden. */
  predicate IsHidden(el: Element) {
    (el.offsetParentNull && Lower(el.tagName) != "area") || el.style.visibility == "hidden"
  }

  /** The source address of a candidate: an image's `currentSrc` or `src`,
      else its `src` or `data-src` attribute, else "". */
  function Src(el: Element): string {
    var fromImage := if Lower(el.tagName) == "img" then (if el.currentSrc != "" then el.currentSrc else el.srcProperty) else "";
    if fromImage != "" then fromImage
    else match GetAttr(el, "src")
      case Some(s) => s
      case None => match GetAttr(el, "data-src") case Some(s) => s case None => ""
  }

  /** The issues the rules report, one constructor per message. */
  datatype Issue =
    | DecorativeAlt | MissingAlt | EmptyAlt | AltIsFileName | AltHasExtension
    | InputImageAlt | AreaAlt | SvgUnnamed | EmbedUnnamed(kind: Kind) | BgUnlabelled

  /** The hints the rules give, one constructor per message. */
  datatype Hint =
    | SetEmptyAlt | AddAlt | UseMeaningfulAlt | DescribePurpose | RemoveExtension
    | DescribeFunction | DescribeTarget | NameSvg | NameEmbed | AddLabel | LogoName | LinkPurpose

  /** The text each issue is reported with. */
  function IssueText(i: Issue): string {
    match i
    case DecorativeAlt => "Dekoratives/ausgeblendetes Bild sollte alt=\"\" haben."
    case MissingAlt => "Fehlendes alt-Attribut."
    case EmptyAlt => "Leeres alt, vermutlich nicht dekorativ."
    case AltIsFileName => "Alt entspricht dem Dateinamen."
    case AltHasExtension => "Alt enthält Dateiendung."
    case InputImageAlt => "<input type=\"image\"> benötigt beschreibendes alt."
    case AreaAlt => "<area> benötigt alt."
    case SvgUnnamed => "SVG ohne zugänglichen Namen."
    case EmbedUnnamed(k) => "<" + KindName(k) + "> mit Bildinhalt ohne zugänglichen Namen."
    case BgUnlabelled => "CSS-Hintergrundbild könnte Information ohne Alt transportieren."
  }

  /** The text each hint is given with. */
  function HintText(h: Hint): string {
    match h
    case SetEmptyAlt => "Setze alt=\"\" und ggf. role=\"presentation\" oder aria-hidden=\"true\"."
    case AddAlt => "Füge ein aussagekräftiges alt hinzu, das den Bildzweck beschreibt."
    case UseMeaningfulAlt => "Nutze einen sinnvollen Alternativtext."
    case DescribePurpose => "Beschreibe Sinn/Zweck statt Dateiname."
    case RemoveExtension => "Entferne Dateiendungen aus alt."
    case DescribeFunction => "Alt sollte die Funktion (z. B. „Suchen“) beschreiben."
    case DescribeTarget => "Beschreibe Ziel/Zweck der Fläche."
    case NameSvg => "Füge aria-label/aria-labelledby oder <title> hinzu oder markiere dekorativ."
    case NameEmbed => "Setze title/aria-label oder gleichwertigen Text im Kontext."
    case AddLabel => "Füge sichtbaren/visually hidden Text oder aria-label hinzu."
    case LogoName => "Ist es ein Logo? Alt kann den Organisationsnamen enthalten."
    case LinkPurpose => "Bei verlinkten Bildern muss der Linkzweck über Alt/Linktext klar werden."
  }

  /** Reads a hint back from its text, by its length and its last
      character but one. */
  function HintOfText(s: string): Option<Hint> {
    if |s| < 2 then None
    else
      var c := s[|s| - 2];
      if |s| == 66 then (if c == '"' then Some(SetEmptyAlt) else Some(AddAlt))
      else if |s| == 38 then (if c == 't' then Some(UseMeaningfulAlt) else Some(DescribePurpose))
      else if |s| == 31 then Some(RemoveExtension)
      else if |s| == 53 then Some(DescribeFunction)
      else if |s| == 33 then Some(DescribeTarget)
      else if |s| == 75 then Some(NameSvg)
      else if |s| == 59 then (if c == 't' then Some(NameEmbed) else if c == 'u' then Some(AddLabel) else Some(LogoName))
      else if |s| == 72 then Some(LinkPurpose)
      else None
  }

  /** Every hint is read back from its text. */
  lemma HintTextDecodes(h: Hint)
    ensures HintOfText(HintText(h)) == Some(h)
  {
    if h.SetEmptyAlt? || h.AddAlt? || h.UseMeaningfulAlt? {
      DecodesFirst(h);
    } else if h.DescribePurpose? || h.RemoveExtension? || h.DescribeFunction? {
      DecodesSecond(h);
    } else if h.DescribeTarget? || h.NameSvg? || h.NameEmbed? {
      DecodesThird(h);
    } else {
      DecodesFourth(h);
    }
  }

  lemma DecodesFirst(h: Hint)
    requires h.SetEmptyAlt? || h.AddAlt? || h.UseMeaningfulAlt?
    ensures HintOfText(HintText(h)) == Some(h)
  {
  }

  lemma DecodesSecond(h: Hint)
    requires h.DescribePurpose? || h.RemoveExtension? || h.DescribeFunction?
    ensures HintOfText(HintText(h)) == Some(h)
  {
  }

  lemma DecodesThird(h: Hint)
    requires h.DescribeTarget? || h.NameSvg? || h.NameEmbed?
    ensures HintOfText(HintText(h)) == Some(h)
  {
  }

  lemma DecodesFourth(h: Hint)
    requires h.AddLabel? || h.LogoName? || h.LinkPurpose?
    ensures HintOfText(HintText(h)) == Some(h)
  {
  }

  /** Different hints have different texts, so de-duplicating hints and
      de-duplicating their texts agree (UniqueTexts). */
  lemma HintTextInjective(a: Hint, b: Hint)
    ensures HintText(a) == HintText(b) <==> a == b
  {
    HintTextDecodes(a);
    HintTextDecodes(b);
  }

  /** `Array.from(new Set(hints))` on the texts is the texts of the
      de-duplicated hints. */
  lemma UniqueTexts(hs: seq<Hint>)
    ensures Map(Unique(hs), HintText) == Unique(Map(hs, HintText))
  {
    forall a, b | HintText(a) == HintText(b)
      ensures a == b
    {
      HintTextInjective(a, b);
    }
    UniqueMap(hs, HintText);
  }

  /** Issues and hints collected for one candidate. */
  datatype Notes = Notes(issues: seq<Issue>, hints: seq<Hint>)

  const NoNotes := Notes([], [])

  /** `issues.push(issue); hints.push(hint)`. */
  function Push(n: Notes, issue: Issue, hint: Hint): Notes {
    Notes(n.issues + [issue], n.hints + [hint])
  }

  /** A JavaScript-truthy text: present and not empty. */
  predicate Truthy(v: Option<string>) { v.Some? && v.value != "" }

  /** The alt text is the file-name guess, up to case and surrounding white
      space (an empty guess matches nothing). */
  predicate NamedAfterFile(alt: string, fileGuess: string) {
    fileGuess != "" && SameFold(Trim(alt), Trim(fileGuess))
  }

  /** The checks on a present, non-blank alt of a visible image. */
  function AltTextNotes(named: bool, extension: bool): Notes {
    var n := if named then Push(NoNotes, AltIsFileName, DescribePurpose) else NoNotes;
    if extension then Push(n, AltHasExtension, RemoveExtension) else n
  }

  /** The rules for an `img`, given the alt value the rules see. */
  function ImgNotes(alt: Option<string>, hiddenOrDecorative: bool, fileGuess: string): Notes {
    if hiddenOrDecorative then
      if alt != Some("") then Push(NoNotes, DecorativeAlt, SetEmptyAlt) else NoNotes
    else if alt.None? then Push(NoNotes, MissingAlt, AddAlt)
    else if Trim(alt.value) == "" then Push(NoNotes, EmptyAlt, UseMeaningfulAlt)
    else AltTextNotes(NamedAfterFile(alt.value, fileGuess), FindsExtension(alt.value, 0))
  }

  /** The alt value the image rules read. The shipped code reads it through
      getAttr, which turns alt="" into null (ImgAltAsWritten); the model
      reads the attribute itself, as the comparison with '' intends. */
  function ImgAlt(el: Element): Option<string> {
    Attribute(el, "alt")
  }

  function ImgAltAsWritten(el: Element): Option<string> {
    GetAttr(el, "alt")
  }

  /** The rule for image inputs and areas: a missing or blank alt fails. */
  function AltNotes(alt: Option<string>, issue: Issue, hint: Hint): Notes {
    if !Truthy(alt) || Trim(alt.value) == "" then Push(NoNotes, issue, hint) else NoNotes
  }

  /** The rule for SVGs, objects, embeds and CSS backgrounds. */
  function NameNotes(unnamed: bool, issue: Issue, hint: Hint): Notes {
    if unnamed then Push(NoNotes, issue, hint) else NoNotes
  }

  /** The issues and hints of the kind-specific rules. */
  function KindNotes(item: Item, urlPath: string -> Option<string>): Notes {
    var el := item.el;
    var decorative := IsDecorative(el);
    match item.kind
    case Img => ImgNotes(ImgAlt(el), IsHidden(el) || decorative, FilenameFromSrc(Src(el), urlPath))
    case InputImage => AltNotes(GetAttr(el, "alt"), InputImageAlt, DescribeFunction)
    case Area => AltNotes(GetAttr(el, "alt"), AreaAlt, DescribeTarget)
    case Svg => NameNotes(!decorative && el.accessibleName == "", SvgUnnamed, NameSvg)
    case Object => NameNotes(!decorative && el.accessibleName == "", EmbedUnnamed(Object), NameEmbed)
    case Embed => NameNotes(!decorative && el.accessibleName == "", EmbedUnnamed(Embed), NameEmbed)
    case CssBg =>
      NameNotes(!decorative && |Runner.GetText(Some(el))| == 0 && el.accessibleName == "", BgUnlabelled, AddLabel)
  }

  /** The two hints a non-decorative image may get on top of hs. */
  function ImageHints(hs: seq<Hint>, src: string, alt: Option<string>, insideLink: bool): seq<Hint> {
    var h := if FindsWord(src, "logo", 0) && Truthy(alt) && !FindsWord(alt.value, "logo", 0) then hs + [LogoName] else hs;
    if insideLink then h + [LinkPurpose] else h
  }

  datatype Status = Pass | Fail

  /** One result of `evaluate` (`kind` is the source's `type`; the box and
      the outer HTML are not modelled). */
  datatype Outcome = Outcome(
    kind: Kind,
    tag: string,
    selector: string,
    src: Option<string>,
    alt: Option<string>,
    name: Option<string>,
    hidden: bool,
    decorative: bool,
    status: Status,
    issues: seq<Issue>,
    hints: seq<Hint>)

  /** `x || null` on a string. */
  function NonEmpty(s: string): Option<string> { if s == "" then None else Some(s) }

  /** The alt value a result reports. */
  function AltOf(item: Item): Option<string> {
    match item.kind
    case Img => ImgAlt(item.el)
    case InputImage => GetAttr(item.el, "alt")
    case Area => GetAttr(item.el, "alt")
    case _ => None
  }

  /** The accessible name a result reports. */
  function NameOf(item: Item): Option<string> {
    match item.kind
    case InputImage => None
    case Area => None
    case _ => NonEmpty(item.el.accessibleName)
  }

  /** All hints of a candidate before de-duplication. */
  function AllHintsOf(item: Item, urlPath: string -> Option<string>): seq<Hint> {
    var hs := KindNotes(item, urlPath).hints;
    if item.kind == Img && !IsDecorative(item.el) then ImageHints(hs, Src(item.el), ImgAlt(item.el), item.el.insideLink)
    else hs
  }

  /** What `evaluate(item)` returns. `cssPath(el)` is passed in. */
  function Assess(item: Item, selector: string, urlPath: string -> Option<string>): (o: Outcome)
    ensures o.status == Fail <==> o.issues != []
  {
    var notes := KindNotes(item, urlPath);
    Outcome(item.kind, Lower(item.el.tagName), selector, NonEmpty(Src(item.el)), AltOf(item), NameOf(item),
            IsHidden(item.el), IsDecorative(item.el),
            if notes.issues == [] then Pass else Fail, notes.issues, Unique(AllHintsOf(item, urlPath)))
  }

  /** The hints of a result have no duplicates, and they are exactly the
      hints its rules pushed. */
  lemma AssessHints(item: Item, selector: string, urlPath: string -> Option<string>)
    ensures Distinct(Assess(item, selector, urlPath).hints)
    ensures forall i :: 0 <= i < |Assess(item, selector, urlPath).hints| ==>
              Assess(item, selector, urlPath).hints[i] in AllHintsOf(item, urlPath)
    ensures forall i :: 0 <= i < |AllHintsOf(item, urlPath)| ==>
              AllHintsOf(item, urlPath)[i] in Assess(item, selector, urlPath).hints
  {
    UniqueSpec(AllHintsOf(item, urlPath));
  }

  /** The `img` branch of evaluate. */
  method ImgChecks(alt: Option<string>, hiddenOrDecorative: bool, src: string, urlPath: string -> Option<string>)
    returns (notes: Notes)
    ensures notes == ImgNotes(alt, hiddenOrDecorative, FilenameFromSrc(src, urlPath))
  {
    notes := NoNotes;
    if hiddenOrDecorative {
      if alt != Some("") {
        notes := Push(notes, DecorativeAlt, SetEmptyAlt);
      }
    } else if alt.None? {
      notes := Push(notes, MissingAlt, AddAlt);
    } else if Trim(alt.value) == "" {
      notes := Push(notes, EmptyAlt, UseMeaningfulAlt);
    } else {
      var fileGuess := FilenameFromSrc(src, urlPath);
      if NamedAfterFile(alt.value, fileGuess) {
        notes := Push(notes, AltIsFileName, DescribePurpose);
      }
      if FindsExtension(alt.value, 0) {
        notes := Push(notes, AltHasExtension, RemoveExtension);
      }
    }
  }

  /** The `input-image` and `area` branches of evaluate. */
  method AltChecks(alt: Option<string>, issue: Issue, hint: Hint) returns (notes: Notes)
    ensures notes == AltNotes(alt, issue, hint)
  {
    notes := NoNotes;
    if !Truthy(alt) || Trim(alt.value) == "" {
      notes := Push(notes, issue, hint);
    }
  }

  /** The `svg`, `object`/`embed` and `css-bg` branches of evaluate: one
      issue when the element is not decorative and has neither a name nor
      (for CSS backgrounds) text. */
  method NameChecks(unnamed: bool, issue: Issue, hint: Hint) returns (notes: Notes)
    ensures notes == NameNotes(unnamed, issue, hint)
  {
    notes := NoNotes;
    if unnamed {
      notes := Push(notes, issue, hint);
    }
  }

  /** `evaluate`: runs the rule for the candidate's kind, pushing issues and
      hints, then the image hints. */
  method Evaluate(item: Item, selector: string, urlPath: string -> Option<string>) returns (o: Outcome)
    ensures o == Assess(item, selector, urlPath)
  {
    var el := item.el;
    var tag := Lower(el.tagName);
    var src := Src(el);
    var hidden := IsHidden(el);
    var decorative := IsDecorative(el);
    var alt: Option<string> := None;
    var name := "";
    var notes: Notes;
    match item.kind {
      case Img =>
        alt := ImgAlt(el);
        name := el.accessibleName;
        notes := ImgChecks(alt, hidden || decorative, src, urlPath);
      case InputImage =>
        alt := GetAttr(el, "alt");
        notes := AltChecks(alt, InputImageAlt, DescribeFunction);
      case Area =>
        alt := GetAttr(el, "alt");
        notes := AltChecks(alt, AreaAlt, DescribeTarget);
      case Svg =>
        name := el.accessibleName;
        notes := NameChecks(!decorative && name == "", SvgUnnamed, NameSvg);
      case Object =>
        name := el.accessibleName;
        notes := NameChecks(!decorative && name == "", EmbedUnnamed(Object), NameEmbed);
      case Embed =>
        name := el.accessibleName;
        notes := NameChecks(!decorative && name == "", EmbedUnnamed(Embed), NameEmbed);
      case CssBg =>
        name := el.accessibleName;
        var hasText := |Runner.GetText(Some(el))| > 0;
        notes := NameChecks(!decorative && !hasText && name == "", BgUnlabelled, AddLabel);
    }
    var hints := notes.hints;
    if item.kind == Img && !decorative {
      if FindsWord(src, "logo", 0) && Truthy(alt) && !FindsWord(alt.value, "logo", 0) {
        hints := hints + [LogoName];
      }
      if el.insideLink {
        hints := hints + [LinkPurpose];
      }
    }
    o := Outcome(item.kind, tag, selector, NonEmpty(src), alt, NonEmpty(name), hidden, decorative,
                 if |notes.issues| > 0 then Fail else Pass, notes.issues, Unique(hints));
  }

  // ===== The rules, stated on the attributes =====

  /** A hidden or decorative image fails exactly when its alt attribute is
      anything but present and empty (a missing alt included). */
  lemma ImgHiddenRule(el: Element, selector: string, urlPath: string -> Option<string>)
    requires IsHidden(el) || IsDecorative(el)
    ensures var o := Assess(Item(Img, el), selector, urlPath);
            && (o.status == Fail <==> !("alt" in el.attributes && el.attributes["alt"] == ""))
            && (o.status == Fail ==> o.issues == [DecorativeAlt])
  {
  }

  /** A visible, non-decorative image: "missing alt" without the attribute,
      "empty alt" when it is blank, and otherwise a file-name issue exactly
      when the alt is the file-name guess up to case and surrounding white
      space, and an extension issue exactly when it names an image
      extension. */
  lemma ImgVisibleRule(el: Element, selector: string, urlPath: string -> Option<string>)
    requires !IsHidden(el) && !IsDecorative(el)
    ensures var o := Assess(Item(Img, el), selector, urlPath);
            && ("alt" !in el.attributes ==> o.issues == [MissingAlt])
            && ("alt" in el.attributes && Trim(el.attributes["alt"]) == "" ==> o.issues == [EmptyAlt])
            && ("alt" in el.attributes && Trim(el.attributes["alt"]) != "" ==>
                  var a := el.attributes["alt"];
                  var guess := FilenameFromSrc(Src(el), urlPath);
                  && (AltIsFileName in o.issues <==> guess != "" && Lower(Trim(a)) == Lower(Trim(guess)))
                  && (AltHasExtension in o.issues <==> HasImageExtension(a))
                  && MissingAlt !in o.issues && EmptyAlt !in o.issues)
  {
    var guess := FilenameFromSrc(Src(el), urlPath);
    assert Assess(Item(Img, el), selector, urlPath).issues == ImgNotes(ImgAlt(el), false, guess).issues;
    if "alt" in el.attributes && Trim(el.attributes["alt"]) != "" {
      var a := el.attributes["alt"];
      assert ImgAlt(el) == Some(a);
      AltTextIssues(NamedAfterFile(a, guess), FindsExtension(a, 0));
      SameFoldSpec(Trim(a), Trim(guess));
      FindsExtensionFrom(a, 0);
    }
  }

  lemma AltTextIssues(named: bool, extension: bool)
    ensures AltIsFileName in AltTextNotes(named, extension).issues <==> named
    ensures AltHasExtension in AltTextNotes(named, extension).issues <==> extension
    ensures MissingAlt !in AltTextNotes(named, extension).issues
    ensures EmptyAlt !in AltTextNotes(named, extension).issues
  {
  }

  /** An image input or an area fails exactly when its alt attribute is
      missing or white space only. */
  lemma AltRule(el: Element, k: Kind, selector: string, urlPath: string -> Option<string>)
    requires k == InputImage || k == Area
    ensures Assess(Item(k, el), selector, urlPath).status == Fail <==>
              "alt" !in el.attributes || Trim(el.attributes["alt"]) == ""
  {
    if "alt" in el.attributes && el.attributes["alt"] == "" {
      assert Trim("") == "";
    }
  }

  /** An SVG, object or embed fails exactly when it is not decorative and
      has no accessible name; a CSS background image when in addition the
      element has no text. */
  lemma NameRule(el: Element, k: Kind, selector: string, urlPath: string -> Option<string>)
    ensures k == Svg || k == Object || k == Embed ==>
              (Assess(Item(k, el), selector, urlPath).status == Fail <==> !IsDecorative(el) && el.accessibleName == "")
    ensures k == CssBg ==>
              (Assess(Item(k, el), selector, urlPath).status == Fail <==>
                 !IsDecorative(el) && Runner.GetText(Some(el)) == "" && el.accessibleName == "")
  {
  }

  /** The logo hint and the link hint go to non-decorative images only. */
  lemma ImageHintsRule(item: Item, selector: string, urlPath: string -> Option<string>)
    ensures (LinkPurpose in Assess(item, selector, urlPath).hints) <==>
              item.kind == Img && !IsDecorative(item.el) && item.el.insideLink
    ensures (LogoName in Assess(item, selector, urlPath).hints) <==>
              && item.kind == Img && !IsDecorative(item.el)
              && ContainsWord(Src(item.el), "logo")
              && Truthy(ImgAlt(item.el)) && !ContainsWord(ImgAlt(item.el).value, "logo")
  {
    var hs := AllHintsOf(item, urlPath);
    assert Assess(item, selector, urlPath).hints == Unique(hs);
    UniqueIn(hs, LinkPurpose);
    UniqueIn(hs, LogoName);
    PushedImageHints(item, urlPath);
    FindsWordFrom(Src(item.el), "logo", 0);
    if Truthy(ImgAlt(item.el)) {
      FindsWordFrom(ImgAlt(item.el).value, "logo", 0);
    }
  }

  /** The kind rules never push the logo or the link hint, so a candidate
      has them exactly when the image hints add them. */
  lemma PushedImageHints(item: Item, urlPath: string -> Option<string>)
    ensures LinkPurpose in AllHintsOf(item, urlPath) <==>
              item.kind == Img && !IsDecorative(item.el) && item.el.insideLink
    ensures LogoName in AllHintsOf(item, urlPath) <==>
              && item.kind == Img && !IsDecorative(item.el)
              && FindsWord(Src(item.el), "logo", 0)
              && Truthy(ImgAlt(item.el)) && !FindsWord(ImgAlt(item.el).value, "logo", 0)
  {
    KindHintsExclude(item, urlPath);
    if item.kind == Img && !IsDecorative(item.el) {
      ImageHintsAdd(KindNotes(item, urlPath).hints, Src(item.el), ImgAlt(item.el), item.el.insideLink);
    }
  }

  /** No kind rule pushes the logo or the link hint. */
  lemma KindHintsExclude(item: Item, urlPath: string -> Option<string>)
    ensures LinkPurpose !in KindNotes(item, urlPath).hints
    ensures LogoName !in KindNotes(item, urlPath).hints
  {
    if item.kind == Img {
      var el := item.el;
      ImgNotesExclude(ImgAlt(el), IsHidden(el) || IsDecorative(el), FilenameFromSrc(Src(el), urlPath));
    }
  }

  lemma ImgNotesExclude(alt: Option<string>, hiddenOrDecorative: bool, fileGuess: string)
    ensures LinkPurpose !in ImgNotes(alt, hiddenOrDecorative, fileGuess).hints
    ensures LogoName !in ImgNotes(alt, hiddenOrDecorative, fileGuess).hints
  {
    if !hiddenOrDecorative && alt.Some? && Trim(alt.value) != "" {
      AltTextNotesHints(NamedAfterFile(alt.value, fileGuess), FindsExtension(alt.value, 0));
    }
  }

  lemma AltTextNotesHints(named: bool, extension: bool)
    ensures forall h :: h in AltTextNotes(named, extension).hints ==> h == DescribePurpose || h == RemoveExtension
  {
  }

  /** ImageHints adds the logo hint and the link hint exactly under their
      conditions. */
  lemma ImageHintsAdd(hs: seq<Hint>, src: string, alt: Option<string>, insideLink: bool)
    requires LinkPurpose !in hs && LogoName !in hs
    ensures LinkPurpose in ImageHints(hs, src, alt, insideLink) <==> insideLink
    ensures LogoName in ImageHints(hs, src, alt, insideLink) <==>
              FindsWord(src, "logo", 0) && Truthy(alt) && !FindsWord(alt.value, "logo", 0)
  {
  }

  /** What reading alt through getAttr does: a hidden or decorative image
      with alt="" is still flagged, and a visible one with alt="" is
      reported as having no alt at all. */
  lemma EmptyAltAsWritten(el: Element, fileGuess: string)
    requires Attribute(el, "alt") == Some("")
    ensures ImgNotes(ImgAltAsWritten(el), true, fileGuess).issues == [DecorativeAlt]
    ensures ImgNotes(ImgAltAsWritten(el), false, fileGuess).issues == [MissingAlt]
    ensures ImgNotes(ImgAlt(el), true, fileGuess).issues == []
    ensures ImgNotes(ImgAlt(el), false, fileGuess).issues == [EmptyAlt]
  {
    assert Trim("") == "";
  }

  // ===== Summary =====

  /** Counted as applicable: neither decorative nor hidden, and every image
      input and area. */
  predicate Applicable(o: Outcome) {
    !(o.decorative || o.hidden) || o.kind == InputImage || o.kind == Area
  }

  predicate Failed(o: Outcome) { o.status == Fail }

  predicate Passed(o: Outcome) { o.status == Pass }

  datatype Statistik = Statistik(gesamtGefunden: nat, anwendbar: nat, fehler: nat, bestanden: nat)

  datatype Summary = Summary(bewertung: string, statistik: Statistik, verbesserungen: seq<Hint>)

  /** `results.forEach(r => r.hints.forEach(h => allHints.push(h)))`. */
  function AllHints(rs: seq<Outcome>): seq<Hint> {
    if rs == [] then [] else AllHints(rs[..|rs| - 1]) + rs[|rs| - 1].hints
  }

  lemma {:induction false} AllHintsMember(rs: seq<Outcome>, k: nat, i: nat)
    requires k < |rs| && i < |rs[k].hints|
    ensures rs[k].hints[i] in AllHints(rs)
  {
    if k < |rs| - 1 {
      AllHintsMember(rs[..|rs| - 1], k, i);
    } else {
      assert AllHints(rs) == AllHints(rs[..|rs| - 1]) + rs[k].hints;
    }
  }

  lemma {:induction false} AllHintsFrom(rs: seq<Outcome>, h: Hint)
    requires h in AllHints(rs)
    ensures exists k :: 0 <= k < |rs| && h in rs[k].hints
  {
    var init := rs[..|rs| - 1];
    if h in AllHints(init) {
      AllHintsFrom(init, h);
      var k :| 0 <= k < |init| && h in init[k].hints;
      assert rs[k] == init[k];
    } else {
      assert h in rs[|rs| - 1].hints;
    }
  }

  /** `summarize(results)`. */
  function Summarize(rs: seq<Outcome>): (s: Summary)
    ensures s.statistik.gesamtGefunden == |rs|
    ensures s.statistik.fehler + s.statistik.bestanden == s.statistik.gesamtGefunden
    ensures s.statistik.anwendbar <= s.statistik.gesamtGefunden
  {
    var fails := Count(rs, Failed);
    var applicable := Count(rs, Applicable);
    CountComplement(rs, Failed, Passed);
    var bewertung := if applicable == 0 then Runner.NotApplicable else if fails > 0 then Runner.NotMet else Runner.Met;
    Summary(bewertung, Statistik(|rs|, applicable, fails, Count(rs, Passed)), Prefix(Unique(AllHints(rs)), 6))
  }

  /** The verdict is "nicht anwendbar" exactly when no result is applicable;
      otherwise "nicht erfüllt" exactly when some result fails (applicable
      or not), and "erfüllt" else. */
  lemma SummarizeVerdict(rs: seq<Outcome>)
    ensures Summarize(rs).bewertung == Runner.NotApplicable <==> forall k :: 0 <= k < |rs| ==> !Applicable(rs[k])
    ensures Summarize(rs).bewertung == Runner.NotMet <==>
              (exists k :: 0 <= k < |rs| && Applicable(rs[k])) && (exists k :: 0 <= k < |rs| && Failed(rs[k]))
    ensures Summarize(rs).bewertung == Runner.Met <==>
              (exists k :: 0 <= k < |rs| && Applicable(rs[k])) && (forall k :: 0 <= k < |rs| ==> !Failed(rs[k]))
  {
    CountZero(rs, Applicable);
    CountZero(rs, Failed);
  }

  /** Image inputs and areas always count as applicable, so a page with one
      is never "nicht anwendbar". */
  lemma InputsAlwaysApplicable(rs: seq<Outcome>, k: nat)
    requires k < |rs| && (rs[k].kind == InputImage || rs[k].kind == Area)
    ensures Summarize(rs).bewertung != Runner.NotApplicable
  {
    SummarizeVerdict(rs);
    assert Applicable(rs[k]);
  }

  /** The improvements: at most six, no duplicates, each a hint of some
      result, in the order of first occurrence; with at most six distinct
      hints, all of them. */
  lemma SummarizeHints(rs: seq<Outcome>)
    ensures |Summarize(rs).verbesserungen| <= 6
    ensures Distinct(Summarize(rs).verbesserungen)
    ensures forall i :: 0 <= i < |Summarize(rs).verbesserungen| ==>
              exists k :: 0 <= k < |rs| && Summarize(rs).verbesserungen[i] in rs[k].hints
    ensures forall i, j :: 0 <= i < j < |Summarize(rs).verbesserungen| ==>
              IndexOf(AllHints(rs), Summarize(rs).verbesserungen[i]) < IndexOf(AllHints(rs), Summarize(rs).verbesserungen[j])
  {
    var all := AllHints(rs);
    var u := Unique(all);
    var hs := Summarize(rs).verbesserungen;
    assert hs == Prefix(u, 6);
    UniqueSpec(all);
    forall i | 0 <= i < |hs|
      ensures exists k :: 0 <= k < |rs| && hs[i] in rs[k].hints
    {
      assert hs[i] == u[i];
      AllHintsFrom(rs, hs[i]);
    }
  }

  lemma SummarizeHintsComplete(rs: seq<Outcome>, k: nat, i: nat)
    requires |Unique(AllHints(rs))| <= 6
    requires k < |rs| && i < |rs[k].hints|
    ensures rs[k].hints[i] in Summarize(rs).verbesserungen
  {
    var all := AllHints(rs);
    UniqueMembers(all);
    AllHintsMember(rs, k, i);
    var p := IndexOf(all, rs[k].hints[i]);
    assert all[p] in Unique(all);
    assert Summarize(rs).verbesserungen == Unique(all);
  }

  // ===== The step =====

  /** The step as it registers itself. */
  const Step := Runner.StepDef(Some("1.1.1"), Some("Nicht-Text-Inhalte"), true)

  /** The step is accepted by the registry, under its id. */
  lemma StepRegisters(steps: map<string, Runner.StepDef>)
    ensures "1.1.1" in Runner.Registered(steps, Some(Step))
    ensures Runner.Registered(steps, Some(Step))["1.1.1"] == Step
  {
    assert Runner.Accepted(Some(Step));
  }

  /** `candidates.map(evaluate)`. */
  function Results(items: seq<Item>, selector: Element -> string, urlPath: string -> Option<string>): (r: seq<Outcome>)
    ensures |r| == |items|
  {
    if items == [] then []
    else
      var last := items[|items| - 1];
      Results(items[..|items| - 1], selector, urlPath) + [Assess(last, selector(last.el), urlPath)]
  }

  /** The j-th result is the evaluation of the j-th candidate. */
  lemma {:induction false} ResultsAt(items: seq<Item>, selector: Element -> string, urlPath: string -> Option<string>, j: nat)
    requires j < |items|
    ensures Results(items, selector, urlPath)[j] == Assess(items[j], selector(items[j].el), urlPath)
  {
    if j < |items| - 1 {
      ResultsAt(items[..|items| - 1], selector, urlPath, j);
    }
  }

  /** `run`: the candidates, one result per candidate in order, and their
      summary. `cssPath` and the address resolution are parameters. */
  method Run(q: Query, selector: Element -> string, urlPath: string -> Option<string>)
    returns (candidates: seq<Item>, findings: seq<Outcome>, summary: Summary)
    ensures candidates == Dedup(RawItems(q))
    ensures findings == Results(candidates, selector, urlPath)
    ensures summary == Summarize(findings)
  {
    candidates := CollectCandidates(q);
    findings := [];
    var i := 0;
    while i < |candidates|
      invariant i <= |candidates|
      invariant findings == Results(candidates[..i], selector, urlPath)
    {
      assert candidates[..i + 1][..i] == candidates[..i];
      var o := Evaluate(candidates[i], selector(candidates[i].el), urlPath);
      findings := findings + [o];
      i := i + 1;
    }
    assert candidates[..i] == candidates;
    summary := Summarize(findings);
  }
}
