/** The decision rules of the contrast auditor (a11y-131.js): visibility, the
    large-text rule and its thresholds, the effective-background walk, the
    remediation search, the passing-ancestor detector, the element path and
    HTML escaping. Colour strings are read with the parameter `parse`; the
    auditor passes `parseColor`, that is Colour.ParseColor with the canvas
    normalisation. */
module Contrast {
  import opened Seqs
  import opened Text
  import opened Colour
  import opened Dom

  /** WCAG 1.4.3 (AA) minimum ratios. */
  const MinRatioNormal: real := 4.5
  const MinRatioLarge: real := 3.0

  // ---------------------------------------------------------------------
  // Visibility and text size

  /** `isVisible`: not display none, not visibility hidden, opacity not 0,
      and a box of positive width and height. */
  predicate IsVisible(el: Element) {
    && el.style.display != "none"
    && el.style.visibility != "hidden"
    && el.style.opacity != 0.0
    && el.width > 0.0 && el.height > 0.0
  }

  /** `parseInt(weight, 10) >= 700`; NaN is not bold. */
  predicate IsBold(weight: string) {
    match ParseInt(weight)
    case Some(w) => w >= 700
    case None => false
  }

  /** `isLargeText`: 18.66px and up for bold text, 24px and up otherwise. */
  predicate IsLargeText(sizePx: real, weight: string) {
    if IsBold(weight) then sizePx >= 18.66 else sizePx >= 24.0
  }

  /** The threshold `scan` applies. */
  function MinRatio(large: bool): real {
    if large then MinRatioLarge else MinRatioNormal
  }

  /** For a numeric weight (as computed styles report it) the rule is:
      weight >= 700 and size >= 18.66, or weight < 700 and size >= 24. */
  lemma LargeTextRule(sizePx: real, w: nat, rest: string)
    requires rest == [] || !IsDigit(rest[0])
    ensures IsLargeText(sizePx, Decimal(w) + rest)
            <==> (w >= 700 && sizePx >= 18.66) || (w < 700 && sizePx >= 24.0)
  {
    ParseIntDecimal(w, rest);
  }

  /** A weight that is not a number counts as normal. */
  lemma LargeTextNaN(sizePx: real, weight: string)
    requires ParseInt(weight) == None
    ensures IsLargeText(sizePx, weight) <==> sizePx >= 24.0
  {
  }

  /** Larger text never loses the large status, and bold text never needs to
      be larger than normal text. */
  lemma LargeTextMonotone(size1: real, size2: real, weight: string, boldWeight: string)
    requires size1 <= size2
    requires IsBold(boldWeight)
    ensures IsLargeText(size1, weight) ==> IsLargeText(size2, weight)
    ensures IsLargeText(size1, weight) ==> IsLargeText(size1, boldWeight)
  {
  }

  /** Large text gets 3:1, anything else 4.5:1; the large threshold is the
      lower one. */
  lemma MinRatioChoice(large: bool)
    ensures large ==> MinRatio(large) == 3.0
    ensures !large ==> MinRatio(large) == 4.5
    ensures MinRatio(large) <= MinRatioNormal
  {
  }

  // ---------------------------------------------------------------------
  // Effective background: getEffectiveBackground

  /** The result of the walk: the colour, the node that supplied it (None
      for the white default) and whether a background image was seen. */
  datatype Background = Background(color: Color, via: Option<nat>, hadImage: bool)

  /** `cs.backgroundImage && cs.backgroundImage !== 'none'`. */
  predicate HasBackgroundImage(n: Element) {
    n.style.backgroundImage != "" && n.style.backgroundImage != "none"
  }

  /** A node whose background colour ends the walk: alpha above 0 and not
      the literal `transparent` read as black. */
  predicate Paints(parse: string -> Color, n: Element) {
    var col := parse(n.style.backgroundColor);
    col.a > 0.0 && !(col.r == 0 && col.g == 0 && col.b == 0 && n.style.backgroundColor == "transparent")
  }

  /** After the walk: body's colour if its alpha is above 0, else white. */
  function Fallback(parse: string -> Color, doc: Document, saw: bool): (bg: Background)
    ensures bg.color.a > 0.0
  {
    var b := parse(doc.body.style.backgroundColor);
    if b.a > 0.0 then Background(b, Some(doc.body.key), saw) else Background(White, None, saw)
  }

  /** The walk from chain[i] on, having seen a background image iff saw. It
      stops at the end of the chain or at documentElement, whichever comes
      first. */
  function ResolveFrom(parse: string -> Color, doc: Document, chain: Chain, i: nat, saw: bool): (bg: Background)
    requires i <= |chain|
    ensures bg.color.a > 0.0
    decreases |chain| - i
  {
    if i == |chain| || chain[i].key == doc.root.key then Fallback(parse, doc, saw)
    else
      var saw' := saw || HasBackgroundImage(chain[i]);
      if Paints(parse, chain[i]) then
        Background(parse(chain[i].style.backgroundColor), Some(chain[i].key), saw')
      else ResolveFrom(parse, doc, chain, i + 1, saw')
  }

  /** `getEffectiveBackground(chain[0])`. */
  function Resolve(parse: string -> Color, doc: Document, chain: Chain): Background {
    ResolveFrom(parse, doc, chain, 0, false)
  }

  /** Where the walk from i stops: the first node that is documentElement or
      paints, or the end of the chain. */
  function Reach(parse: string -> Color, doc: Document, chain: Chain, i: nat): (k: nat)
    requires i <= |chain|
    ensures i <= k <= |chain|
    decreases |chain| - i
  {
    if i == |chain| || chain[i].key == doc.root.key || Paints(parse, chain[i]) then i
    else Reach(parse, doc, chain, i + 1)
  }

  /** The walk passes over nodes that neither paint nor are documentElement,
      and stops at the first node that is one or the other. */
  lemma {:induction false} ReachSpec(parse: string -> Color, doc: Document, chain: Chain, i: nat)
    requires i <= |chain|
    ensures var k := Reach(parse, doc, chain, i);
            && (forall j :: i <= j < k ==> chain[j].key != doc.root.key && !Paints(parse, chain[j]))
            && (k < |chain| ==> chain[k].key == doc.root.key || Paints(parse, chain[k]))
    decreases |chain| - i
  {
    if i < |chain| && chain[i].key != doc.root.key && !Paints(parse, chain[i]) {
      ReachSpec(parse, doc, chain, i + 1);
    }
  }

  /** The number of nodes whose style the walk reads: those before the stop,
      and the stop itself when it is a painting node. */
  function Visited(parse: string -> Color, doc: Document, chain: Chain): nat {
    var k := Reach(parse, doc, chain, 0);
    if k < |chain| && chain[k].key != doc.root.key then k + 1 else k
  }

  predicate SawImage(chain: Chain, i: nat, k: nat)
    requires i <= k <= |chain|
  {
    exists j :: i <= j < k && HasBackgroundImage(chain[j])
  }

  lemma {:induction false} ResolveFromReach(parse: string -> Color, doc: Document, chain: Chain, i: nat, saw: bool)
    requires i <= |chain|
    ensures var k := Reach(parse, doc, chain, i);
      ResolveFrom(parse, doc, chain, i, saw) ==
        if k < |chain| && chain[k].key != doc.root.key then
          Background(parse(chain[k].style.backgroundColor), Some(chain[k].key), saw || SawImage(chain, i, k + 1))
        else Fallback(parse, doc, saw || SawImage(chain, i, k))
    decreases |chain| - i
  {
    if i == |chain| || chain[i].key == doc.root.key {
    } else if Paints(parse, chain[i]) {
      if HasBackgroundImage(chain[i]) {
        assert SawImage(chain, i, i + 1);
      }
    } else {
      var saw' := saw || HasBackgroundImage(chain[i]);
      ResolveFromReach(parse, doc, chain, i + 1, saw');
      var k := Reach(parse, doc, chain, i);
      assert k == Reach(parse, doc, chain, i + 1);
      var e := if k < |chain| && chain[k].key != doc.root.key then k + 1 else k;
      assert (saw' || SawImage(chain, i + 1, e)) == (saw || SawImage(chain, i, e)) by {
        if SawImage(chain, i, e) && !HasBackgroundImage(chain[i]) {
          var j :| i <= j < e && HasBackgroundImage(chain[j]);
          assert i + 1 <= j;
        }
        if SawImage(chain, i + 1, e) {
          var j :| i + 1 <= j < e && HasBackgroundImage(chain[j]);
          assert i <= j;
        }
      }
    }
  }

  /** The walk returns the first node of the chain that paints, provided no
      earlier node is documentElement, with that node's colour. */
  lemma ResolveFirstPainted(parse: string -> Color, doc: Document, chain: Chain)
    requires Reach(parse, doc, chain, 0) < |chain|
    requires chain[Reach(parse, doc, chain, 0)].key != doc.root.key
    ensures var k := Reach(parse, doc, chain, 0);
      && Paints(parse, chain[k])
      && (forall j :: 0 <= j < k ==> !Paints(parse, chain[j]) && chain[j].key != doc.root.key)
      && Resolve(parse, doc, chain).color == parse(chain[k].style.backgroundColor)
      && Resolve(parse, doc, chain).via == Some(chain[k].key)
  {
    ReachSpec(parse, doc, chain, 0);
    ResolveFromReach(parse, doc, chain, 0, false);
  }

  /** When no node before documentElement (or the end) paints, the result is
      body's colour if it has alpha above 0, else opaque white from no node. */
  lemma ResolveFallsBack(parse: string -> Color, doc: Document, chain: Chain)
    requires var k := Reach(parse, doc, chain, 0); k == |chain| || chain[k].key == doc.root.key
    ensures var b := parse(doc.body.style.backgroundColor);
      && (b.a > 0.0 ==> Resolve(parse, doc, chain).color == b && Resolve(parse, doc, chain).via == Some(doc.body.key))
      && (b.a <= 0.0 ==> Resolve(parse, doc, chain).color == White && Resolve(parse, doc, chain).via == None)
  {
    ResolveFromReach(parse, doc, chain, 0, false);
  }

  /** hadImage is true iff some node the walk read has a background image. */
  lemma ResolveHadImage(parse: string -> Color, doc: Document, chain: Chain)
    ensures Visited(parse, doc, chain) <= |chain|
    ensures Resolve(parse, doc, chain).hadImage <==>
            exists j :: 0 <= j < Visited(parse, doc, chain) && HasBackgroundImage(chain[j])
  {
    ResolveFromReach(parse, doc, chain, 0, false);
  }

  lemma {:induction false} ReachFrame(parse: string -> Color, doc: Document, chain: Chain, other: Chain, i: nat)
    requires i <= |chain| && Reach(parse, doc, chain, i) < |chain|
    requires var k := Reach(parse, doc, chain, i); k < |other| && chain[..k + 1] == other[..k + 1]
    ensures Reach(parse, doc, other, i) == Reach(parse, doc, chain, i)
    decreases |chain| - i
  {
    var k := Reach(parse, doc, chain, i);
    assert chain[i] == chain[..k + 1][i] == other[..k + 1][i] == other[i];
    if k != i {
      ReachFrame(parse, doc, chain, other, i + 1);
    }
  }

  /** The walk reads no node beyond the one where it stops: any chain that
      agrees up to and including that node resolves the same way. */
  lemma ResolveFrame(parse: string -> Color, doc: Document, chain: Chain, other: Chain)
    requires var k := Reach(parse, doc, chain, 0); k < |chain| && k < |other| && chain[..k + 1] == other[..k + 1]
    ensures Resolve(parse, doc, other) == Resolve(parse, doc, chain)
  {
    var k := Reach(parse, doc, chain, 0);
    ReachFrame(parse, doc, chain, other, 0);
    ResolveFromReach(parse, doc, chain, 0, false);
    ResolveFromReach(parse, doc, other, 0, false);
    assert chain[k] == other[k] by {
      assert chain[k] == chain[..k + 1][k];
      assert other[k] == other[..k + 1][k];
    }
    forall j | 0 <= j <= k
      ensures chain[j] == other[j]
    {
      assert chain[j] == chain[..k + 1][j];
      assert other[j] == other[..k + 1][j];
    }
    assert SawImage(chain, 0, k + 1) == SawImage(other, 0, k + 1);
    assert SawImage(chain, 0, k) == SawImage(other, 0, k);
  }

  /** `getEffectiveBackground`: the ancestor walk. */
  method EffectiveBackground(parse: string -> Color, doc: Document, chain: Chain) returns (bg: Background)
    ensures bg == Resolve(parse, doc, chain)
  {
    var i := 0;
    var saw := false;
    while i < |chain| && chain[i].key != doc.root.key
      invariant 0 <= i <= |chain|
      invariant ResolveFrom(parse, doc, chain, i, saw) == Resolve(parse, doc, chain)
      decreases |chain| - i
    {
      var node := chain[i];
      if HasBackgroundImage(node) {
        saw := true;
      }
      var bgc := node.style.backgroundColor;
      var col := parse(bgc);
      if col.a > 0.0 && !(col.r == 0 && col.g == 0 && col.b == 0 && bgc == "transparent") {
        return Background(col, Some(node.key), saw);
      }
      i := i + 1;
    }
    var bodyCol := parse(doc.body.style.backgroundColor);
    if bodyCol.a > 0.0 {
      return Background(bodyCol, Some(doc.body.key), saw);
    }
    return Background(White, None, saw);
  }

  // ---------------------------------------------------------------------
  // Remediation: nearestAccessibleForeground

  /** The number of bisection steps. */
  const Steps: nat := 24

  /** The width of the bracket after n halvings of [0, 1]. */
  function Width(n: nat): (w: real)
    ensures 0.0 < w <= 1.0
  {
    if n == 0 then 1.0 else Width(n - 1) / 2.0
  }

  /** One of the 24-step loops: bisect t in [0, 1] for mix(fg, toward, t),
      keeping the last candidate that met the target. */
  method Bisect(curve: nat -> real, fg: Color, toward: Color, bg: Color, target: real)
      returns (best: Option<Color>, lo: real, hi: real)
    requires ValidCurve(curve)
    ensures 0.0 <= lo <= hi <= 1.0 && hi - lo == Width(Steps)
    ensures best.Some? ==> best.value == Mix(fg, toward, hi) && ContrastRatio(curve, best.value, bg) >= target
    ensures best.None? ==> hi == 1.0
  {
    lo, hi, best := 0.0, 1.0, None;
    for i := 0 to Steps
      invariant 0.0 <= lo <= hi <= 1.0 && hi - lo == Width(i)
      invariant best.Some? ==> best.value == Mix(fg, toward, hi) && ContrastRatio(curve, best.value, bg) >= target
      invariant best.None? ==> hi == 1.0
    {
      var t := (lo + hi) / 2.0;
      var cand := Mix(fg, toward, t);
      var cr := ContrastRatio(curve, cand, bg);
      if cr >= target {
        best := Some(cand);
        hi := t;
      } else {
        lo := t;
      }
    }
  }

  /** A suggested text colour and its German label (`label` in the source). */
  datatype Suggestion = Suggestion(color: Color, text: string)

  /** `nearestAccessibleForeground`. Black is tried first, then white, then
      a darker and a lighter blend of fg, and if nothing meets the target,
      the better of black and white. */
  method NearestAccessibleForeground(curve: nat -> real, fg: Color, bg: Color, target: real) returns (s: Suggestion)
    requires ValidCurve(curve)
    ensures s.text in {"schwarz", "weiß", "dunkler", "heller", "max. (schwarz)", "max. (weiß)"}
    ensures s.text in {"schwarz", "weiß", "dunkler", "heller"} ==> ContrastRatio(curve, s.color, bg) >= target
    ensures s.text == "schwarz" <==> ContrastRatio(curve, Black, bg) >= target
    ensures s.text == "weiß" <==> ContrastRatio(curve, Black, bg) < target <= ContrastRatio(curve, White, bg)
    ensures s.text == "schwarz" || s.text == "max. (schwarz)" ==> s.color == Black
    ensures s.text == "weiß" || s.text == "max. (weiß)" ==> s.color == White
    ensures s.text == "dunkler" ==> exists t :: 0.0 <= t <= 1.0 && s.color == Mix(fg, Black, t)
    ensures s.text == "heller" ==> exists t :: 0.0 <= t <= 1.0 && s.color == Mix(fg, White, t)
    ensures s.text in {"max. (schwarz)", "max. (weiß)"} ==>
              ContrastRatio(curve, Black, bg) < target && ContrastRatio(curve, White, bg) < target
              && (s.text == "max. (schwarz)" <==> ContrastRatio(curve, Black, bg) > ContrastRatio(curve, White, bg))
    ensures InGamut(fg) ==> s.text != "dunkler" && s.text != "heller"
  {
    if ContrastRatio(curve, Black, bg) >= target {
      return Suggestion(Black, "schwarz");
    }
    if ContrastRatio(curve, White, bg) >= target {
      return Suggestion(White, "weiß");
    }
    var best, lo, hi := Bisect(curve, fg, Black, bg, target);
    if best.Some? {
      if InGamut(fg) {
        NoBlendPasses(curve, fg, Black, bg, target, hi);
        assert false;
      }
      return Suggestion(best.value, "dunkler");
    }
    best, lo, hi := Bisect(curve, fg, White, bg, target);
    if best.Some? {
      if InGamut(fg) {
        NoBlendPasses(curve, fg, White, bg, target, hi);
        assert false;
      }
      return Suggestion(best.value, "heller");
    }
    var crB, crW := ContrastRatio(curve, Black, bg), ContrastRatio(curve, White, bg);
    if crB > crW {
      return Suggestion(Black, "max. (schwarz)");
    }
    return Suggestion(White, "max. (weiß)");
  }

  /** When neither black nor white meets the target, no blend of an in-gamut
      colour toward black or white does either: the two bisections can only
      succeed where black or white already would have. */
  lemma NoBlendPasses(curve: nat -> real, fg: Color, toward: Color, bg: Color, target: real, t: real)
    requires ValidCurve(curve)
    requires InGamut(fg) && InGamut(toward) && 0.0 <= t <= 1.0
    requires ContrastRatio(curve, Black, bg) < target && ContrastRatio(curve, White, bg) < target
    ensures ContrastRatio(curve, Mix(fg, toward, t), bg) < target
  {
    ContrastAtMostExtremes(curve, Mix(fg, toward, t), bg);
  }

  // ---------------------------------------------------------------------
  // findPassingAncestor

  /** The ancestor whose own resolved background would meet the target. */
  datatype Pass = Pass(node: nat, bg: Color, ratio: real)

  predicate PassesAt(parse: string -> Color, curve: nat -> real, doc: Document, chain: Chain,
                     textColor: Color, target: real, i: nat)
    requires ValidCurve(curve) && i < |chain|
  {
    ContrastRatio(curve, textColor, Resolve(parse, doc, chain[i..]).color) >= target
  }

  /** The first index from i on whose resolved background passes, or |chain|. */
  function FirstPassing(parse: string -> Color, curve: nat -> real, doc: Document, chain: Chain,
                        textColor: Color, target: real, i: nat): (k: nat)
    requires ValidCurve(curve) && i <= |chain|
    ensures i <= k <= |chain|
    decreases |chain| - i
  {
    if i == |chain| || PassesAt(parse, curve, doc, chain, textColor, target, i) then i
    else FirstPassing(parse, curve, doc, chain, textColor, target, i + 1)
  }

  /** FirstPassing finds the first passing index: none before it passes,
      and it passes unless it is the end of the chain. */
  lemma {:induction false} FirstPassingSpec(parse: string -> Color, curve: nat -> real, doc: Document, chain: Chain,
                                            textColor: Color, target: real, i: nat)
    requires ValidCurve(curve) && i <= |chain|
    ensures var k := FirstPassing(parse, curve, doc, chain, textColor, target, i);
            && (forall j :: i <= j < k ==> !PassesAt(parse, curve, doc, chain, textColor, target, j))
            && (k < |chain| ==> PassesAt(parse, curve, doc, chain, textColor, target, k))
    decreases |chain| - i
  {
    if i < |chain| && !PassesAt(parse, curve, doc, chain, textColor, target, i) {
      FirstPassingSpec(parse, curve, doc, chain, textColor, target, i + 1);
    }
  }

  function PassAt(parse: string -> Color, curve: nat -> real, doc: Document, chain: Chain, textColor: Color, k: nat): Pass
    requires ValidCurve(curve) && k < |chain|
  {
    var bg := Resolve(parse, doc, chain[k..]).color;
    Pass(chain[k].key, bg, ContrastRatio(curve, textColor, bg))
  }

  /** What findPassingAncestor returns: the first strict ancestor that
      passes, or None. */
  function AncestorPass(parse: string -> Color, curve: nat -> real, doc: Document, chain: Chain,
                        textColor: Color, target: real): (r: Option<Pass>)
    requires ValidCurve(curve) && chain != []
    ensures r.Some? ==> r.value.ratio >= target
  {
    var k := FirstPassing(parse, curve, doc, chain, textColor, target, 1);
    FirstPassingSpec(parse, curve, doc, chain, textColor, target, 1);
    if k < |chain| then Some(PassAt(parse, curve, doc, chain, textColor, k)) else None
  }

  /** `findPassingAncestor(chain[0], textColor, target)`: the walk over the
      strict ancestors, each resolved with the full background walk from
      that ancestor. */
  method FindPassingAncestor(parse: string -> Color, curve: nat -> real, doc: Document, chain: Chain,
                             textColor: Color, target: real) returns (r: Option<Pass>)
    requires ValidCurve(curve) && chain != []
    ensures r == AncestorPass(parse, curve, doc, chain, textColor, target)
    ensures r.Some? ==> exists k :: 1 <= k < |chain| && r.value == PassAt(parse, curve, doc, chain, textColor, k)
                                    && forall j :: 1 <= j < k ==> !PassesAt(parse, curve, doc, chain, textColor, target, j)
    ensures r.Some? ==> r.value.ratio >= target
    ensures r.None? <==> forall j :: 1 <= j < |chain| ==> !PassesAt(parse, curve, doc, chain, textColor, target, j)
    ensures r.Some? && (forall j :: 1 <= j < |chain| ==> chain[j].key != chain[0].key) ==> r.value.node != chain[0].key
  {
    FirstPassingSpec(parse, curve, doc, chain, textColor, target, 1);
    var i := 1;
    while i < |chain|
      invariant 1 <= i <= |chain|
      invariant FirstPassing(parse, curve, doc, chain, textColor, target, i)
                == FirstPassing(parse, curve, doc, chain, textColor, target, 1)
      invariant forall j :: 1 <= j < i ==> !PassesAt(parse, curve, doc, chain, textColor, target, j)
      decreases |chain| - i
    {
      var info := EffectiveBackground(parse, doc, chain[i..]);
      var cr := ContrastRatio(curve, textColor, info.color);
      if cr >= target {
        return Some(Pass(chain[i].key, info.color, cr));
      }
      i := i + 1;
    }
    return None;
  }

  // ---------------------------------------------------------------------
  // elementPath

  /** One segment: the tag in lower case, then `#id`, or else the first two
      classes of a string class name. */
  function PathSegment(n: Element): string {
    var name := Lower(n.tagName);
    if n.id != "" then name + "#" + n.id
    else
      match n.className
      case Some(c) =>
        if c == "" then name
        else
          var cls := Join(Prefix(Split(Trim(c)), 2), ".");
          if cls != "" then name + "." + cls else name
      case None => name
  }

  /** The segments of the first ten nodes, outermost first. */
  function PathSegments(chain: Chain): (parts: seq<string>)
    ensures |parts| == Min(10, |chain|)
  {
    Unshifted(chain, Min(10, |chain|), PathSegment)
  }

  /** `elementPath`: segments unshifted while walking up, at most ten. */
  method ElementPath(chain: Chain) returns (path: string)
    ensures path == Join(PathSegments(chain), " > ")
  {
    var parts: seq<string> := [];
    var i := 0;
    while i < |chain| && i < 10
      invariant 0 <= i <= Min(10, |chain|)
      invariant parts == Unshifted(chain, i, PathSegment)
      decreases |chain| - i
    {
      var sel := PathSegment(chain[i]);
      parts := [sel] + parts;
      i := i + 1;
    }
    return Join(parts, " > ");
  }

  /** The path ends with the element's own segment and starts with the
      outermost node it reached; a node with an id contributes `tag#id`. */
  lemma PathSegmentsEnds(chain: Chain)
    requires chain != []
    ensures var parts := PathSegments(chain);
      && parts[|parts| - 1] == PathSegment(chain[0])
      && parts[0] == PathSegment(chain[Min(10, |chain|) - 1])
  {
    UnshiftedAt(chain, Min(10, |chain|), PathSegment, 0);
    UnshiftedAt(chain, Min(10, |chain|), PathSegment, Min(10, |chain|) - 1);
  }

  lemma PathSegmentWithId(n: Element)
    requires n.id != ""
    ensures PathSegment(n) == Lower(n.tagName) + "#" + n.id
  {
  }

  /** A class-name segment names at most two classes, none containing white
      space. */
  lemma PathSegmentClasses(c: string)
    ensures |Prefix(Split(Trim(c)), 2)| <= 2
    ensures forall k, i :: 0 <= k < |Prefix(Split(Trim(c)), 2)| && 0 <= i < |Prefix(Split(Trim(c)), 2)[k]|
              ==> !IsSpace(Prefix(Split(Trim(c)), 2)[k][i])
  {
    var sp := Split(Trim(c));
    var p := Prefix(sp, 2);
    forall k | 0 <= k < |p|
      ensures p[k] == sp[k]
    {
    }
  }

  // ---------------------------------------------------------------------
  // escapeHtml

  function EscapeChar(c: char): string {
    if c == '&' then "&amp;"
    else if c == '<' then "&lt;"
    else if c == '>' then "&gt;"
    else if c == '"' then "&quot;"
    else if c == '\'' then "&#39;"
    else [c]
  }

  predicate HtmlSafe(c: char) { c != '<' && c != '>' && c != '"' && c != '\'' }

  /** `escapeHtml`: the five characters `& < > " '` become entities. */
  function EscapeHtml(s: string): (r: string)
    ensures |r| >= |s|
    ensures forall i :: 0 <= i < |r| ==> HtmlSafe(r[i])
  {
    if s == [] then [] else EscapeChar(s[0]) + EscapeHtml(s[1..])
  }

  /** Decoding of exactly those five entities; every other character stands
      for itself. */
  function UnescapeHtml(s: string): string
    decreases |s|
  {
    if s == [] then []
    else if |s| >= 5 && s[..5] == "&amp;" then "&" + UnescapeHtml(s[5..])
    else if |s| >= 4 && s[..4] == "&lt;" then "<" + UnescapeHtml(s[4..])
    else if |s| >= 4 && s[..4] == "&gt;" then ">" + UnescapeHtml(s[4..])
    else if |s| >= 6 && s[..6] == "&quot;" then "\"" + UnescapeHtml(s[6..])
    else if |s| >= 5 && s[..5] == "&#39;" then "'" + UnescapeHtml(s[5..])
    else [s[0]] + UnescapeHtml(s[1..])
  }

  lemma UnescapeChar(c: char, rest: string)
    ensures UnescapeHtml(EscapeChar(c) + rest) == [c] + UnescapeHtml(rest)
  {
    if c == '&' {
      UnescapeAmp(rest);
    } else if c == '<' {
      UnescapeLt(rest);
    } else if c == '>' {
      UnescapeGt(rest);
    } else if c == '"' {
      UnescapeQuot(rest);
    } else if c == '\'' {
      UnescapeApos(rest);
    } else {
      UnescapePlain(c, rest);
    }
  }

  lemma UnescapeAmp(rest: string)
    ensures UnescapeHtml("&amp;" + rest) == "&" + UnescapeHtml(rest)
  {
    var e := "&amp;" + rest;
    assert e[..5] == "&amp;" && e[5..] == rest;
  }

  lemma UnescapeLt(rest: string)
    ensures UnescapeHtml("&lt;" + rest) == "<" + UnescapeHtml(rest)
  {
    var e := "&lt;" + rest;
    assert e[1] == 'l';
    assert |e| >= 5 ==> e[..5][1] == 'l';
    assert e[..4] == "&lt;" && e[4..] == rest;
  }

  lemma UnescapeGt(rest: string)
    ensures UnescapeHtml("&gt;" + rest) == ">" + UnescapeHtml(rest)
  {
    var e := "&gt;" + rest;
    assert e[1] == 'g';
    assert |e| >= 5 ==> e[..5][1] == 'g';
    assert e[..4][1] == 'g';
    assert e[..4] == "&gt;" && e[4..] == rest;
  }

  lemma UnescapeQuot(rest: string)
    ensures UnescapeHtml("&quot;" + rest) == "\"" + UnescapeHtml(rest)
  {
    var e := "&quot;" + rest;
    assert e[1] == 'q';
    assert e[..5][1] == 'q' && e[..4][1] == 'q';
    assert e[..6] == "&quot;" && e[6..] == rest;
  }

  lemma UnescapeApos(rest: string)
    ensures UnescapeHtml("&#39;" + rest) == "'" + UnescapeHtml(rest)
  {
    var e := "&#39;" + rest;
    assert e[1] == '#';
    assert e[..5][1] == '#' && e[..4][1] == '#';
    assert |e| >= 6 ==> e[..6][1] == '#';
    assert e[..5] == "&#39;" && e[5..] == rest;
  }

  lemma UnescapePlain(c: char, rest: string)
    requires c != '&'
    ensures UnescapeHtml([c] + rest) == [c] + UnescapeHtml(rest)
  {
    var e := [c] + rest;
    assert e[0] == c && e[1..] == rest;
    assert |e| >= 4 ==> e[..4][0] == c;
    assert |e| >= 5 ==> e[..5][0] == c;
    assert |e| >= 6 ==> e[..6][0] == c;
  }

  /** Escaping loses nothing: decoding the escaped text gives the text back. */
  lemma {:induction false} EscapeRoundTrip(s: string)
    ensures UnescapeHtml(EscapeHtml(s)) == s
  {
    if s != [] {
      UnescapeChar(s[0], EscapeHtml(s[1..]));
      EscapeRoundTrip(s[1..]);
      assert s == [s[0]] + s[1..];
    }
  }
}
