/** The contrast auditor's state and its scan (a11y-131.js): the text nodes
    the tree walker accepts, the findings `scan` emits while advancing the id
    counter, and the removal of a finding by id. */
module Audit {
  import opened Seqs
  import opened Text
  import opened Colour
  import opened Dom
  import opened Contrast

  /** A text node in document order: its identity, its value and the
      ancestor chain of its parent element (empty when it has none). */
  datatype TextNode = TextNode(key: nat, value: string, chain: Chain)

  /** What scan records about one text node that fails: the parent
      element and the node, the snippet and path, both colours, the ratio,
      the size class and its threshold, whether a background image was
      passed over, and the passing ancestor if there is one. */
  datatype Measurement = Measurement(
    el: nat,
    node: nat,
    snippet: string,
    path: string,
    fg: Color,
    bg: Color,
    ratio: real,
    large: bool,
    minRatio: real,
    hadImage: bool,
    ancestorPass: Option<Pass>)

  /** One finding of `scan`: its id and what was measured. */
  datatype Finding = Finding(id: string, m: Measurement)

  /** The tree walker's `acceptNode`: a non-empty value that is not all white
      space, under a visible parent element. */
  predicate Accepts(n: TextNode) {
    && n.value != ""
    && Trim(Collapse(n.value)) != ""
    && n.chain != []
    && IsVisible(n.chain[0])
    && !(n.chain[0].style.visibility == "hidden" || n.chain[0].style.display == "none")
  }

  /** `getEffectiveTextColor` of the parent element. */
  function TextColor(parse: string -> Color, n: TextNode): Color
    requires n.chain != []
  {
    parse(n.chain[0].style.color)
  }

  function NodeRatio(parse: string -> Color, curve: nat -> real, doc: Document, n: TextNode): real
    requires ValidCurve(curve) && n.chain != []
  {
    ContrastRatio(curve, TextColor(parse, n), Resolve(parse, doc, n.chain).color)
  }

  function NodeLarge(n: TextNode): bool
    requires n.chain != []
  {
    IsLargeText(n.chain[0].style.fontSizePx, n.chain[0].style.fontWeight)
  }

  /** An accepted node whose ratio is below its threshold. */
  predicate Flagged(parse: string -> Color, curve: nat -> real, doc: Document, n: TextNode)
    requires ValidCurve(curve)
  {
    Accepts(n) && NodeRatio(parse, curve, doc, n) < MinRatio(NodeLarge(n))
  }

  /** What every finding satisfies: a ratio below the threshold of its size
      class, a snippet of at most 140 characters, and a suggested ancestor
      only when that ancestor passes the threshold. */
  predicate Failing(m: Measurement) {
    && m.ratio < m.minRatio && m.minRatio == MinRatio(m.large)
    && |m.snippet| <= 140
    && (m.ancestorPass.Some? ==> m.ancestorPass.value.ratio >= m.minRatio)
  }

  /** The body of scan's walk for one text node: None when the walker skips
      it or it passes, otherwise what scan records about it. */
  function Measure(parse: string -> Color, curve: nat -> real, doc: Document, n: TextNode): (r: Option<Measurement>)
    requires ValidCurve(curve)
    ensures r.Some? <==> Flagged(parse, curve, doc, n)
    ensures r.Some? ==> r.value.el == n.chain[0].key && r.value.node == n.key && Failing(r.value)
    ensures r.Some? ==> r.value.snippet == Prefix(Trim(n.value), 140)
  {
    if !Flagged(parse, curve, doc, n) then None
    else
      var bg := Resolve(parse, doc, n.chain);
      var minRatio := MinRatio(NodeLarge(n));
      var m := Measurement(n.chain[0].key, n.key, Prefix(Trim(n.value), 140), Join(PathSegments(n.chain), " > "),
                           TextColor(parse, n), bg.color, NodeRatio(parse, curve, doc, n), NodeLarge(n), minRatio,
                           bg.hadImage, AncestorPass(parse, curve, doc, n.chain, TextColor(parse, n), minRatio));
      assert m.ratio < m.minRatio;
      assert |m.snippet| <= 140;
      assert m.ancestorPass.Some? ==> m.ancestorPass.value.ratio >= m.minRatio;
      Some(m)
  }

  /** The measurements of a run of text nodes, one per node. */
  function Measures(parse: string -> Color, curve: nat -> real, doc: Document, nodes: seq<TextNode>): (ms: seq<Option<Measurement>>)
    requires ValidCurve(curve)
    ensures |ms| == |nodes|
  {
    if nodes == [] then []
    else Measures(parse, curve, doc, nodes[..|nodes| - 1]) + [Measure(parse, curve, doc, nodes[|nodes| - 1])]
  }

  lemma {:induction false} MeasuresAt(parse: string -> Color, curve: nat -> real, doc: Document, nodes: seq<TextNode>, i: nat)
    requires ValidCurve(curve) && i < |nodes|
    ensures Measures(parse, curve, doc, nodes)[i] == Measure(parse, curve, doc, nodes[i])
  {
    if i < |nodes| - 1 {
      MeasuresAt(parse, curve, doc, nodes[..|nodes| - 1], i);
    }
  }

  /** The id scan gives its finding when the counter reads seed. */
  function FindingId(seed: nat): string {
    "fnd_" + Decimal(seed)
  }

  /** The measurements that are present, in order. */
  function Present(ms: seq<Option<Measurement>>): (r: seq<Measurement>)
    ensures |r| <= |ms|
  {
    if ms == [] then []
    else Present(ms[..|ms| - 1]) + (if ms[|ms| - 1].Some? then [ms[|ms| - 1].value] else [])
  }

  /** Numbering the present measurements from seed, as scan does with
      `STATE.idSeed++`: finding i gets the id of seed + i. */
  function Number(ms: seq<Option<Measurement>>, seed: nat): (r: seq<Finding>)
    ensures |r| == |Present(ms)|
  {
    if ms == [] then []
    else
      var prev := Number(ms[..|ms| - 1], seed);
      if ms[|ms| - 1].Some? then prev + [Finding(FindingId(seed + |prev|), ms[|ms| - 1].value)] else prev
  }

  /** Finding i of the numbering carries the id of seed + i and the i-th
      present measurement. */
  lemma {:induction false} NumberSpec(ms: seq<Option<Measurement>>, seed: nat)
    ensures var r := Number(ms, seed);
            forall i :: 0 <= i < |r| ==> r[i] == Finding(FindingId(seed + i), Present(ms)[i])
  {
    if ms != [] {
      NumberSpec(ms[..|ms| - 1], seed);
    }
  }

  /** Number over one more entry appends at most one finding. */
  lemma NumberStep(ms: seq<Option<Measurement>>, i: nat, seed: nat)
    requires i < |ms|
    ensures var prev := Number(ms[..i], seed);
            Number(ms[..i + 1], seed)
              == if ms[i].Some? then prev + [Finding(FindingId(seed + |prev|), ms[i].value)] else prev
  {
    assert ms[..i + 1][..i] == ms[..i];
  }

  /** Every present measurement is one of the entries. */
  lemma {:induction false} PresentFrom(ms: seq<Option<Measurement>>, i: nat)
    requires i < |Present(ms)|
    ensures exists j :: 0 <= j < |ms| && ms[j] == Some(Present(ms)[i])
  {
    var prev := Present(ms[..|ms| - 1]);
    if i < |prev| {
      PresentFrom(ms[..|ms| - 1], i);
      var j :| 0 <= j < |ms| - 1 && ms[..|ms| - 1][j] == Some(prev[i]);
      assert ms[j] == Some(Present(ms)[i]);
    } else {
      assert ms[|ms| - 1] == Some(Present(ms)[i]);
    }
  }

  /** The findings scan emits for `nodes` when the id counter starts at seed:
      the flagged nodes' measurements in document order, numbered
      consecutively. */
  function ScanSpec(parse: string -> Color, curve: nat -> real, doc: Document, nodes: seq<TextNode>, seed: nat): seq<Finding>
    requires ValidCurve(curve)
  {
    Number(Measures(parse, curve, doc, nodes), seed)
  }

  /** Numbered findings have the ids of their positions, so no two share one. */
  lemma NumberIds(ms: seq<Option<Measurement>>, seed: nat)
    ensures var r := Number(ms, seed);
            && (forall i :: 0 <= i < |r| ==> r[i].id == FindingId(seed + i))
            && (forall i, j :: 0 <= i < j < |r| ==> r[i].id != r[j].id)
  {
    var r := Number(ms, seed);
    NumberSpec(ms, seed);
    forall i, j | 0 <= i < j < |r|
      ensures r[i].id != r[j].id
    {
      assert r[i].id == FindingId(seed + i) && r[j].id == FindingId(seed + j);
      FindingIdInjective(seed + i, seed + j);
    }
  }

  /** Different counter values give different ids. */
  lemma FindingIdInjective(m: nat, n: nat)
    requires m != n
    ensures FindingId(m) != FindingId(n)
  {
    DecimalInjective(m, n);
    assert FindingId(m)[4..] == Decimal(m);
    assert FindingId(n)[4..] == Decimal(n);
  }

  /** Each numbered finding carries one of the entries' measurements. */
  lemma NumberFrom(ms: seq<Option<Measurement>>, seed: nat, i: nat)
    requires i < |Number(ms, seed)|
    ensures exists j :: 0 <= j < |ms| && ms[j] == Some(Number(ms, seed)[i].m)
  {
    NumberSpec(ms, seed);
    PresentFrom(ms, i);
  }

  /** m was measured on one of the flagged nodes. */
  predicate OfFlaggedNode(parse: string -> Color, curve: nat -> real, doc: Document, nodes: seq<TextNode>, m: Measurement)
    requires ValidCurve(curve)
  {
    exists j :: 0 <= j < |nodes| && Flagged(parse, curve, doc, nodes[j]) && m.node == nodes[j].key
  }

  /** Every finding fails its threshold, keeps the snippet within 140
      characters, and belongs to a flagged node. */
  lemma ScanFindings(parse: string -> Color, curve: nat -> real, doc: Document, nodes: seq<TextNode>, seed: nat)
    requires ValidCurve(curve)
    ensures var r := ScanSpec(parse, curve, doc, nodes, seed);
            && |r| <= |nodes|
            && (forall i :: 0 <= i < |r| ==> Failing(r[i].m))
            && (forall i :: 0 <= i < |r| ==> OfFlaggedNode(parse, curve, doc, nodes, r[i].m))
  {
    var ms := Measures(parse, curve, doc, nodes);
    var r := ScanSpec(parse, curve, doc, nodes, seed);
    assert r == Number(ms, seed) && |ms| == |nodes|;
    forall i | 0 <= i < |r|
      ensures Failing(r[i].m)
      ensures OfFlaggedNode(parse, curve, doc, nodes, r[i].m)
    {
      NumberFrom(ms, seed, i);
      var j :| 0 <= j < |ms| && ms[j] == Some(r[i].m);
      MeasuresAt(parse, curve, doc, nodes, j);
      assert Flagged(parse, curve, doc, nodes[j]) && r[i].m.node == nodes[j].key;
    }
  }

  /** The number of flagged nodes. */
  function FlaggedCount(parse: string -> Color, curve: nat -> real, doc: Document, nodes: seq<TextNode>): nat
    requires ValidCurve(curve)
  {
    if nodes == [] then 0
    else FlaggedCount(parse, curve, doc, nodes[..|nodes| - 1]) + (if Flagged(parse, curve, doc, nodes[|nodes| - 1]) then 1 else 0)
  }

  /** One finding per flagged node and none for the others. */
  lemma {:induction false} ScanCount(parse: string -> Color, curve: nat -> real, doc: Document, nodes: seq<TextNode>, seed: nat)
    requires ValidCurve(curve)
    ensures |ScanSpec(parse, curve, doc, nodes, seed)| == FlaggedCount(parse, curve, doc, nodes)
  {
    if nodes != [] {
      var init := nodes[..|nodes| - 1];
      ScanCount(parse, curve, doc, init, seed);
      var ms := Measures(parse, curve, doc, nodes);
      assert ms[..|ms| - 1] == Measures(parse, curve, doc, init);
    }
  }

  /** The findings of one scan are numbered from the counter's value, so
      no two share an id. */
  lemma ScanIdsDistinct(parse: string -> Color, curve: nat -> real, doc: Document, nodes: seq<TextNode>, seed: nat)
    requires ValidCurve(curve)
    ensures var r := ScanSpec(parse, curve, doc, nodes, seed);
            && (forall i :: 0 <= i < |r| ==> r[i].id == FindingId(seed + i))
            && (forall i, j :: 0 <= i < j < |r| ==> r[i].id != r[j].id)
  {
    NumberIds(Measures(parse, curve, doc, nodes), seed);
    assert ScanSpec(parse, curve, doc, nodes, seed) == Number(Measures(parse, curve, doc, nodes), seed);
  }

  /** The index of the first finding with the given id, or |fs|. */
  function IndexOfId(fs: seq<Finding>, id: string): (k: nat)
    ensures k <= |fs|
    ensures forall j :: 0 <= j < k ==> fs[j].id != id
    ensures k < |fs| ==> fs[k].id == id
  {
    if fs == [] then 0 else if fs[0].id == id then 0 else 1 + IndexOfId(fs[1..], id)
  }

  /** `findings.splice(findIndex(id), 1)` when the id is found. */
  function RemoveFirst(fs: seq<Finding>, id: string): seq<Finding> {
    var k := IndexOfId(fs, id);
    if k < |fs| then fs[..k] + fs[k + 1..] else fs
  }

  /** Removing an id that is not listed changes nothing; otherwise exactly
      the first finding with that id goes and the rest keep their order. */
  lemma RemoveFirstSpec(fs: seq<Finding>, id: string)
    ensures (forall j :: 0 <= j < |fs| ==> fs[j].id != id) ==> RemoveFirst(fs, id) == fs
    ensures var k := IndexOfId(fs, id);
            k < |fs| ==> (&& |RemoveFirst(fs, id)| == |fs| - 1
                          && multiset(RemoveFirst(fs, id)) + multiset{fs[k]} == multiset(fs)
                          && (forall j :: 0 <= j < k ==> RemoveFirst(fs, id)[j] == fs[j])
                          && (forall j :: k <= j < |fs| - 1 ==> RemoveFirst(fs, id)[j] == fs[j + 1]))
  {
    var k := IndexOfId(fs, id);
    if k < |fs| {
      var r := RemoveFirst(fs, id);
      assert r == fs[..k] + fs[k + 1..];
      SpliceMultiset(fs, k);
      forall j | 0 <= j < k
        ensures r[j] == fs[j]
      {
      }
      forall j | k <= j < |fs| - 1
        ensures r[j] == fs[j + 1]
      {
      }
    }
  }

  /** With distinct ids (as scan gives them) no finding with the id is left. */
  lemma RemoveFirstUnique(fs: seq<Finding>, id: string)
    requires forall i, j :: 0 <= i < j < |fs| ==> fs[i].id != fs[j].id
    ensures forall j :: 0 <= j < |RemoveFirst(fs, id)| ==> RemoveFirst(fs, id)[j].id != id
  {
    var k := IndexOfId(fs, id);
    var r := RemoveFirst(fs, id);
    if k < |fs| {
      forall j | 0 <= j < |r|
        ensures r[j].id != id
      {
        if j < k {
          assert r[j] == fs[j];
        } else {
          assert r[j] == fs[j + 1];
        }
      }
    }
  }

  /** The walker callback of scan for the i-th text node, computed step by step:
      the filter, the text colour, the background walk, the ratio and the
      threshold, and for a failing node the ancestor search and the path. */
  method Examine(parse: string -> Color, curve: nat -> real, doc: Document, nodes: seq<TextNode>, i: nat)
      returns (m: Option<Measurement>)
    requires ValidCurve(curve) && i < |nodes|
    ensures m == Measures(parse, curve, doc, nodes)[i]
  {
    MeasuresAt(parse, curve, doc, nodes, i);
    var node := nodes[i];
    if !Accepts(node) {
      return None;
    }
    var el := node.chain[0];
    var fg := parse(el.style.color);
    var bgInfo := EffectiveBackground(parse, doc, node.chain);
    var bg := bgInfo.color;
    var ratio := ContrastRatio(curve, fg, bg);
    var large := IsLargeText(el.style.fontSizePx, el.style.fontWeight);
    var minRatio := MinRatio(large);
    assert ratio == NodeRatio(parse, curve, doc, node) && large == NodeLarge(node);
    if ratio >= minRatio {
      return None;
    }
    var ancestorPass := FindPassingAncestor(parse, curve, doc, node.chain, fg, minRatio);
    assert ancestorPass == AncestorPass(parse, curve, doc, node.chain, fg, minRatio);
    var path := ElementPath(node.chain);
    m := Some(Measurement(el.key, node.key, Prefix(Trim(node.value), 140), path, fg, bg, ratio,
                          large, minRatio, bgInfo.hadImage, ancestorPass));
  }

  /** The auditor's `STATE`: the current findings and the id counter. */
  class Auditor {
    var findings: seq<Finding>
    var idSeed: nat

    constructor ()
      ensures findings == [] && idSeed == 0
    {
      findings := [];
      idSeed := 0;
    }

    /** `scan()`: walk the text nodes, push a finding for each one the
        walker accepts and that is below its threshold, one id per finding. */
    method Scan(parse: string -> Color, curve: nat -> real, doc: Document, nodes: seq<TextNode>)
        returns (results: seq<Finding>)
      requires ValidCurve(curve)
      modifies this
      ensures results == ScanSpec(parse, curve, doc, nodes, old(idSeed))
      ensures idSeed == old(idSeed) + |results|
      ensures findings == old(findings)
    {
      ghost var ms := Measures(parse, curve, doc, nodes);
      results := [];
      var i := 0;
      while i < |nodes|
        invariant 0 <= i <= |nodes|
        invariant results == Number(ms[..i], old(idSeed))
        invariant idSeed == old(idSeed) + |results|
        invariant findings == old(findings)
      {
        results := Visit(parse, curve, doc, nodes, i, old(idSeed), results);
        i := i + 1;
      }
      assert ms[..|nodes|] == ms;
    }

    /** The walker's callback on the i-th text node: a failing node adds a
        finding with the next id. */
    method Visit(parse: string -> Color, curve: nat -> real, doc: Document, nodes: seq<TextNode>, i: nat,
                 ghost seed: nat, results: seq<Finding>) returns (next: seq<Finding>)
      requires ValidCurve(curve) && i < |nodes|
      requires results == Number(Measures(parse, curve, doc, nodes)[..i], seed)
      requires idSeed == seed + |results|
      modifies this
      ensures next == Number(Measures(parse, curve, doc, nodes)[..i + 1], seed)
      ensures idSeed == seed + |next|
      ensures findings == old(findings)
    {
      var m := Examine(parse, curve, doc, nodes, i);
      NumberStep(Measures(parse, curve, doc, nodes), i, seed);
      next := results;
      if m.Some? {
        var id := FindingId(idSeed);
        idSeed := idSeed + 1;
        next := results + [Finding(id, m.value)];
      }
    }

    /** `STATE.findings = scan()`. */
    method Run(parse: string -> Color, curve: nat -> real, doc: Document, nodes: seq<TextNode>)
      requires ValidCurve(curve)
      modifies this
      ensures findings == ScanSpec(parse, curve, doc, nodes, old(idSeed))
      ensures idSeed == old(idSeed) + |findings|
    {
      findings := Scan(parse, curve, doc, nodes);
    }

    /** `removeCard(id)`: drop the first finding with that id, if any. */
    method RemoveCard(id: string)
      modifies this
      ensures findings == RemoveFirst(old(findings), id)
      ensures idSeed == old(idSeed)
    {
      var idx := -1;
      var i := 0;
      while i < |findings|
        invariant 0 <= i <= |findings|
        invariant forall j :: 0 <= j < i ==> findings[j].id != id
        decreases |findings| - i
      {
        if findings[i].id == id {
          idx := i;
          break;
        }
        i := i + 1;
      }
      assert idx >= 0 ==> idx == IndexOfId(findings, id);
      assert idx < 0 ==> IndexOfId(findings, id) == |findings|;
      if idx >= 0 {
        findings := findings[..idx] + findings[idx + 1..];
      }
    }
  }
}
