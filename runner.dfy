/** The shared framework of the bookmarklets: the text and selector
    utilities every step uses, the step registry, and the aggregation of the
    per-step reports into one overall report. */
module Runner {
  import opened Seqs
  import opened Text
  import opened Dom

  // ===== Utilities =====

  /** `getText`: the element's text content, trimmed, with every run of white
      space replaced by one space; a missing element reads as "". */
  function GetText(el: Option<Element>): string {
    if el.None? then "" else Collapse(Trim(el.value.textContent))
  }

  /** The text getText yields is trimmed, single-spaced, and keeps every
      non-white-space character of the element's text, in order. */
  lemma GetTextSpec(el: Option<Element>)
    ensures Trimmed(GetText(el)) && SingleSpaced(GetText(el))
    ensures el.Some? ==> NonSpace(GetText(el)) == NonSpace(el.value.textContent)
  {
    if el.Some? {
      var x := el.value.textContent;
      CollapseOfTrimmed(Trim(x));
      TrimmedTrim(x);
      TrimKeepsContent(x);
      CollapseKeepsContent(Trim(x));
    }
  }

  lemma CollapseOfTrimmed(t: string)
    ensures Trimmed(t) ==> Trimmed(Collapse(t))
    ensures SingleSpaced(Collapse(t))
  {
    var c := Collapse(t);
    CollapseEnds(t);
    CollapseSingleSpaced(t);
    if Trimmed(t) && c != [] {
      assert !IsSpace(t[0]) && !IsSpace(t[|t| - 1]);
      assert !IsSpace(c[0]);
      assert !IsSpace(c[|c| - 1]);
    }
  }

  /** `truncate(str, n)`: at most n characters of the collapsed, trimmed
      text, followed by '…' exactly when the ORIGINAL string is longer than n.
      A null or undefined str reads as "", which the caller passes. */
  function Truncate(s: string, n: nat := 280): (r: string)
    ensures var t := Trim(Collapse(s));
            && |r| == Min(n, |t|) + (if |s| > n then 1 else 0)
            && r[..Min(n, |t|)] == t[..Min(n, |t|)]
            && (|s| > n ==> |r| == Min(n, |t|) + 1 && r[|r| - 1] == '…')
            && (|s| <= n ==> r == t)
  {
    CollapseEnds(s);
    TrimKeepsContent(Collapse(s));
    Prefix(Trim(Collapse(s)), n) + (if |s| > n then "…" else "")
  }

  /** The ellipsis follows the raw length: a text that fits once its white
      space is collapsed still gets one when the raw string is longer than n. */
  lemma TruncateCountsRawLength(s: string, n: nat)
    requires |Trim(Collapse(s))| <= n < |s|
    ensures Truncate(s, n) == Trim(Collapse(s)) + "…"
  {
    var t := Trim(Collapse(s));
    assert Prefix(t, n) == t;
  }

  /** `CSS.escape` is a browser call; the path builder takes it as a
      parameter. */
  type Escape = string -> string

  /** The walk stops at `document.body` and `document.documentElement`
      (compared by identity). */
  predicate IsBoundary(doc: Document, el: Element) {
    el.key == doc.body.key || el.key == doc.root.key
  }

  /** One `cssPath` segment: the lower-cased tag name, then `#id` when the
      element has an id, else its escaped classes joined by '.', and
      `:nth-of-type(k)` when its parent has several children of its tag. */
  function CssSegment(el: Element, esc: Escape): string {
    var name := Lower(el.tagName);
    if el.id != "" then name + "#" + esc(el.id)
    else
      name + (if |el.classList| > 0 then ClassSuffix(el, esc) else "")
      + (if el.sameTypeSiblings > 1 then NthOfType(el) else "")
  }

  /** `'.' + Array.from(el.classList).map(CSS.escape).join('.')`. */
  function ClassSuffix(el: Element, esc: Escape): string {
    "." + Join(seq(|el.classList|, k requires 0 <= k < |el.classList| => esc(el.classList[k])), ".")
  }

  /** `:nth-of-type(k)` with k the 1-based position among the siblings of
      the same tag. */
  function NthOfType(el: Element): string {
    ":nth-of-type(" + Decimal(el.typeIndex + 1) + ")"
  }

  /** The first index from i on that is past the chain, a boundary, or an
      element with an id. */
  function CssStop(doc: Document, chain: Chain, i: nat): (j: nat)
    requires i <= |chain|
    ensures i <= j <= |chain|
    decreases |chain| - i
  {
    if i == |chain| || IsBoundary(doc, chain[i]) || chain[i].id != "" then i
    else CssStop(doc, chain, i + 1)
  }

  lemma {:induction false} CssStopSpec(doc: Document, chain: Chain, i: nat)
    requires i <= |chain|
    ensures forall k :: i <= k < CssStop(doc, chain, i) ==> !IsBoundary(doc, chain[k]) && chain[k].id == ""
    ensures CssStop(doc, chain, i) < |chain| ==>
              IsBoundary(doc, chain[CssStop(doc, chain, i)]) || chain[CssStop(doc, chain, i)].id != ""
    decreases |chain| - i
  {
    if !(i == |chain| || IsBoundary(doc, chain[i]) || chain[i].id != "") {
      CssStopSpec(doc, chain, i + 1);
    }
  }

  /** How many elements the walk turns into segments: those before the
      stop, plus the element with the id when that is where it stopped. */
  function CssLength(doc: Document, chain: Chain): (n: nat)
    ensures n <= |chain|
  {
    var j := CssStop(doc, chain, 0);
    if j < |chain| && !IsBoundary(doc, chain[j]) then j + 1 else j
  }

  /** CssSegment with the escape function fixed. */
  function SegmentWith(esc: Escape): Element -> string {
    el => CssSegment(el, esc)
  }

  function CssParts(doc: Document, chain: Chain, esc: Escape): seq<string> {
    Unshifted(chain, CssLength(doc, chain), SegmentWith(esc))
  }

  /** `cssPath`: walks up from the element, unshifting one segment per
      element, and stops after the first element with an id. An empty chain
      stands for a value that is not an element. */
  method CssPath(doc: Document, chain: Chain, esc: Escape) returns (path: string)
    ensures path == Join(CssParts(doc, chain, esc), " > ")
  {
    CssStopSpec(doc, chain, 0);
    ghost var stop := CssStop(doc, chain, 0);
    var parts: seq<string> := [];
    var i := 0;
    while i < |chain| && !IsBoundary(doc, chain[i])
      invariant i <= stop
      invariant parts == Unshifted(chain, i, SegmentWith(esc))
      decreases |chain| - i
    {
      var el := chain[i];
      if el.id != "" {
        var sel := Lower(el.tagName) + "#" + esc(el.id);
        parts := [sel] + parts;
        assert stop == i;
        return Join(parts, " > ");
      }
      assert i < stop;
      var sel := PlainSegment(el, esc);
      parts := [sel] + parts;
      i := i + 1;
    }
    assert stop == i;
    return Join(parts, " > ");
  }

  /** The segment of an element without an id, built up as the walk does. */
  method PlainSegment(el: Element, esc: Escape) returns (sel: string)
    requires el.id == ""
    ensures sel == CssSegment(el, esc)
  {
    sel := Lower(el.tagName);
    if |el.classList| > 0 {
      sel := sel + ClassSuffix(el, esc);
    }
    if el.sameTypeSiblings > 1 {
      sel := sel + NthOfType(el);
    }
  }

  /** The path never names body or html, names no element past the first one
      with an id, ends with the element itself, and lists the elements it
      walked outermost first. */
  lemma CssPathShape(doc: Document, chain: Chain, esc: Escape)
    ensures |CssParts(doc, chain, esc)| == CssLength(doc, chain)
    ensures forall k :: 0 <= k < CssLength(doc, chain) ==> !IsBoundary(doc, chain[k])
    ensures forall k :: 0 <= k < CssLength(doc, chain) - 1 ==> chain[k].id == ""
    ensures forall k :: 0 <= k < CssLength(doc, chain) ==>
              CssParts(doc, chain, esc)[CssLength(doc, chain) - 1 - k] == CssSegment(chain[k], esc)
    ensures var n := CssLength(doc, chain);
            n == |chain| || IsBoundary(doc, chain[n]) || (n > 0 && chain[n - 1].id != "")
  {
    CssLengthSpec(doc, chain);
    CssSegmentsAll(chain, CssLength(doc, chain), esc);
  }

  lemma CssSegmentsAll(chain: Chain, n: nat, esc: Escape)
    requires n <= |chain|
    ensures forall k :: 0 <= k < n ==> Unshifted(chain, n, SegmentWith(esc))[n - 1 - k] == CssSegment(chain[k], esc)
  {
    forall k | 0 <= k < n
      ensures Unshifted(chain, n, SegmentWith(esc))[n - 1 - k] == CssSegment(chain[k], esc)
    {
      UnshiftedAt(chain, n, SegmentWith(esc), k);
    }
  }

  lemma CssLengthSpec(doc: Document, chain: Chain)
    ensures forall k :: 0 <= k < CssLength(doc, chain) ==> !IsBoundary(doc, chain[k])
    ensures forall k :: 0 <= k < CssLength(doc, chain) - 1 ==> chain[k].id == ""
    ensures var n := CssLength(doc, chain);
            n == |chain| || IsBoundary(doc, chain[n]) || (n > 0 && chain[n - 1].id != "")
  {
    CssStopSpec(doc, chain, 0);
    var j := CssStop(doc, chain, 0);
    if j < |chain| && !IsBoundary(doc, chain[j]) {
      assert chain[j].id != "";
      assert CssLength(doc, chain) == j + 1;
    } else {
      assert CssLength(doc, chain) == j;
    }
  }

  /** An element with an id is the leftmost segment, written `tag#id`. */
  lemma CssPathIdLeftmost(doc: Document, chain: Chain, esc: Escape, j: nat)
    requires j < |chain| && chain[j].id != ""
    requires forall k :: 0 <= k <= j ==> !IsBoundary(doc, chain[k])
    requires forall k :: 0 <= k < j ==> chain[k].id == ""
    ensures |CssParts(doc, chain, esc)| == j + 1
    ensures CssParts(doc, chain, esc)[0] == Lower(chain[j].tagName) + "#" + esc(chain[j].id)
  {
    CssStopSpec(doc, chain, 0);
    assert CssStop(doc, chain, 0) == j;
    UnshiftedAt(chain, j + 1, SegmentWith(esc), j);
  }

  // ===== Step registry =====

  /** A step as handed to `registerStep`: `id` and `title` are None when
      absent, `hasRun` says `typeof run === 'function'`. */
  datatype StepDef = StepDef(id: Option<string>, title: Option<string>, hasRun: bool)

  /** A step is accepted when it exists and has a non-empty id, a non-empty
      title and a run function. */
  predicate Accepted(step: Option<StepDef>) {
    && step.Some?
    && step.value.id.Some? && step.value.id.value != ""
    && step.value.title.Some? && step.value.title.value != ""
    && step.value.hasRun
  }

  /** The registry after `registerStep(step)`. */
  function Registered(steps: map<string, StepDef>, step: Option<StepDef>): (r: map<string, StepDef>)
    ensures !Accepted(step) ==> r == steps
    ensures Accepted(step) ==>
              && r.Keys == steps.Keys + {step.value.id.value}
              && r[step.value.id.value] == step.value
              && (forall k :: k in steps && k != step.value.id.value ==> r[k] == steps[k])
  {
    if Accepted(step) then steps[step.value.id.value := step.value] else steps
  }

  /** Registering a second step under the same id replaces the first. */
  lemma RegisterReplaces(steps: map<string, StepDef>, a: StepDef, b: StepDef)
    requires Accepted(Some(a)) && Accepted(Some(b)) && a.id == b.id
    ensures Registered(Registered(steps, Some(a)), Some(b)) == Registered(steps, Some(b))
  {
    var m := Registered(Registered(steps, Some(a)), Some(b));
    var n := Registered(steps, Some(b));
    assert m.Keys == n.Keys;
    forall k | k in m
      ensures m[k] == n[k]
    {
    }
  }

  /** Every registered step is one that was accepted under its own id. */
  predicate WellRegistered(steps: map<string, StepDef>) {
    forall k :: k in steps ==> Accepted(Some(steps[k])) && steps[k].id == Some(k)
  }

  /** The module-level `steps` Map. */
  class Registry {
    var steps: map<string, StepDef>

    constructor ()
      ensures steps == map[]
    {
      steps := map[];
    }

    /** `registerStep`. */
    method RegisterStep(step: Option<StepDef>)
      modifies this
      ensures steps == Registered(old(steps), step)
      ensures WellRegistered(old(steps)) ==> WellRegistered(steps)
    {
      if !Accepted(step) {
        return;
      }
      steps := steps[step.value.id.value := step.value];
    }
  }

  // ===== Aggregation =====

  const NotApplicable := "nicht anwendbar"
  const NotMet := "nicht erfüllt"
  const Met := "erfüllt"

  /** `summary.statistik`; a missing counter is None. */
  datatype Stats = Stats(fehler: Option<nat>, anwendbar: Option<nat>, bestanden: Option<nat>)

  datatype StepSummary = StepSummary(bewertung: string, statistik: Option<Stats>, verbesserungen: Option<seq<string>>)

  /** One step's report; the findings are the step's own, of any type. */
  datatype StepReport<F> = StepReport(id: string, title: string, findings: F, summary: StepSummary)

  datatype Kriterium = Kriterium(id: string, title: string, bewertung: string)

  datatype Totals = Totals(schritte: nat, fehler: nat, anwendbar: nat, bestanden: nat)

  datatype Overall<F> = Overall(
    seite: string,
    timestamp: string,
    kriterien: seq<Kriterium>,
    bewertungGesamt: string,
    statistikGesamt: Totals,
    verbesserungen: seq<string>,
    findings: map<string, F>)

  /** `x || 0` on an optional counter. */
  function OrZero(x: Option<nat>): nat { if x.Some? then x.value else 0 }

  function Fehler<F>(r: StepReport<F>): nat {
    if r.summary.statistik.Some? then OrZero(r.summary.statistik.value.fehler) else 0
  }

  function Anwendbar<F>(r: StepReport<F>): nat {
    if r.summary.statistik.Some? then OrZero(r.summary.statistik.value.anwendbar) else 0
  }

  function Bestanden<F>(r: StepReport<F>): nat {
    if r.summary.statistik.Some? then OrZero(r.summary.statistik.value.bestanden) else 0
  }

  function HintsOf<F>(r: StepReport<F>): seq<string> {
    if r.summary.verbesserungen.Some? then r.summary.verbesserungen.value else []
  }

  /** The total of a counter over the reports, added up in order. */
  function Sum<F>(rs: seq<StepReport<F>>, f: StepReport<F> -> nat): nat {
    if rs == [] then 0 else Sum(rs[..|rs| - 1], f) + f(rs[|rs| - 1])
  }

  /** Totals add up over concatenated report lists. */
  lemma {:induction false} SumAppend<F>(a: seq<StepReport<F>>, b: seq<StepReport<F>>, f: StepReport<F> -> nat)
    ensures Sum(a + b, f) == Sum(a, f) + Sum(b, f)
    decreases |b|
  {
    if b != [] {
      assert (a + b)[..|a + b| - 1] == a + b[..|b| - 1];
      assert (a + b)[|a + b| - 1] == b[|b| - 1];
      SumAppend(a, b[..|b| - 1], f);
      assert Sum(a + b, f) == Sum(a + b[..|b| - 1], f) + f(b[|b| - 1]);
      assert Sum(b, f) == Sum(b[..|b| - 1], f) + f(b[|b| - 1]);
    } else {
      assert a + b == a;
    }
  }

  /** Reports without statistics add nothing. */
  lemma {:induction false} SumOfMissing<F>(rs: seq<StepReport<F>>)
    requires forall k :: 0 <= k < |rs| ==> rs[k].summary.statistik.None?
    ensures Sum(rs, Fehler) == 0 && Sum(rs, Anwendbar) == 0 && Sum(rs, Bestanden) == 0
  {
    if rs != [] {
      SumOfMissing(rs[..|rs| - 1]);
    }
  }

  /** All hints of all reports, in report order. */
  function AllHints<F>(rs: seq<StepReport<F>>): seq<string> {
    if rs == [] then [] else AllHints(rs[..|rs| - 1]) + HintsOf(rs[|rs| - 1])
  }

  lemma {:induction false} AllHintsMember<F>(rs: seq<StepReport<F>>, k: nat, i: nat)
    requires k < |rs| && i < |HintsOf(rs[k])|
    ensures HintsOf(rs[k])[i] in AllHints(rs)
  {
    if k < |rs| - 1 {
      AllHintsMember(rs[..|rs| - 1], k, i);
    } else {
      assert AllHints(rs) == AllHints(rs[..|rs| - 1]) + HintsOf(rs[k]);
    }
  }

  lemma {:induction false} AllHintsFrom<F>(rs: seq<StepReport<F>>, h: string)
    requires h in AllHints(rs)
    ensures exists k :: 0 <= k < |rs| && h in HintsOf(rs[k])
  {
    var init := rs[..|rs| - 1];
    if h in AllHints(init) {
      AllHintsFrom(init, h);
      var k :| 0 <= k < |init| && h in HintsOf(init[k]);
      assert rs[k] == init[k];
    } else {
      assert h in HintsOf(rs[|rs| - 1]);
    }
  }

  /** The two flags of the loop: some report is applicable, some fails. */
  function AnyApplicable<F>(rs: seq<StepReport<F>>): bool {
    if rs == [] then false
    else AnyApplicable(rs[..|rs| - 1]) || rs[|rs| - 1].summary.bewertung != NotApplicable
  }

  function AnyFail<F>(rs: seq<StepReport<F>>): bool {
    if rs == [] then false
    else AnyFail(rs[..|rs| - 1]) || rs[|rs| - 1].summary.bewertung == NotMet
  }

  lemma {:induction false} AnyApplicableSpec<F>(rs: seq<StepReport<F>>)
    ensures AnyApplicable(rs) <==> exists k :: 0 <= k < |rs| && rs[k].summary.bewertung != NotApplicable
  {
    if rs != [] {
      var init := rs[..|rs| - 1];
      AnyApplicableSpec(init);
      if AnyApplicable(init) {
        var k :| 0 <= k < |init| && init[k].summary.bewertung != NotApplicable;
        assert rs[k] == init[k];
      }
      if exists k :: 0 <= k < |rs| && rs[k].summary.bewertung != NotApplicable {
        var k :| 0 <= k < |rs| && rs[k].summary.bewertung != NotApplicable;
        if k < |init| {
          assert init[k] == rs[k];
        }
      }
    }
  }

  lemma {:induction false} AnyFailSpec<F>(rs: seq<StepReport<F>>)
    ensures AnyFail(rs) <==> exists k :: 0 <= k < |rs| && rs[k].summary.bewertung == NotMet
  {
    if rs != [] {
      var init := rs[..|rs| - 1];
      AnyFailSpec(init);
      if AnyFail(init) {
        var k :| 0 <= k < |init| && init[k].summary.bewertung == NotMet;
        assert rs[k] == init[k];
      }
      if exists k :: 0 <= k < |rs| && rs[k].summary.bewertung == NotMet {
        var k :| 0 <= k < |rs| && rs[k].summary.bewertung == NotMet;
        if k < |init| {
          assert init[k] == rs[k];
        }
      }
    }
  }

  /** `bewertungGesamt` from the two flags. */
  function Verdict<F>(rs: seq<StepReport<F>>): string {
    if !AnyApplicable(rs) then NotApplicable else if AnyFail(rs) then NotMet else Met
  }

  /** The overall verdict is "nicht anwendbar" exactly when every report is
      (the empty list included), otherwise "nicht erfüllt" exactly when
      some report is, and "erfüllt" else. */
  lemma VerdictSpec<F>(rs: seq<StepReport<F>>)
    ensures Verdict(rs) == NotApplicable <==>
              forall k :: 0 <= k < |rs| ==> rs[k].summary.bewertung == NotApplicable
    ensures Verdict(rs) == NotMet <==> exists k :: 0 <= k < |rs| && rs[k].summary.bewertung == NotMet
    ensures Verdict(rs) == Met <==>
              && (exists k :: 0 <= k < |rs| && rs[k].summary.bewertung != NotApplicable)
              && (forall k :: 0 <= k < |rs| ==> rs[k].summary.bewertung != NotMet)
  {
    AnyApplicableSpec(rs);
    AnyFailSpec(rs);
    if exists k :: 0 <= k < |rs| && rs[k].summary.bewertung == NotMet {
      var k :| 0 <= k < |rs| && rs[k].summary.bewertung == NotMet;
      assert rs[k].summary.bewertung != NotApplicable;
    }
  }

  /** `out.findings[r.id] = r.findings` for each report in turn. */
  function FindingsMap<F>(rs: seq<StepReport<F>>): map<string, F> {
    if rs == [] then map[]
    else FindingsMap(rs[..|rs| - 1])[rs[|rs| - 1].id := rs[|rs| - 1].findings]
  }

  /** One key per report id. */
  lemma {:induction false} FindingsMapKeys<F>(rs: seq<StepReport<F>>)
    ensures FindingsMap(rs).Keys == set k | 0 <= k < |rs| :: rs[k].id
  {
    if rs != [] {
      var init := rs[..|rs| - 1];
      var last := rs[|rs| - 1];
      FindingsMapKeys(init);
      var ids := set k | 0 <= k < |rs| :: rs[k].id;
      var initIds := set k | 0 <= k < |init| :: init[k].id;
      forall x | x in ids ensures x in initIds + {last.id} {
        var k :| 0 <= k < |rs| && rs[k].id == x;
        if k < |init| {
          assert init[k] == rs[k];
        }
      }
      forall x | x in initIds ensures x in ids {
        var k :| 0 <= k < |init| && init[k].id == x;
        assert rs[k] == init[k];
      }
      assert last.id in ids;
      assert ids == initIds + {last.id};
    }
  }

  /** Under each id, the findings of the last report with that id: a later
      report with the same id wins. */
  lemma {:induction false} FindingsMapLastWins<F>(rs: seq<StepReport<F>>, k: nat)
    requires k < |rs|
    requires forall j :: k < j < |rs| ==> rs[j].id != rs[k].id
    ensures rs[k].id in FindingsMap(rs) && FindingsMap(rs)[rs[k].id] == rs[k].findings
  {
    if k < |rs| - 1 {
      var init := rs[..|rs| - 1];
      assert rs[|rs| - 1].id != rs[k].id;
      assert init[k] == rs[k];
      forall j | k < j < |init|
        ensures init[j].id != init[k].id
      {
        assert init[j] == rs[j];
      }
      FindingsMapLastWins(init, k);
    }
  }

  function Kriterien<F>(rs: seq<StepReport<F>>): (ks: seq<Kriterium>)
    ensures |ks| == |rs|
    ensures forall k :: 0 <= k < |rs| ==>
              ks[k] == Kriterium(rs[k].id, rs[k].title, rs[k].summary.bewertung)
  {
    seq(|rs|, k requires 0 <= k < |rs| => Kriterium(rs[k].id, rs[k].title, rs[k].summary.bewertung))
  }

  /** The criteria list and the findings map name the same steps: a step id
      has findings in the aggregate exactly when some criterion carries it. */
  lemma KriterienNameFindings<F>(rs: seq<StepReport<F>>)
    ensures FindingsMap(rs).Keys == set k | 0 <= k < |Kriterien(rs)| :: Kriterien(rs)[k].id
  {
    FindingsMapKeys(rs);
    var ks := Kriterien(rs);
    forall x | x in FindingsMap(rs).Keys
      ensures exists k :: 0 <= k < |ks| && ks[k].id == x
    {
      var k :| 0 <= k < |rs| && rs[k].id == x;
      assert ks[k].id == x;
    }
    forall k | 0 <= k < |ks|
      ensures ks[k].id in FindingsMap(rs).Keys
    {
      assert ks[k].id == rs[k].id;
    }
  }

  /** `aggregate(reports)`. The page address and the time stamp
      (`location.href`, `new Date().toISOString()`) are parameters. */
  method Aggregate<F>(rs: seq<StepReport<F>>, seite: string, timestamp: string) returns (out: Overall<F>)
    ensures out.seite == seite && out.timestamp == timestamp
    ensures out.kriterien == Kriterien(rs)
    ensures out.statistikGesamt ==
              Totals(|rs|, Sum(rs, Fehler), Sum(rs, Anwendbar), Sum(rs, Bestanden))
    ensures out.verbesserungen == Prefix(Unique(AllHints(rs)), 10)
    ensures out.bewertungGesamt == Verdict(rs)
    ensures out.findings == FindingsMap(rs)
  {
    var findings: map<string, F> := map[];
    var fehler, anwendbar, bestanden := 0, 0, 0;
    var allHints: seq<string> := [];
    var anyApplicable, anyFail := false, false;
    var i := 0;
    while i < |rs|
      invariant i <= |rs|
      invariant findings == FindingsMap(rs[..i])
      invariant fehler == Sum(rs[..i], Fehler)
      invariant anwendbar == Sum(rs[..i], Anwendbar)
      invariant bestanden == Sum(rs[..i], Bestanden)
      invariant allHints == AllHints(rs[..i])
      invariant anyApplicable == AnyApplicable(rs[..i])
      invariant anyFail == AnyFail(rs[..i])
    {
      var r := rs[i];
      assert rs[..i + 1][..i] == rs[..i];
      findings := findings[r.id := r.findings];
      fehler := fehler + Fehler(r);
      anwendbar := anwendbar + Anwendbar(r);
      bestanden := bestanden + Bestanden(r);
      allHints := allHints + HintsOf(r);
      if r.summary.bewertung != NotApplicable {
        anyApplicable := true;
      }
      if r.summary.bewertung == NotMet {
        anyFail := true;
      }
      i := i + 1;
    }
    assert rs[..|rs|] == rs;
    var verdict := if !anyApplicable then NotApplicable else if anyFail then NotMet else Met;
    out := Overall(seite, timestamp, Kriterien(rs), verdict,
                   Totals(|rs|, fehler, anwendbar, bestanden),
                   Prefix(Unique(allHints), 10), findings);
  }

  /** The overall hints: at most ten, no duplicates, each one a hint of some
      report, in the order of first occurrence. */
  lemma AggregatedHints<F>(rs: seq<StepReport<F>>)
    ensures |Prefix(Unique(AllHints(rs)), 10)| <= 10
    ensures Distinct(Prefix(Unique(AllHints(rs)), 10))
    ensures forall i :: 0 <= i < |Prefix(Unique(AllHints(rs)), 10)| ==>
              exists k :: 0 <= k < |rs| && Prefix(Unique(AllHints(rs)), 10)[i] in HintsOf(rs[k])
    ensures forall i, j :: 0 <= i < j < |Prefix(Unique(AllHints(rs)), 10)| ==>
              IndexOf(AllHints(rs), Prefix(Unique(AllHints(rs)), 10)[i])
              < IndexOf(AllHints(rs), Prefix(Unique(AllHints(rs)), 10)[j])
  {
    var all := AllHints(rs);
    var u := Unique(all);
    var hs := Prefix(u, 10);
    UniqueSpec(all);
    forall i | 0 <= i < |hs|
      ensures exists k :: 0 <= k < |rs| && hs[i] in HintsOf(rs[k])
    {
      assert hs[i] == u[i];
      AllHintsFrom(rs, hs[i]);
    }
  }

  /** When there are at most ten distinct hints, every hint of every report
      is kept. */
  lemma AggregatedHintsComplete<F>(rs: seq<StepReport<F>>, k: nat, i: nat)
    requires |Unique(AllHints(rs))| <= 10
    requires k < |rs| && i < |HintsOf(rs[k])|
    ensures HintsOf(rs[k])[i] in Prefix(Unique(AllHints(rs)), 10)
  {
    var all := AllHints(rs);
    UniqueMembers(all);
    AllHintsMember(rs, k, i);
    var p := IndexOf(all, HintsOf(rs[k])[i]);
    assert all[p] in Unique(all);
    assert Prefix(Unique(all), 10) == Unique(all);
  }
}
