// How a frozen snapshot is cut into pages under a byte budget, and that
// following the continuations shows every element exactly once.

module SnapshotPaging {
  import opened Options
  import opened SessionModel
  import Exposed = ExposedElement

  const MAX_PAGE_BYTES: nat := 56 * 1024
  const MAX_PAGE_SIZE: int := 200
  const EDITABLE_ENVELOPE_BYTES: nat := 12

  /**
   * Byte lengths of the parts of a page that do not depend on how many elements it shows. The size of
   * the serialized semantic tree may vary with the shown elements in any way.
   */
  datatype PageLayout = PageLayout(
    fixedBytes: nat,
    omittedTreeBytes: nat,
    continuationBytes: nat,
    treeBytes: (nat, nat) -> nat)

  /** Length of a number in decimal notation. */
  function Digits(n: nat): nat {
    if n < 10 then 1 else 1 + Digits(n / 10)
  }

  function SumBytes(elements: seq<Element>): nat {
    if elements == [] then 0 else SumBytes(elements[..|elements| - 1]) + elements[|elements| - 1].bytes
  }

  /** A JSON array: brackets, elements, and commas between them. */
  function ArrayBytes(elements: seq<Element>): nat {
    2 + SumBytes(elements) + (if elements == [] then 0 else |elements| - 1)
  }

  function Min(a: int, b: int): int {
    if a < b then a else b
  }

  function Max(a: int, b: int): int {
    if a > b then a else b
  }

  /** `elements.slice(offset, offset + limit)` */
  function Window(elements: seq<Element>, offset: nat, limit: nat): (window: seq<Element>)
    ensures |window| == Max(0, Min(limit, |elements| - offset))
    ensures offset <= |elements| ==> window == elements[offset..offset + |window|]
  {
    elements[Min(offset, |elements|)..Min(offset + limit, |elements|)]
  }

  /** A limit is at least one and at most two hundred. */
  lemma LimitsAreClamped(limit: int)
    ensures limit < 1 ==> ClampLimit(limit) == 1
    ensures 1 <= limit <= 200 ==> ClampLimit(limit) == limit
    ensures limit > 200 ==> ClampLimit(limit) == 200
  {
  }

  /** Byte length of the page that shows the first `count` elements of the window. */
  function PageBytes(total: nat, layout: PageLayout, offset: nat, window: seq<Element>, count: nat, withTree: bool): nat
    requires count <= |window|
  {
    var end := offset + count;
    layout.fixedBytes + Digits(offset) + Digits(total) + Digits(count) + ArrayBytes(window[..count])
    + (if withTree then layout.treeBytes(offset, count) else layout.omittedTreeBytes)
    + (if end < total then 4 + layout.continuationBytes + 2 * Digits(end) else 5)
  }

  predicate PageFits(total: nat, layout: PageLayout, offset: nat, window: seq<Element>, count: nat, withTree: bool)
    requires count <= |window|
  {
    PageBytes(total, layout, offset, window, count, withTree) <= MAX_PAGE_BYTES
  }

  // ---- The page as JSON text ---------------------------------------------------

  /** Decimal notation. */
  function Decimal(n: nat): string {
    (if n < 10 then "" else Decimal(n / 10)) + [("0123456789")[n % 10]]
  }

  lemma {:induction false} DecimalLength(n: nat)
    ensures |Decimal(n)| == Digits(n)
  {
    if n >= 10 {
      DecimalLength(n / 10);
    }
  }

  function Joined(items: seq<string>): string {
    if items == [] then "" else if |items| == 1 then items[0] else items[0] + "," + Joined(items[1..])
  }

  /** The parts of one page that its layout only measures, one character for each byte. */
  datatype PageParts = PageParts(
    head: string,
    snapshotId: string,
    omittedTree: string,
    tree: (nat, nat) -> string)

  /** The answer as it is serialized; `elements` are the texts of the shown elements. */
  function PageText(total: nat, parts: PageParts, offset: nat, elements: seq<string>, withTree: bool): string {
    var end := offset + |elements|;
    "{" + parts.head
    + ",\"offset\":" + Decimal(offset)
    + ",\"totalElements\":" + Decimal(total)
    + ",\"returnedElements\":" + Decimal(|elements|)
    + ",\"elements\":[" + Joined(elements) + "]"
    + (if withTree then parts.tree(offset, |elements|) else parts.omittedTree)
    + ",\"truncated\":"
    + (if end < total then
         "true" + ",\"nextOffset\":" + Decimal(end)
         + ",\"continuation\":{\"action\":\"inspect\",\"input\":{\"snapshotId\":" + parts.snapshotId
         + ",\"offset\":" + Decimal(end) + "}}"
       else "false")
    + "}"
  }

  /** What the layout of such a page measures: 74 bytes of names and punctuation, and 84 in a continuation. */
  ghost predicate Measures(layout: PageLayout, parts: PageParts) {
    && layout.fixedBytes == |parts.head| + 74
    && layout.omittedTreeBytes == |parts.omittedTree|
    && layout.continuationBytes == |parts.snapshotId| + 84
    && forall offset: nat, count: nat :: layout.treeBytes(offset, count) == |parts.tree(offset, count)|
  }

  lemma {:induction false} JoinedLength(elements: seq<Element>, texts: seq<string>)
    requires |texts| == |elements| && forall i :: 0 <= i < |texts| ==> |texts[i]| == elements[i].bytes
    ensures |Joined(texts)| + 2 == ArrayBytes(elements)
  {
    if |texts| > 1 {
      JoinedLength(elements[1..], texts[1..]);
      SumBytesFromTheFront(elements);
    } else if |texts| == 1 {
      OneElementBytes(elements[0]);
      assert elements == [elements[0]];
    }
  }

  lemma {:induction false} SumBytesFromTheFront(elements: seq<Element>)
    requires elements != []
    ensures SumBytes(elements) == elements[0].bytes + SumBytes(elements[1..])
  {
    if |elements| > 1 {
      SumBytesFromTheFront(elements[..|elements| - 1]);
      assert elements[..|elements| - 1][1..] == elements[1..][..|elements| - 2];
    }
  }

  /** The bytes that decide how a page is cut are the bytes of the page that is answered. */
  lemma PageBytesMeasureTheText(total: nat, layout: PageLayout, parts: PageParts, offset: nat, window: seq<Element>,
                                count: nat, withTree: bool, texts: seq<string>)
    requires count <= |window| && Measures(layout, parts)
    requires |texts| == count && forall i :: 0 <= i < count ==> |texts[i]| == window[i].bytes
    ensures PageBytes(total, layout, offset, window, count, withTree) ==
              |PageText(total, parts, offset, texts, withTree)|
  {
    DecimalLength(offset);
    DecimalLength(total);
    DecimalLength(count);
    DecimalLength(offset + count);
    JoinedLength(window[..count], texts);
  }

  lemma {:induction false} DigitsMonotone(m: nat, n: nat)
    requires m <= n
    ensures Digits(m) <= Digits(n)
  {
    if m >= 10 {
      DigitsMonotone(m / 10, n / 10);
    }
  }

  lemma {:induction false} ArrayBytesMonotone(window: seq<Element>, m: nat, n: nat)
    requires m <= n <= |window|
    ensures ArrayBytes(window[..m]) <= ArrayBytes(window[..n])
    decreases n - m
  {
    if m < n {
      assert window[..m + 1][..m] == window[..m];
      ArrayBytesMonotone(window, m + 1, n);
    }
  }

  /** Among tree-less pages that are cut short, showing more elements never takes fewer bytes. */
  lemma CutPagesGrow(total: nat, layout: PageLayout, offset: nat, window: seq<Element>, m: nat, n: nat)
    requires m <= n <= |window| && offset + n < total
    ensures PageBytes(total, layout, offset, window, m, false) <= PageBytes(total, layout, offset, window, n, false)
  {
    DigitsMonotone(m, n);
    DigitsMonotone(offset + m, offset + n);
    ArrayBytesMonotone(window, m, n);
  }

  // ---- Inspect pages -----------------------------------------------------------

  /** The largest count in 1..bound whose tree-less page fits, found by trying each; 0 when none fits. */
  function LargestCut(total: nat, layout: PageLayout, offset: nat, window: seq<Element>, bound: nat): (count: nat)
    requires bound <= |window|
    ensures count <= bound
    ensures count > 0 ==> PageFits(total, layout, offset, window, count, false)
    ensures forall m :: count < m <= bound ==> !PageFits(total, layout, offset, window, m, false)
  {
    if bound == 0 || PageFits(total, layout, offset, window, bound, false) then bound
    else LargestCut(total, layout, offset, window, bound - 1)
  }

  datatype Plan = Plan(count: nat, withTree: bool)

  /** None is the BROWSER_RESULT_TOO_LARGE error. */
  function PlanPage(total: nat, layout: PageLayout, offset: nat, window: seq<Element>): Option<Plan> {
    var n := |window|;
    if PageFits(total, layout, offset, window, n, true) then Some(Plan(n, true))
    else if PageFits(total, layout, offset, window, n, false) then Some(Plan(n, false))
    else if n <= 1 then None
    else
      var count := LargestCut(total, layout, offset, window, n - 1);
      if count == 0 then None else Some(Plan(count, false))
  }

  /** A page is within the budget, never cut while the whole window would fit, and cut as little as possible. */
  lemma PlannedPageIsTheLargest(total: nat, layout: PageLayout, offset: nat, window: seq<Element>)
    ensures var plan := PlanPage(total, layout, offset, window);
            && (plan.Some? ==>
                  && plan.value.count <= |window|
                  && (window != [] ==> plan.value.count > 0)
                  && PageFits(total, layout, offset, window, plan.value.count, plan.value.withTree)
                  && (plan.value.withTree <==> PageFits(total, layout, offset, window, |window|, true))
                  && (forall m :: plan.value.count < m <= |window| ==>
                       !PageFits(total, layout, offset, window, m, false)))
            && (plan.None? <==>
                  && !PageFits(total, layout, offset, window, |window|, true)
                  && !PageFits(total, layout, offset, window, |window|, false)
                  && forall m :: 1 <= m <= |window| ==> !PageFits(total, layout, offset, window, m, false))
  {
    var n := |window|;
    if !PageFits(total, layout, offset, window, n, true)
       && !PageFits(total, layout, offset, window, n, false) && n > 1 {
      var count := LargestCut(total, layout, offset, window, n - 1);
      assert count > 0 ==> PageFits(total, layout, offset, window, count, false);
    }
  }

  // ---- Editable-target pages -----------------------------------------------------

  predicate EditablePageFits(window: seq<Element>, count: nat)
    requires count <= |window|
  {
    EDITABLE_ENVELOPE_BYTES + ArrayBytes(window[..count]) <= MAX_PAGE_BYTES
  }

  /** The measured text is that of an object with one field `targets`. */
  lemma EditableBytesMeasureTheText(window: seq<Element>, count: nat, texts: seq<string>)
    requires count <= |window|
    requires |texts| == count && forall i :: 0 <= i < count ==> |texts[i]| == window[i].bytes
    ensures EditablePageFits(window, count) <==> |"{\"targets\":[" + Joined(texts) + "]}"| <= 57_344
  {
    JoinedLength(window[..count], texts);
  }

  lemma OneTargetFits(window: seq<Element>, count: nat)
    requires count <= |window| && count <= 1
    ensures EditablePageFits(window, count)
  {
    if count == 1 {
      OneElementBytes(window[0]);
      assert window[..1] == [window[0]];
    }
  }

  lemma OneElementBytes(e: Element)
    ensures ArrayBytes([e]) == 2 + e.bytes
  {
    var one := [e];
    assert one[..|one| - 1] == [];
    assert SumBytes(one) == SumBytes(one[..|one| - 1]) + e.bytes;
  }

  /** Every page of editable targets is within the budget, and no longer prefix of its window is. */
  lemma {:induction false} EditablePageIsTheLargest(window: seq<Element>, count: nat)
    requires count <= |window|
    ensures count <= EditableCount(window, |window|) <==> EditablePageFits(window, count)
  {
    if count <= EditableCount(window, |window|) {
      ArrayBytesMonotone(window, count, EditableCount(window, |window|));
    }
  }

  /** The largest fitting prefix; a single target is shown unchecked, and always fits. */
  function EditableCount(window: seq<Element>, bound: nat): (count: nat)
    requires bound <= |window|
    ensures count <= bound
    ensures bound > 0 ==> count > 0
    ensures EditablePageFits(window, count)
    ensures forall m :: count < m <= bound ==> !EditablePageFits(window, m)
  {
    OneTargetFits(window, if bound <= 1 then bound else 1);
    if bound <= 1 || EditablePageFits(window, bound) then bound else EditableCount(window, bound - 1)
  }

  // ---- Following continuations -----------------------------------------------------

  /** A way to cut pages: how many elements the page at an offset shows for a requested limit. */
  type Cutter = (nat, nat) -> Option<nat>

  ghost predicate MakesProgress(cut: Cutter, total: nat) {
    forall offset: nat, limit: nat :: offset <= total && cut(offset, limit).Some? ==>
      && offset + cut(offset, limit).value <= total
      && (offset < total ==> cut(offset, limit).value > 0)
  }

  /** The pages shown from an offset on; the caller may ask for a different limit each time. */
  ghost function FollowPages<T>(items: seq<T>, cut: Cutter, offset: nat, limits: nat -> nat, step: nat)
    : Option<seq<seq<T>>>
    requires offset <= |items| && MakesProgress(cut, |items|)
    decreases |items| - offset
  {
    match cut(offset, limits(step))
    case None => None
    case Some(count) =>
      var page := items[offset..offset + count];
      if offset + count == |items| then
        Some([page])
      else
        match FollowPages(items, cut, offset + count, limits, step + 1)
        case None => None
        case Some(rest) => Some([page] + rest)
  }

  function Concat<T>(pages: seq<seq<T>>): seq<T> {
    if pages == [] then [] else pages[0] + Concat(pages[1..])
  }

  /** Whatever limits are asked for, the pages show every remaining item exactly once and in order. */
  lemma {:induction false} PagesPartitionTheItems<T>(items: seq<T>, cut: Cutter, offset: nat, limits: nat -> nat,
      step: nat)
    requires offset <= |items| && MakesProgress(cut, |items|)
    ensures var pages := FollowPages(items, cut, offset, limits, step);
            pages.Some? ==>
              && Concat(pages.value) == items[offset..]
              && (offset < |items| ==> forall page :: page in pages.value ==> page != [])
    decreases |items| - offset
  {
    match cut(offset, limits(step))
    case None =>
    case Some(count) =>
      var page := items[offset..offset + count];
      if offset + count < |items| {
        PagesPartitionTheItems(items, cut, offset + count, limits, step + 1);
        var rest := FollowPages(items, cut, offset + count, limits, step + 1);
        if rest.Some? {
          assert ([page] + rest.value)[1..] == rest.value;
        }
      } else {
        assert Concat([page]) == page + Concat([]);
      }
  }

  function InspectCutter(elements: seq<Element>, layout: PageLayout): Cutter {
    (offset: nat, limit: nat) =>
      match PlanPage(|elements|, layout, offset, Window(elements, offset, ClampLimit(limit)))
      case None => None
      case Some(plan) => Some(plan.count)
  }

  function EditableCutter(elements: seq<Element>): Cutter {
    (offset: nat, limit: nat) =>
      var window := Window(elements, offset, ClampLimit(limit));
      Some(EditableCount(window, |window|))
  }

  function ClampLimit(limit: int): nat {
    Max(1, Min(MAX_PAGE_SIZE, limit))
  }

  lemma InspectPagesMakeProgress(elements: seq<Element>, layout: PageLayout)
    ensures MakesProgress(InspectCutter(elements, layout), |elements|)
  {
    var cut := InspectCutter(elements, layout);
    forall offset: nat, limit: nat | offset <= |elements| && cut(offset, limit).Some?
      ensures offset + cut(offset, limit).value <= |elements|
      ensures offset < |elements| ==> cut(offset, limit).value > 0
    {
      PlannedPageIsTheLargest(|elements|, layout, offset, Window(elements, offset, ClampLimit(limit)));
    }
  }

  /** Following `inspect` continuations partitions the snapshot unless some page cannot fit at all. */
  lemma InspectContinuationsPartition(elements: seq<Element>, layout: PageLayout, limits: nat -> nat)
    ensures MakesProgress(InspectCutter(elements, layout), |elements|)
    ensures var pages := FollowPages(elements, InspectCutter(elements, layout), 0, limits, 0);
            pages.Some? ==> Concat(pages.value) == elements
  {
    InspectPagesMakeProgress(elements, layout);
    PagesPartitionTheItems(elements, InspectCutter(elements, layout), 0, limits, 0);
    assert elements[0..] == elements;
  }

  ghost predicate FitsAlone(elements: seq<Element>, layout: PageLayout, i: nat)
    requires i < |elements|
  {
    PageFits(|elements|, layout, i, elements[i..i + 1], 1, false)
  }

  lemma CutterServesWhenElementFitsAlone(elements: seq<Element>, layout: PageLayout, offset: nat, limit: nat)
    requires offset < |elements| && FitsAlone(elements, layout, offset)
    ensures InspectCutter(elements, layout)(offset, limit).Some?
  {
    var window := Window(elements, offset, ClampLimit(limit));
    assert |window| >= 1 && window == elements[offset..offset + |window|];
    assert window[..1] == elements[offset..offset + 1] && elements[offset..offset + 1][..1] ==
        elements[offset..offset + 1];
    assert PageFits(|elements|, layout, offset, window, 1, false);
    PlannedPageIsTheLargest(|elements|, layout, offset, window);
  }

  /** Whoever is always served gets to the end. */
  lemma {:induction false} ServedToTheEnd<T>(items: seq<T>, cut: Cutter, offset: nat, limits: nat -> nat, step: nat)
    requires offset <= |items| && MakesProgress(cut, |items|)
    requires forall o: nat, limit: nat :: offset <= o < |items| || o == offset ==> cut(o, limit).Some?
    ensures FollowPages(items, cut, offset, limits, step).Some?
    decreases |items| - offset
  {
    var count := cut(offset, limits(step)).value;
    if offset + count < |items| {
      ServedToTheEnd(items, cut, offset + count, limits, step + 1);
    }
  }

  /** Paging cannot fail when every element fits on a page of its own. */
  lemma InspectPagesNeverFail(elements: seq<Element>, layout: PageLayout, offset: nat, limits: nat -> nat, step: nat)
    requires offset < |elements|
    requires forall i :: 0 <= i < |elements| ==> FitsAlone(elements, layout, i)
    ensures MakesProgress(InspectCutter(elements, layout), |elements|)
    ensures FollowPages(elements, InspectCutter(elements, layout), offset, limits, step).Some?
  {
    InspectPagesMakeProgress(elements, layout);
    forall o: nat, limit: nat | offset <= o < |elements| ensures InspectCutter(elements, layout)(o, limit).Some? {
      CutterServesWhenElementFitsAlone(elements, layout, o, limit);
    }
    ServedToTheEnd(elements, InspectCutter(elements, layout), offset, limits, step);
  }

  /** What a page needs besides its elements. */
  predicate FixedFieldsFit(total: nat, layout: PageLayout) {
    layout.fixedBytes + layout.omittedTreeBytes + layout.continuationBytes + 4 * Digits(total) + 8
        + Exposed.MAX_EXPOSED_BYTES
    <= MAX_PAGE_BYTES
  }

  lemma FixedFieldsLetEachFit(elements: seq<Element>, layout: PageLayout, i: nat)
    requires i < |elements| && FixedFieldsFit(|elements|, layout)
    ensures FitsAlone(elements, layout, i)
  {
    DigitsMonotone(i, |elements|);
    DigitsMonotone(i + 1, |elements|);
    OneElementBytes(elements[i]);
    assert elements[i..i + 1][..1] == [elements[i]];
  }

  /** Since exposed elements are small, paging can fail only for the other fields of the page. */
  lemma FixedFieldsDecide(elements: seq<Element>, layout: PageLayout, limits: nat -> nat)
    requires elements != [] && FixedFieldsFit(|elements|, layout)
    ensures MakesProgress(InspectCutter(elements, layout), |elements|)
    ensures FollowPages(elements, InspectCutter(elements, layout), 0, limits, 0).Some?
  {
    forall i | 0 <= i < |elements| ensures FitsAlone(elements, layout, i) {
      FixedFieldsLetEachFit(elements, layout, i);
    }
    InspectPagesNeverFail(elements, layout, 0, limits, 0);
  }

  /** The editable pages never fail: they always partition the editable targets. */
  lemma EditableContinuationsPartition(elements: seq<Element>, limits: nat -> nat)
    ensures MakesProgress(EditableCutter(elements), |elements|)
    ensures var pages := FollowPages(elements, EditableCutter(elements), 0, limits, 0);
            pages.Some? && Concat(pages.value) == elements
  {
    EditablePagesNeverFail(elements, 0, limits, 0);
    PagesPartitionTheItems(elements, EditableCutter(elements), 0, limits, 0);
    assert elements[0..] == elements;
  }

  lemma EditablePagesMakeProgress(elements: seq<Element>)
    ensures MakesProgress(EditableCutter(elements), |elements|)
    ensures forall offset: nat, limit: nat :: offset <= |elements| ==> EditableCutter(elements)(offset, limit).Some?
  {
  }

  lemma EditablePagesNeverFail(elements: seq<Element>, offset: nat, limits: nat -> nat, step: nat)
    requires offset <= |elements|
    ensures MakesProgress(EditableCutter(elements), |elements|)
    ensures FollowPages(elements, EditableCutter(elements), offset, limits, step).Some?
  {
    EditablePagesMakeProgress(elements);
    ServedToTheEnd(elements, EditableCutter(elements), offset, limits, step);
  }
}
