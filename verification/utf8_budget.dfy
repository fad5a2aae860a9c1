// Cutting UTF-16 text to a UTF-8 byte budget from either end
// (packages/agent-extension/src/tool-output-budget.ts). Octet counts follow
// section 3 of RFC 3629, surrogate pairs section 2 of RFC 2781; a surrogate
// without its partner is encoded as U+FFFD.

module Utf8Budget {
  type CodeUnit = u: int | 0 <= u < 0x1_0000

  type Text = seq<CodeUnit>

  const REPLACEMENT: int := 0xFFFD
  const ELLIPSIS: Text := [0x2026]

  predicate High(u: CodeUnit) { 0xD800 <= u <= 0xDBFF }

  predicate Low(u: CodeUnit) { 0xDC00 <= u <= 0xDFFF }

  predicate PairAt(text: Text, p: nat) {
    p + 1 < |text| && High(text[p]) && Low(text[p + 1])
  }

  /** Code units taken by the code point at the front. */
  function FrontWidth(text: Text): (width: nat)
    requires text != []
    ensures 1 <= width <= |text|
  {
    if PairAt(text, 0) then 2 else 1
  }

  function FrontScalar(text: Text): (scalar: int)
    requires text != []
    ensures 0 <= scalar < 0x11_0000
  {
    if PairAt(text, 0) then 0x1_0000 + (text[0] - 0xD800) * 0x400 + (text[1] - 0xDC00)
    else if High(text[0]) || Low(text[0]) then REPLACEMENT
    else text[0]
  }

  function OctetCount(scalar: int): (octets: nat)
    requires 0 <= scalar < 0x11_0000
    ensures 1 <= octets <= 4
  {
    if scalar < 0x80 then 1 else if scalar < 0x800 then 2 else if scalar < 0x1_0000 then 3 else 4
  }

  /** `Buffer.byteLength(text)` */
  function Utf8Length(text: Text): nat {
    if text == [] then 0 else OctetCount(FrontScalar(text)) + Utf8Length(text[FrontWidth(text)..])
  }

  /** Not between the two halves of a pair. */
  predicate Boundary(text: Text, p: nat) {
    p <= |text| && !(0 < p && PairAt(text, p - 1))
  }

  // ---- The two ways of walking over a text ------------------------------------------

  /** Where the code point that starts at `p` ends, as the forward iteration steps. */
  function After(text: Text, p: nat): (q: nat)
    requires p < |text|
    ensures p < q <= |text|
  {
    if PairAt(text, p) then p + 2 else p + 1
  }

  /** Where the code point that ends at `q` starts, as the backward scan steps. */
  function Before(text: Text, q: nat): (p: nat)
    requires 0 < q <= |text|
    ensures p < q
  {
    if q >= 2 && PairAt(text, q - 2) then q - 2 else q - 1
  }

  /** From a boundary the two steps lead to boundaries and undo each other. */
  lemma StepsAreInverse(text: Text, p: nat, q: nat)
    requires p < q <= |text|
    requires Boundary(text, p) && Boundary(text, q)
    ensures After(text, p) == q <==> Before(text, q) == p
    ensures Boundary(text, After(text, p)) && Boundary(text, Before(text, q))
    ensures After(text, p) <= q && p <= Before(text, q)
  {
  }

  /** All cuts of the forward iteration, from `p` on. */
  function ForwardCuts(text: Text, p: nat): set<nat>
    requires p <= |text|
    decreases |text| - p
  {
    if p == |text| then {p} else {p} + ForwardCuts(text, After(text, p))
  }

  /** All cuts of the backward scan, down from `q`. */
  function BackwardCuts(text: Text, q: nat): set<nat>
    requires q <= |text|
  {
    if q == 0 then {q} else {q} + BackwardCuts(text, Before(text, q))
  }

  lemma {:induction false} ForwardCutsAreTheBoundaries(text: Text, p: nat)
    requires Boundary(text, p)
    ensures forall c: nat :: c in ForwardCuts(text, p) <==> p <= c && Boundary(text, c)
    decreases |text| - p
  {
    if p < |text| {
      ForwardCutsAreTheBoundaries(text, After(text, p));
    }
  }

  lemma {:induction false} BackwardCutsAreTheBoundaries(text: Text, q: nat)
    requires Boundary(text, q)
    ensures forall c: nat :: c in BackwardCuts(text, q) <==> c <= q && Boundary(text, c)
  {
    if q > 0 {
      BackwardCutsAreTheBoundaries(text, Before(text, q));
    }
  }

  /** Whatever the text, lone surrogates included, both directions cut it into the same code points. */
  lemma BothDirectionsCutAlike(text: Text)
    ensures ForwardCuts(text, 0) == BackwardCuts(text, |text|)
  {
    ForwardCutsAreTheBoundaries(text, 0);
    BackwardCutsAreTheBoundaries(text, |text|);
  }

  // ---- Lengths of parts ----------------------------------------------------------------

  /** Joining two texts costs what they cost apart, but for a pair that forms at the seam. */
  lemma {:induction false} LengthOfJoin(a: Text, b: Text)
    ensures Utf8Length(a + b) == Utf8Length(a) + Utf8Length(b)
      - (if a != [] && b != [] && High(a[|a| - 1]) && Low(b[0]) then 2 else 0)
  {
    var all := a + b;
    if a == [] {
      assert all == b;
    } else if |a| == 1 && b != [] && High(a[0]) && Low(b[0]) {
      assert all[2..] == b[1..] && b[FrontWidth(b)..] == b[1..] && a[1..] == [];
    } else {
      var w := FrontWidth(a);
      assert PairAt(all, 0) == PairAt(a, 0);
      assert all[w..] == a[w..] + b;
      LengthOfJoin(a[w..], b);
      assert a[w..] != [] ==> a[w..][|a[w..]| - 1] == a[|a| - 1];
    }
  }

  /** A cut at a boundary divides the length. */
  lemma LengthOfCut(text: Text, p: nat)
    requires Boundary(text, p)
    ensures Utf8Length(text) == Utf8Length(text[..p]) + Utf8Length(text[p..])
  {
    assert text == text[..p] + text[p..];
    LengthOfJoin(text[..p], text[p..]);
  }

  function CodePointLength(text: Text, p: nat): nat
    requires p < |text|
  {
    Utf8Length(text[p..After(text, p)])
  }

  lemma CodePointsHaveLength(text: Text, p: nat)
    requires p < |text|
    ensures 1 <= CodePointLength(text, p) <= 4
  {
    var point := text[p..After(text, p)];
    assert PairAt(point, 0) == PairAt(text, p);
    assert point[|point|..] == [];
    assert Utf8Length(point) == OctetCount(FrontScalar(point)) + Utf8Length(point[|point|..]);
  }

  /** One more code point at the end of a prefix. */
  lemma PrefixGrows(text: Text, p: nat)
    requires p < |text| && Boundary(text, p)
    ensures Utf8Length(text[..After(text, p)]) == Utf8Length(text[..p]) + CodePointLength(text, p)
  {
    var q := After(text, p);
    assert text[..q] == text[..p] + text[p..q];
    LengthOfJoin(text[..p], text[p..q]);
  }

  lemma SuffixGrows(text: Text, p: nat)
    requires p < |text| && Boundary(text, p)
    ensures Utf8Length(text[p..]) == CodePointLength(text, p) + Utf8Length(text[After(text, p)..])
  {
    var q := After(text, p);
    assert text[p..] == text[p..q] + text[q..];
    LengthOfJoin(text[p..q], text[q..]);
  }

  /** Longer aligned prefixes take strictly more bytes. */
  lemma {:induction false} PrefixesGrow(text: Text, p: nat, q: nat)
    requires p < q && Boundary(text, p) && Boundary(text, q)
    ensures Utf8Length(text[..p]) < Utf8Length(text[..q])
    ensures Utf8Length(text[q..]) < Utf8Length(text[p..])
    decreases q - p
  {
    var next := After(text, p);
    StepsAreInverse(text, p, q);
    PrefixGrows(text, p);
    SuffixGrows(text, p);
    CodePointsHaveLength(text, p);
    if next < q {
      PrefixesGrow(text, next, q);
    }
  }

  /**
   * What one code unit adds: one octet below U+0080, two below U+0800 and for each half of a pair, three for all
   * others, lone surrogates included.
   */
  function UnitLength(text: Text, i: nat): nat
    requires i < |text|
  {
    if text[i] < 0x80 then 1
    else if text[i] < 0x800 then 2
    else if 0xD800 <= text[i] < 0xDC00 && i + 1 < |text| && 0xDC00 <= text[i + 1] < 0xE000 then 2
    else if 0xDC00 <= text[i] < 0xE000 && i > 0 && 0xD800 <= text[i - 1] < 0xDC00 then 2
    else 3
  }

  function UnitLengths(text: Text, from: nat): nat
    requires from <= |text|
    decreases |text| - from
  {
    if from == |text| then 0 else UnitLength(text, from) + UnitLengths(text, from + 1)
  }

  /** The byte length can be read off the code units one by one. */
  lemma {:induction false} LengthIsTheSumOfTheUnits(text: Text, p: nat)
    requires Boundary(text, p)
    ensures Utf8Length(text[p..]) == UnitLengths(text, p)
    decreases |text| - p
  {
    if p < |text| {
      var q := After(text, p);
      LengthIsTheSumOfTheUnits(text, q);
      assert text[p..][q - p..] == text[q..];
      assert PairAt(text[p..], 0) == PairAt(text, p);
      assert PairAt(text, p) ==> UnitLengths(text, p + 1) == UnitLength(text, p + 1) + UnitLengths(text, q);
    }
  }

  // ---- The cuts ------------------------------------------------------------------------

  /** The longest prefix that ends at a boundary and fits. */
  ghost predicate LongestPrefix(text: Text, budget: nat, p: nat) {
    && Boundary(text, p) && Utf8Length(text[..p]) <= budget
    && forall q: nat :: p < q && Boundary(text, q) ==> Utf8Length(text[..q]) > budget
  }

  ghost predicate LongestSuffix(text: Text, budget: nat, p: nat) {
    && Boundary(text, p) && Utf8Length(text[p..]) <= budget
    && forall q: nat :: q < p && Boundary(text, q) ==> Utf8Length(text[q..]) > budget
  }

  lemma PrefixStopsHere(text: Text, budget: nat, p: nat)
    requires Boundary(text, p) && Utf8Length(text[..p]) <= budget
    requires p < |text| ==> Utf8Length(text[..After(text, p)]) > budget
    ensures LongestPrefix(text, budget, p)
  {
    forall q: nat | p < q && Boundary(text, q) ensures Utf8Length(text[..q]) > budget {
      StepsAreInverse(text, p, q);
      if After(text, p) < q {
        PrefixesGrow(text, After(text, p), q);
      }
    }
  }

  lemma SuffixStopsHere(text: Text, budget: nat, p: nat)
    requires Boundary(text, p) && Utf8Length(text[p..]) <= budget
    requires p > 0 ==> Utf8Length(text[Before(text, p)..]) > budget
    ensures LongestSuffix(text, budget, p)
  {
    forall q: nat | q < p && Boundary(text, q) ensures Utf8Length(text[q..]) > budget {
      StepsAreInverse(text, q, p);
      if q < Before(text, p) {
        PrefixesGrow(text, q, Before(text, p));
      }
    }
  }

  method TakeUtf8Start(text: Text, budget: nat) returns (result: Text)
    ensures result <= text && LongestPrefix(text, budget, |result|)
  {
    var used: nat, p: nat := 0, 0;
    result := [];
    while p < |text|
      invariant Boundary(text, p) && result == text[..p]
      invariant used == Utf8Length(text[..p]) <= budget
      decreases |text| - p
    {
      var next := After(text, p);
      var bytes := Utf8Length(text[p..next]);
      PrefixGrows(text, p);
      if used + bytes > budget {
        break;
      }
      result, used, p := result + text[p..next], used + bytes, next;
    }
    PrefixStopsHere(text, budget, p);
  }

  method TakeUtf8End(text: Text, budget: nat) returns (result: Text)
    ensures |result| <= |text| && result == text[|text| - |result|..]
    ensures LongestSuffix(text, budget, |text| - |result|)
  {
    var used: nat, start: nat, cursor: nat := 0, |text|, |text|;
    while cursor > 0
      invariant cursor == start <= |text| && Boundary(text, start)
      invariant used == Utf8Length(text[start..]) <= budget
    {
      var end := cursor;
      cursor := cursor - 1;
      if Low(text[cursor]) && cursor > 0 && High(text[cursor - 1]) {
        cursor := cursor - 1;
      }
      assert cursor == Before(text, end);
      StepsAreInverse(text, cursor, end);
      SuffixGrows(text, cursor);
      var bytes := Utf8Length(text[cursor..end]);
      if used + bytes > budget {
        break;
      }
      start, used := cursor, used + bytes;
    }
    SuffixStopsHere(text, budget, start);
    result := text[start..];
  }

  // ---- Head and tail ----------------------------------------------------------------------

  /** The code point at `p` fits into the head together with all before it, and into the tail with all after it. */
  ghost predicate WantedTwice(text: Text, headBudget: nat, tailBudget: nat, p: nat) {
    && p < |text| && Boundary(text, p)
    && Utf8Length(text[..After(text, p)]) <= headBudget
    && Utf8Length(text[p..]) <= tailBudget
  }

  lemma OverlapIsWantedTwice(text: Text, headBudget: nat, tailBudget: nat, head: nat, tail: nat)
    requires LongestPrefix(text, headBudget, head) && LongestSuffix(text, tailBudget, tail)
    requires tail < head
    ensures WantedTwice(text, headBudget, tailBudget, tail)
  {
    StepsAreInverse(text, tail, head);
    if After(text, tail) < head {
      PrefixesGrow(text, After(text, tail), head);
    }
  }

  lemma WantedTwiceIsOverlap(text: Text, headBudget: nat, tailBudget: nat, head: nat, tail: nat, p: nat)
    requires LongestPrefix(text, headBudget, head) && LongestSuffix(text, tailBudget, tail)
    requires WantedTwice(text, headBudget, tailBudget, p)
    ensures tail <= p < head
  {
    StepsAreInverse(text, p, After(text, p));
  }

  /** Head and tail overlap exactly when both budgets reach over the same code point. */
  lemma HeadAndTailOverlapExactlyWhen(text: Text, headBudget: nat, tailBudget: nat, head: nat, tail: nat)
    requires LongestPrefix(text, headBudget, head) && LongestSuffix(text, tailBudget, tail)
    ensures tail < head <==> exists p: nat :: WantedTwice(text, headBudget, tailBudget, p)
  {
    if tail < head {
      OverlapIsWantedTwice(text, headBudget, tailBudget, head, tail);
    }
    if p: nat :| WantedTwice(text, headBudget, tailBudget, p) {
      WantedTwiceIsOverlap(text, headBudget, tailBudget, head, tail, p);
    }
  }

  /** In particular never when the text takes at least as many bytes as both budgets together. */
  lemma LongTextsAreNotRepeated(text: Text, headBudget: nat, tailBudget: nat, head: nat, tail: nat)
    requires LongestPrefix(text, headBudget, head) && LongestSuffix(text, tailBudget, tail)
    requires Utf8Length(text) >= headBudget + tailBudget
    ensures head <= tail
    ensures text == text[..head] + text[head..tail] + text[tail..]
  {
    if tail < head {
      OverlapIsWantedTwice(text, headBudget, tailBudget, head, tail);
      NeverWantedTwice(text, headBudget, tailBudget, tail);
    }
    ThreeParts(text, head, tail);
  }

  lemma ThreeParts(text: Text, head: nat, tail: nat)
    requires head <= tail <= |text|
    ensures text == text[..head] + text[head..tail] + text[tail..]
  {
  }

  lemma NeverWantedTwice(text: Text, headBudget: nat, tailBudget: nat, p: nat)
    requires Utf8Length(text) >= headBudget + tailBudget
    ensures !WantedTwice(text, headBudget, tailBudget, p)
  {
    if p < |text| && Boundary(text, p) {
      PrefixGrows(text, p);
      CodePointsHaveLength(text, p);
      LengthOfCut(text, p);
    }
  }

  lemma JoiningNeverAdds(a: Text, b: Text, c: Text)
    ensures Utf8Length(a + b + c) <= Utf8Length(a) + Utf8Length(b) + Utf8Length(c)
  {
    LengthOfJoin(a, b);
    LengthOfJoin(a + b, c);
  }

  /** `preview` is the longest head, the notice and the longest tail, split half and half. */
  ghost predicate IsPreview(text: Text, budget: nat, notice: Text, head: nat, tail: nat, preview: Text) {
    && LongestPrefix(text, (budget + 1) / 2, head) && LongestSuffix(text, budget / 2, tail)
    && preview == text[..head] + notice + text[tail..]
  }

  lemma PreviewsFit(text: Text, budget: nat, notice: Text, head: nat, tail: nat, preview: Text)
    requires IsPreview(text, budget, notice, head, tail, preview)
    ensures Utf8Length(preview) <= budget + Utf8Length(notice)
    ensures Utf8Length(text) >= budget ==> head <= tail && text == text[..head] + text[head..tail] + text[tail..]
  {
    JoiningNeverAdds(text[..head], notice, text[tail..]);
    if Utf8Length(text) >= budget {
      LongTextsAreNotRepeated(text, (budget + 1) / 2, budget / 2, head, tail);
    }
  }

  // ---- The guard of the caller ---------------------------------------------------------

  /** The text is over the limit, and the preview shows its part from `tail` to `head` twice. */
  ghost predicate ShownTwice(limit: nat, budget: nat, notice: Text, text: Text, head: nat, tail: nat) {
    && Utf8Length(text) > limit
    && tail < head <= |text|
    && IsPreview(text, budget, notice, head, tail, text[..head] + notice + text[tail..])
  }

  ghost predicate SomethingIsRepeated(limit: nat, budget: nat, notice: Text) {
    exists text: Text, head: nat, tail: nat :: ShownTwice(limit, budget, notice, text, head, tail)
  }

  function Ascii(n: nat): (text: Text)
    ensures |text| == n && forall i :: 0 <= i < n ==> text[i] == 0x61
  {
    seq(n, i requires 0 <= i < n => 0x61)
  }

  lemma {:induction false} AsciiLength(text: Text)
    requires forall i :: 0 <= i < |text| ==> text[i] == 0x61
    ensures Utf8Length(text) == |text|
  {
    if text != [] {
      AsciiLength(text[1..]);
    }
  }

  lemma AsciiCuts(n: nat, budget: nat)
    ensures LongestPrefix(Ascii(n), budget, if budget < n then budget else n)
    ensures LongestSuffix(Ascii(n), budget, if budget < n then n - budget else 0)
  {
    AsciiPrefix(n, budget);
    AsciiSuffix(n, budget);
  }

  lemma AsciiPrefix(n: nat, budget: nat)
    ensures LongestPrefix(Ascii(n), budget, if budget < n then budget else n)
  {
    var text, p := Ascii(n), if budget < n then budget else n;
    AsciiLength(text[..p]);
    if p < n {
      AsciiLength(text[..p + 1]);
    }
    PrefixStopsHere(text, budget, p);
  }

  lemma AsciiSuffix(n: nat, budget: nat)
    ensures LongestSuffix(Ascii(n), budget, if budget < n then n - budget else 0)
  {
    var text, q := Ascii(n), if budget < n then n - budget else 0;
    AsciiLength(text[q..]);
    if q > 0 {
      AsciiLength(text[q - 1..]);
    }
    SuffixStopsHere(text, budget, q);
  }

  /** Letters of the length just over the limit are shown twice by any larger budget. */
  lemma LettersShownTwice(limit: nat, budget: nat, notice: Text)
    requires limit > 0 && budget > limit + 1
    ensures SomethingIsRepeated(limit, budget, notice)
  {
    var n, h, t := limit + 1, (budget + 1) / 2, budget / 2;
    AsciiLength(Ascii(n));
    AsciiCuts(n, h);
    AsciiCuts(n, t);
    assert ShownTwice(limit, budget, notice, Ascii(n), if h < n then h else n, if t < n then n - t else 0);
  }

  /** `aa` with an inline limit of one byte and a preview budget of four: both letters are shown twice. */
  lemma TwoLettersShownTwice(notice: Text)
    ensures ShownTwice(1, 4, notice, Ascii(2), 2, 0)
  {
    AsciiLength(Ascii(2));
    AsciiCuts(2, 2);
  }

  /**
   * A preview is made only of texts over the inline limit. None of them is shown with an overlap exactly
   * when the preview budget exceeds the limit by at most one; staying within the limit is enough.
   */
  lemma PreviewsRepeatExactlyWhen(limit: nat, budget: nat, notice: Text)
    requires limit > 0
    ensures SomethingIsRepeated(limit, budget, notice) <==> budget > limit + 1
  {
    if budget > limit + 1 {
      LettersShownTwice(limit, budget, notice);
    } else if text: Text, head: nat, tail: nat :| ShownTwice(limit, budget, notice, text, head, tail) {
      PreviewsFit(text, budget, notice, head, tail, text[..head] + notice + text[tail..]);
    }
  }

  method HeadTailPreview(text: Text, budget: nat, notice: Text) returns (preview: Text)
    ensures exists head: nat, tail: nat ::
              && LongestPrefix(text, (budget + 1) / 2, head) && LongestSuffix(text, budget / 2, tail)
              && preview == text[..head] + notice + text[tail..]
  {
    var start := TakeUtf8Start(text, (budget + 1) / 2);
    var end := TakeUtf8End(text, budget / 2);
    preview := start + notice + end;
    assert IsPreview(text, budget, notice, |start|, |text| - |end|, preview);
  }

  /** Unchanged exactly when it fits; otherwise the longest aligned prefix that leaves room for the ellipsis. */
  method TruncateUtf8(value: Text, maxBytes: nat) returns (result: Text)
    ensures Utf8Length(result) <= maxBytes
    ensures result == value <==> Utf8Length(value) <= maxBytes
    ensures Utf8Length(value) > maxBytes && maxBytes <= 3 ==> result == []
    ensures Utf8Length(value) > maxBytes && maxBytes > 3 ==>
      exists p: nat :: LongestPrefix(value, maxBytes - 3, p) && result == value[..p] + [0x2026]
  {
    if Utf8Length(value) <= maxBytes {
      return value;
    }
    assert ELLIPSIS[1..] == [];
    if maxBytes <= Utf8Length(ELLIPSIS) {
      return [];
    }
    var start := TakeUtf8Start(value, maxBytes - Utf8Length(ELLIPSIS));
    result := start + ELLIPSIS;
    LengthOfJoin(start, ELLIPSIS);
    assert start == value[..|start|];
  }
}
