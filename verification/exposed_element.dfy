// What a caller sees of a page element, and how many bytes it can take as JSON
// (packages/browser-core/src/browser-snapshot-helpers.ts).

module ExposedElement {
  import opened Options
  import opened Utf8Budget

  const MAX_TAG: nat := 80
  const MAX_ROLE: nat := 120
  const MAX_TYPE: nat := 120
  const MAX_SELECTOR: nat := 500
  const MAX_TEXT: nat := 300
  const MAX_ATTRIBUTES: nat := 20
  const MAX_ATTRIBUTE_KEY: nat := 120
  const MAX_ATTRIBUTE_VALUE: nat := 300

  /** No exposed element takes more, see ExposedElementsAreSmall. */
  const MAX_EXPOSED_BYTES: nat := 47_000

  /** The attributes the page scanner collects, in its order. */
  const ATTRIBUTE_NAMES: seq<string> := [
    "id", "class", "data-testid", "data-action", "href", "src", "placeholder", "value", "aria-label", "aria-expanded",
    "aria-selected", "aria-checked", "aria-pressed", "type", "target", "name", "role", "contenteditable", "tabindex",
    "draggable"]
  const MAX_NAME: nat := 15

  // ---- JSON ------------------------------------------------------------------------

  /** A number as JSON prints it. */
  type NumberText = t: string | |t| <= 25 witness ""

  datatype Json = Str(text: Text) | Num(literal: NumberText) | Bool(b: bool) | Obj(fields: seq<Field>)

  /** Field names are ASCII without characters that JSON escapes. */
  datatype Field = Field(name: string, value: Json)

  /** Bytes of the code point at the front inside a JSON string; a surrogate without partner is escaped. */
  function FrontJsonBytes(text: Text): (bytes: nat)
    requires text != []
    ensures 1 <= bytes <= 6 * FrontWidth(text)
  {
    if PairAt(text, 0) then 4
    else
      var u := text[0];
      if u == 0x22 || u == 0x5C || u in {0x08, 0x09, 0x0A, 0x0C, 0x0D} then 2
      else if u < 0x20 || High(u) || Low(u) then 6
      else OctetCount(u)
  }

  function TextBytes(text: Text): nat {
    if text == [] then 0 else FrontJsonBytes(text) + TextBytes(text[FrontWidth(text)..])
  }

  function JsonBytes(j: Json): nat
    decreases j
  {
    match j
    case Str(text) => 2 + TextBytes(text)
    case Num(literal) => |literal|
    case Bool(b) => if b then 4 else 5
    case Obj(fields) => 2 + FieldsBytes(fields) + (if fields == [] then 0 else |fields| - 1)
  }

  function FieldsBytes(fields: seq<Field>): nat
    decreases fields
  {
    if fields == [] then 0
    else
      var last := fields[|fields| - 1];
      FieldsBytes(fields[..|fields| - 1]) + 3 + |last.name| + JsonBytes(last.value)
  }

  lemma {:induction false} TextBytesAtMostSixPerUnit(text: Text)
    ensures TextBytes(text) <= 6 * |text|
  {
    if text != [] {
      TextBytesAtMostSixPerUnit(text[FrontWidth(text)..]);
    }
  }

  lemma {:induction false} FieldsConcat(a: seq<Field>, b: seq<Field>)
    ensures FieldsBytes(a + b) == FieldsBytes(a) + FieldsBytes(b)
  {
    if b == [] {
      assert a + b == a;
    } else {
      FieldsConcat(a, b[..|b| - 1]);
      assert (a + b)[..|a + b| - 1] == a + b[..|b| - 1];
    }
  }

  // ---- JSON as text --------------------------------------------------------------------

  function Ascii(s: string): (text: Text)
    ensures |text| == |s|
  {
    seq(|s|, i requires 0 <= i < |s| => if s[i] < 128 as char then s[i] as int else 0)
  }

  function Hex(n: nat): CodeUnit
    requires n < 16
  {
    if n < 10 then 0x30 + n else 0x61 + n - 10
  }

  /** The code point at the front as JSON.stringify writes it inside a string. */
  function FrontPrinted(text: Text): Text
    requires text != []
  {
    var u := text[0];
    if u == 0x22 then Ascii("\\\"")
    else if u == 0x5C then Ascii("\\\\")
    else if u == 0x08 then Ascii("\\b")
    else if u == 0x09 then Ascii("\\t")
    else if u == 0x0A then Ascii("\\n")
    else if u == 0x0C then Ascii("\\f")
    else if u == 0x0D then Ascii("\\r")
    else if u < 0x20 || (0xD800 <= u < 0xE000 && FrontWidth(text) == 1) then
      Ascii("\\u") + [Hex(u / 0x1000), Hex(u / 0x100 % 0x10), Hex(u / 0x10 % 0x10), Hex(u % 0x10)]
    else text[..FrontWidth(text)]
  }

  function Printed(text: Text): Text {
    if text == [] then [] else FrontPrinted(text) + Printed(text[FrontWidth(text)..])
  }

  /** JSON.stringify */
  function Print(j: Json): Text
    decreases j
  {
    match j
    case Str(text) => Ascii("\"") + Printed(text) + Ascii("\"")
    case Num(literal) => Ascii(literal)
    case Bool(b) => if b then Ascii("true") else Ascii("false")
    case Obj(fields) => Ascii("{") + PrintFields(fields) + Ascii("}")
  }

  function PrintFields(fields: seq<Field>): Text
    decreases fields
  {
    if fields == [] then []
    else
      var last := fields[|fields| - 1];
      PrintFields(fields[..|fields| - 1]) + Ascii(if |fields| == 1 then "" else ",")
      + Ascii("\"") + Ascii(last.name) + Ascii("\":") + Print(last.value)
  }

  /** A text after which no pair can form. */
  predicate Sealed(text: Text) {
    text == [] || !High(text[|text| - 1])
  }

  lemma SealedJoin(a: Text, b: Text)
    requires Sealed(a)
    ensures Utf8Length(a + b) == Utf8Length(a) + Utf8Length(b)
    ensures Sealed(b) ==> Sealed(a + b)
  {
    LengthOfJoin(a, b);
  }

  lemma {:induction false} PlainLength(text: Text)
    requires forall i :: 0 <= i < |text| ==> text[i] < 0x80
    ensures Utf8Length(text) == |text| && Sealed(text)
  {
    if text != [] {
      PlainLength(text[1..]);
    }
  }

  lemma AsciiLength(s: string)
    ensures Utf8Length(Ascii(s)) == |s| && Sealed(Ascii(s))
  {
    PlainLength(Ascii(s));
  }

  lemma FrontPrintedLength(text: Text)
    requires text != []
    ensures Utf8Length(FrontPrinted(text)) == FrontJsonBytes(text) && Sealed(FrontPrinted(text))
  {
    var front, w := FrontPrinted(text), FrontWidth(text);
    if front == text[..w] {
      assert PairAt(front, 0) == PairAt(text, 0) && front[FrontWidth(front)..] == [];
      assert Utf8Length(front) == OctetCount(FrontScalar(front)) + Utf8Length(front[FrontWidth(front)..]);
    } else {
      PlainLength(front);
    }
  }

  lemma {:induction false} PrintedLength(text: Text)
    ensures Utf8Length(Printed(text)) == TextBytes(text) && Sealed(Printed(text))
  {
    if text != [] {
      FrontPrintedLength(text);
      PrintedLength(text[FrontWidth(text)..]);
      SealedJoin(FrontPrinted(text), Printed(text[FrontWidth(text)..]));
    }
  }

  lemma Quoted(text: Text)
    requires Sealed(text)
    ensures Utf8Length(Ascii("\"") + text + Ascii("\"")) == 2 + Utf8Length(text)
    ensures Sealed(Ascii("\"") + text + Ascii("\""))
  {
    AsciiLength("\"");
    SealedJoin(Ascii("\""), text);
    SealedJoin(Ascii("\"") + text, Ascii("\""));
  }

  /** The measured bytes are those of the text in UTF-8. */
  lemma {:induction false} BytesMeasureTheText(j: Json)
    ensures Utf8Length(Print(j)) == JsonBytes(j) && Sealed(Print(j))
    decreases j, 0
  {
    match j
    case Str(text) =>
      PrintedLength(text);
      Quoted(Printed(text));
    case Num(literal) => AsciiLength(literal);
    case Bool(b) => AsciiLength(if b then "true" else "false");
    case Obj(fields) =>
      FieldsMeasureTheText(j, fields);
      AsciiLength("{");
      AsciiLength("}");
      SealedJoin(Ascii("{"), PrintFields(fields));
      SealedJoin(Ascii("{") + PrintFields(fields), Ascii("}"));
  }

  lemma {:induction false} FieldsMeasureTheText(owner: Json, fields: seq<Field>)
    requires forall i :: 0 <= i < |fields| ==> fields[i] < owner
    ensures Utf8Length(PrintFields(fields)) == FieldsBytes(fields) + (if fields == [] then 0 else |fields| - 1)
    ensures Sealed(PrintFields(fields))
    decreases owner, 0, |fields|
  {
    if fields != [] {
      var init, last := fields[..|fields| - 1], fields[|fields| - 1];
      FieldsMeasureTheText(owner, init);
      BytesMeasureTheText(last.value);
      var comma, name := if |fields| == 1 then "" else ",", last.name;
      AsciiLength(comma);
      AsciiLength("\"");
      AsciiLength(name);
      AsciiLength("\":");
      var a := PrintFields(init);
      SealedJoin(a, Ascii(comma));
      SealedJoin(a + Ascii(comma), Ascii("\""));
      SealedJoin(a + Ascii(comma) + Ascii("\""), Ascii(name));
      SealedJoin(a + Ascii(comma) + Ascii("\"") + Ascii(name), Ascii("\":"));
      SealedJoin(a + Ascii(comma) + Ascii("\"") + Ascii(name) + Ascii("\":"), Print(last.value));
    }
  }

  // ---- Elements as they are recorded and exposed --------------------------------------

  /** `browser-element:`, the digits of a safe integer, a dash and twelve characters. */
  type RefText = t: Text | |t| <= 45 witness []

  /** `browser-frame:` and a UUID. */
  type FrameText = t: Text | |t| <= 50 witness []

  datatype CoordinateSpace = MainFrameViewport | FrameLocal | Unavailable

  datatype Rect = Rect(x: NumberText, y: NumberText, width: NumberText, height: NumberText)

  /** `attribute` gives the attributes of the node; the fallback scan records none. */
  datatype ElementRecord = ElementRecord(
    ref: RefText,
    tag: Text,
    role: Text,
    kind: Text,
    selector: Text,
    text: Text,
    rect: Rect,
    space: CoordinateSpace,
    inViewport: bool,
    actionable: bool,
    attributes: seq<Attribute>,
    frame: Option<FrameText>)

  datatype Attribute = Attribute(name: string, value: Text)

  /** The scanner's loop over the names: only attributes with a nonempty value. */
  function Collect(attribute: string -> Text, names: seq<string>): seq<Attribute> {
    if names == [] then []
    else
      var init, last := Collect(attribute, names[..|names| - 1]), names[|names| - 1];
      if attribute(last) == [] then init else init + [Attribute(last, attribute(last))]
  }

  ghost predicate FromScanner(e: ElementRecord) {
    e.attributes == [] || exists attribute: string -> Text :: e.attributes == Collect(attribute, ATTRIBUTE_NAMES)
  }

  /** `text.slice(0, n)` */
  function Slice<T>(s: seq<T>, n: nat): (prefix: seq<T>)
    ensures prefix <= s && |prefix| == if |s| <= n then |s| else n
  {
    if |s| <= n then s else s[..n]
  }

  function SpaceName(space: CoordinateSpace): (name: Text)
    ensures |name| <= 19
  {
    match space
    case MainFrameViewport => Ascii("main-frame-viewport")
    case FrameLocal => Ascii("frame-local")
    case Unavailable => Ascii("unavailable")
  }

  function Head(e: ElementRecord): seq<Field> {
    [Field("ref", Str(e.ref)),
     Field("tag", Str(Slice(e.tag, MAX_TAG))),
     Field("role", Str(Slice(e.role, MAX_ROLE))),
     Field("type", Str(Slice(e.kind, MAX_TYPE)))]
    + (if e.selector == [] then [] else [Field("selector", Str(Slice(e.selector, MAX_SELECTOR)))])
    + [Field("text", Str(Slice(e.text, MAX_TEXT)))]
  }

  function RectJson(r: Rect): Json {
    Obj([Field("x", Num(r.x)), Field("y", Num(r.y)), Field("width", Num(r.width)), Field("height", Num(r.height))])
  }

  function Place(e: ElementRecord): seq<Field> {
    var main := e.space.MainFrameViewport?;
    (if main then [Field("rect", RectJson(e.rect))] else [])
    + [Field("coordinateSpace", Str(SpaceName(e.space))),
       Field("inViewport", Bool(main && e.inViewport)),
       Field("actionable", Bool(e.actionable)),
       Field("pointerActionable", Bool(e.actionable && main))]
  }

  function ExposedAttributes(attributes: seq<Attribute>): seq<Field> {
    if attributes == [] then []
    else
      var last := attributes[|attributes| - 1];
      ExposedAttributes(attributes[..|attributes| - 1])
      + [Field(Slice(last.name, MAX_ATTRIBUTE_KEY), Str(Slice(last.value, MAX_ATTRIBUTE_VALUE)))]
  }

  function Expose(e: ElementRecord): Json {
    Obj(Head(e) + Place(e)
        + [Field("attributes", Obj(ExposedAttributes(Slice(e.attributes, MAX_ATTRIBUTES))))]
        + (if e.frame.Some? then [Field("frame", Str(e.frame.value))] else []))
  }

  /** The scanner records the attributes with a value, under the fixed names and in their order. */
  lemma {:induction false} CollectedExactly(attribute: string -> Text, names: seq<string>)
    ensures forall name, value :: Attribute(name, value) in Collect(attribute, names) <==>
              name in names && value == attribute(name) && value != []
  {
    if names != [] {
      var init, last := names[..|names| - 1], names[|names| - 1];
      CollectedExactly(attribute, init);
      assert names == init + [last];
    }
  }

  lemma {:induction false} AttributesAreExposed(attributes: seq<Attribute>, i: nat)
    requires i < |attributes|
    ensures |ExposedAttributes(attributes)| == |attributes|
    ensures var name, value := attributes[i].name, attributes[i].value;
            ExposedAttributes(attributes)[i] == Field(Slice(name, 120), Str(Slice(value, 300)))
  {
    var init := attributes[..|attributes| - 1];
    if init != [] {
      AttributesAreExposed(init, if i < |init| then i else 0);
    }
  }

  lemma FieldsOfTheExposure(e: ElementRecord)
    ensures |Expose(e).fields| ==
              10 + (if e.selector == [] then 0 else 1) + (if e.space == MainFrameViewport then 1 else 0)
              + (if e.frame == None then 0 else 1)
    ensures forall f :: f in Head(e) || f in Place(e) ==> f in Expose(e).fields
  {
  }

  /** The caller sees the texts of the element up to their limits. */
  lemma TextsAreExposed(e: ElementRecord)
    ensures var fields := Expose(e).fields;
            && Field("ref", Str(e.ref)) in fields
            && Field("tag", Str(Slice(e.tag, 80))) in fields
            && Field("role", Str(Slice(e.role, 120))) in fields
            && Field("type", Str(Slice(e.kind, 120))) in fields
            && (e.selector != [] ==> Field("selector", Str(Slice(e.selector, 500))) in fields)
            && Field("text", Str(Slice(e.text, 300))) in fields
            && (e.frame.Some? ==> Field("frame", Str(e.frame.value)) in fields)
  {
    FieldsOfTheExposure(e);
    var fields, head := Expose(e).fields, Head(e);
    assert e.frame.Some? ==> fields[|fields| - 1] == Field("frame", Str(e.frame.value));
    assert head[0] in head && head[1] in head && head[2] in head && head[3] in head;
    assert head[4] in head && head[|head| - 1] in head;
  }

  /** A rectangle, and what depends on it, only when its coordinates are those of the main viewport. */
  lemma PlaceIsExposed(e: ElementRecord)
    ensures var fields, main := Expose(e).fields, e.space == MainFrameViewport;
            && (main ==> Field("rect", Obj([Field("x", Num(e.rect.x)), Field("y", Num(e.rect.y)),
                  Field("width", Num(e.rect.width)), Field("height", Num(e.rect.height))])) in fields)
            && Field("coordinateSpace", Str(Ascii(match e.space
                 case MainFrameViewport => "main-frame-viewport"
                 case FrameLocal => "frame-local"
                 case Unavailable => "unavailable"))) in fields
            && Field("inViewport", Bool(main && e.inViewport)) in fields
            && Field("actionable", Bool(e.actionable)) in fields
            && Field("pointerActionable", Bool(main && e.actionable)) in fields
  {
    FieldsOfTheExposure(e);
    var place := Place(e);
    var n := |place|;
    assert place[0] in place && place[n - 4] in place && place[n - 3] in place && place[n - 2] in place
        && place[n - 1] in place;
  }

  /** The first twenty attributes, in order. */
  lemma AttributesAreShown(e: ElementRecord)
    ensures exists shown :: Field("attributes", Obj(shown)) in Expose(e).fields
              && |shown| == (if |e.attributes| <= 20 then |e.attributes| else 20)
              && forall i :: 0 <= i < |shown| ==>
                   var a := e.attributes[i]; shown[i] == Field(Slice(a.name, 120), Str(Slice(a.value, 300)))
  {
    var fields, kept := Expose(e).fields, Slice(e.attributes, MAX_ATTRIBUTES);
    var shown := ExposedAttributes(kept);
    if kept != [] {
      AttributesAreExposed(kept, 0);
    }
    forall i | 0 <= i < |shown|
      ensures var a := e.attributes[i]; shown[i] == Field(Slice(a.name, 120), Str(Slice(a.value, 300)))
    {
      AttributesAreExposed(kept, i);
    }
    assert fields[|Head(e) + Place(e)|] == Field("attributes", Obj(shown));
  }

  // ---- The bound -------------------------------------------------------------------------

  lemma StringsAreBounded(text: Text, n: nat)
    requires |text| <= n
    ensures JsonBytes(Str(text)) <= 2 + 6 * n
  {
    TextBytesAtMostSixPerUnit(text);
  }

  lemma OneField(f: Field)
    ensures FieldsBytes([f]) == 3 + |f.name| + JsonBytes(f.value)
  {
    assert [f][..0] == [];
  }

  lemma HeadIsBounded(e: ElementRecord)
    ensures FieldsBytes(Head(e)) <= 6 * 1_165 + 56 && |Head(e)| <= 6
  {
    var fields := Head(e);
    StringsAreBounded(e.ref, 45);
    StringsAreBounded(Slice(e.tag, MAX_TAG), MAX_TAG);
    StringsAreBounded(Slice(e.role, MAX_ROLE), MAX_ROLE);
    StringsAreBounded(Slice(e.kind, MAX_TYPE), MAX_TYPE);
    StringsAreBounded(Slice(e.selector, MAX_SELECTOR), MAX_SELECTOR);
    StringsAreBounded(Slice(e.text, MAX_TEXT), MAX_TEXT);
    var a, b, c, d := Field("ref", Str(e.ref)), Field("tag", Str(Slice(e.tag, MAX_TAG))),
                      Field("role", Str(Slice(e.role, MAX_ROLE))), Field("type", Str(Slice(e.kind, MAX_TYPE)));
    FourFields(a, b, c, d);
    var selector := if e.selector == [] then [] else [Field("selector", Str(Slice(e.selector, MAX_SELECTOR)))];
    var text := Field("text", Str(Slice(e.text, MAX_TEXT)));
    OneField(Field("selector", Str(Slice(e.selector, MAX_SELECTOR))));
    OneField(text);
    FieldsConcat([a, b, c, d], selector);
    FieldsConcat([a, b, c, d] + selector, [text]);
  }

  lemma FourFields(a: Field, b: Field, c: Field, d: Field)
    ensures FieldsBytes([a, b, c, d]) ==
            12 + |a.name| + |b.name| + |c.name| + |d.name|
            + JsonBytes(a.value) + JsonBytes(b.value) + JsonBytes(c.value) + JsonBytes(d.value)
  {
    OneField(a);
    OneField(b);
    OneField(c);
    OneField(d);
    FieldsConcat([a], [b]);
    FieldsConcat([a, b], [c]);
    FieldsConcat([a, b, c], [d]);
    assert [a] + [b] == [a, b] && [a, b] + [c] == [a, b, c] && [a, b, c] + [d] == [a, b, c, d];
  }

  lemma RectIsBounded(r: Rect)
    ensures JsonBytes(RectJson(r)) <= 130
  {
    FourFields(Field("x", Num(r.x)), Field("y", Num(r.y)), Field("width", Num(r.width)),
        Field("height", Num(r.height)));
  }

  lemma PlaceIsBounded(e: ElementRecord)
    ensures FieldsBytes(Place(e)) <= 350 && |Place(e)| <= 5
  {
    RectIsBounded(e.rect);
    var rect := Field("rect", RectJson(e.rect));
    OneField(rect);
    StringsAreBounded(SpaceName(e.space), 19);
    var main := e.space.MainFrameViewport?;
    var a, b := Field("coordinateSpace", Str(SpaceName(e.space))), Field("inViewport", Bool(main && e.inViewport));
    var c, d := Field("actionable", Bool(e.actionable)), Field("pointerActionable", Bool(e.actionable && main));
    FourFields(a, b, c, d);
    FieldsConcat(if main then [rect] else [], [a, b, c, d]);
  }

  lemma {:induction false} CollectedNames(attribute: string -> Text, names: seq<string>)
    requires forall n :: n in names ==> |n| <= MAX_NAME
    ensures |Collect(attribute, names)| <= |names|
    ensures forall a :: a in Collect(attribute, names) ==> |a.name| <= MAX_NAME
  {
    if names != [] {
      assert names[|names| - 1] in names;
      CollectedNames(attribute, names[..|names| - 1]);
    }
  }

  lemma {:induction false} AttributesAreBounded(attributes: seq<Attribute>)
    requires forall a :: a in attributes ==> |a.name| <= MAX_NAME
    ensures |ExposedAttributes(attributes)| == |attributes|
    ensures FieldsBytes(ExposedAttributes(attributes)) <= 1_820 * |attributes|
  {
    if attributes != [] {
      var init, last := attributes[..|attributes| - 1], attributes[|attributes| - 1];
      AttributesAreBounded(init);
      assert last in attributes;
      StringsAreBounded(Slice(last.value, MAX_ATTRIBUTE_VALUE), MAX_ATTRIBUTE_VALUE);
      var field := Field(Slice(last.name, MAX_ATTRIBUTE_KEY), Str(Slice(last.value, MAX_ATTRIBUTE_VALUE)));
      OneField(field);
      FieldsConcat(ExposedAttributes(init), [field]);
    }
  }

  lemma ScannerAttributesAreBounded(e: ElementRecord)
    requires FromScanner(e)
    ensures JsonBytes(Obj(ExposedAttributes(Slice(e.attributes, MAX_ATTRIBUTES)))) <= 36_421
  {
    assert |ATTRIBUTE_NAMES| == 20 && forall i :: 0 <= i < 20 ==> |ATTRIBUTE_NAMES[i]| <= MAX_NAME;
    if e.attributes != [] {
      var attribute: string -> Text :| e.attributes == Collect(attribute, ATTRIBUTE_NAMES);
      CollectedNames(attribute, ATTRIBUTE_NAMES);
    }
    AttributesAreBounded(Slice(e.attributes, MAX_ATTRIBUTES));
  }

  /** Whatever the page contains, the limits on the fields keep every exposed element far below a page. */
  lemma ExposedElementsAreSmall(e: ElementRecord)
    requires FromScanner(e)
    ensures Utf8Length(Print(Expose(e))) == JsonBytes(Expose(e)) <= MAX_EXPOSED_BYTES
  {
    BytesMeasureTheText(Expose(e));
    HeadIsBounded(e);
    PlaceIsBounded(e);
    ScannerAttributesAreBounded(e);
    var attributes := Field("attributes", Obj(ExposedAttributes(Slice(e.attributes, MAX_ATTRIBUTES))));
    var frame := if e.frame.Some? then [Field("frame", Str(e.frame.value))] else [];
    OneField(attributes);
    if e.frame.Some? {
      OneField(frame[0]);
      StringsAreBounded(e.frame.value, 50);
    }
    FieldsConcat(Head(e), Place(e));
    FieldsConcat(Head(e) + Place(e), [attributes]);
    FieldsConcat(Head(e) + Place(e) + [attributes], frame);
  }
}
