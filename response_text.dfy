/** `extractOpenAIText`: reading the reply text out of a Responses API
    result without ever failing, whatever shape the result has. */
module ResponseText {
  import opened JsText

  datatype Option<T> = None | Some(value: T)

  /** A value as `JSON.parse` produces it (or the raw body string when the
      body is not JSON). Numbers and booleans are `JOther`, kept only by
      whether they are truthy: nothing else about them is ever read. */
  datatype Json =
    | JNull
    | JStr(s: JsString)
    | JArr(items: seq<Json>)
    | JObj(fields: map<JsString, Json>)
    | JOther(truthy: bool)

  // The property names and the one string value the function compares
  // against, written out as code units.
  const KeyOutputText: JsString := [0x6f, 0x75, 0x74, 0x70, 0x75, 0x74, 0x5f, 0x74, 0x65, 0x78, 0x74] // "output_text"
  const KeyOutput: JsString := [0x6f, 0x75, 0x74, 0x70, 0x75, 0x74] // "output"
  const KeyContent: JsString := [0x63, 0x6f, 0x6e, 0x74, 0x65, 0x6e, 0x74] // "content"
  const KeyText: JsString := [0x74, 0x65, 0x78, 0x74] // "text"
  const KeyType: JsString := [0x74, 0x79, 0x70, 0x65] // "type"
  const OutputTextType: JsString := KeyOutputText // "output_text"

  /** `!v`. */
  predicate IsFalsy(v: Json) {
    match v
    case JNull => true
    case JStr(s) => s == []
    case JOther(truthy) => !truthy
    case _ => false
  }

  /** `v[key]` for the property names read here; None is `undefined`.
      Only plain objects have them: arrays, strings, numbers and booleans
      carry no property of these names. Reading one off `null` throws,
      which the source avoids by testing `!v` first. */
  function Prop(v: Json, key: JsString): Option<Json>
    requires !v.JNull?
  {
    if v.JObj? && key in v.fields then Some(v.fields[key]) else None
  }

  /** `typeof v[key] === "string"`. */
  predicate IsStringProp(v: Json, key: JsString)
    requires !v.JNull?
  {
    Prop(v, key).Some? && Prop(v, key).value.JStr?
  }

  /** `typeof v[key] === "string" && v[key].trim()`: the trimmed string is
      truthy exactly when it is not all white space. */
  predicate IsNonBlankProp(v: Json, key: JsString)
    requires !v.JNull?
  {
    IsStringProp(v, key) && !AllWhiteSpace(Prop(v, key).value.s)
  }

  function StringProp(v: Json, key: JsString): JsString
    requires !v.JNull? && IsStringProp(v, key)
  {
    Prop(v, key).value.s
  }

  /** What one element of `item.content` appends to `out`. */
  function PartText(part: Json): JsString {
    if IsFalsy(part) then []
    else if IsNonBlankProp(part, KeyText) then StringProp(part, KeyText) + [Newline]
    else if Prop(part, KeyType) == Some(JStr(OutputTextType)) && IsStringProp(part, KeyText) then
      StringProp(part, KeyText) + [Newline]
    else []
  }

  /** The pieces `f` gives for the elements of `xs`, joined in order: what a
      `for ... of` loop appending `f(x)` to a string for each element leaves
      behind. */
  function Joined<T>(f: T -> JsString, xs: seq<T>): JsString {
    if xs == [] then []
    else Joined(f, xs[..|xs| - 1]) + f(xs[|xs| - 1])
  }

  /** What the inner loop appends for the parts `parts`, in order. */
  function PartsText(parts: seq<Json>): JsString {
    Joined(PartText, parts)
  }

  /** What the content parts of a truthy element of `resp.output` append. */
  function ContentText(item: Json): JsString
    requires !IsFalsy(item)
  {
    var content := Prop(item, KeyContent);
    if content.Some? && content.value.JArr? then PartsText(content.value.items) else []
  }

  /** What the own `text` of a truthy element of `resp.output` appends. */
  function OwnText(item: Json): JsString
    requires !IsFalsy(item)
  {
    if IsNonBlankProp(item, KeyText) then StringProp(item, KeyText) + [Newline] else []
  }

  /** What one element of `resp.output` appends to `out`: its content parts,
      then its own `text`. */
  function ItemText(item: Json): JsString {
    if IsFalsy(item) then [] else ContentText(item) + OwnText(item)
  }

  /** What the outer loop appends for the items `items`, in order. */
  function ItemsText(items: seq<Json>): JsString {
    Joined(ItemText, items)
  }

  /** What the loops accumulate in `out` for a response that is an object
      or an array. */
  function Collected(resp: Json): JsString
    requires !resp.JNull?
  {
    var output := Prop(resp, KeyOutput);
    if output.Some? && output.value.JArr? then ItemsText(output.value.items) else []
  }

  /** The text `extractOpenAIText(resp)` returns. */
  function Extract(resp: Json): JsString {
    if IsFalsy(resp) || !(resp.JObj? || resp.JArr?) then []
    else if IsNonBlankProp(resp, KeyOutputText) then Trim(StringProp(resp, KeyOutputText))
    else Trim(Collected(resp))
  }

  /** `extractOpenAIText(resp)`: the two guards, then the loops over
      `resp.output`, then a final trim. */
  method ExtractOpenAIText(resp: Json) returns (text: JsString)
    ensures text == Extract(resp)
    ensures IsTrimmed(text)
    ensures !resp.JObj? ==> text == []
    ensures resp.JObj? && IsNonBlankProp(resp, KeyOutputText) ==>
              text == Trim(StringProp(resp, KeyOutputText))
  {
    if IsFalsy(resp) || !(resp.JObj? || resp.JArr?) {
      return [];
    }
    if IsNonBlankProp(resp, KeyOutputText) {
      return Trim(StringProp(resp, KeyOutputText));
    }
    var out: JsString := [];
    var output := Prop(resp, KeyOutput);
    if output.Some? && output.value.JArr? {
      out := AppendItems(output.value.items);
    }
    text := Trim(out);
  }

  /** The outer loop, over the elements of `resp.output`; a falsy element is
      skipped. */
  method AppendItems(items: seq<Json>) returns (out: JsString)
    ensures out == ItemsText(items)
  {
    out := [];
    var i := 0;
    while i < |items|
      invariant 0 <= i <= |items|
      invariant out == ItemsText(items[..i])
    {
      var item := items[i];
      ghost var before := out;
      if !IsFalsy(item) {
        var content := Prop(item, KeyContent);
        if content.Some? && content.value.JArr? {
          out := AppendParts(out, content.value.items);
        }
        assert out == before + ContentText(item);
        if IsNonBlankProp(item, KeyText) {
          out := out + (StringProp(item, KeyText) + [Newline]);
        }
        assert out == (before + ContentText(item)) + OwnText(item);
        AppendAssoc(before, ContentText(item), OwnText(item));
      }
      assert out == before + ItemText(item);
      JoinedSnoc(ItemText, items, i);
      i := i + 1;
    }
    assert items[..i] == items;
  }

  /** The inner loop, over the elements of `item.content`, appending to
      `out0`. */
  method AppendParts(out0: JsString, parts: seq<Json>) returns (out: JsString)
    ensures out == out0 + PartsText(parts)
  {
    out := out0;
    var j := 0;
    while j < |parts|
      invariant 0 <= j <= |parts|
      invariant out == out0 + PartsText(parts[..j])
    {
      var part := parts[j];
      ghost var before := out;
      if !IsFalsy(part) {
        if IsNonBlankProp(part, KeyText) {
          out := out + (StringProp(part, KeyText) + [Newline]);
        } else if Prop(part, KeyType) == Some(JStr(OutputTextType)) && IsStringProp(part, KeyText) {
          out := out + (StringProp(part, KeyText) + [Newline]);
        }
      }
      assert out == before + PartText(part);
      JoinedSnoc(PartText, parts, j);
      j := j + 1;
    }
    assert parts[..j] == parts;
  }

  lemma AppendAssoc(a: JsString, b: JsString, c: JsString)
    ensures (a + b) + c == a + (b + c)
  {
  }

  /** A loop over `a + b` leaves what a loop over `a` leaves followed by
      what a loop over `b` leaves. */
  lemma {:induction false} JoinedAppend<T>(f: T -> JsString, a: seq<T>, b: seq<T>)
    ensures Joined(f, a + b) == Joined(f, a) + Joined(f, b)
    decreases |b|
  {
    if b == [] {
      assert a + b == a;
    } else {
      var b' := b[..|b| - 1];
      assert (a + b)[..|a + b| - 1] == a + b';
      JoinedAppend(f, a, b');
    }
  }

  /** One more turn of the loop appends the piece of the next element. */
  lemma JoinedSnoc<T>(f: T -> JsString, xs: seq<T>, i: nat)
    requires i < |xs|
    ensures Joined(f, xs[..i + 1]) == Joined(f, xs[..i]) + f(xs[i])
  {
    assert xs[..i + 1] == xs[..i] + [xs[i]];
    JoinedAppend(f, xs[..i], [xs[i]]);
    JoinedSingle(f, xs[i]);
  }

  lemma JoinedSingle<T>(f: T -> JsString, x: T)
    ensures Joined(f, [x]) == f(x)
  {
  }

  /** A part carries text: a non-blank string `text`. */
  ghost predicate PartHasText(part: Json) {
    !IsFalsy(part) && IsNonBlankProp(part, KeyText)
  }

  /** An item carries text: a non-blank `text` of its own or a content part
      that carries text. */
  ghost predicate ItemHasText(item: Json) {
    && !IsFalsy(item)
    && (|| IsNonBlankProp(item, KeyText)
        || (Prop(item, KeyContent).Some? && Prop(item, KeyContent).value.JArr?
            && exists p :: p in Prop(item, KeyContent).value.items && PartHasText(p)))
  }

  /** The response carries text somewhere `extractOpenAIText` looks. */
  ghost predicate HasText(resp: Json) {
    && resp.JObj?
    && (|| IsNonBlankProp(resp, KeyOutputText)
        || (Prop(resp, KeyOutput).Some? && Prop(resp, KeyOutput).value.JArr?
            && exists it :: it in Prop(resp, KeyOutput).value.items && ItemHasText(it)))
  }

  lemma StringLineBlank(s: JsString)
    ensures AllWhiteSpace(s + [Newline]) <==> Trim(s) == []
  {
    AllWhiteSpaceConcat(s, [Newline]);
  }

  lemma PartBlank(part: Json)
    ensures AllWhiteSpace(PartText(part)) <==> !PartHasText(part)
  {
    if !IsFalsy(part) && IsStringProp(part, KeyText) {
      StringLineBlank(StringProp(part, KeyText));
    }
  }

  lemma {:induction false} PartsBlank(parts: seq<Json>)
    ensures AllWhiteSpace(PartsText(parts)) <==> forall p :: p in parts ==> !PartHasText(p)
    decreases |parts|
  {
    if parts != [] {
      var init := parts[..|parts| - 1];
      var last := parts[|parts| - 1];
      PartsBlank(init);
      PartBlank(last);
      AllWhiteSpaceConcat(PartsText(init), PartText(last));
      assert parts == init + [last];
      assert forall p :: p in parts <==> p in init || p == last;
    }
  }

  lemma ItemBlank(item: Json)
    ensures AllWhiteSpace(ItemText(item)) <==> !ItemHasText(item)
  {
    if !IsFalsy(item) {
      var content := Prop(item, KeyContent);
      AllWhiteSpaceConcat(ContentText(item), OwnText(item));
      if content.Some? && content.value.JArr? {
        PartsBlank(content.value.items);
      }
      if IsNonBlankProp(item, KeyText) {
        StringLineBlank(StringProp(item, KeyText));
      }
    }
  }

  lemma {:induction false} ItemsBlank(items: seq<Json>)
    ensures AllWhiteSpace(ItemsText(items)) <==> forall it :: it in items ==> !ItemHasText(it)
    decreases |items|
  {
    if items != [] {
      var init := items[..|items| - 1];
      var last := items[|items| - 1];
      ItemsBlank(init);
      ItemBlank(last);
      AllWhiteSpaceConcat(ItemsText(init), ItemText(last));
      assert items == init + [last];
      assert forall it :: it in items <==> it in init || it == last;
    }
  }

  /** `extractOpenAIText` yields the empty string (and `askAI` falls back to
      its apology) exactly when no part of the response carries non-blank
      text where the function looks. */
  lemma ExtractEmptyIff(resp: Json)
    ensures Extract(resp) == [] <==> !HasText(resp)
  {
    if resp.JObj? && !IsNonBlankProp(resp, KeyOutputText) {
      var output := Prop(resp, KeyOutput);
      if output.Some? && output.value.JArr? {
        ItemsBlank(output.value.items);
      }
    }
  }

  /** The usual shape of a reply, `{output: [{content: [{type: "output_text",
      text: s}]}]}` with no flat `output_text`, yields `s` trimmed. */
  lemma ExtractSingleMessage(s: JsString)
    ensures Extract(JObj(map[KeyOutput := JArr([JObj(map[KeyContent :=
              JArr([JObj(map[KeyType := JStr(OutputTextType), KeyText := JStr(s)])])])])]))
            == Trim(s)
  {
    var part := JObj(map[KeyType := JStr(OutputTextType), KeyText := JStr(s)]);
    var item := JObj(map[KeyContent := JArr([part])]);
    var resp := JObj(map[KeyOutput := JArr([item])]);
    OutputTextPart(s);
    JoinedSingle(PartText, part);
    SingleContentItem(part);
    JoinedSingle(ItemText, item);
    SingleOutputResponse(item);
    TrimLine(s);
  }

  lemma OutputTextPart(s: JsString)
    ensures PartText(JObj(map[KeyType := JStr(OutputTextType), KeyText := JStr(s)])) == s + [Newline]
  {
  }

  lemma SingleContentItem(part: Json)
    ensures ItemText(JObj(map[KeyContent := JArr([part])])) == PartsText([part])
  {
  }

  lemma SingleOutputResponse(item: Json)
    ensures Extract(JObj(map[KeyOutput := JArr([item])])) == Trim(ItemsText([item]))
  {
    var resp := JObj(map[KeyOutput := JArr([item])]);
    assert |KeyOutput| != |KeyOutputText|;
    assert !IsNonBlankProp(resp, KeyOutputText);
    assert Collected(resp) == ItemsText([item]);
  }
}
