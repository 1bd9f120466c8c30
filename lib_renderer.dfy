/** The CommonJS renderer of lib/html.js: the same `toHtmlValue`,
    `toAttributeString`, `html`, `attrs`, `render` and `unsafe` as src/html.ts,
    except that a wrapper hands back the value it stores as it is, not its
    `toString()`, and `render` trims the stored value without a fallback. The
    `xss` sanitiser is the `esc` parameter. */
module LibRenderer {
  import opened Strings
  import opened Values
  import opened Kebab
  import Ts = TsRenderer

  /** `toHtmlValue`: a string for everything but the wrappers, whose stored
      value comes back untouched; an array maps its elements and lets `join`
      turn each result into text. */
  function ToHtmlValue(esc: Escaper, v: Value): (r: Value)
    ensures !v.Unsafe? && !v.Html? ==> r.Str?
    ensures v.Unsafe? || v.Html? ==> r == v.inner
    decreases v
  {
    if v.Arr? then Str(Join(" ", seq(|v.elems|, i requires 0 <= i < |v.elems| => ElementString(ToHtmlValue(esc, v.elems[i])))))
    else if IsAbsent(v) then Str("")
    else if v.Num? then Str(Decimal(v.n))
    else if v.Unsafe? then v.inner
    else if v.Html? then v.inner
    else if v.Obj? then Str(v.text)
    else Str(esc(JsString(v)))
  }

  /** Inside an array, where `join` does the conversion, this renderer and the
      one of src/html.ts agree on every value. */
  lemma {:induction false} ElementAgreesWithTs(esc: Escaper, v: Value)
    ensures ElementString(ToHtmlValue(esc, v)) == Ts.ToHtmlValue(esc, v)
    decreases v
  {
    if v.Arr? {
      var xs := v.elems;
      forall i | 0 <= i < |xs|
        ensures ElementString(ToHtmlValue(esc, xs[i])) == Ts.HtmlValues(esc, xs)[i]
      {
        ElementAgreesWithTs(esc, xs[i]);
      }
      assert seq(|xs|, i requires 0 <= i < |xs| => ElementString(ToHtmlValue(esc, xs[i]))) == Ts.HtmlValues(esc, xs);
    }
  }

  /** `html.unsafe(null)`, `html.unsafe(undefined)` and their `HtmlString`
      counterparts: a wrapper around nothing. */
  predicate WrapsNothing(v: Value)
  {
    (v.Unsafe? || v.Html?) && (v.inner.Null? || v.inner.Undefined?)
  }

  /** Interpolated at the top of a template, where `String.raw` does the
      conversion, the two renderers agree exactly when the value is not a
      wrapper around nothing; that one renders as "null" or "undefined" here and
      as nothing in src/html.ts. */
  lemma TopLevelAgreesWithTs(esc: Escaper, v: Value)
    ensures JsString(ToHtmlValue(esc, v)) == Ts.ToHtmlValue(esc, v) <==> !WrapsNothing(v)
  {
    if !v.Unsafe? && !v.Html? {
      ElementAgreesWithTs(esc, v);
    }
  }

  /** `values.map(toHtmlValue)` as `String.raw` writes each result. */
  function HtmlTexts(esc: Escaper, values: seq<Value>): (r: seq<string>)
    ensures |r| == |values|
  {
    seq(|values|, i requires 0 <= i < |values| => JsString(ToHtmlValue(esc, values[i])))
  }

  /** `html`: the fragments interleaved with the rendered values, wrapped as an
      `HtmlString`; interpolated into another template, the result is its own
      text whatever the escaper. */
  function HtmlTag(esc: Escaper, strings: seq<string>, values: seq<Value>): (r: Value)
    requires |strings| == |values| + 1
    ensures r.Html? && r.inner.Str?
    ensures forall e: Escaper :: JsString(ToHtmlValue(e, r)) == r.inner.s
  {
    Html(Str(Interleave(strings, HtmlTexts(esc, values))))
  }

  predicate NoneWrapsNothing(values: seq<Value>)
  {
    forall i :: 0 <= i < |values| ==> !WrapsNothing(values[i])
  }

  /** Without a wrapper around nothing among the values, a template renders
      here exactly as in src/html.ts. */
  lemma HtmlTagAgreesWithTs(esc: Escaper, strings: seq<string>, values: seq<Value>)
    requires |strings| == |values| + 1 && NoneWrapsNothing(values)
    ensures HtmlTag(esc, strings, values) == Ts.HtmlTag(esc, strings, values)
  {
    forall i | 0 <= i < |values| ensures HtmlTexts(esc, values)[i] == Ts.HtmlValues(esc, values)[i] {
      TopLevelAgreesWithTs(esc, values[i]);
    }
    assert HtmlTexts(esc, values) == Ts.HtmlValues(esc, values);
  }

  /** `html.unsafe(null)` interpolated: the text "null", where src/html.ts
      writes nothing. */
  lemma UnsafeNullWritesNull(esc: Escaper, before: string, after: string)
    ensures HtmlTag(esc, [before, after], [Unsafe(Null)]).inner.s == before + "null" + after
    ensures Ts.HtmlTag(esc, [before, after], [Unsafe(Null)]).inner.s == before + after
  {
    assert HtmlTexts(esc, [Unsafe(Null)]) == ["null"];
    assert Ts.HtmlValues(esc, [Unsafe(Null)]) == [""];
    assert [before, after][1..] == [after];
    assert Interleave([before, after], ["null"]) == before + "null" + Interleave([after], []);
    assert Interleave([before, after], [""]) == before + "" + Interleave([after], []);
  }

  /** Composition does not escape twice, as in src/html.ts, whatever the
      values: a template's result interpolated into another template gives
      exactly what writing the inner fragments and values in place gives. */
  lemma NestingIsInlining(esc: Escaper, strings: seq<string>, values: seq<Value>, k: nat,
                          inner: seq<string>, innerValues: seq<Value>)
    requires |strings| == |values| + 1 && k < |values|
    requires |inner| == |innerValues| + 1
    requires values[k] == HtmlTag(esc, inner, innerValues)
    ensures HtmlTag(esc, strings, values)
         == HtmlTag(esc, Glue(Glue(strings[..k + 1], inner), strings[k + 1..]),
                    values[..k] + innerValues + values[k + 1..])
  {
    var subs := HtmlTexts(esc, values);
    var innerSubs := HtmlTexts(esc, innerValues);
    assert values[k].inner == Str(Interleave(inner, innerSubs));
    assert subs[k] == JsString(ToHtmlValue(esc, values[k])) == JsString(values[k].inner);
    InterleaveInline(strings, subs, k, inner, innerSubs);
    HtmlTextsSplice(esc, values, k, innerValues);
  }

  /** `map` commutes with splicing a list of values in place of one. */
  lemma HtmlTextsSplice(esc: Escaper, values: seq<Value>, k: nat, innerValues: seq<Value>)
    requires k < |values|
    ensures HtmlTexts(esc, values[..k] + innerValues + values[k + 1..])
         == HtmlTexts(esc, values)[..k] + HtmlTexts(esc, innerValues) + HtmlTexts(esc, values)[k + 1..]
  {
    var merged := values[..k] + innerValues + values[k + 1..];
    var texts, innerTexts := HtmlTexts(esc, values), HtmlTexts(esc, innerValues);
    var lhs := HtmlTexts(esc, merged);
    var rhs := texts[..k] + innerTexts + texts[k + 1..];
    assert |lhs| == |rhs|;
    forall i | 0 <= i < k ensures lhs[i] == rhs[i] {
      assert merged[i] == values[i];
    }
    forall i | k <= i < k + |innerValues| ensures lhs[i] == rhs[i] {
      assert merged[i] == innerValues[i - k];
    }
    forall i | k + |innerValues| <= i < |lhs| ensures lhs[i] == rhs[i] {
      assert merged[i] == values[i - |innerValues| + 1];
    }
  }

  /** `toAttributeString`; the value is written through a template literal. */
  function ToAttributeString(esc: Escaper, key: string, value: Value): (r: string)
    ensures value == Bool(true) ==> r == ToKebabCase(key)
    ensures IsAbsent(value) ==> r == ""
    ensures !IsAbsent(value) && value != Bool(true) ==>
      var name := ToKebabCase(key);
      |r| == |name| + |JsString(ToHtmlValue(esc, value))| + 3 && r[..|name|] == name && r[|name|..|name| + 2] == "=\""
      && r[|name| + 2..|r| - 1] == JsString(ToHtmlValue(esc, value)) && r[|r| - 1] == '"'
  {
    if value == Bool(true) then ToKebabCase(key)
    else if IsAbsent(value) then ""
    else
      var name, text := ToKebabCase(key), JsString(ToHtmlValue(esc, value));
      var r := name + "=\"" + text + "\"";
      assert r[|name| + 2..|r| - 1] == text;
      r
  }

  /** An attribute agrees with src/html.ts exactly when its value is not a
      wrapper around nothing. */
  lemma AttributeAgreesWithTs(esc: Escaper, key: string, value: Value)
    ensures ToAttributeString(esc, key, value) == Ts.ToAttributeString(esc, key, value) <==> !WrapsNothing(value)
  {
    TopLevelAgreesWithTs(esc, value);
    if ToAttributeString(esc, key, value) == Ts.ToAttributeString(esc, key, value) && !IsAbsent(value) && value != Bool(true) {
      var prefix := ToKebabCase(key) + "=\"";
      assert ToAttributeString(esc, key, value)[|prefix|..|ToAttributeString(esc, key, value)| - 1] == JsString(ToHtmlValue(esc, value));
      assert Ts.ToAttributeString(esc, key, value)[|prefix|..|Ts.ToAttributeString(esc, key, value)| - 1] == Ts.ToHtmlValue(esc, value);
    }
  }

  function AttributeStrings(esc: Escaper, entries: seq<(string, Value)>): (r: seq<string>)
    ensures |r| == |entries|
  {
    seq(|entries|, i requires 0 <= i < |entries| => ToAttributeString(esc, entries[i].0, entries[i].1))
  }

  /** `html.attrs`: joined by spaces and trimmed. */
  function Attrs(esc: Escaper, entries: seq<(string, Value)>): (r: string)
    ensures IsTrimmed(r)
  {
    Trim(Join(" ", AttributeStrings(esc, entries)))
  }

  /** Without a wrapper around nothing among the values, `html.attrs` gives
      what it gives in src/html.ts, so the properties proved there hold here. */
  lemma AttrsAgreeWithTs(esc: Escaper, entries: seq<(string, Value)>)
    requires forall i :: 0 <= i < |entries| ==> !WrapsNothing(entries[i].1)
    ensures Attrs(esc, entries) == Ts.Attrs(esc, entries)
  {
    forall i | 0 <= i < |entries| ensures AttributeStrings(esc, entries)[i] == Ts.AttributeStrings(esc, entries)[i] {
      AttributeAgreesWithTs(esc, entries[i].0, entries[i].1);
    }
    assert AttributeStrings(esc, entries) == Ts.AttributeStrings(esc, entries);
  }

  /** `html.render`: the stored text, trimmed. A wrapper that stores anything
      but a string has no `trim` and throws. */
  function Render(h: Value): (r: string)
    requires (h.Html? || h.Unsafe?) && h.inner.Str?
    ensures IsTrimmed(r)
    ensures PaddedAt(h.inner.s, r, LeadingSpace(h.inner.s))
  {
    Trim(h.inner.s)
  }

  /** Rendering a template is trimming its interleaved text, as in src/html.ts,
      and rendering the rendered text again changes nothing. */
  lemma RenderTemplate(esc: Escaper, strings: seq<string>, values: seq<Value>)
    requires |strings| == |values| + 1
    ensures Render(HtmlTag(esc, strings, values)) == Trim(Interleave(strings, HtmlTexts(esc, values)))
    ensures Render(Html(Str(Render(HtmlTag(esc, strings, values))))) == Render(HtmlTag(esc, strings, values))
  {
    TrimIdempotent(Interleave(strings, HtmlTexts(esc, values)));
  }

  /** `html.unsafe`: the value wrapped as it is; interpolated, it is emitted as
      its own `String(...)`, never escaped. */
  function MarkUnsafe(v: Value): (r: Value)
    ensures r.Unsafe? && r.inner == v
    ensures forall e: Escaper :: JsString(ToHtmlValue(e, r)) == JsString(v)
  {
    Unsafe(v)
  }
}
