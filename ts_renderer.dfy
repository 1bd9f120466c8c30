/** The tagged-template renderer of src/html.ts: `toHtmlValue`,
    `toAttributeString`, the `html` tag and its `attrs`, `render` and `unsafe`
    helpers. The `xss` sanitiser is the `esc` parameter. */
module TsRenderer {
  import opened Strings
  import opened Values
  import opened Kebab

  /** `toHtmlValue`: arrays element by element joined with a space; `false`,
      `null`, `undefined` as nothing; numbers by `toString`; other objects by
      their `toString()`; anything else (a string, `true`) through the escaper.
      A wrapper gives `value?.toString() ?? ""` of what it stores, which is the
      conversion `join` applies to an array element: `null` and `undefined`
      give nothing. */
  function ToHtmlValue(esc: Escaper, v: Value): (r: string)
    ensures IsAbsent(v) ==> r == ""
    ensures v.Num? ==> r == Decimal(v.n)
    ensures v.Str? ==> r == esc(v.s)
    ensures v.Unsafe? || v.Html? ==> r == ElementString(v.inner)
    decreases v
  {
    if v.Arr? then Join(" ", HtmlValues(esc, v.elems))
    else if IsAbsent(v) then ""
    else if v.Num? then Decimal(v.n)
    else if v.Unsafe? || v.Html? then ElementString(v.inner)
    else if v.Obj? then v.text
    else esc(JsString(v))
  }

  /** `values.map(toHtmlValue)`. */
  function HtmlValues(esc: Escaper, values: seq<Value>): (r: seq<string>)
    ensures |r| == |values|
    decreases values
  {
    seq(|values|, i requires 0 <= i < |values| => ToHtmlValue(esc, values[i]))
  }

  /** Where the escaper enters `toHtmlValue`: the output of `v` read as text to
      emit as it is and text to pass through the escaper. */
  function EscapePlan(v: Value): seq<Segment>
    decreases v
  {
    if v.Arr? then Join([Verbatim(" ")], seq(|v.elems|, i requires 0 <= i < |v.elems| => EscapePlan(v.elems[i])))
    else if IsAbsent(v) then []
    else if v.Num? then [Verbatim(Decimal(v.n))]
    else if v.Unsafe? || v.Html? then [Verbatim(ElementString(v.inner))]
    else if v.Obj? then [Verbatim(v.text)]
    else [Escaped(JsString(v))]
  }

  /** The escaper is applied exactly once to each string (and `true`) of the
      value, arrays looked into, and to nothing else: not to numbers, not to
      wrapped values, not to other objects, not to the spaces between array
      elements. */
  lemma {:induction false} ToHtmlValueFollowsPlan(esc: Escaper, v: Value)
    ensures ToHtmlValue(esc, v) == Fill(esc, EscapePlan(v))
    decreases v
  {
    if v.Arr? {
      var xs := v.elems;
      var plans := seq(|xs|, i requires 0 <= i < |xs| => EscapePlan(xs[i]));
      FillJoin(esc, " ", plans);
      forall i | 0 <= i < |xs| ensures HtmlValues(esc, xs)[i] == Fill(esc, plans[i]) {
        ToHtmlValueFollowsPlan(esc, xs[i]);
      }
      assert HtmlValues(esc, xs) == seq(|plans|, i requires 0 <= i < |plans| => Fill(esc, plans[i]));
    }
  }

  /** Numbers, wrapped values, other objects and the absent values leave
      nothing to escape, and so does an array of such values. */
  lemma {:induction false} TrustedPlan(v: Value)
    requires Trusted(v)
    ensures AllVerbatim(EscapePlan(v))
    decreases v
  {
    if v.Arr? {
      var xs := v.elems;
      var plans := seq(|xs|, i requires 0 <= i < |xs| => EscapePlan(xs[i]));
      forall i | 0 <= i < |xs| ensures AllVerbatim(plans[i]) {
        TrustedPlan(xs[i]);
      }
      JoinVerbatim(" ", plans);
    }
  }

  /** No string (nor `true`) occurs in `v`, arrays looked into. */
  predicate Trusted(v: Value)
    decreases v
  {
    if v.Arr? then forall i :: 0 <= i < |v.elems| ==> Trusted(v.elems[i])
    else !v.Str? && v != Bool(true)
  }

  /** A value with no string in it renders the same whatever the escaper: in
      particular a template's result, an `html.unsafe` value, a number. */
  lemma EscaperIrrelevantForTrusted(e1: Escaper, e2: Escaper, v: Value)
    requires Trusted(v)
    ensures ToHtmlValue(e1, v) == ToHtmlValue(e2, v)
  {
    ToHtmlValueFollowsPlan(e1, v);
    ToHtmlValueFollowsPlan(e2, v);
    TrustedPlan(v);
    FillVerbatim(e1, e2, EscapePlan(v));
  }

  /** `false`, `null` and `undefined` render as nothing, but a number never does:
      `0` renders as "0". */
  lemma AbsentButNotZero(esc: Escaper, v: Value)
    ensures IsAbsent(v) ==> ToHtmlValue(esc, v) == ""
    ensures v.Num? ==> ToHtmlValue(esc, v) != "" && (ToHtmlValue(esc, v) == "0" <==> v.n == 0)
  {
  }

  /** An array renders as its elements' renderings separated by single spaces:
      the empty array as nothing, a one-element array as its element, and two
      non-empty runs of elements with one space at the seam. */
  lemma ArraySpaceJoined(esc: Escaper, a: seq<Value>, b: seq<Value>)
    ensures ToHtmlValue(esc, Arr([])) == ""
    ensures |a| == 1 ==> ToHtmlValue(esc, Arr(a)) == ToHtmlValue(esc, a[0])
    ensures |a| > 0 && |b| > 0 ==>
      ToHtmlValue(esc, Arr(a + b)) == ToHtmlValue(esc, Arr(a)) + " " + ToHtmlValue(esc, Arr(b))
  {
    if |a| > 0 && |b| > 0 {
      assert HtmlValues(esc, a + b) == HtmlValues(esc, a) + HtmlValues(esc, b);
      JoinAppend(" ", HtmlValues(esc, a), HtmlValues(esc, b));
    }
  }

  /** An array of strings has each string escaped on its own, and the
      separating spaces are not escaped. */
  lemma StringArrayEscapedPerElement(esc: Escaper, ss: seq<string>)
    ensures ToHtmlValue(esc, Arr(seq(|ss|, i requires 0 <= i < |ss| => Str(ss[i]))))
         == Join(" ", seq(|ss|, i requires 0 <= i < |ss| => esc(ss[i])))
  {
    var xs := seq(|ss|, i requires 0 <= i < |ss| => Str(ss[i]));
    assert HtmlValues(esc, xs) == seq(|ss|, i requires 0 <= i < |ss| => esc(ss[i]));
  }

  /** Two strings in an array: each escaped, one unescaped space between. */
  lemma StringPairEscapedPerElement(esc: Escaper, a: string, b: string)
    ensures ToHtmlValue(esc, Arr([Str(a), Str(b)])) == esc(a) + " " + esc(b)
  {
    StringArrayEscapedPerElement(esc, [a, b]);
    assert seq(2, i requires 0 <= i < 2 => Str([a, b][i])) == [Str(a), Str(b)];
    var escaped := seq(2, i requires 0 <= i < 2 => esc([a, b][i]));
    assert escaped == [esc(a), esc(b)];
    assert Join(" ", escaped) == esc(a) + " " + Join(" ", [esc(b)]);
  }

  /** `html`: the fragments interleaved with the rendered values, wrapped as an
      `HtmlString`. The fragments are emitted as written, so the text starts with
      the first and ends with the last; and the result, interpolated into
      another template, renders as its own text whatever the escaper. */
  function HtmlTag(esc: Escaper, strings: seq<string>, values: seq<Value>): (r: Value)
    requires |strings| == |values| + 1
    ensures r.Html? && r.inner.Str?
    ensures StartsWith(r.inner.s, strings[0]) && EndsWith(r.inner.s, strings[|values|])
    ensures forall e: Escaper :: ToHtmlValue(e, r) == r.inner.s
  {
    var text := Interleave(strings, HtmlValues(esc, values));
    InterleaveEnds(strings, HtmlValues(esc, values));
    assert ElementString(Str(text)) == text;
    Html(Str(text))
  }

  /** A template without interpolations is its single fragment. */
  lemma TagWithoutValues(esc: Escaper, fragment: string)
    ensures HtmlTag(esc, [fragment], []) == Html(Str(fragment))
  {
  }

  /** Composition does not escape twice: interpolating a template's result into
      another template gives exactly what writing the inner template's
      fragments and values in place would give. */
  lemma NestingIsInlining(esc: Escaper, strings: seq<string>, values: seq<Value>, k: nat,
                          inner: seq<string>, innerValues: seq<Value>)
    requires |strings| == |values| + 1 && k < |values|
    requires |inner| == |innerValues| + 1
    requires values[k] == HtmlTag(esc, inner, innerValues)
    ensures HtmlTag(esc, strings, values)
         == HtmlTag(esc, Glue(Glue(strings[..k + 1], inner), strings[k + 1..]),
                    values[..k] + innerValues + values[k + 1..])
  {
    var subs := HtmlValues(esc, values);
    var innerSubs := HtmlValues(esc, innerValues);
    assert values[k].inner == Str(Interleave(inner, innerSubs));
    assert subs[k] == ToHtmlValue(esc, values[k]) == ElementString(values[k].inner);
    InterleaveInline(strings, subs, k, inner, innerSubs);
    HtmlValuesSplice(esc, values, k, innerValues);
  }

  /** `map` commutes with splicing a list of values in place of one. */
  lemma HtmlValuesSplice(esc: Escaper, values: seq<Value>, k: nat, innerValues: seq<Value>)
    requires k < |values|
    ensures HtmlValues(esc, values[..k] + innerValues + values[k + 1..])
         == HtmlValues(esc, values)[..k] + HtmlValues(esc, innerValues) + HtmlValues(esc, values)[k + 1..]
  {
    var merged := values[..k] + innerValues + values[k + 1..];
    var lhs := HtmlValues(esc, merged);
    var rhs := HtmlValues(esc, values)[..k] + HtmlValues(esc, innerValues) + HtmlValues(esc, values)[k + 1..];
    assert |lhs| == |rhs|;
    forall i | 0 <= i < |lhs| ensures lhs[i] == rhs[i] {
      if i < k {
        assert merged[i] == values[i];
      } else if i < k + |innerValues| {
        assert merged[i] == innerValues[i - k];
      } else {
        assert merged[i] == values[i - |innerValues| + 1];
      }
    }
  }

  /** `toAttributeString`: `true` gives the bare kebab-cased name, `false`,
      `null` and `undefined` nothing, anything else `name="value"`. */
  function ToAttributeString(esc: Escaper, key: string, value: Value): (r: string)
    ensures value == Bool(true) ==> r == ToKebabCase(key)
    ensures IsAbsent(value) ==> r == ""
    ensures !IsAbsent(value) && value != Bool(true) ==>
      var name := ToKebabCase(key);
      |r| == |name| + |ToHtmlValue(esc, value)| + 3 && r[..|name|] == name && r[|name|..|name| + 2] == "=\""
      && r[|name| + 2..|r| - 1] == ToHtmlValue(esc, value) && r[|r| - 1] == '"'
  {
    if value == Bool(true) then ToKebabCase(key)
    else if IsAbsent(value) then ""
    else
      var name, text := ToKebabCase(key), ToHtmlValue(esc, value);
      var r := name + "=\"" + text + "\"";
      assert r[|name| + 2..|r| - 1] == text;
      r
  }

  /** An attribute contributes nothing exactly when its value is absent (or it is
      a `true` attribute with an empty name); otherwise it starts with the
      kebab-cased name. */
  lemma AttributeOmittedIff(esc: Escaper, key: string, value: Value)
    ensures ToAttributeString(esc, key, value) == "" <==> IsAbsent(value) || (value == Bool(true) && key == "")
    ensures !IsAbsent(value) ==> StartsWith(ToAttributeString(esc, key, value), ToKebabCase(key))
  {
    KebabLength(key);
    var r := ToAttributeString(esc, key, value);
    if !IsAbsent(value) && value != Bool(true) {
      assert r[..|ToKebabCase(key)|] == ToKebabCase(key);
    }
  }

  /** `Object.entries(attrs).map(([key, value]) => toAttributeString(key, value))`. */
  function AttributeStrings(esc: Escaper, entries: seq<(string, Value)>): (r: seq<string>)
    ensures |r| == |entries|
  {
    seq(|entries|, i requires 0 <= i < |entries| => ToAttributeString(esc, entries[i].0, entries[i].1))
  }

  /** `html.attrs`: the attribute strings joined by spaces and trimmed; there is
      no whitespace at either end. */
  function Attrs(esc: Escaper, entries: seq<(string, Value)>): (r: string)
    ensures IsTrimmed(r)
  {
    Trim(Join(" ", AttributeStrings(esc, entries)))
  }

  /** Every entry has a non-empty name without whitespace and a value that is
      not absent: the attributes a template writes out in full. */
  predicate AllPresentNamed(entries: seq<(string, Value)>)
  {
    forall i :: 0 <= i < |entries| ==>
      entries[i].0 != "" && NoWhitespace(entries[i].0) && !IsAbsent(entries[i].1)
  }

  lemma AttributeTrimmed(esc: Escaper, key: string, value: Value)
    requires key != "" && NoWhitespace(key) && !IsAbsent(value)
    ensures ToAttributeString(esc, key, value) != ""
    ensures IsTrimmed(ToAttributeString(esc, key, value))
  {
    KebabNoWhitespace(key);
    var name := ToKebabCase(key);
    var r := ToAttributeString(esc, key, value);
    assert r[0] == name[0];
    if value == Bool(true) {
      assert r[|r| - 1] == name[|name| - 1];
    } else {
      assert r[|r| - 1] == '"';
    }
  }

  /** With every attribute written out and named without whitespace, `trim`
      has nothing to remove: the result is the attribute strings joined by
      single spaces. */
  lemma AttrsPlainJoin(esc: Escaper, entries: seq<(string, Value)>)
    requires AllPresentNamed(entries)
    ensures Attrs(esc, entries) == Join(" ", AttributeStrings(esc, entries))
    ensures |entries| > 0 ==> Attrs(esc, entries) != [] && Attrs(esc, entries)[0] == ToKebabCase(entries[0].0)[0]
  {
    var parts := AttributeStrings(esc, entries);
    forall i | 0 <= i < |parts| ensures parts[i] != [] && IsTrimmed(parts[i]) {
      AttributeTrimmed(esc, entries[i].0, entries[i].1);
    }
    JoinTrimmed(parts);
    TrimFixesTrimmed(Join(" ", parts));
    if |entries| > 0 {
      AttributeOmittedIff(esc, entries[0].0, entries[0].1);
      KebabNoWhitespace(entries[0].0);
    }
  }

  lemma AttributeStringsAppend(esc: Escaper, a: seq<(string, Value)>, b: seq<(string, Value)>)
    ensures AttributeStrings(esc, a + b) == AttributeStrings(esc, a) + AttributeStrings(esc, b)
  {
    var l, r := AttributeStrings(esc, a + b), AttributeStrings(esc, a) + AttributeStrings(esc, b);
    forall i | 0 <= i < |l| ensures l[i] == r[i] {
      if i < |a| {
        assert (a + b)[i] == a[i];
      } else {
        assert (a + b)[i] == b[i - |a|];
      }
    }
  }

  /** Absent attributes at the end vanish without a trace: `trim` removes the
      space their empty string leaves. */
  lemma AttrsTrailingOmission(esc: Escaper, entries: seq<(string, Value)>, key: string, value: Value)
    requires IsAbsent(value)
    ensures Attrs(esc, entries + [(key, value)]) == Attrs(esc, entries)
  {
    var parts := AttributeStrings(esc, entries);
    AttributeStringsAppend(esc, entries, [(key, value)]);
    assert AttributeStrings(esc, [(key, value)]) == [""];
    if |entries| > 0 {
      var j := Join(" ", parts);
      JoinAppend(" ", parts, [""]);
      assert Join(" ", [""]) == "";
      assert Join(" ", parts + [""]) == j + " ";
      assert AllWhitespace(" ");
      TrimIgnoresTrailingWhitespace(j, " ");
    } else {
      assert parts + [""] == [""];
    }
  }

  /** The strings of an absent attribute's neighbours, joined around the empty
      string it leaves. */
  lemma AttrsAroundOmission(esc: Escaper, a: seq<(string, Value)>, key: string, value: Value, b: seq<(string, Value)>)
    requires |a| > 0 && |b| > 0 && IsAbsent(value)
    ensures Attrs(esc, a + [(key, value)] + b)
         == Trim(Join(" ", AttributeStrings(esc, a)) + "  " + Join(" ", AttributeStrings(esc, b)))
  {
    var pa, pb := AttributeStrings(esc, a), AttributeStrings(esc, b);
    AttributeStringsOmitted(esc, a, key, value, b);
    JoinEmptyBetween(" ", pa, pb);
    assert Join(" ", pa) + " " + " " + Join(" ", pb) == Join(" ", pa) + "  " + Join(" ", pb);
  }

  lemma AttributeStringsOmitted(esc: Escaper, a: seq<(string, Value)>, key: string, value: Value, b: seq<(string, Value)>)
    requires IsAbsent(value)
    ensures AttributeStrings(esc, a + [(key, value)] + b) == AttributeStrings(esc, a) + [""] + AttributeStrings(esc, b)
  {
    AttributeStringsAppend(esc, a + [(key, value)], b);
    AttributeStringsAppend(esc, a, [(key, value)]);
    assert AttributeStrings(esc, [(key, value)]) == [""];
  }

  /** An absent attribute between two written ones leaves two adjacent spaces:
      the result differs from the one without that attribute. */
  lemma AttrsMiddleOmission(esc: Escaper, a: seq<(string, Value)>, key: string, value: Value, b: seq<(string, Value)>)
    requires |a| > 0 && |b| > 0 && AllPresentNamed(a) && AllPresentNamed(b) && IsAbsent(value)
    ensures Attrs(esc, a + [(key, value)] + b) == Attrs(esc, a) + "  " + Attrs(esc, b)
    ensures Attrs(esc, a + [(key, value)] + b) != Attrs(esc, a + b)
  {
    var ja, jb := Attrs(esc, a), Attrs(esc, b);
    AttrsPlainJoin(esc, a);
    AttrsPlainJoin(esc, b);
    AttrsAroundOmission(esc, a, key, value, b);
    TrimKeepsInnerSpaces(ja, "  ", jb);
    AttrsWithoutOmission(esc, a, b);
    assert |Attrs(esc, a + b)| < |ja + "  " + jb|;
  }

  /** Two lists of written attributes concatenate with one space. */
  lemma AttrsWithoutOmission(esc: Escaper, a: seq<(string, Value)>, b: seq<(string, Value)>)
    requires |a| > 0 && |b| > 0 && AllPresentNamed(a) && AllPresentNamed(b)
    ensures Attrs(esc, a + b) == Attrs(esc, a) + " " + Attrs(esc, b)
  {
    AttrsPlainJoin(esc, a);
    AttrsPlainJoin(esc, b);
    AllPresentNamedAppend(a, b);
    AttrsPlainJoin(esc, a + b);
    AttributeStringsAppend(esc, a, b);
    JoinAppend(" ", AttributeStrings(esc, a), AttributeStrings(esc, b));
  }

  lemma AllPresentNamedAppend(a: seq<(string, Value)>, b: seq<(string, Value)>)
    requires AllPresentNamed(a) && AllPresentNamed(b)
    ensures AllPresentNamed(a + b)
  {
    forall i | 0 <= i < |a + b|
      ensures (a + b)[i].0 != "" && NoWhitespace((a + b)[i].0) && !IsAbsent((a + b)[i].1)
    {
      if i < |a| { assert (a + b)[i] == a[i]; } else { assert (a + b)[i] == b[i - |a|]; }
    }
  }

  /** The entries whose value is not absent, in order. */
  function Present(entries: seq<(string, Value)>): seq<(string, Value)>
  {
    if entries == [] then []
    else (if IsAbsent(entries[0].1) then [] else [entries[0]]) + Present(entries[1..])
  }

  lemma {:induction false} PresentAppend(a: seq<(string, Value)>, b: seq<(string, Value)>)
    ensures Present(a + b) == Present(a) + Present(b)
  {
    if a == [] {
      assert a + b == b;
    } else {
      assert (a + b)[0] == a[0];
      assert (a + b)[1..] == a[1..] + b;
      PresentAppend(a[1..], b);
    }
  }

  lemma {:induction false} PresentKeepsAll(entries: seq<(string, Value)>)
    requires forall i :: 0 <= i < |entries| ==> !IsAbsent(entries[i].1)
    ensures Present(entries) == entries
  {
    if entries != [] {
      PresentKeepsAll(entries[1..]);
    }
  }

  /** `html.attrs` with absent attributes left out before the join instead of
      joined as empty strings. */
  function AttrsCompact(esc: Escaper, entries: seq<(string, Value)>): (r: string)
    ensures IsTrimmed(r)
  {
    Trim(Join(" ", AttributeStrings(esc, Present(entries))))
  }

  /** An absent attribute anywhere contributes nothing at all; where none is
      absent the result is the one `html.attrs` gives. */
  lemma AttrsCompactOmits(esc: Escaper, a: seq<(string, Value)>, key: string, value: Value, b: seq<(string, Value)>)
    requires IsAbsent(value)
    ensures AttrsCompact(esc, a + [(key, value)] + b) == AttrsCompact(esc, a + b)
    ensures (forall i :: 0 <= i < |a| ==> !IsAbsent(a[i].1)) ==> AttrsCompact(esc, a) == Attrs(esc, a)
  {
    PresentAppend(a + [(key, value)], b);
    PresentAppend(a, [(key, value)]);
    PresentAppend(a, b);
    assert Present([(key, value)]) == [];
    assert Present(a + [(key, value)] + b) == Present(a + b);
    if forall i :: 0 <= i < |a| ==> !IsAbsent(a[i].1) {
      PresentKeepsAll(a);
    }
  }

  /** `html.render`: the template's text, trimmed. */
  function Render(h: Value): (r: string)
    requires h.Html?
    ensures IsTrimmed(r)
    ensures h.inner.Null? || h.inner.Undefined? ==> r == ""
    ensures h.inner.Str? ==> PaddedAt(h.inner.s, r, LeadingSpace(h.inner.s))
  {
    if h.inner.Null? || h.inner.Undefined? then "" else Trim(JsString(h.inner))
  }

  /** Rendering a template's result is trimming its text, and trimming what
      `render` returns again changes nothing. */
  lemma RenderTemplate(esc: Escaper, strings: seq<string>, values: seq<Value>)
    requires |strings| == |values| + 1
    ensures Render(HtmlTag(esc, strings, values)) == Trim(Interleave(strings, HtmlValues(esc, values)))
    ensures Trim(Render(HtmlTag(esc, strings, values))) == Render(HtmlTag(esc, strings, values))
  {
    var text := Interleave(strings, HtmlValues(esc, values));
    var h := HtmlTag(esc, strings, values);
    assert h == Html(Str(text));
    assert Render(h) == Trim(text);
    TrimIdempotent(text);
  }

  /** `html.unsafe`: the value, marked so that it renders as its own text under
      any escaper. */
  function MarkUnsafe(v: Value): (r: Value)
    ensures r.Unsafe? && r.inner == v
    ensures forall e: Escaper :: ToHtmlValue(e, r) == ElementString(v)
  {
    Unsafe(v)
  }
}
