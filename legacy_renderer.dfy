/** The older renderer of src/html.js: a left fold over the fragments that
    decides, by looking at the fragment after each value, whether to escape
    the value (no modifier), to emit it as it is (`:html`) or to expand an
    object into attributes (`:attrs`), and strips every modifier from the
    fragments. The `xss` sanitiser is the `esc` parameter. */
module LegacyRenderer {
  import opened Strings
  import opened Values
  import opened Kebab

  datatype Option<T> = None | Some(value: T)

  const HtmlToken: string := ":html"
  const AttrsToken: string := ":attrs"

  /** The fragment's `replace(/:(html|attrs)/g, "")`: one scan from the left,
      each match removed, the scan resuming after it. */
  function Clean(s: string): (r: string)
    ensures |r| <= |s|
  {
    if |s| == 0 then ""
    else if StartsWith(s, HtmlToken) then Clean(s[|HtmlToken|..])
    else if StartsWith(s, AttrsToken) then Clean(s[|AttrsToken|..])
    else [s[0]] + Clean(s[1..])
  }

  /** A modifier occurs somewhere in `s`. */
  predicate HasToken(s: string)
  {
    exists i :: 0 <= i < |s| && (StartsWith(s[i..], HtmlToken) || StartsWith(s[i..], AttrsToken))
  }

  lemma TokenShift(s: string)
    requires |s| > 0 && !StartsWith(s, HtmlToken) && !StartsWith(s, AttrsToken)
    ensures HasToken(s) <==> HasToken(s[1..])
  {
    if HasToken(s) {
      var i :| 0 <= i < |s| && (StartsWith(s[i..], HtmlToken) || StartsWith(s[i..], AttrsToken));
      assert i > 0;
      assert s[1..][i - 1..] == s[i..];
    }
    if HasToken(s[1..]) {
      var i :| 0 <= i < |s[1..]| && (StartsWith(s[1..][i..], HtmlToken) || StartsWith(s[1..][i..], AttrsToken));
      assert s[1..][i..] == s[i + 1..];
    }
  }

  /** A fragment is left as it is exactly when it holds no modifier. */
  lemma {:induction false} CleanFixesExactlyTokenFree(s: string)
    ensures Clean(s) == s <==> !HasToken(s)
  {
    if |s| == 0 {
    } else if StartsWith(s, HtmlToken) {
      assert s[0..] == s;
      assert |Clean(s)| < |s|;
    } else if StartsWith(s, AttrsToken) {
      assert s[0..] == s;
      assert |Clean(s)| < |s|;
    } else {
      CleanFixesExactlyTokenFree(s[1..]);
      TokenShift(s);
      assert s == [s[0]] + s[1..];
    }
  }

  /** A modifier is removed wherever it stands, not only at the start. */
  lemma CleanRemovesToken(a: string, b: string)
    requires !HasToken(a)
    ensures Clean(a + HtmlToken + b) == a + Clean(b)
    ensures Clean(a + AttrsToken + b) == a + Clean(b)
  {
    CleanDropsLeadingToken(b);
    CleanPrefix(a, HtmlToken + b);
    CleanPrefix(a, AttrsToken + b);
    assert a + HtmlToken + b == a + (HtmlToken + b);
    assert a + AttrsToken + b == a + (AttrsToken + b);
  }

  lemma CleanDropsLeadingToken(b: string)
    ensures StartsWith(HtmlToken + b, HtmlToken) && Clean(HtmlToken + b) == Clean(b)
    ensures StartsWith(AttrsToken + b, AttrsToken) && Clean(AttrsToken + b) == Clean(b)
  {
    assert (HtmlToken + b)[..|HtmlToken|] == HtmlToken;
    assert (HtmlToken + b)[|HtmlToken|..] == b;
    assert (AttrsToken + b)[..|AttrsToken|] == AttrsToken;
    assert (AttrsToken + b)[|AttrsToken|..] == b;
    assert (AttrsToken + b)[1] == 'a';
  }

  /** Token-free text in front of a modifier is kept, and the scan goes on
      at the modifier. */
  lemma {:induction false} CleanPrefix(a: string, rest: string)
    requires !HasToken(a)
    requires StartsWith(rest, HtmlToken) || StartsWith(rest, AttrsToken)
    ensures Clean(a + rest) == a + Clean(rest)
  {
    if |a| == 0 {
      assert a + rest == rest;
    } else {
      var s := a + rest;
      StartsWithCrossing(a, rest);
      assert s[0] == a[0];
      assert s[1..] == a[1..] + rest;
      TokenFreeTail(a);
      CleanPrefix(a[1..], rest);
      assert Clean(s) == [a[0]] + Clean(a[1..] + rest);
      assert a == [a[0]] + a[1..];
    }
  }

  lemma TokenFreeTail(a: string)
    requires |a| > 0 && !HasToken(a)
    ensures !HasToken(a[1..])
  {
    forall i | 0 <= i < |a[1..]|
      ensures !StartsWith(a[1..][i..], HtmlToken) && !StartsWith(a[1..][i..], AttrsToken)
    {
      assert a[1..][i..] == a[i + 1..];
    }
  }

  /** A modifier at the start of `a + rest`, with `rest` itself starting with a
      modifier, would have to start inside `a`: `a` then holds a modifier. */
  lemma StartsWithCrossing(a: string, rest: string)
    requires |a| > 0 && !HasToken(a)
    requires StartsWith(rest, HtmlToken) || StartsWith(rest, AttrsToken)
    ensures !StartsWith(a + rest, HtmlToken) && !StartsWith(a + rest, AttrsToken)
  {
    var s := a + rest;
    assert rest[0] == ':';
    assert a[0..] == a;
    forall t | t == HtmlToken || t == AttrsToken
      ensures !StartsWith(s, t)
    {
      if |a| >= |t| {
        assert s[..|t|] == a[..|t|];
      } else {
        assert s[|a|] == ':';
        assert forall k :: 1 <= k < |t| ==> t[k] != ':';
      }
    }
  }

  /** The single pass can form a new modifier out of the pieces around a removed
      one: the cleaned fragment then still holds `:html`, and cleaning it again
      changes it. */
  lemma CleanCanLeaveToken()
    ensures Clean(":ht" + HtmlToken + "ml") == HtmlToken
    ensures HasToken(Clean(":ht" + HtmlToken + "ml"))
    ensures Clean(Clean(":ht" + HtmlToken + "ml")) != Clean(":ht" + HtmlToken + "ml")
  {
    assert !HasToken(":ht") by {
      forall i | 0 <= i < 3 ensures !StartsWith(":ht"[i..], HtmlToken) && !StartsWith(":ht"[i..], AttrsToken) {
      }
    }
    CleanRemovesToken(":ht", "ml");
    assert !HasToken("ml") by {
      forall i | 0 <= i < 2 ensures !StartsWith("ml"[i..], HtmlToken) && !StartsWith("ml"[i..], AttrsToken) {
      }
    }
    CleanFixesExactlyTokenFree("ml");
    assert ":ht" + "ml" == HtmlToken;
    assert HtmlToken[0..] == HtmlToken;
    assert StartsWith(HtmlToken, HtmlToken);
    assert HtmlToken[|HtmlToken|..] == "";
  }

  /** `currentValue` after its first two assignments: `false`, `null` and
      `undefined` become the empty string and an array its space join; every
      other value is kept. */
  function Current(v: Value): (r: Value)
    ensures !r.Arr? && !IsAbsent(r)
    ensures r == v <==> !IsAbsent(v) && !v.Arr?
    ensures IsAbsent(v) ==> r == Str("")
    ensures v.Arr? ==> r == Str(JoinArray(v.elems, " "))
  {
    if IsAbsent(v) then Str("") else if v.Arr? then Str(JoinArray(v.elems, " ")) else v
  }

  /** What `Object.keys` lists for an object, with what indexing gives: an
      `Obj`'s own entries, the single `value` field of a wrapper object. */
  function OwnEntries(v: Value): seq<(string, Value)>
  {
    if v.Obj? then v.entries
    else if v.Unsafe? || v.Html? then [("value", v.inner)]
    else []
  }

  /** One `key="value"` pair of the `:attrs` expansion: the value is written
      with `String(...)`, unescaped, whatever it is. */
  function Pair(key: string, value: Value): string
  {
    ToKebabCase(key) + "=\"" + JsString(value) + "\""
  }

  /** The `:attrs` expansion: every key's pair, in key order, joined by spaces. */
  function AttrPairs(entries: seq<(string, Value)>): string
  {
    Join(" ", seq(|entries|, i requires 0 <= i < |entries| => Pair(entries[i].0, entries[i].1)))
  }

  /** What the fold appends after a fragment for the value `v`, given the next
      fragment (`None` after the last one). */
  function ProcessValue(esc: Escaper, v: Value, next: Option<string>): (r: string)
    ensures next.None? ==> r == JsString(Current(v))
    ensures Escapes(v, next) ==> r == esc(JsString(Current(v)))
    ensures next.Some? && StartsWith(next.value, HtmlToken) ==> r == JsString(Current(v))
    ensures next.Some? && StartsWith(next.value, AttrsToken) && IsObjectTyped(Current(v))
            ==> r == AttrPairs(OwnEntries(Current(v)))
  {
    TokensExclusive(next);
    var cur := Current(v);
    if next.None? then JsString(cur)
    else if StartsWith(next.value, AttrsToken) && IsObjectTyped(cur) then AttrPairs(OwnEntries(cur))
    else if !StartsWith(next.value, HtmlToken) then esc(JsString(cur))
    else JsString(cur)
  }

  /** `values[i]`, `undefined` past the end. */
  function ValueAt(values: seq<Value>, i: nat): Value
  {
    if i < |values| then values[i] else Undefined
  }

  /** `strings[i + 1]`, `undefined` past the end. */
  function NextFragment(strings: seq<string>, i: nat): Option<string>
  {
    if i + 1 < |strings| then Some(strings[i + 1]) else None
  }

  /** The reduce after its first `n` steps: each step appends the cleaned
      fragment and the processed value. */
  function Reduce(esc: Escaper, strings: seq<string>, values: seq<Value>, n: nat): string
    requires n <= |strings|
  {
    if n == 0 then ""
    else Reduce(esc, strings, values, n - 1) + Clean(strings[n - 1])
         + ProcessValue(esc, ValueAt(values, n - 1), NextFragment(strings, n - 1))
  }

  /** The `html` tag. With one fragment more than values, as a tagged
      template calls it, the output is the cleaned fragments interleaved with
      the processed values, and nothing is appended after the last fragment;
      called with no fragments, the fold gives the empty string. */
  function HtmlTag(esc: Escaper, strings: seq<string>, values: seq<Value>): (r: string)
    ensures |strings| == |values| + 1 ==> r == Interleave(Cleaned(strings), Processed(esc, strings, values))
    ensures strings == [] ==> r == ""
  {
    if |strings| == |values| + 1 then ReduceComplete(esc, strings, values); Reduce(esc, strings, values, |strings|)
    else Reduce(esc, strings, values, |strings|)
  }

  function Cleaned(strings: seq<string>): (r: seq<string>)
    ensures |r| == |strings|
  {
    seq(|strings|, i requires 0 <= i < |strings| => Clean(strings[i]))
  }

  function Processed(esc: Escaper, strings: seq<string>, values: seq<Value>): (r: seq<string>)
    requires |strings| == |values| + 1
    ensures |r| == |values|
  {
    seq(|values|, i requires 0 <= i < |values| => ProcessValue(esc, values[i], Some(strings[i + 1])))
  }

  lemma {:induction false} ReduceInterleaves(esc: Escaper, strings: seq<string>, values: seq<Value>, n: nat)
    requires |strings| == |values| + 1 && n < |strings|
    ensures Reduce(esc, strings, values, n) + Clean(strings[n])
         == Interleave(Cleaned(strings)[..n + 1], Processed(esc, strings, values)[..n])
  {
    var c, p := Cleaned(strings), Processed(esc, strings, values);
    if n == 0 {
      assert c[..1] == [Clean(strings[0])];
    } else {
      ReduceInterleaves(esc, strings, values, n - 1);
      var before := Reduce(esc, strings, values, n - 1) + Clean(strings[n - 1]);
      assert before == Interleave(c[..n], p[..n - 1]);
      assert ValueAt(values, n - 1) == values[n - 1];
      assert NextFragment(strings, n - 1) == Some(strings[n]);
      assert p[n - 1] == ProcessValue(esc, values[n - 1], Some(strings[n]));
      assert Reduce(esc, strings, values, n) == before + p[n - 1];
      InterleaveSnoc(c[..n], p[..n - 1], p[n - 1], c[n]);
      TakeSnoc(c, n);
      TakeSnoc(p, n - 1);
    }
  }

  /** The whole fold: after the last fragment the value is `undefined` and
      there is no next fragment, so nothing is appended. */
  lemma ReduceComplete(esc: Escaper, strings: seq<string>, values: seq<Value>)
    requires |strings| == |values| + 1
    ensures Reduce(esc, strings, values, |strings|) == Interleave(Cleaned(strings), Processed(esc, strings, values))
  {
    var n := |values|;
    var c, p := Cleaned(strings), Processed(esc, strings, values);
    assert c[..n + 1] == c && p[..n] == p;
    ReduceInterleaves(esc, strings, values, n);
    var last := ProcessValue(esc, ValueAt(values, n), NextFragment(strings, n));
    assert last == "" by {
      assert ValueAt(values, n) == Undefined;
      assert NextFragment(strings, n) == None;
    }
    assert Reduce(esc, strings, values, n + 1) == Reduce(esc, strings, values, n) + Clean(strings[n]) + last;
  }

  /** The value's text is escaped, exactly once, when the next fragment starts
      with no modifier, or with `:attrs` while the value is not an object; it
      is written unescaped after `:html`, and after the last fragment. */
  predicate Escapes(v: Value, next: Option<string>)
  {
    next.Some? && !StartsWith(next.value, HtmlToken)
    && !(StartsWith(next.value, AttrsToken) && IsObjectTyped(Current(v)))
  }

  lemma LookaheadDecides(esc: Escaper, v: Value, next: Option<string>)
    ensures !Escapes(v, next) ==> forall e: Escaper :: ProcessValue(e, v, next) == ProcessValue(esc, v, next)
  {
    TokensExclusive(next);
  }

  /** No fragment starts with both modifiers. */
  lemma TokensExclusive(next: Option<string>)
    ensures next.Some? ==> !(StartsWith(next.value, HtmlToken) && StartsWith(next.value, AttrsToken))
  {
    if next.Some? && StartsWith(next.value, HtmlToken) {
      assert next.value[1] == 'h';
    }
  }

  /** `false`, `null` and `undefined` become the empty string, which is still
      handed to the escaper unless `:html` follows; `0` is kept and written as
      "0", escaped the same way. */
  lemma AbsentAndZero(esc: Escaper, v: Value, f: string)
    requires !StartsWith(f, HtmlToken)
    ensures IsAbsent(v) ==> ProcessValue(esc, v, Some(f)) == esc("")
    ensures IsAbsent(v) ==> ProcessValue(esc, v, Some(HtmlToken + f)) == ""
    ensures ProcessValue(esc, Num(0), Some(f)) == esc("0")
    ensures ProcessValue(esc, Num(0), Some(HtmlToken + f)) == "0"
  {
    assert StartsWith(HtmlToken + f, HtmlToken);
  }

  /** An array is joined with spaces first and the joined text escaped as a
      whole, once; src/html.ts instead escapes each element on its own. */
  lemma ArrayEscapedAsAWhole(esc: Escaper, xs: seq<Value>, f: string)
    requires !StartsWith(f, HtmlToken)
    ensures ProcessValue(esc, Arr(xs), Some(f)) == esc(JoinArray(xs, " "))
  {
    assert Escapes(Arr(xs), Some(f));
  }

  /** Two strings in an array: escaped together, the space between them too. */
  lemma StringPairEscapedAsAWhole(esc: Escaper, a: string, b: string, f: string)
    requires !StartsWith(f, HtmlToken)
    ensures ProcessValue(esc, Arr([Str(a), Str(b)]), Some(f)) == esc(a + " " + b)
  {
    ArrayEscapedAsAWhole(esc, [Str(a), Str(b)], f);
    var xs := [Str(a), Str(b)];
    assert ElementString(xs[0]) == a && ElementString(xs[1]) == b;
    assert seq(|xs|, i requires 0 <= i < |xs| => ElementString(xs[i])) == [a, b];
    assert Join(" ", [a, b]) == a + " " + Join(" ", [b]);
  }

  /** After `:attrs`, an object becomes one pair per key in key order, none
      left out (a `false` value too) and nothing escaped. */
  lemma AttrsExpandsEveryKey(esc: Escaper, entries: seq<(string, Value)>, text: string, rest: string)
    ensures ProcessValue(esc, Obj(entries, text), Some(AttrsToken + rest))
         == Join(" ", seq(|entries|, i requires 0 <= i < |entries| => Pair(entries[i].0, entries[i].1)))
    ensures forall e: Escaper ::
              ProcessValue(e, Obj(entries, text), Some(AttrsToken + rest))
              == ProcessValue(esc, Obj(entries, text), Some(AttrsToken + rest))
  {
    assert StartsWith(AttrsToken + rest, AttrsToken);
    LookaheadDecides(esc, Obj(entries, text), Some(AttrsToken + rest));
  }

  /** A `false` attribute is written, not omitted as src/html.ts would. */
  lemma PairKeepsFalse(key: string)
    ensures Pair(key, Bool(false)) == ToKebabCase(key) + "=\"false\""
  {
  }

  /** `:attrs` after a value that is not an object (a string, a number, or the
      empty string an absent value became) escapes it as with no modifier. */
  lemma AttrsOnNonObjectEscapes(esc: Escaper, v: Value, rest: string)
    requires !IsObjectTyped(Current(v))
    ensures ProcessValue(esc, v, Some(AttrsToken + rest)) == esc(JsString(Current(v)))
  {
    assert !StartsWith(AttrsToken + rest, HtmlToken) by {
      assert (AttrsToken + rest)[1] == 'a';
    }
  }

  /** The tag returns a plain string, so a template nested in another one is
      escaped again unless `:html` follows it. */
  lemma NestedNeedsHtmlModifier(esc: Escaper, inner: seq<string>, innerValues: seq<Value>, f: string)
    requires !StartsWith(f, HtmlToken) && !StartsWith(f, AttrsToken)
    ensures ProcessValue(esc, Str(HtmlTag(esc, inner, innerValues)), Some(f)) == esc(HtmlTag(esc, inner, innerValues))
    ensures ProcessValue(esc, Str(HtmlTag(esc, inner, innerValues)), Some(HtmlToken + f)) == HtmlTag(esc, inner, innerValues)
  {
    assert StartsWith(HtmlToken + f, HtmlToken);
  }
}
