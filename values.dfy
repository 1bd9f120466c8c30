/** The values a template interpolates, as a closed variant type in place of
    JavaScript's runtime `typeof` / `instanceof` checks, together with the
    JavaScript string conversions the renderers rely on, and the escaper. */
module Values {
  import opened Strings

  datatype Value =
    | Null
    | Undefined
    | Bool(b: bool)
    | Num(n: int)
    | Str(s: string)
    | Arr(elems: seq<Value>)
    /** `UnsafeValue` (src/html.ts) / `UnsafeString` (lib/html.js): a value the caller vouches for */
    | Unsafe(inner: Value)
    /** `HtmlString`: the result of a template, or any value wrapped as already-safe markup */
    | Html(inner: Value)
    /** Any other object: its own enumerable entries in enumeration order (what
        `Object.entries` and `Object.keys` list) and what its `toString()` returns */
    | Obj(entries: seq<(string, Value)>, text: string)

  /** `false`, `null` and `undefined`: the values every variant renders as nothing. */
  predicate IsAbsent(v: Value)
  {
    v == Bool(false) || v.Null? || v.Undefined?
  }

  /** `typeof v === "object"`. */
  predicate IsObjectTyped(v: Value)
  {
    v.Null? || v.Arr? || v.Unsafe? || v.Html? || v.Obj?
  }

  /** `String(v)`, which is also what `${v}` in a template literal and
      `String.raw` produce. An array is `Array.prototype.toString`, a comma join;
      the wrapper classes define no `toString` and fall back to `Object.prototype`'s. */
  function JsString(v: Value): (r: string)
    ensures v.Str? ==> r == v.s
    ensures v.Arr? && |v.elems| == 0 ==> r == ""
    ensures v.Arr? && |v.elems| == 1 ==> r == ElementString(v.elems[0])
    ensures v.Unsafe? || v.Html? ==> r == "[object Object]"
    ensures v.Null? ==> r == "null"
    ensures v.Undefined? ==> r == "undefined"
    ensures v.Bool? ==> r == (if v.b then "true" else "false")
    ensures v.Num? ==> r == Decimal(v.n)
    ensures v.Obj? ==> r == v.text
    decreases v, 0
  {
    match v
    case Null => "null"
    case Undefined => "undefined"
    case Bool(b) => if b then "true" else "false"
    case Num(n) => Decimal(n)
    case Str(s) => s
    case Arr(xs) => Join(",", seq(|xs|, i requires 0 <= i < |xs| => ElementString(xs[i])))
    case Unsafe(_) => "[object Object]"
    case Html(_) => "[object Object]"
    case Obj(_, text) => text
  }

  /** How `Array.prototype.join` converts one element: `null` and `undefined`
      contribute nothing, anything else its `String(...)`. */
  function ElementString(v: Value): string
    decreases v, 1
  {
    if v.Null? || v.Undefined? then "" else JsString(v)
  }

  /** An array of two or more elements is its first element as `join` converts
      it, a comma, and the rest of the array converted the same way. With the
      cases of `[]` and one element this fixes `String(...)` of every array. */
  lemma JsStringArrayCons(x: Value, xs: seq<Value>)
    requires |xs| > 0
    ensures JsString(Arr([x] + xs)) == ElementString(x) + "," + JsString(Arr(xs))
  {
    var ys := [x] + xs;
    var parts := seq(|ys|, i requires 0 <= i < |ys| => ElementString(ys[i]));
    var rest := seq(|xs|, i requires 0 <= i < |xs| => ElementString(xs[i]));
    assert parts[1..] == rest;
    assert JsString(Arr(ys)) == Join(",", parts);
    assert JsString(Arr(xs)) == Join(",", rest);
  }

  /** `xs.join(sep)` on an array of values. */
  function JoinArray(xs: seq<Value>, sep: string): string
  {
    Join(sep, seq(|xs|, i requires 0 <= i < |xs| => ElementString(xs[i])))
  }

  /** The HTML sanitiser (the `xss` package): a foreign function the model
      knows nothing about, so every property below holds for all of them. */
  type Escaper = string -> string

  /** A piece of rendered output, before the escaper is consulted: either
      text that is emitted as it is, or text that is emitted through the escaper. */
  datatype Segment = Verbatim(text: string) | Escaped(text: string)

  /** The output of a list of segments under a given escaper. */
  function Fill(esc: Escaper, segs: seq<Segment>): string
  {
    if segs == [] then ""
    else (match segs[0] case Verbatim(t) => t case Escaped(t) => esc(t)) + Fill(esc, segs[1..])
  }

  predicate AllVerbatim(segs: seq<Segment>)
  {
    forall i :: 0 <= i < |segs| ==> segs[i].Verbatim?
  }

  lemma {:induction false} FillAppend(esc: Escaper, a: seq<Segment>, b: seq<Segment>)
    ensures Fill(esc, a + b) == Fill(esc, a) + Fill(esc, b)
  {
    if a == [] {
      assert a + b == b;
    } else {
      assert (a + b)[0] == a[0];
      assert (a + b)[1..] == a[1..] + b;
      FillAppend(esc, a[1..], b);
    }
  }

  /** Segments with nothing to escape read the same under every escaper. */
  lemma {:induction false} FillVerbatim(e1: Escaper, e2: Escaper, segs: seq<Segment>)
    requires AllVerbatim(segs)
    ensures Fill(e1, segs) == Fill(e2, segs)
  {
    if segs != [] {
      FillVerbatim(e1, e2, segs[1..]);
    }
  }

  /** Filling a joined list of segment lists is joining their fills, when the
      separator is verbatim text. */
  lemma {:induction false} FillJoin(esc: Escaper, sep: string, parts: seq<seq<Segment>>)
    ensures Fill(esc, Join([Verbatim(sep)], parts))
         == Join(sep, seq(|parts|, i requires 0 <= i < |parts| => Fill(esc, parts[i])))
  {
    var fills := seq(|parts|, i requires 0 <= i < |parts| => Fill(esc, parts[i]));
    if |parts| == 1 {
    } else if |parts| > 1 {
      var rest := seq(|parts[1..]|, i requires 0 <= i < |parts[1..]| => Fill(esc, parts[1..][i]));
      FillJoin(esc, sep, parts[1..]);
      assert rest == fills[1..];
      FillAppend(esc, parts[0], [Verbatim(sep)] + Join([Verbatim(sep)], parts[1..]));
      FillAppend(esc, [Verbatim(sep)], Join([Verbatim(sep)], parts[1..]));
      assert Fill(esc, [Verbatim(sep)]) == sep;
      assert parts[0] + [Verbatim(sep)] + Join([Verbatim(sep)], parts[1..])
          == parts[0] + ([Verbatim(sep)] + Join([Verbatim(sep)], parts[1..]));
    }
  }

  /** Joining a list of all-verbatim segment lists with a verbatim separator
      leaves nothing to escape. */
  lemma {:induction false} JoinVerbatim(sep: string, parts: seq<seq<Segment>>)
    requires forall i :: 0 <= i < |parts| ==> AllVerbatim(parts[i])
    ensures AllVerbatim(Join([Verbatim(sep)], parts))
  {
    if |parts| > 1 {
      JoinVerbatim(sep, parts[1..]);
    }
  }
}
