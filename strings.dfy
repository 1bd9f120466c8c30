/** JavaScript string operations the renderer is built from: `Array.prototype.join`,
    `String.prototype.trim`, `startsWith`, `String.raw` over a template's fragments,
    and `Number.prototype.toString` restricted to integers. */
module Strings {

  /** `parts.join(sep)`: the parts in order with one `sep` between neighbours. */
  function Join<T>(sep: seq<T>, parts: seq<seq<T>>): seq<T>
  {
    if |parts| == 0 then []
    else if |parts| == 1 then parts[0]
    else parts[0] + sep + Join(sep, parts[1..])
  }

  /** Joining two non-empty lists of parts puts exactly one separator at the seam. */
  lemma {:induction false} JoinAppend<T>(sep: seq<T>, a: seq<seq<T>>, b: seq<seq<T>>)
    requires |a| > 0 && |b| > 0
    ensures Join(sep, a + b) == Join(sep, a) + sep + Join(sep, b)
  {
    if |a| == 1 {
      assert (a + b)[1..] == b;
    } else {
      assert (a + b)[1..] == a[1..] + b;
      JoinAppend(sep, a[1..], b);
    }
  }

  function StartsWith(s: string, prefix: string): bool
  {
    |prefix| <= |s| && s[..|prefix|] == prefix
  }

  function EndsWith(s: string, suffix: string): bool
  {
    |suffix| <= |s| && s[|s| - |suffix|..] == suffix
  }

  /** The characters `String.prototype.trim` removes: ECMAScript's WhiteSpace
      (tab, vertical tab, form feed, space, no-break space, the byte order mark and
      the Unicode space separators) and LineTerminator (LF, CR, LS, PS). */
  predicate IsWhitespace(c: char)
  {
    || c == '\t' || c == '\n' || c == '\U{000B}' || c == '\U{000C}' || c == '\r'
    || c == ' ' || c == '\U{00A0}' || c == '\U{1680}'
    || ('\U{2000}' <= c <= '\U{200A}')
    || c == '\U{2028}' || c == '\U{2029}' || c == '\U{202F}' || c == '\U{205F}'
    || c == '\U{3000}' || c == '\U{FEFF}'
  }

  predicate AllWhitespace(s: string)
  {
    forall i :: 0 <= i < |s| ==> IsWhitespace(s[i])
  }

  /** Neither end of `s` is whitespace. */
  predicate IsTrimmed(s: string)
  {
    s == [] || (!IsWhitespace(s[0]) && !IsWhitespace(s[|s| - 1]))
  }

  /** `s` is `r` with the whitespace `s[..k]` in front and whitespace after it. */
  predicate PaddedAt(s: string, r: string, k: nat)
  {
    k + |r| <= |s| && s[k..k + |r|] == r && AllWhitespace(s[..k]) && AllWhitespace(s[k + |r|..])
  }

  /** The number of whitespace characters `s` starts with. */
  function LeadingSpace(s: string): (n: nat)
    ensures n <= |s|
    ensures forall i :: 0 <= i < n ==> IsWhitespace(s[i])
    ensures n == |s| || !IsWhitespace(s[n])
  {
    if s != [] && IsWhitespace(s[0]) then 1 + LeadingSpace(s[1..]) else 0
  }

  /** The length of `s` without the whitespace it ends with. */
  function TextEnd(s: string): (n: nat)
    ensures n <= |s|
    ensures forall i :: n <= i < |s| ==> IsWhitespace(s[i])
    ensures n == 0 || !IsWhitespace(s[n - 1])
  {
    if s != [] && IsWhitespace(s[|s| - 1]) then TextEnd(s[..|s| - 1]) else |s|
  }

  /** `LeadingSpace` is the one count with whitespace before it and none at it. */
  lemma LeadingSpaceUnique(s: string, n: nat)
    requires n <= |s| && (forall i :: 0 <= i < n ==> IsWhitespace(s[i]))
    requires n == |s| || !IsWhitespace(s[n])
    ensures LeadingSpace(s) == n
  {
  }

  /** `TextEnd` is the one length with whitespace after it and none just before. */
  lemma TextEndUnique(s: string, n: nat)
    requires n <= |s| && (forall i :: n <= i < |s| ==> IsWhitespace(s[i]))
    requires n == 0 || !IsWhitespace(s[n - 1])
    ensures TextEnd(s) == n
  {
  }

  /** `String.prototype.trim`: the result is the slice of `s` between its
      leading and its trailing whitespace, and has no whitespace at either end. */
  function Trim(s: string): (r: string)
    ensures IsTrimmed(r)
    ensures PaddedAt(s, r, LeadingSpace(s))
  {
    var a := LeadingSpace(s);
    if a == |s| then [] else s[a..TextEnd(s)]
  }

  /** An empty part between two non-empty lists of parts leaves two separators
      side by side. */
  lemma JoinEmptyBetween<T>(sep: seq<T>, a: seq<seq<T>>, b: seq<seq<T>>)
    requires |a| > 0 && |b| > 0
    ensures Join(sep, a + [[]] + b) == Join(sep, a) + sep + sep + Join(sep, b)
  {
    var ja := Join(sep, a);
    assert Join(sep, [[]]) == [];
    JoinAppend(sep, a, [[]]);
    assert Join(sep, a + [[]]) == ja + sep;
    JoinAppend(sep, a + [[]], b);
    assert Join(sep, a + [[]] + b) == ja + sep + sep + Join(sep, b);
  }

  /** Trimming a string that has no whitespace at either end changes nothing. */
  lemma TrimFixesTrimmed(s: string)
    requires IsTrimmed(s)
    ensures Trim(s) == s
  {
  }

  /** Whitespace between two trimmed, non-empty texts survives the trim. */
  lemma TrimKeepsInnerSpaces(x: string, sep: string, y: string)
    requires x != [] && y != [] && IsTrimmed(x) && IsTrimmed(y)
    ensures IsTrimmed(x + sep + y) && Trim(x + sep + y) == x + sep + y
  {
    var j := x + sep + y;
    assert j[0] == x[0];
    assert j[|j| - 1] == y[|y| - 1];
    TrimFixesTrimmed(j);
  }

  /** `trim` is idempotent. */
  lemma TrimIdempotent(s: string)
    ensures Trim(Trim(s)) == Trim(s)
  {
    TrimFixesTrimmed(Trim(s));
  }

  /** Trailing whitespace makes no difference to `trim`. */
  lemma TrimIgnoresTrailingWhitespace(x: string, y: string)
    requires AllWhitespace(y)
    ensures Trim(x + y) == Trim(x)
  {
    var s := x + y;
    var a := LeadingSpace(x);
    LeadingSpaceAppend(x, y);
    if a < |x| {
      var e := TextEnd(x);
      TextEndAppend(x, y);
      assert s[a..e] == x[a..e];
    }
  }

  lemma LeadingSpaceAppend(x: string, y: string)
    requires AllWhitespace(y)
    ensures LeadingSpace(x) < |x| ==> LeadingSpace(x + y) == LeadingSpace(x)
    ensures LeadingSpace(x) == |x| ==> LeadingSpace(x + y) == |x + y|
  {
    var s := x + y;
    var a := LeadingSpace(x);
    if a == |x| {
      assert forall i :: 0 <= i < |s| ==> IsWhitespace(s[i]) by {
        forall i | 0 <= i < |s| ensures IsWhitespace(s[i]) {
          if i < |x| { assert s[i] == x[i]; } else { assert s[i] == y[i - |x|]; }
        }
      }
      LeadingSpaceUnique(s, |s|);
    } else {
      assert s[a] == x[a];
      LeadingSpaceUnique(s, a);
    }
  }

  lemma TextEndAppend(x: string, y: string)
    requires AllWhitespace(y) && LeadingSpace(x) < |x|
    ensures TextEnd(x + y) == TextEnd(x)
  {
    var s := x + y;
    var e := TextEnd(x);
    assert e > 0 by {
      if e == 0 {
        assert !IsWhitespace(x[LeadingSpace(x)]);
      }
    }
    assert s[e - 1] == x[e - 1];
    forall i | e <= i < |s| ensures IsWhitespace(s[i]) {
      if i < |x| { assert s[i] == x[i]; } else { assert s[i] == y[i - |x|]; }
    }
    TextEndUnique(s, e);
  }

  /** Joining non-empty parts with no whitespace at their ends, with a space,
      leaves no whitespace at the ends. */
  lemma {:induction false} JoinTrimmed(parts: seq<string>)
    requires forall i :: 0 <= i < |parts| ==> parts[i] != [] && IsTrimmed(parts[i])
    ensures IsTrimmed(Join(" ", parts))
    ensures |parts| > 0 ==> Join(" ", parts) != [] && Join(" ", parts)[0] == parts[0][0]
  {
    if |parts| > 1 {
      JoinTrimmed(parts[1..]);
      var rest := Join(" ", parts[1..]);
      assert Join(" ", parts) == parts[0] + " " + rest;
    }
  }

  /** `String.raw({ raw: fragments }, ...subs)` for a tagged template: the fragments
      with substitution `i` between fragment `i` and fragment `i + 1`. */
  function Interleave(fragments: seq<string>, subs: seq<string>): string
    requires |fragments| == |subs| + 1
    decreases |subs|
  {
    if |subs| == 0 then fragments[0]
    else fragments[0] + subs[0] + Interleave(fragments[1..], subs[1..])
  }

  /** The fragments are emitted as written: the text starts with the first
      fragment and ends with the last. */
  lemma {:induction false} InterleaveEnds(fragments: seq<string>, subs: seq<string>)
    requires |fragments| == |subs| + 1
    ensures StartsWith(Interleave(fragments, subs), fragments[0])
    ensures EndsWith(Interleave(fragments, subs), fragments[|subs|])
    decreases |subs|
  {
    if |subs| > 0 {
      InterleaveEnds(fragments[1..], subs[1..]);
      var rest := Interleave(fragments[1..], subs[1..]);
      assert Interleave(fragments, subs) == (fragments[0] + subs[0]) + rest;
      assert fragments[1..][|subs[1..]|] == fragments[|subs|];
    }
  }

  /** Cutting a template at substitution `k`. */
  lemma {:induction false} InterleaveSplit(f: seq<string>, s: seq<string>, k: nat)
    requires |f| == |s| + 1 && k < |s|
    ensures Interleave(f, s) == Interleave(f[..k + 1], s[..k]) + s[k] + Interleave(f[k + 1..], s[k + 1..])
    decreases k
  {
    if k == 0 {
      assert Interleave(f[..1], s[..0]) == f[0];
    } else {
      var f1, s1 := f[1..], s[1..];
      InterleaveSplit(f1, s1, k - 1);
      var left, right := Interleave(f1[..k], s1[..k - 1]), Interleave(f1[k..], s1[k..]);
      assert Interleave(f1, s1) == left + s1[k - 1] + right;
      assert f[..k + 1][1..] == f1[..k] && s[..k][1..] == s1[..k - 1];
      assert Interleave(f[..k + 1], s[..k]) == f[0] + s[0] + left;
      assert f1[k..] == f[k + 1..] && s1[k..] == s[k + 1..] && s1[k - 1] == s[k];
      assert Interleave(f, s) == f[0] + s[0] + Interleave(f1, s1);
    }
  }

  /** Appending one substitution and one fragment to a template appends them to
      its text: the left-to-right view of `String.raw`. */
  lemma {:induction false} InterleaveSnoc(fragments: seq<string>, subs: seq<string>, sub: string, fragment: string)
    requires |fragments| == |subs| + 1
    ensures Interleave(fragments + [fragment], subs + [sub]) == Interleave(fragments, subs) + sub + fragment
    decreases |subs|
  {
    if |subs| == 0 {
      assert (fragments + [fragment])[1..] == [fragment];
      assert (subs + [sub])[1..] == [];
    } else {
      var f, ss := fragments + [fragment], subs + [sub];
      assert f[1..] == fragments[1..] + [fragment];
      assert ss[1..] == subs[1..] + [sub];
      InterleaveSnoc(fragments[1..], subs[1..], sub, fragment);
      var tail := Interleave(fragments[1..], subs[1..]);
      assert Interleave(f, ss) == fragments[0] + subs[0] + (tail + sub + fragment);
      assert Interleave(fragments, subs) == fragments[0] + subs[0] + tail;
    }
  }

  /** Two templates written one after the other are one template whose seam
      fragment is the last fragment of the first glued to the first of the second. */
  lemma {:induction false} InterleaveConcat(f1: seq<string>, s1: seq<string>, f2: seq<string>, s2: seq<string>)
    requires |f1| == |s1| + 1 && |f2| == |s2| + 1
    ensures Interleave(f1, s1) + Interleave(f2, s2)
         == Interleave(f1[..|s1|] + [f1[|s1|] + f2[0]] + f2[1..], s1 + s2)
    decreases |s1|
  {
    var glued := f1[..|s1|] + [f1[|s1|] + f2[0]] + f2[1..];
    if |s1| == 0 {
      assert glued == [f1[0] + f2[0]] + f2[1..];
      assert s1 + s2 == s2;
      if |s2| > 0 {
        assert glued[1..] == f2[1..];
        assert Interleave(glued, s2) == f1[0] + f2[0] + s2[0] + Interleave(f2[1..], s2[1..]);
      }
    } else {
      assert glued[0] == f1[0];
      assert glued[1..] == f1[1..][..|s1[1..]|] + [f1[1..][|s1[1..]|] + f2[0]] + f2[1..];
      assert (s1 + s2)[1..] == s1[1..] + s2;
      InterleaveConcat(f1[1..], s1[1..], f2, s2);
    }
  }

  /** The fragments of `f2` appended to those of `f1`, the seam fragments glued. */
  function Glue(f1: seq<string>, f2: seq<string>): (r: seq<string>)
    requires |f1| > 0 && |f2| > 0
    ensures |r| == |f1| + |f2| - 1
  {
    f1[..|f1| - 1] + [f1[|f1| - 1] + f2[0]] + f2[1..]
  }

  /** A substitution that is itself an interleaving can be inlined: its
      fragments glued into the outer ones, its substitutions spliced in. */
  lemma InterleaveInline(strings: seq<string>, subs: seq<string>, k: nat, inner: seq<string>, innerSubs: seq<string>)
    requires |strings| == |subs| + 1 && k < |subs| && |inner| == |innerSubs| + 1
    requires subs[k] == Interleave(inner, innerSubs)
    ensures Interleave(strings, subs)
         == Interleave(Glue(Glue(strings[..k + 1], inner), strings[k + 1..]), subs[..k] + innerSubs + subs[k + 1..])
  {
    InterleaveSplit(strings, subs, k);
    InterleaveConcat(strings[..k + 1], subs[..k], inner, innerSubs);
    var left := Glue(strings[..k + 1], inner);
    assert strings[..k + 1][..|subs[..k]|] == strings[..k + 1][..|strings[..k + 1]| - 1];
    InterleaveConcat(left, subs[..k] + innerSubs, strings[k + 1..], subs[k + 1..]);
  }

  lemma TakeSnoc<T>(s: seq<T>, n: nat)
    requires n < |s|
    ensures s[..n] + [s[n]] == s[..n + 1]
  {
  }

  function Digit(d: nat): (c: char)
    requires d < 10
    ensures '0' <= c <= '9' && c as int - '0' as int == d
  {
    ('0' as int + d) as char
  }

  predicate AllDigits(s: string)
  {
    forall i :: 0 <= i < |s| ==> '0' <= s[i] <= '9'
  }

  /** The number a string of decimal digits stands for, most significant first. */
  function DigitsValue(s: string): nat
    requires AllDigits(s)
  {
    if s == [] then 0 else 10 * DigitsValue(s[..|s| - 1]) + (s[|s| - 1] as int - '0' as int)
  }

  /** The decimal numeral of a natural number, without leading zeros: its
      digits stand for `n`. */
  function NatDecimal(n: nat): (r: string)
    ensures |r| > 0 && AllDigits(r)
    ensures DigitsValue(r) == n
    ensures r[0] == '0' <==> n == 0
    ensures n == 0 ==> r == "0"
  {
    if n < 10 then [Digit(n)]
    else
      var front := NatDecimal(n / 10);
      var r := front + [Digit(n % 10)];
      assert r[..|r| - 1] == front;
      r
  }

  /** `Number.prototype.toString()` on an integer: a non-empty numeral, with a
      leading minus sign exactly for negative numbers, followed by the digits
      of the magnitude; zero is "0". */
  function Decimal(n: int): (r: string)
    ensures |r| > 0
    ensures r[0] == '-' <==> n < 0
    ensures r == "0" <==> n == 0
    ensures n < 0 ==> AllDigits(r[1..]) && DigitsValue(r[1..]) == -n
    ensures n >= 0 ==> AllDigits(r) && DigitsValue(r) == n
    ensures n > 0 ==> r[0] != '0'
    ensures n < 0 ==> r[1] != '0'
  {
    if n < 0 then
      var r := "-" + NatDecimal(-n);
      assert r[1..] == NatDecimal(-n);
      r
    else NatDecimal(n)
  }
}
