/** `toKebabCase`, identical in all three variants:
    `value.replace(/([a-z0-9]|(?=[A-Z]))([A-Z])/g, "$1-$2").toLowerCase()`. */
module Kebab {
  import opened Strings

  predicate IsUpper(c: char)
  {
    'A' <= c <= 'Z'
  }

  predicate IsLowerOrDigit(c: char)
  {
    ('a' <= c <= 'z') || ('0' <= c <= '9')
  }

  predicate HasUpper(s: string)
  {
    exists i :: 0 <= i < |s| && IsUpper(s[i])
  }

  function LowerChar(c: char): char
  {
    if IsUpper(c) then (c as int + 32) as char else c
  }

  /** `toLowerCase`, on the ASCII letters. */
  function LowerAscii(s: string): (r: string)
    ensures |r| == |s|
    ensures !HasUpper(r)
  {
    seq(|s|, i requires 0 <= i < |s| => LowerChar(s[i]))
  }

  /** The global `replace`, one match attempt at a time from the left. The first
      alternative matches a lower-case letter or digit followed by an upper-case
      letter and consumes both; the second matches an upper-case letter through
      the lookahead, with `$1` empty; where neither matches, the scan moves on by
      one character. Every upper-case letter gets exactly one hyphen. */
  function HyphenateScan(s: string): (r: string)
    ensures |r| == |s| + CountUpper(s)
  {
    if |s| == 0 then ""
    else if |s| >= 2 && IsLowerOrDigit(s[0]) && IsUpper(s[1]) then
      assert s[1..][1..] == s[2..];
      assert CountUpper(s) == 1 + CountUpper(s[2..]);
      [s[0], '-', s[1]] + HyphenateScan(s[2..])
    else if IsUpper(s[0]) then ['-', s[0]] + HyphenateScan(s[1..])
    else [s[0]] + HyphenateScan(s[1..])
  }

  function ToKebabCase(s: string): (r: string)
    ensures !HasUpper(r)
  {
    LowerAscii(HyphenateScan(s))
  }

  /** Reference definition: a hyphen in front of every upper-case letter. */
  function HyphenBeforeUpper(s: string): string
  {
    if s == [] then ""
    else (if IsUpper(s[0]) then ['-', s[0]] else [s[0]]) + HyphenBeforeUpper(s[1..])
  }

  function CountUpper(s: string): nat
  {
    if s == [] then 0 else (if IsUpper(s[0]) then 1 else 0) + CountUpper(s[1..])
  }

  /** The regular expression's two alternatives together put a hyphen before
      every upper-case letter, whatever precedes it, and touch nothing else. */
  lemma {:induction false} ScanIsHyphenBeforeUpper(s: string)
    ensures HyphenateScan(s) == HyphenBeforeUpper(s)
    decreases |s|
  {
    if |s| >= 2 && IsLowerOrDigit(s[0]) && IsUpper(s[1]) {
      ScanIsHyphenBeforeUpper(s[2..]);
      assert !IsUpper(s[0]);
      assert s[1..][1..] == s[2..];
      assert HyphenBeforeUpper(s[1..]) == ['-', s[1]] + HyphenBeforeUpper(s[2..]);
      assert HyphenBeforeUpper(s) == [s[0]] + HyphenBeforeUpper(s[1..]);
      assert HyphenateScan(s) == [s[0], '-', s[1]] + HyphenateScan(s[2..]);
    } else if |s| > 0 {
      ScanIsHyphenBeforeUpper(s[1..]);
    }
  }

  /** The kebab-cased key of `toKebabCase`: each upper-case letter becomes a
      hyphen and its lower-case form, everything else is kept. */
  lemma KebabIsHyphenatedLowercase(s: string)
    ensures ToKebabCase(s) == LowerAscii(HyphenBeforeUpper(s))
  {
    ScanIsHyphenBeforeUpper(s);
  }

  lemma {:induction false} HyphenLength(s: string)
    ensures |HyphenBeforeUpper(s)| == |s| + CountUpper(s)
  {
    if s != [] {
      HyphenLength(s[1..]);
    }
  }

  /** One hyphen is added per upper-case letter of the key. */
  lemma KebabLength(s: string)
    ensures |ToKebabCase(s)| == |s| + CountUpper(s)
  {
    ScanIsHyphenBeforeUpper(s);
    HyphenLength(s);
  }

  lemma {:induction false} NoUpperCountZero(s: string)
    ensures !HasUpper(s) <==> CountUpper(s) == 0
  {
    if s != [] {
      NoUpperCountZero(s[1..]);
      if IsUpper(s[0]) {
        assert HasUpper(s);
      } else if HasUpper(s) {
        var i :| 0 <= i < |s| && IsUpper(s[i]);
        assert IsUpper(s[1..][i - 1]);
      } else {
        assert !HasUpper(s[1..]) by {
          forall i | 0 <= i < |s[1..]| ensures !IsUpper(s[1..][i]) {
            assert s[1..][i] == s[i + 1];
          }
        }
      }
    }
  }

  lemma {:induction false} HyphenFixesLower(s: string)
    requires !HasUpper(s)
    ensures HyphenBeforeUpper(s) == s
  {
    if s != [] {
      assert !IsUpper(s[0]);
      assert !HasUpper(s[1..]) by {
        forall i | 0 <= i < |s[1..]| ensures !IsUpper(s[1..][i]) {
          assert s[1..][i] == s[i + 1];
        }
      }
      HyphenFixesLower(s[1..]);
    }
  }

  /** A key is left as it is exactly when it has no upper-case letter. */
  lemma KebabFixesExactlyLowercase(s: string)
    ensures ToKebabCase(s) == s <==> !HasUpper(s)
  {
    KebabLength(s);
    NoUpperCountZero(s);
    if !HasUpper(s) {
      KebabIsHyphenatedLowercase(s);
      HyphenFixesLower(s);
      assert LowerAscii(s) == s;
    }
  }

  /** Kebab-casing an already kebab-cased key changes nothing. */
  lemma KebabIdempotent(s: string)
    ensures ToKebabCase(ToKebabCase(s)) == ToKebabCase(s)
  {
    KebabFixesExactlyLowercase(ToKebabCase(s));
  }

  lemma {:induction false} HyphenAppend(a: string, b: string)
    ensures HyphenBeforeUpper(a + b) == HyphenBeforeUpper(a) + HyphenBeforeUpper(b)
  {
    if a == [] {
      assert a + b == b;
    } else {
      assert (a + b)[1..] == a[1..] + b;
      HyphenAppend(a[1..], b);
    }
  }

  lemma HyphenWord(upper: char, rest: string)
    requires IsUpper(upper) && !HasUpper(rest)
    ensures HyphenBeforeUpper([upper] + rest) == ['-', upper] + rest
  {
    assert ([upper] + rest)[1..] == rest;
    HyphenFixesLower(rest);
  }

  /** `key` is `head` followed by a capitalised word. */
  lemma HyphenCamel(head: string, upper: char, rest: string)
    requires !HasUpper(head) && IsUpper(upper) && !HasUpper(rest)
    ensures HyphenBeforeUpper(head + [upper] + rest) == head + ['-', upper] + rest
  {
    assert head + [upper] + rest == head + ([upper] + rest);
    HyphenAppend(head, [upper] + rest);
    HyphenFixesLower(head);
    HyphenWord(upper, rest);
  }

  lemma LowerAsciiFixesLower(s: string)
    requires !HasUpper(s)
    ensures LowerAscii(s) == s
  {
  }

  /** A camel-case key with one capital, such as `dataCustom`, becomes the two
      words joined by a hyphen, the capital lowered: `data-custom`. */
  lemma KebabOneHump(head: string, upper: char, rest: string)
    requires !HasUpper(head) && IsUpper(upper) && !HasUpper(rest)
    ensures ToKebabCase(head + [upper] + rest) == head + ['-', LowerChar(upper)] + rest
  {
    KebabIsHyphenatedLowercase(head + [upper] + rest);
    HyphenCamel(head, upper, rest);
    var h := head + ['-', upper] + rest;
    assert LowerAscii(h) == LowerAscii(head) + ['-', LowerChar(upper)] + LowerAscii(rest);
    LowerAsciiFixesLower(head);
    LowerAsciiFixesLower(rest);
  }

  /** Kebab-casing works piece by piece, so a key of several capitalised
      words, such as `dataMultipleWords`, is its first word followed by each
      later word hyphenated and lowered: `data-multiple-words`. */
  lemma KebabAppend(a: string, b: string)
    ensures ToKebabCase(a + b) == ToKebabCase(a) + ToKebabCase(b)
  {
    KebabIsHyphenatedLowercase(a + b);
    KebabIsHyphenatedLowercase(a);
    KebabIsHyphenatedLowercase(b);
    HyphenAppend(a, b);
    var x, y := HyphenBeforeUpper(a), HyphenBeforeUpper(b);
    assert LowerAscii(x + y) == LowerAscii(x) + LowerAscii(y);
  }

  predicate NoWhitespace(s: string)
  {
    forall i :: 0 <= i < |s| ==> !IsWhitespace(s[i])
  }

  lemma {:induction false} HyphenNoWhitespace(s: string)
    requires NoWhitespace(s)
    ensures NoWhitespace(HyphenBeforeUpper(s))
  {
    if s != [] {
      assert NoWhitespace(s[1..]) by {
        forall i | 0 <= i < |s[1..]| ensures !IsWhitespace(s[1..][i]) {
          assert s[1..][i] == s[i + 1];
        }
      }
      HyphenNoWhitespace(s[1..]);
    }
  }

  /** A name without whitespace keeps none after kebab-casing, and a non-empty
      one stays non-empty. */
  lemma KebabNoWhitespace(s: string)
    requires NoWhitespace(s)
    ensures NoWhitespace(ToKebabCase(s))
    ensures |ToKebabCase(s)| >= |s|
  {
    KebabIsHyphenatedLowercase(s);
    HyphenNoWhitespace(s);
    KebabLength(s);
  }
}
