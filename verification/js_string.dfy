/** The two JavaScript string operations the chat client relies on:
    `String.prototype.trim` (the send guard and the outbound frame) and
    `String.prototype.slice` (cutting the colour channels out of `#RRGGBB`).
    Strings are sequences of Unicode scalar values, where JavaScript indexes
    UTF-16 code units. The two agree on every string inside the Basic
    Multilingual Plane; `trim` agrees on all strings, since no whitespace
    character lies outside it, but `slice` positions differ once a string
    holds a character beyond it. Stripping is defined for any character
    class and then fixed to JavaScript's whitespace. */
module JsString {

  /** The characters `trim` removes: the WhiteSpace and LineTerminator
      productions of ECMA-262 (tab, line feed, vertical tab, form feed,
      carriage return, space, no-break space, every other space separator of
      the Unicode category Zs, the line and paragraph separators, and the
      zero-width no-break space). */
  predicate IsWhitespace(c: char) {
    var n := c as int;
    || 0x09 <= n <= 0x0D || n == 0x20 || n == 0xA0 || n == 0x1680
    || 0x2000 <= n <= 0x200A || n == 0x2028 || n == 0x2029 || n == 0x202F
    || n == 0x205F || n == 0x3000 || n == 0xFEFF
  }

  predicate AllIn(s: string, cls: char -> bool) {
    forall k :: 0 <= k < |s| ==> cls(s[k])
  }

  predicate AllWhitespace(s: string) {
    AllIn(s, IsWhitespace)
  }

  /** How many characters of `cls` `s` starts with. */
  function LeadingCount(s: string, cls: char -> bool): (n: nat)
    ensures n <= |s|
    ensures forall k :: 0 <= k < n ==> cls(s[k])
    ensures n == |s| || !cls(s[n])
    decreases |s|
  {
    if s == [] || !cls(s[0]) then 0
    else 1 + LeadingCount(s[1..], cls)
  }

  /** How many characters of `cls` `s` ends with. */
  function TrailingCount(s: string, cls: char -> bool): (n: nat)
    ensures n <= |s|
    ensures forall k :: |s| - n <= k < |s| ==> cls(s[k])
    ensures n == |s| || !cls(s[|s| - n - 1])
    decreases |s|
  {
    if s == [] || !cls(s[|s| - 1]) then 0
    else 1 + TrailingCount(s[..|s| - 1], cls)
  }

  /** `s` with the characters of `cls` stripped from both ends. */
  function Strip(s: string, cls: char -> bool): (r: string)
    ensures exists i :: 0 <= i <= |s| - |r| && r == s[i..i + |r|]
                        && AllIn(s[..i], cls) && AllIn(s[i + |r|..], cls)
    ensures r == [] || (!cls(r[0]) && !cls(r[|r| - 1]))
    ensures r == [] <==> AllIn(s, cls)
  {
    var i := LeadingCount(s, cls);
    var n := TrailingCount(s, cls);
    if i == |s| then
      StripAll(s, cls);
      []
    else
      StripInner(s, cls, i, n);
      StripOutside(s, cls, i, n);
      s[i..|s| - n]
  }

  /** When the leading run covers all of `s`, nothing is left. */
  lemma StripAll(s: string, cls: char -> bool)
    requires forall k :: 0 <= k < |s| ==> cls(s[k])
    ensures AllIn(s, cls) && AllIn(s[..0], cls) && AllIn(s[|s|..], cls)
  {
  }

  /** When the leading run stops before the end, the trailing run stops after
      it, and the part between starts and ends outside `cls`. */
  lemma StripInner(s: string, cls: char -> bool, i: nat, n: nat)
    requires i < |s| && !cls(s[i])
    requires n <= |s| && forall k :: |s| - n <= k < |s| ==> cls(s[k])
    requires n == |s| || !cls(s[|s| - n - 1])
    ensures i < |s| - n && !AllIn(s, cls)
    ensures var r := s[i..|s| - n]; !cls(r[0]) && !cls(r[|r| - 1])
  {
  }

  /** The runs stripped from either end lie entirely in `cls`. */
  lemma StripOutside(s: string, cls: char -> bool, i: nat, n: nat)
    requires i <= |s| - n && forall k :: 0 <= k < i ==> cls(s[k])
    requires n <= |s| && forall k :: |s| - n <= k < |s| ==> cls(s[k])
    ensures AllIn(s[..i], cls) && AllIn(s[|s| - n..], cls)
  {
    var before, after := s[..i], s[|s| - n..];
    forall k | 0 <= k < |before|
      ensures cls(before[k])
    {
      assert before[k] == s[k];
    }
    forall k | 0 <= k < |after|
      ensures cls(after[k])
    {
      assert after[k] == s[|s| - n + k];
    }
  }

  /** Non-empty, and neither end is whitespace: the shape of every string
      `trim` returns other than "". */
  predicate IsTrimmed(s: string) {
    |s| > 0 && !IsWhitespace(s[0]) && !IsWhitespace(s[|s| - 1])
  }

  /** `s.trim()`: the part of `s` left once whitespace is stripped from both
      ends. The result is a slice of `s` with only whitespace around it, and it
      is empty exactly when `s` is all whitespace. */
  function Trim(s: string): (r: string)
    ensures exists i :: 0 <= i <= |s| - |r| && r == s[i..i + |r|]
                        && AllWhitespace(s[..i]) && AllWhitespace(s[i + |r|..])
    ensures r == [] || IsTrimmed(r)
    ensures r == [] <==> AllWhitespace(s)
  {
    Strip(s, IsWhitespace)
  }

  /** A string that already has no whitespace at either end is its own trim,
      so trimming twice is trimming once. */
  lemma TrimIdempotent(s: string)
    ensures Trim(Trim(s)) == Trim(s)
  {
    var r := Trim(s);
    if r != [] {
      assert LeadingCount(r, IsWhitespace) == 0;
      assert TrailingCount(r, IsWhitespace) == 0;
      assert r[0..|r| - 0] == r;
    }
  }

  /** `s` without its leading whitespace, where `parseInt` starts reading. A
      string that does not start with whitespace is left as it is. */
  function TrimStart(s: string): (r: string)
    ensures |r| <= |s| && r == s[|s| - |r|..]
    ensures AllWhitespace(s[..|s| - |r|])
    ensures r == [] || !IsWhitespace(r[0])
    ensures |s| > 0 && !IsWhitespace(s[0]) ==> r == s
  {
    var i := LeadingCount(s, IsWhitespace);
    StripOutside(s, IsWhitespace, i, 0);
    s[i..]
  }

  /** `s.slice(from, to)` for non-negative bounds: both bounds are clamped to
      the length, and an empty or reversed range gives "". */
  function Slice(s: string, from: nat, to: nat): (r: string)
    ensures from <= to <= |s| ==> r == s[from..to]
    ensures from < |s| <= to ==> r == s[from..]
    ensures to <= from || |s| <= from ==> r == []
    ensures |r| <= |s|
  {
    var a := if from < |s| then from else |s|;
    var b := if to < |s| then to else |s|;
    if a < b then s[a..b] else []
  }
}
