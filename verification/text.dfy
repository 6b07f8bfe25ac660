/** The Python string operations the generator and the validator rely on:
    whitespace, strip, split, join, splitlines, replace and integer formatting. */
module Text {

  /** `c.isspace()` as `str.split()` and `str.strip()` use it. */
  predicate IsSpace(c: char)
  {
    || c == ' ' || c == '\t' || c == '\n' || c == '\r'
    || c == '\U{000B}' || c == '\U{000C}'
    || ('\U{001C}' <= c <= '\U{001F}')
    || c == '\U{0085}' || c == '\U{00A0}' || c == '\U{1680}'
    || ('\U{2000}' <= c <= '\U{200A}')
    || c == '\U{2028}' || c == '\U{2029}' || c == '\U{202F}' || c == '\U{205F}' || c == '\U{3000}'
  }

  /** A line boundary for `str.splitlines()`; "\r\n" counts as one. */
  predicate IsLineBreak(c: char)
  {
    || c == '\n' || c == '\r' || c == '\U{000B}' || c == '\U{000C}'
    || c == '\U{001C}' || c == '\U{001D}' || c == '\U{001E}'
    || c == '\U{0085}' || c == '\U{2028}' || c == '\U{2029}'
  }

  /** True when every character of s is whitespace (so `not s.strip()`). */
  predicate IsBlank(s: string)
  {
    forall i :: 0 <= i < |s| ==> IsSpace(s[i])
  }

  /** `s.lstrip()`. */
  function LStrip(s: string): (r: string)
    ensures |r| <= |s| && r == s[|s| - |r|..]
    ensures r == [] || !IsSpace(r[0])
    ensures IsBlank(s[..|s| - |r|])
  {
    if |s| > 0 && IsSpace(s[0]) then
      var r := LStrip(s[1..]);
      assert s[..|s| - |r|] == [s[0]] + s[1..][..|s| - 1 - |r|];
      r
    else s
  }

  /** `s.rstrip()`. */
  function RStrip(s: string): (r: string)
    ensures |r| <= |s| && r == s[..|r|]
    ensures r == [] || !IsSpace(r[|r| - 1])
    ensures IsBlank(s[|r|..])
  {
    if |s| > 0 && IsSpace(s[|s| - 1]) then
      var r := RStrip(s[..|s| - 1]);
      assert s[|r|..] == s[..|s| - 1][|r|..] + [s[|s| - 1]];
      r
    else s
  }

  /** `s.strip()`: `lstrip`, then `rstrip`, each of which cuts only whitespace. */
  function Strip(s: string): (r: string)
    // what is left is no longer than s, and starts and ends with a character that is not whitespace
    ensures |r| <= |s|
    ensures r == [] || (!IsSpace(r[0]) && !IsSpace(r[|r| - 1]))
  {
    RStrip(LStrip(s))
  }

  /** Stripping a string that is blank leaves nothing, and nothing else does. */
  lemma {:induction false} LStripBlank(s: string)
    ensures LStrip(s) == [] <==> IsBlank(s)
  {
    if |s| > 0 && IsSpace(s[0]) {
      LStripBlank(s[1..]);
      assert IsBlank(s) <==> IsBlank(s[1..]);
    }
  }

  lemma StripEmptyIffBlank(s: string)
    ensures Strip(s) == [] <==> IsBlank(s)
  {
    var l := LStrip(s);
    LStripBlank(s);
    assert l[0..] == l;
  }

  /** Strip leaves a string alone whose ends are not whitespace. */
  lemma StripUntouched(s: string)
    requires s != [] && !IsSpace(s[0]) && !IsSpace(s[|s| - 1])
    ensures Strip(s) == s
  {
  }

  /** `s.startswith(p)`. */
  predicate StartsWith(s: string, p: string)
  {
    |p| <= |s| && s[..|p|] == p
  }

  /** `s.endswith(p)`. */
  predicate EndsWith(s: string, p: string)
  {
    |p| <= |s| && s[|s| - |p|..] == p
  }

  /** ASCII lower-casing. For the seven-character prefix "glyphs:" it agrees
      with Python's `str.lower()`: no other character lowers to one of those letters. */
  function LowerAscii(s: string): (r: string)
    ensures |r| == |s|
  {
    seq(|s|, i requires 0 <= i < |s| =>
      if 'A' <= s[i] <= 'Z' then (s[i] as int + 32) as char else s[i])
  }

  /** Length of the leading run of characters that are not `sep`. */
  function FieldLen(s: string, sep: char): (n: nat)
    ensures n <= |s| && (n < |s| ==> s[n] == sep)
    ensures forall i :: 0 <= i < n ==> s[i] != sep
  {
    if |s| == 0 || s[0] == sep then 0 else 1 + FieldLen(s[1..], sep)
  }

  /** `s.split(sep)` for a one-character separator: always at least one field. */
  function SplitOn(s: string, sep: char): (r: seq<string>)
    ensures |r| >= 1
    decreases |s|
  {
    var n := FieldLen(s, sep);
    if n == |s| then [s] else [s[..n]] + SplitOn(s[n + 1..], sep)
  }

  /** Splitting `x sep y` with no separator in x gives x, then the fields of y. */
  lemma SplitOnCons(x: string, sep: char, y: string)
    requires forall i :: 0 <= i < |x| ==> x[i] != sep
    ensures SplitOn(x + [sep] + y, sep) == [x] + SplitOn(y, sep)
  {
    var s := x + [sep] + y;
    var n := FieldLen(s, sep);
    assert s[|x|] == sep;
    assert n == |x|;
    assert s[..n] == x && s[n + 1..] == y;
  }

  /** A string without the separator is one field. */
  lemma SplitOnNone(x: string, sep: char)
    requires forall i :: 0 <= i < |x| ==> x[i] != sep
    ensures SplitOn(x, sep) == [x]
  {
  }

  /** A non-empty run of non-whitespace characters. */
  predicate IsWord(w: string)
  {
    w != [] && forall j :: 0 <= j < |w| ==> !IsSpace(w[j])
  }

  /** Length of the leading run of non-whitespace characters. */
  function WordLen(s: string): (n: nat)
    ensures n <= |s| && (n < |s| ==> IsSpace(s[n]))
    ensures forall i :: 0 <= i < n ==> !IsSpace(s[i])
  {
    if |s| == 0 || IsSpace(s[0]) then 0 else 1 + WordLen(s[1..])
  }

  /** `s.split()`: the maximal runs of non-whitespace characters, in order. */
  function Tokens(s: string): (r: seq<string>)
    ensures forall i :: 0 <= i < |r| ==> IsWord(r[i])
    decreases |s|
  {
    if |s| == 0 then []
    else if IsSpace(s[0]) then Tokens(s[1..])
    else
      var n := WordLen(s);
      [s[..n]] + Tokens(s[n..])
  }

  lemma {:induction false} WordLenOfWord(w: string, rest: string)
    requires IsWord(w) && (rest == [] || IsSpace(rest[0]))
    ensures WordLen(w + rest) == |w|
  {
    if |w| > 1 {
      assert (w + rest)[1..] == w[1..] + rest;
      WordLenOfWord(w[1..], rest);
    }
  }

  /** A word is its own single token. */
  lemma TokensOfWord(w: string)
    requires IsWord(w)
    ensures Tokens(w) == [w]
  {
    WordLenOfWord(w, []);
    assert w + [] == w;
    assert w[..|w|] == w;
  }

  /** Leading whitespace does not change the tokens. */
  lemma {:induction false} TokensSkipSpace(sp: string, s: string)
    requires IsBlank(sp)
    ensures Tokens(sp + s) == Tokens(s)
  {
    if |sp| > 0 {
      assert (sp + s)[1..] == sp[1..] + s;
      TokensSkipSpace(sp[1..], s);
    } else {
      assert sp + s == s;
    }
  }

  /** Two words separated by whitespace are two tokens. */
  lemma TokensOfPair(a: string, sp: string, b: string)
    requires IsWord(a) && IsWord(b) && sp != [] && IsBlank(sp)
    ensures Tokens(a + sp + b) == [a, b]
  {
    var s := a + sp + b;
    assert s == a + (sp + b);
    WordLenOfWord(a, sp + b);
    assert s[..|a|] == a;
    assert s[|a|..] == sp + b;
    TokensSkipSpace(sp, b);
    TokensOfWord(b);
  }

  /** `sep.join(parts)`. */
  function Join(parts: seq<string>, sep: string): string
  {
    if |parts| == 0 then ""
    else if |parts| == 1 then parts[0]
    else parts[0] + sep + Join(parts[1..], sep)
  }

  /** Length of the leading run of characters that are not line boundaries. */
  function LineLen(s: string): (n: nat)
    ensures n <= |s| && (n < |s| ==> IsLineBreak(s[n]))
    ensures forall i :: 0 <= i < n ==> !IsLineBreak(s[i])
  {
    if |s| == 0 || IsLineBreak(s[0]) then 0 else 1 + LineLen(s[1..])
  }

  /** `s.splitlines()`: lines without their terminators; no empty last line. */
  function SplitLines(s: string): (r: seq<string>)
    // no line holds a line boundary, and there are no more lines than characters
    ensures forall k, j :: 0 <= k < |r| && 0 <= j < |r[k]| ==> !IsLineBreak(r[k][j])
    ensures |r| <= |s|
    ensures r == [] <==> s == []
    decreases |s|
  {
    if |s| == 0 then []
    else
      var n := LineLen(s);
      if n == |s| then [s]
      else
        var next := if s[n] == '\r' && n + 1 < |s| && s[n + 1] == '\n' then n + 2 else n + 1;
        [s[..n]] + SplitLines(s[next..])
  }

  /** The character of a decimal digit. */
  function DigitChar(d: nat): (c: char)
    requires d < 10
    ensures '0' <= c <= '9'
  {
    (d + '0' as int) as char
  }

  /** `str(n)` for a non-negative int. */
  function NatDecimal(n: nat): (r: string)
    ensures r != [] && forall i :: 0 <= i < |r| ==> '0' <= r[i] <= '9'
  {
    if n < 10 then [DigitChar(n)] else NatDecimal(n / 10) + [DigitChar(n % 10)]
  }

  /** The value of a string of decimal digits. */
  function DigitsValue(s: string): nat
    requires forall i :: 0 <= i < |s| ==> '0' <= s[i] <= '9'
  {
    if |s| == 0 then 0 else 10 * DigitsValue(s[..|s| - 1]) + (s[|s| - 1] as int - '0' as int)
  }

  /** Reading back the digits of n gives n. */
  lemma {:induction false} DigitsValueOfNatDecimal(n: nat)
    ensures DigitsValue(NatDecimal(n)) == n
  {
    if n >= 10 {
      var r := NatDecimal(n);
      assert r[..|r| - 1] == NatDecimal(n / 10);
      DigitsValueOfNatDecimal(n / 10);
    }
  }

  /** `str(i)` for any int. */
  function Decimal(i: int): string
  {
    if i < 0 then "-" + NatDecimal(-i) else NatDecimal(i)
  }

  /** `f"{i:02d}"`: zero-padded to width two; a sign counts toward the width. */
  function Pad2(i: int): (r: string)
  {
    if 0 <= i < 10 then "0" + NatDecimal(i) else Decimal(i)
  }

  /** Pad2 renders 0..99 as exactly two digits whose value is the number. */
  lemma Pad2TwoDigits(i: int)
    requires 0 <= i < 100
    ensures |Pad2(i)| == 2
    ensures forall k :: 0 <= k < 2 ==> '0' <= Pad2(i)[k] <= '9'
    ensures DigitsValue(Pad2(i)) == i
  {
    if i < 10 {
      var p := Pad2(i);
      assert p == ['0', DigitChar(i)];
      assert p[..1] == ['0'];
      assert DigitsValue(p[..1]) == 10 * DigitsValue([]) + 0;
    } else {
      assert NatDecimal(i / 10) == [DigitChar(i / 10)];
      DigitsValueOfNatDecimal(i);
    }
  }

  /** Pieces of equal lengths in equal concatenations are equal. */
  lemma ConcatSplit(x1: string, y1: string, x2: string, y2: string)
    requires |x1| == |x2| && x1 + y1 == x2 + y2
    ensures x1 == x2 && y1 == y2
  {
    assert x1 == (x1 + y1)[..|x1|];
    assert x2 == (x2 + y2)[..|x2|];
    assert y1 == (x1 + y1)[|x1|..];
    assert y2 == (x2 + y2)[|x2|..];
  }

  /** The same, for pieces of equal lengths at the end. */
  lemma ConcatSplitEnd(x1: string, y1: string, x2: string, y2: string)
    requires |y1| == |y2| && x1 + y1 == x2 + y2
    ensures x1 == x2 && y1 == y2
  {
    ConcatSplit(x1, y1, x2, y2);
  }

  /** Two-digit renderings of 0..99 are distinct. */
  lemma Pad2Injective(i: int, j: int)
    requires 0 <= i < 100 && 0 <= j < 100 && Pad2(i) == Pad2(j)
    ensures i == j
  {
    Pad2TwoDigits(i);
    Pad2TwoDigits(j);
  }

  /** `s.replace(pat, rep)`: every non-overlapping occurrence, left to right. */
  function ReplaceAll(s: string, pat: string, rep: string): string
    requires pat != []
    decreases |s|
  {
    if |s| < |pat| then s
    else if s[..|pat|] == pat then rep + ReplaceAll(s[|pat|..], pat, rep)
    else [s[0]] + ReplaceAll(s[1..], pat, rep)
  }

  /** True when pat occurs in s at position i. */
  predicate OccursAt(s: string, pat: string, i: int)
  {
    0 <= i <= |s| - |pat| && s[i..i + |pat|] == pat
  }

  /** True when pat occurs in s. */
  predicate Contains(s: string, pat: string)
  {
    exists i :: 0 <= i <= |s| && OccursAt(s, pat, i)
  }

  /** Replacing a pattern that does not occur changes nothing. */
  lemma {:induction false} ReplaceAllAbsent(s: string, pat: string, rep: string)
    requires pat != [] && !Contains(s, pat)
    ensures ReplaceAll(s, pat, rep) == s
  {
    if |s| >= |pat| {
      assert s[0..|pat|] == s[..|pat|];
      assert !OccursAt(s, pat, 0);
      assert !Contains(s[1..], pat) by {
        forall i | OccursAt(s[1..], pat, i)
          ensures OccursAt(s, pat, i + 1)
        {
          assert s[1..][i..i + |pat|] == s[i + 1..i + 1 + |pat|];
        }
      }
      ReplaceAllAbsent(s[1..], pat, rep);
    }
  }

  /** Replacing in `pat` followed by text without pat substitutes it once. */
  lemma ReplaceAllLeading(pat: string, rest: string, rep: string)
    requires pat != [] && !Contains(rest, pat)
    ensures ReplaceAll(pat + rest, pat, rep) == rep + rest
  {
    assert (pat + rest)[..|pat|] == pat;
    assert (pat + rest)[|pat|..] == rest;
    ReplaceAllAbsent(rest, pat, rep);
  }

  /** Iterating a string: one single-character string per character. */
  function Chars(s: string): (r: seq<string>)
    ensures |r| == |s| && forall i :: 0 <= i < |s| ==> r[i] == [s[i]]
  {
    seq(|s|, i requires 0 <= i < |s| => [s[i]])
  }

  // ---------------------------------------------------------------------
  // Python's ordering of strings and `sorted` of a set of strings

  /** `a < b` on Python strings: lexicographic by code point. */
  predicate StrLt(a: string, b: string)
  {
    if |a| == 0 then |b| > 0
    else if |b| == 0 then false
    else if a[0] != b[0] then a[0] < b[0]
    else StrLt(a[1..], b[1..])
  }

  lemma {:induction false} StrLtIrreflexive(a: string)
    ensures !StrLt(a, a)
  {
    if |a| > 0 {
      StrLtIrreflexive(a[1..]);
    }
  }

  lemma {:induction false} StrLtTransitive(a: string, b: string, c: string)
    requires StrLt(a, b) && StrLt(b, c)
    ensures StrLt(a, c)
  {
    if |a| > 0 && |b| > 0 && |c| > 0 && a[0] == b[0] && b[0] == c[0] {
      StrLtTransitive(a[1..], b[1..], c[1..]);
    }
  }

  lemma {:induction false} StrLtTotal(a: string, b: string)
    requires a != b
    ensures StrLt(a, b) || StrLt(b, a)
  {
    if |a| > 0 && |b| > 0 && a[0] == b[0] {
      assert a == [a[0]] + a[1..] && b == [b[0]] + b[1..];
      StrLtTotal(a[1..], b[1..]);
    }
  }

  /** The members of a sequence of strings. */
  function Elems(xs: seq<string>): set<string>
  {
    set x | x in xs
  }

  /** Strictly increasing, hence also free of repeats. */
  predicate StrictlySorted(xs: seq<string>)
  {
    forall i, j :: 0 <= i < j < |xs| ==> StrLt(xs[i], xs[j])
  }

  /** Putting a smaller string in front keeps a sequence strictly sorted. */
  lemma InsertAtHead(x: string, xs: seq<string>)
    requires StrictlySorted(xs) && |xs| > 0 && StrLt(x, xs[0])
    ensures StrictlySorted([x] + xs) && Elems([x] + xs) == Elems(xs) + {x}
  {
    var r := [x] + xs;
    forall j | 0 < j < |xs|
      ensures StrLt(x, xs[j])
    {
      StrLtTransitive(x, xs[0], xs[j]);
    }
    forall i, j | 0 <= i < j < |r|
      ensures StrLt(r[i], r[j])
    {
      assert r[j] == xs[j - 1];
      if i > 0 {
        assert r[i] == xs[i - 1];
      }
    }
    assert forall y :: y in r <==> y == x || y in xs;
  }

  /** Putting the old head in front of the insertion into the tail. */
  lemma InsertBehindHead(x: string, xs: seq<string>, tail: seq<string>)
    requires StrictlySorted(xs) && |xs| > 0 && StrLt(xs[0], x)
    requires StrictlySorted(tail) && Elems(tail) == Elems(xs[1..]) + {x}
    ensures StrictlySorted([xs[0]] + tail) && Elems([xs[0]] + tail) == Elems(xs) + {x}
  {
    var r := [xs[0]] + tail;
    assert Elems(xs) == {xs[0]} + Elems(xs[1..]) by {
      assert xs == [xs[0]] + xs[1..];
    }
    assert Elems(r) == {xs[0]} + Elems(tail) by {
      assert forall y :: y in r <==> y == xs[0] || y in tail;
    }
    forall i, j | 0 <= i < j < |r|
      ensures StrLt(r[i], r[j])
    {
      assert r[j] == tail[j - 1] && r[j] in Elems(tail);
      if i == 0 && r[j] != x {
        var k :| 1 <= k < |xs| && xs[k] == r[j];
      }
    }
  }

  /** Insert x into a strictly sorted sequence, unless it is already there. */
  function InsertSorted(x: string, xs: seq<string>): (r: seq<string>)
    requires StrictlySorted(xs)
    ensures StrictlySorted(r) && Elems(r) == Elems(xs) + {x}
  {
    if |xs| == 0 then [x]
    else if x == xs[0] then xs
    else if StrLt(x, xs[0]) then
      InsertAtHead(x, xs);
      [x] + xs
    else
      StrLtTotal(x, xs[0]);
      var tail := InsertSorted(x, xs[1..]);
      InsertBehindHead(x, xs, tail);
      [xs[0]] + tail
  }

  /** `sorted(set(xs))`: the members of xs, once each, in increasing order. */
  function SortedSet(xs: seq<string>): (r: seq<string>)
    ensures StrictlySorted(r) && Elems(r) == Elems(xs)
  {
    if |xs| == 0 then []
    else
      assert Elems(xs) == Elems(xs[..|xs| - 1]) + {xs[|xs| - 1]} by {
        assert xs == xs[..|xs| - 1] + [xs[|xs| - 1]];
      }
      InsertSorted(xs[|xs| - 1], SortedSet(xs[..|xs| - 1]))
  }

  lemma StrLtAsymmetric(a: string, b: string)
    ensures !(StrLt(a, b) && StrLt(b, a))
  {
    if StrLt(a, b) && StrLt(b, a) {
      StrLtTransitive(a, b, a);
      StrLtIrreflexive(a);
    }
  }

  /** The head of a strictly sorted sequence is below every other member. */
  lemma HeadIsLeast(a: seq<string>, x: string)
    requires StrictlySorted(a) && x in Elems(a)
    ensures x == a[0] || StrLt(a[0], x)
  {
    var i :| 0 <= i < |a| && a[i] == x;
  }

  /** Dropping the head of a strictly sorted sequence removes exactly that member. */
  lemma ElemsTail(a: seq<string>)
    requires StrictlySorted(a) && |a| > 0
    ensures Elems(a[1..]) == Elems(a) - {a[0]}
  {
    assert a == [a[0]] + a[1..];
    StrLtIrreflexive(a[0]);
    assert forall k :: 1 <= k < |a| ==> a[k] != a[0];
  }

  /** There is only one strictly sorted sequence with a given set of members. */
  lemma {:induction false} StrictlySortedUnique(a: seq<string>, b: seq<string>)
    requires StrictlySorted(a) && StrictlySorted(b) && Elems(a) == Elems(b)
    ensures a == b
  {
    if |a| > 0 {
      assert a[0] in Elems(a);
    }
    if |b| > 0 {
      assert b[0] in Elems(b);
    }
    if |a| > 0 && |b| > 0 {
      HeadIsLeast(a, b[0]);
      HeadIsLeast(b, a[0]);
      StrLtAsymmetric(a[0], b[0]);
      ElemsTail(a);
      ElemsTail(b);
      StrictlySortedUnique(a[1..], b[1..]);
      assert a == [a[0]] + a[1..] && b == [b[0]] + b[1..];
    }
  }
}
