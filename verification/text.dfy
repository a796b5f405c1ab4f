/** The string primitives the JavaScript source relies on: the `\s` character
    class, `toLowerCase`, `trim`, `split(/\s+/)`, decimal rendering of counters
    and `String.prototype.replace` with a string pattern.

    Strings are sequences of characters; a character stands for one UTF-16
    code unit of the source's strings. */
module Text {
  import opened Wrappers
  import opened Seqs

  /** ECMAScript WhiteSpace and LineTerminator characters: the set matched by
      `\s`, stripped by `trim()` and used as separator by `split(/\s+/)`. */
  predicate IsSpace(c: char) {
    || c == '\t' || c == '\n' || c == '\U{000B}' || c == '\U{000C}' || c == '\r'
    || c == ' ' || c == '\U{00A0}' || c == '\U{1680}'
    || ('\U{2000}' <= c <= '\U{200A}')
    || c == '\U{2028}' || c == '\U{2029}' || c == '\U{202F}' || c == '\U{205F}'
    || c == '\U{3000}' || c == '\U{FEFF}'
  }

  /** `s[i..j]` is a run of whitespace. */
  ghost predicate SpaceRun(s: string, i: nat, j: nat) {
    i <= j <= |s| && forall k :: i <= k < j ==> IsSpace(s[k])
  }

  /** No character of `s` is whitespace. */
  ghost predicate NoSpace(s: string) {
    forall k :: 0 <= k < |s| ==> !IsSpace(s[k])
  }

  /** `s` neither starts nor ends with whitespace: what `trim()` returns. */
  ghost predicate Unpadded(s: string) {
    s == [] || (!IsSpace(s[0]) && !IsSpace(s[|s| - 1]))
  }

  /** `s` occurs in `text` at position `p`. */
  predicate PrefixAt(text: string, p: nat, s: string) {
    p + |s| <= |text| && text[p..p + |s|] == s
  }

  // ---------------------------------------------------------------- case

  /** Lower case of one character, for the scripts the rosters use: ASCII,
      the Latin-1 capitals, and the Turkish capitals G-breve and S-cedilla.
      `I` lowers to `i`; every other character is its own lower case. */
  function LowerChar(c: char): (d: char)
    ensures IsSpace(d) <==> IsSpace(c)
    ensures 'A' <= c <= 'Z' ==> d as int == c as int + 32
    ensures !('A' <= c <= 'Z') && c < '\U{00C0}' ==> d == c
  {
    if 'A' <= c <= 'Z' then (c as int + 32) as char
    else if '\U{00C0}' <= c <= '\U{00DE}' && c != '\U{00D7}' then (c as int + 32) as char
    else if c == '\U{011E}' then '\U{011F}'
    else if c == '\U{015E}' then '\U{015F}'
    else c
  }

  /** `String.prototype.toLowerCase`, character by character: positions are
      preserved, which is what lets the source reuse offsets found in the
      lower-cased text on the original text. */
  function Lower(s: string): (r: string)
    ensures |r| == |s|
  {
    seq(|s|, k requires 0 <= k < |s| => LowerChar(s[k]))
  }

  /** Lower-casing commutes with slicing. */
  lemma LowerSlice(s: string, i: nat, j: nat)
    requires i <= j <= |s|
    ensures Lower(s)[i..j] == Lower(s[i..j])
  {
  }

  /** Lower-casing keeps non-space characters non-space. */
  lemma LowerKeepsSpace(s: string, k: nat)
    requires k < |s| && !IsSpace(Lower(s)[k])
    ensures !IsSpace(s[k])
  {
    assert Lower(s)[k] == LowerChar(s[k]);
  }

  /** Lower-casing keeps a token a token: non-empty and free of whitespace. */
  lemma LowerNoSpace(s: string)
    requires NoSpace(s)
    ensures NoSpace(Lower(s)) && |Lower(s)| == |s|
  {
  }

  // ---------------------------------------------------------------- trim

  /** Number of whitespace characters `s` starts with. */
  function LeadingSpaces(s: string): (n: nat)
    ensures SpaceRun(s, 0, n)
    ensures n < |s| ==> !IsSpace(s[n])
    decreases |s|
  {
    if |s| > 0 && IsSpace(s[0]) then 1 + LeadingSpaces(s[1..]) else 0
  }

  /** Number of whitespace characters `s` ends with. */
  function TrailingSpaces(s: string): (n: nat)
    ensures n <= |s| && SpaceRun(s, |s| - n, |s|)
    ensures n < |s| ==> !IsSpace(s[|s| - n - 1])
    decreases |s|
  {
    if |s| > 0 && IsSpace(s[|s| - 1]) then 1 + TrailingSpaces(s[..|s| - 1]) else 0
  }

  /** `String.prototype.trim`: `s` without its leading and trailing
      whitespace. The result is the slice of `s` starting after the leading
      whitespace, and what lies outside it is whitespace. */
  function Trim(s: string): (r: string)
    ensures LeadingSpaces(s) + |r| <= |s|
    ensures r == s[LeadingSpaces(s)..LeadingSpaces(s) + |r|]
    ensures SpaceRun(s, LeadingSpaces(s) + |r|, |s|)
    ensures Unpadded(r)
  {
    var lo := LeadingSpaces(s);
    if lo == |s| then []
    else
      var t := TrailingSpaces(s);
      assert t < |s| - lo by {
        assert !IsSpace(s[lo]);
      }
      s[lo..|s| - t]
  }

  /** Trimming a string without surrounding whitespace changes nothing; in
      particular trimming is idempotent. */
  lemma TrimUnpadded(s: string)
    requires Unpadded(s)
    ensures Trim(s) == s
  {
    if |s| > 0 {
      var r := Trim(s);
      assert s[|r|..] == [] by {
        assert !IsSpace(s[|s| - 1]);
      }
    }
  }

  /** Trimming never removes a non-space character: whatever lies between two
      non-space characters of `w` survives the trim. */
  lemma TrimKeeps(w: string, x: nat, y: nat)
    requires x < y <= |w| && !IsSpace(w[x]) && !IsSpace(w[y - 1])
    ensures LeadingSpaces(w) <= x
    ensures y <= LeadingSpaces(w) + |Trim(w)|
  {
    var a := LeadingSpaces(w);
    var b := a + |Trim(w)|;
    assert SpaceRun(w, 0, a) && SpaceRun(w, b, |w|);
  }

  /** Trimming the window `text[lo..hi]` around `text[x..y]`, which starts
      and ends with non-space characters, leaves a slice of `text` that still
      covers `text[x..y]`. */
  lemma TrimWindow(text: string, lo: nat, hi: nat, x: nat, y: nat)
    requires lo <= x < y <= hi <= |text|
    requires !IsSpace(text[x]) && !IsSpace(text[y - 1])
    ensures lo + LeadingSpaces(text[lo..hi]) <= x
    ensures y <= lo + LeadingSpaces(text[lo..hi]) + |Trim(text[lo..hi])| <= hi
    ensures PrefixAt(text, lo + LeadingSpaces(text[lo..hi]), Trim(text[lo..hi]))
  {
    var w := text[lo..hi];
    assert w[x - lo] == text[x] && w[y - 1 - lo] == text[y - 1];
    TrimKeeps(w, x - lo, y - lo);
    TrimSlice(text, lo, hi);
  }

  /** The trimmed window is the slice of `text` where it starts. */
  lemma TrimSlice(text: string, lo: nat, hi: nat)
    requires lo <= hi <= |text|
    ensures PrefixAt(text, lo + LeadingSpaces(text[lo..hi]), Trim(text[lo..hi]))
  {
    var w := text[lo..hi];
    SliceAt(text, lo, hi, LeadingSpaces(w), Trim(w));
  }

  /** `r`, found in `text` at `a`, is what remains of the window
      `text[lo..hi]` once the whitespace at both of its ends is removed:
      only whitespace lies between the window's ends and `r`, and `r` itself
      neither starts nor ends with whitespace. */
  ghost predicate Stripped(text: string, lo: nat, hi: nat, a: nat, r: string) {
    && lo <= a && a + |r| <= hi <= |text|
    && PrefixAt(text, a, r)
    && SpaceRun(text, lo, a)
    && SpaceRun(text, a + |r|, hi)
    && Unpadded(r)
  }

  /** Trimming the window `text[lo..hi]` strips it. */
  lemma TrimStripped(text: string, lo: nat, hi: nat)
    requires lo <= hi <= |text|
    ensures Stripped(text, lo, hi, lo + LeadingSpaces(text[lo..hi]), Trim(text[lo..hi]))
  {
    var w := text[lo..hi];
    var a := LeadingSpaces(w);
    var r := Trim(w);
    TrimSlice(text, lo, hi);
    assert SpaceRun(w, 0, a) && SpaceRun(w, a + |r|, |w|);
    forall k | lo <= k < lo + a
      ensures IsSpace(text[k])
    {
      assert text[k] == w[k - lo];
    }
    forall k | lo + a + |r| <= k < hi
      ensures IsSpace(text[k])
    {
      assert text[k] == w[k - lo];
    }
  }

  /** A non-space character of a stripped window lies inside what remains. */
  lemma StrippedKeeps(text: string, lo: nat, hi: nat, a: nat, r: string, k: nat)
    requires Stripped(text, lo, hi, a, r)
    requires lo <= k < hi && !IsSpace(text[k])
    ensures a <= k < a + |r|
  {
  }

  /** A window strips to one string only: `Stripped` pins the trimmed
      window down completely. */
  lemma StrippedUnique(text: string, lo: nat, hi: nat, a1: nat, r1: string, a2: nat, r2: string)
    requires Stripped(text, lo, hi, a1, r1) && Stripped(text, lo, hi, a2, r2)
    ensures r1 == r2
  {
    if r1 != [] {
      assert text[a1] == r1[0] && text[a1 + |r1| - 1] == r1[|r1| - 1];
      StrippedKeeps(text, lo, hi, a2, r2, a1);
      StrippedKeeps(text, lo, hi, a2, r2, a1 + |r1| - 1);
    }
    if r2 != [] {
      assert text[a2] == r2[0] && text[a2 + |r2| - 1] == r2[|r2| - 1];
      StrippedKeeps(text, lo, hi, a1, r1, a2);
      StrippedKeeps(text, lo, hi, a1, r1, a2 + |r2| - 1);
    }
  }

  /** A slice of the window `text[lo..hi]` is a slice of `text`. */
  lemma SliceAt(text: string, lo: nat, hi: nat, a: nat, r: string)
    requires lo <= hi <= |text| && a + |r| <= hi - lo
    requires r == text[lo..hi][a..a + |r|]
    ensures PrefixAt(text, lo + a, r)
  {
    SliceOfSlice(text, lo, hi, a, a + |r|);
  }

  // ---------------------------------------------------------------- split

  /** Index of the first whitespace character at or after `from`, or |s|. */
  function NextSpace(s: string, from: nat): (i: nat)
    requires from <= |s|
    ensures from <= i <= |s|
    ensures forall k :: from <= k < i ==> !IsSpace(s[k])
    ensures i < |s| ==> IsSpace(s[i])
    decreases |s| - from
  {
    if from == |s| || IsSpace(s[from]) then from else NextSpace(s, from + 1)
  }

  /** Index of the first non-whitespace character at or after `from`, or |s|:
      where a greedy `\s*` or `\s+` starting at `from` stops. */
  function SkipSpaces(s: string, from: nat): (j: nat)
    requires from <= |s|
    ensures from <= j <= |s|
    ensures forall k :: from <= k < j ==> IsSpace(s[k])
    ensures j < |s| ==> !IsSpace(s[j])
    decreases |s| - from
  {
    if from == |s| || !IsSpace(s[from]) then from else SkipSpaces(s, from + 1)
  }

  /** `s.split(/\s+/)`: the pieces between maximal whitespace runs. A leading
      or trailing run yields an empty first or last piece, and the empty
      string yields one empty piece. There are at least two pieces exactly
      when `s` contains whitespace. */
  function Split(s: string): (parts: seq<string>)
    ensures |parts| >= 1
    ensures |parts| >= 2 <==> exists k :: 0 <= k < |s| && IsSpace(s[k])
    decreases |s|
  {
    var i := NextSpace(s, 0);
    if i == |s| then [s]
    else [s[..i]] + Split(s[SkipSpaces(s, i)..])
  }

  /** Every piece is a token: non-empty and without whitespace. */
  ghost predicate Tokens(parts: seq<string>) {
    forall k :: 0 <= k < |parts| ==> |parts[k]| > 0 && NoSpace(parts[k])
  }

  /** The pieces of a split contain no whitespace, and when the string is
      trimmed and non-empty none of them is empty either. */
  lemma {:induction false} SplitTokens(s: string)
    requires s != [] && Unpadded(s)
    ensures Tokens(Split(s))
    decreases |s|
  {
    var i := NextSpace(s, 0);
    if i < |s| {
      var j := SkipSpaces(s, i);
      assert j < |s| by {
        assert !IsSpace(s[|s| - 1]);
      }
      SplitTokens(s[j..]);
      assert i > 0;
      var parts := Split(s);
      assert parts == [s[..i]] + Split(s[j..]);
      forall k | 0 <= k < |parts| ensures |parts[k]| > 0 && NoSpace(parts[k]) {
        if k > 0 { assert parts[k] == Split(s[j..])[k - 1]; }
      }
    }
  }

  /** Tokens joined by single spaces. */
  function JoinSpaced(parts: seq<string>): string
    decreases |parts|
  {
    if |parts| == 0 then ""
    else if |parts| == 1 then parts[0]
    else parts[0] + " " + JoinSpaced(parts[1..])
  }

  /** Splitting undoes joining tokens with spaces. */
  lemma {:induction false} SplitJoin(parts: seq<string>)
    requires |parts| >= 1 && Tokens(parts)
    ensures Split(JoinSpaced(parts)) == parts
    decreases |parts|
  {
    var s := JoinSpaced(parts);
    var p := parts[0];
    if |parts| == 1 {
      assert NextSpace(s, 0) == |s| by {
        assert NoSpace(s);
      }
    } else {
      var rest := JoinSpaced(parts[1..]);
      assert Tokens(parts[1..]) by {
        forall k | 0 <= k < |parts[1..]| ensures |parts[1..][k]| > 0 && NoSpace(parts[1..][k]) {
          assert parts[1..][k] == parts[k + 1];
        }
      }
      assert s == p + " " + rest;
      assert rest[0] == parts[1][0] by {
        if |parts[1..]| > 1 {
          assert rest == parts[1] + " " + JoinSpaced(parts[2..]);
        }
      }
      var i := NextSpace(s, 0);
      assert i == |p| by {
        assert s[|p|] == ' ';
        assert forall k :: 0 <= k < |p| ==> s[k] == p[k];
      }
      var j := SkipSpaces(s, i);
      assert j == |p| + 1 by {
        assert s[|p| + 1] == rest[0];
      }
      assert s[..i] == p;
      assert s[j..] == rest;
      SplitJoin(parts[1..]);
    }
  }

  // ---------------------------------------------------------------- numbers

  /** The decimal digit for `d`. */
  function DigitChar(d: nat): (c: char)
    requires d < 10
    ensures '0' <= c <= '9' && c as int - '0' as int == d
  {
    (d + '0' as int) as char
  }

  /** Decimal rendering of a counter, as in a JavaScript template literal. */
  function NatToString(n: nat): (r: string)
    ensures |r| >= 1
    ensures forall k :: 0 <= k < |r| ==> '0' <= r[k] <= '9'
    decreases n
  {
    if n < 10 then [DigitChar(n)] else NatToString(n / 10) + [DigitChar(n % 10)]
  }

  /** The value of a string of decimal digits. */
  function DigitsValue(s: string): nat
    requires forall k :: 0 <= k < |s| ==> '0' <= s[k] <= '9'
    decreases |s|
  {
    if |s| == 0 then 0
    else DigitsValue(s[..|s| - 1]) * 10 + (s[|s| - 1] as int - '0' as int)
  }

  /** Reading back a rendered counter gives the counter. */
  lemma {:induction false} NatToStringRoundTrip(n: nat)
    ensures DigitsValue(NatToString(n)) == n
    decreases n
  {
    var r := NatToString(n);
    if n >= 10 {
      NatToStringRoundTrip(n / 10);
      assert r[..|r| - 1] == NatToString(n / 10);
    } else {
      assert r[..0] == [];
    }
  }

  /** Different counters render differently. */
  lemma NatToStringInjective(a: nat, b: nat)
    requires NatToString(a) == NatToString(b)
    ensures a == b
  {
    NatToStringRoundTrip(a);
    NatToStringRoundTrip(b);
  }

  // ---------------------------------------------------------------- replace

  /** Leftmost position at or after `from` where `pat` occurs in `s`. */
  function IndexOf(s: string, pat: string, from: nat): (r: Option<nat>)
    requires from <= |s|
    ensures r.Some? ==> from <= r.value && PrefixAt(s, r.value, pat)
    ensures r.Some? ==> forall p :: from <= p < r.value ==> !PrefixAt(s, p, pat)
    ensures r.None? ==> forall p :: from <= p <= |s| ==> !PrefixAt(s, p, pat)
    decreases |s| - from
  {
    if PrefixAt(s, from, pat) then Some(from)
    else if from == |s| then None
    else IndexOf(s, pat, from + 1)
  }

  /** `s.replace(pat, rep)` with a string pattern: only the leftmost
      occurrence is replaced, and `s` is returned unchanged when `pat` does
      not occur. (`rep` is taken literally: the callers' replacements contain
      no `$`.) */
  function ReplaceFirst(s: string, pat: string, rep: string): (r: string)
    ensures IndexOf(s, pat, 0).None? ==> r == s
    ensures IndexOf(s, pat, 0).Some? ==>
      var i := IndexOf(s, pat, 0).value;
      r == s[..i] + rep + s[i + |pat|..]
  {
    match IndexOf(s, pat, 0)
    case None => s
    case Some(i) => s[..i] + rep + s[i + |pat|..]
  }
}
