/**
 Characters and strings as the extractor sees them.

 Python's `re` module and its `str` methods classify characters by their
 Unicode properties. This model uses the ASCII part of those definitions:
 - a digit is one of 0-9;
 - a word character is an ASCII letter, a digit or the underscore;
 - whitespace is the space, the control characters 9-13 (tab to carriage
   return) and 28-31, which is exactly what `str.isspace` and the regex
   class of whitespace accept below code point 128.
 Every other character counts as a non-digit, non-word, non-space character.
 */
module Text {

  type String = seq<char>

  predicate IsDigit(c: char) { '0' <= c <= '9' }
  predicate IsUpper(c: char) { 'A' <= c <= 'Z' }
  predicate IsLower(c: char) { 'a' <= c <= 'z' }
  predicate IsLetter(c: char) { IsUpper(c) || IsLower(c) }
  predicate IsAlnum(c: char) { IsLetter(c) || IsDigit(c) }
  predicate IsWordChar(c: char) { IsAlnum(c) || c == '_' }
  predicate IsSpace(c: char) { c == ' ' || 9 <= c as int <= 13 || 28 <= c as int <= 31 }

  function UpperChar(c: char): (u: char)
    ensures !IsLower(u)
    ensures IsLetter(c) <==> IsLetter(u)
  {
    if IsLower(c) then (c as int - 32) as char else c
  }

  function LowerChar(c: char): (l: char)
    ensures !IsUpper(l)
    ensures UpperChar(l) == UpperChar(c)
  {
    if IsUpper(c) then (c as int + 32) as char else c
  }

  /** `str.upper()` over the ASCII letters. */
  function ToUpper(s: String): (r: String)
    ensures |r| == |s|
    ensures forall k :: 0 <= k < |s| ==> r[k] == UpperChar(s[k])
  {
    seq(|s|, k requires 0 <= k < |s| => UpperChar(s[k]))
  }

  /** The character classes that the patterns and string methods repeat. */
  datatype CharClass =
    | Space       // whitespace
    | NonSpace    // the characters of a token of `str.split()`
    | Digit
    | Lower       // a-z
    | NameChar    // A-Z, space, comma, period, apostrophe and hyphen
    | NotNewline  // what the regex dot matches: anything but a line feed

  predicate InClass(cls: CharClass, c: char) {
    match cls
    case Space => IsSpace(c)
    case NonSpace => !IsSpace(c)
    case Digit => IsDigit(c)
    case Lower => IsLower(c)
    case NameChar => IsUpper(c) || c == ' ' || c == ',' || c == '.' || c == '\'' || c == '-'
    case NotNewline => c != '\n'
  }

  predicate AllIn(cls: CharClass, s: String) {
    forall k :: 0 <= k < |s| ==> InClass(cls, s[k])
  }

  predicate AllDigits(s: String) { AllIn(Digit, s) }

  predicate AllSpace(s: String) { AllIn(Space, s) }

  lemma AllInPrefix(cls: CharClass, s: String, i: nat, j: nat, e: nat)
    requires i <= j <= e <= |s| && AllIn(cls, s[i..e])
    ensures AllIn(cls, s[i..j])
  {
    forall k | 0 <= k < j - i ensures InClass(cls, s[i..j][k]) {
      assert s[i..j][k] == s[i..e][k];
    }
  }

  /** The end of the longest run of `cls` characters starting at `i`: a greedy repetition. */
  function RunEnd(cls: CharClass, s: String, i: nat): (j: nat)
    requires i <= |s|
    ensures i <= j <= |s|
    ensures AllIn(cls, s[i..j])
    ensures j < |s| ==> !InClass(cls, s[j])
    decreases |s| - i
  {
    if i < |s| && InClass(cls, s[i]) then RunEnd(cls, s, i + 1) else i
  }

  /** A run of `cls` characters from `i` ends no later than `RunEnd`. */
  lemma RunEndMaximal(cls: CharClass, s: String, i: nat, e: nat)
    requires i <= e <= |s| && AllIn(cls, s[i..e])
    ensures e <= RunEnd(cls, s, i)
  {
    forall q | i <= q < e ensures InClass(cls, s[q]) {
      assert s[q] == s[i..e][q - i];
    }
  }

  /** A character at index `i` that is a word character. */
  predicate WordAt(s: String, i: int) {
    0 <= i < |s| && IsWordChar(s[i])
  }

  /** The regex word boundary at position `i`: exactly one of the two characters
      around it is a word character; outside the string counts as non-word. */
  predicate Boundary(s: String, i: int) {
    WordAt(s, i - 1) != WordAt(s, i)
  }

  /** `t` is the slice of `s` that starts at `i`. */
  predicate OccursAt(t: String, s: String, i: int) {
    0 <= i && i + |t| <= |s| && s[i..i + |t|] == t
  }

  lemma SliceOfSlice(s: String, lo: nat, hi: nat, a: nat, b: nat)
    requires lo <= hi <= |s| && a <= b <= hi - lo
    ensures s[lo..hi][a..b] == s[lo + a..lo + b]
  {
    assert forall k :: 0 <= k < b - a ==> s[lo..hi][a..b][k] == s[lo + a..lo + b][k];
  }

  /** Cutting the text where a non-word character (or an end) lies on each side
      of the cut leaves every word boundary in between where it was. */
  lemma SliceBoundary(s: String, lo: nat, hi: nat, q: nat)
    requires lo <= hi <= |s| && q <= hi - lo
    requires lo == 0 || !IsWordChar(s[lo - 1])
    requires hi == |s| || !IsWordChar(s[hi])
    ensures Boundary(s[lo..hi], q) == Boundary(s, lo + q)
  {
    var t := s[lo..hi];
    assert WordAt(t, q - 1) == WordAt(s, lo + q - 1) by {
      if 0 < q { assert t[q - 1] == s[lo + q - 1]; }
    }
    assert WordAt(t, q) == WordAt(s, lo + q) by {
      if q < |t| { assert t[q] == s[lo + q]; }
    }
  }

  /** A slice of a slice is a slice of the whole. */
  lemma OccursWithin(t: String, u: String, s: String, a: nat, b: nat)
    requires OccursAt(t, u, a) && OccursAt(u, s, b)
    ensures OccursAt(t, s, b + a)
  {
    SliceOfSlice(s, b, b + |u|, a, a + |t|);
  }

  /** Where `str.strip()` cuts off the trailing whitespace of `s[lo..e]`. */
  function TrailingCut(s: String, lo: nat, e: nat): (b: nat)
    requires lo <= e <= |s| && AllSpace(s[e..])
    ensures lo <= b <= e
    ensures AllSpace(s[b..])
    ensures b > lo ==> !IsSpace(s[b - 1])
    decreases e
  {
    if e > lo && IsSpace(s[e - 1]) then TrailingCut(s, lo, e - 1) else e
  }

  /** `str.strip()`: `s` without its leading and trailing whitespace. */
  function Strip(s: String): (r: String)
    ensures OccursAt(r, s, RunEnd(Space, s, 0))
    ensures AllSpace(s[..RunEnd(Space, s, 0)])
    ensures AllSpace(s[RunEnd(Space, s, 0) + |r|..])
    ensures r == [] <==> AllSpace(s)
    ensures r != [] ==> !IsSpace(r[0]) && !IsSpace(r[|r| - 1])
  {
    var a := RunEnd(Space, s, 0);
    var b := TrailingCut(s, a, |s|);
    assert a < |s| ==> !IsSpace(s[a]);
    assert a < |s| ==> !InClass(Space, s[a]);
    assert a == |s| ==> s == s[..a];
    s[a..b]
  }

  /** `str.strip()` leaves alone a string that neither starts nor ends with whitespace. */
  lemma StripUnchanged(s: String)
    requires s != [] && !IsSpace(s[0]) && !IsSpace(s[|s| - 1])
    ensures Strip(s) == s
  {
    assert RunEnd(Space, s, 0) == 0;
    assert TrailingCut(s, 0, |s|) == |s|;
  }

  /** Stripping keeps a string free of lower-case letters. */
  lemma StripNoLower(s: String)
    requires forall k :: 0 <= k < |s| ==> !IsLower(s[k])
    ensures forall k :: 0 <= k < |Strip(s)| ==> !IsLower(Strip(s)[k])
  {
    var a := RunEnd(Space, s, 0);
    var x := Strip(s);
    forall k | 0 <= k < |x| ensures !IsLower(x[k]) {
      assert x[k] == s[a + k];
    }
  }

  /** `str.split()` with no argument: the maximal runs of non-whitespace characters, in order. */
  function Tokens(s: String): (ts: seq<String>)
    ensures forall k :: 0 <= k < |ts| ==> ts[k] != [] && AllIn(NonSpace, ts[k])
    ensures ts == [] <==> AllSpace(s)
    decreases |s|
  {
    var a := RunEnd(Space, s, 0);
    if a == |s| then
      assert s == s[..a];
      []
    else
      var b := RunEnd(NonSpace, s, a);
      [s[a..b]] + Tokens(s[b..])
  }

  /** Every character of `s` from `i` up to `j` is whitespace. */
  predicate SpaceBetween(s: String, i: nat, j: nat) {
    forall p :: i <= p < j ==> p < |s| && IsSpace(s[p])
  }

  /** The k-th of `ts` is the non-empty slice `s[lo[k]..hi[k]]`. */
  predicate SlicesAt(s: String, ts: seq<String>, lo: seq<nat>, hi: seq<nat>)
    requires |lo| == |ts| && |hi| == |ts|
  {
    forall k :: 0 <= k < |ts| ==> lo[k] < hi[k] <= |s| && ts[k] == s[lo[k]..hi[k]]
  }

  /** Each slice ends before the next one starts. */
  predicate Apart(lo: seq<nat>, hi: seq<nat>)
    requires |lo| == |hi|
  {
    forall k :: 0 <= k < |lo| - 1 ==> hi[k] < lo[k + 1]
  }

  /** Everything before, between and after the slices is whitespace. */
  predicate SpaceAround(s: String, lo: seq<nat>, hi: seq<nat>)
    requires |lo| == |hi|
  {
    && (lo == [] ==> SpaceBetween(s, 0, |s|))
    && (lo != [] ==> SpaceBetween(s, 0, lo[0]) && SpaceBetween(s, hi[|hi| - 1], |s|))
    && (forall k :: 0 <= k < |lo| - 1 ==> SpaceBetween(s, hi[k], lo[k + 1]))
  }

  /** `lo` and `hi` lay the tokens `ts` out over `s`: the k-th token is `s[lo[k]..hi[k]]`,
      the tokens are non-empty, in order and apart, and everything before, between
      and after them is whitespace. */
  predicate TokenLayout(s: String, ts: seq<String>, lo: seq<nat>, hi: seq<nat>) {
    |lo| == |ts| && |hi| == |ts| && SlicesAt(s, ts, lo, hi) && Apart(lo, hi) && SpaceAround(s, lo, hi)
  }

  function Shift(xs: seq<nat>, d: nat): (r: seq<nat>)
    ensures |r| == |xs| && forall i :: 0 <= i < |xs| ==> r[i] == xs[i] + d
  {
    seq(|xs|, i requires 0 <= i < |xs| => xs[i] + d)
  }

  lemma SpaceShift(s: String, b: nat, i: nat, j: nat)
    requires b <= |s| && SpaceBetween(s[b..], i, j)
    ensures SpaceBetween(s, b + i, b + j)
  {
    forall p | b + i <= p < b + j ensures p < |s| && IsSpace(s[p]) {
      assert s[p] == s[b..][p - b];
    }
  }

  lemma SlicesCons(s: String, a: nat, b: nat, ts: seq<String>, lo: seq<nat>, hi: seq<nat>)
    requires a < b <= |s| && |lo| == |ts| && |hi| == |ts| && SlicesAt(s[b..], ts, lo, hi)
    ensures SlicesAt(s, [s[a..b]] + ts, [a] + Shift(lo, b), [b] + Shift(hi, b))
  {
    var ts2, lo2, hi2 := [s[a..b]] + ts, [a] + Shift(lo, b), [b] + Shift(hi, b);
    forall k | 1 <= k < |ts2| ensures lo2[k] < hi2[k] <= |s| && ts2[k] == s[lo2[k]..hi2[k]] {
      SliceOfSlice(s, b, |s|, lo[k - 1], hi[k - 1]);
    }
  }

  lemma SpaceAroundCons(s: String, a: nat, b: nat, lo: seq<nat>, hi: seq<nat>)
    requires a < b <= |s| && SpaceBetween(s, 0, a) && |lo| == |hi|
    requires lo != [] ==> 0 < lo[0]
    requires (b < |s| ==> IsSpace(s[b])) && SpaceAround(s[b..], lo, hi)
    ensures SpaceAround(s, [a] + Shift(lo, b), [b] + Shift(hi, b))
  {
    var lo2, hi2 := [a] + Shift(lo, b), [b] + Shift(hi, b);
    if lo == [] {
      SpaceShift(s, b, 0, |s| - b);
    } else {
      SpaceShift(s, b, 0, lo[0]);
      SpaceShift(s, b, hi[|hi| - 1], |s| - b);
      forall k | 1 <= k < |lo2| - 1 ensures SpaceBetween(s, hi2[k], lo2[k + 1]) {
        SpaceShift(s, b, hi[k - 1], lo[k]);
      }
    }
  }

  lemma ApartCons(a: nat, b: nat, lo: seq<nat>, hi: seq<nat>)
    requires a < b && |lo| == |hi| && Apart(lo, hi)
    requires lo != [] ==> 0 < lo[0]
    ensures Apart([a] + Shift(lo, b), [b] + Shift(hi, b))
  {
  }

  /** A token `s[a..b]` after whitespace, followed by a layout of the rest of `s`,
      lays out the whole of `s`. */
  lemma LayoutCons(s: String, a: nat, b: nat, ts: seq<String>, lo: seq<nat>, hi: seq<nat>)
    requires a < b <= |s| && SpaceBetween(s, 0, a) && (b < |s| ==> IsSpace(s[b]))
    requires TokenLayout(s[b..], ts, lo, hi)
    requires ts != [] ==> !IsSpace(ts[0][0])
    ensures TokenLayout(s, [s[a..b]] + ts, [a] + Shift(lo, b), [b] + Shift(hi, b))
  {
    if ts != [] {
      assert s[b..][lo[0]] == ts[0][0];
    }
    SlicesCons(s, a, b, ts, lo, hi);
    SpaceAroundCons(s, a, b, lo, hi);
    ApartCons(a, b, lo, hi);
    var lo2, hi2 := [a] + Shift(lo, b), [b] + Shift(hi, b);
    assert |lo2| == |hi2| == |ts| + 1;
  }

  /** The tokens of `str.split()` are the whitespace-separated words of `s`, in order. */
  lemma {:induction false} TokenSpans(s: String) returns (lo: seq<nat>, hi: seq<nat>)
    ensures TokenLayout(s, Tokens(s), lo, hi)
    decreases |s|
  {
    var a := RunEnd(Space, s, 0);
    assert SpaceBetween(s, 0, a) by {
      forall p | 0 <= p < a ensures p < |s| && IsSpace(s[p]) {
        assert s[p] == s[0..a][p];
      }
    }
    if a == |s| {
      lo, hi := [], [];
    } else {
      var b := RunEnd(NonSpace, s, a);
      var lo', hi' := TokenSpans(s[b..]);
      var ts := Tokens(s[b..]);
      assert Tokens(s) == [s[a..b]] + ts;
      if ts != [] {
        assert ts[0] != [] && AllIn(NonSpace, ts[0]);
      }
      LayoutCons(s, a, b, Tokens(s[b..]), lo', hi');
      lo, hi := [a] + Shift(lo', b), [b] + Shift(hi', b);
    }
  }

  /** `str.title()` after a character that was (`prevCased`) or was not a letter. */
  function TitleAfter(s: String, prevCased: bool): (r: String)
    ensures |r| == |s|
  {
    if s == [] then []
    else [if prevCased then LowerChar(s[0]) else UpperChar(s[0])] + TitleAfter(s[1..], IsLetter(s[0]))
  }

  /** `str.title()`: a letter is upper-cased where it opens the string or follows a
      non-letter and lower-cased where it follows a letter; other characters stay. */
  function Title(s: String): (r: String)
    ensures |r| == |s|
  {
    TitleAfter(s, false)
  }

  lemma {:induction false} TitleAfterAt(s: String, prevCased: bool, k: nat)
    requires k < |s|
    ensures TitleAfter(s, prevCased)[k] ==
      if (if k == 0 then prevCased else IsLetter(s[k - 1])) then LowerChar(s[k]) else UpperChar(s[k])
  {
    if k > 0 {
      TitleAfterAt(s[1..], IsLetter(s[0]), k - 1);
    }
  }

  /** Each letter of `Title(s)` is upper-case exactly when it opens a word. */
  lemma TitleAt(s: String, k: nat)
    requires k < |s|
    ensures Title(s)[k] == if k > 0 && IsLetter(s[k - 1]) then LowerChar(s[k]) else UpperChar(s[k])
  {
    TitleAfterAt(s, false, k);
  }

  /** Upper-casing undoes `str.title()` on a string with no lower-case letters. */
  lemma UpperOfTitle(s: String)
    requires forall k :: 0 <= k < |s| ==> !IsLower(s[k])
    ensures ToUpper(Title(s)) == s
  {
    forall k | 0 <= k < |s| ensures ToUpper(Title(s))[k] == s[k] {
      TitleAt(s, k);
    }
  }

  /** `sep.join(xs)`. */
  function Join(xs: seq<String>, sep: String): (r: String)
    ensures (forall k :: 0 <= k < |xs| ==> xs[k] != []) ==> (r == [] <==> xs == [])
  {
    if |xs| == 0 then []
    else if |xs| == 1 then xs[0]
    else xs[0] + sep + Join(xs[1..], sep)
  }

  /** The first index at or after `i` where `sep` occurs in `s`, or `|s|` when it does not. */
  function FindFrom(s: String, sep: String, i: nat): (k: nat)
    requires |sep| > 0 && i <= |s|
    ensures i <= k <= |s|
    ensures k < |s| ==> OccursAt(sep, s, k)
    ensures forall q :: i <= q < k ==> !OccursAt(sep, s, q)
    decreases |s| - i
  {
    if i == |s| then i
    else if OccursAt(sep, s, i) then i
    else FindFrom(s, sep, i + 1)
  }

  /** `s.split(sep)`: the pieces between the leftmost non-overlapping occurrences of `sep`. */
  function SplitOn(s: String, sep: String): (pieces: seq<String>)
    requires |sep| > 0
    ensures |pieces| > 0
    decreases |s|
  {
    var k := FindFrom(s, sep, 0);
    if k == |s| then [s] else [s[..k]] + SplitOn(s[k + |sep|..], sep)
  }

  /** A separator cannot start inside a prefix that lacks its first character. */
  lemma NoSepInPrefix(s: String, sep: String, x: String)
    requires |sep| > 0 && |x| <= |s| && s[..|x|] == x && sep[0] !in x
    ensures forall q :: 0 <= q < |x| ==> !OccursAt(sep, s, q)
  {
    forall q | 0 <= q < |x| ensures !OccursAt(sep, s, q) {
      assert s[q] == x[q] && x[q] in x;
      if q + |sep| <= |s| { assert s[q..q + |sep|][0] == s[q]; }
    }
  }

  /** Splitting a joined list on its separator gives the list back, provided no
      element holds the separator's first character. */
  lemma {:induction false} SplitJoin(xs: seq<String>, sep: String)
    requires |xs| > 0 && |sep| > 0
    requires forall k :: 0 <= k < |xs| ==> sep[0] !in xs[k]
    ensures SplitOn(Join(xs, sep), sep) == xs
  {
    var s := Join(xs, sep);
    if |xs| == 1 {
      NoSepInPrefix(s, sep, s);
      assert FindFrom(s, sep, 0) == |s|;
    } else {
      var x := xs[0];
      var rest := Join(xs[1..], sep);
      assert s == x + sep + rest;
      assert s[..|x|] == x;
      NoSepInPrefix(s, sep, x);
      assert OccursAt(sep, s, |x|) by { assert s[|x|..|x| + |sep|] == sep; }
      assert FindFrom(s, sep, 0) == |x|;
      assert s[|x| + |sep|..] == rest;
      SplitJoin(xs[1..], sep);
    }
  }
}
