/**
 The regular expressions of the extractor (ar4.py:37-46, 68, 80, 93).

 There is no regex engine here. Each pattern the program uses is described by
 the length of the match Python's backtracking engine finds when it tries the
 pattern at one position (0 when the attempt fails). `Spans` then scans the
 text the way `findall` does, and `Search` takes the first match, the way
 `search` does; `SpansLeftmost` proves that the scan yields exactly the
 leftmost, non-overlapping matches.
 */
module Regex {
  import opened Wrappers
  import opened Text

  /** The patterns of the program. */
  datatype Pattern =
    | Account      // the account label, whitespace, and a 4-5 digit number captured (ar4.py:41)
    | AccountLine  // the account label up to four digits, the rest of that line, and the next line captured (ar4.py:93)
    | Date         // two digits, slash, two digits, slash, four digits, between word boundaries (ar4.py:43)
    | Cpt          // five digits, optionally a hyphen and two letters or digits of either case, between word boundaries (ar4.py:46)
    | UpperName    // three or more upper-case letters, spaces and , . ' - between word boundaries (ar4.py:68)
    | MixedName    // capitalised words, a comma and space, a capitalised word, an optional initial (ar4.py:80)

  const AccountLabel: String := "Account:"

  // ---------------------------------------------------------------- markers

  /** Where the digits of a marker at `i` start: after the label and the greedy
      run of whitespace (line feeds included) that follows it. */
  function MarkerDigits(s: String, i: nat): (j: nat)
    requires i + |AccountLabel| <= |s|
    ensures i + |AccountLabel| <= j <= |s|
  {
    RunEnd(Space, s, i + |AccountLabel|)
  }

  /** The label, optional whitespace and four digits start at `i`. This is the
      lookahead of the block split (ar4.py:37) and the common prefix of the two
      account patterns (ar4.py:41, 93). */
  predicate MarkerAt(s: String, i: int) {
    0 <= i && i + |AccountLabel| <= |s| && s[i..i + |AccountLabel|] == AccountLabel &&
    MarkerDigits(s, i) + 4 <= |s| && AllDigits(s[MarkerDigits(s, i)..MarkerDigits(s, i) + 4])
  }

  /** The marker as the regex reads it: some amount of whitespace, then four digits.
      Giving back whitespace never helps (a whitespace character is no digit), so
      the greedy reading of `MarkerAt` loses no match. */
  lemma MarkerAtIff(s: String, i: nat, k: nat)
    requires i + |AccountLabel| <= k && k + 4 <= |s|
    requires s[i..i + |AccountLabel|] == AccountLabel
    requires AllSpace(s[i + |AccountLabel|..k]) && AllDigits(s[k..k + 4])
    ensures MarkerAt(s, i) && MarkerDigits(s, i) == k
  {
    var j := MarkerDigits(s, i);
    assert IsDigit(s[k]) by { assert s[k] == s[k..k + 4][0]; }
    assert forall q :: i + |AccountLabel| <= q < k ==> IsSpace(s[q]) by {
      forall q | i + |AccountLabel| <= q < k ensures IsSpace(s[q]) {
        assert s[q] == s[i + |AccountLabel|..k][q - i - |AccountLabel|];
      }
    }
    assert forall q :: i + |AccountLabel| <= q < j ==> IsSpace(s[q]) by {
      forall q | i + |AccountLabel| <= q < j ensures IsSpace(s[q]) {
        assert s[q] == s[i + |AccountLabel|..j][q - i - |AccountLabel|];
      }
    }
    assert j < |s| ==> !IsSpace(s[j]);
  }

  /** No character of a marker after its first is an `A`, so markers never overlap. */
  lemma MarkerHasOneA(s: String, i: nat, q: int)
    requires MarkerAt(s, i)
    requires i < q < MarkerDigits(s, i) + 4
    ensures s[q] != 'A'
  {
    var j := MarkerDigits(s, i);
    if q < i + |AccountLabel| {
      assert s[q] == s[i..i + |AccountLabel|][q - i] == AccountLabel[q - i];
    } else if q < j {
      assert s[q] == s[i + |AccountLabel|..j][q - i - |AccountLabel|];
    } else {
      assert s[q] == s[j..j + 4][q - j];
    }
  }

  lemma MarkerStartsWithA(s: String, i: nat)
    requires MarkerAt(s, i)
    ensures s[i] == 'A'
  {
    assert s[i] == s[i..i + |AccountLabel|][0];
  }

  /** A marker that lies wholly inside a slice of the text is a marker of the slice. */
  lemma MarkerToSlice(s: String, lo: nat, hi: nat, i: nat)
    requires lo <= i && hi <= |s|
    requires MarkerAt(s, i) && MarkerDigits(s, i) + 4 <= hi
    ensures MarkerAt(s[lo..hi], i - lo) && MarkerDigits(s[lo..hi], i - lo) == MarkerDigits(s, i) - lo
  {
    var t := s[lo..hi];
    var i' := i - lo;
    var k := MarkerDigits(s, i);
    SliceOfSlice(s, lo, hi, i', i' + |AccountLabel|);
    SliceOfSlice(s, lo, hi, i' + |AccountLabel|, k - lo);
    SliceOfSlice(s, lo, hi, k - lo, k - lo + 4);
    MarkerAtIff(t, i', k - lo);
  }

  /** A marker of a slice of the text is a marker of the text. */
  lemma MarkerFromSlice(s: String, lo: nat, hi: nat, i: nat)
    requires lo <= i && lo <= hi <= |s|
    requires MarkerAt(s[lo..hi], i - lo)
    ensures MarkerAt(s, i) && MarkerDigits(s, i) == MarkerDigits(s[lo..hi], i - lo) + lo
    ensures MarkerDigits(s, i) + 4 <= hi
  {
    var t := s[lo..hi];
    var i' := i - lo;
    var k := MarkerDigits(t, i');
    SliceOfSlice(s, lo, hi, i', i' + |AccountLabel|);
    SliceOfSlice(s, lo, hi, i' + |AccountLabel|, k);
    SliceOfSlice(s, lo, hi, k, k + 4);
    MarkerAtIff(s, i, k + lo);
  }

  /** The number of digits the account pattern captures: the greedy choice of four
      or five (ar4.py:41). */
  function AccountDigitCount(s: String, j: nat): (n: nat)
    requires j + 4 <= |s|
    ensures n == 4 || n == 5
    ensures j + n <= |s|
  {
    if j + 5 <= |s| && IsDigit(s[j + 4]) then 5 else 4
  }

  /** The end of the line that starts at `k`: the first line feed at or after `k`,
      or the end of the text. */
  function LineEnd(s: String, k: nat): (e: nat)
    requires k <= |s|
    ensures k <= e <= |s|
    ensures e < |s| ==> s[e] == '\n'
    ensures forall q :: k <= q < e ==> s[q] != '\n'
  {
    var e := RunEnd(NotNewline, s, k);
    assert forall q :: k <= q < e ==> s[q] == s[k..e][q - k];
    e
  }

  // ---------------------------------------------------------------- the other shapes

  predicate DateShape(t: String) {
    |t| == 10 && IsDigit(t[0]) && IsDigit(t[1]) && t[2] == '/' && IsDigit(t[3]) && IsDigit(t[4]) &&
    t[5] == '/' && AllDigits(t[6..10])
  }

  /** Five digits, optionally followed by a hyphen and two letters or digits. */
  predicate CptShape(t: String) {
    (|t| == 5 || (|t| == 8 && t[5] == '-' && IsAlnum(t[6]) && IsAlnum(t[7]))) && AllDigits(t[..5])
  }

  /** The optional modifier of a CPT code (`-` and two letters or digits) at `k`. */
  predicate CptSuffixAt(s: String, k: nat) {
    k + 3 <= |s| && s[k] == '-' && IsAlnum(s[k + 1]) && IsAlnum(s[k + 2])
  }

  /** Backs off from the end `e` of a run of name characters that starts at `i`
      until a word boundary follows it, keeping at least three characters. */
  function UpperBackoff(s: String, i: nat, e: nat): (n: nat)
    requires i <= e <= |s|
    ensures n == 0 || (3 <= n <= e - i && Boundary(s, i + n))
    ensures forall q :: i + n < q <= e && i + 3 <= q ==> !Boundary(s, q)
    decreases e - i
  {
    if e < i + 3 then 0
    else if Boundary(s, e) then e - i
    else UpperBackoff(s, i, e - 1)
  }

  /** The end of a capitalised word (an upper-case letter, then one or more
      lower-case letters, as many as there are) starting at `i`. */
  function CapWordEnd(s: String, i: nat): (e: Option<nat>)
    requires i <= |s|
    ensures e.Some? ==> i + 2 <= e.value <= |s|
  {
    if i + 2 <= |s| && IsUpper(s[i]) && IsLower(s[i + 1]) then Some(RunEnd(Lower, s, i + 1)) else None
  }

  /** `[A-Z][a-z]+` spans `s[i..e]`. */
  predicate CapWordAt(s: String, i: nat, e: nat) {
    i + 2 <= e <= |s| && IsUpper(s[i]) && forall k :: i < k < e ==> IsLower(s[k])
  }

  /** `CapWordEnd` finds a capitalised word, and the longest one: no lower-case
      letter follows it. */
  lemma CapWordEndAt(s: String, i: nat)
    requires i <= |s| && CapWordEnd(s, i).Some?
    ensures CapWordAt(s, i, CapWordEnd(s, i).value)
    ensures CapWordEnd(s, i).value < |s| ==> !IsLower(s[CapWordEnd(s, i).value])
  {
    var e := CapWordEnd(s, i).value;
    forall k | i < k < e ensures IsLower(s[k]) {
      assert s[k] == s[i + 1..e][k - (i + 1)];
    }
  }

  /** Every capitalised word at `i` is found by `CapWordEnd`, and ends no later than the
      one it finds; exactly there when no lower-case letter follows it. */
  lemma CapWordLongest(s: String, i: nat, x: nat)
    requires CapWordAt(s, i, x)
    ensures CapWordEnd(s, i).Some? && x <= CapWordEnd(s, i).value
    ensures x < |s| && !IsLower(s[x]) ==> CapWordEnd(s, i).value == x
  {
    var w := s[i + 1..x];
    assert AllIn(Lower, w) by {
      forall k | 0 <= k < |w| ensures InClass(Lower, w[k]) {
        assert w[k] == s[i + 1 + k];
      }
    }
    RunEndMaximal(Lower, s, i + 1, x);
    var e := CapWordEnd(s, i).value;
    if x < e {
      assert s[x] == s[i + 1..e][x - (i + 1)];
    }
  }

  /** Further capitalised words, each after one space, as many as follow `e`. */
  function MoreCapWords(s: String, e: nat): (b: nat)
    requires e <= |s|
    ensures e <= b <= |s|
    decreases |s| - e
  {
    if e < |s| && s[e] == ' ' && CapWordEnd(s, e + 1).Some? then MoreCapWords(s, CapWordEnd(s, e + 1).value)
    else e
  }

  /** The optional middle initial after the first name ending at `f`: a space, an
      upper-case letter and, when present, a period. */
  function InitialEnd(s: String, f: nat): (g: nat)
    requires f <= |s|
    ensures f <= g <= |s|
  {
    if f + 2 <= |s| && s[f] == ' ' && IsUpper(s[f + 1]) then
      if f + 2 < |s| && s[f + 2] == '.' then f + 3 else f + 2
    else f
  }

  // ---------------------------------------------------------------- one match attempt

  /** The length of the match that the engine finds when it tries `pat` at `i`,
      or 0 when the attempt fails. Every pattern needs at least one character. */
  function MatchLen(pat: Pattern, s: String, i: nat): (n: nat)
    requires i <= |s|
    ensures n > 0 ==> i + n <= |s|
  {
    match pat
    case Account =>
      if MarkerAt(s, i) then MarkerDigits(s, i) + AccountDigitCount(s, MarkerDigits(s, i)) - i else 0
    case AccountLine =>
      // The lazy dot-run stops at the first line feed after the four digits; the
      // captured line then runs to the next line feed or the end of the text.
      if MarkerAt(s, i) && LineEnd(s, MarkerDigits(s, i) + 4) < |s| then
        LineEnd(s, LineEnd(s, MarkerDigits(s, i) + 4) + 1) - i
      else 0
    case Date =>
      if i + 10 <= |s| && Boundary(s, i) && DateShape(s[i..i + 10]) && Boundary(s, i + 10) then 10 else 0
    case Cpt =>
      // The optional modifier is tried first; when the boundary after it fails the
      // engine backtracks to the bare five digits.
      if !(i + 5 <= |s| && Boundary(s, i) && AllDigits(s[i..i + 5])) then 0
      else if CptSuffixAt(s, i + 5) && Boundary(s, i + 8) then 8
      else if Boundary(s, i + 5) then 5
      else 0
    case UpperName =>
      if Boundary(s, i) then UpperBackoff(s, i, RunEnd(NameChar, s, i)) else 0
    case MixedName =>
      // Giving back a lower-case letter or a repetition never lets the next
      // literal (space or comma) match, so the greedy path is the only one
      // (MixedNameMatchSpec).
      match CapWordEnd(s, i)
      case None => 0
      case Some(a) =>
        var b := MoreCapWords(s, a);
        if b + 2 <= |s| && s[b] == ',' && s[b + 1] == ' ' && CapWordEnd(s, b + 2).Some? then
          InitialEnd(s, CapWordEnd(s, b + 2).value) - i
        else 0
  }

  /** What a CPT match at `i` is: five digits, optionally the modifier, with a word
      boundary on each side; where both readings fit, the longer one is taken. */
  lemma CptMatchSpec(s: String, i: nat)
    requires i <= |s|
    ensures var n := MatchLen(Cpt, s, i);
      n > 0 ==> (n == 5 || n == 8) && CptShape(s[i..i + n]) && Boundary(s, i) && Boundary(s, i + n)
    ensures i + 5 <= |s| && CptShape(s[i..i + 5]) && Boundary(s, i) && Boundary(s, i + 5) ==>
      MatchLen(Cpt, s, i) > 0
    ensures i + 8 <= |s| && CptShape(s[i..i + 8]) && Boundary(s, i) && Boundary(s, i + 8) ==>
      MatchLen(Cpt, s, i) == 8
  {
    if i + 5 <= |s| {
      assert s[i..i + 5] == s[i..i + 5][..5];
    }
    if i + 8 <= |s| {
      assert s[i..i + 8][..5] == s[i..i + 5];
    }
  }

  /** What a tier-1 name match at `i` is: at least three name characters between
      word boundaries, and the longest such run (the engine backs off from the
      greedy run only as far as the trailing boundary needs). */
  lemma UpperNameMatchSpec(s: String, i: nat)
    requires i <= |s|
    ensures var n := MatchLen(UpperName, s, i);
      n > 0 ==> 3 <= n && i + n <= |s| && AllIn(NameChar, s[i..i + n]) && Boundary(s, i) && Boundary(s, i + n)
    ensures forall e ::
      i + MatchLen(UpperName, s, i) < e <= |s| && i + 3 <= e && Boundary(s, i) && AllIn(NameChar, s[i..e])
      ==> !Boundary(s, e)
  {
    var r := RunEnd(NameChar, s, i);
    var n := MatchLen(UpperName, s, i);
    if n > 0 {
      AllInPrefix(NameChar, s, i, i + n, r);
    }
    forall e | i + n < e <= |s| && i + 3 <= e && Boundary(s, i) && AllIn(NameChar, s[i..e])
      ensures !Boundary(s, e)
    {
      RunEndMaximal(NameChar, s, i, e);
    }
  }

  // ---------------------------------------------------------------- the tier-2 pattern as a grammar

  /** `[A-Z][a-z]+(?: [A-Z][a-z]+)*` spans `s[ws[0]..b]`: capitalised words that
      start at the positions `ws`, each but the last followed by one space. */
  predicate WordChain(s: String, ws: seq<nat>, b: nat)
    decreases |ws|
  {
    |ws| >= 1 && CapWordAt(s, ws[|ws| - 1], b) &&
    (|ws| > 1 ==> 1 <= ws[|ws| - 1] && s[ws[|ws| - 1] - 1] == ' ' && WordChain(s, ws[..|ws| - 1], ws[|ws| - 1] - 1))
  }

  /** `s[i..e]` has the shape of the tier-2 pattern (ar4.py:80): a chain of
      capitalised words from `i` up to the comma at `c`, the comma and a space, the
      capitalised word `s[c + 2..f]`, and optionally a space and an upper-case
      initial, with or without a period. */
  predicate MixedShape(s: String, i: nat, ws: seq<nat>, c: nat, f: nat, e: nat) {
    WordChain(s, ws, c) && ws[0] == i && c + 2 <= |s| && s[c] == ',' && s[c + 1] == ' ' &&
    CapWordAt(s, c + 2, f) &&
    (e == f || (f + 2 <= |s| && s[f] == ' ' && IsUpper(s[f + 1]) &&
                (e == f + 2 || (e == f + 3 && e <= |s| && s[f + 2] == '.'))))
  }

  /** The greedy repetition extends a chain ending at `e` by every further word. */
  lemma ChainOfMore(s: String, ws: seq<nat>, e: nat) returns (ws': seq<nat>)
    requires WordChain(s, ws, e)
    ensures WordChain(s, ws', MoreCapWords(s, e)) && ws'[0] == ws[0]
    decreases |s| - e
  {
    if e < |s| && s[e] == ' ' && CapWordEnd(s, e + 1).Some? {
      CapWordEndAt(s, e + 1);
      var w := ws + [e + 1];
      assert w[..|w| - 1] == ws;
      ws' := ChainOfMore(s, w, CapWordEnd(s, e + 1).value);
    } else {
      ws' := ws;
    }
  }

  /** A chain that no lower-case letter follows is the one the greedy repetition
      reads from its first word. */
  lemma {:induction false} ChainFollowed(s: String, ws: seq<nat>, b: nat)
    requires WordChain(s, ws, b) && (b < |s| ==> !IsLower(s[b]))
    ensures ws[0] <= |s| && CapWordEnd(s, ws[0]).Some?
    ensures MoreCapWords(s, CapWordEnd(s, ws[0]).value) == MoreCapWords(s, b)
    decreases |ws|
  {
    var l := ws[|ws| - 1];
    CapWordLongest(s, l, b);
    if |ws| > 1 {
      var pre := ws[..|ws| - 1];
      ChainFollowed(s, pre, l - 1);
      assert pre[0] == ws[0];
    }
  }

  /** Every match of the tier-2 pattern has its shape. */
  lemma MixedNameSound(s: String, i: nat) returns (ws: seq<nat>, c: nat, f: nat)
    requires i <= |s| && MatchLen(MixedName, s, i) > 0
    ensures MixedShape(s, i, ws, c, f, i + MatchLen(MixedName, s, i))
  {
    CapWordEndAt(s, i);
    var a := CapWordEnd(s, i).value;
    ws := ChainOfMore(s, [i], a);
    c := MoreCapWords(s, a);
    CapWordEndAt(s, c + 2);
    f := CapWordEnd(s, c + 2).value;
  }

  /** Every text of the tier-2 shape at `i` is matched, by a match no shorter. */
  lemma MixedNameLongest(s: String, i: nat, ws: seq<nat>, c: nat, f: nat, e: nat)
    requires MixedShape(s, i, ws, c, f, e)
    ensures 0 < e - i <= MatchLen(MixedName, s, i)
  {
    ChainFollowed(s, ws, c);
    CapWordLongest(s, c + 2, f);
    var g := CapWordEnd(s, c + 2).value;
    CapWordEndAt(s, c + 2);
    if f < g {
      assert IsLower(s[f]);
    }
  }

  /** What a tier-2 name match at `i` is: a text of the pattern's shape, and the
      longest text of that shape starting at `i` (greedy repetitions give nothing
      back, since the space or comma after them never matches a lower-case letter
      or a word's capital). */
  lemma MixedNameMatchSpec(s: String, i: nat) returns (ws: seq<nat>, c: nat, f: nat)
    requires i <= |s|
    ensures MatchLen(MixedName, s, i) > 0 ==> MixedShape(s, i, ws, c, f, i + MatchLen(MixedName, s, i))
    ensures forall ws': seq<nat>, c': nat, f': nat, e: nat :: MixedShape(s, i, ws', c', f', e) ==> 0 < e - i <= MatchLen(MixedName, s, i)
  {
    if MatchLen(MixedName, s, i) > 0 {
      ws, c, f := MixedNameSound(s, i);
    } else {
      ws, c, f := [], 0, 0;
    }
    forall ws': seq<nat>, c': nat, f': nat, e: nat | MixedShape(s, i, ws', c', f', e) ensures 0 < e - i <= MatchLen(MixedName, s, i) {
      MixedNameLongest(s, i, ws', c', f', e);
    }
  }

  /** The tier-2 pattern can match inside a word: in `McCrodden, Susan J` the word
      `Mc` is followed by a capital, not by a space or the comma, so the attempt at
      the `M` fails ... */
  lemma MixedNameInsideWord()
    ensures MatchLen(MixedName, "McCrodden, Susan J", 0) == 0
  {
    var s := "McCrodden, Susan J";
    assert s[2] == 'C';
    CapWordLongest(s, 0, 2);
  }

  /** ... and the match starts at the second capital. */
  lemma MixedNameAfterPrefix()
    ensures MatchLen(MixedName, "McCrodden, Susan J", 2) == 16
  {
    var s := "McCrodden, Susan J";
    assert s[9] == ',' && s[10] == ' ' && s[16] == ' ' && s[17] == 'J' && |s| == 18;
    CapWordLongest(s, 2, 9);
    CapWordLongest(s, 11, 16);
  }

  /** What a date match at `i` is: ten characters of the date shape between word
      boundaries (ar4.py:43). */
  lemma DateMatchSpec(s: String, i: nat)
    requires i <= |s|
    ensures MatchLen(Date, s, i) > 0 <==>
      i + 10 <= |s| && Boundary(s, i) && DateShape(s[i..i + 10]) && Boundary(s, i + 10)
    ensures MatchLen(Date, s, i) > 0 ==> MatchLen(Date, s, i) == 10
  {
  }

  predicate MatchesAt(pat: Pattern, s: String, i: int) {
    0 <= i < |s| && MatchLen(pat, s, i) > 0
  }

  predicate NoMatchIn(pat: Pattern, s: String, lo: int, hi: int) {
    forall q :: lo <= q < hi ==> !MatchesAt(pat, s, q)
  }

  // ---------------------------------------------------------------- findall and search

  datatype Span = Span(start: nat, len: nat) {
    function End(): nat { start + len }
  }

  predicate IsMatch(pat: Pattern, s: String, sp: Span) {
    MatchesAt(pat, s, sp.start) && MatchLen(pat, s, sp.start) == sp.len
  }

  /** Every match lies inside the text. */
  predicate Fits(lens: seq<nat>) {
    forall i :: 0 <= i < |lens| ==> i + lens[i] <= |lens|
  }

  /** No match starts at a position in `lo..hi`. */
  predicate NoneIn(lens: seq<nat>, lo: int, hi: int) {
    forall q :: lo <= q < hi && 0 <= q < |lens| ==> lens[q] == 0
  }

  /** The length of the match at each of the first `n` positions of `s`. */
  function LensUpTo(pat: Pattern, s: String, n: nat): (lens: seq<nat>)
    requires n <= |s|
    ensures |lens| == n
    ensures forall i :: 0 <= i < n ==> i + lens[i] <= |s|
    decreases n
  {
    if n == 0 then [] else LensUpTo(pat, s, n - 1) + [MatchLen(pat, s, n - 1)]
  }

  /** The length of the match at every position of `s`. */
  function MatchLens(pat: Pattern, s: String): (lens: seq<nat>)
    ensures |lens| == |s| && Fits(lens)
  {
    LensUpTo(pat, s, |s|)
  }

  lemma {:induction false} LensUpToAt(pat: Pattern, s: String, n: nat, i: nat)
    requires i < n <= |s|
    ensures LensUpTo(pat, s, n)[i] == MatchLen(pat, s, i)
    decreases n
  {
    if i < n - 1 {
      LensUpToAt(pat, s, n - 1, i);
    }
  }

  /** The table holds the match length at each position. */
  lemma MatchLensAt(pat: Pattern, s: String, i: nat)
    requires i < |s|
    ensures MatchLens(pat, s)[i] == MatchLen(pat, s, i)
  {
    LensUpToAt(pat, s, |s|, i);
  }

  /** The scan of `findall`, given the match length at every position: try at `p`;
      after a match resume at its end, after a failure at the next position. */
  function Scan(lens: seq<nat>, p: nat): (sp: seq<Span>)
    requires Fits(lens) && p <= |lens|
    ensures forall k :: 0 <= k < |sp| ==> p <= sp[k].start < |lens| && sp[k].len == lens[sp[k].start] > 0
    decreases |lens| - p
  {
    if p == |lens| then []
    else if lens[p] > 0 then [Span(p, lens[p])] + Scan(lens, p + lens[p])
    else Scan(lens, p + 1)
  }

  /** No match starts between `p` and the first reported one (or the end, when
      none is reported). */
  lemma {:induction false} ScanFirst(lens: seq<nat>, p: nat)
    requires Fits(lens) && p <= |lens|
    ensures Scan(lens, p) == [] ==> NoneIn(lens, p, |lens|)
    ensures Scan(lens, p) != [] ==> NoneIn(lens, p, Scan(lens, p)[0].start)
    decreases |lens| - p
  {
    if p < |lens| && lens[p] == 0 {
      ScanFirst(lens, p + 1);
    }
  }

  /** One step of the scan. */
  lemma ScanStep(lens: seq<nat>, p: nat)
    requires Fits(lens) && p < |lens|
    ensures lens[p] > 0 ==> Scan(lens, p) == [Span(p, lens[p])] + Scan(lens, p + lens[p])
    ensures lens[p] == 0 ==> Scan(lens, p) == Scan(lens, p + 1)
  {
  }

  /** Each reported match ends at or before the start of the next one, and no
      match starts in the gap between them. */
  lemma {:induction false} ScanGaps(lens: seq<nat>, p: nat, k: nat)
    requires Fits(lens) && p <= |lens|
    requires k + 1 < |Scan(lens, p)|
    ensures Scan(lens, p)[k].End() <= Scan(lens, p)[k + 1].start
    ensures NoneIn(lens, Scan(lens, p)[k].End(), Scan(lens, p)[k + 1].start)
    decreases |lens| - p, 1
  {
    ScanStep(lens, p);
    if lens[p] > 0 {
      ScanGapsAfterMatch(lens, p, k);
    } else {
      ScanGaps(lens, p + 1, k);
    }
  }

  /** `ScanGaps` where a match is reported at `p`. */
  lemma {:induction false} ScanGapsAfterMatch(lens: seq<nat>, p: nat, k: nat)
    requires Fits(lens) && p < |lens| && lens[p] > 0
    requires k + 1 < |Scan(lens, p)|
    ensures Scan(lens, p)[k].End() <= Scan(lens, p)[k + 1].start
    ensures NoneIn(lens, Scan(lens, p)[k].End(), Scan(lens, p)[k + 1].start)
    decreases |lens| - p, 0
  {
    var sp := Scan(lens, p);
    var rest := Scan(lens, p + lens[p]);
    ScanStep(lens, p);
    assert sp[k + 1] == rest[k];
    if k == 0 {
      ScanFirst(lens, p + lens[p]);
      assert sp[0] == Span(p, lens[p]);
    } else {
      ScanGaps(lens, p + lens[p], k - 1);
      assert sp[k] == rest[k - 1];
    }
  }

  /** No match starts after the end of the last reported one. */
  lemma {:induction false} ScanLast(lens: seq<nat>, p: nat)
    requires Fits(lens) && p <= |lens|
    requires Scan(lens, p) != []
    ensures NoneIn(lens, Scan(lens, p)[|Scan(lens, p)| - 1].End(), |lens|)
    decreases |lens| - p
  {
    if lens[p] > 0 {
      var rest := Scan(lens, p + lens[p]);
      assert Scan(lens, p) == [Span(p, lens[p])] + rest;
      if rest == [] {
        ScanFirst(lens, p + lens[p]);
      } else {
        ScanLast(lens, p + lens[p]);
      }
    } else {
      ScanLast(lens, p + 1);
    }
  }

  /** The matches `findall` reports, in order. */
  function Spans(pat: Pattern, s: String): (sp: seq<Span>)
    ensures forall k :: 0 <= k < |sp| ==>
      sp[k].start < |s| && sp[k].len == MatchLens(pat, s)[sp[k].start] > 0 && sp[k].End() <= |s|
  {
    Scan(MatchLens(pat, s), 0)
  }

  /** Each reported span is a match. */
  lemma SpanIsMatch(pat: Pattern, s: String, k: nat)
    requires k < |Spans(pat, s)|
    ensures IsMatch(pat, s, Spans(pat, s)[k])
  {
    MatchLensAt(pat, s, Spans(pat, s)[k].start);
  }

  /** The matches are the leftmost ones that do not overlap: each starts at or after
      the end of the one before it, and no match starts before the first, in a gap
      between two, or after the last. */
  ghost predicate LeftmostNonOverlapping(pat: Pattern, s: String, sp: seq<Span>) {
    && (forall k :: 0 <= k < |sp| ==> IsMatch(pat, s, sp[k]))
    && (sp == [] ==> NoMatchIn(pat, s, 0, |s|))
    && (sp != [] ==> NoMatchIn(pat, s, 0, sp[0].start))
    && (sp != [] ==> NoMatchIn(pat, s, sp[|sp| - 1].End(), |s|))
    && (forall k :: 0 <= k < |sp| - 1 ==>
          sp[k].End() <= sp[k + 1].start && NoMatchIn(pat, s, sp[k].End(), sp[k + 1].start))
  }

  /** Positions where the length table shows no match are positions where the
      pattern does not match. */
  lemma NoMatchFromLens(pat: Pattern, s: String, lo: int, hi: int)
    requires NoneIn(MatchLens(pat, s), lo, hi)
    ensures NoMatchIn(pat, s, lo, hi)
  {
    forall q | lo <= q < hi && 0 <= q < |s| ensures !MatchesAt(pat, s, q) {
      MatchLensAt(pat, s, q);
    }
  }

  lemma SpansLeftmost(pat: Pattern, s: String)
    ensures LeftmostNonOverlapping(pat, s, Spans(pat, s))
  {
    var lens := MatchLens(pat, s);
    var sp := Spans(pat, s);
    ScanFirst(lens, 0);
    if sp == [] {
      NoMatchFromLens(pat, s, 0, |s|);
    } else {
      NoMatchFromLens(pat, s, 0, sp[0].start);
      ScanLast(lens, 0);
      NoMatchFromLens(pat, s, sp[|sp| - 1].End(), |s|);
    }
    forall k | 0 <= k < |sp| - 1
      ensures sp[k].End() <= sp[k + 1].start && NoMatchIn(pat, s, sp[k].End(), sp[k + 1].start)
    {
      ScanGaps(lens, 0, k);
      NoMatchFromLens(pat, s, sp[k].End(), sp[k + 1].start);
    }
    forall k | 0 <= k < |sp| ensures IsMatch(pat, s, sp[k]) {
      SpanIsMatch(pat, s, k);
    }
  }

  /** No match starts strictly inside another one. */
  predicate NoOverlap(lens: seq<nat>) {
    forall i, j :: 0 <= i < j < |lens| && j < i + lens[i] ==> lens[j] == 0
  }

  /** When matches never overlap, the scan reports every one of them: the match
      at `q` is the `k`-th reported one. */
  lemma {:induction false} ScanCovers(lens: seq<nat>, p: nat, q: nat) returns (k: nat)
    requires Fits(lens) && NoOverlap(lens)
    requires p <= q < |lens| && lens[q] > 0
    ensures k < |Scan(lens, p)| && Scan(lens, p)[k] == Span(q, lens[q])
    decreases |lens| - p
  {
    if p == q {
      k := 0;
    } else if lens[p] > 0 {
      assert p + lens[p] <= q;
      var rest := Scan(lens, p + lens[p]);
      assert Scan(lens, p) == [Span(p, lens[p])] + rest;
      k := ScanCovers(lens, p + lens[p], q);
      k := k + 1;
    } else {
      k := ScanCovers(lens, p + 1, q);
    }
  }

  /** `findall`: the text of every match, in order. */
  function FindAll(pat: Pattern, s: String): (r: seq<String>)
    ensures |r| == |Spans(pat, s)|
    ensures forall k :: 0 <= k < |r| ==>
      OccursAt(r[k], s, Spans(pat, s)[k].start) && |r[k]| == Spans(pat, s)[k].len
  {
    var sp := Spans(pat, s);
    seq(|sp|, k requires 0 <= k < |sp| => s[sp[k].start..sp[k].End()])
  }

  /** `search`: the leftmost match, if there is one. */
  function Search(pat: Pattern, s: String): (r: Option<Span>)
    ensures r.None? <==> NoMatchIn(pat, s, 0, |s|)
    ensures r.Some? ==> IsMatch(pat, s, r.value) && r.value.End() <= |s| && NoMatchIn(pat, s, 0, r.value.start)
  {
    SpansLeftmost(pat, s);
    var sp := Spans(pat, s);
    if sp == [] then None else Some(sp[0])
  }

  /** The text of the leftmost match, as `search(...).group(0)` gives it. */
  function SearchText(pat: Pattern, s: String): (r: Option<String>)
    ensures r.Some? <==> Search(pat, s).Some?
    ensures r.Some? ==> OccursAt(r.value, s, Search(pat, s).value.start)
    ensures r.Some? ==> |r.value| == Search(pat, s).value.len
  {
    match Search(pat, s)
    case None => None
    case Some(sp) => Some(s[sp.start..sp.End()])
  }

  /** For a pattern whose matches never overlap, `findall` reports the text of
      every match in the text. */
  lemma FindAllComplete(pat: Pattern, s: String, q: nat)
    requires NoOverlap(MatchLens(pat, s))
    requires q < |s| && MatchLens(pat, s)[q] > 0
    ensures s[q..q + MatchLens(pat, s)[q]] in FindAll(pat, s)
  {
    var lens := MatchLens(pat, s);
    var k := ScanCovers(lens, 0, q);
    var r := FindAll(pat, s);
    assert Spans(pat, s)[k] == Span(q, lens[q]);
    assert OccursAt(r[k], s, q) && |r[k]| == lens[q];
    assert r[k] == s[q..q + lens[q]];
  }

  /** `findall` finds something exactly when the pattern matches somewhere. */
  lemma FindAllEmpty(pat: Pattern, s: String)
    ensures FindAll(pat, s) == [] <==> NoMatchIn(pat, s, 0, |s|)
  {
    SpansLeftmost(pat, s);
    if Spans(pat, s) != [] {
      SpanIsMatch(pat, s, 0);
    }
  }

  /** The first text `findall` reports is the one `search` finds. */
  lemma FindAllFirst(pat: Pattern, s: String)
    requires FindAll(pat, s) != []
    ensures SearchText(pat, s) == Some(FindAll(pat, s)[0])
  {
  }

  /** `search` finds the match that no other match precedes. */
  lemma SearchFinds(pat: Pattern, s: String, i: nat)
    requires MatchesAt(pat, s, i) && NoMatchIn(pat, s, 0, i)
    ensures Search(pat, s) == Some(Span(i, MatchLen(pat, s, i)))
  {
    var sp := Search(pat, s).value;
    assert !(sp.start < i);
    assert !(i < sp.start);
  }

  /** The `k`-th text `findall` reports is the text of the match at `q`. */
  lemma FindAllMatchAt(pat: Pattern, s: String, k: nat) returns (q: nat)
    requires k < |FindAll(pat, s)|
    ensures MatchesAt(pat, s, q) && FindAll(pat, s)[k] == s[q..q + MatchLen(pat, s, q)]
  {
    var t := FindAll(pat, s)[k];
    var sp := Spans(pat, s)[k];
    SpanIsMatch(pat, s, k);
    assert OccursAt(t, s, sp.start) && |t| == sp.len;
    q := sp.start;
  }
}
