/**
 The field extractors that work on one block: the account number (ar4.py:118-121),
 the date of service (ar4.py:91-103) and the CPT codes (ar4.py:105-111). Each one
 fails soft: a pattern that does not match gives `None` or the empty string.
 */
module Fields {
  import opened Wrappers
  import opened Text
  import opened Order
  import opened Regex
  import opened Segmenter

  // ---------------------------------------------------------------- account number

  predicate NoMarkerBefore(s: String, i: int) {
    forall q :: 0 <= q < i ==> !MarkerAt(s, q)
  }

  /** `a` is what the account group captures at `j`: four digits, or five when a
      fifth digit follows (the repetition is greedy). */
  predicate AccountDigitsAt(s: String, j: nat, a: String) {
    OccursAt(a, s, j) && AllDigits(a) &&
    (|a| == 5 || (|a| == 4 && !(j + 4 < |s| && IsDigit(s[j + 4]))))
  }

  /** The account pattern matches exactly where a marker starts. */
  lemma AccountMatch(s: String, q: int)
    ensures MatchesAt(Account, s, q) <==> MarkerAt(s, q)
  {
  }

  lemma NoAccountMatch(s: String)
    ensures NoMatchIn(Account, s, 0, |s|) <==> forall q :: !MarkerAt(s, q)
  {
    forall q ensures MatchesAt(Account, s, q) <==> MarkerAt(s, q) {
      AccountMatch(s, q);
    }
  }

  /** The four or five characters the account group captures after a marker are digits. */
  lemma MarkerDigitsCaptured(s: String, i: nat)
    requires MarkerAt(s, i)
    ensures var j := MarkerDigits(s, i); AllDigits(s[j..j + AccountDigitCount(s, j)])
  {
    var j := MarkerDigits(s, i);
    var t := s[j..j + AccountDigitCount(s, j)];
    forall q | 0 <= q < |t| ensures IsDigit(t[q]) {
      if q < 4 {
        assert AllDigits(s[j..j + 4]);
        assert InClass(Digit, s[j..j + 4][q]);
        assert t[q] == s[j..j + 4][q];
      } else {
        assert AccountDigitCount(s, j) == 5 && t[q] == s[j + 4];
      }
    }
  }

  /** `account_pattern.search(block).group(1)`: the digits of the first marker. */
  function AccountNumber(block: String): (r: Option<String>)
    ensures r.None? <==> forall q :: !MarkerAt(block, q)
    ensures r.Some? ==> AllDigits(r.value) && 4 <= |r.value| <= 5
  {
    NoAccountMatch(block);
    match Search(Account, block)
    case None => None
    case Some(sp) =>
      var j := MarkerDigits(block, sp.start);
      var n := AccountDigitCount(block, j);
      MarkerDigitsCaptured(block, sp.start);
      Some(block[j..j + n])
  }

  /** The account number is what the group captures at the first marker. */
  lemma AccountNumberOfFirstMarker(block: String, i: nat)
    requires MarkerAt(block, i) && NoMarkerBefore(block, i)
    ensures AccountNumber(block).Some?
    ensures AccountDigitsAt(block, MarkerDigits(block, i), AccountNumber(block).value)
  {
    assert forall q :: MatchesAt(Account, block, q) <==> MarkerAt(block, q);
    SearchFinds(Account, block, i);
  }

  /** Account number source: a block the split starts at a marker yields the 4-5
      digits of that marker; the block before the first marker yields nothing. */
  lemma AccountOfBlock(s: String, k: nat)
    requires k < |SplitBlocks(s)|
    ensures k == 0 ==> AccountNumber(SplitBlocks(s)[0]).None?
    ensures k > 0 ==>
      var b := SplitBlocks(s)[k];
      && AccountNumber(b).Some?
      && AccountDigitsAt(b, MarkerDigits(b, 0), AccountNumber(b).value)
      && MarkerDigits(b, 0) == MarkerDigits(s, Cuts(s)[k]) - Cuts(s)[k]
  {
    var b := SplitBlocks(s)[k];
    if k == 0 {
      forall q ensures !MarkerAt(b, q) {
        if 0 <= q < |b| {
          NoMarkerInBlock(s, 0, q);
        }
      }
    } else {
      BlockOpensWithMarker(s, k);
      AccountNumberOfFirstMarker(b, 0);
    }
  }

  // ---------------------------------------------------------------- date of service

  /** The account-line pattern matches where a marker starts whose line a line feed ends. */
  lemma AccountLineMatch(s: String, q: nat)
    requires q <= |s|
    ensures MatchesAt(AccountLine, s, q) <==> MarkerAt(s, q) && LineEnd(s, MarkerDigits(s, q) + 4) < |s|
  {
  }

  /** Where the line that the account-line pattern captures starts: just after the
      line feed that ends the line of the first marker followed by another line. */
  function CapturedLineStart(block: String): (a: Option<nat>)
    ensures a.None? <==> NoMatchIn(AccountLine, block, 0, |block|)
    ensures a.Some? ==> 0 < a.value <= |block| && block[a.value - 1] == '\n'
  {
    match Search(AccountLine, block)
    case None => None
    case Some(sp) =>
      AccountLineMatch(block, sp.start);
      Some(LineEnd(block, MarkerDigits(block, sp.start) + 4) + 1)
  }

  /** In a block that opens with a marker, the captured line is the one after the
      marker's line, when the block goes on past that line. */
  lemma CapturedLineOfOpeningMarker(block: String)
    requires MarkerAt(block, 0) && LineEnd(block, MarkerDigits(block, 0) + 4) < |block|
    ensures CapturedLineStart(block) == Some(LineEnd(block, MarkerDigits(block, 0) + 4) + 1)
  {
    AccountLineMatch(block, 0);
    SearchFinds(AccountLine, block, 0);
    CapturedLineAtStart(block);
  }

  lemma CapturedLineAtStart(block: String)
    requires MarkerAt(block, 0) && LineEnd(block, MarkerDigits(block, 0) + 4) < |block|
    requires Search(AccountLine, block).Some? && Search(AccountLine, block).value.start == 0
    ensures CapturedLineStart(block) == Some(LineEnd(block, MarkerDigits(block, 0) + 4) + 1)
  {
  }

  /** `line` is a whole line of `s` that starts at `a`, after a line feed. */
  predicate IsLineAt(s: String, line: String, a: nat) {
    0 < a <= |s| && s[a - 1] == '\n' && OccursAt(line, s, a) &&
    (forall q :: 0 <= q < |line| ==> line[q] != '\n') &&
    (a + |line| == |s| || s[a + |line|] == '\n')
  }

  /** The text from just after a line feed to the end of that line is a whole line. */
  lemma WholeLine(s: String, a: nat)
    requires 0 < a <= |s| && s[a - 1] == '\n'
    ensures IsLineAt(s, s[a..LineEnd(s, a)], a)
  {
    var e := LineEnd(s, a);
    assert forall q :: 0 <= q < e - a ==> s[a..e][q] == s[a + q];
  }

  /** Group 1 of the account-line pattern: the whole line after the account line. */
  function AccountLineText(block: String): (r: Option<String>)
    ensures r.None? <==> NoMatchIn(AccountLine, block, 0, |block|)
    ensures r.Some? ==> IsLineAt(block, r.value, CapturedLineStart(block).value)
  {
    match CapturedLineStart(block)
    case None => None
    case Some(a) =>
      WholeLine(block, a);
      Some(block[a..LineEnd(block, a)])
  }

  /** A date found in a whole line of the block is a date of the block, at the
      same place. */
  lemma DateInLine(s: String, line: String, a: nat, q: nat)
    requires IsLineAt(s, line, a)
    requires MatchesAt(Date, line, q)
    ensures MatchesAt(Date, s, a + q) && MatchLen(Date, s, a + q) == 10
    ensures OccursAt(line[q..q + 10], s, a + q)
  {
    var e := a + |line|;
    SliceBoundary(s, a, e, q);
    SliceBoundary(s, a, e, q + 10);
    SliceOfSlice(s, a, e, q, q + 10);
  }

  /** The first date on the line after the account line, when that line has one. */
  function LineDate(block: String): (r: Option<String>)
    ensures r.Some? ==> exists q :: MatchesAt(Date, block, q) && |r.value| == 10 && OccursAt(r.value, block, q)
  {
    match AccountLineText(block)
    case None => None
    case Some(line) =>
      match Search(Date, line)
      case None => None
      case Some(sp) =>
        DateInLine(block, line, CapturedLineStart(block).value, sp.start);
        Some(line[sp.start..sp.End()])
  }

  /** `extract_date_of_service`: the first date on the line after the account line
      when there is one there, else the first date of the block, else "". */
  function DateOfService(block: String): (r: String)
  {
    match LineDate(block)
    case Some(d) => d
    case None =>
      var dates := FindAll(Date, block);
      if dates == [] then [] else dates[0]
  }

  /** The date of service is "" or a date of the block between word boundaries. */
  lemma DateOfServiceIsDate(block: String)
    ensures var r := DateOfService(block);
      r == [] || exists q :: MatchesAt(Date, block, q) && |r| == 10 && OccursAt(r, block, q)
  {
    if LineDate(block).None? {
      var dates := FindAll(Date, block);
      if dates != [] {
        var sp := Spans(Date, block)[0];
        SpanIsMatch(Date, block, 0);
        assert OccursAt(dates[0], block, sp.start) && |dates[0]| == sp.len;
      }
    }
  }

  /** The date of service is "" only when the block holds no date at all. */
  lemma DateOfServiceEmpty(block: String)
    ensures DateOfService(block) == [] <==> NoMatchIn(Date, block, 0, |block|)
  {
    DateOfServiceIsDate(block);
    if LineDate(block).None? {
      FindAllEmpty(Date, block);
      var dates := FindAll(Date, block);
      if dates != [] {
        assert |dates[0]| == Spans(Date, block)[0].len > 0;
      }
    }
  }

  /** The date on the line after the account line wins, wherever else dates occur. */
  lemma DateFromAccountLine(block: String, q: nat)
    requires AccountLineText(block).Some?
    requires var line := AccountLineText(block).value;
      MatchesAt(Date, line, q) && NoMatchIn(Date, line, 0, q)
    ensures DateOfService(block) == AccountLineText(block).value[q..q + 10]
  {
    SearchFinds(Date, AccountLineText(block).value, q);
  }

  /** Without a date on that line, the first date of the block is taken. */
  lemma DateFromBlock(block: String, q: nat)
    requires AccountLineText(block).None? ||
      NoMatchIn(Date, AccountLineText(block).value, 0, |AccountLineText(block).value|)
    requires MatchesAt(Date, block, q) && NoMatchIn(Date, block, 0, q)
    ensures DateOfService(block) == block[q..q + 10]
  {
    SearchFinds(Date, block, q);
    FindAllFirst(Date, block);
  }

  // ---------------------------------------------------------------- CPT codes

  /** `sorted(set(re.findall(cpt_pattern, block)))`. */
  function CptCodeList(block: String): (codes: seq<String>)
    ensures StrictlyAscending(codes)
    ensures forall c :: c in codes <==> c in FindAll(Cpt, block)
  {
    SortedUnique(FindAll(Cpt, block))
  }

  /** `extract_cpt_codes`: the distinct codes in ascending order, joined by ", ";
      "" when there is none. */
  function CptCodes(block: String): (r: String)
    ensures r == [] <==> NoMatchIn(Cpt, block, 0, |block|)
  {
    var found := FindAll(Cpt, block);
    FindAllEmpty(Cpt, block);
    if found == [] then []
    else
      var codes := CptCodeList(block);
      assert found[0] in codes;
      assert forall k :: 0 <= k < |codes| ==> codes[k] != [] by {
        forall k | 0 <= k < |codes| ensures codes[k] != [] {
          var c := codes[k];
          assert c in found;
          var m :| 0 <= m < |found| && found[m] == c;
          assert |c| == Spans(Cpt, block)[m].len;
        }
      }
      Join(codes, ", ")
  }

  /** CPT matches never overlap: a match ends at a word boundary that the next one
      cannot start inside. */
  lemma CptNoOverlap(s: String)
    ensures NoOverlap(MatchLens(Cpt, s))
  {
    var lens := MatchLens(Cpt, s);
    forall i, j | 0 <= i < j < |lens| && j < i + lens[i] ensures lens[j] == 0 {
      MatchLensAt(Cpt, s, i);
      MatchLensAt(Cpt, s, j);
      CptNoOverlapAt(s, i, j);
    }
  }

  lemma CptNoOverlapAt(s: String, i: nat, j: nat)
    requires i < j <= |s| && j < i + MatchLen(Cpt, s, i)
    ensures MatchLen(Cpt, s, j) == 0
  {
    CptMatchSpec(s, i);
    var n := MatchLen(Cpt, s, i);
    var t := s[i..i + n];
    assert t[..5] == s[i..i + 5];
    if j < i + 5 {
      assert s[j - 1] == t[..5][j - 1 - i] && s[j] == t[..5][j - i];
      assert !Boundary(s, j);
    } else if j == i + 5 {
      assert s[j] == t[5];
      assert j + 5 <= |s| ==> s[j] == s[j..j + 5][0];
    } else if j == i + 6 {
      assert s[j + 1] == t[7];
      assert j + 5 <= |s| ==> s[j + 2] == s[j..j + 5][2];
    } else {
      assert s[j - 1] == t[6] && s[j] == t[7];
      assert !Boundary(s, j);
    }
  }

  /** Each listed code is a CPT code as written in the block: five digits and an
      optional modifier, between word boundaries, letter case kept. */
  lemma CptCodeSound(block: String, c: String)
    requires c in CptCodeList(block)
    ensures CptShape(c)
    ensures exists q :: OccursAt(c, block, q) && Boundary(block, q) && Boundary(block, q + |c|)
  {
    var found := FindAll(Cpt, block);
    var m :| 0 <= m < |found| && found[m] == c;
    var sp := Spans(Cpt, block)[m];
    SpanIsMatch(Cpt, block, m);
    CptMatchSpec(block, sp.start);
    assert OccursAt(c, block, sp.start);
  }

  /** Every CPT match in the block is listed. */
  lemma CptCodeComplete(block: String, q: nat)
    requires MatchesAt(Cpt, block, q)
    ensures block[q..q + MatchLen(Cpt, block, q)] in CptCodeList(block)
  {
    CptNoOverlap(block);
    MatchLensAt(Cpt, block, q);
    FindAllComplete(Cpt, block, q);
  }

  /** The joined codes split back into the list: no code holds a comma. */
  lemma CptCodesSplit(block: String)
    requires CptCodes(block) != []
    ensures SplitOn(CptCodes(block), ", ") == CptCodeList(block)
  {
    var codes := CptCodeList(block);
    FindAllEmpty(Cpt, block);
    forall k | 0 <= k < |codes| ensures ',' !in codes[k] {
      CptCodeSound(block, codes[k]);
      var c := codes[k];
      forall m | 0 <= m < |c| ensures c[m] != ',' {
        if m < 5 {
          assert c[m] == c[..5][m];
        }
      }
    }
    assert codes != [] by {
      var found := FindAll(Cpt, block);
      assert found[0] in codes;
    }
    SplitJoin(codes, ", ");
  }

  /** A five-digit account number that a non-word character (or the end) follows
      is itself a CPT code, so such a block always has CPT codes (ar4.py:41, 46). */
  lemma FiveDigitAccountIsCpt(block: String, i: nat)
    requires MarkerAt(block, i)
    requires var j := MarkerDigits(block, i);
      AccountDigitCount(block, j) == 5 && (j + 5 == |block| || !IsWordChar(block[j + 5]))
    ensures CptCodes(block) != []
  {
    var j := MarkerDigits(block, i);
    assert !IsWordChar(block[j - 1]) by {
      if j == i + |AccountLabel| {
        assert block[j - 1] == block[i..i + |AccountLabel|][|AccountLabel| - 1];
      } else {
        assert block[j - 1] == block[i + |AccountLabel|..j][j - 1 - i - |AccountLabel|];
      }
    }
    assert AllDigits(block[j..j + 5]) by {
      forall q | j <= q < j + 5 ensures IsDigit(block[q]) {
        if q < j + 4 {
          assert block[q] == block[j..j + 4][q - j];
        }
      }
    }
    assert MatchesAt(Cpt, block, j);
  }
}
