/**
 The patient-name extractor (ar4.py:55-89). Tier 1 takes the runs of upper-case
 name characters, drops those with an ignored word or with fewer than two words,
 and title-cases the first longest survivor, stripped. Only when no run survives
 does tier 2 take the capitalised "Last, First I." matches without an ignored
 word (compared upper-cased) and return the first longest, stripped.
 */
module Names {
  import opened Text
  import opened Order
  import opened Regex

  /** The ignore list of the extractor itself (ar4.py:61-65). */
  const NameIgnoreWords: set<String> := {
    "SECONDARY", "PRIMARY", "DOL", "PAY", "INSURANCE", "PPO", "PLAN",
    "TOTALS", "BALANCE", "OVERPD", "GENESISC", "GENESICARE", "FLORIDA",
    "USA", "NOT", "USE", "BCBS", "FBU"
  }

  /** The module-level list (ar4.py:49-52). The extractor's own list of the same
      name hides it, so no extractor reads it. */
  const ModuleIgnoreWords: set<String> := {
    "SECONDARY", "PRIMARY", "DOL", "PAY", "INSURANCE", "PPO", "PLAN",
    "TOTALS", "BALANCE", "OVERPD", "GENESICARE", "YES", "NO", "FLORIDA", "USA"
  }

  // ---------------------------------------------------------------- the filters

  /** The tier-1 filter against a given ignore list: no word of the run is in
      the list, and the run has at least two words (ar4.py:72-73). */
  predicate KeepUpperWith(n: String, ignore: set<String>) {
    var ts := Tokens(n);
    (forall k :: 0 <= k < |ts| ==> ts[k] !in ignore) && |ts| >= 2
  }

  predicate KeepUpper(n: String) {
    KeepUpperWith(n, NameIgnoreWords)
  }

  /** The tier-2 filter: no word of the match, upper-cased, is in the ignore list
      (ar4.py:84). */
  predicate KeepMixed(m: String) {
    var ts := Tokens(m);
    forall k :: 0 <= k < |ts| ==> ToUpper(ts[k]) !in NameIgnoreWords
  }

  // ---------------------------------------------------------------- list comprehensions

  /** `[f(x) for x in xs if keep(x)]`. */
  function Select(xs: seq<String>, keep: String -> bool, f: String -> String): (r: seq<String>)
    ensures |r| <= |xs|
  {
    if xs == [] then []
    else (if keep(xs[0]) then [f(xs[0])] else []) + Select(xs[1..], keep, f)
  }

  /** Each selected element comes from an element that passes the filter. */
  lemma {:induction false} SelectSound(xs: seq<String>, keep: String -> bool, f: String -> String, k: nat)
    returns (j: nat)
    requires k < |Select(xs, keep, f)|
    ensures j < |xs| && keep(xs[j]) && Select(xs, keep, f)[k] == f(xs[j])
    decreases |xs|
  {
    var rest := Select(xs[1..], keep, f);
    if keep(xs[0]) && k == 0 {
      j := 0;
    } else {
      var k' := if keep(xs[0]) then k - 1 else k;
      assert Select(xs, keep, f)[k] == rest[k'];
      j := SelectSound(xs[1..], keep, f, k');
      assert xs[1..][j] == xs[j + 1];
      j := j + 1;
    }
  }

  /** Every element that passes the filter is selected. */
  lemma {:induction false} SelectComplete(xs: seq<String>, keep: String -> bool, f: String -> String, j: nat)
    requires j < |xs| && keep(xs[j])
    ensures f(xs[j]) in Select(xs, keep, f)
    decreases j
  {
    if j > 0 {
      SelectComplete(xs[1..], keep, f, j - 1);
      assert xs[1..][j - 1] == xs[j];
    }
  }

  /** The positions from `from` on whose element passes the filter, in increasing order. */
  function KeptFrom(xs: seq<String>, keep: String -> bool, from: nat): (ps: seq<nat>)
    requires from <= |xs|
    ensures forall i :: 0 <= i < |ps| ==> from <= ps[i] < |xs| && keep(xs[ps[i]])
    ensures forall i, m :: 0 <= i < m < |ps| ==> ps[i] < ps[m]
    ensures forall j :: from <= j < |xs| && keep(xs[j]) ==> j in ps
    decreases |xs| - from
  {
    if from == |xs| then []
    else
      var rest := KeptFrom(xs, keep, from + 1);
      assert forall j :: from <= j < |xs| && keep(xs[j]) ==> j == from || j in rest;
      (if keep(xs[from]) then [from] else []) + rest
  }

  /** The comprehension over `xs[from..]` takes its elements from the kept positions, in order. */
  lemma {:induction false} SelectFrom(xs: seq<String>, keep: String -> bool, f: String -> String, from: nat)
    requires from <= |xs|
    ensures var ps, r := KeptFrom(xs, keep, from), Select(xs[from..], keep, f);
      |r| == |ps| && forall i :: 0 <= i < |ps| ==> r[i] == f(xs[ps[i]])
    decreases |xs| - from
  {
    if from < |xs| {
      SelectFrom(xs, keep, f, from + 1);
      assert xs[from..][1..] == xs[from + 1..];
    }
  }

  /** The comprehension keeps its input order: the selected elements come from
      strictly increasing positions of `xs`, one for each element that passes the
      filter, so "first" among them is first in `xs`. */
  lemma SelectIndices(xs: seq<String>, keep: String -> bool, f: String -> String)
    returns (idx: seq<nat>)
    ensures |idx| == |Select(xs, keep, f)|
    ensures forall i :: 0 <= i < |idx| ==>
      idx[i] < |xs| && keep(xs[idx[i]]) && Select(xs, keep, f)[i] == f(xs[idx[i]])
    ensures forall i, m :: 0 <= i < m < |idx| ==> idx[i] < idx[m]
    ensures forall j :: 0 <= j < |xs| && keep(xs[j]) ==> j in idx
  {
    idx := KeptFrom(xs, keep, 0);
    SelectFrom(xs, keep, f, 0);
    assert xs[0..] == xs;
  }

  /** Nothing is selected exactly when nothing passes the filter. */
  lemma SelectEmpty(xs: seq<String>, keep: String -> bool, f: String -> String)
    ensures Select(xs, keep, f) == [] <==> forall j :: 0 <= j < |xs| ==> !keep(xs[j])
  {
    if Select(xs, keep, f) != [] {
      var j := SelectSound(xs, keep, f, 0);
    }
    forall j | 0 <= j < |xs| && keep(xs[j]) ensures Select(xs, keep, f) != [] {
      SelectComplete(xs, keep, f, j);
    }
  }

  // ---------------------------------------------------------------- the extractor

  /** Tier 1 (ar4.py:68-73): the stripped runs that pass the filter. */
  function UpperSurvivors(block: String): seq<String> {
    Select(FindAll(UpperName, block), KeepUpper, Strip)
  }

  /** Tier 2 (ar4.py:80-85): the matches that pass the filter, as they stand. */
  function MixedSurvivors(block: String): seq<String> {
    Select(FindAll(MixedName, block), KeepMixed, m => m)
  }

  /** `extract_patient_name`. */
  function PatientName(block: String): String {
    var upper := UpperSurvivors(block);
    if upper != [] then Title(upper[FirstLongest(upper)])
    else
      var mixed := MixedSurvivors(block);
      if mixed != [] then Strip(mixed[FirstLongest(mixed)]) else []
  }

  /** A tier-1 match holds no lower-case letter, so neither does its stripped
      form, which is text of the block. */
  lemma UpperRunShape(block: String, p: nat) returns (q: nat)
    requires MatchesAt(UpperName, block, p)
    ensures var x := Strip(block[p..p + MatchLen(UpperName, block, p)]);
      && (forall k :: 0 <= k < |x| ==> !IsLower(x[k]))
      && OccursAt(x, block, q)
  {
    var n := block[p..p + MatchLen(UpperName, block, p)];
    UpperNameMatchSpec(block, p);
    assert forall k :: 0 <= k < |n| ==> !IsLower(n[k]) by {
      forall k | 0 <= k < |n| ensures !IsLower(n[k]) {
        assert InClass(NameChar, n[k]);
      }
    }
    StripNoLower(n);
    OccursWithin(Strip(n), n, block, RunEnd(Space, n, 0), p);
    q := p + RunEnd(Space, n, 0);
  }

  /** The stripped form of a reported tier-1 run is text of the block without
      lower-case letters. */
  lemma FoundRunShape(block: String, j: nat) returns (q: nat)
    requires j < |FindAll(UpperName, block)|
    ensures var x := Strip(FindAll(UpperName, block)[j]);
      (forall i :: 0 <= i < |x| ==> !IsLower(x[i])) && OccursAt(x, block, q)
  {
    var p := FindAllMatchAt(UpperName, block, j);
    q := UpperRunShape(block, p);
  }

  /** A tier-1 survivor is text of the block without lower-case letters. */
  lemma UpperSurvivorShape(block: String, k: nat) returns (q: nat)
    requires k < |UpperSurvivors(block)|
    ensures var x := UpperSurvivors(block)[k];
      (forall i :: 0 <= i < |x| ==> !IsLower(x[i])) && OccursAt(x, block, q)
  {
    var j := SelectSound(FindAll(UpperName, block), KeepUpper, Strip, k);
    q := FoundRunShape(block, j);
  }

  /** Tier-1 preference: as soon as one upper-case run passes the filter, the name
      is the first longest tier-1 survivor, title-cased, and tier 2 is not
      consulted; upper-casing the name gives back text of the block. */
  lemma UpperTierChosen(block: String, n: String)
    requires n in FindAll(UpperName, block) && KeepUpper(n)
    ensures var c := UpperSurvivors(block);
      c != [] && PatientName(block) == Title(c[FirstLongest(c)])
    ensures exists q :: OccursAt(ToUpper(PatientName(block)), block, q)
  {
    var found := FindAll(UpperName, block);
    var j :| 0 <= j < |found| && found[j] == n;
    SelectComplete(found, KeepUpper, Strip, j);
    var c := UpperSurvivors(block);
    var k := FirstLongest(c);
    var q := UpperSurvivorShape(block, k);
    UpperOfTitle(c[k]);
    assert OccursAt(ToUpper(PatientName(block)), block, q);
  }

  /** Tier 1 has no survivor exactly when no upper-case run passes the filter. */
  lemma UpperTierEmpty(block: String)
    ensures UpperSurvivors(block) == [] <==> forall n :: n in FindAll(UpperName, block) ==> !KeepUpper(n)
  {
    SelectEmpty(FindAll(UpperName, block), KeepUpper, Strip);
  }

  /** A tier-2 match opens with an upper-case letter and ends with a letter or a
      period, so stripping leaves it as it is. */
  lemma MixedMatchStripped(s: String, i: nat)
    requires MatchesAt(MixedName, s, i)
    ensures Strip(s[i..i + MatchLen(MixedName, s, i)]) == s[i..i + MatchLen(MixedName, s, i)]
  {
    var m := s[i..i + MatchLen(MixedName, s, i)];
    CapWordEndAt(s, i);
    var a := CapWordEnd(s, i).value;
    var b := MoreCapWords(s, a);
    CapWordEndAt(s, b + 2);
    var f := CapWordEnd(s, b + 2).value;
    assert IsLower(s[f - 1]);
    var g := InitialEnd(s, f);
    assert m[0] == s[i];
    assert m[|m| - 1] == s[g - 1];
    assert s[g - 1] == s[f - 1] || IsUpper(s[g - 1]) || s[g - 1] == '.';
    StripUnchanged(m);
  }

  /** A reported tier-2 match is left as it is by stripping. */
  lemma FoundMixedShape(block: String, j: nat) returns (q: nat)
    requires j < |FindAll(MixedName, block)|
    ensures var m := FindAll(MixedName, block)[j];
      Strip(m) == m && MatchesAt(MixedName, block, q) && m == block[q..q + MatchLen(MixedName, block, q)]
  {
    q := FindAllMatchAt(MixedName, block, j);
    MixedMatchStripped(block, q);
  }

  /** A tier-2 survivor is a match of the block that passes the filter, and
      stripping leaves it as it is. */
  lemma MixedSurvivorShape(block: String, k: nat) returns (q: nat)
    requires k < |MixedSurvivors(block)|
    ensures var m := MixedSurvivors(block)[k];
      && KeepMixed(m) && Strip(m) == m
      && MatchesAt(MixedName, block, q) && m == block[q..q + MatchLen(MixedName, block, q)]
  {
    var j := SelectSound(FindAll(MixedName, block), KeepMixed, m => m, k);
    q := FoundMixedShape(block, j);
  }

  /** Tier 2 has a survivor exactly when some capitalised match passes the filter. */
  lemma MixedTierEmpty(block: String)
    ensures MixedSurvivors(block) == [] <==> forall m :: m in FindAll(MixedName, block) ==> !KeepMixed(m)
  {
    SelectEmpty(FindAll(MixedName, block), KeepMixed, m => m);
  }

  /** Tier-2 fallback: with no tier-1 survivor the name is the first longest
      tier-2 survivor, a match of the block as it stands, or "" when there is none. */
  lemma MixedTierChosen(block: String)
    requires UpperSurvivors(block) == []
    ensures var c := MixedSurvivors(block);
      && (PatientName(block) == [] <==> c == [])
      && (c != [] ==> PatientName(block) == c[FirstLongest(c)])
    ensures PatientName(block) != [] ==>
      && KeepMixed(PatientName(block))
      && exists q :: MatchesAt(MixedName, block, q) && PatientName(block) == block[q..q + MatchLen(MixedName, block, q)]
  {
    var c := MixedSurvivors(block);
    if c != [] {
      var q := MixedSurvivorShape(block, FirstLongest(c));
    }
  }

  /** The extractor's own ignore list is the one in force: a run with the word
      BCBS or NOT is dropped, which the module-level list would keep. */
  lemma LocalIgnoreListDrops(n: String, k: nat)
    requires k < |Tokens(n)| && (Tokens(n)[k] == "BCBS" || Tokens(n)[k] == "NOT")
    ensures !KeepUpper(n)
  {
  }

  /** A run with the word YES or NO, and no word of the extractor's list, is kept,
      although the module-level list would drop it. */
  lemma LocalIgnoreListKeeps(n: String, k: nat)
    requires k < |Tokens(n)| && (Tokens(n)[k] == "YES" || Tokens(n)[k] == "NO")
    requires |Tokens(n)| >= 2 && forall j :: 0 <= j < |Tokens(n)| ==> Tokens(n)[j] !in NameIgnoreWords
    ensures KeepUpper(n) && !KeepUpperWith(n, ModuleIgnoreWords)
  {
  }
}
