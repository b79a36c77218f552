/**
 The block split (ar4.py:37). The text is cut just before every account marker
 (the label, optional whitespace and four digits) without consuming anything.
 The piece before the first marker comes first: it is empty when the text
 opens with a marker, and it is the whole text when there is no marker.
 */
module Segmenter {
  import opened Text
  import opened Regex

  /** The first marker position at or after `from`, or `|s|` when there is none. */
  function NextMarker(s: String, from: nat): (i: nat)
    requires from <= |s|
    ensures from <= i <= |s|
    ensures i < |s| ==> MarkerAt(s, i)
    ensures forall q :: from <= q < i ==> !MarkerAt(s, q)
    decreases |s| - from
  {
    if from == |s| || MarkerAt(s, from) then from else NextMarker(s, from + 1)
  }

  /** Every marker position at or after `from`, in ascending order. */
  function MarkerPositions(s: String, from: nat): (ps: seq<nat>)
    requires from <= |s|
    ensures forall k :: 0 <= k < |ps| ==> from <= ps[k] < |s| && MarkerAt(s, ps[k])
    ensures forall k, m :: 0 <= k < m < |ps| ==> ps[k] < ps[m]
    ensures forall q :: from <= q < |s| && MarkerAt(s, q) ==> q in ps
    decreases |s| - from
  {
    var i := NextMarker(s, from);
    if i == |s| then []
    else
      var rest := MarkerPositions(s, i + 1);
      assert forall q :: from <= q < |s| && MarkerAt(s, q) ==> q == i || q in rest;
      [i] + rest
  }

  /** Where the text is cut: its start, every marker position, its end. */
  function Cuts(s: String): (cs: seq<nat>)
    ensures |cs| >= 2 && cs[0] == 0 && cs[|cs| - 1] == |s|
    ensures forall k, m :: 0 <= k <= m < |cs| ==> cs[k] <= cs[m] <= |s|
    ensures forall k :: 1 <= k < |cs| - 1 ==> MarkerAt(s, cs[k])
    ensures forall k, m :: 1 <= k < m < |cs| - 1 ==> cs[k] < cs[m]
  {
    var ps := MarkerPositions(s, 0);
    var cs := [0] + ps + [|s|];
    assert forall k :: 1 <= k < |cs| - 1 ==> cs[k] == ps[k - 1];
    cs
  }

  /** Every marker position of the text is one of its interior cuts. */
  lemma CutsComplete(s: String, q: nat) returns (k: nat)
    requires q < |s| && MarkerAt(s, q)
    ensures 1 <= k < |Cuts(s)| - 1 && Cuts(s)[k] == q
  {
    var ps := MarkerPositions(s, 0);
    var i :| 0 <= i < |ps| && ps[i] == q;
    assert Cuts(s) == [0] + ps + [|s|];
    k := i + 1;
  }

  /** `re.split` on the marker lookahead: the pieces between consecutive cuts. */
  function SplitBlocks(s: String): (blocks: seq<String>)
    ensures |blocks| == |Cuts(s)| - 1
    ensures forall k :: 0 <= k < |blocks| ==> blocks[k] == s[Cuts(s)[k]..Cuts(s)[k + 1]]
  {
    var cs := Cuts(s);
    seq(|cs| - 1, k requires 0 <= k < |cs| - 1 => s[cs[k]..cs[k + 1]])
  }

  function Concat(xs: seq<String>): String {
    if xs == [] then [] else Concat(xs[..|xs| - 1]) + xs[|xs| - 1]
  }

  /** Joining the pieces between consecutive cut points `cs[..k+1]` gives the text
      from the first cut to the `k`-th. */
  lemma {:induction false} ConcatSlices(s: String, cs: seq<nat>, pieces: seq<String>, k: nat)
    requires |pieces| == |cs| - 1 && k < |cs|
    requires forall j :: 0 <= j < |cs| ==> cs[0] <= cs[j] <= |s|
    requires forall j :: 0 <= j < |pieces| ==> cs[j] <= cs[j + 1] && pieces[j] == s[cs[j]..cs[j + 1]]
    ensures Concat(pieces[..k]) == s[cs[0]..cs[k]]
  {
    if k > 0 {
      ConcatSlices(s, cs, pieces, k - 1);
      assert pieces[..k][..k - 1] == pieces[..k - 1];
      assert s[cs[0]..cs[k]] == s[cs[0]..cs[k - 1]] + s[cs[k - 1]..cs[k]];
    }
  }

  /** Split round trip: joining the blocks gives back the text exactly. */
  lemma SplitRoundTrip(s: String)
    ensures Concat(SplitBlocks(s)) == s
  {
    var blocks := SplitBlocks(s);
    var cs := Cuts(s);
    ConcatSlices(s, cs, blocks, |blocks|);
    assert blocks[..|blocks|] == blocks;
    assert s[cs[0]..cs[|blocks|]] == s;
  }

  /** No marker position lies strictly inside a block, and none lies in the
      first block at all. */
  lemma NoMarkerInsideBlock(s: String, k: nat, q: int)
    requires k < |SplitBlocks(s)|
    requires Cuts(s)[k] < q < Cuts(s)[k + 1] || (k == 0 && 0 <= q < Cuts(s)[1])
    ensures !MarkerAt(s, q)
  {
    var cs := Cuts(s);
    var ps := MarkerPositions(s, 0);
    assert cs == [0] + ps + [|s|];
    forall m | 0 <= m < |ps| ensures ps[m] != q {
      assert ps[m] == cs[m + 1];
      if m + 1 <= k {
        assert cs[m + 1] <= cs[k];
      } else {
        assert cs[k + 1] <= cs[m + 1];
      }
    }
    assert q !in ps;
  }

  /** The marker that opens a block ends inside it. */
  lemma MarkerFitsBlock(s: String, k: nat)
    requires 1 <= k < |SplitBlocks(s)|
    ensures MarkerDigits(s, Cuts(s)[k]) + 4 <= Cuts(s)[k + 1]
  {
    var cs := Cuts(s);
    var i := cs[k];
    var e := MarkerDigits(s, i) + 4;
    if cs[k + 1] < e {
      assert k + 1 < |cs| - 1;
      MarkerStartsWithA(s, cs[k + 1]);
      MarkerHasOneA(s, i, cs[k + 1]);
    }
  }

  /** Every block after the first opens with a marker of its own. */
  lemma BlockOpensWithMarker(s: String, k: nat)
    requires 1 <= k < |SplitBlocks(s)|
    ensures MarkerAt(SplitBlocks(s)[k], 0)
    ensures MarkerDigits(SplitBlocks(s)[k], 0) == MarkerDigits(s, Cuts(s)[k]) - Cuts(s)[k]
  {
    var cs := Cuts(s);
    MarkerFitsBlock(s, k);
    MarkerToSlice(s, cs[k], cs[k + 1], cs[k]);
  }

  /** Inside its block a marker is seen only at the block's start, and the first
      block holds none. */
  lemma NoMarkerInBlock(s: String, k: nat, j: nat)
    requires k < |SplitBlocks(s)| && j < |SplitBlocks(s)[k]|
    requires k == 0 || j > 0
    ensures !MarkerAt(SplitBlocks(s)[k], j)
  {
    var cs := Cuts(s);
    var lo, hi := cs[k], cs[k + 1];
    assert SplitBlocks(s)[k] == s[lo..hi];
    NoMarkerInsideBlock(s, k, lo + j);
    NoMarkerInSlice(s, lo, hi, j);
  }

  /** A marker in a slice is a marker of the text. */
  lemma NoMarkerInSlice(s: String, lo: nat, hi: nat, j: nat)
    requires lo <= hi <= |s| && !MarkerAt(s, lo + j)
    ensures !MarkerAt(s[lo..hi], j)
  {
    if MarkerAt(s[lo..hi], j) {
      MarkerFromSlice(s, lo, hi, lo + j);
    }
  }

  /** A text without a marker is one block: itself. */
  lemma NoMarkerOneBlock(s: String)
    requires forall q :: !MarkerAt(s, q)
    ensures SplitBlocks(s) == [s]
  {
    assert MarkerPositions(s, 0) == [];
    assert Cuts(s) == [0, |s|];
    assert SplitBlocks(s)[0] == s[0..|s|] == s;
  }
}
