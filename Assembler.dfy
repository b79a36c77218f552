/**
 The pipeline from the joined text of the document to the table (ar4.py:32-40,
 114-140). The text is split into blocks. Each block with an account number and
 at least one CPT code becomes a record, in document order. Then the table keeps
 only the first record of each account number.
 */
module Assembler {
  import opened Wrappers
  import opened Text
  import opened Regex
  import opened Segmenter
  import opened Fields
  import opened Names

  /** One row of the table: account number, patient name, date of service, CPT codes. */
  datatype Record = Record(accountNumber: String, patientName: String, dateOfService: String, cptCodes: String)

  /** The record a block yields, if it passes the guards of the loop (ar4.py:115-128). */
  function BlockRecord(block: String): (r: Option<Record>)
    ensures r.Some? ==> r.value.cptCodes != []
    ensures r.Some? ==> AllDigits(r.value.accountNumber) && 4 <= |r.value.accountNumber| <= 5
  {
    if Strip(block) == [] then None
    else
      match AccountNumber(block)
      case None => None
      case Some(acc) =>
        var cpt := CptCodes(block);
        if cpt == [] then None else Some(Record(acc, PatientName(block), DateOfService(block), cpt))
  }

  /** A block with a marker is never blank, so the blank-block guard never decides alone. */
  lemma MarkedBlockNotBlank(block: String, i: nat)
    requires MarkerAt(block, i)
    ensures Strip(block) != []
  {
    MarkerStartsWithA(block, i);
    assert !InClass(Space, block[i]);
  }

  /** A block yields a record exactly when it holds an account marker and a CPT code. */
  lemma BlockRecordWhen(block: String)
    ensures BlockRecord(block).Some? <==>
      (exists i :: MarkerAt(block, i)) && !NoMatchIn(Cpt, block, 0, |block|)
  {
    if i :| MarkerAt(block, i) {
      MarkedBlockNotBlank(block, i);
    }
  }

  // ---------------------------------------------------------------- the block loop

  /** What a loop appends, block by block: `f(x)` for every `x` where it is present. */
  function Collect(xs: seq<String>, f: String -> Option<Record>): (rs: seq<Record>)
    ensures |rs| <= |xs|
    ensures rs == [] <==> forall k :: 0 <= k < |xs| ==> f(xs[k]).None?
  {
    if xs == [] then []
    else
      var init := Collect(xs[..|xs| - 1], f);
      assert forall k :: 0 <= k < |xs| - 1 ==> xs[..|xs| - 1][k] == xs[k];
      match f(xs[|xs| - 1])
      case None => init
      case Some(r) => init + [r]
  }

  /** Positions `idx` index an ordered selection of `xs`: increasing, in range,
      and each one holds the element it selects. */
  lemma {:induction false} CollectIndices(xs: seq<String>, f: String -> Option<Record>) returns (idx: seq<nat>)
    ensures |idx| == |Collect(xs, f)|
    ensures forall i :: 0 <= i < |idx| ==> idx[i] < |xs| && f(xs[idx[i]]) == Some(Collect(xs, f)[i])
    ensures forall i, m :: 0 <= i < m < |idx| ==> idx[i] < idx[m]
    ensures forall k :: 0 <= k < |xs| && f(xs[k]).Some? ==> k in idx
    decreases |xs|
  {
    if xs == [] {
      idx := [];
    } else {
      var n := |xs| - 1;
      var init := xs[..n];
      var pre := CollectIndices(init, f);
      assert forall k :: 0 <= k < n ==> init[k] == xs[k];
      if f(xs[n]).Some? {
        idx := pre + [n];
      } else {
        idx := pre;
      }
    }
  }

  /** The records the loop appends, in document order (ar4.py:114-135). */
  function Candidates(blocks: seq<String>): seq<Record> {
    Collect(blocks, BlockRecord)
  }

  /** The loop over the blocks: blank blocks, blocks without an account number and
      blocks without CPT codes are skipped; every other block appends its record. */
  method AssembleRecords(blocks: seq<String>) returns (records: seq<Record>)
    ensures records == Candidates(blocks)
  {
    records := [];
    for i := 0 to |blocks|
      invariant records == Candidates(blocks[..i])
    {
      assert blocks[..i + 1][..i] == blocks[..i];
      var block := blocks[i];
      if Strip(block) == [] {
        continue;
      }
      var accMatch := AccountNumber(block);
      if accMatch.None? {
        continue;
      }
      var accountNo := accMatch.value;
      var patientName := PatientName(block);
      var dateOfService := DateOfService(block);
      var cptJoined := CptCodes(block);
      if cptJoined == [] {
        continue;
      }
      records := records + [Record(accountNo, patientName, dateOfService, cptJoined)];
    }
    assert blocks[..|blocks|] == blocks;
  }

  // ---------------------------------------------------------------- keep-first dedup

  function AccountsOf(rs: seq<Record>): set<String> {
    set r | r in rs :: r.accountNumber
  }

  /** `drop_duplicates(subset=["Account Number"])`, keeping the first: a record is
      kept when no earlier record has its account number. */
  function KeepFirst(rs: seq<Record>): (r: seq<Record>)
    ensures |r| <= |rs|
  {
    if rs == [] then []
    else
      var init := rs[..|rs| - 1];
      var last := rs[|rs| - 1];
      if last.accountNumber in AccountsOf(init) then KeepFirst(init) else KeepFirst(init) + [last]
  }

  lemma AccountsOfSnoc(rs: seq<Record>, r: Record)
    ensures AccountsOf(rs + [r]) == AccountsOf(rs) + {r.accountNumber}
  {
    assert forall x :: x in rs + [r] <==> x in rs || x == r;
  }

  /** Positions `idx` of the kept records in `rs`: increasing, and at each one no
      earlier record has the same account number. */
  lemma {:induction false} KeepFirstIndices(rs: seq<Record>) returns (idx: seq<nat>)
    ensures |idx| == |KeepFirst(rs)|
    ensures forall k :: 0 <= k < |idx| ==> idx[k] < |rs| && rs[idx[k]] == KeepFirst(rs)[k]
    ensures forall k, m :: 0 <= k < m < |idx| ==> idx[k] < idx[m]
    ensures forall k, j :: 0 <= k < |idx| && 0 <= j < idx[k] ==>
      rs[j].accountNumber != rs[idx[k]].accountNumber
    decreases |rs|
  {
    if rs == [] {
      idx := [];
    } else {
      var n := |rs| - 1;
      var init := rs[..n];
      var pre := KeepFirstIndices(init);
      assert forall k :: 0 <= k < n ==> init[k] == rs[k];
      if rs[n].accountNumber in AccountsOf(init) {
        assert KeepFirst(rs) == KeepFirst(init);
        idx := pre;
      } else {
        forall j | 0 <= j < n ensures rs[j].accountNumber != rs[n].accountNumber {
          assert init[j] in init;
        }
        assert KeepFirst(rs) == KeepFirst(init) + [rs[n]];
        idx := pre + [n];
        assert forall k :: 0 <= k < |pre| ==> idx[k] == pre[k];
      }
    }
  }

  /** After the dedup no two records share an account number. */
  lemma KeepFirstDistinct(rs: seq<Record>)
    ensures forall k, m :: 0 <= k < m < |KeepFirst(rs)| ==>
      KeepFirst(rs)[k].accountNumber != KeepFirst(rs)[m].accountNumber
  {
    var idx := KeepFirstIndices(rs);
  }

  /** The dedup loses no account number. */
  lemma {:induction false} KeepFirstAccounts(rs: seq<Record>)
    ensures AccountsOf(KeepFirst(rs)) == AccountsOf(rs)
    decreases |rs|
  {
    if rs != [] {
      var n := |rs| - 1;
      var init := rs[..n];
      KeepFirstAccounts(init);
      assert rs == init + [rs[n]];
      AccountsOfSnoc(init, rs[n]);
      if rs[n].accountNumber !in AccountsOf(init) {
        AccountsOfSnoc(KeepFirst(init), rs[n]);
      }
    }
  }

  /** The first record of each account number is kept. */
  lemma {:induction false} KeepFirstKeeps(rs: seq<Record>, i: nat)
    requires i < |rs|
    requires forall j :: 0 <= j < i ==> rs[j].accountNumber != rs[i].accountNumber
    ensures rs[i] in KeepFirst(rs)
    decreases |rs|
  {
    var n := |rs| - 1;
    var init := rs[..n];
    if i < n {
      assert init[i] == rs[i];
      assert forall j :: 0 <= j < i ==> init[j] == rs[j];
      KeepFirstKeeps(init, i);
    } else {
      forall r | r in init ensures r.accountNumber != rs[n].accountNumber {
        var j :| 0 <= j < n && init[j] == r;
        assert rs[j] == r;
      }
      assert rs[n].accountNumber !in AccountsOf(init);
    }
  }

  /** The table after the upload, as a value that its dedup updates in place. */
  class RecordTable {
    var rows: seq<Record>

    constructor(records: seq<Record>)
      ensures rows == records
    {
      rows := records;
    }

    /** `df.drop_duplicates(subset=["Account Number"], inplace=True)` (ar4.py:139). */
    method DropDuplicateAccounts()
      modifies this
      ensures rows == KeepFirst(old(rows))
    {
      var rs := rows;
      var seen: set<String> := {};
      var kept: seq<Record> := [];
      for i := 0 to |rs|
        invariant kept == KeepFirst(rs[..i])
        invariant seen == AccountsOf(rs[..i])
      {
        var r := rs[i];
        assert rs[..i + 1] == rs[..i] + [r];
        assert rs[..i + 1][..i] == rs[..i];
        AccountsOfSnoc(rs[..i], r);
        if r.accountNumber !in seen {
          kept := kept + [r];
          seen := seen + {r.accountNumber};
        }
      }
      assert rs[..|rs|] == rs;
      rows := kept;
    }
  }

  // ---------------------------------------------------------------- the pipeline

  datatype Outcome =
    | NoTextFound              // the text is blank (ar4.py:32-34)
    | Extracted(rows: seq<Record>)

  /** What the pipeline produces from the joined text. */
  function Extraction(text: String): Outcome {
    if Strip(text) == [] then NoTextFound
    else Extracted(KeepFirst(Candidates(SplitBlocks(text))))
  }

  /** The pipeline, step by step: the blank-text check, the split, the block loop,
      and the in-place dedup of the table. */
  method ExtractTable(text: String) returns (out: Outcome)
    ensures out == Extraction(text)
  {
    if Strip(text) == [] {
      return NoTextFound;
    }
    var blocks := SplitBlocks(text);
    var records := AssembleRecords(blocks);
    var table := new RecordTable(records);
    table.DropDuplicateAccounts();
    out := Extracted(table.rows);
  }

  /** No two rows of the table share an account number. */
  lemma ExtractionDistinct(text: String)
    requires Strip(text) != []
    ensures var rows := Extraction(text).rows;
      forall k, m :: 0 <= k < m < |rows| ==> rows[k].accountNumber != rows[m].accountNumber
  {
    KeepFirstDistinct(Candidates(SplitBlocks(text)));
  }

  /** Each record kept after collecting and deduplicating comes from an element
      `xs[k]`, and no element before it yields a record with the same account number. */
  lemma CollectKeptSource(xs: seq<String>, f: String -> Option<Record>, m: nat) returns (k: nat)
    requires m < |KeepFirst(Collect(xs, f))|
    ensures k < |xs| && f(xs[k]) == Some(KeepFirst(Collect(xs, f))[m])
    ensures forall j :: 0 <= j < k && f(xs[j]).Some? ==>
      f(xs[j]).value.accountNumber != KeepFirst(Collect(xs, f))[m].accountNumber
  {
    var c := Collect(xs, f);
    var keep := KeepFirstIndices(c);
    var cand := CollectIndices(xs, f);
    var i := keep[m];
    k := cand[i];
    forall j | 0 <= j < k && f(xs[j]).Some?
      ensures f(xs[j]).value.accountNumber != c[i].accountNumber
    {
      assert j in cand;
      var i' :| 0 <= i' < |cand| && cand[i'] == j;
      assert i' < i;
    }
  }

  /** An account number survives collecting and deduplicating exactly when some
      element yields a record with it. */
  lemma CollectKeptAccounts(xs: seq<String>, f: String -> Option<Record>, acc: String)
    ensures acc in AccountsOf(KeepFirst(Collect(xs, f))) <==>
      exists k :: 0 <= k < |xs| && f(xs[k]).Some? && f(xs[k]).value.accountNumber == acc
  {
    var c := Collect(xs, f);
    var cand := CollectIndices(xs, f);
    KeepFirstAccounts(c);
    if acc in AccountsOf(c) {
      var r :| r in c && r.accountNumber == acc;
      var i :| 0 <= i < |c| && c[i] == r;
      assert f(xs[cand[i]]) == Some(r);
    }
    if k :| 0 <= k < |xs| && f(xs[k]).Some? && f(xs[k]).value.accountNumber == acc {
      assert k in cand;
      var i :| 0 <= i < |cand| && cand[i] == k;
      assert c[i] in c;
    }
  }

  /** The first element that yields a record with a given account number supplies
      the kept record of that account. */
  lemma CollectFirstKept(xs: seq<String>, f: String -> Option<Record>, k: nat)
    requires k < |xs| && f(xs[k]).Some?
    requires forall j :: 0 <= j < k && f(xs[j]).Some? ==>
      f(xs[j]).value.accountNumber != f(xs[k]).value.accountNumber
    ensures f(xs[k]).value in KeepFirst(Collect(xs, f))
  {
    var c := Collect(xs, f);
    var cand := CollectIndices(xs, f);
    assert k in cand;
    var i :| 0 <= i < |cand| && cand[i] == k;
    forall j | 0 <= j < i ensures c[j].accountNumber != c[i].accountNumber {
      assert cand[j] < k;
    }
    KeepFirstKeeps(c, i);
  }

  /** Each row is the record of a block of the text, has CPT codes and a 4-5 digit
      account number, and no earlier block yields a record with that account number. */
  lemma ExtractionRow(text: String, m: nat) returns (k: nat)
    requires Extraction(text).Extracted? && m < |Extraction(text).rows|
    ensures var blocks := SplitBlocks(text); var row := Extraction(text).rows[m];
      && k < |blocks| && BlockRecord(blocks[k]) == Some(row)
      && row.cptCodes != [] && AllDigits(row.accountNumber) && 4 <= |row.accountNumber| <= 5
      && forall j :: 0 <= j < k && BlockRecord(blocks[j]).Some? ==>
           BlockRecord(blocks[j]).value.accountNumber != row.accountNumber
  {
    k := CollectKeptSource(SplitBlocks(text), BlockRecord, m);
  }

  /** An account number appears in the table exactly when some block yields a
      record with it: a first block without CPT codes does not hide a later one. */
  lemma ExtractionAccounts(text: String, acc: String)
    requires Strip(text) != []
    ensures acc in AccountsOf(Extraction(text).rows) <==>
      exists k :: 0 <= k < |SplitBlocks(text)| && BlockRecord(SplitBlocks(text)[k]).Some?
        && BlockRecord(SplitBlocks(text)[k]).value.accountNumber == acc
  {
    CollectKeptAccounts(SplitBlocks(text), BlockRecord, acc);
  }

  /** The first block that yields a record with a given account number supplies the
      row of that account, whatever blocks without CPT codes came before it. */
  lemma FirstRecordKept(text: String, k: nat)
    requires Strip(text) != []
    requires k < |SplitBlocks(text)| && BlockRecord(SplitBlocks(text)[k]).Some?
    requires forall j :: 0 <= j < k && BlockRecord(SplitBlocks(text)[j]).Some? ==>
      BlockRecord(SplitBlocks(text)[j]).value.accountNumber != BlockRecord(SplitBlocks(text)[k]).value.accountNumber
    ensures BlockRecord(SplitBlocks(text)[k]).value in Extraction(text).rows
  {
    CollectFirstKept(SplitBlocks(text), BlockRecord, k);
  }

  /** The block before the first marker never yields a record. */
  lemma PreambleYieldsNothing(text: String)
    ensures BlockRecord(SplitBlocks(text)[0]).None?
  {
    AccountOfBlock(text, 0);
  }

  /** A record's account number is what the group captures at the marker that
      opens its block. */
  lemma RecordAccountFromMarker(text: String, k: nat)
    requires k < |SplitBlocks(text)| && BlockRecord(SplitBlocks(text)[k]).Some?
    ensures k > 0
    ensures var b := SplitBlocks(text)[k];
      AccountDigitsAt(b, MarkerDigits(b, 0), BlockRecord(b).value.accountNumber)
  {
    PreambleYieldsNothing(text);
    AccountOfBlock(text, k);
  }

  /** A text without any account marker gives an empty table. */
  lemma NoMarkerNoRows(text: String)
    requires Strip(text) != [] && forall q :: !MarkerAt(text, q)
    ensures Extraction(text) == Extracted([])
  {
    NoMarkerOneBlock(text);
    PreambleYieldsNothing(text);
    assert SplitBlocks(text)[..0] == [];
  }
}
