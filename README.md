# Account-based billing extractor, modelled in Dafny

`ar4.py` turns the text of a billing PDF into a table with one row per account:
account number, patient name, date of service and CPT codes. This project models
the part of it that is logic rather than plumbing. That part takes the joined text
of all pages and produces the rows of the table, in five steps:

- **Split** (`Segmenter`, ar4.py:37). The text is cut just before every account
  marker: `Account:`, optional whitespace and four digits. The cut consumes nothing.
  The piece before the first marker comes first; it is empty when the text opens with
  a marker.
- **Field extractors** (`Fields`, `Names`, ar4.py:41-111), one function per field:
  - the account number;
  - the patient name, in two tiers: upper-case runs first, "Last, First I." second;
  - the date of service: on the line after the account line first, anywhere in the
    block second;
  - the sorted, distinct CPT codes.
- **The block loop** (`Assembler.AssembleRecords`, ar4.py:114-135). It skips blank
  blocks, blocks without an account number and blocks without CPT codes. It appends
  every other record, in document order.
- **Dedup** (`Assembler.RecordTable.DropDuplicateAccounts`, ar4.py:139). It keeps the
  first row of each account number, in place.
- **The pipeline** (`Assembler.ExtractTable`). It reports a blank text as "no text
  found" (ar4.py:32-34) and otherwise chains the steps above.

The regular expressions are not interpreted by a general engine. `Regex.MatchLen`
gives, for each pattern the program uses, the length of the match that Python's
backtracking engine finds at one position, with the greedy, lazy and backtracking
choices written out. Three definitions are built on it:

- `Regex.Spans` scans like `re.findall`;
- `Regex.Search` takes the first match, like `re.search`;
- `Regex.SpansLeftmost` proves that the scan reports exactly the leftmost
  non-overlapping matches.

Characters are classified by the ASCII part of Python's definitions (`Text`). A digit
is 0-9. A word character is an ASCII letter, a digit or `_`. Whitespace is the space
and the control characters 9-13 and 28-31.

Modules:

| module | what it holds |
|---|---|
| `Wrappers` | `Option` |
| `Text` | character classes, word boundaries, `strip`, `split`, `title`, `upper`, `join` |
| `Order` | Python's string order, `sorted(set(...))`, `max(..., key=len)` |
| `Regex` | the patterns, one match attempt, `findall` and `search` |
| `Segmenter` | the lookahead split |
| `Fields` | account number, date of service, CPT codes |
| `Names` | the patient name |
| `Assembler` | the records, the block loop, the dedup and the pipeline |

### Pattern behaviour worth knowing

- **Tier-1 runs are not maximal.** The pattern `\b[A-Z ,.'\-]{3,}\b` backs off
  from the longest run of name characters until a word boundary follows it. For
  example, `DOE JOHN ` yields `DOE JOHN`, without the trailing space
  (`Regex.UpperNameMatchSpec`).
- **Tier-2 matches.** The tier-2 pattern has no leading `\b`, so it can match inside
  a word. `McCrodden, Susan J` yields `Crodden, Susan J`. At the `M` the pattern
  reads the capitalised word `Mc`, but the next character is the capital `C`,
  neither the space before another word nor the comma, so that attempt fails; the
  match starts at the second capital (`Regex.MixedNameInsideWord`,
  `Regex.MixedNameAfterPrefix`).
- **Letter case of CPT codes.** The pattern matches either case, but the codes are
  deduplicated and sorted as written: `99213-ab` and `99213-AB` are two codes.
- **CPT modifiers.** With a longer modifier, as in `99213-ABC`, the pattern
  backtracks to the bare five digits `99213` (`Regex.CptMatchSpec`).
- **Which ignore list is used.** The extractor's own list (ar4.py:61-65) hides the
  module-level list (ar4.py:49-52), so the two differ in effect:
  - `BCBS`, `NOT`, `USE`, `FBU` and `GENESISC` drop a name;
  - `YES` and `NO` do not drop one.

## Model

| member | source | states |
|---|---|---|
| Text.RunEnd | ar4.py:37 | A greedy repetition: the characters from `i` to the result are all of the class and the next one is not. |
| Text.Strip | ar4.py:70 | `str.strip()`: the result is the text between a run of leading whitespace and a run of trailing whitespace; it is empty exactly when the text is all whitespace, and otherwise neither starts nor ends with whitespace. |
| Text.StripUnchanged | ar4.py:87 | A string that neither starts nor ends with whitespace is left as it is by stripping. |
| Text.StripNoLower | ar4.py:70 | Stripping keeps a string free of lower-case letters. |
| Text.Tokens | ar4.py:72-73 | `str.split()`: every token is non-empty and free of whitespace, and there is no token exactly when the text is all whitespace. |
| Text.TokenSpans | ar4.py:72-73 | The tokens are the whitespace-separated words of the text, in order: the k-th token is the slice between `lo[k]` and `hi[k]`, the slices are non-empty and apart, and everything before, between and after them is whitespace. |
| Text.ToUpper | ar4.py:84 | `str.upper()`: the same length, and each character is the upper-case form of the one at that position; only lower-case letters change. |
| Text.Title | ar4.py:76 | `str.title()` keeps the length. Text.TitleAt states it letter by letter and Text.UpperOfTitle that upper-casing gives an upper-case text back. |
| Text.TitleAt | ar4.py:76 | `str.title()`: a letter is upper-cased where it opens the string or follows a non-letter, and lower-cased where it follows a letter. |
| Text.UpperOfTitle | ar4.py:76 | Upper-casing the title-cased form of a string without lower-case letters gives back the string. |
| Text.Join | ar4.py:111 | `sep.join(xs)` of non-empty items is empty exactly when the list is. Text.SplitJoin states that splitting it by the separator gives the list back. |
| Text.SplitJoin | ar4.py:111 | Splitting a `", "`-joined list on `", "` gives the list back when no element holds a comma. |
| Order.Less | ar4.py:110 | Python's `<` on strings, which `sorted` uses; it has no ensures of its own. Order.LessIrreflexive, Order.LessAsymmetric, Order.LessTransitive and Order.LessTotal state that it is a strict total order. |
| Order.LessIrreflexive | ar4.py:110 | No string is less than itself in Python's string order. |
| Order.LessAsymmetric | ar4.py:110 | Two strings are never each less than the other. |
| Order.LessTransitive | ar4.py:110 | The string order is transitive. |
| Order.LessTotal | ar4.py:110 | Of two different strings, one is less than the other. |
| Order.Insert | ar4.py:110 | Inserting into a strictly ascending list keeps it strictly ascending and adds exactly the new element. |
| Order.SortedUnique | ar4.py:110 | `sorted(set(xs))`: strictly ascending, holding exactly the elements of `xs`. |
| Order.AscendingListingUnique | ar4.py:110 | A set of strings has exactly one strictly ascending listing. |
| Order.FirstLongest | ar4.py:76 | `max(xs, key=len)`: the index of an element no other element is longer than, and before which every element is shorter. |
| Regex.MarkerAt | ar4.py:37 | The lookahead `Account:\s*\d{4}` at a position; it has no ensures of its own. Regex.MarkerAtIff states that every reading of label, whitespace and four digits satisfies it, with the digits where the greedy reading puts them. |
| Regex.MarkerAtIff | ar4.py:37 | Any split of whitespace and four digits after the label is the greedy one, so the marker test loses no match. |
| Regex.MarkerHasOneA | ar4.py:37 | Only the first character of a marker is an `A`, so markers never overlap. |
| Regex.AccountDigitCount | ar4.py:41 | The account group captures four or five digits. |
| Regex.LineEnd | ar4.py:93 | The first line feed at or after a position, or the end of the text: no line feed lies before it. |
| Regex.CptMatchSpec | ar4.py:46 | A CPT match is 5 or 8 characters of CPT shape between word boundaries; when both readings fit, the 8-character one is taken, and five digits between boundaries always match. |
| Regex.UpperNameMatchSpec | ar4.py:68 | A tier-1 match is at least three name characters between word boundaries, and no longer run of name characters from the same start ends at a boundary. |
| Regex.CapWordEndAt | ar4.py:80 | What `CapWordEnd` finds is a capitalised word (an upper-case letter, then lower-case letters) that no lower-case letter follows. |
| Regex.CapWordLongest | ar4.py:80 | Every capitalised word at a position is found, ending no later than the one found, and exactly there when no lower-case letter follows it. |
| Regex.MixedNameSound | ar4.py:80 | Every tier-2 match is capitalised words joined by single spaces, a comma and a space, a capitalised word, and an optional space and capital with an optional period. |
| Regex.MixedNameLongest | ar4.py:80 | Every text of that shape at a position is matched there, by a match at least as long. |
| Regex.MixedNameMatchSpec | ar4.py:80 | The tier-2 match at a position is the longest text of the pattern's shape that starts there, and there is none exactly when no such text exists. |
| Regex.MixedNameInsideWord | ar4.py:80 | In `McCrodden, Susan J` the attempt at the first capital fails, since `Mc` is followed by a capital. |
| Regex.MixedNameAfterPrefix | ar4.py:80 | In `McCrodden, Susan J` the attempt at the second capital matches the sixteen characters `Crodden, Susan J`. |
| Regex.DateMatchSpec | ar4.py:43 | A date match is ten characters of the `dd/dd/dddd` shape with a word boundary on each side, and every such text is matched. |
| Regex.MatchLen | ar4.py:37-93 | The one match attempt of each pattern (lines 37, 41, 43, 46, 68, 80 and 93); its own ensures only keeps the match inside the text. What each pattern matches is stated by: Regex.MarkerAtIff for the lookahead (37); Fields.AccountMatch and Fields.AccountNumberOfFirstMarker for the account pattern (41); Regex.DateMatchSpec for the date (43); Regex.CptMatchSpec for the CPT code (46); Regex.UpperNameMatchSpec for tier 1 (68); Regex.MixedNameMatchSpec for tier 2 (80); Fields.AccountLineMatch, Fields.CapturedLineStart and Fields.WholeLine for the account line (93). |
| Regex.MatchLensAt | ar4.py:107 | The table of match lengths holds the match length at each position. |
| Regex.Spans | ar4.py:107 | The scan `findall` performs: every span starts inside the text, has its start's match length, which is positive, and ends inside the text. Regex.SpansLeftmost states that the spans are exactly the leftmost non-overlapping matches. |
| Regex.ScanFirst | ar4.py:107 | No match starts before the first match the scan reports, or anywhere when it reports none. |
| Regex.ScanGaps | ar4.py:107 | Consecutive reported matches do not overlap, and no match starts between them. |
| Regex.ScanLast | ar4.py:107 | No match starts after the last reported one. |
| Regex.SpanIsMatch | ar4.py:107 | Every span the scan reports is a match. |
| Regex.NoMatchFromLens | ar4.py:107 | Where the table shows no match, the pattern does not match. |
| Regex.SpansLeftmost | ar4.py:107 | `findall` reports the leftmost non-overlapping matches: none before the first, none in a gap, none after the last. |
| Regex.ScanCovers | ar4.py:107 | When matches never overlap, the scan reports every match. |
| Regex.FindAll | ar4.py:107 | Each text `findall` returns is the text of the reported match at the same place. |
| Regex.Search | ar4.py:118 | `search` finds nothing exactly when the pattern matches nowhere; otherwise it finds a match with no match before it. |
| Regex.SearchText | ar4.py:96-98 | `search(...).group(0)`: absent exactly when nothing matches; otherwise the text of the string at the leftmost match, as long as that match. |
| Regex.FindAllComplete | ar4.py:107 | For a pattern whose matches never overlap, the text of every match is among the texts `findall` returns. |
| Regex.FindAllEmpty | ar4.py:108 | `findall` returns nothing exactly when the pattern matches nowhere. |
| Regex.FindAllFirst | ar4.py:100-102 | The first text `findall` returns is the text `search` finds. |
| Regex.SearchFinds | ar4.py:96 | A match with no match before it is the one `search` finds. |
| Regex.FindAllMatchAt | ar4.py:68 | The k-th text `findall` returns is the text of a match. |
| Segmenter.NextMarker | ar4.py:37 | The first marker position at or after `from`, with no marker before it. |
| Segmenter.MarkerPositions | ar4.py:37 | All marker positions and only those, in strictly ascending order. |
| Segmenter.Cuts | ar4.py:37 | The cut points start at 0, end at the end of the text and ascend; every interior cut is a marker position, strictly ascending. |
| Segmenter.CutsComplete | ar4.py:37 | Every marker position of the text is an interior cut. |
| Segmenter.SplitBlocks | ar4.py:37 | `re.split` on the lookahead: one block per pair of consecutive cuts, each the text between them. |
| Segmenter.ConcatSlices | ar4.py:37 | Joining the pieces between consecutive cut points gives the text between the first and the last. |
| Segmenter.SplitRoundTrip | ar4.py:37 | Joining the blocks of the split gives back the text exactly. |
| Segmenter.NoMarkerInsideBlock | ar4.py:37 | No marker starts strictly inside a block of the text, nor in the first block. |
| Segmenter.MarkerFitsBlock | ar4.py:37 | The marker that opens a block ends inside that block. |
| Segmenter.BlockOpensWithMarker | ar4.py:37 | Every block after the first opens with a marker, and its digits sit where they sit in the text. |
| Segmenter.NoMarkerInBlock | ar4.py:37 | Inside a block a marker appears only at its start, and the first block holds none. |
| Segmenter.NoMarkerOneBlock | ar4.py:37 | A text without a marker splits into one block: itself. |
| Fields.AccountMatch | ar4.py:41 | The account pattern matches at exactly the positions where a marker starts. |
| Fields.NoAccountMatch | ar4.py:41 | The account pattern matches nowhere exactly when the block holds no marker. |
| Fields.MarkerDigitsCaptured | ar4.py:41 | The characters the account group captures are digits. |
| Fields.AccountNumber | ar4.py:118-121 | There is no account number exactly when the block holds no marker; otherwise it is 4-5 digits. |
| Fields.AccountNumberOfFirstMarker | ar4.py:41 | The account number is the group captured at the first marker: five digits when a fifth digit follows the four, else four. |
| Fields.AccountOfBlock | ar4.py:118-121 | The first block yields no account number; every later block yields the 4-5 digits of the marker that opens it. |
| Fields.AccountLineMatch | ar4.py:93 | The account-line pattern matches exactly at a marker whose four digits are followed, later on their line, by a line feed. |
| Fields.CapturedLineStart | ar4.py:93 | The account-line pattern finds no line exactly when it matches nowhere; the captured line starts just after a line feed. |
| Fields.CapturedLineOfOpeningMarker | ar4.py:93 | In a block that opens with a marker, the captured line is the line after the marker's line. |
| Fields.WholeLine | ar4.py:95 | The text from just after a line feed to the next line feed is a whole line. |
| Fields.AccountLineText | ar4.py:93-95 | Group 1 is absent exactly when the pattern matches nowhere; otherwise it is a whole line of the block. |
| Fields.DateInLine | ar4.py:96 | A date found in a whole line of the block is a date of the block, at the same place. |
| Fields.LineDate | ar4.py:96-98 | A date taken from the line after the account line is a 10-character date match of the block. |
| Fields.DateOfService | ar4.py:91-103 | `extract_date_of_service`; it has no ensures of its own. Its behaviour is stated by Fields.DateOfServiceIsDate, Fields.DateOfServiceEmpty, Fields.DateFromAccountLine and Fields.DateFromBlock. |
| Fields.DateOfServiceIsDate | ar4.py:91-103 | The date of service is "" or a date of the block between word boundaries. |
| Fields.DateOfServiceEmpty | ar4.py:100-103 | The date of service is "" exactly when the block holds no date. |
| Fields.DateFromAccountLine | ar4.py:93-98 | When the line after the account line holds a date, its first date is the date of service, wherever else dates occur. |
| Fields.DateFromBlock | ar4.py:100-102 | Without a date on that line, the first date of the block is the date of service. |
| Fields.CptCodeList | ar4.py:110 | The codes are strictly ascending and are exactly the texts of the CPT matches. |
| Fields.CptCodes | ar4.py:105-111 | The joined codes are "" exactly when the block has no CPT match. |
| Fields.CptNoOverlap | ar4.py:46 | No CPT match starts inside another one. |
| Fields.CptNoOverlapAt | ar4.py:46 | No CPT match starts strictly inside another CPT match. |
| Fields.CptCodeSound | ar4.py:46 | Each listed code has CPT shape with its letters as written, and occurs in the block between word boundaries. |
| Fields.CptCodeComplete | ar4.py:107-110 | Every CPT match in the block is listed. |
| Fields.CptCodesSplit | ar4.py:111 | Splitting the joined codes on ", " gives back the sorted distinct list. |
| Fields.FiveDigitAccountIsCpt | ar4.py:41-46 | A five-digit account number followed by a non-word character is itself a CPT code, so its block always has CPT codes. |
| Names.Select | ar4.py:69-74 | The list comprehension `[f(x) for x in xs if keep(x)]` is no longer than its input. Names.SelectSound, Names.SelectComplete, Names.SelectIndices and Names.SelectEmpty state which elements it keeps, and in what order. |
| Names.KeepUpper | ar4.py:72-73 | The tier-1 filter: no word of the run is ignored, and the run has two words or more. It has no ensures of its own; Names.UpperTierEmpty, Names.LocalIgnoreListDrops and Names.LocalIgnoreListKeeps state its effect. |
| Names.KeepMixed | ar4.py:84 | The tier-2 filter: no word of the match, upper-cased, is ignored. It has no ensures of its own; Names.MixedSurvivorShape and Names.MixedTierEmpty state its effect. |
| Names.UpperSurvivors | ar4.py:68-74 | The stripped tier-1 runs that pass the filter. It has no ensures of its own; Names.UpperSurvivorShape, Names.UpperTierEmpty and Names.UpperTierChosen state what they are and how the name is chosen from them. |
| Names.MixedSurvivors | ar4.py:79-85 | The tier-2 matches that pass the filter. It has no ensures of its own; Names.MixedSurvivorShape, Names.MixedTierEmpty and Names.MixedTierChosen state what they are and how the name is chosen from them. |
| Names.SelectSound | ar4.py:69-74 | Each element a list comprehension keeps comes from an element that passes its filter. |
| Names.KeptFrom | ar4.py:69-74 | The positions from a start on whose element passes the filter: strictly increasing, each passing, and none missed. |
| Names.SelectIndices | ar4.py:69-74 | The comprehension keeps input order: the k-th selected element is `f` of the element at the k-th of strictly increasing positions, each passing the filter, and every passing position is among them. So the first longest survivor is the first in document order. |
| Names.SelectComplete | ar4.py:69-74 | Every element that passes the filter is kept. |
| Names.SelectEmpty | ar4.py:75 | The comprehension is empty exactly when nothing passes the filter. |
| Names.PatientName | ar4.py:55-89 | `extract_patient_name`; it has no ensures of its own. Its behaviour is stated by Names.UpperTierChosen, Names.UpperTierEmpty, Names.MixedTierChosen and Names.MixedTierEmpty. |
| Names.UpperRunShape | ar4.py:68-70 | A stripped tier-1 match has no lower-case letter and is text of the block. |
| Names.FoundRunShape | ar4.py:68-70 | The same holds for every text `findall` reports for tier 1. |
| Names.UpperSurvivorShape | ar4.py:69-74 | Every tier-1 survivor is text of the block without lower-case letters. |
| Names.UpperTierChosen | ar4.py:67-76 | Once one tier-1 run passes both filters, the name is the title-cased first longest survivor, and tier 2 is not consulted. Upper-casing the name gives text of the block. |
| Names.UpperTierEmpty | ar4.py:69-75 | Tier 1 has no survivor exactly when no upper-case run passes the filters. |
| Names.MixedMatchStripped | ar4.py:80-87 | A tier-2 match neither starts nor ends with whitespace, so stripping leaves it as it is. |
| Names.FoundMixedShape | ar4.py:79-82 | Every reported tier-2 text is a match of the block that stripping leaves as it is. |
| Names.MixedSurvivorShape | ar4.py:83-85 | Every tier-2 survivor passes the filter and is a match of the block, unchanged by stripping. |
| Names.MixedTierEmpty | ar4.py:83-86 | Tier 2 has no survivor exactly when no tier-2 match passes the filter. |
| Names.MixedTierChosen | ar4.py:78-89 | With no tier-1 survivor, the name is "" exactly when tier 2 has no survivor. Otherwise it is the first longest tier-2 survivor: a match of the block as it stands that passes the filter. |
| Names.LocalIgnoreListDrops | ar4.py:61-65 | A run with the word BCBS or NOT is dropped, although the module-level list would keep it. |
| Names.LocalIgnoreListKeeps | ar4.py:49-52 | A run with the word YES or NO and no word of the extractor's list is kept, although the module-level list would drop it. |
| Assembler.BlockRecord | ar4.py:114-135 | A record a block yields has CPT codes and a 4-5 digit account number. |
| Assembler.MarkedBlockNotBlank | ar4.py:115-116 | A block with a marker is never blank. |
| Assembler.BlockRecordWhen | ar4.py:115-128 | A block yields a record exactly when it holds an account marker and a CPT code. |
| Assembler.Collect | ar4.py:114-135 | What the loop appends: never more records than blocks, and none exactly when no block yields a record. Its order and sources are stated by Assembler.CollectIndices. |
| Assembler.CollectIndices | ar4.py:114-135 | The records the loop appends come from increasing block positions, one per block that yields a record, and every such block is represented. |
| Assembler.Candidates | ar4.py:114-135 | The records the loop appends, in block order. It has no ensures of its own; Assembler.AssembleRecords states that the loop produces it, and Assembler.CollectIndices and Assembler.BlockRecordWhen which block yields which record. |
| Assembler.AssembleRecords | ar4.py:114-135 | The loop's list is the records of the blocks that pass the guards, in document order. |
| Assembler.KeepFirst | ar4.py:139 | `drop_duplicates` keeping the first: never more rows than before. What it keeps is stated by Assembler.KeepFirstIndices, Assembler.KeepFirstDistinct, Assembler.KeepFirstAccounts and Assembler.KeepFirstKeeps. |
| Assembler.KeepFirstIndices | ar4.py:139 | The kept rows are an order-preserving subsequence of the input; no earlier row shares a kept row's account number. |
| Assembler.KeepFirstDistinct | ar4.py:139 | After the dedup no two rows share an account number. |
| Assembler.KeepFirstAccounts | ar4.py:139 | The dedup loses no account number. |
| Assembler.KeepFirstKeeps | ar4.py:139 | The first row of each account number is kept. |
| Assembler.RecordTable.constructor | ar4.py:138 | The table holds the records in order. |
| Assembler.RecordTable.DropDuplicateAccounts | ar4.py:139 | In place, the rows become the keep-first dedup of the old rows. |
| Assembler.Extraction | ar4.py:32-139 | The pipeline as a function of the text; it has no ensures of its own. Assembler.ExtractTable is proved equal to it, and its behaviour is stated by Assembler.ExtractionDistinct, Assembler.ExtractionRow, Assembler.ExtractionAccounts, Assembler.FirstRecordKept and Assembler.NoMarkerNoRows. |
| Assembler.ExtractTable | ar4.py:32-139 | The pipeline yields "no text found" for blank text; otherwise it yields the deduplicated records of the split. |
| Assembler.ExtractionDistinct | ar4.py:139 | No two rows of the table share an account number. |
| Assembler.CollectKeptSource | ar4.py:114-139 | Each row kept after the loop and the dedup comes from a block, and no earlier block yields a record with that account number. |
| Assembler.CollectKeptAccounts | ar4.py:127-139 | An account number survives exactly when some block yields a record with it. |
| Assembler.CollectFirstKept | ar4.py:127-139 | The first record of an account number survives the dedup. |
| Assembler.ExtractionRow | ar4.py:114-139 | Each row is the record of a block: it has CPT codes and a 4-5 digit account number, and no earlier block yields a record with that account number. |
| Assembler.ExtractionAccounts | ar4.py:127-139 | An account number is in the table exactly when some block yields a record with it, so a block without CPT codes never hides a later one. |
| Assembler.FirstRecordKept | ar4.py:127-139 | The first block that yields a record for an account number supplies that account's row, whatever blocks without CPT codes came before it. |
| Assembler.PreambleYieldsNothing | ar4.py:118-120 | The block before the first marker never yields a record. |
| Assembler.RecordAccountFromMarker | ar4.py:118-121 | A record's account number is the group captured at the marker that opens its block. |
| Assembler.NoMarkerNoRows | ar4.py:114-139 | A non-blank text without any account marker gives an empty table. |

## Left out

- The Streamlit page: title, notes, uploader, messages, table display and download
  button (ar4.py:7-22, 33, 143-159). This is user interface. `Assembler.Outcome` marks
  the "no text found" stop; an empty `Extracted` table is the case that shows the
  "no valid data" warning.
- PDF text extraction with pdfplumber and the page loop (ar4.py:25-30). This is I/O
  through a foreign library. The model takes the joined text as its input.
- The pandas DataFrame, `reset_index` and the Excel export (ar4.py:138, 140, 150-152).
  The DataFrame is `Assembler.RecordTable`, a sequence of records updated in place.
  `reset_index(drop=True)` renumbers the rows but changes neither their contents nor
  their order. The export is I/O.
- Unicode. Python classifies digits, word characters and whitespace by Unicode
  properties; this model uses their ASCII part. Python's case-insensitive matching
  also folds a few non-ASCII characters onto ASCII letters in the CPT modifier, such
  as the Kelvin sign and the long s; the model accepts only ASCII letters and digits
  there. `Text.Title` and `Text.ToUpper` change only ASCII letters.
- The module-level ignore list (ar4.py:49-52). No extractor reads it. It appears only
  in `Names.LocalIgnoreListKeeps`, to show that the extractor's own list is the one
  in force.
- Fields.CapturedLineOfOpeningMarker: covers only a block that opens with its
  marker. By `Segmenter.BlockOpensWithMarker`, every block that can yield a record
  does.
- Determinism (the same text always gives the same table). Every step is a function
  of the text, so this holds by construction and needs no lemma.
