# opttechsort in Dafny

A model of `opttechsort.py`, a sorter for files of variable-length records.
Each record ends with a multi-byte end-of-record delimiter. Fixed-offset
fields inside each record are decoded as text or integers and give the sort
key. The program works in three steps:

1. **Index** (`Records.populate`). Scan the input one byte at a time. Feed
   each byte to a delimiter matcher (`ByteTracker`). Record 0 starts at
   offset 0. Each further record starts right after a byte on which the
   matcher reports a complete delimiter. At each start, every field is read
   and decoded.
2. **Sort** (`Records.sort`). Sort the records stably by the list of
   `order * value` over their fields.
3. **Copy out** (`Records.write_records`). For each record in sorted order,
   `Record.write_record` copies bytes from the record's start until the
   matcher reports the delimiter. The delimiter is written between
   consecutive records.

It also models the argument validators: `validate_sort_arguments`,
`filetype` and `decimal_to_byte`.

The model follows the code's own form:

- `ByteTracker`, the input and output files, and `Records` are classes whose
  methods update their fields.
- The loops of `populate`, `write_record`, `write_records` and
  `validate_sort_arguments` are `while`/`for` loops. Each one is proved
  against a function that specifies its result.
- The sort key, the comparison, the decoders and the `filetype` checks are
  functions.

Files:

- `types.dfy`: bytes, values, field specs and records.
- `tracker.dfy`: `ByteTracker` and the scanning function `Scan`.
- `files.dfy`: a binary input file with a position (`seek`/`read`/`tell`) and
  an append-only output file.
- `decode.dfy`: decimal strings, `bytes_to_string`, `int(bytes)` and the
  field reads.
- `index.dfy`: the indexing pass as a function, `IndexFrom`.
- `ordering.dfy`: the sort key, the comparison and a stable insertion sort.
- `emit.dfy`: the copy pass as a function, `Copy`; the `write_record` method;
  and the joined output.
- `records.dfy`: the `Records` class.
- `config.dfy`: the validators.

### Behaviour of the code worth knowing

Some of what the code does is easy to miss when reading it. The model does
what the code does:

- **Both passes share one matcher, and it is never reset.** `reset()` names
  `_rst_curr_byt` without calling it (line 38).
  - `Reset` keeps the cursor.
  - `Populate` starts from whatever cursor the tracker has.
  - The cursor `populate` leaves behind is the cursor `write_records` starts
    with (`Run`).
- **The copy pass matches the delimiter as a subsequence.** In
  `write_record`, a byte other than the expected one is written without
  being fed to the matcher, so the cursor never falls back. The delimiter
  bytes can therefore be spread out, with other bytes between them. The
  held-back bytes are dropped.
  - `CopySplits` states this.
  - `CopyMatchesSubsequence` gives an input on which the two passes disagree.
- **Indexing skips the bytes up to the end of the last field read.** After
  each record start, reading the fields leaves the file position at the end
  of the last field in spec order, which need not be the field that ends
  furthest. The bytes up to the end of that last field are skipped, so a
  delimiter among them is not seen, while one lying beyond it, even inside
  an earlier field, is.
  - The first record has one more quirk. The matcher's progress from byte 0
    carries over that jump, so a record boundary can be found where no
    contiguous delimiter occurs (`FirstRecordCarriesProgress`).
- **Descending order is arithmetic.** The key multiplies each value by 1 or
  -1. A descending integer is negated. A descending text becomes `''` (a
  string times -1), so it never tells two records apart.
- **The matcher does not backtrack.** A mismatch resets the cursor without
  testing the byte again against the first delimiter byte. `MissedOverlap`
  shows an occurrence this misses.

## Model

| member | source | states |
|---|---|---|
| Tracker.Feed | opttechsort.py:21-30 | the cursor stays within the delimiter; a match is reported exactly when the byte is the expected one and the cursor is on the last delimiter byte, and the cursor is then 0; an expected byte at a non-last index advances the cursor by one without a match; any other byte sets the cursor to 0 without a match, and is not tested against the first byte again |
| Tracker.ByteTracker.constructor | opttechsort.py:12-14 | the tracker holds the given bytes with the cursor at 0; it is usable exactly when the list is non-empty |
| Tracker.ByteTracker.GotAllBytes | opttechsort.py:17-52 | one call is one `Feed` step on the cursor; the cursor stays in range, so the overflow exception at lines 43-44 cannot be raised. Its test of the byte against `current_byte` (`CurrentByte`, the delimiter byte at the cursor) and of `is_last_byte` (`IsLastByte`, the cursor on the last delimiter byte) is what makes a step a `Feed` step |
| Tracker.ByteTracker.Reset | opttechsort.py:37-38 | the cursor is unchanged: `reset()` is called (line 110), but it names `_rst_curr_byt` without calling it |
| Tracker.ByteTracker.IncCursor | opttechsort.py:41-44 | the cursor goes up by one; the overflow flag is the condition on which the source raises |
| Tracker.ByteTracker.ResetCursor | opttechsort.py:47-48 | the cursor is 0 |
| Tracker.ScanCons | opttechsort.py:21-30 | feeding a byte and then a stream is feeding the stream from the cursor that byte left |
| Tracker.FeedKeepsTail | opttechsort.py:21-30 | the last `cursor` bytes fed are the delimiter's first `cursor` bytes, and remain so after each step; a match leaves the whole delimiter at the end of the bytes fed |
| Tracker.ScanFromZeroTail | opttechsort.py:21-30 | from cursor 0, the cursor after a stream never exceeds the stream's length, and it counts delimiter bytes at the stream's end |
| Tracker.MatchIsOccurrence | opttechsort.py:21-30 | from cursor 0, a reported match is a complete contiguous occurrence of the delimiter ending at that byte |
| Tracker.ScanDelimiterPart | opttechsort.py:21-30 | feeding the delimiter's bytes in order from any cursor walks the cursor forward one byte at a time |
| Tracker.DelimiterCompletes | opttechsort.py:21-30 | the delimiter's remaining bytes, fed in order, complete a match on the last one |
| Tracker.MissedOverlap | opttechsort.py:21-30 | with delimiter [1, 2], the stream [1, 1, 2] contains it, yet no byte reports a match |
| Files.Slice | opttechsort.py:122-123 | a read returns the bytes from the position, clipped at the end of the file, and none past it |
| Files.ReadEnd | opttechsort.py:122-123 | the position after a read is advanced by the number of bytes returned |
| Files.InputFile.Read | opttechsort.py:113 | a read returns the clipped slice and moves the position past it |
| Files.InputFile.Seek | opttechsort.py:122 | `seek` sets the position, possibly past the end |
| Files.OutputFile.Write | opttechsort.py:85-86 | a write appends its bytes to the output |
| Decode.ParseDecimal | opttechsort.py:200-201 | a number is given exactly for non-empty strings of decimal digits |
| Decode.ParseRender | opttechsort.py:200-201 | reading the decimal spelling of a number gives the number back |
| Decode.LeadingZeroIgnored | opttechsort.py:200-201 | a leading zero does not change the number read |
| Decode.DecodeText | opttechsort.py:161-162 | text decoding succeeds exactly on ASCII bytes and keeps the length |
| Decode.TextRoundTrip | opttechsort.py:161-162 | decoding the bytes of an ASCII string gives the string back |
| Decode.DecodeInt | opttechsort.py:191 | integer decoding succeeds exactly on ASCII decimal digit bytes, and gives the number those digits denote, leading zeros allowed |
| Decode.ParsePadded | opttechsort.py:191 | a number spelled with any number of leading zeros reads as that number |
| Decode.PaddedIntRoundTrip | opttechsort.py:191 | the bytes of a zero-padded number, such as "0042", decode to that number |
| Decode.IntRoundTrip | opttechsort.py:191 | decoding a number's decimal bytes gives the number back |
| Decode.TypeCast | opttechsort.py:124 | a decoded value has the kind that the field's type letter names |
| Decode.DecodeFields | opttechsort.py:120-125 | the field loop as a function; what it gives is stated by `DecodeFieldsSucceeds`, `DecodeFieldsComplete`, `DecodeFieldsLength`, `DecodeFieldsAt` and `DecodeFailureSticks` |
| Decode.DecodeFieldsSucceeds | opttechsort.py:120-125 | a record's fields decode exactly when each field's bytes decode |
| Decode.DecodeFieldsComplete | opttechsort.py:120-125 | when every field's bytes decode, the whole record decodes |
| Decode.DecodeFieldsLength | opttechsort.py:120-125 | the decoded record holds exactly one value per field spec |
| Decode.DecodeFieldsAt | opttechsort.py:120-125 | the i-th decoded value is the decoding of the bytes at `start + position` of length `length` of spec i, and has the spec's kind |
| Decode.DecodeFailureSticks | opttechsort.py:121-124 | once a field fails to decode, the record fails with that field's error, and later fields are not decoded |
| Indexing.AfterFields | opttechsort.py:121-123 | after the field reads, the position is the start of the last field in spec order plus the number of bytes its read returned (its full length when it lies within the file), or left as it was when there are no fields |
| Indexing.ScanResume | opttechsort.py:113-123 | scanning resumes no earlier than the record's start, at the start of the last field in spec order plus the bytes read from it; with no fields, at offset 1 after the first record and at the record's start otherwise |
| Indexing.IndexFrom | opttechsort.py:109-126 | the matcher's cursor stays within the delimiter throughout the pass |
| Indexing.Index | opttechsort.py:109-126 | the whole of `populate` from cursor `c`; its entries are characterised by `IndexFirst`, `IndexNextStart` and `IndexEnd` (which entries exist), and by `IndexFromShape` and `IndexDelimited` (what each holds) |
| Indexing.IndexEmpty | opttechsort.py:109-126 | an empty file gives no records and no error, and the cursor is unchanged |
| Indexing.IndexFirst | opttechsort.py:112-117 | a non-empty file's first entry starts at 0, whatever its first bytes; if those fields do not decode, indexing fails with that error and no entries |
| Indexing.IndexFromShape | opttechsort.py:109-126 | every entry holds the decoding of its own fields and starts within the file; each entry starts after the position at which the previous record's field reads left the scan; the first entry starts at 0 |
| Indexing.ShapedCons | opttechsort.py:109-126 | a decoded record placed before the entries the scan finds after its field reads keeps them shaped |
| Indexing.IndexPositionsIncrease | opttechsort.py:109-126 | entry positions strictly increase |
| Indexing.IndexAfterDelimiterByte | opttechsort.py:113-119 | every entry but the first starts right after a byte equal to the delimiter's last byte |
| Indexing.IndexDelimited | opttechsort.py:113-123 | every entry after the second starts right after a contiguous occurrence of the whole delimiter that lies beyond where the scan resumed; the second entry does too when the first byte leaves the matcher at 0 |
| Indexing.IndexFromNext | opttechsort.py:113-126 | what the scan from a position finds is decided by the first delimiter completion after it: none gives no entry and no error; a completion whose record does not decode gives that error; otherwise the first entry starts right after the first completion, followed by what the scan resumed after its field reads, with the cursor at 0, finds |
| Indexing.IndexSuffix | opttechsort.py:113-126 | what the pass finds after entry k is what the scan from that entry's resume point finds, with the cursor the first byte left after entry 0 and 0 after any later one |
| Indexing.IndexNextStart | opttechsort.py:113-126 | each entry after the first starts right after the first delimiter completion the scan meets after the previous entry's resume point, so no completion between entries is skipped |
| Indexing.IndexEnd | opttechsort.py:113-126 | after the last entry, the pass ends without an error exactly when no delimiter completion follows its resume point; with an error, it is the decoding error of the record after the first such completion |
| Indexing.IndexFromEnd | opttechsort.py:113-126 | a scan that records nothing ends without an error exactly when it meets no delimiter completion, and otherwise with the decoding error of the record after the first completion |
| Indexing.FirstCompletionStarts | opttechsort.py:113-126 | when the first completion after a position ends at byte i and the record at i + 1 decodes, the scan from that position records that record first |
| Indexing.NoCompletionEnds | opttechsort.py:113-126 | with no completion after a position, the scan from it records nothing and ends without an error |
| Indexing.FirstRecordCarriesProgress | opttechsort.py:112-126 | with delimiter `??`, the data `?AB?CD` and one 3-byte field, a second record is found at offset 4 although no two consecutive `?` occur |
| Types.Factor | opttechsort.py:193-196 | the order factor is 1 or -1, and 1 exactly for ascending |
| Ordering.Scaled | opttechsort.py:132-133 | `order * value` keeps the value's kind |
| Ordering.Key | opttechsort.py:132-133 | the key has one component per field of the record, that field's value times its order |
| Ordering.StrLess | opttechsort.py:135 | Python's comparison of two strings, character by character with a proper prefix first; a strict total order through `KeyLessIrreflexive`, `KeyLessTransitive` and `KeyLessTotal` |
| Ordering.ValueLess | opttechsort.py:135 | the comparison of two key components: integers by value, texts by `StrLess` |
| Ordering.KeyLess | opttechsort.py:135 | Python's comparison of two key lists, which `sorted` uses: lexicographic by `ValueLess`, a proper prefix first (`KeyFirstDifference`) |
| Ordering.KeyLessIrreflexive | opttechsort.py:135 | no key is below itself |
| Ordering.KeyLessTransitive | opttechsort.py:135 | the key order is transitive |
| Ordering.KeyLessTotal | opttechsort.py:135 | of two distinct keys, one is below the other |
| Ordering.KeyFirstDifference | opttechsort.py:135 | keys compare at their first differing component |
| Ordering.Insert | opttechsort.py:135 | insertion adds exactly the one record |
| Ordering.SortRecords | opttechsort.py:135 | the sorted records still fit the field specs |
| Ordering.SortIsPermutation | opttechsort.py:135 | the sorted list is a permutation of the records |
| Ordering.InsertSorted | opttechsort.py:135 | inserting into a key-ordered list keeps it key-ordered |
| Ordering.SortIsSorted | opttechsort.py:135 | no record in the sorted list is followed by one with a smaller key |
| Ordering.InsertStable | opttechsort.py:135 | an inserted record comes after every record with its key |
| Ordering.SortIsStable | opttechsort.py:135 | for every key, the records with that key keep their relative order |
| Ordering.DescendingIntField | opttechsort.py:132-133 | at the first differing field, a descending integer field puts the larger value first |
| Ordering.AscendingField | opttechsort.py:132-133 | at the first differing field, an ascending field puts the smaller value first |
| Ordering.DescendingTextIgnored | opttechsort.py:132-133 | records that differ only in descending text fields have equal keys, so they are never reordered relative to each other |
| Emit.Copy | opttechsort.py:65-86 | the matcher's cursor stays within the delimiter throughout a record's copy |
| Emit.CopySplits | opttechsort.py:65-86 | only bytes from the record's start on are read. They are split, in order, into the bytes written and the held-back delimiter bytes. A completed delimiter stops the copy right after its last byte, with the cursor at 0. Otherwise the copy reads to the end of the file, and the cursor's progress is kept |
| Emit.CopyDelimiter | opttechsort.py:73-78 | the delimiter's remaining bytes, met in a row, are held back and end the record |
| Emit.CopyPlain | opttechsort.py:65-86 | from cursor 0, content without the delimiter's first byte is written unchanged; then a following delimiter, or the end of the file, ends the copy with the cursor at 0 |
| Emit.CopyMatchesSubsequence | opttechsort.py:71-86 | with delimiter [1, 2], the bytes [1, 9, 2] end a record in the copy pass, and only the 9 is written, while the indexing scan finds no delimiter in them |
| Emit.CopyByte | opttechsort.py:71-86 | one pass of the loop: at the end of the input nothing changes; a byte other than `current_byte` (`CurrentByte`) is written with the cursor kept; the expected byte is fed, not written, and reports whether it completed the delimiter. The flush at lines 80-83, guarded by `has_progress` (`HasProgress`, the cursor not at 0), is proved unreachable |
| Emit.CopyProgressStep | opttechsort.py:71-86 | after one more byte, the copy is still made up of what was written and what remains (written, held back, or stopping on a completed delimiter) |
| Emit.WriteRecord | opttechsort.py:65-86 | the method appends exactly the bytes `Copy` writes. The tracker is left at `Copy`'s cursor and the input after the last byte read |
| Emit.CursorAfter | opttechsort.py:139-149 | the cursor threaded through the copies of several records stays within the delimiter |
| Emit.Pieces | opttechsort.py:139-149 | copying r records gives r pieces |
| Emit.PiecesStep | opttechsort.py:143-144 | copying one more record adds its copy as the last piece and moves the cursor to where that copy left it |
| Emit.JoinSep | opttechsort.py:143-149 | the records' copies with the delimiter between consecutive ones; stated by `JoinSepLength` and `JoinSepAppend` |
| Emit.JoinSepLength | opttechsort.py:139-149 | r pieces are joined by exactly r - 1 delimiters, with nothing else added; no pieces give no bytes |
| Emit.JoinSepAppend | opttechsort.py:143-149 | one more piece is written after a delimiter, unless it is the first |
| Pipeline.IndexFits | opttechsort.py:120-126 | every indexed record has exactly as many values as there are field specs, so its key is defined |
| Pipeline.ReadFields | opttechsort.py:120-125 | the field loop, a `seek` and a `read` per spec, gives `DecodeFields`: the record's decoded fields, or the first field's error; it leaves the position at the end of the last field read |
| Pipeline.WriteDelimiter | opttechsort.py:147-149 | the delimiter's bytes are appended in order |
| Pipeline.Records.constructor | opttechsort.py:89-94 | a new `Records` has no records |
| Pipeline.Records.Append | opttechsort.py:97-98 | the record is added at the end of the list, and nothing else changes |
| Pipeline.Records.Populate | opttechsort.py:109-126 | the entries of the indexing pass `Index` are appended, and then its decoding error, if any, is reported; the tracker is left at the pass's final cursor. The first record is recognised by `tell()` (`Tell`) being 0, and later starts are the position `tell()` gives after the completing byte |
| Pipeline.Records.Sort | opttechsort.py:130-135 | the records are replaced by their stable sort by key |
| Pipeline.CopyAll | opttechsort.py:143-149 | the loop over the records writes the delimiter-joined copies, threading the cursor |
| Pipeline.JoinStep | opttechsort.py:143-149 | one more record appends the delimiter (unless it is the first) and that record's copy to the joined output |
| Pipeline.Records.WriteRecords | opttechsort.py:139-149 | the output is every record's copy, in list order, with the delimiter between consecutive records and after none other, the cursor threaded from record to record; the records are unchanged |
| Pipeline.Records.Run | opttechsort.py:102-105 | a decoding error stops the run after indexing, with the output untouched. Otherwise the records are the sorted indexed records, and the output is their copies joined by the delimiter. The copy pass starts from the cursor indexing left |
| Config.DecimalToByte | opttechsort.py:179-180 | a number becomes the one byte of that value, and numbers above 255 are refused |
| Config.PositiveDecimal | opttechsort.py:199-204 | a position or length is accepted exactly when it is a decimal string denoting a number above 0 |
| Config.ParseGroup | opttechsort.py:198-216 | a group of four arguments is valid exactly when its position and length are positive decimals, its type is C or N and its order is A or D; a refused group gives the error of the first check it fails, in the order position, length, type, order |
| Config.SortArguments | opttechsort.py:187-188 | a count of arguments that is not a multiple of four is refused before anything else |
| Config.ValidateSortArguments | opttechsort.py:186-217 | the loop over the groups of four gives `SortArguments`: the specs in group order, or the first error |
| Config.ParseGroups | opttechsort.py:197-216 | the `for` loop over the groups as a function; stated by `ParseGroupsSucceeds`, `ParseGroupsValues` and `FirstBadGroup` |
| Config.ParseGroupsSucceeds | opttechsort.py:198-210 | the groups validate exactly when every group is valid |
| Config.ParseGroupsValues | opttechsort.py:197-217 | a successful validation gives one spec per group, in group order |
| Config.SortArgumentsMeaning | opttechsort.py:186-217 | validation succeeds exactly when the count is a multiple of four and every group is valid, and it then gives `len(args)/4` specs in group order |
| Config.GroupMeaning | opttechsort.py:189-216 | a spec's offset is its position minus 1, its length is the given length (above 0), C means text and otherwise integer, A means ascending and otherwise descending |
| Config.FirstBadGroup | opttechsort.py:198-210 | the first invalid group decides the error |
| Config.GroupRoundTrip | opttechsort.py:198-216 | a spec with a non-empty field is what its own four arguments validate to |
| Config.SortArgumentsRoundTrip | opttechsort.py:186-217 | specs with non-empty fields are what their rendered arguments validate to |
| Config.FirstNonDecimal | opttechsort.py:168-173 | the first item that is not a decimal string, with every earlier item decimal |
| Config.ToBytes | opttechsort.py:174-180 | the items convert exactly when each is below 256, and then give their values in order |
| Config.FiletypeBytes | opttechsort.py:165-176 | an unknown type is refused first; then the first non-decimal end-of-record item, then the first non-decimal end-of-file item |
| Config.FiletypeMeaning | opttechsort.py:165-176 | `filetype` succeeds exactly for the type `gp` with both lists made of decimal bytes, and then gives those bytes in order |
| Config.FiletypeRoundTrip | opttechsort.py:165-180 | any two byte lists, spelled in decimal, are what `filetype` gives back |
| Config.NegativeByteRefused | opttechsort.py:168-170 | a negative end-of-record item is refused as not decimal |
| Config.Filetype | opttechsort.py:165-176 | two new trackers over the converted byte lists, with their cursors at 0, or `FiletypeBytes`'s error |

## Left out

- The command-line layer (`command`, `regex_args`, `test_sort`, the main block) and the `__str__` methods. They do parsing, printing and fixed file names, not sorting.
- Files are represented by their contents; opening, closing and I/O failures are not modelled. The output starts empty, as opening it with `"wb"` truncates it.
- Exceptions are modelled as error results. A decoding error during indexing keeps the records appended before it and stops `Run`; the process ends there.
- Decode.DecodeText: only ASCII is modelled. Valid UTF-8 beyond ASCII, which `str(bytes, "utf-8")` accepts, is refused.
- Decode.DecodeInt: only plain ASCII digit strings are modelled. The whitespace, signs and underscores that `int()` also accepts are refused.
- Decode.ParseDecimal: `str.isdecimal` is restricted to ASCII digits. Non-ASCII decimal digits are not modelled.
- Ordering.ValueLess: an integer and a text in the same key position raise `TypeError` in the source; the model orders the integer first. Indexed records never mix kinds in one position, because each field has one type.
- Ordering.Key: a record with more fields than field specs makes the source raise `IndexError`; the model excludes such records by a precondition here and on `Sort`.
- Ordering.SortRecords: the sort is an insertion sort, not Python's own. Both are stable sorts by the same key, and stable sorts give the same result.
- Tracker.ByteTracker.Valid: an empty delimiter makes the source raise `IndexError` on its first byte; the model requires a non-empty one wherever the tracker is used.
- Config.ToBytes: the failure is stated to name one of the items that is too large, not specifically the first.
- Config.Filetype: the end-of-file tracker is built but nothing uses it. The default arguments of `filetype` are not modelled: they are integers, which cannot be iterated.
- Emit.CopyByte: the flush of held-back bytes (lines 80-83) is not modelled as code, because it can never run; its branch holds `assert false` instead.
