/** `Records`: the three-step sort of a record file (index, sort, copy out).
    The module is called `Pipeline` rather than `Records` so that the class
    `Records` it holds keeps the source's name without being written
    `Records.Records`. The input and output files are represented by their
    contents. */
module Pipeline {
  import opened Types
  import opened Tracker
  import opened Files
  import opened Decode
  import opened Indexing
  import opened Ordering
  import opened Emit

  /** Entries found by indexing hold one value per field spec. */
  lemma IndexFits(d: seq<Byte>, specs: seq<FieldSpec>, data: seq<Byte>, c: nat)
    requires c < |d|
    ensures Fits(Index(d, specs, data, c).entries, specs)
  {
    var es := Index(d, specs, data, c).entries;
    IndexFromShape(d, specs, data, 0, c, true);
    forall k | 0 <= k < |es| ensures |es[k].fields| <= |specs| {
      DecodeFieldsLength(data, specs, es[k].position, es[k].fields);
    }
  }

  lemma FitsAppend(a: seq<Record>, b: seq<Record>, specs: seq<FieldSpec>)
    requires Fits(a, specs) && Fits(b, specs)
    ensures Fits(a + b, specs)
  {
    forall i | 0 <= i < |a + b| ensures |(a + b)[i].fields| <= |specs| {
      if i >= |a| {
        assert (a + b)[i] == b[i - |a|];
      }
    }
  }

  /** One step of the indexing pass on a byte that starts a record at `start`. */
  lemma IndexRecord(d: seq<Byte>, specs: seq<FieldSpec>, data: seq<Byte>, pos: nat, c: nat, first: bool,
                    start: nat, acc: seq<Record>)
    requires c < |d| && pos < |data| && (first ==> pos == 0)
    requires Feed(d, c, data[pos]).matched || first
    requires start == if first then 0 else pos + 1
    ensures var fed := Feed(d, c, data[pos]);
      match DecodeFields(data, specs, start)
      case Failure(e) => IndexFrom(d, specs, data, pos, c, first) == Indexed([], Some(e), fed.cursor)
      case Success(vs) =>
        Then(acc, IndexFrom(d, specs, data, pos, c, first)) ==
        Then(acc + [Record(start, vs)], IndexFrom(d, specs, data, AfterFields(data, specs, start, pos + 1), fed.cursor, false))
  {
    IndexStart(d, specs, data, pos, c, first);
    var dec := DecodeFields(data, specs, start);
    if dec.Success? {
      var rest := IndexFrom(d, specs, data, AfterFields(data, specs, start, pos + 1), Feed(d, c, data[pos]).cursor, false);
      ConcatAssociative(acc, [Record(start, dec.value)], rest.entries);
    }
  }

  /** Reading field `i` extends the decoded prefix by that field's value,
      or fails with its error, and leaves the file after that field. */
  lemma ReadFieldStep(data: seq<Byte>, specs: seq<FieldSpec>, start: nat, i: nat, pos: nat)
    requires i < |specs|
    ensures var f := specs[i];
      var t := TypeCast(f.kind, FieldBytes(data, start, f));
      && AfterFields(data, specs[..i + 1], start, pos) == Files.ReadEnd(data, start + f.position, f.length)
      && DecodeFields(data, specs[..i + 1], start) ==
        match DecodeFields(data, specs[..i], start)
        case Failure(e) => Failure(e)
        case Success(vs) => if t.Failure? then Failure(t.error) else Success(vs + [t.value])
  {
    assert specs[..i + 1][..i] == specs[..i];
  }

  /** The field reads of one record in `populate`: each field is read at its
      offset from `start` and decoded; the first field that fails stops the
      reads with its error. */
  method ReadFields(f: InputFile, specs: seq<FieldSpec>, start: nat) returns (r: Result<seq<Value>, DecodeError>)
    modifies f
    ensures r == DecodeFields(f.data, specs, start)
    ensures r.Success? ==> f.pos == AfterFields(f.data, specs, start, old(f.pos))
  {
    var fields: seq<Value> := [];
    var i := 0;
    while i < |specs|
      invariant 0 <= i <= |specs|
      invariant DecodeFields(f.data, specs[..i], start) == Success(fields)
      invariant f.pos == AfterFields(f.data, specs[..i], start, old(f.pos))
    {
      var rf := specs[i];
      f.Seek(start + rf.position);
      var bytes := f.Read(rf.length);
      assert bytes == FieldBytes(f.data, start, rf);
      var v := TypeCast(rf.kind, bytes);
      ReadFieldStep(f.data, specs, start, i, old(f.pos));
      if v.Failure? {
        DecodeFailureSticks(f.data, specs, start, i + 1);
        return Failure(v.error);
      }
      fields := fields + [v.value];
      i := i + 1;
    }
    assert specs[..i] == specs;
    return Success(fields);
  }

  /** The delimiter written out byte by byte between two records. */
  method WriteDelimiter(fout: OutputFile, bs: seq<Byte>)
    modifies fout
    ensures fout.contents == old(fout.contents) + bs
  {
    for j := 0 to |bs|
      invariant fout.contents == old(fout.contents) + bs[..j]
    {
      assert bs[..j + 1] == bs[..j] + [bs[j]];
      fout.Write([bs[j]]);
    }
    assert bs[..|bs|] == bs;
  }

  /** Copying one more record adds, after the delimiter when it is not the
      first, that record's copy to the joined output. */
  lemma JoinStep(d: seq<Byte>, data: seq<Byte>, recs: seq<Record>, c: nat, k: nat)
    requires c < |d| && k < |recs|
    ensures var r := Copy(d, data, recs[k].position, CursorAfter(d, data, recs[..k], c));
      && JoinSep(Pieces(d, data, recs[..k + 1], c), d) ==
        JoinSep(Pieces(d, data, recs[..k], c), d) + (if 0 < k then d else []) + r.out
      && CursorAfter(d, data, recs[..k + 1], c) == r.cursor
  {
    var ps := Pieces(d, data, recs[..k], c);
    var r := Copy(d, data, recs[k].position, CursorAfter(d, data, recs[..k], c));
    PiecesStep(d, data, recs, c, k);
    JoinSepAppend(ps, r.out, d);
    if k == 0 {
      assert JoinSep(ps, d) == [];
    }
  }

  /** The loop of `write_records` over `recs`, copying from `fin` to `fout`. */
  method CopyAll(recs: seq<Record>, fin: InputFile, fout: OutputFile, tracker: ByteTracker)
    requires tracker.Valid() && fout.contents == []
    modifies fin, fout, tracker
    ensures tracker.Valid()
    ensures var d := tracker.bytes;
      fout.contents == JoinSep(Pieces(d, fin.data, recs, old(tracker.cursor)), d) &&
      tracker.cursor == CursorAfter(d, fin.data, recs, old(tracker.cursor))
  {
    ghost var d := tracker.bytes;
    ghost var c0 := tracker.cursor;
    var i := 0;
    for k := 0 to |recs|
      invariant i == k
      invariant tracker.Valid() && tracker.bytes == d
      invariant fout.contents ==
        JoinSep(Pieces(d, fin.data, recs[..k], c0), d) + (if 0 < k < |recs| then d else [])
      invariant tracker.cursor == CursorAfter(d, fin.data, recs[..k], c0)
    {
      JoinStep(d, fin.data, recs, c0, k);
      WriteRecord(recs[k], fin, fout, tracker);
      i := i + 1;
      if i != |recs| {
        WriteDelimiter(fout, tracker.bytes);
      }
    }
    assert recs[..|recs|] == recs;
  }

  class Records {
    /** The contents of the input file. */
    const input: seq<Byte>
    /** The contents of the output file. */
    var output: seq<Byte>
    /** The end-of-record matcher, shared by indexing and copying. */
    const eorTracker: ByteTracker
    /** The sort fields, in priority order. */
    const recordFields: seq<FieldSpec>
    /** The records found so far, in list order. */
    var records: seq<Record>

    constructor (input: seq<Byte>, eorTracker: ByteTracker, recordFields: seq<FieldSpec>)
      ensures this.input == input && this.eorTracker == eorTracker && this.recordFields == recordFields
      ensures records == [] && output == []
    {
      this.input := input;
      this.eorTracker := eorTracker;
      this.recordFields := recordFields;
      records := [];
      output := [];
    }

    /** `append`: adds a record at the end of the list. */
    method Append(position: nat, fields: seq<Value>)
      modifies this
      ensures records == old(records) + [Record(position, fields)]
      ensures output == old(output)
    {
      records := records + [Record(position, fields)];
    }

    /** `populate`: appends the records the indexing pass finds in the input;
        a field that does not decode stops it with that field's error. */
    method Populate() returns (err: Option<DecodeError>)
      requires eorTracker.Valid()
      modifies this, eorTracker
      ensures eorTracker.Valid()
      ensures var r := Index(eorTracker.bytes, recordFields, input, old(eorTracker.cursor));
        records == old(records) + r.entries && err == r.error && eorTracker.cursor == r.cursor
      ensures output == old(output)
    {
      ghost var d := eorTracker.bytes;
      eorTracker.Reset();
      ghost var whole := Index(d, recordFields, input, eorTracker.cursor);
      var f := new InputFile.Open(input);
      var firstRecord := f.Tell() == 0;
      while true
        invariant eorTracker.Valid() && eorTracker.bytes == d
        invariant f.data == input && (firstRecord ==> f.pos == 0)
        invariant output == old(output)
        invariant Then(records, IndexFrom(d, recordFields, input, f.pos, eorTracker.cursor, firstRecord)) ==
          Then(old(records), whole)
        decreases |input| - f.pos, if firstRecord then 1 else 0
      {
        ghost var pos := f.pos;
        ghost var first := firstRecord;
        ghost var c := eorTracker.cursor;
        var chunk := f.Read(1);
        if chunk == [] {
          assert IndexFrom(d, recordFields, input, pos, c, first) == Indexed([], None, c);
          break;
        }
        assert pos < |input| && chunk == [input[pos]] && f.pos == pos + 1;
        var b := chunk[0];
        var matched := eorTracker.GotAllBytes(b);
        assert Feed(d, c, input[pos]) == Fed(eorTracker.cursor, matched);
        if !(matched || firstRecord) {
          IndexSkip(d, recordFields, input, pos, c, first);
        }
        if matched || firstRecord {
          IndexRecord(d, recordFields, input, pos, c, first, if first then 0 else pos + 1, records);
          var start: nat;
          if firstRecord {
            start := 0;
            firstRecord := false;
          } else {
            start := f.Tell();
          }
          var fields := ReadFields(f, recordFields, start);
          if fields.Failure? {
            err := Some(fields.error);
            return;
          }
          Append(start, fields.value);
        }
      }
      err := None;
    }

    /** `sort`: orders the records by their keys, stably. */
    method Sort()
      requires Fits(records, recordFields)
      modifies this
      ensures records == SortRecords(old(records), recordFields)
      ensures output == old(output)
    {
      records := SortRecords(records, recordFields);
    }

    /** `write_records`: the output file is rewritten with every record's
        copy, in list order, the delimiter written out after each record but
        the last. */
    method WriteRecords()
      requires eorTracker.Valid()
      modifies this, eorTracker
      ensures eorTracker.Valid()
      ensures var d := eorTracker.bytes;
        output == JoinSep(Pieces(d, input, records, old(eorTracker.cursor)), d) &&
        eorTracker.cursor == CursorAfter(d, input, records, old(eorTracker.cursor))
      ensures records == old(records)
    {
      var fin := new InputFile.Open(input);
      var fout := new OutputFile.Create();
      CopyAll(records, fin, fout, eorTracker);
      output := fout.contents;
    }

    /** `run`: index, then sort, then copy out; a decoding error stops the
        run after indexing, with the output untouched. */
    method Run() returns (err: Option<DecodeError>)
      requires eorTracker.Valid() && Fits(records, recordFields)
      modifies this, eorTracker
      ensures var d := eorTracker.bytes;
        var found := Index(d, recordFields, input, old(eorTracker.cursor));
        && err == found.error
        && (err.Some? ==> records == old(records) + found.entries && output == old(output))
        && (err.None? ==>
              Fits(old(records) + found.entries, recordFields) &&
              records == SortRecords(old(records) + found.entries, recordFields) &&
              output == JoinSep(Pieces(d, input, records, found.cursor), d))
    {
      IndexFits(eorTracker.bytes, recordFields, input, eorTracker.cursor);
      ghost var found := Index(eorTracker.bytes, recordFields, input, eorTracker.cursor);
      err := Populate();
      if err.Some? {
        return;
      }
      FitsAppend(old(records), found.entries, recordFields);
      Sort();
      WriteRecords();
    }
  }
}
