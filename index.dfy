/** The indexing pass (`Records.populate`) as a function of the input bytes:
    record 0 starts at offset 0, every later record starts just after a byte
    on which the matcher reports a complete delimiter, and after each start
    the fields are read, so that scanning resumes where the last field read
    left the file position. */
module Indexing {
  import opened Types
  import opened Tracker
  import Files
  import opened Decode

  /** What indexing produced: the entries appended (up to a decoding error,
      if one stopped it), that error, and the matcher's cursor at the end. */
  datatype Indexed = Indexed(entries: seq<Record>, error: Option<DecodeError>, cursor: nat)

  /** The file position after the field reads of a record starting at
      `start`; `pos` is the position before them (just after the byte that
      started the record). */
  function AfterFields(data: seq<Byte>, specs: seq<FieldSpec>, start: nat, pos: nat): (q: nat)
    ensures specs == [] ==> q == pos
    ensures specs != [] ==> q >= start + specs[|specs| - 1].position
    ensures specs != [] ==> q == start + specs[|specs| - 1].position + |FieldBytes(data, start, specs[|specs| - 1])|
    ensures specs != [] && start + specs[|specs| - 1].position + specs[|specs| - 1].length <= |data| ==>
      q == start + specs[|specs| - 1].position + specs[|specs| - 1].length
  {
    if specs == [] then pos
    else
      var f := specs[|specs| - 1];
      Files.ReadEnd(data, start + f.position, f.length)
  }

  /** Where scanning resumes after the record starting at `start`: only the
      first record starts at 0, and its starting byte is the one at offset 0. */
  function ScanResume(data: seq<Byte>, specs: seq<FieldSpec>, start: nat): (q: nat)
    ensures q >= start
    ensures specs == [] ==> q == (if start == 0 then 1 else start)
    ensures specs != [] ==> q == start + specs[|specs| - 1].position + |FieldBytes(data, start, specs[|specs| - 1])|
    ensures specs != [] && start + specs[|specs| - 1].position + specs[|specs| - 1].length <= |data| ==>
      q == start + specs[|specs| - 1].position + specs[|specs| - 1].length
  {
    AfterFields(data, specs, start, if start == 0 then 1 else start)
  }

  /** The rest of the `populate` loop from file position `pos`, matcher cursor
      `c`, and `first` still set when no record has started yet. */
  function IndexFrom(d: seq<Byte>, specs: seq<FieldSpec>, data: seq<Byte>, pos: nat, c: nat, first: bool): (r: Indexed)
    requires c < |d|
    requires first ==> pos == 0
    ensures r.cursor < |d|
    decreases |data| - pos, if first then 1 else 0
  {
    if pos >= |data| then Indexed([], None, c)
    else
      var fed := Feed(d, c, data[pos]);
      if fed.matched || first then
        var start := if first then 0 else pos + 1;
        match DecodeFields(data, specs, start)
        case Failure(e) => Indexed([], Some(e), fed.cursor)
        case Success(vs) =>
          var rest := IndexFrom(d, specs, data, AfterFields(data, specs, start, pos + 1), fed.cursor, false);
          Indexed([Record(start, vs)] + rest.entries, rest.error, rest.cursor)
      else
        IndexFrom(d, specs, data, pos + 1, fed.cursor, false)
  }

  /** The whole indexing pass over `data`, with the matcher's cursor at `c`. */
  function Index(d: seq<Byte>, specs: seq<FieldSpec>, data: seq<Byte>, c: nat): (r: Indexed)
    requires c < |d|
  {
    IndexFrom(d, specs, data, 0, c, true)
  }

  /** Entries found so far followed by what the rest of the pass finds. */
  function Then(acc: seq<Record>, r: Indexed): Indexed
  {
    Indexed(acc + r.entries, r.error, r.cursor)
  }

  /** An empty file has no records and nothing to decode. */
  lemma IndexEmpty(d: seq<Byte>, specs: seq<FieldSpec>, c: nat)
    requires c < |d|
    ensures Index(d, specs, [], c) == Indexed([], None, c)
  {
  }

  /** A non-empty file's first entry starts at 0 and holds the fields read
      there, whatever its first bytes are; if those fields do not decode,
      indexing stops at once with no entry. */
  lemma IndexFirst(d: seq<Byte>, specs: seq<FieldSpec>, data: seq<Byte>, c: nat)
    requires c < |d| && data != []
    ensures var r := Index(d, specs, data, c);
      match DecodeFields(data, specs, 0)
      case Success(vs) => |r.entries| > 0 && r.entries[0] == Record(0, vs)
      case Failure(e) => r.entries == [] && r.error == Some(e)
  {
  }

  /** Every entry holds the decoded values of its own fields and starts
      within the file, and each entry starts after the position at which the
      field reads of the one before it left the scan. */
  ghost predicate Shaped(specs: seq<FieldSpec>, data: seq<Byte>, es: seq<Record>)
  {
    && (forall k :: 0 <= k < |es| ==> DecodeFields(data, specs, es[k].position) == Success(es[k].fields))
    && (forall k :: 0 <= k < |es| ==> es[k].position <= |data|)
    && Spaced(specs, data, es)
  }

  /** Each entry starts after the position at which the field reads of the
      one before it left the scan. */
  ghost predicate Spaced(specs: seq<FieldSpec>, data: seq<Byte>, es: seq<Record>)
  {
    forall k :: 0 <= k < |es| - 1 ==> ScanResume(data, specs, es[k].position) < es[k + 1].position
  }

  lemma ShapedCons(specs: seq<FieldSpec>, data: seq<Byte>, e: Record, es: seq<Record>)
    requires Shaped(specs, data, es)
    requires DecodeFields(data, specs, e.position) == Success(e.fields) && e.position <= |data|
    requires es != [] ==> ScanResume(data, specs, e.position) < es[0].position
    ensures Shaped(specs, data, [e] + es)
  {
    var all := [e] + es;
    forall k | 0 <= k < |all|
      ensures DecodeFields(data, specs, all[k].position) == Success(all[k].fields) && all[k].position <= |data|
    {
      if k > 0 {
        assert all[k] == es[k - 1];
      }
    }
    forall k | 0 <= k < |all| - 1
      ensures ScanResume(data, specs, all[k].position) < all[k + 1].position
    {
      assert all[k + 1] == es[k];
      if k > 0 {
        assert all[k] == es[k - 1];
      }
    }
  }

  /** The entries the pass finds from `pos` are shaped, and the first one
      starts at 0 on the first record and after `pos` otherwise. */
  lemma {:induction false} IndexFromShape(d: seq<Byte>, specs: seq<FieldSpec>, data: seq<Byte>, pos: nat, c: nat, first: bool)
    requires c < |d|
    requires first ==> pos == 0
    ensures var es := IndexFrom(d, specs, data, pos, c, first).entries;
      && Shaped(specs, data, es)
      && (es != [] ==> if first then es[0].position == 0 else es[0].position > pos)
    decreases |data| - pos, if first then 1 else 0
  {
    if pos < |data| {
      var fed := Feed(d, c, data[pos]);
      if fed.matched || first {
        var start := if first then 0 else pos + 1;
        if DecodeFields(data, specs, start).Success? {
          var vs := DecodeFields(data, specs, start).value;
          var next := AfterFields(data, specs, start, pos + 1);
          assert next == ScanResume(data, specs, start);
          var rest := IndexFrom(d, specs, data, next, fed.cursor, false);
          assert IndexFrom(d, specs, data, pos, c, first).entries == [Record(start, vs)] + rest.entries;
          IndexFromShape(d, specs, data, next, fed.cursor, false);
          ShapedCons(specs, data, Record(start, vs), rest.entries);
        }
      } else {
        IndexSkip(d, specs, data, pos, c, first);
        IndexFromShape(d, specs, data, pos + 1, fed.cursor, false);
      }
    }
  }

  /** Positions strictly increase in discovery order. */
  lemma IndexPositionsIncrease(d: seq<Byte>, specs: seq<FieldSpec>, data: seq<Byte>, c: nat, k: nat, l: nat)
    requires c < |d|
    requires k < l < |Index(d, specs, data, c).entries|
    ensures Index(d, specs, data, c).entries[k].position < Index(d, specs, data, c).entries[l].position
  {
    IndexFromShape(d, specs, data, 0, c, true);
    ShapedIncreasing(specs, data, Index(d, specs, data, c).entries, k, l);
  }

  lemma ShapedIncreasing(specs: seq<FieldSpec>, data: seq<Byte>, es: seq<Record>, k: nat, l: nat)
    requires Spaced(specs, data, es) && k < l < |es|
    ensures es[k].position < es[l].position
  {
    var j := k;
    while j < l
      invariant k <= j <= l
      invariant es[k].position <= es[j].position
      invariant j > k ==> es[k].position < es[j].position
    {
      assert ScanResume(data, specs, es[j].position) < es[j + 1].position;
      j := j + 1;
    }
  }

  /** One step of the indexing pass on a byte that starts a record. */
  lemma IndexStart(d: seq<Byte>, specs: seq<FieldSpec>, data: seq<Byte>, pos: nat, c: nat, first: bool)
    requires c < |d| && pos < |data| && (first ==> pos == 0)
    requires Feed(d, c, data[pos]).matched || first
    ensures var fed := Feed(d, c, data[pos]);
      var start := if first then 0 else pos + 1;
      var r := IndexFrom(d, specs, data, pos, c, first);
      match DecodeFields(data, specs, start)
      case Failure(e) => r == Indexed([], Some(e), fed.cursor)
      case Success(vs) =>
        var rest := IndexFrom(d, specs, data, AfterFields(data, specs, start, pos + 1), fed.cursor, false);
        r == Indexed([Record(start, vs)] + rest.entries, rest.error, rest.cursor)
  {
  }

  /** One step of the indexing pass on a byte that starts no record. */
  lemma IndexSkip(d: seq<Byte>, specs: seq<FieldSpec>, data: seq<Byte>, pos: nat, c: nat, first: bool)
    requires c < |d| && pos < |data| && (first ==> pos == 0)
    requires !(Feed(d, c, data[pos]).matched || first)
    ensures IndexFrom(d, specs, data, pos, c, first) == IndexFrom(d, specs, data, pos + 1, Feed(d, c, data[pos]).cursor, false)
  {
  }

  /** The start `p` of a record found by scanning from `r` is preceded by
      the delimiter's tail inside what was scanned. */
  ghost predicate StartAfterTail(d: seq<Byte>, data: seq<Byte>, r: nat, p: nat)
  {
    r < p <= |data| && |d| > 0 && Tail(d, data[r..p], |d|)
  }

  /** The start `p` of the record after the one starting at `prev` follows a
      complete delimiter, which lies wholly after the bytes the field reads
      of the record at `prev` covered. */
  ghost predicate StartAfterDelimiter(d: seq<Byte>, specs: seq<FieldSpec>, data: seq<Byte>, prev: nat, p: nat)
  {
    ScanResume(data, specs, prev) + |d| <= p <= |data| && data[p - |d|..p] == d
  }

  /** A start found by scanning from `r` with cursor 0 follows the whole delimiter. */
  lemma TailFromZero(d: seq<Byte>, specs: seq<FieldSpec>, data: seq<Byte>, prev: nat, p: nat)
    requires StartAfterTail(d, data, ScanResume(data, specs, prev), p)
    requires p >= ScanResume(data, specs, prev) + |d|
    ensures StartAfterDelimiter(d, specs, data, prev, p)
  {
    var r := ScanResume(data, specs, prev);
    assert data[r..p][p - r - |d|..] == data[p - |d|..p];
  }

  /** The first start found by scanning from `pos` with cursor `c`, when the
      bytes scanned since `r` are consistent with `c`, follows the
      delimiter's tail; the whole delimiter when `c` did not exceed them. */
  lemma {:induction false} FirstStartAfterTail(d: seq<Byte>, specs: seq<FieldSpec>, data: seq<Byte>, pos: nat, c: nat, r: nat)
    requires c < |d| && r <= pos
    requires pos <= |data| ==> Tail(d, data[r..pos], c)
    ensures var es := IndexFrom(d, specs, data, pos, c, false).entries;
      es != [] ==> StartAfterTail(d, data, r, es[0].position) && (c <= pos - r ==> es[0].position >= r + |d|)
    decreases |data| - pos
  {
    if pos < |data| {
      var fed := Feed(d, c, data[pos]);
      if !fed.matched {
        TailStep(d, data, r, pos, c);
        IndexSkip(d, specs, data, pos, c, false);
        FirstStartAfterTail(d, specs, data, pos + 1, fed.cursor, r);
      } else {
        FirstStartMatched(d, specs, data, pos, c, r);
      }
    }
  }

  /** Feeding the byte at `pos` keeps the bytes scanned since `r` consistent
      with the cursor. */
  lemma TailStep(d: seq<Byte>, data: seq<Byte>, r: nat, pos: nat, c: nat)
    requires c < |d| && r <= pos < |data| && Tail(d, data[r..pos], c)
    ensures Tail(d, data[r..pos + 1], Feed(d, c, data[pos]).cursor)
    ensures Feed(d, c, data[pos]).matched ==> Tail(d, data[r..pos + 1], |d|)
  {
    FeedKeepsTail(d, data[r..pos], c, data[pos]);
    assert data[r..pos] + [data[pos]] == data[r..pos + 1];
  }

  /** A byte completing the delimiter starts the next record right after it. */
  lemma FirstStartMatched(d: seq<Byte>, specs: seq<FieldSpec>, data: seq<Byte>, pos: nat, c: nat, r: nat)
    requires c < |d| && r <= pos < |data| && Tail(d, data[r..pos], c)
    requires Feed(d, c, data[pos]).matched
    ensures var es := IndexFrom(d, specs, data, pos, c, false).entries;
      es != [] ==> StartAfterTail(d, data, r, es[0].position) && (c <= pos - r ==> es[0].position >= r + |d|)
  {
    TailStep(d, data, r, pos, c);
    IndexStart(d, specs, data, pos, c, false);
  }

  /** Every start in `es` after the first follows a complete delimiter
      after its predecessor's field bytes. */
  ghost predicate Chained(d: seq<Byte>, specs: seq<FieldSpec>, data: seq<Byte>, es: seq<Record>)
  {
    forall k :: 1 <= k < |es| ==> StartAfterDelimiter(d, specs, data, es[k - 1].position, es[k].position)
  }

  lemma ConsChained(d: seq<Byte>, specs: seq<FieldSpec>, data: seq<Byte>, e: Record, rest: seq<Record>)
    requires Chained(d, specs, data, rest)
    requires rest != [] ==> StartAfterDelimiter(d, specs, data, e.position, rest[0].position)
    ensures Chained(d, specs, data, [e] + rest)
  {
    var es := [e] + rest;
    forall k | 1 <= k < |es|
      ensures StartAfterDelimiter(d, specs, data, es[k - 1].position, es[k].position)
    {
      assert es[k] == rest[k - 1];
      if k >= 2 {
        assert es[k - 1] == rest[k - 2];
      }
    }
  }

  /** A record started at `pos + 1` when the byte at `pos` completed the
      delimiter: the entries are that record followed by what the scan from
      the end of its field reads finds, with the cursor back at 0. */
  lemma IndexFromMatched(d: seq<Byte>, specs: seq<FieldSpec>, data: seq<Byte>, pos: nat, c: nat)
    requires c < |d| && pos < |data| && Feed(d, c, data[pos]).matched
    requires DecodeFields(data, specs, pos + 1).Success?
    ensures IndexFrom(d, specs, data, pos, c, false).entries ==
      [Record(pos + 1, DecodeFields(data, specs, pos + 1).value)] +
      IndexFrom(d, specs, data, ScanResume(data, specs, pos + 1), 0, false).entries
  {
  }

  /** After a record started at `pos + 1`, the next start (if any) lies after
      the whole delimiter, the scan having resumed with the cursor at 0. */
  lemma NextAfterMatch(d: seq<Byte>, specs: seq<FieldSpec>, data: seq<Byte>, start: nat)
    requires |d| > 0
    ensures var rest := IndexFrom(d, specs, data, ScanResume(data, specs, start), 0, false).entries;
      rest != [] ==> StartAfterDelimiter(d, specs, data, start, rest[0].position)
  {
    var next := ScanResume(data, specs, start);
    assert next <= |data| ==> Tail(d, data[next..next], 0);
    FirstStartAfterTail(d, specs, data, next, 0, next);
    var rest := IndexFrom(d, specs, data, next, 0, false).entries;
    if rest != [] {
      TailFromZero(d, specs, data, start, rest[0].position);
    }
  }

  /** Every start after the first one found from `pos` follows a complete
      delimiter after its predecessor's field bytes. */
  lemma {:induction false} LaterStartsAfterDelimiter(d: seq<Byte>, specs: seq<FieldSpec>, data: seq<Byte>, pos: nat, c: nat)
    requires c < |d|
    ensures Chained(d, specs, data, IndexFrom(d, specs, data, pos, c, false).entries)
    decreases |data| - pos
  {
    if pos < |data| {
      var fed := Feed(d, c, data[pos]);
      if !fed.matched {
        LaterStartsAfterDelimiter(d, specs, data, pos + 1, fed.cursor);
      } else if DecodeFields(data, specs, pos + 1).Success? {
        IndexFromMatched(d, specs, data, pos, c);
        LaterStartsAfterDelimiter(d, specs, data, ScanResume(data, specs, pos + 1), 0);
        NextAfterMatch(d, specs, data, pos + 1);
        ConsChained(d, specs, data, Record(pos + 1, DecodeFields(data, specs, pos + 1).value),
          IndexFrom(d, specs, data, ScanResume(data, specs, pos + 1), 0, false).entries);
      }
    }
  }

  /** The first record starts at 0, and the scan for the next one resumes
      after its field reads with the cursor the byte at offset 0 left. */
  lemma IndexFromFirst(d: seq<Byte>, specs: seq<FieldSpec>, data: seq<Byte>, c: nat)
    requires c < |d| && data != [] && DecodeFields(data, specs, 0).Success?
    ensures Index(d, specs, data, c).entries ==
      [Record(0, DecodeFields(data, specs, 0).value)] +
      IndexFrom(d, specs, data, ScanResume(data, specs, 0), Feed(d, c, data[0]).cursor, false).entries
    ensures Index(d, specs, data, c) ==
      Then([Record(0, DecodeFields(data, specs, 0).value)],
        IndexFrom(d, specs, data, ScanResume(data, specs, 0), Feed(d, c, data[0]).cursor, false))
  {
  }

  /** The byte just before `p` is the delimiter's last byte. */
  ghost predicate AfterDelimiterByte(d: seq<Byte>, data: seq<Byte>, p: nat)
  {
    0 < p <= |data| && |d| > 0 && data[p - 1] == d[|d| - 1]
  }

  lemma TailEndsInLastByte(d: seq<Byte>, data: seq<Byte>, r: nat, p: nat)
    requires StartAfterTail(d, data, r, p)
    ensures AfterDelimiterByte(d, data, p)
  {
    var m := if p - r < |d| then p - r else |d|;
    assert data[r..p][p - r - m..] == d[|d| - m..];
    assert data[r..p][p - r - 1] == d[|d| - 1];
  }

  lemma DelimiterEndsInLastByte(d: seq<Byte>, specs: seq<FieldSpec>, data: seq<Byte>, prev: nat, p: nat)
    requires |d| > 0 && StartAfterDelimiter(d, specs, data, prev, p)
    ensures AfterDelimiterByte(d, data, p)
  {
    assert data[p - |d|..p][|d| - 1] == d[|d| - 1];
  }

  /** The start of every record but the first is preceded by the delimiter's
      last byte. */
  lemma IndexAfterDelimiterByte(d: seq<Byte>, specs: seq<FieldSpec>, data: seq<Byte>, c: nat)
    requires c < |d|
    ensures var es := Index(d, specs, data, c).entries;
      forall k :: 1 <= k < |es| ==> AfterDelimiterByte(d, data, es[k].position)
  {
    var es := Index(d, specs, data, c).entries;
    if data != [] && DecodeFields(data, specs, 0).Success? {
      var next := ScanResume(data, specs, 0);
      var cur := Feed(d, c, data[0]).cursor;
      var rest := IndexFrom(d, specs, data, next, cur, false).entries;
      IndexFromFirst(d, specs, data, c);
      // no byte after `next` has been fed, so any cursor is consistent with them
      assert next <= |data| ==> Tail(d, data[next..next], cur);
      FirstStartAfterTail(d, specs, data, next, cur, next);
      LaterStartsAfterDelimiter(d, specs, data, next, cur);
      forall k | 1 <= k < |es|
        ensures AfterDelimiterByte(d, data, es[k].position)
      {
        if k == 1 {
          TailEndsInLastByte(d, data, next, rest[0].position);
        } else {
          assert StartAfterDelimiter(d, specs, data, rest[k - 2].position, rest[k - 1].position);
          DelimiterEndsInLastByte(d, specs, data, rest[k - 2].position, rest[k - 1].position);
        }
      }
    }
  }

  /** From the third record on, every start is preceded by the whole
      delimiter, lying after the bytes the previous record's field reads
      covered; from the second record on when the byte at offset 0 left no
      match in progress. */
  lemma IndexDelimited(d: seq<Byte>, specs: seq<FieldSpec>, data: seq<Byte>, c: nat)
    requires c < |d|
    ensures var es := Index(d, specs, data, c).entries;
      && (es != [] ==> Chained(d, specs, data, es[1..]))
      && (data != [] && Feed(d, c, data[0]).cursor == 0 ==> Chained(d, specs, data, es))
  {
    var es := Index(d, specs, data, c).entries;
    if data != [] && DecodeFields(data, specs, 0).Success? {
      var next := ScanResume(data, specs, 0);
      var cur := Feed(d, c, data[0]).cursor;
      var rest := IndexFrom(d, specs, data, next, cur, false).entries;
      IndexFromFirst(d, specs, data, c);
      assert es[1..] == rest;
      LaterStartsAfterDelimiter(d, specs, data, next, cur);
      if cur == 0 {
        NextAfterMatch(d, specs, data, 0);
        ConsChained(d, specs, data, es[0], rest);
      }
    }
  }

  /** Scanning from `pos` with cursor `c`, the byte just before `p` is the
      first one that completes the delimiter. */
  ghost predicate NextStart(d: seq<Byte>, c: nat, data: seq<Byte>, pos: nat, p: nat)
  {
    && c < |d| && pos < p <= |data|
    && MatchedAt(d, c, data[pos..], p - 1 - pos)
    && forall k :: 0 <= k < p - 1 - pos ==> !MatchedAt(d, c, data[pos..], k)
  }

  /** Scanning from `pos` with cursor `c`, no byte completes the delimiter. */
  ghost predicate NoMatchFrom(d: seq<Byte>, c: nat, data: seq<Byte>, pos: nat)
  {
    && c < |d|
    && (pos <= |data| ==> forall k :: 0 <= k < |data| - pos ==> !MatchedAt(d, c, data[pos..], k))
  }

  /** A byte that completes no delimiter can be skipped: a later first
      completion from the next byte is the first one from this byte. */
  lemma NextStartBack(d: seq<Byte>, c: nat, data: seq<Byte>, pos: nat, p: nat)
    requires c < |d| && pos < |data| && !Feed(d, c, data[pos]).matched
    requires NextStart(d, Feed(d, c, data[pos]).cursor, data, pos + 1, p)
    ensures NextStart(d, c, data, pos, p)
  {
    assert data[pos..] == [data[pos]] + data[pos + 1..];
    MatchedAtCons(d, c, data[pos], data[pos + 1..]);
    forall k | 0 <= k < p - 1 - pos
      ensures !MatchedAt(d, c, data[pos..], k)
    {
      if k > 0 {
        assert !MatchedAt(d, Feed(d, c, data[pos]).cursor, data[pos + 1..], k - 1);
      }
    }
  }

  /** ...and so is having no completion at all from the next byte on. */
  lemma NoMatchBack(d: seq<Byte>, c: nat, data: seq<Byte>, pos: nat)
    requires c < |d| && pos < |data| && !Feed(d, c, data[pos]).matched
    requires NoMatchFrom(d, Feed(d, c, data[pos]).cursor, data, pos + 1)
    ensures NoMatchFrom(d, c, data, pos)
  {
    assert data[pos..] == [data[pos]] + data[pos + 1..];
    MatchedAtCons(d, c, data[pos], data[pos + 1..]);
    forall k | 0 <= k < |data| - pos
      ensures !MatchedAt(d, c, data[pos..], k)
    {
      if k > 0 {
        assert !MatchedAt(d, Feed(d, c, data[pos]).cursor, data[pos + 1..], k - 1);
      }
    }
  }

  /** A byte that completes the delimiter is the first completion from itself. */
  lemma NextStartHere(d: seq<Byte>, c: nat, data: seq<Byte>, pos: nat)
    requires c < |d| && pos < |data| && Feed(d, c, data[pos]).matched
    ensures NextStart(d, c, data, pos, pos + 1)
  {
    assert data[pos..][..0] == [];
  }

  /** Completeness of one step of the pass: what the scan from `pos` finds is
      decided by the first delimiter completion after `pos`. With none, no
      entry and no error; when the record after it does not decode, that
      error and no entry; otherwise an entry starting right after it,
      followed by what the scan resumed after its field reads finds. */
  lemma {:induction false} IndexFromNext(d: seq<Byte>, specs: seq<FieldSpec>, data: seq<Byte>, pos: nat, c: nat)
    requires c < |d|
    ensures var r := IndexFrom(d, specs, data, pos, c, false);
      && (r.entries == [] && r.error == None ==> NoMatchFrom(d, c, data, pos))
      && (r.entries == [] && r.error.Some? ==>
            exists p :: NextStart(d, c, data, pos, p) && DecodeFields(data, specs, p) == Failure(r.error.value))
      && (r.entries != [] ==>
            && NextStart(d, c, data, pos, r.entries[0].position)
            && IndexFrom(d, specs, data, ScanResume(data, specs, r.entries[0].position), 0, false)
               == Indexed(r.entries[1..], r.error, r.cursor))
    decreases |data| - pos
  {
    if pos < |data| {
      var fed := Feed(d, c, data[pos]);
      if fed.matched {
        NextStartHere(d, c, data, pos);
        IndexStart(d, specs, data, pos, c, false);
        assert AfterFields(data, specs, pos + 1, pos + 1) == ScanResume(data, specs, pos + 1);
      } else {
        IndexSkip(d, specs, data, pos, c, false);
        IndexFromNext(d, specs, data, pos + 1, fed.cursor);
        var r := IndexFrom(d, specs, data, pos + 1, fed.cursor, false);
        if r.entries == [] && r.error == None {
          NoMatchBack(d, c, data, pos);
        } else if r.entries == [] {
          var p :| NextStart(d, fed.cursor, data, pos + 1, p) && DecodeFields(data, specs, p) == Failure(r.error.value);
          NextStartBack(d, c, data, pos, p);
        } else {
          NextStartBack(d, c, data, pos, r.entries[0].position);
        }
      }
    }
  }

  /** The cursor the scan resumes with after entry `k`: for the first entry,
      the one the byte at offset 0 left; after a later entry 0, since its
      start followed a completed delimiter. */
  function ResumeCursor(d: seq<Byte>, c: nat, data: seq<Byte>, k: nat): (r: nat)
    requires c < |d|
    ensures r < |d|
  {
    if k == 0 && data != [] then Feed(d, c, data[0]).cursor else 0
  }

  /** What the pass finds after entry `k` is what a scan from that entry's
      resume point, with its resume cursor, finds. */
  lemma {:induction false} IndexSuffix(d: seq<Byte>, specs: seq<FieldSpec>, data: seq<Byte>, c: nat, k: nat)
    requires c < |d|
    requires k < |Index(d, specs, data, c).entries|
    ensures var r := Index(d, specs, data, c);
      IndexFrom(d, specs, data, ScanResume(data, specs, r.entries[k].position), ResumeCursor(d, c, data, k), false)
        == Indexed(r.entries[k + 1..], r.error, r.cursor)
    ensures var r := Index(d, specs, data, c);
      k == |r.entries| - 1 ==>
        IndexFrom(d, specs, data, ScanResume(data, specs, r.entries[k].position), ResumeCursor(d, c, data, k), false)
        == Indexed([], r.error, r.cursor)
  {
    IndexSuffixFrom(d, specs, data, c, k);
    var r := Index(d, specs, data, c);
    assert r.entries[|r.entries|..] == [];
  }

  lemma {:induction false} IndexSuffixFrom(d: seq<Byte>, specs: seq<FieldSpec>, data: seq<Byte>, c: nat, k: nat)
    requires c < |d|
    requires k < |Index(d, specs, data, c).entries|
    ensures var r := Index(d, specs, data, c);
      IndexFrom(d, specs, data, ScanResume(data, specs, r.entries[k].position), ResumeCursor(d, c, data, k), false)
        == Indexed(r.entries[k + 1..], r.error, r.cursor)
  {
    var r := Index(d, specs, data, c);
    if data == [] {
      IndexEmpty(d, specs, c);
    } else if k == 0 {
      IndexFirst(d, specs, data, c);
      IndexFromFirst(d, specs, data, c);
    } else {
      IndexSuffixFrom(d, specs, data, c, k - 1);
      var q := ScanResume(data, specs, r.entries[k - 1].position);
      SuffixStep(d, specs, data, q, ResumeCursor(d, c, data, k - 1), r, k);
    }
  }

  /** The scan that finds entries `k..` of `r` finds entry `k` first, and
      then, resumed after it with the cursor at 0, the entries after it. */
  lemma SuffixStep(d: seq<Byte>, specs: seq<FieldSpec>, data: seq<Byte>, q: nat, rc: nat, r: Indexed, k: nat)
    requires rc < |d| && k < |r.entries|
    requires IndexFrom(d, specs, data, q, rc, false) == Indexed(r.entries[k..], r.error, r.cursor)
    ensures IndexFrom(d, specs, data, ScanResume(data, specs, r.entries[k].position), 0, false)
      == Indexed(r.entries[k + 1..], r.error, r.cursor)
  {
    IndexFromNext(d, specs, data, q, rc);
    assert r.entries[k..][0] == r.entries[k];
    assert r.entries[k..][1..] == r.entries[k + 1..];
  }

  /** Every entry after the first starts right after the FIRST delimiter
      completion that the scan resumed after the previous entry meets: no
      completion between two consecutive entries goes unrecorded. */
  lemma IndexNextStart(d: seq<Byte>, specs: seq<FieldSpec>, data: seq<Byte>, c: nat)
    requires c < |d|
    ensures var es := Index(d, specs, data, c).entries;
      forall k :: 0 <= k < |es| - 1 ==>
        NextStart(d, ResumeCursor(d, c, data, k), data, ScanResume(data, specs, es[k].position), es[k + 1].position)
  {
    var r := Index(d, specs, data, c);
    var es := r.entries;
    forall k | 0 <= k < |es| - 1
      ensures NextStart(d, ResumeCursor(d, c, data, k), data, ScanResume(data, specs, es[k].position), es[k + 1].position)
    {
      IndexSuffix(d, specs, data, c, k);
      IndexFromNext(d, specs, data, ScanResume(data, specs, es[k].position), ResumeCursor(d, c, data, k));
      assert es[k + 1..][0] == es[k + 1];
    }
  }

  /** A scan from `pos` with cursor `c` that recorded nothing ended with
      `error`: no error exactly when it met no delimiter completion, and
      otherwise the decoding error of the record after the first one. */
  ghost predicate EndedWith(d: seq<Byte>, specs: seq<FieldSpec>, data: seq<Byte>, c: nat, pos: nat, error: Option<DecodeError>)
  {
    && (error == None <==> NoMatchFrom(d, c, data, pos))
    && (error.Some? ==> exists p :: NextStart(d, c, data, pos, p) && DecodeFields(data, specs, p) == Failure(error.value))
  }

  /** How the pass ends after its last entry: without an error exactly when
      the scan resumed after that entry meets no further delimiter
      completion; with an error when the record after the first such
      completion does not decode, and then that is its error. */
  lemma IndexEnd(d: seq<Byte>, specs: seq<FieldSpec>, data: seq<Byte>, c: nat)
    requires c < |d|
    ensures var r := Index(d, specs, data, c);
      var es := r.entries;
      es != [] ==>
        EndedWith(d, specs, data, ResumeCursor(d, c, data, |es| - 1), ScanResume(data, specs, es[|es| - 1].position), r.error)
  {
    var r := Index(d, specs, data, c);
    var es := r.entries;
    if es != [] {
      var q := ScanResume(data, specs, es[|es| - 1].position);
      var rc := ResumeCursor(d, c, data, |es| - 1);
      IndexSuffix(d, specs, data, c, |es| - 1);
      IndexFromEnd(d, specs, data, q, rc);
    }
  }

  /** A scan that records nothing ends as `EndedWith` says. */
  lemma IndexFromEnd(d: seq<Byte>, specs: seq<FieldSpec>, data: seq<Byte>, pos: nat, c: nat)
    requires c < |d| && IndexFrom(d, specs, data, pos, c, false).entries == []
    ensures EndedWith(d, specs, data, c, pos, IndexFrom(d, specs, data, pos, c, false).error)
  {
    var r := IndexFrom(d, specs, data, pos, c, false);
    IndexFromNext(d, specs, data, pos, c);
    if r.error.Some? {
      var p :| NextStart(d, c, data, pos, p) && DecodeFields(data, specs, p) == Failure(r.error.value);
      NoMatchExcludesStart(d, c, data, pos, p);
    }
  }

  lemma NoMatchExcludesStart(d: seq<Byte>, c: nat, data: seq<Byte>, pos: nat, p: nat)
    requires NextStart(d, c, data, pos, p)
    ensures !NoMatchFrom(d, c, data, pos)
  {
    assert p - 1 - pos < |data| - pos;
  }

  /** There is only one first completion, and there is none when no byte
      completes the delimiter. */
  lemma NextStartUnique(d: seq<Byte>, c: nat, data: seq<Byte>, pos: nat, p: nat)
    requires NextStart(d, c, data, pos, p)
    ensures forall p' :: NextStart(d, c, data, pos, p') ==> p' == p
  {
    forall p': nat | NextStart(d, c, data, pos, p')
      ensures p' == p
    {
      assert MatchedAt(d, c, data[pos..], p - 1 - pos);
      assert MatchedAt(d, c, data[pos..], p' - 1 - pos);
    }
  }

  lemma NoMatchNoStart(d: seq<Byte>, c: nat, data: seq<Byte>, pos: nat)
    requires NoMatchFrom(d, c, data, pos)
    ensures forall p :: !NextStart(d, c, data, pos, p)
  {
    forall p: nat
      ensures !NextStart(d, c, data, pos, p)
    {
      if pos < p <= |data| {
        assert !MatchedAt(d, c, data[pos..], p - 1 - pos);
      }
    }
  }

  /** The first completion after `pos` ends at `i`, and the record after it
      decodes: then the scan from `pos` records that record first. */
  lemma FirstCompletionStarts(d: seq<Byte>, specs: seq<FieldSpec>, data: seq<Byte>, pos: nat, c: nat, i: nat)
    requires c < |d| && pos <= i < |data|
    requires forall k :: 0 <= k < i - pos ==> !MatchedAt(d, c, data[pos..], k)
    requires MatchedAt(d, c, data[pos..], i - pos)
    requires DecodeFields(data, specs, i + 1).Success?
    ensures var es := IndexFrom(d, specs, data, pos, c, false).entries;
      es != [] && es[0].position == i + 1 && Success(es[0].fields) == DecodeFields(data, specs, i + 1)
  {
    CompletionIsNextStart(d, c, data, pos, i);
    FirstStartPosition(d, specs, data, pos, c, i + 1);
  }

  lemma CompletionIsNextStart(d: seq<Byte>, c: nat, data: seq<Byte>, pos: nat, i: nat)
    requires c < |d| && pos <= i < |data|
    requires forall k :: 0 <= k < i - pos ==> !MatchedAt(d, c, data[pos..], k)
    requires MatchedAt(d, c, data[pos..], i - pos)
    ensures NextStart(d, c, data, pos, i + 1)
  {
  }

  lemma FirstStartPosition(d: seq<Byte>, specs: seq<FieldSpec>, data: seq<Byte>, pos: nat, c: nat, p: nat)
    requires NextStart(d, c, data, pos, p) && DecodeFields(data, specs, p).Success?
    ensures var es := IndexFrom(d, specs, data, pos, c, false).entries;
      es != [] && es[0].position == p && Success(es[0].fields) == DecodeFields(data, specs, p)
  {
    NoMatchExcludesStart(d, c, data, pos, p);
    NextStartUnique(d, c, data, pos, p);
    IndexFromNext(d, specs, data, pos, c);
    IndexFromHead(d, specs, data, pos, c);
  }

  /** The first entry found holds the decoded fields at its start. */
  lemma IndexFromHead(d: seq<Byte>, specs: seq<FieldSpec>, data: seq<Byte>, pos: nat, c: nat)
    requires c < |d|
    ensures var es := IndexFrom(d, specs, data, pos, c, false).entries;
      es != [] ==> DecodeFields(data, specs, es[0].position) == Success(es[0].fields)
  {
    IndexFromShape(d, specs, data, pos, c, false);
  }

  /** With no completion after `pos`, the scan from `pos` records nothing and
      stops without an error. */
  lemma NoCompletionEnds(d: seq<Byte>, specs: seq<FieldSpec>, data: seq<Byte>, pos: nat, c: nat)
    requires c < |d| && pos <= |data|
    requires forall k :: 0 <= k < |data| - pos ==> !MatchedAt(d, c, data[pos..], k)
    ensures IndexFrom(d, specs, data, pos, c, false).entries == []
    ensures IndexFrom(d, specs, data, pos, c, false).error == None
  {
    assert NoMatchFrom(d, c, data, pos);
    NoMatchNoStart(d, c, data, pos);
    IndexFromNext(d, specs, data, pos, c);
  }

  /** The first record's partial match is not discarded when the field reads
      move the file position: with delimiter "??" and one 3-byte text field
      at offset 0, the file "?AB?CD" is split after its fourth byte although
      no two consecutive '?' occur in it. */
  lemma FirstRecordCarriesProgress()
    ensures var d: seq<Byte> := [63, 63];
      var data: seq<Byte> := [63, 65, 66, 63, 67, 68];
      var specs := [FieldSpec(0, 3, TextKind, Ascending)];
      && (forall i :: 0 <= i < |data| - 1 ==> !(data[i] == 63 && data[i + 1] == 63))
      && Index(d, specs, data, 0).entries == [Record(0, [Text("?AB")]), Record(4, [Text("CD")])]
  {
    var d: seq<Byte> := [63, 63];
    var data: seq<Byte> := [63, 65, 66, 63, 67, 68];
    var specs := [FieldSpec(0, 3, TextKind, Ascending)];
    assert specs[..0] == [];
    assert DecodeFields(data, specs, 0) == Success([Text("?AB")]) by {
      assert DecodeFields(data, specs[..0], 0) == Success([]);
      assert FieldBytes(data, 0, specs[0]) == [63, 65, 66];
      assert AsciiChars([63, 65, 66]) == "?AB";
      assert TypeCast(TextKind, [63, 65, 66]) == Success(Text("?AB"));
      assert [] + [Text("?AB")] == [Text("?AB")];
    }
    assert DecodeFields(data, specs, 4) == Success([Text("CD")]) by {
      assert DecodeFields(data, specs[..0], 4) == Success([]);
      assert FieldBytes(data, 4, specs[0]) == [67, 68];
      assert AsciiChars([67, 68]) == "CD";
      assert TypeCast(TextKind, [67, 68]) == Success(Text("CD"));
      assert [] + [Text("CD")] == [Text("CD")];
    }
    assert IndexFrom(d, specs, data, 6, 0, false).entries == [];
    assert IndexFrom(d, specs, data, 3, 1, false).entries == [Record(4, [Text("CD")])];
  }
}
