/** The copy pass (`Record.write_record`) and the output it and
    `Records.write_records` produce, as functions of the input bytes. A byte
    that is not the byte the matcher expects is written without being fed
    to the matcher; a byte that is the expected one is held back and fed.
    So the cursor never falls back here: the delimiter is matched as an
    in-order, not necessarily contiguous, subsequence, and the held-back
    bytes are never written. */
module Emit {
  import opened Types
  import opened Tracker
  import opened Files

  /** What copying one record produced: the bytes written, the matcher's
      cursor afterwards, the position after the last byte read, and whether
      copying stopped on a completed delimiter (rather than at the end). */
  datatype Copied = Copied(out: seq<Byte>, cursor: nat, next: nat, matched: bool)

  /** The rest of `write_record`'s loop from position `pos` with cursor `c`. */
  function Copy(d: seq<Byte>, data: seq<Byte>, pos: nat, c: nat): (r: Copied)
    requires c < |d|
    ensures r.cursor < |d|
    decreases |data| - pos
  {
    if pos >= |data| then Copied([], c, pos, false)
    else if d[c] == data[pos] then
      var fed := Feed(d, c, data[pos]);
      if fed.matched then Copied([], fed.cursor, pos + 1, true)
      else Copy(d, data, pos + 1, fed.cursor)
    else
      var rest := Copy(d, data, pos + 1, c);
      Copied([data[pos]] + rest.out, rest.cursor, rest.next, rest.matched)
  }

  /** `s` interleaves `a` and `b`, each kept in order. */
  ghost predicate Shuffle(s: seq<Byte>, a: seq<Byte>, b: seq<Byte>)
    decreases |s|
  {
    if s == [] then a == [] && b == []
    else
      || (a != [] && a[0] == s[0] && Shuffle(s[1..], a[1..], b))
      || (b != [] && b[0] == s[0] && Shuffle(s[1..], a, b[1..]))
  }

  /** Copying from `pos` reads the bytes up to `next` and splits them, in
      order, into the bytes written and the delimiter bytes held back: the
      ones from the starting cursor up to the end of the delimiter when it
      completed (the cursor is then 0), or up to the final cursor at the end
      of the file (progress is kept, never reset). */
  lemma {:induction false} CopySplits(d: seq<Byte>, data: seq<Byte>, pos: nat, c: nat)
    requires c < |d| && pos <= |data|
    ensures var r := Copy(d, data, pos, c);
      && pos <= r.next <= |data|
      && (r.matched ==> r.cursor == 0)
      && (!r.matched ==> r.next == |data| && c <= r.cursor)
      && Shuffle(data[pos..r.next], r.out, d[c..if r.matched then |d| else r.cursor])
    decreases |data| - pos
  {
    if pos == |data| {
      assert data[pos..pos] == [];
    } else if d[c] == data[pos] && Feed(d, c, data[pos]).matched {
      var r := Copy(d, data, pos, c);
      assert data[pos..r.next] == [data[pos]];
      assert d[c..|d|] == [d[c]];
      ShuffleHeld(data[pos..r.next], [], d[c..|d|]);
    } else if d[c] == data[pos] {
      CopySplits(d, data, pos + 1, c + 1);
      var r := Copy(d, data, pos + 1, c + 1);
      assert Copy(d, data, pos, c) == r;
      var e := if r.matched then |d| else r.cursor;
      var s := data[pos..r.next];
      assert s[1..] == data[pos + 1..r.next];
      assert d[c..e][1..] == d[c + 1..e];
      ShuffleHeld(s, r.out, d[c..e]);
    } else {
      CopySplits(d, data, pos + 1, c);
      var rest := Copy(d, data, pos + 1, c);
      var r := Copy(d, data, pos, c);
      assert r == Copied([data[pos]] + rest.out, rest.cursor, rest.next, rest.matched);
      var e := if r.matched then |d| else r.cursor;
      var s := data[pos..r.next];
      assert s[1..] == data[pos + 1..r.next];
      assert r.out[1..] == rest.out;
      ShuffleWritten(s, r.out, d[c..e]);
    }
  }

  /** A byte of the second sequence taken first. */
  lemma ShuffleHeld(s: seq<Byte>, a: seq<Byte>, b: seq<Byte>)
    requires s != [] && b != [] && b[0] == s[0] && Shuffle(s[1..], a, b[1..])
    ensures Shuffle(s, a, b)
  {
  }

  /** A byte of the first sequence taken first. */
  lemma ShuffleWritten(s: seq<Byte>, a: seq<Byte>, b: seq<Byte>)
    requires s != [] && a != [] && a[0] == s[0] && Shuffle(s[1..], a[1..], b)
    ensures Shuffle(s, a, b)
  {
  }

  /** The delimiter's remaining bytes, met in a row, are all held back and
      complete the match. */
  lemma {:induction false} CopyDelimiter(d: seq<Byte>, data: seq<Byte>, pos: nat, c: nat)
    requires c < |d| && pos + |d| - c <= |data| && data[pos..pos + |d| - c] == d[c..]
    ensures Copy(d, data, pos, c) == Copied([], 0, pos + |d| - c, true)
    decreases |d| - c
  {
    assert data[pos] == data[pos..pos + |d| - c][0] == d[c];
    if c + 1 < |d| {
      assert data[pos + 1..pos + 1 + |d| - (c + 1)] == data[pos..pos + |d| - c][1..];
      CopyDelimiter(d, data, pos + 1, c + 1);
    }
  }

  /** No byte of `s` is the delimiter's first byte. */
  predicate Clear(d: seq<Byte>, s: seq<Byte>)
    requires |d| > 0
  {
    forall i :: 0 <= i < |s| ==> s[i] != d[0]
  }

  /** From cursor 0, content that contains no first delimiter byte is
      written unchanged, then either a following delimiter stops the copy
      with the cursor at 0, or the end of the file does. */
  lemma {:induction false} CopyPlain(d: seq<Byte>, data: seq<Byte>, pos: nat, content: seq<Byte>)
    requires |d| > 0 && Clear(d, content)
    requires pos + |content| <= |data| && data[pos..pos + |content|] == content
    requires pos + |content| == |data| ||
      (pos + |content| + |d| <= |data| && data[pos + |content|..pos + |content| + |d|] == d)
    ensures var r := Copy(d, data, pos, 0);
      r.out == content && r.cursor == 0 &&
      (pos + |content| == |data| ==> !r.matched) &&
      (pos + |content| < |data| ==> r.matched && r.next == pos + |content| + |d|)
    decreases |content|
  {
    if content == [] {
      if pos < |data| {
        CopyDelimiter(d, data, pos, 0);
      }
    } else {
      assert data[pos] == content[0];
      assert data[pos + 1..pos + 1 + |content[1..]|] == content[1..];
      CopyPlain(d, data, pos + 1, content[1..]);
    }
  }

  /** Unlike the indexing scan, the copy pass does not reset on a mismatch:
      with delimiter [1, 2] the bytes [1, 9, 2] end a record here (the 9 is
      written, the 1 and the 2 are held back) while the indexing scan sees
      no delimiter in them. */
  lemma CopyMatchesSubsequence()
    ensures Copy([1, 2], [1, 9, 2], 0, 0) == Copied([9], 0, 3, true)
    ensures forall i :: 0 <= i < 3 ==> !MatchedAt([1, 2], 0, [1, 9, 2], i)
  {
    var d: seq<Byte> := [1, 2];
    var s: seq<Byte> := [1, 9, 2];
    assert s[..0] == [];
    assert s[..1] == [1];
    assert s[..2] == [1, 9];
    assert s[..1][..0] == [];
    assert s[..2][..1] == [1];
    assert Scan(d, 0, s[..1]) == 1;
    assert Scan(d, 0, s[..2]) == 0;
  }

  /** One step of the copy: a mismatching byte is written, the byte the
      matcher expects is held back and either completes the delimiter or
      moves the cursor on. */
  lemma CopyStep(d: seq<Byte>, data: seq<Byte>, pos: nat, c: nat)
    requires c < |d| && pos < |data|
    ensures var fed := Feed(d, c, data[pos]);
      var rest := Copy(d, data, pos + 1, fed.cursor);
      var skip := Copy(d, data, pos + 1, c);
      Copy(d, data, pos, c) ==
        if d[c] != data[pos] then Copied([data[pos]] + skip.out, skip.cursor, skip.next, skip.matched)
        else if fed.matched then Copied([], fed.cursor, pos + 1, true)
        else rest
  {
  }

  /** One pass of `write_record`'s loop: reads one byte, writes it when the
      matcher does not expect it, and otherwise holds it back and feeds it.
      `eof` is the end of the input, `eorReached` a completed delimiter. */
  method CopyByte(fin: InputFile, fout: OutputFile, tracker: ByteTracker, pending: seq<Byte>)
    returns (eof: bool, eorReached: bool, pending': seq<Byte>)
    requires tracker.Valid()
    modifies fin, fout, tracker
    ensures tracker.Valid()
    ensures var p := old(fin.pos);
      var c := old(tracker.cursor);
      if p >= |fin.data| then
        eof && !eorReached && fin.pos == p && tracker.cursor == c && fout.contents == old(fout.contents)
      else
        var b := fin.data[p];
        && !eof && fin.pos == p + 1
        && (tracker.bytes[c] != b ==>
              !eorReached && tracker.cursor == c && fout.contents == old(fout.contents) + [b])
        && (tracker.bytes[c] == b ==>
              Fed(tracker.cursor, eorReached) == Feed(tracker.bytes, c, b) && fout.contents == old(fout.contents))
  {
    pending' := pending;
    eorReached := false;
    var chunk := fin.Read(1);
    if chunk == [] {
      return true, false, pending';
    }
    eof := false;
    var b := chunk[0];
    if tracker.CurrentByte() == b {
      pending' := pending' + [b];
      eorReached := tracker.GotAllBytes(b);
      if eorReached {
        return;
      }
      if !(eorReached || tracker.HasProgress()) {
        // A held-back byte that did not complete the delimiter always
        // moves the cursor forward, so this flush is never reached.
        assert false;
      }
    } else {
      fout.Write([b]);
    }
  }

  /** `write_record`'s loop so far: the copy from the current position and
      cursor, behind the bytes already written, makes up the whole copy. */
  ghost predicate CopyProgress(whole: Copied, written: seq<Byte>, d: seq<Byte>, data: seq<Byte>, pos: nat, c: nat)
  {
    c < |d| &&
    var rest := Copy(d, data, pos, c);
    whole == Copied(written + rest.out, rest.cursor, rest.next, rest.matched)
  }

  /** At the end of the input the whole copy is what was written. */
  lemma CopyProgressEnd(whole: Copied, written: seq<Byte>, d: seq<Byte>, data: seq<Byte>, pos: nat, c: nat)
    requires CopyProgress(whole, written, d, data, pos, c) && pos >= |data|
    ensures whole == Copied(written, c, pos, false)
  {
    assert written + [] == written;
  }

  /** After one more byte: written, held back, or completing the delimiter. */
  lemma CopyProgressStep(whole: Copied, written: seq<Byte>, d: seq<Byte>, data: seq<Byte>, pos: nat, c: nat)
    requires CopyProgress(whole, written, d, data, pos, c) && pos < |data|
    ensures var b := data[pos];
      var fed := Feed(d, c, b);
      && (d[c] != b ==> CopyProgress(whole, written + [b], d, data, pos + 1, c))
      && (d[c] == b && !fed.matched ==> CopyProgress(whole, written, d, data, pos + 1, fed.cursor))
      && (d[c] == b && fed.matched ==> whole == Copied(written, fed.cursor, pos + 1, true))
  {
    CopyStep(d, data, pos, c);
    var b := data[pos];
    if d[c] != b {
      var skip := Copy(d, data, pos + 1, c);
      assert written + ([b] + skip.out) == (written + [b]) + skip.out;
    } else if Feed(d, c, b).matched {
      assert written + [] == written;
    }
  }

  /** `Record.write_record`: copies the record starting at `rec.position`
      to `fout` up to and excluding the delimiter that ends it (or up to the
      end of the input), feeding bytes to the shared delimiter matcher. */
  method WriteRecord(rec: Record, fin: InputFile, fout: OutputFile, tracker: ByteTracker)
    requires tracker.Valid()
    modifies fin, fout, tracker
    ensures tracker.Valid()
    ensures var r := Copy(tracker.bytes, fin.data, rec.position, old(tracker.cursor));
      fout.contents == old(fout.contents) + r.out && tracker.cursor == r.cursor &&
      fin.pos == r.next
  {
    ghost var d := tracker.bytes;
    ghost var whole := Copy(d, fin.data, rec.position, tracker.cursor);
    ghost var written: seq<Byte> := [];
    var pending: seq<Byte> := [];
    fin.Seek(rec.position);
    assert CopyProgress(whole, written, d, fin.data, fin.pos, tracker.cursor);
    while true
      invariant tracker.Valid() && tracker.bytes == d
      invariant fout.contents == old(fout.contents) + written
      invariant CopyProgress(whole, written, d, fin.data, fin.pos, tracker.cursor)
      decreases |fin.data| - fin.pos
    {
      ghost var pos := fin.pos;
      ghost var c := tracker.cursor;
      var eof, eorReached;
      eof, eorReached, pending := CopyByte(fin, fout, tracker, pending);
      if eof {
        CopyProgressEnd(whole, written, d, fin.data, pos, c);
        break;
      }
      CopyProgressStep(whole, written, d, fin.data, pos, c);
      if eorReached {
        break;
      }
      if d[c] != fin.data[pos] {
        written := written + [fin.data[pos]];
      }
    }
  }

  /** The matcher's cursor after copying `recs` in order, starting at `c`. */
  function CursorAfter(d: seq<Byte>, data: seq<Byte>, recs: seq<Record>, c: nat): (r: nat)
    requires c < |d|
    ensures r < |d|
  {
    if recs == [] then c
    else Copy(d, data, recs[|recs| - 1].position, CursorAfter(d, data, recs[..|recs| - 1], c)).cursor
  }

  /** The bytes written for each record of `recs`, the cursor threaded from
      one record to the next. */
  function Pieces(d: seq<Byte>, data: seq<Byte>, recs: seq<Record>, c: nat): (ps: seq<seq<Byte>>)
    requires c < |d|
    ensures |ps| == |recs|
  {
    if recs == [] then []
    else
      var p := recs[..|recs| - 1];
      Pieces(d, data, p, c) + [Copy(d, data, recs[|recs| - 1].position, CursorAfter(d, data, p, c)).out]
  }

  /** Copying one more record extends the pieces by its copy and moves the
      cursor to where that copy left it. */
  lemma PiecesStep(d: seq<Byte>, data: seq<Byte>, recs: seq<Record>, c: nat, k: nat)
    requires c < |d| && k < |recs|
    ensures var r := Copy(d, data, recs[k].position, CursorAfter(d, data, recs[..k], c));
      Pieces(d, data, recs[..k + 1], c) == Pieces(d, data, recs[..k], c) + [r.out] &&
      CursorAfter(d, data, recs[..k + 1], c) == r.cursor
  {
    assert recs[..k + 1][..k] == recs[..k];
  }

  /** The pieces with the delimiter between consecutive ones and nowhere else. */
  function JoinSep(ps: seq<seq<Byte>>, d: seq<Byte>): seq<Byte>
  {
    if |ps| == 0 then []
    else if |ps| == 1 then ps[0]
    else JoinSep(ps[..|ps| - 1], d) + d + ps[|ps| - 1]
  }

  /** The total length of the pieces. */
  function TotalLength(ps: seq<seq<Byte>>): nat
  {
    if ps == [] then 0 else TotalLength(ps[..|ps| - 1]) + |ps[|ps| - 1]|
  }

  /** r pieces are joined by exactly r - 1 delimiters and nothing else is
      added; no pieces give no bytes. */
  lemma {:induction false} JoinSepLength(ps: seq<seq<Byte>>, d: seq<Byte>)
    ensures ps == [] ==> JoinSep(ps, d) == []
    ensures ps != [] ==> |JoinSep(ps, d)| == TotalLength(ps) + (|ps| - 1) * |d|
  {
    if |ps| == 1 {
      assert ps[..0] == [];
    } else if |ps| > 1 {
      JoinSepLength(ps[..|ps| - 1], d);
    }
  }

  /** Each piece sits in the joined output right after the delimiter that
      follows the piece before it. */
  lemma {:induction false} JoinSepAppend(ps: seq<seq<Byte>>, q: seq<Byte>, d: seq<Byte>)
    ensures JoinSep(ps + [q], d) == if ps == [] then q else JoinSep(ps, d) + d + q
  {
    assert (ps + [q])[..|ps|] == ps;
  }
}
