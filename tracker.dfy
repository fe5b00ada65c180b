/** The delimiter matcher (`ByteTracker`): a cursor into a fixed list of
    delimiter bytes that moves forward on a matching byte, falls back to 0 on
    a mismatching one, and reports a complete match on the last byte. */
module Tracker {
  import opened Types

  /** The cursor after one byte, and whether that byte completed the delimiter. */
  datatype Fed = Fed(cursor: nat, matched: bool)

  /** One `got_all_bytes` step on delimiter `d` with the cursor at `c`. */
  function Feed(d: seq<Byte>, c: nat, b: Byte): (r: Fed)
    requires c < |d|
    ensures r.cursor < |d|
    ensures r.matched <==> b == d[c] && c == |d| - 1
    ensures r.matched ==> r.cursor == 0
    ensures b == d[c] && c < |d| - 1 ==> r.cursor == c + 1 && !r.matched
    ensures b != d[c] ==> r.cursor == 0 && !r.matched
  {
    if d[c] == b then
      if c + 1 == |d| then Fed(0, true) else Fed(c + 1, false)
    else
      Fed(0, false)
  }

  class ByteTracker {
    /** The delimiter bytes, fixed when the tracker is built. */
    const bytes: seq<Byte>
    /** `_curr_byt_idx`: how many delimiter bytes have been seen in a row. */
    var cursor: nat

    /** The cursor indexes a delimiter byte; this needs a non-empty delimiter. */
    predicate Valid()
      reads this
    {
      cursor < |bytes|
    }

    constructor (args: seq<Byte>)
      ensures bytes == args && cursor == 0
      ensures Valid() <==> |args| > 0
    {
      bytes := args;
      cursor := 0;
    }

    /** The delimiter byte the tracker expects next. */
    function CurrentByte(): (b: Byte)
      reads this
      requires Valid()
      ensures b in bytes
      ensures b == bytes[cursor]
    {
      bytes[cursor]
    }

    /** Feeds one byte; true exactly when it completes the delimiter. */
    method GotAllBytes(b: Byte) returns (matched: bool)
      requires Valid()
      modifies this
      ensures Valid()
      ensures Fed(cursor, matched) == Feed(bytes, old(cursor), b)
    {
      if CurrentByte() == b {
        if IsLastByte() {
          ResetCursor();
          return true;
        } else {
          var overflow := IncCursor();
          // the exception raised on overflow cannot happen: the cursor was
          // not at the last index, so one more still indexes the delimiter
          if overflow {
            assert false;
          }
        }
      } else {
        ResetCursor();
      }
      return false;
    }

    /** True when part of the delimiter has been seen. */
    function HasProgress(): (p: bool)
      reads this
      ensures p <==> cursor != 0
    {
      cursor != 0
    }

    /** `reset` names `_rst_curr_byt` without calling it, so it changes nothing. */
    method Reset()
      ensures cursor == old(cursor)
    {
    }

    /** Moves the cursor one byte on; `overflow` is the condition on which the
        source raises its internal error. */
    method IncCursor() returns (overflow: bool)
      modifies this
      ensures cursor == old(cursor) + 1
      ensures overflow <==> cursor >= |bytes|
    {
      cursor := cursor + 1;
      overflow := cursor >= |bytes|;
    }

    /** Puts the cursor back on the first delimiter byte. */
    method ResetCursor()
      modifies this
      ensures cursor == 0
    {
      cursor := 0;
    }

    /** True when the expected byte is the delimiter's last one. */
    function IsLastByte(): (last: bool)
      reads this
      ensures last <==> cursor + 1 == |bytes|
    {
      cursor + 1 == |bytes|
    }
  }

  /** The cursor after feeding every byte of `s`, starting from cursor `c`. */
  function Scan(d: seq<Byte>, c: nat, s: seq<Byte>): (r: nat)
    requires c < |d|
    ensures r < |d|
  {
    if s == [] then c else Feed(d, Scan(d, c, s[..|s| - 1]), s[|s| - 1]).cursor
  }

  /** True when feeding `s[i]` (after `s[..i]`, from cursor `c`) completes the delimiter. */
  predicate MatchedAt(d: seq<Byte>, c: nat, s: seq<Byte>, i: nat)
    requires c < |d| && i < |s|
  {
    Feed(d, Scan(d, c, s[..i]), s[i]).matched
  }

  /** Feeding `[x] + s` is feeding `x` and then, from the cursor it left, `s`. */
  lemma {:induction false} ScanCons(d: seq<Byte>, c: nat, x: Byte, s: seq<Byte>)
    requires c < |d|
    ensures Scan(d, c, [x] + s) == Scan(d, Feed(d, c, x).cursor, s)
    decreases |s|
  {
    if s == [] {
      assert ([x] + s)[..0] == [];
    } else {
      assert ([x] + s)[..|s|] == [x] + s[..|s| - 1];
      ScanCons(d, c, x, s[..|s| - 1]);
    }
  }

  /** In `[x] + s` the first byte matches as `x` fed alone would, and every
      later byte matches as it does in `s` from the cursor `x` left. */
  lemma MatchedAtCons(d: seq<Byte>, c: nat, x: Byte, s: seq<Byte>)
    requires c < |d|
    ensures MatchedAt(d, c, [x] + s, 0) == Feed(d, c, x).matched
    ensures forall k :: 0 <= k < |s| ==> MatchedAt(d, c, [x] + s, k + 1) == MatchedAt(d, Feed(d, c, x).cursor, s, k)
  {
    assert ([x] + s)[..0] == [];
    forall k | 0 <= k < |s|
      ensures MatchedAt(d, c, [x] + s, k + 1) == MatchedAt(d, Feed(d, c, x).cursor, s, k)
    {
      assert ([x] + s)[..k + 1] == [x] + s[..k];
      ScanCons(d, c, x, s[..k]);
    }
  }

  /** The last `min(|h|, k)` bytes of `h` are the bytes of `d` that end just
      before index `k`: what the cursor `k` says about the bytes fed. */
  ghost predicate Tail(d: seq<Byte>, h: seq<Byte>, k: nat)
    requires k <= |d|
  {
    var m := if |h| < k then |h| else k;
    h[|h| - m..] == d[k - m..k]
  }

  /** One step keeps `Tail`, and a completing byte leaves the delimiter's
      tail (all of it, if enough bytes were fed) at the end of what was fed. */
  lemma FeedKeepsTail(d: seq<Byte>, h: seq<Byte>, c: nat, b: Byte)
    requires c < |d| && Tail(d, h, c)
    ensures Tail(d, h + [b], Feed(d, c, b).cursor)
    ensures Feed(d, c, b).matched ==> Tail(d, h + [b], |d|)
  {
    var h' := h + [b];
    if b == d[c] {
      var m := if |h| < c then |h| else c;
      assert h[|h| - m..] == d[c - m..c];
      assert h'[|h'| - (m + 1)..] == h[|h| - m..] + [b];
      assert d[c - m..c + 1] == d[c - m..c] + [d[c]];
      assert h'[|h'| - (m + 1)..] == d[c + 1 - (m + 1)..c + 1];
      assert (if |h'| < c + 1 then |h'| else c + 1) == m + 1;
      if c + 1 < |d| {
        assert Feed(d, c, b).cursor == c + 1;
      } else {
        assert Feed(d, c, b).matched;
      }
    } else {
      assert Feed(d, c, b).cursor == 0;
      assert h'[|h'| - 0..] == [] == d[0..0];
    }
  }

  /** Scanning from cursor 0 never claims more delimiter bytes than were fed. */
  lemma {:induction false} ScanFromZeroTail(d: seq<Byte>, s: seq<Byte>)
    requires |d| > 0
    ensures Scan(d, 0, s) <= |s|
    ensures Tail(d, s, Scan(d, 0, s))
  {
    if s != [] {
      var p := s[..|s| - 1];
      ScanFromZeroTail(d, p);
      FeedKeepsTail(d, p, Scan(d, 0, p), s[|s| - 1]);
      assert p + [s[|s| - 1]] == s;
    }
  }

  /** Scanning from cursor 0, a reported match is a complete, contiguous
      occurrence of the delimiter ending at that byte. */
  lemma MatchIsOccurrence(d: seq<Byte>, s: seq<Byte>, i: nat)
    requires |d| > 0 && i < |s| && MatchedAt(d, 0, s, i)
    ensures i + 1 >= |d|
    ensures s[i + 1 - |d|..i + 1] == d
  {
    var p := s[..i];
    var c := Scan(d, 0, p);
    ScanFromZeroTail(d, p);
    FeedKeepsTail(d, p, c, s[i]);
    var h := p + [s[i]];
    assert h == s[..i + 1];
    assert c == |d| - 1 && |h| == i + 1 >= |d|;
    assert Tail(d, h, |d|);
    assert h[|h| - |d|..] == d[0..|d|];
    assert s[i + 1 - |d|..i + 1] == h[|h| - |d|..];
  }

  /** Feeding the delimiter's bytes from `d[c]` onwards, starting at cursor `c`,
      walks the cursor up to `k`. */
  lemma {:induction false} ScanDelimiterPart(d: seq<Byte>, c: nat, k: nat)
    requires c <= k < |d|
    ensures Scan(d, c, d[c..k]) == k
  {
    if k > c {
      ScanDelimiterPart(d, c, k - 1);
      assert d[c..k][..k - 1 - c] == d[c..k - 1];
    }
  }

  /** ...and its last byte then completes the match. */
  lemma DelimiterCompletes(d: seq<Byte>, c: nat)
    requires c < |d|
    ensures Scan(d, c, d[c..|d| - 1]) == |d| - 1
    ensures MatchedAt(d, c, d[c..], |d| - 1 - c)
  {
    ScanDelimiterPart(d, c, |d| - 1);
    assert d[c..][..|d| - 1 - c] == d[c..|d| - 1];
  }

  /** The matcher does not backtrack: with delimiter [1, 2] the stream
      [1, 1, 2] holds the delimiter at offset 1, yet no byte reports a match,
      because the second 1 resets the cursor without being tested against
      the first delimiter byte. */
  lemma MissedOverlap()
    ensures [1, 1, 2][1..3] == [1, 2]
    ensures forall i :: 0 <= i < 3 ==> !MatchedAt([1, 2], 0, [1, 1, 2], i)
  {
    var d: seq<Byte> := [1, 2];
    var s: seq<Byte> := [1, 1, 2];
    assert s[..0] == [];
    assert s[..1] == [1];
    assert s[..2] == [1, 1];
    assert s[..1][..0] == [];
    assert s[..2][..1] == [1];
    assert Scan(d, 0, s[..1]) == 1;
    assert Scan(d, 0, s[..2]) == 0;
  }
}
