/** Files opened in binary mode, reduced to their bytes and a read position:
    `seek` may move past the end, and `read` past the end returns fewer bytes
    (none once the position is at or beyond the end) without moving further. */
module Files {
  import opened Types

  /** The bytes `read(n)` returns when the position is `p`. */
  function Slice(data: seq<Byte>, p: nat, n: nat): (r: seq<Byte>)
    ensures |r| <= n
    ensures p + n <= |data| ==> r == data[p..p + n]
    ensures p >= |data| ==> r == []
    ensures p < |data| ==> p + |r| <= |data| && r == data[p..p + |r|] && (|r| == n || p + |r| == |data|)
  {
    if p >= |data| then [] else if p + n <= |data| then data[p..p + n] else data[p..]
  }

  /** The position after `read(n)` from position `p`. */
  function ReadEnd(data: seq<Byte>, p: nat, n: nat): (q: nat)
    ensures q >= p
    ensures q == p + |Slice(data, p, n)|
  {
    if p >= |data| then p else if p + n <= |data| then p + n else |data|
  }

  class InputFile {
    /** The whole file. */
    const data: seq<Byte>
    /** The position `tell()` reports. */
    var pos: nat

    constructor Open(contents: seq<Byte>)
      ensures data == contents && pos == 0
    {
      data := contents;
      pos := 0;
    }

    function Tell(): (p: nat)
      reads this
      ensures p == pos
    {
      pos
    }

    method Seek(p: nat)
      modifies this
      ensures pos == p
    {
      pos := p;
    }

    /** Up to `n` bytes from the current position; fewer at the end of the file. */
    method Read(n: nat) returns (chunk: seq<Byte>)
      modifies this
      ensures chunk == Slice(data, old(pos), n)
      ensures pos == ReadEnd(data, old(pos), n)
    {
      chunk := Slice(data, pos, n);
      pos := ReadEnd(data, pos, n);
    }
  }

  class OutputFile {
    /** Everything written so far. */
    var contents: seq<Byte>

    constructor Create()
      ensures contents == []
    {
      contents := [];
    }

    method Write(bs: seq<Byte>)
      modifies this
      ensures contents == old(contents) + bs
    {
      contents := contents + bs;
    }
  }
}
