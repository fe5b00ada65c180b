/** The command-line settings: the sort field arguments
    (`validate_sort_arguments`) and the file type with its end-of-record and
    end-of-file byte lists (`filetype`, `decimal_to_byte`). Arguments arrive
    as the strings the command line was split into. */
module Config {
  import opened Types
  import opened Decode
  import opened Tracker

  /** Why a setting was refused; each is one of the exceptions raised. */
  datatype ConfigError =
    | ArgumentCount
    | BadPosition
    | BadLength
    | BadType
    | BadOrder
    | BadFiletype(typ: string)
    | BadEndOfRecord(item: string)
    | BadEndOfFile(item: string)
    | ByteOverflow(n: nat)

  /** `decimal_to_byte`: a number as one byte; numbers that do not fit in a
      byte are refused, as `to_bytes(1, ...)` refuses them. */
  function DecimalToByte(n: nat): (r: Result<Byte, ConfigError>)
    ensures r.Success? <==> n < 256
    ensures r.Success? ==> r.value == n
    ensures r.Failure? ==> r.error == ByteOverflow(n)
  {
    if n < 256 then Success(n) else Failure(ByteOverflow(n))
  }

  /** A decimal string denoting a number above zero. */
  function PositiveDecimal(s: string): (r: Option<nat>)
    ensures r.Some? <==> IsDecimal(s) && DecimalValue(s) > 0
    ensures r.Some? ==> r.value == DecimalValue(s) && r.value > 0
  {
    match ParseDecimal(s)
    case Some(n) => if n > 0 then Some(n) else None
    case None => None
  }

  /** The spec given by one group of four arguments: a 1-based position, a
      length, a type letter and an order letter, checked in that order. */
  function ParseGroup(p: string, l: string, t: string, o: string): (r: Result<FieldSpec, ConfigError>)
    ensures r.Success? <==>
      PositiveDecimal(p).Some? && PositiveDecimal(l).Some? && t in ["C", "N"] && o in ["A", "D"]
    ensures PositiveDecimal(p).None? ==> r == Failure(BadPosition)
    ensures PositiveDecimal(p).Some? && PositiveDecimal(l).None? ==> r == Failure(BadLength)
    ensures PositiveDecimal(p).Some? && PositiveDecimal(l).Some? && t !in ["C", "N"] ==> r == Failure(BadType)
    ensures PositiveDecimal(p).Some? && PositiveDecimal(l).Some? && t in ["C", "N"] && o !in ["A", "D"] ==>
      r == Failure(BadOrder)
  {
    match PositiveDecimal(p)
    case None => Failure(BadPosition)
    case Some(position) =>
      match PositiveDecimal(l)
      case None => Failure(BadLength)
      case Some(length) =>
        if t != "C" && t != "N" then Failure(BadType)
        else if o != "A" && o != "D" then Failure(BadOrder)
        else Success(FieldSpec(position - 1, length, if t == "C" then TextKind else IntKind,
                               if o == "A" then Ascending else Descending))
  }

  /** The group of four arguments starting at `i`. */
  function Group(args: seq<string>, i: nat): Result<FieldSpec, ConfigError>
    requires i + 4 <= |args|
  {
    ParseGroup(args[i], args[i + 1], args[i + 2], args[i + 3])
  }

  /** `fs` in front of a successful result; a failure stays as it is. */
  function Prepend(fs: seq<FieldSpec>, r: Result<seq<FieldSpec>, ConfigError>): (q: Result<seq<FieldSpec>, ConfigError>)
    ensures q.Success? <==> r.Success?
  {
    match r
    case Failure(e) => Failure(e)
    case Success(rest) => Success(fs + rest)
  }

  lemma PrependNothing(r: Result<seq<FieldSpec>, ConfigError>)
    ensures Prepend([], r) == r
  {
    if r.Success? {
      assert [] + r.value == r.value;
    }
  }

  lemma PrependTwice(a: seq<FieldSpec>, b: seq<FieldSpec>, r: Result<seq<FieldSpec>, ConfigError>)
    ensures Prepend(a, Prepend(b, r)) == Prepend(a + b, r)
  {
    if r.Success? {
      assert a + (b + r.value) == a + b + r.value;
    }
  }

  /** The groups from the front; the first group that fails gives the error. */
  function ParseGroups(args: seq<string>): (r: Result<seq<FieldSpec>, ConfigError>)
    requires |args| % 4 == 0
    decreases |args|
  {
    if args == [] then Success([])
    else
      match Group(args, 0)
      case Failure(e) => Failure(e)
      case Success(f) => Prepend([f], ParseGroups(args[4..]))
  }

  /** `validate_sort_arguments` as a function of its arguments. */
  function SortArguments(args: seq<string>): (r: Result<seq<FieldSpec>, ConfigError>)
    ensures |args| % 4 != 0 ==> r == Failure(ArgumentCount)
  {
    if |args| % 4 != 0 then Failure(ArgumentCount) else ParseGroups(args)
  }

  /** The groups from position `i` on: the group at `i`, then the rest. */
  lemma ParseGroupsAt(args: seq<string>, i: nat)
    requires |args| % 4 == 0 && i % 4 == 0 && i < |args|
    ensures i + 4 <= |args| && (i + 4) % 4 == 0 && |args[i + 4..]| % 4 == 0
    ensures ParseGroups(args[i..]) ==
      match Group(args, i)
      case Failure(e) => Failure(e)
      case Success(f) => Prepend([f], ParseGroups(args[i + 4..]))
  {
    assert args[i..][4..] == args[i + 4..];
    assert Group(args[i..], 0) == Group(args, i);
  }

  /** `validate_sort_arguments`: the count is checked first, then each group
      in turn, and the specs are appended group by group. */
  method ValidateSortArguments(args: seq<string>) returns (r: Result<seq<FieldSpec>, ConfigError>)
    ensures r == SortArguments(args)
  {
    if |args| % 4 != 0 {
      return Failure(ArgumentCount);
    }
    var fields: seq<FieldSpec> := [];
    var i := 0;
    assert args[0..] == args;
    PrependNothing(ParseGroups(args));
    while i < |args|
      invariant 0 <= i <= |args| && i % 4 == 0
      invariant ParseGroups(args) == Prepend(fields, ParseGroups(args[i..]))
      decreases |args| - i
    {
      ParseGroupsAt(args, i);
      var g := ParseGroup(args[i], args[i + 1], args[i + 2], args[i + 3]);
      if g.Failure? {
        return Failure(g.error);
      }
      PrependTwice(fields, [g.value], ParseGroups(args[i + 4..]));
      fields := fields + [g.value];
      i := i + 4;
    }
    assert args[i..] == [] && fields + [] == fields;
    return Success(fields);
  }

  /** Every group of four is valid. */
  ghost predicate GroupsValid(args: seq<string>)
    requires |args| % 4 == 0
  {
    forall g :: 0 <= g < |args| / 4 ==> Group(args, 4 * g).Success?
  }

  /** The groups after the first are the first groups of the rest. */
  lemma GroupsShift(args: seq<string>)
    requires |args| % 4 == 0 && args != []
    ensures forall g :: 0 <= g < |args[4..]| / 4 ==> Group(args[4..], 4 * g) == Group(args, 4 * (g + 1))
  {
  }

  /** Validating the groups from the front succeeds exactly when each is valid. */
  lemma {:induction false} ParseGroupsSucceeds(args: seq<string>)
    requires |args| % 4 == 0
    ensures ParseGroups(args).Success? <==> GroupsValid(args)
    decreases |args|
  {
    if args != [] {
      var rest := args[4..];
      ParseGroupsSucceeds(rest);
      GroupsShift(args);
      if GroupsValid(args) {
        assert Group(args, 4 * 0).Success?;
        assert GroupsValid(rest) by {
          forall g | 0 <= g < |rest| / 4 ensures Group(rest, 4 * g).Success? {
            assert Group(args, 4 * (g + 1)).Success?;
          }
        }
      }
      if ParseGroups(args).Success? {
        forall g | 0 <= g < |args| / 4 ensures Group(args, 4 * g).Success? {
          if g > 0 {
            assert Group(rest, 4 * (g - 1)) == Group(args, 4 * g);
          }
        }
      }
    }
  }

  /** A successful validation gives one spec per group, in order. */
  lemma {:induction false} ParseGroupsValues(args: seq<string>)
    requires |args| % 4 == 0 && ParseGroups(args).Success?
    ensures |ParseGroups(args).value| == |args| / 4
    ensures forall g :: 0 <= g < |args| / 4 ==>
      Group(args, 4 * g).Success? && ParseGroups(args).value[g] == Group(args, 4 * g).value
    decreases |args|
  {
    if args != [] {
      var rest := args[4..];
      ParseGroupsValues(rest);
      GroupsShift(args);
      var vs := ParseGroups(args).value;
      assert vs == [Group(args, 0).value] + ParseGroups(rest).value;
      forall g | 0 <= g < |args| / 4
        ensures Group(args, 4 * g).Success? && vs[g] == Group(args, 4 * g).value
      {
        if g > 0 {
          assert Group(rest, 4 * (g - 1)) == Group(args, 4 * g);
        }
      }
    }
  }

  /** Validation succeeds exactly when the count is a multiple of four and
      every group is valid, and then gives one spec per group, in order. */
  lemma SortArgumentsMeaning(args: seq<string>)
    ensures SortArguments(args).Success? <==> |args| % 4 == 0 && GroupsValid(args)
    ensures SortArguments(args).Success? ==>
      && |SortArguments(args).value| == |args| / 4
      && forall g :: 0 <= g < |args| / 4 ==> SortArguments(args).value[g] == Group(args, 4 * g).value
  {
    if |args| % 4 == 0 {
      ParseGroupsSucceeds(args);
      if ParseGroups(args).Success? {
        ParseGroupsValues(args);
      }
    }
  }

  /** What a valid group means: the position is made 0-based, `C` reads text
      and `N` integers, `A` sorts ascending and `D` descending. */
  lemma GroupMeaning(p: string, l: string, t: string, o: string)
    requires ParseGroup(p, l, t, o).Success?
    ensures var f := ParseGroup(p, l, t, o).value;
      && f.position + 1 == DecimalValue(p)
      && f.length == DecimalValue(l) && f.length > 0
      && (f.kind == TextKind <==> t == "C")
      && (f.order == Ascending <==> o == "A")
  {
  }

  /** The first invalid group decides the error. */
  lemma {:induction false} FirstBadGroup(args: seq<string>, g: nat)
    requires |args| % 4 == 0 && 4 * g < |args|
    requires forall h :: 0 <= h < g ==> Group(args, 4 * h).Success?
    requires Group(args, 4 * g).Failure?
    ensures SortArguments(args) == Failure(Group(args, 4 * g).error)
    decreases g
  {
    if g == 0 {
      assert Group(args, 4 * 0) == Group(args, 0);
    } else {
      var rest := args[4..];
      assert Group(args, 4 * 0).Success?;
      forall h | 0 <= h < g - 1 ensures Group(rest, 4 * h).Success? {
        assert Group(rest, 4 * h) == Group(args, 4 * (h + 1));
      }
      assert Group(rest, 4 * (g - 1)) == Group(args, 4 * g);
      FirstBadGroup(rest, g - 1);
    }
  }

  /** The arguments that spell a spec: 1-based position, length, letters. */
  function RenderGroup(f: FieldSpec): (args: seq<string>)
    ensures |args| == 4
  {
    [Render(f.position + 1), Render(f.length),
     if f.kind == TextKind then "C" else "N", if f.order == Ascending then "A" else "D"]
  }

  function RenderArgs(specs: seq<FieldSpec>): (args: seq<string>)
    ensures |args| == 4 * |specs|
  {
    if specs == [] then [] else RenderGroup(specs[0]) + RenderArgs(specs[1..])
  }

  /** A spec with a non-empty field is what its own four arguments give. */
  lemma GroupRoundTrip(f: FieldSpec)
    requires f.length > 0
    ensures var g := RenderGroup(f); ParseGroup(g[0], g[1], g[2], g[3]) == Success(f)
  {
    ParseRender(f.position + 1);
    ParseRender(f.length);
  }

  /** Every spec with a non-empty field is what its own arguments validate
      to, so rendering and validating undo each other. */
  lemma {:induction false} SortArgumentsRoundTrip(specs: seq<FieldSpec>)
    requires forall i :: 0 <= i < |specs| ==> specs[i].length > 0
    ensures SortArguments(RenderArgs(specs)) == Success(specs)
  {
    if specs != [] {
      var f := specs[0];
      var args := RenderArgs(specs);
      SortArgumentsRoundTrip(specs[1..]);
      assert args[4..] == RenderArgs(specs[1..]);
      assert args[..4] == RenderGroup(f);
      GroupRoundTrip(f);
      assert specs == [f] + specs[1..];
    }
  }

  /** The index of the first item that is not a decimal string, or the
      length when there is none. */
  function FirstNonDecimal(items: seq<string>): (j: nat)
    ensures j <= |items|
    ensures j < |items| ==> !IsDecimal(items[j])
    ensures forall i :: 0 <= i < j ==> IsDecimal(items[i])
  {
    if items == [] then 0
    else if !IsDecimal(items[0]) then 0
    else 1 + FirstNonDecimal(items[1..])
  }

  /** Decimal items as bytes; the first one too large for a byte is refused. */
  function ToBytes(items: seq<string>): (r: Result<seq<Byte>, ConfigError>)
    requires forall i :: 0 <= i < |items| ==> IsDecimal(items[i])
    ensures r.Success? <==> forall i :: 0 <= i < |items| ==> DecimalValue(items[i]) < 256
    ensures r.Success? ==>
      && |r.value| == |items|
      && (forall i :: 0 <= i < |items| ==> r.value[i] == DecimalValue(items[i]))
    ensures r.Failure? ==> exists i :: 0 <= i < |items| && r.error == ByteOverflow(DecimalValue(items[i]))
  {
    if items == [] then Success([])
    else
      match DecimalToByte(DecimalValue(items[0]))
      case Failure(e) => Failure(e)
      case Success(b) =>
        match ToBytes(items[1..])
        case Failure(e) => Failure(e)
        case Success(bs) => Success([b] + bs)
  }

  /** `filetype` on its arguments: the type must be `gp`; then every
      end-of-record item, then every end-of-file item, must be decimal; then
      each list is converted to bytes. */
  function FiletypeBytes(typ: string, eor: seq<string>, eof: seq<string>): (r: Result<(seq<Byte>, seq<Byte>), ConfigError>)
    ensures typ != "gp" ==> r == Failure(BadFiletype(typ))
    ensures typ == "gp" && FirstNonDecimal(eor) < |eor| ==> r == Failure(BadEndOfRecord(eor[FirstNonDecimal(eor)]))
    ensures typ == "gp" && FirstNonDecimal(eor) == |eor| && FirstNonDecimal(eof) < |eof| ==>
      r == Failure(BadEndOfFile(eof[FirstNonDecimal(eof)]))
  {
    if typ != "gp" then Failure(BadFiletype(typ))
    else if FirstNonDecimal(eor) < |eor| then Failure(BadEndOfRecord(eor[FirstNonDecimal(eor)]))
    else if FirstNonDecimal(eof) < |eof| then Failure(BadEndOfFile(eof[FirstNonDecimal(eof)]))
    else
      match ToBytes(eor)
      case Failure(e) => Failure(e)
      case Success(eorBytes) =>
        match ToBytes(eof)
        case Failure(e) => Failure(e)
        case Success(eofBytes) => Success((eorBytes, eofBytes))
  }

  /** Every item is a decimal string denoting a byte. */
  predicate ByteItems(items: seq<string>)
  {
    forall i :: 0 <= i < |items| ==> IsDecimal(items[i]) && DecimalValue(items[i]) < 256
  }

  /** `filetype` succeeds exactly for type `gp` with both lists made of
      decimal bytes, and then gives those bytes in order. */
  lemma FiletypeMeaning(typ: string, eor: seq<string>, eof: seq<string>)
    ensures FiletypeBytes(typ, eor, eof).Success? <==> typ == "gp" && ByteItems(eor) && ByteItems(eof)
    ensures FiletypeBytes(typ, eor, eof).Success? ==>
      var (eorBytes, eofBytes) := FiletypeBytes(typ, eor, eof).value;
      && |eorBytes| == |eor| && (forall i :: 0 <= i < |eor| ==> eorBytes[i] == DecimalValue(eor[i]))
      && |eofBytes| == |eof| && (forall i :: 0 <= i < |eof| ==> eofBytes[i] == DecimalValue(eof[i]))
  {
  }

  /** The decimal spellings of bytes. */
  function RenderBytes(bs: seq<Byte>): (items: seq<string>)
    ensures |items| == |bs|
    ensures forall i :: 0 <= i < |bs| ==> items[i] == Render(bs[i])
  {
    seq(|bs|, i requires 0 <= i < |bs| => Render(bs[i]))
  }

  /** Any two byte lists, spelled in decimal, are what `filetype` gives back. */
  lemma FiletypeRoundTrip(eorBytes: seq<Byte>, eofBytes: seq<Byte>)
    ensures FiletypeBytes("gp", RenderBytes(eorBytes), RenderBytes(eofBytes)) == Success((eorBytes, eofBytes))
  {
    var eor := RenderBytes(eorBytes);
    var eof := RenderBytes(eofBytes);
    forall i | 0 <= i < |eor| ensures IsDecimal(eor[i]) && DecimalValue(eor[i]) == eorBytes[i] {
      ParseRender(eorBytes[i]);
    }
    forall i | 0 <= i < |eof| ensures IsDecimal(eof[i]) && DecimalValue(eof[i]) == eofBytes[i] {
      ParseRender(eofBytes[i]);
    }
    FiletypeMeaning("gp", eor, eof);
    var r := FiletypeBytes("gp", eor, eof);
    assert r.value.0 == eorBytes;
    assert r.value.1 == eofBytes;
  }

  /** A negative byte is refused before any conversion: its minus sign makes
      it no decimal string. */
  lemma NegativeByteRefused()
    ensures FiletypeBytes("gp", ["63", "-1"], ["255"]) == Failure(BadEndOfRecord("-1"))
  {
    assert IsDigitChar("63"[0]) && IsDigitChar("63"[1]) && IsDecimal("63");
    assert !IsDigitChar("-1"[0]);
    assert FirstNonDecimal(["63", "-1"]) == 1 by {
      assert ["63", "-1"][1..] == ["-1"];
    }
  }

  /** `filetype`: the end-of-record and end-of-file matchers for the given
      byte lists, or the first error. */
  method Filetype(typ: string, eor: seq<string>, eof: seq<string>) returns (r: Result<(ByteTracker, ByteTracker), ConfigError>)
    ensures r.Success? <==> FiletypeBytes(typ, eor, eof).Success?
    ensures r.Failure? ==> r.error == FiletypeBytes(typ, eor, eof).error
    ensures r.Success? ==>
      && fresh(r.value.0) && fresh(r.value.1)
      && r.value.0.bytes == FiletypeBytes(typ, eor, eof).value.0 && r.value.0.cursor == 0
      && r.value.1.bytes == FiletypeBytes(typ, eor, eof).value.1 && r.value.1.cursor == 0
  {
    match FiletypeBytes(typ, eor, eof)
    case Failure(e) =>
      return Failure(e);
    case Success((eorBytes, eofBytes)) =>
      var eorTracker := new ByteTracker(eorBytes);
      var eofTracker := new ByteTracker(eofBytes);
      return Success((eorTracker, eofTracker));
  }
}
