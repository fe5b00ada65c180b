/** Decimal strings and the two field decoders: `bytes_to_string` (text) and
    `int` applied to the bytes of a field. Only ASCII is modelled. */
module Decode {
  import opened Types
  import Files

  predicate IsDigitChar(ch: char)
  {
    '0' as int <= ch as int <= '9' as int
  }

  /** `str.isdecimal()` restricted to ASCII: non-empty and all digits. */
  predicate IsDecimal(s: string)
  {
    |s| > 0 && forall i :: 0 <= i < |s| ==> IsDigitChar(s[i])
  }

  /** The value of one digit. */
  function DigitValue(ch: char): (d: nat)
    requires IsDigitChar(ch)
    ensures d < 10
  {
    ch as int - '0' as int
  }

  /** The number a string of digits denotes (leading zeros allowed). */
  function DigitsValue(s: string): (n: nat)
    requires forall i :: 0 <= i < |s| ==> IsDigitChar(s[i])
  {
    if s == [] then 0 else DigitsValue(s[..|s| - 1]) * 10 + DigitValue(s[|s| - 1])
  }

  /** The number a decimal string denotes. */
  function DecimalValue(s: string): nat
    requires IsDecimal(s)
  {
    DigitsValue(s)
  }

  /** `int(s)` for a string that passed `isdecimal`; `None` when it would not. */
  function ParseDecimal(s: string): (r: Option<nat>)
    ensures r.Some? <==> IsDecimal(s)
  {
    if IsDecimal(s) then Some(DigitsValue(s)) else None
  }

  /** The shortest decimal spelling of `n`. */
  function Render(n: nat): (s: string)
    ensures |s| > 0
    ensures forall i :: 0 <= i < |s| ==> IsDigitChar(s[i])
  {
    if n < 10 then [('0' as int + n) as char] else Render(n / 10) + [('0' as int + n % 10) as char]
  }

  /** Reading back what `Render` spells gives the number again. */
  lemma {:induction false} ParseRender(n: nat)
    ensures ParseDecimal(Render(n)) == Some(n)
  {
    var s := Render(n);
    if n >= 10 {
      ParseRender(n / 10);
      assert s[..|s| - 1] == Render(n / 10);
      assert DigitsValue(s) == (n / 10) * 10 + n % 10;
    } else {
      assert s[..0] == [];
    }
  }

  /** Only the digits count, so spellings with leading zeros read as the same number. */
  lemma {:induction false} LeadingZeroIgnored(s: string)
    requires IsDecimal(s)
    ensures ParseDecimal("0" + s) == ParseDecimal(s)
  {
    DigitsValueLeadingZero(s);
  }

  lemma {:induction false} DigitsValueLeadingZero(s: string)
    requires forall i :: 0 <= i < |s| ==> IsDigitChar(s[i])
    ensures DigitsValue("0" + s) == DigitsValue(s)
  {
    if s != [] {
      DigitsValueLeadingZero(s[..|s| - 1]);
      assert ("0" + s)[..|s|] == "0" + s[..|s| - 1];
    }
  }

  predicate IsAscii(bs: seq<Byte>)
  {
    forall i :: 0 <= i < |bs| ==> bs[i] < 128
  }

  /** The characters of ASCII bytes. */
  function AsciiChars(bs: seq<Byte>): (s: string)
    requires IsAscii(bs)
    ensures |s| == |bs|
    ensures forall i :: 0 <= i < |bs| ==> s[i] as int == bs[i]
  {
    seq(|bs|, i requires 0 <= i < |bs| => bs[i] as char)
  }

  /** The bytes of an ASCII string. */
  function AsciiBytes(s: string): (bs: seq<Byte>)
    requires forall i :: 0 <= i < |s| ==> s[i] as int < 128
    ensures |bs| == |s|
    ensures IsAscii(bs)
  {
    seq(|s|, i requires 0 <= i < |s| => s[i] as int)
  }

  /** `bytes_to_string`: text fields; bytes outside ASCII are refused. */
  function DecodeText(bs: seq<Byte>): (r: Result<Value, DecodeError>)
    ensures r.Success? <==> IsAscii(bs)
    ensures r.Success? ==> r.value.Text? && |r.value.s| == |bs|
  {
    if IsAscii(bs) then Success(Text(AsciiChars(bs))) else Failure(NotText)
  }

  /** `int(bytes)`: integer fields, non-empty ASCII digit strings only. */
  function DecodeInt(bs: seq<Byte>): (r: Result<Value, DecodeError>)
    ensures r.Success? <==> IsAscii(bs) && IsDecimal(AsciiChars(bs))
    ensures r.Success? ==> r.value.Int? && r.value.i >= 0
    ensures r.Success? ==> ParseDecimal(AsciiChars(bs)) == Some(r.value.i)
  {
    if IsAscii(bs) && IsDecimal(AsciiChars(bs)) then Success(Int(DigitsValue(AsciiChars(bs))))
    else Failure(NotInteger)
  }

  /** Text decoding and encoding undo each other. */
  lemma TextRoundTrip(s: string)
    requires forall i :: 0 <= i < |s| ==> s[i] as int < 128
    ensures DecodeText(AsciiBytes(s)) == Success(Text(s))
  {
    assert AsciiChars(AsciiBytes(s)) == s;
  }

  /** An integer written in decimal decodes to itself. */
  lemma IntRoundTrip(n: nat)
    ensures DecodeInt(AsciiBytes(Render(n))) == Success(Int(n))
  {
    var s := Render(n);
    assert AsciiChars(AsciiBytes(s)) == s;
    ParseRender(n);
  }

  /** `k` zero digits, the padding of a fixed-width numeric field. */
  function Zeros(k: nat): (z: string)
    ensures |z| == k
    ensures forall i :: 0 <= i < k ==> z[i] == '0'
  {
    seq(k, i => '0')
  }

  /** A number spelled with any number of leading zeros reads as that number. */
  lemma {:induction false} ParsePadded(n: nat, k: nat)
    ensures ParseDecimal(Zeros(k) + Render(n)) == Some(n)
  {
    if k == 0 {
      assert Zeros(0) + Render(n) == Render(n);
      ParseRender(n);
    } else {
      ParsePadded(n, k - 1);
      assert Zeros(k) + Render(n) == "0" + (Zeros(k - 1) + Render(n));
      LeadingZeroIgnored(Zeros(k - 1) + Render(n));
    }
  }

  /** A zero-padded integer field, such as the bytes of "0042", decodes to
      its number. */
  lemma PaddedIntRoundTrip(n: nat, k: nat)
    ensures forall i :: 0 <= i < |Zeros(k) + Render(n)| ==> (Zeros(k) + Render(n))[i] as int < 128
    ensures DecodeInt(AsciiBytes(Zeros(k) + Render(n))) == Success(Int(n))
  {
    var s := Zeros(k) + Render(n);
    assert AsciiChars(AsciiBytes(s)) == s;
    ParsePadded(n, k);
  }

  /** The `type_cast` chosen by the field's type letter. */
  function TypeCast(k: Kind, bs: seq<Byte>): (r: Result<Value, DecodeError>)
    ensures r.Success? ==> HasKind(r.value, k)
  {
    match k
    case TextKind => DecodeText(bs)
    case IntKind => DecodeInt(bs)
  }

  /** The bytes read for field `f` of the record starting at `start`. */
  function FieldBytes(data: seq<Byte>, start: nat, f: FieldSpec): seq<Byte>
  {
    Files.Slice(data, start + f.position, f.length)
  }

  /** Reads and decodes every field in order; the first field that fails
      to decode ends the record's indexing with its error. */
  function DecodeFields(data: seq<Byte>, specs: seq<FieldSpec>, start: nat): (r: Result<seq<Value>, DecodeError>)
  {
    if specs == [] then Success([])
    else
      match DecodeFields(data, specs[..|specs| - 1], start)
      case Failure(e) => Failure(e)
      case Success(vs) =>
        match TypeCast(specs[|specs| - 1].kind, FieldBytes(data, start, specs[|specs| - 1]))
        case Failure(e) => Failure(e)
        case Success(v) => Success(vs + [v])
  }

  /** True when field `f` of the record starting at `start` decodes. */
  predicate FieldDecodes(data: seq<Byte>, start: nat, f: FieldSpec)
  {
    TypeCast(f.kind, FieldBytes(data, start, f)).Success?
  }

  /** The decoded fields are one value per field spec. */
  lemma {:induction false} DecodeFieldsLength(data: seq<Byte>, specs: seq<FieldSpec>, start: nat, vs: seq<Value>)
    requires DecodeFields(data, specs, start) == Success(vs)
    ensures |vs| == |specs|
  {
    if specs != [] {
      var p := specs[..|specs| - 1];
      var pv := DecodeFields(data, p, start).value;
      DecodeFieldsLength(data, p, start, pv);
    }
  }

  /** The `i`-th decoded field is the decoding of the bytes that field spec
      `i` names (at `start + position`, `length` long), of the spec's kind. */
  lemma {:induction false} DecodeFieldsAt(data: seq<Byte>, specs: seq<FieldSpec>, start: nat, vs: seq<Value>, i: nat)
    requires DecodeFields(data, specs, start) == Success(vs) && i < |specs|
    ensures i < |vs| && TypeCast(specs[i].kind, FieldBytes(data, start, specs[i])) == Success(vs[i])
    ensures HasKind(vs[i], specs[i].kind)
  {
    var p := specs[..|specs| - 1];
    var pv := DecodeFields(data, p, start).value;
    var t := TypeCast(specs[|specs| - 1].kind, FieldBytes(data, start, specs[|specs| - 1]));
    assert vs == pv + [t.value];
    if i < |p| {
      DecodeFieldsAt(data, p, start, pv, i);
      assert p[i] == specs[i] && vs[i] == pv[i];
    } else {
      DecodeFieldsLength(data, p, start, pv);
    }
  }

  /** When every field's bytes decode, the record decodes. */
  lemma {:induction false} DecodeFieldsComplete(data: seq<Byte>, specs: seq<FieldSpec>, start: nat)
    requires forall i :: 0 <= i < |specs| ==> FieldDecodes(data, start, specs[i])
    ensures DecodeFields(data, specs, start).Success?
  {
    if specs != [] {
      var p := specs[..|specs| - 1];
      forall i | 0 <= i < |p| ensures FieldDecodes(data, start, p[i]) {
        assert p[i] == specs[i];
      }
      DecodeFieldsComplete(data, p, start);
      assert FieldDecodes(data, start, specs[|specs| - 1]);
    }
  }

  /** Decoding succeeds exactly when every field's bytes decode. */
  lemma DecodeFieldsSucceeds(data: seq<Byte>, specs: seq<FieldSpec>, start: nat)
    ensures DecodeFields(data, specs, start).Success? <==>
      forall i :: 0 <= i < |specs| ==> FieldDecodes(data, start, specs[i])
  {
    var r := DecodeFields(data, specs, start);
    if r.Success? {
      forall i | 0 <= i < |specs| ensures FieldDecodes(data, start, specs[i]) {
        DecodeFieldsAt(data, specs, start, r.value, i);
      }
    } else if forall i :: 0 <= i < |specs| ==> FieldDecodes(data, start, specs[i]) {
      DecodeFieldsComplete(data, specs, start);
    }
  }

  /** When a prefix of the specs fails to decode, the whole record fails with
      the same error: later fields are never decoded. */
  lemma {:induction false} DecodeFailureSticks(data: seq<Byte>, specs: seq<FieldSpec>, start: nat, j: nat)
    requires j <= |specs| && DecodeFields(data, specs[..j], start).Failure?
    ensures DecodeFields(data, specs, start) == DecodeFields(data, specs[..j], start)
  {
    if j < |specs| {
      assert specs[..|specs| - 1][..j] == specs[..j];
      DecodeFailureSticks(data, specs[..|specs| - 1], start, j);
    } else {
      assert specs[..j] == specs;
    }
  }
}
