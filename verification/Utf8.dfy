/** The UTF-8 check against the encoding it recognises: a byte string passes exactly when it is the encoding
    of a sequence of Unicode scalar values.
 */
module Utf8 {
  import opened Base
  import opened Codec

  /** A code point that is not a surrogate. */
  type Scalar = c: nat | c < 0xD800 || 0xE000 <= c < 0x11_0000

  function EncodeScalar(c: Scalar): (e: seq<byte>)
    ensures |e| >= 1
  {
    var c1 := c / 64;
    var c2 := c1 / 64;
    if c < 0x80 then [c]
    else if c < 0x800 then [0xC0 + c1, 0x80 + c % 64]
    else if c < 0x1_0000 then [0xE0 + c2, 0x80 + c1 % 64, 0x80 + c % 64]
    else [0xF0 + c2 / 64, 0x80 + c2 % 64, 0x80 + c1 % 64, 0x80 + c % 64]
  }

  function EncodeScalars(cs: seq<Scalar>): seq<byte> {
    if cs == [] then [] else EncodeScalar(cs[0]) + EncodeScalars(cs[1..])
  }

  /** The number of bytes a lead byte announces. */
  function Width(lead: byte): nat {
    if lead < 0x80 then 1 else if lead < 0xE0 then 2 else if lead < 0xF0 then 3 else 4
  }

  /** One well-formed sequence at the front. */
  predicate StartsScalar(e: seq<byte>) {
    && e != [] && |e| >= Width(e[0])
    && match Width(e[0])
       case 1 => true
       case 2 => e[0] >= 0xC2 && Tail(e[1])
       case 3 => Tail(e[1]) && Tail(e[2]) && (e[0] == 0xE0 ==> e[1] >= 0xA0) && (e[0] == 0xED ==> e[1] < 0xA0)
       case _ =>
         && e[0] <= 0xF4 && Tail(e[1]) && Tail(e[2]) && Tail(e[3])
         && (e[0] == 0xF0 ==> e[1] >= 0x90) && (e[0] == 0xF4 ==> e[1] < 0x90)
  }

  lemma PeelScalar(e: seq<byte>)
    requires e != []
    ensures IsUtf8(e) <==> StartsScalar(e) && IsUtf8(e[Width(e[0])..])
  {}

  lemma ScalarStarts(c: Scalar, rest: seq<byte>)
    ensures var e := EncodeScalar(c) + rest;
      StartsScalar(e) && Width(e[0]) == |EncodeScalar(c)| && e[Width(e[0])..] == rest
  {
    var e := EncodeScalar(c);
    assert forall k :: 0 <= k < |e| ==> (e + rest)[k] == e[k];
  }

  lemma {:induction false} EncodedIsUtf8(cs: seq<Scalar>)
    ensures IsUtf8(EncodeScalars(cs))
    decreases |cs|
  {
    hide IsUtf8, EncodeScalar, StartsScalar;
    if cs == [] {
      NothingIsUtf8();
    } else {
      EncodedIsUtf8(cs[1..]);
      ScalarStarts(cs[0], EncodeScalars(cs[1..]));
      PeelScalar(EncodeScalars(cs));
    }
  }

  lemma NothingIsUtf8()
    ensures IsUtf8([])
  {}

  /** One more six-bit group below `high`. */
  function Grown(high: nat, tail: byte): nat
    requires Tail(tail)
  {
    64 * high + (tail - 0x80)
  }

  function Decoded(e: seq<byte>): nat
    requires StartsScalar(e)
  {
    match Width(e[0])
    case 1 => e[0]
    case 2 => Grown(e[0] - 0xC0, e[1])
    case 3 => Grown(Grown(e[0] - 0xE0, e[1]), e[2])
    case _ => Grown(Grown(Grown(e[0] - 0xF0, e[1]), e[2]), e[3])
  }

  lemma GrownDivides(high: nat, tail: byte)
    requires Tail(tail)
    ensures Grown(high, tail) / 64 == high && 0x80 + Grown(high, tail) % 64 == tail
  {}

  lemma DecodedIsScalar(e: seq<byte>)
    requires StartsScalar(e)
    ensures var c := Decoded(e);
      (c < 0xD800 || 0xE000 <= c < 0x11_0000) && EncodeScalar(c) == e[..Width(e[0])]
  {
    var a := e[0];
    match Width(a) {
      case 1 =>
      case 2 => GrownDivides(a - 0xC0, e[1]);
      case 3 =>
        GrownDivides(a - 0xE0, e[1]);
        GrownDivides(Grown(a - 0xE0, e[1]), e[2]);
      case _ =>
        GrownDivides(a - 0xF0, e[1]);
        GrownDivides(Grown(a - 0xF0, e[1]), e[2]);
        GrownDivides(Grown(Grown(a - 0xF0, e[1]), e[2]), e[3]);
    }
  }

  lemma {:induction false} Utf8IsEncoded(e: seq<byte>) returns (cs: seq<Scalar>)
    requires IsUtf8(e)
    ensures e == EncodeScalars(cs)
    decreases |e|
  {
    hide IsUtf8, EncodeScalar, Decoded;
    if e == [] {
      cs := [];
    } else {
      PeelScalar(e);
      DecodedIsScalar(e);
      var rest := Utf8IsEncoded(e[Width(e[0])..]);
      cs := [Decoded(e)] + rest;
      assert cs[1..] == rest;
      assert e == e[..Width(e[0])] + e[Width(e[0])..];
    }
  }

  /** The check accepts exactly the encodings of scalar values. */
  lemma Utf8Exactly(e: seq<byte>)
    ensures IsUtf8(e) <==> exists cs :: e == EncodeScalars(cs)
  {
    hide IsUtf8, EncodeScalars;
    if IsUtf8(e) { var cs := Utf8IsEncoded(e); }
    if exists cs :: e == EncodeScalars(cs) {
      var cs :| e == EncodeScalars(cs);
      EncodedIsUtf8(cs);
    }
  }
}
