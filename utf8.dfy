/**
 * UTF-8 conversion between byte strings and code points (utf8_utils.h / utf8_utils.cpp).
 * Code points are `uint32_t` values; the decoder never produces one of 2^21 or more, and the
 * encoder rejects any above 0x10FFFF. Surrogates and overlong forms are not rejected.
 */
module Utf8 {
  import opened Wrappers
  import opened Bytes

  const MaxCodepoint: nat := 0x10FFFF
  const LeadByteError: string := "Invalid UTF-8 lead byte"
  const IncompleteError: string := "Incomplete UTF-8 sequence"
  const ContinuationError: string := "Invalid UTF-8 continuation byte"
  const CodepointError: string := "Invalid Unicode codepoint"

  /** Number of bytes a sequence starting with `lead` occupies; 0 marks an invalid lead byte. */
  function SequenceLength(lead: byte): (n: nat)
    ensures n <= 4
    ensures n == 0 <==> Code(lead) >= 0xF8
    ensures Code(lead) < 0x80 <==> n == 1
    // continuation bytes and the overlong leads 0xC0, 0xC1 are taken as two-byte leads
    ensures 0x80 <= Code(lead) < 0xE0 <==> n == 2
    ensures 0xE0 <= Code(lead) < 0xF0 <==> n == 3
    ensures 0xF0 <= Code(lead) < 0xF8 <==> n == 4
  {
    var b := Code(lead);
    if b < 0x80 then 1
    else if b < 0xE0 then 2
    else if b < 0xF0 then 3
    else if b < 0xF8 then 4
    else 0
  }

  /**
   * The lenient lead-byte length of `Encoder::utf8_sequence_length` and of the unigram trainer's
   * chunking, computed with the same masks: bytes that cannot start a sequence (continuation
   * bytes and 0xF8-0xFF) count as one byte.
   */
  function LenientLength(lead: byte): (n: nat)
    ensures 1 <= n <= 4
  {
    var b := Code(lead) as bv8;
    if b < 0x80 then 1
    else if b & 0xE0 == 0xC0 then 2
    else if b & 0xF0 == 0xE0 then 3
    else if b & 0xF8 == 0xF0 then 4
    else 1
  }

  /** The masks pick out the ranges 0xC0-0xDF, 0xE0-0xEF and 0xF0-0xF7. */
  lemma LenientLengthRanges(lead: byte)
    ensures LenientLength(lead) == 2 <==> 0xC0 <= Code(lead) <= 0xDF
    ensures LenientLength(lead) == 3 <==> 0xE0 <= Code(lead) <= 0xEF
    ensures LenientLength(lead) == 4 <==> 0xF0 <= Code(lead) <= 0xF7
    ensures LenientLength(lead) == 1 <==> Code(lead) < 0xC0 || Code(lead) >= 0xF8
  {
    var b := Code(lead) as bv8;
    assert b & 0xE0 == 0xC0 <==> 0xC0 <= b <= 0xDF;
    assert b & 0xF0 == 0xE0 <==> 0xE0 <= b <= 0xEF;
    assert b & 0xF8 == 0xF0 <==> 0xF0 <= b <= 0xF7;
  }

  /** Where the strict table gives 2, 3 or 4 for a real lead byte, the lenient one agrees. */
  lemma LenientAgrees(lead: byte)
    requires Code(lead) < 0x80 || 0xC0 <= Code(lead) < 0xF8
    ensures LenientLength(lead) == SequenceLength(lead)
  {
    LenientLengthRanges(lead);
  }

  /** `(b & 0xC0) == 0x80`, computed on the bit pattern of the byte. */
  predicate IsContinuationByte(b: byte)
  {
    (Code(b) as bv8) & 0xC0 == 0x80
  }

  lemma ContinuationRange(b: byte)
    ensures IsContinuationByte(b) <==> 0x80 <= Code(b) <= 0xBF
  {
    var x := Code(b) as bv8;
    assert x & 0xC0 == 0x80 <==> 0x80 <= x <= 0xBF;
  }

  /** The code point and length of the first sequence of a non-empty byte string. */
  datatype Decoded = Decoded(cp: nat, len: nat)

  /** Value of a continuation byte's payload (`b & 0x3F`). */
  function Low6(b: byte): (n: nat)
    ensures n < 64
  {
    Code(b) % 64
  }

  /** One round of the decoding loop: the checks in source order, then the assembled code point. */
  function DecodeOne(s: Str): (r: Result<Decoded>)
    requires s != []
    ensures r.Ok? ==> r.value.len == SequenceLength(s[0]) && 1 <= r.value.len <= |s|
    ensures r.Ok? ==> r.value.cp < 0x200000
    ensures r.Err? ==> r.msg in {LeadByteError, IncompleteError, ContinuationError}
  {
    var lead := Code(s[0]);
    var len := SequenceLength(s[0]);
    if len == 0 then Err(LeadByteError)
    else if len > |s| then Err(IncompleteError)
    else if len == 1 then Ok(Decoded(lead, 1))
    else if len == 2 then
      if !IsContinuationByte(s[1]) then Err(ContinuationError)
      else Ok(Decoded((lead % 32) * 64 + Low6(s[1]), 2))
    else if len == 3 then
      if !IsContinuationByte(s[1]) || !IsContinuationByte(s[2]) then Err(ContinuationError)
      else Ok(Decoded((lead % 16) * 4096 + Low6(s[1]) * 64 + Low6(s[2]), 3))
    else
      if !IsContinuationByte(s[1]) || !IsContinuationByte(s[2]) || !IsContinuationByte(s[3])
      then Err(ContinuationError)
      else Ok(Decoded((lead % 8) * 262144 + Low6(s[1]) * 4096 + Low6(s[2]) * 64 + Low6(s[3]), 4))
  }

  /** A sequence decodes exactly when its lead is valid, it is complete and its tail bytes are continuations. */
  lemma DecodeOneOk(s: Str)
    requires s != []
    ensures DecodeOne(s).Ok? <==> SequenceLength(s[0]) != 0 && SequenceLength(s[0]) <= |s|
                                  && forall k :: 1 <= k < SequenceLength(s[0]) ==> IsContinuationByte(s[k])
  {
    var len := SequenceLength(s[0]);
    if DecodeOne(s).Ok? && len == 4 {
      assert IsContinuationByte(s[1]) && IsContinuationByte(s[2]) && IsContinuationByte(s[3]);
    }
  }

  function Prepend(cps: seq<nat>, r: Result<seq<nat>>): Result<seq<nat>>
  {
    match r
    case Ok(v) => Ok(cps + v)
    case Err(e) => Err(e)
  }

  lemma PrependPrepend(a: seq<nat>, b: seq<nat>, r: Result<seq<nat>>)
    ensures Prepend(a, Prepend(b, r)) == Prepend(a + b, r)
  {
    if r.Ok? { assert a + (b + r.value) == (a + b) + r.value; }
  }

  /** What `utf8_to_codepoints` returns or throws. */
  function Decode(s: Str): (r: Result<seq<nat>>)
    ensures r.Ok? ==> |r.value| <= |s|
    ensures s == [] ==> r == Ok([])
    decreases |s|
  {
    if s == [] then Ok([])
    else
      match DecodeOne(s)
      case Err(e) => Err(e)
      case Ok(d) => Prepend([d.cp], Decode(s[d.len..]))
  }

  /** Every decoded code point is below 2^21: at most 3 + 6 + 6 + 6 payload bits. */
  lemma {:induction false} DecodeBelow(s: Str)
    ensures Decode(s).Ok? ==> forall k :: 0 <= k < |Decode(s).value| ==> Decode(s).value[k] < 0x200000
    decreases |s|
  {
    if s != [] && DecodeOne(s).Ok? {
      var d := DecodeOne(s).value;
      DecodeBelow(s[d.len..]);
    }
  }

  /** The bytes `codepoints_to_utf8` emits for one code point, or the exception it throws. */
  function EncodeOne(cp: nat): (r: Result<Str>)
    ensures cp <= 0x7F ==> r.Ok? && |r.value| == 1
    ensures 0x7F < cp <= 0x7FF ==> r.Ok? && |r.value| == 2
    ensures 0x7FF < cp <= 0xFFFF ==> r.Ok? && |r.value| == 3
    ensures 0xFFFF < cp <= MaxCodepoint ==> r.Ok? && |r.value| == 4
    ensures cp > MaxCodepoint ==> r == Err(CodepointError)
  {
    if cp <= 0x7F then Ok([ByteOf(cp)])
    else if cp <= 0x7FF then Ok([ByteOf(0xC0 + cp / 64), ByteOf(0x80 + cp % 64)])
    else if cp <= 0xFFFF then
      Ok([ByteOf(0xE0 + cp / 4096), ByteOf(0x80 + (cp / 64) % 64), ByteOf(0x80 + cp % 64)])
    else if cp <= MaxCodepoint then
      Ok([ByteOf(0xF0 + cp / 262144), ByteOf(0x80 + (cp / 4096) % 64),
          ByteOf(0x80 + (cp / 64) % 64), ByteOf(0x80 + cp % 64)])
    else Err(CodepointError)
  }

  function AppendBytes(r: Result<Str>, tail: Result<Str>): Result<Str>
  {
    match r
    case Err(e) => Err(e)
    case Ok(v) => match tail { case Err(e) => Err(e) case Ok(w) => Ok(v + w) }
  }

  /** What `codepoints_to_utf8` returns or throws: the first code point out of range throws. */
  function Encode(cps: seq<nat>): (r: Result<Str>)
    ensures r.Err? ==> r.msg == CodepointError
    ensures r.Ok? ==> |cps| <= |r.value| <= 4 * |cps|
  {
    if cps == [] then Ok([])
    else AppendBytes(Encode(cps[..|cps| - 1]), EncodeOne(cps[|cps| - 1]))
  }

  /** Encoding succeeds exactly when no code point is above 0x10FFFF. */
  lemma {:induction false} EncodeOk(cps: seq<nat>)
    ensures Encode(cps).Ok? <==> forall k :: 0 <= k < |cps| ==> cps[k] <= MaxCodepoint
    decreases |cps|
  {
    if cps != [] {
      var init := cps[..|cps| - 1];
      EncodeOk(init);
      assert forall k :: 0 <= k < |init| ==> init[k] == cps[k];
    }
  }

  /** `utf8_to_codepoints`: reads one sequence per round and advances by its length. */
  method Utf8ToCodepoints(s: Str) returns (r: Result<seq<nat>>)
    ensures r == Decode(s)
  {
    var codepoints: seq<nat> := [];
    var i := 0;
    assert s[0..] == s;
    assert Prepend([], Decode(s)) == Decode(s) by {
      if Decode(s).Ok? { assert [] + Decode(s).value == Decode(s).value; }
    }
    while i < |s|
      invariant 0 <= i <= |s|
      invariant Decode(s) == Prepend(codepoints, Decode(s[i..]))
      decreases |s| - i
    {
      var d := ReadSequence(s, i);
      if d.Err? {
        return Err(d.msg);
      }
      DecodeAfter(s, i, codepoints, d.value);
      codepoints := codepoints + [d.value.cp];
      i := i + d.value.len;
    }
    assert s[i..] == [];
    assert codepoints + [] == codepoints;
    r := Ok(codepoints);
  }

  /** The loop invariant of `Utf8ToCodepoints`, carried over one decoded sequence. */
  lemma DecodeAfter(s: Str, i: nat, cps: seq<nat>, d: Decoded)
    requires i < |s| && DecodeOne(s[i..]) == Ok(d)
    requires Decode(s) == Prepend(cps, Decode(s[i..]))
    ensures i + d.len <= |s|
    ensures Decode(s) == Prepend(cps + [d.cp], Decode(s[i + d.len..]))
  {
    assert s[i..][d.len..] == s[i + d.len..];
    PrependPrepend(cps, [d.cp], Decode(s[i + d.len..]));
  }

  /** One round of `utf8_to_codepoints`: the sequence that starts at `i`. */
  method ReadSequence(s: Str, i: nat) returns (r: Result<Decoded>)
    requires i < |s|
    ensures r == DecodeOne(s[i..])
  {
    ghost var t := s[i..];
    var lead := Code(s[i]);
    var len := SequenceLength(s[i]);
    if len == 0 {
      return Err(LeadByteError);
    }
    if i + len > |s| {
      return Err(IncompleteError);
    }
    var cp: nat;
    if len == 1 {
      cp := lead;
    } else if len == 2 {
      if !IsContinuationByte(s[i + 1]) {
        assert t[1] == s[i + 1];
        return Err(ContinuationError);
      }
      cp := (lead % 32) * 64 + Low6(s[i + 1]);
    } else if len == 3 {
      if !IsContinuationByte(s[i + 1]) || !IsContinuationByte(s[i + 2]) {
        assert t[1] == s[i + 1] && t[2] == s[i + 2];
        return Err(ContinuationError);
      }
      cp := (lead % 16) * 4096 + Low6(s[i + 1]) * 64 + Low6(s[i + 2]);
    } else {
      if !IsContinuationByte(s[i + 1]) || !IsContinuationByte(s[i + 2]) || !IsContinuationByte(s[i + 3]) {
        assert t[1] == s[i + 1] && t[2] == s[i + 2] && t[3] == s[i + 3];
        return Err(ContinuationError);
      }
      cp := (lead % 8) * 262144 + Low6(s[i + 1]) * 4096 + Low6(s[i + 2]) * 64 + Low6(s[i + 3]);
    }
    assert len > 1 ==> t[1] == s[i + 1];
    assert len > 2 ==> t[2] == s[i + 2];
    assert len > 3 ==> t[3] == s[i + 3];
    return Ok(Decoded(cp, len));
  }

  /** `codepoints_to_utf8`: appends the bytes of each code point in turn. */
  method CodepointsToUtf8(cps: seq<nat>) returns (r: Result<Str>)
    ensures r == Encode(cps)
  {
    var out: Str := [];
    var k := 0;
    while k < |cps|
      invariant 0 <= k <= |cps|
      invariant Encode(cps[..k]) == Ok(out)
    {
      var cp := cps[k];
      assert cps[..k + 1][..k] == cps[..k];
      if cp <= 0x7F {
        out := out + [ByteOf(cp)];
      } else if cp <= 0x7FF {
        out := out + [ByteOf(0xC0 + cp / 64), ByteOf(0x80 + cp % 64)];
      } else if cp <= 0xFFFF {
        out := out + [ByteOf(0xE0 + cp / 4096), ByteOf(0x80 + (cp / 64) % 64), ByteOf(0x80 + cp % 64)];
      } else if cp <= MaxCodepoint {
        out := out + [ByteOf(0xF0 + cp / 262144), ByteOf(0x80 + (cp / 4096) % 64),
                      ByteOf(0x80 + (cp / 64) % 64), ByteOf(0x80 + cp % 64)];
      } else {
        EncodeRejectsAt(cps, k);
        return Err(CodepointError);
      }
      k := k + 1;
    }
    assert cps[..k] == cps;
    r := Ok(out);
  }

  lemma {:induction false} EncodeRejectsAt(cps: seq<nat>, k: nat)
    requires k < |cps| && cps[k] > MaxCodepoint
    ensures Encode(cps) == Err(CodepointError)
  {
    EncodeOk(cps);
  }

  /** `is_valid_utf8`: true exactly when `utf8_to_codepoints` does not throw. */
  method IsValidUtf8(s: Str) returns (valid: bool)
    ensures valid <==> Decode(s).Ok?
  {
    var r := Utf8ToCodepoints(s);
    valid := r.Ok?;
  }

  lemma Decode2(cp: nat, rest: Str)
    requires 0x7F < cp <= 0x7FF
    ensures DecodeOne(EncodeOne(cp).value + rest) == Ok(Decoded(cp, 2))
  {
    var s := EncodeOne(cp).value + rest;
    var q := cp / 64;
    assert Code(s[0]) == 192 + q && q < 32;
    assert Code(s[0]) % 32 == q;
    assert Code(s[1]) == 128 + cp % 64;
    ContinuationRange(s[1]);
    assert q * 64 + cp % 64 == cp;
  }

  lemma Decode3(cp: nat, rest: Str)
    requires 0x7FF < cp <= 0xFFFF
    ensures DecodeOne(EncodeOne(cp).value + rest) == Ok(Decoded(cp, 3))
  {
    var s := EncodeOne(cp).value + rest;
    var a := cp / 64;
    var q := cp / 4096;
    assert q == a / 64;
    assert Code(s[0]) == 224 + q && q < 16;
    assert Code(s[0]) % 16 == q;
    ContinuationRange(s[1]);
    ContinuationRange(s[2]);
    assert Low6(s[1]) == a % 64;
    assert Low6(s[2]) == cp % 64;
    assert cp == a * 64 + cp % 64;
    assert a == q * 64 + a % 64;
  }

  lemma Split4(cp: nat)
    ensures cp == (cp / 262144) * 262144 + ((cp / 4096) % 64) * 4096 + ((cp / 64) % 64) * 64 + cp % 64
  {
    var a := cp / 64;
    var b := a / 64;
    var q := b / 64;
    assert cp == a * 64 + cp % 64;
    assert a == b * 64 + a % 64;
    assert b == q * 64 + b % 64;
    assert 4096 * b <= cp < 4096 * b + 4096;
    assert cp / 4096 == b;
    assert 262144 * q <= cp < 262144 * q + 262144;
    assert cp / 262144 == q;
  }

  lemma Decode4(cp: nat, rest: Str)
    requires 0xFFFF < cp <= MaxCodepoint
    ensures DecodeOne(EncodeOne(cp).value + rest) == Ok(Decoded(cp, 4))
  {
    var s := EncodeOne(cp).value + rest;
    var q := cp / 262144;
    assert Code(s[0]) == 240 + q && q < 8;
    assert Code(s[1]) == 128 + (cp / 4096) % 64;
    assert Code(s[2]) == 128 + (cp / 64) % 64;
    assert Code(s[3]) == 128 + cp % 64;
    DecodeOne4(s, q, (cp / 4096) % 64, (cp / 64) % 64, cp % 64);
    Split4(cp);
  }

  /** A four-byte sequence with lead `0xF0 + q` and payloads `x`, `y`, `z`. */
  lemma DecodeOne4(s: Str, q: nat, x: nat, y: nat, z: nat)
    requires |s| >= 4 && q < 8 && x < 64 && y < 64 && z < 64
    requires Code(s[0]) == 240 + q && Code(s[1]) == 128 + x && Code(s[2]) == 128 + y && Code(s[3]) == 128 + z
    ensures DecodeOne(s) == Ok(Decoded(q * 262144 + x * 4096 + y * 64 + z, 4))
  {
    ContinuationRange(s[1]);
    ContinuationRange(s[2]);
    ContinuationRange(s[3]);
    assert Code(s[0]) % 8 == q;
  }

  lemma EncodeOneDecodes(cp: nat, rest: Str)
    requires cp <= MaxCodepoint
    ensures EncodeOne(cp).Ok?
    ensures DecodeOne(EncodeOne(cp).value + rest) == Ok(Decoded(cp, |EncodeOne(cp).value|))
  {
    if cp <= 0x7F {
    } else if cp <= 0x7FF {
      Decode2(cp, rest);
    } else if cp <= 0xFFFF {
      Decode3(cp, rest);
    } else {
      Decode4(cp, rest);
    }
  }

  /** Decoding what the encoder produced gives back the code points (surrogates included). */
  lemma {:induction false} RoundTrip(cps: seq<nat>)
    requires forall k :: 0 <= k < |cps| ==> cps[k] <= MaxCodepoint
    ensures Encode(cps).Ok? && Decode(Encode(cps).value) == Ok(cps)
    decreases |cps|
  {
    if cps != [] {
      RoundTripFrom(cps, 0);
      assert cps[0..] == cps;
    }
  }

  lemma {:induction false} RoundTripFrom(cps: seq<nat>, k: nat)
    requires k <= |cps|
    requires forall j :: 0 <= j < |cps| ==> cps[j] <= MaxCodepoint
    ensures Encode(cps[k..]).Ok? && Decode(Encode(cps[k..]).value) == Ok(cps[k..])
    decreases |cps| - k
  {
    if k == |cps| {
    } else {
      RoundTripFrom(cps, k + 1);
      var head := EncodeOne(cps[k]).value;
      var tail := Encode(cps[k + 1..]).value;
      EncodeCons(cps[k], cps[k + 1..]);
      assert [cps[k]] + cps[k + 1..] == cps[k..];
      EncodeOneDecodes(cps[k], tail);
      assert (head + tail)[|head|..] == tail;
    }
  }

  lemma EncodeSnoc(cps: seq<nat>, cp: nat)
    ensures Encode(cps + [cp]) == AppendBytes(Encode(cps), EncodeOne(cp))
  {
    assert (cps + [cp])[..|cps|] == cps;
  }

  lemma AppendBytesAssoc(a: Result<Str>, b: Result<Str>, c: Result<Str>)
    ensures AppendBytes(AppendBytes(a, b), c) == AppendBytes(a, AppendBytes(b, c))
  {
    if a.Ok? && b.Ok? && c.Ok? {
      assert a.value + b.value + c.value == a.value + (b.value + c.value);
    }
  }

  /** Encoding a code point in front encodes it first. */
  lemma {:induction false} EncodeCons(cp: nat, cps: seq<nat>)
    ensures Encode([cp] + cps) == AppendBytes(EncodeOne(cp), Encode(cps))
    decreases |cps|
  {
    if cps == [] {
      assert [cp] + cps == [] + [cp];
      EncodeSnoc([], cp);
      match EncodeOne(cp) {
        case Err(_) =>
        case Ok(v) => assert [] + v == v + [];
      }
    } else {
      var last := cps[|cps| - 1];
      var init := cps[..|cps| - 1];
      EncodeCons(cp, init);
      assert cps == init + [last];
      assert [cp] + cps == ([cp] + init) + [last];
      EncodeSnoc([cp] + init, last);
      EncodeSnoc(init, last);
      AppendBytesAssoc(EncodeOne(cp), Encode(init), EncodeOne(last));
    }
  }
}
