/**
 * Text and bytes: the encoding `str::as_bytes` exposes (UTF-8) and the lossy decoding
 * `String::from_utf8_lossy` performs on the request buffer. Dafny's `char` is a Unicode
 * scalar value, which is what a Rust `char` is.
 */
module Utf8 {

  newtype byte = b: int | 0 <= b < 0x100

  /** U+FFFD, which lossy decoding puts in place of each maximal invalid subpart. */
  const Replacement: char := 0xFFFD as char

  predicate IsContinuation(b: byte) { 0x80 <= b <= 0xBF }

  predicate IsAscii(s: string) { forall i :: 0 <= i < |s| ==> s[i] as int < 0x80 }

  /** The UTF-8 encoding of one scalar value: 1 to 4 bytes. */
  function EncodeChar(c: char): (b: seq<byte>)
    ensures 1 <= |b| <= 4
    ensures |b| == 1 <==> c as int < 0x80
    ensures |b| == 1 ==> b[0] as int == c as int
    ensures |b| > 1 ==> forall i :: 0 <= i < |b| ==> b[i] >= 0x80
  {
    var n := c as int;
    if n < 0x80 then [n as byte]
    else if n < 0x800 then [(0xC0 + n / 64) as byte, (0x80 + n % 64) as byte]
    else if n < 0x1_0000 then
      [(0xE0 + n / 4096) as byte, (0x80 + n / 64 % 64) as byte, (0x80 + n % 64) as byte]
    else
      [(0xF0 + n / 262144) as byte, (0x80 + n / 4096 % 64) as byte,
       (0x80 + n / 64 % 64) as byte, (0x80 + n % 64) as byte]
  }

  /** The bytes `s.as_bytes()` yields for a Rust string holding the scalar values of `s`. */
  function Encode(s: string): (e: seq<byte>)
    ensures |e| >= |s|
  {
    if s == [] then [] else EncodeChar(s[0]) + Encode(s[1..])
  }

  /** Continuation test that treats a position past the end as an invalid byte. */
  predicate ContinuationAt(b: seq<byte>, i: nat)
  {
    i < |b| && IsContinuation(b[i])
  }

  /**
   * One step of lossy decoding at the front of `b`: the scalar value of a complete
   * well-formed sequence and its length, or U+FFFD and the length of the maximal
   * invalid subpart (the lead byte and the continuation bytes that were still valid).
   */
  function DecodeStep(b: seq<byte>): (r: (char, nat))
    requires b != []
    ensures 1 <= r.1 <= |b|
  {
    var b0 := b[0] as int;
    if b0 < 0x80 then
      (b0 as char, 1)
    else if 0xC2 <= b0 <= 0xDF then
      if ContinuationAt(b, 1) then
        (((b0 - 0xC0) * 64 + (b[1] as int - 0x80)) as char, 2)
      else (Replacement, 1)
    else if 0xE0 <= b0 <= 0xEF then
      var lo := if b0 == 0xE0 then 0xA0 else 0x80;
      var hi := if b0 == 0xED then 0x9F else 0xBF;
      if !(1 < |b| && lo <= b[1] as int <= hi) then (Replacement, 1)
      else if !ContinuationAt(b, 2) then (Replacement, 2)
      else
        (((b0 - 0xE0) * 4096 + (b[1] as int - 0x80) * 64 + (b[2] as int - 0x80)) as char, 3)
    else if 0xF0 <= b0 <= 0xF4 then
      var lo := if b0 == 0xF0 then 0x90 else 0x80;
      var hi := if b0 == 0xF4 then 0x8F else 0xBF;
      if !(1 < |b| && lo <= b[1] as int <= hi) then (Replacement, 1)
      else if !ContinuationAt(b, 2) then (Replacement, 2)
      else if !ContinuationAt(b, 3) then (Replacement, 3)
      else
        (((b0 - 0xF0) * 262144 + (b[1] as int - 0x80) * 4096
         + (b[2] as int - 0x80) * 64 + (b[3] as int - 0x80)) as char, 4)
    else
      (Replacement, 1)
  }

  /** `String::from_utf8_lossy`: decode step by step, one scalar value or one U+FFFD per step. */
  function DecodeLossy(b: seq<byte>): (s: string)
    ensures |s| <= |b|
    ensures s == [] <==> b == []
    decreases |b|
  {
    if b == [] then []
    else
      var step := DecodeStep(b);
      [step.0] + DecodeLossy(b[step.1..])
  }

  /** `n` zero bytes, the untouched tail of a zero-initialised buffer. */
  function Zeros(n: nat): (z: seq<byte>)
    ensures |z| == n && forall i :: 0 <= i < n ==> z[i] == 0
  {
    seq(n, _ => 0)
  }

  /** `n` NUL characters. */
  function Nuls(n: nat): (z: string)
    ensures |z| == n && forall i :: 0 <= i < n ==> z[i] == 0 as char
  {
    seq(n, _ => 0 as char)
  }

  lemma DecodeStepTwoBytes(c: char, rest: seq<byte>)
    requires 0x80 <= c as int < 0x800
    ensures DecodeStep(EncodeChar(c) + rest) == (c, 2)
  {
    var n := c as int;
    assert n == (n / 64) * 64 + n % 64;
  }

  lemma DecodeStepThreeBytes(c: char, rest: seq<byte>)
    requires 0x800 <= c as int < 0x1_0000
    ensures DecodeStep(EncodeChar(c) + rest) == (c, 3)
  {
    var n := c as int;
    var q := n / 64;
    assert n == q * 64 + n % 64;
    assert q == (n / 4096) * 64 + q % 64;
    var b := EncodeChar(c) + rest;
    assert b[0] as int == 0xE0 + n / 4096 && b[1] as int == 0x80 + q % 64 && b[2] as int == 0x80 + n % 64;
  }

  lemma DecodeStepFourBytes(c: char, rest: seq<byte>)
    requires 0x1_0000 <= c as int
    ensures DecodeStep(EncodeChar(c) + rest) == (c, 4)
  {
    var n := c as int;
    var q := n / 64;
    var q2 := n / 4096;
    assert n == q * 64 + n % 64;
    assert q == q2 * 64 + q % 64;
    assert q2 == (n / 262144) * 64 + q2 % 64;
    var b := EncodeChar(c) + rest;
    assert b[0] as int == 0xF0 + n / 262144 && b[1] as int == 0x80 + q2 % 64;
    assert b[2] as int == 0x80 + q % 64 && b[3] as int == 0x80 + n % 64;
  }

  /** Lossy decoding reads back exactly the scalar value whose encoding leads the buffer. */
  lemma DecodeStepEncodeChar(c: char, rest: seq<byte>)
    ensures DecodeStep(EncodeChar(c) + rest) == (c, |EncodeChar(c)|)
  {
    var n := c as int;
    if n < 0x80 {
    } else if n < 0x800 {
      DecodeStepTwoBytes(c, rest);
    } else if n < 0x1_0000 {
      DecodeStepThreeBytes(c, rest);
    } else {
      DecodeStepFourBytes(c, rest);
    }
  }

  /** Encoding distributes over concatenation. */
  lemma {:induction false} EncodeAppend(a: string, b: string)
    ensures Encode(a + b) == Encode(a) + Encode(b)
  {
    if a == [] {
      assert a + b == b;
    } else {
      assert (a + b)[1..] == a[1..] + b;
      EncodeAppend(a[1..], b);
    }
  }

  lemma ConsAppend<T>(x: seq<T>, y: seq<T>)
    requires x != []
    ensures x + y == [x[0]] + (x[1..] + y)
  {
  }

  /** Decoding an encoded scalar value at the front of a buffer yields it and moves past it. */
  lemma DecodeLossyEncodeChar(c: char, tail: seq<byte>)
    ensures DecodeLossy(EncodeChar(c) + tail) == [c] + DecodeLossy(tail)
  {
    var e := EncodeChar(c);
    var b := e + tail;
    DecodeStepEncodeChar(c, tail);
    assert b[|e|..] == tail;
  }

  /** Decoding the encoding of `s` followed by anything yields `s` first. */
  lemma {:induction false} DecodeEncode(s: string, rest: seq<byte>)
    ensures DecodeLossy(Encode(s) + rest) == s + DecodeLossy(rest)
  {
    if s == [] {
      assert Encode(s) + rest == rest;
    } else {
      var tail := Encode(s[1..]) + rest;
      assert Encode(s) + rest == EncodeChar(s[0]) + tail;
      DecodeLossyEncodeChar(s[0], tail);
      DecodeEncode(s[1..], rest);
      ConsAppend(s, DecodeLossy(rest));
    }
  }

  /** Well-formed UTF-8 decodes losslessly: `from_utf8_lossy(s.as_bytes()) == s`. */
  lemma DecodeEncodeRoundTrip(s: string)
    ensures DecodeLossy(Encode(s)) == s
  {
    DecodeEncode(s, []);
    assert Encode(s) + [] == Encode(s);
    assert s + [] == s;
  }

  /** A run of zero bytes decodes to as many NUL characters. */
  lemma {:induction false} DecodeZeros(n: nat)
    ensures DecodeLossy(Zeros(n)) == Nuls(n)
  {
    if n > 0 {
      assert Zeros(n)[1..] == Zeros(n - 1);
      DecodeZeros(n - 1);
      assert Nuls(n) == [0 as char] + Nuls(n - 1);
    }
  }

  /** On ASCII text the encoding is the identity on code points. */
  lemma {:induction false} EncodeAscii(s: string)
    requires IsAscii(s)
    ensures |Encode(s)| == |s|
    ensures forall i :: 0 <= i < |s| ==> Encode(s)[i] as int == s[i] as int
  {
    if s != [] {
      EncodeAscii(s[1..]);
    }
  }

  /** An ASCII byte occurs in an encoding exactly where its character occurs in the text. */
  lemma {:induction false} EncodeAsciiByte(s: string, v: byte)
    requires v < 0x80
    ensures v in Encode(s) <==> (v as int) as char in s
  {
    if s != [] {
      EncodeAsciiByte(s[1..], v);
      assert Encode(s) == EncodeChar(s[0]) + Encode(s[1..]);
      assert s == [s[0]] + s[1..];
    }
  }
}
