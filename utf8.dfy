/** The program's two UTF-8 helpers: the encoder used when a code point is
    typed, and the backward scan that sizes the last character for Backspace. */
module Utf8 {
  import opened Base

  /** The top two bits of `b` are `10`: a continuation byte. */
  predicate IsContinuation(b: byte) {
    0x80 <= b < 0xC0
  }

  /** Encodes a code point with the bit layout of section 3 of RFC 3629.
      Surrogates (U+D800 to U+DFFF) are encoded like any other code point;
      above U+10FFFF nothing is written. The C code combines the marker bits
      with `|`; the marker and payload bits never overlap, so `+` is the same. */
  function Encode(cp: nat): (r: Bytes)
    ensures cp <= 0x7F <==> |r| == 1
    ensures 0x7F < cp <= 0x7FF <==> |r| == 2
    ensures 0x7FF < cp <= 0xFFFF <==> |r| == 3
    ensures 0xFFFF < cp <= 0x10FFFF <==> |r| == 4
    ensures 0x10FFFF < cp <==> r == []
    ensures r != [] ==> !IsContinuation(r[0])
    ensures forall i :: 1 <= i < |r| ==> IsContinuation(r[i])
    ensures cp > 0 ==> NoNul(r)
  {
    if cp <= 0x7F then
      [cp as byte]
    else if cp <= 0x7FF then
      [(0xC0 + cp / 0x40) as byte,
       (0x80 + cp % 0x40) as byte]
    else if cp <= 0xFFFF then
      [(0xE0 + cp / 0x1000) as byte,
       (0x80 + cp / 0x40 % 0x40) as byte,
       (0x80 + cp % 0x40) as byte]
    else if cp <= 0x10FFFF then
      [(0xF0 + cp / 0x40000) as byte,
       (0x80 + cp / 0x1000 % 0x40) as byte,
       (0x80 + cp / 0x40 % 0x40) as byte,
       (0x80 + cp % 0x40) as byte]
    else
      []
  }

  /** The number of bytes that a sequence starting with lead byte `b` has
      under RFC 3629, or 0 for a byte that cannot start one. */
  function SequenceLength(b: byte): nat {
    if b < 0x80 then 1
    else if 0xC0 <= b < 0xE0 then 2
    else if 0xE0 <= b < 0xF0 then 3
    else if 0xF0 <= b < 0xF8 then 4
    else 0
  }

  /** The payload bits of continuation byte `b`. */
  function Payload(b: byte): nat {
    b as nat % 0x40
  }

  /** Every byte after the first is a continuation byte. */
  predicate TailIsContinuation(b: Bytes) {
    forall i :: 1 <= i < |b| ==> IsContinuation(b[i])
  }

  /** Decodes exactly one encoded character, reading the lead byte's pattern
      and the `10xxxxxx` continuation bytes. Overlong forms and values above
      U+10FFFF are refused; surrogates are accepted, as the encoder writes them. */
  function Decode(b: Bytes): (r: Option<nat>) {
    if |b| == 0 || |b| != SequenceLength(b[0]) || !TailIsContinuation(b) then None
    else
      var cp :=
        if |b| == 1 then b[0] as nat
        else if |b| == 2 then (b[0] as nat - 0xC0) * 0x40 + Payload(b[1])
        else if |b| == 3 then (b[0] as nat - 0xE0) * 0x1000 + Payload(b[1]) * 0x40 + Payload(b[2])
        else (b[0] as nat - 0xF0) * 0x40000 + Payload(b[1]) * 0x1000 + Payload(b[2]) * 0x40 + Payload(b[3]);
      var least := if |b| == 1 then 0 else if |b| == 2 then 0x80 else if |b| == 3 then 0x800 else 0x10000;
      if least <= cp <= 0x10FFFF then Some(cp) else None
  }

  /** Splitting `q * 64 + p` back into its two parts. */
  lemma DivMod64(q: nat, p: nat)
    requires p < 0x40
    ensures (q * 0x40 + p) / 0x40 == q && (q * 0x40 + p) % 0x40 == p
  {
  }

  /** `x` split into its quotient and remainder by 64. */
  lemma Split64(x: nat)
    ensures x == x / 0x40 * 0x40 + x % 0x40 && x % 0x40 < 0x40
  {
  }

  /** Dividing by 4096 or by 262144 is dividing by 64 repeatedly. */
  lemma DivDiv64(x: nat)
    ensures x / 0x1000 == x / 0x40 / 0x40
    ensures x / 0x40000 == x / 0x1000 / 0x40
  {
  }

  lemma DecodeEncode2(cp: nat)
    requires 0x7F < cp <= 0x7FF
    ensures Decode(Encode(cp)) == Some(cp)
  {
    var e := Encode(cp);
    DivMod64(cp / 0x40, cp % 0x40);
    assert Payload(e[1]) == cp % 0x40;
  }

  lemma DecodeEncode3(cp: nat)
    requires 0x7FF < cp <= 0xFFFF
    ensures Decode(Encode(cp)) == Some(cp)
  {
    var e := Encode(cp);
    var m := cp / 0x40;
    Split64(cp);
    Split64(m);
    assert m / 0x40 == cp / 0x1000;
    assert Payload(e[1]) == m % 0x40;
    assert Payload(e[2]) == cp % 0x40;
  }

  lemma DecodeEncode4(cp: nat)
    requires 0xFFFF < cp <= 0x10FFFF
    ensures Decode(Encode(cp)) == Some(cp)
  {
    var e := Encode(cp);
    var h, m := cp / 0x1000, cp / 0x40;
    Split64(cp);
    Split64(m);
    Split64(h);
    assert m / 0x40 == h;
    assert h / 0x40 == cp / 0x40000;
    assert Payload(e[1]) == h % 0x40;
    assert Payload(e[2]) == m % 0x40;
    assert Payload(e[3]) == cp % 0x40;
  }

  /** Decoding what the encoder writes gives the code point back. */
  lemma DecodeEncode(cp: nat)
    ensures Decode(Encode(cp)) == if cp <= 0x10FFFF then Some(cp) else None
  {
    if 0x7F < cp <= 0x7FF {
      DecodeEncode2(cp);
    } else if 0x7FF < cp <= 0xFFFF {
      DecodeEncode3(cp);
    } else if 0xFFFF < cp <= 0x10FFFF {
      DecodeEncode4(cp);
    }
  }

  lemma EncodeDecode2(b: Bytes)
    requires |b| == 2 && Decode(b).Some?
    ensures Encode(Decode(b).value) == b
  {
    var cp := Decode(b).value;
    assert IsContinuation(b[1]);
    DivMod64(b[0] as nat - 0xC0, Payload(b[1]));
    assert Encode(cp) == [b[0], b[1]];
  }

  lemma EncodeDecode3(b: Bytes)
    requires |b| == 3 && Decode(b).Some?
    ensures Encode(Decode(b).value) == b
  {
    var cp := Decode(b).value;
    assert IsContinuation(b[1]) && IsContinuation(b[2]);
    var m := (b[0] as nat - 0xE0) * 0x40 + Payload(b[1]);
    assert cp == m * 0x40 + Payload(b[2]);
    DivMod64(m, Payload(b[2]));
    DivMod64(b[0] as nat - 0xE0, Payload(b[1]));
    DivDiv64(cp);
    assert Encode(cp) == [b[0], b[1], b[2]];
  }

  /** The encoder's four bytes for the code point with lead bits `q` and
      payloads `p1`, `p2`, `p3`. */
  lemma EncodeFour(cp: nat, q: nat, p1: nat, p2: nat, p3: nat)
    requires p1 < 0x40 && p2 < 0x40 && p3 < 0x40 && q < 8
    requires cp == ((q * 0x40 + p1) * 0x40 + p2) * 0x40 + p3 && 0xFFFF < cp <= 0x10FFFF
    ensures Encode(cp) == [(0xF0 + q) as byte, (0x80 + p1) as byte, (0x80 + p2) as byte, (0x80 + p3) as byte]
  {
    var h := q * 0x40 + p1;
    var m := h * 0x40 + p2;
    DivMod64(m, p3);
    DivMod64(h, p2);
    DivMod64(q, p1);
    DivDiv64(cp);
    assert cp / 0x40000 == q && cp / 0x1000 == h && cp / 0x40 == m;
  }

  /** A continuation byte is its payload above 0x80. */
  lemma ContinuationPayload(b: byte)
    requires IsContinuation(b)
    ensures (0x80 + Payload(b)) as byte == b
  {
  }

  lemma EncodeDecode4(b: Bytes)
    requires |b| == 4 && Decode(b).Some?
    ensures Encode(Decode(b).value) == b
  {
    var cp := Decode(b).value;
    assert IsContinuation(b[1]) && IsContinuation(b[2]) && IsContinuation(b[3]);
    EncodeFour(cp, b[0] as nat - 0xF0, Payload(b[1]), Payload(b[2]), Payload(b[3]));
    ContinuationPayload(b[1]);
    ContinuationPayload(b[2]);
    ContinuationPayload(b[3]);
  }

  /** Every byte sequence that decodes is the encoding of what it decodes to. */
  lemma EncodeDecode(b: Bytes)
    requires Decode(b).Some?
    ensures Encode(Decode(b).value) == b
  {
    if |b| == 2 {
      EncodeDecode2(b);
    } else if |b| == 3 {
      EncodeDecode3(b);
    } else if |b| == 4 {
      EncodeDecode4(b);
    }
  }

  /** The index at which the scan of `get_last_utf8_char_bytes` stops when it
      starts at `i`: it steps back over continuation bytes, never past 0. */
  function CharStart(s: Bytes, i: nat): (r: nat)
    requires i < |s|
    ensures r <= i
    ensures forall k :: r < k <= i ==> IsContinuation(s[k])
    ensures r == 0 || !IsContinuation(s[r])
    decreases i
  {
    if i > 0 && IsContinuation(s[i]) then CharStart(s, i - 1) else i
  }

  /** `k` bytes at the end of `s` form its last character as the program
      sizes it: the bytes after the first of them are continuation bytes,
      and the first is not one, or is the first byte of `s`. */
  predicate IsLastCharSize(s: Bytes, k: nat) {
    if |s| == 0 then k == 0
    else
      && 1 <= k <= |s|
      && (forall j :: |s| - k < j < |s| ==> IsContinuation(s[j]))
      && (k == |s| || !IsContinuation(s[|s| - k]))
  }

  /** The size of the last character of `s`, 0 for the empty string. */
  function TrailingCharSize(s: Bytes): (k: nat)
    ensures IsLastCharSize(s, k)
    ensures k == 0 <==> |s| == 0
  {
    if |s| == 0 then 0 else |s| - CharStart(s, |s| - 1)
  }

  /** The characterisation admits one size only. */
  lemma LastCharSizeUnique(s: Bytes, k: nat)
    requires IsLastCharSize(s, k)
    ensures k == TrailingCharSize(s)
  {
  }

  /** `get_last_utf8_char_bytes(str, len)`: the backward scan over the first
      `len` bytes of the buffer, with no cap on how many continuation bytes
      it steps over. */
  method LastCharBytes(s: Bytes, len: nat) returns (n: nat)
    requires len <= |s|
    ensures IsLastCharSize(s[..len], n)
    ensures n == TrailingCharSize(s[..len])
  {
    if len == 0 {
      return 0;
    }
    var i := len - 1;
    while i > 0 && IsContinuation(s[i])
      invariant 0 <= i < len
      invariant forall j :: i < j < len ==> IsContinuation(s[j])
      decreases i
    {
      i := i - 1;
    }
    n := len - i;
    LastCharSizeUnique(s[..len], n);
  }

  /** The last character of `c + Encode(cp)` is exactly the encoded code point. */
  lemma TrailingCharOfEncoded(c: Bytes, cp: nat)
    requires cp <= 0x10FFFF
    ensures TrailingCharSize(c + Encode(cp)) == |Encode(cp)|
  {
    var s := c + Encode(cp);
    var e := Encode(cp);
    assert forall j :: |s| - |e| < j < |s| ==> s[j] == e[j - |c|];
    assert s[|s| - |e|] == e[0];
    LastCharSizeUnique(s, |e|);
  }
}
