/** UTF-8, the encoding of every Rust `String`: `as_bytes` encodes, and
    `BufRead::read_line` decodes (failing on ill-formed input). */
module Utf8 {
  import opened Wrappers

  /** A Rust `u8`. */
  type Byte = b: int | 0 <= b < 0x100

  predicate IsContinuation(b: Byte) {
    0x80 <= b < 0xC0
  }

  /** The UTF-8 encoding of one Unicode scalar value. */
  function EncodeChar(c: char): (bs: seq<Byte>)
    ensures 1 <= |bs| <= 4
  {
    var cp := c as int;
    if cp < 0x80 then [cp]
    else if cp < 0x800 then [0xC0 + cp / 64, 0x80 + cp % 64]
    else if cp < 0x1_0000 then [0xE0 + cp / 4096, 0x80 + cp / 64 % 64, 0x80 + cp % 64]
    else [0xF0 + cp / 262144, 0x80 + cp / 4096 % 64, 0x80 + cp / 64 % 64, 0x80 + cp % 64]
  }

  /** ASCII is one byte, itself; every byte of a longer encoding has its
      high bit set, so no ASCII byte occurs inside one. */
  lemma EncodeCharSpec(c: char)
    ensures var bs := EncodeChar(c);
      && ((|bs| == 1) == (c as int < 0x80))
      && (|bs| == 1 ==> bs[0] == c as int)
      && (|bs| > 1 ==> forall i :: 0 <= i < |bs| ==> bs[i] >= 0x80)
  {
  }

  function Encode(s: string): seq<Byte>
  {
    if s == [] then [] else EncodeChar(s[0]) + Encode(s[1..])
  }

  /** Decodes the first scalar value of `bs`, rejecting overlong forms,
      surrogates and values above U+10FFFF, as `str::from_utf8` does;
      yields the value and the number of bytes it occupies. */
  function DecodeChar(bs: seq<Byte>): Option<(char, nat)>
    requires |bs| > 0
  {
    var b0: int := bs[0];
    if b0 < 0x80 then Some((b0 as char, 1))
    else if 0xC2 <= b0 <= 0xDF then
      if |bs| >= 2 && IsContinuation(bs[1]) then
        Some(((64 * (b0 - 0xC0) + (bs[1] as int - 0x80)) as char, 2))
      else None
    else if 0xE0 <= b0 <= 0xEF then
      var lo := if b0 == 0xE0 then 0xA0 else 0x80;
      var hi := if b0 == 0xED then 0xA0 else 0xC0;
      if |bs| >= 3 && lo <= bs[1] < hi && IsContinuation(bs[2]) then
        Some(((4096 * (b0 - 0xE0) + 64 * (bs[1] as int - 0x80) + (bs[2] as int - 0x80)) as char, 3))
      else None
    else if 0xF0 <= b0 <= 0xF4 then
      var lo := if b0 == 0xF0 then 0x90 else 0x80;
      var hi := if b0 == 0xF4 then 0x90 else 0xC0;
      if |bs| >= 4 && lo <= bs[1] < hi && IsContinuation(bs[2]) && IsContinuation(bs[3]) then
        Some(((262144 * (b0 - 0xF0) + 4096 * (bs[1] as int - 0x80) + 64 * (bs[2] as int - 0x80) + (bs[3] as int - 0x80)) as char, 4))
      else None
    else None
  }

  /** `None` when `bs` is not well-formed UTF-8. */
  function Decode(bs: seq<Byte>): Option<string>
    decreases |bs|
  {
    if bs == [] then Some([])
    else match DecodeChar(bs)
      case None => None
      case Some((c, n)) =>
        if n == 0 || n > |bs| then None
        else match Decode(bs[n..])
          case None => None
          case Some(rest) => Some([c] + rest)
  }

  lemma {:induction false} EncodeConcat(a: string, b: string)
    ensures Encode(a + b) == Encode(a) + Encode(b)
  {
    if a == [] {
      assert a + b == b;
    } else {
      assert (a + b)[0] == a[0] && (a + b)[1..] == a[1..] + b;
      EncodeConcat(a[1..], b);
    }
  }

  /** An ASCII byte occurs in the encoding exactly where its character
      occurs in the text. */
  lemma {:induction false} AsciiIn(s: string, c: char)
    requires c as int < 0x80
    ensures (c as int in Encode(s)) <==> c in s
  {
    if s != [] {
      var head := EncodeChar(s[0]);
      EncodeCharSpec(s[0]);
      AsciiIn(s[1..], c);
      assert Encode(s) == head + Encode(s[1..]);
      assert s == [s[0]] + s[1..];
      assert (c as int in head) <==> s[0] == c;
    }
  }

  /** A text with no carriage return and no line feed encodes to bytes
      with neither. */
  lemma NoLineBreak(s: string)
    requires '\r' !in s && '\n' !in s
    ensures 13 !in Encode(s) && 10 !in Encode(s)
  {
    AsciiIn(s, '\r');
    AsciiIn(s, '\n');
  }

  lemma DecodeEncodeChar(c: char, rest: seq<Byte>)
    ensures DecodeChar(EncodeChar(c) + rest) == Some((c, |EncodeChar(c)|))
  {
    var cp := c as int;
    if cp < 0x80 {
    } else if cp < 0x800 {
      DecodeEncodeChar2(c, rest);
    } else if cp < 0x1_0000 {
      DecodeEncodeChar3(c, rest);
    } else {
      DecodeEncodeChar4(c, rest);
    }
  }

  lemma DecodeEncodeChar2(c: char, rest: seq<Byte>)
    requires 0x80 <= c as int < 0x800
    ensures DecodeChar(EncodeChar(c) + rest) == Some((c, 2))
  {
    var cp := c as int;
    var bs := EncodeChar(c) + rest;
    var q, r := cp / 64, cp % 64;
    assert bs[0] == 0xC0 + q && bs[1] == 0x80 + r;
    assert 64 * (bs[0] as int - 0xC0) + (bs[1] as int - 0x80) == cp;
  }

  lemma DecodeEncodeChar3(c: char, rest: seq<Byte>)
    requires 0x800 <= c as int < 0x1_0000
    ensures DecodeChar(EncodeChar(c) + rest) == Some((c, 3))
  {
    var cp := c as int;
    var bs := EncodeChar(c) + rest;
    var q, r := cp / 64, cp % 64;
    var q2, r2 := q / 64, q % 64;
    assert cp == 4096 * q2 + 64 * r2 + r;
    assert bs[0] == 0xE0 + q2 && bs[1] == 0x80 + r2 && bs[2] == 0x80 + r;
    assert 4096 * (bs[0] as int - 0xE0) + 64 * (bs[1] as int - 0x80) + (bs[2] as int - 0x80) == cp;
  }

  lemma DecodeEncodeChar4(c: char, rest: seq<Byte>)
    requires 0x1_0000 <= c as int
    ensures DecodeChar(EncodeChar(c) + rest) == Some((c, 4))
  {
    var cp := c as int;
    var bs := EncodeChar(c) + rest;
    var q, r := cp / 64, cp % 64;
    var q2, r2 := q / 64, q % 64;
    var q3, r3 := q2 / 64, q2 % 64;
    assert cp == 262144 * q3 + 4096 * r3 + 64 * r2 + r;
    assert bs[0] == 0xF0 + q3 && bs[1] == 0x80 + r3 && bs[2] == 0x80 + r2 && bs[3] == 0x80 + r;
    assert 262144 * (bs[0] as int - 0xF0) + 4096 * (bs[1] as int - 0x80) + 64 * (bs[2] as int - 0x80) + (bs[3] as int - 0x80) == cp;
  }

  lemma DivMod(d: nat, q: nat, r: nat)
    requires d in {64, 4096, 262144} && r < d
    ensures (d * q + r) / d == q && (d * q + r) % d == r
  {
  }

  lemma EncodeDecodeChar2(bs: seq<Byte>, c: char)
    requires |bs| >= 2 && 0xC2 <= bs[0] <= 0xDF && IsContinuation(bs[1])
    requires c as int == 64 * (bs[0] as int - 0xC0) + (bs[1] as int - 0x80)
    ensures bs[..2] == EncodeChar(c)
  {
    var cp := c as int;
    DivMod(64, bs[0] as int - 0xC0, bs[1] as int - 0x80);
    assert EncodeChar(c) == [0xC0 + cp / 64, 0x80 + cp % 64];
  }

  lemma EncodeDecodeChar3(bs: seq<Byte>, c: char)
    requires |bs| >= 3 && 0xE0 <= bs[0] <= 0xEF && IsContinuation(bs[1]) && IsContinuation(bs[2])
    requires c as int == 4096 * (bs[0] as int - 0xE0) + 64 * (bs[1] as int - 0x80) + (bs[2] as int - 0x80)
    requires c as int >= 0x800
    ensures bs[..3] == EncodeChar(c)
  {
    var cp := c as int;
    var hi, mid, lo := bs[0] as int - 0xE0, bs[1] as int - 0x80, bs[2] as int - 0x80;
    DivMod(4096, hi, 64 * mid + lo);
    DivMod(64, 64 * hi + mid, lo);
    assert cp == 64 * (64 * hi + mid) + lo;
    DivMod(64, hi, mid);
    assert EncodeChar(c) == [0xE0 + cp / 4096, 0x80 + cp / 64 % 64, 0x80 + cp % 64];
  }

  lemma EncodeDecodeChar4(bs: seq<Byte>, c: char)
    requires |bs| >= 4 && 0xF0 <= bs[0] <= 0xF4
    requires IsContinuation(bs[1]) && IsContinuation(bs[2]) && IsContinuation(bs[3])
    requires c as int == 262144 * (bs[0] as int - 0xF0) + 4096 * (bs[1] as int - 0x80) + 64 * (bs[2] as int - 0x80) + (bs[3] as int - 0x80)
    requires c as int >= 0x1_0000
    ensures bs[..4] == EncodeChar(c)
  {
    var cp := c as int;
    var b0, b1, b2, b3 := bs[0] as int - 0xF0, bs[1] as int - 0x80, bs[2] as int - 0x80, bs[3] as int - 0x80;
    DivMod(262144, b0, 4096 * b1 + 64 * b2 + b3);
    assert cp == 4096 * (64 * b0 + b1) + (64 * b2 + b3);
    DivMod(4096, 64 * b0 + b1, 64 * b2 + b3);
    DivMod(64, b0, b1);
    assert cp == 64 * (64 * (64 * b0 + b1) + b2) + b3;
    DivMod(64, 64 * (64 * b0 + b1) + b2, b3);
    DivMod(64, 64 * b0 + b1, b2);
    assert EncodeChar(c) == [0xF0 + cp / 262144, 0x80 + cp / 4096 % 64, 0x80 + cp / 64 % 64, 0x80 + cp % 64];
  }

  lemma EncodeDecodeChar(bs: seq<Byte>, c: char, n: nat)
    requires |bs| > 0 && DecodeChar(bs) == Some((c, n))
    ensures n <= |bs| && bs[..n] == EncodeChar(c)
  {
    var b0: int := bs[0];
    if b0 < 0x80 {
    } else if b0 <= 0xDF {
      EncodeDecodeChar2(bs, c);
    } else if b0 <= 0xEF {
      EncodeDecodeChar3(bs, c);
    } else {
      EncodeDecodeChar4(bs, c);
    }
  }

  /** Decoding inverts encoding. */
  lemma {:induction false} DecodeEncode(s: string)
    ensures Decode(Encode(s)) == Some(s)
  {
    if s != [] {
      var e := EncodeChar(s[0]);
      DecodeEncodeChar(s[0], Encode(s[1..]));
      assert Encode(s)[|e|..] == Encode(s[1..]);
      DecodeEncode(s[1..]);
      assert [s[0]] + s[1..] == s;
    }
  }

  /** Encoding inverts decoding: only the encoding of `s` decodes to `s`. */
  lemma {:induction false} EncodeDecode(bs: seq<Byte>, s: string)
    requires Decode(bs) == Some(s)
    ensures Encode(s) == bs
    decreases |bs|
  {
    if bs != [] {
      var c, n, rest := DecodeFirst(bs);
      EncodeDecodeChar(bs, c, n);
      EncodeDecode(bs[n..], rest);
      EncodeCons(c, rest);
      JoinAt(bs, n);
    }
  }

  /** A successful decode of a non-empty input: its first value, that
      value's length, and the decode of what follows. */
  lemma DecodeFirst(bs: seq<Byte>) returns (c: char, n: nat, rest: string)
    requires bs != [] && Decode(bs).Some?
    ensures DecodeChar(bs) == Some((c, n)) && 0 < n <= |bs|
    ensures Decode(bs[n..]) == Some(rest) && Decode(bs).value == [c] + rest
  {
    c, n := DecodeChar(bs).value.0, DecodeChar(bs).value.1;
    rest := Decode(bs[n..]).value;
  }

  lemma EncodeCons(c: char, rest: string)
    ensures Encode([c] + rest) == EncodeChar(c) + Encode(rest)
  {
    assert ([c] + rest)[0] == c && ([c] + rest)[1..] == rest;
  }

  lemma JoinAt(bs: seq<Byte>, n: nat)
    requires n <= |bs|
    ensures bs[..n] + bs[n..] == bs
  {
  }
}
