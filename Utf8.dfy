/**
 * UTF-8 as Rust's `String::into_bytes` writes it and `String::from_utf8`
 * checks it: an encoder from Unicode scalar values to bytes and a decoder
 * that accepts exactly the well-formed byte sequences (no overlong forms,
 * no surrogates, nothing above U+10FFFF).
 */
module Utf8 {
  import opened Wrappers
  import opened RustCore

  predicate IsContinuation(b: byte) {
    0x80 <= b < 0xC0
  }

  /** The bytes of one scalar value, shortest form. */
  function EncodeChar(c: char): (bs: seq<byte>)
    ensures 1 <= |bs| <= 4
    ensures (|bs| == 1) == (c as int < 0x80)
    ensures c as int < 0x80 ==> bs == [c as int]
    ensures forall i :: 1 <= i < |bs| ==> IsContinuation(bs[i])
  {
    var n := c as int;
    if n < 0x80 then [n]
    else if n < 0x800 then [0xC0 + n / 64, 0x80 + n % 64]
    else if n < 0x10000 then [0xE0 + n / 4096, 0x80 + (n / 64) % 64, 0x80 + n % 64]
    else [0xF0 + n / 262144, 0x80 + (n / 4096) % 64, 0x80 + (n / 64) % 64, 0x80 + n % 64]
  }

  /** `String::into_bytes`: the UTF-8 bytes of a string. */
  function Encode(s: string): (bs: seq<byte>)
    ensures |s| <= |bs| <= 4 * |s|
    ensures (forall i :: 0 <= i < |s| ==> s[i] as int < 0x80) ==> |bs| == |s|
  {
    if s == [] then [] else EncodeChar(s[0]) + Encode(s[1..])
  }

  /** The scalar value at the front of `bs` and how many bytes it takes, if they are well formed. */
  function DecodeChar(bs: seq<byte>): (r: Option<(char, nat)>)
    requires |bs| > 0
    ensures r.Some? ==> 1 <= r.value.1 <= |bs| && r.value.1 <= 4
  {
    var b0 := bs[0] as int;
    if b0 < 0x80 then Some((b0 as char, 1))
    else if 0xC2 <= b0 < 0xE0 then
      if |bs| >= 2 && IsContinuation(bs[1]) then
        Some((((b0 - 0xC0) * 64 + (bs[1] as int - 0x80)) as char, 2))
      else None
    else if 0xE0 <= b0 < 0xF0 then
      if |bs| >= 3 && IsContinuation(bs[1]) && IsContinuation(bs[2]) then
        var cp := (b0 - 0xE0) * 4096 + (bs[1] as int - 0x80) * 64 + (bs[2] as int - 0x80);
        if cp < 0x800 || 0xD800 <= cp < 0xE000 then None else Some((cp as char, 3))
      else None
    else if 0xF0 <= b0 < 0xF5 then
      if |bs| >= 4 && IsContinuation(bs[1]) && IsContinuation(bs[2]) && IsContinuation(bs[3]) then
        var cp := (b0 - 0xF0) * 262144 + (bs[1] as int - 0x80) * 4096
                  + (bs[2] as int - 0x80) * 64 + (bs[3] as int - 0x80);
        if cp < 0x10000 || cp > 0x10FFFF then None else Some((cp as char, 4))
      else None
    else None
  }

  /** `String::from_utf8`: the string the bytes spell, or `None` when they are not UTF-8. */
  function Decode(bs: seq<byte>): (r: Option<string>)
    ensures r.Some? ==> |r.value| <= |bs| <= 4 * |r.value|
    decreases |bs|
  {
    if bs == [] then Some([])
    else match DecodeChar(bs)
      case None => None
      case Some((c, k)) =>
        match Decode(bs[k..])
        case None => None
        case Some(rest) => Some([c] + rest)
  }

  /** ASCII bytes always decode, one character per byte, each the byte's value. */
  lemma {:induction false} DecodeAscii(bs: seq<byte>)
    requires forall i :: 0 <= i < |bs| ==> bs[i] < 0x80
    ensures Decode(bs).Some? && |Decode(bs).value| == |bs|
    ensures forall i :: 0 <= i < |bs| ==> Decode(bs).value[i] as int == bs[i]
    decreases |bs|
  {
    if bs != [] {
      DecodeAscii(bs[1..]);
      var t := Decode(bs[1..]).value;
      assert Decode(bs) == Some([bs[0] as char] + t);
    }
  }

  lemma ThreeDigits(n: int)
    requires 0 <= n < 0x10000
    ensures (n / 4096) * 4096 + ((n / 64) % 64) * 64 + n % 64 == n
  {
    var q := n / 64;
    assert n == q * 64 + n % 64;
    assert q == (q / 64) * 64 + q % 64;
    assert q / 64 == n / 4096;
  }

  lemma FourDigits(n: int)
    requires 0 <= n < 0x110000
    ensures (n / 262144) * 262144 + ((n / 4096) % 64) * 4096 + ((n / 64) % 64) * 64 + n % 64 == n
  {
    var q := n / 64;
    var p := q / 64;
    assert n == q * 64 + n % 64;
    assert q == p * 64 + q % 64;
    assert p == (p / 64) * 64 + p % 64;
    assert p == n / 4096;
    assert p / 64 == n / 262144;
  }

  /** Decoding the bytes of one scalar value, whatever follows, gives it back. */
  lemma DecodeEncodeChar(c: char, rest: seq<byte>)
    ensures DecodeChar(EncodeChar(c) + rest) == Some((c, |EncodeChar(c)|))
  {
    var n := c as int;
    var bs := EncodeChar(c) + rest;
    if n < 0x80 {
    } else if n < 0x800 {
      assert bs[0] == 0xC0 + n / 64 && bs[1] == 0x80 + n % 64;
    } else if n < 0x10000 {
      ThreeDigits(n);
      assert bs[0] == 0xE0 + n / 4096;
      assert bs[1] == 0x80 + (n / 64) % 64 && bs[2] == 0x80 + n % 64;
    } else {
      FourDigits(n);
      assert bs[0] == 0xF0 + n / 262144;
      assert bs[1] == 0x80 + (n / 4096) % 64;
      assert bs[2] == 0x80 + (n / 64) % 64 && bs[3] == 0x80 + n % 64;
    }
  }

  /** `String::from_utf8(s.into_bytes())` is `Ok(s)`. */
  lemma {:induction false} DecodeEncode(s: string)
    ensures Decode(Encode(s)) == Some(s)
  {
    if s != [] {
      var e := EncodeChar(s[0]);
      DecodeEncodeChar(s[0], Encode(s[1..]));
      assert Encode(s) == e + Encode(s[1..]);
      assert (e + Encode(s[1..]))[|e|..] == Encode(s[1..]);
      DecodeEncode(s[1..]);
      assert [s[0]] + s[1..] == s;
    }
  }

  lemma DivMod64(q: int, r: int)
    requires 0 <= q && 0 <= r < 64
    ensures (q * 64 + r) / 64 == q && (q * 64 + r) % 64 == r
  {
  }

  lemma EncodeTwo(c: char, x0: int, x1: int)
    requires 0x80 <= c as int < 0x800 && 0 <= x1 < 64 && c as int == x0 * 64 + x1
    ensures EncodeChar(c) == [0xC0 + x0, 0x80 + x1]
  {
    DivMod64(x0, x1);
  }

  lemma EncodeThree(c: char, x0: int, x1: int, x2: int)
    requires 0x800 <= c as int < 0x10000 && 0 <= x0 && 0 <= x1 < 64 && 0 <= x2 < 64
    requires c as int == (x0 * 64 + x1) * 64 + x2
    ensures EncodeChar(c) == [0xE0 + x0, 0x80 + x1, 0x80 + x2]
  {
    var n := c as int;
    DivMod64(x0 * 64 + x1, x2);
    DivMod64(x0, x1);
    assert n / 4096 == (n / 64) / 64;
  }

  lemma EncodeFour(c: char, x0: int, x1: int, x2: int, x3: int)
    requires 0x10000 <= c as int && 0 <= x0 && 0 <= x1 < 64 && 0 <= x2 < 64 && 0 <= x3 < 64
    requires c as int == ((x0 * 64 + x1) * 64 + x2) * 64 + x3
    ensures EncodeChar(c) == [0xF0 + x0, 0x80 + x1, 0x80 + x2, 0x80 + x3]
  {
    var n := c as int;
    DivMod64((x0 * 64 + x1) * 64 + x2, x3);
    DivMod64(x0 * 64 + x1, x2);
    DivMod64(x0, x1);
    assert n / 4096 == (n / 64) / 64;
    assert n / 262144 == ((n / 64) / 64) / 64;
  }

  /** Only the shortest form is accepted: what `DecodeChar` reads is exactly the encoding of what it returns. */
  lemma EncodeDecodeChar(bs: seq<byte>)
    requires |bs| > 0 && DecodeChar(bs).Some?
    ensures EncodeChar(DecodeChar(bs).value.0) == bs[..DecodeChar(bs).value.1]
  {
    var b0 := bs[0] as int;
    var (c, k) := DecodeChar(bs).value;
    if b0 < 0x80 {
    } else if k == 2 {
      EncodeTwo(c, b0 - 0xC0, bs[1] as int - 0x80);
    } else if k == 3 {
      EncodeThree(c, b0 - 0xE0, bs[1] as int - 0x80, bs[2] as int - 0x80);
    } else {
      EncodeFour(c, b0 - 0xF0, bs[1] as int - 0x80, bs[2] as int - 0x80, bs[3] as int - 0x80);
    }
  }

  lemma EncodeCons(c: char, rest: string)
    ensures Encode([c] + rest) == EncodeChar(c) + Encode(rest)
  {
    assert ([c] + rest)[1..] == rest;
  }

  lemma SplitAt(bs: seq<byte>, k: nat)
    requires k <= |bs|
    ensures bs[..k] + bs[k..] == bs
  {
  }

  /** `String::from_utf8` accepts a byte sequence only if it is the encoding of the string it returns. */
  lemma {:induction false} EncodeDecode(bs: seq<byte>)
    requires Decode(bs).Some?
    ensures Encode(Decode(bs).value) == bs
    decreases |bs|
  {
    if bs != [] {
      var (c, k) := DecodeChar(bs).value;
      var tail := bs[k..];
      var t := Decode(tail).value;
      assert Decode(bs).value == [c] + t;
      EncodeDecodeChar(bs);
      EncodeDecode(tail);
      EncodeCons(c, t);
      SplitAt(bs, k);
    }
  }
}
