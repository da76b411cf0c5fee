/** Text as bytes: UTF-8 as section 3.9 of the Unicode Standard defines it. */
module Utf8 {
  import opened Base
  import opened Wire

  predicate IsScalar(n: int) { 0 <= n < 0xD800 || 0xE000 <= n < 0x11_0000 }

  function EncodeChar(c: char): (b: Bytes)
    ensures b != []
  {
    var n := c as int;
    if n < 0x80 then [n as byte]
    else if n < 0x800 then [(0xC0 + n / 64) as byte, Tail(n)]
    else if n < 0x1_0000 then [(0xE0 + n / 64 / 64) as byte, Tail(n / 64), Tail(n)]
    else [(0xF0 + n / 64 / 64 / 64) as byte, Tail(n / 64 / 64), Tail(n / 64), Tail(n)]
  }

  /** A continuation byte: the low six bits of `n`. */
  function Tail(n: nat): byte { (0x80 + n % 64) as byte }

  predicate IsTail(b: byte) { 0x80 <= b < 0xC0 }

  function Low(b: byte): nat
    requires IsTail(b)
  {
    b as nat - 0x80
  }

  /** How many bytes a leading byte announces. */
  function Width(lead: byte): nat {
    if lead < 0x80 then 1
    else if lead < 0xC0 then 0
    else if lead < 0xE0 then 2
    else if lead < 0xF0 then 3
    else if lead < 0xF8 then 4
    else 0
  }

  /** The shortest form is the only form, and surrogates have none. */
  function Scalar(n: nat, least: nat, used: nat): Option<Parsed<char>> {
    if n < least || !IsScalar(n) then None else Some(Parsed(n as char, used))
  }

  function DecodeChar(b: Bytes): (r: Option<Parsed<char>>)
    ensures r.Some? ==> 0 < r.value.used <= |b|
  {
    if b == [] then None
    else
      var width := Width(b[0]);
      if width == 0 || |b| < width then None
      else if width == 1 then Scalar(b[0] as nat, 0, 1)
      else if !IsTail(b[1]) then None
      else if width == 2 then Scalar((b[0] as nat - 0xC0) * 64 + Low(b[1]), 0x80, 2)
      else if !IsTail(b[2]) then None
      else if width == 3 then Scalar((b[0] as nat - 0xE0) * 4096 + Low(b[1]) * 64 + Low(b[2]), 0x800, 3)
      else if !IsTail(b[3]) then None
      else Scalar((b[0] as nat - 0xF0) * 262144 + Low(b[1]) * 4096 + Low(b[2]) * 64 + Low(b[3]), 0x1_0000, 4)
  }

  function Encode(s: string): Bytes {
    if s == "" then [] else EncodeChar(s[0]) + Encode(s[1..])
  }

  function Decode(b: Bytes): Option<string>
    decreases |b|
  {
    if b == [] then Some("")
    else
      var first :- DecodeChar(b);
      var rest :- Decode(b[first.used..]);
      Some([first.value] + rest)
  }

  lemma Sextets(n: nat)
    ensures n == n / 64 * 64 + n % 64
    ensures n == n / 64 / 64 * 4096 + n / 64 % 64 * 64 + n % 64
    ensures n == n / 64 / 64 / 64 * 262144 + n / 64 / 64 % 64 * 4096 + n / 64 % 64 * 64 + n % 64
  {
  }

  lemma CharRoundTrip(c: char, rest: Bytes)
    ensures DecodeChar(EncodeChar(c) + rest) == Some(Parsed(c, |EncodeChar(c)|))
  {
    var n, b := c as int, EncodeChar(c);
    Sextets(n);
    var all := b + rest;
    assert all[0] == b[0];
    assert |b| > 1 ==> all[1] == b[1];
    assert |b| > 2 ==> all[2] == b[2];
    assert |b| > 3 ==> all[3] == b[3];
  }

  lemma CharCanonical(b: Bytes)
    requires DecodeChar(b).Some?
    ensures EncodeChar(DecodeChar(b).value.value) == b[..DecodeChar(b).value.used]
  {
    hide Tail;
    var width := Width(b[0]);
    if width == 2 {
      var n := Join(b[0] as nat - 0xC0, b[1]);
    } else if width == 3 {
      var high := Join(b[0] as nat - 0xE0, b[1]);
      var n := Join(high, b[2]);
    } else if width == 4 {
      var high := Join(b[0] as nat - 0xF0, b[1]);
      var middle := Join(high, b[2]);
      var n := Join(middle, b[3]);
    }
  }

  /** Appending the six bits of a continuation byte, and taking them off again. */
  lemma Join(high: nat, tail: byte) returns (n: nat)
    requires IsTail(tail)
    ensures n == high * 64 + Low(tail) && n / 64 == high && Tail(n) == tail
  {
    n := high * 64 + Low(tail);
  }

  lemma {:induction false} TextRoundTrip(s: string)
    ensures Decode(Encode(s)) == Some(s)
  {
    if s != "" {
      hide DecodeChar, EncodeChar;
      var first, rest := EncodeChar(s[0]), Encode(s[1..]);
      CharRoundTrip(s[0], rest);
      TextRoundTrip(s[1..]);
      assert (first + rest)[|first|..] == rest;
      assert s == [s[0]] + s[1..];
    }
  }

  /** Valid UTF-8 is the encoding of what it decodes to. */
  lemma {:induction false} TextCanonical(b: Bytes)
    requires Decode(b).Some?
    ensures Encode(Decode(b).value) == b
    decreases |b|
  {
    if b != [] {
      hide DecodeChar, EncodeChar;
      var first := DecodeChar(b).value;
      CharCanonical(b);
      TextCanonical(b[first.used..]);
      assert ([first.value] + Decode(b[first.used..]).value)[1..] == Decode(b[first.used..]).value;
      Rejoin(b, first.used);
    }
  }
}
