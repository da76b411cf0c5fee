/** Fixed-width integers, varints and length-prefixed slices on the wire. The
    three crates that speak the legacy protocols each have their own copy. */
module Wire {
  import opened Arithmetic
  import opened Base

  /** What a decoder found at the start of its input and how much it consumed. */
  datatype Parsed<+T> = Parsed(value: T, used: nat)

  // ------------------------------------------------------- fixed-width integers

  function Pow256(n: nat): nat { if n == 0 then 1 else 256 * Pow256(n - 1) }

  lemma Widths()
    ensures Pow256(1) == 0x100 && Pow256(2) == 0x1_0000 && Pow256(4) == 0x1_0000_0000 && Pow256(8) == TWO_64
  {
    assert Pow256(3) == 0x100_0000 && Pow256(4) == 0x1_0000_0000;
    assert Pow256(6) == 0x1_0000_0000_0000 && Pow256(7) == 0x100_0000_0000_0000;
  }

  function Be(n: nat, width: nat): (b: Bytes)
    ensures |b| == width
  {
    if width == 0 then [] else Be(n / 256, width - 1) + [(n % 256) as byte]
  }

  function FromBe(b: Bytes): nat {
    if b == [] then 0 else 256 * FromBe(b[..|b| - 1]) + b[|b| - 1] as nat
  }

  function Le(n: nat, width: nat): (b: Bytes)
    ensures |b| == width
  {
    if width == 0 then [] else [(n % 256) as byte] + Le(n / 256, width - 1)
  }

  function FromLe(b: Bytes): nat {
    if b == [] then 0 else b[0] as nat + 256 * FromLe(b[1..])
  }

  lemma {:induction false} FromBeOfBe(n: nat, width: nat)
    requires n < Pow256(width)
    ensures FromBe(Be(n, width)) == n
  {
    if width > 0 {
      FromBeOfBe(n / 256, width - 1);
      assert Be(n, width)[..width - 1] == Be(n / 256, width - 1);
    }
  }

  lemma {:induction false} BeOfFromBe(b: Bytes)
    ensures FromBe(b) < Pow256(|b|) && Be(FromBe(b), |b|) == b
  {
    if b != [] {
      var init, last := b[..|b| - 1], b[|b| - 1];
      BeOfFromBe(init);
      DivMod256(FromBe(init), last as nat);
      assert b == init + [last];
    }
  }

  lemma DivMod256(q: nat, r: nat)
    requires r < 256
    ensures (256 * q + r) / 256 == q && (256 * q + r) % 256 == r
  {
  }

  lemma {:induction false} FromLeOfLe(n: nat, width: nat)
    requires n < Pow256(width)
    ensures FromLe(Le(n, width)) == n
  {
    if width > 0 {
      FromLeOfLe(n / 256, width - 1);
      assert Le(n, width)[1..] == Le(n / 256, width - 1);
    }
  }

  lemma {:induction false} LeOfFromLe(b: Bytes)
    ensures FromLe(b) < Pow256(|b|) && Le(FromLe(b), |b|) == b
  {
    if b != [] {
      LeOfFromLe(b[1..]);
      DivMod256(FromLe(b[1..]), b[0] as nat);
      assert b == [b[0]] + b[1..];
    }
  }

  lemma {:induction false} Pow256Positive(n: nat)
    ensures Pow256(n) > 0
  {
    if n > 0 { Pow256Positive(n - 1); }
  }

  lemma DivideOnce(n: nat, d: nat)
    requires d > 0
    ensures n / (256 * d) == n / 256 / d
  {
    var h := n / 256;
    var q := h / d;
    assert h == d * q + h % d && n == 256 * h + n % 256;
    assert n == (256 * d) * q + (256 * (h % d) + n % 256);
    QuotientIs(n, 256 * d, q, 256 * (h % d) + n % 256);
  }

  /** The byte with `i` bytes after it holds the 256s of order `i`. */
  lemma {:induction false} BeBytes(n: nat, width: nat, i: nat)
    requires i < width
    ensures Pow256(i) > 0 && Be(n, width)[width - 1 - i] as nat == n / Pow256(i) % 256
  {
    Pow256Positive(i);
    if i > 0 {
      Pow256Positive(i - 1);
      BeBytes(n / 256, width - 1, i - 1);
      DivideOnce(n, Pow256(i - 1));
    }
  }

  /** The byte after `i` bytes holds the 256s of order `i`. */
  lemma {:induction false} LeBytes(n: nat, width: nat, i: nat)
    requires i < width
    ensures Pow256(i) > 0 && Le(n, width)[i] as nat == n / Pow256(i) % 256
  {
    Pow256Positive(i);
    if i > 0 {
      Pow256Positive(i - 1);
      LeBytes(n / 256, width - 1, i - 1);
      DivideOnce(n, Pow256(i - 1));
    }
  }

  /** Reads `width` bytes as a big-endian number. */
  function ReadBe(bytes: Bytes, width: nat): (r: Option<Parsed<nat>>)
    ensures r.Some? <==> width <= |bytes|
    ensures r.Some? ==> r.value.used == width
  {
    if |bytes| < width then None else Some(Parsed(FromBe(bytes[..width]), width))
  }

  lemma ReadBeOfBe(n: nat, width: nat, rest: Bytes)
    requires n < Pow256(width)
    ensures ReadBe(Be(n, width) + rest, width) == Some(Parsed(n, width))
  {
    FromBeOfBe(n, width);
    assert (Be(n, width) + rest)[..width] == Be(n, width);
  }

  // -------------------------------------------------------------------- varints

  /** Unsigned LEB128, section 7.6 of the DWARF 5 standard. */
  function Leb128(v: nat): (b: Bytes)
    ensures b != []
  {
    if v < 128 then [v as byte] else [(128 + v % 128) as byte] + Leb128(v / 128)
  }

  /** The seven-bit groups at the start of `bytes`, at most `room` of them,
      least significant first. */
  function Groups(bytes: Bytes, room: nat): (r: Option<Parsed<nat>>)
    ensures r.Some? ==> 0 < r.value.used <= |bytes|
  {
    if bytes == [] || room == 0 then None
    else if bytes[0] < 128 then Some(Parsed(bytes[0] as nat, 1))
    else
      var rest :- Groups(bytes[1..], room - 1);
      Some(Parsed(bytes[0] as nat - 128 + 128 * rest.value, rest.used + 1))
  }

  /** At most ten groups; what does not fit 64 bits is cut off. */
  function DecodeVarint(bytes: Bytes): (r: Option<Parsed<u64>>)
    ensures r.Some? ==> 0 < r.value.used <= |bytes|
  {
    var groups :- Groups(bytes, 10);
    Some(Parsed(groups.value % TWO_64, groups.used))
  }

  function Pow128(n: nat): nat { if n == 0 then 1 else 128 * Pow128(n - 1) }

  lemma {:induction false} GroupsOfLeb128(v: nat, rest: Bytes, room: nat)
    requires 0 < room && v < Pow128(room)
    ensures Groups(Leb128(v) + rest, room) == Some(Parsed(v, |Leb128(v)|))
  {
    if v >= 128 {
      GroupsOfLeb128(v / 128, rest, room - 1);
      assert (Leb128(v) + rest)[1..] == Leb128(v / 128) + rest;
    }
  }

  lemma Pow128Ten()
    ensures Pow128(9) == TWO_63 && Pow128(10) > TWO_64
  {
    assert Pow128(3) == 0x20_0000;
    assert Pow128(6) == 0x400_0000_0000;
  }

  lemma {:induction false} Pow128Positive(n: nat)
    ensures Pow128(n) > 0
  {
    if n > 0 { Pow128Positive(n - 1); }
  }

  lemma DivideGroup(v: nat, d: nat)
    requires d > 0
    ensures v / (128 * d) == v / 128 / d
  {
    var h := v / 128;
    var q := h / d;
    assert h == d * q + h % d && v == 128 * h + v % 128;
    assert v == (128 * d) * q + (128 * (h % d) + v % 128);
    QuotientIs(v, 128 * d, q, 128 * (h % d) + v % 128);
  }

  /** Byte `i` holds the 128s of order `i`, its high bit set unless it is the
      last, and there are no more bytes than the number needs. */
  lemma {:induction false} Leb128Bytes(v: nat, i: nat)
    requires i < |Leb128(v)|
    ensures Pow128(i) > 0
    ensures Leb128(v)[i] as nat == v / Pow128(i) % 128 + if i < |Leb128(v)| - 1 then 128 else 0
    ensures v < Pow128(|Leb128(v)|) && (|Leb128(v)| > 1 ==> v >= Pow128(|Leb128(v)| - 1))
  {
    Pow128Positive(i);
    if v >= 128 {
      Leb128Bytes(v / 128, if i == 0 then 0 else i - 1);
      if i > 0 {
        Pow128Positive(i - 1);
        DivideGroup(v, Pow128(i - 1));
      }
    }
  }

  lemma VarintRoundTrip(v: u64, rest: Bytes)
    ensures DecodeVarint(Leb128(v) + rest) == Some(Parsed(v, |Leb128(v)|))
  {
    Pow128Ten();
    GroupsOfLeb128(v, rest, 10);
  }

  /** A varint is taken exactly if one of its first ten bytes is a last one. */
  lemma VarintAccepts(bytes: Bytes)
    ensures DecodeVarint(bytes).Some? <==> exists i :: 0 <= i < |bytes| && i < 10 && bytes[i] < 128
  {
    GroupsAccept(bytes, 10);
  }

  lemma {:induction false} GroupsAccept(bytes: Bytes, room: nat)
    ensures Groups(bytes, room).Some? <==> exists i :: 0 <= i < |bytes| && i < room && bytes[i] < 128
  {
    if bytes != [] && room > 0 && bytes[0] >= 128 {
      GroupsAccept(bytes[1..], room - 1);
      forall i | 0 <= i < |bytes| && i < room && bytes[i] < 128 ensures i > 0 && bytes[1..][i - 1] < 128 {}
      forall i | 0 <= i < |bytes[1..]| && i < room - 1 && bytes[1..][i] < 128 ensures bytes[i + 1] < 128 {}
    }
  }

  /** The encoder's loop: seven bits at a time, a high bit while more follow. */
  method EncodeVarint(value: u64) returns (out: Bytes)
    ensures out == Leb128(value)
  {
    out := [];
    var v := value;
    while v >= 128
      invariant out + Leb128(v) == Leb128(value)
    {
      var group := (128 + v % 128) as byte;
      assert out + ([group] + Leb128(v / 128)) == (out + [group]) + Leb128(v / 128);
      out := out + [group];
      v := v / 128;
    }
    out := out + [v as byte];
  }

  /** A number moved left by `i` seven-bit groups. */
  function Shifted(g: nat, i: nat): nat { if i == 0 then g else 128 * Shifted(g, i - 1) }

  /** What the loop has still to add to the `i` groups it has read. */
  function Pending(bytes: Bytes, i: nat, value: nat): Option<Parsed<nat>>
    requires i <= |bytes| && i <= 10
  {
    var rest :- Groups(bytes[i..], 10 - i);
    Some(Parsed(value + Shifted(rest.value, i), i + rest.used))
  }

  /** The decoders' loop. Each group is shifted into place in 64 bits, so the
      tenth keeps only its lowest bit. */
  method DecodeVarintLoop(bytes: Bytes) returns (r: Option<Parsed<u64>>)
    ensures r == DecodeVarint(bytes)
  {
    var value: nat := 0;
    var i := 0;
    while i < |bytes| && i < 10
      invariant i <= |bytes| && i <= 10
      invariant value < Pow128(i)
      invariant Pending(bytes, i, value) == Groups(bytes, 10)
    {
      var b := bytes[i] as nat;
      NextGroup(bytes, i, value);
      if b < 128 {
        LastGroup(value, i, b);
        return Some(Parsed(value + Shifted(b, i) % TWO_64, i + 1));
      }
      value := value + Shifted(b - 128, i);
      i := i + 1;
    }
    r := None;
  }

  lemma NextGroup(bytes: Bytes, i: nat, value: nat)
    requires i < |bytes| && i < 10 && value < Pow128(i)
    ensures bytes[i] < 128 ==> Pending(bytes, i, value) == Some(Parsed(value + Shifted(bytes[i] as nat, i), i + 1))
    ensures bytes[i] >= 128 ==>
      && value + Shifted(bytes[i] as nat - 128, i) < Pow128(i + 1)
      && Pending(bytes, i, value) == Pending(bytes, i + 1, value + Shifted(bytes[i] as nat - 128, i))
  {
    assert bytes[i..][1..] == bytes[i + 1..];
    if bytes[i] >= 128 {
      ShiftedBound(bytes[i] as nat - 128, i);
      var rest := Groups(bytes[i + 1..], 9 - i);
      if rest.Some? { ShiftedSum(bytes[i] as nat - 128, rest.value.value, i); }
    }
  }

  lemma {:induction false} ShiftedBound(g: nat, i: nat)
    requires g < 128
    ensures Shifted(g, i) <= 127 * Pow128(i)
  {
    if i > 0 { ShiftedBound(g, i - 1); }
  }

  lemma {:induction false} ShiftedSum(g: nat, rest: nat, i: nat)
    ensures Shifted(g + 128 * rest, i) == Shifted(g, i) + Shifted(rest, i + 1)
  {
    if i > 0 { ShiftedSum(g, rest, i - 1); }
  }

  /** Cutting the last group off at 64 bits or cutting off the whole value comes
      to the same. */
  lemma LastGroup(value: nat, i: nat, b: nat)
    requires i < 10 && b < 128 && value < Pow128(i)
    ensures value + Shifted(b, i) % TWO_64 == (value + Shifted(b, i)) % TWO_64 < TWO_64
  {
    Pow128Ten();
    ShiftedBound(b, i);
    if i < 9 {
      Pow128Grows(i + 1, 9);
      NothingCut(value, Shifted(b, i));
    } else {
      ShiftedNine(b);
      CutTop(value, Shifted(b, 9), b / 2, b % 2);
    }
  }

  lemma NothingCut(value: nat, p: nat)
    requires value + p < TWO_64
    ensures value + p % TWO_64 == (value + p) % TWO_64 < TWO_64
  {
  }

  lemma ShiftedNine(g: nat)
    ensures Shifted(g, 9) == 0x8000_0000_0000_0000 * g
  {
    var a, b := Shifted(g, 3), Shifted(g, 6);
    assert Shifted(g, 2) == 128 * Shifted(g, 1);
    assert a == 0x20_0000 * g;
    assert Shifted(g, 5) == 128 * Shifted(g, 4) && Shifted(g, 4) == 128 * a;
    assert Shifted(g, 8) == 128 * Shifted(g, 7) && Shifted(g, 7) == 128 * b;
  }

  lemma CutTop(value: nat, shifted: nat, c: nat, d: nat)
    requires value < 0x8000_0000_0000_0000 && d < 2
    requires shifted == 0x8000_0000_0000_0000 * (2 * c + d)
    ensures value + shifted % TWO_64 == (value + shifted) % TWO_64 < TWO_64
  {
    assert shifted == 0x1_0000_0000_0000_0000 * c + 0x8000_0000_0000_0000 * d;
  }

  lemma {:induction false} Pow128Grows(i: nat, j: nat)
    requires i <= j
    ensures Pow128(i) <= Pow128(j)
  {
    if i < j { Pow128Grows(i, j - 1); }
  }

  // ------------------------------------------------------ pieces of a byte string

  lemma Assoc<T>(a: seq<T>, b: seq<T>, c: seq<T>)
    ensures a + b + c == a + (b + c)
  {
  }

  lemma Rejoin<T>(s: seq<T>, at: nat)
    requires at <= |s|
    ensures s[..at] + s[at..] == s
  {
  }

  lemma SkipTwice<T>(s: seq<T>, a: nat, b: nat)
    requires a + b <= |s|
    ensures s[a..][b..] == s[a + b..]
  {
  }

  /** A reader that stands at `at` and sees `front` next has `rest` after it. */
  lemma Advance<T>(s: seq<T>, at: nat, front: seq<T>, rest: seq<T>)
    requires at <= |s| && s[at..] == front + rest
    ensures at + |front| <= |s| && s[at + |front|..] == rest
    ensures |s| == at + |front| + |rest|
  {
    assert s[at + |front|..] == s[at..][|front|..];
  }

  // ---------------------------------------------------------------------- loops

  /** What a loop has so far, continued by what the rest of the input gives. */
  function Resume<T>(done: seq<T>, rest: Option<seq<T>>): Option<seq<T>> {
    if rest.None? then None else Some(done + rest.value)
  }

  lemma ResumeNothing<T>(rest: Option<seq<T>>)
    ensures Resume([], rest) == rest
  {
    if rest.Some? { assert [] + rest.value == rest.value; }
  }

  lemma ResumeMore<T>(done: seq<T>, more: seq<T>, rest: Option<seq<T>>)
    ensures Resume(done, Resume(more, rest)) == Resume(done + more, rest)
  {
    if rest.Some? { Assoc(done, more, rest.value); }
  }

  // --------------------------------------------------------------------- slices

  function Slice(bytes: Bytes): Bytes { Leb128(|bytes|) + bytes }

  function DecodeSlice(bytes: Bytes): (r: Option<Parsed<Bytes>>)
    ensures r.Some? ==> 0 < r.value.used <= |bytes|
  {
    var size :- DecodeVarint(bytes);
    var end := size.used + size.value;
    if |bytes| < end then None else Some(Parsed(bytes[size.used..end], end))
  }

  lemma SliceRoundTrip(b: Bytes, rest: Bytes)
    requires |b| < TWO_64
    ensures DecodeSlice(Slice(b) + rest) == Some(Parsed(b, |Slice(b)|))
  {
    VarintRoundTrip(|b|, b + rest);
    assert Slice(b) + rest == Leb128(|b|) + (b + rest);
    assert (Slice(b) + rest)[|Leb128(|b|)|..|Slice(b)|] == b;
  }
}
