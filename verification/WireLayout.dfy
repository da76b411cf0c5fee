/** Where each field of a message stands on the wire, byte by byte: what a peer
    that knows only the format relies on (crates/legacy-protocol,
    crates/hyperdex-admin-protocol, crates/server). */
module WireLayout {
  import opened Base
  import opened BusyBee
  import opened ContainerValues
  import opened DataModel
  import opened Protocol
  import opened Wire
  import AtomicPath
  import PackedSpace
  import Utf8

  /** A 16-bit number, the high byte first. */
  predicate U16Is(bytes: Bytes, at: nat, n: nat) {
    at + 2 <= |bytes| && bytes[at] as nat * 0x100 + bytes[at + 1] as nat == n
  }

  predicate PieceIs(bytes: Bytes, at: nat, piece: Bytes) {
    at + |piece| <= |bytes| && bytes[at..at + |piece|] == piece
  }

  lemma U16Here(bytes: Bytes, at: nat, n: u16, rest: Bytes)
    requires at <= |bytes| && bytes[at..] == Be(n, 2) + rest
    ensures U16Is(bytes, at, n) && bytes[at + 2..] == rest
  {
    BeBytes(n, 2, 0);
    BeBytes(n, 2, 1);
    assert Pow256(1) == 256 && Pow256(0) == 1;
    Advance(bytes, at, Be(n, 2), rest);
    assert bytes[at] == bytes[at..][0] == Be(n, 2)[0] && bytes[at + 1] == bytes[at..][1] == Be(n, 2)[1];
  }

  lemma PieceHere(bytes: Bytes, at: nat, piece: Bytes, rest: Bytes)
    requires at <= |bytes| && bytes[at..] == piece + rest
    ensures PieceIs(bytes, at, piece) && bytes[at + |piece|..] == rest
  {
    Advance(bytes, at, piece, rest);
    assert bytes[at..at + |piece|] == bytes[at..][..|piece|];
  }

  /** A length-prefixed byte string: the length in LEB128, then the bytes. */
  lemma SliceOnWire(b: Bytes)
    ensures PieceIs(Slice(b), 0, Leb128(|b|)) && PieceIs(Slice(b), |Leb128(|b|)|, b)
    ensures |Slice(b)| == |Leb128(|b|)| + |b|
  {
  }

  // ------------------------------------------------------------- client messages

  /** Attribute, value, datatype, predicate. */
  lemma CheckOnWire(c: AttributeCheck)
    ensures var b, n := EncodeCheck(c), |Slice(c.value)|;
      && |b| == 6 + n
      && U16Is(b, 0, c.attr) && PieceIs(b, 2, Slice(c.value)) && U16Is(b, 2 + n, c.datatype_) && U16Is(b, 4 + n, c.predicate_)
  {
    hide Be, Slice, U16Is, PieceIs;
    var v, d, p := Slice(c.value), Be(c.datatype_, 2), Be(c.predicate_, 2);
    var b := EncodeCheck(c);
    assert b[0..] == b && p + [] == p;
    U16Here(b, 0, c.attr, v + (d + p));
    PieceHere(b, 2, v, d + p);
    U16Here(b, 2 + |v|, c.datatype_, p);
    U16Here(b, 4 + |v|, c.predicate_, []);
  }

  /** Attribute, function, first argument and its datatype, second argument and
      its datatype. */
  lemma FuncallOnWire(f: Funcall)
    ensures var b, m, n := EncodeFuncall(f), |Slice(f.arg1)|, |Slice(f.arg2)|;
      && |b| == 7 + m + n
      && U16Is(b, 0, f.attr) && b[2] == f.name
      && PieceIs(b, 3, Slice(f.arg1)) && U16Is(b, 3 + m, f.arg1Datatype)
      && PieceIs(b, 5 + m, Slice(f.arg2)) && U16Is(b, 5 + m + n, f.arg2Datatype)
  {
    hide Be, Slice, U16Is, PieceIs;
    var s, x, p, y, q := [f.name], Slice(f.arg1), Be(f.arg1Datatype, 2), Slice(f.arg2), Be(f.arg2Datatype, 2);
    var b := EncodeFuncall(f);
    assert b[0..] == b && q + [] == q;
    U16Here(b, 0, f.attr, s + (x + (p + (y + q))));
    Advance(b, 2, s, x + (p + (y + q)));
    assert b[2] == b[2..][0];
    PieceHere(b, 3, x, p + (y + q));
    U16Here(b, 3 + |x|, f.arg1Datatype, y + q);
    PieceHere(b, 5 + |x|, y, q);
    U16Here(b, 5 + |x| + |y|, f.arg2Datatype, []);
  }

  /** Key, flags, checks, function calls. The high bit of the flags is set on a
      write, the lowest two say what existence fails it. */
  lemma AtomicOnWire(m: KeyChange)
    ensures var b, k, c := EncodeAtomic(m), |Slice(m.key)|, |EncodeChecks(m.checks)|;
      && |b| == k + 1 + c + |EncodeFuncalls(m.funcalls)|
      && PieceIs(b, 0, Slice(m.key)) && PieceIs(b, k + 1, EncodeChecks(m.checks)) && PieceIs(b, k + 1 + c, EncodeFuncalls(m.funcalls))
      && (b[k] as nat / 128 == 1 <==> !m.erase) && (b[k] as nat % 2 == 1 <==> m.failIfNotFound)
      && (b[k] as nat / 2 % 2 == 1 <==> m.failIfFound) && b[k] as nat % 128 < 4
  {
    hide Slice, EncodeChecks, EncodeFuncalls, PieceIs;
    var k, s, c, f := Slice(m.key), [Flags(m)], EncodeChecks(m.checks), EncodeFuncalls(m.funcalls);
    var b := EncodeAtomic(m);
    assert b[0..] == b && f + [] == f;
    PieceHere(b, 0, k, s + (c + f));
    Advance(b, |k|, s, c + f);
    assert b[|k|] == b[|k|..][0];
    PieceHere(b, |k| + 1, c, f);
    PieceHere(b, |k| + 1 + |c|, f, []);
  }

  /** The search id in eight bytes, then the checks; the status in two, then the
      values of a success. */
  lemma RequestsOnWire(start: SearchStart, item: SearchItem, response: GetResponse)
    ensures var b := EncodeSearchStart(start);
      |b| >= 8 && FromBe(b[..8]) == start.searchId && b[8..] == EncodeChecks(start.checks)
    ensures EncodeSearchItem(item) == Slice(item.key) + EncodeSlices(item.values)
    ensures var b := EncodeGetResponse(response);
      U16Is(b, 0, response.status) && b[2..] == if response.status == 8320 then EncodeSlices(response.values) else []
  {
    hide EncodeChecks, EncodeSlices, Slice, Be, FromBe;
    Widths();
    FromBeOfBe(start.searchId, 8);
    assert EncodeSearchStart(start)[..8] == Be(start.searchId, 8);
    var values := if response.status == RETURN_SUCCESS then EncodeSlices(response.values) else [];
    var b := EncodeGetResponse(response);
    assert b[0..] == b;
    U16Here(b, 0, response.status, values);
  }

  // -------------------------------------------------------------------- transport

  /** Four bytes of header, a number whose low 24 bits are the size of the whole
      frame and whose high ones are the flags, and the payload. */
  lemma FrameOnWire(f: Frame)
    requires Sendable(f)
    ensures var b := EncodeFrame(f).value;
      && |b| == 4 + |f.payload| && b[4..] == f.payload
      && FromBe(b[..4]) % 0x100_0000 == |b|
      && FromBe(b[..4]) / 0x100_0000 * 0x100_0000 == f.flags
  {
    hide Be, FromBe;
    var n := f.flags + Size(f);
    Widths();
    FromBeOfBe(n, 4);
    assert EncodeFrame(f).value[..4] == Be(n, 4);
  }

  /** A frame without flags is sent if it is shorter than 16 MiB, header and all,
      and taken if it is no longer than 8 MiB; the extended flag is bit 30. */
  lemma FrameLimits(payload: Bytes, flags: u32)
    ensures EncodeFrame(Frame(0, payload)).Some? <==> |payload| + 4 < 16 * 1024 * 1024
    ensures Receivable(Frame(0, payload)) <==> |payload| + 4 <= 8 * 1024 * 1024
    ensures HasExtended(flags) <==> flags / 0x4000_0000 == 1 || flags / 0x4000_0000 == 3
  {
    var f := flags / 0x4000_0000;
    assert f == 0 || f == 1 || f == 2 || f == 3;
  }

  // ----------------------------------------------------------------------- values

  /** An integer is its remainder modulo 2^64, the lowest byte first. */
  lemma IntegerOnWire(x: i64, i: nat)
    requires i < 8
    ensures Pow256(i) > 0 && LeI64(x)[i] as nat == x % TWO_64 / Pow256(i) % 0x100
    ensures EncodeElement(KInt, Int(x)) == EncodeValue(KInt, Int(x)) == Some(LeI64(x))
  {
    var n: nat := if x < 0 then x + TWO_64 else x;
    assert x % TWO_64 == n;
    LeBytes(n, 8, i);
  }

  /** A string in a container follows its length in four bytes, the lowest first. */
  lemma StringOnWire(kind: ValueKind, bytes: Bytes, i: nat)
    requires i < 4 && |bytes| < 0x1_0000_0000 && Stringlike(kind)
    ensures var b := EncodeElement(kind, Blob(bytes));
      && b.Some? && |b.value| == 4 + |bytes| && b.value[4..] == bytes
      && Pow256(i) > 0 && b.value[i] as nat == |bytes| / Pow256(i) % 0x100
  {
    hide Le;
    LeBytes(|bytes|, 4, i);
  }

  /** Elements stand in their order, and an entry's key before its value. */
  lemma ContainersOnWire(a: i64, b: i64)
    ensures EncodeElements(KInt, [Int(a), Int(b)]) == Some(LeI64(a) + LeI64(b))
    ensures EncodeEntries(KInt, KInt, [Entry(Int(a), Int(b))]) == Some(LeI64(a) + LeI64(b))
  {
    hide LeI64;
    var values, entries := [Int(a), Int(b)], [Entry(Int(a), Int(b))];
    assert values[1..] == [Int(b)] && [Int(b)][1..] == [] && entries[1..] == [];
    assert EncodeElements(KInt, [Int(b)]) == Some(LeI64(b) + []);
    assert LeI64(b) + [] == LeI64(b) && LeI64(a) + LeI64(b) + [] == LeI64(a) + LeI64(b);
  }

  // ------------------------------------------------------------------------- text

  /** Characters stand in their order. */
  lemma {:induction false} TextOnWire(a: string, b: string)
    ensures Utf8.Encode(a + b) == Utf8.Encode(a) + Utf8.Encode(b)
  {
    if a == "" {
      assert a + b == b;
    } else {
      assert (a + b)[1..] == a[1..] + b;
      TextOnWire(a[1..], b);
      Assoc(Utf8.EncodeChar(a[0]), Utf8.Encode(a[1..]), Utf8.Encode(b));
    }
  }

  /** The bytes of a character: one below 128; otherwise as many as the leading
      byte says, six bits in every byte after it (section 3.9 of the Unicode
      Standard). */
  lemma CharacterOnWire(c: char)
    ensures var n, b := c as int, Utf8.EncodeChar(c);
      && |b| == (if n < 0x80 then 1 else if n < 0x800 then 2 else if n < 0x1_0000 then 3 else 4)
      && (|b| == 1 ==> b[0] as int == n)
      && (|b| == 2 ==> 0xC2 <= b[0] < 0xE0 && (b[0] as int - 0xC0) * 0x40 + (b[1] as int - 0x80) == n)
      && (|b| == 3 ==>
            0xE0 <= b[0] < 0xF0
            && (b[0] as int - 0xE0) * 0x1000 + (b[1] as int - 0x80) * 0x40 + (b[2] as int - 0x80) == n)
      && (|b| == 4 ==>
            0xF0 <= b[0] < 0xF5
            && (b[0] as int - 0xF0) * 0x4_0000 + (b[1] as int - 0x80) * 0x1000 + (b[2] as int - 0x80) * 0x40 + (b[3] as int - 0x80) == n)
      && forall i :: 1 <= i < |b| ==> 0x80 <= b[i] < 0xC0
  {
    Utf8.Sextets(c as int);
  }

  // --------------------------------------------------------------- datatype codes

  /** The kinds that can tag an operand. */
  predicate Operand(kind: ValueKind) {
    match kind
    case KString | KInt | KFloat => true
    case KList(elem) => Scalar(elem)
    case KSet(elem) => Scalar(elem)
    case KMap(key, value) => Scalar(key) && Scalar(value)
    case _ => false
  }

  predicate Scalar(kind: ValueKind) { kind.KBytes? || kind.KString? || kind.KInt? || kind.KFloat? }

  /** The code under which a kind is announced to clients is the tag by which the
      server reads operands of that kind; byte strings alone, documents and
      timestamps have a code but are no tags. */
  lemma CodesAreTags(kind: ValueKind)
    requires PackedSpace.HyperDatatype(kind).Some?
    ensures AtomicPath.KindOfDatatype(PackedSpace.HyperDatatype(kind).value) == if Operand(kind) then Some(kind) else None
  {
    hide PackedSpace.PrimitiveBits, AtomicPath.PrimitiveKind;
    match kind
    case KList(elem) =>
      BitsAreTags(elem);
      CodeSplits(145, PackedSpace.PrimitiveBits(elem).value);
    case KSet(elem) =>
      BitsAreTags(elem);
      CodeSplits(146, PackedSpace.PrimitiveBits(elem).value);
    case KMap(key, value) =>
      BitsAreTags(key);
      BitsAreTags(value);
      var k, v := PackedSpace.PrimitiveBits(key).value, PackedSpace.PrimitiveBits(value).value;
      CodeSplits(147, 8 * k + v);
      PackedSpace.MapCodeSplits(k, v);
    case _ =>
  }

  lemma CodeSplits(group: nat, bits: nat)
    requires bits < 64
    ensures (64 * group + bits) / 64 == group && (64 * group + bits) % 64 == bits
  {
  }

  lemma BitsAreTags(kind: ValueKind)
    requires PackedSpace.PrimitiveBits(kind).Some?
    ensures AtomicPath.PrimitiveKind(PackedSpace.PrimitiveBits(kind).value) == if Scalar(kind) then Some(kind) else None
  {
  }

  /** The codes themselves: the primitives under 9216, lists of them under 9280,
      sets under 9344, maps under 9408 and timestamps under 9472. */
  lemma PrimitiveCodes()
    ensures PackedSpace.HyperDatatype(KBytes) == Some(9216) && PackedSpace.HyperDatatype(KString) == Some(9217)
    ensures PackedSpace.HyperDatatype(KInt) == Some(9218) && PackedSpace.HyperDatatype(KFloat) == Some(9219)
    ensures PackedSpace.HyperDatatype(KList(KInt)) == Some(9282) && PackedSpace.HyperDatatype(KSet(KInt)) == Some(9346)
    ensures PackedSpace.HyperDatatype(KMap(KString, KInt)) == Some(9418)
    ensures PackedSpace.HyperDatatype(KTimestamp(Second)) == Some(9472) && PackedSpace.HyperDatatype(KTimestamp(Month)) == Some(9478)
  {
  }
}
