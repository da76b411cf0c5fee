/** Client messages: an exact codec (crates/legacy-protocol). */
module Protocol {
  import opened Base
  import opened Lists
  import opened Wire

  // --------------------------------------------------------------------- messages

  datatype AttributeCheck = AttributeCheck(attr: u16, value: Bytes, datatype_: u16, predicate_: u16)

  datatype Funcall = Funcall(attr: u16, name: byte, arg1: Bytes, arg1Datatype: u16, arg2: Bytes, arg2Datatype: u16)

  datatype KeyChange = KeyChange(key: Bytes, erase: bool, failIfNotFound: bool, failIfFound: bool,
                                 checks: seq<AttributeCheck>, funcalls: seq<Funcall>)

  datatype SearchStart = SearchStart(searchId: u64, checks: seq<AttributeCheck>)

  datatype SearchItem = SearchItem(key: Bytes, values: seq<Bytes>)

  datatype GetResponse = GetResponse(status: u16, values: seq<Bytes>)

  const RETURN_SUCCESS: u16 := 8320
  const MIN_SLICE_BYTES: nat := 1
  const MIN_CHECK_BYTES: nat := 2 + MIN_SLICE_BYTES + 2 + 2
  const MIN_FUNCALL_BYTES: nat := 2 + 1 + MIN_SLICE_BYTES + 2 + MIN_SLICE_BYTES + 2

  /** What a machine can hold: every length fits 64 bits. */
  predicate Short(b: Bytes) { |b| < TWO_64 }

  predicate ShortCheck(c: AttributeCheck) { Short(c.value) }

  predicate ShortFuncall(f: Funcall) { Short(f.arg1) && Short(f.arg2) }

  function EncodeCheck(c: AttributeCheck): Bytes {
    Be(c.attr, 2) + (Slice(c.value) + (Be(c.datatype_, 2) + Be(c.predicate_, 2)))
  }

  function U16At(bytes: Bytes, i: nat): u16
    requires i + 2 <= |bytes|
  {
    256 * bytes[i] as nat + bytes[i + 1] as nat
  }

  lemma U16AtBe(bytes: Bytes, at: nat, n: u16, rest: Bytes)
    requires at <= |bytes| && bytes[at..] == Be(n, 2) + rest
    ensures at + 2 <= |bytes| && U16At(bytes, at) == n && bytes[at + 2..] == rest
  {
    var hi, lo := (n / 256) as byte, (n % 256) as byte;
    assert Be(n, 2) == [hi, lo];
    Advance(bytes, at, Be(n, 2), rest);
    assert bytes[at] == bytes[at..][0] == hi && bytes[at + 1] == bytes[at..][1] == lo;
  }

  function DecodeCheck(bytes: Bytes): (r: Option<Parsed<AttributeCheck>>)
    ensures r.Some? ==> r.value.used <= |bytes|
  {
    if |bytes| < 2 then None
    else
      var value :- DecodeSlice(bytes[2..]);
      var used := 2 + value.used;
      if |bytes| < used + 4 then None
      else Some(Parsed(AttributeCheck(U16At(bytes, 0), value.value, U16At(bytes, used), U16At(bytes, used + 2)), used + 4))
  }

  lemma CheckRoundTrip(c: AttributeCheck, rest: Bytes)
    requires ShortCheck(c)
    ensures DecodeCheck(EncodeCheck(c) + rest) == Some(Parsed(c, |EncodeCheck(c)|)) && |EncodeCheck(c)| >= MIN_CHECK_BYTES
  {
    hide DecodeSlice, Slice, Be, U16At;
    var a, v, d, p := Be(c.attr, 2), Slice(c.value), Be(c.datatype_, 2), Be(c.predicate_, 2);
    var bytes := EncodeCheck(c) + rest;
    Assoc(a, v + (d + p), rest);
    Assoc(v, d + p, rest);
    Assoc(d, p, rest);
    assert bytes[0..] == bytes;
    U16AtBe(bytes, 0, c.attr, v + (d + (p + rest)));
    SliceRoundTrip(c.value, d + (p + rest));
    Advance(bytes, 2, v, d + (p + rest));
    U16AtBe(bytes, 2 + |v|, c.datatype_, p + rest);
    U16AtBe(bytes, 2 + |v| + 2, c.predicate_, rest);
    SliceNonempty(c.value);
  }

  lemma SliceNonempty(b: Bytes)
    ensures |Slice(b)| >= MIN_SLICE_BYTES
  {
  }

  function EncodeFuncall(f: Funcall): Bytes {
    Be(f.attr, 2) + ([f.name] + (Slice(f.arg1) + (Be(f.arg1Datatype, 2) + (Slice(f.arg2) + Be(f.arg2Datatype, 2)))))
  }

  function DecodeFuncall(bytes: Bytes): (r: Option<Parsed<Funcall>>)
    ensures r.Some? ==> r.value.used <= |bytes|
  {
    if |bytes| < 3 then None
    else
      var arg1 :- DecodeSlice(bytes[3..]);
      var used1 := 3 + arg1.used;
      if |bytes| < used1 + 2 then None
      else
        var arg2 :- DecodeSlice(bytes[used1 + 2..]);
        var used2 := used1 + 2 + arg2.used;
        if |bytes| < used2 + 2 then None
        else
          var f := Funcall(U16At(bytes, 0), bytes[2], arg1.value, U16At(bytes, used1), arg2.value, U16At(bytes, used2));
          Some(Parsed(f, used2 + 2))
  }

  lemma FuncallRoundTrip(f: Funcall, rest: Bytes)
    requires ShortFuncall(f)
    ensures DecodeFuncall(EncodeFuncall(f) + rest) == Some(Parsed(f, |EncodeFuncall(f)|)) && |EncodeFuncall(f)| >= MIN_FUNCALL_BYTES
  {
    hide DecodeSlice, DecodeFuncall, Slice, Be, U16At;
    var n1, n2 := |Slice(f.arg1)|, |Slice(f.arg2)|;
    var bytes := EncodeFuncall(f) + rest;
    var afterArg2 := Be(f.arg2Datatype, 2) + rest;
    var afterArg1 := Be(f.arg1Datatype, 2) + (Slice(f.arg2) + afterArg2);
    FuncallLayout(f, rest);
    assert bytes[0..] == bytes;
    U16AtBe(bytes, 0, f.attr, [f.name] + (Slice(f.arg1) + afterArg1));
    assert bytes[2] == bytes[2..][0];
    Advance(bytes, 2, [f.name], Slice(f.arg1) + afterArg1);
    SliceRoundTrip(f.arg1, afterArg1);
    Advance(bytes, 3, Slice(f.arg1), afterArg1);
    U16AtBe(bytes, 3 + n1, f.arg1Datatype, Slice(f.arg2) + afterArg2);
    SliceRoundTrip(f.arg2, afterArg2);
    Advance(bytes, 3 + n1 + 2, Slice(f.arg2), afterArg2);
    U16AtBe(bytes, 3 + n1 + 2 + n2, f.arg2Datatype, rest);
    FuncallOfParts(bytes, f, n1, n2);
    SliceNonempty(f.arg1);
    SliceNonempty(f.arg2);
  }

  lemma FuncallOfParts(bytes: Bytes, f: Funcall, n1: nat, n2: nat)
    requires 3 + n1 + 2 + n2 + 2 <= |bytes|
    requires U16At(bytes, 0) == f.attr && bytes[2] == f.name
    requires DecodeSlice(bytes[3..]) == Some(Parsed(f.arg1, n1)) && U16At(bytes, 3 + n1) == f.arg1Datatype
    requires DecodeSlice(bytes[3 + n1 + 2..]) == Some(Parsed(f.arg2, n2)) && U16At(bytes, 3 + n1 + 2 + n2) == f.arg2Datatype
    ensures DecodeFuncall(bytes) == Some(Parsed(f, 3 + n1 + 2 + n2 + 2))
  {
    hide DecodeSlice, U16At;
  }

  lemma FuncallLayout(f: Funcall, rest: Bytes)
    ensures EncodeFuncall(f) + rest == Be(f.attr, 2) + ([f.name] + (Slice(f.arg1)
      + (Be(f.arg1Datatype, 2) + (Slice(f.arg2) + (Be(f.arg2Datatype, 2) + rest)))))
    ensures |EncodeFuncall(f)| == 7 + |Slice(f.arg1)| + |Slice(f.arg2)|
  {
    hide Slice, Be;
    var a, n, x, p, y, q := Be(f.attr, 2), [f.name], Slice(f.arg1), Be(f.arg1Datatype, 2), Slice(f.arg2), Be(f.arg2Datatype, 2);
    Assoc(a, n + (x + (p + (y + q))), rest);
    Assoc(n, x + (p + (y + q)), rest);
    Assoc(x, p + (y + q), rest);
    Assoc(p, y + q, rest);
    Assoc(y, q, rest);
  }

  function EncodeChecks(checks: seq<AttributeCheck>): Bytes { EncodeList(checks, EncodeCheck) }

  function DecodeChecks(bytes: Bytes): (r: Option<Parsed<seq<AttributeCheck>>>)
    ensures r.Some? ==> r.value.used <= |bytes|
  {
    DecodeList(bytes, MIN_CHECK_BYTES, DecodeCheck)
  }

  function EncodeFuncalls(funcalls: seq<Funcall>): Bytes { EncodeList(funcalls, EncodeFuncall) }

  function DecodeFuncalls(bytes: Bytes): (r: Option<Parsed<seq<Funcall>>>)
    ensures r.Some? ==> r.value.used <= |bytes|
  {
    DecodeList(bytes, MIN_FUNCALL_BYTES, DecodeFuncall)
  }

  function EncodeSlices(values: seq<Bytes>): Bytes { EncodeList(values, Slice) }

  function DecodeSlices(bytes: Bytes): (r: Option<Parsed<seq<Bytes>>>)
    ensures r.Some? ==> r.value.used <= |bytes|
  {
    DecodeList(bytes, MIN_SLICE_BYTES, DecodeSlice)
  }

  predicate ShortChecks(checks: seq<AttributeCheck>) {
    |checks| < TWO_64 && forall c :: c in checks ==> ShortCheck(c)
  }

  predicate ShortFuncalls(funcalls: seq<Funcall>) {
    |funcalls| < TWO_64 && forall f :: f in funcalls ==> ShortFuncall(f)
  }

  predicate ShortSlices(values: seq<Bytes>) {
    |values| < TWO_64 && forall v :: v in values ==> Short(v)
  }

  lemma ChecksRoundTrip(checks: seq<AttributeCheck>, rest: Bytes)
    requires ShortChecks(checks)
    ensures DecodeChecks(EncodeChecks(checks) + rest) == Some(Parsed(checks, |EncodeChecks(checks)|))
  {
    forall i, r | 0 <= i < |checks| ensures UndoesOne(checks[i], EncodeCheck, DecodeCheck, MIN_CHECK_BYTES, r) {
      assert checks[i] in checks;
      CheckRoundTrip(checks[i], r);
    }
    ListRoundTrip(checks, EncodeCheck, DecodeCheck, MIN_CHECK_BYTES, rest);
  }

  lemma FuncallsRoundTrip(funcalls: seq<Funcall>, rest: Bytes)
    requires ShortFuncalls(funcalls)
    ensures DecodeFuncalls(EncodeFuncalls(funcalls) + rest) == Some(Parsed(funcalls, |EncodeFuncalls(funcalls)|))
  {
    forall i, r | 0 <= i < |funcalls| ensures UndoesOne(funcalls[i], EncodeFuncall, DecodeFuncall, MIN_FUNCALL_BYTES, r) {
      assert funcalls[i] in funcalls;
      FuncallRoundTrip(funcalls[i], r);
    }
    ListRoundTrip(funcalls, EncodeFuncall, DecodeFuncall, MIN_FUNCALL_BYTES, rest);
  }

  lemma SlicesRoundTrip(values: seq<Bytes>, rest: Bytes)
    requires ShortSlices(values)
    ensures DecodeSlices(EncodeSlices(values) + rest) == Some(Parsed(values, |EncodeSlices(values)|))
  {
    forall i, r | 0 <= i < |values| ensures UndoesOne(values[i], Slice, DecodeSlice, MIN_SLICE_BYTES, r) {
      assert values[i] in values;
      SliceRoundTrip(values[i], r);
    }
    ListRoundTrip(values, Slice, DecodeSlice, MIN_SLICE_BYTES, rest);
  }

  // -------------------------------------------------------------- whole messages

  /** A message must fill its body exactly. */
  function Whole<T>(parsed: Option<Parsed<T>>, length: nat): Option<T> {
    if parsed.Some? && parsed.value.used == length then Some(parsed.value.value) else None
  }

  function EncodeCount(checks: seq<AttributeCheck>): Bytes { EncodeChecks(checks) }

  function DecodeCount(bytes: Bytes): Option<seq<AttributeCheck>> { Whole(DecodeChecks(bytes), |bytes|) }

  lemma CountExact(checks: seq<AttributeCheck>, suffix: Bytes)
    requires ShortChecks(checks)
    ensures DecodeCount(EncodeCount(checks) + suffix) == if suffix == [] then Some(checks) else None
  {
    ChecksRoundTrip(checks, suffix);
  }

  function FlagBit(b: bool, bit: byte): byte { if b then bit else 0 }

  function Flags(m: KeyChange): byte {
    FlagBit(!m.erase, 128) + FlagBit(m.failIfNotFound, 1) + FlagBit(m.failIfFound, 2)
  }

  function EncodeAtomic(m: KeyChange): Bytes {
    Slice(m.key) + ([Flags(m)] + (EncodeChecks(m.checks) + EncodeFuncalls(m.funcalls)))
  }

  function ChangeOf(key: Bytes, flags: byte, checks: seq<AttributeCheck>, funcalls: seq<Funcall>): KeyChange {
    KeyChange(key, flags < 128, flags % 2 != 0, flags % 4 >= 2, checks, funcalls)
  }

  lemma FlagsKeepChange(m: KeyChange)
    ensures ChangeOf(m.key, Flags(m), m.checks, m.funcalls) == m
  {
  }

  function DecodeAtomic(bytes: Bytes): Option<KeyChange> {
    var key :- DecodeSlice(bytes);
    if |bytes| < key.used + 1 then None
    else
      var at := key.used + 1;
      var checks :- DecodeChecks(bytes[at..]);
      var funcalls :- DecodeFuncalls(bytes[at + checks.used..]);
      if at + checks.used + funcalls.used != |bytes| then None
      else Some(ChangeOf(key.value, bytes[key.used], checks.value, funcalls.value))
  }

  predicate ShortKeyChange(m: KeyChange) { Short(m.key) && ShortChecks(m.checks) && ShortFuncalls(m.funcalls) }

  /** An atomic request decodes to itself, and with anything after it to nothing. */
  lemma AtomicExact(m: KeyChange, suffix: Bytes)
    requires ShortKeyChange(m)
    ensures DecodeAtomic(EncodeAtomic(m) + suffix) == if suffix == [] then Some(m) else None
  {
    hide Slice, Flags, EncodeChecks, EncodeFuncalls, DecodeSlice, DecodeChecks, DecodeFuncalls, ChangeOf, DecodeAtomic;
    var k, c, f := Slice(m.key), EncodeChecks(m.checks), EncodeFuncalls(m.funcalls);
    var bytes := EncodeAtomic(m) + suffix;
    Assoc(k, [Flags(m)] + (c + f), suffix);
    Assoc([Flags(m)], c + f, suffix);
    Assoc(c, f, suffix);
    SliceRoundTrip(m.key, [Flags(m)] + (c + (f + suffix)));
    assert bytes[0..] == bytes;
    Advance(bytes, 0, k, [Flags(m)] + (c + (f + suffix)));
    assert bytes[|k|] == bytes[|k|..][0];
    Advance(bytes, |k|, [Flags(m)], c + (f + suffix));
    ChecksRoundTrip(m.checks, f + suffix);
    Advance(bytes, |k| + 1, c, f + suffix);
    FuncallsRoundTrip(m.funcalls, suffix);
    FlagsKeepChange(m);
    AtomicOfParts(bytes, Parsed(m.key, |k|), Parsed(m.checks, |c|), Parsed(m.funcalls, |f|));
  }

  lemma AtomicOfParts(bytes: Bytes, key: Parsed<Bytes>, checks: Parsed<seq<AttributeCheck>>, funcalls: Parsed<seq<Funcall>>)
    requires key.used + 1 + checks.used + funcalls.used <= |bytes|
    requires DecodeSlice(bytes) == Some(key)
    requires DecodeChecks(bytes[key.used + 1..]) == Some(checks)
    requires DecodeFuncalls(bytes[key.used + 1 + checks.used..]) == Some(funcalls)
    ensures DecodeAtomic(bytes) == if key.used + 1 + checks.used + funcalls.used != |bytes| then None
      else Some(ChangeOf(key.value, bytes[key.used], checks.value, funcalls.value))
  {
    hide DecodeSlice, DecodeChecks, DecodeFuncalls, ChangeOf;
  }

  function EncodeSearchStart(m: SearchStart): Bytes { Be(m.searchId, 8) + EncodeChecks(m.checks) }

  function DecodeSearchStart(bytes: Bytes): Option<SearchStart> {
    if |bytes| < 8 then None
    else
      var checks :- DecodeChecks(bytes[8..]);
      if 8 + checks.used != |bytes| then None
      else
        BeOfFromBe(bytes[..8]);
        Widths();
        Some(SearchStart(FromBe(bytes[..8]), checks.value))
  }

  lemma SearchStartExact(m: SearchStart, suffix: Bytes)
    requires ShortChecks(m.checks)
    ensures DecodeSearchStart(EncodeSearchStart(m) + suffix) == if suffix == [] then Some(m) else None
  {
    var tail := EncodeChecks(m.checks) + suffix;
    var bytes := EncodeSearchStart(m) + suffix;
    assert bytes == Be(m.searchId, 8) + tail && bytes[8..] == tail && bytes[..8] == Be(m.searchId, 8);
    Widths();
    FromBeOfBe(m.searchId, 8);
    ChecksRoundTrip(m.checks, suffix);
  }

  function EncodeSearchItem(m: SearchItem): Bytes { Slice(m.key) + EncodeSlices(m.values) }

  function DecodeSearchItem(bytes: Bytes): Option<SearchItem> {
    var key :- DecodeSlice(bytes);
    var values :- DecodeSlices(bytes[key.used..]);
    if key.used + values.used != |bytes| then None else Some(SearchItem(key.value, values.value))
  }

  lemma SearchItemExact(m: SearchItem, suffix: Bytes)
    requires Short(m.key) && ShortSlices(m.values)
    ensures DecodeSearchItem(EncodeSearchItem(m) + suffix) == if suffix == [] then Some(m) else None
  {
    var tail := EncodeSlices(m.values) + suffix;
    var bytes := EncodeSearchItem(m) + suffix;
    assert bytes == Slice(m.key) + tail && bytes[|Slice(m.key)|..] == tail;
    SliceRoundTrip(m.key, tail);
    SlicesRoundTrip(m.values, suffix);
  }

  function EncodeGetResponse(m: GetResponse): Bytes {
    Be(m.status, 2) + (if m.status == RETURN_SUCCESS then EncodeSlices(m.values) else [])
  }

  function DecodeGetResponse(bytes: Bytes): Option<GetResponse> {
    if |bytes| < 2 then None
    else
      var status := U16At(bytes, 0);
      if status != RETURN_SUCCESS then if |bytes| != 2 then None else Some(GetResponse(status, []))
      else
        var values :- DecodeSlices(bytes[2..]);
        if 2 + values.used != |bytes| then None else Some(GetResponse(status, values.value))
  }

  /** Only a successful response carries values: exactly the responses without
      stray values survive the trip. */
  lemma GetResponseExact(m: GetResponse, suffix: Bytes)
    requires ShortSlices(m.values)
    ensures DecodeGetResponse(EncodeGetResponse(m) + suffix)
      == if suffix == [] then Some(if m.status == RETURN_SUCCESS then m else GetResponse(m.status, [])) else None
  {
    var values := if m.status == RETURN_SUCCESS then EncodeSlices(m.values) else [];
    var bytes := EncodeGetResponse(m) + suffix;
    Assoc(Be(m.status, 2), values, suffix);
    assert bytes[0..] == bytes;
    U16AtBe(bytes, 0, m.status, values + suffix);
    SlicesRoundTrip(m.values, suffix);
  }
}
