/** Counted lists on the wire, for any element codec. */
module Lists {
  import opened Arithmetic
  import opened Base
  import opened Wire

  /** The items one after another, without their count. */
  function Joined<T>(items: seq<T>, enc: T -> Bytes): Bytes {
    if items == [] then [] else enc(items[0]) + Joined(items[1..], enc)
  }

  /** The items stand in their order. */
  lemma {:induction false} JoinedConcat<T>(a: seq<T>, b: seq<T>, enc: T -> Bytes)
    ensures Joined(a + b, enc) == Joined(a, enc) + Joined(b, enc)
  {
    if a == [] {
      assert a + b == b;
    } else {
      assert (a + b)[1..] == a[1..] + b;
      JoinedConcat(a[1..], b, enc);
      Assoc(enc(a[0]), Joined(a[1..], enc), Joined(b, enc));
    }
  }

  function EncodeList<T>(items: seq<T>, enc: T -> Bytes): Bytes {
    Leb128(|items|) + Joined(items, enc)
  }

  type Decoder<!T> = Bytes -> Option<Parsed<T>>

  ghost predicate InRange<T>(dec: Decoder<T>) {
    forall b: Bytes :: dec(b).Some? ==> dec(b).value.used <= |b|
  }

  function DecodeItems<T>(count: nat, bytes: Bytes, dec: Decoder<T>): (r: Option<Parsed<seq<T>>>)
    requires InRange(dec)
    ensures r.Some? ==> r.value.used <= |bytes| && |r.value.value| == count
  {
    if count == 0 then Some(Parsed([], 0))
    else
      var item :- dec(bytes);
      var rest :- DecodeItems(count - 1, bytes[item.used..], dec);
      Some(Parsed([item.value] + rest.value, item.used + rest.used))
  }

  /** A count that the remaining bytes cannot hold is refused before anything is
      allocated for it. */
  function BoundedCount(count: nat, remaining: nat, minBytes: nat): Option<nat>
    requires minBytes > 0
  {
    if count > remaining / minBytes then None else Some(count)
  }

  function DecodeList<T>(bytes: Bytes, minBytes: nat, dec: Decoder<T>): (r: Option<Parsed<seq<T>>>)
    requires minBytes > 0 && InRange(dec)
    ensures r.Some? ==> r.value.used <= |bytes|
  {
    var size :- DecodeVarint(bytes);
    var count :- BoundedCount(size.value, |bytes| - size.used, minBytes);
    var items :- DecodeItems(count, bytes[size.used..], dec);
    Some(Parsed(items.value, size.used + items.used))
  }

  /** The encoders' loop over an output buffer. */
  method EncodeListLoop<T>(items: seq<T>, enc: T -> Bytes) returns (out: Bytes)
    requires |items| < TWO_64
    ensures out == EncodeList(items, enc)
  {
    out := EncodeVarint(|items|);
    for i := 0 to |items|
      invariant out + Joined(items[i..], enc) == EncodeList(items, enc)
    {
      assert items[i..][1..] == items[i + 1..];
      assert out + (enc(items[i]) + Joined(items[i + 1..], enc)) == (out + enc(items[i])) + Joined(items[i + 1..], enc);
      out := out + enc(items[i]);
    }
    assert items[|items|..] == [];
  }

  /** The decoders' loop: a cursor advances over the input, item by item. */
  method DecodeListLoop<T>(bytes: Bytes, minBytes: nat, dec: Decoder<T>) returns (r: Option<Parsed<seq<T>>>)
    requires minBytes > 0 && InRange(dec)
    ensures r == DecodeList(bytes, minBytes, dec)
  {
    hide DecodeVarint, DecodeItems, BoundedCount;
    var size := DecodeVarintLoop(bytes);
    if size.None? {
      return None;
    }
    var bounded := BoundedCount(size.value.value, |bytes| - size.value.used, minBytes);
    if bounded.None? {
      return None;
    }
    var start := size.value.used;
    var items := DecodeItemsLoop(bounded.value, bytes[start..], dec);
    if items.None? {
      return None;
    }
    r := Some(Parsed(items.value.value, start + items.value.used));
  }

  method DecodeItemsLoop<T>(count: nat, bytes: Bytes, dec: Decoder<T>) returns (r: Option<Parsed<seq<T>>>)
    requires InRange(dec)
    ensures r == DecodeItems(count, bytes, dec)
  {
    hide DecodeItems, After;
    var used: nat := 0;
    var items: seq<T> := [];
    assert bytes[0..] == bytes;
    AfterNothing(DecodeItems(count, bytes, dec));
    for i := 0 to count
      invariant used <= |bytes|
      invariant DecodeItems(count, bytes, dec) == After(items, used, DecodeItems(count - i, bytes[used..], dec))
    {
      var item := dec(bytes[used..]);
      NextItem(bytes, used, items, count - i, dec);
      if item.None? {
        return None;
      }
      items := items + [item.value.value];
      used := used + item.value.used;
    }
    AfterAll(items, used, bytes[used..], dec);
    r := Some(Parsed(items, used));
  }

  lemma AfterAll<T>(done: seq<T>, used: nat, bytes: Bytes, dec: Decoder<T>)
    requires InRange(dec)
    ensures After(done, used, DecodeItems(0, bytes, dec)) == Some(Parsed(done, used))
  {
    assert done + [] == done;
  }

  lemma AfterNothing<T>(rest: Option<Parsed<seq<T>>>)
    ensures After([], 0, rest) == rest
  {
    if rest.Some? { assert [] + rest.value.value == rest.value.value; }
  }

  lemma NextItem<T>(bytes: Bytes, used: nat, done: seq<T>, count: nat, dec: Decoder<T>)
    requires InRange(dec) && used <= |bytes| && count > 0
    ensures var item := dec(bytes[used..]);
      After(done, used, DecodeItems(count, bytes[used..], dec))
      == if item.None? then None
         else After(done + [item.value.value], used + item.value.used,
                    DecodeItems(count - 1, bytes[used + item.value.used..], dec))
  {
    var item := dec(bytes[used..]);
    if item.Some? {
      var rest := DecodeItems(count - 1, bytes[used + item.value.used..], dec);
      assert bytes[used..][item.value.used..] == bytes[used + item.value.used..];
      if rest.Some? {
        assert done + ([item.value.value] + rest.value.value) == (done + [item.value.value]) + rest.value.value;
      }
    }
  }

  /** A decoding that continues with `rest` after some items are done. */
  function After<T>(done: seq<T>, used: nat, rest: Option<Parsed<seq<T>>>): Option<Parsed<seq<T>>> {
    if rest.None? then None else Some(Parsed(done + rest.value.value, used + rest.value.used))
  }

  /** `dec` undoes `enc` on this item, whatever follows it. */
  ghost predicate UndoesOne<T>(x: T, enc: T -> Bytes, dec: Decoder<T>, minBytes: nat, rest: Bytes) {
    |enc(x)| >= minBytes && dec(enc(x) + rest) == Some(Parsed(x, |enc(x)|))
  }

  ghost predicate Undoes<T>(items: seq<T>, enc: T -> Bytes, dec: Decoder<T>, minBytes: nat) {
    forall i, rest :: 0 <= i < |items| ==> UndoesOne(items[i], enc, dec, minBytes, rest)
  }

  lemma {:induction false} ItemsRoundTrip<T>(items: seq<T>, enc: T -> Bytes, dec: Decoder<T>, minBytes: nat, rest: Bytes)
    requires InRange(dec) && Undoes(items, enc, dec, minBytes)
    ensures DecodeItems(|items|, Joined(items, enc) + rest, dec) == Some(Parsed(items, |Joined(items, enc)|))
    ensures |Joined(items, enc)| >= Times(|items|, minBytes)
  {
    hide InRange, DecodeItems, UndoesOne;
    if items == [] {
      assert [] + rest == rest;
      NoItems(rest, dec);
    } else {
      var x, xs := items[0], items[1..];
      UndoesRest(items, enc, dec, minBytes);
      ItemsRoundTrip(xs, enc, dec, minBytes, rest);
      var tail := Joined(xs, enc) + rest;
      assert UndoesOne(items[0], enc, dec, minBytes, tail);
      Assoc(enc(x), Joined(xs, enc), rest);
      OneUndone(x, enc, dec, minBytes, tail);
      FirstItem(x, enc(x), tail, |xs|, dec, Parsed(xs, |Joined(xs, enc)|));
      assert items == [x] + xs;
    }
  }

  lemma NoItems<T>(bytes: Bytes, dec: Decoder<T>)
    requires InRange(dec)
    ensures DecodeItems(0, bytes, dec) == Some(Parsed([], 0))
  {
  }

  lemma OneUndone<T>(x: T, enc: T -> Bytes, dec: Decoder<T>, minBytes: nat, tail: Bytes)
    requires UndoesOne(x, enc, dec, minBytes, tail)
    ensures |enc(x)| >= minBytes && dec(enc(x) + tail) == Some(Parsed(x, |enc(x)|))
  {
  }

  lemma UndoesRest<T>(items: seq<T>, enc: T -> Bytes, dec: Decoder<T>, minBytes: nat)
    requires items != [] && Undoes(items, enc, dec, minBytes)
    ensures Undoes(items[1..], enc, dec, minBytes)
  {
    hide UndoesOne;
    forall i, r | 0 <= i < |items[1..]| ensures UndoesOne(items[1..][i], enc, dec, minBytes, r) {
      assert UndoesOne(items[i + 1], enc, dec, minBytes, r);
    }
  }

  lemma FirstItem<T>(x: T, encoded: Bytes, tail: Bytes, more: nat, dec: Decoder<T>, rest: Parsed<seq<T>>)
    requires InRange(dec) && dec(encoded + tail) == Some(Parsed(x, |encoded|))
    requires DecodeItems(more, tail, dec) == Some(rest)
    ensures DecodeItems(more + 1, encoded + tail, dec) == Some(Parsed([x] + rest.value, |encoded| + rest.used))
  {
    assert (encoded + tail)[|encoded|..] == tail;
  }

  /** Counted lists decode to themselves: in particular the bound on the count
      never refuses a list that was really encoded. */
  lemma ListRoundTrip<T>(items: seq<T>, enc: T -> Bytes, dec: Decoder<T>, minBytes: nat, rest: Bytes)
    requires |items| < TWO_64 && minBytes > 0 && InRange(dec) && Undoes(items, enc, dec, minBytes)
    ensures DecodeList(EncodeList(items, enc) + rest, minBytes, dec) == Some(Parsed(items, |EncodeList(items, enc)|))
  {
    hide Leb128, DecodeVarint, DecodeItems, Joined, DecodeList, BoundedCount, Undoes;
    var head, body := Leb128(|items|), Joined(items, enc) + rest;
    var bytes := EncodeList(items, enc) + rest;
    Assoc(head, Joined(items, enc), rest);
    assert bytes[0..] == bytes;
    Advance(bytes, 0, head, body);
    VarintRoundTrip(|items|, body);
    ItemsRoundTrip(items, enc, dec, minBytes, rest);
    CountFits(|items|, minBytes, |body|);
    ListOfParts(bytes, minBytes, dec, |items|, |head|, Parsed(items, |Joined(items, enc)|));
  }

  lemma ListOfParts<T>(bytes: Bytes, minBytes: nat, dec: Decoder<T>, count: u64, used: nat, items: Parsed<seq<T>>)
    requires minBytes > 0 && InRange(dec)
    requires DecodeVarint(bytes) == Some(Parsed(count, used))
    requires BoundedCount(count, |bytes| - used, minBytes) == Some(count)
    requires DecodeItems(count, bytes[used..], dec) == Some(items)
    ensures DecodeList(bytes, minBytes, dec) == Some(Parsed(items.value, used + items.used))
  {
    hide DecodeVarint, DecodeItems, BoundedCount;
  }

  lemma CountFits(count: nat, minBytes: nat, available: nat)
    requires minBytes > 0 && available >= Times(count, minBytes)
    ensures BoundedCount(count, available, minBytes) == Some(count)
  {
    TimesIsProduct(count, minBytes);
    QuotientExact(available, minBytes, count);
  }
}
