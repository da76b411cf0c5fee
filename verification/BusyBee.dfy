/** The BusyBee transport: length-prefixed frames back to back in a stream
    (crates/hyperdex-admin-protocol). */
module BusyBee {
  import opened Base
  import opened Wire

  const HEADER_SIZE: nat := 4
  const SIZE_LIMIT: nat := 0x100_0000
  const MAX_FRAME_SIZE: nat := 8 * 1024 * 1024
  const EXTENDED: u32 := 0x4000_0000

  /** The flags share a header word with the size: they own its top eight bits. */
  datatype Frame = Frame(flags: u32, payload: Bytes)

  predicate OverlapsSize(flags: u32) { flags % SIZE_LIMIT != 0 }

  predicate HasExtended(flags: u32) { flags / EXTENDED % 2 == 1 }

  function Size(f: Frame): nat { HEADER_SIZE + |f.payload| }

  /** Frames that a sender puts on the wire. */
  predicate Sendable(f: Frame) { !OverlapsSize(f.flags) && Size(f) < SIZE_LIMIT }

  /** Frames that a receiver takes off the wire. */
  predicate Receivable(f: Frame) { !OverlapsSize(f.flags) && !HasExtended(f.flags) && Size(f) <= MAX_FRAME_SIZE }

  /** With no flag among the size bits, joining the two words bit by bit is adding them. */
  function EncodeFrame(f: Frame): (r: Option<Bytes>)
    ensures r.Some? <==> Sendable(f)
    ensures r.Some? ==> |r.value| == Size(f)
  {
    if OverlapsSize(f.flags) then None
    else if Size(f) >= SIZE_LIMIT then None
    else Some(Be(f.flags + Size(f), HEADER_SIZE) + f.payload)
  }

  function Header(bytes: Bytes): u32
    requires |bytes| >= HEADER_SIZE
  {
    BeOfFromBe(bytes[..HEADER_SIZE]);
    Widths();
    FromBe(bytes[..HEADER_SIZE])
  }

  function DecodeFrame(bytes: Bytes): Option<Frame> {
    if |bytes| < HEADER_SIZE then None
    else
      var total := Header(bytes) % SIZE_LIMIT;
      var flags := Header(bytes) - total;
      if total < HEADER_SIZE || total > MAX_FRAME_SIZE || total != |bytes| || HasExtended(flags) then None
      else Some(Frame(flags, bytes[HEADER_SIZE..]))
  }

  function DecodeStream(bytes: Bytes): Option<seq<Frame>> {
    if bytes == [] then Some([])
    else if |bytes| < HEADER_SIZE then None
    else
      var total := Header(bytes) % SIZE_LIMIT;
      if total < HEADER_SIZE || total > MAX_FRAME_SIZE || |bytes| < total then None
      else
        var frame :- DecodeFrame(bytes[..total]);
        var rest :- DecodeStream(bytes[total..]);
        Some([frame] + rest)
  }

  function EncodeStream(frames: seq<Frame>): Option<Bytes> {
    if frames == [] then Some([])
    else
      var first :- EncodeFrame(frames[0]);
      var rest :- EncodeStream(frames[1..]);
      Some(first + rest)
  }

  // ----------------------------------------------------------------------- loops

  method DecodeStreamLoop(input: Bytes) returns (r: Option<seq<Frame>>)
    ensures r == DecodeStream(input)
    ensures r.Some? ==> HEADER_SIZE * |r.value| <= |input|
  {
    hide DecodeFrame, Header;
    var bytes := input;
    var frames: seq<Frame> := [];
    ResumeNothing(DecodeStream(input));
    while bytes != []
      invariant Resume(frames, DecodeStream(bytes)) == DecodeStream(input)
      invariant HEADER_SIZE * |frames| + |bytes| <= |input|
      decreases |bytes|
    {
      if |bytes| < HEADER_SIZE {
        return None;
      }
      var total := Header(bytes) % SIZE_LIMIT;
      if total < HEADER_SIZE || total > MAX_FRAME_SIZE || |bytes| < total {
        return None;
      }
      var frame := DecodeFrame(bytes[..total]);
      if frame.None? {
        return None;
      }
      ResumeMore(frames, [frame.value], DecodeStream(bytes[total..]));
      frames := frames + [frame.value];
      bytes := bytes[total..];
    }
    assert frames + [] == frames;
    r := Some(frames);
  }

  method EncodeStreamLoop(frames: seq<Frame>) returns (r: Option<Bytes>)
    ensures r == EncodeStream(frames)
  {
    hide EncodeFrame;
    var out: Bytes := [];
    assert frames[0..] == frames;
    ResumeNothing(EncodeStream(frames));
    for i := 0 to |frames|
      invariant Resume(out, EncodeStream(frames[i..])) == EncodeStream(frames)
    {
      var encoded := EncodeFrame(frames[i]);
      NextFrame(out, frames, i);
      if encoded.None? {
        return None;
      }
      out := out + encoded.value;
    }
    assert frames[|frames|..] == [];
    assert out + [] == out;
    r := Some(out);
  }

  lemma NextFrame(out: Bytes, frames: seq<Frame>, i: nat)
    requires i < |frames|
    ensures var encoded := EncodeFrame(frames[i]);
      Resume(out, EncodeStream(frames[i..]))
      == if encoded.None? then None else Resume(out + encoded.value, EncodeStream(frames[i + 1..]))
  {
    hide EncodeFrame;
    assert frames[i..][1..] == frames[i + 1..];
    var encoded, rest := EncodeFrame(frames[i]), EncodeStream(frames[i + 1..]);
    if encoded.Some? && rest.Some? { Assoc(out, encoded.value, rest.value); }
  }

  // ------------------------------------------------------------------ one frame

  lemma HeaderOf(f: Frame, rest: Bytes)
    requires Sendable(f)
    ensures var bytes := EncodeFrame(f).value + rest;
      && Header(bytes) == f.flags + Size(f) && Header(bytes) % SIZE_LIMIT == Size(f)
  {
    var word := f.flags + Size(f);
    SizeBits(f.flags, Size(f));
    Widths();
    FromBeOfBe(word, HEADER_SIZE);
    var bytes := EncodeFrame(f).value + rest;
    Assoc(Be(word, HEADER_SIZE), f.payload, rest);
    assert bytes[..HEADER_SIZE] == Be(word, HEADER_SIZE);
  }

  lemma SizeBits(flags: u32, size: nat)
    requires !OverlapsSize(flags) && size < SIZE_LIMIT
    ensures (flags + size) % SIZE_LIMIT == size && flags + size < 0x1_0000_0000
  {
  }

  /** A receiver takes exactly the receivable frames. */
  lemma FrameRoundTrip(f: Frame)
    requires Sendable(f)
    ensures DecodeFrame(EncodeFrame(f).value) == if Receivable(f) then Some(f) else None
  {
    var bytes := EncodeFrame(f).value;
    HeaderOf(f, []);
    assert bytes + [] == bytes;
    assert bytes[HEADER_SIZE..] == f.payload;
  }

  lemma FrameCanonical(bytes: Bytes)
    requires DecodeFrame(bytes).Some?
    ensures Receivable(DecodeFrame(bytes).value) && EncodeFrame(DecodeFrame(bytes).value) == Some(bytes)
  {
    BeOfFromBe(bytes[..HEADER_SIZE]);
    TopBits(Header(bytes));
    assert bytes == bytes[..HEADER_SIZE] + bytes[HEADER_SIZE..];
  }

  lemma TopBits(word: u32)
    ensures !OverlapsSize(word - word % SIZE_LIMIT)
  {
  }

  // ------------------------------------------------------------------- streams

  predicate AllReceivable(frames: seq<Frame>) { forall f :: f in frames ==> Receivable(f) }

  /** What was sent is received, frame for frame, exactly when the receiver takes
      every frame; otherwise the whole stream is refused. */
  lemma {:induction false} StreamRoundTrip(frames: seq<Frame>)
    requires EncodeStream(frames).Some?
    ensures DecodeStream(EncodeStream(frames).value) == if AllReceivable(frames) then Some(frames) else None
  {
    hide Header, DecodeFrame, EncodeFrame, Receivable, Sendable, AllReceivable;
    if frames == [] {
      NoneToRefuse();
    } else {
      var f, fs := frames[0], frames[1..];
      var first, rest := EncodeFrame(f).value, EncodeStream(fs).value;
      StreamRoundTrip(fs);
      HeaderOf(f, rest);
      FrameRoundTrip(f);
      SplitStream(f, first, rest);
      assert frames == [f] + fs;
      FirstOfAll(f, fs);
    }
  }

  lemma NoneToRefuse()
    ensures AllReceivable([])
  {
  }

  lemma FirstOfAll(f: Frame, fs: seq<Frame>)
    ensures AllReceivable([f] + fs) <==> Receivable(f) && AllReceivable(fs)
  {
    hide Receivable;
    assert forall g :: g in [f] + fs <==> g == f || g in fs;
  }

  lemma SplitStream(f: Frame, first: Bytes, rest: Bytes)
    requires EncodeFrame(f) == Some(first) && Header(first + rest) % SIZE_LIMIT == Size(f)
    requires DecodeFrame(first) == if Receivable(f) then Some(f) else None
    ensures DecodeStream(first + rest) == if Receivable(f) then Resume([f], DecodeStream(rest)) else None
  {
    hide Header, DecodeFrame;
    var bytes := first + rest;
    assert bytes[..|first|] == first && bytes[|first|..] == rest;
  }

  /** The other way round: a stream that decodes is the encoding of its frames,
      byte for byte, so no two streams carry the same frames. */
  lemma {:induction false} StreamCanonical(bytes: Bytes)
    requires DecodeStream(bytes).Some?
    ensures AllReceivable(DecodeStream(bytes).value)
    ensures EncodeStream(DecodeStream(bytes).value) == Some(bytes)
    decreases |bytes|
  {
    if bytes != [] {
      hide DecodeFrame, EncodeFrame, Receivable;
      var total := Header(bytes) % SIZE_LIMIT;
      FrameCanonical(bytes[..total]);
      StreamCanonical(bytes[total..]);
      var f, fs := DecodeFrame(bytes[..total]).value, DecodeStream(bytes[total..]).value;
      assert ([f] + fs)[1..] == fs;
      assert bytes == bytes[..total] + bytes[total..];
    }
  }

  /** Streams can be cut between frames: decoding the front and then what
      follows gives what decoding all of it gives. */
  lemma {:induction false} StreamAppend(front: Bytes, back: Bytes)
    requires DecodeStream(front).Some?
    ensures DecodeStream(front + back) == Resume(DecodeStream(front).value, DecodeStream(back))
    decreases |front|
  {
    if front == [] {
      assert front + back == back;
      ResumeNothing(DecodeStream(back));
    } else {
      hide DecodeFrame;
      var total := Header(front) % SIZE_LIMIT;
      assert (front + back)[..HEADER_SIZE] == front[..HEADER_SIZE];
      StreamAppend(front[total..], back);
      var f, fs := DecodeFrame(front[..total]).value, DecodeStream(front[total..]).value;
      assert (front + back)[..total] == front[..total] && (front + back)[total..] == front[total..] + back;
      if DecodeStream(back).Some? { Assoc([f], fs, DecodeStream(back).value); }
    }
  }
}
