/** The hook's incremental frame decoder. Frames are zero-terminated; what a frame holds is for `decode`, a
    function of its bytes, whose only assumed link with the encoder is stated in `Codec`. */
module IpcDecoder {
  import opened Prelude

  const MAX_SERIALIZED_FRAME_LEN: nat := 65_535 + 128
  const MAX_ENCODED_FRAME_LEN: nat := MAX_SERIALIZED_FRAME_LEN + MAX_SERIALIZED_FRAME_LEN / 254 + 2

  datatype ProtocolError = FrameTooLarge(actual: nat, maximum: nat) | TruncatedFrame | Malformed(code: int)

  const TooLarge := FrameTooLarge(MAX_ENCODED_FRAME_LEN + 1, MAX_ENCODED_FRAME_LEN)

  type Decode<!M> = seq<byte> -> Result<M, ProtocolError>

  /** What came of some input: the messages or the first error, and the bytes held back. */
  datatype Outcome<M> = Outcome(result: Result<seq<M>, ProtocolError>, frame: seq<byte>)

  ghost predicate ZeroFree(s: seq<byte>) { forall i :: 0 <= i < |s| ==> s[i] != 0 }

  /** What the decoder may hold between two calls. */
  ghost predicate Held(frame: seq<byte>) { ZeroFree(frame) && |frame| <= MAX_ENCODED_FRAME_LEN }

  function Prepend<M>(ms: seq<M>, o: Outcome<M>): Outcome<M> {
    if o.result.Ok? then Outcome(Ok(ms + o.result.value), o.frame) else o
  }

  /** The decoder, one byte at a time. */
  function Feed<M>(decode: Decode<M>, frame: seq<byte>, input: seq<byte>): Outcome<M>
    decreases |input|
  {
    if input == [] then Outcome(Ok([]), frame)
    else
      var grown := frame + [input[0]];
      if |grown| > MAX_ENCODED_FRAME_LEN then Outcome(Err(TooLarge), [])
      else if input[0] != 0 then Feed(decode, grown, input[1..])
      else match decode(grown)
        case Err(e) => Outcome(Err(e), [])
        case Ok(m) => Prepend([m], Feed(decode, [], input[1..]))
  }

  class FrameDecoder {
    var frame: seq<byte>

    ghost predicate Valid()
      reads this
    {
      Held(frame)
    }

    constructor ()
      ensures Valid() && frame == []
    {
      frame := [];
    }

    method Push<M>(input: seq<byte>, decode: Decode<M>) returns (r: Result<seq<M>, ProtocolError>)
      requires Valid()
      modifies this
      ensures Valid()
      ensures Outcome(r, frame) == Feed(decode, old(frame), input)
    {
      var messages: seq<M> := [];
      assert input[0..] == input;
      PrependNothing(Feed(decode, frame, input));
      for i := 0 to |input|
        invariant Valid()
        invariant Prepend(messages, Feed(decode, frame, input[i..])) == Feed(decode, old(frame), input)
      {
        ghost var rest := Feed(decode, frame, input[i..]);
        assert input[i..][0] == input[i] && input[i..][1..] == input[i + 1..];
        frame := frame + [input[i]];
        if |frame| > MAX_ENCODED_FRAME_LEN {
          frame := [];
          return Err(FrameTooLarge(MAX_ENCODED_FRAME_LEN + 1, MAX_ENCODED_FRAME_LEN));
        }
        if input[i] == 0 {
          var decoded := decode(frame);
          frame := [];
          if decoded.Err? { return Err(decoded.error); }
          ghost var after := Feed(decode, [], input[i + 1..]);
          assert rest == Prepend([decoded.value], after);
          PrependTwice(messages, [decoded.value], after);
          messages := messages + [decoded.value];
        }
      }
      assert input[|input|..] == [] && messages + [] == messages;
      r := Ok(messages);
    }

    method Finish() returns (r: Result<(), ProtocolError>)
      ensures r == if frame == [] then Ok(()) else Err(TruncatedFrame)
    {
      r := if |frame| == 0 then Ok(()) else Err(TruncatedFrame);
    }
  }

  lemma PrependNothing<M>(o: Outcome<M>)
    ensures Prepend([], o) == o
  {
    if o.result.Ok? { assert [] + o.result.value == o.result.value; }
  }

  lemma PrependTwice<M>(a: seq<M>, b: seq<M>, o: Outcome<M>)
    ensures Prepend(a, Prepend(b, o)) == Prepend(a + b, o)
  {
    if o.result.Ok? { assert a + (b + o.result.value) == (a + b) + o.result.value; }
  }

  // ---- The reference: cut the whole stream after every zero ----

  /** The length of the first frame, its zero included; the whole length if there is no zero. */
  function FrameLength(s: seq<byte>): (n: nat)
    ensures n <= |s| && (s != [] ==> n > 0)
    ensures ZeroFree(s[..n]) ==> n == |s|
    ensures !ZeroFree(s[..n]) ==> s[n - 1] == 0 && ZeroFree(s[..n - 1])
  {
    if s == [] then 0
    else if s[0] == 0 then 1
    else
      var n := 1 + FrameLength(s[1..]);
      assert s[1..][..n - 1] == s[1..n];
      n
  }

  /** A stream cut into its frames, each judged whole. */
  ghost function Cut<M>(decode: Decode<M>, stream: seq<byte>): Outcome<M>
    decreases |stream|
  {
    var n := FrameLength(stream);
    if n > 65_923 then Outcome(Err(FrameTooLarge(65_924, 65_923)), [])
    else if n == 0 || stream[n - 1] != 0 then Outcome(Ok([]), stream)
    else match decode(stream[..n])
      case Err(e) => Outcome(Err(e), [])
      case Ok(m) => Prepend([m], Cut(decode, stream[n..]))
  }

  lemma {:induction false} FrameLengthAfter(frame: seq<byte>, s: seq<byte>)
    requires ZeroFree(frame)
    ensures FrameLength(frame + s) == |frame| + FrameLength(s)
    decreases |frame|
  {
    if frame == [] {
      assert frame + s == s;
    } else {
      assert (frame + s)[1..] == frame[1..] + s;
      FrameLengthAfter(frame[1..], s);
    }
  }

  /** What becomes of a frame that ends inside the stream. */
  lemma CutAfterFirst<M>(decode: Decode<M>, body: seq<byte>, rest: seq<byte>)
    requires ZeroFree(body) && |body| < MAX_ENCODED_FRAME_LEN
    ensures var decoded := decode(body + [0]);
            Cut(decode, body + [0] + rest) ==
            if decoded.Err? then Outcome(Err(decoded.error), []) else Prepend([decoded.value], Cut(decode, rest))
  {
    var stream, n := body + [0] + rest, |body| + 1;
    assert stream == body + ([0] + rest);
    FrameLengthAfter(body, [0] + rest);
    assert stream[..n] == body + [0] && stream[n..] == rest;
  }

  lemma CutOfUnfinished<M>(decode: Decode<M>, frame: seq<byte>, input: seq<byte>)
    requires Held(frame)
    ensures input == [] ==> Cut(decode, frame + input) == Outcome(Ok([]), frame)
    ensures input != [] && |frame| == MAX_ENCODED_FRAME_LEN ==> Cut(decode, frame + input) == Outcome(Err(TooLarge), [])
  {
    FrameLengthAfter(frame, input);
    if input == [] { assert frame + input == frame; }
  }

  /** Byte by byte or frame by frame: the messages, the leftover and the error are the same. */
  lemma {:induction false} FeedIsCut<M>(decode: Decode<M>, frame: seq<byte>, input: seq<byte>)
    requires Held(frame)
    ensures Feed(decode, frame, input) == Cut(decode, frame + input)
    decreases |input|
  {
    hide Cut;
    CutOfUnfinished(decode, frame, input);
    if input != [] && |frame| < MAX_ENCODED_FRAME_LEN {
      assert frame + [input[0]] + input[1..] == frame + input;
      if input[0] != 0 {
        FeedIsCut(decode, frame + [input[0]], input[1..]);
      } else {
        CutAfterFirst(decode, frame, input[1..]);
        FeedIsCut(decode, [], input[1..]);
        assert [] + input[1..] == input[1..];
      }
    }
  }

  // ---- Successive calls ----

  function Flatten<T>(parts: seq<seq<T>>): seq<T> {
    if parts == [] then [] else parts[0] + Flatten(parts[1..])
  }

  /** What successive calls have handed out, up to the first that fails: the messages of the calls that succeeded, that
      first error, and the bytes then held. */
  datatype Delivery<M> = Delivery(messages: seq<M>, error: Option<ProtocolError>, frame: seq<byte>)

  function PushAll<M>(decode: Decode<M>, frame: seq<byte>, chunks: seq<seq<byte>>): Delivery<M>
    decreases |chunks|
  {
    if chunks == [] then Delivery([], None, frame)
    else
      var o := Feed(decode, frame, chunks[0]);
      if o.result.Err? then Delivery([], Some(o.result.error), o.frame)
      else
        var rest := PushAll(decode, o.frame, chunks[1..]);
        rest.(messages := o.result.value + rest.messages)
  }

  /** Which call fails first; the number of calls if none does. */
  function FailingCall<M>(decode: Decode<M>, frame: seq<byte>, chunks: seq<seq<byte>>): (k: nat)
    ensures k <= |chunks|
    decreases |chunks|
  {
    if chunks == [] then 0
    else
      var o := Feed(decode, frame, chunks[0]);
      if o.result.Err? then 0 else 1 + FailingCall(decode, o.frame, chunks[1..])
  }

  lemma {:induction false} FeedSplits<M>(decode: Decode<M>, frame: seq<byte>, s: seq<byte>, t: seq<byte>)
    ensures var o := Feed(decode, frame, s);
            Feed(decode, frame, s + t) ==
            if o.result.Err? then o else Prepend(o.result.value, Feed(decode, o.frame, t))
    decreases |s|
  {
    if s == [] {
      assert s + t == t;
      PrependNothing(Feed(decode, frame, t));
    } else {
      assert (s + t)[0] == s[0] && (s + t)[1..] == s[1..] + t;
      var grown := frame + [s[0]];
      if |grown| <= MAX_ENCODED_FRAME_LEN {
        if s[0] != 0 {
          FeedSplits(decode, grown, s[1..], t);
        } else if decode(grown).Ok? {
          FeedSplits(decode, [], s[1..], t);
          var o := Feed(decode, [], s[1..]);
          if o.result.Ok? { PrependTwice([decode(grown).value], o.result.value, Feed(decode, o.frame, t)); }
        }
      }
    }
  }

  /** However a stream is split over calls, the first error and the leftover are those of one call on the whole; and if
      there is no error, so are the messages. */
  lemma {:induction false} SplittingKeepsTheOutcome<M>(decode: Decode<M>, frame: seq<byte>, chunks: seq<seq<byte>>)
    ensures var d, o := PushAll(decode, frame, chunks), Feed(decode, frame, Flatten(chunks));
            && d.frame == o.frame
            && d.error == (if o.result.Err? then Some(o.result.error) else None)
            && (o.result.Ok? ==> d.messages == o.result.value)
            && (o.result.Ok? <==> FailingCall(decode, frame, chunks) == |chunks|)
    decreases |chunks|
  {
    if chunks != [] {
      FeedSplits(decode, frame, chunks[0], Flatten(chunks[1..]));
      var o := Feed(decode, frame, chunks[0]);
      if o.result.Ok? { SplittingKeepsTheOutcome(decode, o.frame, chunks[1..]); }
    }
  }

  /** How many frames end in the bytes. */
  function Zeros(s: seq<byte>): nat { if s == [] then 0 else (if s[0] == 0 then 1 else 0) + Zeros(s[1..]) }

  lemma {:induction false} NoZeros(s: seq<byte>)
    ensures Zeros(s) == 0 <==> ZeroFree(s)
  {
    if s != [] {
      NoZeros(s[1..]);
      assert s == [s[0]] + s[1..];
    }
  }

  /** An accepted input yields one message for each frame that ends in it. */
  lemma {:induction false} OneMessagePerZero<M>(decode: Decode<M>, frame: seq<byte>, input: seq<byte>)
    requires Feed(decode, frame, input).result.Ok?
    ensures |Feed(decode, frame, input).result.value| == Zeros(input)
    decreases |input|
  {
    if input != [] {
      OneMessagePerZero(decode, if input[0] == 0 then [] else frame + [input[0]], input[1..]);
    }
  }

  /** What arrives of a stream that fails: exactly the messages of all frames completed in calls before the failing one,
      one for each zero in them. With no failure that is everything. */
  lemma {:induction false} ArrivesUpToFailingCall<M>(decode: Decode<M>, frame: seq<byte>, chunks: seq<seq<byte>>)
    ensures var k, d := FailingCall(decode, frame, chunks), PushAll(decode, frame, chunks);
            && Feed(decode, frame, Flatten(chunks[..k])).result == Ok(d.messages)
            && |d.messages| == Zeros(Flatten(chunks[..k]))
            && (k < |chunks| ==>
                  d.error.Some? && Feed(decode, frame, Flatten(chunks[..k + 1])).result == Err(d.error.value))
    decreases |chunks|
  {
    var k := FailingCall(decode, frame, chunks);
    if chunks == [] {
      assert chunks[..k] == [];
    } else {
      var o := Feed(decode, frame, chunks[0]);
      if o.result.Err? {
        assert chunks[..k] == [] && chunks[..k + 1] == [chunks[0]];
        FlattenOne(chunks[0]);
      } else {
        var rest := chunks[1..];
        ArrivesUpToFailingCall(decode, o.frame, rest);
        FlattenFirst(chunks, k);
        FeedSplits(decode, frame, chunks[0], Flatten(rest[..k - 1]));
        if k < |chunks| {
          FlattenFirst(chunks, k + 1);
          FeedSplits(decode, frame, chunks[0], Flatten(rest[..k]));
        }
      }
      OneMessagePerZero(decode, frame, Flatten(chunks[..k]));
    }
  }

  lemma FlattenOne(s: seq<byte>)
    ensures Flatten([s]) == s
  {
    assert [s][1..] == [] && s + [] == s;
  }

  lemma FlattenFirst(chunks: seq<seq<byte>>, k: nat)
    requires 0 < k <= |chunks|
    ensures Flatten(chunks[..k]) == chunks[0] + Flatten(chunks[1..][..k - 1])
  {
    assert chunks[..k][1..] == chunks[1..][..k - 1];
  }

  /** Many calls deliver what one call on the whole stream delivers if and only if the stream is accepted or no frame
      ends before the failing call. */
  lemma SameAsOneCallIff<M>(decode: Decode<M>, frame: seq<byte>, chunks: seq<seq<byte>>)
    ensures PushAll(decode, frame, chunks) == PushAll(decode, frame, [Flatten(chunks)]) <==>
              || Feed(decode, frame, Flatten(chunks)).result.Ok?
              || ZeroFree(Flatten(chunks[..FailingCall(decode, frame, chunks)]))
  {
    var stream, k := Flatten(chunks), FailingCall(decode, frame, chunks);
    var o, d := Feed(decode, frame, stream), PushAll(decode, frame, chunks);
    SplittingKeepsTheOutcome(decode, frame, chunks);
    ArrivesUpToFailingCall(decode, frame, chunks);
    NoZeros(Flatten(chunks[..k]));
    OneCall(decode, frame, stream);
    hide PushAll, Feed, Flatten, FailingCall, Zeros, ZeroFree;
    if o.result.Err? { assert d.messages == [] <==> |d.messages| == 0; }
  }

  lemma OneCall<M>(decode: Decode<M>, frame: seq<byte>, stream: seq<byte>)
    ensures var o := Feed(decode, frame, stream);
            PushAll(decode, frame, [stream]) ==
            if o.result.Ok? then Delivery(o.result.value, None, o.frame)
            else Delivery([], Some(o.result.error), o.frame)
  {
    var o := Feed(decode, frame, stream);
    assert [stream][1..] == [];
    assert PushAll(decode, o.frame, []) == Delivery([], None, o.frame);
    if o.result.Ok? { assert o.result.value + [] == o.result.value; }
  }

  /** One encoded message: zero only at its end, within the limit, and read back as the message. */
  ghost predicate Codec<M>(decode: Decode<M>, m: M, bytes: seq<byte>) {
    && 0 < |bytes| <= MAX_ENCODED_FRAME_LEN && bytes[|bytes| - 1] == 0 && ZeroFree(bytes[..|bytes| - 1])
    && decode(bytes) == Ok(m)
  }

  /** A frame cut off at its own zero that `decode` refuses. */
  ghost predicate Refused<M>(decode: Decode<M>, bytes: seq<byte>) {
    && 0 < |bytes| <= MAX_ENCODED_FRAME_LEN && bytes[|bytes| - 1] == 0 && ZeroFree(bytes[..|bytes| - 1])
    && decode(bytes).Err?
  }

  /** So on a failing stream the split shows: any encoded message and then any refused frame arrive as that message in
      two calls, and as nothing in one call. */
  lemma SplitShowsOnFailure<M>(decode: Decode<M>, m: M, good: seq<byte>, bad: seq<byte>)
    requires Codec(decode, m, good) && Refused(decode, bad)
    ensures PushAll(decode, [], [good, bad]) == Delivery([m], Some(decode(bad).error), [])
    ensures PushAll(decode, [], [good + bad]) == Delivery([], Some(decode(bad).error), [])
  {
    FrameAlone(decode, good);
    FrameAlone(decode, bad);
    OneCall(decode, [], bad);
    OneCall(decode, [], good + bad);
    FeedSplits(decode, [], good, bad);
    assert [good, bad][1..] == [bad];
    hide Feed;
  }

  lemma FrameAlone<M>(decode: Decode<M>, bytes: seq<byte>)
    requires 0 < |bytes| <= MAX_ENCODED_FRAME_LEN && bytes[|bytes| - 1] == 0 && ZeroFree(bytes[..|bytes| - 1])
    ensures Feed(decode, [], bytes) ==
              match decode(bytes)
              case Ok(m) => Outcome(Ok([m]), [])
              case Err(e) => Outcome(Err(e), [])
  {
    hide Cut, Feed;
    NothingIsCut(decode);
    var body := bytes[..|bytes| - 1];
    CutAfterFirst(decode, body, []);
    assert body + [0] == bytes && body + [0] + [] == bytes && [] + bytes == bytes;
    hide ZeroFree, Held;
    NothingIsHeld();
    FeedIsCut(decode, [], bytes);
    if decode(bytes).Ok? { assert [decode(bytes).value] + [] == [decode(bytes).value]; }
  }

  lemma NothingIsHeld()
    ensures Held([])
  {
  }

  lemma NothingIsCut<M>(decode: Decode<M>)
    ensures Cut(decode, []) == Outcome(Ok([]), [])
  {
  }

  ghost predicate Encodes<M>(decode: Decode<M>, messages: seq<M>, encoded: seq<seq<byte>>) {
    && |messages| == |encoded|
    && forall i :: 0 <= i < |messages| ==> Codec(decode, messages[i], encoded[i])
  }

  lemma {:induction false} CutOfEncoded<M>(decode: Decode<M>, messages: seq<M>, encoded: seq<seq<byte>>)
    requires Encodes(decode, messages, encoded)
    ensures Cut(decode, Flatten(encoded)) == Outcome(Ok(messages), [])
    decreases |messages|
  {
    if messages != [] {
      var body := encoded[0][..|encoded[0]| - 1];
      assert Codec(decode, messages[0], encoded[0]) && encoded[0] == body + [0];
      hide Cut;
      CutAfterFirst(decode, body, Flatten(encoded[1..]));
      CutOfEncoded(decode, messages[1..], encoded[1..]);
      assert [messages[0]] + messages[1..] == messages;
    }
  }

  /** Encoded messages cut into chunks at any points arrive exactly, in order, with nothing left over. */
  lemma EncodedMessagesArrive<M>(decode: Decode<M>, messages: seq<M>, encoded: seq<seq<byte>>, chunks: seq<seq<byte>>)
    requires Encodes(decode, messages, encoded) && Flatten(chunks) == Flatten(encoded)
    ensures PushAll(decode, [], chunks) == Delivery(messages, None, [])
  {
    SplittingKeepsTheOutcome(decode, [], chunks);
    FeedIsCut(decode, [], Flatten(chunks));
    assert [] + Flatten(chunks) == Flatten(chunks);
    CutOfEncoded(decode, messages, encoded);
  }

  /** `held` is what follows the last zero of the stream. */
  ghost predicate IsTail(stream: seq<byte>, held: seq<byte>) {
    && Held(held) && |held| <= |stream| && held == stream[|stream| - |held|..]
    && (|held| < |stream| ==> stream[|stream| - |held| - 1] == 0)
  }

  lemma TailOfRest(stream: seq<byte>, n: nat, held: seq<byte>)
    requires 0 < n <= |stream| && stream[n - 1] == 0 && |held| <= |stream| - n && IsTail(stream[n..], held)
    ensures IsTail(stream, held)
  {
    var rest := stream[n..];
    assert stream[|stream| - |held|..] == rest[|rest| - |held|..];
  }

  lemma {:induction false} LeftoverIsTheTail<M>(decode: Decode<M>, stream: seq<byte>)
    requires Cut(decode, stream).result.Ok?
    ensures |Cut(decode, stream).frame| <= |stream| && IsTail(stream, Cut(decode, stream).frame)
    decreases |stream|
  {
    var n := FrameLength(stream);
    if n > 0 && stream[n - 1] == 0 {
      LeftoverIsTheTail(decode, stream[n..]);
      TailOfRest(stream, n, Cut(decode, stream[n..]).frame);
    } else {
      assert stream[..n] == stream;
    }
  }

  /** `Finish` succeeds exactly when the accepted stream is empty or ends in a zero. */
  lemma FinishSucceedsIff<M>(decode: Decode<M>, chunks: seq<seq<byte>>)
    requires PushAll(decode, [], chunks).error.None?
    ensures var stream := Flatten(chunks);
            PushAll(decode, [], chunks).frame == [] <==> stream == [] || stream[|stream| - 1] == 0
  {
    var stream := Flatten(chunks);
    SplittingKeepsTheOutcome(decode, [], chunks);
    FeedIsCut(decode, [], stream);
    assert [] + stream == stream;
    LeftoverIsTheTail(decode, stream);
    var held := Cut(decode, stream).frame;
    hide Cut, PushAll, Flatten, Feed;
    if held != [] { assert stream[|stream| - |held|..][|held| - 1] == stream[|stream| - 1]; }
  }
}
