/**
 * Chrome native messaging as the backend speaks it: every message is a
 * 4-byte length (`struct.pack('I', …)`, little-endian on the machines the
 * backend runs on) followed by that many bytes of UTF-8 JSON. `read_message`
 * undoes this, and `message_handler` reads message after message until the
 * input ends.
 */
module NativeMessaging {
  import opened Text
  import opened MessageProcessor

  newtype byte = x: int | 0 <= x < 256

  /** `struct.pack('I', n)` accepts `0 <= n < 2^32`. */
  const Uint32Limit: nat := 0x1_0000_0000

  /** `struct.pack('I', n)`: the four bytes of `n`, least significant first. */
  function EncodeLength(n: nat): (b: seq<byte>)
    requires n < Uint32Limit
    ensures |b| == 4
  {
    var q1 := n / 256;
    var q2 := q1 / 256;
    [(n % 256) as byte, (q1 % 256) as byte, (q2 % 256) as byte, (q2 / 256) as byte]
  }

  /** `struct.unpack('I', b)[0]`. */
  function DecodeLength(b: seq<byte>): (n: nat)
    requires |b| == 4
    ensures n < Uint32Limit
  {
    b[0] as nat + 256 * (b[1] as nat + 256 * (b[2] as nat + 256 * b[3] as nat))
  }

  lemma {:induction false} DivMod256(x: nat, lo: nat, hi: nat)
    requires lo < 256 && x == lo + 256 * hi
    ensures x % 256 == lo && x / 256 == hi
  {
  }

  /** Decoding the length prefix gives back the length. */
  lemma {:induction false} LengthRoundTrip(n: nat)
    requires n < Uint32Limit
    ensures DecodeLength(EncodeLength(n)) == n
  {
    var q1 := n / 256;
    var q2 := q1 / 256;
    assert n == n % 256 + 256 * q1;
    assert q1 == q1 % 256 + 256 * q2;
    assert q2 == q2 % 256 + 256 * (q2 / 256);
  }

  /** Every four bytes are the prefix of exactly the length they decode to. */
  lemma {:induction false} PrefixRoundTrip(b: seq<byte>)
    requires |b| == 4
    ensures EncodeLength(DecodeLength(b)) == b
  {
    var n := DecodeLength(b);
    var q2 := b[2] as nat + 256 * b[3] as nat;
    var q1 := b[1] as nat + 256 * q2;
    DivMod256(n, b[0] as nat, q1);
    DivMod256(q1, b[1] as nat, q2);
    DivMod256(q2, b[2] as nat, b[3] as nat);
  }

  /** The length prefix followed by the payload. */
  function Frame(payload: seq<byte>): (f: seq<byte>)
    requires |payload| < Uint32Limit
    ensures |f| == 4 + |payload| && f[4..] == payload
  {
    EncodeLength(|payload|) + payload
  }

  datatype SendResult = Sent(frame: seq<byte>) | TooLong

  /**
   * `send_message`: `serialize` stands for `json.dumps(message).encode('utf-8')`;
   * a payload of `2^32` bytes or more makes `struct.pack` raise.
   */
  function SendMessage(message: Json, serialize: Json -> seq<byte>): (r: SendResult)
    ensures r.Sent? <==> |serialize(message)| < Uint32Limit
    ensures r.Sent? ==> |r.frame| == 4 + |serialize(message)| && r.frame[4..] == serialize(message)
  {
    var payload := serialize(message);
    if |payload| < Uint32Limit then Sent(Frame(payload)) else TooLong
  }

  /** What the payload decodes to: `json.loads` of its UTF-8 text. */
  datatype Decoded = Parsed(value: Json) | NotJson | NotUtf8

  /**
   * The outcome of `read_message`: `None` (the input has ended, or the
   * payload is the JSON value `null`, which `json.loads` also turns into
   * `None`), a message (possibly the error object for an unparsable payload),
   * or an exception (a length prefix cut short, a payload that is not UTF-8)
   * that `message_handler` reports; `rest` is the input not yet read.
   */
  datatype ReadResult = NoMessage | Message(value: Json, rest: seq<byte>) | ReadFailed(rest: seq<byte>)

  /** Where the payload of the frame at the head of `input` ends: `read(length)` stops early when the input does. */
  function FrameEnd(input: seq<byte>): (e: nat)
    requires |input| >= 4
    ensures 4 <= e <= |input|
  {
    Min(4 + DecodeLength(input[..4]), |input|)
  }

  /**
   * `read_message` on the remaining input: `read(4)`, then `read(length)`,
   * which both return fewer bytes when the input ends first.
   */
  function ReadMessage(input: seq<byte>, decode: seq<byte> -> Decoded): (r: ReadResult)
    ensures r.Message? ==> r.value != Null
    ensures !r.NoMessage? ==> |r.rest| < |input|
  {
    if |input| == 0 then NoMessage
    else if |input| < 4 then ReadFailed([])
    else
      match decode(input[4..FrameEnd(input)])
      case Parsed(value) => if value == Null then NoMessage else Message(value, input[FrameEnd(input)..])
      case NotJson => Message(ErrorMessage(ParseInputError), input[FrameEnd(input)..])
      case NotUtf8 => ReadFailed(input[FrameEnd(input)..])
  }

  /** `read_message` returns `None` exactly at the end of the input and for a payload that is `null`. */
  lemma {:induction false} ReadMessageNone(input: seq<byte>, decode: seq<byte> -> Decoded)
    ensures ReadMessage(input, decode).NoMessage? <==>
      input == [] || (4 <= |input| && decode(input[4..FrameEnd(input)]) == Parsed(Null))
  {
  }

  /** A frame reads back as the message its payload decodes to, and the input after it is left unread. */
  lemma {:induction false} FrameRoundTrip(payload: seq<byte>, more: seq<byte>, decode: seq<byte> -> Decoded)
    requires |payload| < Uint32Limit
    ensures decode(payload).Parsed? && decode(payload).value != Null ==>
      ReadMessage(Frame(payload) + more, decode) == Message(decode(payload).value, more)
    ensures decode(payload) == Parsed(Null) ==> ReadMessage(Frame(payload) + more, decode) == NoMessage
    ensures decode(payload).NotJson? ==>
      ReadMessage(Frame(payload) + more, decode) == Message(ErrorMessage(ParseInputError), more)
    ensures decode(payload).NotUtf8? ==> ReadMessage(Frame(payload) + more, decode) == ReadFailed(more)
  {
    var input := Frame(payload) + more;
    LengthRoundTrip(|payload|);
    assert input[..4] == EncodeLength(|payload|);
    assert FrameEnd(input) == 4 + |payload|;
    assert input[4..4 + |payload|] == payload;
    assert input[4 + |payload|..] == more;
  }

  /** An unparsable payload comes back to the sender as the input parsing error. */
  lemma {:induction false} UnparsableEchoed(payload: seq<byte>, more: seq<byte>, decode: seq<byte> -> Decoded)
    requires |payload| < Uint32Limit && decode(payload) == NotJson
    ensures ReadMessage(Frame(payload) + more, decode).Message?
    ensures Handle(ReadMessage(Frame(payload) + more, decode).value) == Echo(ErrorMessage(ParseInputError))
  {
    FrameRoundTrip(payload, more, decode);
    ErrorMessageEchoed(ParseInputError);
  }

  /** What `message_handler` does with the whole input, message by message, until `read_message` returns `None`. */
  function Transcript(input: seq<byte>, decode: seq<byte> -> Decoded): (r: seq<Action>)
    ensures |r| <= |input|
    decreases |input|
  {
    match ReadMessage(input, decode)
    case NoMessage => []
    case ReadFailed(rest) => [ReportException] + Transcript(rest, decode)
    case Message(value, rest) => [Handle(value)] + Transcript(rest, decode)
  }

  /**
   * `message_handler`'s loop: read until `read_message` returns `None`, at the
   * end of the input or at a `null` message, acting on each message in turn.
   */
  method MessageHandler(input: seq<byte>, decode: seq<byte> -> Decoded) returns (actions: seq<Action>)
    ensures actions == Transcript(input, decode)
  {
    var stream := input;
    actions := [];
    while true
      invariant actions + Transcript(stream, decode) == Transcript(input, decode)
      decreases |stream|
    {
      var r := ReadMessage(stream, decode);
      if r.NoMessage? {
        TranscriptEnds(stream, decode);
        break;
      }
      var action := if r.ReadFailed? then ReportException else Handle(r.value);
      TranscriptStep(stream, decode);
      ActionsAssociate(actions, [action], Transcript(r.rest, decode));
      actions := actions + [action];
      stream := r.rest;
    }
  }

  /** Once `read_message` returns `None` nothing more is done. */
  lemma {:induction false} TranscriptEnds(input: seq<byte>, decode: seq<byte> -> Decoded)
    requires ReadMessage(input, decode).NoMessage?
    ensures Transcript(input, decode) == []
  {
  }

  /** Any other outcome of `read_message` is acted on, and the loop goes on with the input left unread. */
  lemma {:induction false} TranscriptStep(input: seq<byte>, decode: seq<byte> -> Decoded)
    requires !ReadMessage(input, decode).NoMessage?
    ensures var r := ReadMessage(input, decode);
      Transcript(input, decode) ==
        [if r.ReadFailed? then ReportException else Handle(r.value)] + Transcript(r.rest, decode)
  {
  }

  /** A frame whose payload is `null` ends the loop: nothing is done for it, and nothing after it is read. */
  lemma {:induction false} NullFrameEndsLoop(payload: seq<byte>, more: seq<byte>, decode: seq<byte> -> Decoded)
    requires |payload| < Uint32Limit && decode(payload) == Parsed(Null)
    ensures Transcript(Frame(payload) + more, decode) == []
  {
    FrameRoundTrip(payload, more, decode);
  }

  /** The frames of the payloads, one after another. */
  function Frames(payloads: seq<seq<byte>>): seq<byte>
    requires forall i :: 0 <= i < |payloads| ==> |payloads[i]| < Uint32Limit
  {
    if payloads == [] then [] else Frame(payloads[0]) + Frames(payloads[1..])
  }

  /** Every payload fits a frame and decodes to a value other than `null`. */
  predicate ParsedPayloads(payloads: seq<seq<byte>>, decode: seq<byte> -> Decoded)
  {
    forall i :: 0 <= i < |payloads| ==>
      |payloads[i]| < Uint32Limit && decode(payloads[i]).Parsed? && decode(payloads[i]).value != Null
  }

  /** The action `Handle` takes for each payload, in order. */
  function Handled(payloads: seq<seq<byte>>, decode: seq<byte> -> Decoded): (r: seq<Action>)
    requires ParsedPayloads(payloads, decode)
    ensures |r| == |payloads|
  {
    if payloads == [] then [] else [Handle(decode(payloads[0]).value)] + Handled(payloads[1..], decode)
  }

  lemma {:induction false} HandledEach(payloads: seq<seq<byte>>, decode: seq<byte> -> Decoded)
    requires ParsedPayloads(payloads, decode)
    ensures forall i :: 0 <= i < |payloads| ==> Handled(payloads, decode)[i] == Handle(decode(payloads[i]).value)
  {
    if payloads != [] {
      HandledEach(payloads[1..], decode);
    }
  }

  /** One frame whose payload parses to a value other than `null` is handled, and the loop reads on after it. */
  lemma {:induction false} HandledStep(payload: seq<byte>, more: seq<byte>, decode: seq<byte> -> Decoded)
    requires |payload| < Uint32Limit && decode(payload).Parsed? && decode(payload).value != Null
    ensures Transcript(Frame(payload) + more, decode) == [Handle(decode(payload).value)] + Transcript(more, decode)
  {
    FrameRoundTrip(payload, more, decode);
  }

  /**
   * Frames whose payloads parse to values other than `null` are handled one
   * message per frame, in order, and the loop then goes on with what follows.
   */
  lemma {:induction false} FramesThenRest(payloads: seq<seq<byte>>, more: seq<byte>, decode: seq<byte> -> Decoded)
    requires ParsedPayloads(payloads, decode)
    ensures Transcript(Frames(payloads) + more, decode) == Handled(payloads, decode) + Transcript(more, decode)
  {
    if payloads == [] {
      assert Frames(payloads) + more == more;
    } else {
      var rest := payloads[1..];
      var first := Handle(decode(payloads[0]).value);
      HandledCons(payloads, decode);
      FramesThenRest(rest, more, decode);
      FramesStep(payloads, more, decode);
      ActionsAssociate([first], Handled(rest, decode), Transcript(more, decode));
    }
  }

  /** The first of the frames is handled, and the loop reads on from the next frame. */
  lemma {:induction false} FramesStep(payloads: seq<seq<byte>>, more: seq<byte>, decode: seq<byte> -> Decoded)
    requires payloads != [] && ParsedPayloads(payloads, decode)
    ensures ParsedPayloads(payloads[1..], decode)
    ensures Transcript(Frames(payloads) + more, decode) ==
      [Handle(decode(payloads[0]).value)] + Transcript(Frames(payloads[1..]) + more, decode)
  {
    ParsedPayloadsTail(payloads, decode);
    var tail := Frames(payloads[1..]) + more;
    assert Frames(payloads) + more == Frame(payloads[0]) + tail;
    HandledStep(payloads[0], tail, decode);
  }

  lemma {:induction false} ActionsAssociate(a: seq<Action>, b: seq<Action>, c: seq<Action>)
    ensures a + (b + c) == a + b + c
  {
  }

  lemma {:induction false} HandledCons(payloads: seq<seq<byte>>, decode: seq<byte> -> Decoded)
    requires payloads != [] && ParsedPayloads(payloads, decode)
    ensures ParsedPayloads(payloads[1..], decode)
    ensures Handled(payloads, decode) == [Handle(decode(payloads[0]).value)] + Handled(payloads[1..], decode)
  {
    ParsedPayloadsTail(payloads, decode);
  }

  lemma {:induction false} ParsedPayloadsTail(payloads: seq<seq<byte>>, decode: seq<byte> -> Decoded)
    requires payloads != [] && ParsedPayloads(payloads, decode)
    ensures ParsedPayloads(payloads[1..], decode)
  {
    var rest := payloads[1..];
    assert forall i :: 0 <= i < |rest| ==> rest[i] == payloads[i + 1];
  }

  /** A stream of such frames is handled message by message, as `Handle` says, and nothing else happens. */
  lemma {:induction false} TranscriptOfFrames(payloads: seq<seq<byte>>, decode: seq<byte> -> Decoded)
    requires ParsedPayloads(payloads, decode)
    ensures |Transcript(Frames(payloads), decode)| == |payloads|
    ensures forall i :: 0 <= i < |payloads| ==>
      Transcript(Frames(payloads), decode)[i] == Handle(decode(payloads[i]).value)
  {
    FramesThenRest(payloads, [], decode);
    assert Frames(payloads) + [] == Frames(payloads);
    assert ReadMessage([], decode) == NoMessage;
    HandledEach(payloads, decode);
  }

  /**
   * After such frames, a frame whose payload is `null` stops the loop: the
   * messages before it are handled and whatever follows it is never read.
   */
  lemma {:induction false} NullFrameStopsLoop(payloads: seq<seq<byte>>, payload: seq<byte>, more: seq<byte>,
                                              decode: seq<byte> -> Decoded)
    requires ParsedPayloads(payloads, decode)
    requires |payload| < Uint32Limit && decode(payload) == Parsed(Null)
    ensures Transcript(Frames(payloads) + (Frame(payload) + more), decode) == Handled(payloads, decode)
  {
    FramesThenRest(payloads, Frame(payload) + more, decode);
    NullFrameEndsLoop(payload, more, decode);
  }
}
