/**
  The two message framings: newline-delimited requests inside the pinned TLS session
  (server/eidolon_admin_server/bootstrap/tls_session.py) and length-prefixed frames
  between the Local API and the lifecycle workflow
  (lifecycle_workflow/protocol.py).
 */
module NewlineFraming {
  import opened Outcomes
  import opened Bytes

  const MAX_APPLICATION_MESSAGE := 65536

  const NEWLINE: byte := 10

  function FindNewline(s: seq<byte>): (k: Option<nat>)
    ensures k.Some? ==> k.value < |s| && s[k.value] == NEWLINE && forall j :: 0 <= j < k.value ==> s[j] != NEWLINE
    ensures k.None? ==> forall j :: 0 <= j < |s| ==> s[j] != NEWLINE
  {
    if s == [] then None
    else if s[0] == NEWLINE then Some(0)
    else
      var k := FindNewline(s[1..]);
      if k.Some? then Some(k.value + 1) else None
  }

  /** What the next receive on a stream must yield: the bytes before the first newline
      if there are between 1 and 64 KiB of them, otherwise the link closes.  `rest` is
      what is left to read. */
  datatype Received = Message(raw: seq<byte>, rest: seq<byte>) | LinkClosed

  function NextMessage(stream: seq<byte>): Received {
    match FindNewline(stream)
    case None => LinkClosed
    case Some(k) =>
      if k == 0 || k > MAX_APPLICATION_MESSAGE then LinkClosed else Message(stream[..k], stream[k + 1..])
  }

  /** Every message of a session: until one is empty, too large or not a JSON object
      (`wellFormed` stands for the JSON parser), or the stream ends. */
  function Messages(stream: seq<byte>, wellFormed: seq<byte> -> bool): seq<seq<byte>>
    decreases |stream|
  {
    match NextMessage(stream)
    case LinkClosed => []
    case Message(raw, rest) => if wellFormed(raw) then [raw] + Messages(rest, wellFormed) else []
  }

  lemma NewlineAt(s: seq<byte>, k: nat)
    requires k < |s| && s[k] == NEWLINE && forall j :: 0 <= j < k ==> s[j] != NEWLINE
    ensures FindNewline(s) == Some(k)
  {
  }

  /** A prefix with no newline that is already too long can only lead to the link closing. */
  lemma TooLongAlready(seen: seq<byte>, more: seq<byte>)
    requires FindNewline(seen).None? && |seen| > MAX_APPLICATION_MESSAGE
    ensures NextMessage(seen + more) == LinkClosed
  {
  }

  lemma FoundStays(seen: seq<byte>, more: seq<byte>)
    requires FindNewline(seen).Some?
    ensures FindNewline(seen + more) == FindNewline(seen)
  {
    var k := FindNewline(seen).value;
    assert (seen + more)[k] == NEWLINE;
    NewlineAt(seen + more, k);
  }

  /** A message is received exactly when the stream begins with it and a newline, and it
      holds none itself and between 1 and 65536 bytes. */
  lemma ReceivesExactly(stream: seq<byte>, raw: seq<byte>, rest: seq<byte>)
    ensures NextMessage(stream) == Message(raw, rest) <==>
              && stream == raw + [10] + rest
              && (forall k :: 0 <= k < |raw| ==> raw[k] != 10)
              && 1 <= |raw| <= 65536
  {
    if NextMessage(stream) == Message(raw, rest) {
      var k := FindNewline(stream).value;
      assert stream == stream[..k] + [stream[k]] + stream[k + 1..];
    }
    if stream == raw + [10] + rest && (forall k :: 0 <= k < |raw| ==> raw[k] != 10) {
      assert stream[|raw|] == 10;
      assert forall k :: 0 <= k < |raw| ==> stream[k] == raw[k];
      NewlineAt(stream, |raw|);
      assert stream[..|raw|] == raw && stream[|raw| + 1..] == rest;
    }
  }

  class CommissioningTlsSession {
    var plaintext: seq<byte>
    var written: seq<byte>

    constructor ()
      ensures plaintext == [] && written == []
    {
      plaintext, written := [], [];
    }

    /** `chunks` are the pieces the TLS layer will hand over, in whatever sizes; the
        session ends after the last one. */
    method ReceiveRaw(chunks: seq<seq<byte>>) returns (raw: Option<seq<byte>>, rest: seq<seq<byte>>)
      modifies this`plaintext
      ensures
        match NextMessage(old(plaintext) + Flatten(chunks))
        case LinkClosed => raw == None
        case Message(m, left) => raw == Some(m) && plaintext + Flatten(rest) == left
    {
      rest := chunks;
      while true
        invariant plaintext + Flatten(rest) == old(plaintext) + Flatten(chunks)
        decreases |rest|
      {
        var newline := FindNewline(plaintext);
        if newline.Some? {
          FoundStays(plaintext, Flatten(rest));
          var k := newline.value;
          raw := Some(plaintext[..k]);
          ghost var before := plaintext;
          plaintext := plaintext[k + 1..];
          assert (before + Flatten(rest))[..k] == before[..k];
          assert (before + Flatten(rest))[k + 1..] == plaintext + Flatten(rest);
          if k == 0 || k > MAX_APPLICATION_MESSAGE {
            raw := None;
          }
          return;
        }
        if |plaintext| > MAX_APPLICATION_MESSAGE {
          TooLongAlready(plaintext, Flatten(rest));
          return None, rest;
        }
        if rest == [] {
          assert plaintext + Flatten(rest) == plaintext;
          return None, rest;
        }
        assert plaintext + Flatten(rest) == plaintext + rest[0] + Flatten(rest[1..]);
        plaintext := plaintext + rest[0];
        rest := rest[1..];
      }
    }

    /** The session loop: everything it hands to the protocol.  The result is a function
        of the bytes alone, so no split of them into chunks changes it. */
    method ServeAll(chunks: seq<seq<byte>>, wellFormed: seq<byte> -> bool) returns (requests: seq<seq<byte>>)
      requires plaintext == []
      modifies this`plaintext
      ensures requests == Messages(Flatten(chunks), wellFormed)
    {
      requests := [];
      var rest := chunks;
      assert plaintext + Flatten(rest) == Flatten(chunks);
      while true
        invariant requests + Messages(plaintext + Flatten(rest), wellFormed) == Messages(Flatten(chunks), wellFormed)
        decreases |plaintext + Flatten(rest)|
      {
        ghost var stream := plaintext + Flatten(rest);
        var raw, left := ReceiveRaw(rest);
        if raw.None? || !wellFormed(raw.value) {
          assert Messages(stream, wellFormed) == [];
          return;
        }
        ghost var remaining := Messages(plaintext + Flatten(left), wellFormed);
        assert NextMessage(stream) == Message(raw.value, plaintext + Flatten(left));
        assert Messages(stream, wellFormed) == [raw.value] + remaining;
        assert requests + ([raw.value] + remaining) == requests + [raw.value] + remaining;
        requests := requests + [raw.value];
        rest := left;
      }
    }

    /** The write loop: `takes` says how much the TLS layer takes at each offset, at least
        one byte and at most what is left; all of the payload goes out, once and in order. */
    method Send(body: seq<byte>, takes: nat -> nat) returns (ok: bool)
      modifies this`written
      ensures ok <==> |body| + 1 <= 65536
      ensures written == if ok then old(written) + body + [NEWLINE] else old(written)
    {
      var payload := body + [NEWLINE];
      if |payload| > MAX_APPLICATION_MESSAGE {
        return false;
      }
      var offset := 0;
      while offset < |payload|
        invariant offset <= |payload|
        invariant written == old(written) + payload[..offset]
      {
        var left, taken := |payload| - offset, takes(offset);
        var n := if taken < 1 then 1 else if taken > left then left else taken;
        assert payload[..offset] + payload[offset..offset + n] == payload[..offset + n];
        written := written + payload[offset..offset + n];
        offset := offset + n;
      }
      assert payload[..|payload|] == payload;
      ok := true;
    }
  }

  function Sent(bodies: seq<seq<byte>>): seq<byte> {
    if bodies == [] then [] else bodies[0] + [NEWLINE] + Sent(bodies[1..])
  }

  ghost predicate Sendable(body: seq<byte>) {
    && 0 < |body| && |body| + 1 <= MAX_APPLICATION_MESSAGE
    && forall k :: 0 <= k < |body| ==> body[k] != NEWLINE
  }

  lemma FirstMessage(body: seq<byte>, rest: seq<byte>)
    requires Sendable(body)
    ensures NextMessage(body + [NEWLINE] + rest) == Message(body, rest)
  {
    var stream := body + [NEWLINE] + rest;
    assert stream[|body|] == NEWLINE;
    assert forall j :: 0 <= j < |body| ==> stream[j] == body[j];
    NewlineAt(stream, |body|);
    assert stream[..|body|] == body && stream[|body| + 1..] == rest;
  }

  /** What one side sends, the other side reads back, message for message. */
  lemma {:induction false} SentIsReceived(bodies: seq<seq<byte>>, wellFormed: seq<byte> -> bool)
    requires forall k :: 0 <= k < |bodies| ==> Sendable(bodies[k]) && wellFormed(bodies[k])
    ensures Messages(Sent(bodies), wellFormed) == bodies
    decreases |bodies|
  {
    if bodies == [] {
      assert FindNewline([]).None?;
    } else {
      var body, rest := bodies[0], Sent(bodies[1..]);
      FirstMessage(body, rest);
      SentIsReceived(bodies[1..], wellFormed);
      assert Sent(bodies) == body + [NEWLINE] + rest;
      assert Messages(Sent(bodies), wellFormed) == [body] + Messages(rest, wellFormed);
      assert bodies == [body] + bodies[1..];
    }
  }
}

module LengthFraming {
  import opened Outcomes
  import opened Bytes

  const MAX_FRAME_BYTES := 262144

  datatype FrameError = InvalidSize | IncompleteRead

  /** `struct.pack("!I", n)`. */
  function Pack(n: nat): (h: seq<byte>)
    requires n < 0x1_0000_0000
    ensures |h| == 4
  {
    [n / 0x100_0000, n / 0x1_0000 % 256, n / 256 % 256, n % 256]
  }

  function Unpack(h: seq<byte>): nat
    requires |h| == 4
  {
    h[0] as int * 0x100_0000 + h[1] as int * 0x1_0000 + h[2] as int * 256 + h[3] as int
  }

  lemma UnpackPack(n: nat)
    requires n < 0x1_0000_0000
    ensures Unpack(Pack(n)) == n
  {
    assert n == n / 256 * 256 + n % 256;
    assert n / 256 == n / 256 / 256 * 256 + n / 256 % 256;
    assert n / 256 / 256 == n / 0x1_0000;
    assert n / 0x1_0000 == n / 0x1_0000 / 256 * 256 + n / 0x1_0000 % 256;
    assert n / 0x1_0000 / 256 == n / 0x100_0000;
  }

  lemma PackUnpack(h: seq<byte>)
    requires |h| == 4
    ensures Unpack(h) < 0x1_0000_0000 && Pack(Unpack(h)) == h
  {
    var n := Unpack(h);
    assert n / 256 == h[0] as int * 0x1_0000 + h[1] as int * 256 + h[2] as int;
    assert n / 0x1_0000 == h[0] as int * 256 + h[1] as int;
    assert n / 0x100_0000 == h[0];
  }

  function EncodeFrame(body: seq<byte>): Result<seq<byte>, FrameError> {
    if body == [] || |body| > MAX_FRAME_BYTES then Err(InvalidSize) else Ok(Pack(|body|) + body)
  }

  /** `readexactly` of the header, the size check, `readexactly` of the body; the second
      component is what stays in the stream. */
  function ReadFrame(stream: seq<byte>): Result<(seq<byte>, seq<byte>), FrameError> {
    if |stream| < 4 then Err(IncompleteRead)
    else
      var length := Unpack(stream[..4]);
      if !(0 < length <= MAX_FRAME_BYTES) then Err(InvalidSize)
      else if |stream| - 4 < length then Err(IncompleteRead)
      else Ok((stream[4..4 + length], stream[4 + length..]))
  }

  /** The header is the length in network byte order, and a body of 1 to 262144 bytes is
      what has a frame. */
  lemma FrameExactly(body: seq<byte>, frame: seq<byte>)
    ensures EncodeFrame(body) == Ok(frame) <==>
              && 1 <= |body| <= 262144 && |frame| == 4 + |body| && frame[4..] == body
              && |body| ==
                   frame[0] as int * 16777216 + frame[1] as int * 65536 + frame[2] as int * 256 + frame[3] as int
    ensures EncodeFrame(body).Ok? <==> 1 <= |body| <= 262144
  {
    if 1 <= |body| <= 262144 {
      UnpackPack(|body|);
      assert (Pack(|body|) + body)[4..] == body;
      if |frame| == 4 + |body| && frame[4..] == body && Unpack(frame[..4]) == |body| {
        PackUnpack(frame[..4]);
        assert frame == frame[..4] + frame[4..];
      }
    }
  }

  /** A frame cut short anywhere is incomplete, never misread. */
  lemma TruncatedFrameIsIncomplete(body: seq<byte>, n: nat)
    requires EncodeFrame(body).Ok? && n < |EncodeFrame(body).value|
    ensures ReadFrame(EncodeFrame(body).value[..n]) == Err(IncompleteRead)
  {
    var frame := EncodeFrame(body).value;
    if n >= 4 {
      UnpackPack(|body|);
      assert frame[..n][..4] == Pack(|body|);
    }
  }

  /** A frame is read exactly when the stream begins with that body's encoding. */
  lemma ReadsExactlyTheEncoding(stream: seq<byte>, body: seq<byte>, rest: seq<byte>)
    ensures ReadFrame(stream) == Ok((body, rest)) <==>
              EncodeFrame(body).Ok? && stream == EncodeFrame(body).value + rest
  {
    if ReadFrame(stream) == Ok((body, rest)) {
      PackUnpack(stream[..4]);
      assert stream == stream[..4] + stream[4..];
      assert stream[4..] == body + rest;
      assert EncodeFrame(body).value + rest == Pack(|body|) + (body + rest);
    }
    if EncodeFrame(body).Ok? && stream == EncodeFrame(body).value + rest {
      UnpackPack(|body|);
      assert stream[..4] == Pack(|body|);
      assert stream[4..4 + |body|] == body && stream[4 + |body|..] == rest;
    }
  }

  function ReadFrames(stream: seq<byte>): seq<seq<byte>>
    decreases |stream|
  {
    match ReadFrame(stream)
    case Err(_) => []
    case Ok((body, rest)) => [body] + ReadFrames(rest)
  }

  function EncodeFrames(bodies: seq<seq<byte>>): Result<seq<byte>, FrameError> {
    if bodies == [] then Ok([])
    else
      match EncodeFrame(bodies[0])
      case Err(e) => Err(e)
      case Ok(frame) =>
        match EncodeFrames(bodies[1..])
        case Err(e) => Err(e)
        case Ok(rest) => Ok(frame + rest)
  }

  lemma FirstFrame(body: seq<byte>, rest: seq<byte>)
    requires EncodeFrame(body).Ok?
    ensures ReadFrames(EncodeFrame(body).value + rest) == [body] + ReadFrames(rest)
  {
    var stream := EncodeFrame(body).value + rest;
    ReadsExactlyTheEncoding(stream, body, rest);
    assert ReadFrame(stream) == Ok((body, rest));
  }

  /** Every concatenation of frames decodes back to exactly the encoded bodies. */
  lemma {:induction false} FramesRoundTrip(bodies: seq<seq<byte>>)
    requires EncodeFrames(bodies).Ok?
    ensures ReadFrames(EncodeFrames(bodies).value) == bodies
    decreases |bodies|
  {
    if bodies != [] {
      var body, rest := bodies[0], EncodeFrames(bodies[1..]).value;
      FramesRoundTrip(bodies[1..]);
      FirstFrame(body, rest);
      assert EncodeFrames(bodies).value == EncodeFrame(body).value + rest;
      assert bodies == [body] + bodies[1..];
    }
  }

  /** The receiving end: what has arrived and is not yet read. */
  class FrameReader {
    var buffer: seq<byte>

    constructor ()
      ensures buffer == []
    {
      buffer := [];
    }

    /** `chunks` are the pieces still to arrive, in whatever sizes; the stream ends after
        the last one. */
    method ReadExactly(n: nat, chunks: seq<seq<byte>>) returns (data: Option<seq<byte>>, rest: seq<seq<byte>>)
      modifies this
      ensures
        var stream := old(buffer) + Flatten(chunks);
        if |stream| < n then data == None
        else data == Some(stream[..n]) && buffer + Flatten(rest) == stream[n..]
    {
      rest := chunks;
      while |buffer| < n && rest != []
        invariant buffer + Flatten(rest) == old(buffer) + Flatten(chunks)
        decreases |rest|
      {
        assert buffer + Flatten(rest) == buffer + rest[0] + Flatten(rest[1..]);
        buffer := buffer + rest[0];
        rest := rest[1..];
      }
      ghost var stream := buffer + Flatten(rest);
      if |buffer| < n {
        assert stream == buffer;
        return None, rest;
      }
      assert stream[..n] == buffer[..n] && stream[n..] == buffer[n..] + Flatten(rest);
      data := Some(buffer[..n]);
      buffer := buffer[n..];
    }

    /** Reading a frame as its bytes arrive gives what the whole stream says, for every
        split of it into chunks. */
    method ReceiveFrame(chunks: seq<seq<byte>>) returns (r: Result<seq<byte>, FrameError>, rest: seq<seq<byte>>)
      modifies this
      ensures
        match ReadFrame(old(buffer) + Flatten(chunks))
        case Err(e) => r == Err(e)
        case Ok((body, left)) => r == Ok(body) && buffer + Flatten(rest) == left
    {
      ghost var stream := buffer + Flatten(chunks);
      var header, afterHeader := ReadExactly(4, chunks);
      if header.None? {
        return Err(IncompleteRead), afterHeader;
      }
      var length := Unpack(header.value);
      if !(0 < length <= MAX_FRAME_BYTES) {
        return Err(InvalidSize), afterHeader;
      }
      ghost var left := stream[4..];
      assert buffer + Flatten(afterHeader) == left;
      var body, afterBody := ReadExactly(length, afterHeader);
      if body.None? {
        return Err(IncompleteRead), afterBody;
      }
      assert left[..length] == stream[4..4 + length] && left[length..] == stream[4 + length..];
      r, rest := Ok(body.value), afterBody;
    }
  }
}
