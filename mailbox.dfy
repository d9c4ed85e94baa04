/**
  The firmware property call (rpi_firmware_property in rpi3-gpiovirtbuf.c),
  following the property-tag layout of the Raspberry Pi firmware mailbox:

    word 0        total size of the buffer in bytes
    word 1        request code; the firmware overwrites it with a status
    word 2        tag
    word 3        size of the tag's value buffer in bytes
    word 4        request/response size, 0 in a request
    words 5 ..    the tag's value buffer
    last word     end marker

  The call builds this buffer, hands it to the firmware through the
  /dev/vcio ioctl, checks the status word and copies the value buffer back
  to the caller. Where the C code prints a diagnostic and exits, the model
  returns a failure.
*/
module Mailbox {

  import opened Words

  // Values as declared by raspberrypi-firmware.h of the Linux kernel; no
  // proof below depends on them except that success differs from request.
  const STATUS_REQUEST: uint32 := 0
  const STATUS_SUCCESS: uint32 := 0x8000_0000
  const PROPERTY_END: uint32 := 0
  /** The tag that asks for the bus address of the virtual GPIO buffer. */
  const TAG_GET_GPIOVIRTBUF: uint32 := 0x0004_0010

  /** Number of header words in front of the value buffer. */
  const HEADER_WORDS: nat := 5

  /** What the ioctl does with the buffer: it fails, or the firmware overwrites it. */
  datatype Reply =
    | Rejected
    | Replied(written: seq<uint32>)

  datatype Error =
    | IoctlFailed
    | BadStatus(status: uint32)

  datatype Outcome = Pass | Fail(error: Error)

  datatype Result<T> = Ok(value: T) | Err(error: Error)

  datatype Option<T> = None | Some(value: T)

  /** A request as the firmware reads it back out of the buffer. */
  datatype PropertyRequest = PropertyRequest(tag: uint32, payload: seq<uint32>)

  /** A size_t stored into a uint32_t word keeps its low 32 bits. */
  function Trunc32(x: nat): (w: uint32)
    ensures x < 0x1_0000_0000 ==> w as int == x
  {
    (x % 0x1_0000_0000) as uint32
  }

  /** Whether the buffer's byte size fits the 32-bit size word. */
  predicate FitsSizeWord(payloadWords: nat)
  {
    (HEADER_WORDS + payloadWords + 1) * 4 < 0x1_0000_0000
  }

  /**
    The request buffer for `tag` with value buffer `payload`. It has
    5 + n + 1 words for n payload words, and when that byte size fits in
    32 bits, word 0 holds it exactly.
  */
  function Request(tag: uint32, payload: seq<uint32>): (r: seq<uint32>)
    ensures |r| == HEADER_WORDS + |payload| + 1
    ensures FitsSizeWord(|payload|) ==> r[0] as int == |r| * 4
  {
    Header(tag, |payload|) + payload + [PROPERTY_END]
  }

  /**
    The five header words of a request with `payloadWords` value words:
    the request code in word 1, the tag in word 2, a zero request/response
    size in word 4, and, whenever the buffer's byte size fits in 32 bits,
    that byte size in word 0 and the value buffer's byte size in word 3.
  */
  function Header(tag: uint32, payloadWords: nat): (h: seq<uint32>)
    ensures |h| == HEADER_WORDS
    ensures h[1] == STATUS_REQUEST && h[2] == tag && h[4] == 0
    ensures FitsSizeWord(payloadWords) ==>
      h[0] as int == (HEADER_WORDS + payloadWords + 1) * 4 && h[3] as int == payloadWords * 4
  {
    [Trunc32((HEADER_WORDS + payloadWords + 1) * 4), STATUS_REQUEST, tag, Trunc32(payloadWords * 4), 0]
  }

  /**
    Reads a request buffer back: the size word must equal the buffer's byte
    length, the request code must be set, the value-buffer size must match
    the words between the header and the end marker, and the
    request/response size must be 0.
  */
  function ParseRequest(buf: seq<uint32>): (r: Option<PropertyRequest>)
    ensures r.Some? ==> |buf| == HEADER_WORDS + |r.value.payload| + 1
  {
    if |buf| < HEADER_WORDS + 1 then None
    else
      var n := |buf| - HEADER_WORDS - 1;
      if buf[0] as int == |buf| * 4 && buf[1] == STATUS_REQUEST && buf[3] as int == n * 4
         && buf[4] == 0 && buf[|buf| - 1] == PROPERTY_END
      then Some(PropertyRequest(buf[2], buf[HEADER_WORDS..|buf| - 1]))
      else None
  }

  /**
    The one property call the program makes: asking for the virtual GPIO
    buffer with a single-word value buffer gives a seven-word, 28-byte
    request.
  */
  lemma GpioVirtBufRequest(gvp: uint32)
    ensures Request(TAG_GET_GPIOVIRTBUF, [gvp])
      == [28, STATUS_REQUEST, TAG_GET_GPIOVIRTBUF, 4, 0, gvp, PROPERTY_END]
  {
  }

  /** Every field of the request buffer sits at its fixed place. */
  lemma RequestLayout(tag: uint32, payload: seq<uint32>)
    ensures var r := Request(tag, payload);
      && r[1] == STATUS_REQUEST && r[2] == tag && r[4] == 0
      && r[3] == Trunc32(|payload| * 4)
      && r[HEADER_WORDS..HEADER_WORDS + |payload|] == payload
      && r[HEADER_WORDS + |payload|] == PROPERTY_END
  {
    var r := Request(tag, payload);
    assert r[HEADER_WORDS..HEADER_WORDS + |payload|] == payload;
  }

  /** Parsing a request buffer that fits the size word gives the request back. */
  lemma ParseRequestRoundTrip(tag: uint32, payload: seq<uint32>)
    requires FitsSizeWord(|payload|)
    ensures ParseRequest(Request(tag, payload)) == Some(PropertyRequest(tag, payload))
  {
    var r := Request(tag, payload);
    RequestLayout(tag, payload);
    assert r[HEADER_WORDS..|r| - 1] == payload;
  }

  /** A buffer that parses is exactly the request buffer built from what it parses to. */
  lemma ParseRequestExact(buf: seq<uint32>)
    requires ParseRequest(buf).Some?
    ensures var q := ParseRequest(buf).value;
      FitsSizeWord(|q.payload|) && Request(q.tag, q.payload) == buf
  {
    var q := ParseRequest(buf).value;
    var r := Request(q.tag, q.payload);
    assert FitsSizeWord(|q.payload|);
    RequestLayout(q.tag, q.payload);
    assert forall i :: 0 <= i < |buf| ==> r[i] == buf[i] by {
      forall i | 0 <= i < |buf|
        ensures r[i] == buf[i]
      {
        if HEADER_WORDS <= i < |buf| - 1 {
          assert r[i] == r[HEADER_WORDS..HEADER_WORDS + |q.payload|][i - HEADER_WORDS];
        }
      }
    }
  }

  /**
    The buffer after the firmware wrote `written` over it: the ioctl copies
    back no more words than the buffer holds, and words the firmware did
    not write keep their request value.
  */
  function Deliver(buf: seq<uint32>, written: seq<uint32>): (r: seq<uint32>)
    ensures |r| == |buf|
    ensures forall i :: 0 <= i < |buf| ==> r[i] == if i < |written| then written[i] else buf[i]
  {
    if |written| >= |buf| then written[..|buf|] else written + buf[|written|..]
  }

  /**
    The whole property call as a value: the reply the caller gets for `tag`
    and `payload` from a firmware that answers request buffers as `firmware`
    does. A successful call returns a value buffer of the request's size.
  */
  function Exchange(tag: uint32, payload: seq<uint32>, firmware: seq<uint32> -> Reply)
    : (r: Result<seq<uint32>>)
    ensures r.Ok? ==> |r.value| == |payload|
  {
    var req := Request(tag, payload);
    match firmware(req)
    case Rejected => Err(IoctlFailed)
    case Replied(written) =>
      var resp := Deliver(req, written);
      if resp[1] != STATUS_SUCCESS then Err(BadStatus(resp[1]))
      else Ok(resp[HEADER_WORDS..HEADER_WORDS + |payload|])
  }

  /**
    The status check in terms of what the ioctl did. A rejected ioctl
    fails. Otherwise the call succeeds exactly when the firmware wrote the
    success status into word 1, so a reply shorter than two words never
    passes. On success each value word is the one the firmware wrote at
    its place, or the caller's own word where the firmware wrote nothing.
    On failure the error carries word 1 as the firmware left it.
  */
  lemma ExchangeStatus(tag: uint32, payload: seq<uint32>, firmware: seq<uint32> -> Reply)
    ensures firmware(Request(tag, payload)).Rejected? ==> Exchange(tag, payload, firmware) == Err(IoctlFailed)
    ensures firmware(Request(tag, payload)).Replied? ==>
      var written := firmware(Request(tag, payload)).written;
      var x := Exchange(tag, payload, firmware);
      && (x.Ok? <==> |written| > 1 && written[1] == STATUS_SUCCESS)
      && (x.Ok? ==> forall k :: 0 <= k < |payload| ==>
            x.value[k] == if HEADER_WORDS + k < |written| then written[HEADER_WORDS + k] else payload[k])
      && (x.Err? ==> x.error == BadStatus(if |written| > 1 then written[1] else STATUS_REQUEST))
  {
    RequestLayout(tag, payload);
  }

  /**
    A firmware that leaves the buffer untouched never passes for a
    successful one: the request code is still in word 1 and the call fails
    with it.
  */
  lemma SilentFirmwareFails(tag: uint32, payload: seq<uint32>, firmware: seq<uint32> -> Reply)
    requires firmware(Request(tag, payload)) == Replied([])
    ensures Exchange(tag, payload, firmware) == Err(BadStatus(STATUS_REQUEST))
  {
    ExchangeStatus(tag, payload, firmware);
  }

  /**
    A firmware that writes the success status and its answer in place of
    the value buffer delivers exactly that answer.
  */
  lemma AnsweringFirmwareDelivers(
    tag: uint32, payload: seq<uint32>, answer: seq<uint32>, firmware: seq<uint32> -> Reply)
    requires |answer| == |payload|
    requires var req := Request(tag, payload);
      firmware(req) == Replied(req[..1] + [STATUS_SUCCESS] + req[2..HEADER_WORDS] + answer + [PROPERTY_END])
    ensures Exchange(tag, payload, firmware) == Ok(answer)
  {
    var req := Request(tag, payload);
    var written := req[..1] + [STATUS_SUCCESS] + req[2..HEADER_WORDS] + answer + [PROPERTY_END];
    var resp := Deliver(req, written);
    assert resp == written;
    assert resp[1] == STATUS_SUCCESS;
    assert resp[HEADER_WORDS..HEADER_WORDS + |payload|] == answer;
  }

  /**
    The first half of rpi_firmware_property: a fresh array filled word by
    word through a running index, the caller's value buffer copied in after
    the header, then the end marker. The result is the request buffer.
  */
  method BuildRequest(tag: uint32, tagData: array<uint32>, bufSize: nat) returns (p: array<uint32>)
    requires bufSize == 4 * tagData.Length
    ensures fresh(p)
    ensures p[..] == Request(tag, tagData[..])
  {
    var n := bufSize / 4;
    p := new uint32[HEADER_WORDS + n + 1];
    var i := 0;
    p[i] := Trunc32((HEADER_WORDS + n + 1) * 4);
    i := i + 1;
    p[i] := STATUS_REQUEST;
    i := i + 1;
    p[i] := tag;
    i := i + 1;
    p[i] := Trunc32(bufSize);
    i := i + 1;
    p[i] := 0;
    i := i + 1;
    ghost var header := p[..i];
    assert header == Header(tag, n);
    forall k | 0 <= k < n {
      p[i + k] := tagData[k];
    }
    p[i + n] := PROPERTY_END;
    assert p[..] == header + tagData[..] + [PROPERTY_END] by {
      assert forall j :: 0 <= j < i ==> p[j] == header[j];
      assert forall k :: 0 <= k < n ==> p[i + k] == tagData[k];
    }
  }

  /**
    rpi_firmware_property: builds the request buffer, hands it to the
    firmware, checks the status word and, on success only, copies the
    response's value buffer over the caller's. `bufSize` is the value
    buffer's size in bytes, a multiple of 4.
  */
  method Property(tag: uint32, tagData: array<uint32>, bufSize: nat, firmware: seq<uint32> -> Reply)
    returns (outcome: Outcome)
    requires bufSize == 4 * tagData.Length
    modifies tagData
    ensures var x := Exchange(tag, old(tagData[..]), firmware);
      && (outcome.Pass? <==> x.Ok?)
      && (x.Ok? ==> tagData[..] == x.value)
      && (x.Err? ==> outcome == Fail(x.error) && tagData[..] == old(tagData[..]))
  {
    ghost var payload := tagData[..];
    var n := bufSize / 4;
    var p := BuildRequest(tag, tagData, bufSize);
    var i := HEADER_WORDS;

    var reply := firmware(p[..]);
    if reply.Rejected? {
      assert Exchange(tag, payload, firmware) == Err(IoctlFailed);
      return Fail(IoctlFailed);
    }
    var resp := Deliver(p[..], reply.written);
    forall k | 0 <= k < p.Length {
      p[k] := resp[k];
    }
    assert p[..] == resp;

    if p[1] != STATUS_SUCCESS {
      assert Exchange(tag, payload, firmware) == Err(BadStatus(p[1]));
      return Fail(BadStatus(p[1]));
    }
    assert Exchange(tag, payload, firmware) == Ok(resp[HEADER_WORDS..HEADER_WORDS + n]);
    forall k | 0 <= k < n {
      tagData[k] := p[i + k];
    }
    assert tagData[..] == resp[HEADER_WORDS..HEADER_WORDS + n];
    return Pass;
  }
}
