/** The raw payload on the wire: `queueHandler` writes the event id's decimal text in front of
    the payload (EtherEventQueue.cpp:465-467) and `availableEvent` splits a received raw payload
    back into id and payload (EtherEventQueue.cpp:203-221); an ack carries the acknowledged
    id as its payload (EtherEventQueue.cpp:223-225). */
module Wire {
  import opened Types
  import opened Decimal

  /** Number of characters of the id at the head of the raw payload (`eventIDlength`). */
  const IdLength: nat := 2

  /** `itoa(eventID)` followed by the payload. */
  function WirePayload(id: byte, payload: string): (raw: string)
    ensures |raw| == |DecimalText(id)| + |payload|
  {
    DecimalText(id) + payload
  }

  /** The id `availableEvent` reads: `atoi` of the first two characters, kept as a byte. */
  function ParsedId(raw: string): (id: byte)
  {
    ToByte(Atoi(raw[..if |raw| < IdLength then |raw| else IdLength]))
  }

  /** The payload `availableEvent` keeps: everything after the id, or nothing when the raw
      payload is no longer than the id. The received buffer length is taken to be the raw
      length plus the terminating NUL. */
  function ParsedPayload(raw: string): (p: string)
    ensures |raw| > IdLength ==> raw == raw[..IdLength] + p
    ensures |raw| <= IdLength ==> p == ""
  {
    if |raw| > IdLength then raw[IdLength..] else ""
  }

  /** The id an ack names: `atoi` of its payload, kept as a byte. */
  function AckId(payload: string): (id: byte)
  {
    ToByte(Atoi(payload))
  }

  /** An id in 10..99, the range `eventIDfind` searches, takes exactly two characters. */
  lemma TwoDigitIdText(id: byte)
    requires 10 <= id <= 99
    ensures |DecimalText(id)| == IdLength
  {
    Pow10Table();
    TextLengthInRange(id, 2);
  }

  /** A sent event's raw payload splits back into the same id and payload. */
  lemma WireRoundTrip(id: byte, payload: string)
    requires 10 <= id <= 99
    ensures ParsedId(WirePayload(id, payload)) == id
    ensures ParsedPayload(WirePayload(id, payload)) == payload
  {
    var text := DecimalText(id);
    TwoDigitIdText(id);
    AtoiOfDecimalText(id);
    IdThenPayload(text, payload);
  }

  /** An event sent with id 0 (what `eventIDfind` returns when it finds no free id) carries the
      one-character text "0", so the receiver takes the payload's first character as part of
      the id and loses it from the payload. */
  lemma ZeroIdLosesPayloadHead(c: char, rest: string)
    ensures ParsedPayload(WirePayload(0, [c] + rest)) == rest
  {
    var raw := WirePayload(0, [c] + rest);
    assert |DecimalText(0)| == 1;
    if |raw| > IdLength {
      assert raw == raw[..IdLength] + rest;
    }
  }

  /** Any two-character id text in front of a payload is split off again. */
  lemma IdThenPayload(text: string, payload: string)
    requires |text| == IdLength
    ensures ParsedId(text + payload) == ToByte(Atoi(text))
    ensures ParsedPayload(text + payload) == payload
  {
    var raw := text + payload;
    assert raw[..IdLength] == text;
    if |raw| > IdLength {
      assert raw[IdLength..] == payload;
    }
  }

  /** An ack whose payload is the id's text names that id. */
  lemma AckRoundTrip(id: byte)
    ensures AckId(DecimalText(id)) == id
  {
    AtoiOfDecimalText(id);
  }
}
