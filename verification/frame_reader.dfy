/**
 * The client's incremental frame reader (`Client::onReadyRead`). Each call sees
 * the bytes the socket has buffered so far and runs two phases: read the one-byte
 * request type tag unless one is already recorded, then wait for
 * `requestSize(tag)` payload bytes and hand exactly those to the validator.
 * A call handles at most one frame, and the recorded tag is never cleared after
 * a payload is consumed.
 */
module FrameReader {
  import opened Wrappers
  import opened RequestMaster

  /**
   * The reader's state: the raw `serverReqType_` byte (the value 3, `Unknown`,
   * means no tag is recorded) and the bytes the socket holds unread.
   */
  datatype Framer = Framer(reqType: byte, buffer: seq<byte>) {

    predicate TagKnown() {
      reqType != UnknownTag
    }

    /** The recorded tag, if any. */
    function PendingTag(): Option<byte> {
      if TagKnown() then Some(reqType) else None
    }
  }

  /** The state of a freshly built client: no tag recorded, nothing buffered. */
  const Idle: Framer := Framer(UnknownTag, [])

  /** What one call reports: nothing yet, a corrupt tag, or one validated frame. */
  datatype Outcome = Wait | Aborted | Validated(tag: byte, payload: seq<byte>, ok: bool)

  /** The state after a call, its outcome, and the bytes it read from the socket. */
  datatype StepResult = StepResult(next: Framer, outcome: Outcome, consumed: seq<byte>)

  /** The message the client emits on a corrupt tag or a rejected payload. */
  const InvalidDataMessage: string := "Invalid data from server."

  /** The error a call emits, if any. */
  function EmittedError(o: Outcome): (e: Option<string>)
    ensures e.Some? <==> o == Aborted || (o.Validated? && !o.ok)
    ensures e.Some? ==> e.value == InvalidDataMessage
  {
    match o
    case Wait => None
    case Aborted => Some(InvalidDataMessage)
    case Validated(_, _, ok) => if ok then None else Some(InvalidDataMessage)
  }

  /**
   * Independent description of when a call reaches the validator: a tag is
   * recorded (or the first buffered byte is a tag other than `Unknown`) and the
   * bytes after it cover that tag's size.
   */
  predicate ValidationDue(s: Framer, requestSize: SizeTable) {
    if s.TagKnown() then |s.buffer| >= requestSize(s.reqType)
    else 1 <= |s.buffer| && s.buffer[0] != UnknownTag && |s.buffer| - 1 >= requestSize(s.buffer[0])
  }

  /** Phase two: with `s.reqType` recorded, take a whole payload or wait. */
  function ReadPayload(s: Framer, tagBytes: seq<byte>, requestSize: SizeTable, validate: Validator): StepResult
    requires s.TagKnown()
  {
    var n := requestSize(s.reqType);
    if |s.buffer| < n then
      StepResult(s, Wait, tagBytes)
    else
      var payload := s.buffer[..n];
      StepResult(Framer(s.reqType, s.buffer[n..]), Validated(s.reqType, payload, validate(s.reqType, payload)), tagBytes + payload)
  }

  /** One `readyRead` notification handled against the buffered bytes. */
  function Step(s: Framer, requestSize: SizeTable, validate: Validator): (r: StepResult)
    // nothing buffered and no tag: nothing read, nothing reported
    ensures !s.TagKnown() && s.buffer == [] ==> r == StepResult(s, Wait, [])
    // a corrupt tag aborts: exactly that byte is read and the socket is cleared
    ensures r.outcome == Aborted <==> !s.TagKnown() && s.buffer != [] && s.buffer[0] == UnknownTag
    ensures r.outcome == Aborted ==> r.consumed == [UnknownTag] && r.next == Idle
    // a recorded tag is kept and never read again
    ensures s.TagKnown() ==> r.next.reqType == s.reqType && r.outcome != Aborted
    // a tag read in this call is the first buffered byte, and only it
    ensures !s.TagKnown() && r.next.TagKnown() ==> r.next.reqType == s.buffer[0] && |r.consumed| >= 1 && r.consumed[0] == s.buffer[0]
    // otherwise bytes leave the buffer only from the front, in order
    ensures r.outcome != Aborted ==> s.buffer == r.consumed + r.next.buffer
    // the validator runs exactly when a whole payload is buffered
    ensures r.outcome.Validated? <==> ValidationDue(s, requestSize)
    ensures r.outcome.Validated? ==>
              && r.outcome.tag == r.next.reqType
              && |r.outcome.payload| == requestSize(r.outcome.tag)
              && r.outcome.ok == validate(r.outcome.tag, r.outcome.payload)
              && r.consumed == (if s.TagKnown() then [] else [r.outcome.tag]) + r.outcome.payload
    // waiting reads no payload byte: at most an available tag byte, which is then recorded
    ensures r.outcome == Wait && (s.TagKnown() || s.buffer == []) ==> r.consumed == [] && r.next == s
    ensures r.outcome == Wait && !s.TagKnown() && s.buffer != [] ==>
              r.consumed == [s.buffer[0]] && r.next == Framer(s.buffer[0], s.buffer[1..])
    ensures r.outcome == Wait && r.next.TagKnown() ==> |r.next.buffer| < requestSize(r.next.reqType)
  {
    if !s.TagKnown() then
      if |s.buffer| < 1 then
        StepResult(s, Wait, [])
      else
        var tag := s.buffer[0];
        if tag == UnknownTag then
          StepResult(Idle, Aborted, [tag])
        else
          ReadPayload(Framer(tag, s.buffer[1..]), [tag], requestSize, validate)
    else
      ReadPayload(s, [], requestSize, validate)
  }

  /** New bytes arriving on the socket are appended behind the unread ones. */
  function Arrive(s: Framer, chunk: seq<byte>): (t: Framer)
    ensures t.reqType == s.reqType
    ensures |t.buffer| == |s.buffer| + |chunk|
    ensures t.buffer[..|s.buffer|] == s.buffer && t.buffer[|s.buffer|..] == chunk
  {
    Framer(s.reqType, s.buffer + chunk)
  }

  /**
   * Starting a new key exchange request aborts the socket: every unread byte
   * is dropped, but the recorded tag field is left as it was.
   */
  function Restart(s: Framer): (t: Framer)
    ensures t.buffer == [] && t.PendingTag() == s.PendingTag()
  {
    Framer(s.reqType, [])
  }

  /** A failed validation reports an error but, unlike a corrupt tag, keeps the tag and the remaining bytes. */
  lemma RejectedFrameKeepsConnection(s: Framer, requestSize: SizeTable, validate: Validator)
    requires ValidationDue(s, requestSize)
    ensures var r := Step(s, requestSize, validate);
            r.outcome.Validated? && r.next.TagKnown()
            && (!r.outcome.ok ==> EmittedError(r.outcome) == Some(InvalidDataMessage))
            && s.buffer[|r.consumed|..] == r.next.buffer
  {
  }

  /** The tag check rejects only the byte 3: bytes 4..255 name no request type yet are recorded as a tag. */
  lemma OutOfRangeTagAccepted(b: byte, rest: seq<byte>, requestSize: SizeTable, validate: Validator)
    requires b > 3
    ensures Decode(b) == None
    ensures var r := Step(Framer(UnknownTag, [b] + rest), requestSize, validate);
            r.outcome != Aborted && r.next.PendingTag() == Some(b)
  {
  }

  /**
   * The tag is not cleared after a frame, so the first byte of the next frame
   * is taken as payload under the old tag instead of being read as a tag.
   */
  lemma NextFrameReadUnderStaleTag(tag: byte, bytes: seq<byte>, requestSize: SizeTable, validate: Validator)
    requires tag != UnknownTag
    requires |bytes| >= requestSize(tag)
    ensures var r := Step(Arrive(Framer(tag, []), bytes), requestSize, validate);
            r.outcome == Validated(tag, bytes[..requestSize(tag)], validate(tag, bytes[..requestSize(tag)]))
  {
  }

  /** A new request drops the buffered bytes but keeps a recorded tag, so the reply's first byte is not read as its tag. */
  lemma RestartKeepsStaleTag(s: Framer, reply: seq<byte>, requestSize: SizeTable, validate: Validator)
    requires s.TagKnown()
    requires |reply| >= requestSize(s.reqType)
    ensures var r := Step(Arrive(Restart(s), reply), requestSize, validate);
            r.outcome.Validated? && r.outcome.tag == s.reqType && r.outcome.payload == reply[..requestSize(s.reqType)]
  {
  }
}
