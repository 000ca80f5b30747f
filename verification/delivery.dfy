/**
 * Runs of the frame reader over a sequence of socket deliveries: each chunk is
 * appended to the socket buffer and then one `readyRead` call is handled.
 */
module Delivery {
  import opened RequestMaster
  import opened FrameReader

  /** The concatenation of the delivered chunks: the byte stream the peer sent. */
  function Flatten(chunks: seq<seq<byte>>): (bytes: seq<byte>)
    ensures chunks == [] ==> bytes == []
    ensures |chunks| > 0 ==> |bytes| >= |chunks[0]| && bytes[..|chunks[0]|] == chunks[0]
  {
    if chunks == [] then [] else chunks[0] + Flatten(chunks[1..])
  }

  /** The final state of a run, one outcome per delivery, and every byte read. */
  datatype Trace = Trace(final: Framer, outcomes: seq<Outcome>, consumed: seq<byte>)

  /** One delivery followed by one call of the reader, for every chunk in order. */
  function Run(s: Framer, chunks: seq<seq<byte>>, requestSize: SizeTable, validate: Validator): (t: Trace)
    // one call per delivery, so at most one validation per delivery
    ensures |t.outcomes| == |chunks|
    // a recorded tag survives any run and nothing aborts
    ensures s.TagKnown() ==> t.final.reqType == s.reqType && Aborted !in t.outcomes
    decreases |chunks|
  {
    if chunks == [] then
      Trace(s, [], [])
    else
      var r := Step(Arrive(s, chunks[0]), requestSize, validate);
      var rest := Run(r.next, chunks[1..], requestSize, validate);
      Trace(rest.final, [r.outcome] + rest.outcomes, r.consumed + rest.consumed)
  }

  /** The validations among a run's outcomes, in order. */
  function Validations(outcomes: seq<Outcome>): (v: seq<Outcome>)
    ensures |v| <= |outcomes|
    ensures forall i :: 0 <= i < |v| ==> v[i].Validated? && v[i] in outcomes
    ensures (forall i :: 0 <= i < |outcomes| ==> !outcomes[i].Validated?) ==> v == []
  {
    if outcomes == [] then []
    else if outcomes[0].Validated? then [outcomes[0]] + Validations(outcomes[1..])
    else Validations(outcomes[1..])
  }

  /**
   * No byte is lost or reordered: unless a run aborts, the bytes it read
   * followed by those still buffered are exactly the bytes that were buffered
   * at the start followed by every delivered chunk.
   */
  lemma {:induction false} RunConservesStream(s: Framer, chunks: seq<seq<byte>>, requestSize: SizeTable, validate: Validator)
    requires Aborted !in Run(s, chunks, requestSize, validate).outcomes
    ensures var t := Run(s, chunks, requestSize, validate);
            s.buffer + Flatten(chunks) == t.consumed + t.final.buffer
    decreases |chunks|
  {
    if chunks != [] {
      var a := Arrive(s, chunks[0]);
      var r := Step(a, requestSize, validate);
      var rest := Run(r.next, chunks[1..], requestSize, validate);
      var t := Run(s, chunks, requestSize, validate);
      assert t.outcomes == [r.outcome] + rest.outcomes;
      assert t.outcomes[0] == r.outcome && t.outcomes[1..] == rest.outcomes;
      assert r.outcome != Aborted;
      assert a.buffer == r.consumed + r.next.buffer;
      RunConservesStream(r.next, chunks[1..], requestSize, validate);
      var tail := Flatten(chunks[1..]);
      assert r.next.buffer + tail == rest.consumed + rest.final.buffer;
      assert Flatten(chunks) == chunks[0] + tail;
      assert t.consumed == r.consumed + rest.consumed && t.final == rest.final;
      SeqAssoc(s.buffer, chunks[0], tail);
      SeqAssoc(r.consumed, r.next.buffer, tail);
      SeqAssoc(r.consumed, rest.consumed, rest.final.buffer);
    }
  }

  lemma SeqAssoc<T>(a: seq<T>, b: seq<T>, c: seq<T>)
    ensures a + (b + c) == (a + b) + c
  {
  }

  /** The reader's state once the first `k` bytes of the frame `[tag] + payload` have arrived, for `k <= |payload|`. */
  function Partial(tag: byte, payload: seq<byte>, k: nat): Framer
    requires k <= |payload|
  {
    if k == 0 then Idle else Framer(tag, payload[..k - 1])
  }

  /** One delivery that continues a partly received frame either extends it or completes it. */
  lemma DeliverFrameChunk(tag: byte, payload: seq<byte>, k: nat, c: seq<byte>, requestSize: SizeTable, validate: Validator)
    requires tag != UnknownTag && |payload| == requestSize(tag)
    requires k <= |payload| && k + |c| <= |payload| + 1
    requires c == ([tag] + payload)[k..k + |c|]
    ensures var r := Step(Arrive(Partial(tag, payload, k), c), requestSize, validate);
            if k + |c| <= |payload| then
              r.outcome == Wait && r.next == Partial(tag, payload, k + |c|)
            else
              r.outcome == Validated(tag, payload, validate(tag, payload)) && r.next == Framer(tag, [])
  {
    if k == 0 {
      FirstFrameChunk(tag, payload, c, requestSize, validate);
    } else {
      LaterFrameChunk(tag, payload, k, c, requestSize, validate);
    }
  }

  /** The first delivery of a frame: the tag is read, then the payload bytes so far are held or validated. */
  lemma FirstFrameChunk(tag: byte, payload: seq<byte>, c: seq<byte>, requestSize: SizeTable, validate: Validator)
    requires tag != UnknownTag && |payload| == requestSize(tag)
    requires |c| <= |payload| + 1
    requires c == ([tag] + payload)[..|c|]
    ensures var r := Step(Arrive(Idle, c), requestSize, validate);
            if |c| <= |payload| then
              r.outcome == Wait && r.next == Partial(tag, payload, |c|)
            else
              r.outcome == Validated(tag, payload, validate(tag, payload)) && r.next == Framer(tag, [])
  {
    var a := Arrive(Idle, c);
    assert a.buffer == c;
    if |c| > 0 {
      assert c[0] == tag;
      assert c[1..] == payload[..|c| - 1];
      var r := ReadPayload(Framer(tag, c[1..]), [tag], requestSize, validate);
      assert Step(a, requestSize, validate) == r;
      if |c| <= |payload| {
        assert r.outcome == Wait && r.next == Framer(tag, payload[..|c| - 1]);
      } else {
        assert c[1..] == payload;
        assert r.next.buffer == [];
      }
    }
  }

  /** A later delivery of a frame: the tag is already recorded, the payload grows or completes. */
  lemma LaterFrameChunk(tag: byte, payload: seq<byte>, k: nat, c: seq<byte>, requestSize: SizeTable, validate: Validator)
    requires tag != UnknownTag && |payload| == requestSize(tag)
    requires 1 <= k <= |payload| && k + |c| <= |payload| + 1
    requires c == ([tag] + payload)[k..k + |c|]
    ensures var r := Step(Arrive(Partial(tag, payload, k), c), requestSize, validate);
            if k + |c| <= |payload| then
              r.outcome == Wait && r.next == Partial(tag, payload, k + |c|)
            else
              r.outcome == Validated(tag, payload, validate(tag, payload)) && r.next == Framer(tag, [])
  {
    var a := Arrive(Partial(tag, payload, k), c);
    assert c == payload[k - 1..k - 1 + |c|];
    assert a.buffer == payload[..k - 1] + payload[k - 1..k - 1 + |c|];
    assert a.buffer == payload[..k - 1 + |c|];
    var r := ReadPayload(a, [], requestSize, validate);
    assert Step(a, requestSize, validate) == r;
    if k + |c| > |payload| {
      assert a.buffer == payload;
      assert r.next.buffer == [];
    }
  }

  /** After a complete frame with a non-empty payload, deliveries carrying no bytes change nothing. */
  lemma {:induction false} IdleAfterFrame(tag: byte, chunks: seq<seq<byte>>, requestSize: SizeTable, validate: Validator)
    requires tag != UnknownTag && requestSize(tag) > 0
    requires Flatten(chunks) == []
    ensures var t := Run(Framer(tag, []), chunks, requestSize, validate);
            t.final == Framer(tag, []) && Validations(t.outcomes) == [] && Aborted !in t.outcomes
    decreases |chunks|
  {
    if chunks != [] {
      assert chunks[0] == [];
      assert Flatten(chunks[1..]) == [];
      IdleAfterFrame(tag, chunks[1..], requestSize, validate);
    }
  }

  /** From any point inside a frame, the rest of the frame, however chunked, completes it exactly once. */
  lemma {:induction false} FrameCompletesOnce(tag: byte, payload: seq<byte>, k: nat, chunks: seq<seq<byte>>, requestSize: SizeTable, validate: Validator)
    requires tag != UnknownTag && |payload| == requestSize(tag) > 0
    requires k <= |payload|
    requires Flatten(chunks) == ([tag] + payload)[k..]
    ensures var t := Run(Partial(tag, payload, k), chunks, requestSize, validate);
            && Validations(t.outcomes) == [Validated(tag, payload, validate(tag, payload))]
            && Aborted !in t.outcomes
            && t.final == Framer(tag, [])
    decreases |chunks|
  {
    var frame := [tag] + payload;
    assert |Flatten(chunks)| > 0;
    var c := chunks[0];
    assert Flatten(chunks) == c + Flatten(chunks[1..]);
    assert c == frame[k..k + |c|];
    assert Flatten(chunks[1..]) == frame[k + |c|..];
    DeliverFrameChunk(tag, payload, k, c, requestSize, validate);
    var r := Step(Arrive(Partial(tag, payload, k), c), requestSize, validate);
    var t := Run(Partial(tag, payload, k), chunks, requestSize, validate);
    if k + |c| <= |payload| {
      FrameCompletesOnce(tag, payload, k + |c|, chunks[1..], requestSize, validate);
      var rest := Run(r.next, chunks[1..], requestSize, validate);
      assert t.outcomes == [Wait] + rest.outcomes;
      assert t.outcomes[1..] == rest.outcomes;
    } else {
      IdleAfterFrame(tag, chunks[1..], requestSize, validate);
      var rest := Run(r.next, chunks[1..], requestSize, validate);
      assert t.outcomes == [r.outcome] + rest.outcomes;
      assert t.outcomes[1..] == rest.outcomes;
    }
  }

  /**
   * A single frame with a non-empty payload, split into chunks in any way and
   * delivered one chunk per call to a fresh reader, is validated exactly once,
   * with the same tag, payload and verdict as when it arrives in one piece.
   */
  lemma SplitFrameValidatedOnce(tag: byte, payload: seq<byte>, chunks: seq<seq<byte>>, requestSize: SizeTable, validate: Validator)
    requires tag != UnknownTag && |payload| == requestSize(tag) > 0
    requires Flatten(chunks) == [tag] + payload
    ensures var t := Run(Idle, chunks, requestSize, validate);
            && Validations(t.outcomes) == [Validated(tag, payload, validate(tag, payload))]
            && Validations(t.outcomes) == Validations(Run(Idle, [[tag] + payload], requestSize, validate).outcomes)
            && Aborted !in t.outcomes
            && t.final == Framer(tag, [])
  {
    assert Partial(tag, payload, 0) == Idle;
    FrameCompletesOnce(tag, payload, 0, chunks, requestSize, validate);
    assert Flatten([[tag] + payload]) == [tag] + payload + [];
    FrameCompletesOnce(tag, payload, 0, [[tag] + payload], requestSize, validate);
  }

  /** The same frame arriving one byte per call. */
  function Bytewise(bytes: seq<byte>): (chunks: seq<seq<byte>>)
    ensures |chunks| == |bytes|
    ensures Flatten(chunks) == bytes
  {
    if bytes == [] then [] else [[bytes[0]]] + Bytewise(bytes[1..])
  }

  /** Feeding a frame one byte at a time takes one call per byte and validates it once. */
  lemma BytewiseFrameValidatedOnce(tag: byte, payload: seq<byte>, requestSize: SizeTable, validate: Validator)
    requires tag != UnknownTag && |payload| == requestSize(tag) > 0
    ensures var t := Run(Idle, Bytewise([tag] + payload), requestSize, validate);
            && Validations(t.outcomes) == [Validated(tag, payload, validate(tag, payload))]
            && |t.outcomes| == |payload| + 1
  {
    SplitFrameValidatedOnce(tag, payload, Bytewise([tag] + payload), requestSize, validate);
  }
}
