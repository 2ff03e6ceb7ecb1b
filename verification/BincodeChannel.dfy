/** Single messages over the reliable stream, each behind a 16-bit length. */
module BincodeChannel {
  import opened Prelude
  import opened Framing
  import Wire

  /** A serialization: `decode` reads back what `encode` wrote, whole. */
  datatype Codec<!M> = Codec(encode: M -> seq<u8>, decode: seq<u8> -> Option<M>)

  ghost predicate Lawful<M(!new)>(c: Codec<M>) {
    forall m: M :: c.decode(c.encode(m)) == Some(m)
  }

  /** The result of serializing into the write buffer: the bytes written, and whether it succeeded. */
  datatype Serialized = Serialized(bytes: seq<u8>, ok: bool)

  class BincodeChannel {
    const stream: ByteStream
    const reader: FrameReader
    var writeBuffer: seq<u8>
    var writePos: nat
    /** The frames of the messages accepted so far, whether a serialization has failed, those accepted before the
        first that did, and every byte that has ever been in the write buffer. */
    ghost var sent: seq<Frame>
    ghost var broken: bool
    ghost var intact: seq<Frame>
    ghost var owed: seq<u8>

    ghost predicate WriteValid()
      reads this, stream
    {
      && writePos <= |writeBuffer|
      && (writeBuffer != [] ==> writePos < |writeBuffer|)
      && Owes(writeBuffer[writePos..])
    }

    /** The channel has put out all it owes but the bytes `left`. */
    ghost predicate Owes(left: seq<u8>)
      reads this, stream
    {
      && FramesOk(sent, 0) && FramesOk(intact, 0) && intact <= sent
      && stream.outgoing + left == owed
      && (!broken ==> owed == Encode(sent, 0) && intact == sent)
      && (broken ==> Encode(intact, 0) + [0, 0] <= owed)
    }

    ghost predicate ReadValid()
      reads this, stream, reader
    {
      reader.stream == stream && reader.tagLen == 0 && reader.Valid()
    }

    constructor (incoming: seq<u8>)
      ensures WriteValid() && ReadValid() && !broken && sent == [] && owed == [] && reader.got == []
    {
      var s := new ByteStream(incoming);
      stream := s;
      reader := new FrameReader(s, 0);
      writeBuffer, writePos := [], 0;
      sent, broken, intact, owed := [], false, [], [];
    }

    /** Write what is left of the last message. */
    method PollSendReady() returns (ready: bool)
      requires WriteValid()
      modifies `writeBuffer, `writePos, stream`outgoing, stream`stalls
      ensures WriteValid()
      ensures ready <==> writeBuffer == []
      ensures stream.stalls == old(stream.stalls) + if ready then 0 else 1
      ensures old(stream.outgoing) <= stream.outgoing
    {
      hide Encode, FramesOk, EncodeFrame;
      while writeBuffer != []
        invariant WriteValid()
        invariant old(stream.outgoing) <= stream.outgoing
        invariant stream.stalls == old(stream.stalls)
        decreases |writeBuffer| - writePos
      {
        ghost var out := stream.outgoing;
        var n := stream.PollWrite(writeBuffer[writePos..]);
        if n == None {
          return false;
        }
        Moved(out, writeBuffer, writePos, n.value);
        Written(n.value);
      }
      ready := true;
    }

    /** The stream has taken the next `n` bytes. */
    method Written(n: nat)
      requires 0 < n <= |writeBuffer| - writePos
      requires Owes(writeBuffer[writePos + n..])
      modifies `writeBuffer, `writePos
      ensures WriteValid()
      ensures |writeBuffer| - writePos == old(|writeBuffer| - writePos) - n
    {
      writePos := writePos + n;
      if writePos == |writeBuffer| {
        writePos := 0;
        writeBuffer := [];
      }
    }

    /** Queue one message; a failed serialization leaves the two header bytes behind. */
    method StartSend(msg: Serialized) returns (ok: bool)
      requires WriteValid() && writeBuffer == [] && |msg.bytes| <= MAX_LEN
      modifies `writeBuffer, `sent, `broken, `intact, `owed
      ensures WriteValid() && ok == msg.ok
      ensures ok ==> sent == old(sent) + [Frame([], msg.bytes)] && broken == old(broken)
      ensures ok ==> owed == old(owed) + EncodeFrame(Frame([], msg.bytes))
      ensures !ok ==> broken && sent == old(sent) && writeBuffer == [0, 0] + msg.bytes
      ensures !ok ==> owed == old(owed) + [0, 0] + msg.bytes
      ensures old(broken) ==> intact == old(intact)
      ensures !ok && !old(broken) ==> intact == old(sent)
    {
      writeBuffer := Resize([], 2);
      writeBuffer := writeBuffer + msg.bytes;
      assert writeBuffer == [0, 0] + msg.bytes;
      if !msg.ok {
        RecordFailure(msg.bytes);
        return false;
      }
      var messageLen := |writeBuffer| - 2;
      writeBuffer := Wire.PutU16(messageLen) + writeBuffer[2..];
      assert writeBuffer == EncodeFrame(Frame([], msg.bytes));
      RecordFrame(Frame([], msg.bytes));
      ok := true;
    }

    /** The write buffer, empty before, holds what a failure left. */
    ghost method RecordFailure(bytes: seq<u8>)
      requires Owes([]) && writePos == 0 && writeBuffer == [0, 0] + bytes
      modifies `broken, `owed
      ensures WriteValid() && broken && owed == old(owed) + [0, 0] + bytes
    {
      owed := owed + [0, 0] + bytes;
      broken := true;
      assert stream.outgoing + writeBuffer == owed;
    }

    /** The write buffer, empty before, holds a frame. */
    ghost method RecordFrame(f: Frame)
      requires Owes([]) && writePos == 0 && FrameOk(f, 0) && writeBuffer == EncodeFrame(f)
      modifies `sent, `intact, `owed
      ensures WriteValid() && sent == old(sent) + [f] && owed == old(owed) + EncodeFrame(f)
      ensures broken ==> intact == old(intact)
    {
      EncodeOne(sent, f, 0);
      sent := sent + [f];
      owed := owed + writeBuffer;
      if !broken {
        intact := sent;
      }
    }

    method PollRecvReady() returns (ready: bool)
      requires ReadValid()
      modifies reader`readBuffer, reader`readPos, stream`incoming, stream`taken, stream`stalls
      ensures ReadValid() && (ready <==> reader.Full())
      ensures stream.stalls == old(stream.stalls) + if ready then 0 else 1
    {
      ready := reader.PollFrame();
    }

    method RecvNext<M>(codec: Codec<M>) returns (res: Option<M>)
      requires ReadValid() && reader.Full()
      modifies reader`readPos, reader`got
      ensures ReadValid()
      ensures |reader.got| == |old(reader.got)| + 1 && old(reader.got) <= reader.got
      ensures res == codec.decode(reader.got[|reader.got| - 1].payload)
    {
      var f := reader.TakeFrame();
      res := codec.decode(f.payload);
    }
  }

  /** The message a reader takes from the header that a failed serialization leaves. */
  const EMPTY := Frame([], [])

  lemma {:induction false} FirstOfFailed(fs: seq<Frame>, header: seq<u8>, bytes: seq<u8>, rest: seq<u8>)
    requires fs != [] && FramesOk(fs, 0)
    ensures Encode(fs, 0) + header + bytes + rest
            == EncodeFrame(fs[0]) + (Encode(fs[1..], 0) + header + bytes + rest)
  {
  }

  /** A failed serialization always delivers an empty message that was never sent: in any stream that goes on with
      what it left, whatever was written after the header and whatever follows, a reader takes the frames sent
      before it and then an empty one. */
  lemma {:induction false} FailedSendIsDelivered(fs: seq<Frame>, bytes: seq<u8>, rest: seq<u8>, got: seq<Frame>)
    requires FramesOk(fs, 0) && FramesOk(got, 0)
    requires Encode(got, 0) <= Encode(fs, 0) + [0, 0] + bytes + rest
    ensures |got| <= |fs| ==> got <= fs
    ensures |got| > |fs| ==> fs + [EMPTY] <= got
  {
    if got != [] {
      if fs == [] {
        assert Encode(fs, 0) + [0, 0] + bytes + rest == EncodeFrame(EMPTY) + (bytes + rest);
        SameFirst(got[0], EMPTY, Encode(got[1..], 0), bytes + rest, 0);
      } else {
        var tail := Encode(fs[1..], 0) + [0, 0] + bytes + rest;
        FirstOfFailed(fs, [0, 0], bytes, rest);
        SameFirst(got[0], fs[0], Encode(got[1..], 0), tail, 0);
        FailedSendIsDelivered(fs[1..], bytes, rest, got[1..]);
        assert fs == [fs[0]] + fs[1..] && got == [got[0]] + got[1..];
      }
    }
  }

  /** The same of two channels in any state they can be in once a serialization has failed: the receiver takes the
      messages accepted before the failure, and then, if it takes anything more, an empty one. */
  lemma {:induction false} FailureReachesReceiver(tx: BincodeChannel, rx: BincodeChannel)
    requires tx.WriteValid() && rx.ReadValid() && tx.broken
    requires rx.stream.taken <= tx.stream.outgoing
    ensures |rx.reader.got| <= |tx.intact| ==> rx.reader.got <= tx.intact
    ensures |rx.reader.got| > |tx.intact| ==> tx.intact + [EMPTY] <= rx.reader.got
    ensures tx.writeBuffer == [] ==> Encode(tx.intact, 0) + [0, 0] <= tx.stream.outgoing
  {
    var start := Encode(tx.intact, 0) + [0, 0];
    var rest := tx.owed[|start|..];
    assert tx.owed == start + [] + rest;
    assert Encode(rx.reader.got, 0) <= rx.stream.taken <= tx.stream.outgoing <= tx.owed;
    FailedSendIsDelivered(tx.intact, [], rest, rx.reader.got);
  }

  /** What is read after it: the frames sent later follow in step, with the frames `extra` read in between, exactly
      when what was written after the header is the encoding of those; with none in between exactly when nothing
      was written after the header. */
  lemma {:induction false} FailedSendInStep(fs: seq<Frame>, bytes: seq<u8>, extra: seq<Frame>, gs: seq<Frame>)
    requires FramesOk(fs, 0) && FramesOk(extra, 0) && FramesOk(gs, 0)
    ensures FramesOk(fs + [EMPTY] + extra + gs, 0)
    ensures Encode(fs, 0) + [0, 0] + bytes + Encode(gs, 0) == Encode(fs + [EMPTY] + extra + gs, 0)
            <==> bytes == Encode(extra, 0)
    ensures extra == [] ==> (bytes == Encode(extra, 0) <==> bytes == [])
  {
    EncodeOne(fs, EMPTY, 0);
    EncodeAppend(fs + [EMPTY], extra, 0);
    EncodeAppend(fs + [EMPTY] + extra, gs, 0);
    assert EncodeFrame(EMPTY) == [0, 0];
    Cancel(Encode(fs, 0) + [0, 0], bytes, Encode(extra, 0), Encode(gs, 0));
  }

  lemma {:induction false} Cancel(a: seq<u8>, x: seq<u8>, y: seq<u8>, b: seq<u8>)
    ensures a + x + b == a + y + b <==> x == y
  {
    if a + x + b == a + y + b {
      assert |x| == |y|;
      assert (a + x + b)[|a|..|a| + |x|] == x && (a + y + b)[|a|..|a| + |y|] == y;
    }
  }

  /** Writer and reader undo each other however the stream was cut up: as long as what the reader took is the
      beginning of what the writer put out, the payloads it handed on are the first payloads sent, each read
      back as its message; and once it took everything of a writer with nothing left to write, all of them. */
  lemma {:induction false} RoundTrip<M(!new)>(codec: Codec<M>, msgs: seq<M>, sent: seq<Frame>, got: seq<Frame>,
                           outgoing: seq<u8>, left: seq<u8>, taken: seq<u8>, partial: seq<u8>)
    requires Lawful(codec) && |sent| == |msgs|
    requires forall i :: 0 <= i < |msgs| ==> sent[i] == Frame([], codec.encode(msgs[i]))
    requires FramesOk(sent, 0) && FramesOk(got, 0)
    requires outgoing + left == Encode(sent, 0)
    requires taken == Encode(got, 0) + partial
    requires taken <= outgoing
    ensures |got| <= |msgs|
    ensures forall i :: 0 <= i < |got| ==> codec.decode(got[i].payload) == Some(msgs[i])
    ensures taken == outgoing && left == [] && partial == [] ==> |got| == |msgs|
  {
    assert Encode(got, 0) <= taken <= outgoing <= outgoing + left;
    FramesPrefix(got, sent, 0);
    assert forall i :: 0 <= i < |got| ==> got[i] == sent[i];
    if taken == outgoing && left == [] && partial == [] {
      assert taken == Encode(got, 0) && outgoing == outgoing + left;
      FramesPrefix(sent, got, 0);
    }
  }

  /** The same of two channels in any state they can be in, none of whose serializations has failed. */
  lemma {:induction false} ChannelRoundTrip<M(!new)>(codec: Codec<M>, msgs: seq<M>, tx: BincodeChannel,
                                              rx: BincodeChannel)
    requires Lawful(codec) && |tx.sent| == |msgs|
    requires forall i :: 0 <= i < |msgs| ==> tx.sent[i] == Frame([], codec.encode(msgs[i]))
    requires tx.WriteValid() && rx.ReadValid() && !tx.broken
    requires rx.stream.taken <= tx.stream.outgoing
    ensures |rx.reader.got| <= |msgs|
    ensures forall i :: 0 <= i < |rx.reader.got| ==> codec.decode(rx.reader.got[i].payload) == Some(msgs[i])
    ensures rx.stream.taken == tx.stream.outgoing && tx.writeBuffer == [] && rx.reader.readPos == 0 ==>
              |rx.reader.got| == |msgs|
  {
    RoundTrip(codec, msgs, tx.sent, rx.reader.got, tx.stream.outgoing, tx.writeBuffer[tx.writePos..],
              rx.stream.taken, rx.reader.readBuffer[..rx.reader.readPos]);
  }
}
