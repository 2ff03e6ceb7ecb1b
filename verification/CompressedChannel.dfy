/** Messages over the reliable stream in compressed chunks: messages are serialized end to end into a chunk,
    and a full or flushed chunk goes out as one frame, compressed if that makes it shorter. */
module CompressedChannel {
  import opened Prelude
  import opened Framing
  import Wire

  /** A serialization that can be read off the front of a stream: `decode` gives the message and its length. */
  datatype Codec<!M> = Codec(encode: M -> seq<u8>, decode: seq<u8> -> Option<(M, nat)>)

  /** `announced` reads the decompressed length off compressed bytes, before they are decompressed. */
  datatype Compressor = Compressor(compress: seq<u8> -> seq<u8>, announced: seq<u8> -> Option<nat>,
                                   decompress: seq<u8> -> Option<seq<u8>>)

  /** Encodings delimit themselves. */
  ghost predicate SelfDelimiting<M(!new)>(c: Codec<M>) {
    forall m: M, rest: seq<u8> {:trigger c.encode(m) + rest} ::
      c.decode(c.encode(m) + rest) == Some((m, |c.encode(m)|))
  }

  ghost predicate NonEmpty<M(!new)>(c: Codec<M>) {
    forall m: M :: c.encode(m) != []
  }

  ghost predicate Lawful<M(!new)>(c: Codec<M>) {
    SelfDelimiting(c) && NonEmpty(c)
  }

  /** Deserializing consumes no more than there is. */
  ghost predicate Bounded<M(!new)>(c: Codec<M>) {
    forall bytes :: c.decode(bytes).Some? ==> c.decode(bytes).value.1 <= |bytes|
  }

  /** What was compressed announces its length and is decompressed. */
  ghost predicate Faithful(z: Compressor) {
    forall x :: Restores(z, x)
  }

  predicate Restores(z: Compressor, x: seq<u8>) {
    z.announced(z.compress(x)) == Some(|x|) && z.decompress(z.compress(x)) == Some(x)
  }

  // ----- Chunks and messages -----

  function Serialize<M>(c: Codec<M>, msgs: seq<M>): seq<u8> {
    if msgs == [] then [] else c.encode(msgs[0]) + Serialize(c, msgs[1..])
  }

  lemma {:induction false} SerializeAppend<M>(c: Codec<M>, a: seq<M>, m: M)
    ensures Serialize(c, a + [m]) == Serialize(c, a) + c.encode(m)
  {
    if a == [] {
      assert Serialize(c, [m]) == c.encode(m) + Serialize(c, []);
    } else {
      assert (a + [m])[1..] == a[1..] + [m];
      SerializeAppend(c, a[1..], m);
    }
  }

  /** The messages read off a chunk one after the other, for as long as that succeeds. */
  function Parse<M>(c: Codec<M>, bytes: seq<u8>): seq<M>
    decreases |bytes|
  {
    if bytes == [] then []
    else match c.decode(bytes)
      case None => []
      case Some((m, n)) => if 0 < n <= |bytes| then [m] + Parse(c, bytes[n..]) else []
  }

  /** Reading a chunk gives back exactly the messages serialized into it. */
  lemma {:induction false} ParseSerialize<M(!new)>(c: Codec<M>, msgs: seq<M>)
    requires Lawful(c)
    ensures Parse(c, Serialize(c, msgs)) == msgs
  {
    if msgs != [] {
      var rest := Serialize(c, msgs[1..]);
      var all := c.encode(msgs[0]) + rest;
      assert all[|c.encode(msgs[0])|..] == rest;
      ParseSerialize(c, msgs[1..]);
    }
  }

  /** A codec that delimits itself and encodes one message as no bytes has no other message. */
  lemma {:induction false} EmptyIsOnly<M(!new)>(c: Codec<M>, empty: M, m: M)
    requires SelfDelimiting(c) && c.encode(empty) == []
    ensures m == empty && c.encode(m) == []
  {
    assert c.encode(empty) + c.encode(m) == c.encode(m) == c.encode(m) + [];
  }

  lemma {:induction false} SerializeEmpty<M(!new)>(c: Codec<M>, msgs: seq<M>)
    requires SelfDelimiting(c) && !NonEmpty(c)
    ensures Serialize(c, msgs) == []
  {
    if msgs != [] {
      var empty :| c.encode(empty) == [];
      EmptyIsOnly(c, empty, msgs[0]);
      SerializeEmpty(c, msgs[1..]);
    }
  }

  /** Reading a chunk gives back what was serialized into it exactly when none of the messages is encoded as no
      bytes; if one is, all are, and none is read. */
  lemma {:induction false} ParseSerializeExactly<M(!new)>(c: Codec<M>, msgs: seq<M>)
    requires SelfDelimiting(c)
    ensures Parse(c, Serialize(c, msgs)) == msgs <==> forall i :: 0 <= i < |msgs| ==> c.encode(msgs[i]) != []
    ensures Parse(c, Serialize(c, msgs)) == msgs || Parse(c, Serialize(c, msgs)) == []
  {
    if NonEmpty(c) {
      ParseSerialize(c, msgs);
    } else {
      SerializeEmpty(c, msgs);
      if msgs != [] {
        var empty :| c.encode(empty) == [];
        EmptyIsOnly(c, empty, msgs[0]);
      }
    }
  }

  function Pack(z: Compressor, chunk: seq<u8>): (f: Frame)
  {
    var compressed := z.compress(chunk);
    if |compressed| >= |chunk| then Frame([0], chunk) else Frame([1], compressed)
  }

  function Unpack(z: Compressor, f: Frame): Option<seq<u8>>
    requires |f.tag| == 1
  {
    if f.tag[0] == 0 then Some(f.payload)
    else match z.announced(f.payload)
      case None => None
      case Some(len) => match z.decompress(f.payload)
        case None => None
        case Some(chunk) => if |chunk| == len <= MAX_LEN then Some(chunk) else None
  }

  /** A chunk fits in a frame even if it cannot be compressed, and is unpacked as it was. */
  lemma {:induction false} UnpackPack(z: Compressor, chunk: seq<u8>)
    requires Faithful(z) && |chunk| <= MAX_LEN
    ensures FrameOk(Pack(z, chunk), 1)
    ensures Unpack(z, Pack(z, chunk)) == Some(chunk)
  {
    assert Restores(z, chunk);
  }

  /** The frame of a chunk: compressed, and marked so, exactly when that is shorter. */
  lemma {:induction false} PackIsShortest(z: Compressor, chunk: seq<u8>)
    ensures |Pack(z, chunk).payload| == Min(|chunk|, |z.compress(chunk)|)
    ensures Pack(z, chunk).tag == [0] ==> Pack(z, chunk).payload == chunk
    ensures Pack(z, chunk).tag == [1] ==> Pack(z, chunk).payload == z.compress(chunk)
    ensures Pack(z, chunk).tag == if |z.compress(chunk)| < |chunk| then [1] else [0]
  {
  }

  /** The first byte of a frame decides: zero means that the payload is the chunk, whatever it is; anything else that it
      is to be decompressed, to a chunk of the length announced and no longer than a frame may be. */
  lemma {:induction false} TagDecides(z: Compressor, f: Frame, chunk: seq<u8>)
    requires |f.tag| == 1
    ensures f.tag[0] == 0 ==> Unpack(z, f) == Some(f.payload)
    ensures f.tag[0] != 0 ==>
              (Unpack(z, f) == Some(chunk) <==>
                 && z.announced(f.payload) == Some(|chunk|) && |chunk| <= MAX_LEN
                 && z.decompress(f.payload) == Some(chunk))
  {
  }

  function Flatten<T>(ss: seq<seq<T>>): seq<T> {
    if ss == [] then [] else Flatten(ss[..|ss| - 1]) + ss[|ss| - 1]
  }

  /** The messages in a sequence of frames; a frame that cannot be unpacked holds none. */
  function Messages<M>(c: Codec<M>, z: Compressor, fs: seq<Frame>): seq<M>
    requires FramesOk(fs, 1)
  {
    if fs == [] then []
    else
      Messages(c, z, fs[..|fs| - 1]) +
      match Unpack(z, fs[|fs| - 1])
      case None => []
      case Some(chunk) => Parse(c, chunk)
  }

  lemma {:induction false} MessagesPush<M>(c: Codec<M>, z: Compressor, fs: seq<Frame>, f: Frame, chunk: seq<u8>)
    requires FramesOk(fs, 1) && FrameOk(f, 1) && Unpack(z, f) == Some(chunk)
    ensures FramesOk(fs + [f], 1)
    ensures Messages(c, z, fs + [f]) == Messages(c, z, fs) + Parse(c, chunk)
  {
    assert (fs + [f])[..|fs|] == fs;
  }

  /** With nothing left of the last chunk, the next one takes up where the messages so far end. */
  lemma {:induction false} NextChunk<M>(c: Codec<M>, z: Compressor, delivered: seq<M>, rest: seq<u8>, fs: seq<Frame>,
                                        f: Frame, chunk: seq<u8>)
    requires FramesOk(fs, 1) && FrameOk(f, 1) && Unpack(z, f) == Some(chunk)
    requires rest == [] && delivered + Parse(c, rest) == Messages(c, z, fs)
    ensures FramesOk(fs + [f], 1)
    ensures delivered + Parse(c, chunk[0..]) == Messages(c, z, fs + [f])
  {
    MessagesPush(c, z, fs, f, chunk);
    assert chunk[0..] == chunk && delivered + Parse(c, rest) == delivered;
  }

  /** The frames are the packed serializations of the batches. */
  predicate PacksBatches<M>(c: Codec<M>, z: Compressor, fs: seq<Frame>, batches: seq<seq<M>>) {
    && |fs| == |batches|
    && forall i :: 0 <= i < |fs| ==>
         fs[i] == Pack(z, Serialize(c, batches[i])) && |Serialize(c, batches[i])| <= MAX_LEN
  }

  lemma {:induction false} MessagesOfBatches<M(!new)>(c: Codec<M>, z: Compressor, fs: seq<Frame>, batches: seq<seq<M>>)
    requires SelfDelimiting(c) && Faithful(z) && FramesOk(fs, 1) && PacksBatches(c, z, fs, batches)
    ensures Messages(c, z, fs) == if NonEmpty(c) then Flatten(batches) else []
  {
    if fs != [] {
      var n := |fs| - 1;
      MessagesOfBatches(c, z, fs[..n], batches[..n]);
      UnpackPack(z, Serialize(c, batches[n]));
      if NonEmpty(c) {
        ParseSerialize(c, batches[n]);
      } else {
        SerializeEmpty(c, batches[n]);
      }
    }
  }

  lemma {:induction false} FlattenPrefix<T>(ss: seq<seq<T>>, n: nat)
    requires n <= |ss|
    ensures Flatten(ss[..n]) <= Flatten(ss)
    decreases |ss|
  {
    if n < |ss| {
      FlattenPrefix(ss[..|ss| - 1], n);
      assert ss[..|ss| - 1][..n] == ss[..n];
    } else {
      assert ss[..n] == ss;
    }
  }

  // ----- The channel -----

  datatype Readiness = Ready | Pending | Failed

  class CompressedChannel<M(!new)> {
    const stream: ByteStream
    const reader: FrameReader
    const codec: Codec<M>
    const compressor: Compressor
    var sendChunk: seq<u8>
    var writeBuffer: seq<u8>
    var writePos: nat
    var recvChunk: seq<u8>
    var recvPos: nat
    /** Messages accepted, as those of the batches framed so far and those still in the chunk. */
    ghost var frames: seq<Frame>
    ghost var batches: seq<seq<M>>
    ghost var pending: seq<M>
    ghost var accepted: seq<M>
    ghost var delivered: seq<M>
    /** A frame could not be decompressed, and the chunk holds what that left. */
    ghost var garbled: bool

    ghost predicate WriteValid()
      reads this, stream
    {
      && BufferValid()
      && PacksBatches(codec, compressor, frames, batches)
      && accepted == Flatten(batches) + pending
      && sendChunk == Serialize(codec, pending) && |sendChunk| <= MAX_LEN
    }

    ghost predicate BufferValid()
      reads this, stream
    {
      && writePos <= |writeBuffer|
      && FramesOk(frames, 1)
      && stream.outgoing + writeBuffer[writePos..] == Encode(frames, 1)
    }

    ghost predicate ReadValid()
      reads this, stream, reader
    {
      && reader.stream == stream && reader.tagLen == 1 && reader.Valid()
      && (!garbled ==>
            && recvPos <= |recvChunk|
            && delivered + Parse(codec, recvChunk[recvPos..]) == Messages(codec, compressor, reader.got))
      && (garbled ==> reader.Full() && Unpack(compressor, NextFrame()) == None)
    }

    constructor (incoming: seq<u8>, codec: Codec<M>, compressor: Compressor)
      ensures WriteValid() && ReadValid()
      ensures accepted == [] && delivered == [] && !garbled
      ensures this.codec == codec && this.compressor == compressor
    {
      var s := new ByteStream(incoming);
      stream := s;
      reader := new FrameReader(s, 1);
      this.codec, this.compressor := codec, compressor;
      sendChunk, writeBuffer, writePos, recvChunk, recvPos := [], [], 0, [], 0;
      frames, batches, pending, accepted, delivered := [], [], [], [], [];
      garbled := false;
    }

    method PollFinishWrite() returns (ready: bool)
      requires BufferValid()
      modifies `writePos, stream`outgoing, stream`stalls
      ensures BufferValid()
      ensures ready <==> writePos == |writeBuffer|
      ensures stream.stalls == old(stream.stalls) + if ready then 0 else 1
      ensures old(stream.outgoing) <= stream.outgoing
    {
      while writePos < |writeBuffer|
        invariant BufferValid()
        invariant old(stream.outgoing) <= stream.outgoing
        invariant stream.stalls == old(stream.stalls)
        decreases |writeBuffer| - writePos
      {
        ghost var out := stream.outgoing;
        var n := stream.PollWrite(writeBuffer[writePos..]);
        if n == None {
          return false;
        }
        Moved(out, writeBuffer, writePos, n.value);
        writePos := writePos + n.value;
      }
      ready := true;
    }

    /** Frame the chunk, once the frame before it is out. */
    method PollWriteSendChunk() returns (ready: bool)
      requires WriteValid() && Faithful(compressor)
      modifies `sendChunk, `writeBuffer, `writePos, `frames, `batches, `pending, stream`outgoing, stream`stalls
      ensures WriteValid() && accepted == old(accepted)
      ensures ready <==> sendChunk == []
      ensures !ready ==> pending == old(pending) && batches == old(batches)
      ensures ready && old(sendChunk) != [] ==> pending == [] && batches == old(batches) + [old(pending)]
      ensures old(sendChunk) == [] ==> pending == old(pending) && batches == old(batches)
      ensures stream.stalls == old(stream.stalls) + if ready then 0 else 1
      ensures old(stream.outgoing) <= stream.outgoing
    {
      hide Encode, FramesOk, Flatten, Pack;
      if sendChunk != [] {
        ready := PollFinishWrite();
        if !ready {
          return;
        }
        FrameChunk();
        sendChunk := [];
        pending := [];
      }
      ready := true;
    }

    /** Put the frame of the chunk into the write buffer, which is empty or all written. */
    method FrameChunk()
      requires WriteValid() && Faithful(compressor) && writePos == |writeBuffer|
      modifies `writeBuffer, `writePos, `frames, `batches
      ensures BufferValid() && PacksBatches(codec, compressor, frames, batches)
      ensures batches == old(batches) + [pending] && Flatten(batches) == old(Flatten(batches)) + pending
    {
      PushFrame();
      BatchDone();
    }

    method PushFrame()
      requires BufferValid() && Faithful(compressor) && writePos == |writeBuffer| && |sendChunk| <= MAX_LEN
      modifies `writeBuffer, `writePos, `frames
      ensures BufferValid() && frames == old(frames) + [Pack(compressor, sendChunk)]
    {
      UnpackPack(compressor, sendChunk);
      EncodeOne(frames, Pack(compressor, sendChunk), 1);
      assert writeBuffer[writePos..] == [];
      FillBuffer();
      assert writeBuffer[writePos..] == writeBuffer;
      frames := frames + [Pack(compressor, sendChunk)];
    }

    method FillBuffer()
      requires Faithful(compressor) && |sendChunk| <= MAX_LEN
      modifies `writeBuffer, `writePos
      ensures FrameOk(Pack(compressor, sendChunk), 1)
      ensures writePos == 0 && writeBuffer == EncodeFrame(Pack(compressor, sendChunk))
    {
      writePos := 0;
      var compressed := compressor.compress(sendChunk);
      if |compressed| >= |sendChunk| {
        writeBuffer := EncodeFrame(Frame([0], sendChunk));
      } else {
        writeBuffer := EncodeFrame(Frame([1], compressed));
      }
    }

    /** The messages of the chunk become the last batch. */
    ghost method BatchDone()
      requires |frames| == |batches| + 1 && |sendChunk| <= MAX_LEN && sendChunk == Serialize(codec, pending)
      requires PacksBatches(codec, compressor, frames[..|batches|], batches)
      requires frames[|batches|] == Pack(compressor, sendChunk)
      modifies `batches
      ensures PacksBatches(codec, compressor, frames, batches)
      ensures batches == old(batches) + [pending] && Flatten(batches) == Flatten(old(batches)) + pending
    {
      assert (batches + [pending])[..|batches|] == batches;
      assert forall i :: 0 <= i < |batches| ==> frames[..|batches|][i] == frames[i];
      batches := batches + [pending];
    }

    /** Accept a message; one that is too long is refused, and while the chunk must wait nothing is added. */
    method PollSend(msg: M) returns (r: Readiness)
      requires WriteValid() && Faithful(compressor)
      modifies `sendChunk, `writeBuffer, `writePos, `frames, `batches, `pending, `accepted
      modifies stream`outgoing, stream`stalls
      ensures WriteValid()
      ensures r == Ready ==> accepted == old(accepted) + [msg]
      ensures r != Ready ==> accepted == old(accepted) && pending == old(pending)
      ensures r == Failed <==> |codec.encode(msg)| > MAX_LEN
      ensures stream.stalls == old(stream.stalls) + if r == Pending then 1 else 0
      ensures old(|sendChunk|) + |codec.encode(msg)| <= MAX_LEN ==>
                r == Ready && batches == old(batches) && stream.outgoing == old(stream.outgoing)
      ensures r == Ready && old(|sendChunk|) + |codec.encode(msg)| > MAX_LEN ==>
                batches == old(batches) + [old(pending)] && pending == [msg]
    {
      var bytes := codec.encode(msg);
      if |bytes| > MAX_LEN {
        return Failed;
      }
      if |sendChunk| + |bytes| > MAX_LEN {
        var ready := PollWriteSendChunk();
        if !ready {
          return Pending;
        }
      }
      Append(msg, bytes);
      r := Ready;
    }

    /** Serialize into the chunk, which has room. */
    method Append(msg: M, bytes: seq<u8>)
      requires WriteValid() && bytes == codec.encode(msg) && |sendChunk| + |bytes| <= MAX_LEN
      modifies `sendChunk, `pending, `accepted
      ensures WriteValid() && accepted == old(accepted) + [msg] && pending == old(pending) + [msg]
    {
      SerializeAppend(codec, pending, msg);
      sendChunk := sendChunk + bytes;
      pending := pending + [msg];
      accepted := accepted + [msg];
    }

    /** When a flush completes, every accepted message is in a frame that is entirely written. */
    method PollFlush() returns (ready: bool)
      requires WriteValid() && Faithful(compressor)
      modifies `sendChunk, `writeBuffer, `writePos, `frames, `batches, `pending, stream`outgoing, stream`stalls
      ensures WriteValid() && accepted == old(accepted)
      ensures stream.stalls == old(stream.stalls) + if ready then 0 else 1
      ensures ready ==> stream.outgoing == Encode(frames, 1) && Flushed(this)
      ensures ready && NonEmpty(codec) ==> accepted == Flatten(batches)
    {
      ready := PollWriteSendChunk();
      if ready {
        if NonEmpty(codec) {
          EmptyChunk(codec, pending);
        }
        ready := PollFinishWrite();
      }
    }

    /** Read frames until there is something to deserialize. A frame that cannot be decompressed stays in the read
        buffer, and the chunk is left with the length it announced and no telling what bytes. */
    method PollRecvReady() returns (r: Readiness)
      requires ReadValid()
      modifies `recvChunk, `recvPos, `garbled, reader, stream`incoming, stream`taken, stream`stalls
      ensures ReadValid() && delivered == old(delivered)
      ensures stream.stalls == old(stream.stalls) + if r == Pending then 1 else 0
      ensures r == Ready ==> recvPos < |recvChunk|
      ensures r == Pending ==> recvPos >= |recvChunk| && !reader.Full()
      ensures r == Failed ==> reader.Full() && Unpack(compressor, NextFrame()) == None
      ensures r == Failed && compressor.announced(NextFrame().payload).Some? ==>
                garbled && |recvChunk| == Min(compressor.announced(NextFrame().payload).value, MAX_LEN)
      ensures r != Failed || compressor.announced(NextFrame().payload) == None ==> garbled == old(garbled)
    {
      while true
        invariant ReadValid() && delivered == old(delivered)
        invariant garbled == old(garbled) && stream.stalls == old(stream.stalls)
        decreases |stream.incoming| + reader.readPos
      {
        if recvPos < |recvChunk| {
          return Ready;
        }
        var ready := reader.PollFrame();
        if !ready {
          return Pending;
        }
        var chunk := Unpack(compressor, NextFrame());
        if chunk == None {
          Garble();
          return Failed;
        }
        TakeChunk(chunk.value);
      }
    }

    /** What a failed decompression does to the chunk. */
    method Garble()
      requires ReadValid() && reader.Full() && Unpack(compressor, NextFrame()) == None
      modifies `recvChunk, `garbled
      ensures ReadValid()
      ensures compressor.announced(NextFrame().payload) == None ==>
                recvChunk == old(recvChunk) && garbled == old(garbled)
      ensures compressor.announced(NextFrame().payload).Some? ==>
                garbled && |recvChunk| == Min(compressor.announced(NextFrame().payload).value, MAX_LEN)
    {
      var len := compressor.announced(NextFrame().payload);
      if len.Some? {
        var left := Resize([], Min(len.value, MAX_LEN));
        var junk: seq<u8> :| |junk| == |left|;
        recvChunk := junk;
        garbled := true;
      }
    }

    /** The frame in the read buffer. */
    function NextFrame(): (f: Frame)
      reads this, reader
      requires reader.tagLen == 1 && reader.Full()
      ensures |f.tag| == 1
    {
      Frame(reader.readBuffer[..1], reader.readBuffer[3..])
    }

    /** Make the unpacked frame the chunk to read messages from. */
    method TakeChunk(chunk: seq<u8>)
      requires ReadValid() && reader.Full() && recvPos >= |recvChunk| && Unpack(compressor, NextFrame()) == Some(chunk)
      modifies `recvChunk, `recvPos, reader`readPos, reader`got
      ensures ReadValid() && recvPos == 0 && recvChunk == chunk && reader.readPos == 0
      ensures old(reader.readPos) >= 3
    {
      ghost var got := reader.got;
      assert !garbled;
      ghost var rest := recvChunk[recvPos..];
      var f := reader.TakeFrame();
      NextChunk(codec, compressor, delivered, rest, got, f, chunk);
      recvChunk := chunk;
      recvPos := 0;
    }

    /** Deserialize the next message of the chunk. One that consumes no bytes is handed on without moving past
        it, and does not count as delivered. */
    method RecvNext() returns (res: Option<M>)
      requires ReadValid() && recvPos < |recvChunk| && Bounded(codec)
      modifies `recvPos, `delivered
      ensures ReadValid() && recvPos >= old(recvPos)
      ensures res == None <==> codec.decode(recvChunk[old(recvPos)..]) == None
      ensures res.Some? ==>
                codec.decode(recvChunk[old(recvPos)..]) == Some((res.value, recvPos - old(recvPos)))
      ensures delivered == if res.Some? && recvPos > old(recvPos) then old(delivered) + [res.value] else old(delivered)
      ensures res == None ==> recvPos == old(recvPos)
    {
      var rest := recvChunk[recvPos..];
      match codec.decode(rest) {
        case None =>
          res := None;
        case Some((m, n)) =>
          HandOn(m, n);
          res := Some(m);
      }
    }

    method HandOn(m: M, n: nat)
      requires ReadValid() && recvPos < |recvChunk| && n <= |recvChunk| - recvPos
      requires codec.decode(recvChunk[recvPos..]) == Some((m, n))
      modifies `recvPos, `delivered
      ensures ReadValid() && recvPos == old(recvPos) + n
      ensures delivered == if n > 0 then old(delivered) + [m] else old(delivered)
    {
      ghost var rest := recvChunk[recvPos..];
      ParseStep(codec, rest, m, n);
      assert recvChunk[recvPos + n..] == rest[n..];
      recvPos := recvPos + n;
      if n > 0 {
        assert delivered + ([m] + Parse(codec, rest[n..])) == (delivered + [m]) + Parse(codec, rest[n..]);
        delivered := delivered + [m];
      }
    }
  }

  lemma {:induction false} ParseStep<M>(c: Codec<M>, bytes: seq<u8>, m: M, n: nat)
    requires bytes != [] && n <= |bytes| && c.decode(bytes) == Some((m, n))
    ensures n > 0 ==> Parse(c, bytes) == [m] + Parse(c, bytes[n..])
  {
  }

  /** No bytes in the chunk means no messages in it. */
  lemma {:induction false} EmptyChunk<M(!new)>(c: Codec<M>, msgs: seq<M>)
    requires NonEmpty(c)
    ensures Serialize(c, msgs) == [] ==> msgs == []
  {
    if msgs != [] {
      assert c.encode(msgs[0]) != [];
    }
  }

  // ----- Round trip -----

  /** Whatever the stream did with polls in between: if what one channel took is the beginning of what the other
      put out, the messages in the frames it has are the first of those accepted. */
  lemma {:induction false} FramesRoundTrip<M(!new)>(c: Codec<M>, z: Compressor, frames: seq<Frame>,
                                             batches: seq<seq<M>>, got: seq<Frame>,
                                 outgoing: seq<u8>, left: seq<u8>, taken: seq<u8>, partial: seq<u8>)
    requires SelfDelimiting(c) && Faithful(z) && FramesOk(frames, 1) && FramesOk(got, 1)
    requires PacksBatches(c, z, frames, batches)
    requires outgoing + left == Encode(frames, 1) && taken == Encode(got, 1) + partial && taken <= outgoing
    ensures got <= frames
    ensures Messages(c, z, got) <= Flatten(batches) && (!NonEmpty(c) ==> Messages(c, z, got) == [])
    ensures taken == outgoing && left == [] && partial == [] && NonEmpty(c) ==>
              Messages(c, z, got) == Flatten(batches)
  {
    assert Encode(got, 1) <= taken <= outgoing <= outgoing + left;
    FramesPrefix(got, frames, 1);
    MessagesOfBatches(c, z, got, batches[..|got|]);
    FlattenPrefix(batches, |got|);
    if taken == outgoing && left == [] && partial == [] {
      assert taken == Encode(got, 1) && outgoing == outgoing + left;
      FramesPrefix(frames, got, 1);
      assert batches[..|got|] == batches;
    }
  }

  /** The state a completed flush leaves. */
  ghost predicate Flushed<M(!new)>(tx: CompressedChannel<M>)
    reads tx
  {
    tx.sendChunk == [] && tx.writePos == |tx.writeBuffer|
  }

  /** The receiver has handed on all it holds and no part of a frame is in its buffer. */
  ghost predicate Waiting<M(!new)>(rx: CompressedChannel<M>)
    reads rx, rx.reader
  {
    rx.recvPos == |rx.recvChunk| && rx.reader.readPos == 0
  }

  /** Received messages are a prefix of the accepted ones. Once a flush has completed, its bytes have arrived, and the
      receiver waits for more, they are all of them exactly when none of those is encoded as no bytes: such messages
      are accepted, and none is ever received. */
  lemma {:induction false} ChannelRoundTrip<M(!new)>(tx: CompressedChannel<M>, rx: CompressedChannel<M>)
    requires tx.WriteValid() && rx.ReadValid() && rx.codec == tx.codec && rx.compressor == tx.compressor
    requires SelfDelimiting(tx.codec) && Faithful(tx.compressor)
    requires rx.stream.taken <= tx.stream.outgoing
    ensures !rx.garbled
    ensures rx.delivered <= tx.accepted
    ensures Flushed(tx) && rx.stream.taken == tx.stream.outgoing && Waiting(rx) ==>
              (rx.delivered == tx.accepted <==>
                 forall i :: 0 <= i < |tx.accepted| ==> tx.codec.encode(tx.accepted[i]) != [])
    ensures !NonEmpty(tx.codec) ==> rx.delivered == []
  {
    FramesRoundTrip(tx.codec, tx.compressor, tx.frames, tx.batches, rx.reader.got, tx.stream.outgoing,
                    tx.writeBuffer[tx.writePos..], rx.stream.taken, rx.reader.readBuffer[..rx.reader.readPos]);
    if rx.reader.Full() {
      NeverFails(tx, rx);
    }
    if NonEmpty(tx.codec) {
      EmptyChunk(tx.codec, tx.pending);
    } else if tx.accepted != [] {
      var empty :| tx.codec.encode(empty) == [];
      EmptyIsOnly(tx.codec, empty, tx.accepted[0]);
    }
  }

  /** With an honest sender the receiver never meets a frame it cannot unpack. */
  lemma {:induction false} NeverFails<M(!new)>(tx: CompressedChannel<M>, rx: CompressedChannel<M>)
    requires tx.WriteValid() && rx.ReadValid() && rx.compressor == tx.compressor && Faithful(tx.compressor)
    requires rx.stream.taken <= tx.stream.outgoing && rx.reader.Full()
    ensures Unpack(rx.compressor, rx.NextFrame()).Some?
  {
    var f := rx.NextFrame();
    var got := rx.reader.got + [f];
    EncodeOne(rx.reader.got, f, 1);
    Wire.U16RoundTrip(0, rx.reader.readBuffer[1..3]);
    assert EncodeFrame(f) == rx.reader.readBuffer == rx.reader.readBuffer[..rx.reader.readPos];
    assert Encode(got, 1) == rx.stream.taken <= tx.stream.outgoing + tx.writeBuffer[tx.writePos..];
    FramesPrefix(got, tx.frames, 1);
    var i := |rx.reader.got|;
    assert tx.frames[i] == got[i] == f;
    UnpackPack(tx.compressor, Serialize(tx.codec, tx.batches[i]));
  }
}
