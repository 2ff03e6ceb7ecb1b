/** Length-prefixed frames over the reliable byte stream, and the resumable reader of them. */
module Framing {
  import opened Prelude
  import Wire

  const MAX_LEN := 0xFFFF

  /** A frame is a tag of fixed length (empty, or one byte), a 16-bit length, and the payload. */
  datatype Frame = Frame(tag: seq<u8>, payload: seq<u8>)

  predicate FrameOk(f: Frame, tagLen: nat) {
    |f.tag| == tagLen && |f.payload| <= MAX_LEN
  }

  predicate FramesOk(fs: seq<Frame>, tagLen: nat) {
    forall i :: 0 <= i < |fs| ==> FrameOk(fs[i], tagLen)
  }

  function EncodeFrame(f: Frame): (b: seq<u8>)
    requires |f.payload| <= MAX_LEN
    ensures |b| == |f.tag| + 2 + |f.payload|
  {
    f.tag + Wire.PutU16(|f.payload|) + f.payload
  }

  /** A frame on the stream: the tag, the length in two bytes, the lower first, the payload. */
  lemma {:induction false} FrameLayout(f: Frame)
    requires |f.payload| <= MAX_LEN
    ensures var b, n := EncodeFrame(f), |f.tag|;
            && |b| == n + 2 + |f.payload| && b[..n] == f.tag && b[n + 2..] == f.payload
            && b[n] == |f.payload| % 0x100 && b[n + 1] == |f.payload| / 0x100
  {
  }

  function Encode(fs: seq<Frame>, tagLen: nat): seq<u8>
    requires FramesOk(fs, tagLen)
  {
    if fs == [] then [] else EncodeFrame(fs[0]) + Encode(fs[1..], tagLen)
  }

  lemma {:induction false} EncodeAppend(a: seq<Frame>, b: seq<Frame>, tagLen: nat)
    requires FramesOk(a, tagLen) && FramesOk(b, tagLen)
    ensures FramesOk(a + b, tagLen)
    ensures Encode(a + b, tagLen) == Encode(a, tagLen) + Encode(b, tagLen)
  {
    hide EncodeFrame, FrameOk;
    if a == [] {
      assert a + b == b;
    } else {
      assert (a + b)[0] == a[0] && (a + b)[1..] == a[1..] + b;
      EncodeAppend(a[1..], b, tagLen);
    }
  }

  lemma {:induction false} EncodeOne(a: seq<Frame>, f: Frame, tagLen: nat)
    requires FramesOk(a, tagLen) && FrameOk(f, tagLen)
    ensures FramesOk(a + [f], tagLen)
    ensures Encode(a + [f], tagLen) == Encode(a, tagLen) + EncodeFrame(f)
  {
    EncodeAppend(a, [f], tagLen);
    assert Encode([f], tagLen) == EncodeFrame(f) + Encode([], tagLen);
  }

  /** Two streams that begin alike begin with the same frame. */
  lemma {:induction false} SameFirst(f: Frame, g: Frame, a: seq<u8>, b: seq<u8>, tagLen: nat)
    requires FrameOk(f, tagLen) && FrameOk(g, tagLen)
    requires EncodeFrame(f) + a <= EncodeFrame(g) + b
    ensures f == g && a <= b
  {
    var x, y := EncodeFrame(f) + a, EncodeFrame(g) + b;
    assert x[..tagLen] == f.tag && y[..tagLen] == g.tag;
    assert x[..tagLen] == y[..tagLen];
    assert x[tagLen..tagLen + 2] == Wire.PutU16(|f.payload|) && y[tagLen..tagLen + 2] == Wire.PutU16(|g.payload|);
    assert x[tagLen..tagLen + 2] == y[tagLen..tagLen + 2];
    Wire.U16RoundTrip(|f.payload|, x[tagLen..tagLen + 2]);
    Wire.U16RoundTrip(|g.payload|, y[tagLen..tagLen + 2]);
    var n := tagLen + 2 + |f.payload|;
    assert x[tagLen + 2..n] == f.payload && y[tagLen + 2..n] == g.payload;
    assert x[tagLen + 2..n] == y[tagLen + 2..n];
    assert x[n..] == a && y[n..] == b;
  }

  /** Frames are read back from a stream in one way only: if the encoding of some frames begins a stream of
      frames, then they are the first of them. */
  lemma {:induction false} FramesPrefix(fs: seq<Frame>, gs: seq<Frame>, tagLen: nat)
    requires FramesOk(fs, tagLen) && FramesOk(gs, tagLen)
    requires Encode(fs, tagLen) <= Encode(gs, tagLen)
    ensures fs <= gs
  {
    if fs != [] && gs != [] {
      SameFirst(fs[0], gs[0], Encode(fs[1..], tagLen), Encode(gs[1..], tagLen), tagLen);
      FramesPrefix(fs[1..], gs[1..], tagLen);
      assert fs == [fs[0]] + fs[1..] && gs == [gs[0]] + gs[1..];
    }
  }

  function Resize(s: seq<u8>, n: nat): (r: seq<u8>)
    ensures |r| == n
    ensures forall i :: 0 <= i < n && i < |s| ==> r[i] == s[i]
  {
    if n <= |s| then s[..n] else s + seq(n - |s|, _ => 0)
  }

  /** The byte stream as a framing channel sees it: every poll either is pending or moves at least one byte,
      and how many is not up to the channel. */
  class ByteStream {
    var outgoing: seq<u8>
    var incoming: seq<u8>
    /** All bytes read so far. */
    ghost var taken: seq<u8>
    /** How many polls were answered pending. */
    ghost var stalls: nat

    constructor (incoming: seq<u8>)
      ensures outgoing == [] && taken == [] && this.incoming == incoming
    {
      outgoing, this.incoming := [], incoming;
      taken, stalls := [], 0;
    }

    /** None is pending. */
    method PollWrite(data: seq<u8>) returns (n: Option<nat>)
      modifies `outgoing, `stalls
      ensures stalls == old(stalls) + if n == None then 1 else 0
      ensures n == None ==> data != [] && outgoing == old(outgoing)
      ensures n.Some? ==> n.value <= |data| && (data != [] ==> 0 < n.value)
      ensures n.Some? ==> outgoing == old(outgoing) + data[..n.value]
    {
      if data == [] {
        return Some(0);
      }
      var len :| 0 <= len <= |data|;
      if len == 0 {
        stalls := stalls + 1;
        return None;
      }
      outgoing := outgoing + data[..len];
      n := Some(len);
    }

    method PollRead(len: nat) returns (data: Option<seq<u8>>)
      modifies `incoming, `taken, `stalls
      ensures stalls == old(stalls) + if data == None then 1 else 0
      ensures taken + incoming == old(taken + incoming)
      ensures data == None ==> len > 0 && taken == old(taken)
      ensures data.Some? ==> |data.value| <= len && (len > 0 ==> data.value != []) && taken == old(taken) + data.value
      ensures |incoming| == |old(incoming)| - if data.Some? then |data.value| else 0
    {
      if len == 0 {
        return Some([]);
      }
      var n :| 0 <= n <= len && n <= |incoming|;
      if n == 0 {
        stalls := stalls + 1;
        return None;
      }
      data := Some(incoming[..n]);
      taken := taken + incoming[..n];
      assert incoming == incoming[..n] + incoming[n..];
      incoming := incoming[n..];
    }
  }

  /** Bytes of `buffer` from `pos` on that went out are no longer left. */
  lemma {:induction false} Moved(out: seq<u8>, buffer: seq<u8>, pos: nat, n: nat)
    requires pos + n <= |buffer|
    ensures out + buffer[pos..][..n] + buffer[pos + n..] == out + buffer[pos..]
  {
    assert buffer[pos..] == buffer[pos..][..n] + buffer[pos + n..];
  }

  /** The read half of a framing channel: a buffer filled from the stream over as many polls as it takes. */
  class FrameReader {
    const stream: ByteStream
    const tagLen: nat
    var readBuffer: seq<u8>
    var readPos: nat
    /** The frames handed on so far. */
    ghost var got: seq<Frame>

    ghost predicate Valid()
      reads this, stream
    {
      && readPos <= |readBuffer|
      && FramesOk(got, tagLen)
      && stream.taken == Encode(got, tagLen) + readBuffer[..readPos]
      && (tagLen + 2 <= readPos ==>
            || |readBuffer| == tagLen + 2
            || |readBuffer| == tagLen + 2 + Wire.GetU16(readBuffer[tagLen..tagLen + 2]))
    }

    /** The buffer holds one whole frame. */
    ghost predicate Full()
      reads this
    {
      && tagLen + 2 <= readPos == |readBuffer|
      && |readBuffer| == tagLen + 2 + Wire.GetU16(readBuffer[tagLen..tagLen + 2])
    }

    constructor (stream: ByteStream, tagLen: nat)
      requires stream.taken == []
      ensures Valid() && got == [] && readPos == 0 && this.stream == stream && this.tagLen == tagLen
    {
      this.stream := stream;
      this.tagLen := tagLen;
      readBuffer, readPos, got := [], 0, [];
    }

    method PollFinishRead() returns (ready: bool)
      requires readPos <= |readBuffer|
      modifies `readBuffer, `readPos, stream`incoming, stream`taken, stream`stalls
      ensures old(readPos) <= readPos <= |readBuffer| == |old(readBuffer)|
      ensures readBuffer[..old(readPos)] == old(readBuffer[..readPos])
      ensures stream.taken == old(stream.taken) + readBuffer[old(readPos)..readPos]
      ensures |stream.incoming| + readPos == old(|stream.incoming| + readPos)
      ensures ready <==> readPos == |readBuffer|
      ensures stream.stalls == old(stream.stalls) + if ready then 0 else 1
    {
      while readPos < |readBuffer|
        invariant old(readPos) <= readPos <= |readBuffer| == |old(readBuffer)|
        invariant readBuffer[..old(readPos)] == old(readBuffer[..readPos])
        invariant stream.taken == old(stream.taken) + readBuffer[old(readPos)..readPos]
        invariant |stream.incoming| + readPos == old(|stream.incoming| + readPos)
        invariant stream.stalls == old(stream.stalls)
      {
        var data := stream.PollRead(|readBuffer| - readPos);
        if data == None {
          return false;
        }
        readBuffer := readBuffer[..readPos] + data.value + readBuffer[readPos + |data.value|..];
        readPos := readPos + |data.value|;
      }
      ready := true;
    }

    /** Read on towards one whole frame, from wherever the last poll left off. */
    method PollFrame() returns (ready: bool)
      requires Valid()
      modifies `readBuffer, `readPos, stream`incoming, stream`taken, stream`stalls
      ensures Valid() && (ready <==> Full())
      ensures stream.stalls == old(stream.stalls) + if ready then 0 else 1
      ensures |stream.incoming| + readPos == old(|stream.incoming| + readPos)
      ensures old(Full()) ==> readBuffer == old(readBuffer) && readPos == old(readPos)
    {
      if readPos < tagLen + 2 {
        ready := FillTo(tagLen + 2);
        if !ready {
          return;
        }
      }
      var len := Wire.GetU16(readBuffer[tagLen..tagLen + 2]);
      ready := FillTo(tagLen + 2 + len);
    }

    /** Make the buffer `n` bytes long and read on. */
    method FillTo(n: nat) returns (ready: bool)
      requires readPos <= n && readPos <= |readBuffer|
      requires FramesOk(got, tagLen) && stream.taken == Encode(got, tagLen) + readBuffer[..readPos]
      modifies `readBuffer, `readPos, stream`incoming, stream`taken, stream`stalls
      ensures old(readPos) <= readPos <= |readBuffer| == n
      ensures readBuffer[..old(readPos)] == old(readBuffer[..readPos])
      ensures stream.taken == Encode(got, tagLen) + readBuffer[..readPos]
      ensures |stream.incoming| + readPos == old(|stream.incoming| + readPos)
      ensures ready <==> readPos == n
      ensures stream.stalls == old(stream.stalls) + if ready then 0 else 1
      ensures old(readPos == |readBuffer| == n) ==> readBuffer == old(readBuffer)
    {
      hide Encode, FramesOk;
      ghost var kept := readBuffer[..readPos];
      readBuffer := Resize(readBuffer, n);
      assert readBuffer[..readPos] == kept;
      ready := PollFinishRead();
      assert readBuffer[..readPos] == kept + readBuffer[old(readPos)..readPos];
    }

    /** Hand on the frame in the buffer. */
    method TakeFrame() returns (f: Frame)
      requires Valid() && Full()
      modifies `readPos, `got
      ensures Valid() && readPos == 0
      ensures got == old(got) + [f] && FrameOk(f, tagLen)
      ensures f == Frame(readBuffer[..tagLen], readBuffer[tagLen + 2..])
      ensures old(readPos) >= tagLen + 2
    {
      var header := tagLen + 2;
      f := Frame(readBuffer[..tagLen], readBuffer[header..]);
      Wire.U16RoundTrip(0, readBuffer[tagLen..header]);
      EncodeOne(got, f, tagLen);
      assert EncodeFrame(f) == readBuffer;
      got := got + [f];
      readPos := 0;
    }
  }
}
