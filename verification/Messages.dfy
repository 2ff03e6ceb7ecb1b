/** Messages over a lossy network: the framing channels on top of two endpoints. What a channel put out is what its
    endpoint's application wrote, and what it took is what the application read. */
module Messages {
  import opened Prelude
  import opened Framing
  import B = BincodeChannel
  import Z = CompressedChannel
  import opened S = System
  import W = WireSystem
  import N = NoStall

  /** The bytes of the two channels are those of a's stream. */
  ghost predicate Carries(s: System, out: ByteStream, in_: ByteStream)
    reads out, in_
  {
    out.outgoing == s.a.written && in_.taken == s.b.delivered
  }

  /** In every state reached within the packet lifetime, whatever the network did: the messages handed on by one
      compressed channel are a prefix of those accepted by the other. If moreover the stream has drained, a flush
      has completed and the receiver waits for more, they are all of them exactly when none is encoded as no bytes. */
  lemma {:induction false} CompressedEndToEnd<M(!new)>(s0: System, c: Config, s: System,
                                                       tx: Z.CompressedChannel<M>, rx: Z.CompressedChannel<M>)
    requires Init(s0, c) && W.Sized(s0) && W.Reaches(s0, c, s, false) && Carries(s, tx.stream, rx.stream)
    requires tx.WriteValid() && rx.ReadValid() && rx.codec == tx.codec && rx.compressor == tx.compressor
    requires Z.SelfDelimiting(tx.codec) && Z.Faithful(tx.compressor)
    ensures !rx.garbled && rx.delivered <= tx.accepted
    ensures N.Drained(Forward(s)) && Z.Flushed(tx) && Z.Waiting(rx) ==>
              (rx.delivered == tx.accepted <==>
                 forall i :: 0 <= i < |tx.accepted| ==> tx.codec.encode(tx.accepted[i]) != [])
  {
    BytesArrive(s0, c, s);
    Z.ChannelRoundTrip(tx, rx);
  }

  /** The same of two plain channels, none of whose serializations has failed. */
  lemma {:induction false} BincodeEndToEnd<M(!new)>(s0: System, c: Config, s: System, codec: B.Codec<M>, msgs: seq<M>,
                                                    tx: B.BincodeChannel, rx: B.BincodeChannel)
    requires Init(s0, c) && W.Sized(s0) && W.Reaches(s0, c, s, false) && Carries(s, tx.stream, rx.stream)
    requires tx.WriteValid() && rx.ReadValid() && !tx.broken && B.Lawful(codec) && |tx.sent| == |msgs|
    requires forall i :: 0 <= i < |msgs| ==> tx.sent[i] == Frame([], codec.encode(msgs[i]))
    ensures |rx.reader.got| <= |msgs|
    ensures forall i :: 0 <= i < |rx.reader.got| ==> codec.decode(rx.reader.got[i].payload) == Some(msgs[i])
    ensures N.Drained(Forward(s)) && tx.writeBuffer == [] && rx.reader.readPos == 0 ==> |rx.reader.got| == |msgs|
  {
    BytesArrive(s0, c, s);
    B.ChannelRoundTrip(codec, msgs, tx, rx);
  }

  lemma {:induction false} BytesArrive(s0: System, c: Config, s: System)
    requires Init(s0, c) && W.Sized(s0) && W.Reaches(s0, c, s, false)
    ensures s.b.delivered <= s.a.written
  {
    InitInv(s0, c);
    W.ReachesKeepsInv(s0, c, s, false);
  }
}
