/** The replies of many workers on one connection, from the batches they encode to the stream that the client reads. */
module ReplyStream {
  import opened Bytes
  import opened TinyPBCodec
  import opened TinyPBNoise
  import opened TinyPBRoundTrip
  import SendPath
  import SendPathRuns

  function Flatten(batches: seq<seq<Message>>): seq<Message> {
    if batches == [] then [] else Flatten(batches[..|batches| - 1]) + batches[|batches| - 1]
  }

  /** Each send carries the encoding of its batch, as `OnMessage` hands it over. */
  predicate Carry(sends: seq<SendPath.Send>, batches: seq<seq<Message>>) {
    && |sends| == |batches|
    && forall k :: 0 <= k < |sends| ==> AllEncodable(batches[k]) && sends[k].data == EncodeAll(batches[k])
  }

  lemma EncodableBoth(a: seq<Message>, b: seq<Message>)
    requires AllEncodable(a) && AllEncodable(b)
    ensures AllEncodable(a + b)
  {
  }

  /** The bytes of a connection's sends are one encoding of all their batches. */
  lemma {:induction false} BytesAreOneBatch(c: nat, sends: seq<SendPath.Send>, batches: seq<seq<Message>>)
    requires Carry(sends, batches) && forall x :: x in sends ==> x.conn == c
    ensures AllEncodable(Flatten(batches)) && SendPath.BytesFor(c, sends) == EncodeAll(Flatten(batches))
  {
    hide EncodeAll, AllEncodable;
    if sends == [] {
      NoBatch();
    } else {
      var n := |sends| - 1;
      assert sends == sends[..n] + [sends[n]] && sends[n] in sends;
      BytesAreOneBatch(c, sends[..n], batches[..n]);
      SendPath.BytesForLast(c, sends[..n], sends[n]);
      EncodableBoth(Flatten(batches[..n]), batches[n]);
      EncodeAllAppend(Flatten(batches[..n]), batches[n]);
    }
  }

  lemma NoBatch()
    ensures AllEncodable([]) && EncodeAll([]) == []
  {
  }

  /** In every run in which no send on the IO thread overtakes, what the kernel took, the output buffer and what is
      still queued for a connection decode, together, to the replies of all its batches, in the order of the calls. */
  lemma ClientReadsAllReplies(n: nat, actions: seq<SendPath.Action>, c: nat, batches: seq<seq<Message>>)
    requires SendPath.CanRun(SendPath.Init(n), actions)
    requires SendPathRuns.NoneOvertakes(SendPath.Init(n), actions, c)
    requires c < |SendPath.Run(SendPath.Init(n), actions).conns|
    requires Carry(SendPathRuns.SendsFor(c, SendPath.Run(SendPath.Init(n), actions).called), batches)
    requires AllEncodable(Flatten(batches)) && AllInDomain(Flatten(batches))
    requires |EncodeAll(Flatten(batches))| <= INT32_MAX
    ensures var s := SendPath.Run(SendPath.Init(n), actions);
      ReturnedAs(Decode(s.conns[c].accepted + s.conns[c].out + SendPath.BytesFor(c, s.queue)), Flatten(batches))
  {
    hide SendPath.CanRun, SendPath.Run, SendPathRuns.NoneOvertakes, SendPath.BytesFor, SendPathRuns.SendsFor;
    hide Decode, EncodeAll, ReturnedAs;
    var s := SendPath.Run(SendPath.Init(n), actions);
    SendPathRuns.StreamInCallOrder(n, actions, c);
    SendPathRuns.BytesOfSends(c, s.called);
    SendPathRuns.SendsForSome(c, s.called);
    BytesAreOneBatch(c, SendPathRuns.SendsFor(c, s.called), batches);
    DecodeEncode(Flatten(batches));
  }
}
