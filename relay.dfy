/** Properties of the whole relay, across the sensor node and the head unit:
    what the head unit publishes is what the sensor node sent. */
module Relay {
  import opened Wire
  import Client
  import Driver
  import Server
  import App

  /** Receiving, datagram by datagram, everything one call of the fragmenting
      sender emits rebuilds the ASCII payload and stops at its terminator,
      leaving later datagrams for the next message. Every fragment fits the
      receive buffer, so none is truncated. */
  lemma {:induction false} ImageRoundTrip(payload: seq<byte>, later: seq<Datagram>)
    requires IsAscii(payload)
    ensures Server.Reassemble(Client.Fragments(payload) + [[]] + later) ==
      Server.Complete(Text(payload), |Client.Fragments(payload)| + 1)
    decreases |payload|
  {
    var ds := Client.Fragments(payload) + [[]] + later;
    if |payload| == 0 {
      assert ds == [[]] + later;
    } else if |payload| <= Client.MaxFragmentSize {
      assert ds == [payload] + ([[]] + later);
      assert ds[1..] == [[]] + later;
      assert Text(payload) + "" == Text(payload);
    } else {
      var head := payload[..Client.MaxFragmentSize];
      var tail := payload[Client.MaxFragmentSize..];
      assert payload == head + tail;
      AsciiAppend(head, tail);
      assert ds == [head] + (Client.Fragments(tail) + [[]] + later);
      assert ds[1..] == Client.Fragments(tail) + [[]] + later;
      ImageRoundTrip(tail, later);
      TextAppend(head, tail);
    }
  }

  /** A base64 payload (ASCII, length a multiple of 4) sent by the sensor
      node's main loop is published by the head unit's image worker
      unchanged: reassembly rebuilds it and padding adds nothing. */
  lemma Base64ImagePublished(payload: seq<byte>, later: seq<Datagram>)
    requires IsAscii(payload) && |payload| % 4 == 0
    ensures Server.Reassemble(Client.Fragments(payload) + [[]] + later).Complete?
    ensures Server.Pad(Server.Reassemble(Client.Fragments(payload) + [[]] + later).message) == Text(payload)
  {
    ImageRoundTrip(payload, later);
    assert Server.Pad(Text(payload)) == Text(payload) + [];
  }

  /** The head-unit update the brake receiver sends for a datagram, once
      received and stored by the distance worker, is read back by the status
      route as the decoded distance. */
  lemma DistanceRelay(datagram: Datagram, classes: seq<string>, probs: seq<real>)
    requires Driver.BrakeIteration(datagram, classes, probs).Success?
    ensures var it := Driver.BrakeIteration(datagram, classes, probs).value;
      App.BrakeData(Server.Raw(Received(it.headUnitPacket, Server.DistBufferSize))) ==
        Some(App.BrakeStatus(it.distance, true))
  {
  }

  /** Before anything is received, the status route reports the sentinel
      distance. */
  lemma SentinelStatus()
    ensures App.BrakeData(Server.Number(Server.NoDistanceYet)) == Some(App.BrakeStatus(-1, true))
  {
  }
}
