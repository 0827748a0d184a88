/** The sensor node's fragmenting image sender: a payload of any length goes
    out as consecutive datagrams of at most 65000 bytes, followed by one empty
    datagram that marks the end of the message. An outbound socket is modelled
    as the sequence of datagrams sent on it so far. */
module Client {
  import opened Wire

  const MaxFragmentSize: nat := 65000

  /** The data fragments, in order, that carry `payload`: full 65000-byte
      slices and then whatever remains. */
  function Fragments(payload: seq<byte>): seq<Datagram>
    decreases |payload|
  {
    if |payload| == 0 then []
    else if |payload| <= MaxFragmentSize then [payload]
    else [payload[..MaxFragmentSize]] + Fragments(payload[MaxFragmentSize..])
  }

  /** `send_image_str_over_udp`: sends the fragments of `encodedString` on
      the socket whose sent datagrams so far are `sock`, then the empty
      terminator; returns the socket's datagrams afterwards. */
  method SendImageStrOverUdp(sock: seq<Datagram>, encodedString: seq<byte>) returns (sent: seq<Datagram>)
    ensures sent == sock + Fragments(encodedString) + [[]]
  {
    var n := |encodedString|;
    sent := sock;
    var x := 0;
    var a := if MaxFragmentSize < n then MaxFragmentSize else n;
    while x < n
      invariant 0 <= x <= n
      invariant a == if MaxFragmentSize < n - x then MaxFragmentSize else n - x
      invariant sent + Fragments(encodedString[x..]) == sock + Fragments(encodedString)
      decreases n - x
    {
      var rest := encodedString[x..];
      assert Fragments(rest) == [encodedString[x..x + a]] + Fragments(encodedString[x + a..]) by {
        if |rest| <= MaxFragmentSize {
          assert rest == encodedString[x..x + a];
          assert encodedString[x + a..] == [];
        } else {
          assert rest[..MaxFragmentSize] == encodedString[x..x + a];
          assert rest[MaxFragmentSize..] == encodedString[x + a..];
        }
      }
      sent := sent + [encodedString[x..x + a]];
      x := x + a;
      if x + a > n {
        a := n - x;
      }
    }
    sent := sent + [[]];
  }

  /** The fragments, concatenated in order, are exactly the payload. */
  lemma {:induction false} FlattenFragments(payload: seq<byte>)
    ensures Flatten(Fragments(payload)) == payload
    decreases |payload|
  {
    var fs := Fragments(payload);
    if |payload| == 0 {
    } else if |payload| <= MaxFragmentSize {
      assert fs[1..] == [];
    } else {
      assert fs[1..] == Fragments(payload[MaxFragmentSize..]);
      FlattenFragments(payload[MaxFragmentSize..]);
      assert payload[..MaxFragmentSize] + payload[MaxFragmentSize..] == payload;
    }
  }

  /** Every data fragment is non-empty, so it cannot be mistaken for the
      terminator, and holds at most 65000 bytes; all but the last hold
      exactly 65000. */
  lemma {:induction false} FragmentSizes(payload: seq<byte>)
    ensures forall i :: 0 <= i < |Fragments(payload)| ==>
      0 < |Fragments(payload)[i]| <= MaxFragmentSize
    ensures forall i :: 0 <= i < |Fragments(payload)| - 1 ==>
      |Fragments(payload)[i]| == MaxFragmentSize
    decreases |payload|
  {
    if |payload| > MaxFragmentSize {
      var fs := Fragments(payload);
      var tail := Fragments(payload[MaxFragmentSize..]);
      FragmentSizes(payload[MaxFragmentSize..]);
      assert fs == [payload[..MaxFragmentSize]] + tail;
      forall i | 1 <= i < |fs| ensures fs[i] == tail[i - 1] {
      }
    }
  }

  /** There are ceil(len / 65000) data fragments; none for an empty payload. */
  lemma {:induction false} FragmentCount(payload: seq<byte>)
    ensures |Fragments(payload)| == (|payload| + MaxFragmentSize - 1) / MaxFragmentSize
    decreases |payload|
  {
    if |payload| > MaxFragmentSize {
      FragmentCount(payload[MaxFragmentSize..]);
    }
  }

  /** Of everything one call sends, exactly one datagram is empty, and it is
      the last. */
  lemma TerminatorIsLastAndOnly(payload: seq<byte>)
    ensures var ds := Fragments(payload) + [[]];
      ds[|ds| - 1] == [] && forall i :: 0 <= i < |ds| - 1 ==> ds[i] != []
  {
    FragmentSizes(payload);
  }
}
