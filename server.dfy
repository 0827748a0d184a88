/** The head unit's ingest side: the image worker reassembles each message
    from datagrams until an empty one arrives, pads it for base64 and
    publishes it; the distance worker publishes each datagram as it comes;
    and the two last-write-wins cells the status routes read. An inbound
    socket is modelled as the sequence of datagrams that arrive on it. */
module Server {
  import opened Wire

  /** Bytes read per `recvfrom` on the image socket. */
  const ImageBufferSize: nat := 72000

  /** Bytes read per `recvfrom` on the distance socket. */
  const DistBufferSize: nat := 1024

  /** The image cell's value before any image has been received. */
  const NoImageYet: string := "NO IMAGE YET"

  /** The distance cell's value before any distance has been received. */
  const NoDistanceYet: int := -1

  /** The distance cell holds the int sentinel at first and afterwards the
      raw bytes of the latest distance datagram. */
  datatype DistValue = Number(n: int) | Raw(data: Datagram)

  /** Outcome of reading one image message from the datagrams that arrive:
      the message and how many datagrams it used (the terminator included);
      no terminator among them (the worker waits forever); or a datagram that
      is not ASCII, after `consumed` datagrams, which ends the worker. */
  datatype Reassembly =
    | Complete(message: string, consumed: nat)
    | Unterminated
    | DecodeFailed(consumed: nat)

  /** What the image worker's `recvfrom(72000)` returns for a datagram. */
  function ImageData(d: Datagram): Datagram
  {
    Received(d, ImageBufferSize)
  }

  /** Concatenation of what the image worker receives from `ds`. */
  function ImagePayload(ds: seq<Datagram>): seq<byte>
  {
    if ds == [] then [] else ImageData(ds[0]) + ImagePayload(ds[1..])
  }

  /** A reassembly of later datagrams, seen from `n` datagrams earlier whose
      text was `prefix`. */
  function Resume(prefix: string, n: nat, rest: Reassembly): Reassembly
  {
    match rest
    case Complete(m, k) => Complete(prefix + m, n + k)
    case Unterminated => Unterminated
    case DecodeFailed(k) => DecodeFailed(n + k)
  }

  /** The message the image worker's inner loop builds from the datagrams
      `ds`, starting from the empty string. */
  function Reassemble(ds: seq<Datagram>): (r: Reassembly)
    ensures r.Complete? ==> 1 <= r.consumed <= |ds|
    ensures r.DecodeFailed? ==> 1 <= r.consumed <= |ds|
    decreases |ds|
  {
    if ds == [] then Unterminated
    else
      var data := ImageData(ds[0]);
      if |data| == 0 then Complete("", 1)
      else if !IsAscii(data) then DecodeFailed(1)
      else Resume(Text(data), 1, Reassemble(ds[1..]))
  }

  /** The inner loop of `rcv_image_worker`: concatenate the decoded
      datagrams until an empty one arrives. */
  method ReceiveMessage(inbox: seq<Datagram>) returns (r: Reassembly)
    ensures r == Reassemble(inbox)
  {
    var mess: string := "";
    var i := 0;
    while i < |inbox|
      invariant 0 <= i <= |inbox|
      invariant Reassemble(inbox) == Resume(mess, i, Reassemble(inbox[i..]))
      decreases |inbox| - i
    {
      var data := ImageData(inbox[i]);
      assert inbox[i..][1..] == inbox[i + 1..];
      if |data| != 0 {
        if !IsAscii(data) {
          return DecodeFailed(i + 1);
        }
        mess := mess + Text(data);
        i := i + 1;
      } else {
        assert mess + "" == mess;
        return Complete(mess, i + 1);
      }
    }
    assert inbox[i..] == [];
    r := Unterminated;
  }

  /** If the k-th datagram is the first empty one and all before it are
      ASCII, the message is their concatenation and uses k datagrams. */
  lemma {:induction false} ReassembleComplete(ds: seq<Datagram>, k: nat)
    requires 1 <= k <= |ds| && ds[k - 1] == []
    requires forall j :: 0 <= j < k - 1 ==> ds[j] != [] && IsAscii(ImageData(ds[j]))
    ensures Reassemble(ds) == Complete(Text(ImagePayload(ds[..k - 1])), k)
    decreases k
  {
    if k > 1 {
      var data := ImageData(ds[0]);
      assert ds[0] != [] && IsAscii(data);
      assert ds[1..][k - 2] == ds[k - 1];
      ReassembleComplete(ds[1..], k - 1);
      assert ds[..k - 1] == [ds[0]] + ds[1..][..k - 2];
      assert ([ds[0]] + ds[1..][..k - 2])[1..] == ds[1..][..k - 2];
      TextAppend(data, ImagePayload(ds[1..][..k - 2]));
    }
  }

  /** Conversely, a completed message ends at the first empty datagram, all
      before it are non-empty ASCII, and the message is their concatenation. */
  lemma {:induction false} CompleteReassembly(ds: seq<Datagram>, m: string, k: nat)
    requires Reassemble(ds) == Complete(m, k)
    ensures 1 <= k <= |ds| && ds[k - 1] == []
    ensures forall j :: 0 <= j < k - 1 ==> ds[j] != [] && IsAscii(ImageData(ds[j]))
    ensures m == Text(ImagePayload(ds[..k - 1]))
    decreases |ds|
  {
    var data := ImageData(ds[0]);
    if |data| != 0 {
      var rest := Reassemble(ds[1..]);
      assert rest.Complete?;
      CompleteReassembly(ds[1..], rest.message, rest.consumed);
      assert ds[..k - 1] == [ds[0]] + ds[1..][..k - 2];
      assert ([ds[0]] + ds[1..][..k - 2])[1..] == ds[1..][..k - 2];
      TextAppend(data, ImagePayload(ds[1..][..k - 2]));
      forall j | 1 <= j < k - 1 ensures ds[j] != [] && IsAscii(ImageData(ds[j])) {
        assert ds[j] == ds[1..][j - 1];
      }
    }
  }

  /** A failed decode is caused by the first non-ASCII datagram before any
      empty one. */
  lemma {:induction false} DecodeFailure(ds: seq<Datagram>, k: nat)
    requires Reassemble(ds) == DecodeFailed(k)
    ensures 1 <= k <= |ds| && ds[k - 1] != [] && !IsAscii(ImageData(ds[k - 1]))
    ensures forall j :: 0 <= j < k - 1 ==> ds[j] != [] && IsAscii(ImageData(ds[j]))
    decreases |ds|
  {
    var data := ImageData(ds[0]);
    if |data| != 0 && IsAscii(data) {
      var rest := Reassemble(ds[1..]);
      assert rest.DecodeFailed?;
      DecodeFailure(ds[1..], rest.consumed);
      forall j | 1 <= j < k - 1 ensures ds[j] != [] && IsAscii(ImageData(ds[j])) {
        assert ds[j] == ds[1..][j - 1];
      }
    }
  }

  /** Conversely, a non-ASCII datagram that arrives before any empty one,
      after only non-empty ASCII ones, makes the reassembly fail there. */
  lemma {:induction false} FailedDecode(ds: seq<Datagram>, k: nat)
    requires 1 <= k <= |ds| && ds[k - 1] != [] && !IsAscii(ImageData(ds[k - 1]))
    requires forall j :: 0 <= j < k - 1 ==> ds[j] != [] && IsAscii(ImageData(ds[j]))
    ensures Reassemble(ds) == DecodeFailed(k)
    decreases k
  {
    if k > 1 {
      assert ds[0] != [] && IsAscii(ImageData(ds[0]));
      forall j | 0 <= j < k - 2 ensures ds[1..][j] != [] && IsAscii(ImageData(ds[1..][j])) {
        assert ds[1..][j] == ds[j + 1];
      }
      assert ds[1..][k - 2] == ds[k - 1];
      FailedDecode(ds[1..], k - 1);
    }
  }

  /** The worker is left waiting exactly when every datagram that arrives is
      non-empty ASCII: no terminator and nothing that fails to decode. */
  lemma {:induction false} UnterminatedReassembly(ds: seq<Datagram>)
    ensures Reassemble(ds) == Unterminated <==>
      forall j :: 0 <= j < |ds| ==> ds[j] != [] && IsAscii(ImageData(ds[j]))
    decreases |ds|
  {
    if ds != [] {
      UnterminatedReassembly(ds[1..]);
      var data := ImageData(ds[0]);
      if |data| != 0 && IsAscii(data) {
        if forall j :: 0 <= j < |ds[1..]| ==> ds[1..][j] != [] && IsAscii(ImageData(ds[1..][j])) {
          forall j | 0 <= j < |ds| ensures ds[j] != [] && IsAscii(ImageData(ds[j])) {
            if j > 0 {
              assert ds[j] == ds[1..][j - 1];
            }
          }
        } else {
          var j :| 0 <= j < |ds[1..]| && !(ds[1..][j] != [] && IsAscii(ImageData(ds[1..][j])));
          assert ds[j + 1] == ds[1..][j];
        }
      } else {
        assert !(ds[0] != [] && IsAscii(ImageData(ds[0])));
      }
    }
  }

  /** How many '=' the image worker appends: the unique count below 4 that
      makes the length a multiple of 4, so none when it already is one. */
  function PaddingLength(len: nat): (n: nat)
    ensures n < 4 && (len + n) % 4 == 0
    ensures len % 4 == 0 ==> n == 0
  {
    (4 - len % 4) % 4
  }

  /** The message with its base64 padding. */
  function Pad(mess: string): (padded: string)
    ensures mess <= padded && |padded| % 4 == 0 && |padded| < |mess| + 4
    ensures forall i :: |mess| <= i < |padded| ==> padded[i] == '='
  {
    mess + seq(PaddingLength(|mess|), _ => '=')
  }

  /** Padding twice pads no more than once. */
  lemma PadIdempotent(mess: string)
    ensures Pad(Pad(mess)) == Pad(mess)
  {
    assert Pad(Pad(mess)) == Pad(mess) + [];
  }

  /** The fragments "AAAA", "BB" and the terminator publish "AAAABB==". */
  lemma PaddedExample()
    ensures var ds: seq<Datagram> := [[65, 65, 65, 65], [66, 66], []];
      Reassemble(ds) == Complete("AAAABB", 3) && Pad("AAAABB") == "AAAABB=="
  {
    var ds: seq<Datagram> := [[65, 65, 65, 65], [66, 66], []];
    assert ds[1..] == [[66, 66], []];
    assert ds[1..][1..] == [[]];
    assert Text([65, 65, 65, 65]) == "AAAA";
    assert Text([66, 66]) == "BB";
  }

  datatype WorkerStep = Published | NoData | WorkerStopped

  /** The head unit's two cells (`last_rcv_msg`, `last_rcv_dist`) and its two
      inbound sockets. `imageWorkerRunning` is false once the image worker
      has died of a decoding exception. */
  class HeadUnit {
    var lastRcvMsg: string
    var lastRcvDist: DistValue
    var imageSocket: seq<Datagram>
    var distSocket: seq<Datagram>
    var imageWorkerRunning: bool

    constructor (imageArrivals: seq<Datagram>, distArrivals: seq<Datagram>)
      ensures lastRcvMsg == NoImageYet && lastRcvDist == Number(NoDistanceYet)
      ensures imageSocket == imageArrivals && distSocket == distArrivals
      ensures imageWorkerRunning
    {
      lastRcvMsg := NoImageYet;
      lastRcvDist := Number(NoDistanceYet);
      imageSocket := imageArrivals;
      distSocket := distArrivals;
      imageWorkerRunning := true;
    }

    /** `update_rcv_msg`: the image cell now holds `newMsg`; the distance
        cell is outside the frame and keeps its value. */
    method UpdateRcvMsg(newMsg: string)
      modifies this`lastRcvMsg
      ensures lastRcvMsg == newMsg
    {
      lastRcvMsg := newMsg;
    }

    /** `get_rcv_msg`: the latest value written, or the sentinel. */
    method GetRcvMsg() returns (msg: string)
      ensures msg == lastRcvMsg
    {
      msg := lastRcvMsg;
    }

    /** `update_rcv_dist`: the distance cell now holds `newDist`; the image
        cell is outside the frame and keeps its value. */
    method UpdateRcvDist(newDist: DistValue)
      modifies this`lastRcvDist
      ensures lastRcvDist == newDist
    {
      lastRcvDist := newDist;
    }

    /** `get_rcv_dist`: the latest value written, or the sentinel. */
    method GetRcvDist() returns (dist: DistValue)
      ensures dist == lastRcvDist
    {
      dist := lastRcvDist;
    }

    /** One pass of `rcv_image_worker`'s outer loop: reassemble a message,
        pad it and publish it. Without a terminator among the arrivals the
        worker blocks and nothing changes; a non-ASCII datagram ends the
        worker after consuming the datagrams up to it. */
    method RcvImageStep() returns (outcome: WorkerStep)
      modifies this`lastRcvMsg, this`imageSocket, this`imageWorkerRunning
      ensures !old(imageWorkerRunning) ==> outcome == WorkerStopped && unchanged(this)
      ensures old(imageWorkerRunning) ==>
        match Reassemble(old(imageSocket))
        case Complete(m, k) =>
          outcome == Published && lastRcvMsg == Pad(m) &&
          imageSocket == old(imageSocket)[k..] && imageWorkerRunning
        case Unterminated =>
          outcome == NoData && unchanged(this)
        case DecodeFailed(k) =>
          outcome == WorkerStopped && lastRcvMsg == old(lastRcvMsg) &&
          imageSocket == old(imageSocket)[k..] && !imageWorkerRunning
    {
      if !imageWorkerRunning {
        return WorkerStopped;
      }
      var r := ReceiveMessage(imageSocket);
      match r
      case Complete(mess, k) =>
        imageSocket := imageSocket[k..];
        var padded := Pad(mess);
        UpdateRcvMsg(padded);
        outcome := Published;
      case Unterminated =>
        outcome := NoData;
      case DecodeFailed(k) =>
        imageSocket := imageSocket[k..];
        imageWorkerRunning := false;
        outcome := WorkerStopped;
    }

    /** One pass of `rcv_dist_worker`'s loop: the received bytes are stored
        as they are, without decoding. */
    method RcvDistStep() returns (outcome: WorkerStep)
      modifies this`lastRcvDist, this`distSocket
      ensures old(distSocket) == [] ==> outcome == NoData && unchanged(this)
      ensures old(distSocket) != [] ==>
        outcome == Published && distSocket == old(distSocket)[1..] &&
        lastRcvDist == Raw(Received(old(distSocket)[0], DistBufferSize))
    {
      if distSocket == [] {
        return NoData;
      }
      var dist := Received(distSocket[0], DistBufferSize);
      distSocket := distSocket[1..];
      UpdateRcvDist(Raw(dist));
      outcome := Published;
    }
  }
}
