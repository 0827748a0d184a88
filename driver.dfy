/** The sensor node: decoding the brake Arduino's distance datagrams, the
    brake threshold rule, the two packets sent for every distance, and the
    node's global state (the latest distance and detections) together with
    the sockets its brake-receiver thread and main loop send on. */
module Driver {
  import opened Wire
  import Client

  /** Bytes read per `recvfrom` on the brake listener socket. */
  const ListenerBufferSize: nat := 1024

  /** Brake when the measured distance is below this many centimetres. */
  const BrakeThresholdCm: int := 15

  /** Why `decode_distance_data` raises: fewer than three bytes (IndexError),
      or the byte at `position` is not an ASCII digit (ValueError from
      `int(chr(..))`). */
  datatype DecodeError = IndexOutOfRange | NotADigit(position: nat)

  predicate IsDigit(b: byte)
  {
    48 <= b <= 57
  }

  /** `int(chr(b))`: only the ten ASCII digits convert. */
  function DigitValue(b: byte): (v: Option<nat>)
    ensures v.Some? <==> IsDigit(b)
    ensures v.Some? ==> v.value < 10 && v.value + 48 == b as int
  {
    if IsDigit(b) then Some((b as int - 48) as nat) else None
  }

  /** `decode_distance_data`: byte 0 is the ones digit, byte 1 the tens and
      byte 2 the hundreds. All three bytes are indexed before any is
      converted, and they are converted ones first. */
  function DecodeDistanceData(binaryAsciiString: seq<byte>): (r: Result<int, DecodeError>)
    ensures r == Failure(IndexOutOfRange) <==> |binaryAsciiString| < 3
    ensures r.Success? <==>
      |binaryAsciiString| >= 3 && IsDigit(binaryAsciiString[0]) &&
      IsDigit(binaryAsciiString[1]) && IsDigit(binaryAsciiString[2])
    ensures r.Failure? && r.error.NotADigit? ==>
      var j := r.error.position;
      j < 3 <= |binaryAsciiString| && !IsDigit(binaryAsciiString[j]) &&
      forall i :: 0 <= i < j ==> IsDigit(binaryAsciiString[i])
    ensures r.Success? ==>
      0 <= r.value <= 999 &&
      r.value % 10 == binaryAsciiString[0] as int - 48 &&
      r.value / 10 % 10 == binaryAsciiString[1] as int - 48 &&
      r.value / 100 == binaryAsciiString[2] as int - 48
  {
    if |binaryAsciiString| < 3 then Failure(IndexOutOfRange)
    else
      var onesDigit := DigitValue(binaryAsciiString[0]);
      var tensDigit := DigitValue(binaryAsciiString[1]);
      var hundredsDigit := DigitValue(binaryAsciiString[2]);
      if onesDigit.None? then Failure(NotADigit(0))
      else if tensDigit.None? then Failure(NotADigit(1))
      else if hundredsDigit.None? then Failure(NotADigit(2))
      else Success(hundredsDigit.value * 100 + tensDigit.value * 10 + onesDigit.value)
  }

  /** A distance in [0, 999] laid out ones digit first decodes back to itself. */
  lemma DecodeOnesFirst(d: int)
    requires 0 <= d <= 999
    ensures DecodeDistanceData([(48 + d % 10) as byte, (48 + d / 10 % 10) as byte, (48 + d / 100) as byte]) == Success(d)
  {
    var ones, tens, hundreds := d % 10, d / 10 % 10, d / 100;
    assert d / 10 / 10 == hundreds;
    assert d == 10 * (d / 10) + ones && d / 10 == 10 * hundreds + tens;
    var s: seq<byte> := [(48 + ones) as byte, (48 + tens) as byte, (48 + hundreds) as byte];
    assert DigitValue(s[0]) == Some(ones) && DigitValue(s[1]) == Some(tens) && DigitValue(s[2]) == Some(hundreds);
  }

  /** Only the first three bytes matter: decoding what the brake receiver
      slices out of a received datagram is decoding the datagram itself. */
  lemma DecodeReadsFirstThree(datagram: Datagram)
    ensures DecodeDistanceData(Prefix(Received(datagram, ListenerBufferSize), 3)) == DecodeDistanceData(datagram)
  {
    var p := Prefix(Received(datagram, ListenerBufferSize), 3);
    if |datagram| >= 3 {
      assert p[0] == datagram[0] && p[1] == datagram[1] && p[2] == datagram[2];
    }
  }

  /** `decide_to_brake`: the detections are accepted and ignored. */
  function DecideToBrake(distanceCm: int, detectedClasses: seq<string>, detectedClassesProbs: seq<real>): (brake: bool)
    ensures brake <==> distanceCm < BrakeThresholdCm
  {
    if distanceCm < BrakeThresholdCm then true else false
  }

  /** The threshold is strict at 15 cm, the rule is monotone in the distance,
      and the detections never change the decision. */
  lemma BrakeThreshold(d: int, e: int, classes: seq<string>, probs: seq<real>, classes': seq<string>, probs': seq<real>)
    ensures DecideToBrake(d, classes, probs) <==> d < BrakeThresholdCm
    ensures DecideToBrake(14, classes, probs) && !DecideToBrake(15, classes, probs) && DecideToBrake(0, classes, probs)
    ensures d <= e && DecideToBrake(e, classes, probs) ==> DecideToBrake(d, classes, probs)
    ensures DecideToBrake(d, classes, probs) == DecideToBrake(d, classes', probs')
  {
  }

  /** The actuator packet chosen by `send_brake_signal`. */
  function BrakePacket(turnSignalOn: bool): (packet: Datagram)
    ensures |packet| == 3 && IsAscii(packet)
    ensures Text(packet) in {"RP0", "RP1"}
    ensures Text(packet) == "RP1" <==> turnSignalOn
  {
    TextOfEncode("RP0");
    TextOfEncode("RP1");
    var packetData := Encode("RP0");
    if turnSignalOn then Encode("RP1") else packetData
  }

  /** The head-unit update built by `send_head_unit_distance_update`: the
      distance as decimal text; the brake signal is not part of it. */
  function DistanceUpdate(distance: int, brakeSignal: bool): (message: Datagram)
    ensures IsAscii(message) && Text(message) == DecimalText(distance)
    ensures ParseInt(Text(message)) == Some(distance)
    ensures 0 <= distance <= 999 ==> 1 <= |message| <= 3
  {
    ParseDecimalText(distance);
    TextOfEncode(DecimalText(distance));
    Encode(DecimalText(distance))
  }

  /** The brake signal passed to `send_head_unit_distance_update` never
      changes the bytes sent. */
  lemma DistanceUpdateIgnoresSignal(distance: int)
    ensures DistanceUpdate(distance, true) == DistanceUpdate(distance, false)
  {
  }

  /** What one pass of the brake receiver loop produces from a datagram. */
  datatype Iteration = Iteration(distance: int, actuatorPacket: Datagram, headUnitPacket: Datagram)

  /** The effect of one iteration of `brake_receiver_worker`'s loop on one
      arriving datagram: decode its first three bytes, decide, and build the
      actuator packet and the head-unit update; or the decoding error that
      ends the thread. */
  function BrakeIteration(datagram: Datagram, detectedClasses: seq<string>, detectedClassesProbs: seq<real>): (r: Result<Iteration, DecodeError>)
    ensures DecodeDistanceData(datagram).Failure? ==> r == Failure(DecodeDistanceData(datagram).error)
    ensures DecodeDistanceData(datagram).Success? ==>
      r.Success? && r.value.distance == DecodeDistanceData(datagram).value
    ensures r.Success? ==>
      |r.value.actuatorPacket| == 3 &&
      (Text(r.value.actuatorPacket) == "RP1" <==> r.value.distance < BrakeThresholdCm) &&
      (Text(r.value.actuatorPacket) == "RP0" <==> r.value.distance >= BrakeThresholdCm)
    ensures r.Success? ==>
      1 <= |r.value.headUnitPacket| <= 3 &&
      Text(r.value.headUnitPacket) == DecimalText(r.value.distance) &&
      ParseInt(Text(r.value.headUnitPacket)) == Some(r.value.distance)
  {
    DecodeReadsFirstThree(datagram);
    var receivedData := Received(datagram, ListenerBufferSize);
    var distanceAsciiString := Prefix(receivedData, 3);
    match DecodeDistanceData(distanceAsciiString)
    case Failure(e) => Failure(e)
    case Success(distance) =>
      var brake := DecideToBrake(distance, detectedClasses, detectedClassesProbs);
      Success(Iteration(distance, BrakePacket(brake), DistanceUpdate(distance, brake)))
  }

  /** Bytes after the third never change an iteration. */
  lemma IterationIgnoresTrailing(datagram: Datagram, trailing: seq<byte>, classes: seq<string>, probs: seq<real>)
    requires |datagram| >= 3
    ensures BrakeIteration(datagram + trailing, classes, probs) == BrakeIteration(datagram, classes, probs)
  {
    var d := datagram + trailing;
    assert d[0] == datagram[0] && d[1] == datagram[1] && d[2] == datagram[2];
    assert DecodeDistanceData(d) == DecodeDistanceData(datagram);
  }

  /** Where the brake receiver sends. */
  datatype Destination = BrakeArduino | HeadUnitDistance

  datatype Packet = Packet(to: Destination, data: Datagram)

  datatype ReceiverStep =
    | Relayed(distance: int)
    | NoDatagram
    | Crashed(error: DecodeError)
    | ReceiverStopped

  /** The sensor node's globals and the sockets its threads send on.
      `brakeListener` holds the datagrams that arrive on the listener socket;
      `brakeOut` is everything the brake receiver sends, in order; `imageOut`
      is what the main loop has sent to the head unit's image port;
      `receiverRunning` is false once the brake receiver thread has died of
      an exception. */
  class SensorNode {
    var distanceInCm: int
    var detectedClasses: seq<string>
    var detectedClassesProbabilities: seq<real>
    var brakeListener: seq<Datagram>
    var brakeOut: seq<Packet>
    var imageOut: seq<Datagram>
    var receiverRunning: bool

    constructor (arduinoDatagrams: seq<Datagram>)
      ensures distanceInCm == -1
      ensures detectedClasses == [] && detectedClassesProbabilities == []
      ensures brakeListener == arduinoDatagrams && brakeOut == [] && imageOut == []
      ensures receiverRunning
    {
      distanceInCm := -1;
      detectedClasses := [];
      detectedClassesProbabilities := [];
      brakeListener := arduinoDatagrams;
      brakeOut := [];
      imageOut := [];
      receiverRunning := true;
    }

    /** `send_brake_signal` on the actuator socket. */
    method SendBrakeSignal(turnSignalOn: bool)
      modifies this`brakeOut
      ensures brakeOut == old(brakeOut) + [Packet(BrakeArduino, BrakePacket(turnSignalOn))]
    {
      brakeOut := brakeOut + [Packet(BrakeArduino, BrakePacket(turnSignalOn))];
    }

    /** `send_head_unit_distance_update` on the head-unit distance socket. */
    method SendHeadUnitDistanceUpdate(distance: int, brakeSignal: bool)
      modifies this`brakeOut
      ensures brakeOut == old(brakeOut) + [Packet(HeadUnitDistance, DistanceUpdate(distance, brakeSignal))]
    {
      brakeOut := brakeOut + [Packet(HeadUnitDistance, DistanceUpdate(distance, brakeSignal))];
    }

    /** One pass of `brake_receiver_worker`'s loop. A dead thread does
        nothing; with no datagram waiting the receive blocks; otherwise one
        datagram is consumed and either the distance is stored and exactly
        one actuator packet and then one head-unit packet are sent, or the
        decoding raises and the thread ends with nothing sent. */
    method BrakeReceiverStep() returns (outcome: ReceiverStep)
      modifies this`distanceInCm, this`brakeListener, this`brakeOut, this`receiverRunning
      ensures !old(receiverRunning) ==> outcome == ReceiverStopped && unchanged(this)
      ensures old(receiverRunning) && old(brakeListener) == [] ==> outcome == NoDatagram && unchanged(this)
      ensures old(receiverRunning) && old(brakeListener) != [] ==>
        brakeListener == old(brakeListener[1..]) &&
        match BrakeIteration(old(brakeListener[0]), detectedClasses, detectedClassesProbabilities)
        case Success(it) =>
          outcome == Relayed(it.distance) && receiverRunning && distanceInCm == it.distance &&
          brakeOut == old(brakeOut) + [Packet(BrakeArduino, it.actuatorPacket), Packet(HeadUnitDistance, it.headUnitPacket)]
        case Failure(e) =>
          outcome == Crashed(e) && !receiverRunning &&
          distanceInCm == old(distanceInCm) && brakeOut == old(brakeOut)
    {
      if !receiverRunning {
        return ReceiverStopped;
      }
      if brakeListener == [] {
        return NoDatagram;
      }
      var receivedData := Received(brakeListener[0], ListenerBufferSize);
      brakeListener := brakeListener[1..];
      var distanceAsciiString := Prefix(receivedData, 3);
      var decoded := DecodeDistanceData(distanceAsciiString);
      if decoded.Failure? {
        receiverRunning := false;
        return Crashed(decoded.error);
      }
      distanceInCm := decoded.value;
      if DecideToBrake(distanceInCm, detectedClasses, detectedClassesProbabilities) {
        SendBrakeSignal(true);
        SendHeadUnitDistanceUpdate(distanceInCm, true);
      } else {
        SendBrakeSignal(false);
        SendHeadUnitDistanceUpdate(distanceInCm, false);
      }
      outcome := Relayed(distanceInCm);
    }

    /** The tail of one main-loop cycle, after capture and inference: the
        detections replace the previous ones wholesale and the encoded image
        is sent to the head unit. */
    method CaptureCycle(validClasses: seq<string>, validScores: seq<real>, encodedStr: seq<byte>)
      modifies this`detectedClasses, this`detectedClassesProbabilities, this`imageOut
      ensures detectedClasses == validClasses && detectedClassesProbabilities == validScores
      ensures imageOut == old(imageOut) + Client.Fragments(encodedStr) + [[]]
    {
      detectedClasses := validClasses;
      detectedClassesProbabilities := validScores;
      imageOut := Client.SendImageStrOverUdp(imageOut, encodedStr);
    }
  }
}
