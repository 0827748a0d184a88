/** The status route of the head unit's web app that reports the brake
    distance: `int(result)` over whatever the distance cell holds, with a
    signal flag that is always on. */
module App {
  import opened Wire
  import Server

  datatype BrakeStatus = BrakeStatus(distance: int, signalOn: bool)

  /** `send_most_recent_brake_data`: None where `int(result)` raises. */
  function BrakeData(result: Server.DistValue): (r: Option<BrakeStatus>)
    ensures r.Some? ==> r.value.signalOn
    ensures result.Number? ==> r == Some(BrakeStatus(result.n, true))
    ensures result.Raw? ==>
      (r.Some? <==> ParseInt(Text(result.data)).Some?) &&
      (r.Some? ==> r.value.distance == ParseInt(Text(result.data)).value)
  {
    var distance := match result
      case Number(n) => Some(n)
      case Raw(data) => ParseInt(Text(data));
    var fakeSignalIsOn := true;
    if distance.None? then None else Some(BrakeStatus(distance.value, fakeSignalIsOn))
  }
}
