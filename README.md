# ADAS brake unit relay, modelled in Dafny

This project models the relay logic of a three-node driver-assistance setup:

- A Raspberry Pi sensor node receives distance datagrams from a brake Arduino.
  It decodes each one, decides whether to brake, and sends two packets: an
  actuator token (`RP1` to brake, `RP0` to release) to the Arduino and the
  distance as decimal text to the head unit. Its main loop also sends each
  base64-encoded camera image to the head unit. The image goes out as
  datagrams of at most 65000 bytes, followed by one empty datagram that ends
  the message.
- The head unit reassembles each image by concatenating datagrams until an
  empty one arrives. It pads the result with `=` to a multiple of 4 and stores
  it in a last-write-wins cell. A second worker stores each distance datagram,
  as raw bytes, in another cell. A web route reads the distance cell back with
  `int(...)`.

Sockets are abstract. An outbound socket is the sequence of datagrams sent on
it. An inbound socket is the sequence of datagrams that arrive on it.
`recvfrom(n)` keeps the first `n` bytes of a datagram (`Wire.Received`). Each
`while True` worker is one step method on a class that holds the globals and
sockets it touches.

Modules, one per source file plus two shared ones:

- `Wire` (wire.dfy): bytes and datagrams, ASCII decoding and encoding, `str(n)`
  for ints, and a strict decimal reader that is its inverse.
- `Client` (client.dfy): the fragmenting sender.
- `Driver` (driver.dfy): distance decoding, the brake rule, the two packets, a
  pure function for one brake-loop iteration, and the `SensorNode` class.
- `Server` (server.dfy): reassembly, padding and the `HeadUnit` class with its
  two cells and two worker steps.
- `App` (app.dfy): the brake-status route's `int(result)`.
- `Relay` (relay.dfy): the round trips across the two machines.

A Python exception inside a worker thread ends that thread. The model records
this with a `running` flag that the step methods respect. A malformed distance
datagram stops the brake receiver for good. A non-ASCII image datagram stops
the image worker for good.

## Model

| member | source | states |
|---|---|---|
| `Wire.Received` | head_unit/server_for_head_unit.py:49 | `recvfrom(n)` returns exactly the first n bytes of the datagram, or the whole datagram when it fits, and is empty exactly when the datagram is |
| `Wire.Prefix` | raspi_code/driver.py:172 | the slice `[0:3]` is a prefix of the datagram, 3 bytes long or the whole datagram if shorter |
| `Wire.NatText` | raspi_code/driver.py:135 | `str(n)` is one or more decimal digits with no leading zero unless n is 0; it has at most 3 digits below 1000 |
| `Wire.DecimalText` | raspi_code/driver.py:135 | `str(n)` for any int is non-empty ASCII text that starts with `-` exactly for negative n, has no leading zero except in `"0"`, and has at most 3 characters for 0..999 |
| `Wire.ParseInt` | head_unit/app.py:20 | the strict reading of `int(...)` accepts exactly one or more digits, optionally after one `-`, and rejects everything else; digits read as their decimal value and `-digits` as its negation; any accepted text is non-empty ASCII |
| `Wire.Text` | head_unit/server_for_head_unit.py:56 | `decode("ASCII")` gives one character per byte, character i having byte i's code, and gives ASCII text exactly when the bytes are ASCII |
| `Wire.Encode` | raspi_code/driver.py:125-127 | `encode()` of ASCII text gives one ASCII byte per character, byte i having character i's code |
| `Wire.NatTextValue` | raspi_code/driver.py:135 | the digits of `str(n)` read back as n |
| `Wire.ParseDecimalText` | head_unit/app.py:20 | reading back `str(n)` as an integer gives n, for every int n |
| `Wire.TextOfEncode` | raspi_code/driver.py:125-127 | `encode()` of ASCII text gives ASCII bytes that decode back to the text |
| `Wire.EncodeOfText` | head_unit/server_for_head_unit.py:56 | `decode("ASCII")` of ASCII bytes gives text that encodes back to the bytes |
| `Driver.DigitValue` | raspi_code/driver.py:108-110 | `int(chr(b))` succeeds exactly for the ten ASCII digit bytes, and gives the digit below 10 whose code is b |
| `Driver.DecodeDistanceData` | raspi_code/driver.py:103-114 | fails with an index error iff fewer than 3 bytes; succeeds iff the three bytes are ASCII digits; otherwise reports the first non-digit in the order ones, tens, hundreds; on success the value is in [0, 999] with byte 0 as its ones digit, byte 1 as tens, byte 2 as hundreds |
| `Driver.DecodeOnesFirst` | raspi_code/driver.py:108-112 | every d in [0, 999] laid out ones digit first decodes to d |
| `Driver.DecodeReadsFirstThree` | raspi_code/driver.py:168-173 | decoding the first three bytes of what `recvfrom(1024)` returns gives the same result, error or value, as decoding the whole datagram |
| `Driver.DecideToBrake` | raspi_code/driver.py:73-78 | brakes exactly when the distance is below 15 cm |
| `Driver.BrakeThreshold` | raspi_code/driver.py:73-78 | `decide_to_brake` is true exactly below 15: true at 14 and 0 and false at 15; it is monotone in the distance and ignores the detections |
| `Driver.BrakePacket` | raspi_code/driver.py:117-129 | the actuator packet is 3 ASCII bytes, either `RP0` or `RP1`, and it is `RP1` exactly when the signal is on |
| `Driver.DistanceUpdate` | raspi_code/driver.py:132-136 | the head-unit update is the ASCII encoding of `str(distance)`, reads back as the distance, and is 1 to 3 bytes for distances in [0, 999] |
| `Driver.DistanceUpdateIgnoresSignal` | raspi_code/driver.py:133-135 | the brake signal argument never changes the bytes sent |
| `Driver.BrakeIteration` | raspi_code/driver.py:167-185 | one loop pass fails exactly as decoding the datagram fails; on success it stores the decoded distance, sends `RP1` iff distance < 15 and `RP0` otherwise, and sends the 1-to-3-byte update `str(distance)`, which reads back as the distance |
| `Driver.IterationIgnoresTrailing` | raspi_code/driver.py:172-173 | bytes after the third never change a loop pass |
| `Driver.SensorNode.constructor` | raspi_code/driver.py:92-98 | distance starts at -1, the detection lists start empty, nothing has been sent and the receiver runs |
| `Driver.SensorNode.SendBrakeSignal` | raspi_code/driver.py:117-129 | appends exactly one actuator packet to the brake receiver's output |
| `Driver.SensorNode.SendHeadUnitDistanceUpdate` | raspi_code/driver.py:132-136 | appends exactly one head-unit distance packet to the brake receiver's output |
| `Driver.SensorNode.BrakeReceiverStep` | raspi_code/driver.py:167-185 | consumes one datagram; on success sets the distance global and sends the actuator packet, then the head-unit packet; on a decoding error sends nothing, keeps the old distance and ends the thread; does nothing when no datagram is waiting or the thread has ended |
| `Driver.SensorNode.CaptureCycle` | raspi_code/driver.py:246-261 | the detections are replaced wholesale, and the image socket receives the payload's fragments followed by the terminator |
| `Client.SendImageStrOverUdp` | raspi_code/client_for_RaspPi.py:18-35 | the loop over `x` and `a` terminates and sends exactly the payload's fragments, then one empty datagram |
| `Client.FlattenFragments` | raspi_code/client_for_RaspPi.py:18-31 | the fragments concatenated in order are exactly the payload |
| `Client.FragmentSizes` | raspi_code/client_for_RaspPi.py:19-31 | every fragment holds 1 to 65000 bytes, and all but the last hold exactly 65000 |
| `Client.FragmentCount` | raspi_code/client_for_RaspPi.py:19-31 | there are ceil(len / 65000) fragments, so none for an empty payload |
| `Client.TerminatorIsLastAndOnly` | raspi_code/client_for_RaspPi.py:23-35 | of all the datagrams sent, the only empty one is the last |
| `Server.Reassemble` | head_unit/server_for_head_unit.py:44-58 | a finished or failed reassembly uses between 1 and all of the arriving datagrams |
| `Server.ReceiveMessage` | head_unit/server_for_head_unit.py:44-58 | the inner receive loop computes the reassembly of the arriving datagrams |
| `Server.ReassembleComplete` | head_unit/server_for_head_unit.py:44-58 | when the k-th datagram is the first empty one and all before it are ASCII, the message is their concatenation in order, starting from the empty string, and uses k datagrams |
| `Server.CompleteReassembly` | head_unit/server_for_head_unit.py:44-58 | conversely, a completed message ends at the first empty datagram, every datagram before it is non-empty ASCII, and the message is their concatenation |
| `Server.DecodeFailure` | head_unit/server_for_head_unit.py:55-56 | a failed reassembly stops at the first non-ASCII datagram that comes before any empty one |
| `Server.FailedDecode` | head_unit/server_for_head_unit.py:55-56 | conversely, a non-ASCII datagram after only non-empty ASCII ones makes the reassembly fail at that datagram |
| `Server.UnterminatedReassembly` | head_unit/server_for_head_unit.py:46-58 | the inner loop is left waiting exactly when every arriving datagram is non-empty ASCII |
| `Server.PaddingLength` | head_unit/server_for_head_unit.py:61 | the padding count is the unique count below 4 that makes the length a multiple of 4, so it is 0 for a length that already is one |
| `Server.Pad` | head_unit/server_for_head_unit.py:61 | the padded message extends the message with fewer than 4 `=` characters, and its length is a multiple of 4 |
| `Server.PadIdempotent` | head_unit/server_for_head_unit.py:61 | padding a padded message changes nothing |
| `Server.PaddedExample` | head_unit/server_for_head_unit.py:44-65 | the datagrams `AAAA`, `BB` and the terminator reassemble to `AAAABB`, which is published as `AAAABB==` |
| `Server.HeadUnit.constructor` | head_unit/server_for_head_unit.py:9-10 | the cells start as `NO IMAGE YET` and -1 |
| `Server.HeadUnit.UpdateRcvMsg` | head_unit/server_for_head_unit.py:13-15 | the image cell now holds the new value; the distance cell is outside its frame |
| `Server.HeadUnit.GetRcvMsg` | head_unit/server_for_head_unit.py:18-20 | returns the image cell's current value |
| `Server.HeadUnit.UpdateRcvDist` | head_unit/server_for_head_unit.py:23-25 | the distance cell now holds the new value; the image cell is outside its frame |
| `Server.HeadUnit.GetRcvDist` | head_unit/server_for_head_unit.py:28-30 | returns the distance cell's current value |
| `Server.HeadUnit.RcvImageStep` | head_unit/server_for_head_unit.py:42-65 | a complete message is padded and published and its datagrams are consumed; with no terminator nothing changes; a non-ASCII datagram consumes up to itself, leaves the cell alone and ends the worker |
| `Server.HeadUnit.RcvDistStep` | head_unit/server_for_head_unit.py:78-82 | each arriving datagram is stored as received, with no decoding, one update per datagram |
| `App.BrakeData` | head_unit/app.py:17-30 | the signal flag is always on; the int sentinel is reported as it is; bytes are reported as their decimal value, and the route fails where they do not read as an integer |
| `Relay.ImageRoundTrip` | head_unit/server_for_head_unit.py:46-58 | reassembling what the sender emits for an ASCII payload gives the payload as text and stops at its terminator, so later datagrams start the next message; no fragment is cut by the 72000-byte buffer |
| `Relay.Base64ImagePublished` | head_unit/server_for_head_unit.py:61-65 | an ASCII payload whose length is a multiple of 4, as base64 output is, is published unchanged |
| `Relay.DistanceRelay` | head_unit/app.py:19-20 | the update sent for a decoded distance, once stored by the distance worker, is read back by the status route as that distance |
| `Relay.SentinelStatus` | head_unit/app.py:19-28 | before any distance arrives the status route reports -1 with the signal on |

## Left out

- Camera capture, resizing, object detection, JPEG and base64 encoding: hardware, ML, floats and library calls. `CaptureCycle` takes their results (the detections and the encoded bytes) as parameters.
- Thread creation and concurrent access to the globals: the code has no locks. The cells and globals are plain fields, updated one call at a time. No version counter or mutex is added.
- Socket creation, binding, connecting and closing; the fixed IP addresses and ports; the sender address `recvfrom` returns; logging and prints.
- The statements after each `while True` loop, which are never reached.
- `Driver.SensorNode.constructor`: the distance global starts at the float -1.0 in the code; the model stores the int -1.
- Loss, duplication or reordering of datagrams: each inbound socket delivers a fixed sequence, in order. That sequence is given when the object is constructed.
- `Server.HeadUnit.RcvImageStep`: when no terminator has arrived, the code keeps the datagrams it has read in a local variable and waits. The model leaves them on the socket and reports no change. The set of arrivals is fixed, so later steps give the same result.
- `Wire.ParseInt`: Python's `int()` also accepts surrounding whitespace, a leading `+` and `_` between digits; this reader accepts only an optional `-` followed by digits. The distance updates the sensor node sends are always in that form.
- `App.BrakeData`: inherits the strict reading of `Wire.ParseInt` (see above).
- The image route and the page route of the web app: they return the image cell unchanged or render a template.
- The distance encoder that produces the three-digit datagrams runs on the Arduino and is not part of this model; the code has no range check on it, and the head unit stores the raw bytes without decoding them.
