/**
 * The ICSim attack helpers of the automobile module: the payloads of sensor
 * spoofing and message injection, the CAN-ID filter of the live monitor and
 * its changed-byte highlighting, and the rate and frames of the bus flood.
 * Typed input arrives as text and is read with Python's `int()`; random
 * draws are parameters.
 */
module Automobile {
  import opened Base
  import opened PyInt
  import opened Diagnostics

  /** `max(lo, min(hi, v))`. */
  function Clamp(v: int, lo: int, hi: int): (r: int)
    requires lo <= hi
    ensures lo <= r <= hi
    ensures lo <= v <= hi ==> r == v
    ensures v < lo ==> r == lo
    ensures v > hi ==> r == hi
  {
    if v < lo then lo else if v > hi then hi else v
  }

  /** `int(input(...) or "0")`: an empty answer reads as 0, anything unparsable fails. */
  function ReadChoice(text: string): (r: Option<int>)
    ensures text == "" ==> r == Some(0)
    ensures text != "" ==> r == ParseInt(text)
  {
    ParseSmall();
    ParseInt(if text == "" then "0" else text)
  }

  /** The menu answers the model refers to by their text. */
  lemma ParseSmall()
    ensures ParseInt("0") == Some(0) && ParseInt("1") == Some(1)
  {
    ParseIntOfIntToString(0);
    ParseIntOfIntToString(1);
    assert IntToString(0) == "0" && IntToString(1) == "1";
  }

  /** Python's `xs[i]` index rule for a list of length `n`: negative indices count from the end. */
  function PyIndex(n: nat, i: int): (r: Option<nat>)
    ensures r.Some? <==> -(n as int) <= i < n
    ensures r.Some? ==> r.value < n && (r.value == i || r.value == n + i)
  {
    if 0 <= i < n then Some(i) else if -(n as int) <= i < 0 then Some(n + i) else None
  }

  // ---------------------------------------------------------------- spoofing

  /** `_spoof_speed`: speed clamped to 0..255 at byte 3 of a five-byte frame. */
  function SpoofSpeed(text: string): (r: Option<seq<byte>>)
    ensures r.Some? <==> ReadChoice(text).Some?
    ensures r.Some? ==> (|r.value| == 5 && r.value[..3] == [0, 0, 0] && r.value[4] == 150
      && r.value[3] == Clamp(ReadChoice(text).value, 0, 255))
  {
    match ReadChoice(text)
    case None => None
    case Some(speed) => Some([0x00, 0x00, 0x00, Clamp(speed, 0, 255), 150])
  }

  /** `_spoof_rpm`: rpm clamped to 0..8000, big-endian in bytes 0-1 of an eight-byte frame. */
  function SpoofRpm(text: string): (r: Option<seq<byte>>)
    ensures r.Some? <==> ReadChoice(text).Some?
    ensures r.Some? ==> (|r.value| == 8 && BE16(r.value[0], r.value[1]) == Clamp(ReadChoice(text).value, 0, 8000)
      && forall k :: 2 <= k < 8 ==> r.value[k] == 0)
  {
    match ReadChoice(text)
    case None => None
    case Some(v) =>
      var rpm := Clamp(v, 0, 8000);
      var hi := rpm / 256 % 256;
      assert hi == rpm / 256 && BE16(hi, rpm % 256) == rpm;
      Some([hi, rpm % 256, 0x00, 0x00, 0x00, 0x00, 0x00, 0x00])
  }

  /** `_spoof_turn_signal`: choices 0-3 are sent as the state byte, anything else as 0. */
  function SpoofTurnSignal(text: string): (r: Option<seq<byte>>)
    ensures r.Some? <==> ReadChoice(text).Some?
    ensures r.Some? ==> (|r.value| == 8 && (forall k :: 1 <= k < 8 ==> r.value[k] == 0)
      && (0 <= ReadChoice(text).value <= 3 ==> r.value[0] == ReadChoice(text).value)
      && (!(0 <= ReadChoice(text).value <= 3) ==> r.value[0] == 0))
  {
    match ReadChoice(text)
    case None => None
    case Some(choice) =>
      var states := map[0 := 0x00, 1 := 0x01, 2 := 0x02, 3 := 0x03];
      var state: byte := if choice in states then states[choice] else 0x00;
      Some([state, 0x00, 0x00, 0x00, 0x00, 0x00, 0x00, 0x00])
  }

  /** `_spoof_doors`: choice 0 (locked) puts 0x0F at byte 2 of a six-byte frame. */
  function SpoofDoors(text: string): (r: Option<seq<byte>>)
    ensures r.Some? <==> ReadChoice(text).Some?
    ensures r.Some? ==> (|r.value| == 6 && (forall k :: 0 <= k < 6 && k != 2 ==> r.value[k] == 0)
      && (r.value[2] == 0x0F <==> ReadChoice(text).value == 0) && (r.value[2] == 0x0F || r.value[2] == 0))
  {
    match ReadChoice(text)
    case None => None
    case Some(choice) => Some([0x00, 0x00, if choice == 0 then 0x0F else 0x00, 0x00, 0x00, 0x00])
  }

  /** `_spoof_lights`: choice 1 (on) puts 0x01 at byte 0 of an eight-byte frame. */
  function SpoofLights(text: string): (r: Option<seq<byte>>)
    ensures r.Some? <==> ReadChoice(text).Some?
    ensures r.Some? ==> (|r.value| == 8 && (forall k :: 1 <= k < 8 ==> r.value[k] == 0)
      && (r.value[0] == 1 <==> ReadChoice(text).value == 1) && r.value[0] <= 1)
  {
    match ReadChoice(text)
    case None => None
    case Some(choice) => Some([if choice == 1 then 0x01 else 0x00, 0x00, 0x00, 0x00, 0x00, 0x00, 0x00, 0x00])
  }

  /** A speed typed in range reaches the dashboard unchanged. */
  lemma SpoofSpeedInRange(speed: nat)
    requires speed <= 255
    ensures SpoofSpeed(NatToString(speed)) == Some([0, 0, 0, speed, 150])
  {
    ParseIntOfIntToString(speed);
  }

  /** An rpm typed in range is what the two rpm bytes carry. */
  lemma SpoofRpmInRange(rpm: nat)
    requires rpm <= 8000
    ensures SpoofRpm(NatToString(rpm)).Some? && BE16(SpoofRpm(NatToString(rpm)).value[0], SpoofRpm(NatToString(rpm)).value[1]) == rpm
  {
    ParseIntOfIntToString(rpm);
  }

  /** The sensors offered by `sensor_spoofing`, in menu order, with their CAN IDs. */
  const SENSORS: seq<(string, int)> := [
    ("Speed Sensor", 0x244), ("RPM Sensor", 0x201), ("Turn Signal Sensor", 0x2C0),
    ("Door Sensor", 0x19B), ("Light Sensor", 0x2E0)
  ]

  datatype SpoofOutcome = InvalidSelection | Cancelled | Spoofed(frame: CanFrame)

  /** The payload builder of sensor `k`. */
  function SensorPayload(k: nat, text: string): Option<seq<byte>>
    requires k < |SENSORS|
  {
    if k == 0 then SpoofSpeed(text)
    else if k == 1 then SpoofRpm(text)
    else if k == 2 then SpoofTurnSignal(text)
    else if k == 3 then SpoofDoors(text)
    else SpoofLights(text)
  }

  /**
   * `sensor_spoofing`: the menu answer selects a sensor (Python indexing),
   * the value answer goes to its payload builder, the frame goes to the
   * sensor's ID.
   */
  function SensorSpoofing(menuText: string, valueText: string): (r: SpoofOutcome)
    ensures r == InvalidSelection <==>
              ParseInt(menuText).None? || PyIndex(|SENSORS|, ParseInt(menuText).value).None?
    ensures r != InvalidSelection ==>
              var k := PyIndex(|SENSORS|, ParseInt(menuText).value).value;
              (r == Cancelled <==> SensorPayload(k, valueText).None?)
              && (r.Spoofed? ==> r.frame.id == SENSORS[k].1 && Some(r.frame.data) == SensorPayload(k, valueText))
  {
    match ParseInt(menuText)
    case None => InvalidSelection
    case Some(choice) =>
      match PyIndex(|SENSORS|, choice)
      case None => InvalidSelection
      case Some(k) =>
        match SensorPayload(k, valueText)
        case None => Cancelled
        case Some(data) => Spoofed(CanFrame(SENSORS[k].1, data))
  }

  // ---------------------------------------------------------------- injection

  /** The systems offered by `can_message_injection`, in menu order, with their CAN IDs. */
  const INJECTION_TARGETS: seq<(string, int)> := [
    ("Speed", 0x244), ("RPM", 0x201), ("Turn Signals", 0x2C0), ("Doors", 0x19B), ("Lights", 0x2E0)
  ]

  predicate AllBytes(xs: seq<int>) {
    forall k :: 0 <= k < |xs| ==> 0 <= xs[k] < 256
  }

  /** `can.Message(data=xs)`: the values are stored through `bytearray`, which refuses a non-byte. */
  function ToBytes(xs: seq<int>): (r: Option<seq<byte>>)
    ensures r.Some? <==> AllBytes(xs)
    ensures r.Some? ==> r.value == xs
  {
    if AllBytes(xs) then Some(seq(|xs|, k requires 0 <= k < |xs| && AllBytes(xs) => xs[k] as byte)) else None
  }

  /**
   * The values `can_message_injection` puts in the frame for target `k`:
   * the typed speed, the typed rpm split with `>> 8` and `& 0xFF` (no clamp),
   * a random turn state, or eight random bytes.
   */
  function InjectionValues(k: nat, value: int, turnState: byte, noise: seq<byte>): (xs: seq<int>)
    requires k < |INJECTION_TARGETS| && |noise| == 8
  {
    if k == 0 then [0, 0, 0, value, 150]
    else if k == 1 then [value / 256, value % 256, 0, 0, 0, 0, 0, 0]
    else if k == 2 then [turnState, 0, 0, 0, 0, 0, 0, 0]
    else noise
  }

  /** The frame for menu entry `k`, given the value typed for it (`None`: it did not parse). */
  function InjectTarget(k: nat, value: Option<int>, turnState: byte, noise: seq<byte>): Option<CanFrame>
    requires k < |INJECTION_TARGETS| && |noise| == 8
  {
    match value
    case None => None
    case Some(v) =>
      match ToBytes(InjectionValues(k, v, turnState, noise))
      case None => None
      case Some(data) => Some(CanFrame(INJECTION_TARGETS[k].1, data))
  }

  /**
   * `can_message_injection` up to the send. Every failure ends in the same
   * "Invalid selection!" message: an unparsable or out-of-range menu answer,
   * an unparsable value, or a value `can.Message` cannot store as a byte.
   */
  function Injection(menuText: string, valueText: string, turnState: byte, noise: seq<byte>): (r: Option<CanFrame>)
    requires turnState <= 3 && |noise| == 8
    ensures ParseInt(menuText).None? ==> r.None?
    ensures ParseInt(menuText).Some? && PyIndex(|INJECTION_TARGETS|, ParseInt(menuText).value).None? ==> r.None?
    ensures r.Some? ==> exists k :: 0 <= k < |INJECTION_TARGETS| && r.value.id == INJECTION_TARGETS[k].1
  {
    match ParseInt(menuText)
    case None => None
    case Some(choice) =>
      match PyIndex(|INJECTION_TARGETS|, choice)
      case None => None
      case Some(k) =>
        // the value is read only for the speed and rpm targets
        InjectTarget(k, if k <= 1 then ParseInt(valueText) else Some(0), turnState, noise)
  }

  /**
   * A menu answer selects its target by Python's index rule; the value text
   * is read only for the speed and rpm targets.
   */
  lemma InjectionChoice(menuText: string, valueText: string, turnState: byte, noise: seq<byte>, k: nat)
    requires turnState <= 3 && |noise| == 8
    requires ParseInt(menuText).Some? && PyIndex(|INJECTION_TARGETS|, ParseInt(menuText).value) == Some(k)
    ensures Injection(menuText, valueText, turnState, noise)
            == InjectTarget(k, if k <= 1 then ParseInt(valueText) else Some(0), turnState, noise)
  {
  }

  /**
   * A speed injection (menu answer "0", or any answer that indexes entry 0)
   * goes through exactly for the speeds a byte can hold.
   */
  lemma InjectSpeed(menuText: string, speed: int, turnState: byte, noise: seq<byte>)
    requires turnState <= 3 && |noise| == 8
    requires ParseInt(menuText).Some? && PyIndex(|INJECTION_TARGETS|, ParseInt(menuText).value) == Some(0)
    ensures var r := Injection(menuText, IntToString(speed), turnState, noise);
      (r.Some? <==> 0 <= speed <= 255) && (r.Some? ==> 0 <= speed <= 255 && r.value == SpeedFrame(speed))
  {
    InjectionChoice(menuText, IntToString(speed), turnState, noise, 0);
    ParseIntOfIntToString(speed);
    SpeedTarget(speed, turnState, noise);
  }

  /** The frame of a speed injection: the speed at byte 3 of the ICSim speed message. */
  function SpeedFrame(speed: byte): CanFrame {
    CanFrame(0x244, [0, 0, 0, speed, 150])
  }

  lemma SpeedTarget(speed: int, turnState: byte, noise: seq<byte>)
    requires turnState <= 3 && |noise| == 8
    ensures var r := InjectTarget(0, Some(speed), turnState, noise);
      (r.Some? <==> 0 <= speed <= 255) && (r.Some? ==> 0 <= speed <= 255 && r.value == SpeedFrame(speed))
  {
    var xs := InjectionValues(0, speed, turnState, noise);
    assert xs == [0, 0, 0, speed, 150];
    if AllBytes(xs) { assert 0 <= xs[3] < 256; }
  }

  /**
   * An rpm injection (menu answer "1", or any answer that indexes entry 1)
   * goes through exactly for 0..65535 (a larger or negative
   * value makes `rpm >> 8` leave the byte range), and the two bytes carry the rpm.
   */
  lemma InjectRpm(menuText: string, rpm: int, turnState: byte, noise: seq<byte>)
    requires turnState <= 3 && |noise| == 8
    requires ParseInt(menuText).Some? && PyIndex(|INJECTION_TARGETS|, ParseInt(menuText).value) == Some(1)
    ensures var r := Injection(menuText, IntToString(rpm), turnState, noise);
      (r.Some? <==> 0 <= rpm <= 0xFFFF)
      && (r.Some? ==> (r.value.id == 0x201 && |r.value.data| == 8 && BE16(r.value.data[0], r.value.data[1]) == rpm
                      && forall k :: 2 <= k < 8 ==> r.value.data[k] == 0))
  {
    InjectionChoice(menuText, IntToString(rpm), turnState, noise, 1);
    ParseIntOfIntToString(rpm);
    RpmTarget(rpm, turnState, noise);
  }

  lemma RpmTarget(rpm: int, turnState: byte, noise: seq<byte>)
    requires turnState <= 3 && |noise| == 8
    ensures var r := InjectTarget(1, Some(rpm), turnState, noise);
      (r.Some? <==> 0 <= rpm <= 0xFFFF)
      && (r.Some? ==> (r.value.id == 0x201 && |r.value.data| == 8 && BE16(r.value.data[0], r.value.data[1]) == rpm
                      && forall k :: 2 <= k < 8 ==> r.value.data[k] == 0))
  {
    var xs := InjectionValues(1, rpm, turnState, noise);
    assert xs == [rpm / 256, rpm % 256, 0, 0, 0, 0, 0, 0];
    if AllBytes(xs) { assert 0 <= xs[0] < 256; }
  }

  // ---------------------------------------------------------------- monitor

  datatype Filter = NoFilter | Ids(ids: seq<int>) | Abort

  /** One entry of the filter list: `int(e, 16)` after a "0x" prefix, `int(e)` otherwise. */
  function ParseFilterEntry(entry: string): Option<int> {
    var t := Strip(entry);
    if StartsWith(t, "0x") then ParseIntBase16(t) else ParseInt(t)
  }

  /**
   * The filter parsing of `real_time_monitor`: an empty answer means no
   * filter; otherwise every comma-separated entry must parse, or the monitor
   * gives up.
   */
  function ParseFilterIds(text: string): (r: Filter)
    ensures text == "" <==> r == NoFilter
    ensures r.Ids? ==> |r.ids| == |Split(text, ',')|
  {
    if text == "" then NoFilter
    else
      var entries := Split(text, ',');
      var parsed := AllSome(ParseFilterEntries(entries));
      if parsed.Some? then Ids(parsed.value) else Abort
  }

  /**
   * A non-empty answer gives the identifiers its entries spell, in order, and
   * is refused exactly when one of its entries does not parse.
   */
  lemma FilterEntriesRead(text: string)
    requires text != ""
    ensures ParseFilterIds(text).Ids? ==> forall k :: 0 <= k < |ParseFilterIds(text).ids| ==>
              ParseFilterEntries(Split(text, ','))[k] == Some(ParseFilterIds(text).ids[k])
    ensures ParseFilterIds(text) == Abort ==>
              exists k :: 0 <= k < |Split(text, ',')| && ParseFilterEntries(Split(text, ','))[k].None?
    ensures (exists k :: 0 <= k < |Split(text, ',')| && ParseFilterEntries(Split(text, ','))[k].None?) ==> ParseFilterIds(text) == Abort
  {
    var results := ParseFilterEntries(Split(text, ','));
    var parsed := AllSome(results);
    assert ParseFilterIds(text) == if parsed.Some? then Ids(parsed.value) else Abort;
    if parsed.None? {
      var k :| 0 <= k < |results| && !results[k].Some?;
      assert results[k].None?;
    }
  }

  /** `ParseFilterEntry` of every entry, in order. */
  function ParseFilterEntries(entries: seq<string>): (r: seq<Option<int>>)
    ensures |r| == |entries|
  {
    if entries == [] then [] else [ParseFilterEntry(entries[0])] + ParseFilterEntries(entries[1..])
  }

  lemma {:induction false} ParseFilterEntriesAt(entries: seq<string>, k: nat)
    requires k < |entries|
    ensures ParseFilterEntries(entries)[k] == ParseFilterEntry(entries[k])
    decreases k
  {
    if k > 0 {
      ParseFilterEntriesAt(entries[1..], k - 1);
    }
  }

  /** `not filter_list or msg.arbitration_id in filter_list`. */
  predicate Passes(filterList: seq<int>, id: int) {
    filterList == [] || id in filterList
  }

  /** A decimal entry is read as the number it spells. */
  lemma DecimalFilterEntry(n: nat)
    ensures ParseFilterEntry(NatToString(n)) == Some(n)
  {
    var s := NatToString(n);
    ParseIntOfIntToString(n);
    assert IntToString(n) == s;
    StripOfDigits(s);
    NotHexPrefixed(s);
  }

  lemma NotHexPrefixed(s: string)
    requires forall i :: 0 <= i < |s| ==> '0' <= s[i] <= '9'
    ensures !StartsWith(s, "0x")
  {
    if |s| >= 2 { assert s[1] != 'x'; }
  }

  /**
   * The highlighting rule of the monitor: byte `i` is shown unchanged when
   * there is a previous (non-empty) payload, it reaches position `i`, and it
   * holds the same byte there; otherwise it is shown as changed.
   */
  method ChangedBytes(prev: Option<seq<byte>>, data: seq<byte>) returns (changed: seq<bool>)
    ensures |changed| == |data|
    ensures forall i :: 0 <= i < |data| ==>
              (!changed[i] <==> prev.Some? && prev.value != [] && i < |prev.value| && data[i] == prev.value[i])
  {
    changed := [];
    var i := 0;
    while i < |data|
      invariant 0 <= i <= |data| && |changed| == i
      invariant forall j :: 0 <= j < i ==>
                  (!changed[j] <==> prev.Some? && prev.value != [] && j < |prev.value| && data[j] == prev.value[j])
    {
      var same := prev.Some? && prev.value != [] && i < |prev.value| && data[i] == prev.value[i];
      changed := changed + [!same];
      i := i + 1;
    }
  }

  /** One displayed monitor line: time since the previous shown frame (ms), the ID, and the highlighting. */
  datatype MonitorLine = MonitorLine(deltaMs: real, id: int, changed: seq<bool>)

  /**
   * The state `real_time_monitor` carries from one received frame to the
   * next: the filter, the previous shown payload and timestamp, and the count.
   */
  class Monitor {
    const filterList: seq<int>
    var prevData: Option<seq<byte>>
    var prevTimestamp: Option<real>
    var messageCount: nat

    constructor(filterList: seq<int>)
      ensures this.filterList == filterList
      ensures prevData == None && prevTimestamp == None && messageCount == 0
    {
      this.filterList := filterList;
      prevData := None;
      prevTimestamp := None;
      messageCount := 0;
    }

    /** One received frame: filtered out, or counted, shown against the previous shown frame, and remembered. */
    method Receive(id: int, data: seq<byte>, timestamp: real) returns (line: Option<MonitorLine>)
      modifies this
      ensures line.Some? <==> Passes(filterList, id)
      ensures !Passes(filterList, id) ==>
                prevData == old(prevData) && prevTimestamp == old(prevTimestamp) && messageCount == old(messageCount)
      ensures Passes(filterList, id) ==>
                prevData == Some(data) && prevTimestamp == Some(timestamp) && messageCount == old(messageCount) + 1
                && line.value.id == id && |line.value.changed| == |data|
                && line.value.deltaMs == (if old(prevTimestamp).None? then 0.0 else (timestamp - old(prevTimestamp).value) * 1000.0)
                && forall i :: 0 <= i < |data| ==>
                     (!line.value.changed[i] <==> (old(prevData).Some? && old(prevData).value != []
                                                 && i < |old(prevData).value| && data[i] == old(prevData).value[i]))
    {
      if !(filterList == [] || id in filterList) {
        return None;
      }
      messageCount := messageCount + 1;
      var deltaMs := if prevTimestamp.None? then 0.0 else (timestamp - prevTimestamp.value) * 1000.0;
      prevTimestamp := Some(timestamp);
      var changed := ChangedBytes(prevData, data);
      prevData := Some(data);
      line := Some(MonitorLine(deltaMs, id, changed));
    }
  }

  // ---------------------------------------------------------------- flood

  /** `rates.get(priority.lower(), 100)` after `input(...) or "high"`. */
  function FloodRate(priorityText: string): (rate: nat)
    ensures priorityText == "" || Lower(priorityText) == "high" <==> rate == 1000
    ensures priorityText != "" && Lower(priorityText) == "medium" ==> rate == 100
    ensures priorityText != "" && Lower(priorityText) == "low" <==> rate == 10
    ensures rate == 1000 || rate == 100 || rate == 10
  {
    LowerOfRates();
    var priority := if priorityText == "" then "high" else priorityText;
    var rates := map["high" := 1000, "medium" := 100, "low" := 10];
    var p := Lower(priority);
    if p in rates then rates[p] else 100
  }

  lemma LowerOfRates()
    ensures Lower("high") == "high" && Lower("medium") == "medium" && Lower("low") == "low"
  {
  }

  /** The IDs the flood picks from. */
  const FLOOD_IDS: seq<int> := [0x244, 0x201, 0x2C0, 0x2D0, 0x2E0, 0x19B]

  /** One frame of the flood: a picked ICSim ID and 1 to 8 random bytes. */
  function FloodFrame(pick: nat, data: seq<byte>): (f: CanFrame)
    requires pick < |FLOOD_IDS| && 1 <= |data| <= 8
    ensures f.id in FLOOD_IDS && 1 <= |f.data| <= 8
  {
    CanFrame(FLOOD_IDS[pick], data)
  }
}
