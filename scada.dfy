/**
 * Bookkeeping of scada_module.py around the Modbus framing: the scan target
 * parser, the protocol-to-device-type classifier, the `ip:port` merge of the
 * two discovery scans, and the risk level of the assessment report.
 */
module Scada {
  import opened Base
  import opened PyInt

  // ------------------------------------------------------------ scan targets

  /** The hosts a scan walks: a CIDR block (expanded by a library), or an explicit list. */
  datatype Targets = Cidr(network: string) | Hosts(ips: seq<string>) | BadRange

  /** The address `f"{base_ip}.{i}"`. */
  function HostName(base: string, i: int): string {
    base + "." + IntToString(i)
  }

  /** `f"{base_ip}.{i}" for i in range(lo, hi)`. */
  function HostList(base: string, lo: int, hi: int): (r: seq<string>)
    ensures |r| == if lo < hi then hi - lo else 0
    ensures forall k :: 0 <= k < |r| ==> r[k] == HostName(base, lo + k)
    decreases hi - lo
  {
    if lo >= hi then []
    else
      var rest := HostList(base, lo + 1, hi);
      var r := [HostName(base, lo)] + rest;
      HostListCons(base, lo, rest, r);
      r
  }

  lemma HostListCons(base: string, lo: int, rest: seq<string>, r: seq<string>)
    requires forall k :: 0 <= k < |rest| ==> rest[k] == HostName(base, lo + 1 + k)
    requires r == [HostName(base, lo)] + rest
    ensures forall k :: 0 <= k < |r| ==> r[k] == HostName(base, lo + k)
  {
    forall k | 0 <= k < |r| ensures r[k] == HostName(base, lo + k) {
      if k > 0 {
        assert r[k] == rest[k - 1];
        assert lo + 1 + (k - 1) == lo + k;
      }
    }
  }

  /** `ip_range.rsplit('.', 1)` when it has two parts. */
  function RSplitDot(s: string): (r: Option<(string, string)>)
    ensures r.None? <==> '.' !in s
    ensures r.Some? ==> s == r.value.0 + "." + r.value.1 && '.' !in r.value.1
  {
    match LastIndexOf(s, '.')
    case None => None
    case Some(i) =>
      assert s == s[..i] + "." + s[i + 1..];
      Some((s[..i], s[i + 1..]))
  }

  /**
   * The target parser of `scan_modbus_devices`: a "/" means CIDR; otherwise a
   * "-" means `base.start-end`, scanned from `start` up to `min(end, 254)`;
   * otherwise the single address. BadRange is where the parse raises.
   */
  function ParseModbusTargets(s: string): (r: Targets)
    ensures '/' in s <==> r.Cidr?
    ensures '/' !in s && '-' !in s ==> r == Hosts([s])
    ensures r.BadRange? ==> '-' in s
  {
    if '/' in s then Cidr(s)
    else if '-' in s then
      match RSplitDot(s)
      case None => BadRange
      case Some((base, rangePart)) => RangeHosts(base, rangePart)
    else Hosts([s])
  }

  /** The `start-end` part after the last dot: both ends through `int()`, the end capped at 254. */
  function RangeHosts(base: string, rangePart: string): (r: Targets)
    ensures r.BadRange? || r.Hosts?
    ensures var b := Split(rangePart, '-');
            r.Hosts? <==> |b| == 2 && ParseInt(b[0]).Some? && ParseInt(b[1]).Some?
    ensures r.Hosts? ==>
              var b := Split(rangePart, '-');
              var lo, hi := ParseInt(b[0]).value, ParseInt(b[1]).value;
              var top := if hi < 254 then hi else 254;
              |r.ips| == (if lo <= top then top - lo + 1 else 0)
              && forall k :: 0 <= k < |r.ips| ==> r.ips[k] == HostName(base, lo + k)
  {
    var bounds := Split(rangePart, '-');
    if |bounds| != 2 then BadRange
    else
      var lo := ParseInt(bounds[0]);
      var hi := ParseInt(bounds[1]);
      if lo.Some? && hi.Some? then
        CappedHosts(base, lo.value, hi.value);
        Hosts(HostList(base, lo.value, if hi.value + 1 < 255 then hi.value + 1 else 255))
      else BadRange
  }

  /** `range(lo, min(hi + 1, 255))` gives the hosts `lo` to `min(hi, 254)`. */
  lemma CappedHosts(base: string, lo: int, hi: int)
    ensures var top := if hi < 254 then hi else 254;
            var ips := HostList(base, lo, if hi + 1 < 255 then hi + 1 else 255);
            |ips| == (if lo <= top then top - lo + 1 else 0)
            && forall k :: 0 <= k < |ips| ==> ips[k] == HostName(base, lo + k)
  {
  }

  /** `scan_industrial_devices` only knows CIDR blocks and single addresses. */
  function ParsePlcTargets(s: string): (r: Targets)
    ensures r.Cidr? <==> '/' in s
    ensures r.Hosts? <==> '/' !in s
    ensures r.Hosts? ==> r.ips == [s]
  {
    if '/' in s then Cidr(s) else Hosts([s])
  }

  /**
   * A range never reaches past host 254 and starts at its first number: the
   * addresses are exactly `base.lo`, ..., `base.min(hi, 254)`.
   */
  lemma RangeTargets(base: string, lo: nat, hi: nat)
    requires '/' !in base && '-' !in base
    ensures var t := ParseModbusTargets(base + "." + NatToString(lo) + "-" + NatToString(hi));
            var top := if hi < 254 then hi else 254;
            t.Hosts? && |t.ips| == (if lo <= top then top - lo + 1 else 0)
            && forall k :: 0 <= k < |t.ips| ==> t.ips[k] == HostName(base, lo + k)
  {
    RangeParsed(base, lo, hi);
  }

  lemma RangeParsed(base: string, lo: nat, hi: nat)
    requires '/' !in base && '-' !in base
    ensures ParseModbusTargets(base + "." + NatToString(lo) + "-" + NatToString(hi))
            == Hosts(HostList(base, lo, if hi + 1 < 255 then hi + 1 else 255))
  {
    var a := NatToString(lo);
    var b := NatToString(hi);
    RangeText(base, a, b);
    ParseIntOfIntToString(lo);
    ParseIntOfIntToString(hi);
    assert IntToString(lo) == a && IntToString(hi) == b;
    ParseRange(base, a, b, lo, hi);
  }

  /** A `base.a-b` text whose numbers parse becomes the host list from `a` to `min(b, 254)`. */
  lemma ParseRange(base: string, a: string, b: string, lo: int, hi: int)
    requires var s := base + "." + a + "-" + b;
             '/' !in s && '-' in s && RSplitDot(s) == Some((base, a + "-" + b))
             && Split(a + "-" + b, '-') == [a, b]
    requires ParseInt(a) == Some(lo) && ParseInt(b) == Some(hi)
    ensures ParseModbusTargets(base + "." + a + "-" + b) == Hosts(HostList(base, lo, if hi + 1 < 255 then hi + 1 else 255))
  {
    var s := base + "." + a + "-" + b;
    assert s == base + "." + (a + "-" + b);
    assert ParseModbusTargets(s) == RangeHosts(base, a + "-" + b);
    RangeHostsOfBounds(base, a + "-" + b, a, b, lo, hi);
  }

  lemma RangeHostsOfBounds(base: string, rangePart: string, a: string, b: string, lo: int, hi: int)
    requires Split(rangePart, '-') == [a, b]
    requires ParseInt(a) == Some(lo) && ParseInt(b) == Some(hi)
    ensures RangeHosts(base, rangePart) == Hosts(HostList(base, lo, if hi + 1 < 255 then hi + 1 else 255))
  {
  }

  predicate AllDecimal(a: string) {
    forall i :: 0 <= i < |a| ==> '0' <= a[i] <= '9'
  }

  /** How the parser takes `base.a-b` apart. */
  lemma RangeText(base: string, a: string, b: string)
    requires '/' !in base && '-' !in base && AllDecimal(a) && AllDecimal(b)
    ensures var s := base + "." + a + "-" + b;
            '/' !in s && '-' in s && RSplitDot(s) == Some((base, a + "-" + b))
            && Split(a + "-" + b, '-') == [a, b]
  {
    var rangePart := a + "-" + b;
    var s := base + "." + rangePart;
    assert s == base + "." + a + "-" + b;
    NoSlash(base, a, b);
    assert s[|base| + 1 + |a|] == '-';
    RangePartNoDot(a, b);
    var sp := RSplitDot(s).value;
    SplitAtLastDot(base, rangePart, sp.0, sp.1);
    SplitTwo(a, b);
  }

  lemma NoSlash(base: string, a: string, b: string)
    requires '/' !in base && AllDecimal(a) && AllDecimal(b)
    ensures '/' !in base + "." + (a + "-" + b)
  {
    var r := a + "-" + b;
    assert forall i :: 0 <= i < |r| ==> r[i] != '/' by {
      forall i | 0 <= i < |r| ensures r[i] != '/' {
        if i < |a| { assert r[i] == a[i]; }
        else if i > |a| { assert r[i] == b[i - |a| - 1]; }
      }
    }
    var s := base + "." + r;
    forall i | 0 <= i < |s| ensures s[i] != '/' {
      if i < |base| { assert s[i] == base[i]; }
      else if i > |base| { assert s[i] == r[i - |base| - 1]; }
    }
  }

  lemma RangePartNoDot(a: string, b: string)
    requires AllDecimal(a) && AllDecimal(b)
    ensures '.' !in a + "-" + b
  {
    var r := a + "-" + b;
    forall i | 0 <= i < |r| ensures r[i] != '.' {
      if i < |a| { assert r[i] == a[i]; }
      else if i > |a| { assert r[i] == b[i - |a| - 1]; }
    }
  }

  /** Two dot-splits of one string whose right parts have no dot agree. */
  lemma SplitAtLastDot(x: string, y: string, u: string, v: string)
    requires '.' !in y && '.' !in v
    requires x + "." + y == u + "." + v
    ensures x == u && y == v
  {
    var s := x + "." + y;
    assert s[|x|] == '.';
    assert s[|u|] == '.' by { assert s == u + "." + v; }
    assert forall k :: |x| < k < |s| ==> s[k] == y[k - |x| - 1];
    assert forall k :: |u| < k < |s| ==> s[k] == v[k - |u| - 1] by { assert s == u + "." + v; }
    assert |x| == |u|;
    assert x == s[..|x|] && y == s[|x| + 1..];
    assert u == s[..|u|] && v == s[|u| + 1..] by { assert s == u + "." + v; }
  }

  /** Splitting digits, dash, digits on the dash gives the two digit strings. */
  lemma SplitTwo(a: string, b: string)
    requires AllDecimal(a) && AllDecimal(b)
    ensures Split(a + "-" + b, '-') == [a, b]
  {
    assert '-' !in a && '-' !in b;
    SplitNoSep(b, '-');
    SplitAfterPiece(a, '-', b);
  }

  // ---------------------------------------------------------- device types

  /** `PLCScanner.common_ports`, in its declaration order. */
  const COMMON_PORTS: seq<(int, string)> := [
    (102, "S7comm (Siemens)"),
    (44818, "EtherNet/IP (Allen-Bradley)"),
    (502, "Modbus TCP"),
    (20000, "DNP3"),
    (2404, "IEC 61850 MMS"),
    (9600, "OMRON FINS"),
    (1962, "PCWorx (Phoenix Contact)"),
    (5007, "Mitsubishi MELSEC")
  ]

  /** `_identify_device_type`: the first vendor or protocol name found in the protocol label. */
  function IdentifyDeviceType(protocol: string): (r: string)
    ensures Contains(protocol, "Siemens") ==> r == "Siemens PLC"
    ensures !Contains(protocol, "Siemens") && Contains(protocol, "Allen-Bradley") ==> r == "Allen-Bradley PLC"
    ensures (!Contains(protocol, "Siemens") && !Contains(protocol, "Allen-Bradley")
             && Contains(protocol, "Modbus")) ==> r == "Modbus Device"
    ensures (!Contains(protocol, "Siemens") && !Contains(protocol, "Allen-Bradley")
             && !Contains(protocol, "Modbus") && Contains(protocol, "DNP3")) ==> r == "DNP3 Device"
    ensures (!Contains(protocol, "Siemens") && !Contains(protocol, "Allen-Bradley")
             && !Contains(protocol, "Modbus") && !Contains(protocol, "DNP3")) ==> r == "Industrial Device"
  {
    if Contains(protocol, "Siemens") then "Siemens PLC"
    else if Contains(protocol, "Allen-Bradley") then "Allen-Bradley PLC"
    else if Contains(protocol, "Modbus") then "Modbus Device"
    else if Contains(protocol, "DNP3") then "DNP3 Device"
    else "Industrial Device"
  }

  lemma ContainsAt(s: string, sub: string, i: nat)
    requires i + |sub| <= |s| && s[i..i + |sub|] == sub
    ensures Contains(s, sub)
    decreases i
  {
    if i > 0 {
      ContainsAt(s[1..], sub, i - 1);
      assert s[1..][i - 1..i - 1 + |sub|] == s[i..i + |sub|];
    }
  }

  /** A text missing one character of `sub` does not contain `sub`. */
  lemma {:induction false} NotContains(s: string, sub: string, c: char)
    requires c in sub && c !in s
    ensures !Contains(s, sub)
    decreases |s|
  {
    var i :| 0 <= i < |sub| && sub[i] == c;
    if |sub| <= |s| {
      assert s[..|sub|][i] != c;
    }
    if |s| > 0 {
      NotContains(s[1..], sub, c);
    }
  }

  /** The device types of the first four well-known ports. */
  const COMMON_PORT_TYPES: seq<string> := ["Siemens PLC", "Allen-Bradley PLC", "Modbus Device", "DNP3 Device"]

  /** What the classifier makes of the labels of the vendor-specific well-known ports. */
  lemma VendorPortTypes()
    ensures forall i :: 0 <= i < 4 ==> IdentifyDeviceType(COMMON_PORTS[i].1) == COMMON_PORT_TYPES[i]
  {
    forall i | 0 <= i < 4 ensures IdentifyDeviceType(COMMON_PORTS[i].1) == COMMON_PORT_TYPES[i] {
      var p := COMMON_PORTS[i].1;
      if i == 0 { SiemensLabel(p); }
      else if i == 1 { AllenBradleyLabel(p); }
      else if i == 2 { ModbusLabel(p); }
      else { Dnp3Label(p); }
    }
  }

  /** The remaining well-known ports fall through to the generic type. */
  lemma OtherPortTypes()
    ensures forall i :: 4 <= i < |COMMON_PORTS| ==> IdentifyDeviceType(COMMON_PORTS[i].1) == "Industrial Device"
  {
    forall i | 4 <= i < |COMMON_PORTS| ensures IdentifyDeviceType(COMMON_PORTS[i].1) == "Industrial Device" {
      var p := COMMON_PORTS[i].1;
      if i == 4 { Port4(p); } else if i == 5 { Port5(p); } else if i == 6 { Port6(p); } else { Port7(p); }
    }
  }

  // Each label lacks 'l', 'd' and '3', and one letter of "Siemens".
  lemma Port4(p: string) requires p == "IEC 61850 MMS" ensures IdentifyDeviceType(p) == "Industrial Device" {
    assert forall i :: 0 <= i < |p| ==> p[i] !in "ld3i";
    OtherLabel(p);
  }
  lemma Port5(p: string) requires p == "OMRON FINS" ensures IdentifyDeviceType(p) == "Industrial Device" {
    assert forall i :: 0 <= i < |p| ==> p[i] !in "ld3i";
    OtherLabel(p);
  }
  lemma Port6(p: string) requires p == "PCWorx (Phoenix Contact)" ensures IdentifyDeviceType(p) == "Industrial Device" {
    assert forall i :: 0 <= i < |p| ==> p[i] !in "ld3S";
    OtherLabel(p);
  }
  lemma Port7(p: string) requires p == "Mitsubishi MELSEC" ensures IdentifyDeviceType(p) == "Industrial Device" {
    assert forall i :: 0 <= i < |p| ==> p[i] !in "ld3e";
    OtherLabel(p);
  }

  lemma SiemensLabel(p: string)
    requires p == "S7comm (Siemens)"
    ensures Contains(p, "Siemens")
  {
    ContainsAt(p, "Siemens", 8);
  }

  lemma AllenBradleyLabel(p: string)
    requires p == "EtherNet/IP (Allen-Bradley)"
    ensures !Contains(p, "Siemens") && Contains(p, "Allen-Bradley")
  {
    NotContains(p, "Siemens", 'S');
    AllenBradleyAt(p);
  }

  lemma AllenBradleyAt(p: string)
    requires p == "EtherNet/IP (Allen-Bradley)"
    ensures Contains(p, "Allen-Bradley")
  {
    ContainsAt(p, "Allen-Bradley", 13);
  }

  lemma ModbusLabel(p: string)
    requires p == "Modbus TCP"
    ensures !Contains(p, "Siemens") && !Contains(p, "Allen-Bradley")
            && Contains(p, "Modbus")
  {
    assert !Contains(p, "Siemens") by { NotContains(p, "Siemens", 'S'); }
    assert !Contains(p, "Allen-Bradley") by { NotContains(p, "Allen-Bradley", 'A'); }
    assert Contains(p, "Modbus") by { ContainsAt(p, "Modbus", 0); }
  }

  lemma Dnp3Label(p: string)
    requires p == "DNP3"
    ensures !Contains(p, "Siemens") && !Contains(p, "Allen-Bradley")
            && !Contains(p, "Modbus") && Contains(p, "DNP3")
  {
    NotContains(p, "Siemens", 'S');
    NotContains(p, "Allen-Bradley", 'A');
    NotContains(p, "Modbus", 'M');
    ContainsAt(p, "DNP3", 0);
  }

  lemma OtherLabel(p: string)
    requires 'l' !in p && 'd' !in p && '3' !in p && ('S' !in p || 'i' !in p || 'e' !in p)
    ensures IdentifyDeviceType(p) == "Industrial Device"
  {
    if 'S' !in p { NotContains(p, "Siemens", 'S'); }
    else if 'i' !in p { NotContains(p, "Siemens", 'i'); }
    else { NotContains(p, "Siemens", 'e'); }
    NotContains(p, "Allen-Bradley", 'l');
    NotContains(p, "Modbus", 'd');
    NotContains(p, "DNP3", '3');
  }

  // ---------------------------------------------------------------- devices

  /** The `IndustrialDevice` fields the merge and the report read. */
  datatype Device = Device(ip: string, port: int, protocol: string, deviceType: string,
                           deviceInfo: map<string, string>, vulnerabilities: seq<string>)

  /** `f"{d.ip}:{d.port}"`. */
  function Key(d: Device): string {
    d.ip + ":" + IntToString(d.port)
  }

  /** A Python dict from key to device: insertion order plus the mapping. */
  datatype DeviceTable = DeviceTable(order: seq<string>, byKey: map<string, Device>)

  ghost predicate TableValid(t: DeviceTable) {
    (forall i, j :: 0 <= i < j < |t.order| ==> t.order[i] != t.order[j])
    && (forall k :: k in t.byKey <==> k in t.order)
    && (forall k :: k in t.byKey ==> Key(t.byKey[k]) == k)
  }

  /** Replacing the device under a known key keeps the table well formed. */
  lemma ReplaceValid(t: DeviceTable, d: Device)
    requires TableValid(t) && Key(d) in t.byKey
    ensures TableValid(t.(byKey := t.byKey[Key(d) := d]))
  {
  }

  /** Adding a device under a new key, at the end, keeps the table well formed. */
  lemma AppendValid(t: DeviceTable, d: Device)
    requires TableValid(t) && Key(d) !in t.byKey
    ensures TableValid(DeviceTable(t.order + [Key(d)], t.byKey[Key(d) := d]))
  {
    var r := DeviceTable(t.order + [Key(d)], t.byKey[Key(d) := d]);
    forall i, j | 0 <= i < j < |r.order| ensures r.order[i] != r.order[j] {
      if j == |t.order| {
        assert r.order[i] == t.order[i] && t.order[i] in t.byKey;
      }
    }
  }

  /** `table[key(d)] = d`: a new key goes last, an old one keeps its place. */
  function Put(t: DeviceTable, d: Device): (r: DeviceTable)
    ensures r.byKey == t.byKey[Key(d) := d]
    ensures Key(d) in t.byKey ==> r.order == t.order
    ensures Key(d) !in t.byKey ==> r.order == t.order + [Key(d)]
  {
    if Key(d) in t.byKey then t.(byKey := t.byKey[Key(d) := d])
    else DeviceTable(t.order + [Key(d)], t.byKey[Key(d) := d])
  }

  /** Storing a device keeps a well-formed table well formed. */
  lemma PutValid(t: DeviceTable, d: Device)
    requires TableValid(t)
    ensures TableValid(Put(t, d))
  {
    if Key(d) in t.byKey {
      ReplaceValid(t, d);
    } else {
      AppendValid(t, d);
    }
  }

  /** `known.device_info.update(d.device_info)`. */
  function UpdateInfo(known: Device, d: Device): (r: Device)
    ensures Key(r) == Key(known)
    ensures r.deviceInfo.Keys == known.deviceInfo.Keys + d.deviceInfo.Keys
    ensures forall f :: f in d.deviceInfo ==> r.deviceInfo[f] == d.deviceInfo[f]
  {
    known.(deviceInfo := known.deviceInfo + d.deviceInfo)
  }

  /**
   * The merge step for one Modbus-scan device: a device already known under
   * its key has its info updated (the other fields stay), a new one is added.
   */
  function Absorb(t: DeviceTable, d: Device): (r: DeviceTable)
    ensures r.byKey.Keys == t.byKey.Keys + {Key(d)}
    ensures Key(d) in t.byKey ==> r.order == t.order
    ensures Key(d) !in t.byKey ==> r.order == t.order + [Key(d)]
    ensures Key(d) in t.byKey ==> r.byKey == t.byKey[Key(d) := UpdateInfo(t.byKey[Key(d)], d)]
    ensures Key(d) !in t.byKey ==> r.byKey == t.byKey[Key(d) := d]
  {
    if Key(d) in t.byKey then t.(byKey := t.byKey[Key(d) := UpdateInfo(t.byKey[Key(d)], d)])
    else Put(t, d)
  }

  /** A merge step keeps a well-formed table well formed. */
  lemma AbsorbValid(t: DeviceTable, d: Device)
    requires TableValid(t)
    ensures TableValid(Absorb(t, d))
  {
    if Key(d) in t.byKey {
      ReplaceValid(t, UpdateInfo(t.byKey[Key(d)], d));
    } else {
      PutValid(t, d);
    }
  }

  /** Info fields, once in the table, survive later merge steps. */
  lemma AbsorbKeepsInfo(t: DeviceTable, d: Device)
    ensures forall k, f :: k in t.byKey && f in t.byKey[k].deviceInfo ==> f in Absorb(t, d).byKey[k].deviceInfo
    ensures forall f :: f in d.deviceInfo ==> f in Absorb(t, d).byKey[Key(d)].deviceInfo
  {
    forall k, f | k in t.byKey && f in t.byKey[k].deviceInfo ensures f in Absorb(t, d).byKey[k].deviceInfo {
      AbsorbField(t, d, k, f);
    }
    forall f | f in d.deviceInfo ensures f in Absorb(t, d).byKey[Key(d)].deviceInfo {
      AbsorbField(t, d, Key(d), f);
    }
  }

  /** One info field, of the table or of the absorbed device, after one merge step. */
  lemma AbsorbField(t: DeviceTable, d: Device, k: string, f: string)
    requires (k in t.byKey && f in t.byKey[k].deviceInfo) || (k == Key(d) && f in d.deviceInfo)
    ensures k in Absorb(t, d).byKey && f in Absorb(t, d).byKey[k].deviceInfo
  {
    var r := Absorb(t, d);
    if Key(d) in t.byKey {
      var known := UpdateInfo(t.byKey[Key(d)], d);
      assert r.byKey == t.byKey[Key(d) := known];
      if k == Key(d) {
        assert known.deviceInfo == t.byKey[k].deviceInfo + d.deviceInfo;
      }
    } else {
      assert r.byKey == t.byKey[Key(d) := d];
    }
  }

  function Values(t: DeviceTable): (r: seq<Device>)
    requires TableValid(t)
    ensures |r| == |t.order|
    ensures forall i :: 0 <= i < |r| ==> r[i] == t.byKey[t.order[i]]
  {
    seq(|t.order|, i requires 0 <= i < |t.order| => t.byKey[t.order[i]])
  }

  function Keys(ds: seq<Device>): set<string> {
    set i | 0 <= i < |ds| :: Key(ds[i])
  }

  lemma KeysSnoc(ds: seq<Device>, i: nat)
    requires i < |ds|
    ensures Keys(ds[..i + 1]) == Keys(ds[..i]) + {Key(ds[i])}
  {
    assert ds[..i + 1] == ds[..i] + [ds[i]];
    var a := ds[..i + 1];
    assert Key(a[i]) in Keys(a);
    forall k | k in Keys(a) ensures k in Keys(ds[..i]) + {Key(ds[i])} {
      var p :| 0 <= p < |a| && Key(a[p]) == k;
      if p < i { assert a[p] == ds[..i][p]; }
    }
    forall k | k in Keys(ds[..i]) ensures k in Keys(a) {
      var p :| 0 <= p < i && Key(ds[..i][p]) == k;
      assert a[p] == ds[..i][p];
    }
  }

  /** The keys of a non-empty list: those before its last device, and the last one's. */
  lemma KeysLast(ds: seq<Device>)
    requires ds != []
    ensures Keys(ds) == Keys(ds[..|ds| - 1]) + {Key(ds[|ds| - 1])}
  {
    KeysSnoc(ds, |ds| - 1);
    assert ds[..|ds| - 1 + 1] == ds;
  }

  /** The values of a well-formed table carry exactly its keys, each once. */
  lemma ValuesKeys(t: DeviceTable)
    requires TableValid(t)
    ensures Keys(Values(t)) == t.byKey.Keys
    ensures forall i, j :: 0 <= i < j < |Values(t)| ==> Key(Values(t)[i]) != Key(Values(t)[j])
    ensures forall k :: k in t.byKey ==> exists p :: 0 <= p < |Values(t)| && Values(t)[p] == t.byKey[k]
  {
    var v := Values(t);
    forall k | k in t.byKey ensures exists p :: 0 <= p < |v| && v[p] == t.byKey[k] {
      var p :| 0 <= p < |t.order| && t.order[p] == k;
      assert v[p] == t.byKey[k];
    }
    forall k | k in t.byKey ensures k in Keys(v) {
      var p :| 0 <= p < |t.order| && t.order[p] == k;
      assert Key(v[p]) == k;
    }
  }

  /** `{f"{d.ip}:{d.port}": d for d in devices}`: the last device wins a key, at the key's first place. */
  function TableOf(ds: seq<Device>): (t: DeviceTable)
    ensures t.byKey.Keys == Keys(ds)
    ensures |t.order| <= |ds|
  {
    if ds == [] then DeviceTable([], map[])
    else
      KeysLast(ds);
      Put(TableOf(ds[..|ds| - 1]), ds[|ds| - 1])
  }

  /** The comprehension builds a well-formed table. */
  lemma {:induction false} TableOfValid(ds: seq<Device>)
    ensures TableValid(TableOf(ds))
    decreases |ds|
  {
    if ds != [] {
      TableOfValid(ds[..|ds| - 1]);
      PutValid(TableOf(ds[..|ds| - 1]), ds[|ds| - 1]);
    }
  }

  /** Where key `k` first occurs in `ds`; `|ds|` when it does not occur. */
  function FirstIndex(ds: seq<Device>, k: string): (r: nat)
    ensures r <= |ds|
    ensures r < |ds| ==> Key(ds[r]) == k
    ensures forall j :: 0 <= j < r ==> Key(ds[j]) != k
  {
    if ds == [] then 0
    else
      var init := ds[..|ds| - 1];
      var a := FirstIndex(init, k);
      var r := if a < |init| then a else if Key(ds[|ds| - 1]) == k then |init| else |ds|;
      FirstIndexStep(ds, init, k, a, r);
      r
  }

  /** The first occurrence in all but the last device, or else the last device, is the first occurrence in all of them. */
  lemma FirstIndexStep(ds: seq<Device>, init: seq<Device>, k: string, a: nat, r: nat)
    requires ds != [] && init == ds[..|ds| - 1]
    requires a <= |init| && (a < |init| ==> Key(init[a]) == k)
    requires forall j :: 0 <= j < a ==> Key(init[j]) != k
    requires r == if a < |init| then a else if Key(ds[|ds| - 1]) == k then |init| else |ds|
    ensures r <= |ds| && (r < |ds| ==> Key(ds[r]) == k)
    ensures forall j :: 0 <= j < r ==> Key(ds[j]) != k
  {
    if a < |init| {
      assert init[a] == ds[a];
    }
    PrefixKeysDiffer(ds, init, k, a);
    if r == |ds| {
      LastKeyDiffers(ds, k, a);
    }
  }

  /** Keys differing from `k` before the last device, and at it, differ everywhere. */
  lemma LastKeyDiffers(ds: seq<Device>, k: string, a: nat)
    requires ds != [] && a == |ds| - 1 && Key(ds[a]) != k
    requires forall j :: 0 <= j < a ==> Key(ds[j]) != k
    ensures forall j :: 0 <= j < |ds| ==> Key(ds[j]) != k
  {
    forall j | 0 <= j < |ds| ensures Key(ds[j]) != k {
      if j < a {
      }
    }
  }

  lemma PrefixKeysDiffer(ds: seq<Device>, init: seq<Device>, k: string, a: nat)
    requires ds != [] && init == ds[..|ds| - 1] && a <= |init|
    requires forall j :: 0 <= j < a ==> Key(init[j]) != k
    ensures forall j :: 0 <= j < a ==> Key(ds[j]) != k
  {
    forall j | 0 <= j < a ensures Key(ds[j]) != k {
      assert init[j] == ds[j];
    }
  }

  lemma FirstIndexKeys(ds: seq<Device>, k: string)
    ensures FirstIndex(ds, k) < |ds| <==> k in Keys(ds)
  {
    var r := FirstIndex(ds, k);
    if r < |ds| {
      assert Key(ds[r]) == k;
    }
  }

  /** Appending a device moves no first occurrence; a new key first occurs at the end. */
  lemma FirstIndexSnoc(ds: seq<Device>, k: string)
    requires ds != []
    ensures var init := ds[..|ds| - 1];
            FirstIndex(ds, k) == if FirstIndex(init, k) < |init| then FirstIndex(init, k)
                                 else if Key(ds[|ds| - 1]) == k then |init| else |ds|
  {
  }

  /** `{key(d): d for d in ds}`: the last device with a key is the one stored under it. */
  lemma {:induction false} TableOfLastWins(ds: seq<Device>, i: nat)
    requires i < |ds|
    requires forall j :: i < j < |ds| ==> Key(ds[j]) != Key(ds[i])
    ensures Key(ds[i]) in TableOf(ds).byKey && TableOf(ds).byKey[Key(ds[i])] == ds[i]
    decreases |ds|
  {
    var init := ds[..|ds| - 1];
    if i < |ds| - 1 {
      assert init[i] == ds[i];
      TableOfLastWins(init, i);
    }
  }

  /**
   * The keys of `o` from position `from` on all occur in `ds`, in the order
   * of their first occurrence there.
   */
  ghost predicate FirstOrdered(ds: seq<Device>, o: seq<string>, from: nat) {
    (forall p :: from <= p < |o| ==> FirstIndex(ds, o[p]) < |ds|)
    && (forall p, q :: from <= p < q < |o| ==> FirstIndex(ds, o[p]) < FirstIndex(ds, o[q]))
  }

  /** Appending a device keeps a key order in first-occurrence order, when a key new to it goes last. */
  lemma FirstOrderedSnoc(ds: seq<Device>, o0: seq<string>, o: seq<string>, from: nat)
    requires ds != [] && FirstOrdered(ds[..|ds| - 1], o0, from)
    requires o == o0 || (o == o0 + [Key(ds[|ds| - 1])] && Key(ds[|ds| - 1]) !in Keys(ds[..|ds| - 1]))
    ensures FirstOrdered(ds, o, from)
  {
    var init, k := ds[..|ds| - 1], Key(ds[|ds| - 1]);
    forall p | from <= p < |o0| ensures FirstIndex(ds, o0[p]) == FirstIndex(init, o0[p]) {
      FirstIndexSnoc(ds, o0[p]);
    }
    if o != o0 {
      FirstIndexSnoc(ds, k);
      FirstIndexKeys(init, k);
      assert forall p :: 0 <= p < |o0| ==> o[p] == o0[p];
    }
  }

  /** `{key(d): d for d in ds}` lists each key once, in the order of its first occurrence. */
  lemma {:induction false} TableOfOrder(ds: seq<Device>)
    ensures FirstOrdered(ds, TableOf(ds).order, 0)
    decreases |ds|
  {
    if ds != [] {
      var init := ds[..|ds| - 1];
      TableOfOrder(init);
      assert TableOf(ds) == Put(TableOf(init), ds[|ds| - 1]) by { assert ds[..|ds| - 1 + 1] == ds; }
      FirstOrderedSnoc(ds, TableOf(init).order, TableOf(ds).order, 0);
    }
  }

  /**
   * The info the devices under key `k` contribute, each one's fields
   * overriding the same fields of the earlier ones; empty when no device
   * has key `k`.
   */
  function InfoFor(ds: seq<Device>, k: string): (r: map<string, string>)
    ensures k !in Keys(ds) ==> r == map[]
  {
    if ds == [] then map[]
    else
      KeysLast(ds);
      InfoFor(ds[..|ds| - 1], k) + (if Key(ds[|ds| - 1]) == k then ds[|ds| - 1].deviceInfo else map[])
  }

  /** The merge loop: each Modbus-scan device absorbed in turn. */
  function AbsorbAll(t: DeviceTable, ds: seq<Device>): (r: DeviceTable)
    ensures r.byKey.Keys == t.byKey.Keys + Keys(ds)
    ensures |r.order| <= |t.order| + |ds|
    decreases |ds|
  {
    if ds == [] then t
    else
      var r0 := AbsorbAll(t, ds[..|ds| - 1]);
      AbsorbGrows(t, r0, ds);
      Absorb(r0, ds[|ds| - 1])
  }

  /** The keys and the length bound of the fold carry over one more merge step. */
  lemma AbsorbGrows(t: DeviceTable, r0: DeviceTable, ds: seq<Device>)
    requires ds != []
    requires r0.byKey.Keys == t.byKey.Keys + Keys(ds[..|ds| - 1]) && |r0.order| <= |t.order| + |ds| - 1
    ensures var r := Absorb(r0, ds[|ds| - 1]);
            r.byKey.Keys == t.byKey.Keys + Keys(ds) && |r.order| <= |t.order| + |ds|
  {
    var d := ds[|ds| - 1];
    KeysLast(ds);
    assert Absorb(r0, d).byKey.Keys == r0.byKey.Keys + {Key(d)};
    AbsorbOrder(r0, d);
  }

  /** Absorbing any list of devices keeps a well-formed table well formed. */
  lemma {:induction false} AbsorbAllValid(t: DeviceTable, ds: seq<Device>)
    requires TableValid(t)
    ensures TableValid(AbsorbAll(t, ds))
    decreases |ds|
  {
    if ds != [] {
      AbsorbAllValid(t, ds[..|ds| - 1]);
      AbsorbValid(AbsorbAll(t, ds[..|ds| - 1]), ds[|ds| - 1]);
    }
  }

  /**
   * A device already in the table keeps every field but its info, which
   * the absorbed devices under its key update in turn.
   */
  lemma {:induction false} AbsorbAllKnown(t: DeviceTable, ds: seq<Device>, k: string)
    requires k in t.byKey
    ensures AbsorbAll(t, ds).byKey[k] == t.byKey[k].(deviceInfo := t.byKey[k].deviceInfo + InfoFor(ds, k))
    decreases |ds|
  {
    if ds == [] {
      UnionAssoc(t.byKey[k].deviceInfo, map[], map[]);
      assert t.byKey[k].(deviceInfo := t.byKey[k].deviceInfo) == t.byKey[k];
    } else {
      var init, d := ds[..|ds| - 1], ds[|ds| - 1];
      AbsorbAllKnown(t, init, k);
      var r0 := AbsorbAll(t, init);
      AbsorbAllLast(t, ds);
      AbsorbAt(r0, d, k);
      var a, b := t.byKey[k].deviceInfo, InfoFor(init, k);
      var c: map<string, string> := if Key(d) == k then d.deviceInfo else map[];
      UnionAssoc(a, b, c);
      UnionAssoc(b, c, c);
      InfoForLast(ds, k);
      var known := t.byKey[k];
      assert r0.byKey[k] == known.(deviceInfo := a + b);
      if Key(d) == k {
        assert AbsorbAll(t, ds).byKey[k] == known.(deviceInfo := (a + b) + c);
      } else {
        assert AbsorbAll(t, ds).byKey[k] == known.(deviceInfo := a + b);
        assert b + c == b;
      }
    }
  }

  /** Absorbing one device changes the entry under a known key only when the device has that key. */
  lemma AbsorbAt(t: DeviceTable, d: Device, k: string)
    requires k in t.byKey
    ensures var known := t.byKey[k];
            Absorb(t, d).byKey[k] == if Key(d) == k then known.(deviceInfo := known.deviceInfo + d.deviceInfo) else known
  {
  }

  lemma UnionAssoc(a: map<string, string>, b: map<string, string>, c: map<string, string>)
    ensures (a + b) + c == a + (b + c)
    ensures a + map[] == a && map[] + a == a
  {
  }

  /**
   * A key new to the table holds the first absorbed device under it, with
   * the info of all absorbed devices under that key.
   */
  lemma {:induction false} AbsorbAllNew(t: DeviceTable, ds: seq<Device>, i: nat)
    requires i < |ds| && Key(ds[i]) !in t.byKey
    requires forall j :: 0 <= j < i ==> Key(ds[j]) != Key(ds[i])
    ensures AbsorbAll(t, ds).byKey[Key(ds[i])] == ds[i].(deviceInfo := InfoFor(ds, Key(ds[i])))
    decreases |ds|
  {
    if i == |ds| - 1 {
      AbsorbAllFirst(t, ds);
    } else {
      var k := Key(ds[i]);
      var init, d := ds[..|ds| - 1], ds[|ds| - 1];
      assert init[i] == ds[i];
      AbsorbAllNew(t, init, i);
      var r0 := AbsorbAll(t, init);
      assert k in r0.byKey by { assert Key(init[i]) in Keys(init); }
      AbsorbEntry(r0, d, ds[i], k, InfoFor(init, k));
      AbsorbAllLast(t, ds);
      InfoForLast(ds, k);
    }
  }

  /** One merge step adds the device's info to the entry under its key, and leaves other entries alone. */
  lemma AbsorbEntry(t: DeviceTable, d: Device, e: Device, k: string, info: map<string, string>)
    requires k in t.byKey && t.byKey[k] == e.(deviceInfo := info)
    ensures k in Absorb(t, d).byKey
    ensures Absorb(t, d).byKey[k] == e.(deviceInfo := info + (if Key(d) == k then d.deviceInfo else map[]))
  {
    AbsorbAt(t, d, k);
    UnionAssoc(info, map[], map[]);
  }

  /** The fold, unfolded once at its last device. */
  lemma AbsorbAllLast(t: DeviceTable, ds: seq<Device>)
    requires ds != []
    ensures AbsorbAll(t, ds) == Absorb(AbsorbAll(t, ds[..|ds| - 1]), ds[|ds| - 1])
  {
  }

  /** The info fold, unfolded once at its last device. */
  lemma InfoForLast(ds: seq<Device>, k: string)
    requires ds != []
    ensures InfoFor(ds, k) == InfoFor(ds[..|ds| - 1], k) + (if Key(ds[|ds| - 1]) == k then ds[|ds| - 1].deviceInfo else map[])
  {
  }

  /** A device whose key neither the table nor the earlier devices have is stored as it is. */
  lemma AbsorbAllFirst(t: DeviceTable, ds: seq<Device>)
    requires ds != [] && Key(ds[|ds| - 1]) !in t.byKey
    requires forall j :: 0 <= j < |ds| - 1 ==> Key(ds[j]) != Key(ds[|ds| - 1])
    ensures var d := ds[|ds| - 1];
            AbsorbAll(t, ds).byKey[Key(d)] == d.(deviceInfo := InfoFor(ds, Key(d)))
  {
    var init, d := ds[..|ds| - 1], ds[|ds| - 1];
    var k := Key(d);
    assert k !in Keys(init) by {
      FirstIndexKeys(init, k);
    }
    assert InfoFor(ds, k) == d.deviceInfo by {
      InfoForLast(ds, k);
      UnionAssoc(d.deviceInfo, map[], map[]);
    }
    var r0 := AbsorbAll(t, init);
    assert k !in r0.byKey;
    AbsorbAllLast(t, ds);
  }

  /** One merge step keeps the order, or appends the device's key when it is new. */
  lemma AbsorbOrder(t: DeviceTable, d: Device)
    ensures var r := Absorb(t, d);
            |t.order| <= |r.order| <= |t.order| + 1 && r.order[..|t.order|] == t.order
            && (|r.order| == |t.order| + 1 ==> r.order[|t.order|] == Key(d) && Key(d) !in t.byKey)
  {
    var r := Absorb(t, d);
    if Key(d) !in t.byKey {
      assert r.order == t.order + [Key(d)];
      assert r.order[..|t.order|] == t.order;
    }
  }

  /** Absorbing keeps the table's order as a prefix, and every key it appends is new to the table. */
  lemma {:induction false} AbsorbAllPrefix(t: DeviceTable, ds: seq<Device>)
    ensures var r := AbsorbAll(t, ds); |t.order| <= |r.order| && r.order[..|t.order|] == t.order
    ensures var r := AbsorbAll(t, ds); forall p :: |t.order| <= p < |r.order| ==> r.order[p] !in t.byKey
    decreases |ds|
  {
    if ds != [] {
      var init, d := ds[..|ds| - 1], ds[|ds| - 1];
      AbsorbAllPrefix(t, init);
      var r0 := AbsorbAll(t, init);
      var r := AbsorbAll(t, ds);
      assert r == Absorb(r0, d);
      AbsorbOrder(r0, d);
      PrefixStep(t.order, r0.order, r.order);
      forall p | |t.order| <= p < |r.order| ensures r.order[p] !in t.byKey {
        if p < |r0.order| {
          assert r.order[p] == r0.order[p] by { assert r.order[..|r0.order|][p] == r0.order[p]; }
        } else {
          assert t.byKey.Keys <= r0.byKey.Keys;
        }
      }
    }
  }

  /** A prefix of a prefix is a prefix. */
  lemma PrefixStep(a: seq<string>, b: seq<string>, c: seq<string>)
    requires |a| <= |b| <= |c| && b[..|a|] == a && c[..|b|] == b
    ensures c[..|a|] == a
  {
    assert forall i :: 0 <= i < |a| ==> c[i] == c[..|b|][i];
  }

  /** The keys absorbing appends come in the order of their first occurrence. */
  lemma {:induction false} AbsorbAllOrder(t: DeviceTable, ds: seq<Device>)
    ensures |t.order| <= |AbsorbAll(t, ds).order|
    ensures FirstOrdered(ds, AbsorbAll(t, ds).order, |t.order|)
    decreases |ds|
  {
    AbsorbAllPrefix(t, ds);
    if ds != [] {
      var init, d := ds[..|ds| - 1], ds[|ds| - 1];
      AbsorbAllOrder(t, init);
      var r0 := AbsorbAll(t, init);
      var r := AbsorbAll(t, ds);
      assert r == Absorb(r0, d);
      assert Key(d) !in r0.byKey ==> Key(d) !in Keys(init);
      FirstOrderedSnoc(ds, r0.order, r.order, |t.order|);
    }
  }

  /**
   * A PLC-scan device (the last one under its key) leaves the merge with its
   * address, protocol, type and vulnerabilities, and with its info updated
   * by the info of the Modbus-scan devices under its key, theirs winning.
   */
  lemma MergeUpdatesPlcDevice(plc: seq<Device>, modbus: seq<Device>, i: nat)
    requires i < |plc| && forall j :: i < j < |plc| ==> Key(plc[j]) != Key(plc[i])
    ensures var d := AbsorbAll(TableOf(plc), modbus).byKey[Key(plc[i])];
            d.ip == plc[i].ip && d.port == plc[i].port && d.protocol == plc[i].protocol
            && d.deviceType == plc[i].deviceType && d.vulnerabilities == plc[i].vulnerabilities
            && d.deviceInfo == plc[i].deviceInfo + InfoFor(modbus, Key(plc[i]))
  {
    TableOfLastWins(plc, i);
    AbsorbAllKnown(TableOf(plc), modbus, Key(plc[i]));
  }

  /**
   * A Modbus-scan device under a key the PLC scan did not report is added
   * as first found, with the info of every Modbus-scan device under its key.
   */
  lemma MergeAddsModbusDevice(plc: seq<Device>, modbus: seq<Device>, i: nat)
    requires i < |modbus| && Key(modbus[i]) !in Keys(plc)
    requires forall j :: 0 <= j < i ==> Key(modbus[j]) != Key(modbus[i])
    ensures AbsorbAll(TableOf(plc), modbus).byKey[Key(modbus[i])]
            == modbus[i].(deviceInfo := InfoFor(modbus, Key(modbus[i])))
  {
    AbsorbAllNew(TableOf(plc), modbus, i);
  }

  /**
   * The merged order: the PLC-scan keys come first, in the order they were
   * first reported, then the new Modbus-scan keys in the order they were
   * first reported.
   */
  lemma MergeOrder(plc: seq<Device>, modbus: seq<Device>)
    ensures var o := AbsorbAll(TableOf(plc), modbus).order;
            forall p, q :: 0 <= p < q < |o| ==>
              (o[p] !in Keys(plc) ==> o[q] !in Keys(plc) && FirstIndex(modbus, o[p]) < FirstIndex(modbus, o[q]))
              && (o[q] in Keys(plc) ==> FirstIndex(plc, o[p]) < FirstIndex(plc, o[q]))
  {
    var t := TableOf(plc);
    TableOfOrder(plc);
    AbsorbAllPrefix(t, modbus);
    AbsorbAllOrder(t, modbus);
    var o := AbsorbAll(t, modbus).order;
    var n := |t.order|;
    forall p | 0 <= p < n ensures o[p] == t.order[p] && o[p] in Keys(plc) {
      assert o[..n][p] == o[p];
      assert t.order[p] in t.order;
    }
    forall p, q | 0 <= p < q < |o|
      ensures o[p] !in Keys(plc) ==> o[q] !in Keys(plc) && FirstIndex(modbus, o[p]) < FirstIndex(modbus, o[q])
      ensures o[q] in Keys(plc) ==> FirstIndex(plc, o[p]) < FirstIndex(plc, o[q])
    {
      if q < n {
        assert FirstIndex(plc, t.order[p]) < FirstIndex(plc, t.order[q]);
      } else {
        assert o[q] !in Keys(plc);
      }
    }
  }

  /** Every info field of the first `j` Modbus-scan devices is in the table under that device's key. */
  ghost predicate InfoKept(t: DeviceTable, modbus: seq<Device>, j: nat)
    requires j <= |modbus|
  {
    forall m, f :: 0 <= m < j && f in modbus[m].deviceInfo ==>
      Key(modbus[m]) in t.byKey && f in t.byKey[Key(modbus[m])].deviceInfo
  }

  /** Every info field of an absorbed device is in the table under that device's key. */
  lemma {:induction false} AbsorbAllKeepsInfo(t: DeviceTable, ds: seq<Device>)
    ensures InfoKept(AbsorbAll(t, ds), ds, |ds|)
    decreases |ds|
  {
    if ds != [] {
      var init := ds[..|ds| - 1];
      AbsorbAllKeepsInfo(t, init);
      var r0 := AbsorbAll(t, init);
      assert InfoKept(r0, ds, |init|) by {
        assert forall m :: 0 <= m < |init| ==> ds[m] == init[m];
      }
      AbsorbStepInfo(r0, ds, |init|);
      assert AbsorbAll(t, ds) == Absorb(r0, ds[|init|]);
    }
  }

  lemma AbsorbStepInfo(t: DeviceTable, modbus: seq<Device>, j: nat)
    requires j < |modbus|
    requires InfoKept(t, modbus, j)
    ensures InfoKept(Absorb(t, modbus[j]), modbus, j + 1)
  {
    var r := Absorb(t, modbus[j]);
    forall m, f | 0 <= m < j + 1 && f in modbus[m].deviceInfo
      ensures Key(modbus[m]) in r.byKey && f in r.byKey[Key(modbus[m])].deviceInfo
    {
      var k := Key(modbus[m]);
      assert m < j ==> k in t.byKey && f in t.byKey[k].deviceInfo;
      AbsorbField(t, modbus[j], k, f);
    }
  }

  /** What the table keeps, its values keep. */
  lemma MergedInfo(t: DeviceTable, modbus: seq<Device>)
    requires TableValid(t) && InfoKept(t, modbus, |modbus|)
    ensures forall i, f :: 0 <= i < |modbus| && f in modbus[i].deviceInfo ==>
              exists j :: 0 <= j < |Values(t)| && Key(Values(t)[j]) == Key(modbus[i]) && f in Values(t)[j].deviceInfo
  {
    var merged := Values(t);
    ValuesKeys(t);
    forall m, f | 0 <= m < |modbus| && f in modbus[m].deviceInfo
      ensures exists p :: 0 <= p < |merged| && Key(merged[p]) == Key(modbus[m]) && f in merged[p].deviceInfo
    {
      var k := Key(modbus[m]);
      var p :| 0 <= p < |merged| && merged[p] == t.byKey[k];
      assert Key(merged[p]) == k;
    }
  }

  /** The merged list read off the final table meets the merge's promises. */
  lemma MergedValues(plc: seq<Device>, modbus: seq<Device>)
    ensures TableValid(AbsorbAll(TableOf(plc), modbus))
    ensures var merged := Values(AbsorbAll(TableOf(plc), modbus));
            (forall i, j :: 0 <= i < j < |merged| ==> Key(merged[i]) != Key(merged[j]))
            && Keys(merged) == Keys(plc) + Keys(modbus)
            && |merged| <= |plc| + |modbus|
    ensures var merged := Values(AbsorbAll(TableOf(plc), modbus));
            forall i, f :: 0 <= i < |modbus| && f in modbus[i].deviceInfo ==>
              exists j :: 0 <= j < |merged| && Key(merged[j]) == Key(modbus[i]) && f in merged[j].deviceInfo
  {
    var t := AbsorbAll(TableOf(plc), modbus);
    TableOfValid(plc);
    AbsorbAllValid(TableOf(plc), modbus);
    ValuesKeys(t);
    AbsorbAllKeepsInfo(TableOf(plc), modbus);
    MergedInfo(t, modbus);
  }

  /**
   * The merge in `device_discovery`: a table of the PLC-scan devices, into
   * which each Modbus-scan device is absorbed; the result is the table's
   * values in insertion order.
   */
  method MergeDevices(plc: seq<Device>, modbus: seq<Device>) returns (merged: seq<Device>)
    ensures TableValid(AbsorbAll(TableOf(plc), modbus))
    ensures merged == Values(AbsorbAll(TableOf(plc), modbus))
    ensures forall i, j :: 0 <= i < j < |merged| ==> Key(merged[i]) != Key(merged[j])
    ensures Keys(merged) == Keys(plc) + Keys(modbus)
    ensures |merged| <= |plc| + |modbus|
    ensures forall i, f :: 0 <= i < |modbus| && f in modbus[i].deviceInfo ==>
              exists j :: 0 <= j < |merged| && Key(merged[j]) == Key(modbus[i]) && f in merged[j].deviceInfo
  {
    var t := TableOf(plc);
    var j := 0;
    while j < |modbus|
      invariant 0 <= j <= |modbus|
      invariant t == AbsorbAll(TableOf(plc), modbus[..j])
    {
      AbsorbAllSnoc(TableOf(plc), modbus, j);
      t := Absorb(t, modbus[j]);
      j := j + 1;
    }
    assert modbus[..|modbus|] == modbus;
    TableOfValid(plc);
    AbsorbAllValid(TableOf(plc), modbus);
    merged := Values(t);
    MergedValues(plc, modbus);
  }

  lemma AbsorbAllSnoc(t: DeviceTable, ds: seq<Device>, j: nat)
    requires j < |ds|
    ensures AbsorbAll(t, ds[..j + 1]) == Absorb(AbsorbAll(t, ds[..j]), ds[j])
  {
    assert ds[..j + 1][..j] == ds[..j];
  }

  // ------------------------------------------------------------------ report

  datatype Risk = LOW | MEDIUM | HIGH

  /** The report's risk rule: HIGH above half the devices vulnerable, MEDIUM for any, else LOW. */
  function RiskLevel(total: nat, vulnerable: nat): (r: Risk)
    ensures r == HIGH <==> 2 * vulnerable > total
    ensures r == MEDIUM <==> 0 < vulnerable && 2 * vulnerable <= total
    ensures r == LOW <==> vulnerable == 0
  {
    if 2 * vulnerable > total then HIGH else if vulnerable > 0 then MEDIUM else LOW
  }

  /** `len([d for d in devices if d.vulnerabilities])`. */
  function CountVulnerable(ds: seq<Device>): (n: nat)
    ensures n <= |ds|
    ensures n == 0 <==> forall i :: 0 <= i < |ds| ==> ds[i].vulnerabilities == []
  {
    if ds == [] then 0
    else CountVulnerable(ds[..|ds| - 1]) + (if ds[|ds| - 1].vulnerabilities != [] then 1 else 0)
  }

  /** The risk of a device list: HIGH when every device is vulnerable, LOW when none is. */
  lemma ReportRisk(ds: seq<Device>)
    requires |ds| > 0
    ensures (forall i :: 0 <= i < |ds| ==> ds[i].vulnerabilities != []) ==> RiskLevel(|ds|, CountVulnerable(ds)) == HIGH
    ensures (forall i :: 0 <= i < |ds| ==> ds[i].vulnerabilities == []) <==> RiskLevel(|ds|, CountVulnerable(ds)) == LOW
  {
    if forall i :: 0 <= i < |ds| ==> ds[i].vulnerabilities != [] {
      AllVulnerable(ds);
    }
  }

  lemma {:induction false} AllVulnerable(ds: seq<Device>)
    requires forall i :: 0 <= i < |ds| ==> ds[i].vulnerabilities != []
    ensures CountVulnerable(ds) == |ds|
    decreases |ds|
  {
    if ds != [] {
      AllVulnerable(ds[..|ds| - 1]);
    }
  }
}
