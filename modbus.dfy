/**
 * Modbus/TCP framing and reply parsing as done by the scanner and attacker
 * classes of scada_module.py. A frame is the MBAP header of the Modbus
 * Messaging on TCP/IP Implementation Guide v1.0b, section 3.1.3 (transaction
 * id, protocol id, length, unit id), followed by the PDU (function code and
 * data). Replies are inputs: the bytes `sock.recv` would have returned.
 */
module Modbus {
  import opened Base

  predicate IsByte(x: int) { 0 <= x < 256 }

  /** One positional argument of `_build_modbus_request`: an int or a bytes object. */
  datatype Arg = IntArg(n: int) | BytesArg(b: seq<byte>)

  /**
   * Bytes one argument adds to the PDU. An int up to 0xFF is packed as ONE
   * byte (`'B'`), a larger one as two big-endian bytes (`'>H'`); None where
   * `struct.pack` raises (a negative int, or one above 0xFFFF).
   */
  function ArgBytes(a: Arg): (r: Option<seq<byte>>)
    ensures a.IntArg? && 0 <= a.n <= 0xFF ==> r == Some([a.n])
    ensures a.IntArg? && 0xFF < a.n <= 0xFFFF ==> r.Some? && |r.value| == 2 && BE16(r.value[0], r.value[1]) == a.n
    ensures a.IntArg? && (a.n < 0 || a.n > 0xFFFF) ==> r.None?
    ensures a.BytesArg? ==> r == Some(a.b)
  {
    match a
    case IntArg(n) =>
      if n <= 0xFF then (if n < 0 then None else Some([n]))
      else if n <= 0xFFFF then Some(U16Bytes(n))
      else None
    case BytesArg(b) => Some(b)
  }

  /** The PDU data after the function code: every argument's bytes, in order. */
  function EncodeArgs(args: seq<Arg>): (r: Option<seq<byte>>)
    ensures r.Some? <==> forall i :: 0 <= i < |args| ==> ArgBytes(args[i]).Some?
    ensures |args| == 1 ==> r == ArgBytes(args[0])
  {
    if args == [] then Some([])
    else
      match EncodeArgs(args[..|args| - 1])
      case None => None
      case Some(p) =>
        match ArgBytes(args[|args| - 1])
        case None => None
        case Some(b) =>
          assert |args| == 1 ==> p == [] && p + b == b;
          Some(p + b)
  }

  /** One more argument appends its bytes, or fails the whole encoding. */
  lemma EncodeArgsSnoc(args: seq<Arg>, i: nat)
    requires i < |args|
    ensures EncodeArgs(args[..i + 1]) ==
              if EncodeArgs(args[..i]).Some? && ArgBytes(args[i]).Some?
              then Some(EncodeArgs(args[..i]).value + ArgBytes(args[i]).value)
              else None
  {
    assert args[..i + 1][..i] == args[..i];
  }

  /**
   * The arguments are appended verbatim and in order: the bytes of `a + b`
   * are the bytes of `a` followed by the bytes of `b`.
   */
  lemma {:induction false} EncodeArgsConcat(a: seq<Arg>, b: seq<Arg>)
    ensures EncodeArgs(a + b).Some? <==> EncodeArgs(a).Some? && EncodeArgs(b).Some?
    ensures EncodeArgs(a + b).Some? ==> EncodeArgs(a + b).value == EncodeArgs(a).value + EncodeArgs(b).value
    decreases |b|
  {
    if b == [] {
      assert a + b == a;
    } else {
      var init := b[..|b| - 1];
      EncodeArgsConcat(a, init);
      assert (a + b)[..|a + b| - 1] == a + init;
      assert (a + b)[|a + b| - 1] == b[|b| - 1];
      if EncodeArgs(a + b).Some? {
        assert EncodeArgs(a + init).Some?;
        assert EncodeArgs(a + b).value == EncodeArgs(a + init).value + ArgBytes(b[|b| - 1]).value;
      }
    }
  }

  /** `struct.pack('>HHHB', transaction_id, protocol_id, length, unit_id)`. */
  function Mbap(tid: nat, proto: nat, length: nat, unit: byte): (r: seq<byte>)
    requires tid < 0x1_0000 && proto < 0x1_0000 && length < 0x1_0000
    ensures |r| == 7
  {
    [tid / 256, tid % 256, proto / 256, proto % 256, length / 256, length % 256, unit]
  }

  /** The header fields read back from their big-endian bytes. */
  lemma MbapFields(tid: nat, proto: nat, length: nat, unit: byte)
    requires tid < 0x1_0000 && proto < 0x1_0000 && length < 0x1_0000
    ensures var r := Mbap(tid, proto, length, unit);
            BE16(r[0], r[1]) == tid && BE16(r[2], r[3]) == proto && BE16(r[4], r[5]) == length && r[6] == unit
  {
  }

  /** A request frame: MBAP header with protocol id 0, then function code and data. */
  function Frame(tid: nat, unit: byte, fc: byte, data: seq<byte>): (r: seq<byte>)
    requires tid < 0x1_0000 && |data| + 2 < 0x1_0000
    ensures |r| == 8 + |data|
  {
    Mbap(tid, 0, |data| + 2, unit) + [fc] + data
  }

  /** The MBAP header fields of a frame. */
  datatype Header = Header(tid: nat, proto: nat, length: nat, unit: byte)

  /** Reads a frame back: header, function code and the data after it. */
  function ParseFrame(f: seq<byte>): (r: Option<(Header, byte, seq<byte>)>)
    ensures r.Some? <==> |f| >= 8
  {
    if |f| < 8 then None
    else Some((Header(BE16(f[0], f[1]), BE16(f[2], f[3]), BE16(f[4], f[5]), f[6]), f[7], f[8..]))
  }

  /**
   * `_build_modbus_request(unit_id, function_code, *args)` with the random
   * transaction id passed in; None where `struct.pack` raises.
   */
  method BuildRequest(tid: int, unit: int, fc: int, args: seq<Arg>) returns (r: Option<seq<byte>>)
    requires 1 <= tid <= 0xFFFF
    ensures r.Some? <==> IsByte(unit) && IsByte(fc) && EncodeArgs(args).Some?
                         && |EncodeArgs(args).value| + 2 <= 0xFFFF
    ensures r.Some? ==> r.value == Frame(tid, unit, fc, EncodeArgs(args).value)
    ensures r.Some? ==> |r.value| == 8 + |EncodeArgs(args).value|
                        && r.value[2] == 0 && r.value[3] == 0
                        && BE16(r.value[4], r.value[5]) == |r.value| - 6
                        && r.value[6] == unit && r.value[7] == fc
                        && r.value[8..] == EncodeArgs(args).value
  {
    if !IsByte(fc) {
      return None;
    }
    var pdu: seq<byte> := [fc];
    var i := 0;
    while i < |args|
      invariant 0 <= i <= |args|
      decreases |args| - i
      invariant EncodeArgs(args[..i]).Some? && pdu == [fc] + EncodeArgs(args[..i]).value
    {
      EncodeArgsSnoc(args, i);
      match args[i] {
        case IntArg(n) =>
          if n <= 0xFF {
            if n < 0 {
              return None;
            }
            pdu := pdu + [n];
          } else {
            if n > 0xFFFF {
              return None;
            }
            pdu := pdu + U16Bytes(n);
          }
        case BytesArg(b) =>
          pdu := pdu + b;
      }
      i := i + 1;
    }
    assert args[..|args|] == args;
    var length := |pdu| + 1;
    if length > 0xFFFF || !IsByte(unit) {
      return None;
    }
    FrameLayout(tid, unit, fc, EncodeArgs(args).value);
    r := Some(Mbap(tid, 0, length, unit) + pdu);
  }

  /** Where each field of a frame sits: protocol 0 at bytes 2-3, the length at 4-5, then unit, function code and data. */
  lemma FrameLayout(tid: nat, unit: byte, fc: byte, data: seq<byte>)
    requires tid < 0x1_0000 && |data| + 2 < 0x1_0000
    ensures Frame(tid, unit, fc, data) == Mbap(tid, 0, |data| + 2, unit) + ([fc] + data)
    ensures var r := Frame(tid, unit, fc, data);
            r[2] == 0 && r[3] == 0 && BE16(r[4], r[5]) == |r| - 6
            && r[6] == unit && r[7] == fc && r[8..] == data
  {
    var r := Frame(tid, unit, fc, data);
    var header := Mbap(tid, 0, |data| + 2, unit);
    assert header + [fc] + data == header + ([fc] + data);
    MbapFields(tid, 0, |data| + 2, unit);
    assert r[8..] == data;
  }

  /** A frame reads back as the header, function code and data it was built from. */
  lemma FrameRoundTrip(tid: nat, unit: byte, fc: byte, data: seq<byte>)
    requires tid < 0x1_0000 && |data| + 2 < 0x1_0000
    ensures ParseFrame(Frame(tid, unit, fc, data)) == Some((Header(tid, 0, |data| + 2, unit), fc, data))
  {
    var f := Frame(tid, unit, fc, data);
    assert f[8..] == data;
  }

  // ------------------------------------------------------------ reply checks

  /** `_test_modbus_connection`: a reply counts as Modbus iff it is longer than 6 bytes with protocol id 0. */
  predicate IsModbusReply(resp: seq<byte>) {
    |resp| > 6 && resp[2] == 0 && resp[3] == 0
  }

  /** Every well-formed request frame, echoed back, passes the connection probe. */
  lemma FramePassesProbe(tid: nat, unit: byte, fc: byte, data: seq<byte>)
    requires tid < 0x1_0000 && |data| + 2 < 0x1_0000
    ensures IsModbusReply(Frame(tid, unit, fc, data))
  {
  }

  /** `modbus_coil_manipulation` / `modbus_register_write`: the reply echoes the function code at byte 7. */
  predicate WriteSucceeded(resp: seq<byte>, fc: byte) {
    |resp| > 7 && resp[7] == fc
  }

  /** The probe loop of `_get_modbus_device_info`: longer than 8 bytes and echoing the function code. */
  predicate EchoesFunction(resp: seq<byte>, fc: int) {
    |resp| > 8 && resp[7] == fc
  }

  /**
   * A normal write reply (the request echoed) is a success; an exception
   * reply, whose function code has the high bit set (Modbus Application
   * Protocol v1.1b3, section 7), is a failure.
   */
  lemma WriteReplyAccepted(tid: nat, unit: byte, fc: byte, data: seq<byte>)
    requires tid < 0x1_0000 && |data| + 2 < 0x1_0000 && fc < 0x80
    ensures WriteSucceeded(Frame(tid, unit, fc, data), fc)
    ensures !WriteSucceeded(Frame(tid, unit, fc + 0x80, data), fc)
  {
  }

  /** `coil_value = 0xFF00 if value else 0x0000`. */
  function CoilValue(on: bool): (v: nat)
    ensures v == 0xFF00 || v == 0
    ensures on <==> v != 0
  {
    if on then 0xFF00 else 0
  }

  /**
   * The data of a write-single-coil request as the toolkit packs it: the
   * address in one byte when it is below 256, and the OFF value 0x0000 as
   * the single byte 0x00.
   */
  lemma CoilWriteArgs(addr: nat, on: bool)
    requires addr <= 0xFFFF
    ensures EncodeArgs([IntArg(addr), IntArg(CoilValue(on))]) ==
              Some((if addr <= 0xFF then [addr] else U16Bytes(addr)) + (if on then [0xFF, 0x00] else [0x00]))
  {
    var args := [IntArg(addr), IntArg(CoilValue(on))];
    assert args[..1] == [IntArg(addr)] && args[..1][..0] == [];
    var a := if addr <= 0xFF then [addr] else U16Bytes(addr);
    var c: seq<byte> := if on then [0xFF, 0x00] else [0x00];
    assert ArgBytes(args[0]) == Some(a);
    assert [] + a == a;
    assert EncodeArgs(args[..1]) == Some(a);
    assert ArgBytes(args[1]) == Some(c) by {
      if !on { assert CoilValue(on) == 0; }
    }
    assert args[..|args| - 1] == args[..1];
    assert EncodeArgs(args) == Some(a + c);
  }

  // --------------------------------------------------- device identification

  /** The fields `_get_modbus_device_info` fills from identification objects. */
  datatype DeviceIdent = DeviceIdent(manufacturer: string, deviceType: string, firmware: string)

  const DEFAULT_IDENT := DeviceIdent("Unknown", "Modbus Device", "Unknown")

  /** `bytes.decode('ascii', errors='ignore')`: bytes above 0x7F are dropped. */
  function AsciiIgnore(b: seq<byte>): (r: string)
    ensures |r| <= |b|
  {
    if b == [] then ""
    else if b[0] < 0x80 then [b[0] as char] + AsciiIgnore(b[1..])
    else AsciiIgnore(b[1..])
  }

  /** The decoded text is ASCII, and all-ASCII bytes decode one character each, unchanged. */
  lemma {:induction false} AsciiIgnoreKeepsAscii(b: seq<byte>)
    ensures forall i :: 0 <= i < |AsciiIgnore(b)| ==> AsciiIgnore(b)[i] as int < 0x80
    ensures (forall i :: 0 <= i < |b| ==> b[i] < 0x80) ==>
              |AsciiIgnore(b)| == |b| && forall i :: 0 <= i < |b| ==> AsciiIgnore(b)[i] as int == b[i]
    decreases |b|
  {
    if b != [] {
      AsciiIgnoreKeepsAscii(b[1..]);
      var r := AsciiIgnore(b);
      var rest := AsciiIgnore(b[1..]);
      if b[0] < 0x80 {
        assert r == [b[0] as char] + rest;
        forall i | 1 <= i < |r| ensures r[i] == rest[i - 1] { }
        if forall i :: 0 <= i < |b| ==> b[i] < 0x80 {
          forall i | 1 <= i < |b| ensures b[i] == b[1..][i - 1] { }
        }
      } else {
        assert r == rest;
      }
    }
  }

  /** Python's slice `s[lo:hi]` for non-negative bounds: clamped, never failing. */
  function Slice(s: seq<byte>, lo: nat, hi: nat): (r: seq<byte>)
    ensures hi <= |s| && lo <= hi ==> r == s[lo..hi]
    ensures |s| < hi && lo <= |s| ==> r == s[lo..]
    ensures hi <= lo || |s| <= lo ==> r == []
    ensures |r| <= |s|
  {
    if lo >= |s| || hi <= lo then [] else if hi <= |s| then s[lo..hi] else s[lo..]
  }

  /** Object 0 is the vendor name, 1 the product code, 2 the revision; others are ignored. */
  function ApplyObject(info: DeviceIdent, id: byte, data: seq<byte>): DeviceIdent {
    if id == 0 then info.(manufacturer := AsciiIgnore(data))
    else if id == 1 then info.(deviceType := AsciiIgnore(data))
    else if id == 2 then info.(firmware := AsciiIgnore(data))
    else info
  }

  /**
   * The object walk from `pos`: read (id, len), take `len` bytes (clamped),
   * advance by `2 + len`. Reading the length byte past the end raises
   * IndexError, which ends the walk with the fields set so far.
   */
  function ObjectsFrom(resp: seq<byte>, pos: nat, info: DeviceIdent): DeviceIdent
    decreases |resp| - pos
  {
    if pos >= |resp| || pos + 1 >= |resp| then info
    else
      var len := resp[pos + 1];
      ObjectsFrom(resp, pos + 2 + len, ApplyObject(info, resp[pos], Slice(resp, pos + 2, pos + 2 + len)))
  }

  /** One step of the walk: the object at `pos` is applied, and the walk goes on after it. */
  lemma ObjectsFromStep(resp: seq<byte>, pos: nat, info: DeviceIdent, after: nat, info1: DeviceIdent)
    requires pos + 1 < |resp| && after == pos + 2 + resp[pos + 1]
    requires info1 == ApplyObject(info, resp[pos], Slice(resp, pos + 2, after))
    ensures ObjectsFrom(resp, pos, info) == ObjectsFrom(resp, after, info1)
  {
  }

  /** The walk stops when no length byte is left to read. */
  lemma ObjectsFromDone(resp: seq<byte>, pos: nat, info: DeviceIdent)
    requires pos + 1 >= |resp|
    ensures ObjectsFrom(resp, pos, info) == info
  {
  }

  /** The `while data_start < len(response)` loop. */
  method ParseIdentObjects(resp: seq<byte>, start: nat, info0: DeviceIdent) returns (info: DeviceIdent)
    ensures info == ObjectsFrom(resp, start, info0)
  {
    info := info0;
    var pos := start;
    while pos < |resp|
      invariant ObjectsFrom(resp, pos, info) == ObjectsFrom(resp, start, info0)
      decreases |resp| - pos
    {
      if pos + 1 >= |resp| {
        ObjectsFromDone(resp, pos, info);
        return;
      }
      var objLen := resp[pos + 1];
      var after := pos + 2 + objLen;
      var next := ApplyObject(info, resp[pos], Slice(resp, pos + 2, after));
      ObjectsFromStep(resp, pos, info, after, next);
      info := next;
      pos := after;
    }
    ObjectsFromDone(resp, pos, info);
  }

  /** A device-identification reply: more than 9 bytes, function 0x2B, MEI type 0x0E. */
  predicate IsIdentReply(resp: seq<byte>) {
    |resp| > 9 && resp[7] == 0x2B && resp[8] == 0x0E
  }

  /** Where `_get_modbus_device_info` starts reading objects. */
  const IDENT_OFFSET_AS_WRITTEN: nat := 12

  /**
   * Where the object list of a Read Device Identification reply starts
   * (Modbus Application Protocol v1.1b3, section 6.21): 7 header bytes, then
   * function code, MEI type, read code, conformity level, more-follows,
   * next object id and number of objects.
   */
  const IDENT_OFFSET: nat := 14

  /** The identification step of `_get_modbus_device_info`, as written (objects from offset 12). */
  method ReadDeviceIdentification(resp: seq<byte>) returns (info: DeviceIdent)
    ensures !IsIdentReply(resp) ==> info == DEFAULT_IDENT
    ensures IsIdentReply(resp) ==> info == ObjectsFrom(resp, IDENT_OFFSET_AS_WRITTEN, DEFAULT_IDENT)
  {
    info := DEFAULT_IDENT;
    if IsIdentReply(resp) {
      info := ParseIdentObjects(resp, IDENT_OFFSET_AS_WRITTEN, info);
    }
  }

  /** The identification step reading the object list where the standard puts it. */
  method ReadDeviceIdentificationStd(resp: seq<byte>) returns (info: DeviceIdent)
    ensures !IsIdentReply(resp) ==> info == DEFAULT_IDENT
    ensures IsIdentReply(resp) ==> info == ObjectsFrom(resp, IDENT_OFFSET, DEFAULT_IDENT)
  {
    info := DEFAULT_IDENT;
    if IsIdentReply(resp) {
      info := ParseIdentObjects(resp, IDENT_OFFSET, info);
    }
  }

  /** One identification object as a device sends it. */
  datatype IdentObject = IdentObject(id: byte, value: seq<byte>)

  predicate ValidObjects(objs: seq<IdentObject>) {
    forall i :: 0 <= i < |objs| ==> |objs[i].value| <= 0xFF
  }

  /** The object list on the wire: id, length, value, for each object. */
  function EncodeObjects(objs: seq<IdentObject>): (r: seq<byte>)
    requires ValidObjects(objs)
    ensures |objs| > 0 ==> |r| >= 2
  {
    if objs == [] then []
    else EncodeObject(objs[0]) + EncodeObjects(objs[1..])
  }

  /** The device information the objects describe: each one applied in turn. */
  function ApplyObjects(objs: seq<IdentObject>, info: DeviceIdent): DeviceIdent {
    if objs == [] then info else ApplyObjects(objs[1..], ApplyObject(info, objs[0].id, objs[0].value))
  }

  /** One object on the wire: id, length, value. */
  function EncodeObject(o: IdentObject): (r: seq<byte>)
    requires |o.value| <= 0xFF
    ensures |r| == 2 + |o.value|
  {
    [o.id, |o.value|] + o.value
  }

  /** An object read at the position where it was written. */
  lemma ReadObjectAt(q: seq<byte>, o: IdentObject, rest: seq<byte>)
    requires |o.value| <= 0xFF
    ensures var resp := q + EncodeObject(o) + rest;
            var p := |q|;
            p + 1 < |resp| && resp[p] == o.id && resp[p + 1] == |o.value|
            && Slice(resp, p + 2, p + 2 + |o.value|) == o.value
  {
    var resp := q + EncodeObject(o) + rest;
    var p := |q|;
    assert resp[p + 2..p + 2 + |o.value|] == o.value;
  }

  /** Walking an encoded object list, wherever it starts, recovers every object. */
  lemma {:induction false} ObjectsFromEncoded(prefix: seq<byte>, objs: seq<IdentObject>, info: DeviceIdent)
    requires ValidObjects(objs)
    ensures ObjectsFrom(prefix + EncodeObjects(objs), |prefix|, info) == ApplyObjects(objs, info)
    decreases |objs|
  {
    if objs == [] {
      assert prefix + EncodeObjects(objs) == prefix;
    } else {
      var o := objs[0];
      var next := prefix + EncodeObject(o);
      var resp := prefix + EncodeObjects(objs);
      assert resp == next + EncodeObjects(objs[1..]);
      ReadObjectAt(prefix, o, EncodeObjects(objs[1..]));
      var p := |prefix|;
      assert ValidObjects(objs[1..]) by {
        forall i | 0 <= i < |objs[1..]| ensures |objs[1..][i].value| <= 0xFF {
          assert objs[1..][i] == objs[i + 1];
        }
      }
      var info1 := ApplyObject(info, o.id, o.value);
      ObjectsFromStep(resp, p, info, |next|, info1);
      ObjectsFromEncoded(next, objs[1..], info1);
    }
  }

  /** A complete Read Device Identification reply (one response, all objects). */
  function IdentReply(tid: nat, unit: byte, objs: seq<IdentObject>): (r: seq<byte>)
    requires tid < 0x1_0000 && ValidObjects(objs) && |objs| <= 0xFF
    requires |EncodeObjects(objs)| + 8 < 0x1_0000
    ensures IsIdentReply(r)
    ensures |r| == IDENT_OFFSET + |EncodeObjects(objs)|
  {
    Mbap(tid, 0, |EncodeObjects(objs)| + 8, unit) + [0x2B, 0x0E, 0x01, 0x01, 0x00, 0x00, |objs|] + EncodeObjects(objs)
  }

  /** Read from offset 14, a reply yields exactly the objects the device sent. */
  lemma IdentReplyParsed(tid: nat, unit: byte, objs: seq<IdentObject>)
    requires tid < 0x1_0000 && ValidObjects(objs) && |objs| <= 0xFF
    requires |EncodeObjects(objs)| + 8 < 0x1_0000
    ensures ObjectsFrom(IdentReply(tid, unit, objs), IDENT_OFFSET, DEFAULT_IDENT) == ApplyObjects(objs, DEFAULT_IDENT)
  {
    var head := Mbap(tid, 0, |EncodeObjects(objs)| + 8, unit) + [0x2B, 0x0E, 0x01, 0x01, 0x00, 0x00, |objs|];
    assert IdentReply(tid, unit, objs) == head + EncodeObjects(objs);
    ObjectsFromEncoded(head, objs, DEFAULT_IDENT);
  }

  /**
   * Read from offset 12, a reply whose only object is the vendor name "AB"
   * takes the next-object-id and object-count bytes for an object header:
   * the vendor becomes "\0" and the revision "B".
   */
  lemma IdentOffsetMisreadsVendor()
    ensures var objs := [IdentObject(0, [0x41, 0x42])];
            ApplyObjects(objs, DEFAULT_IDENT) == DEFAULT_IDENT.(manufacturer := "AB")
            && ObjectsFrom(IdentReply(1, 1, objs), IDENT_OFFSET_AS_WRITTEN, DEFAULT_IDENT)
               == DEFAULT_IDENT.(manufacturer := "\0", firmware := "B")
  {
    var objs := [IdentObject(0, [0x41, 0x42])];
    var r := IdentReply(1, 1, objs);
    assert EncodeObjects(objs) == [0, 2, 0x41, 0x42];
    assert r == [0, 1, 0, 0, 0, 12, 1, 0x2B, 0x0E, 1, 1, 0, 0, 1, 0, 2, 0x41, 0x42];
    assert AsciiIgnore([0x41, 0x42]) == "AB";
    assert Slice(r, 14, 15) == [0] && AsciiIgnore([0]) == "\0";
    assert Slice(r, 17, 82) == [0x42] && AsciiIgnore([0x42]) == "B";
    var i1 := DEFAULT_IDENT.(manufacturer := "\0");
    var i2 := i1.(firmware := "B");
    ObjectsFromStep(r, 12, DEFAULT_IDENT, 15, i1);
    ObjectsFromStep(r, 15, i1, 82, i2);
    ObjectsFromDone(r, 82, i2);
  }

  // -------------------------------------------------------------- registers

  /** A read-holding-registers reply: more than 9 bytes and function code 3. */
  predicate IsRegisterReply(resp: seq<byte>) {
    |resp| > 9 && resp[7] == 3
  }

  /** `response[9:9 + byte_count]`. */
  function RegisterData(resp: seq<byte>): (r: seq<byte>)
    requires |resp| > 9
    ensures |r| <= resp[8]
  {
    var hi: nat := 9 + resp[8] as int;
    Slice(resp, 9, hi)
  }

  /**
   * The parse loop of `read_modbus_registers`: register `start + k` is the
   * big-endian pair at `2k`, `2k + 1` of the data; an odd last byte is dropped.
   */
  method ParseRegisters(resp: seq<byte>, start: int) returns (regs: map<int, nat>)
    ensures !IsRegisterReply(resp) ==> regs == map[]
    ensures IsRegisterReply(resp) ==>
              (forall a :: a in regs <==> start <= a < start + |RegisterData(resp)| / 2)
              && (forall k :: 0 <= k < |RegisterData(resp)| / 2 ==>
                    regs[start + k] == BE16(RegisterData(resp)[2 * k], RegisterData(resp)[2 * k + 1]))
  {
    regs := map[];
    if !IsRegisterReply(resp) {
      return;
    }
    var data := RegisterData(resp);
    var i := 0;
    while i < |data|
      invariant 0 <= i && i % 2 == 0 && (i <= |data| || i == |data| + 1)
      invariant forall a :: a in regs <==> start <= a < start + i / 2 && a - start < |data| / 2
      invariant forall k :: 0 <= k < i / 2 && k < |data| / 2 ==> regs[start + k] == BE16(data[2 * k], data[2 * k + 1])
      decreases |data| - i
    {
      if i + 1 < |data| {
        regs := regs[start + i / 2 := BE16(data[i], data[i + 1])];
      }
      i := i + 2;
    }
  }

  /** 16-bit values as big-endian words, two bytes each (register values, standard request fields). */
  function Words(values: seq<nat>): (r: seq<byte>)
    requires forall k :: 0 <= k < |values| ==> values[k] < 0x1_0000
    ensures |r| == 2 * |values|
    ensures forall k :: 0 <= k < |values| ==> BE16(r[2 * k], r[2 * k + 1]) == values[k]
  {
    if values == [] then []
    else
      var rest := Words(values[1..]);
      WordsCons(values, rest);
      U16Bytes(values[0]) + rest
  }

  /** Two bytes for the first value before the words of the rest give the words of all values. */
  lemma WordsCons(values: seq<nat>, rest: seq<byte>)
    requires values != [] && values[0] < 0x1_0000
    requires |rest| == 2 * (|values| - 1)
    requires forall k :: 0 <= k < |values| - 1 ==> BE16(rest[2 * k], rest[2 * k + 1]) == values[1..][k]
    ensures forall k :: 0 <= k < |values| ==>
              BE16((U16Bytes(values[0]) + rest)[2 * k], (U16Bytes(values[0]) + rest)[2 * k + 1]) == values[k]
  {
    var r := U16Bytes(values[0]) + rest;
    forall k | 0 <= k < |values| ensures BE16(r[2 * k], r[2 * k + 1]) == values[k] {
      if k > 0 {
        assert r[2 * k] == rest[2 * (k - 1)] && r[2 * k + 1] == rest[2 * (k - 1) + 1];
        assert values[k] == values[1..][k - 1];
      }
    }
  }

  /** A read-holding-registers reply (section 6.3 of the Modbus Application Protocol). */
  function RegistersReply(tid: nat, unit: byte, values: seq<nat>): (r: seq<byte>)
    requires tid < 0x1_0000 && |values| <= 127
    requires forall k :: 0 <= k < |values| ==> values[k] < 0x1_0000
    ensures IsRegisterReply(r) == (|values| > 0)
  {
    Mbap(tid, 0, 3 + 2 * |values|, unit) + [3, 2 * |values|] + Words(values)
  }

  /** The data a register parse walks is the values the device sent, register by register. */
  lemma RegistersReplyData(tid: nat, unit: byte, values: seq<nat>)
    requires tid < 0x1_0000 && 0 < |values| <= 127
    requires forall k :: 0 <= k < |values| ==> values[k] < 0x1_0000
    ensures |RegisterData(RegistersReply(tid, unit, values))| / 2 == |values|
    ensures forall k :: 0 <= k < |values| ==>
              var d := RegisterData(RegistersReply(tid, unit, values));
              BE16(d[2 * k], d[2 * k + 1]) == values[k]
  {
    var r := RegistersReply(tid, unit, values);
    assert r[8] == 2 * |values|;
    assert r[9..9 + 2 * |values|] == Words(values);
  }

  // -------------------------------------------------------------- fuzzing

  /** `_generate_modbus_fuzz_data` with its random draws passed in. */
  function ModbusFuzzFrame(tid: nat, proto: nat, length: nat, unit: byte, fc: byte, data: seq<byte>): (r: seq<byte>)
    requires tid <= 0xFFFF && proto <= 0xFF && 1 <= length <= 0xFF && |data| <= 50
    ensures 8 <= |r| <= 58
    ensures ParseFrame(r) == Some((Header(tid, proto, length, unit), fc, data))
  {
    var r := Mbap(tid, proto, length, unit) + [fc] + data;
    assert r[8..] == data;
    r
  }

  /** A fuzz reply contains four consecutive zero bytes. */
  predicate HasZeroRun(resp: seq<byte>) {
    exists i :: 0 <= i && i + 4 <= |resp| && resp[i] == 0 && resp[i + 1] == 0 && resp[i + 2] == 0 && resp[i + 3] == 0
  }

  /** `protocol_fuzzer`'s anomaly test on a non-empty reply. */
  predicate IsAnomaly(resp: seq<byte>) {
    |resp| < 2 || HasZeroRun(resp)
  }

  /**
   * What one fuzz test ended in: a socket error before the send, another
   * exception before the send (only logged), or a send with the reply
   * received (None when `recv` raised).
   */
  datatype FuzzOutcome = SocketError | OtherError | Sent(reply: Option<seq<byte>>)

  /** The counters of the `results` dictionary. */
  datatype FuzzResults = FuzzResults(totalTests: nat, successfulSends: nat, responsesReceived: nat,
                                     anomaliesDetected: nat, crashesDetected: nat)

  predicate Replied(o: FuzzOutcome) {
    o.Sent? && o.reply.Some? && o.reply.value != []
  }

  predicate Anomalous(o: FuzzOutcome) {
    Replied(o) && IsAnomaly(o.reply.value)
  }

  function CountSends(os: seq<FuzzOutcome>): (n: nat)
    ensures n <= |os|
  {
    if os == [] then 0 else CountSends(os[..|os| - 1]) + (if os[|os| - 1].Sent? then 1 else 0)
  }

  function CountCrashes(os: seq<FuzzOutcome>): (n: nat)
    ensures CountSends(os) + n <= |os|
    ensures (forall i :: 0 <= i < |os| ==> !os[i].OtherError?) ==> CountSends(os) + n == |os|
  {
    if os == [] then 0 else CountCrashes(os[..|os| - 1]) + (if os[|os| - 1].SocketError? then 1 else 0)
  }

  function CountReplies(os: seq<FuzzOutcome>): (n: nat)
    ensures n <= CountSends(os)
  {
    if os == [] then 0 else CountReplies(os[..|os| - 1]) + (if Replied(os[|os| - 1]) then 1 else 0)
  }

  function CountAnomalies(os: seq<FuzzOutcome>): (n: nat)
    ensures n <= CountReplies(os)
  {
    if os == [] then 0 else CountAnomalies(os[..|os| - 1]) + (if Anomalous(os[|os| - 1]) then 1 else 0)
  }

  /**
   * `protocol_fuzzer` over the outcomes of its tests: declined at the
   * confirmation prompt, it returns the count with every counter at zero;
   * otherwise each outcome is counted.
   */
  method TallyFuzz(confirmed: bool, outcomes: seq<FuzzOutcome>) returns (r: FuzzResults)
    ensures r.totalTests == |outcomes|
    ensures !confirmed ==> r == FuzzResults(|outcomes|, 0, 0, 0, 0)
    ensures confirmed ==> r.successfulSends == CountSends(outcomes) && r.crashesDetected == CountCrashes(outcomes)
    ensures confirmed ==> r.responsesReceived == CountReplies(outcomes)
    ensures confirmed ==> r.anomaliesDetected == CountAnomalies(outcomes)
    ensures r.successfulSends + r.crashesDetected <= r.totalTests
    ensures r.anomaliesDetected <= r.responsesReceived <= r.successfulSends
  {
    r := FuzzResults(|outcomes|, 0, 0, 0, 0);
    if !confirmed {
      return;
    }
    var i := 0;
    while i < |outcomes|
      invariant 0 <= i <= |outcomes|
      decreases |outcomes| - i
      invariant r.totalTests == |outcomes|
      invariant r.successfulSends == CountSends(outcomes[..i])
      invariant r.crashesDetected == CountCrashes(outcomes[..i])
      invariant r.responsesReceived == CountReplies(outcomes[..i])
      invariant r.anomaliesDetected == CountAnomalies(outcomes[..i])
    {
      assert outcomes[..i + 1][..i] == outcomes[..i];
      match outcomes[i] {
        case SocketError =>
          r := r.(crashesDetected := r.crashesDetected + 1);
        case OtherError =>
        case Sent(reply) =>
          r := r.(successfulSends := r.successfulSends + 1);
          if reply.Some? && reply.value != [] {
            r := r.(responsesReceived := r.responsesReceived + 1);
            if IsAnomaly(reply.value) {
              r := r.(anomaliesDetected := r.anomaliesDetected + 1);
            }
          }
      }
      i := i + 1;
    }
    assert outcomes[..|outcomes|] == outcomes;
  }

  // ------------------------------------------------------ supported functions

  /** The function codes `_get_modbus_device_info` walks; only 1 to 4 are actually probed. */
  const PROBED_FUNCTIONS: seq<int> := [1, 2, 3, 4, 5, 6, 15, 16]

  /**
   * The probe loop of `_get_modbus_device_info`: `replies[fc]` is the reply
   * to the read request for `fc`, absent where sending or receiving raised.
   */
  method SupportedFunctions(replies: map<int, seq<byte>>) returns (fs: seq<int>)
    ensures forall fc :: fc in fs <==> 1 <= fc <= 4 && fc in replies && EchoesFunction(replies[fc], fc)
    ensures forall i, j :: 0 <= i < j < |fs| ==> fs[i] < fs[j]
  {
    fs := [];
    for i := 0 to |PROBED_FUNCTIONS|
      invariant forall fc :: fc in fs <==> fc in PROBED_FUNCTIONS[..i] && 1 <= fc <= 4 && fc in replies && EchoesFunction(replies[fc], fc)
      invariant forall a, b :: 0 <= a < b < |fs| ==> fs[a] < fs[b]
      invariant forall a :: 0 <= a < |fs| ==> fs[a] in PROBED_FUNCTIONS[..i]
    {
      var fc := PROBED_FUNCTIONS[i];
      assert PROBED_FUNCTIONS[..i + 1] == PROBED_FUNCTIONS[..i] + [fc];
      if fc in [1, 2, 3, 4] && fc in replies && EchoesFunction(replies[fc], fc) {
        fs := fs + [fc];
      }
    }
    assert PROBED_FUNCTIONS[..|PROBED_FUNCTIONS|] == PROBED_FUNCTIONS;
  }

  // ------------------------------------------- fixed-width request arguments

  /**
   * Two argument lists that the toolkit's packing maps to the same bytes: a
   * write-coil-OFF at address 10 and a single argument 2560.
   */
  lemma ShortIntArgsAmbiguous()
    ensures EncodeArgs([IntArg(10), IntArg(0)]) == Some([10, 0])
    ensures EncodeArgs([IntArg(0x0A00)]) == Some([10, 0])
  {
    CoilWriteArgs(10, false);
    assert CoilValue(false) == 0;
    assert [10] + [0] == [10, 0];
    var one := [IntArg(0x0A00)];
    assert one[..|one| - 1] == [];
    assert ArgBytes(one[0]) == Some([10, 0]);
    assert [] + [10, 0] == [10, 0];
  }

  /** Reads a sequence of big-endian words back. */
  function DecodeWords(b: seq<byte>): (r: seq<nat>)
    requires |b| % 2 == 0
    ensures |r| == |b| / 2
  {
    if b == [] then [] else [BE16(b[0], b[1])] + DecodeWords(b[2..])
  }

  /** Words read back as the values written, so distinct argument lists give distinct bytes. */
  lemma {:induction false} WordsRoundTrip(values: seq<nat>)
    requires forall k :: 0 <= k < |values| ==> values[k] < 0x1_0000
    ensures DecodeWords(Words(values)) == values
    decreases |values|
  {
    if values != [] {
      var b := Words(values);
      assert b[2..] == Words(values[1..]);
      WordsRoundTrip(values[1..]);
      assert BE16(b[0], b[1]) == values[0];
    }
  }

  /**
   * A request with every integer argument in a 16-bit field, as the Modbus
   * Application Protocol lays out reads (sections 6.1 to 6.4) and single
   * writes (sections 6.5 and 6.6).
   */
  function FixedWidthRequest(tid: nat, unit: byte, fc: byte, args: seq<nat>): (r: seq<byte>)
    requires tid < 0x1_0000 && 2 * |args| + 2 < 0x1_0000
    requires forall k :: 0 <= k < |args| ==> args[k] < 0x1_0000
    ensures |r| == 8 + 2 * |args|
    ensures ParseFrame(r).Some? && ParseFrame(r).value.1 == fc
    ensures |ParseFrame(r).value.2| % 2 == 0 && DecodeWords(ParseFrame(r).value.2) == args
  {
    FrameRoundTrip(tid, unit, fc, Words(args));
    WordsRoundTrip(args);
    Frame(tid, unit, fc, Words(args))
  }

  /** Write Single Coil with the fixed layout: address and 0xFF00/0x0000, both two bytes. */
  lemma FixedWidthCoilWrite(tid: nat, unit: byte, addr: nat, on: bool)
    requires tid < 0x1_0000 && addr < 0x1_0000
    ensures var r := FixedWidthRequest(tid, unit, 5, [addr, CoilValue(on)]);
            |r| == 12 && BE16(r[4], r[5]) == 6 && BE16(r[8], r[9]) == addr
            && r[10] == (if on then 0xFF else 0) && r[11] == 0
  {
    var args := [addr, CoilValue(on)];
    var w := Words(args);
    var r := FixedWidthRequest(tid, unit, 5, args);
    assert r == Frame(tid, unit, 5, w);
    FrameRoundTrip(tid, unit, 5, w);
    assert r[8..] == w;
    assert BE16(w[2], w[3]) == CoilValue(on);
  }
}
