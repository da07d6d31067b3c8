/**
 * The diagnostic side of the automotive security module: OBD-II requests and
 * the decoding of their replies (supported-PID bitmaps of SAE J1979 mode 01,
 * stored trouble codes of mode 03 in the two-byte format of SAE J2012), the
 * UDS identification scan of ISO 14229-1, and the payload mutations of the
 * CAN fuzzer. Replies are parameters: what the bus delivered, or `None`.
 */
module Diagnostics {
  import opened Base

  /** A frame received from or sent to the bus. */
  datatype CanFrame = CanFrame(id: int, data: seq<byte>)

  // ---------------------------------------------------------------- OBD-II

  /** The functional request ID every OBD-II request is sent to. */
  const OBD_REQUEST_ID: int := 0x7DF

  /** The request frame of `send_obd2_request`: mode and PID. */
  function ObdRequest(mode: byte, pid: byte): (f: CanFrame)
    ensures f.id == OBD_REQUEST_ID && |f.data| == 2 && f.data[0] == mode && f.data[1] == pid
  {
    CanFrame(OBD_REQUEST_ID, [mode, pid])
  }

  /** The physical response IDs of the (up to eight) emission-related ECUs. */
  predicate IsObdResponseId(id: int) {
    0x7E8 <= id <= 0x7EF
  }

  /**
   * `send_obd2_request` after the send: a received frame counts only when it
   * comes from an ECU response ID; its payload is the reply.
   */
  function ObdReply(received: Option<CanFrame>): (r: Option<seq<byte>>)
    ensures r.Some? <==> received.Some? && IsObdResponseId(received.value.id)
    ensures r.Some? ==> r.value == received.value.data
  {
    match received
    case Some(f) => if IsObdResponseId(f.id) then Some(f.data) else None
    case None => None
  }

  /** The first PID of each mode-01 "PIDs supported" block that is queried. */
  const PID_BLOCKS: seq<int> := [0x00, 0x20, 0x40, 0x60, 0x80, 0xA0, 0xC0]

  /** A block reply is used when it arrived and holds the four bitmap bytes. */
  predicate BitmapReply(reply: Option<seq<byte>>) {
    reply.Some? && |reply.value| >= 6
  }

  /** `int.from_bytes(response[2:6], 'big')`. */
  function Bitmap(data: seq<byte>): (n: nat)
    requires |data| >= 6
    ensures n < 0x1_0000_0000
  {
    data[2] as int * 0x100_0000 + data[3] as int * 0x1_0000 + data[4] as int * 0x100 + data[5] as int
  }

  /** `pid_bitmap & (1 << (31 - i))` is non-zero. */
  predicate BitSet(bitmap: nat, i: nat)
    requires i < 32
  {
    Bit(bitmap, 31 - i)
  }

  /** The PIDs one block reports for its first `n` bits. */
  function BlockPids(base: int, bitmap: nat, n: nat): seq<int>
    requires n <= 32
  {
    if n == 0 then []
    else
      var pid := base + n;
      BlockPids(base, bitmap, n - 1) + (if BitSet(bitmap, n - 1) && pid <= 0xFF then [pid] else [])
  }

  /** A block reports PID `base + i + 1` exactly when bit `31 - i` is set and the PID is at most 0xFF. */
  lemma {:induction false} BlockPidsMembers(base: int, bitmap: nat, n: nat, p: int)
    requires n <= 32
    ensures p in BlockPids(base, bitmap, n) <==>
              base < p <= base + n && p <= 0xFF && BitSet(bitmap, p - base - 1)
    decreases n
  {
    if n > 0 { BlockPidsMembers(base, bitmap, n - 1, p); }
  }

  /** A block's PIDs increase and lie in `base + 1 .. base + n`, none above 0xFF. */
  lemma {:induction false} BlockPidsRange(base: int, bitmap: nat, n: nat)
    requires n <= 32
    ensures forall k :: 0 <= k < |BlockPids(base, bitmap, n)| ==>
              base < BlockPids(base, bitmap, n)[k] <= base + n && BlockPids(base, bitmap, n)[k] <= 0xFF
    ensures forall j, k :: 0 <= j < k < |BlockPids(base, bitmap, n)| ==>
              BlockPids(base, bitmap, n)[j] < BlockPids(base, bitmap, n)[k]
    decreases n
  {
    if n > 0 { BlockPidsRange(base, bitmap, n - 1); }
  }

  /** The PIDs the reply to block `b` contributes. */
  function ReplyPids(replies: seq<Option<seq<byte>>>, b: nat): seq<int>
    requires b < |replies| == |PID_BLOCKS|
  {
    if BitmapReply(replies[b]) then BlockPids(PID_BLOCKS[b], Bitmap(replies[b].value), 32) else []
  }

  /** The PIDs reported by the first `k` blocks. */
  function SupportedPids(replies: seq<Option<seq<byte>>>, k: nat): seq<int>
    requires k <= |replies| == |PID_BLOCKS|
  {
    if k == 0 then [] else SupportedPids(replies, k - 1) + ReplyPids(replies, k - 1)
  }

  /** The bitmap loop for one block reply. */
  method ScanBlock(base: int, bitmap: nat) returns (pids: seq<int>)
    ensures pids == BlockPids(base, bitmap, 32)
  {
    pids := [];
    var i := 0;
    while i < 32
      invariant 0 <= i <= 32
      invariant pids == BlockPids(base, bitmap, i)
    {
      if BitSet(bitmap, i) {
        var pid := base + i + 1;
        if pid <= 0xFF {
          pids := pids + [pid];
        }
      }
      i := i + 1;
    }
  }

  /** `scan_supported_pids`, given the reply to each block query. */
  method ScanSupportedPids(replies: seq<Option<seq<byte>>>) returns (pids: seq<int>)
    requires |replies| == |PID_BLOCKS|
    ensures pids == SupportedPids(replies, |PID_BLOCKS|)
  {
    pids := [];
    var k := 0;
    while k < |PID_BLOCKS|
      invariant 0 <= k <= |PID_BLOCKS|
      invariant pids == SupportedPids(replies, k)
    {
      var reply := replies[k];
      assert SupportedPids(replies, k + 1) == SupportedPids(replies, k) + ReplyPids(replies, k);
      if reply.Some? && |reply.value| >= 6 {
        var found := ScanBlock(PID_BLOCKS[k], Bitmap(reply.value));
        pids := pids + found;
      } else {
        assert ReplyPids(replies, k) == [];
      }
      k := k + 1;
    }
  }

  /** Block `b`'s reply was used and its bitmap reports PID `p`. */
  predicate BlockReports(replies: seq<Option<seq<byte>>>, b: nat, p: int)
    requires b < |replies| == |PID_BLOCKS|
  {
    BitmapReply(replies[b]) && PID_BLOCKS[b] < p <= PID_BLOCKS[b] + 32 && p <= 0xFF
    && BitSet(Bitmap(replies[b].value), p - PID_BLOCKS[b] - 1)
  }

  lemma ReplyPidsMembers(replies: seq<Option<seq<byte>>>, b: nat, p: int)
    requires b < |replies| == |PID_BLOCKS|
    ensures p in ReplyPids(replies, b) <==> BlockReports(replies, b, p)
  {
    if BitmapReply(replies[b]) {
      BlockPidsMembers(PID_BLOCKS[b], Bitmap(replies[b].value), 32, p);
    }
  }

  /**
   * A PID is reported exactly when a used block reply has its bit set; no
   * PID exceeds 0xFF.
   */
  lemma {:induction false} SupportedPidsMembers(replies: seq<Option<seq<byte>>>, k: nat, p: int)
    requires k <= |replies| == |PID_BLOCKS|
    ensures p in SupportedPids(replies, k) <==> exists b :: 0 <= b < k && BlockReports(replies, b, p)
    decreases k
  {
    if k > 0 {
      SupportedPidsMembers(replies, k - 1, p);
      ReplyPidsMembers(replies, k - 1, p);
      var before := SupportedPids(replies, k - 1);
      var last := ReplyPids(replies, k - 1);
      assert SupportedPids(replies, k) == before + last;
      if p in before {
        var b :| 0 <= b < k - 1 && BlockReports(replies, b, p);
        assert 0 <= b < k && BlockReports(replies, b, p);
      }
      if exists b :: 0 <= b < k && BlockReports(replies, b, p) {
        var b :| 0 <= b < k && BlockReports(replies, b, p);
        if b < k - 1 {
          assert p in before;
        } else {
          assert p in last;
        }
      }
    }
  }

  /** The reported PIDs come out in increasing order, within 1..0xFF. */
  lemma {:induction false} SupportedPidsIncreasing(replies: seq<Option<seq<byte>>>, k: nat)
    requires k <= |replies| == |PID_BLOCKS|
    ensures forall j :: 0 <= j < |SupportedPids(replies, k)| ==>
              0 < SupportedPids(replies, k)[j] <= 0xFF && SupportedPids(replies, k)[j] <= 32 * k
    ensures forall i, j :: 0 <= i < j < |SupportedPids(replies, k)| ==>
              SupportedPids(replies, k)[i] < SupportedPids(replies, k)[j]
    decreases k
  {
    if k > 0 {
      SupportedPidsIncreasing(replies, k - 1);
      assert PID_BLOCKS[k - 1] == 32 * (k - 1);
      if BitmapReply(replies[k - 1]) {
        BlockPidsRange(PID_BLOCKS[k - 1], Bitmap(replies[k - 1].value), 32);
      }
    }
  }

  // ---------------------------------------------------------------- DTCs

  const DTC_CATEGORIES: string := "PCBU"

  /** `_decode_dtc`: category letter, one digit 0-3, three upper-case hex digits. */
  function DecodeDtc(b: seq<byte>): (r: string)
    ensures |b| != 2 ==> r == "Invalid DTC"
    ensures |b| == 2 ==> |r| == 5 && r[0] == DTC_CATEGORIES[b[0] / 64] && '0' <= r[1] <= '3'
  {
    if |b| != 2 then "Invalid DTC"
    else
      [DTC_CATEGORIES[b[0] / 64], DigitChar(b[0] / 16 % 4),
       HexDigitUpper(b[0] % 16), HexDigitUpper(b[1] / 16), HexDigitUpper(b[1] % 16)]
  }

  predicate IsUpperHexDigit(c: char) { '0' <= c <= '9' || 'A' <= c <= 'F' }

  /** The five-character trouble-code text `DecodeDtc` produces. */
  predicate IsDtcCode(s: string) {
    |s| == 5 && s[0] in DTC_CATEGORIES && '0' <= s[1] <= '3'
    && IsUpperHexDigit(s[2]) && IsUpperHexDigit(s[3]) && IsUpperHexDigit(s[4])
  }

  function CategoryIndex(c: char): (k: nat)
    requires c in DTC_CATEGORIES
    ensures k < 4 && DTC_CATEGORIES[k] == c
  {
    if c == 'P' then 0 else if c == 'C' then 1 else if c == 'B' then 2 else 3
  }

  function UpperHexValue(c: char): (d: nat)
    requires IsUpperHexDigit(c)
    ensures d < 16 && HexDigitUpper(d) == c
  {
    if c <= '9' then c as int - '0' as int else c as int - 'A' as int + 10
  }

  /** The two bytes a trouble code stands for: the inverse of `DecodeDtc`. */
  function EncodeDtc(s: string): (b: seq<byte>)
    requires IsDtcCode(s)
    ensures |b| == 2
  {
    [CategoryIndex(s[0]) * 64 + (s[1] as int - '0' as int) * 16 + UpperHexValue(s[2]),
     UpperHexValue(s[3]) * 16 + UpperHexValue(s[4])]
  }

  lemma HexDigitUpperInverse(d: nat)
    requires d < 16
    ensures UpperHexValue(HexDigitUpper(d)) == d
  {
  }

  lemma ByteFields(x: byte)
    ensures x == x / 64 * 64 + x / 16 % 4 * 16 + x % 16
    ensures x == x / 16 * 16 + x % 16
  {
  }

  /** Every pair of bytes decodes to a well-formed code that encodes back to the same bytes. */
  lemma EncodeDecodeDtc(b: seq<byte>)
    requires |b| == 2
    ensures IsDtcCode(DecodeDtc(b))
    ensures EncodeDtc(DecodeDtc(b)) == b
  {
    var s := DecodeDtc(b);
    HexDigitUpperInverse(b[0] % 16);
    HexDigitUpperInverse(b[1] / 16);
    HexDigitUpperInverse(b[1] % 16);
    ByteFields(b[0]);
    ByteFields(b[1]);
    assert s[0] in DTC_CATEGORIES;
  }

  /** Every well-formed code is the decoding of its encoding. */
  lemma DecodeEncodeDtc(s: string)
    requires IsDtcCode(s)
    ensures DecodeDtc(EncodeDtc(s)) == s
  {
    var b := EncodeDtc(s);
    var c := CategoryIndex(s[0]);
    var d1 := s[1] as int - '0' as int;
    var d2 := UpperHexValue(s[2]);
    DtcFirstByte(c, d1, d2);
    var d3 := UpperHexValue(s[3]);
    var d4 := UpperHexValue(s[4]);
    assert b[1] / 16 == d3 && b[1] % 16 == d4;
  }

  lemma DtcFirstByte(c: nat, d1: nat, d2: nat)
    requires c < 4 && d1 < 4 && d2 < 16
    ensures (c * 64 + d1 * 16 + d2) / 64 == c
    ensures (c * 64 + d1 * 16 + d2) / 16 % 4 == d1
    ensures (c * 64 + d1 * 16 + d2) % 16 == d2
  {
  }

  /** A mode-03 reply is used when it arrived with at least the count byte. */
  predicate DtcReply(reply: Option<seq<byte>>) {
    reply.Some? && |reply.value| >= 2
  }

  /** How many codes `read_dtcs` decodes: the announced count, limited to the pairs present. */
  function DtcCount(data: seq<byte>): (n: nat)
    requires |data| >= 2
    ensures n <= data[1] && 2 + 2 * n <= |data|
    ensures n < data[1] ==> |data| < 4 + 2 * n
  {
    var avail := (|data| - 2) / 2;
    if data[1] < avail then data[1] else avail
  }

  /** `read_dtcs`, given the mode-03 reply. */
  method ReadDtcs(reply: Option<seq<byte>>) returns (dtcs: seq<string>)
    ensures !DtcReply(reply) ==> dtcs == []
    ensures DtcReply(reply) ==> |dtcs| == DtcCount(reply.value)
    ensures DtcReply(reply) ==> forall i :: 0 <= i < |dtcs| ==>
              dtcs[i] == DecodeDtc(reply.value[2 + 2 * i..4 + 2 * i]) && IsDtcCode(dtcs[i])
  {
    dtcs := [];
    if reply.Some? && |reply.value| >= 2 {
      var response := reply.value;
      var numDtcs := response[1];
      var i := 0;
      while i < numDtcs
        invariant 0 <= i <= numDtcs
        invariant |dtcs| == if i < DtcCount(response) then i else DtcCount(response)
        invariant forall j :: 0 <= j < |dtcs| ==>
                    dtcs[j] == DecodeDtc(response[2 + 2 * j..4 + 2 * j]) && IsDtcCode(dtcs[j])
      {
        if |response| >= 4 + i * 2 {
          var dtcBytes := response[2 + i * 2..4 + i * 2];
          if |dtcBytes| == 2 {
            EncodeDecodeDtc(dtcBytes);
            dtcs := dtcs + [DecodeDtc(dtcBytes)];
          }
        }
        i := i + 1;
      }
    }
  }

  // ---------------------------------------------------------------- UDS

  /** ISO 14229-1: a positive response carries the request's service ID plus 0x40. */
  const POSITIVE_RESPONSE_OFFSET: int := 0x40
  const DIAGNOSTIC_SESSION_CONTROL: byte := 0x10
  const READ_DATA_BY_IDENTIFIER: byte := 0x22

  /** The request frame of `send_uds_request`: the service ID, then its parameters. */
  function UdsRequest(targetId: int, service: byte, data: seq<byte>): (f: CanFrame)
    ensures f.id == targetId && |f.data| == 1 + |data| && f.data[0] == service && f.data[1..] == data
  {
    CanFrame(targetId, [service] + data)
  }

  /** `send_uds_request` after the send: only a frame from `target + 8` is the ECU's reply. */
  function UdsReply(targetId: int, received: Option<CanFrame>): (r: Option<seq<byte>>)
    ensures r.Some? <==> received.Some? && received.value.id == targetId + 8
    ensures r.Some? ==> r.value == received.value.data
  {
    match received
    case Some(f) => if f.id == targetId + 8 then Some(f.data) else None
    case None => None
  }

  /** The data identifiers `scan_ecu_info` reads, with their descriptions, in dictionary order. */
  const DATA_IDENTIFIERS: seq<(int, string)> := [
    (0xF010, "Active Diagnostic Session"),
    (0xF011, "ECU Manufacturing Date"),
    (0xF012, "ECU Serial Number"),
    (0xF013, "Supported Functional Units"),
    (0xF015, "VM identifier"),
    (0xF018, "Application Software Identification"),
    (0xF019, "Application Software Version Number"),
    (0xF01A, "System Supplier Identifier"),
    (0xF01B, "ECU Manufacturing Date"),
    (0xF01C, "ECU Serial Number"),
    (0xF040, "Vehicle Identification Number"),
    (0xF050, "Vehicle Manufacturer Specific"),
    (0xF0F0, "Boot Software Identification"),
    (0xF0F1, "Application Software Identification"),
    (0xF0F2, "Application Data Identification"),
    (0xF0F3, "Boot Software Fingerprint"),
    (0xF0F4, "Application Software Fingerprint"),
    (0xF0F5, "Application Data Fingerprint")
  ]

  /** The read request for one identifier: service 0x22 and the identifier in two big-endian bytes. */
  function DidRequestData(did: nat): (d: seq<byte>)
    requires did < 0x1_0000
    ensures |d| == 2 && BE16(d[0], d[1]) == did
  {
    U16Bytes(did)
  }

  /** The session reply opens the scan: at least two bytes, the positive response to 0x10. */
  predicate SessionAccepted(reply: Option<seq<byte>>) {
    reply.Some? && |reply.value| >= 2 && reply.value[0] == DIAGNOSTIC_SESSION_CONTROL + POSITIVE_RESPONSE_OFFSET
  }

  /** A data reply is recorded when it has three bytes or more and is the positive response to 0x22. */
  predicate DataAccepted(reply: Option<seq<byte>>) {
    reply.Some? && |reply.value| >= 3 && reply.value[0] == READ_DATA_BY_IDENTIFIER + POSITIVE_RESPONSE_OFFSET
  }

  /** One recorded identifier: its description and the data after the echoed identifier, in hex. */
  datatype DidEntry = DidEntry(description: string, data: string)

  datatype EcuInfo = EcuInfo(ecuId: int, responseId: int, sessionActive: bool,
                             dataIdentifiers: map<int, DidEntry>)

  /** `scan_ecu_info`, given the session reply and the reply to each identifier's read. */
  method ScanEcuInfo(ecuId: int, sessionReply: Option<seq<byte>>, didReplies: seq<Option<seq<byte>>>)
    returns (info: EcuInfo)
    requires |didReplies| == |DATA_IDENTIFIERS|
    ensures info.ecuId == ecuId && info.responseId == ecuId + 8
    ensures info.sessionActive <==> SessionAccepted(sessionReply)
    ensures !SessionAccepted(sessionReply) ==> info.dataIdentifiers == map[]
    ensures SessionAccepted(sessionReply) ==> forall k :: 0 <= k < |DATA_IDENTIFIERS| ==>
              (DATA_IDENTIFIERS[k].0 in info.dataIdentifiers <==> DataAccepted(didReplies[k]))
    ensures forall k :: 0 <= k < |DATA_IDENTIFIERS| && DATA_IDENTIFIERS[k].0 in info.dataIdentifiers ==>
              DataAccepted(didReplies[k]) &&
              info.dataIdentifiers[DATA_IDENTIFIERS[k].0]
                == DidEntry(DATA_IDENTIFIERS[k].1, HexUpper(didReplies[k].value[3..]))
    ensures forall did :: did in info.dataIdentifiers ==> exists k :: 0 <= k < |DATA_IDENTIFIERS| && DATA_IDENTIFIERS[k].0 == did
  {
    if sessionReply.Some? && |sessionReply.value| >= 2 && sessionReply.value[0] == 0x50 {
      DistinctIdentifiers();
      var found := ReadIdentifiers(DATA_IDENTIFIERS, didReplies);
      info := EcuInfo(ecuId, ecuId + 8, true, found);
    } else {
      info := EcuInfo(ecuId, ecuId + 8, false, map[]);
    }
  }

  /** The identifiers of a table, in increasing order: no identifier is listed twice. */
  predicate IncreasingIds(table: seq<(int, string)>) {
    forall i, j :: 0 <= i < j < |table| ==> table[i].0 < table[j].0
  }

  /** The read loop of `scan_ecu_info`: one entry per identifier whose read was answered positively. */
  method ReadIdentifiers(table: seq<(int, string)>, replies: seq<Option<seq<byte>>>)
    returns (found: map<int, DidEntry>)
    requires |replies| == |table| && IncreasingIds(table)
    ensures forall k :: 0 <= k < |table| ==> (table[k].0 in found <==> DataAccepted(replies[k]))
    ensures forall k :: 0 <= k < |table| && table[k].0 in found ==>
              DataAccepted(replies[k]) && found[table[k].0] == DidEntry(table[k].1, HexUpper(replies[k].value[3..]))
    ensures forall did :: did in found ==> exists k :: 0 <= k < |table| && table[k].0 == did
  {
    found := map[];
    var k := 0;
    while k < |table|
      invariant 0 <= k <= |table|
      invariant forall j :: 0 <= j < |table| ==> (table[j].0 in found <==> j < k && DataAccepted(replies[j]))
      invariant forall j :: 0 <= j < k && table[j].0 in found ==>
                  found[table[j].0] == DidEntry(table[j].1, HexUpper(replies[j].value[3..]))
      invariant forall did :: did in found ==> exists j :: 0 <= j < k && table[j].0 == did
    {
      var (did, description) := table[k];
      var data := replies[k];
      if data.Some? && |data.value| >= 3 && data.value[0] == 0x62 {
        found := found[did := DidEntry(description, HexUpper(data.value[3..]))];
      }
      k := k + 1;
    }
  }

  /** The identifiers of the table are pairwise different. */
  lemma DistinctIdentifiers()
    ensures IncreasingIds(DATA_IDENTIFIERS)
  {
  }

  // ---------------------------------------------------------------- fuzzing

  /**
   * One frame of `random_fuzz`: the target picked among the IDs and the
   * generated data. `random.choice` on an empty ID list raises, so there is no frame.
   */
  function RandomFuzzFrame(targetIds: seq<int>, pick: nat, data: seq<byte>): (r: Option<CanFrame>)
    requires 1 <= |data| <= 8
    requires |targetIds| > 0 ==> pick < |targetIds|
    ensures r.Some? <==> |targetIds| > 0
    ensures r.Some? ==> r.value.id in targetIds && 1 <= |r.value.data| <= 8
  {
    if |targetIds| == 0 then None else Some(CanFrame(targetIds[pick], data))
  }

  /** Bit `k` of `n`, bit 0 being the least significant. */
  predicate Bit(n: nat, k: nat) {
    if k == 0 then n % 2 == 1 else Bit(n / 2, k - 1)
  }

  /** `n ^ (1 << k)`: `n` with bit `k` inverted. */
  function Xor1(n: nat, k: nat): nat {
    if k == 0 then (if n % 2 == 1 then n - 1 else n + 1)
    else 2 * Xor1(n / 2, k - 1) + n % 2
  }

  /** `Xor1` inverts bit `k` and no other. */
  lemma {:induction false} Xor1Bits(n: nat, k: nat, j: nat)
    ensures Bit(Xor1(n, k), j) <==> Bit(n, j) != (j == k)
    decreases k
  {
    if k == 0 {
      if j > 0 { assert Xor1(n, k) / 2 == n / 2; }
    } else {
      var r := Xor1(n, k);
      assert r / 2 == Xor1(n / 2, k - 1) && r % 2 == n % 2;
      if j > 0 { Xor1Bits(n / 2, k - 1, j - 1); }
    }
  }

  /** Inverting a bit below the width keeps a value within the width. */
  lemma {:induction false} Xor1Bound(n: nat, k: nat, w: nat)
    requires k < w && n < Pow2(w)
    ensures Xor1(n, k) < Pow2(w)
    decreases k
  {
    var half := Pow2(w - 1);
    assert Pow2(w) == 2 * half;
    if k > 0 {
      assert n / 2 < half;
      Xor1Bound(n / 2, k - 1, w - 1);
      assert Xor1(n, k) == 2 * Xor1(n / 2, k - 1) + n % 2;
    }
  }

  /** The byte `b ^ (1 << k)` of the fuzzer: exactly bit `k` differs. */
  function FlipBitOf(b: byte, k: nat): (r: byte)
    requires k < 8
    ensures forall j :: Bit(r, j) <==> Bit(b, j) != (j == k)
  {
    Xor1Bound(b, k, 8);
    forall j ensures Bit(Xor1(b, k), j) <==> Bit(b, j) != (j == k) {
      Xor1Bits(b, k, j);
    }
    Xor1(b, k)
  }

  /** `mutated_data[byte_idx] ^= (1 << bit_idx)` on the `bytearray` copy of a payload. */
  method FlipBit(data: array<byte>, byteIdx: nat, bitIdx: nat)
    requires byteIdx < data.Length && bitIdx < 8
    modifies data
    ensures data[..] == old(data[..])[byteIdx := FlipBitOf(old(data[byteIdx]), bitIdx)]
  {
    data[byteIdx] := FlipBitOf(data[byteIdx], bitIdx);
  }

  /** The number of bit positions in which two bytes differ. */
  function ByteDistance(a: byte, b: byte, n: nat): (d: nat)
    requires n <= 8
    ensures d <= n
  {
    if n == 0 then 0 else ByteDistance(a, b, n - 1) + (if Bit(a, n - 1) <==> Bit(b, n - 1) then 0 else 1)
  }

  /** The number of bit positions in which two equally long payloads differ. */
  function Distance(s: seq<byte>, t: seq<byte>): nat
    requires |s| == |t|
  {
    if s == [] then 0 else Distance(s[..|s| - 1], t[..|t| - 1]) + ByteDistance(s[|s| - 1], t[|t| - 1], 8)
  }

  /** The mutation of `intelligent_fuzz`: an empty payload is sent as it is. */
  method MutatePayload(payload: seq<byte>, byteIdx: nat, bitIdx: nat) returns (mutated: seq<byte>)
    requires |payload| > 0 ==> byteIdx < |payload|
    requires bitIdx < 8
    ensures |mutated| == |payload|
    ensures |payload| == 0 ==> mutated == payload
    ensures |payload| > 0 ==> mutated == payload[byteIdx := FlipBitOf(payload[byteIdx], bitIdx)]
    ensures Distance(payload, mutated) == if |payload| == 0 then 0 else 1
  {
    var buffer := new byte[|payload|](i requires 0 <= i < |payload| => payload[i]);
    assert buffer[..] == payload;
    if buffer.Length > 0 {
      FlipBit(buffer, byteIdx, bitIdx);
      SingleBitDistance(payload, byteIdx, bitIdx);
    }
    mutated := buffer[..];
  }

  lemma {:induction false} ByteDistanceSelf(a: byte, n: nat)
    requires n <= 8
    ensures ByteDistance(a, a, n) == 0
  {
    if n > 0 { ByteDistanceSelf(a, n - 1); }
  }

  lemma {:induction false} ByteDistanceFlip(a: byte, k: nat, n: nat)
    requires k < 8 && n <= 8
    ensures ByteDistance(a, FlipBitOf(a, k), n) == if k < n then 1 else 0
  {
    if n > 0 { ByteDistanceFlip(a, k, n - 1); }
  }

  lemma {:induction false} DistanceSelf(s: seq<byte>)
    ensures Distance(s, s) == 0
  {
    if s != [] {
      DistanceSelf(s[..|s| - 1]);
      ByteDistanceSelf(s[|s| - 1], 8);
    }
  }

  /** Flipping one bit of one byte moves a payload by exactly one bit. */
  lemma {:induction false} SingleBitDistance(s: seq<byte>, i: nat, k: nat)
    requires i < |s| && k < 8
    ensures Distance(s, s[i := FlipBitOf(s[i], k)]) == 1
    decreases |s|
  {
    var t := s[i := FlipBitOf(s[i], k)];
    var n := |s|;
    if i == n - 1 {
      assert t[..n - 1] == s[..n - 1];
      DistanceSelf(s[..n - 1]);
      ByteDistanceFlip(s[i], k, 8);
    } else {
      assert t[..n - 1] == s[..n - 1][i := FlipBitOf(s[i], k)];
      SingleBitDistance(s[..n - 1], i, k);
      ByteDistanceSelf(s[n - 1], 8);
    }
  }
}
