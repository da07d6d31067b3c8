# xharvester core, modelled in Dafny

xharvester is an interactive security toolkit for vehicle CAN buses and
industrial (SCADA) networks. Around its menus, sockets and CAN handles sit a
few pieces of deterministic logic. This project models them and proves what
they promise:

- **Modbus/TCP requests and replies** (`modules/scada_module.py`):
  - the request builder `_build_modbus_request`: the MBAP header, then the PDU;
  - the checks that decide whether a reply is Modbus, or a successful write;
  - the device-identification object walk and the holding-register parse;
  - the fuzz frame generator and the fuzz result counters.
- **SCADA bookkeeping** (`modules/scada_module.py`):
  - the IP-range parser;
  - the device-type classifier;
  - the `ip:port` merge of scan results;
  - the report's risk level.
- **Vehicle diagnostics** (`modules/automobile_security.py`):
  - the `CANDatabase` message store and its traffic summary;
  - OBD-II requests, response-ID acceptance, the supported-PID bitmap scan, the mode-03 trouble-code reader and the DTC decoder;
  - UDS request and response acceptance, and the ECU identifier scan;
  - the random fuzz frame and the single-bit mutation of the intelligent fuzzer.
- **CAN payloads and the monitor** (`modules/automobile_module.py`):
  - the sensor-spoofing payload builders and the injection menu;
  - the CAN-ID filter parser;
  - the live monitor's per-frame state and changed-byte highlighting;
  - the flood rate table and flood frames.
- **Input validators** (`utils.py`): integer, hexadecimal, CAN interface and sanitising.
- **Updates** (`update_manager.py`):
  - version parsing and comparison;
  - the update-available decision;
  - which backups are kept and deleted;
  - what `_install_update` does with each entry.
- **Platform tables** (`config.py`): platform detection, the root requirement and the CAN interface allow-list.

Replies from the network and the CAN bus, the values the code draws at random,
and the environment the platform detector reads are parameters of the model.

The files are:

| file | module | what it holds |
|---|---|---|
| `base.dfy` | `Base` | bytes, `Option`/`Result`, and the Python string operations the parsers use |
| `pyint.dfy` | `PyInt` | Python's `int(s)` and `int(s, 16)` over a digit grammar |
| `sorting.dfy` | `Sorting` | `sorted(..., key=..., reverse=True)` as a stable sort |
| `config.dfy` | `Config` | platform detection and settings |
| `utils.dfy` | `Utils` | the validators |
| `updates.dfy` | `Updates` | `update_manager.py` |
| `modbus.dfy` | `Modbus` | the Modbus framing and reply parsing of `scada_module.py` |
| `scada.dfy` | `Scada` | the scan bookkeeping of `scada_module.py` |
| `candb.dfy` | `CanDb` | `CANDatabase` |
| `diagnostics.dfy` | `Diagnostics` | OBD-II, UDS and fuzzing of `automobile_security.py` |
| `automobile.dfy` | `Automobile` | `automobile_module.py` |

Mutable state keeps its imperative form:

- `CANDatabase` is a class whose `AddMessage` keeps its three collections consistent.
- The monitor's state across received frames is a class.
- The loops of the source are methods with loop invariants, each proved equal to a specification function:
  - the PDU builder, the object walk, the register parse and the device merge;
  - the PID scan, the trouble-code reader and the identifier scan;
  - the fuzz tally and the changed-byte loop.
- The fuzzer's in-place bit flip works on an `array`.

## Model

| member | source | states |
|---|---|---|
| Base.Strip | utils.py:75 | `str.strip()`: never longer, and the result neither starts nor ends with whitespace |
| Base.TrimLeftSuffix | utils.py:75 | left trimming keeps a suffix of the text |
| Base.TrimRightPrefix | utils.py:75 | right trimming keeps a prefix of the text |
| Base.TrimLeftRemovesSpace | utils.py:75 | everything left trimming drops is whitespace |
| Base.TrimRightRemovesSpace | utils.py:75 | everything right trimming drops is whitespace |
| Base.Lower | utils.py:75 | `lower()` keeps the length and lowers each ASCII letter in place |
| Base.Split | modules/automobile_module.py:450 | `split(sep)`: at least one piece, no piece holds the separator, and joining the pieces gives the text back |
| Base.SplitJoin | modules/automobile_module.py:450 | splitting a join of separator-free pieces gives the pieces back |
| Base.NatToString | modules/scada_module.py:74 | `str(n)` is decimal digits without a leading zero |
| Base.HexUpper | modules/automobile_security.py:423 | `hex().upper()` is two upper-case digits per byte, high nibble first |
| Base.AllSome | modules/automobile_module.py:449-453 | a list of optional values is complete exactly when every entry is present, and then it holds each value in order |
| PyInt.ParseIntOfIntToString | utils.py:49 | `int(str(i)) == i` for every integer |
| PyInt.DigitsOfNatToString | modules/scada_module.py:74 | the decimal text of `n` has digit value `n` |
| Sorting.SortDesc | modules/automobile_security.py:164 | sorting is a permutation of its input |
| Sorting.SortDescSorted | modules/automobile_security.py:164 | the sorted list is in non-increasing key order |
| Sorting.SortDescStable | update_manager.py:179-180 | elements with equal keys keep their original order, as Python's sort is stable |
| Sorting.SortedSplitDominates | update_manager.py:179-182 | after sorting, every element kept by `[:n]` ranks at least as high as every element in `[n:]` |
| Sorting.SortedSplitPartition | update_manager.py:179-182 | `[:n]` and `[n:]` of the sorted list together are exactly the original elements |
| Config.GetPlatform | config.py:33-50 | the Android markers win; otherwise linux/windows/darwin (any case) map to linux/windows/macos, anything else to unknown |
| Config.IsRootRequired | config.py:58-63 | root is required exactly when the platform is neither android nor windows |
| Config.AllowedCanInterfaces | config.py:128-158 | "vcan0" is always allowed, and an unknown platform allows only it |
| Config.UnknownPlatformDefaults | config.py:155-158 | an unknown platform requires root and allows exactly "vcan0" |
| Config.RequireRootAgreesWithDetector | config.py:58-63 | the settings table's `require_root` agrees with `is_root_required` on every detected platform |
| Config.DefaultInterfaceAlwaysAllowed | config.py:172-175 | the default interface passes `validate_can_interface` on every platform the detector reports |
| Utils.ValidateInteger | utils.py:29-54 | over 1024 characters is "Input too long"; success exactly when the text parses to a value within the bounds, and the result is that value |
| Utils.ValidateIntegerExample | test_complete_xharvester.py:100-101 | `validate_integer("123", 0, 200) == 123` |
| Utils.ValidateHex | utils.py:56-71 | over 1024 characters is "Input too long" |
| Utils.ValidateHexOfDigits | utils.py:73-79 | bare hexadecimal digits are read in base 16, whatever their case |
| Utils.ValidateHexPrefixOptional | utils.py:73-79 | "0x" followed by digits gives the same value as the digits alone |
| Utils.ValidateHexExample | test_complete_xharvester.py:105-106 | `validate_hex("0xFF") == 255` |
| Utils.ValidateCanInterface | utils.py:83-99 | the interface is returned unchanged exactly when the platform allows it, else the security error |
| Utils.ValidateCanInterfaceLinux | utils.py:97-99 | "can1" passes on linux and is refused on windows |
| Utils.KeepPrintable | utils.py:116 | the regex output is printable ASCII and never longer; a single character is kept exactly when it is printable |
| Utils.KeepPrintableCounts | utils.py:116 | every printable character is kept with its multiplicity, and nothing else is kept |
| Utils.KeepPrintableConcat | utils.py:116 | the filter works character by character: filtering `a + b` is filtering `a`, then `b` |
| Utils.KeepPrintableOfPrintable | utils.py:116 | printable text passes the filter unchanged |
| Utils.SanitizeInput | utils.py:101-117 | over 1024 characters is the error; otherwise the stripped text with every non-printable character removed |
| Utils.SanitizeInputNotIdempotent | utils.py:112-117 | sanitising is not idempotent: "\x01 a" gives " a", which gives "a" |
| Utils.SanitizeInputStable | utils.py:112-117 | filtering before stripping: the filtered text with surrounding whitespace removed, printable, no longer than the input, no whitespace at either end |
| Utils.SanitizeInputStableIdempotent | utils.py:112-117 | the filter-then-strip sanitiser is idempotent |
| Updates.LStrip | update_manager.py:112 | `lstrip(c)` removes exactly the leading run of `c` |
| Updates.ParseVersion | update_manager.py:108-119 | the integers of the dot-separated parts after the leading 'v's, or (0, 0, 0) when a part is not an integer |
| Updates.CompareVersions | update_manager.py:121-132 | -1, 1 and 0 exactly when the parsed tuples are less, greater and equal |
| Updates.TupleLessTrichotomy | update_manager.py:127-132 | tuple order is total: exactly one of less, equal, greater |
| Updates.TupleLessTransitive | update_manager.py:127-132 | tuple order is transitive |
| Updates.PrefixIsLess | update_manager.py:127-132 | a proper prefix is the smaller tuple |
| Updates.CompareAntisymmetric | update_manager.py:121-132 | swapping the arguments negates the result, and a version equals itself |
| Updates.CompareTransitive | update_manager.py:121-132 | older-than is transitive |
| Updates.UpdateAvailableOrder | update_manager.py:134-137 | an update is available exactly when the latest version is newer; never both ways, never for the same version |
| Updates.ParseVersionText | update_manager.py:108-119 | parsing a dotted version written from numbers gives the numbers back |
| Updates.LongerVersionIsNewer | update_manager.py:121-137 | a version extended by more parts is newer, and an update to it is offered |
| Updates.ShorterVersionIsOlder | update_manager.py:121-137 | "1.0" is older than "1.0.0" |
| Updates.UnreadableVersion | update_manager.py:115-119 | one unreadable part makes the version (0, 0, 0) |
| Updates.Backups | update_manager.py:179 | the glob keeps exactly the `xharvester_backup_*.zip` entries |
| Updates.KeptBackups | update_manager.py:179-182 | `BACKUP_COUNT` (3) backups are kept, or all of them when there are fewer |
| Updates.DeletedBackups | update_manager.py:182-183 | all backups beyond the third are deleted |
| Updates.CleanupKeepsNewest | update_manager.py:179-183 | no deleted backup is newer than a kept one |
| Updates.CleanupPartitionsBackups | update_manager.py:179-183 | kept and deleted together are the backups found, each once |
| Updates.CleanupDeletesOnlyBackups | update_manager.py:179-183 | only entries matching the backup glob are deleted |
| Updates.InstallActionFor | update_manager.py:348-363 | excluded names are skipped; a file is copied exactly when it lacks a compiled-Python suffix; only existing directories other than logs and backups are replaced |
| Updates.InstallPlan | update_manager.py:343-363 | one action per release entry, each decided by that entry and whether its name exists |
| Updates.InstalledEntries | update_manager.py:345-363 | an entry is installed exactly when its name is not excluded and it is a directory, or a file without a compiled-Python suffix |
| Modbus.ArgBytes | modules/scada_module.py:137-144 | an int argument up to 0xFF is one byte; up to 0xFFFF, two big-endian bytes; outside 0..0xFFFF, a packing error; a bytes argument is copied |
| Modbus.EncodeArgs | modules/scada_module.py:136-144 | the PDU data exists exactly when every argument packs; a single argument gives exactly its own bytes |
| Modbus.EncodeArgsConcat | modules/scada_module.py:136-144 | the arguments are appended verbatim and in order: the data of `a + b` is the data of `a` followed by the data of `b`, and exists exactly when both do |
| Modbus.MbapFields | modules/scada_module.py:149 | the seven header bytes read back as transaction id, protocol id, length and unit id |
| Modbus.BuildRequest | modules/scada_module.py:130-151 | the request exists exactly when unit, function code and every argument pack; it is the frame of those fields, 8 bytes plus the data |
| Modbus.FrameRoundTrip | modules/scada_module.py:146-151 | a frame reads back as its header (protocol 0, length = PDU + 1), function code and data |
| Modbus.FramePassesProbe | modules/scada_module.py:121 | every request frame, echoed back, passes the connection probe |
| Modbus.WriteReplyAccepted | modules/scada_module.py:366-371 | an echo of the write is accepted; an exception reply (function code + 0x80) is refused |
| Modbus.CoilValue | modules/scada_module.py:359 | 0xFF00 for on and 0x0000 for off |
| Modbus.CoilWriteArgs | modules/scada_module.py:358-360 | the coil write data as the code packs it: address in one or two bytes, then FF 00 or a single 00 |
| Modbus.AsciiIgnoreKeepsAscii | modules/scada_module.py:185-189 | `decode('ascii', errors='ignore')` yields ASCII only, and keeps all-ASCII bytes one for one |
| Modbus.Slice | modules/scada_module.py:182 | a Python slice: `s[lo:hi]` within bounds, `s[lo:]` when `hi` passes the end, empty when `lo` reaches the end or `hi <= lo` |
| Modbus.ParseIdentObjects | modules/scada_module.py:178-191 | the `while` loop computes the object walk from its start offset |
| Modbus.ReadDeviceIdentification | modules/scada_module.py:174-193 | a reply that is not a 0x2B/0x0E reply of more than 9 bytes leaves the defaults; otherwise the objects walked from offset 12 |
| Modbus.ReadDeviceIdentificationStd | modules/scada_module.py:174-193 | the same, walking from offset 14, where section 6.21 of the Modbus Application Protocol v1.1b3 puts the object list |
| Modbus.ReadObjectAt | modules/scada_module.py:180-182 | an object written at a position reads back there: id, length, value |
| Modbus.ObjectsFromEncoded | modules/scada_module.py:179-191 | walking an encoded object list recovers every object, in order |
| Modbus.IdentReply | modules/scada_module.py:174-176 | a standard identification reply passes the reply check, with its objects at offset 14 |
| Modbus.IdentReplyParsed | modules/scada_module.py:174-191 | read from offset 14, a reply yields exactly the vendor, product and revision the device sent |
| Modbus.IdentOffsetMisreadsVendor | modules/scada_module.py:178 | read from offset 12, a reply whose only object is vendor "AB" gives vendor "\0" and revision "B" |
| Modbus.RegisterData | modules/scada_module.py:241-242 | `response[9:9 + byte_count]` holds at most `byte_count` bytes |
| Modbus.ParseRegisters | modules/scada_module.py:240-248 | no registers unless it is a function-3 reply of more than 9 bytes; otherwise register `start + k` is the big-endian pair at 2k, an odd last byte dropped |
| Modbus.Words | modules/scada_module.py:247 | 16-bit values as big-endian pairs, each pair reading back as its value |
| Modbus.RegistersReply | modules/scada_module.py:240 | a read-holding-registers reply passes the reply check exactly when it carries registers |
| Modbus.RegistersReplyData | modules/scada_module.py:240-248 | the register parse reads back the values the device sent, register by register |
| Modbus.ModbusFuzzFrame | modules/scada_module.py:567-582 | a fuzz frame is 8 to 58 bytes and reads back as its random header, function code and data |
| Modbus.CountSends | modules/scada_module.py:506-507 | sends never exceed the tests |
| Modbus.CountCrashes | modules/scada_module.py:527-530 | sends and crashes together never exceed the tests, and make up all of them when no other error occurred |
| Modbus.CountReplies | modules/scada_module.py:511-513 | replies never exceed sends |
| Modbus.CountAnomalies | modules/scada_module.py:516-517 | anomalies never exceed replies |
| Modbus.TallyFuzz | modules/scada_module.py:476-533 | declined at the prompt, the count of tests with every counter zero; confirmed, the counters are the sends, socket-error crashes, non-empty replies and anomalies of the outcomes; anomalies <= replies <= sends, and sends + crashes <= tests |
| Modbus.SupportedFunctions | modules/scada_module.py:195-213 | a function is reported exactly when it is one of 1 to 4 and its reply is longer than 8 bytes and echoes it; in increasing order |
| Modbus.ShortIntArgsAmbiguous | modules/scada_module.py:138-142 | arguments (10, 0) and (0x0A00) pack to the same two bytes |
| Modbus.DecodeWords | modules/scada_module.py:247 | reads big-endian pairs: one value per two bytes |
| Modbus.WordsRoundTrip | modules/scada_module.py:247 | decoding fixed-width words gives back the values |
| Modbus.FixedWidthRequest | modules/scada_module.py:130-151 | a request with every argument as two bytes reads back as its function code and exactly its arguments |
| Modbus.FixedWidthCoilWrite | modules/scada_module.py:358-360 | the fixed-width coil write is 12 bytes with address and FF00/0000 |
| Scada.HostList | modules/scada_module.py:74 | `f"{base}.{i}"` for `i` in `range(lo, hi)`, one per number |
| Scada.RSplitDot | modules/scada_module.py:72 | `rsplit('.', 1)`: fails exactly when there is no dot; otherwise the parts rejoin to the text and the right part has no dot |
| Scada.ParseModbusTargets | modules/scada_module.py:64-77 | a '/' makes a CIDR block; text without '/' or '-' is the single address; a failure needs a '-' |
| Scada.RangeHosts | modules/scada_module.py:72-74 | hosts exactly when the range part splits into two numbers; then `base.lo`, ..., `base.min(hi, 254)` in order, one per number |
| Scada.ParsePlcTargets | modules/scada_module.py:285-291 | a CIDR block exactly when there is a '/', else the single address |
| Scada.RangeTargets | modules/scada_module.py:70-74 | `base.lo-hi` gives the hosts from `lo` to `min(hi, 254)` |
| Scada.RangeParsed | modules/scada_module.py:70-74 | the same for the written numbers |
| Scada.ParseRange | modules/scada_module.py:70-74 | whenever both ends parse, the range gives the hosts from the start to `min(end + 1, 255)` excluded |
| Scada.IdentifyDeviceType | modules/scada_module.py:321-332 | Siemens wins; else Allen-Bradley; else Modbus; else DNP3; with none of them in the label, "Industrial Device" |
| Scada.NotContains | modules/scada_module.py:323-331 | a text missing a character of a name does not contain the name |
| Scada.VendorPortTypes | modules/scada_module.py:321-330 | the first four well-known ports classify as Siemens, Allen-Bradley, Modbus and DNP3 devices |
| Scada.OtherPortTypes | modules/scada_module.py:321-332 | the other four ports classify as "Industrial Device" |
| Scada.Put | modules/scada_module.py:677 | `table[key] = d` maps the key to `d` and leaves every other key alone; the key joins the end of the order exactly when it is new |
| Scada.PutValid | modules/scada_module.py:677 | storing a device keeps a well-formed dictionary well formed: keys distinct in the order, the order and the mapping agreeing, each device under its own key |
| Scada.UpdateInfo | modules/scada_module.py:675 | `device_info.update(...)`: the union of the fields, the new values winning |
| Scada.Absorb | modules/scada_module.py:672-677 | a known key gets its info updated in place in the order, a new key is added at the end; other keys are untouched |
| Scada.AbsorbValid | modules/scada_module.py:671-677 | one merge step keeps a well-formed dictionary well formed |
| Scada.AbsorbKeepsInfo | modules/scada_module.py:671-677 | no info field is lost by a merge step, and the new device's fields are present |
| Scada.Values | modules/scada_module.py:679 | `list(d.values())`: one value per key, in insertion order |
| Scada.ValuesKeys | modules/scada_module.py:679 | the values carry exactly the table's keys, each once |
| Scada.TableOf | modules/scada_module.py:670 | the dict comprehension is keyed by exactly the devices' keys, with no more entries than devices |
| Scada.TableOfValid | modules/scada_module.py:670 | the dict comprehension is well formed |
| Scada.FirstIndexKeys | modules/scada_module.py:670 | a key has a first occurrence exactly when some device carries it |
| Scada.TableOfLastWins | modules/scada_module.py:670 | a duplicate key keeps the last device that carries it |
| Scada.TableOfOrder | modules/scada_module.py:670 | the comprehension's keys come in the order of their first occurrence |
| Scada.InfoFor | modules/scada_module.py:671-675 | a key that no Modbus device carries gains no info |
| Scada.AbsorbAll | modules/scada_module.py:671-677 | after the loop the keys are the table's and the devices', with at most one new entry per device |
| Scada.AbsorbAllValid | modules/scada_module.py:671-677 | the loop keeps the dictionary well formed |
| Scada.AbsorbAllKnown | modules/scada_module.py:671-675 | a key already in the table keeps its device, with the info of every device under that key merged in, later values winning |
| Scada.AbsorbAllNew | modules/scada_module.py:671-677 | a key new to the table holds its first device, with the info of its later duplicates merged in |
| Scada.AbsorbAllPrefix | modules/scada_module.py:671-677 | the table's order is kept as a prefix, and the keys appended after it are new |
| Scada.AbsorbAllOrder | modules/scada_module.py:671-677 | the appended keys come in the order of their first occurrence among the devices |
| Scada.AbsorbAllKeepsInfo | modules/scada_module.py:671-677 | every info field of every absorbed device is present under that device's key |
| Scada.MergedValues | modules/scada_module.py:670-679 | the final table is well formed and the final list has one device per key, the keys of both scans, no more devices than scanned, and every Modbus info field under its key |
| Scada.MergeUpdatesPlcDevice | modules/scada_module.py:670-679 | a PLC-scan device keeps its address, port, protocol, type and vulnerabilities, and its info is its own updated by every Modbus device with its key |
| Scada.MergeAddsModbusDevice | modules/scada_module.py:670-679 | a key only the Modbus scan found holds its first Modbus device, with the later duplicates' info merged in |
| Scada.MergeOrder | modules/scada_module.py:670-679 | the PLC-scan keys come first, in their first-occurrence order, then the new Modbus keys in theirs |
| Scada.MergeDevices | modules/scada_module.py:669-679 | the loop computes the values of the absorbed table, which is well formed: one device per `ip:port`, keys of both scans, no more devices than scanned, every Modbus info field kept under its key |
| Scada.RiskLevel | modules/scada_module.py:1076 | HIGH exactly when more than half are vulnerable, MEDIUM when some are, LOW when none is |
| Scada.CountVulnerable | modules/scada_module.py:1069 | at most the number of devices, and zero exactly when none is vulnerable |
| Scada.ReportRisk | modules/scada_module.py:1067-1076 | all vulnerable gives HIGH; LOW exactly when none is |
| Scada.AllVulnerable | modules/scada_module.py:1069 | when every device is vulnerable the count is the number of devices |
| CanDb.GetIdInfo | modules/automobile_security.py:145-151 | the known entry for a listed ID, the all-"Unknown" entry otherwise |
| CanDb.KnownUdsPairs | modules/automobile_security.py:106-119 | every UDS request ID has its response at ID + 8 |
| CanDb.RequestIds | modules/automobile_security.py:106-133 | the request entries are exactly 0x7E0, 0x7E1, 0x760 and 0x720 |
| CanDb.WithIdSnoc | modules/automobile_security.py:139-141 | appending a message extends only its own ID's list |
| CanDb.IdsOfSnoc | modules/automobile_security.py:139 | appending a message adds its ID to the known IDs |
| CanDb.FreqSumBump | modules/automobile_security.py:143 | counting one more message under a known ID adds one to the total |
| CanDb.FreqSumAppend | modules/automobile_security.py:143 | counting a first message under a new ID adds one to the total |
| CanDb.AddedConsistent | modules/automobile_security.py:135-143 | `add_message` keeps the three collections consistent |
| CanDb.CanDatabase.constructor | modules/automobile_security.py:99-103 | the store starts empty and consistent |
| CanDb.CanDatabase.AddMessage | modules/automobile_security.py:135-143 | the message is appended, its ID's list gains it, its count rises by one, nothing else changes, and the invariant holds |
| CanDb.CanDatabase.Items | modules/automobile_security.py:164 | one pair per ID in first-seen order, holding that ID's message count |
| CanDb.CanDatabase.ItemsAreIds | modules/automobile_security.py:164 | the items are exactly the IDs seen, each once, with its true count |
| CanDb.CanDatabase.AnalyzeTraffic | modules/automobile_security.py:153-172 | the error exactly when nothing was captured; else the total, the distinct-ID count, and the top IDs of the stored items |
| CanDb.CanDatabase.TopIdsOfMessages | modules/automobile_security.py:164 | the top list holds min(10, distinct IDs) distinct IDs with their true counts, in non-increasing order, and no ID left out was seen more often than one listed |
| CanDb.TopOfItems | modules/automobile_security.py:164 | the same facts for any item list of distinct IDs and true counts |
| CanDb.TopIdsMostFrequent | modules/automobile_security.py:164 | `[:10]` of the sorted distinct items: distinct IDs, ten or all of them, and none left out has a higher count than one kept |
| CanDb.TopIds | modules/automobile_security.py:164 | `[:10]` of the sorted items: ten entries, or all of them when fewer |
| CanDb.TopIdsSorted | modules/automobile_security.py:164 | the top IDs are in non-increasing frequency order |
| CanDb.TopIdsFromItems | modules/automobile_security.py:164 | every top entry is one of the counted items |
| Diagnostics.ObdRequest | modules/automobile_security.py:237-242 | the request goes to 0x7DF with the mode and PID bytes |
| Diagnostics.ObdReply | modules/automobile_security.py:249-254 | a reply is taken exactly when one arrived from 0x7E8 to 0x7EF, and its data is returned |
| Diagnostics.Bitmap | modules/automobile_security.py:269 | bytes 2 to 5, big-endian, fit in 32 bits |
| Diagnostics.BlockPidsMembers | modules/automobile_security.py:271-275 | a block reports PID `base + i + 1` exactly when bit `31 - i` is set and the PID is at most 0xFF |
| Diagnostics.BlockPidsRange | modules/automobile_security.py:271-275 | a block's PIDs increase and lie within its 32 and within 0xFF |
| Diagnostics.ScanBlock | modules/automobile_security.py:271-275 | the bit loop computes the block's PID list |
| Diagnostics.ScanSupportedPids | modules/automobile_security.py:260-277 | the scan is the concatenation of every used block's PIDs |
| Diagnostics.ReplyPidsMembers | modules/automobile_security.py:265-275 | a block contributes exactly the PIDs its bitmap reports, when its reply was used |
| Diagnostics.SupportedPidsMembers | modules/automobile_security.py:260-277 | a PID is reported exactly when some used block reports it |
| Diagnostics.SupportedPidsIncreasing | modules/automobile_security.py:260-277 | the reported PIDs are increasing and within 1..0xFF |
| Diagnostics.DecodeDtc | modules/automobile_security.py:296-315 | length other than 2 gives "Invalid DTC"; otherwise five characters: the category P/C/B/U from the top two bits, then a digit 0 to 3 |
| Diagnostics.EncodeDecodeDtc | modules/automobile_security.py:296-315 | every byte pair decodes to a well-formed code that encodes back to the same bytes |
| Diagnostics.DecodeEncodeDtc | modules/automobile_security.py:296-315 | every well-formed code is the decoding of exactly one byte pair |
| Diagnostics.DtcCount | modules/automobile_security.py:285-290 | at most the announced count, and only pairs that are present |
| Diagnostics.ReadDtcs | modules/automobile_security.py:279-294 | no codes without a reply of 2 bytes or more; else the counted codes, code `i` decoded from bytes `2 + 2i` and `3 + 2i` |
| Diagnostics.UdsRequest | modules/automobile_security.py:379-384 | the request goes to the target with the service byte, then its data |
| Diagnostics.UdsReply | modules/automobile_security.py:391-396 | a reply is taken exactly when it arrived from the target + 8 |
| Diagnostics.DidRequestData | modules/automobile_security.py:419 | the identifier as two big-endian bytes |
| Diagnostics.ScanEcuInfo | modules/automobile_security.py:402-426 | response ID is the ECU + 8; the session is active exactly after a 0x50 reply; identifiers are recorded exactly for their 0x62 replies of 3 bytes or more, with their description and upper-case hex data |
| Diagnostics.ReadIdentifiers | modules/automobile_security.py:418-424 | the identifier loop records exactly the positively answered identifiers |
| Diagnostics.DistinctIdentifiers | modules/automobile_security.py:355-374 | the identifier table has no repeated identifier |
| Diagnostics.RandomFuzzFrame | modules/automobile_security.py:453-461 | a frame exists exactly when there are targets; it goes to one of them with 1 to 8 bytes |
| Diagnostics.Xor1Bits | modules/automobile_security.py:508 | `n ^ (1 << k)` inverts bit `k` and no other |
| Diagnostics.FlipBitOf | modules/automobile_security.py:508 | the flipped byte differs in exactly bit `k` |
| Diagnostics.FlipBit | modules/automobile_security.py:502-508 | the in-place flip changes only the chosen byte, to its flipped value |
| Diagnostics.MutatePayload | modules/automobile_security.py:502-508 | the mutation keeps the length, leaves an empty payload alone, and otherwise differs in exactly one bit |
| Diagnostics.SingleBitDistance | modules/automobile_security.py:508 | flipping one bit of one byte moves a payload by a distance of one bit |
| Automobile.Clamp | modules/automobile_module.py:301 | `max(lo, min(hi, v))` lies in range and is `v` when `v` is in range |
| Automobile.ReadChoice | modules/automobile_module.py:310 | `int(input() or "0")`: the empty answer is 0 |
| Automobile.PyIndex | modules/automobile_module.py:126 | Python list indexing: valid from -n to n - 1, a negative index counting from the end |
| Automobile.SpoofSpeed | modules/automobile_module.py:297-305 | fails exactly on an unparsable answer; else `[0, 0, 0, speed, 150]` with the speed clamped to 0..255 |
| Automobile.SpoofRpm | modules/automobile_module.py:307-317 | eight bytes, the first two big-endian holding the rpm clamped to 0..8000, the rest zero |
| Automobile.SpoofTurnSignal | modules/automobile_module.py:319-334 | eight bytes: choices 0 to 3 as the first byte, anything else 0 |
| Automobile.SpoofDoors | modules/automobile_module.py:336-348 | six bytes: 0x0F at index 2 for choice 0, else 0 |
| Automobile.SpoofLights | modules/automobile_module.py:350-362 | eight bytes: 0x01 at index 0 for choice 1, else 0 |
| Automobile.SpoofSpeedInRange | modules/automobile_module.py:300-302 | a speed typed within 0..255 is sent unchanged |
| Automobile.SpoofRpmInRange | modules/automobile_module.py:310-314 | an rpm typed within 0..8000 is what the two bytes carry |
| Automobile.SensorSpoofing | modules/automobile_module.py:225-294 | an invalid menu answer exactly when it does not parse or index a sensor; otherwise cancelled exactly when the chosen sensor's payload builder fails, else a frame to that sensor's ID carrying that payload |
| Automobile.ToBytes | modules/automobile_module.py:141 | a list becomes frame data exactly when every value is a byte |
| Automobile.Injection | modules/automobile_module.py:107-160 | an unparsable or out-of-range menu answer fails; a frame goes to one of the five targets' IDs |
| Automobile.InjectSpeed | modules/automobile_module.py:130-132 | a speed injection succeeds exactly for 0..255 and sends `[0, 0, 0, speed, 150]` to 0x244 |
| Automobile.InjectRpm | modules/automobile_module.py:133-135 | an rpm injection, unclamped, succeeds exactly for 0..65535 and sends the rpm big-endian, then six zeros, to 0x201 |
| Automobile.ParseFilterIds | modules/automobile_module.py:446-453 | the empty answer is no filter; otherwise one ID per comma-separated entry |
| Automobile.FilterEntriesRead | modules/automobile_module.py:449-453 | each filter ID is its entry read in hex after "0x", else in decimal; the parse aborts exactly when some entry is unreadable |
| Automobile.ParseFilterEntriesAt | modules/automobile_module.py:449-450 | entry `k` is read by the entry rule |
| Automobile.DecimalFilterEntry | modules/automobile_module.py:449-450 | a decimal entry reads as the number it spells |
| Automobile.ChangedBytes | modules/automobile_module.py:484-492 | byte `i` is unchanged exactly when a non-empty previous payload reaches `i` and holds the same byte there |
| Automobile.Monitor.constructor | modules/automobile_module.py:460-465 | the monitor starts with no previous frame and a zero count |
| Automobile.Monitor.Receive | modules/automobile_module.py:469-495 | a filtered-out frame changes nothing; a shown frame is counted, timed against the previous shown frame, highlighted against its payload, and becomes the previous frame |
| Automobile.FloodRate | modules/automobile_module.py:373-379 | "high" (any case, or no answer) gives 1000, "low" 10, "medium" and anything else 100 |
| Automobile.FloodFrame | modules/automobile_module.py:393-395 | a flood frame goes to one of the six ICSim IDs with 1 to 8 bytes |

## Left out

- Sockets, the CAN bus and python-can are not modelled. This covers `send`, `recv`, `connect_ex`, timeouts and `Bus` setup or shutdown. A reply, or its absence, is an input to the model.
- Random values are parameters with the source's ranges:
  - the transaction id;
  - the fuzz header fields and data;
  - the fuzz target pick;
  - the bit position;
  - the random turn state and noise bytes of the injection menu.
- Threads, locks, `time.sleep` and wall-clock duration loops are left out. This covers `can_bus_flood`'s thread, `dos_attack`, the fuzz campaign loops and the monitor's duration loop. A campaign is modelled by one iteration: one frame, one mutation or one received message.
- Floating point is left out:
  - `analyze_traffic`'s `time_span` and `avg_rate`;
  - progress percentages;
  - the float default of `validate_integer`'s `max_val`, which is `None` in the model.
- Automobile.Monitor.Receive: the monitor's delta uses Dafny's exact reals, not IEEE doubles.
- Update timestamps (`st_mtime`) are integers in the model, not floats.
- CIDR expansion (`ipaddress.ip_network(...).hosts()`) is a library call. The parsers return the CIDR text, and the host limits are not modelled.
- The S7 and generic fuzz generators are left out, because they only draw random bytes. So are the PLC port scan loop, which only opens sockets, and the menu and report printing.
- Python's `int()` is modelled for surrounding whitespace, one sign, ASCII decimal digits, and in base 16 an optional "0x" prefix. Underscore separators and non-ASCII digits are not modelled.
- `lower()` is modelled on ASCII letters only.
- Config.IsTermux is modelled without a contract. Nothing in the core relies on its result.
- Utils.ValidateHex: its own contract states only the length error. Its values are stated by the lemmas ValidateHexOfDigits, ValidateHexPrefixOptional and ValidateHexExample.
- Automobile.ToBytes: `can.Message` is taken to refuse a value outside 0..255 with the ValueError the menu catches. python-can is not part of this model.
- Scada.MergeDevices works on device values. The in-place update of a device object shared with the scanners' lists (aliasing) is not modelled.
- HTTP downloads, zip backup and restore, file copying, logging setup, the updater script and the menu-only modules are not modelled.

## Findings

| source | as written | input that shows it | evidently intended | confidence | as-written member | corrected member |
|---|---|---|---|---|---|---|
| modules/scada_module.py:138-142 | every int argument up to 0xFF is packed as one byte, larger ones as two | arguments (10, 0) and the single argument 0x0A00 give the same PDU bytes `0A 00`; coil off at address 10 is `05 0A 00` | fixed two-byte request fields (sections 6.5 and 6.6 of the Modbus Application Protocol v1.1b3), so a request decodes back to its arguments | not executed | Modbus.ShortIntArgsAmbiguous | Modbus.FixedWidthRequest |
| modules/scada_module.py:178 | identification objects are read from offset 12 | a reply whose only object is vendor "AB" yields vendor "\0" and revision "B" | objects read from offset 14, after the MEI header (section 6.21), giving vendor "AB" | not executed | Modbus.IdentOffsetMisreadsVendor | Modbus.IdentReplyParsed |
| utils.py:116 | `sanitize_input` strips before filtering | "\x01 a" sanitises to " a", which sanitises to "a" | filtering before stripping, so a sanitised value is stable | not executed | Utils.SanitizeInputNotIdempotent | Utils.SanitizeInputStableIdempotent |
