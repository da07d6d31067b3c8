/**
 * The CAN message database of the automotive security module: every captured
 * message, the messages grouped by arbitration ID, and a frequency per ID,
 * kept consistent by `AddMessage`; a table of well-known IDs; and the
 * traffic summary with the ten most frequent IDs.
 */
module CanDb {
  import opened Base
  import opened Sorting

  /** A captured frame: identifier, payload and capture time (seconds, as a real). */
  datatype CanMessage = CanMessage(arbitrationId: int, data: seq<byte>, timestamp: real)

  /** The `{"name", "service", "type"}` entry of the known-ID table. */
  datatype IdInfo = IdInfo(name: string, service: string, kind: string)

  const UNKNOWN_INFO: IdInfo := IdInfo("Unknown", "Unknown", "Unknown")

  const KNOWN_IDS: map<int, IdInfo> := map[
    0x7E0 := IdInfo("Engine ECU", "UDS", "Request"),
    0x7E8 := IdInfo("Engine ECU", "UDS", "Response"),
    0x7E1 := IdInfo("Transmission ECU", "UDS", "Request"),
    0x7E9 := IdInfo("Transmission ECU", "UDS", "Response"),
    0x760 := IdInfo("Body Control Module", "UDS", "Request"),
    0x768 := IdInfo("Body Control Module", "UDS", "Response"),
    0x720 := IdInfo("Instrument Cluster", "UDS", "Request"),
    0x728 := IdInfo("Instrument Cluster", "UDS", "Response"),
    0x100 := IdInfo("Engine RPM/Speed", "Broadcast", "Data"),
    0x200 := IdInfo("Vehicle Speed", "Broadcast", "Data"),
    0x300 := IdInfo("Steering Wheel", "Broadcast", "Data"),
    0x400 := IdInfo("Brake System", "Broadcast", "Data"),
    0x244 := IdInfo("ICSim Speed", "Simulation", "Data"),
    0x201 := IdInfo("ICSim RPM", "Simulation", "Data"),
    0x2C0 := IdInfo("ICSim Turn Signals", "Simulation", "Data"),
    0x19B := IdInfo("ICSim Doors", "Simulation", "Data"),
    0x2E0 := IdInfo("ICSim Lights", "Simulation", "Data")
  ]

  /** `get_id_info`: the table entry, or the all-"Unknown" entry for an unlisted ID. */
  function GetIdInfo(canId: int): (r: IdInfo)
    ensures canId in KNOWN_IDS ==> r == KNOWN_IDS[canId]
    ensures canId !in KNOWN_IDS ==> r.name == "Unknown" && r.service == "Unknown" && r.kind == "Unknown"
  {
    if canId in KNOWN_IDS then KNOWN_IDS[canId] else UNKNOWN_INFO
  }

  /**
   * The table follows the diagnostic addressing convention: each UDS request
   * ID it lists has its response ID, eight higher, listed for the same ECU.
   */
  lemma KnownUdsPairs()
    ensures forall id :: id in KNOWN_IDS && KNOWN_IDS[id].kind == "Request" ==>
              id + 8 in KNOWN_IDS && GetIdInfo(id + 8) == KNOWN_IDS[id].(kind := "Response")
  {
    forall id | id in KNOWN_IDS && KNOWN_IDS[id].kind == "Request"
      ensures id + 8 in KNOWN_IDS && GetIdInfo(id + 8) == KNOWN_IDS[id].(kind := "Response")
    {
      RequestIds(id);
      UdsPair(id);
    }
  }

  lemma UdsPair(id: int)
    requires id == 0x7E0 || id == 0x7E1 || id == 0x760 || id == 0x720
    ensures id + 8 in KNOWN_IDS && GetIdInfo(id + 8) == KNOWN_IDS[id].(kind := "Response")
  {
  }

  lemma RequestIds(id: int)
    requires id in KNOWN_IDS && KNOWN_IDS[id].kind == "Request"
    ensures id == 0x7E0 || id == 0x7E1 || id == 0x760 || id == 0x720
  {
  }

  // ------------------------------------------------------------ bookkeeping

  /** The messages carrying `id`, in capture order. */
  function WithId(ms: seq<CanMessage>, id: int): (r: seq<CanMessage>)
    ensures |r| <= |ms|
    ensures forall k :: 0 <= k < |r| ==> r[k].arbitrationId == id
  {
    if ms == [] then []
    else WithId(ms[..|ms| - 1], id) + (if ms[|ms| - 1].arbitrationId == id then [ms[|ms| - 1]] else [])
  }

  lemma WithIdSnoc(ms: seq<CanMessage>, m: CanMessage, id: int)
    ensures WithId(ms + [m], id) == WithId(ms, id) + (if m.arbitrationId == id then [m] else [])
  {
    assert (ms + [m])[..|ms|] == ms;
  }

  lemma {:induction false} WithIdAbsent(ms: seq<CanMessage>, id: int)
    requires id !in IdsOf(ms)
    ensures WithId(ms, id) == []
    decreases |ms|
  {
    if ms != [] {
      var p := ms[..|ms| - 1];
      assert ms[|ms| - 1].arbitrationId in IdsOf(ms);
      assert id !in IdsOf(p) by {
        forall k | 0 <= k < |p| ensures p[k].arbitrationId != id { assert p[k] == ms[k]; }
      }
      WithIdAbsent(p, id);
    }
  }

  /** The distinct IDs of a message list. */
  function IdsOf(ms: seq<CanMessage>): set<int> {
    set k | 0 <= k < |ms| :: ms[k].arbitrationId
  }

  lemma IdsOfSnoc(ms: seq<CanMessage>, m: CanMessage)
    ensures IdsOf(ms + [m]) == IdsOf(ms) + {m.arbitrationId}
  {
    var s := ms + [m];
    assert s[|ms|] == m;
    forall id | id in IdsOf(ms) ensures id in IdsOf(s) {
      var k :| 0 <= k < |ms| && ms[k].arbitrationId == id;
      assert s[k] == ms[k];
    }
  }

  /** The frequencies of the IDs in `order`, added up. */
  function FreqSum(order: seq<int>, freq: map<int, nat>): nat
    requires forall k :: 0 <= k < |order| ==> order[k] in freq
  {
    if order == [] then 0
    else FreqSum(order[..|order| - 1], freq) + freq[order[|order| - 1]]
  }

  /** An ID outside `order` does not contribute to its sum. */
  lemma {:induction false} FreqSumFrame(order: seq<int>, freq: map<int, nat>, id: int, c: nat)
    requires forall k :: 0 <= k < |order| ==> order[k] in freq
    requires id !in order
    ensures FreqSum(order, freq[id := c]) == FreqSum(order, freq)
    decreases |order|
  {
    if order != [] {
      var p := order[..|order| - 1];
      assert id !in p by { assert forall k :: 0 <= k < |p| ==> p[k] == order[k]; }
      FreqSumFrame(p, freq, id, c);
    }
  }

  /** Counting one more message under an ID already in `order` (once) adds one to the sum. */
  lemma {:induction false} FreqSumBump(order: seq<int>, freq: map<int, nat>, id: int)
    requires forall k :: 0 <= k < |order| ==> order[k] in freq
    requires forall i, j :: 0 <= i < j < |order| ==> order[i] != order[j]
    requires id in order
    ensures FreqSum(order, freq[id := freq[id] + 1]) == FreqSum(order, freq) + 1
    decreases |order|
  {
    var n := |order|;
    var p := order[..n - 1];
    if order[n - 1] == id {
      assert id !in p by {
        forall k | 0 <= k < |p| ensures p[k] != id { assert p[k] == order[k]; }
      }
      FreqSumFrame(p, freq, id, freq[id] + 1);
    } else {
      var k :| 0 <= k < n && order[k] == id;
      assert p[k] == id;
      FreqSumBump(p, freq, id);
    }
  }

  /** Appending a new ID with count one adds one to the sum. */
  lemma FreqSumAppend(order: seq<int>, freq: map<int, nat>, id: int)
    requires forall k :: 0 <= k < |order| ==> order[k] in freq
    requires id !in order
    ensures FreqSum(order + [id], freq[id := 1]) == FreqSum(order, freq) + 1
  {
    FreqSumFrame(order, freq, id, 1);
    assert (order + [id])[..|order|] == order;
  }

  /**
   * The three collections agree: the IDs seen are the keys of both maps,
   * each ID's list is its messages in capture order, its frequency is the
   * length of that list, and the frequencies add up to the message count.
   */
  ghost predicate Consistent(ms: seq<CanMessage>, byId: map<int, seq<CanMessage>>,
                             freq: map<int, nat>, order: seq<int>)
  {
    (forall i, j :: 0 <= i < j < |order| ==> order[i] != order[j])
    && (forall id :: id in byId <==> id in order)
    && freq.Keys == byId.Keys
    && byId.Keys == IdsOf(ms)
    && (forall id :: id in byId ==> byId[id] == WithId(ms, id))
    && (forall id :: id in freq ==> freq[id] == |WithId(ms, id)|)
    && FreqSum(order, freq) == |ms|
  }

  /** The state `add_message` leaves behind. */
  function Added(ms: seq<CanMessage>, byId: map<int, seq<CanMessage>>, freq: map<int, nat>,
                 order: seq<int>, msg: CanMessage): (seq<CanMessage>, map<int, seq<CanMessage>>, map<int, nat>, seq<int>)
  {
    var id := msg.arbitrationId;
    (ms + [msg],
     byId[id := (if id in byId then byId[id] else []) + [msg]],
     freq[id := (if id in freq then freq[id] else 0) + 1],
     if id in order then order else order + [id])
  }

  lemma AddedOrder(ms: seq<CanMessage>, byId: map<int, seq<CanMessage>>, freq: map<int, nat>,
                   order: seq<int>, msg: CanMessage)
    requires Consistent(ms, byId, freq, order)
    ensures var r := Added(ms, byId, freq, order, msg);
      (forall i, j :: 0 <= i < j < |r.3| ==> r.3[i] != r.3[j])
      && (forall id :: id in r.1 <==> id in r.3)
      && r.2.Keys == r.1.Keys
      && r.1.Keys == IdsOf(r.0)
  {
    IdsOfSnoc(ms, msg);
  }

  lemma AddedLists(ms: seq<CanMessage>, byId: map<int, seq<CanMessage>>, freq: map<int, nat>,
                   order: seq<int>, msg: CanMessage)
    requires Consistent(ms, byId, freq, order)
    ensures var r := Added(ms, byId, freq, order, msg);
      (forall id :: id in r.1 ==> r.1[id] == WithId(r.0, id))
      && (forall id :: id in r.2 ==> r.2[id] == |WithId(r.0, id)|)
  {
    var r := Added(ms, byId, freq, order, msg);
    forall id | id in r.1 ensures r.1[id] == WithId(r.0, id) {
      WithIdSnoc(ms, msg, id);
      if id !in byId { WithIdAbsent(ms, id); }
    }
    forall id | id in r.2 ensures r.2[id] == |WithId(r.0, id)| {
      WithIdSnoc(ms, msg, id);
    }
  }

  /** Counting one more message, under a known or a new ID, adds one to the frequency sum. */
  lemma AddedSum(order: seq<int>, freq: map<int, nat>, id: int)
    requires forall i, j :: 0 <= i < j < |order| ==> order[i] != order[j]
    requires forall x :: x in freq <==> x in order
    ensures forall k :: 0 <= k < |order| ==> order[k] in freq
    ensures var o := if id in order then order else order + [id];
            var f := freq[id := (if id in freq then freq[id] else 0) + 1];
            (forall k :: 0 <= k < |o| ==> o[k] in f) && FreqSum(o, f) == FreqSum(order, freq) + 1
  {
    forall k | 0 <= k < |order| ensures order[k] in freq {
      assert order[k] in order;
    }
    if id in order {
      FreqSumBump(order, freq, id);
    } else {
      FreqSumAppend(order, freq, id);
    }
  }

  /** `add_message` keeps the three collections consistent. */
  lemma AddedConsistent(ms: seq<CanMessage>, byId: map<int, seq<CanMessage>>, freq: map<int, nat>,
                        order: seq<int>, msg: CanMessage)
    requires Consistent(ms, byId, freq, order)
    ensures var r := Added(ms, byId, freq, order, msg); Consistent(r.0, r.1, r.2, r.3)
  {
    AddedOrder(ms, byId, freq, order, msg);
    AddedLists(ms, byId, freq, order, msg);
    assert forall x :: x in freq <==> x in order;
    AddedSum(order, freq, msg.arbitrationId);
  }

  // ------------------------------------------------------------ the store

  class CanDatabase {
    var messages: seq<CanMessage>
    var uniqueIds: map<int, seq<CanMessage>>
    var idFrequencies: map<int, nat>
    /** The order in which IDs were first seen: the key order of both dictionaries. */
    var idOrder: seq<int>

    ghost predicate Valid()
      reads this
    {
      Consistent(messages, uniqueIds, idFrequencies, idOrder)
    }

    constructor()
      ensures Valid()
      ensures messages == [] && uniqueIds == map[] && idFrequencies == map[] && idOrder == []
    {
      messages := [];
      uniqueIds := map[];
      idFrequencies := map[];
      idOrder := [];
    }

    /** `add_message`: record the message, under its ID, and count it. */
    method AddMessage(msg: CanMessage)
      requires Valid()
      modifies this
      ensures Valid()
      ensures (messages, uniqueIds, idFrequencies, idOrder)
              == Added(old(messages), old(uniqueIds), old(idFrequencies), old(idOrder), msg)
    {
      var id := msg.arbitrationId;
      var list := if id in uniqueIds then uniqueIds[id] else [];
      var count := if id in idFrequencies then idFrequencies[id] else 0;
      var order := if id in uniqueIds then idOrder else idOrder + [id];
      AddedConsistent(messages, uniqueIds, idFrequencies, idOrder, msg);
      messages, uniqueIds, idFrequencies, idOrder :=
        messages + [msg], uniqueIds[id := list + [msg]], idFrequencies[id := count + 1], order;
    }

    /** The `id_frequencies.items()` pairs in dictionary order. */
    function Items(): (r: seq<(int, nat)>)
      reads this
      requires Valid()
      ensures |r| == |idOrder|
      ensures forall k :: 0 <= k < |r| ==> r[k].0 == idOrder[k] && r[k].1 == |WithId(messages, r[k].0)|
    {
      var order := idOrder;
      var freq := idFrequencies;
      assert forall k :: 0 <= k < |order| ==> order[k] in freq;
      seq(|order|, k requires 0 <= k < |order| && order[k] in freq => (order[k], freq[order[k]]))
    }

    /** The items are exactly the IDs seen, each once, with its message count. */
    lemma ItemsAreIds()
      requires Valid()
      ensures TrueCounts(Items(), messages)
    {
      var items := Items();
      forall id | id in IdsOf(messages) ensures (id, |WithId(messages, id)|) in items {
        var k :| 0 <= k < |idOrder| && idOrder[k] == id;
        assert items[k] == (id, |WithId(messages, id)|);
      }
      forall k | 0 <= k < |items| ensures items[k].0 in IdsOf(messages) {
        assert idOrder[k] in idOrder;
      }
      DistinctKeysCard(idOrder, uniqueIds.Keys);
    }

    /**
     * `analyze_traffic`: the error result when nothing was captured, else
     * the counts and the top IDs, which `TopIdsOfMessages` shows to be the
     * ten most frequent.
     */
    function AnalyzeTraffic(): (r: Result<TrafficReport, string>)
      reads this
      requires Valid()
      ensures r.Err? <==> messages == []
      ensures r.Ok? ==> r.value.totalMessages == |messages| && r.value.uniqueIds == |IdsOf(messages)|
      ensures r.Ok? ==> r.value.topIds == TopIds(Items())
    {
      if messages == [] then Err("No messages to analyze")
      else Ok(TrafficReport(|messages|, |uniqueIds.Keys|, TopIds(Items())))
    }

    /**
     * The top list of the captured messages: as many IDs as ten allows,
     * distinct, in non-increasing order of their true counts, and none left
     * out more frequent than one listed.
     */
    lemma TopIdsOfMessages()
      requires Valid()
      ensures var top := TopIds(Items());
              |top| == (if |IdsOf(messages)| < 10 then |IdsOf(messages)| else 10)
              && SortedDesc(top, Count)
              && (forall i, j :: 0 <= i < j < |top| ==> top[i].0 != top[j].0)
      ensures var top := TopIds(Items());
              forall k :: 0 <= k < |top| ==> top[k].0 in IdsOf(messages) && top[k].1 == |WithId(messages, top[k].0)|
      ensures var top := TopIds(Items());
              forall id :: id in IdsOf(messages) && (id, |WithId(messages, id)|) !in top ==>
                forall k :: 0 <= k < |top| ==> top[k].1 >= |WithId(messages, id)|
    {
      ItemsAreIds();
      TopOfItems(Items(), messages);
    }
  }

  // ------------------------------------------------------------ traffic summary

  /** The summary fields of `analyze_traffic` (the time span and average rate are floats, not modelled). */
  datatype TrafficReport = TrafficReport(totalMessages: nat, uniqueIds: nat, topIds: seq<(int, nat)>)

  function Count(p: (int, nat)): int { p.1 }

  /** `sorted(items, key=lambda x: x[1], reverse=True)[:10]`. */
  function TopIds(items: seq<(int, nat)>): (r: seq<(int, nat)>)
    ensures |r| <= 10
    ensures |items| >= 10 ==> |r| == 10
    ensures |items| < 10 ==> |r| == |items|
  {
    Take(SortDesc(items, Count), 10)
  }

  /** The top IDs are in non-increasing frequency order. */
  lemma TopIdsSorted(items: seq<(int, nat)>)
    ensures SortedDesc(TopIds(items), Count)
  {
    SortDescSorted(items, Count);
  }

  /** Every top entry is one of the items. */
  lemma TopIdsFromItems(items: seq<(int, nat)>)
    ensures forall k :: 0 <= k < |TopIds(items)| ==> TopIds(items)[k] in items
  {
    var s := SortDesc(items, Count);
    forall k | 0 <= k < |TopIds(items)| ensures TopIds(items)[k] in items {
      assert TopIds(items)[k] == s[k];
      assert s[k] in multiset(s);
    }
  }

  /** `items` lists every ID of `ms` exactly once, each with its message count. */
  predicate TrueCounts(items: seq<(int, nat)>, ms: seq<CanMessage>) {
    && (forall i, j :: 0 <= i < j < |items| ==> items[i].0 != items[j].0)
    && (forall k :: 0 <= k < |items| ==> items[k].0 in IdsOf(ms) && items[k].1 == |WithId(ms, items[k].0)|)
    && (forall id :: id in IdsOf(ms) ==> (id, |WithId(ms, id)|) in items)
    && |items| == |IdsOf(ms)|
  }

  /**
   * The top list of items that are exactly the IDs of `ms` with their
   * message counts: as many as ten allows, sorted, distinct, each with its
   * true count, and no ID left out more frequent than one listed.
   */
  lemma TopOfItems(items: seq<(int, nat)>, ms: seq<CanMessage>)
    requires TrueCounts(items, ms)
    ensures var top := TopIds(items);
            |top| == (if |IdsOf(ms)| < 10 then |IdsOf(ms)| else 10)
            && SortedDesc(top, Count)
            && (forall i, j :: 0 <= i < j < |top| ==> top[i].0 != top[j].0)
    ensures var top := TopIds(items);
            forall k :: 0 <= k < |top| ==> top[k].0 in IdsOf(ms) && top[k].1 == |WithId(ms, top[k].0)|
    ensures var top := TopIds(items);
            forall id :: id in IdsOf(ms) && (id, |WithId(ms, id)|) !in top ==>
              forall k :: 0 <= k < |top| ==> top[k].1 >= |WithId(ms, id)|
  {
    var top := TopIds(items);
    TopIdsSorted(items);
    TopIdsFromItems(items);
    TopIdsMostFrequent(items);
    forall k | 0 <= k < |top| ensures top[k].0 in IdsOf(ms) && top[k].1 == |WithId(ms, top[k].0)| {
      var p :| 0 <= p < |items| && items[p] == top[k];
    }
    forall id | id in IdsOf(ms) && (id, |WithId(ms, id)|) !in top
      ensures forall k :: 0 <= k < |top| ==> top[k].1 >= |WithId(ms, id)|
    {
      var q := (id, |WithId(ms, id)|);
      forall k | 0 <= k < |top| ensures top[k].1 >= q.1 {
        assert top[k] in top;
      }
    }
  }

  /** A list of distinct elements holds each at most once. */
  lemma {:induction false} CountDistinct<T>(s: seq<T>, x: T)
    requires forall i, j :: 0 <= i < j < |s| ==> s[i] != s[j]
    ensures multiset(s)[x] <= 1
    decreases |s|
  {
    if s != [] {
      var t := s[1..];
      assert s == [s[0]] + t;
      CountDistinct(t, x);
      if s[0] == x {
        assert x !in t by {
          forall k | 0 <= k < |t| ensures t[k] != x { assert t[k] == s[k + 1]; }
        }
      }
    }
  }

  /** An element at two places of a list is counted twice. */
  lemma CountTwice<T>(s: seq<T>, i: nat, j: nat)
    requires i < j < |s| && s[i] == s[j]
    ensures multiset(s)[s[i]] >= 2
  {
    assert s == s[..j] + [s[j]] + s[j + 1..];
    assert s[..j][i] == s[i];
    assert s[i] in multiset(s[..j]);
  }

  /**
   * The top IDs of items with distinct IDs: distinct themselves, as many as
   * ten allows, and none left out has a higher count than one listed.
   */
  lemma TopIdsMostFrequent(items: seq<(int, nat)>)
    requires forall i, j :: 0 <= i < j < |items| ==> items[i].0 != items[j].0
    ensures |TopIds(items)| == if |items| < 10 then |items| else 10
    ensures forall i, j :: 0 <= i < j < |TopIds(items)| ==> TopIds(items)[i].0 != TopIds(items)[j].0
    ensures forall p, q :: p in TopIds(items) && q in items && q !in TopIds(items) ==> p.1 >= q.1
  {
    TopIdsDistinct(items);
    TopIdsDominate(items);
  }

  /** Two places of the top list hold different IDs when the items do. */
  lemma TopIdsDistinct(items: seq<(int, nat)>)
    requires forall i, j :: 0 <= i < j < |items| ==> items[i].0 != items[j].0
    ensures forall i, j :: 0 <= i < j < |TopIds(items)| ==> TopIds(items)[i].0 != TopIds(items)[j].0
  {
    forall i, j | 0 <= i < j < |TopIds(items)| ensures TopIds(items)[i].0 != TopIds(items)[j].0 {
      TopIdsDistinctAt(items, i, j);
    }
  }

  lemma TopIdsDistinctAt(items: seq<(int, nat)>, i: nat, j: nat)
    requires forall i, j :: 0 <= i < j < |items| ==> items[i].0 != items[j].0
    requires i < j < |TopIds(items)|
    ensures TopIds(items)[i].0 != TopIds(items)[j].0
  {
    var sorted := SortDesc(items, Count);
    var top := TopIds(items);
    assert top[i] == sorted[i] && top[j] == sorted[j];
    if top[i].0 == top[j].0 {
      assert top[i] in multiset(items) && top[j] in multiset(items);
      var a :| 0 <= a < |items| && items[a] == top[i];
      var b :| 0 <= b < |items| && items[b] == top[j];
      assert a == b;
      CountTwice(sorted, i, j);
      CountDistinct(items, top[i]);
      assert false;
    }
  }

  /** No item left out of the top list has a higher count than one in it. */
  lemma TopIdsDominate(items: seq<(int, nat)>)
    ensures forall p, q :: p in TopIds(items) && q in items && q !in TopIds(items) ==> p.1 >= q.1
  {
    var sorted := SortDesc(items, Count);
    var top := TopIds(items);
    SortedSplitDominates(items, Count, 10);
    SortedSplitPartition(items, Count, 10);
    var dropped := Drop(sorted, 10);
    forall p, q | p in top && q in items && q !in top ensures p.1 >= q.1 {
      assert q in multiset(items);
      assert q in multiset(dropped);
      assert Count(p) >= Count(q);
    }
  }

  /** A list of distinct keys and the set of its elements have the same size. */
  lemma {:induction false} DistinctKeysCard(order: seq<int>, keys: set<int>)
    requires forall i, j :: 0 <= i < j < |order| ==> order[i] != order[j]
    requires forall k :: k in keys <==> k in order
    ensures |keys| == |order|
    decreases |order|
  {
    if order != [] {
      var last := order[|order| - 1];
      var init := order[..|order| - 1];
      var rest := keys - {last};
      assert last !in init by {
        forall k | 0 <= k < |init| ensures init[k] != last { assert init[k] == order[k]; }
      }
      assert forall k :: k in rest <==> k in init by {
        forall k | k in rest ensures k in init {
          var i :| 0 <= i < |order| && order[i] == k;
          assert init[i] == k;
        }
        forall k | k in init ensures k in rest {
          var i :| 0 <= i < |init| && init[i] == k;
          assert order[i] == k;
        }
      }
      DistinctKeysCard(init, rest);
      assert last in keys by { assert last in order; }
      assert keys == rest + {last} && last !in rest;
      assert |keys| == |rest| + 1;
    } else {
      assert forall k :: k !in keys;
      assert keys == {};
    }
  }
}
