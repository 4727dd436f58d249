/** The feature GET queue (a ring of 16 requests, compacted in place) and the 32-slot feature report cache. */
module FeatureReports {
  import opened Basics

  const QUEUE_DEPTH: nat := 16
  const CACHE_SLOTS: nat := 32
  const FEATURE_MAX_LEN: nat := 64

  datatype Request = Request(id: Byte, len: nat)

  datatype Entry = Entry(valid: bool, id: Byte, len: nat, data: seq<Byte>)

  // ---- the queue as an ordered list ----

  function Clamped(len: nat): (n: nat)
    ensures 1 <= n <= FEATURE_MAX_LEN
  {
    if len == 0 || len > FEATURE_MAX_LEN then FEATURE_MAX_LEN else len
  }

  /** The position of the request for `id`, or the length of the list. */
  function IndexOf(q: seq<Request>, id: Byte): (i: nat)
    ensures i <= |q|
    ensures i < |q| ==> q[i].id == id
    ensures forall j :: 0 <= j < i ==> q[j].id != id
  {
    if q == [] then 0 else if q[0].id == id then 0 else 1 + IndexOf(q[1..], id)
  }

  ghost predicate DistinctIds(q: seq<Request>) {
    forall i, j :: 0 <= i < j < |q| ==> q[i].id != q[j].id
  }

  // What asking for a report does to the list.
  function Asked(q: seq<Request>, id: Byte, len: nat): (seq<Request>, bool) {
    if id == 0 then (q, false)
    else
      var i := IndexOf(q, id);
      if i < |q| then (q[i := Request(id, if Clamped(len) > q[i].len then Clamped(len) else q[i].len)], true)
      else if |q| >= QUEUE_DEPTH then (q, false)
      else (q + [Request(id, Clamped(len))], true)
  }

  function Without(q: seq<Request>, id: Byte): (r: seq<Request>)
    ensures |r| <= |q|
    ensures forall k :: 0 <= k < |r| ==> r[k] in q && r[k].id != id
  {
    if q == [] then []
    else
      var rest := Without(q[..|q| - 1], id);
      if q[|q| - 1].id == id then rest else rest + [q[|q| - 1]]
  }

  /** Compaction is an order-preserving filter: it composes over concatenation and keeps exactly the other requests. */
  lemma {:induction false} WithoutComposes(a: seq<Request>, b: seq<Request>, id: Byte)
    ensures Without(a + b, id) == Without(a, id) + Without(b, id)
  {
    if b == [] {
      assert a + b == a;
    } else {
      assert (a + b)[..|a + b| - 1] == a + b[..|b| - 1];
      WithoutComposes(a, b[..|b| - 1], id);
    }
  }

  lemma {:induction false} WithoutKeepsOthers(q: seq<Request>, id: Byte, r: Request)
    ensures r in Without(q, id) <==> r in q && r.id != id
  {
    if q != [] {
      WithoutKeepsOthers(q[..|q| - 1], id, r);
      assert q == q[..|q| - 1] + [q[|q| - 1]];
    }
  }

  lemma {:induction false} WithoutKeepsDistinct(q: seq<Request>, id: Byte)
    requires DistinctIds(q)
    ensures DistinctIds(Without(q, id))
  {
    if q != [] {
      WithoutKeepsDistinct(q[..|q| - 1], id);
    }
  }

  /** With distinct ids the filter takes out one request at most, leaving the two halves around it in place. */
  lemma WithoutCutsOne(q: seq<Request>, id: Byte)
    requires DistinctIds(q)
    ensures var i := IndexOf(q, id);
            Without(q, id) == if i < |q| then q[..i] + q[i + 1..] else q
  {
    var i := IndexOf(q, id);
    OnlyOneHas(q, id);
    hide Without, DistinctIds, IndexOf;
    if i < |q| {
      CutsAt(q[..i], q[i], q[i + 1..], id);
      assert q == q[..i] + [q[i]] + q[i + 1..];
    } else {
      WithoutAbsent(q, id);
    }
  }

  lemma OnlyOneHas(q: seq<Request>, id: Byte)
    requires DistinctIds(q)
    ensures IndexOf(q, id) < |q| ==> q[IndexOf(q, id)].id == id
    ensures forall j :: 0 <= j < |q| && j != IndexOf(q, id) ==> q[j].id != id
  {
  }

  lemma CutsAt(a: seq<Request>, r: Request, b: seq<Request>, id: Byte)
    requires r.id == id
    requires forall j :: 0 <= j < |a| ==> a[j].id != id
    requires forall j :: 0 <= j < |b| ==> b[j].id != id
    ensures Without(a + [r] + b, id) == a + b
  {
    WithoutComposes(a + [r], b, id);
    WithoutComposes(a, [r], id);
    assert [r][..0] == [] && Without([r], id) == [];
    WithoutAbsent(a, id);
    WithoutAbsent(b, id);
  }

  lemma {:induction false} WithoutAbsent(q: seq<Request>, id: Byte)
    requires forall j :: 0 <= j < |q| ==> q[j].id != id
    ensures Without(q, id) == q
  {
    if q != [] {
      WithoutAbsent(q[..|q| - 1], id);
      assert q == q[..|q| - 1] + [q[|q| - 1]];
    }
  }

  /** Asking keeps ids distinct, never reorders, and never shortens a request that is already queued. */
  lemma AskedKeepsOrder(q: seq<Request>, id: Byte, len: nat)
    requires DistinctIds(q) && |q| <= QUEUE_DEPTH
    ensures var (r, ok) := Asked(q, id, len);
            && DistinctIds(r) && |q| <= |r| <= QUEUE_DEPTH
            && (forall k :: 0 <= k < |q| ==> r[k].id == q[k].id && r[k].len >= q[k].len)
            && (ok <==> IndexOf(r, id) < |r| && id != 0)
            && (ok ==> r[IndexOf(r, id)].len >= Clamped(len))
            && (!ok && id != 0 ==> |q| == QUEUE_DEPTH && IndexOf(q, id) == |q|)
            && (!ok ==> r == q)
            && (forall k :: 0 <= k < |q| && q[k].id != id ==> r[k] == q[k])
    ensures var (r, ok) := Asked(q, id, len);
            var wanted := if 1 <= len <= 64 then len else 64;
            var i := IndexOf(q, id);
            ok ==> if i < |q| then |r| == |q| && r[i] == Request(id, Max(q[i].len, wanted)) else r == q + [Request(id, wanted)]
  {
    var (r, ok) := Asked(q, id, len);
    if ok {
      var i := IndexOf(q, id);
      assert r[i].id == id;
      assert forall j :: 0 <= j < i ==> r[j].id != id;
      assert IndexOf(r, id) == i;
    }
  }

  // What the ring holds: distinct non-zero ids and lengths from 1 to 64.
  ghost predicate GoodRequests(q: seq<Request>) {
    DistinctIds(q) && forall k :: 0 <= k < |q| ==> q[k].id != 0 && 1 <= q[k].len <= FEATURE_MAX_LEN
  }

  lemma GoodRequestsKept(q: seq<Request>, id: Byte, len: nat)
    requires GoodRequests(q) && |q| <= QUEUE_DEPTH
    ensures GoodRequests(Asked(q, id, len).0) && GoodRequests(Without(q, id))
    ensures q != [] ==> GoodRequests(q[1..])
  {
    AskedKeepsOrder(q, id, len);
    WithoutKeepsDistinct(q, id);
  }

  // ---- the cache as a map ----

  ghost predicate WellFormed(entries: seq<Entry>) {
    && |entries| == CACHE_SLOTS
    && (forall i :: 0 <= i < |entries| ==> |entries[i].data| == FEATURE_MAX_LEN && entries[i].len <= FEATURE_MAX_LEN)
    && (forall i, j :: 0 <= i < j < |entries| && entries[i].valid && entries[j].valid ==> entries[i].id != entries[j].id)
  }

  /** The slot find_feature_cache returns, or -1. */
  function Find(entries: seq<Entry>, id: Byte): (i: int)
    ensures -1 <= i < |entries|
    ensures i >= 0 ==> entries[i].valid && entries[i].id == id
    ensures forall j :: 0 <= j < (if i < 0 then |entries| else i) ==> !(entries[j].valid && entries[j].id == id)
  {
    if entries == [] then -1
    else
      var last := |entries| - 1;
      var i := Find(entries[..last], id);
      if i >= 0 then i else if entries[last].valid && entries[last].id == id then last else -1
  }

  function FirstInvalid(entries: seq<Entry>): (i: int)
    ensures -1 <= i < |entries|
    ensures i >= 0 ==> !entries[i].valid
    ensures forall j :: 0 <= j < (if i < 0 then |entries| else i) ==> entries[j].valid
  {
    if entries == [] then -1
    else
      var last := |entries| - 1;
      var i := FirstInvalid(entries[..last]);
      if i >= 0 then i else if !entries[last].valid then last else -1
  }

  ghost function Ids(entries: seq<Entry>): set<Byte> {
    set i | 0 <= i < |entries| && entries[i].valid :: entries[i].id
  }

  function Bytes(e: Entry): seq<Byte> {
    if e.len <= |e.data| then e.data[..e.len] else e.data
  }

  /** What the cache answers, as a map from report id to report. */
  ghost function Contents(entries: seq<Entry>): map<Byte, seq<Byte>> {
    map id | id in Ids(entries) :: Bytes(entries[Find(entries, id)])
  }

  lemma {:induction false} AtMostOnePerSlot(entries: seq<Entry>)
    ensures |Ids(entries)| <= |entries|
  {
    if entries == [] {
      assert Ids(entries) == {};
    } else {
      var last := |entries| - 1;
      AtMostOnePerSlot(entries[..last]);
      var rest := Ids(entries[..last]);
      if entries[last].valid {
        assert Ids(entries) == rest + {entries[last].id};
      } else {
        assert Ids(entries) == rest;
      }
    }
  }

  /** The cache holds at most 32 reports. */
  lemma CacheIsBounded(entries: seq<Entry>)
    requires WellFormed(entries)
    ensures |Contents(entries)| <= CACHE_SLOTS
  {
    AtMostOnePerSlot(entries);
    assert Contents(entries).Keys == Ids(entries);
  }

  // The slot a store writes to: the report's own, else the first free one, else the next victim in turn.
  function StoreSlot(entries: seq<Entry>, id: Byte, replace: nat): (i: nat)
    requires |entries| == CACHE_SLOTS
    ensures i < CACHE_SLOTS
  {
    if Find(entries, id) >= 0 then Find(entries, id)
    else if FirstInvalid(entries) >= 0 then FirstInvalid(entries)
    else replace % CACHE_SLOTS
  }

  predicate Evicts(entries: seq<Entry>, id: Byte) {
    Find(entries, id) < 0 && FirstInvalid(entries) < 0
  }

  /** Another report gives way exactly when the new one is unknown and none of the 32 slots is free. */
  lemma EvictsOnlyWhenFull(entries: seq<Entry>, id: Byte, replace: nat)
    requires WellFormed(entries)
    ensures Evicts(entries, id) <==> id !in Contents(entries) && forall j :: 0 <= j < 32 ==> entries[j].valid
    ensures Evicts(entries, id) ==> StoreSlot(entries, id, replace) == replace % 32
    ensures id in Contents(entries) ==> entries[StoreSlot(entries, id, replace)].id == id
  {
    if Find(entries, id) >= 0 { assert entries[Find(entries, id)].id in Ids(entries); }
  }

  function Truncated(data: seq<Byte>): (d: seq<Byte>)
    ensures |d| <= FEATURE_MAX_LEN && d <= data
  {
    if |data| > FEATURE_MAX_LEN then data[..FEATURE_MAX_LEN] else data
  }

  function Written(e: Entry, id: Byte, data: seq<Byte>): Entry
    requires |data| <= |e.data|
  {
    Entry(true, id, |data|, data + e.data[|data|..])
  }

  lemma FindIsUnique(entries: seq<Entry>, i: nat)
    requires WellFormed(entries) && i < |entries| && entries[i].valid
    ensures Find(entries, entries[i].id) == i
  {
  }

  /**
   Writing one slot changes the map at one key. A report that was in that slot under another id is forgotten;
   by the choice of slot that happens only when all 32 slots hold other reports.
   */
  lemma StoreUpdatesMap(entries: seq<Entry>, id: Byte, data: seq<Byte>, replace: nat)
    requires WellFormed(entries) && |data| <= FEATURE_MAX_LEN
    ensures var i := StoreSlot(entries, id, replace);
            var after := entries[i := Written(entries[i], id, data)];
            && |entries[i].data| == FEATURE_MAX_LEN
            && WellFormed(after)
            && Contents(after) == (if Evicts(entries, id) then Contents(entries) - {entries[i].id} else Contents(entries))[id := data]
  {
    hide Find, StoreSlot, Written, Ids;
    var i := StoreSlot(entries, id, replace);
    var after := entries[i := Written(entries[i], id, data)];
    var before := if Evicts(entries, id) then Contents(entries) - {entries[i].id} else Contents(entries);
    StoreKeepsWellFormed(entries, id, data, replace);
    StoredIds(entries, id, data, replace);
    forall k | k in Contents(after)
      ensures Contents(after)[k] == before[id := data][k]
    {
      StoredLookup(entries, id, data, replace, k);
    }
  }

  lemma StoredLookup(entries: seq<Entry>, id: Byte, data: seq<Byte>, replace: nat, k: Byte)
    requires WellFormed(entries) && |data| <= FEATURE_MAX_LEN
    requires var i := StoreSlot(entries, id, replace);
             k in Ids(entries[i := Written(entries[i], id, data)])
    ensures var i := StoreSlot(entries, id, replace);
            var after := entries[i := Written(entries[i], id, data)];
            && Find(after, k) >= 0
            && (k == id ==> Bytes(after[Find(after, k)]) == data)
            && (k != id ==> Find(entries, k) >= 0 && after[Find(after, k)] == entries[Find(entries, k)])
  {
    hide StoreSlot;
    var i := StoreSlot(entries, id, replace);
    var after := entries[i := Written(entries[i], id, data)];
    StoreKeepsWellFormed(entries, id, data, replace);
    var j := Find(after, k);
    if k != id {
      assert entries[j] == after[j];
      FindIsUnique(entries, j);
    } else {
      FindIsUnique(after, i);
      assert (data + entries[i].data[|data|..])[..|data|] == data;
    }
  }

  lemma StoreKeepsWellFormed(entries: seq<Entry>, id: Byte, data: seq<Byte>, replace: nat)
    requires WellFormed(entries) && |data| <= FEATURE_MAX_LEN
    ensures var i := StoreSlot(entries, id, replace);
            WellFormed(entries[i := Written(entries[i], id, data)])
  {
  }

  lemma StoredIds(entries: seq<Entry>, id: Byte, data: seq<Byte>, replace: nat)
    requires WellFormed(entries) && |data| <= FEATURE_MAX_LEN
    ensures var i := StoreSlot(entries, id, replace);
            var after := entries[i := Written(entries[i], id, data)];
            Ids(after) == (if Evicts(entries, id) then Ids(entries) - {entries[i].id} else Ids(entries)) + {id}
  {
    var i := StoreSlot(entries, id, replace);
    var after := entries[i := Written(entries[i], id, data)];
    var want := (if Evicts(entries, id) then Ids(entries) - {entries[i].id} else Ids(entries)) + {id};
    assert after[i].valid && after[i].id == id;
    assert id in Ids(after);
    forall k | k in want && k != id
      ensures k in Ids(after)
    {
      var j :| 0 <= j < |entries| && entries[j].valid && entries[j].id == k;
      assert j != i;
      assert after[j] == entries[j];
    }
    forall k | k in Ids(after)
      ensures k in want
    {
      var j :| 0 <= j < |after| && after[j].valid && after[j].id == k;
      if j != i {
        assert entries[j] == after[j];
      }
    }
  }

  function Dropped(e: Entry): Entry {
    e.(valid := false, len := 0)
  }

  lemma InvalidatedIds(entries: seq<Entry>, id: Byte)
    requires WellFormed(entries) && Find(entries, id) >= 0
    ensures var i := Find(entries, id);
            Ids(entries[i := Dropped(entries[i])]) == Ids(entries) - {id}
  {
    var i := Find(entries, id);
    var after := entries[i := Dropped(entries[i])];
    forall k | k in Ids(after)
      ensures k in Ids(entries) && k != id
    {
      var j :| 0 <= j < |after| && after[j].valid && after[j].id == k;
      assert j != i && entries[j] == after[j];
    }
    forall k | k in Ids(entries) && k != id
      ensures k in Ids(after)
    {
      var j :| 0 <= j < |entries| && entries[j].valid && entries[j].id == k;
      assert after[j] == entries[j];
    }
  }

  /** Invalidating a report removes exactly that key. */
  lemma InvalidateUpdatesMap(entries: seq<Entry>, id: Byte)
    requires WellFormed(entries) && Find(entries, id) >= 0
    ensures var i := Find(entries, id);
            var after := entries[i := Dropped(entries[i])];
            && WellFormed(after) && Contents(after) == Contents(entries) - {id}
  {
    hide Ids, Bytes;
    var i := Find(entries, id);
    var after := entries[i := Dropped(entries[i])];
    InvalidatedIds(entries, id);
    forall k | k in Ids(after)
      ensures Find(after, k) >= 0 && after[Find(after, k)] == entries[Find(entries, k)]
    {
      KnownIsFound(after, k);
      FindIsUnique(entries, Find(after, k));
    }
  }

  lemma KnownIsFound(entries: seq<Entry>, k: Byte)
    requires k in Ids(entries)
    ensures Find(entries, k) >= 0
  {
  }

  // ---- the ring ----

  function Place(tail: nat, k: nat): (p: nat)
    ensures p < QUEUE_DEPTH
  {
    (tail + k) % QUEUE_DEPTH
  }

  function Ring(a: seq<Request>, tail: nat, count: nat): (q: seq<Request>)
    requires |a| == QUEUE_DEPTH
    ensures |q| == count
    ensures forall k :: 0 <= k < count ==> q[k] == a[Place(tail, k)]
  {
    if count == 0 then [] else Ring(a, tail, count - 1) + [a[Place(tail, count - 1)]]
  }

  lemma PlacesDiffer(tail: nat, j: nat, k: nat)
    requires j < QUEUE_DEPTH && k < QUEUE_DEPTH && j != k
    ensures Place(tail, j) != Place(tail, k)
  {
  }

  lemma RingUpdate(a: seq<Request>, tail: nat, count: nat, i: nat, r: Request)
    requires |a| == QUEUE_DEPTH && i < count <= QUEUE_DEPTH
    ensures Ring(a[Place(tail, i) := r], tail, count) == Ring(a, tail, count)[i := r]
  {
    hide Place;
    var b := a[Place(tail, i) := r];
    forall k | 0 <= k < count
      ensures Ring(b, tail, count)[k] == Ring(a, tail, count)[i := r][k]
    {
      if k != i { PlacesDiffer(tail, i, k); }
    }
  }

  lemma RingAppend(a: seq<Request>, tail: nat, count: nat, r: Request)
    requires |a| == QUEUE_DEPTH && count < QUEUE_DEPTH
    ensures Ring(a[Place(tail, count) := r], tail, count + 1) == Ring(a, tail, count) + [r]
  {
    hide Place;
    var b := a[Place(tail, count) := r];
    forall k | 0 <= k < count
      ensures Ring(b, tail, count)[k] == Ring(a, tail, count)[k]
    {
      PlacesDiffer(tail, count, k);
    }
  }

  lemma PlaceMoves(tail: nat, k: nat)
    ensures Place(Place(tail, 1), k) == Place(tail, k + 1)
  {
  }

  lemma PlaceNext(tail: nat, k: nat)
    ensures Place(Place(tail, k), 1) == Place(tail, k + 1)
    ensures tail < QUEUE_DEPTH ==> Place(tail, 0) == tail
  {
  }

  lemma RingDropFront(a: seq<Request>, tail: nat, count: nat)
    requires |a| == QUEUE_DEPTH && 0 < count
    ensures Ring(a, Place(tail, 1), count - 1) == Ring(a, tail, count)[1..]
  {
    hide Place;
    var q, r := Ring(a, tail, count), Ring(a, Place(tail, 1), count - 1);
    forall k | 0 <= k < count - 1
      ensures r[k] == q[1..][k]
    {
      PlaceMoves(tail, k);
    }
  }

  // Halfway through compaction: the survivors of the first i requests sit at the tail, the rest is untouched.
  ghost predicate Compacted(a: seq<Request>, tail: nat, retained: nat, i: nat, q: seq<Request>, id: Byte) {
    && |a| == QUEUE_DEPTH && retained <= i <= |q| <= QUEUE_DEPTH
    && Ring(a, tail, retained) == Without(q[..i], id)
    && forall k :: i <= k < |q| ==> a[Place(tail, k)] == q[k]
  }

  lemma NothingCompacted(a: seq<Request>, tail: nat, q: seq<Request>, id: Byte)
    requires |a| == QUEUE_DEPTH && |q| <= QUEUE_DEPTH && q == Ring(a, tail, |q|)
    ensures Compacted(a, tail, 0, 0, q, id)
  {
  }

  lemma AllCompacted(a: seq<Request>, tail: nat, retained: nat, q: seq<Request>, id: Byte)
    requires Compacted(a, tail, retained, |q|, q, id)
    ensures retained <= |q| && |a| == QUEUE_DEPTH && Ring(a, tail, retained) == Without(q, id)
  {
    assert q[..|q|] == q;
  }

  // One compaction move appends to the survivors and leaves the requests still to be read alone.
  lemma CompactStep(a: seq<Request>, tail: nat, retained: nat, i: nat, q: seq<Request>, id: Byte)
    requires Compacted(a, tail, retained, i, q, id) && i < |q|
    ensures |a| == QUEUE_DEPTH && a[Place(tail, i)] == q[i]
    ensures if q[i].id == id then Compacted(a, tail, retained, i + 1, q, id)
            else Compacted(a[Place(tail, retained) := a[Place(tail, i)]], tail, retained + 1, i + 1, q, id)
  {
    hide Place;
    assert q[..i + 1][..i] == q[..i];
    RingAppend(a, tail, retained, q[i]);
    forall k | i < k < |q|
      ensures Place(tail, k) != Place(tail, retained)
    {
      PlacesDiffer(tail, retained, k);
    }
  }

  // Moving the tail one place on takes the front request off the list.
  lemma FrontTaken(a: seq<Request>, tail: nat, count: nat)
    requires |a| == QUEUE_DEPTH && 0 < count <= QUEUE_DEPTH && tail < QUEUE_DEPTH
    requires GoodRequests(Ring(a, tail, count))
    ensures var q := Ring(a, tail, count);
            && a[tail] == q[0] && Ring(a, Place(tail, 1), count - 1) == q[1..]
            && GoodRequests(q[1..]) && Place(tail, count) == Place(Place(tail, 1), count - 1)
  {
    RingDropFront(a, tail, count);
    PlaceNext(tail, 0);
    PlaceMoves(tail, count - 1);
    hide Place;
    GoodRequestsKept(Ring(a, tail, count), 0, 0);
    assert Ring(a, tail, count)[0] == a[Place(tail, 0)];
  }

  lemma IndexOfIs(q: seq<Request>, id: Byte, i: nat)
    requires i <= |q| && (i < |q| ==> q[i].id == id)
    requires forall j :: 0 <= j < i ==> q[j].id != id
    ensures IndexOf(q, id) == i
  {
  }

  class FeatureStore {
    const queue: array<Request>
    var head: nat
    var tail: nat
    var count: nat
    var highWater: nat
    var coalesced: nat
    var dropped: nat
    const cache: array<Entry>
    var replaceIndex: nat

    ghost predicate Valid()
      reads this, queue, cache
    {
      && queue.Length == QUEUE_DEPTH && cache.Length == CACHE_SLOTS
      && tail < QUEUE_DEPTH && count <= QUEUE_DEPTH && head == Place(tail, count)
      && replaceIndex < 256
      && GoodRequests(Queued())
      && WellFormed(cache[..])
    }

    ghost function Queued(): (q: seq<Request>)
      reads this, queue
      requires queue.Length == QUEUE_DEPTH
    {
      Ring(queue[..], tail, count)
    }

    ghost function Reports(): map<Byte, seq<Byte>>
      reads this, cache
    {
      Contents(cache[..])
    }

    constructor ()
      ensures Valid() && fresh(queue) && fresh(cache)
      ensures Queued() == [] && Reports() == map[]
    {
      queue := new Request[QUEUE_DEPTH](_ => Request(0, 0));
      var blank := Entry(false, 0, 0, Repeat<Byte>(0, FEATURE_MAX_LEN));
      cache := new Entry[CACHE_SLOTS](_ => blank);
      head, tail, count, highWater, coalesced, dropped, replaceIndex := 0, 0, 0, 0, 0, 0, 0;
      new;
      assert Ids(cache[..]) == {};
    }

    method RequestReport(id: Byte, requestedLen: nat) returns (ok: bool)
      requires Valid()
      modifies this`head, this`count, this`highWater, this`coalesced, this`dropped, queue
      ensures Valid()
      ensures (Queued(), ok) == Asked(old(Queued()), id, requestedLen)
      ensures tail == old(tail) && Reports() == old(Reports())
    {
      hide WellFormed, GoodRequests, IndexOf, Ring, Contents, Place;
      GoodRequestsKept(Queued(), id, requestedLen);
      if id == 0 {
        return false;
      }
      var len := requestedLen;
      if len == 0 || len > FEATURE_MAX_LEN {
        len := FEATURE_MAX_LEN;
      }
      var i := FindQueued(id);
      if i < count {
        Coalesce(i, id, len);
        return true;
      }
      if count >= QUEUE_DEPTH {
        dropped := dropped + 1;
        return false;
      }
      Append(Request(id, len));
      ok := true;
    }

    method FindQueued(id: Byte) returns (i: nat)
      requires Valid()
      ensures i == IndexOf(Queued(), id)
    {
      i := 0;
      while i < count && queue[Place(tail, i)].id != id
        invariant i <= count
        invariant forall j :: 0 <= j < i ==> Queued()[j].id != id
      {
        assert Queued()[i] == queue[Place(tail, i)];
        i := i + 1;
      }
      assert i < count ==> Queued()[i] == queue[Place(tail, i)];
      IndexOfIs(Queued(), id, i);
    }

    method Coalesce(i: nat, id: Byte, len: nat)
      requires Valid() && i < count && Queued()[i].id == id
      requires GoodRequests(Queued()[i := Request(id, if len > Queued()[i].len then len else Queued()[i].len)])
      modifies this`coalesced, queue
      ensures Valid()
      ensures Queued() == old(Queued())[i := Request(id, if len > old(Queued())[i].len then len else old(Queued())[i].len)]
    {
      var index := Place(tail, i);
      assert queue[index] == Queued()[i];
      hide WellFormed, Place, GoodRequests;
      var larger := if len > queue[index].len then len else queue[index].len;
      RingUpdate(queue[..], tail, count, i, queue[index].(len := larger));
      if len > queue[index].len {
        queue[index] := queue[index].(len := len);
      }
      coalesced := coalesced + 1;
      assert queue[..] == old(queue[..])[Place(tail, i) := old(queue[index]).(len := larger)];
    }

    method Append(r: Request)
      requires Valid() && count < QUEUE_DEPTH && GoodRequests(Queued() + [r])
      modifies this`head, this`count, this`highWater, queue
      ensures Valid() && Queued() == old(Queued()) + [r]
    {
      hide WellFormed, GoodRequests;
      RingAppend(queue[..], tail, count, r);
      PlaceNext(tail, count);
      hide Ring, Place;
      queue[head] := r;
      head := Place(head, 1);
      count := count + 1;
      if count > highWater {
        highWater := count;
      }
      assert queue[..] == old(queue[..])[Place(tail, count - 1) := r];
    }

    // In-place compaction: the survivors move towards the tail.
    method RemoveQueued(id: Byte)
      requires Valid()
      modifies this`head, this`count, queue
      ensures Valid() && Queued() == Without(old(Queued()), id)
    {
      hide WellFormed, GoodRequests, Place, Ring, Without, Compacted;
      ghost var q := Queued();
      GoodRequestsKept(q, id, 0);
      NothingCompacted(queue[..], tail, q, id);
      var retained := 0;
      for i := 0 to count
        invariant count == old(count) && tail == old(tail)
        invariant Compacted(queue[..], tail, retained, i, q, id)
      {
        CompactStep(queue[..], tail, retained, i, q, id);
        var readIndex := Place(tail, i);
        if queue[readIndex].id != id {
          ghost var before := queue[..];
          var writeIndex := Place(tail, retained);
          if writeIndex != readIndex {
            queue[writeIndex] := queue[readIndex];
          }
          assert queue[..] == before[writeIndex := before[readIndex]];
          retained := retained + 1;
        }
      }
      AllCompacted(queue[..], tail, retained, q, id);
      count := retained;
      head := Place(tail, retained);
    }

    method ClearQueue()
      requires Valid()
      modifies this`head, this`tail, this`count
      ensures Valid() && Queued() == []
    {
      head, tail, count := 0, 0, 0;
    }

    method TakeRequest() returns (taken: Option<Request>)
      requires Valid()
      modifies this`tail, this`count
      ensures Valid()
      ensures if old(Queued()) == [] then taken == None && Queued() == []
              else taken == Some(old(Queued())[0]) && Queued() == old(Queued())[1..]
    {
      ghost var q := Queued();
      if count == 0 {
        return None;
      }
      FrontTaken(queue[..], tail, count);
      hide GoodRequests, WellFormed, Ring, Place;
      taken := Some(queue[tail]);
      tail := Place(tail, 1);
      count := count - 1;
    }

    method FindCached(id: Byte) returns (i: int)
      requires Valid()
      ensures i == Find(cache[..], id)
    {
      i := -1;
      for k := 0 to CACHE_SLOTS
        invariant Find(cache[..k], id) == -1
      {
        assert cache[..k + 1][..k] == cache[..k];
        if cache[k].valid && cache[k].id == id {
          FoundInPrefix(cache[..], k, id);
          return k;
        }
      }
      assert cache[..CACHE_SLOTS] == cache[..];
    }

    /** Storing a report sets its key, drops any queued request for it, and forgets another report only when full. */
    method StoreReport(id: Byte, data: seq<Byte>)
      requires Valid()
      modifies this`replaceIndex, this`head, this`count, queue, cache
      ensures Valid()
      ensures data == [] ==> Queued() == old(Queued()) && Reports() == old(Reports())
      ensures data != [] ==>
                && Queued() == Without(old(Queued()), id)
                && Reports() == (if !Evicts(old(cache[..]), id) then old(Reports())
                                 else old(Reports()) - {old(cache[..])[old(replaceIndex) % CACHE_SLOTS].id})
                             [id := if |data| > 64 then data[..64] else data]
      ensures replaceIndex == if data != [] && Evicts(old(cache[..]), id) then (old(replaceIndex) + 1) % 256 else old(replaceIndex)
    {
      hide WellFormed, GoodRequests, Contents, Ids, Find, FirstInvalid, Written, Without, Ring;
      if data == [] {
        return;
      }
      var kept := Truncated(data);
      var entry := FindCached(id);
      if entry < 0 {
        entry := FindFree();
      }
      if entry < 0 {
        entry := replaceIndex % CACHE_SLOTS;
        replaceIndex := (replaceIndex + 1) % 256;
      }
      StoreUpdatesMap(cache[..], id, kept, old(replaceIndex));
      WriteEntry(entry, id, kept);
      RemoveQueued(id);
    }

    method WriteEntry(entry: nat, id: Byte, data: seq<Byte>)
      requires Valid() && entry < CACHE_SLOTS && |data| <= FEATURE_MAX_LEN
      requires |cache[entry].data| == FEATURE_MAX_LEN
      requires WellFormed(cache[..][entry := Written(cache[entry], id, data)])
      modifies cache
      ensures Valid() && cache[..] == old(cache[..])[entry := Written(old(cache[entry]), id, data)]
      ensures Queued() == old(Queued())
    {
      hide WellFormed, GoodRequests, Written;
      cache[entry] := Written(cache[entry], id, data);
      assert cache[..] == old(cache[..])[entry := Written(old(cache[entry]), id, data)];
    }

    method FindFree() returns (i: int)
      requires Valid()
      ensures i == FirstInvalid(cache[..])
    {
      i := -1;
      for k := 0 to CACHE_SLOTS
        invariant FirstInvalid(cache[..k]) == -1
      {
        assert cache[..k + 1][..k] == cache[..k];
        if !cache[k].valid {
          FreeInPrefix(cache[..], k);
          return k;
        }
      }
      assert cache[..CACHE_SLOTS] == cache[..];
    }

    method InvalidateReport(id: Byte)
      requires Valid()
      modifies cache
      ensures Valid() && Queued() == old(Queued()) && Reports() == old(Reports()) - {id}
    {
      var entry := FindCached(id);
      if entry >= 0 {
        InvalidateUpdatesMap(cache[..], id);
        cache[entry] := Dropped(cache[entry]);
        assert cache[..] == old(cache[..])[entry := Dropped(old(cache[..])[entry])];
      } else {
        NotCached(cache[..], id);
      }
    }

    method ClearReports()
      requires Valid()
      modifies this`head, this`tail, this`count, this`replaceIndex, cache
      ensures Valid() && Queued() == [] && Reports() == map[]
    {
      for i := 0 to CACHE_SLOTS
        invariant Valid()
        invariant forall k :: 0 <= k < i ==> !cache[k].valid
      {
        cache[i] := Dropped(cache[i]);
      }
      replaceIndex := 0;
      ClearQueue();
      assert Ids(cache[..]) == {};
    }

    /** A cached report is answered up to the requested length; a missing one is queued for the controller. */
    method GetReport(id: Byte, requestedLen: nat) returns (answer: Option<seq<Byte>>)
      requires Valid()
      modifies this`head, this`count, this`highWater, this`coalesced, this`dropped, queue
      ensures Valid() && Reports() == old(Reports())
      ensures answer.Some? <==> id in old(Reports())
      ensures id in old(Reports()) ==>
                && answer.value <= old(Reports())[id]
                && |answer.value| == (if requestedLen < |old(Reports())[id]| then requestedLen else |old(Reports())[id]|)
                && Queued() == old(Queued())
      ensures id !in old(Reports()) ==> Queued() == Asked(old(Queued()), id, requestedLen).0
    {
      var entry := FindCached(id);
      if entry >= 0 {
        assert id in Ids(cache[..]);
        var outLen := cache[entry].len;
        if outLen > requestedLen {
          outLen := requestedLen;
        }
        return Some(cache[entry].data[..outLen]);
      }
      NotCached(cache[..], id);
      var queued := RequestReport(id, requestedLen);
      answer := None;
    }
  }

  lemma FoundInPrefix(entries: seq<Entry>, k: nat, id: Byte)
    requires k < |entries| && entries[k].valid && entries[k].id == id && Find(entries[..k], id) == -1
    ensures Find(entries, id) == k
  {
    assert forall j :: 0 <= j < k ==> entries[..k][j] == entries[j];
  }

  lemma FreeInPrefix(entries: seq<Entry>, k: nat)
    requires k < |entries| && !entries[k].valid && FirstInvalid(entries[..k]) == -1
    ensures FirstInvalid(entries) == k
  {
    assert forall j :: 0 <= j < k ==> entries[..k][j] == entries[j];
  }

  lemma NotCached(entries: seq<Entry>, id: Byte)
    requires Find(entries, id) < 0
    ensures id !in Ids(entries)
  {
  }
}
