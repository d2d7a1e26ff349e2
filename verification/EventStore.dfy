/**
 The event store: a tree of events in key order and a second tree from event id to key. The
 threat events and the honeypot events are stored under the same scheme.
 */
module EventStore {
  import opened Wrappers
  import opened EventKeys

  const USIZE_MAX: nat := 0xFFFF_FFFF_FFFF_FFFF

  // ---------------------------------------------------------------------------
  // Ordered trees
  // ---------------------------------------------------------------------------

  datatype Entry<+V> = Entry(key: bytes, value: V)

  /** A tree as the entries its iterator yields. */
  type Tree<+V> = seq<Entry<V>>

  predicate Sorted<V>(t: Tree<V>) {
    forall i, j :: 0 <= i < j < |t| ==> LexLess(t[i].key, t[j].key)
  }

  function Get<V>(t: Tree<V>, k: bytes): Option<V> {
    if t == [] then None else if t[0].key == k then Some(t[0].value) else Get(t[1..], k)
  }

  function Insert<V>(t: Tree<V>, k: bytes, v: V): Tree<V> {
    if t == [] then [Entry(k, v)]
    else if t[0].key == k then [Entry(k, v)] + t[1..]
    else if LexLess(k, t[0].key) then [Entry(k, v)] + t
    else [t[0]] + Insert(t[1..], k, v)
  }

  lemma {:induction false} GetSome<V>(t: Tree<V>, k: bytes)
    ensures Get(t, k).Some? <==> exists i :: 0 <= i < |t| && t[i].key == k
  {
    if t != [] {
      GetSome(t[1..], k);
      if i :| 0 <= i < |t| && t[i].key == k {
        assert i > 0 ==> t[1..][i - 1] == t[i];
      }
      if Get(t[1..], k).Some? {
        var i :| 0 <= i < |t| - 1 && t[1..][i].key == k;
        assert t[i + 1].key == k;
      }
    }
  }

  lemma {:induction false} GetAt<V>(t: Tree<V>, i: nat)
    requires Sorted(t) && i < |t|
    ensures Get(t, t[i].key) == Some(t[i].value)
  {
    if i > 0 {
      LexIrreflexive(t[0].key);
      assert t[0].key != t[i].key;
      GetAt(t[1..], i - 1);
    }
  }

  lemma {:induction false} InsertKeys<V>(t: Tree<V>, k: bytes, v: V)
    ensures forall e :: e in Insert(t, k, v) ==> e == Entry(k, v) || e in t
  {
    if t != [] {
      InsertKeys(t[1..], k, v);
    }
  }

  lemma {:induction false} InsertSorted<V>(t: Tree<V>, k: bytes, v: V)
    requires Sorted(t)
    ensures Sorted(Insert(t, k, v))
  {
    if t != [] && t[0].key != k {
      LexTotal(t[0].key, k);
      if LexLess(k, t[0].key) {
        forall j | 0 <= j < |t| ensures LexLess(k, t[j].key) {
          if j > 0 {
            LexTransitive(k, t[0].key, t[j].key);
          }
        }
      } else {
        InsertSorted(t[1..], k, v);
        InsertKeys(t[1..], k, v);
        var rest := Insert(t[1..], k, v);
        forall j | 0 <= j < |rest| ensures LexLess(t[0].key, rest[j].key) {
          assert rest[j] in rest;
        }
      }
    }
  }

  lemma {:induction false} GetInsert<V>(t: Tree<V>, k: bytes, v: V, k': bytes)
    requires Sorted(t)
    ensures Get(Insert(t, k, v), k') == if k' == k then Some(v) else Get(t, k')
  {
    if t != [] && t[0].key != k && !LexLess(k, t[0].key) {
      GetInsert(t[1..], k, v, k');
    }
  }

  // ---------------------------------------------------------------------------
  // Events and their index
  // ---------------------------------------------------------------------------

  datatype Event = Event(timestamp: u64, id: bytes, srcIp: string, riskScore: real,
                         feedback: Option<string>, feedbackAt: Option<u64>, trainingLabel: Option<real>)

  function KeyOf(e: Event): bytes {
    Key(e.timestamp, e.id)
  }

  predicate Older(a: Event, b: Event) {
    Before(a.timestamp, a.id, b.timestamp, b.id)
  }

  /** Both trees are in order, every event sits under its own key, and the index leads from
      exactly the ids of stored events to an event with that id. */
  ghost predicate Linked(events: Tree<Event>, byId: Tree<bytes>) {
    && Sorted(events) && Sorted(byId)
    && (forall k :: Get(events, k).Some? ==>
          k == KeyOf(Get(events, k).value) && Get(byId, Get(events, k).value.id).Some?)
    && (forall id :: Get(byId, id).Some? ==>
          Get(events, Get(byId, id).value).Some? && Get(events, Get(byId, id).value).value.id == id)
  }

  /** No two events share an id: the index leads to every one of them. */
  ghost predicate OneToOne(events: Tree<Event>, byId: Tree<bytes>) {
    forall k :: Get(events, k).Some? ==> Get(byId, Get(events, k).value.id) == Some(k)
  }

  ghost predicate Indexed(events: Tree<Event>, byId: Tree<bytes>) {
    Linked(events, byId) && OneToOne(events, byId)
  }

  lemma InsertedLookups(events: Tree<Event>, byId: Tree<bytes>, e: Event)
    requires Sorted(events) && Sorted(byId)
    ensures var (events', byId') := (Insert(events, KeyOf(e), e), Insert(byId, e.id, KeyOf(e)));
            && Sorted(events') && Sorted(byId')
            && (forall k :: Get(events', k) == if k == KeyOf(e) then Some(e) else Get(events, k))
            && (forall id :: Get(byId', id) == if id == e.id then Some(KeyOf(e)) else Get(byId, id))
  {
    InsertSorted(events, KeyOf(e), e);
    InsertSorted(byId, e.id, KeyOf(e));
    forall k ensures Get(Insert(events, KeyOf(e), e), k) == if k == KeyOf(e) then Some(e) else Get(events, k) {
      GetInsert(events, KeyOf(e), e, k);
    }
    forall id ensures Get(Insert(byId, e.id, KeyOf(e)), id) == if id == e.id then Some(KeyOf(e)) else Get(byId, id) {
      GetInsert(byId, e.id, KeyOf(e), id);
    }
  }

  /** Storing an event, whatever its id, keeps the trees linked. */
  lemma InsertKeepsLinked(events: Tree<Event>, byId: Tree<bytes>, e: Event)
    requires Linked(events, byId)
    ensures Linked(Insert(events, KeyOf(e), e), Insert(byId, e.id, KeyOf(e)))
  {
    var key := KeyOf(e);
    var events', byId' := Insert(events, key, e), Insert(byId, e.id, key);
    InsertedLookups(events, byId, e);
    forall id | Get(byId', id).Some?
      ensures Get(events', Get(byId', id).value).Some? && Get(events', Get(byId', id).value).value.id == id
    {
      if id != e.id && Get(byId, id) == Some(key) {
        KeyInjective(e.timestamp, e.id, Get(events, key).value.timestamp, id);
      }
    }
  }

  /** Storing an event keeps index and tree one-to-one exactly when its id is new or leads to
      the key it has now, as for the same event with changed feedback. */
  lemma InsertKeepsIndexIff(events: Tree<Event>, byId: Tree<bytes>, e: Event)
    requires Indexed(events, byId)
    ensures Indexed(Insert(events, KeyOf(e), e), Insert(byId, e.id, KeyOf(e)))
            <==> Get(byId, e.id).None? || Get(byId, e.id) == Some(KeyOf(e))
  {
    var key := KeyOf(e);
    var events', byId' := Insert(events, key, e), Insert(byId, e.id, key);
    InsertedLookups(events, byId, e);
    InsertKeepsLinked(events, byId, e);
    if Get(byId, e.id).None? || Get(byId, e.id) == Some(key) {
      forall k | Get(events', k).Some? ensures Get(byId', Get(events', k).value.id) == Some(k) {
        if k != key {
          assert Get(byId, Get(events, k).value.id) == Some(k);
        }
      }
    } else {
      var orphan := Get(byId, e.id).value;
      assert Get(events', orphan) == Get(events, orphan);
      assert Get(byId', e.id) == Some(key);
    }
  }

  lemma {:induction false} InsertedCount<V>(t: Tree<V>, k: bytes, v: V)
    ensures |Insert(t, k, v)| == |t| + 1 || |Insert(t, k, v)| == |t|
    ensures Sorted(t) && Get(t, k).None? ==> |Insert(t, k, v)| == |t| + 1
  {
    if t != [] {
      InsertedCount(t[1..], k, v);
    }
  }

  /** A store filled from empty with events of pairwise different ids. */
  function InsertAll(es: seq<Event>): (Tree<Event>, Tree<bytes>) {
    if es == [] then ([], [])
    else
      var n := |es| - 1;
      var (events, byId) := InsertAll(es[..n]);
      (Insert(events, KeyOf(es[n]), es[n]), Insert(byId, es[n].id, KeyOf(es[n])))
  }

  predicate DistinctIds(es: seq<Event>) {
    forall i, j :: 0 <= i < j < |es| ==> es[i].id != es[j].id
  }

  /** After any inserts with fresh ids the store is indexed, holds as many events as were
      inserted, and gives each of them back by id. */
  lemma {:induction false} FreshInsertsAreAllFound(es: seq<Event>)
    requires DistinctIds(es)
    ensures var (events, byId) := InsertAll(es);
            && Indexed(events, byId) && |events| == |es|
            && (forall e :: e in es ==> Get(byId, e.id) == Some(KeyOf(e)) && Get(events, KeyOf(e)) == Some(e))
            && (forall id :: Get(byId, id).Some? ==> exists e :: e in es && e.id == id)
  {
    if es != [] {
      var n := |es| - 1;
      var last := es[n];
      FreshInsertsAreAllFound(es[..n]);
      var (events, byId) := InsertAll(es[..n]);
      forall e | e in es[..n] ensures e.id != last.id {
        var i :| 0 <= i < n && es[i] == e;
      }
      InsertKeepsIndexIff(events, byId, last);
      InsertedCount(events, KeyOf(last), last);
      if Get(events, KeyOf(last)).Some? {
        var other := Get(events, KeyOf(last)).value;
        KeyInjective(other.timestamp, other.id, last.timestamp, last.id);
        assert false;
      }
      forall e | e in es
        ensures Get(InsertAll(es).1, e.id) == Some(KeyOf(e)) && Get(InsertAll(es).0, KeyOf(e)) == Some(e)
      {
        GetInsert(byId, last.id, KeyOf(last), e.id);
        GetInsert(events, KeyOf(last), last, KeyOf(e));
        if e != last {
          assert e in es[..n];
          if KeyOf(e) == KeyOf(last) {
            KeyInjective(e.timestamp, e.id, last.timestamp, last.id);
          }
        }
      }
      forall id | Get(InsertAll(es).1, id).Some? ensures exists e :: e in es && e.id == id {
        GetInsert(byId, last.id, KeyOf(last), id);
        if id == last.id {
          assert last in es;
        } else {
          var e :| e in es[..n] && e.id == id;
          assert e in es;
        }
      }
    }
  }

  /** The last event of the list with the id. */
  function LatestWith(es: seq<Event>, id: bytes): Option<Event> {
    if es == [] then None
    else if es[|es| - 1].id == id then Some(es[|es| - 1]) else LatestWith(es[..|es| - 1], id)
  }

  /** After any inserts at all, the index leads from an id to the key of the event stored last
      under it, and the event is there. */
  lemma {:induction false} IndexLeadsToTheLatest(es: seq<Event>, id: bytes)
    ensures var (events, byId) := InsertAll(es);
            var latest := LatestWith(es, id);
            && Linked(events, byId)
            && if latest.None? then Get(byId, id).None?
               else Get(byId, id) == Some(KeyOf(latest.value)) && Get(events, KeyOf(latest.value)) == latest
  {
    if es != [] {
      var n := |es| - 1;
      IndexLeadsToTheLatest(es[..n], id);
      var (events, byId) := InsertAll(es[..n]);
      InsertedLookups(events, byId, es[n]);
      InsertKeepsLinked(events, byId, es[n]);
      var latest := LatestWith(es[..n], id);
      if es[n].id != id && latest.Some? && KeyOf(es[n]) == KeyOf(latest.value) {
        KeyInjective(es[n].timestamp, es[n].id, latest.value.timestamp, latest.value.id);
        LatestHasTheId(es[..n], id);
      }
    }
  }

  lemma {:induction false} InsertsStayLinked(es: seq<Event>)
    ensures Linked(InsertAll(es).0, InsertAll(es).1)
  {
    if es != [] {
      var n := |es| - 1;
      InsertsStayLinked(es[..n]);
      InsertKeepsLinked(InsertAll(es[..n]).0, InsertAll(es[..n]).1, es[n]);
    }
  }

  /** Every insert has left an event under its key, and there is nothing else. */
  lemma {:induction false} InsertsAreStored(es: seq<Event>)
    ensures forall e :: e in es ==> Get(InsertAll(es).0, KeyOf(e)).Some?
    ensures forall k :: Get(InsertAll(es).0, k).Some? ==> Get(InsertAll(es).0, k).value in es
  {
    if es != [] {
      var n := |es| - 1;
      InsertsAreStored(es[..n]);
      InsertsStayLinked(es[..n]);
      var events := InsertAll(es[..n]).0;
      assert es == es[..n] + [es[n]];
      forall k ensures Get(InsertAll(es).0, k) == if k == KeyOf(es[n]) then Some(es[n]) else Get(events, k) {
        GetInsert(events, KeyOf(es[n]), es[n], k);
      }
    }
  }

  predicate EqualIdsEqualTimes(es: seq<Event>) {
    forall e, f :: e in es && f in es && e.id == f.id ==> e.timestamp == f.timestamp
  }

  /** After any inserts at all, rewrites of an event among them, events and index are one-to-one
      exactly if no id was used with two timestamps. */
  lemma InsertsKeepIndexIff(es: seq<Event>)
    ensures Indexed(InsertAll(es).0, InsertAll(es).1) <==> EqualIdsEqualTimes(es)
  {
    var (events, byId) := InsertAll(es);
    InsertsAreStored(es);
    InsertsStayLinked(es);
    if EqualIdsEqualTimes(es) {
      forall k | Get(events, k).Some? ensures Get(byId, Get(events, k).value.id) == Some(k) {
        var e := Get(events, k).value;
        var k' := Get(byId, e.id).value;
        assert Get(events, k').value in es && Get(events, k').value.id == e.id;
      }
    }
    if OneToOne(events, byId) {
      forall e, f | e in es && f in es && e.id == f.id ensures e.timestamp == f.timestamp {
        assert Get(events, KeyOf(e)).Some? && Get(events, KeyOf(f)).Some?;
        var e', f' := Get(events, KeyOf(e)).value, Get(events, KeyOf(f)).value;
        KeyInjective(e.timestamp, e.id, e'.timestamp, e'.id);
        KeyInjective(f.timestamp, f.id, f'.timestamp, f'.id);
        KeyInjective(e.timestamp, e.id, f.timestamp, f.id);
      }
    }
  }

  lemma {:induction false} LatestHasTheId(es: seq<Event>, id: bytes)
    ensures LatestWith(es, id).Some? ==> LatestWith(es, id).value.id == id
  {
    if es != [] {
      LatestHasTheId(es[..|es| - 1], id);
    }
  }

  /** In a store the iteration order is the order by timestamp and id. */
  lemma IterationIsOldestFirst(events: Tree<Event>, byId: Tree<bytes>, i: nat, j: nat)
    requires Linked(events, byId) && i < j < |events|
    ensures Older(events[i].value, events[j].value)
    ensures events[i].value.timestamp <= events[j].value.timestamp
  {
    GetAt(events, i);
    GetAt(events, j);
    assert Get(events, events[i].key).Some? && Get(events, events[j].key).Some?;
    KeyOrder(events[i].value.timestamp, events[i].value.id, events[j].value.timestamp, events[j].value.id);
  }

  /** How many stored events are recent, from the address and at or above the threshold:
      a plain count over everything. */
  function HighRiskCount(events: Tree<Event>, srcIp: string, minTimestamp: nat, threshold: real): nat {
    if events == [] then 0
    else
      HighRiskCount(events[1..], srcIp, minTimestamp, threshold)
      + (if events[0].value.timestamp >= minTimestamp && events[0].value.srcIp == srcIp
            && events[0].value.riskScore >= threshold then 1 else 0)
  }

  function SinceCount(events: Tree<Event>, minTimestamp: nat): nat {
    if events == [] then 0
    else SinceCount(events[1..], minTimestamp) + (if events[0].value.timestamp >= minTimestamp then 1 else 0)
  }

  lemma {:induction false} FirstIsNowhereElse<V>(t: Tree<V>, e: Entry<V>)
    requires t != [] && Sorted(t) && e in t[1..]
    ensures e != t[0]
  {
    var i :| 0 <= i < |t| - 1 && t[1..][i] == e;
    assert LexLess(t[0].key, t[i + 1].key);
    LexIrreflexive(t[0].key);
  }

  predicate HighRisk(e: Event, srcIp: string, minTimestamp: nat, threshold: real) {
    minTimestamp <= e.timestamp && e.srcIp == srcIp && threshold <= e.riskScore
  }

  ghost function HighRiskEvents(events: Tree<Event>, srcIp: string, minTimestamp: nat, threshold: real)
    : set<Entry<Event>>
  {
    set e | e in events && HighRisk(e.value, srcIp, minTimestamp, threshold)
  }

  ghost function EventsSince(events: Tree<Event>, minTimestamp: nat): set<Entry<Event>> {
    set e | e in events && minTimestamp <= e.value.timestamp
  }

  lemma FirstAndRest(events: Tree<Event>, srcIp: string, minTimestamp: nat, threshold: real)
    requires events != [] && Sorted(events)
    ensures var first, rest := events[0], events[1..];
            && HighRiskEvents(events, srcIp, minTimestamp, threshold)
            == HighRiskEvents(rest, srcIp, minTimestamp, threshold)
               + (if HighRisk(first.value, srcIp, minTimestamp, threshold) then {first} else {})
            && EventsSince(events, minTimestamp)
            == EventsSince(rest, minTimestamp) + (if minTimestamp <= first.value.timestamp then {first} else {})
            && first !in rest
  {
    var first, rest := events[0], events[1..];
    if first in rest {
      FirstIsNowhereElse(events, first);
    }
    assert forall e :: e in events <==> e == first || e in rest;
  }

  /** The counts are the numbers of stored events that are recent enough and, for the one, from
      the address and risky enough. */
  lemma {:induction false} CountsAreCardinalities(events: Tree<Event>, srcIp: string, minTimestamp: nat,
                                                  threshold: real)
    requires Sorted(events)
    ensures HighRiskCount(events, srcIp, minTimestamp, threshold)
         == |HighRiskEvents(events, srcIp, minTimestamp, threshold)|
    ensures SinceCount(events, minTimestamp) == |EventsSince(events, minTimestamp)|
  {
    if events != [] {
      CountsAreCardinalities(events[1..], srcIp, minTimestamp, threshold);
      FirstAndRest(events, srcIp, minTimestamp, threshold);
    }
  }

  lemma {:induction false} OldPrefixCountsNothing(events: Tree<Event>, k: nat, srcIp: string, minTimestamp: nat,
                                                  threshold: real)
    requires k <= |events|
    requires forall i :: 0 <= i < k ==> events[i].value.timestamp < minTimestamp
    ensures HighRiskCount(events, srcIp, minTimestamp, threshold)
         == HighRiskCount(events[k..], srcIp, minTimestamp, threshold)
    ensures SinceCount(events, minTimestamp) == SinceCount(events[k..], minTimestamp)
  {
    if k > 0 {
      OldPrefixCountsNothing(events[1..], k - 1, srcIp, minTimestamp, threshold);
      assert events[1..][k - 1..] == events[k..];
    } else {
      assert events[0..] == events;
    }
  }

  function Min(a: nat, b: nat): nat {
    if a < b then a else b
  }

  class Store {
    var events: Tree<Event>
    var byId: Tree<bytes>

    ghost predicate Valid()
      reads this
    {
      Linked(events, byId)
    }

    constructor ()
      ensures Valid() && events == [] && byId == []
    {
      events, byId := [], [];
    }

    method InsertEvent(e: Event)
      requires Valid()
      modifies this
      ensures Valid()
      ensures events == Insert(old(events), KeyOf(e), e)
      ensures byId == Insert(old(byId), e.id, KeyOf(e))
      ensures old(OneToOne(events, byId)) ==>
                (OneToOne(events, byId) <==> Get(old(byId), e.id) in {None, Some(KeyOf(e))})
    {
      InsertKeepsLinked(events, byId, e);
      if OneToOne(events, byId) {
        InsertKeepsIndexIff(events, byId, e);
      }
      var key := KeyOf(e);
      events := Insert(events, key, e);
      byId := Insert(byId, e.id, key);
    }

    /** The newest `limit` events, newest first: nothing stored that was left out is newer. */
    method ListRecent(limit: nat) returns (out: seq<Event>)
      requires Valid()
      ensures |out| == Min(limit, |events|)
      ensures forall k :: 0 <= k < |out| ==> out[k] == events[|events| - 1 - k].value
      ensures forall k, l :: 0 <= k < l < |out| ==> Older(out[l], out[k])
      ensures forall i, k :: 0 <= i < |events| - |out| && 0 <= k < |out| ==> Older(events[i].value, out[k])
    {
      out := [];
      var i := |events|;
      while i > 0 && |out| < limit
        invariant 0 <= i <= |events| && |out| == |events| - i <= limit
        invariant forall k :: 0 <= k < |out| ==> out[k] == events[|events| - 1 - k].value
      {
        i := i - 1;
        out := out + [events[i].value];
      }
      forall a, b | 0 <= a < b < |events| ensures Older(events[a].value, events[b].value) {
        IterationIsOldestFirst(events, byId, a, b);
      }
    }

    /** Looks an id up through the index and finds it exactly when an event has it. */
    method GetById(id: bytes) returns (r: Option<Event>)
      requires Valid()
      ensures r.Some? ==> r.value.id == id && Get(byId, id) == Some(KeyOf(r.value)) && Get(events, KeyOf(r.value)) == r
      ensures r.None? <==> forall i :: 0 <= i < |events| ==> events[i].value.id != id
    {
      var key := Get(byId, id);
      if key.None? {
        forall i | 0 <= i < |events| ensures events[i].value.id != id {
          GetAt(events, i);
          assert Get(events, events[i].key).Some?;
        }
        return None;
      }
      r := Get(events, key.value);
      GetSome(events, key.value);
      var i :| 0 <= i < |events| && events[i].key == key.value;
      GetAt(events, i);
    }

    /** Scans from the newest event back and stops at the first one that is too old. */
    method CountRecentHighRisk(srcIp: string, minTimestamp: u64, threshold: real) returns (count: nat)
      requires Valid()
      ensures count == Min(HighRiskCount(events, srcIp, minTimestamp, threshold), USIZE_MAX)
    {
      count := 0;
      var i := |events|;
      assert events[i..] == [];
      while i > 0
        invariant 0 <= i <= |events|
        invariant count == Min(HighRiskCount(events[i..], srcIp, minTimestamp, threshold), USIZE_MAX)
      {
        var evt := events[i - 1].value;
        if evt.timestamp < minTimestamp {
          forall j | 0 <= j < i ensures events[j].value.timestamp < minTimestamp {
            if j < i - 1 {
              IterationIsOldestFirst(events, byId, j, i - 1);
            }
          }
          OldPrefixCountsNothing(events, i, srcIp, minTimestamp, threshold);
          return;
        }
        assert events[i - 1..][1..] == events[i..];
        if evt.srcIp == srcIp && evt.riskScore >= threshold {
          count := Min(count + 1, USIZE_MAX);
        }
        i := i - 1;
      }
      assert events[0..] == events;
    }

    /** The honeypot's count: every event since a moment, with the same early stop. */
    method CountSince(minTimestamp: u64) returns (count: nat)
      requires Valid()
      ensures count == Min(SinceCount(events, minTimestamp), USIZE_MAX)
    {
      count := 0;
      var i := |events|;
      assert events[i..] == [];
      while i > 0
        invariant 0 <= i <= |events|
        invariant count == Min(SinceCount(events[i..], minTimestamp), USIZE_MAX)
      {
        var evt := events[i - 1].value;
        if evt.timestamp < minTimestamp {
          forall j | 0 <= j < i ensures events[j].value.timestamp < minTimestamp {
            if j < i - 1 {
              IterationIsOldestFirst(events, byId, j, i - 1);
            }
          }
          OldPrefixCountsNothing(events, i, "", minTimestamp, 0.0);
          return;
        }
        assert events[i - 1..][1..] == events[i..];
        count := Min(count + 1, USIZE_MAX);
        i := i - 1;
      }
      assert events[0..] == events;
    }

    /** Rewrites one event with feedback: no key moves and nothing else changes. */
    method ApplyFeedback(id: bytes, feedback: string, trainingLabel: real, now: u64) returns (r: Option<Event>)
      requires Valid()
      modifies this
      ensures Valid()
      ensures r.None? ==> events == old(events) && byId == old(byId)
      ensures r.None? <==> forall i :: 0 <= i < |old(events)| ==> old(events)[i].value.id != id
      ensures r.Some? ==>
                var before := Get(old(events), KeyOf(r.value));
                && before.Some?
                && r.value == before.value.(feedback := Some(feedback), feedbackAt := Some(now),
                                            trainingLabel := Some(trainingLabel))
                && r.value.id == id
                && (forall k :: Get(events, k) == if k == KeyOf(r.value) then r else Get(old(events), k))
                && (forall i :: Get(byId, i) == Get(old(byId), i))
    {
      r := GetById(id);
      if r.None? {
        return;
      }
      var e := r.value.(feedback := Some(feedback), feedbackAt := Some(now), trainingLabel := Some(trainingLabel));
      InsertedLookups(events, byId, e);
      InsertEvent(e);
      r := Some(e);
    }
  }
}
