/**
The source cache of GlobalIndex (lsp/global_index.go): a byte counter over the cached
sources and eviction of the least recently used ones.
*/
module SourceCache {
  import opened Uris

  // SourceBytes and lastAccess of a resource scope.
  datatype Entry = Entry(bytes: nat, lastAccess: nat)

  type Entries = map<Uri, Entry>

  function Sourced(e: Entries): set<Uri>
  {
    set u | u in e && e[u].bytes != 0
  }

  // Bytes of the entries under some keys.
  ghost function Total(e: Entries, keys: set<Uri>): nat
    requires keys <= e.Keys
  {
    if keys == {} then 0
    else var u :| u in keys; e[u].bytes + Total(e, keys - {u})
  }

  lemma {:induction false} TotalSplit(e: Entries, keys: set<Uri>, u: Uri)
    requires keys <= e.Keys && u in keys
    ensures Total(e, keys) == e[u].bytes + Total(e, keys - {u})
    decreases |keys|
  {
    var v :| v in keys && Total(e, keys) == e[v].bytes + Total(e, keys - {v});
    if v != u {
      TotalSplit(e, keys - {v}, u);
      TotalSplit(e, keys - {u}, v);
      assert keys - {v} - {u} == keys - {u} - {v};
    }
  }

  lemma {:induction false} TotalSame(e: Entries, e': Entries, keys: set<Uri>)
    requires keys <= e.Keys && keys <= e'.Keys
    requires forall u :: u in keys ==> e[u].bytes == e'[u].bytes
    ensures Total(e, keys) == Total(e', keys)
    decreases |keys|
  {
    if keys != {} {
      var u :| u in keys;
      TotalSplit(e, keys, u);
      TotalSplit(e', keys, u);
      TotalSame(e, e', keys - {u});
    }
  }

  // Writing one entry changes the total by that entry alone.
  lemma TotalUpdate(e: Entries, u: Uri, x: Entry)
    ensures
      var was := if u in e then e[u].bytes else 0;
      var e' := e[u := x];
      Total(e', e'.Keys) + was == Total(e, e.Keys) + x.bytes
  {
    var e' := e[u := x];
    assert e'.Keys == e.Keys + {u};
    TotalSplit(e', e.Keys + {u}, u);
    assert e.Keys + {u} - {u} == e.Keys - {u};
    TotalSame(e, e', e.Keys - {u});
    if u in e {
      TotalSplit(e, e.Keys, u);
    } else {
      assert e.Keys - {u} == e.Keys;
    }
  }

  // Every access got its own tick.
  ghost predicate Clocked(e: Entries, clock: nat)
  {
    && (forall u :: u in e ==> e[u].lastAccess <= clock)
    && (forall u, v :: u in e && v in e && u != v ==> e[u].lastAccess != e[v].lastAccess)
  }

  datatype Candidate = Candidate(victim: Uri, oldest: nat)

  // The scan for a victim over the keys in iteration order.
  function Scan(e: Entries, order: seq<Uri>): Candidate
    requires Elements(order) <= e.Keys
  {
    if order == [] then Candidate("", 0)
    else
      var c, u := Scan(e, order[..|order| - 1]), order[|order| - 1];
      assert u in Elements(order);
      if e[u].bytes != 0 && (c.victim == "" || e[u].lastAccess < c.oldest) then Candidate(u, e[u].lastAccess) else c
  }

  // v is the least recently used source.
  ghost predicate LeastRecent(e: Entries, v: Uri)
  {
    v in Sourced(e) && forall u :: u in Sourced(e) ==> e[v].lastAccess <= e[u].lastAccess
  }

  lemma {:induction false} LeastRecentExists(e: Entries, keys: set<Uri>) returns (v: Uri)
    requires keys <= Sourced(e) && keys != {}
    ensures v in keys && forall u :: u in keys ==> e[v].lastAccess <= e[u].lastAccess
    decreases |keys|
  {
    v :| v in keys;
    if keys != {v} {
      var w := LeastRecentExists(e, keys - {v});
      if e[w].lastAccess < e[v].lastAccess {
        v := w;
      }
    }
  }

  // The scan's candidate is a source with its own tick.
  lemma {:induction false} ScanCandidate(e: Entries, order: seq<Uri>)
    requires Elements(order) <= e.Keys
    ensures var c := Scan(e, order); c.victim != "" ==>
      c.victim in order && c.victim in Sourced(e) && c.oldest == e[c.victim].lastAccess
    decreases |order|
  {
    if order != [] {
      ElementsTake(order, |order| - 1);
      assert order[..|order|] == order;
      ScanCandidate(e, order[..|order| - 1]);
    }
  }

  // Whatever the iteration order, the scan finds the least recently used source,
  // provided that is not the one under the empty URI.
  lemma {:induction false} ScanFindsLeastRecent(e: Entries, clock: nat, order: seq<Uri>, v: Uri)
    requires Elements(order) <= e.Keys && Clocked(e, clock) && LeastRecent(e, v) && v != "" && v in order
    ensures Scan(e, order).victim == v
    decreases |order|
  {
    var init, u := order[..|order| - 1], order[|order| - 1];
    ElementsTake(order, |order| - 1);
    assert order[..|order|] == order;
    ScanCandidate(e, init);
    if u != v {
      assert v in init;
      ScanFindsLeastRecent(e, clock, init, v);
    }
  }

  // If it is, some order finds nothing at all: the empty URI doubles as "no victim".
  lemma ScanMissesEmptyUri(e: Entries, clock: nat, init: seq<Uri>)
    requires Clocked(e, clock) && LeastRecent(e, "") && Elements(init) == e.Keys - {""}
    ensures Elements(init + [""]) == e.Keys && Scan(e, init + [""]).victim == ""
  {
    var order := init + [""];
    ElementsConcat(init, [""]);
    assert order[..|order| - 1] == init;
    ScanCandidate(e, init);
  }

  // The scan finds the least recently used source in every order exactly when that is not
  // the source under the empty URI.
  lemma ScanExact(e: Entries, clock: nat, v: Uri)
    requires Clocked(e, clock) && LeastRecent(e, v)
    ensures v != "" <==> forall order :: Elements(order) == e.Keys ==> FindsVictim(e, order, v)
  {
    if v != "" {
      forall order | Elements(order) == e.Keys ensures FindsVictim(e, order, v) {
        assert v in Elements(order);
        ScanFindsLeastRecent(e, clock, order, v);
      }
    } else {
      var init := Listing(e.Keys - {""});
      ScanMissesEmptyUri(e, clock, init);
      assert !FindsVictim(e, init + [""], v);
    }
  }

  predicate FindsVictim(e: Entries, order: seq<Uri>, v: Uri)
    requires Elements(order) <= e.Keys
  {
    Scan(e, order).victim != "" && Scan(e, order).victim == v
  }

  // The entries without the sources under some keys.
  ghost function Without(e: Entries, gone: set<Uri>): Entries
  {
    map u | u in e :: if u in gone then e[u].(bytes := 0) else e[u]
  }

  lemma {:induction false} TotalWithout(e: Entries, gone: set<Uri>, keys: set<Uri>)
    requires keys <= e.Keys
    ensures Total(Without(e, gone), keys) == Total(e, keys - gone)
    decreases |keys|
  {
    if keys != {} {
      var u :| u in keys;
      TotalSplit(Without(e, gone), keys, u);
      TotalWithout(e, gone, keys - {u});
      if u in gone {
        assert keys - {u} - gone == keys - gone;
      } else {
        TotalSplit(e, keys - gone, u);
        assert keys - {u} - gone == keys - gone - {u};
      }
    }
  }

  lemma {:induction false} TotalUnsourced(e: Entries, keys: set<Uri>)
    requires keys <= e.Keys && keys !! Sourced(e)
    ensures Total(e, keys) == 0
    decreases |keys|
  {
    if keys != {} {
      var u :| u in keys;
      TotalSplit(e, keys, u);
      TotalUnsourced(e, keys - {u});
    }
  }

  lemma {:induction false} TotalMonotone(e: Entries, a: set<Uri>, b: set<Uri>)
    requires a <= e.Keys && b <= e.Keys && a * Sourced(e) <= b
    ensures Total(e, a) <= Total(e, b)
    decreases |a|
  {
    if a != {} {
      var u :| u in a;
      TotalSplit(e, a, u);
      if u in b {
        TotalSplit(e, b, u);
        TotalMonotone(e, a - {u}, b - {u});
      } else {
        TotalMonotone(e, a - {u}, b);
      }
    }
  }

  // gone holds the least recently used sources, up to some point in time.
  ghost predicate Oldest(e: Entries, gone: set<Uri>)
  {
    gone <= Sourced(e) && forall u, v :: u in gone && v in Sourced(e) - gone ==> e[u].lastAccess < e[v].lastAccess
  }

  // u is the most recently used entry of a set.
  ghost predicate Latest(e: Entries, among: set<Uri>, u: Uri)
  {
    u in among && u in e && forall v :: v in among && v in e ==> e[v].lastAccess <= e[u].lastAccess
  }

  // Had the most recently used source in gone been kept, the rest would not fit.
  ghost predicate Needed(e: Entries, gone: set<Uri>, limit: nat)
  {
    forall u :: Latest(e, gone, u) ==> Total(e, e.Keys - gone) + e[u].bytes > limit
  }

  // The sources at least as recent as the one under the empty URI fit, if there is one.
  ghost predicate EmptyUriSafe(e: Entries, limit: nat)
  {
    "" in Sourced(e) ==> Total(e, set u | u in e && e[u].lastAccess >= e[""].lastAccess) <= limit
  }

  // While the cache is over its limit, the next victim exists and is not the empty URI.
  lemma NextVictim(e: Entries, clock: nat, gone: set<Uri>, limit: nat) returns (v: Uri)
    requires Clocked(e, clock) && Oldest(e, gone) && EmptyUriSafe(e, limit)
    requires Total(e, e.Keys - gone) > limit
    ensures v != "" && LeastRecent(Without(e, gone), v) && v in Sourced(e) - gone
  {
    if Sourced(e) - gone == {} {
      forall u | u in e.Keys - gone ensures u !in Sourced(e) {
        assert u !in Sourced(e) - gone;
      }
      TotalUnsourced(e, e.Keys - gone);
    }
    v := LeastRecentExists(e, Sourced(e) - gone);
    assert Sourced(Without(e, gone)) == Sourced(e) - gone;
    if v == "" {
      TotalMonotone(e, e.Keys - gone, set u | u in e && e[u].lastAccess >= e[""].lastAccess);
    }
  }

  // Evicting the least recently used source keeps both properties.
  lemma EvictNext(e: Entries, clock: nat, gone: set<Uri>, limit: nat, v: Uri)
    requires Clocked(e, clock) && Oldest(e, gone) && Total(e, e.Keys - gone) > limit
    requires v in Sourced(e) - gone && LeastRecent(Without(e, gone), v)
    ensures Oldest(e, gone + {v}) && Needed(e, gone + {v}, limit)
  {
    assert Sourced(Without(e, gone)) == Sourced(e) - gone;
    assert Oldest(e, gone + {v}) by {
      forall u | u in Sourced(e) - (gone + {v}) ensures e[v].lastAccess < e[u].lastAccess {
        assert u in Sourced(Without(e, gone));
      }
    }
    TotalSplit(e, e.Keys - gone, v);
    assert e.Keys - gone - {v} == e.Keys - (gone + {v});
    forall u | Latest(e, gone + {v}, u) ensures u == v {
      assert e[v].lastAccess <= e[u].lastAccess;
    }
  }

  lemma WithoutOneMore(e: Entries, gone: set<Uri>, v: Uri)
    requires v in e && v !in gone
    ensures Without(e, gone)[v := Without(e, gone)[v].(bytes := 0)] == Without(e, gone + {v})
  {
  }

  // ---------------------------------------------------------------- eviction runs

  // Every order goes through all the entries.
  ghost predicate Orders(e: Entries, orders: seq<seq<Uri>>)
  {
    forall i :: 0 <= i < |orders| ==> Elements(orders[i]) == e.Keys
  }

  // What a run of evictLRULocked evicts after gone, if its scans meet the entries in these orders.
  ghost function Evicts(e: Entries, limit: nat, gone: set<Uri>, orders: seq<seq<Uri>>): set<Uri>
    requires Orders(e, orders)
    decreases |orders|
  {
    if orders == [] || Total(Without(e, gone), e.Keys) <= limit then gone
    else
      var v := Scan(Without(e, gone), orders[0]).victim;
      if v == "" then gone else Evicts(e, limit, gone + {v}, orders[1..])
  }

  // No source is scanned for twice, so these many scans end every run.
  ghost predicate LongEnough(e: Entries, orders: seq<seq<Uri>>)
  {
    Orders(e, orders) && |orders| >= |Sourced(e)|
  }

  ghost predicate FitsAfter(e: Entries, limit: nat, orders: seq<seq<Uri>>)
    requires Orders(e, orders)
  {
    Total(Without(e, Evicts(e, limit, {}, orders)), e.Keys) <= limit
  }

  lemma {:induction false} SafeRunFits(e: Entries, clock: nat, limit: nat, gone: set<Uri>, orders: seq<seq<Uri>>)
    requires Clocked(e, clock) && EmptyUriSafe(e, limit) && Oldest(e, gone)
    requires Orders(e, orders) && |orders| >= |Sourced(e) - gone|
    ensures Total(Without(e, Evicts(e, limit, gone, orders)), e.Keys) <= limit
    decreases |orders|
  {
    hide Oldest, EmptyUriSafe, Clocked, Needed, Scan;
    if Total(Without(e, gone), e.Keys) > limit {
      SafeStep(e, clock, limit, gone, if orders == [] then Listing(e.Keys) else orders[0]);
      if orders != [] {
        var v := Scan(Without(e, gone), orders[0]).victim;
        SafeRunFits(e, clock, limit, gone + {v}, orders[1..]);
      }
    }
  }

  lemma SafeStep(e: Entries, clock: nat, limit: nat, gone: set<Uri>, order: seq<Uri>)
    requires Clocked(e, clock) && EmptyUriSafe(e, limit) && Oldest(e, gone) && Elements(order) == e.Keys
    requires Total(Without(e, gone), e.Keys) > limit
    ensures
      var v := Scan(Without(e, gone), order).victim;
      && v != "" && Oldest(e, gone + {v})
      && |Sourced(e) - (gone + {v})| < |Sourced(e) - gone|
  {
    ClockedAfter(e, gone, clock);
    VictimIsNext(e, clock, gone, limit, order);
    FewerSourced(e, gone, Scan(Without(e, gone), order).victim);
  }

  // While the source under the empty URI and the newer ones do not fit, the older ones go and then none.
  lemma {:induction false} UnsafeRunSticks(e: Entries, clock: nat, limit: nat, gone: set<Uri>, orders: seq<seq<Uri>>)
    requires Clocked(e, clock) && !EmptyUriSafe(e, limit) && Oldest(e, gone) && "" !in gone
    requires Orders(e, orders) && forall i :: 0 <= i < |orders| ==> EmptyUriLast(e, orders[i])
    ensures Total(Without(e, Evicts(e, limit, gone, orders)), e.Keys) > limit
    decreases |orders|
  {
    OverLimit(e, limit, gone);
    if orders != [] {
      var now, order := Without(e, gone), orders[0];
      ClockedAfter(e, gone, clock);
      assert Sourced(now) == Sourced(e) - gone;
      assert "" in Sourced(now);
      var w := LeastRecentExists(now, Sourced(now));
      if w == "" {
        ScanMissesEmptyUri(now, clock, order[..|order| - 1]);
      } else {
        assert w in Elements(order);
        ScanFindsLeastRecent(now, clock, order, w);
        TotalWithout(e, gone, e.Keys);
        EvictNext(e, clock, gone, limit, w);
        UnsafeRunSticks(e, clock, limit, gone + {w}, orders[1..]);
      }
    }
  }

  ghost predicate EmptyUriLast(e: Entries, order: seq<Uri>)
  {
    order != [] && order[|order| - 1] == "" && order == order[..|order| - 1] + [""]
    && Elements(order[..|order| - 1]) == e.Keys - {""}
  }

  lemma OverLimit(e: Entries, limit: nat, gone: set<Uri>)
    requires !EmptyUriSafe(e, limit) && Oldest(e, gone) && "" !in gone
    ensures Total(Without(e, gone), e.Keys) > limit
  {
    TotalWithout(e, gone, e.Keys);
    TotalMonotone(e, (set u | u in e && e[u].lastAccess >= e[""].lastAccess), e.Keys - gone);
  }

  lemma ClockedAfter(e: Entries, gone: set<Uri>, clock: nat)
    requires Clocked(e, clock)
    ensures Clocked(Without(e, gone), clock)
  {
    assert forall u :: u in e ==> Without(e, gone)[u].lastAccess == e[u].lastAccess;
  }

  // Every eviction run ends within the limit, whatever the map orders, if and only if the source under the
  // empty URI and all newer ones fit together.
  lemma EvictionExact(e: Entries, clock: nat, limit: nat)
    requires Clocked(e, clock)
    ensures (forall orders :: LongEnough(e, orders) ==> FitsAfter(e, limit, orders)) <==> EmptyUriSafe(e, limit)
  {
    if EmptyUriSafe(e, limit) {
      forall orders | LongEnough(e, orders) ensures FitsAfter(e, limit, orders) {
        assert Sourced(e) - {} == Sourced(e);
        SafeRunFits(e, clock, limit, {}, orders);
      }
    } else {
      var orders := EmptyUriStops(e, clock, limit);
    }
  }

  // Orders that meet the empty URI last stop over the limit.
  lemma EmptyUriStops(e: Entries, clock: nat, limit: nat) returns (orders: seq<seq<Uri>>)
    requires Clocked(e, clock) && !EmptyUriSafe(e, limit)
    ensures LongEnough(e, orders) && !FitsAfter(e, limit, orders)
  {
    var init := Listing(e.Keys - {""});
    var order := init + [""];
    ElementsConcat(init, [""]);
    assert order[..|order| - 1] == init;
    orders := seq(|Sourced(e)|, _ => order);
    UnsafeRunSticks(e, clock, limit, {}, orders);
  }

  // One more scan after a run in which every scan so far has evicted something.
  lemma {:induction false} EvictsOneMore(e: Entries, limit: nat, gone: set<Uri>, orders: seq<seq<Uri>>, order: seq<Uri>)
    requires Orders(e, orders) && Elements(order) == e.Keys && Evicting(e, limit, gone, orders)
    ensures Orders(e, orders + [order])
    ensures
      var now := Evicts(e, limit, gone, orders);
      Total(Without(e, now), e.Keys) > limit ==>
        var v := Scan(Without(e, now), order).victim;
        && Evicts(e, limit, gone, orders + [order]) == (if v == "" then now else now + {v})
        && (v != "" ==> Evicting(e, limit, gone, orders + [order]))
    decreases |orders|
  {
    var more := orders + [order];
    if orders != [] {
      assert more[0] == orders[0] && more[1..] == orders[1..] + [order];
      EvictsOneMore(e, limit, gone + {Scan(Without(e, gone), orders[0]).victim}, orders[1..], order);
    } else {
      assert more[1..] == [];
    }
  }

  ghost predicate Evicting(e: Entries, limit: nat, gone: set<Uri>, orders: seq<seq<Uri>>)
    requires Orders(e, orders)
    decreases |orders|
  {
    orders == [] ||
    (&& Total(Without(e, gone), e.Keys) > limit
     && var v := Scan(Without(e, gone), orders[0]).victim;
        v != "" && Evicting(e, limit, gone + {v}, orders[1..]))
  }

  class Cache {
    var entries: Entries
    var maxMemory: nat
    var memoryUsage: nat
    var clock: nat

    ghost predicate Valid()
      reads this
    {
      memoryUsage == Total(entries, entries.Keys) && Clocked(entries, clock) && maxMemory > 0
    }

    constructor (limit: nat)
      ensures Valid() && entries == map[]
      ensures maxMemory == if limit > 0 then limit else 268435456
    {
      entries, memoryUsage, clock := map[], 0, 0;
      maxMemory := if limit > 0 then limit else 256 * 1024 * 1024;
    }

    // ensureResourceLocked: the entry exists and has the latest tick.
    method EnsureResource(uri: Uri)
      requires Valid()
      modifies this
      ensures Valid() && maxMemory == old(maxMemory) && memoryUsage == old(memoryUsage)
      ensures uri in entries && entries[uri] == Entry(if uri in old(entries) then old(entries)[uri].bytes else 0, clock)
      ensures entries == old(entries)[uri := entries[uri]]
    {
      if uri !in entries {
        TotalUpdate(entries, uri, Entry(0, 0));
        entries := entries[uri := Entry(0, 0)];
        assert entries - {uri} == old(entries);
      }
      Touch(uri);
    }

    method Touch(uri: Uri)
      requires uri in entries && memoryUsage == Total(entries, entries.Keys) && maxMemory > 0
      requires Clocked(entries - {uri}, clock)
      modifies this`clock, this`entries
      ensures Valid() && clock == old(clock) + 1
      ensures entries == old(entries)[uri := Entry(old(entries)[uri].bytes, clock)]
    {
      TotalUpdate(entries, uri, entries[uri].(lastAccess := clock + 1));
      clock := clock + 1;
      entries := entries[uri := entries[uri].(lastAccess := clock)];
      assert forall u :: u in entries && u != uri ==> u in old(entries) - {uri} && entries[u] == (old(entries) - {uri})[u];
    }

    method EvictSource(uri: Uri) returns (evicted: bool)
      requires Valid()
      modifies this`entries, this`memoryUsage
      ensures Valid() && (evicted <==> uri in Sourced(old(entries)))
      ensures entries == if evicted then old(entries)[uri := old(entries)[uri].(bytes := 0)] else old(entries)
    {
      if uri !in entries || entries[uri].bytes == 0 {
        return false;
      }
      TotalUpdate(entries, uri, entries[uri].(bytes := 0));
      memoryUsage := memoryUsage - entries[uri].bytes;
      entries := entries[uri := entries[uri].(bytes := 0)];
      evicted := true;
    }

    // The inner loop of evictLRULocked, over the entries in an arbitrary order.
    method FindVictim() returns (victim: Uri, ghost order: seq<Uri>)
      ensures Elements(order) == entries.Keys && victim == Scan(entries, order).victim
    {
      victim := "";
      var oldest := 0;
      var keys := Keys(entries.Keys);
      order := keys;
      for i := 0 to |keys|
        invariant Elements(keys[..i]) <= entries.Keys && Candidate(victim, oldest) == Scan(entries, keys[..i])
      {
        ElementsTake(keys, i);
        assert keys[..i + 1][..|keys[..i + 1]| - 1] == keys[..i];
        var uri := keys[i];
        assert uri in Elements(keys);
        if entries[uri].bytes != 0 {
          if victim == "" || entries[uri].lastAccess < oldest {
            victim, oldest := uri, entries[uri].lastAccess;
          }
        }
      }
      assert keys[..|keys|] == keys;
    }

    // evictLRULocked: a run in some map orders. It evicts the oldest sources, no more than needed, until the rest
    // fits; it can only stop early at the source under the empty URI.
    method EvictLRU() returns (ghost gone: set<Uri>, ghost orders: seq<seq<Uri>>)
      requires Valid()
      modifies this`entries, this`memoryUsage
      ensures Valid() && gone <= Sourced(old(entries)) && entries == Without(old(entries), gone)
      ensures Orders(old(entries), orders) && gone == Evicts(old(entries), maxMemory, {}, orders)
      ensures EmptyUriSafe(old(entries), maxMemory) ==>
        memoryUsage <= maxMemory && Oldest(old(entries), gone) && Needed(old(entries), gone, maxMemory)
    {
      hide Clocked, Needed, EmptyUriSafe, Oldest, LeastRecent, Evicts, Evicting, Scan;
      gone, orders := {}, [];
      ghost var e := entries;
      NothingGone(e, maxMemory);
      NothingEvicted(e, maxMemory);
      while memoryUsage > maxMemory
        invariant Valid() && entries == Without(e, gone) && gone <= Sourced(e)
        invariant Orders(e, orders) && Evicting(e, maxMemory, {}, orders) && gone == Evicts(e, maxMemory, {}, orders)
        invariant EmptyUriSafe(e, maxMemory) ==> Oldest(e, gone) && Needed(e, gone, maxMemory)
        decreases |Sourced(e) - gone|
      {
        var victim, order := FindVictim();
        VictimIsNext(e, clock, gone, maxMemory, order);
        EvictsOneMore(e, maxMemory, {}, orders, order);
        orders := orders + [order];
        if victim == "" {
          return;
        }
        WithoutOneMore(e, gone, victim);
        var evicted := EvictSource(victim);
        FewerSourced(e, gone, victim);
        gone := gone + {victim};
      }
    }

    // SetSource: the counter is exact, the cache fits, what had to go was older than what
    // stayed, and the source just set stays whenever it fits alone.
    method SetSource(uri: Uri, bytes: nat) returns (ghost gone: set<Uri>)
      requires Valid()
      modifies this
      ensures Valid() && maxMemory == old(maxMemory)
      ensures
        var stored := old(entries)[uri := Entry(bytes, clock)];
        && gone <= Sourced(stored) && entries == Without(stored, gone)
        && (EmptyUriSafe(stored, maxMemory) ==>
              && memoryUsage <= maxMemory
              && Oldest(stored, gone) && Needed(stored, gone, maxMemory)
              && (bytes <= maxMemory ==> entries[uri] == Entry(bytes, clock)))
    {
      hide Clocked, Needed, EmptyUriSafe, Oldest;
      Store(uri, bytes);
      ghost var stored := entries;
      ghost var orders;
      gone, orders := EvictLRU();
      if EmptyUriSafe(stored, maxMemory) && bytes <= maxMemory {
        JustSetStays(stored, clock, gone, maxMemory, uri);
      }
    }

    // SetSource up to the eviction.
    method Store(uri: Uri, bytes: nat)
      requires Valid()
      modifies this
      ensures Valid() && maxMemory == old(maxMemory) && entries == old(entries)[uri := Entry(bytes, clock)]
    {
      EnsureResource(uri);
      SetBytes(uri, bytes);
      ClockedWithout(entries, uri, clock);
      hide Clocked;
      Touch(uri);
    }

    method SetBytes(uri: Uri, bytes: nat)
      requires Valid() && uri in entries
      modifies this`entries, this`memoryUsage
      ensures Valid() && entries == old(entries)[uri := old(entries)[uri].(bytes := bytes)]
    {
      TotalUpdate(entries, uri, entries[uri].(bytes := bytes));
      TotalAtLeast(entries, uri);
      memoryUsage := memoryUsage - entries[uri].bytes;
      entries := entries[uri := entries[uri].(bytes := bytes)];
      memoryUsage := memoryUsage + bytes;
    }
  }

  lemma ClockedWithout(e: Entries, uri: Uri, clock: nat)
    requires Clocked(e, clock)
    ensures Clocked(e - {uri}, clock)
  {
  }

  lemma NothingGone(e: Entries, limit: nat)
    ensures Without(e, {}) == e && Oldest(e, {}) && Needed(e, {}, limit)
  {
  }

  lemma NothingEvicted(e: Entries, limit: nat)
    ensures Evicting(e, limit, {}, []) && Evicts(e, limit, {}, []) == {}
  {
  }

  lemma FewerSourced(e: Entries, gone: set<Uri>, v: Uri)
    requires v in Sourced(e) && v !in gone
    ensures |Sourced(e) - (gone + {v})| < |Sourced(e) - gone|
  {
    SubsetCount(Sourced(e) - (gone + {v}), Sourced(e) - gone - {v});
  }

  lemma TotalAtLeast(e: Entries, u: Uri)
    requires u in e
    ensures e[u].bytes <= Total(e, e.Keys)
  {
    TotalSplit(e, e.Keys, u);
  }

  // What the scan finds while the cache is over its limit.
  lemma VictimIsNext(e: Entries, clock: nat, gone: set<Uri>, limit: nat, order: seq<Uri>)
    requires Clocked(Without(e, gone), clock) && gone <= Sourced(e) && Elements(order) == e.Keys
    requires Total(Without(e, gone), e.Keys) > limit
    ensures
      var v := Scan(Without(e, gone), order).victim;
      && (v != "" ==> v in Sourced(e) - gone)
      && (EmptyUriSafe(e, limit) && Oldest(e, gone) ==>
            v != "" && Oldest(e, gone + {v}) && Needed(e, gone + {v}, limit))
  {
    var now := Without(e, gone);
    assert Sourced(now) == Sourced(e) - gone;
    ScanCandidate(now, order);
    ClockedBefore(e, gone, clock);
    if EmptyUriSafe(e, limit) && Oldest(e, gone) {
      TotalWithout(e, gone, e.Keys);
      var v := NextVictim(e, clock, gone, limit);
      assert v in Elements(order);
      ScanFindsLeastRecent(now, clock, order, v);
      EvictNext(e, clock, gone, limit, v);
    }
  }

  lemma ClockedBefore(e: Entries, gone: set<Uri>, clock: nat)
    requires Clocked(Without(e, gone), clock)
    ensures Clocked(e, clock)
  {
    assert forall u :: u in e ==> Without(e, gone)[u].lastAccess == e[u].lastAccess;
  }

  // The source just set is the last one to be evicted.
  lemma JustSetStays(e: Entries, clock: nat, gone: set<Uri>, limit: nat, uri: Uri)
    requires Clocked(e, clock) && Oldest(e, gone) && Needed(e, gone, limit)
    requires uri in e && e[uri].lastAccess == clock && e[uri].bytes <= limit
    ensures uri !in gone
  {
    if uri in gone {
      assert Latest(e, gone, uri);
      assert Sourced(e) - gone == {};
      assert forall v :: v in e.Keys - gone ==> v !in Sourced(e) - gone;
      TotalUnsourced(e, e.Keys - gone);
    }
  }
}
