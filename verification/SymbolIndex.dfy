/** AddSymbol of lsp/global_index.go: the symbol tables and the index of their entries by hash key. */
module SymbolIndex {
  import opened Uris

  // A GlobalKey; ZERO is the absent one.
  type Key = nat

  const ZERO: Key := 0

  datatype Side = Client | Server | Shared

  // A place in a symbol table.
  datatype Slot = Slot(resource: Uri, side: Side, name: Uri)

  // An entry is an object: two entries with the same key differ in identity.
  datatype Entry = Entry(id: nat, key: Key)

  type Tables = map<Slot, Entry>

  type Hash = map<Key, seq<Entry>>

  function Under(hash: Hash, k: Key): seq<Entry>
  {
    if k in hash then hash[k] else []
  }

  ghost predicate Live(tables: Tables, e: Entry)
  {
    exists s :: s in tables && tables[s] == e
  }

  // No entry with a key stands in two places.
  ghost predicate Apart(tables: Tables)
  {
    forall s, t :: s in tables && t in tables && tables[s] == tables[t] && tables[s].key != ZERO ==> s == t
  }

  // The list of one key is exact.
  ghost predicate ListExact(tables: Tables, s: seq<Entry>, k: Key)
  {
    forall e :: multiset(s)[e] == if e.key == k && Live(tables, e) then 1 else 0
  }

  // Each key lists each live entry that carries it once, and nothing else.
  ghost predicate Exact(tables: Tables, hash: Hash)
  {
    && (forall k :: k in hash ==> k != ZERO && hash[k] != [])
    && forall k :: k != ZERO ==> ListExact(tables, Under(hash, k), k)
  }

  // The index after an entry with a key is filed, the previous one in its place being given.
  function Dropped(hash: Hash, tables: Tables, slot: Slot, entry: Entry): Hash
  {
    if slot in tables && tables[slot] != entry && entry.key != ZERO && tables[slot].key == entry.key then
      var entries := RemoveFirst(Under(hash, entry.key), tables[slot]);
      if entries == [] then hash - {entry.key} else hash[entry.key := entries]
    else hash
  }

  function Filed(hash: Hash, tables: Tables, slot: Slot, entry: Entry): Hash
  {
    var rest := Dropped(hash, tables, slot, entry);
    if entry.key == ZERO then rest else rest[entry.key := Under(rest, entry.key) + [entry]]
  }

  // Filing keeps the index exact: the entry is not in use under its key already, and what it replaces had no
  // key or the same one.
  ghost predicate Fits(tables: Tables, slot: Slot, entry: Entry)
  {
    && (entry.key != ZERO ==> !Live(tables, entry))
    && (slot in tables && tables[slot] != entry ==> tables[slot].key == ZERO || tables[slot].key == entry.key)
  }

  lemma LiveAfter(tables: Tables, slot: Slot, entry: Entry, e: Entry)
    requires Apart(tables)
    ensures Live(tables[slot := entry], e) <==>
      e == entry || (exists s :: s in tables && s != slot && tables[s] == e)
    ensures e != entry && e.key != ZERO ==>
      (Live(tables[slot := entry], e) <==> Live(tables, e) && !(slot in tables && tables[slot] == e))
  {
    var after := tables[slot := entry];
    if e == entry {
      assert after[slot] == e;
    }
    if s :| s in tables && s != slot && tables[s] == e {
      assert after[s] == e;
    }
  }

  // How often e is listed under k once the entry is filed.
  lemma FiledCount(hash: Hash, tables: Tables, slot: Slot, entry: Entry, k: Key, e: Entry)
    requires k != ZERO
    ensures var replaced := slot in tables && tables[slot] != entry && tables[slot].key == entry.key;
      multiset(Under(Filed(hash, tables, slot, entry), k))[e] ==
      if k != entry.key then multiset(Under(hash, k))[e]
      else (multiset(Under(hash, k)) - (if replaced then multiset{tables[slot]} else multiset{}) + multiset{entry})[e]
  {
    hide RemoveFirst;
    if k != entry.key {
      assert Under(Dropped(hash, tables, slot, entry), k) == Under(hash, k);
      assert Under(Filed(hash, tables, slot, entry), k) == Under(hash, k);
    } else {
      var rest := Under(Dropped(hash, tables, slot, entry), k);
      assert Under(Filed(hash, tables, slot, entry), k) == rest + [entry];
    }
  }

  lemma FitAt(tables: Tables, hash: Hash, slot: Slot, entry: Entry, k: Key)
    requires Apart(tables) && ListExact(tables, Under(hash, k), k) && Fits(tables, slot, entry) && k != ZERO
    ensures ListExact(tables[slot := entry], Under(Filed(hash, tables, slot, entry), k), k)
  {
    hide Filed, Apart;
    forall e ensures multiset(Under(Filed(hash, tables, slot, entry), k))[e] == if e.key == k && Live(tables[slot := entry], e) then 1 else 0 {
      FiledCount(hash, tables, slot, entry, k, e);
      LiveAfter(tables, slot, entry, e);
      hide Live;
    }
  }

  lemma FitKeepsExact(tables: Tables, hash: Hash, slot: Slot, entry: Entry)
    requires Apart(tables) && Exact(tables, hash) && Fits(tables, slot, entry)
    ensures Apart(tables[slot := entry]) && Exact(tables[slot := entry], Filed(hash, tables, slot, entry))
  {
    forall k | k != ZERO ensures ListExact(tables[slot := entry], Under(Filed(hash, tables, slot, entry), k), k) {
      assert ListExact(tables, Under(hash, k), k);
      FitAt(tables, hash, slot, entry, k);
    }
  }

  // An entry already live with its key ends up listed twice, and one replaced under another key stays.
  lemma MisfitBreaks(tables: Tables, hash: Hash, slot: Slot, entry: Entry)
    requires Apart(tables) && Exact(tables, hash) && !Fits(tables, slot, entry)
    ensures !(Apart(tables[slot := entry]) && Exact(tables[slot := entry], Filed(hash, tables, slot, entry)))
  {
    var after, index := tables[slot := entry], Filed(hash, tables, slot, entry);
    if entry.key != ZERO && Live(tables, entry) {
      var k := entry.key;
      FiledCount(hash, tables, slot, entry, k, entry);
      assert ListExact(tables, Under(hash, k), k);
      assert multiset(Under(index, k))[entry] == 2;
    } else {
      var stale := tables[slot];
      var k := stale.key;
      FiledCount(hash, tables, slot, entry, k, stale);
      LiveAfter(tables, slot, entry, stale);
      assert ListExact(tables, Under(hash, k), k);
      assert Live(tables, stale);
      assert multiset(Under(index, k))[stale] == 1;
    }
  }

  // AddSymbol keeps the index exact if and only if the entry fits.
  lemma AddSymbolExact(tables: Tables, hash: Hash, slot: Slot, entry: Entry)
    requires Apart(tables) && Exact(tables, hash)
    ensures Apart(tables[slot := entry]) && Exact(tables[slot := entry], Filed(hash, tables, slot, entry))
      <==> Fits(tables, slot, entry)
  {
    hide Apart, Exact, Fits, Filed;
    if Fits(tables, slot, entry) {
      FitKeepsExact(tables, hash, slot, entry);
    } else {
      MisfitBreaks(tables, hash, slot, entry);
    }
  }

  datatype Filing = Filing(slot: Slot, entry: Entry)

  datatype State = State(tables: Tables, hash: Hash)

  // The state after a run of AddSymbol calls.
  function Run(log: seq<Filing>): State
  {
    if log == [] then State(map[], map[])
    else
      var before, last := Run(log[..|log| - 1]), log[|log| - 1];
      State(before.tables[last.slot := last.entry], Filed(before.hash, before.tables, last.slot, last.entry))
  }

  // Entries are new each time, and a place always carries the same key.
  ghost predicate Steady(log: seq<Filing>)
  {
    && (forall i, j :: 0 <= i < j < |log| ==> log[i].entry != log[j].entry)
    && (forall i, j :: 0 <= i < j < |log| && log[i].slot == log[j].slot ==> log[i].entry.key == log[j].entry.key)
  }

  lemma {:induction false} TablesFromLog(log: seq<Filing>, s: Slot) returns (i: nat)
    requires s in Run(log).tables
    ensures i < |log| && log[i] == Filing(s, Run(log).tables[s])
  {
    hide Filed;
    var n := |log| - 1;
    if log[n].slot == s {
      i := n;
    } else {
      i := TablesFromLog(log[..n], s);
    }
  }

  lemma SteadyFits(log: seq<Filing>, n: nat)
    requires Steady(log) && |log| == n + 1
    ensures Fits(Run(log[..n]).tables, log[n].slot, log[n].entry)
  {
    hide Filed, Run;
    var tables := Run(log[..n]).tables;
    forall s | s in tables
      ensures tables[s] != log[n].entry && (s == log[n].slot ==> tables[s].key == log[n].entry.key)
    {
      var i := TablesFromLog(log[..n], s);
      assert log[..n][i] == log[i];
    }
  }

  // Every such run leaves the index exact: live entries listed once, replaced ones not at all.
  lemma {:induction false} RunExact(log: seq<Filing>)
    requires Steady(log)
    ensures Apart(Run(log).tables) && Exact(Run(log).tables, Run(log).hash)
  {
    if log != [] {
      var n := |log| - 1;
      var before := Run(log[..n]);
      SteadyFits(log, n);
      assert Steady(log[..n]);
      hide Steady, Fits, Exact, Filed, Apart;
      RunExact(log[..n]);
      FitKeepsExact(before.tables, before.hash, log[n].slot, log[n].entry);
    }
  }

  // A name re-added under another key: the replaced entry stays listed under the old one.
  lemma KeyChangeLeavesStale(slot: Slot)
    ensures var run := Run([Filing(slot, Entry(0, 1)), Filing(slot, Entry(1, 2))]);
      && run.tables == map[slot := Entry(1, 2)] && !Live(run.tables, Entry(0, 1))
      && run.hash == map[1 := [Entry(0, 1)], 2 := [Entry(1, 2)]]
  {
    var one, two := Filing(slot, Entry(0, 1)), Filing(slot, Entry(1, 2));
    assert [one, two][..1] == [one] && [one][..0] == [];
    assert Run([]) == State(map[], map[]);
    var first := Run([one]);
    assert first == State(map[slot := one.entry], Filed(map[], map[], slot, one.entry));
    assert Dropped(map[], map[], slot, one.entry) == map[] && Under(map[], 1) + [one.entry] == [one.entry];
    assert first.hash == map[1 := [one.entry]];
    assert Dropped(first.hash, first.tables, slot, two.entry) == first.hash;
    assert Under(first.hash, 2) + [two.entry] == [two.entry];
  }

  class Index {
    var tables: Tables
    var hash: Hash

    constructor ()
      ensures tables == map[] && hash == map[] && Apart(tables) && Exact(tables, hash)
    {
      tables, hash := map[], map[];
    }

    // The previous entry under the same key leaves the list of that key.
    method DropPrevious(slot: Slot, entry: Entry)
      modifies this`hash
      ensures hash == Dropped(old(hash), tables, slot, entry)
    {
      hide RemoveFirst, Under;
      if slot in tables && tables[slot] != entry && entry.key != ZERO && tables[slot].key == entry.key {
        var entries := RemoveOne(Under(hash, entry.key), tables[slot]);
        if entries == [] {
          hash := hash - {entry.key};
        } else {
          hash := hash[entry.key := entries];
        }
      }
    }

    // AddSymbol; a symbol without a name is not filed. AddSymbolExact says when the index stays exact.
    method AddSymbol(slot: Slot, entry: Entry) returns (added: bool)
      modifies this
      ensures added == (slot.name != "")
      ensures tables == if added then old(tables)[slot := entry] else old(tables)
      ensures hash == if added then Filed(old(hash), old(tables), slot, entry) else old(hash)
    {
      hide Dropped, Under;
      if slot.name == "" {
        return false;
      }
      DropPrevious(slot, entry);
      tables := tables[slot := entry];
      if entry.key != ZERO {
        hash := hash[entry.key := Under(hash, entry.key) + [entry]];
      }
      added := true;
    }
  }
}
