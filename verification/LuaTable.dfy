/**
 The table object, updated in place, and that each of its methods does what TableSpec says.
 */
module LuaTable {
  import opened TableSpec
  import opened Traversal

  function StrKeys(strdict: map<string, Item>): set<Item> { set s | s in strdict :: Str(s) }

  // Both maps of the hash part as one.
  function Hash(dict: map<Item, Item>, strdict: map<string, Item>): map<Item, Item>
  {
    map k | k in dict.Keys + StrKeys(strdict) ::
      if k.Str? && k.s in strdict then strdict[k.s] else if k in dict then dict[k] else Nil
  }

  ghost predicate NoStrings(dict: map<Item, Item>) { forall k :: k in dict ==> !k.Str? }

  lemma HashString(dict: map<Item, Item>, strdict: map<string, Item>, s: string, v: Item)
    requires NoStrings(dict)
    ensures Hash(dict, strdict[s := v]) == Hash(dict, strdict)[Str(s) := v]
  {
  }

  lemma HashLessString(dict: map<Item, Item>, strdict: map<string, Item>, s: string)
    requires NoStrings(dict)
    ensures Hash(dict, strdict - {s}) == Hash(dict, strdict) - {Str(s)}
  {
  }

  lemma HashOther(dict: map<Item, Item>, strdict: map<string, Item>, k: Item, v: Item)
    requires NoStrings(dict) && !k.Str?
    ensures Hash(dict[k := v], strdict) == Hash(dict, strdict)[k := v]
    ensures Hash(dict - {k}, strdict) == Hash(dict, strdict) - {k}
  {
  }

  // k2i gives the position of each key and nothing else.
  ghost predicate Indexes(k2i: map<Item, nat>, keys: seq<Item>)
  {
    && (forall i :: 0 <= i < |keys| ==> keys[i] in k2i && k2i[keys[i]] == i)
    && (forall k :: k in k2i ==> k2i[k] < |keys| && keys[k2i[k]] == k)
  }

  // lu256ToInt
  predicate IsInt(n: nat) { n <= MAX_INT }

  // isArrayKey
  predicate IsArrayKey(n: nat) { IsInt(n) && 0 < n < MAX_ARRAY_INDEX }

  lemma NotIndexed(k2i: map<Item, nat>, keys: seq<Item>, k: Item)
    requires Indexes(k2i, keys) && k !in k2i
    ensures Without(keys, k) == keys
  {
    assert k !in keys;
  }

  lemma KeysListed(t: Table)
    requires Listed(t.hash, t.keys, t.iterated)
    ensures NoRepeats(t.keys)
  {
  }

  // Where nextHashAfter starts.
  function HashStart(keys: seq<Item>, key: Item): (p: nat)
    ensures p <= |keys|
  {
    if keys == [] then 0 else 1 + (if key in keys then IndexOf(keys, key) else 0)
  }

  lemma IndexedAt(k2i: map<Item, nat>, keys: seq<Item>, key: Item)
    requires Indexes(k2i, keys)
    ensures k2i == map[] <==> keys == []
    ensures HashStart(keys, key) == if k2i == map[] then 0 else (if key in k2i then k2i[key] else 0) + 1
  {
    if keys != [] {
      assert keys[0] in k2i;
    }
    if key in k2i {
      var i := IndexOf(keys, key);
      assert keys[k2i[key]] == key && k2i[keys[i]] == i;
    } else {
      assert key !in keys;
    }
  }

  ghost predicate NoNil(hash: map<Item, Item>) { forall k :: k in hash ==> hash[k] != Nil }

  lemma NilGone(t: Table, k: Item)
    requires NoNil(t.hash)
    ensures HashGet(t, k) != Nil <==> k in t.hash
  {
  }

  lemma NothingSearched(t: Table)
    requires t.keys == []
    ensures Searched(t, |t.arr|, Nil, Nil, 0, t)
  {
  }

  lemma SearchedHash(t: Table, p: nat, key: Item, value: Item, cost: int, u: Table)
    requires Searched(t, p, key, value, cost, u)
    ensures u.hash == t.hash
  {
  }

  lemma NothingIndexed(t: Table, keys: seq<Item>)
    ensures LiveKeys(t, keys[..0]) == [] && Indexes(map[], [])
  {
  }

  lemma LiveStep(t: Table, keys: seq<Item>, i: nat)
    requires i < |keys|
    ensures LiveKeys(t, keys[..i + 1]) == LiveKeys(t, keys[..i]) + if keys[i] in t.hash then [keys[i]] else []
    ensures keys[i] !in keys[..i] ==> keys[i] !in LiveKeys(t, keys[..i])
  {
    assert keys[..i + 1][..i] == keys[..i];
  }

  lemma IndexAppend(k2i: map<Item, nat>, keys: seq<Item>, k: Item)
    requires Indexes(k2i, keys)
    ensures k !in keys ==> Indexes(k2i[k := |keys|], keys + [k])
  {
  }

  lemma NewKey(keys: seq<Item>, k2i: map<Item, nat>, i: nat)
    requires Indexes(k2i, keys) && i < |keys|
    ensures keys[i] !in keys[..i]
  {
    forall j | 0 <= j < i ensures keys[j] != keys[i] {
      assert k2i[keys[j]] == j;
    }
  }

  // A search from entry p on found an entry and marked it, or found none.
  ghost predicate Searched(t: Table, p: nat, key: Item, value: Item, cost: int, u: Table)
  {
    && p <= Total(t)
    && var q := Scan(t, p);
    && cost == (if q < Total(t) then q + 1 else q) - p
    && u == (if q < Total(t) then Found(t, q) else t)
    && key == (if q < Total(t) then EntryKey(t, q) else Nil)
    && value == (if q < Total(t) then EntryValue(t, q) else Nil)
  }

  lemma SearchedNext(t: Table, cursor: Item, key: Item, value: Item, cost: int, u: Table)
    requires Searched(t, Start(t, cursor), key, value, cost, u)
    ensures Next(t, cursor) ==
            if key == Nil then Yield(Nil, Nil, Compacted(u), cost + CompactCost(u)) else Yield(key, value, u, cost)
  {
  }

  function Entries(t: Table, p: nat): seq<(Item, Item)>
    requires p <= Total(t)
    decreases Total(t) - p
  {
    if p == Total(t) then []
    else (if EntryValue(t, p) != Nil then [(EntryKey(t, p), EntryValue(t, p))] else []) + Entries(t, p + 1)
  }

  lemma EntriesStep(t: Table, p: nat, before: seq<(Item, Item)>)
    requires p < Total(t)
    ensures before + Entries(t, p) ==
            (if EntryValue(t, p) != Nil then before + [(EntryKey(t, p), EntryValue(t, p))] else before)
            + Entries(t, p + 1)
  {
  }

  lemma NoEntries(t: Table)
    ensures Entries(t, Total(t)) == []
  {
  }

  // Visiting all entries lists each key that has a value once, with its value.
  lemma {:induction false} EntriesListAll(t: Table, p: nat, k: Item)
    requires Inv(t) && p <= Total(t)
    ensures forall e :: e in Entries(t, p) ==> e.1 == Lookup(t, e.0) != Nil && !Passed(t, p, e.0)
    ensures Lookup(t, k) != Nil && !Passed(t, p, k) ==> (k, Lookup(t, k)) in Entries(t, p)
    ensures forall i, j :: 0 <= i < j < |Entries(t, p)| ==> Entries(t, p)[i].0 != Entries(t, p)[j].0
    decreases Total(t) - p
  {
    if p < Total(t) {
      EntriesListAll(t, p + 1, k);
    }
  }

  // The positions before i are right, those behind are still one too large.
  ghost predicate PartlyIndexed(k2i: map<Item, nat>, keys: seq<Item>, i: nat)
  {
    && NoRepeats(keys)
    && (forall j :: 0 <= j < |keys| ==> keys[j] in k2i && k2i[keys[j]] == if j < i then j else j + 1)
    && (forall k :: k in k2i ==> k in keys)
  }

  lemma Removed(k2i: map<Item, nat>, keys: seq<Item>, k: Item)
    requires Indexes(k2i, keys) && NoRepeats(keys) && k in k2i
    ensures k2i[k] < |keys| && Without(keys, k) == keys[..k2i[k]] + keys[k2i[k] + 1..]
    ensures PartlyIndexed(k2i - {k}, Without(keys, k), k2i[k])
  {
    var idx := k2i[k];
    IndexUnique(keys, idx);
    WithoutKeys(keys, k);
    var w := Without(keys, k);
    forall j | 0 <= j < |w|
      ensures w[j] in k2i - {k} && (k2i - {k})[w[j]] == if j < idx then j else j + 1
    {
      assert w[j] == keys[if j < idx then j else j + 1];
    }
  }

  lemma IndexStep(k2i: map<Item, nat>, keys: seq<Item>, i: nat)
    requires PartlyIndexed(k2i, keys, i) && i < |keys|
    ensures PartlyIndexed(k2i[keys[i] := i], keys, i + 1)
  {
  }

  lemma AllIndexed(k2i: map<Item, nat>, keys: seq<Item>)
    requires PartlyIndexed(k2i, keys, |keys|)
    ensures Indexes(k2i, keys)
  {
  }

  lemma MigrateStep(t: Table, start: nat, end: nat)
    requires 1 <= start <= end <= |t.arr|
    ensures Migrate(t, start, end) ==
            Migrate(if HashGet(t, Num(start)) != Nil then Moved(t, start) else t, start + 1, end)
  {
  }

  lemma {:induction false} MigrateListed(t: Table, start: nat, end: nat)
    requires 1 <= start && end <= |t.arr| && Listed(t.hash, t.keys, t.iterated)
    ensures var m := Migrate(t, start, end); Listed(m.hash, m.keys, m.iterated)
    decreases end + 1 - start
  {
    if start <= end {
      var v := HashGet(t, Num(start));
      if v != Nil {
        RemovalListed(t.(arr := t.arr[start - 1 := v]), Num(start));
        hide SetHash, Listed;
        MigrateListed(Moved(t, start), start + 1, end);
      } else {
        MigrateListed(t, start + 1, end);
      }
    }
  }

  class LTable {
    var arr: seq<Item>
    var dict: map<Item, Item>
    var strdict: map<string, Item>
    var keys: seq<Item>
    var k2i: map<Item, nat>
    var nextIterated: set<Item>

    ghost function View(): Table
      reads this
    {
      Table(arr, Hash(dict, strdict), keys, nextIterated)
    }

    // Strings are in their own map only, and the index is that of the list.
    ghost predicate Consistent()
      reads this
    {
      && NoStrings(dict)
      && Indexes(k2i, keys)
    }

    ghost predicate Valid()
      reads this
    {
      Consistent() && Inv(View())
    }

    constructor ()
      ensures Valid() && View() == EMPTY
    {
      arr, dict, strdict, keys, k2i, nextIterated := [], map[], map[], [], map[], {};
    }

    // ----- reading -----

    function RawGetH(key: Item): (v: Item)
      reads this
      requires Consistent()
      ensures v == HashGet(View(), key)
    {
      if key.Str? then (if key.s in strdict then strdict[key.s] else Nil)
      else if key in dict then dict[key]
      else Nil
    }

    function RawGet(key: Item): (v: Item)
      reads this
      requires Valid()
      ensures v == Lookup(View(), key)
    {
      if key.Num? && IsArrayKey(key.n) then
        var index := key.n - 1;
        if 0 <= index < |arr| && arr[index] != Nil then arr[index] else RawGetH(key)
      else if key.Str? then (if key.s in strdict then strdict[key.s] else Nil)
      else if key in dict then dict[key]
      else Nil
    }

    function RawGetInt(key: int): (v: Item)
      reads this
      requires Valid()
      ensures v == Lookup(View(), FromInt(key))
    {
      var index := key - 1;
      if 0 <= index < |arr| && arr[index] != Nil then arr[index] else RawGetH(FromInt(key))
    }

    function RawGetString(key: string): (v: Item)
      reads this
      requires Valid()
      ensures v == Lookup(View(), Str(key))
    {
      if key in strdict then strdict[key] else Nil
    }

    // ----- the hash part -----

    method RemoveHashKeyMetadata(key: Item)
      requires Consistent() && NoRepeats(keys)
      modifies `keys, `k2i
      ensures Consistent() && keys == Without(old(keys), key)
    {
      hide Without, Indexes, NoRepeats;
      if key !in k2i {
        NotIndexed(k2i, keys, key);
        return;
      }
      Removed(k2i, keys, key);
      var idx := k2i[key];
      k2i := k2i - {key};
      keys := keys[..idx] + keys[idx + 1..];
      var i := idx;
      while i < |keys|
        invariant idx <= i <= |keys|
        invariant keys == Without(old(keys), key)
        invariant PartlyIndexed(k2i, keys, i)
      {
        IndexStep(k2i, keys, i);
        k2i := k2i[keys[i] := i];
        i := i + 1;
      }
      AllIndexed(k2i, keys);
    }

    method RawSetString(key: string, value: Item)
      requires Consistent() && Listed(View().hash, View().keys, View().iterated)
      modifies this
      ensures Consistent() && View() == SetHash(old(View()), Str(key), value)
    {
      HashString(dict, strdict, key, value);
      HashLessString(dict, strdict, key);
      KeysListed(View());
      hide Hash, Indexes, Listed, NoRepeats, Without;
      var lkey := Str(key);
      if value == Nil {
        strdict := strdict - {key};
        if lkey !in nextIterated {
          RemoveHashKeyMetadata(lkey);
        }
        return;
      }
      strdict := strdict[key := value];
      AddKey(lkey);
    }

    method AddKey(key: Item)
      requires Consistent()
      modifies `keys, `k2i
      ensures Consistent() && keys == if key in old(keys) then old(keys) else old(keys) + [key]
    {
      if key !in k2i {
        k2i := k2i[key := |keys|];
        keys := keys + [key];
      }
    }

    method RawSetH(key: Item, value: Item)
      requires Consistent() && Listed(View().hash, View().keys, View().iterated)
      modifies this
      ensures Consistent() && View() == SetHash(old(View()), key, value)
    {
      if key.Str? {
        RawSetString(key.s, value);
        return;
      }
      HashOther(dict, strdict, key, value);
      KeysListed(View());
      hide Hash, Indexes, Listed, NoRepeats, Without;
      if value == Nil {
        dict := dict - {key};
        if key !in nextIterated {
          RemoveHashKeyMetadata(key);
        }
        return;
      }
      dict := dict[key := value];
      AddKey(key);
    }

    // ----- the array part -----

    predicate ShouldStoreArrayIndex(index: int)
      reads this
    {
      if index < 1 || index >= MAX_ARRAY_INDEX then false
      else if index <= |arr| then true
      else index <= |arr| + 1 + MAX_ARRAY_HOLE_GROWTH
    }

    method MigrateNumericHashRangeToArray(start: nat, end: nat)
      requires Consistent() && Listed(View().hash, View().keys, View().iterated)
      requires 1 <= start && end <= |arr|
      modifies this
      ensures Consistent() && View() == Migrate(old(View()), start, end)
    {
      hide SetHash, Hash, Listed, Indexes, NoStrings;
      ghost var goal := Migrate(View(), start, end);
      var index := start;
      while index <= end
        invariant start <= index && end <= |arr|
        invariant Consistent() && Listed(View().hash, View().keys, View().iterated)
        invariant Migrate(View(), index, end) == goal
      {
        MigrateStep(View(), index, end);
        hide Migrate;
        var v := RawGetH(FromInt(index));
        ghost var t := View();
        if v != Nil {
          arr := arr[index - 1 := v];
          assert View() == t.(arr := t.arr[index - 1 := v]);
          RemovalListed(View(), Num(index));
          RawSetH(FromInt(index), Nil);
        }
        index := index + 1;
      }
    }

    method SetArrayValueAt(index: int, value: Item)
      requires Consistent() && Listed(View().hash, View().keys, View().iterated)
      modifies this
      ensures Consistent() && View() == SetArray(old(View()), index, value)
    {
      hide SetHash, Migrate, Listed, Indexes, Hash, NoStrings;
      if index < 1 || index >= MAX_ARRAY_INDEX {
        RawSetH(FromInt(index), value);
        return;
      }
      var alen := |arr|;
      if value == Nil && index > alen {
        RawSetH(FromInt(index), Nil);
        return;
      }
      if index > alen {
        GrowArray(index);
      }
      PutAt(index, value);
    }

    // Writes an element and drops its key from the hash part.
    method PutAt(index: nat, value: Item)
      requires Consistent() && Listed(View().hash, View().keys, View().iterated) && 1 <= index <= |arr|
      modifies this
      ensures Consistent()
      ensures View() == SetHash(old(View()).(arr := old(View()).arr[index - 1 := value]), Num(index), Nil)
    {
      hide Listed, Indexes, Hash, NoStrings, SetHash;
      ghost var t := View();
      arr := arr[index - 1 := value];
      assert View() == t.(arr := t.arr[index - 1 := value]);
      RawSetH(FromInt(index), Nil);
    }

    method GrowArray(index: nat)
      requires Consistent() && Listed(View().hash, View().keys, View().iterated) && index > |arr|
      modifies this
      ensures Consistent() && Listed(View().hash, View().keys, View().iterated) && |arr| == index
      ensures View() ==
              Migrate(old(View()).(arr := old(arr) + Nils(index - |old(arr)|)), |old(arr)| + 1, index)
    {
      hide Listed, Indexes, Hash, Migrate;
      var alen, grow := |arr|, index - |arr|;
      for i := 0 to grow
        invariant arr == old(arr) + Nils(i)
        invariant unchanged(`dict) && unchanged(`strdict) && unchanged(`keys) && unchanged(`k2i)
        invariant unchanged(`nextIterated)
      {
        assert Nils(i + 1) == Nils(i) + [Nil];
        arr := arr + [Nil];
      }
      MigrateListed(View(), alen + 1, index);
      MigrateNumericHashRangeToArray(alen + 1, index);
    }

    method RawSet(key: Item, value: Item)
      requires Valid()
      modifies this
      ensures Valid() && View() == Set(old(View()), key, value)
    {
      SetIsUpdate(View(), key, value);
      hide SetHash, SetArray, Hash, Inv;
      if key.Num? && IsArrayKey(key.n) {
        if ShouldStoreArrayIndex(key.n) {
          SetArrayValueAt(key.n, value);
        } else {
          RawSetH(key, value);
        }
      } else if key.Str? {
        RawSetString(key.s, value);
      } else {
        RawSetH(key, value);
      }
    }

    method RawSetInt(key: int, value: Item)
      requires Valid()
      modifies this
      ensures Valid() && View() == SetInt(old(View()), key, value)
    {
      SetIntIsUpdate(View(), key, value);
      hide SetHash, SetArray, Hash, Inv;
      if !ShouldStoreArrayIndex(key) {
        RawSetH(FromInt(key), value);
        return;
      }
      SetArrayValueAt(key, value);
    }

    // The index of the last element that is not nil, -1 when there is none; the very last one is nil.
    method LastElement() returns (i: int)
      requires arr != [] && arr[|arr| - 1] == Nil
      ensures i + 1 == MaxN(arr) < |arr|
    {
      i := |arr| - 2;
      while i >= 0
        invariant -1 <= i <= |arr| - 2
        invariant forall j :: i < j < |arr| ==> arr[j] == Nil
      {
        if arr[i] != Nil {
          break;
        }
        i := i - 1;
      }
    }

    method AppendValue(value: Item)
      requires Valid()
      modifies this
      ensures Valid() && View() == Append(old(View()), value)
    {
      if value == Nil {
        return;
      }
      AppendIsUpdate(View(), value);
      assert Listed(View().hash, View().keys, View().iterated);
      hide SetHash, SetArray, Hash, Inv, Listed, Indexes, NoStrings;
      if |arr| == 0 || arr[|arr| - 1] != Nil {
        SetArrayValueAt(|arr| + 1, value);
      } else {
        var i := LastElement();
        PutAt(i + 2, value);
      }
    }

    // ----- next -----

    method CompactNextIterationState() returns (cost: nat)
      requires Consistent() && NoNil(View().hash)
      modifies this
      ensures Consistent() && View() == Compacted(old(View())) && cost == CompactCost(old(View()))
    {
      if nextIterated == {} {
        return 0;
      }
      cost := |keys|;
      var newKeys, newK2I := LiveIndex();
      keys, k2i, nextIterated := newKeys, newK2I, {};
    }

    // The keys that have a value, and their positions.
    method LiveIndex() returns (newKeys: seq<Item>, newK2I: map<Item, nat>)
      requires Consistent() && NoNil(View().hash)
      ensures newKeys == LiveKeys(View(), keys) && Indexes(newK2I, newKeys)
    {
      hide Hash, Indexes, NoStrings, LiveKeys, NoNil;
      newKeys, newK2I := [], map[];
      NothingIndexed(View(), keys);
      for i := 0 to |keys|
        invariant newKeys == LiveKeys(View(), keys[..i])
        invariant Indexes(newK2I, newKeys)
      {
        NewKey(keys, k2i, i);
        LiveStep(View(), keys, i);
        IndexAppend(newK2I, newKeys, keys[i]);
        var key := keys[i];
        NilGone(View(), key);
        if RawGetH(key) != Nil {
          newK2I := newK2I[key := |newKeys|];
          newKeys := newKeys + [key];
        }
      }
      assert keys[..|keys|] == keys;
    }

    // The first hash key from position `from` on that has a value, marked.
    method FirstHashKeyFrom(from: nat) returns (key: Item, value: Item, cost: nat)
      requires Consistent() && from <= |keys|
      modifies `nextIterated
      ensures Searched(old(View()), |arr| + from, key, value, cost, View())
    {
      hide Hash, Indexes, NoStrings;
      cost := 0;
      var i := from;
      while i < |keys|
        invariant from <= i <= |keys| && cost == i - from
        invariant Scan(View(), |arr| + from) == Scan(View(), |arr| + i)
      {
        cost := cost + 1;
        key := keys[i];
        value := RawGetH(key);
        if value != Nil {
          nextIterated := nextIterated + {key};
          return;
        }
        i := i + 1;
      }
      key, value := Nil, Nil;
    }

    method NextHashAfter(key: Item) returns (nextKey: Item, value: Item, cost: nat)
      requires Consistent()
      modifies `nextIterated
      ensures Searched(old(View()), |arr| + HashStart(keys, key), nextKey, value, cost, View())
    {
      IndexedAt(k2i, keys, key);
      hide Hash, NoStrings, Indexes, Searched, HashStart;
      if k2i == map[] {
        NothingSearched(View());
        return Nil, Nil, 0;
      }
      nextKey, value, cost := FirstHashKeyFrom((if key in k2i then k2i[key] else 0) + 1);
    }

    method NextAfterArrayIndex(from: nat) returns (key: Item, value: Item, cost: nat)
      requires Consistent() && from <= |arr|
      modifies `nextIterated
      ensures Searched(old(View()), from, key, value, cost, View())
    {
      cost := 0;
      var index := from;
      while index < |arr|
        invariant from <= index <= |arr| && cost == index - from
        invariant Scan(View(), from) == Scan(View(), index)
      {
        cost := cost + 1;
        if arr[index] != Nil {
          return FromInt(index + 1), arr[index], cost;
        }
        index := index + 1;
      }
      var hashCost: nat;
      key, value, hashCost := FirstHashKeyFrom(0);
      cost := cost + hashCost;
    }

    // The search behind a cursor: nil for the start, an index of the array part, or a hash key.
    method SearchAfter(key: Item) returns (nextKey: Item, value: Item, cost: nat)
      requires Consistent() && |arr| < MAX_ARRAY_INDEX
      modifies `nextIterated
      ensures Searched(old(View()), Start(old(View()), key), nextKey, value, cost, View())
    {
      hide Searched, Hash, Indexes, NoStrings;
      if key == Nil {
        nextKey, value, cost := NextAfterArrayIndex(0);
      } else if key.Num? && IsArrayKey(key.n) && 1 <= key.n <= |arr| {
        nextKey, value, cost := NextAfterArrayIndex(key.n);
      } else {
        nextKey, value, cost := NextHashAfter(key);
      }
    }

    // The key and value behind a cursor; behind the last one the marks are dropped.
    method NextWithCost(key: Item) returns (nextKey: Item, value: Item, cost: nat)
      requires Valid()
      modifies this
      ensures Valid()
      ensures
        var y := Next(old(View()), key);
        nextKey == y.key && value == y.value && cost == y.cost && View() == y.table
    {
      ghost var t := View();
      assert NoNil(t.hash);
      NextKeeps(t, key);
      nextKey, value, cost := SearchAfter(key);
      hide Searched, Hash, Indexes, NoStrings, Next, Compacted, Inv, NoNil, Start;
      SearchedNext(t, key, nextKey, value, cost, View());
      SearchedHash(t, Start(t, key), nextKey, value, cost, View());
      if nextKey == Nil {
        var more := CompactNextIterationState();
        cost := cost + more;
        value := Nil;
      }
    }

    // All entries that have a value, in order.
    method ForEach() returns (pairs: seq<(Item, Item)>)
      requires Consistent()
      ensures pairs == Entries(View(), 0)
    {
      hide Hash, Indexes, NoStrings, Entries;
      pairs := [];
      for i := 0 to |arr|
        invariant pairs + Entries(View(), i) == Entries(View(), 0)
      {
        EntriesStep(View(), i, pairs);
        if arr[i] != Nil {
          pairs := pairs + [(FromInt(i + 1), arr[i])];
        }
      }
      for i := 0 to |keys|
        invariant pairs + Entries(View(), |arr| + i) == Entries(View(), 0)
      {
        EntriesStep(View(), |arr| + i, pairs);
        var v := RawGetH(keys[i]);
        if v != Nil {
          pairs := pairs + [(keys[i], v)];
        }
      }
      NoEntries(View());
    }
  }
}
