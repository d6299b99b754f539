/**
 The value of a table as its three parts hold it together: an array part, a hash part, and the
 insertion order of the hash keys with the set of keys a traversal already returned.
 */
module TableSpec {

  // Keys and values: references (tables, functions, ...) are compared by identity.
  datatype Item = Nil | Bool(b: bool) | Num(n: nat) | Str(s: string) | Ref(id: nat)

  const MAX_ARRAY_INDEX := 67108864
  const MAX_ARRAY_HOLE_GROWTH := 64
  const MAX_INT := 0x7FFF_FFFF_FFFF_FFFF

  // lu256FromInt: negative numbers become 0
  function FromInt(i: int): Item { Num(if i <= 0 then 0 else i) }

  datatype Table = Table(arr: seq<Item>, hash: map<Item, Item>, keys: seq<Item>, iterated: set<Item>)

  function HashGet(t: Table, k: Item): Item { if k in t.hash then t.hash[k] else Nil }

  predicate InArray(t: Table, k: Item) { k.Num? && 1 <= k.n <= |t.arr| }

  // The value of a key, wherever it is kept.
  function Lookup(t: Table, k: Item): Item { if InArray(t, k) then t.arr[k.n - 1] else HashGet(t, k) }

  ghost predicate NoRepeats(keys: seq<Item>)
  {
    forall i, j :: 0 <= i < j < |keys| ==> keys[i] != keys[j]
  }

  // Each hash key is listed once, and a listed key without a value is one a traversal returned.
  ghost predicate Listed(hash: map<Item, Item>, keys: seq<Item>, iterated: set<Item>)
  {
    && NoRepeats(keys)
    && (forall k :: k in hash ==> k in keys)
    && (forall k :: k in keys && k !in hash ==> k in iterated)
    && (forall k :: k in iterated ==> k in keys)
  }

  // No key is in both parts, and every live hash key is listed.
  ghost predicate Inv(t: Table)
  {
    && |t.arr| < MAX_ARRAY_INDEX
    && (forall k :: k in t.hash ==> t.hash[k] != Nil && !InArray(t, k))
    && Listed(t.hash, t.keys, t.iterated)
  }

  // ----- the hash part -----

  // The position of a key, |keys| when it is not listed.
  function IndexOf(keys: seq<Item>, k: Item): (i: nat)
    ensures i <= |keys|
    ensures i < |keys| ==> keys[i] == k
    ensures i == |keys| <==> k !in keys
    ensures k !in keys[..i]
  {
    if keys == [] then 0 else if keys[0] == k then 0 else 1 + IndexOf(keys[1..], k)
  }

  function Without(keys: seq<Item>, k: Item): seq<Item>
  {
    var i := IndexOf(keys, k);
    if i < |keys| then keys[..i] + keys[i + 1..] else keys
  }

  // RawSetH, RawSetString
  function SetHash(t: Table, k: Item, v: Item): (r: Table)
    ensures r.arr == t.arr && r.iterated == t.iterated
  {
    if v == Nil then
      t.(hash := t.hash - {k}, keys := if k in t.iterated then t.keys else Without(t.keys, k))
    else
      t.(hash := t.hash[k := v], keys := if k in t.keys then t.keys else t.keys + [k])
  }

  lemma WithoutKeys(keys: seq<Item>, k: Item)
    requires NoRepeats(keys)
    ensures NoRepeats(Without(keys, k))
    ensures forall x :: x in Without(keys, k) <==> x in keys && x != k
  {
    var i := IndexOf(keys, k);
    var w := Without(keys, k);
    forall x | x in keys && x != k ensures x in w {
      var j :| 0 <= j < |keys| && keys[j] == x;
      assert w[if j < i then j else j - 1] == x;
    }
  }

  lemma RemovalListed(t: Table, k: Item)
    requires Listed(t.hash, t.keys, t.iterated)
    ensures var r := SetHash(t, k, Nil); Listed(r.hash, r.keys, r.iterated)
  {
    WithoutKeys(t.keys, k);
    hide Without;
  }

  lemma InsertionListed(t: Table, k: Item, v: Item)
    requires Listed(t.hash, t.keys, t.iterated) && v != Nil
    ensures var r := SetHash(t, k, v); Listed(r.hash, r.keys, r.iterated)
  {
    var r := SetHash(t, k, v);
    assert forall x :: x in r.keys <==> x in t.keys || x == k;
  }

  lemma SetHashKeeps(t: Table, k: Item, v: Item)
    requires Inv(t) && (v != Nil ==> !InArray(t, k))
    ensures Inv(SetHash(t, k, v))
    ensures forall x :: Lookup(SetHash(t, k, v), x) == if x == k && !InArray(t, k) then v else Lookup(t, x)
  {
    if v == Nil {
      RemovalListed(t, k);
    } else {
      InsertionListed(t, k, v);
    }
    hide Listed, Without;
  }

  // ----- the array part -----

  predicate StoredInArray(t: Table, i: int)
  {
    1 <= i < MAX_ARRAY_INDEX && i <= |t.arr| + 1 + MAX_ARRAY_HOLE_GROWTH
  }

  // migrateNumericHashRangeToArray
  function Migrate(t: Table, start: nat, end: nat): (m: Table)
    requires 1 <= start && end <= |t.arr|
    ensures |m.arr| == |t.arr|
    decreases end + 1 - start
  {
    if start > end then t
    else Migrate(if HashGet(t, Num(start)) != Nil then Moved(t, start) else t, start + 1, end)
  }

  function Nils(n: nat): (s: seq<Item>)
    ensures |s| == n && forall i :: 0 <= i < n ==> s[i] == Nil
  {
    seq(n, _ => Nil)
  }

  // setArrayValueAt
  function SetArray(t: Table, index: int, v: Item): Table
  {
    if index < 1 || index >= MAX_ARRAY_INDEX then SetHash(t, FromInt(index), v)
    else if v == Nil && index > |t.arr| then SetHash(t, FromInt(index), Nil)
    else
      var g := if index > |t.arr|
               then Migrate(t.(arr := t.arr + Nils(index - |t.arr|)), |t.arr| + 1, index)
               else t;
      SetHash(g.(arr := g.arr[index - 1 := v]), Num(index), Nil)
  }

  // RawSet
  function Set(t: Table, k: Item, v: Item): Table
  {
    if k.Num? && 0 < k.n < MAX_ARRAY_INDEX && StoredInArray(t, k.n) then SetArray(t, k.n, v) else SetHash(t, k, v)
  }

  // RawSetInt
  function SetInt(t: Table, i: int, v: Item): Table
  {
    if StoredInArray(t, i) then SetArray(t, i, v) else SetHash(t, FromInt(i), v)
  }

  // What growing and migrating keep: keys of the array part from `start` on may still have to be
  // moved there, and every key has the value it had.
  ghost predicate Migrating(was: Table, t: Table, start: nat)
  {
    && |t.arr| < MAX_ARRAY_INDEX
    && Listed(t.hash, t.keys, t.iterated)
    && (forall k :: Kept(was, t, start, k))
  }

  predicate Kept(was: Table, t: Table, start: nat, k: Item)
  {
    && (k in t.hash ==> t.hash[k] != Nil && (InArray(t, k) ==> start <= k.n && t.arr[k.n - 1] == Nil))
    && Lookup(was, k) == if k in t.hash then t.hash[k] else Lookup(t, k)
  }

  function Moved(t: Table, start: nat): (m: Table)
    requires 1 <= start <= |t.arr|
    ensures |m.arr| == |t.arr|
  {
    SetHash(t.(arr := t.arr[start - 1 := HashGet(t, Num(start))]), Num(start), Nil)
  }

  lemma MoveOne(was: Table, t: Table, start: nat)
    requires 1 <= start <= |t.arr| && Migrating(was, t, start)
    ensures Migrating(was, if HashGet(t, Num(start)) != Nil then Moved(t, start) else t, start + 1)
  {
    RemovalListed(t.(arr := t.arr[start - 1 := HashGet(t, Num(start))]), Num(start));
    hide Listed, Without;
    var next := if HashGet(t, Num(start)) != Nil then Moved(t, start) else t;
    var rest := start + 1;
    forall k ensures Kept(was, next, rest, k) {
      assert Kept(was, t, start, k);
    }
  }

  lemma {:induction false} MigrateKeeps(was: Table, t: Table, start: nat, end: nat)
    requires 1 <= start <= end + 1 && end == |t.arr| && Migrating(was, t, start)
    ensures Migrating(was, Migrate(t, start, end), |t.arr| + 1)
    decreases end + 1 - start
  {
    if start <= end {
      MoveOne(was, t, start);
      hide Migrating, Moved;
      MigrateKeeps(was, if HashGet(t, Num(start)) != Nil then Moved(t, start) else t, start + 1, end);
    }
  }

  lemma GrowKeeps(t: Table, index: nat)
    requires Inv(t) && |t.arr| < index < MAX_ARRAY_INDEX
    ensures var g := Migrate(t.(arr := t.arr + Nils(index - |t.arr|)), |t.arr| + 1, index);
            |g.arr| == index && Inv(g) && forall k :: Lookup(g, k) == Lookup(t, k)
  {
    var wide := t.(arr := t.arr + Nils(index - |t.arr|));
    var start := |t.arr| + 1;
    hide Listed;
    forall k ensures Kept(t, wide, start, k) {
    }
    MigrateKeeps(t, wide, |t.arr| + 1, index);
    hide Migrate;
    var g := Migrate(wide, |t.arr| + 1, index);
    forall k ensures (k in g.hash ==> g.hash[k] != Nil && !InArray(g, k)) && Lookup(g, k) == Lookup(t, k) {
      assert Kept(t, g, index + 1, k);
    }
  }

  lemma SetArrayKeeps(t: Table, index: int, v: Item)
    requires Inv(t) && 0 <= index
    ensures Inv(SetArray(t, index, v))
    ensures forall x :: Lookup(SetArray(t, index, v), x) == if x == Num(index) then v else Lookup(t, x)
  {
    if index < 1 || index >= MAX_ARRAY_INDEX {
      SetHashKeeps(t, Num(index), v);
    } else if v == Nil && index > |t.arr| {
      SetHashKeeps(t, Num(index), Nil);
    } else {
      var g := t;
      if index > |t.arr| {
        GrowKeeps(t, index);
        g := Migrate(t.(arr := t.arr + Nils(index - |t.arr|)), |t.arr| + 1, index);
      }
      PutKeeps(g, index, v);
    }
  }

  lemma PutKeeps(t: Table, index: nat, v: Item)
    requires Inv(t) && 1 <= index <= |t.arr|
    ensures var p := SetHash(t.(arr := t.arr[index - 1 := v]), Num(index), Nil);
            Inv(p) && forall x :: Lookup(p, x) == if x == Num(index) then v else Lookup(t, x)
  {
    var put := t.(arr := t.arr[index - 1 := v]);
    SetHashKeeps(put, Num(index), Nil);
  }

  // A table is a map: a set key reads back, and no other key changes.
  lemma SetIsUpdate(t: Table, k: Item, v: Item)
    requires Inv(t)
    ensures Inv(Set(t, k, v))
    ensures forall x :: Lookup(Set(t, k, v), x) == if x == k then v else Lookup(t, x)
  {
    if k.Num? && 0 < k.n < MAX_ARRAY_INDEX && StoredInArray(t, k.n) {
      SetArrayKeeps(t, k.n, v);
    } else {
      SetHashKeeps(t, k, v);
    }
  }

  // By integer index, where every negative index means the key 0.
  lemma SetIntIsUpdate(t: Table, i: int, v: Item)
    requires Inv(t)
    ensures Inv(SetInt(t, i, v))
    ensures forall x :: Lookup(SetInt(t, i, v), x) == if x == FromInt(i) then v else Lookup(t, x)
  {
    if StoredInArray(t, i) {
      SetArrayKeeps(t, i, v);
    } else {
      SetHashKeeps(t, FromInt(i), v);
    }
  }

  // ----- appending -----

  // MaxN: the number of elements up to the last one that is not nil
  function MaxN(arr: seq<Item>): (n: nat)
    ensures n <= |arr|
    ensures n > 0 ==> arr[n - 1] != Nil
    ensures forall i :: n <= i < |arr| ==> arr[i] == Nil
  {
    if arr == [] then 0
    else if arr[|arr| - 1] != Nil then |arr|
    else MaxN(arr[..|arr| - 1])
  }

  // Append
  function Append(t: Table, v: Item): Table
  {
    if v == Nil then t
    else if |t.arr| == 0 || t.arr[|t.arr| - 1] != Nil then SetArray(t, |t.arr| + 1, v)
    else
      var n := MaxN(t.arr);
      SetHash(t.(arr := t.arr[n := v]), Num(n + 1), Nil)
  }

  // Appending sets the key behind the last element of the array part, even when the hash part has a
  // value for that key.
  lemma AppendIsUpdate(t: Table, v: Item)
    requires Inv(t) && v != Nil
    ensures Inv(Append(t, v))
    ensures forall x :: Lookup(Append(t, v), x) == if x == Num(MaxN(t.arr) + 1) then v else Lookup(t, x)
  {
    var n := MaxN(t.arr);
    if |t.arr| == 0 || t.arr[|t.arr| - 1] != Nil {
      SetArrayKeeps(t, |t.arr| + 1, v);
    } else {
      PutKeeps(t, n + 1, v);
    }
  }

  const EMPTY := Table([], map[], [], {})

  // Key 66 of an empty table goes to the hash part, key 65 then to the array part, and appending
  // overwrites key 66 though it has a value.
  lemma AppendOverwrites(a: Item, b: Item, c: Item)
    requires a != Nil && b != Nil && c != Nil
    ensures var t := Set(Set(EMPTY, Num(66), a), Num(65), b);
            Inv(t) && Lookup(t, Num(66)) == a && Lookup(Append(t, c), Num(66)) == c
  {
    var t1 := Set(EMPTY, Num(66), a);
    var t := Set(t1, Num(65), b);
    SetIsUpdate(EMPTY, Num(66), a);
    SetIsUpdate(t1, Num(65), b);
    GrowKeeps(t1, 65);
    assert |t.arr| == 65 && t.arr[64] == b;
    hide Set, SetArray, Migrate;
    AppendIsUpdate(t, c);
  }
}
