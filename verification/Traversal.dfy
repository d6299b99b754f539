/**
 Traversing a table with `next` while keys are deleted and overwritten in between.
 */
module Traversal {
  import opened TableSpec

  // ----- next -----

  // The entries in the order of a traversal: the array part, then the hash keys as inserted.
  function Total(t: Table): nat { |t.arr| + |t.keys| }

  function EntryKey(t: Table, p: nat): Item
    requires p < Total(t)
  {
    if p < |t.arr| then Num(p + 1) else t.keys[p - |t.arr|]
  }

  function EntryValue(t: Table, p: nat): Item
    requires p < Total(t)
  {
    if p < |t.arr| then t.arr[p] else HashGet(t, t.keys[p - |t.arr|])
  }

  // The first entry from p on that has a value.
  function Scan(t: Table, p: nat): (q: nat)
    requires p <= Total(t)
    ensures p <= q <= Total(t)
    ensures q < Total(t) ==> EntryValue(t, q) != Nil
    ensures forall r :: p <= r < q ==> EntryValue(t, r) == Nil
    decreases Total(t) - p
  {
    if p == Total(t) || EntryValue(t, p) != Nil then p else Scan(t, p + 1)
  }

  // Where the search behind a cursor starts.  A hash key that is not listed counts as position 0.
  function Start(t: Table, cursor: Item): (p: nat)
    ensures p <= Total(t)
  {
    if cursor == Nil then 0
    else if InArray(t, cursor) then cursor.n
    else if t.keys == [] then |t.arr|
    else |t.arr| + 1 + (if cursor in t.keys then IndexOf(t.keys, cursor) else 0)
  }

  function LiveKeys(t: Table, keys: seq<Item>): (live: seq<Item>)
    ensures |live| <= |keys|
    ensures forall k :: k in live <==> k in keys && k in t.hash
  {
    if keys == [] then []
    else
      var last := keys[|keys| - 1];
      LiveKeys(t, keys[..|keys| - 1]) + if last in t.hash then [last] else []
  }

  // compactNextIterationState
  function Compacted(t: Table): Table
  {
    if t.iterated == {} then t else t.(keys := LiveKeys(t, t.keys), iterated := {})
  }

  function CompactCost(t: Table): nat { if t.iterated == {} then 0 else |t.keys| }

  // Entry q is returned: a hash key is marked.
  function Found(t: Table, q: nat): Table
    requires q < Total(t)
  {
    if q < |t.arr| then t else t.(iterated := t.iterated + {EntryKey(t, q)})
  }

  datatype Yield = Yield(key: Item, value: Item, table: Table, cost: nat)

  // NextWithCost
  function Next(t: Table, cursor: Item): Yield
  {
    var p := Start(t, cursor);
    var q := Scan(t, p);
    if q == Total(t) then Yield(Nil, Nil, Compacted(t), q - p + CompactCost(t))
    else if EntryKey(t, q) == Nil then Yield(Nil, Nil, Compacted(Found(t, q)), q + 1 - p + CompactCost(Found(t, q)))
    else Yield(EntryKey(t, q), EntryValue(t, q), Found(t, q), q + 1 - p)
  }

  // Whatever the cursor: a yielded key has a value at that moment, and it is the one yielded.
  lemma NextYieldsLive(t: Table, cursor: Item)
    requires Inv(t)
    ensures var y := Next(t, cursor);
            (y.key != Nil ==> y.value == Lookup(t, y.key) != Nil) &&
            (Nil !in t.hash && y.key == Nil ==>
               forall p :: Start(t, cursor) <= p < Total(t) ==> EntryValue(t, p) == Nil)
  {
  }

  // ----- changes between two steps -----

  datatype Change = Delete(k: Item) | Overwrite(k: Item, v: Item)

  function Apply(t: Table, c: Change): Table
  {
    if c.Delete? then Set(t, c.k, Nil) else Set(t, c.k, c.v)
  }

  // A hash key that has come within reach of the array part moves there when it is written.
  predicate MovesWhenSet(t: Table, k: Item)
  {
    k in t.hash && k.Num? && StoredInArray(t, k.n)
  }

  // Any key may be deleted; a key with a value may be overwritten where it is.
  predicate Allowed(t: Table, c: Change)
  {
    c.Overwrite? ==> c.v != Nil && Lookup(t, c.k) != Nil && !MovesWhenSet(t, c.k)
  }

  // The traversal has passed the entries before p, the last of which is the cursor.
  ghost predicate At(t: Table, cursor: Item, p: nat)
  {
    && p <= Total(t)
    && (forall j :: 0 <= j < p - |t.arr| ==> t.keys[j] in t.iterated)
    && (if p == 0 then cursor == Nil
        else cursor == EntryKey(t, p - 1) && cursor != Nil && (p > |t.arr| ==> !InArray(t, cursor)))
  }

  lemma {:induction false} IndexUnique(keys: seq<Item>, i: nat)
    requires i < |keys| && NoRepeats(keys)
    ensures IndexOf(keys, keys[i]) == i
  {
    var j := IndexOf(keys, keys[i]);
    assert keys[i] in keys;
  }

  lemma AtStarts(t: Table, cursor: Item, p: nat)
    requires Inv(t) && At(t, cursor, p)
    ensures Start(t, cursor) == p
  {
    if p > |t.arr| {
      IndexUnique(t.keys, p - 1 - |t.arr|);
    }
  }

  // Keys passed so far.
  predicate Passed(t: Table, p: nat, k: Item)
    requires p <= Total(t)
  {
    (InArray(t, k) && k.n <= p) || exists j :: 0 <= j < p - |t.arr| && t.keys[j] == k
  }

  // An allowed change leaves the array part as long as it was, and touches one hash entry at most.
  lemma ChangeShape(t: Table, c: Change) returns (arr: seq<Item>, v: Item)
    requires Inv(t) && Allowed(t, c)
    ensures |arr| == |t.arr| && Apply(t, c) == SetHash(t.(arr := arr), c.k, v)
    ensures v != Nil ==> c.k in t.hash
  {
    arr, v := t.arr, if c.Delete? then Nil else c.v;
    assert t.(arr := t.arr) == t;
    if c.k.Num? && InArray(t, c.k) {
      arr, v := t.arr[c.k.n - 1 := v], Nil;
    }
    hide Listed, Without;
  }

  lemma WithoutLater(keys: seq<Item>, k: Item, m: nat)
    requires m <= |keys| && k !in keys[..m]
    ensures m <= |Without(keys, k)| && Without(keys, k)[..m] == keys[..m] && |Without(keys, k)| <= |keys|
  {
    var i := IndexOf(keys, k);
    forall j | 0 <= j < m ensures keys[j] != k {
      assert keys[j] in keys[..m];
    }
    assert m <= i;
  }

  ghost predicate SamePlace(t: Table, u: Table, m: nat)
  {
    && |u.arr| == |t.arr| && u.iterated == t.iterated
    && m <= |u.keys| <= |t.keys| && u.keys[..m] == t.keys[..m]
  }

  function Listing(t: Table, p: nat): nat { if p > |t.arr| then p - |t.arr| else 0 }

  lemma PlaceKept(t: Table, u: Table, cursor: Item, p: nat)
    requires At(t, cursor, p) && SamePlace(t, u, Listing(t, p))
    ensures At(u, cursor, p) && Total(u) <= Total(t)
    ensures forall k :: Passed(u, p, k) <==> Passed(t, p, k)
  {
    var m := Listing(t, p);
    forall j | 0 <= j < m ensures u.keys[j] == t.keys[j] {
      assert u.keys[..m][j] == t.keys[..m][j];
    }
  }

  lemma ChangePlace(t: Table, c: Change, cursor: Item, p: nat)
    requires Inv(t) && Allowed(t, c) && At(t, cursor, p)
    ensures SamePlace(t, Apply(t, c), Listing(t, p))
    ensures Nil !in t.hash ==> Nil !in Apply(t, c).hash
  {
    var arr, v := ChangeShape(t, c);
    hide Set, Apply, Allowed;
    var m := Listing(t, p);
    assert c.k in t.iterated || c.k !in t.keys[..m];
    if v == Nil && c.k !in t.iterated {
      WithoutLater(t.keys, c.k, m);
    }
    hide Without, InArray;
    assert Inv(t) ==> forall k :: k in t.hash ==> k in t.keys;
  }

  // What is passed stays passed, and the cursor keeps its place.
  lemma ChangeKeeps(t: Table, c: Change, cursor: Item, p: nat)
    requires Inv(t) && Allowed(t, c) && At(t, cursor, p) && Nil !in t.hash
    ensures var u := Apply(t, c);
            && Inv(u) && At(u, cursor, p) && Nil !in u.hash && Total(u) <= Total(t) && |u.keys| <= |t.keys|
            && (forall k :: Passed(u, p, k) <==> Passed(t, p, k))
            && (forall k :: Lookup(u, k) == if k == c.k then (if c.Delete? then Nil else c.v) else Lookup(t, k))
  {
    SetIsUpdate(t, c.k, if c.Delete? then Nil else c.v);
    ChangePlace(t, c, cursor, p);
    hide Set, Inv, Lookup, Passed;
    PlaceKept(t, Apply(t, c), cursor, p);
  }

  // ----- one step -----

  // A step keeps the invariant and every value.
  lemma NextKeeps(t: Table, cursor: Item)
    requires Inv(t)
    ensures Inv(Next(t, cursor).table)
    ensures Next(t, cursor).table.arr == t.arr && Next(t, cursor).table.hash == t.hash
  {
    hide Inv, Compacted, Start, Scan, EntryKey, EntryValue;
    var q := Scan(t, Start(t, cursor));
    if q < Total(t) {
      MarkKeeps(t, q);
      CompactedKeeps(Found(t, q));
    } else {
      CompactedKeeps(t);
    }
  }

  lemma MarkKeeps(t: Table, q: nat)
    requires Inv(t) && q < Total(t)
    ensures Inv(Found(t, q))
  {
    assert Listed(Found(t, q).hash, Found(t, q).keys, Found(t, q).iterated);
  }

  lemma {:induction false} LiveDistinct(t: Table, keys: seq<Item>)
    requires NoRepeats(keys)
    ensures NoRepeats(LiveKeys(t, keys))
  {
    if keys != [] {
      var rest := keys[..|keys| - 1];
      LiveDistinct(t, rest);
      var last := keys[|keys| - 1];
      assert last !in rest && last !in LiveKeys(t, rest);
      assert LiveKeys(t, keys) == LiveKeys(t, rest) + if last in t.hash then [last] else [];
      hide LiveKeys;
    }
  }

  // Exactly the hash keys that have a value are listed, and none is marked.
  ghost predicate Tidy(t: Table)
  {
    Inv(t) && t.iterated == {} && forall k :: k in t.keys <==> k in t.hash
  }

  // Compacting drops exactly the keys without a value.
  lemma CompactedKeeps(t: Table)
    requires Inv(t)
    ensures var c := Compacted(t);
            Tidy(c) && c.hash == t.hash && c.arr == t.arr
  {
    assert Listed(t.hash, t.keys, t.iterated);
    if t.iterated != {} {
      LiveDistinct(t, t.keys);
      var live := LiveKeys(t, t.keys);
      assert forall k :: k in t.hash ==> k in live;
      assert Listed(t.hash, live, {});
    }
  }

  lemma FoundKeeps(t: Table, cursor: Item, p: nat, q: nat)
    requires Inv(t) && At(t, cursor, p) && Nil !in t.hash && q == Scan(t, p) < Total(t)
    ensures Inv(Found(t, q)) && At(Found(t, q), EntryKey(t, q), q + 1)
  {
    hide Scan;
    var u := Found(t, q);
    assert Listed(u.hash, u.keys, u.iterated);
    hide Listed;
    forall j | 0 <= j < q + 1 - |t.arr| ensures t.keys[j] in u.iterated {
      if p - |t.arr| <= j < q - |t.arr| {
        assert EntryValue(t, j + |t.arr|) == Nil;
        StaleListed(t, j);
      }
    }
  }

  lemma StaleListed(t: Table, j: nat)
    requires Inv(t) && j < |t.keys| && HashGet(t, t.keys[j]) == Nil
    ensures t.keys[j] in t.iterated
  {
  }

  lemma FoundNext(t: Table, cursor: Item, p: nat)
    requires Inv(t) && At(t, cursor, p) && Nil !in t.hash
    ensures var q := Scan(t, p);
            if q < Total(t) then
              Next(t, cursor) == Yield(EntryKey(t, q), EntryValue(t, q), Found(t, q), q + 1 - p)
            else Next(t, cursor) == Yield(Nil, Nil, Compacted(t), q - p + CompactCost(t))
  {
    AtStarts(t, cursor, p);
  }

  // The key found was not passed before, and what is passed now was passed before or has no value.
  lemma FoundPasses(t: Table, cursor: Item, p: nat, q: nat, k: Item)
    requires Inv(t) && At(t, cursor, p) && q == Scan(t, p) < Total(t)
    ensures k == EntryKey(t, q) ==> !Passed(t, p, k) && Passed(Found(t, q), q + 1, k)
    ensures Passed(t, p, k) ==> Passed(Found(t, q), q + 1, k)
    ensures Passed(Found(t, q), q + 1, k) && k != EntryKey(t, q) && !Passed(t, p, k) ==> Lookup(t, k) == Nil
  {
    hide Scan;
    if k == EntryKey(t, q) {
      KeyNotPassed(t, p, q);
    } else if Passed(Found(t, q), q + 1, k) && !Passed(t, p, k) {
      NotPassedDead(t, p, q, k);
    }
  }

  lemma KeyNotPassed(t: Table, p: nat, q: nat)
    requires Inv(t) && p <= q < Total(t) && EntryValue(t, q) != Nil
    ensures !Passed(t, p, EntryKey(t, q)) && Passed(Found(t, q), q + 1, EntryKey(t, q))
  {
    if q >= |t.arr| {
      assert Found(t, q).keys[q - |t.arr|] == EntryKey(t, q);
    }
  }

  lemma NotPassedDead(t: Table, p: nat, q: nat, k: Item)
    requires Inv(t) && p <= q <= Total(t) && !Passed(t, p, k)
    requires forall r :: p <= r < q ==> EntryValue(t, r) == Nil
    requires (InArray(t, k) && k.n <= q) || exists j :: 0 <= j < q - |t.arr| && t.keys[j] == k
    ensures Lookup(t, k) == Nil
  {
    if InArray(t, k) && k.n <= q {
      assert EntryValue(t, k.n - 1) == Nil;
    } else {
      var j :| 0 <= j < q - |t.arr| && t.keys[j] == k;
      assert EntryValue(t, j + |t.arr|) == Nil;
    }
  }

  lemma EndPasses(t: Table, p: nat, k: Item)
    requires Inv(t) && p <= Total(t) && Scan(t, p) == Total(t) && !Passed(t, p, k)
    ensures Lookup(t, k) == Nil
  {
    hide Scan;
    if Lookup(t, k) != Nil {
      assert InArray(t, k) || k in t.keys;
      NotPassedDead(t, p, Total(t), k);
    }
  }

  // ----- whole traversals -----

  // The keys returned, the table at the end, whether the end was reached, and the cost of all steps.
  datatype Trip = Trip(seen: seq<Item>, table: Table, finished: bool, cost: nat)

  function ApplyAll(t: Table, cs: seq<Change>): Table
    decreases |cs|
  {
    if cs == [] then t else ApplyAll(Apply(t, cs[0]), cs[1..])
  }

  predicate AllAllowed(t: Table, cs: seq<Change>)
    decreases |cs|
  {
    cs != [] ==> Allowed(t, cs[0]) && AllAllowed(Apply(t, cs[0]), cs[1..])
  }

  // Repeated `next`; batches[i] are the changes before step i.
  function Travel(t: Table, cursor: Item, batches: seq<seq<Change>>): Trip
    decreases |batches|
  {
    if batches == [] then Trip([], t, false, 0)
    else
      var y := Next(ApplyAll(t, batches[0]), cursor);
      if y.key == Nil then Trip([], y.table, true, y.cost)
      else
        var rest := Travel(y.table, y.key, batches[1..]);
        Trip([y.key] + rest.seen, rest.table, rest.finished, y.cost + rest.cost)
  }

  predicate TravelAllowed(t: Table, cursor: Item, batches: seq<seq<Change>>)
    decreases |batches|
  {
    if batches == [] then true
    else
      && AllAllowed(t, batches[0])
      && var y := Next(ApplyAll(t, batches[0]), cursor);
      && (y.key != Nil ==> TravelAllowed(y.table, y.key, batches[1..]))
  }

  predicate Deletes(batches: seq<seq<Change>>, k: Item)
  {
    exists i :: 0 <= i < |batches| && Delete(k) in batches[i]
  }

  lemma {:induction false} BatchKeeps(t: Table, cs: seq<Change>, cursor: Item, p: nat, k: Item)
    requires Inv(t) && AllAllowed(t, cs) && At(t, cursor, p) && Nil !in t.hash
    ensures var u := ApplyAll(t, cs);
            && Inv(u) && At(u, cursor, p) && Nil !in u.hash && Total(u) <= Total(t) && |u.keys| <= |t.keys|
            && (Passed(u, p, k) <==> Passed(t, p, k))
            && (Lookup(t, k) != Nil && Delete(k) !in cs ==> Lookup(u, k) != Nil)
    decreases |cs|
  {
    if cs != [] {
      ChangeKeeps(t, cs[0], cursor, p);
      hide Inv, At, Apply, Passed, Allowed, Lookup;
      BatchKeeps(Apply(t, cs[0]), cs[1..], cursor, p, k);
      assert forall c :: c in cs[1..] ==> c in cs;
    }
  }

  lemma FoundStep(t: Table, cursor: Item, p: nat, k: Item)
    requires Inv(t) && At(t, cursor, p) && Nil !in t.hash && Next(t, cursor).key != Nil
    ensures
      var y, next := Next(t, cursor), Scan(t, p) + 1;
      && Inv(y.table) && At(y.table, y.key, next) && Nil !in y.table.hash
      && p < next <= Total(y.table) == Total(t) && |y.table.keys| == |t.keys| && y.cost == next - p
      && (k == y.key ==> !Passed(t, p, k) && Passed(y.table, next, k))
      && (Passed(t, p, k) ==> Passed(y.table, next, k))
      && Lookup(y.table, k) == Lookup(t, k)
      && (Lookup(t, k) != Nil && !Passed(t, p, k) && k != y.key ==> !Passed(y.table, next, k))
  {
    hide Inv, Passed, Scan, At, Lookup, EntryKey, EntryValue, Found, Compacted;
    FoundNext(t, cursor, p);
    hide Next;
    var q := Scan(t, p);
    FoundSame(t, q, k);
    FoundKeeps(t, cursor, p, q);
    FoundPasses(t, cursor, p, q, k);
  }

  lemma FoundSame(t: Table, q: nat, k: Item)
    requires q < Total(t)
    ensures var f := Found(t, q);
            f.arr == t.arr && f.keys == t.keys && f.hash == t.hash && Lookup(f, k) == Lookup(t, k)
  {
  }

  // One batch of changes and the step behind it: what it returns, and what that means for the key k.
  lemma TravelFound(t: Table, cursor: Item, p: nat, cs: seq<Change>, k: Item) returns (next: nat)
    requires Inv(t) && At(t, cursor, p) && Nil !in t.hash && AllAllowed(t, cs)
    requires Next(ApplyAll(t, cs), cursor).key != Nil
    ensures
      var y := Next(ApplyAll(t, cs), cursor);
      && Inv(y.table) && At(y.table, y.key, next) && Nil !in y.table.hash
      && p < next <= Total(y.table) <= Total(t) && |y.table.keys| <= |t.keys| && y.cost == next - p
      && (k == y.key ==> !Passed(t, p, k) && Passed(y.table, next, k))
      && (Passed(t, p, k) ==> Passed(y.table, next, k))
      && (Lookup(t, k) != Nil && Delete(k) !in cs && !Passed(t, p, k) && k != y.key ==>
            Lookup(y.table, k) != Nil && !Passed(y.table, next, k))
  {
    hide Inv, Passed, Scan, Next, ApplyAll, AllAllowed, At, Lookup;
    var u := ApplyAll(t, cs);
    BatchKeeps(t, cs, cursor, p, k);
    FoundStep(u, cursor, p, k);
    next := Scan(u, p) + 1;
  }

  lemma TravelDone(t: Table, cursor: Item, p: nat, cs: seq<Change>, k: Item)
    requires Inv(t) && At(t, cursor, p) && Nil !in t.hash && AllAllowed(t, cs)
    requires Next(ApplyAll(t, cs), cursor).key == Nil
    ensures
      var y := Next(ApplyAll(t, cs), cursor);
      && Tidy(y.table)
      && y.cost <= Total(t) - p + |t.keys|
      && (Lookup(t, k) != Nil && Delete(k) !in cs ==> Passed(t, p, k))
  {
    var u := ApplyAll(t, cs);
    BatchKeeps(t, cs, cursor, p, k);
    FoundNext(u, cursor, p);
    if Scan(u, p) < Total(u) {
      KeyNotNil(u, Scan(u, p));
    }
    hide Inv, Passed, Scan, Next, ApplyAll, AllAllowed, At, Lookup, Compacted;
    CompactedKeeps(u);
    if !Passed(u, p, k) {
      EndPasses(u, p, k);
    }
  }

  lemma KeyNotNil(t: Table, q: nat)
    requires Nil !in t.hash && q < Total(t) && EntryValue(t, q) != Nil
    ensures EntryKey(t, q) != Nil
  {
  }

  // From the key's point of view: a key that is returned was not passed, and a key that is not passed
  // and keeps a value is returned before the end is reached.
  lemma {:induction false} TravelKeeps(t: Table, cursor: Item, p: nat, batches: seq<seq<Change>>, k: Item)
    requires Inv(t) && At(t, cursor, p) && Nil !in t.hash && TravelAllowed(t, cursor, batches)
    ensures var trip := Travel(t, cursor, batches);
            && (k in trip.seen ==> !Passed(t, p, k))
            && (trip.finished && Lookup(t, k) != Nil && !Deletes(batches, k) && !Passed(t, p, k) ==> k in trip.seen)
    decreases |batches|
  {
    if batches != [] {
      var y := Next(ApplyAll(t, batches[0]), cursor);
      assert Delete(k) in batches[0] ==> Deletes(batches, k);
      hide Inv, At, Passed, Lookup, Next, ApplyAll, AllAllowed;
      if y.key != Nil {
        assert Deletes(batches[1..], k) ==> Deletes(batches, k) by {
          if i :| 0 <= i < |batches[1..]| && Delete(k) in batches[1..][i] {
            assert Delete(k) in batches[i + 1];
          }
        }
        hide Deletes;
        var next := TravelFound(t, cursor, p, batches[0], k);
        TravelKeeps(y.table, y.key, next, batches[1..], k);
      } else {
        TravelDone(t, cursor, p, batches[0], k);
      }
    }
  }

  // No key is returned twice, the traversal is short, and at the end no key without a value is listed.
  lemma {:induction false} TravelEnds(t: Table, cursor: Item, p: nat, batches: seq<seq<Change>>)
    requires Inv(t) && At(t, cursor, p) && Nil !in t.hash && TravelAllowed(t, cursor, batches)
    ensures var trip := Travel(t, cursor, batches);
            && NoRepeats(trip.seen)
            && (|batches| > Total(t) - p ==> trip.finished)
            && trip.cost <= Total(t) - p + |t.keys|
            && (trip.finished ==> Tidy(trip.table))
    decreases |batches|
  {
    if batches != [] {
      var y := Next(ApplyAll(t, batches[0]), cursor);
      hide Inv, At, Passed, Lookup, Next, ApplyAll, AllAllowed;
      if y.key != Nil {
        var next := TravelFound(t, cursor, p, batches[0], y.key);
        TravelEnds(y.table, y.key, next, batches[1..]);
        TravelKeeps(y.table, y.key, next, batches[1..], y.key);
      } else {
        TravelDone(t, cursor, p, batches[0], Nil);
      }
    }
  }

  // A traversal from the start, with any deletions and any overwriting in place between its steps:
  // it reaches its end within as many steps as there are entries, and one; it returns no key twice,
  // and every key that has a value at the start and is not deleted; and at the end the list holds
  // exactly the hash keys that have a value.
  lemma TraversalIsComplete(t: Table, batches: seq<seq<Change>>, k: Item)
    requires Inv(t) && Nil !in t.hash && TravelAllowed(t, Nil, batches)
    ensures var trip := Travel(t, Nil, batches);
            && NoRepeats(trip.seen)
            && (|batches| > |t.arr| + |t.keys| ==> trip.finished)
            && (trip.finished && Lookup(t, k) != Nil && !Deletes(batches, k) ==> k in trip.seen)
            && (trip.finished ==> Tidy(trip.table))
            && trip.cost <= |t.arr| + 2 * |t.keys|
  {
    TravelEnds(t, Nil, 0, batches);
    TravelKeeps(t, Nil, 0, batches, k);
    assert !Passed(t, 0, k);
  }

  // Overwriting a hash key that has come within reach of the array part moves it there: behind key 66
  // the traversal then starts over with the first hash key, which was returned already.
  function Straddling(v: Item): Table
  {
    Table(Nils(65)[64 := v], map[Str("x") := v, Num(66) := v], [Str("x"), Num(66)], {})
  }

  lemma OverwriteRepeats(v: Item, w: Item)
    requires v != Nil && w != Nil
    ensures
      var t := Straddling(v);
      var first := Next(t, Num(65));
      var second := Next(first.table, first.key);
      && Inv(t) && first.key == Str("x") && second.key == Num(66)
      && Next(Set(second.table, Num(66), w), Num(66)).key == Str("x")
  {
    var t := Straddling(v);
    assert Inv(t);
    var first := Next(t, Num(65));
    assert first.key == Str("x");
    assert IndexOf(t.keys, Str("x")) == 0;
    var second := Next(first.table, first.key);
    assert second.key == Num(66);
    assert second.table == t.(iterated := {Str("x"), Num(66)});
    RewrittenRestarts(second.table, v, w);
    hide Next, Set;
  }

  lemma RewrittenRestarts(s: Table, v: Item, w: Item)
    requires v != Nil && w != Nil && s == Straddling(v).(iterated := {Str("x"), Num(66)})
    ensures Next(Set(s, Num(66), w), Num(66)).key == Str("x")
  {
    var wide := s.(arr := s.arr + Nils(1));
    var g := Moved(wide, 66);
    assert Migrate(wide, 66, 66) == g;
    var u := SetHash(g.(arr := g.arr[65 := w]), Num(66), Nil);
    assert Set(s, Num(66), w) == u;
    hide Migrate, Set;
    assert |u.arr| == 66 && u.keys == s.keys && HashGet(u, Str("x")) == v;
    hide SetHash, Moved;
    assert Scan(u, 66) == 66;
  }
}
