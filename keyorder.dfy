/** The order in which a .NET `Dictionary<TKey, TValue>` enumerates its keys.
    The dictionary keeps its entries in an array. `Add` reuses the entry most
    recently emptied by `Remove`, if there is one, and otherwise appends a
    new entry. `Remove` empties the key's entry and pushes its index on a
    free list. `Clear` empties the array and the free list. The enumerator
    walks the array from index 0 and skips empty entries. Growing the array
    copies it in order, so it does not change the order. */
module KeyOrder {
  import opened Wrappers
  import opened Vectors

  /** The entry array, `None` meaning an empty entry, and the free list,
      most recently freed index first. */
  datatype Slots = Slots(entries: seq<Option<Vec>>, free: seq<nat>)

  /** A new or cleared dictionary. */
  const Empty: Slots := Slots([], [])

  predicate NoDup<T(==)>(s: seq<T>) {
    forall i, j :: 0 <= i < j < |s| ==> s[i] != s[j]
  }

  function SetOf(s: seq<Vec>): set<Vec> {
    set c | c in s
  }

  /** Every key sits in one entry only. */
  predicate DistinctEntries(entries: seq<Option<Vec>>) {
    forall i, j :: 0 <= i < j < |entries| && entries[i].Some? ==> entries[i] != entries[j]
  }

  /** `d` holds exactly `keys`, each in one entry, and its free list names
      distinct empty entries. */
  ghost predicate Wellformed(d: Slots, keys: set<Vec>) {
    DistinctEntries(d.entries) &&
    (forall k :: k in keys <==> Some(k) in d.entries) &&
    (forall i :: 0 <= i < |d.free| ==> d.free[i] < |d.entries| && d.entries[d.free[i]].None?) &&
    NoDup(d.free)
  }

  /** The keys in the order the enumerator yields them. */
  function Order(entries: seq<Option<Vec>>): seq<Vec> {
    if entries == [] then []
    else
      var rest := Order(entries[1..]);
      match entries[0]
      case None => rest
      case Some(k) => [k] + rest
  }

  /** The enumerator yields exactly the keys in the entries. */
  lemma {:induction false} OrderMembers(entries: seq<Option<Vec>>)
    ensures forall k :: k in Order(entries) <==> Some(k) in entries
    decreases |entries|
  {
    if entries != [] {
      OrderMembers(entries[1..]);
      assert forall e :: e in entries <==> e == entries[0] || e in entries[1..];
    }
  }

  /** `Add(k, value)` for a key not yet present. A free list that names an
      entry outside the array does not occur in a wellformed dictionary; the
      model then leaves the dictionary as it is. */
  function Insert(d: Slots, k: Vec): Slots {
    if d.free == [] then Slots(d.entries + [Some(k)], [])
    else if d.free[0] < |d.entries| then Slots(d.entries[d.free[0] := Some(k)], d.free[1..])
    else d
  }

  /** The index of the entry holding `k`. */
  function IndexOf(entries: seq<Option<Vec>>, k: Vec): (r: Option<nat>)
    ensures r.Some? ==> r.value < |entries| && entries[r.value] == Some(k)
    ensures r.None? ==> Some(k) !in entries
  {
    if entries == [] then None
    else if entries[0] == Some(k) then Some(0)
    else
      match IndexOf(entries[1..], k)
      case None => None
      case Some(i) => Some(i + 1)
  }

  /** `Remove(k)`: the entry of `k` is emptied and goes to the head of the
      free list; an absent key changes nothing. */
  function Delete(d: Slots, k: Vec): Slots {
    match IndexOf(d.entries, k)
    case None => d
    case Some(i) => Slots(d.entries[i := None], [i] + d.free)
  }

  /** `Add` of each key in turn. */
  function InsertAll(d: Slots, ks: seq<Vec>): Slots
    decreases |ks|
  {
    if ks == [] then d else Insert(InsertAll(d, ks[..|ks| - 1]), ks[|ks| - 1])
  }

  /** `Remove` of each key in turn. */
  function DeleteAll(d: Slots, ks: seq<Vec>): Slots
    decreases |ks|
  {
    if ks == [] then d else Delete(DeleteAll(d, ks[..|ks| - 1]), ks[|ks| - 1])
  }

  /** Adding a new key keeps the dictionary wellformed and adds the key. */
  lemma InsertWellformed(d: Slots, keys: set<Vec>, k: Vec)
    requires Wellformed(d, keys) && k !in keys
    ensures Wellformed(Insert(d, k), keys + {k})
  {
    var e := d.entries;
    if d.free == [] {
      var e' := e + [Some(k)];
      assert forall x :: x in e' <==> x in e || x == Some(k);
      forall i, j | 0 <= i < j < |e'| && e'[i].Some? ensures e'[i] != e'[j] {
        if j == |e| {
          assert e'[i] == e[i] && e[i] in e;
        }
      }
    } else {
      var f := d.free[0];
      var e' := e[f := Some(k)];
      assert e'[f] == Some(k);
      forall k' ensures k' in keys + {k} <==> Some(k') in e' {
        if Some(k') in e' && k' != k {
          var i :| 0 <= i < |e'| && e'[i] == Some(k');
          assert e[i] == Some(k') && e[i] in e;
        }
        if k' in keys {
          var i :| 0 <= i < |e| && e[i] == Some(k');
          assert i != f;
          assert e'[i] == Some(k');
        }
      }
      forall i, j | 0 <= i < j < |e'| && e'[i].Some? ensures e'[i] != e'[j] {
        if i == f {
          assert e[j] in e;
        } else if j == f {
          assert e[i] in e;
        }
      }
      forall i | 0 <= i < |d.free[1..]| ensures d.free[1..][i] < |e'| && e'[d.free[1..][i]].None? {
        assert d.free[1..][i] == d.free[i + 1] != f;
      }
    }
  }

  /** Removing a key keeps the dictionary wellformed and removes the key. */
  lemma DeleteWellformed(d: Slots, keys: set<Vec>, k: Vec)
    requires Wellformed(d, keys)
    ensures Wellformed(Delete(d, k), keys - {k})
  {
    var e := d.entries;
    match IndexOf(e, k)
    case None =>
    case Some(i) =>
      var e' := e[i := None];
      forall k' ensures k' in keys - {k} <==> Some(k') in e' {
        if Some(k') in e' {
          var j :| 0 <= j < |e'| && e'[j] == Some(k');
          assert e[j] == Some(k');
        }
        if k' in keys - {k} {
          var j :| 0 <= j < |e| && e[j] == Some(k');
          assert e'[j] == Some(k');
        }
      }
      forall n | 0 <= n < |d.free| ensures d.free[n] != i {
        assert e[d.free[n]].None?;
      }
      forall n | 0 <= n < |[i] + d.free| ensures ([i] + d.free)[n] < |e'| && e'[([i] + d.free)[n]].None? {
        if n > 0 {
          assert ([i] + d.free)[n] == d.free[n - 1];
        }
      }
      forall m, n | 0 <= m < n < |[i] + d.free| ensures ([i] + d.free)[m] != ([i] + d.free)[n] {
        assert ([i] + d.free)[n] == d.free[n - 1];
        if m > 0 {
          assert ([i] + d.free)[m] == d.free[m - 1];
        }
      }
  }

  /** Adding one more key. */
  lemma InsertAllSnoc(d: Slots, ks: seq<Vec>, k: Vec)
    ensures InsertAll(d, ks + [k]) == Insert(InsertAll(d, ks), k)
  {
    assert (ks + [k])[..|ks|] == ks;
  }

  lemma {:induction false} InsertAllAppend(d: Slots, a: seq<Vec>, b: seq<Vec>)
    ensures InsertAll(d, a + b) == InsertAll(InsertAll(d, a), b)
    decreases |b|
  {
    if b == [] {
      assert a + b == a;
    } else {
      var b0 := b[..|b| - 1];
      assert (a + b)[..|a + b| - 1] == a + b0;
      InsertAllAppend(d, a, b0);
    }
  }

  /** Adding distinct new keys one by one keeps the dictionary wellformed. */
  lemma {:induction false} InsertAllWellformed(d: Slots, keys: set<Vec>, ks: seq<Vec>)
    requires Wellformed(d, keys)
    requires NoDup(ks)
    requires forall k :: k in ks ==> k !in keys
    ensures Wellformed(InsertAll(d, ks), keys + SetOf(ks))
    decreases |ks|
  {
    if ks != [] {
      var init := ks[..|ks| - 1];
      var last := ks[|ks| - 1];
      assert forall k :: k in init ==> k in ks;
      InsertAllWellformed(d, keys, init);
      assert last !in SetOf(init) by {
        forall i | 0 <= i < |init| ensures init[i] != last {
          assert ks[i] != ks[|ks| - 1];
        }
      }
      assert last in ks;
      InsertWellformed(InsertAll(d, init), keys + SetOf(init), last);
      assert SetOf(ks) == SetOf(init) + {last} by {
        assert ks == init + [last];
      }
    }
  }

  /** Removing keys one by one keeps the dictionary wellformed. */
  lemma {:induction false} DeleteAllWellformed(d: Slots, keys: set<Vec>, ks: seq<Vec>)
    requires Wellformed(d, keys)
    ensures Wellformed(DeleteAll(d, ks), keys - SetOf(ks))
    decreases |ks|
  {
    if ks != [] {
      var init := ks[..|ks| - 1];
      var last := ks[|ks| - 1];
      DeleteAllWellformed(d, keys, init);
      DeleteWellformed(DeleteAll(d, init), keys - SetOf(init), last);
      assert SetOf(ks) == SetOf(init) + {last} by {
        assert ks == init + [last];
      }
      assert keys - SetOf(init) - {last} == keys - SetOf(ks);
    }
  }

  /** The enumerator never yields a key twice. */
  lemma {:induction false} OrderNoDup(entries: seq<Option<Vec>>)
    requires DistinctEntries(entries)
    ensures NoDup(Order(entries))
    decreases |entries|
  {
    if entries != [] {
      var rest := entries[1..];
      assert DistinctEntries(rest) by {
        forall i, j | 0 <= i < j < |rest| && rest[i].Some? ensures rest[i] != rest[j] {
          assert rest[i] == entries[i + 1] && rest[j] == entries[j + 1];
        }
      }
      OrderNoDup(rest);
      OrderMembers(rest);
      if entries[0].Some? {
        var k := entries[0].value;
        assert Some(k) !in rest by {
          forall i | 0 <= i < |rest| ensures rest[i] != Some(k) {
            assert entries[0] != entries[i + 1];
          }
        }
        var r := Order(entries);
        assert r == [k] + Order(rest);
        forall i, j | 0 <= i < j < |r| ensures r[i] != r[j] {
          if i == 0 {
            assert r[j] == Order(rest)[j - 1] && r[j] in Order(rest);
          } else {
            assert r[i] == Order(rest)[i - 1] && r[j] == Order(rest)[j - 1];
          }
        }
      }
    }
  }

  lemma {:induction false} OrderAppend(a: seq<Option<Vec>>, b: seq<Option<Vec>>)
    ensures Order(a + b) == Order(a) + Order(b)
    decreases |a|
  {
    if a != [] {
      assert (a + b)[0] == a[0];
      assert (a + b)[1..] == a[1..] + b;
      OrderAppend(a[1..], b);
    } else {
      assert a + b == b;
    }
  }

  /** While no entry has been freed, `Add` appends. */
  lemma InsertAppends(d: Slots, k: Vec)
    requires d.free == []
    ensures Insert(d, k).free == []
    ensures Order(Insert(d, k).entries) == Order(d.entries) + [k]
  {
    OrderAppend(d.entries, [Some(k)]);
    assert Order([Some(k)]) == [k] by {
      assert [Some(k)][1..] == [];
    }
  }

  /** While no entry has been freed, the new keys are enumerated after the
      old ones, in the order they were added. */
  lemma {:induction false} AppendsWhenNoneFreed(d: Slots, ks: seq<Vec>)
    requires d.free == []
    ensures InsertAll(d, ks).free == []
    ensures Order(InsertAll(d, ks).entries) == Order(d.entries) + ks
    decreases |ks|
  {
    if ks != [] {
      var init := ks[..|ks| - 1];
      AppendsWhenNoneFreed(d, init);
      InsertAppends(InsertAll(d, init), ks[|ks| - 1]);
      assert Order(d.entries) + init + [ks[|ks| - 1]] == Order(d.entries) + ks;
    }
  }

  /** A dictionary that has only been added to enumerates its keys in the
      order they were added. */
  lemma FreshInsertionOrder(ks: seq<Vec>)
    ensures InsertAll(Empty, ks).free == []
    ensures Order(InsertAll(Empty, ks).entries) == ks
  {
    AppendsWhenNoneFreed(Empty, ks);
  }

  /** After a removal, the next key added takes the freed entry and so is
      enumerated where the removed key was, ahead of keys added earlier. */
  lemma ReusesFreedEntry(a: Vec, b: Vec, c: Vec)
    requires a != b
    ensures Order(Insert(Delete(InsertAll(Empty, [a, b]), a), c).entries) == [c, b]
  {
    FreshInsertionOrder([a, b]);
    assert [a, b][..1] == [a];
    assert [a][..0] == [];
    assert InsertAll(Empty, [a]) == Slots([Some(a)], []);
    assert InsertAll(Empty, [a, b]) == Slots([Some(a), Some(b)], []);
    assert IndexOf([Some(a), Some(b)], a) == Some(0);
    var e := [None, Some(b)];
    assert Delete(InsertAll(Empty, [a, b]), a) == Slots(e, [0]);
    assert e[0 := Some(c)] == [Some(c), Some(b)];
    assert Order([Some(c), Some(b)]) == [c] + Order([Some(b)]);
    assert [Some(b)][1..] == [];
  }
}
