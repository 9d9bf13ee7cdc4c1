/** The persistence port that every use case talks to, as an abstract store. */
module Store {
  import opened Outcomes

  /** No key occurs twice in `s`. */
  ghost predicate Distinct<K>(s: seq<K>) {
    forall i, j :: 0 <= i < j < |s| ==> s[i] != s[j]
  }

  /** `s` with the key `k` taken out. */
  function Without<K(==,!new)>(s: seq<K>, k: K): (r: seq<K>)
    ensures forall x :: x in r <==> x in s && x != k
    ensures Distinct(s) ==> Distinct(r)
  {
    if s == [] then []
    else if s[0] == k then Without(s[1..], k)
    else
      var rest := Without(s[1..], k);
      assert Distinct(s) ==> Distinct(s[1..]) && s[0] !in rest;
      [s[0]] + rest
  }

  /** The elements of `s` that `keep` accepts, in their order in `s`. */
  function Filter<E(!new)>(s: seq<E>, keep: E -> bool): (r: seq<E>)
    ensures |r| <= |s|
    ensures forall e :: e in r <==> e in s && keep(e)
  {
    if s == [] then []
    else if keep(s[0]) then [s[0]] + Filter(s[1..], keep)
    else Filter(s[1..], keep)
  }

  /** A list of distinct keys holding exactly the keys of `m` is as long as `m` is large. */
  lemma {:induction false} DistinctKeysCount<K(!new), E>(keys: seq<K>, m: map<K, E>)
    requires Distinct(keys)
    requires forall k :: k in m <==> k in keys
    ensures |m| == |keys|
  {
    if keys != [] {
      var rest := m - {keys[0]};
      assert forall k :: k in rest <==> k in keys[1..] by {
        forall k ensures k in rest <==> k in keys[1..] {
          if k in keys[1..] {
            var j :| 1 <= j < |keys| && keys[j] == k;
            assert keys[0] != keys[j];
          }
          assert k in keys ==> k == keys[0] || k in keys[1..];
        }
      }
      DistinctKeysCount(keys[1..], rest);
      assert m.Keys == rest.Keys + {keys[0]};
    } else {
      assert m.Keys == {};
    }
  }

  /** The persistence port of one entity: the records it holds, keyed by their
      identity, and the order in which they are enumerated. `save` is taken to be
      an upsert by identity, `delete` a removal by identity. */
  class Port<K(==,!new), E(==,!new)> {
    /** The identity of a record, under which `save` stores it. */
    const keyOf: E -> K
    var records: map<K, E>
    /** The keys of `records`, in first-insertion order. */
    var order: seq<K>

    /** Every record sits under its own identity, and `order` lists each key once. */
    ghost predicate Valid()
      reads this
    {
      && Distinct(order)
      && (forall k :: k in records <==> k in order)
      && (forall k :: k in records ==> keyOf(records[k]) == k)
    }

    /** An empty store whose records are identified by `keyOf`. */
    constructor (keyOf: E -> K)
      ensures Valid()
      ensures this.keyOf == keyOf && records == map[] && order == []
    {
      this.keyOf := keyOf;
      records := map[];
      order := [];
    }

    /** Inserts `e`, or replaces the record with the same identity; returns what it stored. */
    method Save(e: E) returns (saved: E)
      requires Valid()
      modifies this
      ensures Valid()
      ensures saved == e
      ensures records == old(records)[keyOf(e) := e]
      ensures order == if keyOf(e) in old(records) then old(order) else old(order) + [keyOf(e)]
    {
      var k := keyOf(e);
      if k !in records {
        order := order + [k];
      }
      records := records[k := e];
      saved := e;
    }

    /** Removes the record under `k`; answers whether there was one. */
    method Delete(k: K) returns (removed: bool)
      requires Valid()
      modifies this
      ensures Valid()
      ensures removed == (k in old(records))
      ensures records == old(records) - {k}
      ensures order == Without(old(order), k)
    {
      removed := k in records;
      records := records - {k};
      order := Without(order, k);
    }

    /** The record under `k`, or `None` where `findById` answers `null`. */
    function FindById(k: K): (r: Option<E>)
      reads this
      ensures r.Some? <==> k in records
      ensures r.Some? ==> r.value == records[k]
    {
      if k in records then Some(records[k]) else None
    }

    /** Every stored record once, in first-insertion order. */
    function FindAll(): (rows: seq<E>)
      reads this
      requires Valid()
      ensures |rows| == |records|
      ensures forall k :: k in records ==> records[k] in rows
      ensures forall e :: e in rows ==> e in records.Values
    {
      DistinctKeysCount(order, records);
      var m, keys := records, order;
      var rows := seq(|keys|, i requires 0 <= i < |keys| => m[keys[i]]);
      assert forall k :: k in m ==> m[k] in rows by {
        forall k | k in m ensures m[k] in rows {
          var i :| 0 <= i < |keys| && keys[i] == k;
          assert rows[i] == m[k];
        }
      }
      rows
    }

    /** The stored records that `keep` accepts, in first-insertion order. */
    function FindWhere(keep: E -> bool): (rows: seq<E>)
      reads this
      requires Valid()
      ensures forall k :: k in records && keep(records[k]) ==> records[k] in rows
      ensures forall e :: e in rows ==> e in records.Values && keep(e)
    {
      Filter(FindAll(), keep)
    }
  }
}
