/**
 * `#selectedElements` in frontend/src/hooks/useEditor.ts: a JavaScript `Map`
 * from identifier to the selected element and its canonical string. A `Map`
 * iterates in insertion order, and that order reaches the parent frame in
 * `selectedElementIds`, so the store is an ordered list of entries with
 * distinct identifiers: `set` on a present key replaces the entry in place,
 * on an absent key appends it; `delete` removes it and keeps the others in
 * order.
 */
module SelectionStore {
  import opened Options
  import opened Dom

  datatype Entry = Entry(id: string, element: Ref, domTreeString: string)

  type Store = seq<Entry>

  /** `Array.from(map.keys())`. */
  function Ids(s: Store): (ks: seq<string>)
    ensures |ks| == |s| && forall i :: 0 <= i < |s| ==> ks[i] == s[i].id
  {
    if s == [] then [] else [s[0].id] + Ids(s[1..])
  }

  /** No identifier occurs twice: what makes the list a map. */
  predicate DistinctIds(s: Store) {
    forall i, j :: 0 <= i < j < |s| ==> s[i].id != s[j].id
  }

  /** `map.has(id)`. */
  predicate Has(s: Store, id: string) {
    id in Ids(s)
  }

  /** `map.get(id)`. */
  function Get(s: Store, id: string): (r: Option<Entry>)
    ensures r.Some? <==> Has(s, id)
    ensures r.Some? ==> r.value in s && r.value.id == id
  {
    if s == [] then None
    else if s[0].id == id then Some(s[0])
    else Get(s[1..], id)
  }

  /** `map.set(e.id, e)`. */
  function Put(s: Store, e: Entry): (r: Store)
    ensures !Has(s, e.id) ==> r == s + [e]
    ensures Has(s, e.id) ==> Ids(r) == Ids(s)
  {
    if s == [] then [e]
    else if s[0].id == e.id then [e] + s[1..]
    else [s[0]] + Put(s[1..], e)
  }

  /** `map.delete(id)`. */
  function Delete(s: Store, id: string): (r: Store)
    ensures !Has(r, id)
    ensures forall x :: x in r <==> x in s && x.id != id
  {
    if s == [] then [] else (if s[0].id == id then [] else [s[0]]) + Delete(s[1..], id)
  }

  lemma {:induction false} PutMembers(s: Store, e: Entry)
    ensures forall x :: x in Put(s, e) ==> x == e || x in s
  {
    if s != [] && s[0].id != e.id {
      PutMembers(s[1..], e);
    }
  }

  /** After `set`, the key maps to the new entry and every other key keeps its entry. */
  lemma {:induction false} PutGet(s: Store, e: Entry, k: string)
    requires DistinctIds(s)
    ensures DistinctIds(Put(s, e))
    ensures Get(Put(s, e), k) == if k == e.id then Some(e) else Get(s, k)
  {
    if s != [] && s[0].id != e.id {
      PutGet(s[1..], e, k);
      PutMembers(s[1..], e);
      var r := Put(s, e);
      assert r == [s[0]] + Put(s[1..], e);
      forall i | 1 <= i < |r|
        ensures r[i].id != s[0].id
      {
        assert r[i] in Put(s[1..], e);
      }
    }
  }

  /** After `delete`, the key is gone and every other key keeps its entry. */
  lemma {:induction false} DeleteGet(s: Store, id: string, k: string)
    requires DistinctIds(s)
    ensures DistinctIds(Delete(s, id))
    ensures Get(Delete(s, id), k) == if k == id then None else Get(s, k)
  {
    if s != [] {
      DeleteGet(s[1..], id, k);
      var t := Delete(s[1..], id);
      if s[0].id != id {
        assert Delete(s, id) == [s[0]] + t;
        forall x | x in t
          ensures x.id != s[0].id
        {
          var m :| 0 <= m < |s[1..]| && s[1..][m] == x;
          assert s[m + 1] == x;
        }
        ConsDistinct(s[0], t);
      } else {
        assert Delete(s, id) == t;
      }
    }
  }

  /** An entry put in front of a map keeps the keys distinct when its key is new. */
  lemma ConsDistinct(e: Entry, t: Store)
    requires DistinctIds(t) && forall x :: x in t ==> x.id != e.id
    ensures DistinctIds([e] + t)
  {
    var r := [e] + t;
    forall i, j | 0 <= i < j < |r|
      ensures r[i].id != r[j].id
    {
      assert r[j] == t[j - 1];
      if i > 0 {
        assert r[i] == t[i - 1];
      }
    }
  }

  /** Setting an absent key and deleting it again gives back the same map, order included. */
  lemma {:induction false} PutThenDelete(s: Store, e: Entry)
    requires !Has(s, e.id)
    ensures Delete(Put(s, e), e.id) == s
  {
    if s != [] {
      PutThenDelete(s[1..], e);
    }
  }

  /** Deleting a present key and setting it again keeps the key set, that key moving to the end. */
  lemma DeleteThenPut(s: Store, e: Entry)
    requires Has(s, e.id)
    ensures Ids(Put(Delete(s, e.id), e)) == Ids(Delete(s, e.id)) + [e.id]
    ensures forall k :: k in Ids(Put(Delete(s, e.id), e)) <==> k in Ids(s)
  {
    var d := Delete(s, e.id);
    assert Put(d, e) == d + [e];
    IdsAppend(d, [e]);
    IdsFiltered(s, d, e.id);
  }

  /** The keys of a map filtered by key are its keys filtered the same way. */
  lemma IdsFiltered(s: Store, d: Store, id: string)
    requires forall x :: x in d <==> x in s && x.id != id
    ensures forall k :: k in Ids(d) <==> k in Ids(s) && k != id
  {
    forall k | k in Ids(s) && k != id
      ensures k in Ids(d)
    {
      var i :| 0 <= i < |s| && Ids(s)[i] == k;
      IdIn(d, s[i]);
    }
    forall k | k in Ids(d)
      ensures k in Ids(s) && k != id
    {
      var j :| 0 <= j < |d| && Ids(d)[j] == k;
      IdIn(s, d[j]);
    }
  }

  /** An entry's key is among the keys. */
  lemma IdIn(s: Store, x: Entry)
    requires x in s
    ensures x.id in Ids(s)
  {
    var i :| 0 <= i < |s| && s[i] == x;
    assert Ids(s)[i] == x.id;
  }

  /** After `set`, the keys are the old keys and the new one. */
  lemma PutIds(s: Store, e: Entry)
    ensures forall k :: k in Ids(Put(s, e)) <==> k in Ids(s) || k == e.id
  {
    if !Has(s, e.id) {
      IdsAppend(s, [e]);
    }
  }

  lemma IdsAppend(s: Store, t: Store)
    ensures Ids(s + t) == Ids(s) + Ids(t)
  {
  }
}
