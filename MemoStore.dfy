/**
 The memo store of the memopad application: a counter `count` that hands out
 memo ids and an ordered list `memos`, with getters for the list, its length
 and the lookup of a memo by id, and the two actions `save` (insert or
 replace) and `delete` (remove every memo with a given id).

 A memo id of 0 means "no id yet" (the falsy case of the store's `save`).
 Ids handed out by the store start at 1.
 */
module MemoStore {

  datatype Option<T> = None | Some(value: T)

  /** A memo record. The store only ever looks at `id`; the other fields are
      carried through unchanged. */
  datatype Memo = Memo(id: int, title: string, content: string)

  /** True iff no memo in `s` carries the id `id`. */
  ghost predicate Absent(s: seq<Memo>, id: int)
  {
    forall i :: 0 <= i < |s| ==> s[i].id != id
  }

  /** The invariant of a store whose every memo entered through `save`:
      ids lie in 1..count and no two memos share an id. */
  ghost predicate IdsValid(s: seq<Memo>, count: int)
  {
    && (forall i :: 0 <= i < |s| ==> 1 <= s[i].id <= count)
    && (forall i, j :: 0 <= i < j < |s| ==> s[i].id != s[j].id)
  }

  // ---------------------------------------------------------------------
  // Pure operations on the memo list (Array.prototype.findIndex, find and
  // filter as the store uses them).
  // ---------------------------------------------------------------------

  /** The index of the first memo whose id is `id`, or -1 when there is none. */
  function FindIndex(s: seq<Memo>, id: int): (r: int)
    ensures -1 <= r < |s|
    ensures r == -1 <==> Absent(s, id)
    ensures r != -1 ==> s[r].id == id && forall j :: 0 <= j < r ==> s[j].id != id
  {
    if s == [] then -1
    else if s[0].id == id then 0
    else
      var k := FindIndex(s[1..], id);
      if k == -1 then -1 else k + 1
  }

  /** The first memo whose id is `id`, if there is one. */
  function Find(s: seq<Memo>, id: int): (r: Option<Memo>)
    ensures r.None? <==> Absent(s, id)
    ensures r.Some? ==> r.value.id == id && r.value in s
    ensures r.Some? ==> exists i :: 0 <= i < |s| && s[i] == r.value && Absent(s[..i], id)
    ensures s == [] ==> r == None
  {
    var i := FindIndex(s, id);
    if i == -1 then None
    else
      assert Absent(s[..i], id);
      Some(s[i])
  }

  /** The memos of `s` whose id is not `id`, in their original order. */
  function RemoveId(s: seq<Memo>, id: int): (r: seq<Memo>)
    ensures |r| <= |s|
    ensures forall m :: m in r <==> m in s && m.id != id
  {
    if s == [] then []
    else if s[0].id == id then RemoveId(s[1..], id)
    else [s[0]] + RemoveId(s[1..], id)
  }

  // ---------------------------------------------------------------------
  // Lemmas about the list operations.
  // ---------------------------------------------------------------------

  /** Filtering keeps the relative order: it distributes over concatenation. */
  lemma {:induction false} RemoveIdAppend(a: seq<Memo>, b: seq<Memo>, id: int)
    ensures RemoveId(a + b, id) == RemoveId(a, id) + RemoveId(b, id)
  {
    if a == [] {
      assert a + b == b;
    } else {
      assert (a + b)[1..] == a[1..] + b;
      RemoveIdAppend(a[1..], b, id);
    }
  }

  /** Filtering out an id that no memo carries leaves the list as it was. */
  lemma {:induction false} RemoveIdAbsent(s: seq<Memo>, id: int)
    requires Absent(s, id)
    ensures RemoveId(s, id) == s
  {
    if s != [] {
      RemoveIdAbsent(s[1..], id);
    }
  }

  /** Deleting the same id twice is the same as deleting it once. */
  lemma {:induction false} RemoveIdIdempotent(s: seq<Memo>, id: int)
    ensures RemoveId(RemoveId(s, id), id) == RemoveId(s, id)
  {
    var r := RemoveId(s, id);
    assert Absent(r, id) by {
      forall i | 0 <= i < |r| ensures r[i].id != id {
        assert r[i] in r;
      }
    }
    RemoveIdAbsent(r, id);
  }

  /** Putting a memo in front of a valid list keeps it valid when the memo's
      id is in range and not yet carried by any memo of the list. */
  lemma ConsKeepsIdsValid(m: Memo, t: seq<Memo>, count: int)
    requires IdsValid(t, count)
    requires 1 <= m.id <= count && Absent(t, m.id)
    ensures IdsValid([m] + t, count)
  {
  }

  /** Deleting keeps ids in range and pairwise distinct. */
  lemma {:induction false} RemoveIdKeepsIdsValid(s: seq<Memo>, count: int, id: int)
    requires IdsValid(s, count)
    ensures IdsValid(RemoveId(s, id), count)
  {
    if s != [] {
      var t := RemoveId(s[1..], id);
      assert IdsValid(s[1..], count);
      RemoveIdKeepsIdsValid(s[1..], count, id);
      if s[0].id != id {
        assert RemoveId(s, id) == [s[0]] + t;
        forall j | 0 <= j < |t| ensures t[j].id != s[0].id {
          assert t[j] in t;
          var k :| 0 <= k < |s[1..]| && s[1..][k] == t[j];
          assert s[k + 1] == t[j];
        }
        ConsKeepsIdsValid(s[0], t, count);
      }
    }
  }

  /** With pairwise distinct ids, deleting an id removes at most one memo. */
  lemma {:induction false} RemoveIdDistinctLength(s: seq<Memo>, count: int, id: int)
    requires IdsValid(s, count)
    ensures |RemoveId(s, id)| >= |s| - 1
  {
    if s != [] {
      if s[0].id == id {
        assert Absent(s[1..], id);
        RemoveIdAbsent(s[1..], id);
      } else {
        assert IdsValid(s[1..], count);
        RemoveIdDistinctLength(s[1..], count, id);
      }
    }
  }

  /** A list that holds a memo holds an id, so at least one id was handed out. */
  lemma NonEmptyMeansIssued(s: seq<Memo>, count: int)
    requires IdsValid(s, count)
    ensures s != [] ==> count >= 1
  {
    if s != [] {
      assert 1 <= s[0].id;
    }
  }

  /** A store that hands out ids from a counter never holds more memos than
      ids it has handed out. */
  lemma {:induction false} LengthBound(s: seq<Memo>, count: int)
    requires IdsValid(s, count)
    ensures |s| <= if count < 0 then 0 else count
    decreases count
  {
    if count <= 0 {
      NonEmptyMeansIssued(s, count);
    } else {
      var t := RemoveId(s, count);
      RemoveIdKeepsIdsValid(s, count, count);
      RemoveIdDistinctLength(s, count, count);
      forall i | 0 <= i < |t| ensures t[i].id <= count - 1 {
        assert t[i] in t;
      }
      LengthBound(t, count - 1);
    }
  }

  /** An id above the counter is carried by no memo: a freshly handed-out id
      never collides with a stored one. */
  lemma FreshIdAbsent(s: seq<Memo>, count: int, id: int)
    requires IdsValid(s, count)
    requires id > count
    ensures Absent(s, id)
    ensures FindIndex(s, id) == -1 && Find(s, id) == None
  {
  }

  // ---------------------------------------------------------------------
  // The store object.
  // ---------------------------------------------------------------------

  class Store {
    /** The id handed out last (0 before the first insertion). */
    var count: int
    /** The memos, newest insertion first. */
    var memos: seq<Memo>
    /** Every id the store has ever handed out. */
    ghost var Issued: set<int>

    ghost predicate Valid()
      reads this
    {
      && count >= 0
      && IdsValid(memos, count)
      && (forall k :: k in Issued <==> 1 <= k <= count)
    }

    /** The initial state: no memo, no id handed out. */
    constructor ()
      ensures Valid()
      ensures count == 0 && memos == [] && Issued == {}
    {
      count := 0;
      memos := [];
      Issued := {};
    }

    /** The list itself; in a store every memo entered through `save`, its
        ids are distinct and at most `count`. */
    function GetMemos(): (r: seq<Memo>)
      reads this
      ensures r == memos
      ensures Valid() ==> IdsValid(r, count)
    {
      memos
    }

    /** The number of memos held, which never exceeds the number of ids
        handed out (and is smaller once memos have been deleted). */
    function GetCount(): (n: nat)
      reads this
      ensures n == |memos|
      ensures Valid() ==> n <= count
    {
      assert Valid() ==> |memos| <= count by {
        if Valid() {
          LengthBound(memos, count);
        }
      }
      |memos|
    }

    /** The first memo with the given id, if any; in a valid store it is the
        only memo with that id. */
    function GetMemoById(id: int): (r: Option<Memo>)
      reads this
      ensures r.None? <==> Absent(memos, id)
      ensures r.Some? ==> r.value.id == id && r.value in memos
      ensures r.Some? ==> exists i :: 0 <= i < |memos| && memos[i] == r.value && Absent(memos[..i], id)
      ensures memos == [] ==> r == None
      ensures Valid() && r.Some? ==> 1 <= id <= count
      ensures Valid() && r.Some? ==> forall i :: 0 <= i < |memos| && memos[i].id == id ==> memos[i] == r.value
    {
      Find(memos, id)
    }

    /** Insert (id 0) or replace (non-zero id). Returns the memo as the caller's
        record reads afterwards: with its new id when it was inserted. */
    method Save(m: Memo) returns (saved: Memo)
      modifies this
      ensures old(Valid()) ==> Valid()
      ensures count >= old(count)
      ensures m.id != 0 ==>
        && saved == m
        && count == old(count)
        && Issued == old(Issued)
        && |memos| == |old(memos)|
        && var i := FindIndex(old(memos), m.id);
           memos == if i == -1 then old(memos) else old(memos)[i := m]
      ensures m.id == 0 ==>
        && saved == m.(id := old(count) + 1)
        && count == old(count) + 1
        && memos == [saved] + old(memos)
        && Issued == old(Issued) + {saved.id}
      ensures m.id == 0 && old(Valid()) ==>
        && saved.id !in old(Issued)
        && Absent(old(memos), saved.id)
    {
      if m.id != 0 {
        var index := FindIndex(memos, m.id);
        if index != -1 {
          memos := memos[index := m];
        }
        saved := m;
      } else {
        saved := m.(id := count + 1);
        if Valid() {
          FreshIdAbsent(memos, count, saved.id);
          ConsKeepsIdsValid(saved, memos, count + 1);
        }
        memos := [saved] + memos;
        count := count + 1;
        Issued := Issued + {saved.id};
      }
    }

    /** Remove every memo with the given id; the counter is untouched, so a
        deleted id is never handed out again. */
    method Delete(id: int)
      modifies this
      ensures old(Valid()) ==> Valid()
      ensures memos == RemoveId(old(memos), id)
      ensures Absent(memos, id)
      ensures count == old(count) && Issued == old(Issued)
    {
      memos := RemoveId(memos, id);
      forall i | 0 <= i < |memos| ensures memos[i].id != id {
        assert memos[i] in memos;
      }
      if old(Valid()) {
        RemoveIdKeepsIdsValid(old(memos), count, id);
      }
    }
  }

  /** Three memos saved, the second deleted, a fourth saved: the new memo gets
      id 4 rather than the freed id 2, and the list is shorter than `count`. */
  method SaveDeleteSaveScenario() returns (ids: seq<int>, length: nat, count: int)
    ensures ids == [1, 2, 3, 4]
    ensures length == 3 && count == 4
  {
    var store := new Store();
    var a := store.Save(Memo(0, "Groceries", "milk, eggs"));
    var b := store.Save(Memo(0, "", "no title"));
    var c := store.Save(Memo(0, "Todo", "write"));
    store.Delete(b.id);
    var d := store.Save(Memo(0, "Later", "again"));
    ids := [a.id, b.id, c.id, d.id];
    length := store.GetCount();
    count := store.count;
  }
}
