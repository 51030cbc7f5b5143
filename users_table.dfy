/** The server's `users` object: a dictionary from socket id to the name the
    socket joined with. A JavaScript object keeps its string keys in insertion
    order, an assignment to an existing key overwrites the value where it
    stands, and `delete` takes the key out without disturbing the others. The
    table is therefore an ordered sequence of entries whose keys are distinct
    (`Distinct`, which `Assign` and `Delete` preserve). */
module UsersTable {
  import opened JsValues

  type SocketId = string

  /** One own property of `users`: a socket id and the value stored under it. */
  datatype Entry = Entry(id: SocketId, name: Value)

  /** The keys of the table. */
  function Keys(t: seq<Entry>): set<SocketId> {
    set i | 0 <= i < |t| :: t[i].id
  }

  /** No key occurs twice, as in any JavaScript object. */
  ghost predicate Distinct(t: seq<Entry>) {
    forall i, j :: 0 <= i < j < |t| ==> t[i].id != t[j].id
  }

  /** `users[id]`: the value stored under `id`, or `undefined` when `id` is
      not a key. */
  function Lookup(t: seq<Entry>, id: SocketId): (v: Value)
    ensures id !in Keys(t) ==> v == Undefined
    ensures id in Keys(t) ==> Entry(id, v) in t
  {
    if t == [] then Undefined
    else if t[0].id == id then t[0].name
    else Lookup(t[1..], id)
  }

  /** `users[id] = v`: overwrite the value in place when `id` is already a
      key, otherwise add a new entry at the end. */
  function Assign(t: seq<Entry>, id: SocketId, v: Value): (r: seq<Entry>)
    ensures id in Keys(t) ==> |r| == |t|
    ensures id !in Keys(t) ==> r == t + [Entry(id, v)]
  {
    if t == [] then [Entry(id, v)]
    else if t[0].id == id then [Entry(id, v)] + t[1..]
    else [t[0]] + Assign(t[1..], id, v)
  }

  /** `delete users[id]`: drop the entry for `id` and keep the others in
      their order. */
  function Delete(t: seq<Entry>, id: SocketId): (r: seq<Entry>)
    ensures id in Keys(t) ==> |r| == |t| - 1
    ensures id !in Keys(t) ==> r == t
  {
    if t == [] then []
    else if t[0].id == id then t[1..]
    else [t[0]] + Delete(t[1..], id)
  }

  /** `Object.values(users)`: the stored values in insertion order. */
  function Values(t: seq<Entry>): (vs: seq<Value>)
    ensures |vs| == |t|
    ensures forall i :: 0 <= i < |t| ==> vs[i] == t[i].name
  {
    if t == [] then [] else [t[0].name] + Values(t[1..])
  }

  /** In a table with distinct keys, `users[id]` is the value of the one entry
      stored under `id`. */
  lemma {:induction false} LookupAt(t: seq<Entry>, i: nat)
    requires Distinct(t)
    requires i < |t|
    ensures Lookup(t, t[i].id) == t[i].name
  {
    if i > 0 {
      LookupAt(t[1..], i - 1);
    }
  }

  /** After `users[id] = v`, `users[id]` is `v` and every other key reads as
      before. */
  lemma {:induction false} AssignLookup(t: seq<Entry>, id: SocketId, v: Value, k: SocketId)
    ensures Lookup(Assign(t, id, v), k) == if k == id then v else Lookup(t, k)
  {
    if t != [] && t[0].id != id && t[0].id != k {
      AssignLookup(t[1..], id, v, k);
    }
  }

  /** Re-assigning an existing key changes only the value at that key's
      position: no second entry, no move. */
  lemma {:induction false} AssignInPlace(t: seq<Entry>, id: SocketId, v: Value, i: nat)
    requires Distinct(t)
    requires i < |t| && t[i].id == id
    ensures Assign(t, id, v) == t[i := Entry(id, v)]
  {
    if i > 0 {
      AssignInPlace(t[1..], id, v, i - 1);
      assert t[i := Entry(id, v)] == [t[0]] + t[1..][i - 1 := Entry(id, v)];
    }
  }

  /** `users[id] = v` keeps the keys distinct. */
  lemma AssignDistinct(t: seq<Entry>, id: SocketId, v: Value)
    requires Distinct(t)
    ensures Distinct(Assign(t, id, v))
  {
    var r := Assign(t, id, v);
    if id in Keys(t) {
      var i :| 0 <= i < |t| && t[i].id == id;
      AssignInPlace(t, id, v, i);
      assert forall a :: 0 <= a < |r| ==> r[a].id == t[a].id;
    } else {
      assert forall a :: 0 <= a < |t| ==> r[a] == t[a] && t[a].id in Keys(t);
    }
  }

  /** The entries after `users[id] = v` are the new one and the old entries
      under every other key. */
  lemma {:induction false} AssignEntries(t: seq<Entry>, id: SocketId, v: Value)
    requires Distinct(t)
    ensures forall e :: e in Assign(t, id, v) <==> e == Entry(id, v) || (e in t && e.id != id)
  {
    if t != [] {
      var tail := t[1..];
      assert Distinct(tail) by {
        forall a, b | 0 <= a < b < |tail| ensures tail[a].id != tail[b].id {
          assert tail[a] == t[a + 1] && tail[b] == t[b + 1];
        }
      }
      assert t == [t[0]] + tail;
      if t[0].id == id {
        forall e | e in tail ensures e.id != id {
          var j :| 0 <= j < |tail| && tail[j] == e;
          assert t[j + 1] == e;
        }
      } else {
        AssignEntries(tail, id, v);
      }
    }
  }

  /** `delete` of the key at position `i` closes the gap and leaves the other
      entries in their order. */
  lemma {:induction false} DeleteAt(t: seq<Entry>, id: SocketId, i: nat)
    requires Distinct(t)
    requires i < |t| && t[i].id == id
    ensures Delete(t, id) == t[..i] + t[i + 1..]
  {
    if i > 0 {
      DeleteAt(t[1..], id, i - 1);
      assert t[..i] + t[i + 1..] == [t[0]] + (t[1..][..i - 1] + t[1..][i..]);
    }
  }

  /** After `delete users[id]`, `users[id]` is `undefined` and every other
      key reads as before. */
  lemma {:induction false} DeleteLookup(t: seq<Entry>, id: SocketId, k: SocketId)
    requires Distinct(t)
    ensures Lookup(Delete(t, id), k) == if k == id then Undefined else Lookup(t, k)
  {
    if t != [] && t[0].id != id && t[0].id != k {
      DeleteLookup(t[1..], id, k);
    } else if t != [] && t[0].id == id && k == id {
      assert id !in Keys(t[1..]);
    }
  }

  /** `delete users[id]` keeps the keys distinct. */
  lemma DeleteDistinct(t: seq<Entry>, id: SocketId)
    requires Distinct(t)
    ensures Distinct(Delete(t, id))
  {
    if id in Keys(t) {
      var i :| 0 <= i < |t| && t[i].id == id;
      DeleteAt(t, id, i);
      var r := Delete(t, id);
      assert forall j :: 0 <= j < |r| ==> r[j] == t[if j < i then j else j + 1];
    }
  }

  /** The entries after `delete users[id]` are the old entries under every
      other key. */
  lemma {:induction false} DeleteEntries(t: seq<Entry>, id: SocketId)
    requires Distinct(t)
    ensures forall e :: e in Delete(t, id) <==> e in t && e.id != id
  {
    if t != [] {
      var tail := t[1..];
      assert Distinct(tail) by {
        forall a, b | 0 <= a < b < |tail| ensures tail[a].id != tail[b].id {
          assert tail[a] == t[a + 1] && tail[b] == t[b + 1];
        }
      }
      assert t == [t[0]] + tail;
      if t[0].id == id {
        forall e | e in tail ensures e.id != id {
          var j :| 0 <= j < |tail| && tail[j] == e;
          assert t[j + 1] == e;
        }
      } else {
        DeleteEntries(tail, id);
      }
    }
  }

  /** The roster after a join: the new name at the end for a new key, or in
      place of the old name for a re-join. */
  lemma RosterAfterAssign(t: seq<Entry>, id: SocketId, v: Value)
    requires Distinct(t)
    ensures id !in Keys(t) ==> Values(Assign(t, id, v)) == Values(t) + [v]
    ensures forall i :: 0 <= i < |t| && t[i].id == id ==>
      Values(Assign(t, id, v)) == Values(t)[i := v]
  {
    forall i | 0 <= i < |t| && t[i].id == id
      ensures Values(Assign(t, id, v)) == Values(t)[i := v]
    {
      AssignInPlace(t, id, v, i);
    }
  }

  /** The roster after a `delete`: the departing entry's value is cut out and
      the rest keep their order. */
  lemma RosterAfterDelete(t: seq<Entry>, id: SocketId, i: nat)
    requires Distinct(t)
    requires i < |t| && t[i].id == id
    ensures Values(Delete(t, id)) == Values(t)[..i] + Values(t)[i + 1..]
  {
    DeleteAt(t, id, i);
  }
}
