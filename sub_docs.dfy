/**
 * The two operations of an embedded document array that the controller
 * calls: `array.id(x)`, which finds a sub-document by its `_id`, and
 * `subdoc.remove()`, which pulls every entry carrying that `_id` from its
 * parent array.
 */
module SubDocs {
  import opened Wrappers
  import opened FableSchema

  /** `array.id(id)`: the position of the first entry whose key is `id`. */
  function Find<T>(s: seq<T>, key: T -> ObjectId, id: ObjectId): (r: Option<nat>)
    ensures r.Some? ==> r.value < |s| && key(s[r.value]) == id
    ensures r.Some? ==> forall j :: 0 <= j < r.value ==> key(s[j]) != id
    ensures r.None? <==> forall j :: 0 <= j < |s| ==> key(s[j]) != id
  {
    if |s| == 0 then None
    else if key(s[0]) == id then Some(0)
    else
      match Find(s[1..], key, id)
      case None => None
      case Some(k) => Some(k + 1)
  }

  /** `subdoc.remove()`: every entry whose key is `id` leaves; the others stay, in order. */
  function Pull<T>(s: seq<T>, key: T -> ObjectId, id: ObjectId): (r: seq<T>)
    ensures forall i :: 0 <= i < |r| ==> r[i] in s && key(r[i]) != id
    ensures forall j :: 0 <= j < |s| && key(s[j]) != id ==> s[j] in r
    ensures |r| <= |s|
  {
    if |s| == 0 then []
    else (if key(s[0]) != id then [s[0]] else []) + Pull(s[1..], key, id)
  }

  /** No two entries share a key. */
  predicate UniqueIds<T>(s: seq<T>, key: T -> ObjectId) {
    forall i, j :: 0 <= i < j < |s| ==> key(s[i]) != key(s[j])
  }

  /** A list whose entries do not carry `id` loses nothing to a pull. */
  lemma {:induction false} PullAbsent<T>(s: seq<T>, key: T -> ObjectId, id: ObjectId)
    requires forall j :: 0 <= j < |s| ==> key(s[j]) != id
    ensures Pull(s, key, id) == s
  {
    if |s| > 0 {
      assert forall j :: 0 <= j < |s[1..]| ==> key(s[1..][j]) != id by {
        forall j | 0 <= j < |s[1..]| ensures key(s[1..][j]) != id {
          assert s[1..][j] == s[j + 1];
        }
      }
      PullAbsent(s[1..], key, id);
      assert s == [s[0]] + s[1..];
    }
  }

  /** Unique keys stay unique in the tail. */
  lemma UniqueTail<T>(s: seq<T>, key: T -> ObjectId)
    requires UniqueIds(s, key) && |s| > 0
    ensures UniqueIds(s[1..], key)
  {
    var tail := s[1..];
    forall a, b | 0 <= a < b < |tail| ensures key(tail[a]) != key(tail[b]) {
      assert tail[a] == s[a + 1] && tail[b] == s[b + 1];
    }
  }

  /** Pulling from a non-empty list decides its head and goes on with the tail. */
  lemma PullCons<T>(s: seq<T>, key: T -> ObjectId, id: ObjectId)
    requires |s| > 0
    ensures Pull(s, key, id) == (if key(s[0]) != id then [s[0]] else []) + Pull(s[1..], key, id)
  {
  }

  /** When ids are unique, a pull removes exactly the one entry `Find` locates. */
  lemma {:induction false} PullUnique<T>(s: seq<T>, key: T -> ObjectId, id: ObjectId, i: nat)
    requires UniqueIds(s, key) && Find(s, key, id) == Some(i)
    ensures Pull(s, key, id) == s[..i] + s[i + 1..]
  {
    if i == 0 {
      PullHead(s, key, id);
    } else {
      var tail := s[1..];
      UniqueTail(s, key);
      assert Find(tail, key, id) == Some(i - 1);
      PullUnique(tail, key, id, i - 1);
      PullPastHead(s, key, id, i);
    }
  }

  /** When the head carries the (unique) id, a pull drops just the head. */
  lemma PullHead<T>(s: seq<T>, key: T -> ObjectId, id: ObjectId)
    requires UniqueIds(s, key) && |s| > 0 && key(s[0]) == id
    ensures Pull(s, key, id) == s[1..]
  {
    var tail := s[1..];
    PullCons(s, key, id);
    forall j | 0 <= j < |tail| ensures key(tail[j]) != id {
      assert tail[j] == s[j + 1];
    }
    PullAbsent(tail, key, id);
  }

  /** When the head is kept, pulling from the tail at `i - 1` is pulling from the list at `i`. */
  lemma PullPastHead<T>(s: seq<T>, key: T -> ObjectId, id: ObjectId, i: nat)
    requires 0 < i < |s| && key(s[0]) != id
    requires Pull(s[1..], key, id) == s[1..][..i - 1] + s[1..][i..]
    ensures Pull(s, key, id) == s[..i] + s[i + 1..]
  {
    var tail := s[1..];
    PullCons(s, key, id);
    assert s[..i] == [s[0]] + tail[..i - 1];
    assert s[i + 1..] == tail[i..];
  }

  /** Replacing one entry by one with the same key keeps the keys unique. */
  lemma SameKeyUnique<T>(s: seq<T>, key: T -> ObjectId, i: nat, x: T)
    requires UniqueIds(s, key) && i < |s| && key(x) == key(s[i])
    ensures UniqueIds(s[i := x], key)
  {
  }

  /** Appending an entry with a key nobody has keeps the keys unique. */
  lemma AppendFreshUnique<T>(s: seq<T>, key: T -> ObjectId, x: T)
    requires UniqueIds(s, key) && Find(s, key, key(x)).None?
    ensures UniqueIds(s + [x], key)
  {
    var r := s + [x];
    forall a, b | 0 <= a < b < |r| ensures key(r[a]) != key(r[b]) {
      assert r[a] == s[a];
      if b < |s| {
        assert r[b] == s[b];
      }
    }
  }
}
