/**
 * `HTMHashTable`: a fixed array of buckets, each a singly linked list of
 * key/value nodes kept in strictly ascending key order behind a dummy head.
 * A bucket's list is modelled as the sequence of its nodes' entries, and
 * linking a node in or out as splicing that sequence; the bucket of a key
 * is `hash_fn(key) % idxSize` for a hash function given at construction.
 */
module HtmHashTable {
  import opened Optionals

  datatype Entry<V> = Entry(key: int, val: V)

  /** The keys of a bucket list. */
  ghost function Keys<V>(s: seq<Entry<V>>): set<int>
  {
    set i | 0 <= i < |s| :: s[i].key
  }

  /** Strictly ascending keys: the order every bucket list keeps. */
  ghost predicate Ascending<V>(s: seq<Entry<V>>)
  {
    forall i, j | 0 <= i < j < |s| :: s[i].key < s[j].key
  }

  /** The value of the first node holding k, as `get`'s walk finds it. */
  function Lookup<V>(s: seq<Entry<V>>, k: int): (r: Optional<V>)
    ensures r.Present? <==> k in Keys(s)
  {
    if s == [] then Absent
    else if s[0].key == k then
      assert s[0].key in Keys(s);
      Present(s[0].val)
    else
      KeysTail(s);
      Lookup(s[1..], k)
  }

  lemma KeysTail<V>(s: seq<Entry<V>>)
    requires s != []
    ensures Keys(s) == {s[0].key} + Keys(s[1..])
  {
    assert s == [s[0]] + s[1..];
    KeysCons(s[0], s[1..]);
  }

  /** The list after `put`: the key's node gets the new value, or a new node
      is linked in before the first larger key (at the end if none). */
  function Upserted<V>(s: seq<Entry<V>>, k: int, v: V): seq<Entry<V>>
  {
    if s == [] then [Entry(k, v)]
    else if s[0].key == k then [Entry(k, v)] + s[1..]
    else if s[0].key > k then [Entry(k, v)] + s
    else [s[0]] + Upserted(s[1..], k, v)
  }

  /** The list after `remove`: the walk stops at the first key not below k
      and unlinks that node if it holds k. */
  function Removed<V>(s: seq<Entry<V>>, k: int): seq<Entry<V>>
  {
    if s == [] then []
    else if s[0].key == k then s[1..]
    else if s[0].key > k then s
    else [s[0]] + Removed(s[1..], k)
  }

  lemma KeysCons<V>(e: Entry<V>, s: seq<Entry<V>>)
    ensures Keys([e] + s) == {e.key} + Keys(s)
  {
    var t := [e] + s;
    assert t[0].key in Keys(t);
    forall x | x in Keys(t) ensures x in {e.key} + Keys(s) {
      var i :| 0 <= i < |t| && t[i].key == x;
      if i > 0 { assert t[i] == s[i - 1]; }
    }
    forall x | x in Keys(s) ensures x in Keys(t) {
      var i :| 0 <= i < |s| && s[i].key == x;
      assert t[i + 1] == s[i];
    }
  }

  lemma AscendingTail<V>(s: seq<Entry<V>>)
    requires Ascending(s) && s != []
    ensures Ascending(s[1..]) && forall x | x in Keys(s[1..]) :: s[0].key < x
  {
    forall x | x in Keys(s[1..]) ensures s[0].key < x {
      var i :| 0 <= i < |s[1..]| && s[1..][i].key == x;
      assert s[1..][i] == s[i + 1];
    }
  }

  lemma AscendingCons<V>(e: Entry<V>, s: seq<Entry<V>>)
    requires Ascending(s) && forall x | x in Keys(s) :: e.key < x
    ensures Ascending([e] + s)
  {
    var t := [e] + s;
    forall i, j | 0 <= i < j < |t| ensures t[i].key < t[j].key {
      assert t[j] == s[j - 1];
      if i > 0 { assert t[i] == s[i - 1]; }
      else { assert s[j - 1].key in Keys(s); }
    }
  }

  /** `put` adds exactly its key to the list's keys. */
  lemma {:induction false} PutKeys<V>(s: seq<Entry<V>>, k: int, v: V)
    ensures Keys(Upserted(s, k, v)) == Keys(s) + {k}
  {
    if s == [] {
      assert Keys([Entry(k, v)]) == {k} by { KeysCons(Entry(k, v), []); }
    } else {
      KeysCons(s[0], s[1..]);
      assert s == [s[0]] + s[1..];
      if s[0].key == k {
        KeysCons(Entry(k, v), s[1..]);
      } else if s[0].key > k {
        KeysCons(Entry(k, v), s);
      } else {
        PutKeys(s[1..], k, v);
        KeysCons(s[0], Upserted(s[1..], k, v));
      }
    }
  }

  /** `put` keeps a bucket list strictly ascending. */
  lemma {:induction false} PutAscending<V>(s: seq<Entry<V>>, k: int, v: V)
    requires Ascending(s)
    ensures Ascending(Upserted(s, k, v))
  {
    if s == [] {
    } else {
      AscendingTail(s);
      if s[0].key == k {
        AscendingCons(Entry(k, v), s[1..]);
      } else if s[0].key > k {
        forall x | x in Keys(s) ensures k < x {
          var i :| 0 <= i < |s| && s[i].key == x;
        }
        AscendingCons(Entry(k, v), s);
      } else {
        PutAscending(s[1..], k, v);
        PutKeys(s[1..], k, v);
        AscendingCons(s[0], Upserted(s[1..], k, v));
      }
    }
  }

  /** After `put`, the key finds its new value and every other key what it
      found before. */
  lemma {:induction false} PutLookup<V>(s: seq<Entry<V>>, k: int, v: V, j: int)
    requires Ascending(s)
    ensures Lookup(Upserted(s, k, v), j) == if j == k then Present(v) else Lookup(s, j)
  {
    if s == [] {
    } else {
      AscendingTail(s);
      var t := Upserted(s, k, v);
      if s[0].key == k {
        assert t[1..] == s[1..];
        if j != k && j in Keys(s[1..]) {
          assert Lookup(s, j) == Lookup(s[1..], j);
        }
      } else if s[0].key > k {
        assert t[1..] == s;
      } else {
        assert t[1..] == Upserted(s[1..], k, v);
        PutLookup(s[1..], k, v, j);
      }
    }
  }

  /** Where `put` links its node: with p the first position whose key is not
      below k, the new entry replaces the node there if it holds k and goes
      in before it otherwise. */
  lemma {:induction false} PutAt<V>(s: seq<Entry<V>>, k: int, v: V, p: int)
    requires 0 <= p <= |s| && forall i | 0 <= i < p :: s[i].key < k
    requires p < |s| ==> k <= s[p].key
    ensures p < |s| && s[p].key == k ==> Upserted(s, k, v) == s[..p] + [Entry(k, v)] + s[p + 1..]
    ensures !(p < |s| && s[p].key == k) ==> Upserted(s, k, v) == s[..p] + [Entry(k, v)] + s[p..]
    decreases p
  {
    if p > 0 {
      PutAt(s[1..], k, v, p - 1);
      assert s[1..][..p - 1] == s[1..p] && s[1..][p - 1..] == s[p..];
      assert s[..p] == [s[0]] + s[1..p];
      if p < |s| {
        assert s[1..][p..] == s[p + 1..];
      }
    }
  }

  /** `remove` takes exactly its key out of an ascending list. */
  lemma {:induction false} RemoveKeys<V>(s: seq<Entry<V>>, k: int)
    requires Ascending(s)
    ensures Keys(Removed(s, k)) == Keys(s) - {k}
  {
    if s != [] {
      AscendingTail(s);
      KeysCons(s[0], s[1..]);
      assert s == [s[0]] + s[1..];
      if s[0].key > k {
        assert k !in Keys(s[1..]);
      } else if s[0].key < k {
        RemoveKeys(s[1..], k);
        KeysCons(s[0], Removed(s[1..], k));
      }
    }
  }

  /** `remove` keeps a bucket list strictly ascending. */
  lemma {:induction false} RemoveAscending<V>(s: seq<Entry<V>>, k: int)
    requires Ascending(s)
    ensures Ascending(Removed(s, k))
  {
    if s != [] {
      AscendingTail(s);
      if s[0].key < k {
        RemoveAscending(s[1..], k);
        RemoveKeys(s[1..], k);
        AscendingCons(s[0], Removed(s[1..], k));
      }
    }
  }

  /** After `remove`, the key is gone and every other key finds what it
      found before. */
  lemma {:induction false} RemoveLookup<V>(s: seq<Entry<V>>, k: int, j: int)
    requires Ascending(s)
    ensures Lookup(Removed(s, k), j) == if j == k then Absent else Lookup(s, j)
  {
    RemoveKeys(s, k);
    if s != [] {
      AscendingTail(s);
      var t := Removed(s, k);
      if s[0].key == k {
        if j != k {
          assert Lookup(s, j) == Lookup(s[1..], j);
        }
      } else if s[0].key < k {
        assert t[0] == s[0] && t[1..] == Removed(s[1..], k);
        RemoveLookup(s[1..], k, j);
      }
    }
  }

  /** Where `remove` unlinks: with p the first position whose key is not
      below k, the node there goes if it holds k and nothing changes
      otherwise. */
  lemma {:induction false} RemoveAt<V>(s: seq<Entry<V>>, k: int, p: int)
    requires 0 <= p <= |s| && forall i | 0 <= i < p :: s[i].key < k
    requires p < |s| ==> k <= s[p].key
    ensures p < |s| && s[p].key == k ==> Removed(s, k) == s[..p] + s[p + 1..]
    ensures !(p < |s| && s[p].key == k) ==> Removed(s, k) == s
    decreases p
  {
    if p > 0 {
      RemoveAt(s[1..], k, p - 1);
      assert Removed(s, k) == [s[0]] + Removed(s[1..], k);
      if p < |s| && s[p].key == k {
        calc {
          Removed(s, k);
          [s[0]] + (s[1..][..p - 1] + s[1..][p..]);
          { assert s[1..][..p - 1] == s[1..p] && s[1..][p..] == s[p + 1..]; }
          [s[0]] + (s[1..p] + s[p + 1..]);
          { assert s[..p] == [s[0]] + s[1..p]; }
          s[..p] + s[p + 1..];
        }
      } else {
        assert s == [s[0]] + s[1..];
      }
    }
  }

  /** What the walk finds: with p the first position whose key is not below
      k, the key is present exactly when the node there holds it. */
  lemma {:induction false} LookupAt<V>(s: seq<Entry<V>>, k: int, p: int)
    requires Ascending(s)
    requires 0 <= p <= |s| && forall i | 0 <= i < p :: s[i].key < k
    requires p < |s| ==> k <= s[p].key
    ensures Lookup(s, k) == if p < |s| && s[p].key == k then Present(s[p].val) else Absent
    decreases p
  {
    if p > 0 {
      AscendingTail(s);
      LookupAt(s[1..], k, p - 1);
    } else if s != [] && s[0].key != k {
      AscendingTail(s);
      assert k !in Keys(s[1..]);
    }
  }

  class HashTable<V> {
    /** The number of buckets, the template's `idxSize`. */
    const idxSize: nat
    /** `hash_fn`: the key's hash, left abstract. */
    const hash: int -> nat
    /** `buckets[i].head.next` and the list behind it, as a sequence. */
    const buckets: array<seq<Entry<V>>>
    /** The map the table stands for. */
    ghost var Contents: map<int, V>

    /** The bucket of a key: `hash_fn(key) % idxSize`. */
    function Index(key: int): (i: nat)
      requires idxSize > 0
      ensures i < idxSize
    {
      hash(key) % idxSize
    }

    /** Every list is ascending, holds only keys of its own bucket, and
        the lists together hold exactly `Contents`. */
    ghost predicate Valid()
      reads this, buckets
    {
      && buckets.Length == idxSize > 0
      && (forall i | 0 <= i < idxSize :: Ascending(buckets[i]))
      && (forall i, j | 0 <= i < idxSize && 0 <= j < |buckets[i]| :: Index(buckets[i][j].key) == i)
      && (forall k :: Lookup(buckets[Index(k)], k) == Find(Contents, k))
    }

    /** A table whose every bucket is an empty list. */
    constructor (idxSize: nat, hash: int -> nat)
      requires idxSize > 0
      ensures Valid() && Contents == map[]
      ensures this.idxSize == idxSize && this.hash == hash
      ensures forall i | 0 <= i < idxSize :: buckets[i] == []
    {
      this.idxSize := idxSize;
      this.hash := hash;
      buckets := new seq<Entry<V>>[idxSize](_ => []);
      Contents := map[];
    }

    /** `get`: the key's value, or none. */
    method Get(key: int) returns (r: Optional<V>)
      requires Valid()
      ensures r == Find(Contents, key)
    {
      var s := buckets[Index(key)];
      var i := 0;
      while i < |s|
        invariant 0 <= i <= |s|
        invariant Lookup(s[i..], key) == Lookup(s, key)
      {
        assert s[i..][1..] == s[i + 1..];
        if s[i].key == key {
          return Present(s[i].val);
        }
        i := i + 1;
      }
      return Absent;
    }

    /** The walk `put`, `insert` and `remove` share: `prev` stops before the
        first node whose key is not below the key, `curr` at it. */
    static method Walk(s: seq<Entry<V>>, key: int) returns (p: nat)
      ensures p <= |s| && forall i | 0 <= i < p :: s[i].key < key
      ensures p < |s| ==> key <= s[p].key
    {
      p := 0;
      while p < |s|
        invariant p <= |s| && forall i | 0 <= i < p :: s[i].key < key
      {
        if s[p].key >= key {
          return;
        }
        p := p + 1;
      }
    }

    /** A new list for the key's bucket that holds only keys of that bucket
        and answers every lookup of one of them as m does; m agrees with
        `Contents` on the other buckets. */
    method SetBucket(key: int, t: seq<Entry<V>>, ghost m: map<int, V>)
      requires Valid()
      requires Ascending(t) && forall j | 0 <= j < |t| :: Index(t[j].key) == Index(key)
      requires forall k | Index(k) == Index(key) :: Lookup(t, k) == Find(m, k)
      requires forall k | Index(k) != Index(key) :: Find(m, k) == Find(Contents, k)
      modifies this, buckets
      ensures Valid() && Contents == m
      ensures buckets[Index(key)] == t
      ensures forall i | 0 <= i < idxSize && i != Index(key) :: buckets[i] == old(buckets[i])
    {
      buckets[Index(key)] := t;
      Contents := m;
    }

    /** The keys of a list of the key's bucket remain in that bucket. */
    lemma SameBucket(key: int, s: seq<Entry<V>>, t: seq<Entry<V>>)
      requires idxSize > 0
      requires forall j | 0 <= j < |s| :: Index(s[j].key) == Index(key)
      requires Keys(t) <= Keys(s) + {key}
      ensures forall j | 0 <= j < |t| :: Index(t[j].key) == Index(key)
    {
      forall j | 0 <= j < |t| ensures Index(t[j].key) == Index(key) {
        assert t[j].key in Keys(t);
        if t[j].key != key {
          assert t[j].key in Keys(s);
          var i :| 0 <= i < |s| && s[i].key == t[j].key;
        }
      }
    }

    /** Every key of the key's bucket finds in that bucket's list what the
        table maps it to. */
    lemma BucketLookup(key: int)
      requires Valid()
      ensures Ascending(buckets[Index(key)])
      ensures forall j | 0 <= j < |buckets[Index(key)]| :: Index(buckets[Index(key)][j].key) == Index(key)
      ensures forall k | Index(k) == Index(key) :: Lookup(buckets[Index(key)], k) == Find(Contents, k)
    {
      forall k | Index(k) == Index(key)
        ensures Lookup(buckets[Index(key)], k) == Find(Contents, k)
      {
        assert Lookup(buckets[Index(k)], k) == Find(Contents, k);
      }
    }

    /** The bucket list after `put` is a valid list for the table after `put`. */
    lemma PutBucket(key: int, val: V, s: seq<Entry<V>>, m: map<int, V>)
      requires idxSize > 0
      requires Ascending(s) && forall j | 0 <= j < |s| :: Index(s[j].key) == Index(key)
      requires forall k | Index(k) == Index(key) :: Lookup(s, k) == Find(m, k)
      ensures Ascending(Upserted(s, key, val))
      ensures forall j | 0 <= j < |Upserted(s, key, val)| :: Index(Upserted(s, key, val)[j].key) == Index(key)
      ensures forall k | Index(k) == Index(key) :: Lookup(Upserted(s, key, val), k) == Find(m[key := val], k)
    {
      PutAscending(s, key, val);
      PutKeys(s, key, val);
      SameBucket(key, s, Upserted(s, key, val));
      forall k | Index(k) == Index(key)
        ensures Lookup(Upserted(s, key, val), k) == Find(m[key := val], k)
      {
        PutLookup(s, key, val, k);
      }
    }

    /** The bucket list after `remove` is a valid list for the table after `remove`. */
    lemma RemoveBucket(key: int, s: seq<Entry<V>>, m: map<int, V>)
      requires idxSize > 0
      requires Ascending(s) && forall j | 0 <= j < |s| :: Index(s[j].key) == Index(key)
      requires forall k | Index(k) == Index(key) :: Lookup(s, k) == Find(m, k)
      ensures Ascending(Removed(s, key))
      ensures forall j | 0 <= j < |Removed(s, key)| :: Index(Removed(s, key)[j].key) == Index(key)
      ensures forall k | Index(k) == Index(key) :: Lookup(Removed(s, key), k) == Find(m - {key}, k)
    {
      RemoveAscending(s, key);
      RemoveKeys(s, key);
      SameBucket(key, s, Removed(s, key));
      forall k | Index(k) == Index(key)
        ensures Lookup(Removed(s, key), k) == Find(m - {key}, k)
      {
        RemoveLookup(s, key, k);
      }
    }

    /** `put`: replaces the value of a present key and returns the old one,
        or links in a new node and returns none. */
    method Put(key: int, val: V) returns (r: Optional<V>)
      requires Valid()
      modifies this, buckets
      ensures Valid() && Contents == old(Contents)[key := val]
      ensures r == Find(old(Contents), key)
      ensures buckets[Index(key)] == Upserted(old(buckets[Index(key)]), key, val)
      ensures forall i | 0 <= i < idxSize && i != Index(key) :: buckets[i] == old(buckets[i])
    {
      var s := buckets[Index(key)];
      var p := Walk(s, key);
      BucketLookup(key);
      LookupAt(s, key, p);
      PutAt(s, key, val, p);
      var t;
      if p < |s| && s[p].key == key {
        r := Present(s[p].val);
        t := s[..p] + [Entry(key, val)] + s[p + 1..];
      } else {
        r := Absent;
        t := s[..p] + [Entry(key, val)] + s[p..];
      }
      PutBucket(key, val, s, Contents);
      SetBucket(key, t, Contents[key := val]);
    }

    /** `insert`: links in a new node and answers true, or answers false and
        changes nothing when the key is already present. */
    method Insert(key: int, val: V) returns (r: bool)
      requires Valid()
      modifies this, buckets
      ensures Valid()
      ensures r <==> key !in old(Contents)
      ensures Contents == if r then old(Contents)[key := val] else old(Contents)
      ensures buckets[Index(key)] == if r then Upserted(old(buckets[Index(key)]), key, val) else old(buckets[Index(key)])
      ensures forall i | 0 <= i < idxSize && i != Index(key) :: buckets[i] == old(buckets[i])
    {
      var s := buckets[Index(key)];
      var p := Walk(s, key);
      BucketLookup(key);
      LookupAt(s, key, p);
      if p < |s| && s[p].key == key {
        return false;
      }
      PutAt(s, key, val, p);
      var t := s[..p] + [Entry(key, val)] + s[p..];
      PutBucket(key, val, s, Contents);
      SetBucket(key, t, Contents[key := val]);
      return true;
    }

    /** `remove`: unlinks the key's node and returns its value, or returns
        none, stopping at the first larger key. */
    method Remove(key: int) returns (r: Optional<V>)
      requires Valid()
      modifies this, buckets
      ensures Valid() && Contents == old(Contents) - {key}
      ensures r == Find(old(Contents), key)
      ensures buckets[Index(key)] == Removed(old(buckets[Index(key)]), key)
      ensures forall i | 0 <= i < idxSize && i != Index(key) :: buckets[i] == old(buckets[i])
    {
      var s := buckets[Index(key)];
      var p := Walk(s, key);
      BucketLookup(key);
      LookupAt(s, key, p);
      RemoveAt(s, key, p);
      if !(p < |s| && s[p].key == key) {
        assert Contents - {key} == Contents;
        return Absent;
      }
      r := Present(s[p].val);
      var t := s[..p] + s[p + 1..];
      RemoveBucket(key, s, Contents);
      SetBucket(key, t, Contents - {key});
    }

    /** `clear`: every bucket's `head.next` becomes null. */
    method Clear()
      requires Valid()
      modifies this, buckets
      ensures Valid() && Contents == map[]
      ensures forall i | 0 <= i < idxSize :: buckets[i] == []
    {
      for i := 0 to idxSize
        invariant forall j | 0 <= j < i :: buckets[j] == []
      {
        buckets[i] := [];
      }
      Contents := map[];
    }
  }
}
