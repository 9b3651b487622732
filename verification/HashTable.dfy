/** The chained hash table of util.c. int_table_* is the same code with the key as its own hash
    and == for equals; IntTableIsAMap says what that instance is. */
module HashTable {

  datatype Option<+T> = None | Some(value: T)

  // ----- what a table is: a map over classes of equal keys -----

  ghost predicate Equivalence<K(!new)>(equals: (K, K) -> bool) {
    && (forall a :: equals(a, a))
    && (forall a, b :: equals(a, b) ==> equals(b, a))
    && (forall a, b, c :: equals(a, b) && equals(b, c) ==> equals(a, c))
  }

  ghost predicate Respects<K(!new)>(hash: K -> nat, equals: (K, K) -> bool) {
    forall a, b :: equals(a, b) ==> hash(a) == hash(b)
  }

  /** No two keys of the map are equal: each stands for its class. */
  ghost predicate Apart<K(!new), V>(m: map<K, V>, equals: (K, K) -> bool) {
    forall a, b :: a in m && b in m && equals(a, b) ==> a == b
  }

  /** The key that stands for the class of k. */
  ghost function RepOf<K(!new), V>(m: map<K, V>, equals: (K, K) -> bool, k: K): (r: Option<K>)
    ensures r.Some? ==> r.value in m && equals(k, r.value)
    ensures r.None? ==> forall a :: a in m ==> !equals(k, a)
  {
    if a :| a in m && equals(k, a) then (var a :| a in m && equals(k, a); Some(a)) else None
  }

  ghost function Get<K(!new), V>(m: map<K, V>, equals: (K, K) -> bool, k: K): Option<V> {
    var r := RepOf(m, equals, k);
    if r.Some? then Some(m[r.value]) else None
  }

  ghost function Put<K(!new), V>(m: map<K, V>, equals: (K, K) -> bool, k: K, v: V): map<K, V> {
    var r := RepOf(m, equals, k);
    if r.Some? then m[r.value := v] else m[k := v]
  }

  ghost function Remove<K(!new), V>(m: map<K, V>, equals: (K, K) -> bool, k: K): map<K, V> {
    var r := RepOf(m, equals, k);
    if r.Some? then m - {r.value} else m
  }

  lemma RepIs<K(!new), V>(m: map<K, V>, equals: (K, K) -> bool, k: K, a: K)
    requires Equivalence(equals) && Apart(m, equals) && a in m && equals(k, a)
    ensures RepOf(m, equals, k) == Some(a)
  {
    var r := RepOf(m, equals, k).value;
    assert equals(r, k) && equals(r, a);
  }

  /** The laws of a map over classes: a put is seen through every equal key and by no other, it
      keeps the keys apart, and it adds an entry exactly when there was none. */
  lemma PutLaws<K(!new), V>(m: map<K, V>, equals: (K, K) -> bool, k: K, v: V, q: K)
    requires Equivalence(equals) && Apart(m, equals)
    ensures var n := Put(m, equals, k, v);
            && Apart(n, equals)
            && Get(n, equals, q) == (if equals(q, k) then Some(v) else Get(m, equals, q))
            && |n| == |m| + (if Get(m, equals, k).Some? then 0 else 1)
  {
    var n, r := Put(m, equals, k, v), RepOf(m, equals, k);
    var key := if r.Some? then r.value else k;
    assert n == m[key := v] && equals(k, key);
    assert Apart(n, equals);
    if equals(q, k) {
      assert equals(q, key);
      RepIs(n, equals, q, key);
    } else {
      assert equals(k, key) && equals(key, k);
      var s := RepOf(m, equals, q);
      if s.Some? {
        RepIs(n, equals, q, s.value);
      }
    }
  }

  /** And so for remove. */
  lemma RemoveLaws<K(!new), V>(m: map<K, V>, equals: (K, K) -> bool, k: K, q: K)
    requires Equivalence(equals) && Apart(m, equals)
    ensures var n := Remove(m, equals, k);
            && Apart(n, equals)
            && Get(n, equals, q) == (if equals(q, k) then None else Get(m, equals, q))
            && |n| == |m| - (if Get(m, equals, k).Some? then 1 else 0)
  {
    var n, r := Remove(m, equals, k), RepOf(m, equals, k);
    if r.Some? {
      assert n.Keys == m.Keys - {r.value};
      assert |n.Keys| == |m.Keys| - 1;
    }
    var s := RepOf(m, equals, q);
    if equals(q, k) {
      assert equals(k, q);
      if s.Some? {
        RepIs(m, equals, k, s.value);
      }
    } else if s.Some? {
      assert r.Some? ==> equals(r.value, k);
      RepIs(n, equals, q, s.value);
    }
  }

  /** For numbers under == the table is an ordinary map. */
  lemma IntTableIsAMap<V>(m: map<nat, V>, k: nat, v: V)
    ensures var equals := (a: nat, b: nat) => a == b;
            && Equivalence(equals) && Apart(m, equals) && Respects((a: nat) => a, equals)
            && Put(m, equals, k, v) == m[k := v]
            && Get(m, equals, k) == (if k in m then Some(m[k]) else None)
            && Remove(m, equals, k) == m - {k}
  {
    var equals := (a: nat, b: nat) => a == b;
    assert equals(k, k);
  }

  // ----- the table -----

  class Entry<K, V> {
    const key: K
    var value: V
    var next: Entry?<K, V>

    constructor (key: K, value: V)
      ensures this.key == key && this.value == value && next == null
    {
      this.key, this.value, next := key, value, null;
    }
  }

  /** The entries of a bucket, in the order of the links. */
  ghost predicate Linked<K, V>(first: Entry?<K, V>, chain: seq<Entry<K, V>>)
    reads chain
  {
    && first == (if chain == [] then null else chain[0])
    && (forall i {:trigger chain[i].next} :: 0 <= i < |chain| ==>
          chain[i].next == if i + 1 < |chain| then chain[i + 1] else null)
  }

  // ----- which keys lie where: no heap in this part, since keys never change -----

  ghost predicate Lawful<K(!new)>(hash: K -> nat, equals: (K, K) -> bool) {
    Equivalence(equals) && Respects(hash, equals)
  }

  /** Every entry lies in the bucket of its hash, and no two entries of a bucket are equal. */
  ghost predicate InOrder<K(!new), V>(chains: seq<seq<Entry<K, V>>>, hash: K -> nat, equals: (K, K) -> bool) {
    && chains != []
    && (forall b, i :: 0 <= b < |chains| && 0 <= i < |chains[b]| ==> hash(chains[b][i].key) % |chains| == b)
    && (forall b, i, j :: 0 <= b < |chains| && 0 <= i < j < |chains[b]| ==> !equals(chains[b][i].key, chains[b][j].key))
  }

  ghost predicate HasKey<K(!new), V>(chains: seq<seq<Entry<K, V>>>, hash: K -> nat, k: K)
    requires chains != []
  {
    var chain := chains[hash(k) % |chains|];
    exists i :: 0 <= i < |chain| && chain[i].key == k
  }

  /** The keys of the entries are the keys of the map. */
  ghost predicate Covers<K(!new), V>(chains: seq<seq<Entry<K, V>>>, m: map<K, V>, hash: K -> nat)
    requires chains != []
  {
    && (forall b, i :: 0 <= b < |chains| && 0 <= i < |chains[b]| ==> chains[b][i].key in m)
    && (forall k {:trigger HasKey(chains, hash, k)} :: k in m ==> HasKey(chains, hash, k))
  }

  ghost predicate IsPlaced<K(!new), V>(e: Entry<K, V>, chains: seq<seq<Entry<K, V>>>, hash: K -> nat)
    requires chains != []
  {
    e in chains[hash(e.key) % |chains|]
  }

  ghost predicate AllPlaced<K(!new), V>(entries: set<Entry<K, V>>, chains: seq<seq<Entry<K, V>>>, hash: K -> nat)
    requires chains != []
  {
    forall e {:trigger IsPlaced(e, chains, hash)} :: e in entries ==> IsPlaced(e, chains, hash)
  }

  /** So no other entry has the key of a given one. */
  lemma OnlyEntry<K(!new), V>(entries: set<Entry<K, V>>, chains: seq<seq<Entry<K, V>>>, hash: K -> nat,
                              equals: (K, K) -> bool, b: nat, at: nat)
    requires Lawful(hash, equals) && InOrder(chains, hash, equals) && AllPlaced(entries, chains, hash)
    requires b < |chains| && at < |chains[b]|
    ensures forall e :: e in entries && e.key == chains[b][at].key ==> e == chains[b][at]
  {
    forall e | e in entries && e.key == chains[b][at].key
      ensures e == chains[b][at]
    {
      var c := hash(e.key) % |chains|;
      assert IsPlaced(e, chains, hash);
      var j: int :| 0 <= j < |chains[c]| && chains[c][j] == e;
      assert equals(e.key, e.key);
      OnePlace(chains, hash, equals, b, at, c, j);
    }
  }

  /** Equal keys are the key of one entry, and one entry is in one place. */
  lemma OnePlace<K(!new), V>(chains: seq<seq<Entry<K, V>>>, hash: K -> nat, equals: (K, K) -> bool,
                             b: nat, i: nat, c: nat, j: nat)
    requires Lawful(hash, equals) && InOrder(chains, hash, equals)
    requires b < |chains| && i < |chains[b]| && c < |chains| && j < |chains[c]|
    requires equals(chains[b][i].key, chains[c][j].key)
    ensures b == c && i == j
  {
    assert hash(chains[b][i].key) == hash(chains[c][j].key);
    assert equals(chains[c][j].key, chains[b][i].key);
  }

  lemma TwoPlaces<K(!new), V>(chains: seq<seq<Entry<K, V>>>, hash: K -> nat, equals: (K, K) -> bool,
                              b: nat, i: nat, c: nat, j: nat)
    requires Lawful(hash, equals) && InOrder(chains, hash, equals)
    requires b < |chains| && i < |chains[b]| && c < |chains| && j < |chains[c]| && (b != c || i != j)
    ensures !equals(chains[b][i].key, chains[c][j].key)
  {
  }

  lemma NodePlace<K(!new), V>(chains: seq<seq<Entry<K, V>>>, hash: K -> nat, equals: (K, K) -> bool, b: nat, at: nat)
    requires Lawful(hash, equals) && InOrder(chains, hash, equals)
    requires b < |chains| && at < |chains[b]|
    ensures forall c, i :: 0 <= c < |chains| && 0 <= i < |chains[c]| && chains[c][i] == chains[b][at] ==>
              c == b && i == at
  {
    forall c, i | 0 <= c < |chains| && 0 <= i < |chains[c]| && chains[c][i] == chains[b][at]
      ensures c == b && i == at
    {
      assert equals(chains[b][at].key, chains[b][at].key);
      OnePlace(chains, hash, equals, b, at, c, i);
    }
  }

  lemma OverwriteKeeps<K(!new), V>(chains: seq<seq<Entry<K, V>>>, m: map<K, V>, hash: K -> nat, equals: (K, K) -> bool,
                                   k: K, v: V)
    requires chains != [] && Covers(chains, m, hash) && Apart(m, equals) && k in m
    ensures Covers(chains, m[k := v], hash) && Apart(m[k := v], equals) && |m[k := v]| == |m|
  {
    assert m[k := v].Keys == m.Keys;
  }

  /** An unsuccessful walk through the bucket of a key means that no equal key is stored. */
  lemma WalkFinds<K(!new), V>(chains: seq<seq<Entry<K, V>>>, m: map<K, V>, hash: K -> nat, equals: (K, K) -> bool,
                              k: K, at: nat)
    requires Lawful(hash, equals) && InOrder(chains, hash, equals) && Covers(chains, m, hash) && Apart(m, equals)
    requires var chain := chains[hash(k) % |chains|];
             && at <= |chain| && (forall i :: 0 <= i < at ==> !equals(k, chain[i].key))
             && (at < |chain| ==> equals(k, chain[at].key))
    ensures var chain := chains[hash(k) % |chains|];
            RepOf(m, equals, k) == if at < |chain| then Some(chain[at].key) else None
  {
    var chain := chains[hash(k) % |chains|];
    if at < |chain| {
      RepIs(m, equals, k, chain[at].key);
    } else {
      forall a | a in m
        ensures !equals(k, a)
      {
        assert HasKey(chains, hash, a);
      }
    }
  }

  lemma AppendKeeps<K(!new), V>(chains: seq<seq<Entry<K, V>>>, m: map<K, V>, hash: K -> nat, equals: (K, K) -> bool,
                                entries: set<Entry<K, V>>, e: Entry<K, V>, v: V)
    requires Lawful(hash, equals) && InOrder(chains, hash, equals)
    requires Covers(chains, m, hash) && AllPlaced(entries, chains, hash)
    requires RepOf(m, equals, e.key) == None && Apart(m, equals)
    ensures var b := hash(e.key) % |chains|;
            var after: seq<seq<Entry<K, V>>> := chains[b := chains[b] + [e]];
            InOrder(after, hash, equals) && Covers(after, m[e.key := v], hash)
    ensures var b := hash(e.key) % |chains|;
            AllPlaced(entries + {e}, chains[b := chains[b] + [e]], hash)
    ensures e.key !in m && Apart(m[e.key := v], equals)
  {
    var b := hash(e.key) % |chains|;
    var after: seq<seq<Entry<K, V>>> := chains[b := chains[b] + [e]];
    assert equals(e.key, e.key);
    forall i | 0 <= i < |chains[b]|
      ensures !equals(chains[b][i].key, e.key)
    {
      assert !equals(e.key, chains[b][i].key);
    }
    forall f | f in entries + {e}
      ensures IsPlaced(f, after, hash)
    {
      assert f in entries ==> IsPlaced(f, chains, hash);
    }
    forall k | k in m[e.key := v]
      ensures HasKey(after, hash, k)
    {
      if k == e.key {
        assert after[b][|chains[b]|].key == k;
      } else {
        var c := hash(k) % |chains|;
        assert HasKey(chains, hash, k);
        var i: int :| 0 <= i < |chains[c]| && chains[c][i].key == k;
        assert after[c][i].key == k;
      }
    }
  }

  lemma RemoveKeeps<K(!new), V>(chains: seq<seq<Entry<K, V>>>, m: map<K, V>, hash: K -> nat, equals: (K, K) -> bool,
                                entries: set<Entry<K, V>>, b: nat, at: nat)
    requires Lawful(hash, equals) && InOrder(chains, hash, equals)
    requires Covers(chains, m, hash) && AllPlaced(entries, chains, hash)
    requires b < |chains| && at < |chains[b]|
    ensures var after: seq<seq<Entry<K, V>>> := chains[b := chains[b][..at] + chains[b][at + 1..]];
            && InOrder(after, hash, equals) && Covers(after, m - {chains[b][at].key}, hash)
            && AllPlaced(entries - {chains[b][at]}, after, hash)
  {
    var gone := chains[b][at].key;
    var after: seq<seq<Entry<K, V>>> := chains[b := chains[b][..at] + chains[b][at + 1..]];
    forall c, i | 0 <= c < |after| && 0 <= i < |after[c]|
      ensures hash(after[c][i].key) % |after| == c && after[c][i].key in m - {gone}
    {
      var j := if c == b && i >= at then i + 1 else i;
      assert after[c][i] == chains[c][j];
      TwoPlaces(chains, hash, equals, b, at, c, j);
      assert equals(gone, gone);
    }
    forall e | e in entries - {chains[b][at]}
      ensures IsPlaced(e, after, hash)
    {
      assert IsPlaced(e, chains, hash);
    }
    forall k | k in m - {gone}
      ensures HasKey(after, hash, k)
    {
      var c := hash(k) % |chains|;
      assert HasKey(chains, hash, k);
      var j: int :| 0 <= j < |chains[c]| && chains[c][j].key == k;
      assert after[c][if c == b && j > at then j - 1 else j].key == k;
    }
  }

  // ----- the table -----

  class Table<K(!new), V> {
    const buckets: array<Entry?<K, V>>
    const hash: K -> nat
    const equals: (K, K) -> bool
    var size: nat

    ghost var chains: seq<seq<Entry<K, V>>>
    ghost var entries: set<Entry<K, V>>
    ghost var contents: map<K, V>

    /** The links of the buckets are the chains. */
    ghost predicate Links()
      reads this, buckets, entries
    {
      && |chains| == buckets.Length
      && (forall b, i :: 0 <= b < |chains| && 0 <= i < |chains[b]| ==> chains[b][i] in entries)
      && (forall b :: 0 <= b < |chains| ==> Linked(buckets[b], chains[b]))
    }

    /** The entries are those of the contents. */
    ghost predicate Values()
      reads this, entries
    {
      forall e :: e in entries ==> e.key in contents && contents[e.key] == e.value
    }

    ghost predicate Valid()
      reads this, buckets, entries
    {
      && Lawful(hash, equals) && Apart(contents, equals) && size == |contents|
      && InOrder(chains, hash, equals) && Covers(chains, contents, hash) && AllPlaced(entries, chains, hash)
      && Links() && Values()
    }

    /** hash_table_create; int_table_create is the case of IntTableIsAMap. */
    constructor (length: nat, hash: K -> nat, equals: (K, K) -> bool)
      requires length > 0 && Lawful(hash, equals)
      ensures Valid() && contents == map[] && fresh(buckets) && fresh(entries)
      ensures this.hash == hash && this.equals == equals && buckets.Length == length
    {
      buckets := new Entry?<K, V>[length](_ => null);
      this.hash, this.equals, size := hash, equals, 0;
      chains, entries, contents := seq(length, _ => []), {}, map[];
    }

    /** The loop of hash_table_find and int_table_find. */
    method Walk(k: K, first: Entry?<K, V>, ghost chain: seq<Entry<K, V>>)
      returns (entry: Entry?<K, V>, prev: Entry?<K, V>, ghost at: nat)
      requires Linked(first, chain)
      ensures at <= |chain|
      ensures entry == (if at < |chain| then chain[at] else null)
      ensures prev == (if at > 0 then chain[at - 1] else null)
      ensures forall i :: 0 <= i < at ==> !equals(k, chain[i].key)
      ensures entry != null ==> equals(k, entry.key)
    {
      entry, prev, at := first, null, 0;
      while entry != null
        invariant 0 <= at <= |chain|
        invariant entry == (if at < |chain| then chain[at] else null)
        invariant prev == (if at > 0 then chain[at - 1] else null)
        invariant forall i :: 0 <= i < at ==> !equals(k, chain[i].key)
        decreases |chain| - at
      {
        if equals(k, entry.key) {
          return;
        }
        assert chain[at].next == if at + 1 < |chain| then chain[at + 1] else null;
        prev := entry;
        entry := entry.next;
        at := at + 1;
      }
    }

    /** hash_table_find, int_table_find: the entry of the key, the entry before it (the last of
        the bucket if there is none), and the bucket. */
    method Find(k: K) returns (entry: Entry?<K, V>, prev: Entry?<K, V>, bucket: nat, ghost at: nat)
      requires Valid()
      ensures bucket == hash(k) % buckets.Length && at <= |chains[bucket]|
      ensures entry == (if at < |chains[bucket]| then chains[bucket][at] else null)
      ensures prev == (if at > 0 then chains[bucket][at - 1] else null)
      ensures RepOf(contents, equals, k) == if entry == null then None else Some(entry.key)
    {
      bucket := hash(k) % buckets.Length;
      entry, prev, at := Walk(k, buckets[bucket], chains[bucket]);
      WalkFinds(chains, contents, hash, equals, k, at);
    }

    /** hash_table_get, int_table_get */
    method Lookup(k: K) returns (v: Option<V>)
      requires Valid()
      ensures v == Get(contents, equals, k)
    {
      var entry, prev, bucket, at := Find(k);
      if entry != null {
        assert entry == chains[bucket][at];
        return Some(entry.value);
      }
      return None;
    }

    /** hash_table_contains, int_table_contains */
    method Contains(k: K) returns (found: bool)
      requires Valid()
      ensures found <==> Get(contents, equals, k).Some?
    {
      var entry, prev, bucket, at := Find(k);
      return entry != null;
    }

    /** hash_table_put, int_table_put: returns the old value of the key, if it had one. */
    method Insert(k: K, v: V) returns (before: Option<V>)
      requires Valid()
      modifies this, buckets, entries
      ensures Valid() && fresh(entries - old(entries))
      ensures before == Get(old(contents), equals, k)
      ensures contents == Put(old(contents), equals, k, v)
    {
      var entry, prev, bucket, at := Find(k);
      if entry != null {
        assert entry == chains[bucket][at];
        before := Some(entry.value);
        Overwrite(entry, v, bucket, at);
      } else {
        before := None;
        AddEntry(k, v, prev, bucket);
      }
    }

    method Overwrite(entry: Entry<K, V>, v: V, ghost b: nat, ghost at: nat)
      requires Valid() && b < |chains| && at < |chains[b]| && entry == chains[b][at]
      modifies this`contents, entry`value
      ensures Valid() && contents == old(contents)[entry.key := v]
    {
      OverwriteKeeps(chains, contents, hash, equals, entry.key, v);
      OnlyEntry(entries, chains, hash, equals, b, at);
      entry.value := v;
      contents := contents[entry.key := v];
    }

    method AddEntry(k: K, v: V, prev: Entry?<K, V>, b: nat)
      requires Valid() && b == hash(k) % buckets.Length
      requires prev == if chains[b] == [] then null else chains[b][|chains[b]| - 1]
      requires RepOf(contents, equals, k) == None
      modifies this, buckets, entries`next
      ensures Valid() && fresh(entries - old(entries)) && contents == old(contents)[k := v]
    {
      var added := new Entry(k, v);
      AppendKeeps(chains, contents, hash, equals, entries, added, v);
      Append(added, prev, b);
      Record(k, v);
    }

    /** The contents and the size after a new entry has been linked. */
    method Record(k: K, v: V)
      requires Lawful(hash, equals) && Apart(contents[k := v], equals) && k !in contents && size == |contents|
      requires InOrder(chains, hash, equals) && Covers(chains, contents[k := v], hash)
      requires AllPlaced(entries, chains, hash) && Links()
      requires forall e :: e in entries ==> || (e.key == k && e.value == v)
                                            || (e.key in contents && contents[e.key] == e.value)
      modifies this`contents, this`size
      ensures Valid() && contents == old(contents)[k := v]
    {
      contents := contents[k := v];
      size := size + 1;
    }

    /** Linking a new entry behind the last one of its bucket. */
    method Append(added: Entry<K, V>, prev: Entry?<K, V>, b: nat)
      requires Lawful(hash, equals) && InOrder(chains, hash, equals) && Links()
      requires b < |chains| && added !in entries && added.next == null
      requires prev == if chains[b] == [] then null else chains[b][|chains[b]| - 1]
      modifies this`chains, this`entries, buckets, entries`next
      ensures Links() && entries == old(entries) + {added}
      ensures chains == old(chains)[b := old(chains[b]) + [added]]
    {
      ghost var n := |chains[b]|;
      if n > 0 {
        NodePlace(chains, hash, equals, b, n - 1);
      }
      if prev == null {
        buckets[b] := added;
      } else {
        prev.next := added;
      }
      chains := chains[b := chains[b] + [added]];
      entries := entries + {added};
    }

    /** hash_table_remove, int_table_remove: returns the value of the key, if it had one. */
    method Delete(k: K) returns (before: Option<V>)
      requires Valid()
      modifies this, buckets, entries
      ensures Valid() && entries <= old(entries)
      ensures before == Get(old(contents), equals, k)
      ensures contents == Remove(old(contents), equals, k)
    {
      var entry, prev, bucket, at := Find(k);
      if entry == null {
        return None;
      }
      assert entry == chains[bucket][at];
      before := Some(entry.value);
      DropEntry(entry, prev, bucket, at);
    }

    method DropEntry(entry: Entry<K, V>, prev: Entry?<K, V>, b: nat, ghost at: nat)
      requires Valid() && b < |chains| && at < |chains[b]| && entry == chains[b][at]
      requires prev == if at > 0 then chains[b][at - 1] else null
      modifies this, buckets, entries`next
      ensures Valid() && entries <= old(entries) && contents == old(contents) - {entry.key}
    {
      RemoveKeeps(chains, contents, hash, equals, entries, b, at);
      OnlyEntry(entries, chains, hash, equals, b, at);
      Unlink(entry, prev, b, at);
      assert (contents - {entry.key}).Keys == contents.Keys - {entry.key};
      contents := contents - {entry.key};
      size := size - 1;
    }

    /** Taking an entry out of its bucket. */
    method Unlink(entry: Entry<K, V>, prev: Entry?<K, V>, b: nat, ghost at: nat)
      requires Lawful(hash, equals) && InOrder(chains, hash, equals) && Links()
      requires b < |chains| && at < |chains[b]| && entry == chains[b][at]
      requires prev == if at > 0 then chains[b][at - 1] else null
      modifies this`chains, this`entries, buckets, entries`next
      ensures Links() && entries == old(entries) - {entry}
      ensures chains == old(chains)[b := old(chains[b])[..at] + old(chains[b])[at + 1..]]
    {
      NodePlace(chains, hash, equals, b, at);
      if at > 0 {
        NodePlace(chains, hash, equals, b, at - 1);
      }
      assert entry.next == if at + 1 < |chains[b]| then chains[b][at + 1] else null;
      ghost var chain := chains[b][..at] + chains[b][at + 1..];
      if prev == null {
        buckets[b] := entry.next;
      } else {
        prev.next := entry.next;
      }
      assert Linked(buckets[b], chain);
      chains := chains[b := chain];
      entries := entries - {entry};
    }

    /** The values are those of the entries that have been visited. */
    ghost predicate Seen(done: seq<Entry<K, V>>, values: seq<V>)
      reads this`entries, entries
    {
      |values| == |done| && forall j :: 0 <= j < |done| ==> done[j] in entries && values[j] == done[j].value
    }

    lemma SeenMore(done: seq<Entry<K, V>>, values: seq<V>, e: Entry<K, V>)
      requires Seen(done, values) && e in entries
      ensures Seen(done + [e], values + [e.value])
    {
    }

    /** hash_table_visit over the entries. */
    method Visit() returns (keys: seq<K>, values: seq<V>)
      requires Valid()
      ensures |keys| == |values|
      ensures forall i :: 0 <= i < |keys| ==> keys[i] in contents && contents[keys[i]] == values[i]
      ensures keys == KeysOf(Flat(chains))
    {
      keys, values := [], [];
      ghost var done: seq<Entry<K, V>> := [];
      var i := 0;
      while i < buckets.Length
        invariant 0 <= i <= buckets.Length && done == Flat(chains[..i])
        invariant keys == KeysOf(done) && Seen(done, values)
      {
        keys, values := VisitChain(buckets[i], chains[i], done, keys, values);
        done := done + chains[i];
        FlatMore(chains, i);
        i := i + 1;
      }
      assert chains[..i] == chains;
    }

    /** The loop over the entries of one bucket. */
    method VisitChain(first: Entry?<K, V>, ghost chain: seq<Entry<K, V>>, ghost before: seq<Entry<K, V>>,
                      keysBefore: seq<K>, valuesBefore: seq<V>) returns (keys: seq<K>, values: seq<V>)
      requires Linked(first, chain) && forall i :: 0 <= i < |chain| ==> chain[i] in entries
      requires keysBefore == KeysOf(before) && Seen(before, valuesBefore)
      ensures keys == KeysOf(before + chain) && Seen(before + chain, values)
    {
      keys, values := keysBefore, valuesBefore;
      var entry := first;
      ghost var at := 0;
      assert before + chain[..0] == before;
      while entry != null
        invariant 0 <= at <= |chain| && entry == (if at < |chain| then chain[at] else null)
        invariant keys == KeysOf(before + chain[..at]) && Seen(before + chain[..at], values)
        decreases |chain| - at
      {
        KeysOfMore(before + chain[..at], entry);
        SeenMore(before + chain[..at], values, entry);
        OneFurther(before, chain, at);
        keys, values := keys + [entry.key], values + [entry.value];
        entry := entry.next;
        at := at + 1;
      }
      assert chain[..at] == chain;
    }
  }

  function KeysOf<K, V>(es: seq<Entry<K, V>>): (s: seq<K>)
    ensures |s| == |es| && forall i :: 0 <= i < |s| ==> s[i] == es[i].key
  {
    if es == [] then [] else [es[0].key] + KeysOf(es[1..])
  }

  lemma KeysOfMore<K, V>(es: seq<Entry<K, V>>, e: Entry<K, V>)
    ensures KeysOf(es + [e]) == KeysOf(es) + [e.key]
  {
  }

  lemma OneFurther<K, V>(before: seq<Entry<K, V>>, chain: seq<Entry<K, V>>, at: nat)
    requires at < |chain|
    ensures before + chain[..at] + [chain[at]] == before + chain[..at + 1]
  {
  }

  /** The chains one behind the other. */
  function Flat<T>(chains: seq<seq<T>>): seq<T> {
    if chains == [] then [] else Flat(chains[..|chains| - 1]) + chains[|chains| - 1]
  }

  lemma FlatMore<T>(chains: seq<seq<T>>, i: nat)
    requires i < |chains|
    ensures Flat(chains[..i + 1]) == Flat(chains[..i]) + chains[i]
  {
    assert chains[..i + 1][..i] == chains[..i];
  }

  lemma {:induction false} FlatFrom<K(!new), V>(chains: seq<seq<Entry<K, V>>>, n: nat, j: nat) returns (b: nat, i: nat)
    requires n <= |chains| && j < |Flat(chains[..n])|
    ensures b < n && i < |chains[b]| && Flat(chains[..n])[j] == chains[b][i]
    ensures b == n - 1 ==> j == |Flat(chains[..n - 1])| + i
    ensures b < n - 1 ==> j < |Flat(chains[..n - 1])|
  {
    FlatMore(chains, n - 1);
    var rest := Flat(chains[..n - 1]);
    if j < |rest| {
      b, i := FlatFrom(chains, n - 1, j);
    } else {
      b, i := n - 1, j - |rest|;
    }
  }

  /** A visit comes to every key exactly once: it misses none that is in the map, and repeats none. */
  lemma {:induction false} VisitsOnce<K(!new), V>(chains: seq<seq<Entry<K, V>>>, m: map<K, V>,
                                                  hash: K -> nat, equals: (K, K) -> bool)
    requires Lawful(hash, equals) && InOrder(chains, hash, equals) && Covers(chains, m, hash)
    ensures var keys := KeysOf(Flat(chains));
            && (forall k :: k in m <==> k in keys)
            && (forall i, j :: 0 <= i < j < |keys| ==> !equals(keys[i], keys[j]))
  {
    var flat, keys := Flat(chains), KeysOf(Flat(chains));
    assert chains[..|chains|] == chains;
    forall k | k in m
      ensures k in keys
    {
      assert HasKey(chains, hash, k);
      var c := hash(k) % |chains|;
      var i: int :| 0 <= i < |chains[c]| && chains[c][i].key == k;
      FlatHas(chains, |chains|, c, i);
    }
    forall j | 0 <= j < |keys|
      ensures keys[j] in m
    {
      var b, i := FlatFrom(chains, |chains|, j);
    }
    forall i, j | 0 <= i < j < |keys|
      ensures !equals(keys[i], keys[j])
    {
      FlatApart(chains, hash, equals, |chains|, i, j);
    }
  }

  lemma {:induction false} FlatHas<K(!new), V>(chains: seq<seq<Entry<K, V>>>, n: nat, c: nat, i: nat)
    requires c < n <= |chains| && i < |chains[c]|
    ensures chains[c][i] in Flat(chains[..n])
  {
    FlatMore(chains, n - 1);
    if c == n - 1 {
      assert Flat(chains[..n])[|Flat(chains[..n - 1])| + i] == chains[c][i];
    } else {
      FlatHas(chains, n - 1, c, i);
    }
  }

  lemma {:induction false} FlatApart<K(!new), V>(chains: seq<seq<Entry<K, V>>>, hash: K -> nat, equals: (K, K) -> bool,
                                                 n: nat, i: nat, j: nat)
    requires Lawful(hash, equals) && InOrder(chains, hash, equals)
    requires n <= |chains| && i < j < |Flat(chains[..n])|
    ensures !equals(Flat(chains[..n])[i].key, Flat(chains[..n])[j].key)
  {
    FlatMore(chains, n - 1);
    var rest := Flat(chains[..n - 1]);
    if j < |rest| {
      FlatApart(chains, hash, equals, n - 1, i, j);
    } else {
      var b, x := FlatFrom(chains, n, i);
      TwoPlaces(chains, hash, equals, b, x, n - 1, j - |rest|);
    }
  }
}
