/**
 * A hash map with separate chaining (datastructures/MyHashMap.java).
 * Each bucket's chain of nodes is held as a sequence of entries, head
 * first; Java null keys are Option.None.
 */
module HashMaps {
  import opened Wrappers
  import ArrayLists

  const DEFAULT_CAPACITY := 16
  const INT_MIN := -0x8000_0000

  /** A Java int. */
  type Int32 = x: int | -0x8000_0000 <= x < 0x8000_0000

  // ---------------------------------------------------------------------------
  // Bucket index
  // ---------------------------------------------------------------------------

  /** Java's Math.abs on an int: Integer.MIN_VALUE has no positive counterpart and comes back unchanged. */
  function JavaAbs(x: Int32): Int32
  {
    if x == INT_MIN then x else if x < 0 then -x else x
  }

  /** Java's % on ints: truncating division, so the remainder takes the sign of the dividend. */
  function JavaRem(a: int, b: int): int
    requires b > 0
  {
    if a >= 0 then a % b else -((-a) % b)
  }

  /** getIndex as written: Math.abs(hashCode) % capacity. */
  function IndexAsWritten(hash: Int32, capacity: int): (i: int)
    requires capacity > 0
    ensures -capacity < i < capacity
    ensures hash != INT_MIN ==> 0 <= i
  {
    JavaRem(JavaAbs(hash), capacity)
  }

  /** A key whose hashCode is Integer.MIN_VALUE gets the index -2 in a map of capacity 3. */
  lemma IndexAsWrittenNegative()
    ensures IndexAsWritten(INT_MIN, 3) == -2
  {
    assert JavaAbs(INT_MIN) == INT_MIN;
    assert 0x8000_0000 % 3 == 2;
  }

  /**
   * getIndex as intended: the absolute value of the hash code taken without
   * overflow, reduced modulo the capacity. It agrees with the code for every
   * other hash code.
   */
  function Index(hash: Int32, capacity: int): (i: int)
    requires capacity > 0
    ensures 0 <= i < capacity
    ensures hash != INT_MIN ==> i == IndexAsWritten(hash, capacity)
  {
    (if hash < 0 then -(hash as int) else hash as int) % capacity
  }

  // ---------------------------------------------------------------------------
  // Chains
  // ---------------------------------------------------------------------------

  datatype Entry<K, V> = Entry(key: K, value: V)

  /** No two entries of the chain share a key. */
  ghost predicate DistinctKeys<K, V>(chain: seq<Entry<K, V>>)
  {
    forall a, b :: 0 <= a < b < |chain| ==> chain[a].key != chain[b].key
  }

  /** The chain walk of get: the value of the first entry with key `k`, or null. */
  function Find<K(==), V>(chain: seq<Entry<K, V>>, k: K): (r: Option<V>)
    ensures r.None? <==> forall j :: 0 <= j < |chain| ==> chain[j].key != k
  {
    if chain == [] then None
    else if chain[0].key == k then Some(chain[0].value)
    else Find(chain[1..], k)
  }

  /** The walk stops at the first entry with the key it looks for. */
  lemma {:induction false} FindAt<K, V>(chain: seq<Entry<K, V>>, j: int)
    requires 0 <= j < |chain|
    requires forall l :: 0 <= l < j ==> chain[l].key != chain[j].key
    ensures Find(chain, chain[j].key) == Some(chain[j].value)
    decreases j
  {
    if j > 0 {
      FindAt(chain[1..], j - 1);
    }
  }

  /** Overwriting the value of entry j changes what Find answers for its key and nothing else. */
  lemma {:induction false} FindUpdated<K, V>(chain: seq<Entry<K, V>>, j: int, v: V, k: K)
    requires DistinctKeys(chain) && 0 <= j < |chain|
    ensures Find(chain[j := Entry(chain[j].key, v)], k) == if k == chain[j].key then Some(v) else Find(chain, k)
    decreases j
  {
    var updated := chain[j := Entry(chain[j].key, v)];
    if j == 0 {
      if k != chain[0].key {
        assert updated[1..] == chain[1..];
      }
    } else {
      assert updated[1..] == chain[1..][j - 1 := Entry(chain[j].key, v)];
      FindUpdated(chain[1..], j - 1, v, k);
    }
  }

  /** Unlinking entry j makes its key absent and leaves every other key as it was. */
  lemma {:induction false} FindRemoved<K, V>(chain: seq<Entry<K, V>>, j: int, k: K)
    requires DistinctKeys(chain) && 0 <= j < |chain|
    ensures Find(chain[..j] + chain[j + 1..], k) == if k == chain[j].key then None else Find(chain, k)
    decreases j
  {
    var removed := chain[..j] + chain[j + 1..];
    if j == 0 {
      assert removed == chain[1..];
    } else {
      assert removed[0] == chain[0];
      assert removed[1..] == chain[1..][..j - 1] + chain[1..][j..];
      FindRemoved(chain[1..], j - 1, k);
    }
  }

  /** Unlinking an entry keeps the keys distinct. */
  lemma RemovedDistinct<K, V>(chain: seq<Entry<K, V>>, j: int)
    requires DistinctKeys(chain) && 0 <= j < |chain|
    ensures DistinctKeys(chain[..j] + chain[j + 1..])
  {
    var removed := chain[..j] + chain[j + 1..];
    forall a, b | 0 <= a < b < |removed| ensures removed[a].key != removed[b].key {
      var a', b' := if a < j then a else a + 1, if b < j then b else b + 1;
      assert removed[a] == chain[a'] && removed[b] == chain[b'];
    }
  }

  // ---------------------------------------------------------------------------
  // Every entry in bucket order
  // ---------------------------------------------------------------------------

  /** The chains one after another, bucket 0 first: the order keySet and values visit them. */
  function Flatten<K, V>(buckets: seq<seq<Entry<K, V>>>): seq<Entry<K, V>>
  {
    if buckets == [] then [] else Flatten(buckets[..|buckets| - 1]) + buckets[|buckets| - 1]
  }

  function KeysOf<K, V>(entries: seq<Entry<K, V>>): (keys: seq<K>)
    ensures |keys| == |entries| && forall n :: 0 <= n < |entries| ==> keys[n] == entries[n].key
  {
    seq(|entries|, n requires 0 <= n < |entries| => entries[n].key)
  }

  function ValuesOf<K, V>(entries: seq<Entry<K, V>>): (values: seq<V>)
    ensures |values| == |entries| && forall n :: 0 <= n < |entries| ==> values[n] == entries[n].value
  {
    seq(|entries|, n requires 0 <= n < |entries| => entries[n].value)
  }

  /** An entry occurs in the flattening exactly when it occurs in some chain. */
  lemma {:induction false} FlattenMember<K, V>(buckets: seq<seq<Entry<K, V>>>, e: Entry<K, V>)
    ensures e in Flatten(buckets) <==> exists i, j :: 0 <= i < |buckets| && 0 <= j < |buckets[i]| && buckets[i][j] == e
    decreases |buckets|
  {
    if buckets != [] {
      var n := |buckets| - 1;
      FlattenMember(buckets[..n], e);
      assert forall i :: 0 <= i < n ==> buckets[..n][i] == buckets[i];
      if e in buckets[n] {
        var j :| 0 <= j < |buckets[n]| && buckets[n][j] == e;
        assert buckets[n][j] == e;
      }
    }
  }

  /** Every chain sits in the bucket its keys hash to. */
  predicate Placed<K, V>(buckets: seq<seq<Entry<K, V>>>, hash: K -> Int32, capacity: int)
    requires capacity > 0
  {
    forall i, j :: 0 <= i < |buckets| && 0 <= j < |buckets[i]| ==> Index(hash(buckets[i][j].key), capacity) == i
  }

  /** Keys in distinct buckets differ and keys within a chain differ, so the flattening has no repeated key. */
  lemma {:induction false} FlattenDistinct<K, V>(buckets: seq<seq<Entry<K, V>>>, hash: K -> Int32, capacity: int)
    requires capacity > 0 && Placed(buckets, hash, capacity)
    requires forall i :: 0 <= i < |buckets| ==> DistinctKeys(buckets[i])
    ensures DistinctKeys(Flatten(buckets))
    decreases |buckets|
  {
    if buckets != [] {
      var n := |buckets| - 1;
      var front, last := buckets[..n], buckets[n];
      assert forall i :: 0 <= i < n ==> front[i] == buckets[i];
      FlattenDistinct(front, hash, capacity);
      var all := Flatten(front) + last;
      assert Flatten(buckets) == all;
      forall a, b | 0 <= a < b < |all| ensures all[a].key != all[b].key {
        if a < |Flatten(front)| <= b {
          var e := all[a];
          FlattenMember(front, e);
          var i, j :| 0 <= i < n && 0 <= j < |front[i]| && front[i][j] == e;
          assert Index(hash(e.key), capacity) == i;
          assert Index(hash(all[b].key), capacity) == n by {
            assert all[b] == last[b - |Flatten(front)|];
          }
        }
      }
    }
  }

  /** A sequence without repeats has as many distinct elements as positions. */
  lemma {:induction false} DistinctCard<T>(s: seq<T>)
    requires forall a, b :: 0 <= a < b < |s| ==> s[a] != s[b]
    ensures |set x | x in s| == |s|
    decreases |s|
  {
    if s != [] {
      var n := |s| - 1;
      DistinctCard(s[..n]);
      assert (set x | x in s) == (set x | x in s[..n]) + {s[n]};
      assert s[n] !in s[..n];
    }
  }

  /** Taking a present key out of a map shrinks it by one. */
  lemma RemoveCard<K, V>(m: map<K, V>, k: K)
    requires k in m
    ensures |m - {k}| == |m| - 1
  {
    assert (m - {k}).Keys == m.Keys - {k};
    assert m.Keys == (m.Keys - {k}) + {k};
  }

  /** A map whose keys lie inside another's and miss one of them is strictly smaller. */
  lemma SubmapSmaller<K, V>(a: map<K, V>, b: map<K, V>, k: K)
    requires a.Keys <= b.Keys && k in b && k !in a
    ensures |a| < |b|
  {
    SubsetSmaller(a.Keys, b.Keys, k);
  }

  /** A subset that misses an element of the larger set is strictly smaller. */
  lemma SubsetSmaller<T>(x: set<T>, y: set<T>, k: T)
    requires x <= y && k in y && k !in x
    ensures |x| < |y|
  {
    var rest := y - {k};
    assert rest + {k} == y;
    var extra := rest - x;
    assert x + extra == rest;
    assert x * extra == {};
  }

  // ---------------------------------------------------------------------------
  // The bucket table as a value
  // ---------------------------------------------------------------------------

  /** What get answers for `k`: the walk of the chain in k's slot. */
  function Lookup<K(==), V>(buckets: seq<seq<Entry<K, V>>>, hash: K -> Int32, capacity: int, k: K): Option<V>
    requires 0 < capacity == |buckets|
  {
    Find(buckets[Index(hash(k), capacity)], k)
  }

  /** A map's value for `k`, or null when `k` has none. */
  function MapGet<K, V>(m: map<K, V>, k: K): (r: Option<V>)
    ensures r.Some? <==> k in m
    ensures r.Some? ==> r.value == m[k]
  {
    if k in m then Some(m[k]) else None
  }

  /**
   * `buckets` represents `contents`: one chain per slot, every entry in its
   * key's slot, no key twice in a chain, and each key's chain answers what
   * `contents` maps it to.
   */
  ghost predicate Table<K(!new), V>(buckets: seq<seq<Entry<K, V>>>, hash: K -> Int32, capacity: int, contents: map<K, V>)
  {
    && 0 < capacity == |buckets|
    && Placed(buckets, hash, capacity)
    && (forall i :: 0 <= i < capacity ==> DistinctKeys(buckets[i]))
    && (forall k :: Lookup(buckets, hash, capacity, k) == MapGet(contents, k))
  }

  /** Empty chains represent the empty map. */
  lemma TableEmpty<K(!new), V>(hash: K -> Int32, capacity: int)
    requires capacity > 0
    ensures Table<K, V>(seq(capacity, _ => []), hash, capacity, map[])
  {
  }

  /** Each entry of a chain is one of the mappings, and sits in its key's slot. */
  lemma EntryIsMapping<K(!new), V>(buckets: seq<seq<Entry<K, V>>>, hash: K -> Int32, capacity: int, contents: map<K, V>, i: int, j: int)
    requires Table(buckets, hash, capacity, contents)
    requires 0 <= i < capacity && 0 <= j < |buckets[i]|
    ensures var e := buckets[i][j];
      Index(hash(e.key), capacity) == i && e.key in contents && contents[e.key] == e.value
  {
    var chain := buckets[i];
    assert Index(hash(chain[j].key), capacity) == i;
    assert DistinctKeys(chain);
    FindAt(chain, j);
    assert Lookup(buckets, hash, capacity, chain[j].key) == MapGet(contents, chain[j].key);
  }

  /** Each mapping is an entry of the chain in its key's slot. */
  lemma MappingIsEntry<K(!new), V>(buckets: seq<seq<Entry<K, V>>>, hash: K -> Int32, capacity: int, contents: map<K, V>, k: K)
    requires Table(buckets, hash, capacity, contents) && k in contents
    ensures var chain := buckets[Index(hash(k), capacity)];
      exists j :: 0 <= j < |chain| && chain[j] == Entry(k, contents[k])
  {
    var chain := buckets[Index(hash(k), capacity)];
    assert Lookup(buckets, hash, capacity, k) == MapGet(contents, k);
    var j := FirstWith(chain, k);
    assert chain[j] == Entry(k, contents[k]);
  }

  /** put on a present key: overwriting entry j's value updates that one mapping. */
  lemma TableUpdate<K(!new), V>(buckets: seq<seq<Entry<K, V>>>, hash: K -> Int32, capacity: int, contents: map<K, V>, i: int, j: int, v: V)
    requires Table(buckets, hash, capacity, contents)
    requires 0 <= i < capacity && 0 <= j < |buckets[i]|
    ensures var k := buckets[i][j].key;
      Table(buckets[i := buckets[i][j := Entry(k, v)]], hash, capacity, contents[k := v])
  {
    var chain := buckets[i];
    var k := chain[j].key;
    var updated: seq<seq<Entry<K, V>>> := buckets[i := chain[j := Entry(k, v)]];
    EntryIsMapping(buckets, hash, capacity, contents, i, j);
    assert Placed(updated, hash, capacity) by {
      forall a, b | 0 <= a < |updated| && 0 <= b < |updated[a]| ensures Index(hash(updated[a][b].key), capacity) == a {
        assert updated[a][b].key == buckets[a][b].key;
      }
    }
    assert DistinctKeys(updated[i]) by {
      forall a, b | 0 <= a < b < |updated[i]| ensures updated[i][a].key != updated[i][b].key {
        assert updated[i][a].key == chain[a].key && updated[i][b].key == chain[b].key;
      }
    }
    forall k' ensures Lookup(updated, hash, capacity, k') == MapGet(contents[k := v], k') {
      assert Lookup(buckets, hash, capacity, k') == MapGet(contents, k');
      if Index(hash(k'), capacity) == i {
        FindUpdated(chain, j, v, k');
      }
    }
  }

  /** put on an absent key: the new entry at the head of its chain adds that one mapping. */
  lemma TablePrepend<K(!new), V>(buckets: seq<seq<Entry<K, V>>>, hash: K -> Int32, capacity: int, contents: map<K, V>, k: K, v: V)
    requires Table(buckets, hash, capacity, contents) && k !in contents
    ensures var i := Index(hash(k), capacity);
      Table(buckets[i := [Entry(k, v)] + buckets[i]], hash, capacity, contents[k := v])
  {
    var i := Index(hash(k), capacity);
    var chain := buckets[i];
    var grown := [Entry(k, v)] + chain;
    var updated: seq<seq<Entry<K, V>>> := buckets[i := grown];
    assert grown[1..] == chain;
    assert Lookup(buckets, hash, capacity, k) == MapGet(contents, k);
    assert Placed(updated, hash, capacity) by {
      forall a, b | 0 <= a < |updated| && 0 <= b < |updated[a]| ensures Index(hash(updated[a][b].key), capacity) == a {
        if a == i && b > 0 {
          assert updated[a][b] == chain[b - 1];
        }
      }
    }
    assert DistinctKeys(grown) by {
      forall a, b | 0 <= a < b < |grown| ensures grown[a].key != grown[b].key {
        assert grown[b] == chain[b - 1];
        if a > 0 {
          assert grown[a] == chain[a - 1];
        }
      }
    }
    forall k' ensures Lookup(updated, hash, capacity, k') == MapGet(contents[k := v], k') {
      assert Lookup(buckets, hash, capacity, k') == MapGet(contents, k');
    }
  }

  /** remove: unlinking entry j drops that one mapping. */
  lemma TableUnlink<K(!new), V>(buckets: seq<seq<Entry<K, V>>>, hash: K -> Int32, capacity: int, contents: map<K, V>, i: int, j: int)
    requires Table(buckets, hash, capacity, contents)
    requires 0 <= i < capacity && 0 <= j < |buckets[i]|
    ensures Table(buckets[i := buckets[i][..j] + buckets[i][j + 1..]], hash, capacity, contents - {buckets[i][j].key})
  {
    var chain := buckets[i];
    var k := chain[j].key;
    var shrunk := chain[..j] + chain[j + 1..];
    var updated: seq<seq<Entry<K, V>>> := buckets[i := shrunk];
    EntryIsMapping(buckets, hash, capacity, contents, i, j);
    RemovedDistinct(chain, j);
    assert Placed(updated, hash, capacity) by {
      forall a, b | 0 <= a < |updated| && 0 <= b < |updated[a]| ensures Index(hash(updated[a][b].key), capacity) == a {
        if a == i {
          assert updated[a][b] == chain[if b < j then b else b + 1];
        }
      }
    }
    forall k' ensures Lookup(updated, hash, capacity, k') == MapGet(contents - {k}, k') {
      assert Lookup(buckets, hash, capacity, k') == MapGet(contents, k');
      if Index(hash(k'), capacity) == i {
        FindRemoved(chain, j, k');
      }
    }
  }

  /**
   * The entries keySet and values visit are exactly the mappings, each once:
   * no key repeats, each entry is a mapping, each mapping is an entry, and
   * there are as many entries as mappings.
   */
  lemma FlattenExactlyOnce<K(!new), V>(buckets: seq<seq<Entry<K, V>>>, hash: K -> Int32, capacity: int, contents: map<K, V>)
    requires Table(buckets, hash, capacity, contents)
    ensures DistinctKeys(Flatten(buckets))
    ensures forall e :: e in Flatten(buckets) ==> e.key in contents && contents[e.key] == e.value
    ensures forall k :: k in contents ==> Entry(k, contents[k]) in Flatten(buckets)
    ensures |Flatten(buckets)| == |contents|
  {
    var es := Flatten(buckets);
    FlattenDistinct(buckets, hash, capacity);
    forall e | e in es ensures e.key in contents && contents[e.key] == e.value {
      FlattenMember(buckets, e);
      var i, j :| 0 <= i < |buckets| && 0 <= j < |buckets[i]| && buckets[i][j] == e;
      EntryIsMapping(buckets, hash, capacity, contents, i, j);
    }
    forall k | k in contents ensures Entry(k, contents[k]) in es {
      MappingIsEntry(buckets, hash, capacity, contents, k);
      FlattenMember(buckets, Entry(k, contents[k]));
    }
    var keys := KeysOf(es);
    DistinctCard(keys);
    assert (set x | x in keys) == contents.Keys by {
      forall x | x in keys ensures x in contents {
        var n :| 0 <= n < |keys| && keys[n] == x;
        assert es[n] in es;
      }
      forall x | x in contents ensures x in keys {
        var n :| 0 <= n < |es| && es[n] == Entry(x, contents[x]);
        assert keys[n] == x;
      }
    }
  }

  /** The first position of `k` in a chain where it occurs. */
  lemma FirstWith<K, V>(chain: seq<Entry<K, V>>, k: K) returns (j: int)
    requires Find(chain, k).Some?
    ensures 0 <= j < |chain| && chain[j].key == k
    ensures forall l :: 0 <= l < j ==> chain[l].key != k
    ensures Find(chain, k) == Some(chain[j].value)
  {
    j := 0;
    while chain[j].key != k
      invariant 0 <= j < |chain|
      invariant forall l :: 0 <= l < j ==> chain[l].key != k
      decreases |chain| - j
    {
      j := j + 1;
    }
    FindAt(chain, j);
  }

  /** The keys of a list of entries, one chain appended after another. */
  lemma KeysValuesAppend<K, V>(a: seq<Entry<K, V>>, b: seq<Entry<K, V>>)
    ensures KeysOf(a + b) == KeysOf(a) + KeysOf(b)
    ensures ValuesOf(a + b) == ValuesOf(a) + ValuesOf(b)
  {
  }

  /** The keySet loop over one chain: each key appended, head to tail. */
  method AppendKeys<K(==), V>(keys: ArrayLists.MyArrayList<K>, chain: seq<Entry<K, V>>)
    requires keys.Valid()
    modifies keys, keys.data
    ensures keys.Valid() && keys.Contents == old(keys.Contents) + KeysOf(chain)
    ensures keys.data == old(keys.data) || fresh(keys.data)
  {
    for j := 0 to |chain|
      invariant keys.Valid() && keys.Contents == old(keys.Contents) + KeysOf(chain[..j])
      invariant keys.data == old(keys.data) || fresh(keys.data)
    {
      var _ := keys.Add(chain[j].key);
      KeysValuesAppend(chain[..j], [chain[j]]);
      assert chain[..j + 1] == chain[..j] + [chain[j]];
    }
    assert chain[..|chain|] == chain;
  }

  /** The values loop over one chain: each value appended, head to tail. */
  method AppendValues<K, V(==)>(values: ArrayLists.MyArrayList<V>, chain: seq<Entry<K, V>>)
    requires values.Valid()
    modifies values, values.data
    ensures values.Valid() && values.Contents == old(values.Contents) + ValuesOf(chain)
    ensures values.data == old(values.data) || fresh(values.data)
  {
    for j := 0 to |chain|
      invariant values.Valid() && values.Contents == old(values.Contents) + ValuesOf(chain[..j])
      invariant values.data == old(values.data) || fresh(values.data)
    {
      var _ := values.Add(chain[j].value);
      KeysValuesAppend(chain[..j], [chain[j]]);
      assert chain[..j + 1] == chain[..j] + [chain[j]];
    }
    assert chain[..|chain|] == chain;
  }

  // ---------------------------------------------------------------------------
  // The map
  // ---------------------------------------------------------------------------

  class MyHashMap<K(==,!new), V(==)> {
    /** The keys' hashCode. */
    const hashCode: K -> Int32
    var buckets: array<seq<Entry<K, V>>>
    var size: int
    var capacity: int
    /** The mappings. */
    ghost var Contents: map<K, V>

    /**
     * The buckets represent Contents, `size` counts the mappings, and the
     * load check has fired whenever it should have.
     */
    ghost predicate Valid()
      reads this, buckets
    {
      && capacity == buckets.Length
      && Table(buckets[..], hashCode, capacity, Contents)
      && size == |Contents|
      && 4 * size < 3 * capacity + 4
    }

    /** The entries in the order keySet and values visit them. */
    ghost function Entries(): seq<Entry<K, V>>
      reads this, buckets
    {
      Flatten(buckets[..])
    }

    /** The MyHashMap(int) constructor, for a positive capacity. */
    constructor (capacity: int, hashCode: K -> Int32)
      requires capacity > 0
      ensures Valid() && Contents == map[] && this.capacity == capacity && this.hashCode == hashCode
    {
      this.hashCode := hashCode;
      this.capacity := capacity;
      buckets := new seq<Entry<K, V>>[capacity](_ => []);
      size := 0;
      Contents := map[];
      new;
      TableEmpty<K, V>(hashCode, capacity);
      assert buckets[..] == seq(capacity, _ => []);
    }

    /** The no-argument constructor: DEFAULT_CAPACITY buckets. */
    constructor Default(hashCode: K -> Int32)
      ensures Valid() && Contents == map[] && capacity == DEFAULT_CAPACITY && this.hashCode == hashCode
    {
      this.hashCode := hashCode;
      capacity := DEFAULT_CAPACITY;
      buckets := new seq<Entry<K, V>>[DEFAULT_CAPACITY](_ => []);
      size := 0;
      Contents := map[];
      new;
      TableEmpty<K, V>(hashCode, DEFAULT_CAPACITY);
      assert buckets[..] == seq(DEFAULT_CAPACITY, _ => []);
    }

    function Size(): (n: int)
      requires Valid()
      reads this, buckets
      ensures n == |Contents|
    {
      size
    }

    function IsEmpty(): (empty: bool)
      requires Valid()
      reads this, buckets
      ensures empty <==> Contents == map[]
    {
      size == 0
    }

    /**
     * MyHashMap.put: a null key throws; otherwise the load check may resize
     * first, then an existing key's value is replaced and returned, or a new
     * entry goes to the head of its chain and null is returned.
     */
    method Put(key: Option<K>, value: V) returns (r: Result<Option<V>>)
      requires Valid()
      modifies this, buckets
      decreases if 4 * size >= 3 * capacity then 3 else 0
      ensures Valid()
      ensures key.None? ==> r == Err(IllegalArgument) && Contents == old(Contents) && capacity == old(capacity)
      ensures key.Some? ==>
        && r == Ok(if key.value in old(Contents) then Some(old(Contents)[key.value]) else None)
        && Contents == old(Contents)[key.value := value]
        && capacity == if 4 * old(size) >= 3 * old(capacity) then 2 * old(capacity) else old(capacity)
      ensures 4 * old(size) < 3 * old(capacity) ==> buckets == old(buckets)
      ensures buckets == old(buckets) || fresh(buckets)
    {
      if key.None? {
        return Err(IllegalArgument);
      }
      var k := key.value;
      if 4 * size >= 3 * capacity {
        Resize();
      }
      var index := Index(hashCode(k), capacity);
      var chain := buckets[index];
      ghost var table := buckets[..];
      var j := 0;
      while j < |chain|
        invariant 0 <= j <= |chain|
        invariant forall l :: 0 <= l < j ==> chain[l].key != k
      {
        if chain[j].key == k {
          var oldValue := chain[j].value;
          EntryIsMapping(table, hashCode, capacity, Contents, index, j);
          TableUpdate(table, hashCode, capacity, Contents, index, j, value);
          buckets[index] := chain[j := Entry(k, value)];
          Contents := Contents[k := value];
          assert buckets[..] == table[index := chain[j := Entry(k, value)]];
          return Ok(Some(oldValue));
        }
        j := j + 1;
      }
      assert k !in Contents by {
        assert Lookup(table, hashCode, capacity, k) == MapGet(Contents, k);
      }
      TablePrepend(table, hashCode, capacity, Contents, k, value);
      buckets[index] := [Entry(k, value)] + chain;
      size := size + 1;
      Contents := Contents[k := value];
      assert buckets[..] == table[index := [Entry(k, value)] + chain];
      return Ok(None);
    }

    /**
     * MyHashMap.resize: doubles the capacity and puts every entry of the old
     * buckets, bucket by bucket, into fresh ones.
     */
    method Resize()
      requires Valid() && 4 * size >= 3 * capacity
      modifies this
      decreases 2
      ensures Valid() && fresh(buckets)
      ensures Contents == old(Contents) && capacity == 2 * old(capacity)
    {
      var oldBuckets := buckets;
      ghost var all := Contents;
      ghost var oldCapacity := capacity;
      ghost var oldTable := buckets[..];
      capacity := capacity * 2;
      buckets := new seq<Entry<K, V>>[capacity](_ => []);
      size := 0;
      Contents := map[];
      TableEmpty<K, V>(hashCode, capacity);
      assert buckets[..] == seq(capacity, _ => []);
      for i := 0 to oldBuckets.Length
        invariant Valid() && fresh(buckets) && capacity == 2 * oldCapacity
        invariant oldBuckets[..] == oldTable
        invariant forall k :: k in Contents <==> k in all && Index(hashCode(k), oldCapacity) < i
        invariant forall k :: k in Contents ==> Contents[k] == all[k]
      {
        Reinsert(oldBuckets[i], oldTable, oldCapacity, all, i);
      }
      assert Contents.Keys == all.Keys;
    }

    /**
     * One bucket of resize: puts the entries of old chain i, which are not
     * in the new buckets yet. The load check of these puts never fires,
     * because fewer than the old size entries have been put back so far.
     */
    method Reinsert(chain: seq<Entry<K, V>>, ghost oldTable: seq<seq<Entry<K, V>>>, ghost oldCapacity: int, ghost all: map<K, V>, ghost i: int)
      requires Valid() && capacity == 2 * oldCapacity
      requires Table(oldTable, hashCode, oldCapacity, all) && 4 * |all| < 3 * oldCapacity + 4
      requires 0 <= i < oldCapacity && chain == oldTable[i]
      requires forall k :: k in Contents <==> k in all && Index(hashCode(k), oldCapacity) < i
      requires forall k :: k in Contents ==> Contents[k] == all[k]
      modifies this, buckets
      decreases 1
      ensures Valid() && buckets == old(buckets) && capacity == old(capacity)
      ensures forall k :: k in Contents <==> k in all && Index(hashCode(k), oldCapacity) <= i
      ensures forall k :: k in Contents ==> Contents[k] == all[k]
    {
      for j := 0 to |chain|
        invariant Valid() && buckets == old(buckets) && capacity == old(capacity)
        invariant forall k :: k in Contents <==>
          k in all && (Index(hashCode(k), oldCapacity) < i ||
                       (Index(hashCode(k), oldCapacity) == i && exists l :: 0 <= l < j && chain[l].key == k))
        invariant forall k :: k in Contents ==> Contents[k] == all[k]
      {
        var e := chain[j];
        EntryIsMapping(oldTable, hashCode, oldCapacity, all, i, j);
        assert DistinctKeys(chain);
        SubmapSmaller(Contents, all, e.key);
        var _ := Put(Some(e.key), e.value);
      }
      forall k | k in all && Index(hashCode(k), oldCapacity) == i
        ensures exists l :: 0 <= l < |chain| && chain[l].key == k
      {
        MappingIsEntry(oldTable, hashCode, oldCapacity, all, k);
      }
    }

    /** MyHashMap.get: the value of `key`, or null for an absent or null key. */
    method Get(key: Option<K>) returns (r: Option<V>)
      requires Valid()
      ensures r == if key.Some? && key.value in Contents then Some(Contents[key.value]) else None
    {
      if key.None? {
        return None;
      }
      var k := key.value;
      var chain := buckets[Index(hashCode(k), capacity)];
      assert Lookup(buckets[..], hashCode, capacity, k) == MapGet(Contents, k);
      var j := 0;
      while j < |chain|
        invariant 0 <= j <= |chain|
        invariant forall l :: 0 <= l < j ==> chain[l].key != k
      {
        if chain[j].key == k {
          FindAt(chain, j);
          return Some(chain[j].value);
        }
        j := j + 1;
      }
      return None;
    }

    /**
     * MyHashMap.remove: unlinks the entry of `key` and returns its value;
     * an absent or null key returns null and changes nothing.
     */
    method Remove(key: Option<K>) returns (r: Option<V>)
      requires Valid()
      modifies buckets, this
      ensures Valid() && capacity == old(capacity)
      ensures r == if key.Some? && key.value in old(Contents) then Some(old(Contents)[key.value]) else None
      ensures Contents == if key.Some? then old(Contents) - {key.value} else old(Contents)
    {
      if key.None? {
        return None;
      }
      var k := key.value;
      var index := Index(hashCode(k), capacity);
      var chain := buckets[index];
      ghost var table := buckets[..];
      var j := 0;
      while j < |chain|
        invariant 0 <= j <= |chain|
        invariant forall l :: 0 <= l < j ==> chain[l].key != k
      {
        if chain[j].key == k {
          EntryIsMapping(table, hashCode, capacity, Contents, index, j);
          TableUnlink(table, hashCode, capacity, Contents, index, j);
          RemoveCard(Contents, k);
          buckets[index] := chain[..j] + chain[j + 1..];
          size := size - 1;
          Contents := Contents - {k};
          assert buckets[..] == table[index := chain[..j] + chain[j + 1..]];
          return Some(chain[j].value);
        }
        j := j + 1;
      }
      assert k !in Contents by {
        assert Lookup(table, hashCode, capacity, k) == MapGet(Contents, k);
      }
      assert Contents - {k} == Contents;
      return None;
    }

    /** MyHashMap.containsKey: get answered non-null. */
    method ContainsKey(key: Option<K>) returns (found: bool)
      requires Valid()
      ensures found <==> key.Some? && key.value in Contents
    {
      var v := Get(key);
      return v.Some?;
    }

    /** MyHashMap.containsValue: some entry of some chain holds `value`. */
    method ContainsValue(value: V) returns (found: bool)
      requires Valid()
      ensures found <==> exists k :: k in Contents && Contents[k] == value
    {
      for i := 0 to buckets.Length
        invariant forall a, b :: 0 <= a < i && 0 <= b < |buckets[a]| ==> buckets[a][b].value != value
      {
        var chain := buckets[i];
        for j := 0 to |chain|
          invariant forall b :: 0 <= b < j ==> chain[b].value != value
        {
          if chain[j].value == value {
            EntryIsMapping(buckets[..], hashCode, capacity, Contents, i, j);
            return true;
          }
        }
      }
      forall k | k in Contents ensures Contents[k] != value {
        MappingIsEntry(buckets[..], hashCode, capacity, Contents, k);
      }
      return false;
    }

    /** MyHashMap.clear: every bucket emptied, size 0; the capacity stays. */
    method Clear()
      requires Valid()
      modifies this, buckets
      ensures Valid() && Contents == map[] && capacity == old(capacity)
    {
      for i := 0 to capacity
        modifies buckets
        invariant forall l :: 0 <= l < i ==> buckets[l] == []
      {
        buckets[i] := [];
      }
      size := 0;
      Contents := map[];
      TableEmpty<K, V>(hashCode, capacity);
      assert buckets[..] == seq(capacity, _ => []);
    }

    /**
     * MyHashMap.keySet: every key, bucket by bucket and head to tail within
     * a chain, each mapping's key exactly once.
     */
    method KeySet() returns (keys: ArrayLists.MyArrayList<K>)
      requires Valid()
      ensures fresh(keys) && keys.Valid() && keys.Contents == KeysOf(Entries())
      ensures |keys.Contents| == |Contents| && forall k :: k in keys.Contents <==> k in Contents
    {
      keys := new ArrayLists.MyArrayList.Default();
      for i := 0 to buckets.Length
        invariant fresh(keys) && fresh(keys.data) && keys.Valid()
        invariant keys.Contents == KeysOf(Flatten(buckets[..i]))
      {
        AppendKeys(keys, buckets[i]);
        KeysValuesAppend(Flatten(buckets[..i]), buckets[i]);
        assert buckets[..i + 1][..i] == buckets[..i];
      }
      assert buckets[..buckets.Length] == buckets[..];
      assert keys.Contents == KeysOf(Entries());
      FlattenExactlyOnce(buckets[..], hashCode, capacity, Contents);
      forall k ensures k in keys.Contents <==> k in Contents {
        if k in Contents {
          var n :| 0 <= n < |Entries()| && Entries()[n] == Entry(k, Contents[k]);
          assert KeysOf(Entries())[n] == k;
        }
        if k in keys.Contents {
          var n :| 0 <= n < |keys.Contents| && keys.Contents[n] == k;
          assert Entries()[n] in Entries();
        }
      }
    }

    /**
     * MyHashMap.values: every value, in the order keySet lists the keys,
     * so the n-th value is the one mapped to the n-th key.
     */
    method Values() returns (values: ArrayLists.MyArrayList<V>)
      requires Valid()
      ensures fresh(values) && values.Valid() && values.Contents == ValuesOf(Entries())
      ensures |values.Contents| == |Contents|
      ensures forall n :: 0 <= n < |values.Contents| ==>
        Entries()[n].key in Contents && values.Contents[n] == Contents[Entries()[n].key]
    {
      values := new ArrayLists.MyArrayList.Default();
      for i := 0 to buckets.Length
        invariant fresh(values) && fresh(values.data) && values.Valid()
        invariant values.Contents == ValuesOf(Flatten(buckets[..i]))
      {
        AppendValues(values, buckets[i]);
        KeysValuesAppend(Flatten(buckets[..i]), buckets[i]);
        assert buckets[..i + 1][..i] == buckets[..i];
      }
      assert buckets[..buckets.Length] == buckets[..];
      FlattenExactlyOnce(buckets[..], hashCode, capacity, Contents);
      forall n | 0 <= n < |values.Contents|
        ensures Entries()[n].key in Contents && values.Contents[n] == Contents[Entries()[n].key]
      {
        assert Entries()[n] in Entries();
      }
    }
  }
}
