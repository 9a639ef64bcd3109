/** hashmap.c: a chained hash table that doubles, proved to be a finite map. */
module HashMap {
  import opened Arithmetic
  import opened Basics

  datatype Entry<K, V> = Entry(key: K, hash: int, value: V)

  type Chain<K, V> = seq<Entry<K, V>>

  // ---------- the bucket index ----------

  /** Bitwise and of two unsigned words. */
  function And(x: nat, y: nat): nat {
    if x == 0 || y == 0 then 0 else 2 * And(x / 2, y / 2) + (if x % 2 == 1 && y % 2 == 1 then 1 else 0)
  }

  predicate IsHash(hash: int) {
    -0x8000_0000 <= hash <= 0x7fff_ffff
  }

  /** The cast of a 32-bit int to a 64-bit size_t. */
  function ToSize(hash: int): nat
    requires IsHash(hash)
  {
    if hash >= 0 then hash else 0x1_0000_0000_0000_0000 + hash
  }

  function CalculateIndex(bucketCount: nat, hash: int): nat
    requires bucketCount > 0 && IsHash(hash)
  {
    And(ToSize(hash), bucketCount - 1)
  }

  /** The mask splits a word into whole buckets-worth and what is left. */
  lemma {:induction false} MaskSplits(x: nat, k: nat) returns (q: nat)
    ensures x == q * Pow2(k) + And(x, Pow2(k) - 1) && And(x, Pow2(k) - 1) < Pow2(k)
    decreases k
  {
    if k == 0 {
      q := x;
    } else {
      var n := Pow2(k - 1);
      q := MaskSplits(x / 2, k - 1);
      AndOdd(x, n - 1);
      DoubleSplit(x, q, n, And(x / 2, n - 1));
      assert 2 * (n - 1) + 1 == Pow2(k) - 1;
    }
  }

  lemma DoubleSplit(x: nat, q: nat, n: nat, a: nat)
    requires x / 2 == q * n + a && a < n
    ensures x == q * (2 * n) + (2 * a + x % 2) && 2 * a + x % 2 < 2 * n
  {
    assert q * (2 * n) == 2 * (q * n);
  }

  lemma AndOdd(x: nat, h: nat)
    ensures And(x, 2 * h + 1) == 2 * And(x / 2, h) + x % 2
  {
    assert (2 * h + 1) / 2 == h && (2 * h + 1) % 2 == 1;
  }

  lemma MaskIsRemainder(x: nat, k: nat)
    ensures And(x, Pow2(k) - 1) == x % Pow2(k)
  {
    var q := MaskSplits(x, k);
    DivUnique(x, Pow2(k), q, And(x, Pow2(k) - 1));
  }

  /** For a power of two the mask is the remainder, so the index is a bucket. */
  lemma IndexInRange(k: nat, hash: int)
    requires IsHash(hash)
    ensures CalculateIndex(Pow2(k), hash) == ToSize(hash) % Pow2(k)
    ensures CalculateIndex(Pow2(k), hash) < Pow2(k)
  {
    MaskIsRemainder(ToSize(hash), k);
  }

  // ---------- the number of buckets ----------

  /** The values of a 64-bit size_t. */
  const SIZE_VALUES: nat := 0x1_0000_0000_0000_0000

  /** The first doubling of n that is greater than a minimum. */
  function PowerAbove(minimum: nat, n: nat): (r: nat)
    requires n > 0
    ensures r > minimum && (r == n || r <= 2 * minimum)
    decreases minimum - n
  {
    if n > minimum then n else PowerAbove(minimum, 2 * n)
  }

  /** The buckets that hashmapCreate makes. */
  function BucketsFor(initialCapacity: nat): nat {
    PowerAbove(initialCapacity * 4 % SIZE_VALUES / 3, 1)
  }

  /** Three quarters of the buckets are enough if and only if the product with four does not wrap around. */
  lemma RoomIsExact(initialCapacity: nat, bucketCount: nat)
    requires initialCapacity < SIZE_VALUES
    requires var minimum := initialCapacity * 4 % SIZE_VALUES / 3;
             minimum < bucketCount && (bucketCount == 1 || bucketCount <= 2 * minimum)
    ensures initialCapacity <= bucketCount * 3 / 4 <==> initialCapacity < SIZE_VALUES / 4
  {
    if initialCapacity < SIZE_VALUES / 4 {
      DivUnique(initialCapacity * 4, SIZE_VALUES, 0, initialCapacity * 4);
    }
  }

  /** 2^62 keys asked for: one bucket, and the first key is already too many. */
  lemma RoomCanWrap()
    ensures BucketsFor(0x4000_0000_0000_0000) == 1 && BucketsFor(0x4000_0000_0000_0000) * 3 / 4 == 0
  {
    DivUnique(0x4000_0000_0000_0000 * 4, SIZE_VALUES, 1, 0);
  }

  // ---------- tables ----------

  /** What the caller's functions must satisfy: an equivalence, and equal keys hash alike. */
  ghost predicate Lawful<K(!new)>(hash: K -> int, equals: (K, K) -> bool) {
    && (forall a :: IsHash(hash(a)) && equals(a, a))
    && (forall a, b :: equals(a, b) ==> equals(b, a) && hash(a) == hash(b))
    && (forall a, b, c {:trigger Through(a, b, c)} :: equals(a, b) && equals(b, c) ==> equals(a, c))
  }

  predicate EqualKeys<K(==)>(a: K, hashA: int, b: K, hashB: int, equals: (K, K) -> bool) {
    a == b || (hashA == hashB && equals(a, b))
  }

  /** One entry belongs in bucket i and agrees with the map. */
  ghost predicate EntryOk<K, V>(e: Entry<K, V>, i: nat, n: nat, m: map<K, V>, keys: set<K>, hash: K -> int) {
    e.key in keys && e.key in m && m[e.key] == e.value && e.hash == hash(e.key) &&
    IsHash(e.hash) && n > 0 && CalculateIndex(n, e.hash) == i
  }

  ghost predicate InChain<K, V>(c: Chain<K, V>, key: K) {
    exists j :: 0 <= j < |c| && c[j].key == key
  }

  ghost function KeysOf<K, V>(c: Chain<K, V>): set<K> {
    set e | e in c :: e.key
  }

  /** A chain holds entries of bucket i with different keys. */
  ghost predicate ChainOk<K, V>(c: Chain<K, V>, i: nat, n: nat, m: map<K, V>, keys: set<K>, hash: K -> int) {
    && (forall j :: 0 <= j < |c| ==> EntryOk(c[j], i, n, m, keys, hash))
    && (forall j, l :: 0 <= j < l < |c| ==> c[j].key != c[l].key)
  }

  /** The key is in the chain that its hash selects. */
  ghost predicate KeyStored<K, V>(bs: seq<Chain<K, V>>, key: K, hash: K -> int) {
    |bs| > 0 && IsHash(hash(key)) &&
    var i := CalculateIndex(|bs|, hash(key)); i < |bs| && InChain(bs[i], key)
  }

  /** The buckets hold exactly the given keys, each once, in the bucket of its hash. */
  ghost predicate Holds<K, V>(bs: seq<Chain<K, V>>, m: map<K, V>, keys: set<K>, hash: K -> int) {
    && (forall i :: 0 <= i < |bs| ==> ChainOk(bs[i], i, |bs|, m, keys, hash))
    && (forall key :: key in keys ==> KeyStored(bs, key, hash))
  }

  /** No two keys of the map are equal in the caller's sense. */
  ghost predicate NoEqualKeys<K, V>(m: map<K, V>, equals: (K, K) -> bool) {
    forall a, b :: a in m && b in m && equals(a, b) ==> a == b
  }

  /** Adding an entry at either end of its chain adds its key. */
  lemma HoldsMore<K, V>(bs: seq<Chain<K, V>>, m: map<K, V>, keys: set<K>, hash: K -> int,
                        m': map<K, V>, e: Entry<K, V>, i: nat, c: Chain<K, V>)
    requires Holds(bs, m, keys, hash) && i < |bs|
    requires (forall k :: k in keys ==> k in m && k in m' && m'[k] == m[k]) && e.key !in keys
    requires EntryOk(e, i, |bs|, m', keys + {e.key}, hash)
    requires c == [e] + bs[i] || c == bs[i] + [e]
    ensures Holds(bs[i := c], m', keys + {e.key}, hash)
  {
    var bs' := bs[i := c];
    forall x | 0 <= x < |bs'| ensures ChainOk(bs'[x], x, |bs'|, m', keys + {e.key}, hash) {
      assert ChainOk(bs[x], x, |bs|, m, keys, hash);
      if x == i {
        assert forall j :: 0 <= j < |bs[i]| ==> EntryOk(bs[i][j], i, |bs|, m, keys, hash);
      } else {
        assert forall j :: 0 <= j < |bs[x]| ==> EntryOk(bs[x][j], x, |bs|, m, keys, hash);
      }
    }
    forall key | key in keys + {e.key} ensures KeyStored(bs', key, hash) {
      if key == e.key {
        assert c[if c[0] == e then 0 else |c| - 1].key == e.key;
      } else {
        assert KeyStored(bs, key, hash);
        if CalculateIndex(|bs|, hash(key)) == i {
          var j :| 0 <= j < |bs[i]| && bs[i][j].key == key;
          assert c[if c == bs[i] + [e] then j else j + 1].key == key;
        }
      }
    }
  }

  /** Replacing the value of one entry updates the map there. */
  lemma HoldsUpdated<K, V>(bs: seq<Chain<K, V>>, m: map<K, V>, hash: K -> int, i: nat, j: nat, value: V)
    requires Holds(bs, m, m.Keys, hash) && i < |bs| && j < |bs[i]|
    ensures bs[i][j].key in m && m[bs[i][j].key := value].Keys == m.Keys
    ensures Holds(bs[i := bs[i][j := bs[i][j].(value := value)]], m[bs[i][j].key := value], m.Keys, hash)
  {
    var key := bs[i][j].key;
    assert ChainOk(bs[i], i, |bs|, m, m.Keys, hash);
    assert EntryOk(bs[i][j], i, |bs|, m, m.Keys, hash);
    var m' := m[key := value];
    assert m'.Keys == m.Keys;
    var c := bs[i][j := bs[i][j].(value := value)];
    var bs' := bs[i := c];
    forall x | 0 <= x < |bs'| ensures ChainOk(bs'[x], x, |bs'|, m', m'.Keys, hash) {
      assert ChainOk(bs[x], x, |bs|, m, m.Keys, hash);
      forall l | 0 <= l < |bs'[x]| ensures EntryOk(bs'[x][l], x, |bs'|, m', m'.Keys, hash) {
        assert EntryOk(bs[x][l], x, |bs|, m, m.Keys, hash);
        if bs[x][l].key == key {
          assert x == i && l == j;
        }
      }
    }
    forall k | k in m'.Keys ensures KeyStored(bs', k, hash) {
      assert KeyStored(bs, k, hash);
      if CalculateIndex(|bs|, hash(k)) == i {
        var l :| 0 <= l < |bs[i]| && bs[i][l].key == k;
        assert c[l].key == k;
      }
    }
  }

  /** Unlinking one entry removes its key. */
  lemma HoldsLess<K, V>(bs: seq<Chain<K, V>>, m: map<K, V>, hash: K -> int, i: nat, j: nat)
    requires Holds(bs, m, m.Keys, hash) && i < |bs| && j < |bs[i]|
    ensures bs[i][j].key in m
    ensures var m' := m - {bs[i][j].key}; Holds(bs[i := bs[i][..j] + bs[i][j + 1..]], m', m'.Keys, hash)
  {
    var key := bs[i][j].key;
    assert ChainOk(bs[i], i, |bs|, m, m.Keys, hash);
    assert EntryOk(bs[i][j], i, |bs|, m, m.Keys, hash);
    var m' := m - {key};
    var c := bs[i][..j] + bs[i][j + 1..];
    var bs' := bs[i := c];
    forall x | 0 <= x < |bs'| ensures ChainOk(bs'[x], x, |bs'|, m', m'.Keys, hash) {
      assert ChainOk(bs[x], x, |bs|, m, m.Keys, hash);
      forall l | 0 <= l < |bs'[x]| ensures EntryOk(bs'[x][l], x, |bs'|, m', m'.Keys, hash) {
        var l' := if x == i && l >= j then l + 1 else l;
        assert bs'[x][l] == bs[x][l'] && EntryOk(bs[x][l'], x, |bs|, m, m.Keys, hash);
        assert bs[x][l'].key != key;
      }
    }
    forall k | k in m'.Keys ensures KeyStored(bs', k, hash) {
      assert KeyStored(bs, k, hash);
      if CalculateIndex(|bs|, hash(k)) == i {
        var l :| 0 <= l < |bs[i]| && bs[i][l].key == k;
        assert c[if l < j then l else l - 1].key == k;
      }
    }
  }

  // ---------- the table ----------

  class Hashmap<K(==, !new), V> {
    const hash: K -> int
    const equals: (K, K) -> bool
    var buckets: seq<Chain<K, V>>
    var size: nat
    ghost var bits: nat
    ghost var contents: map<K, V>

    /** The table without its bound on the load. */
    ghost predicate Linked()
      reads this
    {
      && Lawful(hash, equals)
      && |buckets| == Pow2(bits)
      && size == |contents|
      && NoEqualKeys(contents, equals)
      && Holds(buckets, contents, contents.Keys, hash)
    }

    /** A table between calls: linked, and at most three quarters full. */
    ghost predicate Valid()
      reads this
    {
      Linked() && size <= |buckets| * 3 / 4
    }

    /**
      hashmapCreate: an empty map.  It has room for initialCapacity keys without resizing if and
      only if four times that many still fit a size_t.
     */
    constructor (initialCapacity: nat, hash: K -> int, equals: (K, K) -> bool)
      requires Lawful(hash, equals) && initialCapacity < SIZE_VALUES
      ensures Valid() && contents == map[] && |buckets| == BucketsFor(initialCapacity)
      ensures initialCapacity <= |buckets| * 3 / 4 <==> initialCapacity < SIZE_VALUES / 4
      ensures this.hash == hash && this.equals == equals
    {
      var minimumBucketCount := initialCapacity * 4 % SIZE_VALUES / 3;
      var bucketCount := 1;
      ghost var k: nat := 0;
      while bucketCount <= minimumBucketCount
        invariant bucketCount == Pow2(k) && bucketCount <= 2 * minimumBucketCount + 1
        invariant PowerAbove(minimumBucketCount, 1) == PowerAbove(minimumBucketCount, bucketCount)
        decreases minimumBucketCount - bucketCount
      {
        bucketCount := bucketCount * 2;
        k := k + 1;
      }
      RoomIsExact(initialCapacity, bucketCount);
      this.hash := hash;
      this.equals := equals;
      buckets := seq(bucketCount, _ => []);
      size := 0;
      bits := k;
      contents := map[];
    }

    /** The walk along a chain that all operations share. */
    method Locate(key: K) returns (i: nat, j: nat)
      requires Linked()
      ensures i < |buckets| && j <= |buckets[i]| && IsHash(hash(key)) && i == CalculateIndex(|buckets|, hash(key))
      ensures j < |buckets[i]| ==> buckets[i][j].key in contents && equals(buckets[i][j].key, key) &&
                                   contents[buckets[i][j].key] == buckets[i][j].value &&
                                   forall k :: k in contents && equals(k, key) ==> k == buckets[i][j].key
      ensures j == |buckets[i]| ==> forall k :: k in contents ==> !equals(k, key)
    {
      var h := hash(key);
      assert equals(key, key) && IsHash(h);
      IndexInRange(bits, h);
      i := CalculateIndex(|buckets|, h);
      j := 0;
      assert ChainOk(buckets[i], i, |buckets|, contents, contents.Keys, hash);
      while j < |buckets[i]| && !EqualKeys(buckets[i][j].key, buckets[i][j].hash, key, h, equals)
        invariant j <= |buckets[i]|
        invariant forall l :: 0 <= l < j ==> !equals(buckets[i][l].key, key)
      {
        assert EntryOk(buckets[i][j], i, |buckets|, contents, contents.Keys, hash);
        j := j + 1;
      }
      if j < |buckets[i]| {
        assert EntryOk(buckets[i][j], i, |buckets|, contents, contents.Keys, hash);
        forall k | k in contents && equals(k, key) ensures k == buckets[i][j].key {
          assert equals(key, buckets[i][j].key) && Through(k, key, buckets[i][j].key);
        }
      } else {
        forall k | k in contents ensures !equals(k, key) {
          assert KeyStored(buckets, k, hash);
        }
      }
    }

    /** hashmapGet. */
    method Get(key: K) returns (r: Option<V>)
      requires Valid()
      ensures forall k :: k in contents && equals(k, key) ==> r == Some(contents[k])
      ensures (forall k :: k in contents ==> !equals(k, key)) ==> r == None
    {
      var i, j := Locate(key);
      r := if j < |buckets[i]| then Some(buckets[i][j].value) else None;
    }

    /** hashmapContainsKey. */
    method ContainsKey(key: K) returns (r: bool)
      requires Valid()
      ensures r <==> exists k :: k in contents && equals(k, key)
    {
      var i, j := Locate(key);
      r := j < |buckets[i]|;
    }

    /** A key that equals no stored key is appended to its chain. */
    method Append(key: K, value: V, i: nat)
      requires Valid() && i < |buckets| && IsHash(hash(key)) && i == CalculateIndex(|buckets|, hash(key))
      requires forall k :: k in contents ==> !equals(k, key)
      modifies this
      ensures Valid() && contents == old(contents)[key := value]
      ensures |contents| <= old(|buckets|) * 3 / 4 ==> |buckets| == old(|buckets|)
    {
      Link(key, value, i);
      ExpandIfNecessary();
    }

    method Link(key: K, value: V, i: nat)
      requires Linked() && i < |buckets| && IsHash(hash(key)) && i == CalculateIndex(|buckets|, hash(key))
      requires forall k :: k in contents ==> !equals(k, key)
      modifies this
      ensures Linked() && contents == old(contents)[key := value] && |buckets| == old(|buckets|) && size == old(size) + 1
    {
      var e := Entry(key, hash(key), value);
      HoldsAppended(buckets, contents, hash, equals, e, i);
      buckets := buckets[i := buckets[i] + [e]];
      contents := contents[key := value];
      size := size + 1;
    }

    /** hashmapPut: replaces the value of an equal key, keeping that key, or adds the pair. */
    method Put(key: K, value: V) returns (r: Option<V>)
      requires Valid()
      modifies this
      ensures Valid()
      ensures forall k :: k in old(contents) && equals(k, key) ==>
                contents == old(contents)[k := value] && r == Some(old(contents)[k])
      ensures (forall k :: k in old(contents) ==> !equals(k, key)) ==>
                contents == old(contents)[key := value] && r == None
      ensures |contents| <= old(|buckets|) * 3 / 4 ==> |buckets| == old(|buckets|)
    {
      var i, j := Locate(key);
      if j == |buckets[i]| {
        Append(key, value, i);
        r := None;
      } else {
        r := Some(buckets[i][j].value);
        Overwrite(i, j, value);
      }
    }

    method Overwrite(i: nat, j: nat, value: V)
      requires Valid() && i < |buckets| && j < |buckets[i]| && buckets[i][j].key in contents
      modifies this
      ensures Valid() && contents == old(contents)[old(buckets[i][j].key) := value] && |buckets| == old(|buckets|)
    {
      HoldsOverwritten(buckets, contents, hash, equals, i, j, value);
      contents := contents[buckets[i][j].key := value];
      buckets := buckets[i := buckets[i][j := buckets[i][j].(value := value)]];
    }

    /** hashmapMemoize: the stored value of an equal key, or the initial value, now stored. */
    method Memoize(key: K, initialValue: K -> V) returns (r: V)
      requires Valid()
      modifies this
      ensures Valid()
      ensures forall k :: k in old(contents) && equals(k, key) ==> contents == old(contents) && r == contents[k]
      ensures (forall k :: k in old(contents) ==> !equals(k, key)) ==>
                contents == old(contents)[key := initialValue(key)] && r == initialValue(key)
    {
      var i, j := Locate(key);
      if j == |buckets[i]| {
        r := initialValue(key);
        Append(key, r, i);
      } else {
        r := buckets[i][j].value;
      }
    }

    /** hashmapRemove. */
    method Remove(key: K) returns (r: Option<V>)
      requires Valid()
      modifies this
      ensures Valid()
      ensures forall k :: k in old(contents) && equals(k, key) ==>
                contents == old(contents) - {k} && r == Some(old(contents)[k])
      ensures (forall k :: k in old(contents) ==> !equals(k, key)) ==> contents == old(contents) && r == None
    {
      var i, j := Locate(key);
      if j == |buckets[i]| {
        return None;
      }
      r := Some(buckets[i][j].value);
      Unlink(i, j);
    }

    method Unlink(i: nat, j: nat)
      requires Valid() && i < |buckets| && j < |buckets[i]| && buckets[i][j].key in contents
      modifies this
      ensures Valid() && contents == old(contents) - {old(buckets[i][j].key)}
    {
      ghost var k := buckets[i][j].key;
      HoldsLess(buckets, contents, hash, i, j);
      assert (contents - {k}).Keys == contents.Keys - {k};
      contents := contents - {k};
      buckets := buckets[i := buckets[i][..j] + buckets[i][j + 1..]];
      size := size - 1;
    }

    /** expandIfNecessary: doubles the buckets when more than three quarters full. */
    method ExpandIfNecessary()
      requires Linked() && size <= |buckets| * 3 / 4 + 1
      modifies this
      ensures Valid() && contents == old(contents)
      ensures old(size) <= old(|buckets|) * 3 / 4 ==> buckets == old(buckets)
    {
      if size > |buckets| * 3 / 4 {
        var newBuckets := Rehash();
        buckets := newBuckets;
        bits := bits + 1;
      }
    }

    /** Every entry moved to the bucket of its hash among twice as many. */
    method Rehash() returns (newBuckets: seq<Chain<K, V>>)
      requires Linked()
      ensures |newBuckets| == Pow2(bits + 1) && Holds(newBuckets, contents, contents.Keys, hash)
    {
      newBuckets := seq(|buckets| * 2, _ => []);
      ghost var moved: set<K> := {};
      var i := 0;
      while i < |buckets|
        invariant i <= |buckets| && |newBuckets| == Pow2(bits + 1)
        invariant Holds(newBuckets, contents, moved, hash)
        invariant forall k :: k in contents ==> (k in moved <==> CalculateIndex(|buckets|, hash(k)) < i)
      {
        newBuckets, moved := MoveChain(newBuckets, moved, i);
        i := i + 1;
      }
      forall k | k in contents ensures k in moved {
        IndexInRange(bits, hash(k));
      }
      MovedAreStored(newBuckets, contents, moved, hash);
      assert moved == contents.Keys;
    }

    /** The inner loop: every entry of bucket i goes to the front of its new chain. */
    method MoveChain(bs: seq<Chain<K, V>>, ghost moved: set<K>, i: nat) returns (bs': seq<Chain<K, V>>, ghost moved': set<K>)
      requires Linked() && i < |buckets| && |bs| == Pow2(bits + 1) && Holds(bs, contents, moved, hash)
      requires forall k :: k in contents ==> (k in moved <==> CalculateIndex(|buckets|, hash(k)) < i)
      ensures |bs'| == |bs| && Holds(bs', contents, moved', hash)
      ensures forall k :: k in contents ==> (k in moved' <==> CalculateIndex(|buckets|, hash(k)) < i + 1)
    {
      bs', moved' := bs, moved;
      var c := buckets[i];
      var j := 0;
      while j < |c|
        invariant j <= |c| && |bs'| == |bs| && Holds(bs', contents, moved', hash)
        invariant moved' == moved + KeysOf(c[..j])
      {
        NotYetMoved(i, j, moved);
        bs' := MoveEntry(bs', c[j], bits + 1, contents, moved', hash);
        moved' := moved' + {c[j].key};
        KeysOfPrefix(c, j);
        j := j + 1;
      }
      assert c[..j] == c;
      ChainMoved(i, moved);
    }

    /** The entry at hand has not been moved, being different from all that were. */
    lemma NotYetMoved(i: nat, j: nat, moved: set<K>)
      requires Linked() && i < |buckets| && j < |buckets[i]|
      requires forall k :: k in contents ==> (k in moved <==> CalculateIndex(|buckets|, hash(k)) < i)
      ensures EntryOk(buckets[i][j], i, |buckets|, contents, contents.Keys, hash)
      ensures buckets[i][j].key !in moved + KeysOf(buckets[i][..j])
    {
      assert ChainOk(buckets[i], i, |buckets|, contents, contents.Keys, hash);
      assert EntryOk(buckets[i][j], i, |buckets|, contents, contents.Keys, hash);
    }

    lemma ChainMoved(i: nat, moved: set<K>)
      requires Linked() && i < |buckets|
      requires forall k :: k in contents ==> (k in moved <==> CalculateIndex(|buckets|, hash(k)) < i)
      ensures forall k :: k in contents ==>
                (k in moved + KeysOf(buckets[i]) <==> CalculateIndex(|buckets|, hash(k)) < i + 1)
    {
      forall k | k in contents
        ensures k in moved + KeysOf(buckets[i]) <==> CalculateIndex(|buckets|, hash(k)) < i + 1
      {
        assert KeyStored(buckets, k, hash);
        assert ChainOk(buckets[i], i, |buckets|, contents, contents.Keys, hash);
        assert k in KeysOf(buckets[i]) <==> InChain(buckets[i], k);
        if k in KeysOf(buckets[i]) {
          var l :| 0 <= l < |buckets[i]| && buckets[i][l].key == k;
          assert EntryOk(buckets[i][l], i, |buckets|, contents, contents.Keys, hash);
        }
      }
    }

    /**
      Adding as many pairs as there is room for never resizes the table; afterwards each of their
      keys is there, as the equal key that stands for it, and so is every key that was.
     */
    method Fill(pairs: seq<(K, V)>) returns (ghost stored: seq<K>)
      requires Valid() && size + |pairs| <= |buckets| * 3 / 4
      modifies this
      ensures Valid() && |buckets| == old(|buckets|) && size <= old(size) + |pairs|
      ensures old(contents.Keys) <= contents.Keys && |stored| == |pairs|
      ensures StandFor(stored, pairs, contents.Keys, equals)
    {
      var n := 0;
      stored := [];
      while n < |pairs|
        invariant n <= |pairs| && Valid() && |buckets| == old(|buckets|) && size <= old(size) + n
        invariant old(contents.Keys) <= contents.Keys && |stored| == n
        invariant StandFor(stored, pairs, contents.Keys, equals)
      {
        ghost var before := contents.Keys;
        ghost var k := PutOne(pairs[n].0, pairs[n].1);
        StandForMore(stored, pairs, before, contents.Keys, equals, k);
        stored := stored + [k];
        n := n + 1;
      }
    }

    method PutOne(key: K, value: V) returns (ghost stored: K)
      requires Valid() && size < |buckets| * 3 / 4
      modifies this
      ensures Valid() && |buckets| == old(|buckets|) && size <= old(size) + 1
      ensures old(contents.Keys) <= contents.Keys && stored in contents.Keys && equals(stored, key)
      ensures contents[stored] == value
    {
      ghost var m := contents;
      var _ := Put(key, value);
      if k :| k in m && equals(k, key) {
        assert contents.Keys == m.Keys;
        stored := k;
      } else {
        assert contents.Keys == m.Keys + {key};
        assert equals(key, key);
        stored := key;
      }
    }
  }

  lemma KeysOfPrefix<K, V>(c: Chain<K, V>, j: nat)
    requires j < |c|
    ensures KeysOf(c[..j + 1]) == KeysOf(c[..j]) + {c[j].key}
  {
    assert c[..j + 1] == c[..j] + [c[j]];
  }

  /** One entry goes to the front of the chain that its hash selects. */
  method MoveEntry<K, V>(bs: seq<Chain<K, V>>, e: Entry<K, V>, ghost bits: nat,
                         ghost m: map<K, V>, ghost moved: set<K>, ghost hash: K -> int)
    returns (bs': seq<Chain<K, V>>)
    requires |bs| == Pow2(bits) && Holds(bs, m, moved, hash) && e.key !in moved
    requires e.key in m && m[e.key] == e.value && e.hash == hash(e.key) && IsHash(e.hash)
    ensures |bs'| == |bs| && Holds(bs', m, moved + {e.key}, hash)
  {
    IndexInRange(bits, e.hash);
    var index := CalculateIndex(|bs|, e.hash);
    MovedAreStored(bs, m, moved, hash);
    HoldsMore(bs, m, moved, hash, m, e, index, [e] + bs[index]);
    bs' := bs[index := [e] + bs[index]];
  }

  /** Stored keys that equal the first keys of pairs, one by one. */
  ghost predicate StandFor<K(!new), V>(stored: seq<K>, pairs: seq<(K, V)>, keys: set<K>, equals: (K, K) -> bool) {
    |stored| <= |pairs| && forall n :: 0 <= n < |stored| ==> stored[n] in keys && equals(stored[n], pairs[n].0)
  }

  lemma StandForMore<K(!new), V>(stored: seq<K>, pairs: seq<(K, V)>, keys: set<K>, keys': set<K>,
                                 equals: (K, K) -> bool, k: K)
    requires StandFor(stored, pairs, keys, equals) && |stored| < |pairs| && keys <= keys'
    requires k in keys' && equals(k, pairs[|stored|].0)
    ensures StandFor(stored + [k], pairs, keys', equals)
  {
  }

  lemma OneKeyMore<K, V>(m: map<K, V>, key: K, value: V)
    requires key !in m
    ensures m[key := value].Keys == m.Keys + {key} && |m[key := value]| == |m| + 1
  {
    var m' := m[key := value];
    assert m'.Keys == m.Keys + {key};
    assert |m'| == |m'.Keys| && |m| == |m.Keys|;
  }

  /** Another value for a stored key. */
  lemma HoldsOverwritten<K(!new), V>(bs: seq<Chain<K, V>>, m: map<K, V>, hash: K -> int, equals: (K, K) -> bool,
                                     i: nat, j: nat, value: V)
    requires NoEqualKeys(m, equals) && Holds(bs, m, m.Keys, hash) && i < |bs| && j < |bs[i]|
    ensures var m' := m[bs[i][j].key := value];
            && NoEqualKeys(m', equals) && |m'| == |m|
            && Holds(bs[i := bs[i][j := bs[i][j].(value := value)]], m', m'.Keys, hash)
  {
    HoldsUpdated(bs, m, hash, i, j, value);
    SameSize(m, bs[i][j].key, value);
  }

  lemma SameSize<K, V>(m: map<K, V>, key: K, value: V)
    requires key in m
    ensures |m[key := value]| == |m|
  {
  }

  /** An entry whose key equals no stored key, at the end of its chain. */
  lemma HoldsAppended<K(!new), V>(bs: seq<Chain<K, V>>, m: map<K, V>, hash: K -> int, equals: (K, K) -> bool,
                                  e: Entry<K, V>, i: nat)
    requires Lawful(hash, equals) && NoEqualKeys(m, equals) && Holds(bs, m, m.Keys, hash) && i < |bs|
    requires (forall k :: k in m ==> !equals(k, e.key)) && e.hash == hash(e.key)
    requires IsHash(e.hash) && CalculateIndex(|bs|, e.hash) == i
    ensures var m' := m[e.key := e.value];
            NoEqualKeys(m', equals) && |m'| == |m| + 1 && Holds(bs[i := bs[i] + [e]], m', m'.Keys, hash)
  {
    assert equals(e.key, e.key);
    OneKeyMore(m, e.key, e.value);
    HoldsMore(bs, m, m.Keys, hash, m[e.key := e.value], e, i, bs[i] + [e]);
    NewKeyIsDifferent(m, e.key, e.value, equals, hash);
  }

  lemma NewKeyIsDifferent<K(!new), V>(m: map<K, V>, key: K, value: V, equals: (K, K) -> bool, hash: K -> int)
    requires NoEqualKeys(m, equals) && Lawful(hash, equals) && forall k :: k in m ==> !equals(k, key)
    ensures NoEqualKeys(m[key := value], equals)
  {
  }

  lemma MovedAreStored<K, V>(bs: seq<Chain<K, V>>, m: map<K, V>, keys: set<K>, hash: K -> int)
    requires Holds(bs, m, keys, hash)
    ensures keys <= m.Keys
  {
    forall key | key in keys ensures key in m {
      assert KeyStored(bs, key, hash);
      var i := CalculateIndex(|bs|, hash(key));
      var j :| 0 <= j < |bs[i]| && bs[i][j].key == key;
      assert ChainOk(bs[i], i, |bs|, m, keys, hash);
      assert EntryOk(bs[i][j], i, |bs|, m, keys, hash);
    }
  }
}
