/** The chained hash table: doubly linked bucket chains, a second doubly linked list of
  * all entries by age, counts, and a rehash that reinserts everything by age.
  * The hash is an arbitrary function of the key. */
module HashTable {

  class Entry<K, V> {
    const key: K
    var data: V
    var next: Entry?<K, V>
    var prev: Entry?<K, V>
    var older: Entry?<K, V>
    var newer: Entry?<K, V>

    constructor (key: K, data: V)
      ensures this.key == key && this.data == data
      ensures next == null && prev == null && older == null && newer == null
    {
      this.key, this.data := key, data;
      next, prev, older, newer := null, null, null, null;
    }
  }

  /** The i-th entry, or null beyond either end. */
  function At<K, V>(s: seq<Entry<K, V>>, i: int): Entry?<K, V> {
    if 0 <= i < |s| then s[i] else null
  }

  function Removed<T>(s: seq<T>, i: nat): seq<T>
    requires i < |s|
  {
    s[..i] + s[i + 1..]
  }

  ghost predicate Distinct<T>(s: seq<T>) {
    forall i, j | 0 <= i < j < |s| :: s[i] != s[j]
  }

  lemma RemovedElements<T>(s: seq<T>, i: nat)
    requires i < |s| && Distinct(s)
    ensures Distinct(Removed(s, i)) && forall x :: x in Removed(s, i) <==> x in s && x != s[i]
    ensures |Removed(s, i)| == |s| - 1 && forall k | 0 <= k < |s| - 1 :: Removed(s, i)[k] in s && Removed(s, i)[k] != s[i]
  {
    var r := Removed(s, i);
    assert forall k | 0 <= k < |r| :: r[k] == s[if k < i then k else k + 1];
    forall x | x in s && x != s[i]
      ensures x in r
    {
      var k :| 0 <= k < |s| && s[k] == x;
      assert r[if k < i then k else k - 1] == x;
    }
  }

  /** s is a chain through next and prev. */
  ghost predicate Chained<K, V>(s: seq<Entry<K, V>>)
    reads s`next, s`prev
  {
    && (forall i {:trigger s[i].next} | 0 <= i < |s| :: s[i].next == At(s, i + 1))
    && (forall i {:trigger s[i].prev} | 0 <= i < |s| :: s[i].prev == At(s, i - 1))
  }

  /** s is a list by age through newer and older. */
  ghost predicate Aged<K, V>(s: seq<Entry<K, V>>)
    reads s`newer, s`older
  {
    && (forall i {:trigger s[i].newer} | 0 <= i < |s| :: s[i].newer == At(s, i + 1))
    && (forall i {:trigger s[i].older} | 0 <= i < |s| :: s[i].older == At(s, i - 1))
  }

  // ----- the links of one list

  /** Insertion at the front of a bucket chain. */
  method LinkFront<K, V>(head: Entry?<K, V>, e: Entry<K, V>, ghost s: seq<Entry<K, V>>)
    requires Chained(s) && Distinct(s) && head == At(s, 0) && e !in s
    modifies e`next, e`prev, (if head == null then {} else {head})`prev
    ensures Chained([e] + s)
  {
    e.next := head;
    e.prev := null;
    if head != null {
      head.prev := e;
    }
  }

  /** The bucket half of remove_from_chain; the new head of the chain is returned. */
  method UnlinkChain<K, V>(head: Entry?<K, V>, p: Entry<K, V>, ghost s: seq<Entry<K, V>>, ghost i: nat)
    returns (head': Entry?<K, V>)
    requires Chained(s) && Distinct(s) && head == At(s, 0) && i < |s| && p == s[i]
    modifies s`next, s`prev
    ensures Chained(Removed(s, i)) && head' == At(Removed(s, i), 0)
  {
    head' := head;
    if p.prev != null {
      p.prev.next := p.next;
    } else {
      head' := p.next;
    }
    if p.next != null {
      p.next.prev := p.prev;
    }
  }

  /** Appending to the age list. */
  method LinkNewest<K, V>(newest: Entry?<K, V>, e: Entry<K, V>, ghost s: seq<Entry<K, V>>)
    requires Aged(s) && Distinct(s) && newest == At(s, |s| - 1) && e !in s && e.newer == null
    modifies e`older, s`newer
    ensures Aged(s + [e])
  {
    e.older := newest;
    if newest != null {
      newest.newer := e;
    }
  }

  /** The age half of remove_from_chain; the new ends of the list are returned. */
  method UnlinkAge<K, V>(oldest: Entry?<K, V>, newest: Entry?<K, V>, p: Entry<K, V>,
                         ghost s: seq<Entry<K, V>>, ghost i: nat)
    returns (oldest': Entry?<K, V>, newest': Entry?<K, V>)
    requires Aged(s) && Distinct(s) && oldest == At(s, 0) && newest == At(s, |s| - 1)
    requires i < |s| && p == s[i]
    modifies s`newer, s`older
    ensures Aged(Removed(s, i))
    ensures oldest' == At(Removed(s, i), 0) && newest' == At(Removed(s, i), |s| - 2)
  {
    oldest', newest' := oldest, newest;
    if p.older != null {
      p.older.newer := p.newer;
    } else {
      oldest' := p.newer;
    }
    if p.newer != null {
      p.newer.older := p.older;
    } else {
      newest' := p.older;
    }
  }

  predicate IsPowerOfTwo(n: nat)
    decreases n
  {
    n == 1 || (n > 0 && n % 2 == 0 && IsPowerOfTwo(n / 2))
  }

  // ----- what the table holds, without its links

  /** The bitwise and. */
  function And(a: nat, b: nat): nat {
    if a == 0 || b == 0 then 0 else 2 * And(a / 2, b / 2) + if a % 2 == 1 && b % 2 == 1 then 1 else 0
  }

  /** And-ing with size - 1 is taking the remainder, size being a power of two. */
  lemma {:induction false} MaskIsRemainder(h: nat, size: nat)
    requires IsPowerOfTwo(size)
    ensures And(h, size - 1) == Masked(h, size)
    decreases size
  {
    hide And, Masked;
    if size == 1 {
      MaskedByOne(h);
    } else {
      MaskIsRemainder(h / 2, size / 2);
      AndUnfolds(h, size - 1);
      DoubledRemainder(h, size / 2);
    }
  }

  lemma MaskedByOne(h: nat)
    ensures And(h, 0) == Masked(h, 1)
  {
    RemainderUnique(h, 1, h, 0);
  }

  lemma AndUnfolds(a: nat, b: nat)
    ensures b % 2 == 1 ==> And(a, b) == if a == 0 then 0 else 2 * And(a / 2, b / 2) + a % 2
  {
  }

  lemma DoubledRemainder(h: nat, m: nat)
    requires m > 0
    ensures Masked(h, 2 * m) == 2 * Masked(h / 2, m) + h % 2
    ensures Masked(0, 2 * m) == 0
  {
    var q, r := h / 2 / m, h / 2 % m;
    assert h / 2 == q * m + r;
    RemainderUnique(h, 2 * m, q, 2 * r + h % 2);
    RemainderUnique(0, 2 * m, 0, 0);
  }

  lemma RemainderUnique(h: nat, n: nat, q: nat, r: nat)
    requires r < n && h == q * n + r
    ensures h % n == r
  {
    var p := h / n;
    assert h == p * n + h % n;
    if p < q { MultiplesGrow(p + 1, q, n); }
    if q < p { MultiplesGrow(q + 1, p, n); }
  }

  lemma MultiplesGrow(a: nat, b: nat, n: nat)
    requires a <= b
    ensures a * n <= b * n
  {
    assert (b - a) * n >= 0;
  }

  /** The remainder by the size; what the source's masking comes to. */
  function Masked(h: nat, size: nat): (b: nat)
    requires size > 0
    ensures b < size
  {
    h % size
  }

  /** The entries of a table: one for each key, each in the chain of its bucket and in the
    * age list, once, and nothing else in either. */
  datatype Layout<!K(==), !V> = Layout(
    hash: K -> nat,
    size: nat,
    at: map<K, Entry<K, V>>,
    pool: set<Entry<K, V>>,
    chains: seq<seq<Entry<K, V>>>,
    age: seq<Entry<K, V>>)
  {
    function Bucket(key: K): (b: nat)
      requires size > 0
      ensures b < size
    {
      Masked(hash(key), size)
    }

    ghost predicate Valid() {
      && size > 0 && |chains| == size
      && (forall k | k in at :: at[k].key == k && at[k] in pool)
      && (forall e | e in pool :: e.key in at && at[e.key] == e && e in age && e in chains[Bucket(e.key)])
      && (forall b, i | 0 <= b < size && 0 <= i < |chains[b]| ::
            chains[b][i] in pool && Bucket(chains[b][i].key) == b)
      && (forall b | 0 <= b < size :: Distinct(chains[b]))
      && (forall i | 0 <= i < |age| :: age[i] in pool) && Distinct(age)
    }

    ghost function With(e: Entry<K, V>): (l: Layout<K, V>)
      requires Valid()
      ensures l.hash == hash && l.size == size && l.pool == pool + {e}
    {
      var b := Bucket(e.key);
      this.(at := at[e.key := e], pool := pool + {e}, chains := chains[b := [e] + chains[b]], age := age + [e])
    }

    /** No entry is in two chains. */
    lemma ChainsApart(b: nat)
      requires Valid() && b < size
      ensures |chains| == size && Distinct(chains[b]) && forall x | x in chains[b] :: x in pool
      ensures forall c, i | 0 <= c < size && c != b && 0 <= i < |chains[c]| ::
        chains[c][i] in pool && chains[c][i] !in chains[b]
      ensures forall e, c | e !in pool && 0 <= c < size :: e !in chains[c]
    {
    }

    /** The layout without e, which stands at index i of its chain and a of the age list. */
    ghost function Without(e: Entry<K, V>, i: nat, a: nat): (l: Layout<K, V>)
      requires Valid() && Has(e, i, a)
      ensures l.hash == hash && l.size == size && l.pool == pool - {e} && l.at == at - {e.key}
      ensures l.age == Removed(age, a)
    {
      var b := Bucket(e.key);
      this.(at := at - {e.key}, pool := pool - {e},
            chains := chains[b := Removed(chains[b], i)], age := Removed(age, a))
    }

    ghost predicate Has(e: Entry<K, V>, i: nat, a: nat)
      requires Valid()
    {
      && e in pool && i < |chains[Bucket(e.key)]| && chains[Bucket(e.key)][i] == e
      && a < |age| && age[a] == e
    }

    lemma Find(e: Entry<K, V>) returns (i: nat, a: nat)
      requires Valid() && e in pool
      ensures Has(e, i, a)
    {
      i :| i < |chains[Bucket(e.key)]| && chains[Bucket(e.key)][i] == e;
      a :| a < |age| && age[a] == e;
    }

    lemma WithoutOld(e: Entry<K, V>, i: nat, a: nat)
      requires Valid() && Has(e, i, a)
      ensures Without(e, i, a).Valid()
    {
      hide Masked, Removed, Distinct;
      var b, l := Bucket(e.key), Without(e, i, a);
      RemovedElements(chains[b], i);
      RemovedElements(age, a);
      forall c | 0 <= c < size
        ensures Distinct(l.chains[c])
        ensures forall x | x in pool - {e} && x in chains[c] :: x in l.chains[c]
      {
      }
    }

    lemma AgedEntry(n: nat)
      requires Valid() && n < |age|
      ensures age[n] in pool && age[n].key in at && at[age[n].key] == age[n]
    {
    }

    lemma EntriesKnown()
      requires Valid()
      ensures forall k | k in at :: at[k] in pool && at[k].key == k
    {
    }

    lemma EntryOf(k: K)
      requires Valid() && k in at
      ensures at[k].key == k && at[k] in pool
    {
    }

    lemma AgeOnce()
      requires Valid()
      ensures Distinct(age) && forall x | x in age :: x in pool
    {
    }

    lemma WithNew(e: Entry<K, V>)
      requires Valid() && e.key !in at
      ensures e !in pool && e !in chains[Bucket(e.key)] && e !in age && With(e).Valid()
    {
      hide Masked, Distinct;
      var b := Bucket(e.key);
      var chains' := With(e).chains;
      NewIsDistinct(chains[b], e);
      NewIsDistinct(age, e);
      assert chains'[b] == [e] + chains[b] && forall c | 0 <= c < size && c != b :: chains'[c] == chains[c];
      forall x | x in pool + {e}
        ensures x in chains'[Bucket(x.key)] && x in age + [e]
      {
        if x == e { assert chains'[b][0] == e && (age + [e])[|age|] == e; }
      }
    }
  }

  lemma NewIsDistinct<K, V>(s: seq<Entry<K, V>>, e: Entry<K, V>)
    requires Distinct(s) && e !in s
    ensures Distinct([e] + s) && Distinct(s + [e])
  {
  }

  class Table<!K(==), !V> {
    const hash: K -> nat
    var size: nat
    var mask: nat
    var items: nat
    var automaticRehash: bool
    var buckets: array<Entry?<K, V>>
    var nr: array<int>
    var oldest: Entry?<K, V>
    var newest: Entry?<K, V>
    ghost var lay: Layout<K, V>

    ghost predicate Valid()
      reads this, buckets, nr, lay.pool
    {
      && IsPowerOfTwo(size) && mask == size - 1 && size == lay.size && hash == lay.hash
      && lay.Valid() && ChainsMatch(lay) && AgeMatches(lay)
    }

    /** Every chain of l starts at its bucket, is linked both ways and counted. */
    ghost predicate ChainsMatch(l: Layout<K, V>)
      requires l.Valid()
      reads this`buckets, this`nr, buckets, nr, l.pool`next, l.pool`prev
    {
      && l.size == buckets.Length == nr.Length
      && forall b | 0 <= b < l.size ::
           Chained(l.chains[b]) && buckets[b] == At(l.chains[b], 0) && nr[b] == |l.chains[b]|
    }

    /** The age list of l is linked both ways between oldest and newest, and counted. */
    ghost predicate AgeMatches(l: Layout<K, V>)
      requires l.Valid()
      reads this`items, this`oldest, this`newest, l.pool`newer, l.pool`older
    {
      && Aged(l.age) && items == |l.age|
      && oldest == At(l.age, 0) && newest == At(l.age, |l.age| - 1)
    }

    /** search_in_bucket, without heuristics. */
    method SearchInBucket(b: nat, key: K) returns (e: Entry?<K, V>)
      requires Valid() && b < size && lay.Bucket(key) == b
      ensures e == if key in lay.at then lay.at[key] else null
    {
      e := buckets[b];
      ghost var s, i := lay.chains[b], 0;
      while e != null
        invariant 0 <= i <= |s| && e == At(s, i)
        invariant forall j | 0 <= j < i :: s[j].key != key
        decreases |s| - i
      {
        if e.key == key { return; }
        e := e.next;
        i := i + 1;
      }
    }

    /** Links a new entry to the front of a chain; no other chain is touched. */
    method LinkChain(b: nat, e: Entry<K, V>, head: Entry?<K, V>, ghost l: Layout<K, V>)
      requires l.Valid() && b < l.size && e !in l.pool && head == At(l.chains[b], 0)
      requires forall c | 0 <= c < l.size :: Chained(l.chains[c])
      modifies e`next, e`prev, l.pool`prev
      ensures Chained([e] + l.chains[b])
      ensures forall c | 0 <= c < l.size && c != b :: Chained(l.chains[c])
    {
      l.ChainsApart(b);
      hide Chained, Layout.Valid, Masked, Distinct;
      LinkFront(head, e, l.chains[b]);
      forall c | 0 <= c < l.size && c != b
        ensures Chained(l.chains[c])
      {
        assert e !in l.chains[c] && head !in l.chains[c];
      }
    }

    method SetHead(b: nat, e: Entry?<K, V>, more: int)
      requires b < buckets.Length == nr.Length
      modifies buckets, nr
      ensures forall c | 0 <= c < buckets.Length :: buckets[c] == if c == b then e else old(buckets[c])
      ensures forall c | 0 <= c < nr.Length :: nr[c] == if c == b then old(nr[c]) + more else old(nr[c])
    {
      buckets[b] := e;
      nr[b] := nr[b] + more;
    }

    /** Links a new entry to the front of its bucket. */
    method LinkBucket(b: nat, e: Entry<K, V>, ghost l: Layout<K, V>)
      requires l.Valid() && ChainsMatch(l) && e !in l.pool && b == l.Bucket(e.key) && l.With(e).Valid()
      modifies buckets, nr, e`next, e`prev, l.pool`prev
      ensures ChainsMatch(l.With(e))
    {
      hide Chained, Layout.Valid, Masked, Distinct;
      l.ChainsApart(b);
      LinkChain(b, e, buckets[b], l);
      SetHead(b, e, 1);
    }

    /** Links a new entry to the young end of the age list. */
    method LinkAge(e: Entry<K, V>, ghost l: Layout<K, V>)
      requires l.Valid() && AgeMatches(l) && e !in l.pool && e.newer == null && l.With(e).Valid()
      modifies this`items, this`oldest, this`newest, e`older, l.pool`newer
      ensures AgeMatches(l.With(e))
    {
      hide Layout.Valid, Masked, Distinct, Aged;
      l.AgeOnce();
      items := items + 1;
      if oldest == null {
        oldest := e;
      }
      LinkNewest(newest, e, l.age);
      newest := e;
    }

    /** The linking part of ght_insert, for a key not in the table. */
    method Link(b: nat, e: Entry<K, V>)
      requires Valid() && e.key !in lay.at && b == lay.Bucket(e.key) && e.newer == null
      modifies this`lay, this`items, this`oldest, this`newest, buckets, nr
      modifies e`next, e`prev, e`older, lay.pool`prev, lay.pool`newer
      ensures Valid() && lay == old(lay).With(e)
    {
      hide ChainsMatch, AgeMatches, Layout.Valid, Layout.With, Masked, IsPowerOfTwo;
      lay.WithNew(e);
      LinkBucket(b, e, lay);
      LinkAge(e, lay);
      lay := lay.With(e);
    }

    /** Takes an entry out of its chain; no other chain is touched. */
    method UnlinkFrom(b: nat, p: Entry<K, V>, head: Entry?<K, V>, ghost l: Layout<K, V>, ghost i: nat)
      returns (head': Entry?<K, V>)
      requires l.Valid() && b < l.size && i < |l.chains[b]| && p == l.chains[b][i] && head == At(l.chains[b], 0)
      requires forall c | 0 <= c < l.size :: Chained(l.chains[c])
      modifies l.pool`next, l.pool`prev
      ensures Chained(Removed(l.chains[b], i)) && head' == At(Removed(l.chains[b], i), 0)
      ensures forall c | 0 <= c < l.size && c != b :: Chained(l.chains[c])
    {
      hide Chained, Layout.Valid, Masked, Distinct, Removed;
      l.ChainsApart(b);
      head' := UnlinkChain(head, p, l.chains[b], i);
    }

    /** remove_from_chain for the buckets, with the count. */
    method UnlinkBucket(b: nat, p: Entry<K, V>, ghost l: Layout<K, V>, ghost i: nat, ghost a: nat)
      requires l.Valid() && ChainsMatch(l) && l.Has(p, i, a) && b == l.Bucket(p.key) && l.Without(p, i, a).Valid()
      modifies buckets, nr, l.pool`next, l.pool`prev
      ensures ChainsMatch(l.Without(p, i, a))
    {
      hide Chained, Layout.Valid, Masked, Distinct;
      l.ChainsApart(b);
      var head := UnlinkFrom(b, p, buckets[b], l, i);
      SetHead(b, head, -1);
    }

    /** remove_from_chain for the age list, with the count. */
    method UnlinkByAge(p: Entry<K, V>, ghost l: Layout<K, V>, ghost i: nat, ghost a: nat)
      requires l.Valid() && AgeMatches(l) && l.Has(p, i, a) && l.Without(p, i, a).Valid()
      modifies this`items, this`oldest, this`newest, l.pool`newer, l.pool`older
      ensures AgeMatches(l.Without(p, i, a))
    {
      hide Layout.Valid, Masked, Distinct, Aged;
      l.AgeOnce();
      oldest, newest := UnlinkAge(oldest, newest, p, l.age, a);
      items := items - 1;
    }

    /** Takes an entry out of the table. */
    method Unlink(b: nat, p: Entry<K, V>) returns (ghost i: nat, ghost a: nat)
      requires Valid() && p in lay.pool && b == lay.Bucket(p.key)
      modifies this`lay, this`items, this`oldest, this`newest, buckets, nr
      modifies lay.pool`next, lay.pool`prev, lay.pool`newer, lay.pool`older
      ensures Valid() && old(lay).Valid()
      ensures old(lay).Has(p, i, a) && lay == old(lay).Without(p, i, a)
    {
      hide ChainsMatch, AgeMatches, Layout.Valid, Layout.Without, Layout.Has, Masked, IsPowerOfTwo;
      i, a := lay.Find(p);
      lay.WithoutOld(p, i, a);
      UnlinkBucket(b, p, lay, i, a);
      UnlinkByAge(p, lay, i, a);
      lay := lay.Without(p, i, a);
    }

    // ----- the operations

    /** The finite map the table stands for. */
    ghost function Contents(): (m: map<K, V>)
      requires lay.Valid()
      reads this`lay, lay.pool`data
    {
      map k | k in lay.at :: lay.at[k].data
    }

    /** The keys in the order their entries were inserted. */
    ghost function Order(): (s: seq<K>)
      reads this`lay
    {
      KeysOf(lay.age)
    }

    /** ght_create: the size is rounded up to a power of two. */
    constructor (hash: K -> nat, minSize: nat)
      ensures Valid() && fresh(buckets) && fresh(nr)
      ensures this.hash == hash && Contents() == map[] && Order() == [] && lay.pool == {}
      ensures minSize <= size && !automaticRehash
    {
      var n, i := 1, 1;
      while n < minSize
        invariant 1 <= i && n == Pow2(i - 1)
        decreases minSize - n
      {
        n := Pow2(i);
        i := i + 1;
      }
      PowersOfTwo(i - 1);
      this.hash := hash;
      size, mask := n, Pow2(i - 1) - 1;
      items, automaticRehash := 0, false;
      buckets := new Entry?<K, V>[n](_ => null);
      nr := new int[n](_ => 0);
      oldest, newest := null, null;
      lay := Layout(hash, n, map[], {}, seq(n, _ => []), []);
    }

    /** The bucket of a key: its hash, masked. */
    function BucketIndex(key: K): (b: nat)
      requires IsPowerOfTwo(size) && mask == size - 1
      reads this`size, this`mask
      ensures b == Masked(hash(key), size)
    {
      MaskIsRemainder(hash(key), size);
      And(hash(key), mask)
    }

    /** ght_get */
    method Get(key: K) returns (r: Option<V>)
      requires Valid()
      ensures r == if key in Contents() then Some(Contents()[key]) else None
    {
      hide ChainsMatch, AgeMatches, Masked, IsPowerOfTwo, And;
      var e := SearchInBucket(BucketIndex(key), key);
      r := if e == null then None else Some(e.data);
    }

    /** ght_replace: the data of a key already there; None where the source returns -1. */
    method Replace(key: K, data: V) returns (was: Option<V>)
      requires Valid()
      modifies lay.pool`data
      ensures Valid() && Order() == old(Order())
      ensures was == if key in old(Contents()) then Some(old(Contents())[key]) else None
      ensures Contents() == if key in old(Contents()) then old(Contents())[key := data] else old(Contents())
    {
      hide ChainsMatch, AgeMatches, Masked, IsPowerOfTwo, And;
      var e := SearchInBucket(BucketIndex(key), key);
      if e == null { return None; }
      was := Some(e.data);
      e.data := data;
    }

    /** ght_remove, which frees the entry: its data, or None where the source returns 0. */
    method Remove(key: K) returns (was: Option<V>)
      requires Valid()
      modifies this`lay, this`items, this`oldest, this`newest, buckets, nr
      modifies lay.pool`next, lay.pool`prev, lay.pool`newer, lay.pool`older
      ensures Valid() && lay.pool <= old(lay.pool)
      ensures was == if key in old(Contents()) then Some(old(Contents())[key]) else None
      ensures Contents() == old(Contents()) - {key}
      ensures Order() == Omitted(old(Order()), key)
    {
      hide ChainsMatch, AgeMatches, Masked, And, Layout.Valid, Layout.Without, IsPowerOfTwo, Distinct, Omitted, Removed;
      OrderListsKeys();
      var b := BucketIndex(key);
      var p := SearchInBucket(b, key);
      if p == null {
        NothingOmitted(Order(), key);
        return None;
      }
      lay.EntryOf(key);
      ghost var s := lay.age;
      ghost var i, a := Unlink(b, p);
      was := Some(p.data);
      RemovedKeys(s, a);
      OneOmitted(KeysOf(s), a);
    }

    /** ght_insert: -1 if the key is there already, else 0 and the new entry is the newest.
      * A crowded table is rehashed to twice its size first. */
    method Insert(key: K, data: V) returns (r: int)
      requires Valid()
      modifies this, buckets, nr, lay.pool
      ensures Valid() && automaticRehash == old(automaticRehash) && size >= old(size)
      ensures forall e | e in lay.pool :: e in old(lay.pool) || fresh(e)
      ensures (buckets == old(buckets) || fresh(buckets)) && (nr == old(nr) || fresh(nr))
      ensures r == if key in old(Contents()) then -1 else 0
      ensures r == -1 ==> Contents() == old(Contents()) && Order() == old(Order())
      ensures r == 0 ==> Contents() == old(Contents())[key := data] && Order() == old(Order()) + [key]
      decreases if automaticRehash then 3 else 0
    {
      hide ChainsMatch, AgeMatches, Masked, And, Layout.Valid, IsPowerOfTwo, Contents, KeysOf;
      var e := SearchInBucket(BucketIndex(key), key);
      KeysListed();
      if e != null { return -1; }
      var entry := new Entry(key, data);
      if automaticRehash && items > 2 * size {
        Rehash(2 * size);
        KeysListed();
      }
      LinkNew(entry);
      return 0;
    }

    lemma KeysListed()
      requires lay.Valid()
      ensures forall k :: k in Contents() <==> k in lay.at
    {
    }

    /** Linking a new entry, seen from outside. */
    method LinkNew(e: Entry<K, V>)
      requires Valid() && e.key !in lay.at && e.newer == null && e !in lay.pool
      modifies this`lay, this`items, this`oldest, this`newest, buckets, nr
      modifies e`next, e`prev, e`older, lay.pool`prev, lay.pool`newer
      ensures Valid() && lay.pool == old(lay.pool) + {e}
      ensures Contents() == old(Contents())[e.key := e.data] && Order() == old(Order()) + [e.key]
    {
      hide ChainsMatch, AgeMatches, Masked, And, Layout.Valid, IsPowerOfTwo;
      lay.EntriesKnown();
      ghost var l := lay;
      Link(BucketIndex(e.key), e);
      assert lay.at == l.at[e.key := e];
      assert KeysOf(l.age + [e]) == KeysOf(l.age) + [e.key];
    }

    /** The contents of the n oldest entries. */
    ghost function Oldest(n: nat): map<K, V>
      requires lay.Valid() && n <= |lay.age|
      reads this`lay, lay.pool`data
    {
      map k | k in Order()[..n] && k in Contents() :: Contents()[k]
    }

    lemma OldestGrows(n: nat)
      requires lay.Valid() && n < |lay.age|
      ensures var e := lay.age[n]; e.key !in Oldest(n) && Oldest(n + 1) == Oldest(n)[e.key := e.data]
      ensures Order()[..n] + [lay.age[n].key] == Order()[..n + 1]
    {
      hide Masked, Layout.Valid;
      OrderListsKeys();
      lay.EntriesKnown();
      var k := lay.age[n].key;
      lay.AgedEntry(n);
      assert Order()[n] == k && k !in Order()[..n];
      assert forall j :: j in Order()[..n + 1] <==> j in Order()[..n] || j == k;
    }

    lemma OldestEnds()
      requires lay.Valid()
      ensures Oldest(0) == map[] && Oldest(|lay.age|) == Contents() && Order()[..|lay.age|] == Order()
    {
      hide Masked, Layout.Valid;
      OrderListsKeys();
      assert Order()[..|lay.age|] == Order();
    }

    /** The insertions of ght_rehash: everything into an empty table, oldest first. */
    method Refill(tmp: Table<K, V>)
      requires Valid() && tmp.Valid() && tmp.hash == hash && !tmp.automaticRehash && tmp != this
      requires tmp.Contents() == map[] && tmp.Order() == [] && tmp.lay.pool == {}
      requires tmp.buckets != buckets && tmp.nr != nr
      modifies tmp, tmp.buckets, tmp.nr
      ensures Valid() && tmp.Valid() && tmp.size >= old(tmp.size)
      ensures fresh(tmp.lay.pool)
      ensures (tmp.buckets == old(tmp.buckets) || fresh(tmp.buckets)) && (tmp.nr == old(tmp.nr) || fresh(tmp.nr))
      ensures tmp.Contents() == Contents() && tmp.Order() == Order()
      decreases 1
    {
      hide ChainsMatch, AgeMatches, Masked, And, Layout.Valid, IsPowerOfTwo, Contents, Oldest, KeysOf;
      OldestEnds();
      ghost var n := 0;
      var c := First();
      while c.entry != null
        invariant 0 <= n <= |lay.age| && IsAt(c, n) && Valid()
        invariant tmp.Valid() && tmp.hash == hash && !tmp.automaticRehash && tmp.size >= old(tmp.size)
        invariant fresh(tmp.lay.pool) && tmp.lay.pool !! lay.pool
        invariant (tmp.buckets == old(tmp.buckets) || fresh(tmp.buckets)) && (tmp.nr == old(tmp.nr) || fresh(tmp.nr))
        invariant tmp.Order() == Order()[..n] && tmp.Contents() == Oldest(n)
        decreases |lay.age| - n
      {
        OldestGrows(n);
        var r := tmp.Insert(c.entry.key, c.entry.data);
        c := Next(c, n);
        n := n + 1;
      }
    }

    /** ght_rehash: all entries are inserted anew, oldest first, into a table of the new
      * size, whose buckets then replace the old ones. */
    method Rehash(newSize: nat)
      requires Valid()
      modifies this
      ensures Valid() && automaticRehash == old(automaticRehash) && newSize <= size
      ensures fresh(lay.pool) && fresh(buckets) && fresh(nr)
      ensures Contents() == old(Contents()) && Order() == old(Order())
      decreases 2
    {
      hide ChainsMatch, AgeMatches, Masked, And, Layout.Valid, IsPowerOfTwo, Contents, KeysOf;
      var tmp := new Table(hash, newSize);
      Refill(tmp);
      Adopt(tmp);
    }

    /** Replaces the old table by the new one. */
    method Adopt(tmp: Table<K, V>)
      requires lay.Valid() && tmp.Valid() && tmp.hash == hash && tmp != this
      modifies this
      ensures Valid() && automaticRehash == old(automaticRehash)
      ensures size == tmp.size && buckets == tmp.buckets && nr == tmp.nr && lay == tmp.lay
      ensures Contents() == tmp.Contents() && Order() == tmp.Order()
    {
      hide ChainsMatch, AgeMatches, Masked, And, Layout.Valid, IsPowerOfTwo, KeysOf;
      size, mask, items := tmp.size, tmp.mask, tmp.items;
      buckets, nr, oldest, newest := tmp.buckets, tmp.nr, tmp.oldest, tmp.newest;
      lay := tmp.lay;
      SameTable(tmp);
    }

    lemma SameTable(t: Table<K, V>)
      requires t.lay.Valid() && buckets == t.buckets && nr == t.nr
      requires items == t.items && oldest == t.oldest && newest == t.newest
      ensures t.ChainsMatch(t.lay) ==> ChainsMatch(t.lay)
      ensures t.AgeMatches(t.lay) ==> AgeMatches(t.lay)
    {
      hide Chained, Aged, Masked, Layout.Valid;
    }

    // ----- iteration

    /** An iterator that has reached the n-th oldest entry, or the end. */
    ghost predicate IsAt(c: Cursor<K, V>, n: nat)
      reads this`lay
    {
      c.entry == At(lay.age, n) && c.next == At(lay.age, n + 1)
    }

    /** ght_first */
    method First() returns (c: Cursor<K, V>)
      requires Valid()
      ensures IsAt(c, 0)
    {
      hide ChainsMatch, Layout.Valid, Masked, IsPowerOfTwo;
      c := Cursor(oldest, if oldest != null then oldest.newer else null);
    }

    /** ght_next */
    method Next(c: Cursor<K, V>, ghost n: nat) returns (c': Cursor<K, V>)
      requires Valid() && IsAt(c, n)
      ensures IsAt(c', n + 1)
    {
      hide ChainsMatch, Layout.Valid, Masked, IsPowerOfTwo;
      if c.next != null {
        c' := Cursor(c.next, c.next.newer);
      } else {
        c' := Cursor(null, null);
      }
    }

    /** A whole iteration meets every key of the table once, in insertion order. */
    method Keys() returns (keys: seq<K>)
      requires Valid()
      ensures keys == Order() && Distinct(keys) && forall k :: k in keys <==> k in Contents()
    {
      hide ChainsMatch, AgeMatches, Layout.Valid, Masked, IsPowerOfTwo;
      OrderListsKeys();
      keys := [];
      var c := First();
      while c.entry != null
        invariant |keys| <= |lay.age| && IsAt(c, |keys|) && keys == Order()[..|keys|]
        decreases |lay.age| - |keys|
      {
        ghost var n := |keys|;
        keys := keys + [c.entry.key];
        c := Next(c, n);
      }
    }

    lemma OrderListsKeys()
      requires lay.Valid()
      ensures Distinct(Order()) && forall k :: k in Order() <==> k in lay.at
    {
      hide Masked;
      forall k | k in lay.at
        ensures k in Order()
      {
        var a :| 0 <= a < |lay.age| && lay.age[a] == lay.at[k];
        assert Order()[a] == k;
      }
    }
  }

  datatype Cursor<K, V> = Cursor(entry: Entry?<K, V>, next: Entry?<K, V>)

  /** A sequence without the occurrences of k. */
  function Omitted<K(==)>(s: seq<K>, k: K): seq<K> {
    if s == [] then [] else (if s[0] == k then [] else [s[0]]) + Omitted(s[1..], k)
  }

  lemma {:induction false} NothingOmitted<K>(s: seq<K>, k: K)
    requires k !in s
    ensures Omitted(s, k) == s
  {
    if s != [] { NothingOmitted(s[1..], k); }
  }

  lemma {:induction false} OneOmitted<K>(s: seq<K>, a: nat)
    requires a < |s| && Distinct(s)
    ensures Omitted(s, s[a]) == Removed(s, a)
    decreases a
  {
    if a == 0 {
      NothingOmitted(s[1..], s[0]);
      assert Removed(s, 0) == s[1..];
    } else {
      OneOmitted(s[1..], a - 1);
      assert Removed(s, a) == [s[0]] + Removed(s[1..], a - 1);
    }
  }

  lemma RemovedKeys<K, V>(s: seq<Entry<K, V>>, a: nat)
    requires a < |s|
    ensures KeysOf(Removed(s, a)) == Removed(KeysOf(s), a)
  {
  }

  datatype Option<+T> = None | Some(value: T)

  ghost function KeysOf<K, V>(s: seq<Entry<K, V>>): (r: seq<K>)
    ensures |r| == |s| && forall i | 0 <= i < |s| :: r[i] == s[i].key
  {
    seq(|s|, i requires 0 <= i < |s| => s[i].key)
  }

  function Pow2(n: nat): (p: nat)
    ensures p > n
  {
    if n == 0 then 1 else 2 * Pow2(n - 1)
  }

  lemma {:induction false} PowersOfTwo(n: nat)
    ensures IsPowerOfTwo(Pow2(n))
  {
    if n > 0 { PowersOfTwo(n - 1); }
  }
}
