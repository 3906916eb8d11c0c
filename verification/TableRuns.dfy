/** Whole runs of operations on one hash table, against a finite map and the order in which
  * its keys were inserted. */
module TableRuns {
  import opened HashTable

  datatype Op<K, V> = Put(key: K, data: V) | Swap(key: K, data: V) | Drop(key: K) | Look(key: K) | Grow(newSize: nat) | List

  /** What a caller may know of a table. */
  datatype Abstract<K(!new), V(!new)> = Abstract(contents: map<K, V>, order: seq<K>)

  datatype Answer<K, V> = Inserted(r: int) | Found(was: Option<V>) | Rehashed | Listed(keys: seq<K>)

  ghost function Effect<K(!new), V(!new)>(a: Abstract<K, V>, op: Op<K, V>): Abstract<K, V> {
    match op
    case Put(k, d) => if k in a.contents then a else Abstract(a.contents[k := d], a.order + [k])
    case Swap(k, d) => if k in a.contents then Abstract(a.contents[k := d], a.order) else a
    case Drop(k) => Abstract(a.contents - {k}, Omitted(a.order, k))
    case _ => a
  }

  ghost function AnswerOf<K(!new), V(!new)>(a: Abstract<K, V>, op: Op<K, V>): Answer<K, V> {
    match op
    case Put(k, _) => Inserted(if k in a.contents then -1 else 0)
    case Grow(_) => Rehashed
    case List => Listed(a.order)
    case _ => Found(if op.key in a.contents then Some(a.contents[op.key]) else None)
  }

  ghost function After<K(!new), V(!new)>(a: Abstract<K, V>, ops: seq<Op<K, V>>): Abstract<K, V> {
    if ops == [] then a else Effect(After(a, ops[..|ops| - 1]), ops[|ops| - 1])
  }

  ghost function Answers<K(!new), V(!new)>(a: Abstract<K, V>, ops: seq<Op<K, V>>): seq<Answer<K, V>> {
    if ops == [] then []
    else Answers(a, ops[..|ops| - 1]) + [AnswerOf(After(a, ops[..|ops| - 1]), ops[|ops| - 1])]
  }

  ghost function View<K(!new), V(!new)>(t: Table<K, V>): Abstract<K, V>
    requires t.Valid()
    reads t, t.buckets, t.nr, t.lay.pool
  {
    Abstract(t.Contents(), t.Order())
  }

  method Apply<K(!new, ==), V(!new)>(t: Table<K, V>, op: Op<K, V>) returns (answer: Answer<K, V>)
    requires t.Valid()
    modifies t, t.buckets, t.nr, t.lay.pool
    ensures t.Valid() && View(t) == Effect(old(View(t)), op) && answer == AnswerOf(old(View(t)), op)
    ensures forall e | e in t.lay.pool :: e in old(t.lay.pool) || fresh(e)
    ensures (t.buckets == old(t.buckets) || fresh(t.buckets)) && (t.nr == old(t.nr) || fresh(t.nr))
  {
    hide Table.Valid, Table.Contents, Table.Order, Layout.Valid, Omitted;
    match op {
      case Put(k, d) =>
        var r := t.Insert(k, d);
        answer := Inserted(r);
      case Swap(k, d) =>
        var was := t.Replace(k, d);
        answer := Found(was);
      case Drop(k) =>
        var was := t.Remove(k);
        answer := Found(was);
      case Look(k) =>
        var was := t.Get(k);
        answer := Found(was);
      case Grow(n) =>
        t.Rehash(n);
        answer := Rehashed;
      case List =>
        var keys := t.Keys();
        answer := Listed(keys);
    }
  }

  /** Over any run, with its automatic rehashes, the table stands for the map and the order,
    * and each operation answers from them. */
  method Run<K(!new, ==), V(!new)>(t: Table<K, V>, ops: seq<Op<K, V>>) returns (answers: seq<Answer<K, V>>)
    requires t.Valid()
    modifies t, t.buckets, t.nr, t.lay.pool
    ensures t.Valid() && View(t) == After(old(View(t)), ops) && answers == Answers(old(View(t)), ops)
  {
    hide Table.Valid, View, Effect, AnswerOf;
    ghost var a := View(t);
    answers := [];
    var i := 0;
    while i < |ops|
      invariant i <= |ops| && t.Valid()
      invariant View(t) == After(a, ops[..i]) && answers == Answers(a, ops[..i])
      invariant forall e | e in t.lay.pool :: e in old(t.lay.pool) || fresh(e)
      invariant (t.buckets == old(t.buckets) || fresh(t.buckets)) && (t.nr == old(t.nr) || fresh(t.nr))
    {
      var answer := Apply(t, ops[i]);
      answers := answers + [answer];
      assert ops[..i + 1][..i] == ops[..i];
      i := i + 1;
    }
    assert ops[..|ops|] == ops;
  }
}
