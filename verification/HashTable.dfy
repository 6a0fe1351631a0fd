/**
 * The chained hash table of `hashtable.c`: the first element of every bucket is
 * embedded in the bucket array, further ones are linked from it.
 *
 * Keys stand for what `_cmp` compares, and `hash` for `_hash`; the zero key and the
 * NULL value of an empty head are None. The value an operation hands to the deleter is
 * a result of it; freeing of keys is not modelled.
 */
module HashTable {
  import opened Options
  import opened Sequences

  class Element<K, V> {
    var key: Option<K>
    var value: Option<V>
    var next: Element?<K, V>

    constructor (key: Option<K>, value: Option<V>)
      ensures this.key == key && this.value == value && next == null
    {
      this.key, this.value, next := key, value, null;
    }
  }

  // ---- association lists -------------------------------------------------------------

  function Find<K(==), V>(list: seq<(K, V)>, k: K): Option<V> {
    if list == [] then None else if list[0].0 == k then Some(list[0].1) else Find(list[1..], k)
  }

  ghost predicate UniqueKeys<K, V>(list: seq<(K, V)>) {
    forall i, j :: 0 <= i < j < |list| ==> list[i].0 != list[j].0
  }

  lemma {:induction false} FindAt<K, V>(list: seq<(K, V)>, k: K, i: nat)
    requires i <= |list| && forall j :: 0 <= j < i ==> list[j].0 != k
    ensures Find(list, k) == Find(list[i..], k)
    ensures i < |list| && list[i].0 == k ==> Find(list, k) == Some(list[i].1)
    decreases i
  {
    if i == 0 {
      assert list[0..] == list;
    } else {
      FindAt(list[1..], k, i - 1);
      assert list[1..][i - 1..] == list[i..];
    }
  }

  lemma {:induction false} FindAppend<K, V>(list: seq<(K, V)>, k: K, v: V, x: K)
    requires forall j :: 0 <= j < |list| ==> list[j].0 != k
    ensures Find(list + [(k, v)], x) == if x == k then Some(v) else Find(list, x)
    decreases |list|
  {
    if list != [] {
      FindAppend(list[1..], k, v, x);
      assert (list + [(k, v)])[1..] == list[1..] + [(k, v)];
    }
  }

  lemma {:induction false} FindUpdate<K, V>(list: seq<(K, V)>, i: nat, v: V, x: K)
    requires i < |list| && UniqueKeys(list)
    ensures Find(list[i := (list[i].0, v)], x) == if x == list[i].0 then Some(v) else Find(list, x)
    decreases |list|
  {
    if i == 0 {
      assert list[0 := (list[0].0, v)][1..] == list[1..];
    } else {
      FindUpdate(list[1..], i - 1, v, x);
      assert list[i := (list[i].0, v)][1..] == list[1..][i - 1 := (list[i].0, v)];
    }
  }

  lemma {:induction false} FindWithout<K, V>(list: seq<(K, V)>, i: nat, x: K)
    requires i < |list| && UniqueKeys(list)
    ensures Find(Without(list, i), x) == if x == list[i].0 then None else Find(list, x)
    decreases |list|
  {
    if i == 0 {
      assert Without(list, 0) == list[1..];
      if x == list[0].0 {
        FindNone(list[1..], x);
      }
    } else {
      FindWithout(list[1..], i - 1, x);
      assert Without(list, i)[1..] == Without(list[1..], i - 1);
    }
  }

  lemma {:induction false} FindNone<K, V>(list: seq<(K, V)>, x: K)
    requires forall j :: 0 <= j < |list| ==> list[j].0 != x
    ensures Find(list, x) == None
  {
    if list != [] {
      FindNone(list[1..], x);
    }
  }

  // ---- chains --------------------------------------------------------------------------

  /** From `n` on, the elements `es` are linked in order, hold the bindings of `list`, and lead to `end`. */
  ghost predicate Segment<K, V>(n: Element?<K, V>, es: seq<Element<K, V>>, list: seq<(K, V)>, end: Element?<K, V>)
    reads es
    decreases |es|
  {
    if es == [] then n == end && list == []
    else
      list != [] && n == es[0] && n.key == Some(list[0].0) && n.value == Some(list[0].1)
      && Segment(n.next, es[1..], list[1..], end)
  }

  ghost predicate Chain<K, V>(n: Element?<K, V>, es: seq<Element<K, V>>, list: seq<(K, V)>)
    reads es
  {
    Segment(n, es, list, null)
  }

  ghost predicate Apart<T>(a: seq<T>, b: seq<T>) {
    forall i, j :: 0 <= i < |a| && 0 <= j < |b| ==> a[i] != b[j]
  }

  ghost predicate Distinct<T>(es: seq<T>) {
    forall i, j :: 0 <= i < j < |es| ==> es[i] != es[j]
  }

  lemma DistinctAt<T>(es: seq<T>, i: nat)
    requires Distinct(es) && i < |es|
    ensures es[i] !in es[..i] && es[i] !in es[i + 1..] && Distinct(Without(es, i))
  {
    var w := Without(es, i);
    forall a, b | 0 <= a < b < |w|
      ensures w[a] != w[b]
    {
      assert w[a] == es[if a < i then a else a + 1] && w[b] == es[if b < i then b else b + 1];
    }
  }

  lemma UniqueWithout<K, V>(list: seq<(K, V)>, i: nat)
    requires UniqueKeys(list) && i < |list|
    ensures UniqueKeys(Without(list, i))
  {
    var w := Without(list, i);
    forall a, b | 0 <= a < b < |w|
      ensures w[a].0 != w[b].0
    {
      assert w[a] == list[if a < i then a else a + 1] && w[b] == list[if b < i then b else b + 1];
    }
  }

  lemma UniqueUpdate<K, V>(list: seq<(K, V)>, i: nat, v: V)
    requires UniqueKeys(list) && i < |list|
    ensures UniqueKeys(list[i := (list[i].0, v)])
  {
  }

  lemma {:induction false} Join<K, V>(n: Element?<K, V>, a: seq<Element<K, V>>, la: seq<(K, V)>, mid: Element?<K, V>,
                                      b: seq<Element<K, V>>, lb: seq<(K, V)>, end: Element?<K, V>)
    requires Segment(n, a, la, mid) && Segment(mid, b, lb, end)
    ensures Segment(n, a + b, la + lb, end)
    decreases |a|
  {
    if a == [] {
      assert a + b == b && la + lb == lb;
    } else {
      Join(n.next, a[1..], la[1..], mid, b, lb, end);
      assert (a + b)[1..] == a[1..] + b && (la + lb)[1..] == la[1..] + lb;
    }
  }

  lemma {:induction false} SameLength<K, V>(n: Element?<K, V>, es: seq<Element<K, V>>, list: seq<(K, V)>, end: Element?<K, V>)
    requires Segment(n, es, list, end)
    ensures |es| == |list|
    decreases |es|
  {
    if es != [] {
      SameLength(n.next, es[1..], list[1..], end);
    }
  }

  ghost predicate EmptyHead<K, V>(h: Element<K, V>)
    reads h
  {
    h.key.None? && h.value.None? && h.next == null
  }

  /** A bucket: its embedded head starts the chain; an empty head has an empty chain. */
  ghost predicate Bucket<K, V>(head: Element<K, V>, es: seq<Element<K, V>>, list: seq<(K, V)>)
    reads head, es
  {
    |es| > 0 && es[0] == head && UniqueKeys(list) && Distinct(es)
    && if list == [] then es == [head] && EmptyHead(head)
       else Chain(head, es, list)
  }

  /** The loop shared by the walks: step from element `i` to the next. */
  lemma StepOver<K, V>(head: Element<K, V>, es: seq<Element<K, V>>, list: seq<(K, V)>, i: nat, el: Element<K, V>)
    requires i < |es| == |list| && Segment(head, es[..i], list[..i], el) && Chain(el, es[i..], list[i..])
    ensures el == es[i] && el.key == Some(list[i].0) && el.value == Some(list[i].1)
    ensures Segment(head, es[..i + 1], list[..i + 1], el.next) && Chain(el.next, es[i + 1..], list[i + 1..])
    ensures el.next == null <==> i + 1 == |es|
  {
    assert es[i..][1..] == es[i + 1..] && list[i..][1..] == list[i + 1..];
    assert Segment(el, [es[i]], [list[i]], el.next) by {
      assert [es[i]][1..] == [] && [list[i]][1..] == [];
    }
    Join(head, es[..i], list[..i], el, [es[i]], [list[i]], el.next);
    assert es[..i] + [es[i]] == es[..i + 1] && list[..i] + [list[i]] == list[..i + 1];
  }

  /** `ht_find` in one bucket. */
  method FindInChain<K(==), V>(head: Element<K, V>, k: K, ghost es: seq<Element<K, V>>, ghost list: seq<(K, V)>) returns (r: Option<V>)
    requires Bucket(head, es, list)
    ensures r == Find(list, k)
  {
    var el: Element?<K, V> := head;
    ghost var i := 0;
    assert es[0..] == es && list[0..] == list;
    while el != null
      invariant list == [] ==> el == null || (el == head && i == 0)
      invariant list != [] ==> i <= |es| && i <= |list| && Chain(el, es[i..], list[i..]) && Find(list, k) == Find(list[i..], k)
      decreases |es| - i
    {
      if list != [] {
        assert es[i..][1..] == es[i + 1..] && list[i..][1..] == list[i + 1..];
      }
      if el.key == Some(k) {
        return el.value;
      }
      el := el.next;
      i := i + 1;
    }
    return None;
  }

  /** Element `i` gets value `v`. */
  method SetValue<K(==), V>(head: Element<K, V>, el: Element<K, V>, v: V, ghost es: seq<Element<K, V>>, ghost list: seq<(K, V)>, ghost i: nat)
    requires Bucket(head, es, list) && list != [] && i < |es| == |list|
    requires Segment(head, es[..i], list[..i], el) && Chain(el, es[i..], list[i..])
    modifies el`value
    ensures Bucket(head, es, list[i := (list[i].0, v)])
  {
    hide UniqueKeys, Distinct, Without;
    StepOver(head, es, list, i, el);
    DistinctAt(es, i);
    UniqueUpdate(list, i, v);
    ghost var binding := (list[i].0, v);
    el.value := Some(v);
    assert Segment(head, es[..i], list[..i], el) && Chain(el.next, es[i + 1..], list[i + 1..]);
    ghost var tail, ltail := [es[i]] + es[i + 1..], [binding] + list[i + 1..];
    assert tail[1..] == es[i + 1..] && ltail[1..] == list[i + 1..];
    Join(head, es[..i], list[..i], el, tail, ltail, null);
    assert es[..i] + tail == es && list[..i] + ltail == list[i := binding];
  }

  /** A new element goes behind the last one. */
  method AppendElement<K(==), V>(head: Element<K, V>, el: Element<K, V>, k: K, v: V, ghost es: seq<Element<K, V>>, ghost list: seq<(K, V)>)
    returns (newel: Element<K, V>)
    requires Bucket(head, es, list) && list != [] && |es| == |list| && forall j :: 0 <= j < |list| ==> list[j].0 != k
    requires var i := |es| - 1; Segment(head, es[..i], list[..i], el) && Chain(el, es[i..], list[i..])
    modifies el`next
    ensures fresh(newel) && Bucket(head, es + [newel], list + [(k, v)])
  {
    ghost var i := |es| - 1;
    StepOver(head, es, list, i, el);
    newel := new Element(Some(k), Some(v));
    el.next := newel;
    ghost var tail, ltail := [es[i], newel], [list[i], (k, v)];
    assert tail[1..] == [newel] && ltail[1..] == [(k, v)] && [newel][1..] == [] && [(k, v)][1..] == [];
    assert Chain(newel, [newel], [(k, v)]);
    assert Chain(el, tail, ltail);
    Join(head, es[..i], list[..i], el, tail, ltail, null);
    assert es[..i] + tail == es + [newel] && list[..i] + ltail == list + [(k, v)];
  }

  /** The inner loop of `ht_upsert`. */
  method UpsertChain<K(==), V>(head: Element<K, V>, k: K, v: V, ghost es: seq<Element<K, V>>, ghost list: seq<(K, V)>)
    returns (freed: Option<V>, ghost es': seq<Element<K, V>>, ghost list': seq<(K, V)>)
    requires Bucket(head, es, list) && list != []
    modifies es
    ensures Bucket(head, es', list') && es <= es' && forall e :: e in es' ==> e in es || fresh(e)
    ensures Upserted(list, k, v, list') && freed == Find(list, k)
  {
    SameLength(head, es, list, null);
    var el := head;
    ghost var i := 0;
    assert es[0..] == es && list[0..] == list && es[..0] == [] && list[..0] == [];
    while true
      invariant 0 <= i < |es| && Segment(head, es[..i], list[..i], el) && Chain(el, es[i..], list[i..])
      invariant Bucket(head, es, list) && forall j :: 0 <= j < i ==> list[j].0 != k
      decreases |es| - i
    {
      StepOver(head, es, list, i, el);
      if el.key == Some(k) {
        freed := el.value;
        FindAt(list, k, i);
        SetValue(head, el, v, es, list, i);
        return freed, es, list[i := (k, v)];
      } else if el.next == null {
        FindNone(list, k);
        var newel := AppendElement(head, el, k, v, es, list);
        return None, es + [newel], list + [(k, v)];
      }
      el := el.next;
      i := i + 1;
    }
  }

  /** The binding of `k` replaced where it is, or added at the end. */
  ghost predicate Upserted<K, V>(list: seq<(K, V)>, k: K, v: V, list': seq<(K, V)>) {
    || (list' == list + [(k, v)] && forall j :: 0 <= j < |list| ==> list[j].0 != k)
    || exists i :: 0 <= i < |list| && list[i].0 == k && list' == list[i := (k, v)]
  }

  /** `ht_remove` when the key is in the embedded head: the next element, if any, is pulled up. */
  method RemoveHead<K(==), V>(head: Element<K, V>, ghost es: seq<Element<K, V>>, ghost list: seq<(K, V)>)
    returns (ghost es': seq<Element<K, V>>)
    requires Bucket(head, es, list) && list != []
    modifies head
    ensures Bucket(head, es', Without(list, 0)) && forall e :: e in es' ==> e in es
  {
    DistinctAt(es, 0);
    UniqueWithout(list, 0);
    assert Without(list, 0) == list[1..];
    if |es| > 1 {
      DistinctAt(es, 1);
      assert Without(es, 1) == [head] + es[2..];
    }
    hide UniqueKeys, Distinct, Without;
    assert Segment(head.next, es[1..], list[1..], null) && head !in es[1..];
    assert head.next != null ==> es[1..][1..] == es[2..] && list[1..][1..] == list[2..];
    head.key, head.value := None, None;
    assert Segment(head.next, es[1..], list[1..], null);
    if head.next != null {
      var n := head.next;
      head.key, head.value, head.next := n.key, n.value, n.next;
      es' := [head] + es[2..];
      assert es'[1..] == es[2..];
    } else {
      es' := [head];
    }
  }

  /** Element `i` is unlinked; it keeps its own fields. */
  method DropNext<K(==), V>(head: Element<K, V>, pp: Element<K, V>, en: Element<K, V>,
                                        ghost es: seq<Element<K, V>>, ghost list: seq<(K, V)>, ghost i: nat)
    requires Bucket(head, es, list) && list != [] && 1 <= i < |es| == |list|
    requires Segment(head, es[..i - 1], list[..i - 1], pp) && Chain(pp, es[i - 1..], list[i - 1..]) && en == pp.next
    modifies pp`next
    ensures Bucket(head, Without(es, i), Without(list, i)) && Chain(en, es[i..], list[i..])
  {
    StepOver(head, es, list, i - 1, pp);
    StepOver(head, es, list, i, en);
    DistinctAt(es, i);
    DistinctAt(es, i - 1);
    UniqueWithout(list, i);
    assert pp !in es[i + 1..] && pp !in es[i..] by {
      assert es[i - 1 + 1..] == es[i..] && es[i..][1..] == es[i + 1..];
    }
    assert |Without(es, i)| > 0 && Without(es, i)[0] == head;
    assert es[..i - 1] + ([pp] + es[i + 1..]) == Without(es, i);
    assert list[..i - 1] + ([list[i - 1]] + list[i + 1..]) == Without(list, i);
    hide UniqueKeys, Distinct, Without;
    pp.next := en.next;
    assert Segment(head, es[..i - 1], list[..i - 1], pp) && Chain(en.next, es[i + 1..], list[i + 1..]);
    ghost var tail, ltail := [pp] + es[i + 1..], [list[i - 1]] + list[i + 1..];
    assert tail[1..] == es[i + 1..] && ltail[1..] == list[i + 1..];
    Join(head, es[..i - 1], list[..i - 1], pp, tail, ltail, null);
    assert es[i..][1..] == es[i + 1..] && list[i..][1..] == list[i + 1..];
  }

  /**
   * `ht_remove` further down the chain. The loop goes on through the element it just freed;
   * its link is taken to be still there, and no second element can have the key.
   */
  method Unlink<K(==), V>(head: Element<K, V>, k: K, ghost es: seq<Element<K, V>>, ghost list: seq<(K, V)>)
    returns (freed: Option<V>, ghost es': seq<Element<K, V>>, ghost list': seq<(K, V)>)
    requires Bucket(head, es, list) && list != [] && list[0].0 != k
    modifies es
    ensures Bucket(head, es', list') && forall e :: e in es' ==> e in es
    ensures Removed(list, k, list') && freed == FreedBy(list, list')
  {
    hide Without;
    SameLength(head, es, list, null);
    freed, es', list' := None, es, list;
    var pp: Element<K, V>, en: Element?<K, V> := head, head.next;
    ghost var i, r := 1, 0;  // r > 0: the element taken out
    assert es[0..] == es && list[0..] == list && es[..0] == [] && list[..0] == [];
    StepOver(head, es, list, 0, head);
    while en != null
      invariant 1 <= i <= |es| && Chain(en, es[i..], list[i..])
      invariant r == 0 ==> Bucket(head, es, list) && es' == es && list' == list && en == pp.next
      invariant r == 0 ==> Segment(head, es[..i - 1], list[..i - 1], pp) && Chain(pp, es[i - 1..], list[i - 1..])
      invariant r == 0 ==> forall j :: 0 <= j < i ==> list[j].0 != k
      invariant freed == if r > 0 then Some(list[0].1) else None
      invariant r > 0 ==> r < i && list[r].0 == k && es' == Without(es, r) && list' == Without(list, r) && Bucket(head, es', list')
      decreases |es| - i
    {
      assert es[i..][1..] == es[i + 1..] && list[i..][1..] == list[i + 1..] && en.key == Some(list[i].0);
      if en.key == Some(k) {
        freed := head.value;
        DropNext(head, pp, en, es, list, i);
        es', list', r := Without(es, i), Without(list, i), i;
      } else if r == 0 {
        StepOver(head, es, list, i - 1, pp);
      }
      pp, en, i := en, en.next, i + 1;
    }
    if r > 0 {
      WithoutIsPart(es, r);
    }
  }

  /** The value `ht_remove` frees when it takes out a binding: that of the bucket head, whichever binding it is. */
  ghost function FreedBy<K, V>(list: seq<(K, V)>, list': seq<(K, V)>): Option<V> {
    if |list'| == |list| || list == [] then None else Some(list[0].1)
  }

  /** The binding of `k` taken out, if there was one. */
  ghost predicate Removed<K, V>(list: seq<(K, V)>, k: K, list': seq<(K, V)>) {
    || (list' == list && forall j :: 0 <= j < |list| ==> list[j].0 != k)
    || exists i :: 0 <= i < |list| && list[i].0 == k && list' == Without(list, i)
  }

  lemma WithoutIsPart<T>(s: seq<T>, i: nat)
    requires i < |s|
    ensures forall x :: x in Without(s, i) ==> x in s
  {
  }

  // ---- the table ------------------------------------------------------------------------------

  lemma UpsertedFind<K, V>(list: seq<(K, V)>, k: K, v: V, list': seq<(K, V)>, x: K)
    requires UniqueKeys(list) && Upserted(list, k, v, list')
    ensures Find(list', x) == if x == k then Some(v) else Find(list, x)
  {
    if list' == list + [(k, v)] && forall j :: 0 <= j < |list| ==> list[j].0 != k {
      FindAppend(list, k, v, x);
    } else {
      var i :| 0 <= i < |list| && list[i].0 == k && list' == list[i := (k, v)];
      FindUpdate(list, i, v, x);
    }
  }

  lemma RemovedFind<K, V>(list: seq<(K, V)>, k: K, list': seq<(K, V)>, x: K)
    requires UniqueKeys(list) && Removed(list, k, list')
    ensures Find(list', x) == if x == k then None else Find(list, x)
  {
    if list' == list && forall j :: 0 <= j < |list| ==> list[j].0 != k {
      FindNone(list, k);
    } else {
      var i :| 0 <= i < |list| && list[i].0 == k && list' == Without(list, i);
      FindWithout(list, i, x);
    }
  }

  lemma RemovedKeys<K, V>(list: seq<(K, V)>, k: K, list': seq<(K, V)>)
    requires Removed(list, k, list')
    ensures forall i :: 0 <= i < |list'| ==> list'[i] in list
  {
    if list' != list {
      var i :| 0 <= i < |list| && list[i].0 == k && list' == Without(list, i);
      WithoutIsPart(list, i);
    }
  }

  function Get<K(==), V>(m: map<K, V>, k: K): Option<V> {
    if k in m then Some(m[k]) else None
  }

  /** The zeroed bucket array. */
  method EmptyHeads<K, V>(n: nat) returns (hs: seq<Element<K, V>>)
    ensures |hs| == n && Distinct(hs)
    ensures forall j :: 0 <= j < n ==> fresh(hs[j]) && Bucket(hs[j], [hs[j]], [])
  {
    hs := [];
    for i := 0 to n
      invariant |hs| == i && Distinct(hs)
      invariant forall j :: 0 <= j < i ==> fresh(hs[j]) && EmptyHead(hs[j])
    {
      var h := new Element(None, None);
      hs := hs + [h];
    }
  }

  class Table<K(==, !new), V> {
    const heads: seq<Element<K, V>>
    const hash: K -> nat
    ghost var chains: seq<seq<Element<K, V>>>
    ghost var lists: seq<seq<(K, V)>>
    ghost var contents: map<K, V>
    ghost var elements: set<Element<K, V>>

    function BucketOf(k: K): (b: nat)
      requires |heads| > 0
      ensures b < |heads|
    {
      hash(k) % |heads|
    }

    ghost predicate Shape()
      reads this, elements
    {
      |heads| > 0 && |chains| == |heads| && |lists| == |heads|
      && (forall b :: 0 <= b < |heads| ==> heads[b] in chains[b])
      && (forall b, i :: 0 <= b < |heads| && 0 <= i < |chains[b]| ==> chains[b][i] in elements)
      && (forall b :: 0 <= b < |heads| ==> Bucket(heads[b], chains[b], lists[b]))
      && forall b, c :: 0 <= b < |heads| && 0 <= c < |heads| && b != c ==> Apart(chains[b], chains[c])
    }

    /** The buckets together are the finite map `contents`. */
    ghost predicate Represents()
      reads this
      requires |heads| > 0 && |lists| == |heads|
    {
      (forall k :: Get(contents, k) == Find(lists[BucketOf(k)], k))
      && forall b, i :: 0 <= b < |heads| && 0 <= i < |lists[b]| ==> BucketOf(lists[b][i].0) == b
    }

    ghost predicate Valid()
      reads this, elements
    {
      Shape() && Represents()
    }

    /** `ht_create`. */
    constructor (numBuckets: nat, hash: K -> nat)
      requires numBuckets > 0
      ensures Valid() && contents == map[] && fresh(elements)
    {
      var hs := EmptyHeads<K, V>(numBuckets);
      heads, this.hash := hs, hash;
      chains := seq(numBuckets, b requires 0 <= b < |hs| => [hs[b]]);
      lists := seq(numBuckets, b => []);
      contents, elements := map[], set h | h in hs;
    }

    /** Bucket `b` now holds `list`; the other buckets were left alone. */
    ghost method Install(b: nat, es: seq<Element<K, V>>, list: seq<(K, V)>, m: map<K, V>)
      requires |heads| > 0 && |chains| == |heads| && |lists| == |heads| && b < |heads| && Represents()
      requires Bucket(heads[b], es, list)
      requires forall c :: 0 <= c < |heads| ==> heads[c] in chains[c]
      requires forall c :: 0 <= c < |heads| && c != b ==> Bucket(heads[c], chains[c], lists[c])
      requires forall c, i :: 0 <= c < |heads| && 0 <= i < |chains[c]| ==> chains[c][i] in elements
      requires forall a, c :: 0 <= a < |heads| && 0 <= c < |heads| && a != c ==> Apart(chains[a], chains[c])
      requires heads[b] in es && forall i :: 0 <= i < |es| ==> es[i] in chains[b] || es[i] !in elements
      requires forall i :: 0 <= i < |list| ==> BucketOf(list[i].0) == b
      requires forall x :: Get(m, x) == if BucketOf(x) == b then Find(list, x) else Get(contents, x)
      modifies this
      ensures Valid() && contents == m && elements == old(elements) + set e | e in es
    {
      hide Bucket, Find;
      forall c | 0 <= c < |heads| && c != b
        ensures Apart(es, chains[c]) && Apart(chains[c], es)
      {
        assert Apart(chains[b], chains[c]);
      }
      chains, lists, contents := chains[b := es], lists[b := list], m;
      elements := elements + set e | e in es;
    }

    /** `ht_find`. */
    method Lookup(k: K) returns (r: Option<V>)
      requires Valid()
      ensures r == Get(contents, k)
    {
      var b := BucketOf(k);
      r := FindInChain(heads[b], k, chains[b], lists[b]);
    }

    /** A full visit shows every binding of the map, and none twice. */
    lemma BindingsOnce()
      requires Valid()
      ensures UniqueKeys(Flat(lists))
      ensures forall k, v :: (k, v) in Flat(lists) <==> k in contents && contents[k] == v
    {
      hide Find, Segment;
      FlatUnique(lists);
      forall k, v
        ensures (k, v) in Flat(lists) <==> k in contents && contents[k] == v
      {
        FlatMember(lists, (k, v));
        var b := BucketOf(k);
        FindMember(lists[b], k, v);
        if c :| 0 <= c < |lists| && (k, v) in lists[c] {
          var i :| 0 <= i < |lists[c]| && lists[c][i] == (k, v);
          assert BucketOf(lists[c][i].0) == c;
        }
      }
    }

    /** `ht_visit`, with a visitor that changes nothing; false stops it. */
    method Visit(goOn: (K, V) -> bool) returns (seen: seq<(K, V)>)
      requires Valid()
      ensures Stopped(Flat(lists), seen, goOn) || (seen == Flat(lists) && AllGoOn(seen, goOn))
    {
      hide Find, Bucket, Stopped, AllGoOn;
      seen := [];
      ghost var rest := lists;
      NobodyStops(goOn);
      for b := 0 to |heads|
        invariant rest == lists[b..] && Flat(lists) == seen + Flat(rest) && AllGoOn(seen, goOn)
      {
        assert rest[0] == lists[b] && rest[1..] == lists[b + 1..];
        var more, stopped := VisitBucket(heads[b], goOn, chains[b], lists[b]);
        if stopped {
          StoppedLater(seen, lists[b], Flat(rest[1..]), more, goOn);
          return seen + more;
        }
        AllGoOnAppend(seen, more, goOn);
        assert (seen + more) + Flat(rest[1..]) == seen + (more + Flat(rest[1..]));
        seen, rest := seen + more, rest[1..];
      }
      assert rest == [] && seen + [] == seen;
    }

    /** `ht_upsert`; `freed` is the value handed to the deleter. */
    method Upsert(k: K, v: V) returns (freed: Option<V>)
      requires Valid()
      modifies this, elements
      ensures Valid() && contents == old(contents)[k := v] && fresh(elements - old(elements))
      ensures freed == Get(old(contents), k)
    {
      hide Bucket, Find, Upserted;
      var b := BucketOf(k);
      ghost var list := lists[b];
      assert UniqueKeys(list) by { BucketUnique(heads[b], chains[b], list); }
      ghost var es', list';
      freed, es', list' := UpsertBucket(heads[b], k, v, chains[b], list);
      forall x ensures Find(list', x) == if x == k then Some(v) else Find(list, x) {
        UpsertedFind(list, k, v, list', x);
      }
      UpsertedKeys(list, k, v, list');
      forall c | 0 <= c < |heads| && c != b
        ensures Bucket(heads[c], chains[c], lists[c])
      {
        assert old(Bucket(heads[c], chains[c], lists[c])) && Apart(chains[c], chains[b]);
      }
      Install(b, es', list', contents[k := v]);
    }

    /**
     * `ht_remove`; `freed` is the value handed to the deleter. It is always that of the bucket head,
     * so it is still bound afterwards exactly when the key removed was not in the head.
     */
    method Remove(k: K) returns (freed: Option<V>)
      requires Valid()
      modifies this, elements
      ensures Valid() && contents == old(contents) - {k} && elements == old(elements)
      ensures freed.Some? <==> k in old(contents)
      ensures freed.Some? ==>
                old(lists)[BucketOf(k)] != []
                && var (headKey, headValue) := old(lists)[BucketOf(k)][0];
                   freed.value == headValue && (headKey in contents <==> headKey != k)
                   && (headKey in contents ==> contents[headKey] == headValue)
    {
      hide Bucket, Find, Removed;
      var b := BucketOf(k);
      ghost var list := lists[b];
      assert UniqueKeys(list) by { BucketUnique(heads[b], chains[b], list); }
      ghost var es', list';
      freed, es', list' := RemoveFromBucket(heads[b], k, chains[b], list);
      RemovedFrees(list, k, list');
      forall x ensures Find(list', x) == if x == k then None else Find(list, x) {
        RemovedFind(list, k, list', x);
      }
      RemovedKeys(list, k, list');
      forall c | 0 <= c < |heads| && c != b
        ensures Bucket(heads[c], chains[c], lists[c])
      {
        assert old(Bucket(heads[c], chains[c], lists[c])) && Apart(chains[c], chains[b]);
      }
      Install(b, es', list', contents - {k});
    }
  }

  // ---- visits ---------------------------------------------------------------------------

  /** All bindings, bucket after bucket. */
  function Flat<K, V>(lists: seq<seq<(K, V)>>): seq<(K, V)> {
    if lists == [] then [] else lists[0] + Flat(lists[1..])
  }

  ghost predicate AllGoOn<K, V>(list: seq<(K, V)>, goOn: (K, V) -> bool) {
    forall i :: 0 <= i < |list| ==> goOn(list[i].0, list[i].1)
  }

  lemma {:induction false} FlatMember<K, V>(lists: seq<seq<(K, V)>>, p: (K, V))
    ensures p in Flat(lists) <==> exists b :: 0 <= b < |lists| && p in lists[b]
    decreases |lists|
  {
    if lists != [] {
      FlatMember(lists[1..], p);
      if p in lists[0] {
        assert 0 <= 0 < |lists| && p in lists[0];
      }
      if b :| 0 <= b < |lists[1..]| && p in lists[1..][b] {
        assert p in lists[b + 1];
      }
      if b :| 0 < b < |lists| && p in lists[b] {
        assert p in lists[1..][b - 1];
      }
    }
  }

  lemma {:induction false} FindMember<K, V>(list: seq<(K, V)>, k: K, v: V)
    requires UniqueKeys(list)
    ensures (k, v) in list <==> Find(list, k) == Some(v)
    decreases |list|
  {
    if list != [] {
      FindMember(list[1..], k, v);
      assert list == [list[0]] + list[1..];
      assert forall i :: 0 <= i < |list[1..]| ==> list[1..][i].0 != list[0].0;
    }
  }

  lemma {:induction false} FlatUnique<K, V>(lists: seq<seq<(K, V)>>)
    requires forall b :: 0 <= b < |lists| ==> UniqueKeys(lists[b])
    requires forall b, c, i, j :: 0 <= b < c < |lists| && 0 <= i < |lists[b]| && 0 <= j < |lists[c]| ==> lists[b][i].0 != lists[c][j].0
    ensures UniqueKeys(Flat(lists))
    decreases |lists|
  {
    if lists != [] {
      var rest := lists[1..];
      FlatUnique(rest);
      forall i, j | 0 <= i < |lists[0]| && 0 <= j < |Flat(rest)|
        ensures lists[0][i].0 != Flat(rest)[j].0
      {
        FlatMember(rest, Flat(rest)[j]);
        var b :| 0 <= b < |rest| && Flat(rest)[j] in rest[b];
        var m :| 0 <= m < |lists[b + 1]| && lists[b + 1][m] == Flat(rest)[j];
      }
    }
  }

  lemma BucketUnique<K, V>(head: Element<K, V>, es: seq<Element<K, V>>, list: seq<(K, V)>)
    requires Bucket(head, es, list)
    ensures UniqueKeys(list)
  {
  }

  lemma UpsertedKeys<K, V>(list: seq<(K, V)>, k: K, v: V, list': seq<(K, V)>)
    requires Upserted(list, k, v, list')
    ensures forall i :: 0 <= i < |list'| ==> list'[i].0 == k || list'[i] in list
  {
  }

  /** A value is freed exactly when the key was bound, and it is that of the first binding. */
  lemma RemovedFrees<K, V>(list: seq<(K, V)>, k: K, list': seq<(K, V)>)
    requires Removed(list, k, list') && UniqueKeys(list)
    ensures FreedBy(list, list').Some? <==> Find(list, k).Some?
    ensures FreedBy(list, list').Some? ==> list != [] && FreedBy(list, list') == Some(list[0].1) == Find(list, list[0].0)
  {
    if forall j :: 0 <= j < |list| ==> list[j].0 != k {
      FindNone(list, k);
    } else {
      var i :| 0 <= i < |list| && list[i].0 == k;
      FindAt(list, k, i);
    }
  }

  /** `ht_upsert` in one bucket. */
  method UpsertBucket<K(==), V>(head: Element<K, V>, k: K, v: V, ghost es: seq<Element<K, V>>, ghost list: seq<(K, V)>)
    returns (freed: Option<V>, ghost es': seq<Element<K, V>>, ghost list': seq<(K, V)>)
    requires head in es && Bucket(head, es, list)
    modifies es
    ensures head in es' && Bucket(head, es', list') && forall e :: e in es' ==> e in es || fresh(e)
    ensures Upserted(list, k, v, list') && freed == Find(list, k)
  {
    freed := None;
    if head.value.None? {
      head.key, head.value := Some(k), Some(v);
      es', list' := [head], [(k, v)];
      assert [head][1..] == [] && [(k, v)][1..] == [] && list + [(k, v)] == list';
    } else {
      freed, es', list' := UpsertChain(head, k, v, es, list);
    }
  }

  /** `ht_remove` in one bucket. */
  method RemoveFromBucket<K(==), V>(head: Element<K, V>, k: K, ghost es: seq<Element<K, V>>, ghost list: seq<(K, V)>)
    returns (freed: Option<V>, ghost es': seq<Element<K, V>>, ghost list': seq<(K, V)>)
    requires head in es && Bucket(head, es, list)
    modifies es
    ensures head in es' && Bucket(head, es', list') && forall e :: e in es' ==> e in es
    ensures Removed(list, k, list') && freed == FreedBy(list, list')
  {
    freed := None;
    if head.key == Some(k) {
      freed := head.value;
      es' := RemoveHead(head, es, list);
      list' := Without(list, 0);
    } else if head.next != null {
      freed, es', list' := Unlink(head, k, es, list);
    } else {
      if list != [] {
        assert Segment(head.next, es[1..], list[1..], null);
        assert es[1..] == [] && list[1..] == [];
      }
      es', list' := es, list;
    }
  }

  lemma NobodyStops<K, V>(goOn: (K, V) -> bool)
    ensures AllGoOn([], goOn)
  {
  }

  lemma AllGoOnAppend<K, V>(a: seq<(K, V)>, b: seq<(K, V)>, goOn: (K, V) -> bool)
    requires AllGoOn(a, goOn) && AllGoOn(b, goOn)
    ensures AllGoOn(a + b, goOn)
  {
  }

  lemma StoppedLater<K, V>(before: seq<(K, V)>, list: seq<(K, V)>, after: seq<(K, V)>, more: seq<(K, V)>, goOn: (K, V) -> bool)
    requires AllGoOn(before, goOn) && Stopped(list, more, goOn)
    ensures Stopped(before + (list + after), before + more, goOn)
  {
    var whole, seen := before + (list + after), before + more;
    assert whole[..|seen|] == seen;
    assert seen[..|seen| - 1] == before + list[..|more| - 1];
  }

  /** `more` is the part of `list` up to the first binding the visitor stops at. */
  ghost predicate Stopped<K, V>(list: seq<(K, V)>, more: seq<(K, V)>, goOn: (K, V) -> bool) {
    0 < |more| <= |list| && more == list[..|more|] && AllGoOn(list[..|more| - 1], goOn)
    && !goOn(list[|more| - 1].0, list[|more| - 1].1)
  }

  /** The inner loop of `ht_visit`: it ends at the end of the chain or at an empty head. */
  method VisitBucket<K, V>(head: Element<K, V>, goOn: (K, V) -> bool, ghost es: seq<Element<K, V>>, ghost list: seq<(K, V)>)
    returns (seen: seq<(K, V)>, stopped: bool)
    requires Bucket(head, es, list)
    ensures if stopped then Stopped(list, seen, goOn) else seen == list && AllGoOn(list, goOn)
  {
    seen := [];
    if head.value.None? {
      return [], false;
    }
    SameLength(head, es, list, null);
    var el: Element?<K, V> := head;
    ghost var i := 0;
    assert es[0..] == es && list[0..] == list;
    while el != null && el.value.Some?
      invariant i <= |es| && seen == list[..i] && AllGoOn(seen, goOn) && Chain(el, es[i..], list[i..])
      decreases |es| - i
    {
      assert es[i..][1..] == es[i + 1..] && list[i..][1..] == list[i + 1..];
      assert list[..i + 1] == list[..i] + [list[i]];
      var tmpe := el.next;
      seen := seen + [(el.key.value, el.value.value)];
      if !goOn(el.key.value, el.value.value) {
        return seen, true;
      }
      el := tmpe;
      i := i + 1;
    }
    assert list[..i] == list;
    return seen, false;
  }

  // ---- whole runs -----------------------------------------------------------------------------

  datatype Op<K, V> = Put(key: K, value: V) | Delete(key: K) | Ask(key: K)

  /** The same run on a finite map: the final map and the answers. */
  function MapRun<K(==), V>(m: map<K, V>, ops: seq<Op<K, V>>): (map<K, V>, seq<Option<V>>)
    decreases |ops|
  {
    if ops == [] then (m, [])
    else
      match ops[0]
      case Put(k, v) => MapRun(m[k := v], ops[1..])
      case Delete(k) => MapRun(m - {k}, ops[1..])
      case Ask(k) => var (m', answers) := MapRun(m, ops[1..]); (m', [Get(m, k)] + answers)
  }

  /** Over every run the table answers as the map does. */
  method RunTable<K(==, !new), V>(t: Table<K, V>, ops: seq<Op<K, V>>) returns (answers: seq<Option<V>>)
    requires t.Valid()
    modifies t, t.elements
    ensures t.Valid() && fresh(t.elements - old(t.elements))
    ensures (t.contents, answers) == MapRun(old(t.contents), ops)
    decreases |ops|
  {
    hide t.Valid;
    if ops == [] {
      return [];
    }
    match ops[0] {
      case Put(k, v) =>
        var _ := t.Upsert(k, v);
        answers := RunTable(t, ops[1..]);
      case Delete(k) =>
        var _ := t.Remove(k);
        answers := RunTable(t, ops[1..]);
      case Ask(k) =>
        var first := t.Lookup(k);
        answers := RunTable(t, ops[1..]);
        answers := [first] + answers;
    }
  }
}
