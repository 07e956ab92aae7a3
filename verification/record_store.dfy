/** The record store behind every controller: a Spring Data JPA repository
    reduced to what the controllers rely on. Records are kept by id; `order`
    remembers the order in which ids were first saved, which the model takes
    to be the order `findAll` returns; `nextId` is the IDENTITY column's next value, so ids are never
    reused, even after a delete. */
module RecordStore {
  import opened Wrappers

  datatype Store<R> = Store(rows: map<int, R>, order: seq<int>, nextId: int)

  /** The first value an IDENTITY column hands out */
  const FirstId: int := 1

  function Empty<R>(): Store<R> {
    Store(map[], [], FirstId)
  }

  ghost predicate Distinct(xs: seq<int>) {
    forall i, j :: 0 <= i < j < |xs| ==> xs[i] != xs[j]
  }

  /** What every reachable store satisfies: each stored id listed once in
      `order`, nothing else listed, and every id below the IDENTITY counter. */
  ghost predicate Valid<R>(s: Store<R>) {
    && Distinct(s.order)
    && (forall k :: k in s.rows <==> k in s.order)
    && (forall k :: k in s.rows ==> k < s.nextId)
  }

  /** `findById`: the record stored under `id`, or empty when there is none */
  function Find<R>(s: Store<R>, id: int): (r: Option<R>)
    ensures r.Some? <==> id in s.rows
    ensures r.Some? ==> r.value == s.rows[id]
  {
    if id in s.rows then Some(s.rows[id]) else None
  }

  /** `findAll`: every stored record exactly once, in the order it was first saved */
  function FindAll<R>(s: Store<R>): (r: seq<R>)
    requires Valid(s)
    ensures |r| == |s.order| == |s.rows|
    ensures forall i :: 0 <= i < |r| ==> s.order[i] in s.rows && r[i] == s.rows[s.order[i]]
    ensures forall k :: k in s.rows ==> s.rows[k] in r
  {
    DistinctCardinality(s.order);
    var ids := set k | k in s.order;
    assert forall k :: k in ids <==> k in s.order;
    assert forall k :: k in s.rows.Keys <==> k in ids;
    assert s.rows.Keys == ids;
    var r := seq(|s.order|, i requires 0 <= i < |s.order| => s.rows[s.order[i]]);
    assert forall k :: k in s.rows ==> exists i :: 0 <= i < |s.order| && s.order[i] == k;
    r
  }

  /** `save` of a record whose id is null: it is stored under the next
      IDENTITY value and goes to the end of `findAll`. */
  function Append<R>(s: Store<R>, r: R): (t: Store<R>)
    requires Valid(s)
    ensures Valid(t)
    ensures s.nextId !in s.rows
    ensures t.rows == s.rows[s.nextId := r]
    ensures t.nextId > s.nextId
    ensures FindAll(t) == FindAll(s) + [r]
  {
    var t := Store(s.rows[s.nextId := r], s.order + [s.nextId], s.nextId + 1);
    assert s.nextId !in s.order;
    assert Distinct(t.order) by {
      forall i, j | 0 <= i < j < |t.order| ensures t.order[i] != t.order[j] {
        if j == |s.order| {
          assert t.order[i] == s.order[i];
        }
      }
    }
    assert Valid(t);
    assert FindAll(t) == FindAll(s) + [r];
    t
  }

  /** `save` of a record that is already stored: it keeps its place in `findAll`. */
  function Replace<R>(s: Store<R>, id: int, r: R): (t: Store<R>)
    requires Valid(s) && id in s.rows
    ensures Valid(t)
    ensures t.rows == s.rows[id := r]
    ensures t.order == s.order && t.nextId == s.nextId
  {
    Store(s.rows[id := r], s.order, s.nextId)
  }

  /** `deleteById`: the row goes, the other rows keep their places in
      `findAll`, and the IDENTITY counter is not rewound */
  function Remove<R>(s: Store<R>, id: int): (t: Store<R>)
    requires Valid(s)
    ensures Valid(t)
    ensures t.rows == s.rows - {id}
    ensures t.order == Without(s.order, id) && t.nextId == s.nextId
    ensures id !in s.rows ==> t == s
  {
    Store(s.rows - {id}, Without(s.order, id), s.nextId)
  }

  /** Deleting the record listed at position `k` drops exactly that entry
      from `findAll`; the others keep their order. */
  lemma FindAllAfterRemove<R>(s: Store<R>, k: int)
    requires Valid(s) && 0 <= k < |s.order|
    ensures FindAll(Remove(s, s.order[k])) == FindAll(s)[..k] + FindAll(s)[k + 1..]
  {
    var t := Remove(s, s.order[k]);
    WithoutAt(s.order, k);
    FindAllOfCut(s, t, k);
  }

  /** A valid store whose order is `s`'s with position `k` cut out, and
      whose rows agree with `s`'s, lists `s`'s records without entry `k` */
  lemma FindAllOfCut<R>(s: Store<R>, t: Store<R>, k: int)
    requires Valid(s) && Valid(t) && 0 <= k < |s.order|
    requires t.order == s.order[..k] + s.order[k + 1..]
    requires forall x :: x in t.rows ==> x in s.rows && t.rows[x] == s.rows[x]
    ensures FindAll(t) == FindAll(s)[..k] + FindAll(s)[k + 1..]
  {
    var all := FindAll(s);
    var a, b := FindAll(t), all[..k] + all[k + 1..];
    assert |a| == |b|;
    forall i | 0 <= i < |a| ensures a[i] == b[i] {
      CutAt(s.order, k, i);
      CutAt(all, k, i);
    }
  }

  /** Cutting position `k` out of a sequence shifts the later entries down by one */
  lemma CutAt<T>(xs: seq<T>, k: int, i: int)
    requires 0 <= k < |xs| && 0 <= i < |xs| - 1
    ensures (xs[..k] + xs[k + 1..])[i] == xs[if i < k then i else i + 1]
  {
  }

  /** `xs` with every occurrence of `x` dropped, the rest kept in order */
  function Without(xs: seq<int>, x: int): (r: seq<int>)
    ensures forall y :: y in r <==> y in xs && y != x
    ensures Distinct(xs) ==> Distinct(r)
    ensures x !in xs ==> r == xs
  {
    if |xs| == 0 then []
    else if xs[0] == x then Without(xs[1..], x)
    else
      var rest := Without(xs[1..], x);
      assert Distinct(xs) ==> xs[0] !in xs[1..];
      [xs[0]] + rest
  }

  /** In a list without repeats, dropping the element at `k` is cutting
      position `k` out */
  lemma {:induction false} WithoutAt(xs: seq<int>, k: int)
    requires Distinct(xs) && 0 <= k < |xs|
    ensures Without(xs, xs[k]) == xs[..k] + xs[k + 1..]
  {
    var x := xs[k];
    if k == 0 {
      assert x !in xs[1..];
    } else {
      assert Distinct(xs[1..]);
      WithoutAt(xs[1..], k - 1);
      assert xs[0] != x;
      assert xs[1..][..k - 1] + xs[1..][k..] == xs[1..k] + xs[k + 1..];
      assert [xs[0]] + xs[1..k] == xs[..k];
    }
  }

  lemma {:induction false} DistinctCardinality(xs: seq<int>)
    requires Distinct(xs)
    ensures |set k | k in xs| == |xs|
  {
    if |xs| > 0 {
      DistinctCardinality(xs[1..]);
      assert (set k | k in xs) == {xs[0]} + (set k | k in xs[1..]);
      assert xs[0] !in xs[1..];
    }
  }
}
