/**
 * The collection records of `assets/collections.json`, the order on their
 * ids, and the in-place sort that `CollectionLayout` applies to the shared
 * imported array.
 */
module CollectionsData {

  /** One entry of `collections.json`. */
  datatype Item = Item(id: string, title: string)

  /**
   * `a.localeCompare(b) <= 0`. Locale collation is not modelled: code-point
   * lexicographic order stands in for it, and the navigation properties
   * only use that it is a total preorder.
   */
  predicate IdLe(a: string, b: string)
  {
    a == [] || (b != [] && (a[0] < b[0] || (a[0] == b[0] && IdLe(a[1..], b[1..]))))
  }

  lemma {:induction false} IdLeTotal(a: string, b: string)
    ensures IdLe(a, b) || IdLe(b, a)
  {
    if a != [] && b != [] && a[0] == b[0] {
      IdLeTotal(a[1..], b[1..]);
    }
  }

  lemma {:induction false} IdLeTransitive(a: string, b: string, c: string)
    requires IdLe(a, b) && IdLe(b, c)
    ensures IdLe(a, c)
  {
    if a != [] && b != [] && c != [] && a[0] == b[0] == c[0] {
      IdLeTransitive(a[1..], b[1..], c[1..]);
    }
  }

  lemma {:induction false} IdLeAntisymmetric(a: string, b: string)
    requires IdLe(a, b) && IdLe(b, a)
    ensures a == b
  {
    if a != [] && b != [] {
      IdLeAntisymmetric(a[1..], b[1..]);
      assert a == [a[0]] + a[1..];
      assert b == [b[0]] + b[1..];
    }
  }

  /** Items in ascending id order. */
  ghost predicate SortedById(s: seq<Item>)
  {
    forall p, q :: 0 <= p < q < |s| ==> IdLe(s[p].id, s[q].id)
  }

  /** `items.map((item) => item.id)`. */
  function Ids(items: seq<Item>): (d: seq<string>)
    ensures |d| == |items|
    ensures forall k :: 0 <= k < |items| ==> d[k] == items[k].id
  {
    seq(|items|, k requires 0 <= k < |items| => items[k].id)
  }

  lemma {:induction false} IdsAppend(a: seq<Item>, b: seq<Item>)
    ensures Ids(a + b) == Ids(a) + Ids(b)
  {
    assert |Ids(a + b)| == |Ids(a) + Ids(b)|;
    forall k | 0 <= k < |a| + |b|
      ensures Ids(a + b)[k] == (Ids(a) + Ids(b))[k]
    {
      if k < |a| {
        assert (a + b)[k] == a[k];
      } else {
        assert (a + b)[k] == b[k - |a|];
      }
    }
  }

  /** Taking out the item at `k` takes out one copy of it. */
  lemma RemoveAt(t: seq<Item>, k: nat)
    requires k < |t|
    ensures multiset(t) == multiset(t[..k] + t[k + 1..]) + multiset{t[k]}
  {
    var l, r := t[..k], t[k + 1..];
    assert t == l + [t[k]] + r;
  }

  /** One copy of the same item can be cancelled from both sides. */
  lemma CancelOne(a: multiset<Item>, b: multiset<Item>, x: Item)
    requires a + multiset{x} == b + multiset{x}
    ensures a == b
  {
    forall y ensures a[y] == b[y] {
      assert (a + multiset{x})[y] == (b + multiset{x})[y];
    }
  }

  /** Taking out the item at `k` takes out one copy of its id. */
  lemma IdsRemoveAt(t: seq<Item>, k: nat)
    requires k < |t|
    ensures multiset(Ids(t)) == multiset(Ids(t[..k] + t[k + 1..])) + multiset{t[k].id}
  {
    var l, r := t[..k], t[k + 1..];
    assert t == (l + [t[k]]) + r;
    IdsAppend(l + [t[k]], r);
    IdsAppend(l, [t[k]]);
    IdsAppend(l, r);
    assert Ids([t[k]]) == [t[k].id];
    assert Ids(t) == Ids(l) + [t[k].id] + Ids(r);
    assert multiset(Ids(t)) == multiset(Ids(l)) + multiset{t[k].id} + multiset(Ids(r));
  }

  /** Reordering the items reorders their ids the same way. */
  lemma {:induction false} IdsPermutation(s: seq<Item>, t: seq<Item>)
    requires multiset(s) == multiset(t)
    ensures multiset(Ids(s)) == multiset(Ids(t))
    decreases |s|
  {
    if s != [] {
      assert s[0] in multiset(t);
      var k :| 0 <= k < |t| && t[k] == s[0];
      var rest := t[..k] + t[k + 1..];
      RemoveAt(t, k);
      RemoveAt(s, 0);
      assert s[..0] + s[1..] == s[1..];
      CancelOne(multiset(s[1..]), multiset(rest), s[0]);
      IdsPermutation(s[1..], rest);
      IdsStep(s, t, k);
    }
  }

  /** The inductive step of `IdsPermutation`: matching heads and equal tails give equal id multisets. */
  lemma IdsStep(s: seq<Item>, t: seq<Item>, k: nat)
    requires s != [] && k < |t| && t[k] == s[0]
    requires multiset(Ids(s[1..])) == multiset(Ids(t[..k] + t[k + 1..]))
    ensures multiset(Ids(s)) == multiset(Ids(t))
  {
    IdsRemoveAt(t, k);
    IdsCons(s);
  }

  /** The ids of a non-empty list are its head's id and the ids of its tail. */
  lemma IdsCons(s: seq<Item>)
    requires s != []
    ensures multiset(Ids(s)) == multiset(Ids(s[1..])) + multiset{s[0].id}
  {
    assert Ids(s) == [s[0].id] + Ids(s[1..]);
  }

  /**
   * `data.sort((a, b) => a.id.localeCompare(b.id))`: sorts the array in
   * place by id, as a permutation of its items.
   */
  method SortById(a: array<Item>)
    modifies a
    ensures SortedById(a[..])
    ensures multiset(a[..]) == old(multiset(a[..]))
  {
    var i := 0;
    while i < a.Length
      invariant 0 <= i <= a.Length
      invariant forall p, q :: 0 <= p < q < i ==> IdLe(a[p].id, a[q].id)
      invariant multiset(a[..]) == old(multiset(a[..]))
    {
      InsertAt(a, i);
      i := i + 1;
    }
  }

  /**
   * One pass of the sort: moves `a[i]` back past every greater id, so that
   * the first `i + 1` items are in order.
   */
  method InsertAt(a: array<Item>, i: nat)
    requires i < a.Length
    requires forall p, q :: 0 <= p < q < i ==> IdLe(a[p].id, a[q].id)
    modifies a
    ensures forall p, q :: 0 <= p < q <= i ==> IdLe(a[p].id, a[q].id)
    ensures multiset(a[..]) == old(multiset(a[..]))
  {
    var j := i;
    while 0 < j && !IdLe(a[j - 1].id, a[j].id)
      invariant 0 <= j <= i
      invariant forall p, q :: 0 <= p < q <= i && p != j && q != j ==> IdLe(a[p].id, a[q].id)
      invariant forall q :: j < q <= i ==> IdLe(a[j].id, a[q].id)
      invariant multiset(a[..]) == old(multiset(a[..]))
    {
      IdLeTotal(a[j - 1].id, a[j].id);
      a[j - 1], a[j] := a[j], a[j - 1];
      j := j - 1;
    }
    forall p | 0 <= p < j - 1
      ensures IdLe(a[p].id, a[j].id)
    {
      IdLeTransitive(a[p].id, a[j - 1].id, a[j].id);
    }
  }

  /**
   * The memoised id list of `CollectionLayout`: sort the shared array in
   * place, then take the ids in their new order.
   */
  method SortedIds(data: array<Item>) returns (d: seq<string>)
    modifies data
    ensures multiset(data[..]) == old(multiset(data[..]))
    ensures SortedById(data[..]) && d == Ids(data[..])
    ensures forall p, q :: 0 <= p < q < |d| ==> IdLe(d[p], d[q])
    ensures multiset(d) == multiset(Ids(old(data[..])))
  {
    SortById(data);
    d := Ids(data[..]);
    IdsPermutation(data[..], old(data[..]));
  }
}
