/** expiryHeap of internal/policy/learning.go under `container/heap`'s Push and Pop. */
module ExpiryHeaps {
  datatype Item<K> = Item(key: K, expires: int)

  predicate IsChild(parent: int, child: int)
  {
    child == 2 * parent + 1 || child == 2 * parent + 2
  }

  ghost predicate IsHeap<K>(h: seq<Item<K>>)
  {
    forall i, c :: 0 <= i < c < |h| && IsChild(i, c) ==> h[i].expires <= h[c].expires
  }

  function Swap<K>(h: seq<Item<K>>, i: nat, j: nat): (r: seq<Item<K>>)
    requires i < |h| && j < |h|
    ensures |r| == |h|
  {
    h[i := h[j]][j := h[i]]
  }

  lemma {:induction false} SwapPermutes<K>(h: seq<Item<K>>, i: nat, j: nat)
    requires i < |h| && j < |h|
    ensures multiset(Swap(h, i, j)) == multiset(h)
  {
  }

  /** The root of a heap is a minimum. */
  lemma {:induction false} RootIsMin<K>(h: seq<Item<K>>, i: nat)
    requires IsHeap(h) && i < |h|
    ensures h[0].expires <= h[i].expires
  {
    if i == 0 {
    } else {
      RootIsMin(h, (i - 1) / 2);
      assert IsChild((i - 1) / 2, i);
    }
  }

  /** In order except that the item at `j` may be smaller than its parent. */
  ghost predicate HeapExceptUp<K>(h: seq<Item<K>>, j: int)
  {
    && (forall i, c :: 0 <= i < c < |h| && IsChild(i, c) && c != j ==> h[i].expires <= h[c].expires)
    && (forall i, c :: 0 <= i < c < |h| && IsChild(i, j) && IsChild(j, c) ==> h[i].expires <= h[c].expires)
  }

  /** In order except that the item at `j` may be larger than its children. */
  ghost predicate HeapExceptDown<K>(h: seq<Item<K>>, j: int)
  {
    && (forall i, c :: 0 <= i < c < |h| && IsChild(i, c) && i != j ==> h[i].expires <= h[c].expires)
    && (forall i, c :: 0 <= i < c < |h| && IsChild(i, j) && IsChild(j, c) ==> h[i].expires <= h[c].expires)
  }

  lemma {:induction false} UpStep<K>(h: seq<Item<K>>, i: nat, j: nat)
    requires i < j < |h| && IsChild(i, j) && HeapExceptUp(h, j) && h[j].expires < h[i].expires
    ensures HeapExceptUp(Swap(h, i, j), i)
  {
  }

  lemma {:induction false} DownStep<K>(h: seq<Item<K>>, i: nat, j: nat)
    requires i < j < |h| && IsChild(i, j) && HeapExceptDown(h, i) && h[j].expires < h[i].expires
    requires forall c :: 0 <= c < |h| && IsChild(i, c) ==> h[j].expires <= h[c].expires
    ensures HeapExceptDown(Swap(h, i, j), j)
  {
  }

  method Up<K>(items: seq<Item<K>>, start: nat) returns (h: seq<Item<K>>)
    requires start < |items| && HeapExceptUp(items, start)
    ensures IsHeap(h) && multiset(h) == multiset(items)
  {
    hide Swap;
    h := items;
    var j := start;
    while true
      invariant 0 <= j < |h| == |items| && HeapExceptUp(h, j) && multiset(h) == multiset(items)
      decreases j
    {
      var i := if j == 0 then 0 else (j - 1) / 2;
      if i == j || !(h[j].expires < h[i].expires) {
        break;
      }
      SwapPermutes(h, i, j);
      UpStep(h, i, j);
      h := Swap(h, i, j);
      j := i;
    }
  }

  method Down<K>(items: seq<Item<K>>, start: nat) returns (h: seq<Item<K>>)
    requires HeapExceptDown(items, start)
    ensures IsHeap(h) && multiset(h) == multiset(items)
  {
    hide Swap;
    h := items;
    var i := start;
    while 2 * i + 1 < |h|
      invariant 0 <= i && |h| == |items| && HeapExceptDown(h, i) && multiset(h) == multiset(items)
      decreases |h| - i
    {
      var j := 2 * i + 1;
      if j + 1 < |h| && h[j + 1].expires < h[j].expires {
        j := j + 1;
      }
      if !(h[j].expires < h[i].expires) {
        break;
      }
      SwapPermutes(h, i, j);
      DownStep(h, i, j);
      h := Swap(h, i, j);
      i := j;
    }
  }

  method Push<K>(items: seq<Item<K>>, item: Item<K>) returns (h: seq<Item<K>>)
    requires IsHeap(items)
    ensures IsHeap(h) && multiset(h) == multiset(items) + multiset{item}
  {
    h := Up(items + [item], |items|);
  }

  /** Removes the root, which no remaining item precedes. */
  method Pop<K>(items: seq<Item<K>>) returns (item: Item<K>, h: seq<Item<K>>)
    requires IsHeap(items) && items != []
    ensures IsHeap(h) && multiset(items) == multiset(h) + multiset{item}
    ensures item == items[0] && forall x :: x in items ==> item.expires <= x.expires
  {
    forall x | x in items ensures items[0].expires <= x.expires {
      var i :| 0 <= i < |items| && items[i] == x;
      RootIsMin(items, i);
    }
    var n := |items| - 1;
    SwapPermutes(items, 0, n);
    var swapped := Swap(items, 0, n);
    item := swapped[n];
    assert swapped == swapped[..n] + [item];
    h := Down(swapped[..n], 0);
  }
}
