/** The entries of the host-timing scheduler's pending-event queue, their
    order, and the standard-library algorithms `CoreTiming` applies to the
    `std::vector<Event>` that holds them: `std::remove_if` + `erase`, and the
    binary-heap algorithms `push_heap`, `pop_heap` and `make_heap` with
    `std::greater<>` as the comparison, which makes the front the minimum.

    The C++ standard promises of the heap algorithms only that the result is
    a heap and a permutation of the input (for `pop_heap`: with the former
    front moved to the back); the methods below are textbook sift-up and
    sift-down implementations whose contracts are exactly those promises. */
module EventQueue {
  import opened Ints

  /** A reference to an event type as passed around by `std::shared_ptr` /
      held by `std::weak_ptr`: either empty or the identity of one
      `EventType` object. */
  datatype TypeRef = Null | Ref(id: nat)

  /** `CoreTiming::Event`: due time, insertion number, user data and a weak
      reference to the event type. */
  datatype Event = Event(time: u64, fifoOrder: u64, userdata: u64, eventType: TypeRef)

  /** `operator<`: `std::tie(time, fifo_order)` compared lexicographically. */
  predicate Less(left: Event, right: Event): (b: bool)
    ensures left.time != right.time ==> (b <==> left.time < right.time)
    ensures left.time == right.time ==> (b <==> left.fifoOrder < right.fifoOrder)
  {
    left.time < right.time || (left.time == right.time && left.fifoOrder < right.fifoOrder)
  }

  /** `operator>`: `std::tie(time, fifo_order)` compared lexicographically. */
  predicate Greater(left: Event, right: Event): (b: bool)
    ensures b <==> Less(right, left)
    ensures b ==> !Less(left, right)
  {
    left.time > right.time || (left.time == right.time && left.fifoOrder > right.fifoOrder)
  }

  /** The two operators are mirror images of one strict total order on the
      key `(time, fifo_order)`; equal times fall back to insertion order. */
  lemma OrderIsStrictTotalOnKeys(a: Event, b: Event, c: Event)
    ensures Greater(a, b) <==> Less(b, a)
    ensures !Less(a, a)
    ensures Less(a, b) ==> !Less(b, a)
    ensures Less(a, b) && Less(b, c) ==> Less(a, c)
    ensures !Less(a, b) && !Less(b, a) <==> a.time == b.time && a.fifoOrder == b.fifoOrder
    ensures a.time == b.time ==> (Less(a, b) <==> a.fifoOrder < b.fifoOrder)
    ensures a.time != b.time ==> (Less(a, b) <==> a.time < b.time)
  {
  }

  // ---------------------------------------------------------------------
  // Sequences of entries

  /** Every element precedes-or-equals every later one (no inversion under `>`). */
  predicate Ascending(s: seq<Event>) {
    forall i, j :: 0 <= i < j < |s| ==> !Greater(s[i], s[j])
  }

  /** Appending an element that no earlier one exceeds keeps a sequence ascending. */
  lemma AscendingSnoc(s: seq<Event>, x: Event)
    requires Ascending(s) && forall i :: 0 <= i < |s| ==> !Greater(s[i], x)
    ensures Ascending(s + [x])
  {
  }

  /** Every element strictly precedes every later one. */
  predicate StrictlyAscending(s: seq<Event>) {
    forall i, j :: 0 <= i < j < |s| ==> Less(s[i], s[j])
  }

  /** No two entries of `m` share a `fifo_order`, and none occurs twice. */
  ghost predicate UniqueOrders(m: multiset<Event>) {
    && (forall e :: e in m ==> m[e] == 1)
    && (forall e, f :: e in m && f in m && e.fifoOrder == f.fifoOrder ==> e == f)
  }

  lemma UniqueOrdersOfPart(m: multiset<Event>, whole: multiset<Event>)
    requires m <= whole && UniqueOrders(whole)
    ensures UniqueOrders(m)
  {
    forall e | e in m ensures m[e] == 1 {
      assert e in whole;
    }
  }

  lemma TwoPositionsCountTwice(s: seq<Event>, i: nat, j: nat)
    requires i < j < |s| && s[i] == s[j]
    ensures multiset(s)[s[i]] >= 2
  {
    assert s == s[..j] + s[j..];
    assert s[i] in s[..j];
    assert s[j] in s[j..];
    assert multiset(s) == multiset(s[..j]) + multiset(s[j..]);
  }

  /** With distinct insertion numbers an ascending sequence is strictly
      ascending: no two entries compare equal. */
  lemma AscendingUniqueIsStrict(s: seq<Event>)
    requires Ascending(s) && UniqueOrders(multiset(s))
    ensures StrictlyAscending(s)
  {
    forall i, j | 0 <= i < j < |s| ensures Less(s[i], s[j]) {
      if !Less(s[i], s[j]) {
        assert s[i].fifoOrder == s[j].fifoOrder;
        assert s[i] in multiset(s) && s[j] in multiset(s);
        TwoPositionsCountTwice(s, i, j);
        assert false;
      }
    }
  }

  /** Two strictly ascending sequences with the same elements start alike. */
  lemma SameFront(s: seq<Event>, t: seq<Event>)
    requires StrictlyAscending(s) && StrictlyAscending(t)
    requires multiset(s) == multiset(t) && |s| > 0
    ensures |t| > 0 && s[0] == t[0]
  {
    assert s[0] in multiset(t);
    var m :| 0 <= m < |t| && t[m] == s[0];
    assert t[0] in multiset(s);
    var k :| 0 <= k < |s| && s[k] == t[0];
    if k != 0 {
      // s[0] < s[k] == t[0] <= t[m] == s[0]
      assert false;
    }
  }

  /** A strictly ascending sequence is determined by its elements: the order
      in which the queue hands out a set of entries is unique. */
  lemma {:induction false} StrictlyAscendingIsUnique(s: seq<Event>, t: seq<Event>)
    requires StrictlyAscending(s) && StrictlyAscending(t)
    requires multiset(s) == multiset(t)
    ensures s == t
  {
    if s == [] {
      assert |t| == |multiset(t)| == 0;
    } else {
      SameFront(s, t);
      assert s == [s[0]] + s[1..];
      assert t == [t[0]] + t[1..];
      assert multiset(s[1..]) == multiset(s) - multiset{s[0]};
      assert multiset(t[1..]) == multiset(t) - multiset{t[0]};
      StrictlyAscendingIsUnique(s[1..], t[1..]);
    }
  }

  // ---------------------------------------------------------------------
  // std::remove_if followed by erase

  /** `erase(remove_if(begin, end, pred), end)`: keeps exactly the entries
      that `pred` rejects. */
  function {:induction false} RemoveIf(s: seq<Event>, pred: Event -> bool): (r: seq<Event>)
    ensures |r| <= |s|
    ensures forall e :: multiset(r)[e] == if pred(e) then 0 else multiset(s)[e]
    ensures |r| == |s| <==> forall e :: e in s ==> !pred(e)
    ensures |r| == |s| ==> r == s
  {
    if s == [] then []
    else
      var rest := RemoveIf(s[1..], pred);
      assert s == [s[0]] + s[1..];
      assert multiset(s) == multiset{s[0]} + multiset(s[1..]);
      if pred(s[0]) then
        assert |rest| < |s|;
        rest
      else
        [s[0]] + rest
  }

  // ---------------------------------------------------------------------
  // Binary min-heap under std::greater<>

  /** Index of the parent of node `i` in the implicit binary tree. */
  function Parent(i: nat): (p: nat)
    requires i > 0
    ensures 2 * p + 1 == i || 2 * p + 2 == i
  {
    (i - 1) / 2
  }

  /** In `a[..n]`, every node whose parent is at index `lo` or beyond is
      preceded-or-equalled by that parent. */
  ghost predicate HeapFrom(a: seq<Event>, lo: nat, n: nat)
    requires n <= |a|
  {
    forall k :: 0 < k < n && lo <= Parent(k) ==> !Greater(a[Parent(k)], a[k])
  }

  /** `std::is_heap(begin, end, std::greater<>())`. */
  ghost predicate IsHeap(h: seq<Event>) {
    forall k :: 0 < k < |h| ==> !Greater(h[Parent(k)], h[k])
  }

  /** The front of a heap precedes-or-equals every entry. */
  lemma {:induction false} HeapFrontIsMinimum(h: seq<Event>, j: nat)
    requires IsHeap(h) && j < |h|
    ensures !Greater(h[0], h[j])
    decreases j
  {
    if j > 0 {
      HeapFrontIsMinimum(h, Parent(j));
    }
  }

  lemma HeapFrontIsMinimumAll(h: seq<Event>)
    requires IsHeap(h) && |h| > 0
    ensures forall e :: e in h ==> !Greater(h[0], e)
  {
    forall e | e in h ensures !Greater(h[0], e) {
      var j :| 0 <= j < |h| && h[j] == e;
      HeapFrontIsMinimum(h, j);
    }
  }

  /** `a[i]` and `a[j]` exchanged. */
  function Swap(a: seq<Event>, i: nat, j: nat): (r: seq<Event>)
    requires i < |a| && j < |a|
    ensures |r| == |a| && r[i] == a[j] && r[j] == a[i]
    ensures forall k :: 0 <= k < |a| && k != i && k != j ==> r[k] == a[k]
    ensures multiset(r) == multiset(a)
  {
    a[i := a[j]][j := a[i]]
  }

  /** Sift-down invariant: below `lo`, every parent-child pair is in heap
      order except those whose parent is the hole `i`. */
  ghost predicate HeapAroundHole(r: seq<Event>, lo: nat, n: nat, i: nat)
    requires n <= |r|
  {
    forall k :: 0 < k < n && lo <= Parent(k) && Parent(k) != i ==> !Greater(r[Parent(k)], r[k])
  }

  /** Sift-down invariant: the parent of the hole `i` precedes-or-equals the
      hole's children. */
  ghost predicate HoleParentBounds(r: seq<Event>, lo: nat, n: nat, i: nat)
    requires i < n <= |r|
  {
    0 < i && lo <= Parent(i) ==>
      forall k :: 0 < k < n && Parent(k) == i ==> !Greater(r[Parent(i)], r[k])
  }

  /** Exchanging the hole `i` with its smaller child `c`, when that child
      precedes the hole, moves the hole to `c` and keeps both invariants. */
  lemma SiftDownStep(r: seq<Event>, lo: nat, n: nat, i: nat, c: nat)
    requires lo <= i < c < n <= |r| && Parent(c) == i
    requires Greater(r[i], r[c])
    requires BoundsChildren(r, n, i, r[c])
    requires HeapAroundHole(r, lo, n, i) && HoleParentBounds(r, lo, n, i)
    ensures HeapAroundHole(Swap(r, i, c), lo, n, c) && HoleParentBounds(Swap(r, i, c), lo, n, c)
  {
    var s := Swap(r, i, c);
    forall k | 0 < k < n && lo <= Parent(k) && Parent(k) != c
      ensures !Greater(s[Parent(k)], s[k])
    {
      if k == c {
      } else if k == i {
        assert Parent(i) < i;
        assert s[Parent(i)] == r[Parent(i)];
      } else if Parent(k) == i {
        assert s[k] == r[k];
      } else {
        assert s[k] == r[k] && s[Parent(k)] == r[Parent(k)];
      }
    }
    forall k | 0 < k < n && Parent(k) == c
      ensures !Greater(s[Parent(c)], s[k])
    {
      assert k > c;
      assert s[k] == r[k];
    }
  }

  /** Children of node `i` that lie inside `a[..n]` are all preceded-or-equalled by `x`. */
  ghost predicate BoundsChildren(r: seq<Event>, n: nat, i: nat, x: Event)
    requires n <= |r|
  {
    forall k :: 0 < k < n && Parent(k) == i ==> !Greater(x, r[k])
  }

  /** The smaller child of `i` precedes-or-equals both children. */
  lemma SmallerChildBounds(r: seq<Event>, n: nat, i: nat, c: nat)
    requires n <= |r| && (c == 2 * i + 1 || c == 2 * i + 2) && c < n
    requires !Greater(r[c], r[2 * i + 1])
    requires 2 * i + 2 < n ==> !Greater(r[c], r[2 * i + 2])
    ensures BoundsChildren(r, n, i, r[c])
  {
    forall k | 0 < k < n && Parent(k) == i ensures !Greater(r[c], r[k]) {
      assert k == 2 * i + 1 || k == 2 * i + 2;
    }
  }

  /** What precedes-or-equals a bound of the children bounds them too. */
  lemma BoundsChildrenBelow(r: seq<Event>, n: nat, i: nat, x: Event, y: Event)
    requires n <= |r| && BoundsChildren(r, n, i, y) && !Greater(x, y)
    ensures BoundsChildren(r, n, i, x)
  {
  }

  /** A node without children inside `a[..n]` bounds them vacuously. */
  lemma LeafBoundsChildren(r: seq<Event>, n: nat, i: nat, x: Event)
    requires n <= |r| && n <= 2 * i + 1
    ensures BoundsChildren(r, n, i, x)
  {
  }

  /** Once the hole precedes-or-equals its children, the heap below `lo` is whole. */
  lemma SiftDownDone(r: seq<Event>, lo: nat, n: nat, i: nat)
    requires i < n <= |r|
    requires HeapAroundHole(r, lo, n, i) && BoundsChildren(r, n, i, r[i])
    ensures HeapFrom(r, lo, n)
  {
  }

  /** `r` agrees with `a` outside the window `[lo, n)`. */
  ghost predicate SameOutside(r: seq<Event>, a: seq<Event>, lo: nat, n: nat) {
    |r| == |a| && lo <= n <= |a| && r[..lo] == a[..lo] && r[n..] == a[n..]
  }

  lemma SwapInsideWindow(r: seq<Event>, a: seq<Event>, lo: nat, n: nat, i: nat, j: nat)
    requires SameOutside(r, a, lo, n) && lo <= i < n && lo <= j < n
    ensures SameOutside(Swap(r, i, j), a, lo, n)
  {
    var s := Swap(r, i, j);
    assert s[..lo] == r[..lo];
    assert s[n..] == r[n..];
  }

  /** Sift-down of the node at `lo` within `a[..n]`, the subtrees below it
      being heaps already. */
  method SiftDown(a: seq<Event>, lo: nat, n: nat) returns (r: seq<Event>)
    requires lo < n <= |a|
    requires forall k :: 0 < k < n && lo < Parent(k) ==> !Greater(a[Parent(k)], a[k])
    ensures |r| == |a| && multiset(r) == multiset(a)
    ensures r[..lo] == a[..lo] && r[n..] == a[n..]
    ensures HeapFrom(r, lo, n)
  {
    r := a;
    var i := lo;
    assert lo > 0 ==> Parent(lo) < lo;
    while true
      invariant lo <= i < n
      invariant |r| == |a| && multiset(r) == multiset(a)
      invariant SameOutside(r, a, lo, n)
      invariant HeapAroundHole(r, lo, n, i) && HoleParentBounds(r, lo, n, i)
      decreases n - i
    {
      var c := 2 * i + 1;
      if c >= n {
        LeafBoundsChildren(r, n, i, r[i]);
        SiftDownDone(r, lo, n, i);
        break;
      }
      if c + 1 < n && Greater(r[c], r[c + 1]) {
        c := c + 1;
      }
      assert Parent(c) == i;
      SmallerChildBounds(r, n, i, c);
      if !Greater(r[i], r[c]) {
        BoundsChildrenBelow(r, n, i, r[i], r[c]);
        SiftDownDone(r, lo, n, i);
        break;
      }
      SiftDownStep(r, lo, n, i, c);
      SwapInsideWindow(r, a, lo, n, i, c);
      r := Swap(r, i, c);
      i := c;
    }
  }

  /** `std::push_heap`: `a[..|a|-1]` is a heap; the last entry is sifted up. */
  method PushHeap(a: seq<Event>) returns (r: seq<Event>)
    requires |a| > 0 && IsHeap(a[..|a| - 1])
    ensures |r| == |a| && multiset(r) == multiset(a)
    ensures IsHeap(r)
  {
    r := a;
    var n := |a|;
    var i := n - 1;
    while i > 0 && Greater(r[Parent(i)], r[i])
      invariant 0 <= i < n
      invariant |r| == n && multiset(r) == multiset(a)
      invariant forall k :: 0 < k < n && k != i ==> !Greater(r[Parent(k)], r[k])
      invariant 0 < i ==> forall k :: 0 < k < n && Parent(k) == i ==> !Greater(r[Parent(i)], r[k])
      decreases i
    {
      var p := Parent(i);
      r := Swap(r, i, p);
      i := p;
    }
  }

  /** `std::pop_heap`: the front moves to the back and `a[..|a|-1]` is
      reorganised into a heap. */
  method PopHeap(a: seq<Event>) returns (r: seq<Event>)
    requires |a| > 0 && IsHeap(a)
    ensures |r| == |a| && multiset(r) == multiset(a)
    ensures r[|a| - 1] == a[0]
    ensures IsHeap(r[..|a| - 1])
  {
    var n := |a| - 1;
    r := Swap(a, 0, n);
    if n > 0 {
      r := SiftDown(r, 0, n);
    }
    assert HeapFrom(r, 0, n);
  }

  /** `std::make_heap`: Floyd's bottom-up construction. */
  method MakeHeap(a: seq<Event>) returns (r: seq<Event>)
    ensures |r| == |a| && multiset(r) == multiset(a)
    ensures IsHeap(r)
  {
    r := a;
    var n := |a|;
    var s := n / 2;
    while s > 0
      invariant 0 <= s <= n / 2
      invariant |r| == n && multiset(r) == multiset(a)
      invariant HeapFrom(r, s, n)
    {
      s := s - 1;
      r := SiftDown(r, s, n);
    }
  }
}
