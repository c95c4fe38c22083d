/** The generic heapsort and binary search of stdlib.c. An array is CNT elements
    of SIZE bytes each, compared by a strcmp()-style function. */
module Sort {
  import Arithmetic
  import opened Bytes

  type Elem = seq<byte>
  type Compare = (Elem, Elem) -> int

  /** Always true; the laws below are instantiated only where it is mentioned. */
  ghost predicate Consider(x: Elem, y: Elem, z: Elem) { true }

  /** What the routines ask of the comparison, on elements of the given size:
      its sign flips with its arguments, and "not greater" is transitive. */
  ghost predicate TotalPreorder(compare: Compare, size: nat) {
    forall x, y, z {:trigger Consider(x, y, z)} :: |x| == |y| == |z| == size && Consider(x, y, z) ==>
      && (compare(x, y) > 0 <==> compare(y, x) < 0)
      && (compare(x, y) <= 0 && compare(y, z) <= 0 ==> compare(x, z) <= 0)
  }

  lemma Order(compare: Compare, size: nat, x: Elem, y: Elem, z: Elem)
    requires TotalPreorder(compare, size) && |x| == |y| == |z| == size
    ensures compare(x, y) > 0 <==> compare(y, x) < 0
    ensures compare(x, y) <= 0 && compare(y, z) <= 0 ==> compare(x, z) <= 0
  {
    assert Consider(x, y, z);
  }

  // ----- elements of a byte array

  /** The element with 0-based index k. */
  function ElemAt(bytes: seq<byte>, size: nat, k: nat): (e: Elem)
    requires (k + 1) * size <= |bytes|
    ensures |e| == size
  {
    Slot(size, k);
    bytes[k * size..(k + 1) * size]
  }

  function Elems(bytes: seq<byte>, size: nat, cnt: nat): (es: seq<Elem>)
    requires |bytes| == cnt * size
    ensures |es| == cnt && forall k :: 0 <= k < cnt ==> |es[k]| == size
  {
    seq(cnt, k requires 0 <= k < cnt => Within(size, k, cnt); ElemAt(bytes, size, k))
  }

  lemma Slot(size: nat, k: nat)
    ensures (k + 1) * size == k * size + size && 0 <= k * size
  {
  }

  lemma Within(size: nat, k: nat, cnt: nat)
    requires k < cnt
    ensures 0 <= k * size && k * size + size == (k + 1) * size <= cnt * size
  {
    Arithmetic.Product(cnt - k - 1, size);
    assert cnt * size == (k + 1) * size + (cnt - k - 1) * size;
  }

  lemma Apart(size: nat, j: nat, k: nat)
    requires j < k
    ensures j * size + size <= k * size
  {
    Within(size, j, k);
  }

  function Swapped<T>(s: seq<T>, i: nat, j: nat): (r: seq<T>)
    requires i < |s| && j < |s|
    ensures |r| == |s|
  {
    s[i := s[j]][j := s[i]]
  }

  /** Swaps the elements with 1-based indexes aIdx and bIdx, byte by byte. */
  method DoSwap(a: array<byte>, aIdx: nat, bIdx: nat, size: nat, ghost cnt: nat)
    requires a.Length == cnt * size && 1 <= aIdx <= cnt && 1 <= bIdx <= cnt
    modifies a
    ensures Elems(a[..], size, cnt) == Swapped(old(Elems(a[..], size, cnt)), aIdx - 1, bIdx - 1)
  {
    var p, q := (aIdx - 1) * size, (bIdx - 1) * size;
    Within(size, aIdx - 1, cnt);
    Within(size, bIdx - 1, cnt);
    if aIdx < bIdx { Apart(size, aIdx - 1, bIdx - 1); }
    if bIdx < aIdx { Apart(size, bIdx - 1, aIdx - 1); }
    for i := 0 to size
      invariant forall k :: p <= k < p + i ==> a[k] == old(a[q - p + k])
      invariant forall k :: q <= k < q + i ==> a[k] == old(a[p - q + k])
      invariant forall k :: 0 <= k < a.Length && !(p <= k < p + i) && !(q <= k < q + i) ==> a[k] == old(a[k])
    {
      var t := a[p + i];
      a[p + i] := a[q + i];
      a[q + i] := t;
    }
    SwapIsElementwise(old(a[..]), a[..], size, cnt, aIdx - 1, bIdx - 1, p, q);
  }

  lemma SwapIsElementwise(before: seq<byte>, after: seq<byte>, size: nat, cnt: nat, i: nat, j: nat, p: nat, q: nat)
    requires |before| == |after| == cnt * size && i < cnt && j < cnt
    requires p == i * size && q == j * size && p + size <= |before| && q + size <= |before|
    requires forall k :: p <= k < p + size ==> after[k] == before[q - p + k]
    requires forall k :: q <= k < q + size ==> after[k] == before[p - q + k]
    requires forall k :: 0 <= k < |before| && !(p <= k < p + size) && !(q <= k < q + size) ==> after[k] == before[k]
    ensures Elems(after, size, cnt) == Swapped(Elems(before, size, cnt), i, j)
  {
    forall m | 0 <= m < cnt
      ensures Elems(after, size, cnt)[m] == Swapped(Elems(before, size, cnt), i, j)[m]
    {
      var src := if m == j then i else if m == i then j else m;
      Within(size, m, cnt);
      Within(size, src, cnt);
      if m < i { Apart(size, m, i); }
      if i < m { Apart(size, i, m); }
      if m < j { Apart(size, m, j); }
      if j < m { Apart(size, j, m); }
      ElemFromBytes(before, after, size, m, m * size, src, src * size);
    }
  }

  lemma ElemFromBytes(before: seq<byte>, after: seq<byte>, size: nat, m: nat, mp: nat, src: nat, sp: nat)
    requires mp == m * size && (m + 1) * size == mp + size <= |after|
    requires sp == src * size && (src + 1) * size == sp + size <= |before|
    requires forall k :: mp <= k < mp + size ==> after[k] == before[sp - mp + k]
    ensures ElemAt(after, size, m) == ElemAt(before, size, src)
  {
  }

  // ----- heaps, over the elements with 1-based indexes 1..cnt

  /** Node j is not smaller than its children, if it has any. */
  ghost predicate HeapAt(es: seq<Elem>, cnt: nat, compare: Compare, j: nat)
    requires 1 <= j <= cnt <= |es|
  {
    && (2 * j <= cnt ==> compare(es[2 * j - 1], es[j - 1]) <= 0)
    && (2 * j + 1 <= cnt ==> compare(es[2 * j], es[j - 1]) <= 0)
  }

  /** Every node from lo on, except possibly `hole`, is a heap node. */
  ghost predicate HeapBut(es: seq<Elem>, cnt: nat, compare: Compare, lo: nat, hole: nat)
    requires 1 <= lo && cnt <= |es|
  {
    forall j :: lo <= j <= cnt && j != hole ==> HeapAt(es, cnt, compare, j)
  }

  /** Every node from lo on is a heap node. */
  ghost predicate HeapFrom(es: seq<Elem>, cnt: nat, compare: Compare, lo: nat)
    requires 1 <= lo && cnt <= |es|
  {
    HeapBut(es, cnt, compare, lo, 0)
  }

  /** The first cnt elements are permuted and the others stay in place. */
  ghost predicate PermutesFirst(before: seq<Elem>, after: seq<Elem>, cnt: nat) {
    && |before| == |after| && cnt <= |before|
    && multiset(after[..cnt]) == multiset(before[..cnt])
    && after[cnt..] == before[cnt..]
  }

  lemma SwapPermutes(es: seq<Elem>, i: nat, j: nat, cnt: nat)
    requires i < cnt && j < cnt && cnt <= |es|
    ensures PermutesFirst(es, Swapped(es, i, j), cnt)
  {
    var front := es[..cnt];
    assert Swapped(es, i, j)[..cnt] == Swapped(front, i, j);
    assert multiset(front[i := front[j]]) == multiset(front) - multiset{front[i]} + multiset{front[j]};
    assert multiset(Swapped(front, i, j)) == multiset(front);
  }

  /** The state of Heapify's loop: cur is the only node from i on that may be
      out of place, and everything so far was a permutation at or after i. */
  ghost predicate Floating(start: seq<Elem>, es: seq<Elem>, cnt: nat, compare: Compare, i: nat, cur: nat)
    requires 1 <= i <= cur <= cnt <= |es|
  {
    && HeapBut(es, cnt, compare, i, cur)
    && (cur > i ==> ChildrenBelowParent(es, cnt, compare, i, cur))
    && PermutesFirst(start, es, cnt)
    && es[..i - 1] == start[..i - 1]
  }

  /** Floats the element with 1-based index i down until the heap below i is
      restored. Only i itself may be out of place when it is called. */
  method Heapify(a: array<byte>, i: nat, cnt: nat, size: nat, compare: Compare, ghost total: nat)
    requires a.Length == total * size && 1 <= i <= cnt <= total
    requires TotalPreorder(compare, size)
    requires HeapFrom(Elems(a[..], size, total), cnt, compare, i + 1)
    modifies a
    ensures HeapFrom(Elems(a[..], size, total), cnt, compare, i)
    ensures PermutesFirst(old(Elems(a[..], size, total)), Elems(a[..], size, total), cnt)
    ensures Elems(a[..], size, total)[..i - 1] == old(Elems(a[..], size, total))[..i - 1]
  {
    hide HeapBut, PermutesFirst, Swapped, TotalPreorder, ElemAt;
    var cur := i;
    ghost var start := Elems(a[..], size, total);
    StartFloating(start, cnt, compare, i);
    while true
      invariant i <= cur <= cnt
      invariant Floating(start, Elems(a[..], size, total), cnt, compare, i, cur)
      decreases cnt - cur
    {
      ghost var es := Elems(a[..], size, total);
      var max := LargestOfFamily(a, cur, cnt, size, compare, total);
      if max == cur {
        Settled(es, cnt, compare, i, cur);
        break;
      }
      FloatDown(start, es, cnt, compare, i, cur, max);
      DoSwap(a, cur, max, size, total);
      cur := max;
    }
  }

  lemma StartFloating(start: seq<Elem>, cnt: nat, compare: Compare, i: nat)
    requires 1 <= i <= cnt <= |start| && HeapFrom(start, cnt, compare, i + 1)
    ensures Floating(start, start, cnt, compare, i, i)
  {
  }

  lemma Settled(es: seq<Elem>, cnt: nat, compare: Compare, lo: nat, cur: nat)
    requires 1 <= lo <= cur <= cnt <= |es| && HeapBut(es, cnt, compare, lo, cur)
    requires 2 * cur <= cnt ==> compare(es[2 * cur - 1], es[cur - 1]) <= 0
    requires 2 * cur + 1 <= cnt ==> compare(es[2 * cur], es[cur - 1]) <= 0
    ensures HeapFrom(es, cnt, compare, lo)
  {
  }

  /** The index of the largest element among cur and its children. */
  method LargestOfFamily(a: array<byte>, cur: nat, cnt: nat, size: nat, compare: Compare, ghost total: nat)
    returns (max: nat)
    requires a.Length == total * size && 1 <= cur <= cnt <= total
    requires TotalPreorder(compare, size)
    ensures max == cur || ((max == 2 * cur || max == 2 * cur + 1) && max <= cnt)
    ensures var es := Elems(a[..], size, total);
            && compare(es[cur - 1], es[max - 1]) <= 0
            && (2 * cur <= cnt ==> compare(es[2 * cur - 1], es[max - 1]) <= 0)
            && (2 * cur + 1 <= cnt ==> compare(es[2 * cur], es[max - 1]) <= 0)
  {
    ghost var es := Elems(a[..], size, total);
    var left := 2 * cur;
    var right := 2 * cur + 1;
    max := cur;
    Order(compare, size, es[cur - 1], es[cur - 1], es[cur - 1]);
    if left <= cnt {
      var c := DoCompare(a, left, max, size, compare, total);
      if c > 0 { max := left; }
      LargerChild(compare, size, es[cur - 1], es[left - 1], es[if right <= cnt then right - 1 else left - 1]);
    }
    if right <= cnt {
      var c := DoCompare(a, right, max, size, compare, total);
      if c > 0 { max := right; }
    }
  }

  method DoCompare(a: array<byte>, aIdx: nat, bIdx: nat, size: nat, compare: Compare, ghost cnt: nat) returns (c: int)
    requires a.Length == cnt * size && 1 <= aIdx <= cnt && 1 <= bIdx <= cnt
    ensures var es := Elems(a[..], size, cnt); c == compare(es[aIdx - 1], es[bIdx - 1])
  {
    Within(size, aIdx - 1, cnt);
    Within(size, bIdx - 1, cnt);
    c := compare(a[(aIdx - 1) * size..(aIdx - 1) * size + size], a[(bIdx - 1) * size..(bIdx - 1) * size + size]);
    assert a[(aIdx - 1) * size..(aIdx - 1) * size + size] == ElemAt(a[..], size, aIdx - 1);
    assert a[(bIdx - 1) * size..(bIdx - 1) * size + size] == ElemAt(a[..], size, bIdx - 1);
  }

  /** The children of cur do not exceed the parent of cur. */
  ghost predicate ChildrenBelowParent(es: seq<Elem>, cnt: nat, compare: Compare, lo: nat, cur: nat)
    requires 1 <= lo <= cur <= cnt <= |es|
  {
    var p := cur / 2;
    && lo <= p
    && (2 * cur <= cnt ==> compare(es[2 * cur - 1], es[p - 1]) <= 0)
    && (2 * cur + 1 <= cnt ==> compare(es[2 * cur], es[p - 1]) <= 0)
  }

  /** The child chosen by the two comparisons is larger than the node and not
      smaller than the other child. */
  lemma LargerChild(compare: Compare, size: nat, node: Elem, left: Elem, right: Elem)
    requires TotalPreorder(compare, size) && |node| == |left| == |right| == size
    ensures compare(left, node) > 0 ==> compare(node, left) <= 0
    ensures compare(left, left) <= 0 && compare(right, right) <= 0
    ensures compare(left, node) > 0 && compare(right, left) > 0 ==>
              compare(node, right) <= 0 && compare(left, right) <= 0
    ensures compare(left, node) <= 0 && compare(right, node) > 0 ==>
              compare(node, right) <= 0 && compare(left, right) <= 0
  {
    Order(compare, size, left, left, left);
    Order(compare, size, right, right, right);
    Order(compare, size, left, node, right);
    Order(compare, size, right, left, left);
    Order(compare, size, right, node, node);
    Order(compare, size, node, left, right);
  }

  /** One round: swapping cur with its larger child moves the hole there. */
  lemma FloatDown(start: seq<Elem>, es: seq<Elem>, cnt: nat, compare: Compare, lo: nat, cur: nat, max: nat)
    requires 1 <= lo <= cur <= cnt <= |es| && Floating(start, es, cnt, compare, lo, cur)
    requires (max == 2 * cur || max == 2 * cur + 1) && max <= cnt
    requires compare(es[cur - 1], es[max - 1]) <= 0
    requires compare(es[2 * cur - 1], es[max - 1]) <= 0
    requires 2 * cur + 1 <= cnt ==> compare(es[2 * cur], es[max - 1]) <= 0
    ensures Floating(start, Swapped(es, cur - 1, max - 1), cnt, compare, lo, max)
  {
    hide HeapBut, PermutesFirst, Swapped;
    MoveHole(es, cnt, compare, lo, cur, max);
    SwapKeeps(start, es, cur - 1, max - 1, cnt, lo - 1);
  }

  lemma SwapKeeps(start: seq<Elem>, es: seq<Elem>, i: nat, j: nat, cnt: nat, below: nat)
    requires below <= i < cnt && below <= j < cnt <= |es|
    requires PermutesFirst(start, es, cnt) && es[..below] == start[..below]
    ensures PermutesFirst(start, Swapped(es, i, j), cnt) && Swapped(es, i, j)[..below] == start[..below]
  {
    SwapPermutes(es, i, j, cnt);
    assert Swapped(es, i, j)[..below] == es[..below];
  }

  lemma MoveHole(es: seq<Elem>, cnt: nat, compare: Compare, lo: nat, cur: nat, max: nat)
    requires 1 <= lo <= cur <= cnt <= |es| && HeapBut(es, cnt, compare, lo, cur)
    requires cur > lo ==> ChildrenBelowParent(es, cnt, compare, lo, cur)
    requires (max == 2 * cur || max == 2 * cur + 1) && max <= cnt
    requires compare(es[cur - 1], es[max - 1]) <= 0
    requires compare(es[2 * cur - 1], es[max - 1]) <= 0
    requires 2 * cur + 1 <= cnt ==> compare(es[2 * cur], es[max - 1]) <= 0
    ensures HeapBut(Swapped(es, cur - 1, max - 1), cnt, compare, lo, max)
    ensures ChildrenBelowParent(Swapped(es, cur - 1, max - 1), cnt, compare, lo, max)
  {
    var es' := Swapped(es, cur - 1, max - 1);
    forall j | lo <= j <= cnt && j != max
      ensures HeapAt(es', cnt, compare, j)
    {
      assert j != cur ==> HeapAt(es, cnt, compare, j);
    }
    assert HeapAt(es, cnt, compare, max);
  }

  lemma {:induction false} RootIsLargest(es: seq<Elem>, size: nat, cnt: nat, compare: Compare, j: nat)
    requires TotalPreorder(compare, size) && forall e :: e in es ==> |e| == size
    requires 1 <= j <= cnt <= |es| && HeapFrom(es, cnt, compare, 1)
    ensures compare(es[j - 1], es[0]) <= 0
  {
    if j == 1 {
      Order(compare, size, es[0], es[0], es[0]);
    } else {
      RootIsLargest(es, size, cnt, compare, j / 2);
      assert HeapAt(es, cnt, compare, j / 2);
      Order(compare, size, es[j - 1], es[j / 2 - 1], es[0]);
    }
  }

  // ----- sorting

  ghost predicate Ordered(es: seq<Elem>, compare: Compare) {
    forall i, j :: 0 <= i < j < |es| ==> compare(es[i], es[j]) <= 0
  }

  /** The elements from m on are ordered and none of the earlier ones exceeds
      any of them. */
  ghost predicate OrderedFrom(es: seq<Elem>, compare: Compare, m: nat) {
    forall i, j :: 0 <= i < j < |es| && m <= j ==> compare(es[i], es[j]) <= 0
  }

  /** Sorts the cnt elements of a in place. */
  method Sort(a: array<byte>, cnt: nat, size: nat, compare: Compare)
    requires a.Length == cnt * size && size > 0
    requires TotalPreorder(compare, size)
    modifies a
    ensures Ordered(Elems(a[..], size, cnt), compare)
    ensures multiset(Elems(a[..], size, cnt)) == multiset(old(Elems(a[..], size, cnt)))
  {
    hide HeapBut, OrderedFrom, PermutesFirst, Swapped, TotalPreorder, ElemAt, Ordered;
    ghost var start := Elems(a[..], size, cnt);
    var i := cnt / 2;
    LeavesAreHeaps(start, cnt, compare);
    while i > 0
      invariant 0 <= i <= cnt / 2
      invariant HeapFrom(Elems(a[..], size, cnt), cnt, compare, i + 1)
      invariant multiset(Elems(a[..], size, cnt)) == multiset(start)
    {
      ghost var before := Elems(a[..], size, cnt);
      Heapify(a, i, cnt, size, compare, cnt);
      WholePermuted(before, Elems(a[..], size, cnt), cnt);
      i := i - 1;
    }
    i := cnt;
    NothingOrdered(Elems(a[..], size, cnt), compare);
    while i > 1
      invariant cnt > 0 ==> 1 <= i <= cnt
      invariant cnt == 0 ==> i == 0
      invariant HeapFrom(Elems(a[..], size, cnt), i, compare, 1)
      invariant OrderedFrom(Elems(a[..], size, cnt), compare, i)
      invariant multiset(Elems(a[..], size, cnt)) == multiset(start)
    {
      ghost var es := Elems(a[..], size, cnt);
      DoSwap(a, 1, i, size, cnt);
      ghost var mid := Elems(a[..], size, cnt);
      SwapPermutes(es, 0, i - 1, i);
      WholePermuted(es, mid, i);
      LargestLast(es, mid, size, cnt, compare, i);
      Heapify(a, 1, i - 1, size, compare, cnt);
      WholePermuted(mid, Elems(a[..], size, cnt), i - 1);
      StillOrdered(mid, Elems(a[..], size, cnt), compare, i - 1);
      i := i - 1;
    }
    WholeOrdered(Elems(a[..], size, cnt), compare, i);
  }

  lemma LeavesAreHeaps(es: seq<Elem>, cnt: nat, compare: Compare)
    requires cnt <= |es|
    ensures HeapFrom(es, cnt, compare, cnt / 2 + 1)
  {
  }

  lemma NothingOrdered(es: seq<Elem>, compare: Compare)
    ensures OrderedFrom(es, compare, |es|)
  {
  }

  lemma WholeOrdered(es: seq<Elem>, compare: Compare, m: nat)
    requires OrderedFrom(es, compare, m) && m <= 1
    ensures Ordered(es, compare)
  {
  }

  lemma WholePermuted(before: seq<Elem>, after: seq<Elem>, cnt: nat)
    requires PermutesFirst(before, after, cnt)
    ensures multiset(after) == multiset(before)
  {
    assert before == before[..cnt] + before[cnt..];
    assert after == after[..cnt] + after[cnt..];
  }

  /** Swapping the root of a heap of i elements with its last one puts a largest
      element there and disturbs only the root. */
  lemma LargestLast(es: seq<Elem>, mid: seq<Elem>, size: nat, cnt: nat, compare: Compare, i: nat)
    requires TotalPreorder(compare, size) && forall k :: 0 <= k < |es| ==> |es[k]| == size
    requires 2 <= i <= cnt == |es| && mid == Swapped(es, 0, i - 1)
    requires HeapFrom(es, i, compare, 1) && OrderedFrom(es, compare, i)
    ensures HeapFrom(mid, i - 1, compare, 2)
    ensures OrderedFrom(mid, compare, i - 1)
  {
    var n := i - 1;
    forall j | 2 <= j <= n
      ensures HeapAt(mid, n, compare, j)
    {
      assert HeapAt(es, i, compare, j);
    }
    forall p, q | 0 <= p < q < cnt && i - 1 <= q
      ensures compare(mid[p], mid[q]) <= 0
    {
      if q == i - 1 {
        RootIsLargest(es, size, i, compare, if p == 0 then i else p + 1);
      } else if p == 0 {
        assert compare(es[i - 1], es[q]) <= 0;
      } else if p == i - 1 {
        assert compare(es[0], es[q]) <= 0;
      }
    }
  }

  /** Permuting the first m elements leaves the rest ordered and not exceeded. */
  lemma StillOrdered(before: seq<Elem>, after: seq<Elem>, compare: Compare, m: nat)
    requires PermutesFirst(before, after, m) && OrderedFrom(before, compare, m)
    ensures OrderedFrom(after, compare, m)
  {
    forall i, j | 0 <= i < j < |after| && m <= j
      ensures compare(after[i], after[j]) <= 0
    {
      assert after[j] == after[m..][j - m] == before[m..][j - m] == before[j];
      if i < m {
        assert after[i] in multiset(after[..m]);
        assert after[i] in before[..m];
        var k :| 0 <= k < m && before[k] == after[i];
      } else {
        assert after[i] == after[m..][i - m] == before[m..][i - m] == before[i];
      }
    }
  }

  // ----- searching

  datatype Found = Nowhere | AtOffset(offset: nat)

  /** Looks for an element equal to key in an ordered array: the result is the
      byte offset of one when the array has one, and Nowhere otherwise. */
  method BinarySearch(key: Elem, a: array<byte>, cnt: nat, size: nat, compare: Compare) returns (r: Found)
    requires a.Length == cnt * size && size > 0 && |key| == size
    requires TotalPreorder(compare, size) && Ordered(Elems(a[..], size, cnt), compare)
    ensures r.AtOffset? <==> exists k :: 0 <= k < cnt && compare(key, Elems(a[..], size, cnt)[k]) == 0
    ensures r.AtOffset? ==>
              exists k :: 0 <= k < cnt && r.offset == k * size && compare(key, Elems(a[..], size, cnt)[k]) == 0
  {
    ghost var es := Elems(a[..], size, cnt);
    ghost var lo, hi := 0, cnt;
    var first, last := 0, size * cnt;
    while first < last
      invariant 0 <= lo <= hi <= cnt && first == lo * size && last == hi * size
      invariant forall k :: 0 <= k < lo ==> compare(key, es[k]) > 0
      invariant forall k :: hi <= k < cnt ==> compare(key, es[k]) < 0
      decreases hi - lo
    {
      var range := (last - first) / size;
      RangeIs(lo, hi, size, range);
      var middle := first + (range / 2) * size;
      ghost var m := lo + range / 2;
      MiddleIs(lo, range / 2, size);
      Within(size, m, cnt);
      assert a[middle..middle + size] == es[m];
      var cmp := compare(key, a[middle..middle + size]);
      if cmp < 0 {
        RuleOutAbove(key, es, size, compare, m);
        last, hi := middle, m;
      } else if cmp > 0 {
        RuleOutBelow(key, es, size, compare, m);
        first, lo := middle + size, m + 1;
      } else {
        return AtOffset(middle);
      }
    }
    EmptyRange(lo, hi, size);
    r := Nowhere;
  }

  lemma RangeIs(lo: nat, hi: nat, size: nat, range: int)
    requires size > 0 && lo <= hi && lo * size < hi * size && range == (hi * size - lo * size) / size
    ensures range == hi - lo > 0
  {
    var d := hi - lo;
    assert hi * size - lo * size == d * size;
    Arithmetic.DivUnique(d * size, size, d);
  }

  lemma MiddleIs(lo: nat, half: nat, size: nat)
    ensures lo * size + half * size == (lo + half) * size
  {
  }

  lemma EmptyRange(lo: nat, hi: nat, size: nat)
    requires lo <= hi && size > 0 && lo * size >= hi * size
    ensures lo == hi
  {
    if lo < hi { Apart(size, lo, hi); }
  }

  lemma RuleOutAbove(key: Elem, es: seq<Elem>, size: nat, compare: Compare, m: nat)
    requires TotalPreorder(compare, size) && |key| == size && forall k :: 0 <= k < |es| ==> |es[k]| == size
    requires Ordered(es, compare) && m < |es| && compare(key, es[m]) < 0
    ensures forall k :: m <= k < |es| ==> compare(key, es[k]) < 0
  {
    forall k | m <= k < |es|
      ensures compare(key, es[k]) < 0
    {
      if k > m {
        Order(compare, size, es[m], es[k], key);
        Order(compare, size, es[m], key, key);
        Order(compare, size, es[k], key, key);
      }
    }
  }

  lemma RuleOutBelow(key: Elem, es: seq<Elem>, size: nat, compare: Compare, m: nat)
    requires TotalPreorder(compare, size) && |key| == size && forall k :: 0 <= k < |es| ==> |es[k]| == size
    requires Ordered(es, compare) && m < |es| && compare(key, es[m]) > 0
    ensures forall k :: 0 <= k <= m ==> compare(key, es[k]) > 0
  {
    forall k | 0 <= k <= m
      ensures compare(key, es[k]) > 0
    {
      if k < m {
        Order(compare, size, key, es[k], es[m]);
      }
    }
  }
}
