/** The archive reader's index: entries heap-sorted by lower-cased name, and binary search against the linear scan. */
module FileIndex {
  import opened Arith
  import opened TreeSize

  type Name = seq<byte>

  /** MZ_TOLOWER. */
  function Lower(c: byte): byte {
    if 65 <= c <= 90 then c + 32 else c
  }

  /** The order of two names, ignoring case: negative, zero or positive, a name before its own continuations. */
  function Order(a: Name, b: Name): int {
    if a == [] || b == [] then |a| - |b|
    else if Lower(a[0]) != Lower(b[0]) then Lower(a[0]) - Lower(b[0])
    else Order(a[1..], b[1..])
  }

  /** The names are the same but for case. */
  predicate Same(a: Name, b: Name) {
    |a| == |b| && forall i :: 0 <= i < |a| ==> Lower(a[i]) == Lower(b[i])
  }

  lemma {:induction false} OrderSame(a: Name, b: Name)
    ensures Order(a, b) == 0 <==> Same(a, b)
  {
    if a != [] && b != [] {
      OrderSame(a[1..], b[1..]);
      if Same(a, b) {
        forall i | 0 <= i < |a| - 1
          ensures Lower(a[1..][i]) == Lower(b[1..][i])
        {
          assert a[1..][i] == a[i + 1] && b[1..][i] == b[i + 1];
        }
      }
      if Lower(a[0]) == Lower(b[0]) && Same(a[1..], b[1..]) {
        forall i | 0 <= i < |a|
          ensures Lower(a[i]) == Lower(b[i])
        {
          if i > 0 {
            assert a[1..][i - 1] == a[i] && b[1..][i - 1] == b[i];
          }
        }
      }
    }
  }

  lemma {:induction false} OrderSwap(a: Name, b: Name)
    ensures Order(a, b) < 0 <==> Order(b, a) > 0
  {
    if a != [] && b != [] {
      OrderSwap(a[1..], b[1..]);
    }
  }

  /** Not-after is transitive. */
  lemma {:induction false} OrderTrans(a: Name, b: Name, c: Name)
    requires Order(a, b) <= 0 && Order(b, c) <= 0
    ensures Order(a, c) <= 0
    ensures Order(a, b) < 0 || Order(b, c) < 0 ==> Order(a, c) < 0
  {
    if a != [] && b != [] && c != [] && Lower(a[0]) == Lower(b[0]) == Lower(c[0]) {
      OrderTrans(a[1..], b[1..], c[1..]);
    }
  }

  /** mz_zip_filename_compare. */
  method Compare(l: Name, r: Name) returns (c: int)
    ensures c == Order(l, r)
  {
    var n := Min(|l|, |r|);
    var i := 0;
    assert l[0..] == l && r[0..] == r;
    while i < n
      invariant 0 <= i <= n && Order(l, r) == Order(l[i..], r[i..])
    {
      if Lower(l[i]) != Lower(r[i]) {
        return Lower(l[i]) - Lower(r[i]);
      }
      assert l[i..][1..] == l[i + 1..] && r[i..][1..] == r[i + 1..];
      i := i + 1;
    }
    c := |l| - |r|;
  }

  /** mz_zip_string_equal without the case-sensitive flag. */
  method StringEqual(a: Name, b: Name) returns (eq: bool)
    requires |a| == |b|
    ensures eq <==> Same(a, b)
  {
    for i := 0 to |a|
      invariant forall k :: 0 <= k < i ==> Lower(a[k]) == Lower(b[k])
    {
      if Lower(a[i]) != Lower(b[i]) {
        return false;
      }
    }
    eq := true;
  }

  // ---- The heap sort.

  /** Entry x's name does not come after entry y's. */
  predicate Leq(names: seq<Name>, x: nat, y: nat) {
    x < |names| && y < |names| && Order(names[x], names[y]) <= 0
  }

  lemma LeqTrans(names: seq<Name>, x: nat, y: nat, z: nat)
    requires Leq(names, x, y) && Leq(names, y, z)
    ensures Leq(names, x, z)
  {
    OrderTrans(names[x], names[y], names[z]);
  }

  /** The indices are distinct entries. */
  predicate Distinct(s: seq<nat>, names: seq<Name>) {
    && (forall i :: 0 <= i < |s| ==> s[i] < |names|)
    && (forall i, j :: 0 <= i < j < |s| ==> s[i] != s[j])
  }

  function Up(c: nat): nat {
    if c == 0 then 0 else (c - 1) / 2
  }

  /** From lo on no entry comes after its parent, except perhaps below the hole. */
  predicate HeapBut(s: seq<nat>, names: seq<Name>, lo: nat, end: nat, hole: nat)
    requires end <= |s|
  {
    forall c :: 0 < c < end && Up(c) >= lo && Up(c) != hole ==> Leq(names, s[c], s[Up(c)])
  }

  /** What hangs below the hole does not come after what is above it. */
  predicate HoleOk(s: seq<nat>, names: seq<Name>, lo: nat, end: nat, hole: nat)
    requires end <= |s| && hole < end
  {
    forall c :: 0 < c < end && Up(c) == hole && hole > 0 && Up(hole) >= lo ==> Leq(names, s[c], s[Up(hole)])
  }

  predicate Heap(s: seq<nat>, names: seq<Name>, lo: nat, end: nat)
    requires end <= |s|
  {
    forall c :: 0 < c < end && Up(c) >= lo ==> Leq(names, s[c], s[Up(c)])
  }

  /** mz_zip_reader_filename_less. */
  method Less(names: seq<Name>, x: nat, y: nat) returns (less: bool)
    requires x < |names| && y < |names|
    ensures less <==> !Leq(names, y, x)
  {
    var c := Compare(names[x], names[y]);
    OrderSwap(names[x], names[y]);
    OrderSwap(names[y], names[x]);
    less := c < 0;
  }

  lemma Total(names: seq<Name>, x: nat, y: nat)
    requires x < |names| && y < |names|
    ensures Leq(names, x, y) || Leq(names, y, x)
  {
    OrderSwap(names[x], names[y]);
  }

  /** The hole's entry is not before its larger child: a heap again. */
  lemma SiftEnds(s: seq<nat>, names: seq<Name>, lo: nat, end: nat, root: nat, child: nat)
    requires end <= |s| && root < end && HeapBut(s, names, lo, end, root)
    requires child < end ==> Leq(names, s[child], s[root]) && forall c :: 0 < c < end && Up(c) == root ==>
        Leq(names, s[c], s[child])
    requires child >= end ==> forall c :: 0 < c < end ==> Up(c) != root
    ensures Heap(s, names, lo, end)
  {
    hide Leq;
    forall c | 0 < c < end && Up(c) >= lo
      ensures Leq(names, s[c], s[Up(c)])
    {
      if Up(c) == root {
        LeqTrans(names, s[c], s[child], s[root]);
      }
    }
  }

  /** Otherwise they change places, and the hole moves down. */
  lemma SiftStep(s: seq<nat>, names: seq<Name>, lo: nat, end: nat, root: nat, child: nat)
    requires end <= |s| && lo <= root < end && root < child < end && Up(child) == root
    requires HeapBut(s, names, lo, end, root) && HoleOk(s, names, lo, end, root)
    requires Leq(names, s[root], s[child]) && forall c :: 0 < c < end && Up(c) == root ==> Leq(names, s[c], s[child])
    ensures var s' := s[root := s[child]][child := s[root]];
            HeapBut(s', names, lo, end, child) && HoleOk(s', names, lo, end, child)
  {
    hide Leq;
    var s' := s[root := s[child]][child := s[root]];
    forall c | 0 < c < end && Up(c) >= lo && Up(c) != child
      ensures Leq(names, s'[c], s'[Up(c)])
    {
    }
  }

  /** The larger child of root, if it has any. */
  method Larger(a: array<nat>, names: seq<Name>, root: nat, end: nat) returns (child: nat)
    requires root < end <= a.Length && Distinct(a[..], names)
    ensures root < child && Up(child) == root && (child >= end ==> forall c :: 0 < c < end ==> Up(c) != root)
    ensures child < end ==> forall c :: 0 < c < end && Up(c) == root ==> Leq(names, a[c], a[child])
  {
    child := root * 2 + 1;
    if child >= end {
      return;
    }
    Total(names, a[child], a[child]);
    if child + 1 < end {
      Total(names, a[child + 1], a[child + 1]);
      Total(names, a[child], a[child + 1]);
      var second := Less(names, a[child], a[child + 1]);
      child := child + (if second then 1 else 0);
    }
  }

  /** Sinking the entry at root restores the heap, and moves entries only within the heap. */
  method SiftDown(a: array<nat>, names: seq<Name>, ghost lo: nat, root0: nat, end: nat, ghost bound: nat)
    requires end <= a.Length && lo <= root0 < end && Distinct(a[..], names)
    requires HeapBut(a[..], names, lo, end, root0) && HoleOk(a[..], names, lo, end, root0)
    requires bound < |names| ==> forall i :: 0 <= i < end ==> Leq(names, a[i], bound)
    modifies a
    ensures Distinct(a[..], names) && Heap(a[..], names, lo, end)
    ensures bound < |names| ==> forall i :: 0 <= i < end ==> Leq(names, a[i], bound)
    ensures forall i :: end <= i < a.Length ==> a[i] == old(a[i])
  {
    hide Leq, HeapBut, HoleOk, Heap;
    var root := root0;
    while true
      invariant lo <= root < end && Distinct(a[..], names)
      invariant HeapBut(a[..], names, lo, end, root) && HoleOk(a[..], names, lo, end, root)
      invariant bound < |names| ==> forall i :: 0 <= i < end ==> Leq(names, a[i], bound)
      invariant forall i :: end <= i < a.Length ==> a[i] == old(a[i])
      decreases end - root
    {
      var child := Larger(a, names, root, end);
      if child >= end {
        SiftEnds(a[..], names, lo, end, root, child);
        return;
      }
      Total(names, a[root], a[child]);
      var sink := Less(names, a[root], a[child]);
      if !sink {
        SiftEnds(a[..], names, lo, end, root, child);
        return;
      }
      SiftStep(a[..], names, lo, end, root, child);
      ghost var was := a[..];
      a[root], a[child] := a[child], a[root];
      assert a[..] == was[root := was[child]][child := was[root]];
      root := child;
    }
  }

  // ---- The whole sort.

  predicate SortedFrom(s: seq<nat>, names: seq<Name>, from: nat) {
    forall i, j :: from <= i < j < |s| ==> Leq(names, s[i], s[j])
  }

  /** No entry of a heap comes after its root. */
  lemma {:induction false} RootLast(s: seq<nat>, names: seq<Name>, end: nat, i: nat)
    requires i < end <= |s| && Distinct(s, names) && Heap(s, names, 0, end)
    ensures Leq(names, s[i], s[0])
  {
    hide Leq;
    if i == 0 {
      Total(names, s[0], s[0]);
    } else {
      RootLast(s, names, end, Up(i));
      LeqTrans(names, s[i], s[Up(i)], s[0]);
    }
  }

  /** Building: the parts of the array without children are heaps. */
  lemma LeavesHeap(s: seq<nat>, names: seq<Name>, n: nat, lo: nat)
    requires n <= |s| && 2 * lo + 1 >= n
    ensures Heap(s, names, lo, n)
  {
  }

  /** Opening a hole at start on top of a heap from start + 1. */
  lemma OpenHole(s: seq<nat>, names: seq<Name>, start: nat, n: nat)
    requires n <= |s| && start < n && Heap(s, names, start + 1, n)
    ensures HeapBut(s, names, start, n, start) && HoleOk(s, names, start, n, start)
  {
  }

  /** mz_zip_reader_sort_central_dir_offsets_by_filename. */
  method SortByName(a: array<nat>, names: seq<Name>)
    requires a.Length == |names| && Distinct(a[..], names)
    modifies a
    ensures Distinct(a[..], names) && SortedFrom(a[..], names, 0)
  {
    hide Leq, HeapBut, HoleOk, Heap;
    var size := a.Length;
    if size <= 1 {
      return;
    }
    var start := (size - 2) / 2;
    LeavesHeap(a[..], names, size, start + 1);
    var more := true;
    while more
      invariant 0 <= start && 2 * start + 2 <= size && Distinct(a[..], names)
      invariant if more then Heap(a[..], names, start + 1, size) else start == 0 && Heap(a[..], names, 0, size)
      decreases start, more
    {
      OpenHole(a[..], names, start, size);
      SiftDown(a, names, start, start, size, |names|);
      if start == 0 {
        more := false;
      } else {
        start := start - 1;
      }
    }
    var end := size - 1;
    NothingSorted(a[..], names);
    while end > 0
      invariant 0 <= end < size && Distinct(a[..], names) && Heap(a[..], names, 0, end + 1)
      invariant SortedFrom(a[..], names, end + 1)
      invariant forall i, j :: 0 <= i <= end < j < size ==> Leq(names, a[i], a[j])
    {
      end := TakeLast(a, names, end);
    }
    JoinSorted(a[..], names);
  }

  lemma NothingSorted(s: seq<nat>, names: seq<Name>)
    ensures SortedFrom(s, names, |s|)
  {
  }

  lemma JoinSorted(s: seq<nat>, names: seq<Name>)
    requires |s| > 0 && SortedFrom(s, names, 1) && forall j :: 0 < j < |s| ==> Leq(names, s[0], s[j])
    ensures SortedFrom(s, names, 0)
  {
  }

  /** The last entry of the heap moves behind it, and the heap shrinks by one. */
  method TakeLast(a: array<nat>, names: seq<Name>, end: nat) returns (end': nat)
    requires a.Length == |names| && Distinct(a[..], names) && 0 < end < a.Length && Heap(a[..], names, 0, end + 1)
    requires SortedFrom(a[..], names, end + 1)
    requires forall i, j :: 0 <= i <= end < j < a.Length ==> Leq(names, a[i], a[j])
    modifies a
    ensures end' == end - 1 && Distinct(a[..], names) && Heap(a[..], names, 0, end' + 1)
    ensures SortedFrom(a[..], names, end' + 1)
    ensures forall i, j :: 0 <= i <= end' < j < a.Length ==> Leq(names, a[i], a[j])
  {
    hide Leq, HeapBut, HoleOk;
    forall i | 0 <= i <= end
      ensures Leq(names, a[i], a[0])
    {
      RootLast(a[..], names, end + 1, i);
    }
    ghost var was := a[..];
    a[end], a[0] := a[0], a[end];
    assert a[..] == was[end := was[0]][0 := was[end]];
    OpenHole(a[..], names, 0, end);
    SiftDown(a, names, 0, 0, end, a[end]);
    end' := end - 1;
    forall i, j | 0 <= i <= end' < j < a.Length
      ensures Leq(names, a[i], a[j])
    {
      if j > end {
        LeqTrans(names, a[i], a[end], a[j]);
      }
    }
  }

  // ---- Looking a name up.

  /** Every entry has its place in the index. */
  lemma Everyone(s: seq<nat>, names: seq<Name>, k: nat)
    requires Distinct(s, names) && |s| == |names| && k < |names|
    ensures k in s
  {
    if k !in s {
      var ids := seq(|s|, i requires 0 <= i < |s| => if s[i] < k then s[i] else s[i] - 1);
      Pigeonhole(ids, |names| - 1);
    }
  }

  /** mz_zip_locate_file_binary_search. */
  method BinarySearch(a: array<nat>, names: seq<Name>, name: Name) returns (found: bool, index: nat)
    requires a.Length == |names| && Distinct(a[..], names) && SortedFrom(a[..], names, 0)
    ensures found ==> index < |names| && Same(names[index], name)
    ensures !found ==> forall k :: 0 <= k < |names| ==> !Same(names[k], name)
  {
    hide Same, Order, SortedFrom;
    found, index := false, 0;
    if a.Length > 0 {
      var l, h := 0, a.Length - 1;
      while l <= h
        invariant 0 <= l <= a.Length && -1 <= h < a.Length
        invariant forall i :: 0 <= i < l ==> Order(names[a[i]], name) < 0
        invariant forall i :: h < i < a.Length ==> Order(names[a[i]], name) > 0
        decreases h - l + 1
      {
        var m := l + (h - l) / 2;
        var fileIndex := a[m];
        var comp := Compare(names[fileIndex], name);
        OrderSame(names[fileIndex], name);
        if comp == 0 {
          return true, fileIndex;
        } else if comp < 0 {
          BelowMid(a[..], names, name, m);
          l := m + 1;
        } else {
          AboveMid(a[..], names, name, m);
          h := m - 1;
        }
      }
    }
    NotThere(a[..], names, name);
  }

  lemma BelowMid(s: seq<nat>, names: seq<Name>, name: Name, m: nat)
    requires Distinct(s, names) && SortedFrom(s, names, 0) && m < |s| && Order(names[s[m]], name) < 0
    ensures forall i :: 0 <= i <= m ==> Order(names[s[i]], name) < 0
  {
    hide Order;
    forall i | 0 <= i < m
      ensures Order(names[s[i]], name) < 0
    {
      OrderTrans(names[s[i]], names[s[m]], name);
    }
  }

  lemma AboveMid(s: seq<nat>, names: seq<Name>, name: Name, m: nat)
    requires Distinct(s, names) && SortedFrom(s, names, 0) && m < |s| && Order(names[s[m]], name) > 0
    ensures forall i :: m <= i < |s| ==> Order(names[s[i]], name) > 0
  {
    hide Order;
    forall i | m < i < |s|
      ensures Order(names[s[i]], name) > 0
    {
      OrderSwap(name, names[s[m]]);
      OrderTrans(name, names[s[m]], names[s[i]]);
      OrderSwap(name, names[s[i]]);
    }
  }

  lemma NotThere(s: seq<nat>, names: seq<Name>, name: Name)
    requires Distinct(s, names) && |s| == |names| && forall i :: 0 <= i < |s| ==> Order(names[s[i]], name) != 0
    ensures forall k :: 0 <= k < |names| ==> !Same(names[k], name)
  {
    hide Order, Same;
    forall k | 0 <= k < |names|
      ensures !Same(names[k], name)
    {
      Everyone(s, names, k);
      OrderSame(names[k], name);
    }
  }

  /** The linear scan of mz_zip_reader_locate_file_v2, without a comment and without flags. */
  method LinearSearch(names: seq<Name>, name: Name) returns (found: bool, index: nat)
    ensures found ==> index < |names| && Same(names[index], name) && forall k :: 0 <= k < index ==>
        !Same(names[k], name)
    ensures !found ==> |name| > 65535 || forall k :: 0 <= k < |names| ==> !Same(names[k], name)
  {
    found, index := false, 0;
    if |name| > 65535 {
      return;
    }
    for i := 0 to |names|
      invariant forall k :: 0 <= k < i ==> !Same(names[k], name)
    {
      if |names[i]| >= |name| && |names[i]| == |name| {
        var eq := StringEqual(name, names[i]);
        if eq {
          return true, i;
        }
      }
    }
  }

  /** Index and scan agree: both find an entry of that name or neither does. */
  method IndexAgrees(names: seq<Name>, name: Name) returns (sorted: bool, scanned: bool)
    requires forall k :: 0 <= k < |names| ==> |names[k]| <= 65535
    ensures sorted == scanned == exists k :: 0 <= k < |names| && Same(names[k], name)
  {
    var a := new nat[|names|](i => i);
    var i, j;
    SortByName(a, names);
    sorted, i := BinarySearch(a, names, name);
    scanned, j := LinearSearch(names, name);
  }
}
