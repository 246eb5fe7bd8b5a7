/**
 * `performReorder` (content.js:428-496) and `moveUnpinnedEmailToOriginalPosition`
 * (content.js:316-346) on the children of the inbox container, modelled as a list of
 * distinct nodes. `insertBefore(node, ref)` takes `node` out and puts it back right
 * before `ref`.
 */
module Reorder {
  import opened Optional
  import opened JsString
  import opened Seqs
  import opened PinList

  /**
   * A child of the container: its identity, its `data-pin-email-id` tag, whether it
   * holds a `.gmail-pin-button`, and whether it has Gmail's `zA` row class.
   */
  datatype Node = Node(handle: nat, pinTag: Option<string>, hasPinButton: bool, hasRowClass: bool)

  /** The email-row test of content.js:434-438. */
  predicate IsEmailRow(n: Node) {
    Truthy(n.pinTag) || n.hasPinButton || n.hasRowClass
  }

  /** The node carries a non-empty tag, and that id is pinned. */
  predicate IsPinnedNode(pins: seq<PinnedEmail>, n: Node) {
    Truthy(n.pinTag) && IsPinned(pins, n.pinTag.value)
  }

  function EmailRow(): Node -> bool {
    n => IsEmailRow(n)
  }

  function PinnedNode(pins: seq<PinnedEmail>): Node -> bool {
    n => IsPinnedNode(pins, n)
  }

  function UnpinnedNode(pins: seq<PinnedEmail>): Node -> bool {
    n => !IsPinnedNode(pins, n)
  }

  /**
   * The sort key of content.js:451-457: the index of the record carrying the node's tag,
   * or -1 when the node has no tag or no record carries it.
   */
  function PinIndex(pins: seq<PinnedEmail>, n: Node): (r: int)
    ensures IsPinnedNode(pins, n) ==> 0 <= r < |pins|
    ensures IsPinnedNode(pins, n) ==>
              && pins[r].id == n.pinTag.value
              && forall j :: 0 <= j < r ==> pins[j].id != n.pinTag.value
    ensures n.pinTag.None? || !IsPinned(pins, n.pinTag.value) ==> r == -1
  {
    if n.pinTag.Some? then IndexOf(pins, n.pinTag.value) else -1
  }

  function PinOrder(pins: seq<PinnedEmail>): Node -> int {
    n => PinIndex(pins, n)
  }

  predicate StrictlyAscending(pins: seq<PinnedEmail>, s: seq<Node>) {
    forall a, b :: 0 <= a < b < |s| ==> PinIndex(pins, s[a]) < PinIndex(pins, s[b])
  }

  /**
   * Whether the scan at content.js:467-485 stops at `child` while placing `p`: it is
   * another node that is either not pinned or pinned later than `p`.
   */
  predicate Stops(pins: seq<PinnedEmail>, p: Node, child: Node) {
    child != p && (!IsPinnedNode(pins, child) || PinIndex(pins, child) > PinIndex(pins, p))
  }

  function FindFrom(pins: seq<PinnedEmail>, snapshot: seq<Node>, p: Node, from: nat): (r: Option<nat>)
    requires from <= |snapshot|
    ensures r.Some? ==> from <= r.value < |snapshot| && Stops(pins, p, snapshot[r.value])
    ensures r.Some? ==> forall j :: from <= j < r.value ==> !Stops(pins, p, snapshot[j])
    ensures r.None? ==> forall j :: from <= j < |snapshot| ==> !Stops(pins, p, snapshot[j])
    decreases |snapshot| - from
  {
    if from == |snapshot| then None
    else if Stops(pins, p, snapshot[from]) then Some(from)
    else FindFrom(pins, snapshot, p, from + 1)
  }

  /**
   * The reference node the scan finds for `p` (content.js:464-485). It reads the list
   * `allRows` taken before any move (content.js:433), not the container's current order.
   */
  function FindInsertionPoint(pins: seq<PinnedEmail>, snapshot: seq<Node>, p: Node): (r: Option<nat>)
    ensures r.Some? ==> r.value < |snapshot| && Stops(pins, p, snapshot[r.value])
    ensures r.Some? ==> forall j :: 0 <= j < r.value ==> !Stops(pins, p, snapshot[j])
    ensures r.None? ==> forall j :: 0 <= j < |snapshot| ==> !Stops(pins, p, snapshot[j])
  {
    FindFrom(pins, snapshot, p, 0)
  }

  /**
   * One iteration of the loop at content.js:460-492 for the pinned row `p`: put it
   * before the reference node if the scan found one, else at the front. The tests
   * that `p` and the reference node are still in the container always hold here.
   */
  function MoveRow(pins: seq<PinnedEmail>, snapshot: seq<Node>, cur: seq<Node>, p: Node): (r: seq<Node>)
    requires multiset(cur) == multiset(snapshot) && p in snapshot
    ensures multiset(r) == multiset(cur)
  {
    assert p in multiset(cur);
    match FindInsertionPoint(pins, snapshot, p)
    case Some(k) =>
      assert snapshot[k] in multiset(cur);
      MoveBefore(cur, p, snapshot[k])
    case None => if cur[0] != p then MoveToFront(cur, p) else cur
  }

  /**
   * The children once the loop of content.js:460-492 has placed `sorted[i..]`, last
   * row first.
   */
  function Placed(pins: seq<PinnedEmail>, snapshot: seq<Node>, sorted: seq<Node>, i: nat): (r: seq<Node>)
    requires i <= |sorted|
    requires forall m :: 0 <= m < |sorted| ==> sorted[m] in snapshot
    ensures multiset(r) == multiset(snapshot)
    decreases |sorted| - i
  {
    if i == |sorted| then snapshot
    else MoveRow(pins, snapshot, Placed(pins, snapshot, sorted, i + 1), sorted[i])
  }

  /**
   * The pinned email rows, sorted by pin index (content.js:434-457). Every pinned node
   * carries a tag, so it passes the email-row test and the first filter keeps it.
   */
  function SortedPinnedRows(pins: seq<PinnedEmail>, children: seq<Node>): (r: seq<Node>)
    ensures r == SortBy(PinOrder(pins), Filter(PinnedNode(pins), children))
    ensures SortedBy(PinOrder(pins), r)
    ensures multiset(r) == multiset(Filter(PinnedNode(pins), children))
  {
    var emailRows := Filter(EmailRow(), children);
    FilterAfterWeaker(PinnedNode(pins), EmailRow(), children);
    SortBy(PinOrder(pins), Filter(PinnedNode(pins), emailRows))
  }

  /** One whole `performReorder` pass, as a function of the children it starts from. */
  function ReorderPass(pins: seq<PinnedEmail>, children: seq<Node>): (r: seq<Node>)
  {
    var sorted := SortedPinnedRows(pins, children);
    SortedPinnedRowsMembers(pins, children);
    Placed(pins, children, sorted, 0)
  }

  /** The rows the sort returns are pinned children. */
  lemma SortedPinnedRowsMembers(pins: seq<PinnedEmail>, children: seq<Node>)
    ensures var r := SortedPinnedRows(pins, children);
            forall m :: 0 <= m < |r| ==> r[m] in children && IsPinnedNode(pins, r[m])
  {
    var r := SortedPinnedRows(pins, children);
    var f := Filter(PinnedNode(pins), children);
    forall m | 0 <= m < |r| ensures r[m] in children && IsPinnedNode(pins, r[m]) {
      assert r[m] in multiset(f);
      var k := IndexIn(f, r[m]);
      assert f[k] == r[m] && r[m] in f;
    }
  }

  /** Every node of `done` in `cur` stands before every node of `cur` that is not pinned. */
  predicate PinnedAhead(pins: seq<PinnedEmail>, cur: seq<Node>, done: seq<Node>) {
    forall x, y :: x in done && x in cur && y in cur && !IsPinnedNode(pins, y) ==>
      IndexIn(cur, x) < IndexIn(cur, y)
  }

  /** What the loop of content.js:460-492 knows about the sorted pinned rows of `s`. */
  predicate PinnedRowsOf(pins: seq<PinnedEmail>, s: seq<Node>, sorted: seq<Node>) {
    && SortedBy(PinOrder(pins), sorted)
    && multiset(sorted) == multiset(Filter(PinnedNode(pins), s))
    && forall m :: 0 <= m < |sorted| ==> sorted[m] in s && IsPinnedNode(pins, sorted[m])
  }

  /**
   * The reference node the scan finds for `sorted[i - 1]` stands at or before every node
   * that is not pinned: either it is the first such node, or it is a pinned row placed
   * by an earlier iteration.
   */
  lemma RefBeforeUnpinned(pins: seq<PinnedEmail>, s: seq<Node>, sorted: seq<Node>, i: nat,
                          cur: seq<Node>, k: nat)
    requires PinnedRowsOf(pins, s, sorted) && 0 < i <= |sorted|
    requires Distinct(cur) && multiset(cur) == multiset(s)
    requires Filter(UnpinnedNode(pins), cur) == Filter(UnpinnedNode(pins), s)
    requires PinnedAhead(pins, cur, sorted[i..])
    requires FindInsertionPoint(pins, s, sorted[i - 1]) == Some(k)
    ensures s[k] in cur
    ensures forall y :: y in cur && !IsPinnedNode(pins, y) ==> IndexIn(cur, s[k]) <= IndexIn(cur, y)
  {
    var c := s[k];
    assert c in cur by { assert c in multiset(cur); }
    if IsPinnedNode(pins, c) {
      PinnedRefPlacedEarlier(pins, s, sorted, i, cur, k);
    } else {
      UnpinnedRefIsFirst(pins, s, sorted[i - 1], cur, k);
    }
  }

  /** A pinned reference node is pinned later than `sorted[i - 1]`, so it was placed earlier. */
  lemma PinnedRefPlacedEarlier(pins: seq<PinnedEmail>, s: seq<Node>, sorted: seq<Node>, i: nat,
                               cur: seq<Node>, k: nat)
    requires PinnedRowsOf(pins, s, sorted) && 0 < i <= |sorted|
    requires PinnedAhead(pins, cur, sorted[i..])
    requires k < |s| && Stops(pins, sorted[i - 1], s[k]) && IsPinnedNode(pins, s[k]) && s[k] in cur
    ensures forall y :: y in cur && !IsPinnedNode(pins, y) ==> IndexIn(cur, s[k]) <= IndexIn(cur, y)
  {
    var c := s[k];
    PinnedInSorted(pins, s, sorted, c);
    var m := IndexIn(sorted, c);
    assert PinOrder(pins)(sorted[i - 1]) < PinOrder(pins)(sorted[m]);
    SortedKeyOrder(PinOrder(pins), sorted, i - 1, m);
    InSuffix(sorted, i, m);
  }

  /** Every pinned child appears among the sorted pinned rows. */
  lemma PinnedInSorted(pins: seq<PinnedEmail>, s: seq<Node>, sorted: seq<Node>, x: Node)
    requires PinnedRowsOf(pins, s, sorted)
    requires x in s && IsPinnedNode(pins, x)
    ensures x in sorted
  {
    assert x in Filter(PinnedNode(pins), s);
    assert x in multiset(sorted);
  }

  /**
   * A reference node that is not pinned is the first such node of the snapshot, and so of
   * any order with the same unpinned nodes in the same order.
   */
  lemma UnpinnedRefIsFirst(pins: seq<PinnedEmail>, s: seq<Node>, p: Node, cur: seq<Node>, k: nat)
    requires Distinct(cur) && Filter(UnpinnedNode(pins), cur) == Filter(UnpinnedNode(pins), s)
    requires IsPinnedNode(pins, p) && k < |s| && !IsPinnedNode(pins, s[k]) && s[k] in cur
    requires forall j :: 0 <= j < k ==> !Stops(pins, p, s[j])
    ensures forall y :: y in cur && !IsPinnedNode(pins, y) ==> IndexIn(cur, s[k]) <= IndexIn(cur, y)
  {
    var u := UnpinnedNode(pins);
    forall j | 0 <= j < k ensures !u(s[j]) {
      assert !Stops(pins, p, s[j]);
    }
    FilterHead(u, s, k);
    var kc := IndexIn(cur, s[k]);
    FilterHeadIsFirst(u, cur, kc);
    forall y | y in cur && !IsPinnedNode(pins, y) ensures kc <= IndexIn(cur, y) {
      assert u(cur[IndexIn(cur, y)]);
    }
  }

  /**
   * One iteration of the loop keeps the children distinct, keeps the order of the
   * nodes that are not pinned, and adds `sorted[i - 1]` to the rows that stand ahead
   * of all of them.
   */
  lemma MoveRowStep(pins: seq<PinnedEmail>, s: seq<Node>, sorted: seq<Node>, i: nat, cur: seq<Node>)
    requires PinnedRowsOf(pins, s, sorted) && 0 < i <= |sorted|
    requires Distinct(cur) && multiset(cur) == multiset(s)
    requires Filter(UnpinnedNode(pins), cur) == Filter(UnpinnedNode(pins), s)
    requires PinnedAhead(pins, cur, sorted[i..])
    ensures var r := MoveRow(pins, s, cur, sorted[i - 1]);
            && Distinct(r)
            && Filter(UnpinnedNode(pins), r) == Filter(UnpinnedNode(pins), s)
            && PinnedAhead(pins, r, sorted[i - 1..])
  {
    var p := sorted[i - 1];
    assert p in cur by { assert p in multiset(cur); }
    SuffixCons(sorted, i);
    match FindInsertionPoint(pins, s, p)
    case Some(k) =>
      RefBeforeUnpinned(pins, s, sorted, i, cur, k);
      assert MoveRow(pins, s, cur, p) == MoveBefore(cur, p, s[k]);
      MoveBeforeRef(pins, cur, sorted[i..], p, s[k]);
    case None =>
      NoStopAllPinned(pins, s, p, cur);
      MoveToFrontAllPinned(pins, cur, sorted[i..], p);
  }

  /** When the scan for the pinned row `p` finds nothing, every node is pinned. */
  lemma NoStopAllPinned(pins: seq<PinnedEmail>, s: seq<Node>, p: Node, cur: seq<Node>)
    requires multiset(cur) == multiset(s) && IsPinnedNode(pins, p)
    requires FindInsertionPoint(pins, s, p).None?
    ensures forall y :: y in cur ==> IsPinnedNode(pins, y)
  {
    forall y | y in cur ensures IsPinnedNode(pins, y) {
      assert y in multiset(s);
      assert !Stops(pins, p, s[IndexIn(s, y)]);
    }
  }

  /**
   * Putting the pinned row `p` right before `c`, which stands at or before every node
   * that is not pinned, keeps the unpinned nodes in order and puts `p` ahead of them too.
   */
  lemma MoveBeforeRef(pins: seq<PinnedEmail>, cur: seq<Node>, done: seq<Node>, p: Node, c: Node)
    requires Distinct(cur) && p in cur && c in cur && p != c && IsPinnedNode(pins, p)
    requires PinnedAhead(pins, cur, done)
    requires forall y :: y in cur && !IsPinnedNode(pins, y) ==> IndexIn(cur, c) <= IndexIn(cur, y)
    ensures var r := MoveBefore(cur, p, c);
            && Distinct(r)
            && Filter(UnpinnedNode(pins), r) == Filter(UnpinnedNode(pins), cur)
            && PinnedAhead(pins, r, [p] + done)
  {
    var r := MoveBefore(cur, p, c);
    MoveBeforeOrder(cur, p, c);
    FilterMoveBefore(UnpinnedNode(pins), cur, p, c);
    SameMembers(r, cur);
    forall x, y | x in [p] + done && x in r && y in r && !IsPinnedNode(pins, y)
      ensures IndexIn(r, x) < IndexIn(r, y)
    {
      MoveBeforeRefPair(pins, cur, done, p, c, x, y);
    }
  }

  /** One pair of `MoveBeforeRef`: a placed row `x` and a node `y` that is not pinned. */
  lemma MoveBeforeRefPair(pins: seq<PinnedEmail>, cur: seq<Node>, done: seq<Node>, p: Node, c: Node,
                          x: Node, y: Node)
    requires Distinct(cur) && p in cur && c in cur && p != c && IsPinnedNode(pins, p)
    requires PinnedAhead(pins, cur, done)
    requires forall y :: y in cur && !IsPinnedNode(pins, y) ==> IndexIn(cur, c) <= IndexIn(cur, y)
    requires x in [p] + done && x in cur && y in cur && !IsPinnedNode(pins, y)
    requires x in MoveBefore(cur, p, c) && y in MoveBefore(cur, p, c)
    ensures IndexIn(MoveBefore(cur, p, c), x) < IndexIn(MoveBefore(cur, p, c), y)
  {
    var r := MoveBefore(cur, p, c);
    MoveBeforeOrder(cur, p, c);
    if y != c {
      assert IndexIn(cur, c) != IndexIn(cur, y) by {
        assert cur[IndexIn(cur, c)] == c && cur[IndexIn(cur, y)] == y;
      }
      assert IndexIn(r, c) < IndexIn(r, y);
    }
    if x != p {
      InCons(x, p, done);
    }
  }

  /**
   * When every node is pinned, moving the pinned row `p` to the front changes nothing
   * about the nodes that are not pinned.
   */
  lemma MoveToFrontAllPinned(pins: seq<PinnedEmail>, cur: seq<Node>, done: seq<Node>, p: Node)
    requires Distinct(cur) && p in cur && IsPinnedNode(pins, p)
    requires forall y :: y in cur ==> IsPinnedNode(pins, y)
    ensures var r := if cur[0] != p then MoveToFront(cur, p) else cur;
            && Distinct(r)
            && Filter(UnpinnedNode(pins), r) == Filter(UnpinnedNode(pins), cur)
            && PinnedAhead(pins, r, [p] + done)
  {
    if cur[0] != p {
      var r := MoveToFront(cur, p);
      MoveToFrontOrder(cur, p);
      FilterMoveToFront(UnpinnedNode(pins), cur, p);
      SameMembers(r, cur);
    }
  }

  /** Every pinned child stands before every child that is not pinned. */
  predicate PinnedFirst(pins: seq<PinnedEmail>, s: seq<Node>) {
    forall a, b :: 0 <= a < |s| && 0 <= b < |s| && IsPinnedNode(pins, s[a]) && !IsPinnedNode(pins, s[b]) ==> a < b
  }

  /** The sort returns nothing exactly when no child is pinned. */
  lemma NoPinnedRows(pins: seq<PinnedEmail>, children: seq<Node>)
    ensures SortedPinnedRows(pins, children) == [] <==>
              forall k :: 0 <= k < |children| ==> !IsPinnedNode(pins, children[k])
  {
    var sorted := SortedPinnedRows(pins, children);
    var f := Filter(PinnedNode(pins), children);
    assert |sorted| == |multiset(sorted)| == |multiset(f)| == |f|;
    if forall k :: 0 <= k < |children| ==> !IsPinnedNode(pins, children[k]) {
      FilterDropsAll(PinnedNode(pins), children);
    } else {
      var k :| 0 <= k < |children| && IsPinnedNode(pins, children[k]);
      assert children[k] in f;
    }
  }

  /** Once every sorted row stands ahead, every pinned child does. */
  lemma PinnedAheadAll(pins: seq<PinnedEmail>, children: seq<Node>, sorted: seq<Node>, r: seq<Node>)
    requires PinnedRowsOf(pins, children, sorted)
    requires Distinct(r) && multiset(r) == multiset(children)
    requires PinnedAhead(pins, r, sorted)
    ensures PinnedFirst(pins, r)
  {
    forall a, b | 0 <= a < |r| && 0 <= b < |r| && IsPinnedNode(pins, r[a]) && !IsPinnedNode(pins, r[b])
      ensures a < b
    {
      var x := r[a];
      assert x in multiset(children);
      assert x in Filter(PinnedNode(pins), children) by {
        assert children[IndexIn(children, x)] == x;
      }
      assert x in multiset(sorted);
      IndexInDistinct(r, a);
      IndexInDistinct(r, b);
    }
  }

  /**
   * The body of the loop at content.js:461-491 for the pinned row `p`: the scan over
   * the snapshot for the first child that ends the pinned block, then the move.
   */
  method PlacePinnedRow(pins: seq<PinnedEmail>, snapshot: seq<Node>, cur: seq<Node>, p: Node)
    returns (next: seq<Node>)
    requires multiset(cur) == multiset(snapshot) && p in snapshot
    ensures next == MoveRow(pins, snapshot, cur, p)
  {
    var found: Option<nat> := None;
    var j := 0;
    while j < |snapshot| && found.None?
      invariant 0 <= j <= |snapshot|
      invariant found.None? ==> FindFrom(pins, snapshot, p, j) == FindInsertionPoint(pins, snapshot, p)
      invariant found.Some? ==> found == FindInsertionPoint(pins, snapshot, p)
    {
      if Stops(pins, p, snapshot[j]) {
        found := Some(j);
      }
      j := j + 1;
    }
    assert p in cur by { assert p in multiset(cur); }
    match found {
      case Some(k) =>
        assert snapshot[k] in multiset(cur);
        next := MoveBefore(cur, p, snapshot[k]);
      case None =>
        next := if cur[0] != p then MoveToFront(cur, p) else cur;
    }
  }

  /** What holds after the loop has placed `sorted[i..]`. */
  predicate LoopInvariant(pins: seq<PinnedEmail>, s: seq<Node>, sorted: seq<Node>, i: nat, cur: seq<Node>) {
    && i <= |sorted|
    && PinnedRowsOf(pins, s, sorted)
    && Distinct(cur) && multiset(cur) == multiset(s)
    && Filter(UnpinnedNode(pins), cur) == Filter(UnpinnedNode(pins), s)
    && PinnedAhead(pins, cur, sorted[i..])
    && cur == Placed(pins, s, sorted, i)
  }

  /** Placing the next row keeps the loop invariant. */
  lemma LoopStep(pins: seq<PinnedEmail>, s: seq<Node>, sorted: seq<Node>, i: nat, cur: seq<Node>)
    requires LoopInvariant(pins, s, sorted, i, cur) && i > 0
    ensures LoopInvariant(pins, s, sorted, i - 1, MoveRow(pins, s, cur, sorted[i - 1]))
  {
    MoveRowStep(pins, s, sorted, i, cur);
  }

  /** Before the loop nothing has been placed. */
  lemma LoopStart(pins: seq<PinnedEmail>, children: seq<Node>)
    requires Distinct(children)
    ensures var sorted := SortedPinnedRows(pins, children);
            LoopInvariant(pins, children, sorted, |sorted|, children)
  {
    var sorted := SortedPinnedRows(pins, children);
    assert PinnedRowsOf(pins, children, sorted) by {
      SortedPinnedRowsMembers(pins, children);
    }
    assert PinnedAhead(pins, children, sorted[|sorted|..]) by {
      assert sorted[|sorted|..] == [];
    }
  }

  /** With no pinned child a pass leaves the children as they are. */
  lemma NoPinnedPass(pins: seq<PinnedEmail>, children: seq<Node>)
    requires SortedPinnedRows(pins, children) == []
    ensures ReorderPass(pins, children) == children
    ensures PinnedFirst(pins, children)
  {
    NoPinnedRows(pins, children);
  }

  /** What the finished loop gives: the properties `performReorder` promises. */
  lemma LoopDone(pins: seq<PinnedEmail>, children: seq<Node>, sorted: seq<Node>, r: seq<Node>)
    requires sorted == SortedPinnedRows(pins, children)
    requires LoopInvariant(pins, children, sorted, 0, r)
    ensures r == ReorderPass(pins, children)
    ensures multiset(r) == multiset(children)
    ensures Filter(UnpinnedNode(pins), r) == Filter(UnpinnedNode(pins), children)
    ensures PinnedFirst(pins, r)
  {
    assert sorted[0..] == sorted;
    PinnedAheadAll(pins, children, sorted, r);
  }

  /** The loop of content.js:460-492: place each sorted row, last one first. */
  method PlaceAll(pins: seq<PinnedEmail>, children: seq<Node>, sorted: seq<Node>) returns (result: seq<Node>)
    requires LoopInvariant(pins, children, sorted, |sorted|, children)
    ensures LoopInvariant(pins, children, sorted, 0, result)
  {
    var cur := children;
    var i := |sorted|;
    while i > 0
      invariant 0 <= i <= |sorted|
      invariant LoopInvariant(pins, children, sorted, i, cur)
    {
      LoopStep(pins, children, sorted, i, cur);
      var next := PlacePinnedRow(pins, children, cur, sorted[i - 1]);
      cur, i := next, i - 1;
    }
    result := cur;
  }

  /**
   * `performReorder` (content.js:428-496) on the children of the container. Only
   * pinned rows move, every pinned row ends up ahead of every other child, and the
   * other children keep their order; with no pinned row nothing changes.
   */
  method PerformReorder(pins: seq<PinnedEmail>, children: seq<Node>) returns (result: seq<Node>)
    requires Distinct(children)
    ensures result == ReorderPass(pins, children)
    ensures multiset(result) == multiset(children)
    ensures Filter(UnpinnedNode(pins), result) == Filter(UnpinnedNode(pins), children)
    ensures PinnedFirst(pins, result)
    ensures (forall k :: 0 <= k < |children| ==> !IsPinnedNode(pins, children[k])) ==> result == children
  {
    var sorted := SortedPinnedRows(pins, children);
    NoPinnedRows(pins, children);
    if |sorted| == 0 {
      NoPinnedPass(pins, children);
      return children;
    }
    LoopStart(pins, children);
    result := PlaceAll(pins, children, sorted);
    LoopDone(pins, children, sorted, result);
  }

  /**
   * The first `k` children are the pinned ones, in strictly ascending pin index; the
   * rest are not pinned.
   */
  predicate AscendingPinnedPrefix(pins: seq<PinnedEmail>, s: seq<Node>, k: nat) {
    && k <= |s|
    && (forall j :: 0 <= j < k ==> IsPinnedNode(pins, s[j]))
    && (forall j :: k <= j < |s| ==> !IsPinnedNode(pins, s[j]))
    && StrictlyAscending(pins, s[..k])
  }

  /** For an ascending pinned prefix the pinned children are that prefix. */
  lemma PrefixPinned(pins: seq<PinnedEmail>, s: seq<Node>, k: nat)
    requires AscendingPinnedPrefix(pins, s, k)
    ensures Filter(PinnedNode(pins), s) == s[..k]
  {
    var a, b := s[..k], s[k..];
    TakeDrop(s, k);
    FilterConcat(PinnedNode(pins), a, b);
    FilterKeepsAll(PinnedNode(pins), a);
    FilterDropsAll(PinnedNode(pins), b);
  }

  /** For an ascending pinned prefix the sorted pinned rows are that prefix. */
  lemma PrefixSorted(pins: seq<PinnedEmail>, s: seq<Node>, k: nat)
    requires AscendingPinnedPrefix(pins, s, k)
    ensures SortedPinnedRows(pins, s) == s[..k]
  {
    PrefixPinned(pins, s, k);
    var key := PinOrder(pins);
    var a := s[..k];
    assert SortedBy(key, a);
    SortSorted(key, a);
  }

  /**
   * The children while the loop runs over an ascending pinned prefix: unchanged when
   * some child is not pinned, else the last rows placed rotated to the front.
   */
  function PrefixState(s: seq<Node>, k: nat, i: nat): (r: seq<Node>)
    requires i <= k <= |s|
    ensures multiset(r) == multiset(s)
  {
    if k < |s| then s
    else
      assert s == s[..i] + s[i..];
      s[i..] + s[..i]
  }

  /** The scan for the prefix row `s[i]` stops at the child right after it. */
  lemma PrefixScan(pins: seq<PinnedEmail>, s: seq<Node>, k: nat, i: nat)
    requires AscendingPinnedPrefix(pins, s, k) && Distinct(s) && i < k
    ensures FindInsertionPoint(pins, s, s[i]) == if i + 1 < |s| then Some(i + 1) else None
  {
    var p := s[i];
    forall j | 0 <= j < i ensures !Stops(pins, p, s[j]) {
      assert s[..k][j] == s[j] && s[..k][i] == s[i];
    }
    if i + 1 < |s| {
      assert Stops(pins, p, s[i + 1]) by {
        if i + 1 < k {
          assert s[..k][i] == s[i] && s[..k][i + 1] == s[i + 1];
        }
      }
    }
  }

  /** With a child that is not pinned, `s[i]` is moved before `s[i + 1]`, where it stands. */
  lemma MoveBeforeNext(s: seq<Node>, i: nat)
    requires Distinct(s) && i + 1 < |s|
    ensures MoveBefore(s, s[i], s[i + 1]) == s
  {
    IndexInDistinct(s, i);
    IndexAfterRemove(s, i, s[i + 1]);
    MoveInPlace(s, i);
  }

  /** When every child is pinned, `s[i]` goes from the back of the rotation to its front. */
  lemma MoveBeforeRotated(s: seq<Node>, i: nat)
    requires Distinct(s) && i + 1 < |s|
    ensures var cur := s[i + 1..] + s[..i + 1];
            s[i] in cur && s[i + 1] in cur && MoveBefore(cur, s[i], s[i + 1]) == s[i..] + s[..i]
  {
    var a, b, x := s[i + 1..], s[..i], s[i];
    SplitAround(s, i);
    ConcatAssoc(a, b, [x]);
    RotatePermutes(b + [x], a);
    PermutationDistinct(a + b + [x], s);
    MoveLastBeforeFirst(a, b, x);
  }

  /** The last of several children, all pinned, is moved to the front. */
  lemma MoveLastToFront(s: seq<Node>)
    requires Distinct(s) && |s| > 1
    ensures MoveToFront(s, s[|s| - 1]) == s[|s| - 1..] + s[..|s| - 1]
  {
    var n := |s|;
    IndexInDistinct(s, n - 1);
    assert RemoveAt(s, n - 1) == s[..n - 1];
  }

  /** Placing the prefix row `s[i]` takes the loop from one prefix state to the next. */
  lemma PrefixStep(pins: seq<PinnedEmail>, s: seq<Node>, k: nat, i: nat)
    requires AscendingPinnedPrefix(pins, s, k) && Distinct(s) && i < k
    ensures MoveRow(pins, s, PrefixState(s, k, i + 1), s[i]) == PrefixState(s, k, i)
  {
    PrefixScan(pins, s, k, i);
    if k < |s| {
      MoveBeforeNext(s, i);
    } else if i + 1 < |s| {
      MoveBeforeRotated(s, i);
    } else {
      assert PrefixState(s, k, i + 1) == s;
      if |s| > 1 {
        MoveLastToFront(s);
      } else {
        assert s[i..] + s[..i] == s;
      }
    }
  }

  /** The loop over an ascending pinned prefix passes through the prefix states. */
  lemma {:induction false} PlacedPrefix(pins: seq<PinnedEmail>, s: seq<Node>, k: nat, i: nat)
    requires AscendingPinnedPrefix(pins, s, k) && Distinct(s) && i <= k
    ensures forall m :: 0 <= m < |s[..k]| ==> s[..k][m] in s
    ensures Placed(pins, s, s[..k], i) == PrefixState(s, k, i)
    decreases k - i
  {
    if i < k {
      PlacedPrefix(pins, s, k, i + 1);
      PrefixStep(pins, s, k, i);
    } else if k == |s| {
      assert s[k..] + s[..k] == s;
    }
  }

  /**
   * If the pinned rows already form a prefix of the children in strictly ascending pin
   * index, a pass leaves the order as it is.
   */
  lemma AscendingPrefixUnchanged(pins: seq<PinnedEmail>, s: seq<Node>, k: nat)
    requires AscendingPinnedPrefix(pins, s, k) && Distinct(s)
    ensures ReorderPass(pins, s) == s
  {
    PrefixSorted(pins, s, k);
    PlacedPrefix(pins, s, k, 0);
    assert s[0..] + s[..0] == s;
  }

  /**
   * A corrected pass: the sorted pinned rows, last one first, each moved to the front
   * of the container (the fallback branch at content.js:488-490, taken every time).
   */
  function ReorderPassFixed(pins: seq<PinnedEmail>, children: seq<Node>): (r: seq<Node>)
    ensures multiset(r) == multiset(children)
  {
    var sorted := SortedPinnedRows(pins, children);
    SortedPinnedRowsMembers(pins, children);
    MoveAllToFront(children, sorted, 0)
  }

  /**
   * The corrected pass is a stable partition: the pinned rows in pin order, then every
   * other child in its original order.
   */
  lemma ReorderPassFixedPartition(pins: seq<PinnedEmail>, s: seq<Node>)
    requires Distinct(s)
    ensures ReorderPassFixed(pins, s) == SortedPinnedRows(pins, s) + Filter(UnpinnedNode(pins), s)
  {
    var sorted := SortedPinnedRows(pins, s);
    SortedPinnedRowsMembers(pins, s);
    PermutationDistinct(sorted, s);
    MoveAllToFrontShape(s, sorted, 0);
    assert sorted[0..] == sorted;
    forall k | 0 <= k < |s| ensures NotIn(sorted)(s[k]) == UnpinnedNode(pins)(s[k]) {
      if IsPinnedNode(pins, s[k]) {
        assert s[k] in s;
        assert s[k] in Filter(PinnedNode(pins), s);
        assert s[k] in multiset(sorted);
      }
    }
    FilterCongruent(NotIn(sorted), UnpinnedNode(pins), s);
  }

  /** Pinned rows in pin order followed by rows that are not pinned split back into the two. */
  lemma SplitPartition(pins: seq<PinnedEmail>, sorted: seq<Node>, rest: seq<Node>)
    requires SortedBy(PinOrder(pins), sorted)
    requires forall m :: 0 <= m < |sorted| ==> IsPinnedNode(pins, sorted[m])
    requires forall m :: 0 <= m < |rest| ==> !IsPinnedNode(pins, rest[m])
    ensures SortedPinnedRows(pins, sorted + rest) == sorted
    ensures Filter(UnpinnedNode(pins), sorted + rest) == rest
  {
    SplitPinned(pins, sorted, rest);
    SortSorted(PinOrder(pins), sorted);
    SplitUnpinned(pins, sorted, rest);
  }

  /** The pinned nodes of pinned rows followed by unpinned ones are the pinned rows. */
  lemma SplitPinned(pins: seq<PinnedEmail>, sorted: seq<Node>, rest: seq<Node>)
    requires forall m :: 0 <= m < |sorted| ==> IsPinnedNode(pins, sorted[m])
    requires forall m :: 0 <= m < |rest| ==> !IsPinnedNode(pins, rest[m])
    ensures Filter(PinnedNode(pins), sorted + rest) == sorted
  {
    FilterConcat(PinnedNode(pins), sorted, rest);
    FilterKeepsAll(PinnedNode(pins), sorted);
    FilterDropsAll(PinnedNode(pins), rest);
  }

  /** The unpinned nodes of pinned rows followed by unpinned ones are the latter. */
  lemma SplitUnpinned(pins: seq<PinnedEmail>, sorted: seq<Node>, rest: seq<Node>)
    requires forall m :: 0 <= m < |sorted| ==> IsPinnedNode(pins, sorted[m])
    requires forall m :: 0 <= m < |rest| ==> !IsPinnedNode(pins, rest[m])
    ensures Filter(UnpinnedNode(pins), sorted + rest) == rest
  {
    FilterConcat(UnpinnedNode(pins), sorted, rest);
    FilterDropsAll(UnpinnedNode(pins), sorted);
    FilterKeepsAll(UnpinnedNode(pins), rest);
    assert [] + rest == rest;
  }

  /** A second corrected pass with no change in between moves nothing. */
  lemma ReorderPassFixedIdempotent(pins: seq<PinnedEmail>, s: seq<Node>)
    requires Distinct(s)
    ensures ReorderPassFixed(pins, ReorderPassFixed(pins, s)) == ReorderPassFixed(pins, s)
  {
    var r := ReorderPassFixed(pins, s);
    var sorted := SortedPinnedRows(pins, s);
    var rest := Filter(UnpinnedNode(pins), s);
    ReorderPassFixedPartition(pins, s);
    SortedPinnedRowsMembers(pins, s);
    assert forall m :: 0 <= m < |rest| ==> rest[m] in rest;
    SplitPartition(pins, sorted, rest);
    PermutationDistinct(r, s);
    ReorderPassFixedPartition(pins, r);
  }

  /** The example rows: five tagged email rows, of which "b" and "d" are pinned, "b" first. */
  const ExamplePins: seq<PinnedEmail> := [PinnedEmail("b", "", "", 0), PinnedEmail("d", "", "", 0)]
  const RowA: Node := Node(0, Some("a"), true, true)
  const RowB: Node := Node(1, Some("b"), true, true)
  const RowC: Node := Node(2, Some("c"), true, true)
  const RowD: Node := Node(3, Some("d"), true, true)
  const RowE: Node := Node(4, Some("e"), true, true)

  /**
   * The shape of the example: five distinct rows a, b, c, d, e where b and d are pinned,
   * b earlier in the pin list than d, and a, c, e are not pinned.
   */
  predicate ExampleShape(pins: seq<PinnedEmail>, a: Node, b: Node, c: Node, d: Node, e: Node) {
    && Distinct([a, b, c, d, e])
    && IsPinnedNode(pins, b) && IsPinnedNode(pins, d)
    && PinIndex(pins, b) < PinIndex(pins, d)
    && !IsPinnedNode(pins, a) && !IsPinnedNode(pins, c) && !IsPinnedNode(pins, e)
  }

  /** The nested concatenations `Filter5` yields on the example, flattened. */
  lemma ExampleConcats<T>(a: T, b: T, c: T, d: T, e: T)
    ensures [] + ([b] + ([] + ([d] + []))) == [b, d]
    ensures [d] + ([b] + ([] + ([] + []))) == [d, b]
    ensures [a] + ([] + ([c] + ([] + [e]))) == [a, c, e]
    ensures [b, d] + [a, c, e] == [b, d, a, c, e]
  {
  }

  /** The pinned rows of the example, in document order. */
  lemma ExamplePinned(pins: seq<PinnedEmail>, a: Node, b: Node, c: Node, d: Node, e: Node)
    requires ExampleShape(pins, a, b, c, d, e)
    ensures Filter(PinnedNode(pins), [a, b, c, d, e]) == [b, d]
    ensures Filter(PinnedNode(pins), [d, b, a, c, e]) == [d, b]
  {
    var p := PinnedNode(pins);
    assert Keep(p, a) == [] && Keep(p, b) == [b] && Keep(p, c) == [] && Keep(p, d) == [d] && Keep(p, e) == [];
    ExampleConcats(a, b, c, d, e);
    Filter5(p, a, b, c, d, e);
    Filter5(p, d, b, a, c, e);
  }

  /** The rows of the example that are not pinned, in document order. */
  lemma ExampleUnpinned(pins: seq<PinnedEmail>, a: Node, b: Node, c: Node, d: Node, e: Node)
    requires ExampleShape(pins, a, b, c, d, e)
    ensures Filter(UnpinnedNode(pins), [a, b, c, d, e]) == [a, c, e]
  {
    var u := UnpinnedNode(pins);
    assert Keep(u, a) == [a] && Keep(u, b) == [] && Keep(u, c) == [c] && Keep(u, d) == [] && Keep(u, e) == [e];
    ExampleConcats(a, b, c, d, e);
    Filter5(u, a, b, c, d, e);
  }

  /** The example's pinned rows sorted by pin index, from either order. */
  lemma ExampleSortedRows(pins: seq<PinnedEmail>, a: Node, b: Node, c: Node, d: Node, e: Node)
    requires ExampleShape(pins, a, b, c, d, e)
    ensures SortedPinnedRows(pins, [a, b, c, d, e]) == [b, d]
    ensures SortedPinnedRows(pins, [d, b, a, c, e]) == [b, d]
  {
    ExamplePinned(pins, a, b, c, d, e);
    SortPair(PinOrder(pins), b, d);
  }

  /** The scan stops at the first node of the snapshot it may stop at. */
  lemma {:induction false} FindFromAt(pins: seq<PinnedEmail>, snapshot: seq<Node>, p: Node, from: nat, k: nat)
    requires from <= k < |snapshot| && Stops(pins, p, snapshot[k])
    requires forall j :: from <= j < k ==> !Stops(pins, p, snapshot[j])
    ensures FindFrom(pins, snapshot, p, from) == Some(k)
    decreases k - from
  {
    if from < k {
      FindFromAt(pins, snapshot, p, from + 1, k);
    }
  }

  /** A pass with two pinned rows `x`, `y` in pin order: `y` is placed first, then `x`. */
  lemma PlacedPair(pins: seq<PinnedEmail>, snapshot: seq<Node>, x: Node, y: Node, kx: nat, ky: nat)
    requires x in snapshot && y in snapshot
    requires FindInsertionPoint(pins, snapshot, y) == Some(ky)
    requires FindInsertionPoint(pins, snapshot, x) == Some(kx)
    ensures y in snapshot && snapshot[ky] in snapshot && y != snapshot[ky]
    ensures var s1 := MoveBefore(snapshot, y, snapshot[ky]);
            && x in s1 && snapshot[kx] in s1 && x != snapshot[kx]
            && Placed(pins, snapshot, [x, y], 0) == MoveBefore(s1, x, snapshot[kx])
  {
    var sorted := [x, y];
    assert Placed(pins, snapshot, sorted, 2) == snapshot;
    var s1 := Placed(pins, snapshot, sorted, 1);
    assert s1 == MoveBefore(snapshot, y, snapshot[ky]);
    assert x in multiset(s1) && snapshot[kx] in multiset(s1);
  }

  /** Where the scans of both passes over the example stop. */
  lemma ExampleScans(pins: seq<PinnedEmail>, a: Node, b: Node, c: Node, d: Node, e: Node)
    requires ExampleShape(pins, a, b, c, d, e)
    ensures FindInsertionPoint(pins, [a, b, c, d, e], d) == Some(0)
    ensures FindInsertionPoint(pins, [a, b, c, d, e], b) == Some(0)
    ensures FindInsertionPoint(pins, [d, b, a, c, e], d) == Some(2)
    ensures FindInsertionPoint(pins, [d, b, a, c, e], b) == Some(0)
    ensures [a, b, c, d, e][0] == a && b in [a, b, c, d, e] && d in [a, b, c, d, e]
    ensures [d, b, a, c, e][0] == d && [d, b, a, c, e][2] == a
    ensures b in [d, b, a, c, e] && d in [d, b, a, c, e]
  {
    assert Distinct([a, b, c, d, e]);
    var s := [a, b, c, d, e];
    assert s[0] == a && s[1] == b && s[3] == d;
    assert b in s && d in s;
    FindFromAt(pins, s, d, 0, 0);
    FindFromAt(pins, s, b, 0, 0);
    var t := [d, b, a, c, e];
    assert t[0] == d && t[1] == b && t[2] == a;
    assert b in t && d in t;
    FindFromAt(pins, t, d, 0, 2);
    FindFromAt(pins, t, b, 0, 0);
  }

  /** The example's lists, cut where its moves take and put rows. */
  lemma ExampleSplits<T>(a: T, b: T, c: T, d: T, e: T)
    ensures [a, b, c, d, e] == [] + [a] + [b, c] + [d] + [e]
    ensures [] + [d] + [a] + [b, c] + [e] == [d, a, b, c, e]
    ensures [d, a, b, c, e] == [d] + [a] + [] + [b] + [c, e]
    ensures [d] + [b] + [a] + [] + [c, e] == [d, b, a, c, e]
    ensures [d, b, a, c, e] == [] + [d] + [b] + [a] + [c, e]
    ensures [] + [b] + [d] + [a] + [c, e] == [b, d, a, c, e]
    ensures [b, d, a, c, e] == [] + [b] + [] + [d] + [a, c, e]
    ensures [] + [] + [b] + [d] + [a, c, e] == [b, d, a, c, e]
  {
  }

  /** The lists the first pass produces have distinct elements when the example does. */
  lemma ExampleDistinct<T>(a: T, b: T, c: T, d: T, e: T)
    requires Distinct([a, b, c, d, e])
    ensures Distinct([d, b, a, c, e])
  {
    var s := [a, b, c, d, e];
    assert s[0] == a && s[1] == b && s[2] == c && s[3] == d && s[4] == e;
    assert a != b && a != c && a != d && a != e && b != c && b != d && b != e && c != d && c != e && d != e;
  }

  /** The moves of the first pass over the example, as list operations. */
  lemma ExampleFirstMoves<T>(a: T, b: T, c: T, d: T, e: T)
    requires Distinct([a, b, c, d, e])
    ensures d in [a, b, c, d, e] && a in [a, b, c, d, e] && d != a
    ensures MoveBefore([a, b, c, d, e], d, a) == [d, a, b, c, e]
    ensures b in [d, a, b, c, e] && a in [d, a, b, c, e] && b != a
    ensures MoveBefore([d, a, b, c, e], b, a) == [d, b, a, c, e]
    ensures Distinct([d, b, a, c, e])
  {
    ExampleSplits(a, b, c, d, e);
    var s := [a, b, c, d, e];
    MoveBeforeBackward([], a, [b, c], d, [e]);
    var s1 := MoveBefore(s, d, a);
    PermutationDistinct(s1, s);
    MoveBeforeBackward([d], a, [], b, [c, e]);
    var s2 := MoveBefore(s1, b, a);
    PermutationDistinct(s2, s1);
  }

  /** The moves of the second pass over the example, as list operations. */
  lemma ExampleSecondMoves<T>(a: T, b: T, c: T, d: T, e: T)
    requires Distinct([a, b, c, d, e])
    ensures d in [d, b, a, c, e] && a in [d, b, a, c, e] && d != a
    ensures MoveBefore([d, b, a, c, e], d, a) == [b, d, a, c, e]
    ensures b in [b, d, a, c, e] && d in [b, d, a, c, e] && b != d
    ensures MoveBefore([b, d, a, c, e], b, d) == [b, d, a, c, e]
  {
    ExampleSplits(a, b, c, d, e);
    var s := [d, b, a, c, e];
    ExampleDistinct(a, b, c, d, e);
    MoveBeforeForward([], d, [b], a, [c, e]);
    var s1 := MoveBefore(s, d, a);
    PermutationDistinct(s1, s);
    MoveBeforeForward([], b, [], d, [a, c, e]);
  }

  /**
   * One pass over a, b, c, d, e puts d, then b, before a, the first row that is not
   * pinned, and so ends out of pin order.
   */
  lemma ExampleFirstPass(pins: seq<PinnedEmail>, a: Node, b: Node, c: Node, d: Node, e: Node)
    requires ExampleShape(pins, a, b, c, d, e)
    ensures ReorderPass(pins, [a, b, c, d, e]) == [d, b, a, c, e]
  {
    var s := [a, b, c, d, e];
    ExampleSortedRows(pins, a, b, c, d, e);
    ExampleScans(pins, a, b, c, d, e);
    PlacedPair(pins, s, b, d, 0, 0);
    ExampleFirstMoves(a, b, c, d, e);
  }

  /** A second pass over the result of the first puts the pinned rows in pin order. */
  lemma ExampleSecondPass(pins: seq<PinnedEmail>, a: Node, b: Node, c: Node, d: Node, e: Node)
    requires ExampleShape(pins, a, b, c, d, e)
    ensures ReorderPass(pins, [d, b, a, c, e]) == [b, d, a, c, e]
  {
    var s := [d, b, a, c, e];
    ExampleSortedRows(pins, a, b, c, d, e);
    ExampleScans(pins, a, b, c, d, e);
    PlacedPair(pins, s, b, d, 0, 2);
    ExampleSecondMoves(a, b, c, d, e);
  }

  /**
   * A pass as written is not idempotent: on the example a second pass still moves rows,
   * although nothing changed in between.
   */
  lemma ReorderPassNotIdempotent(pins: seq<PinnedEmail>, a: Node, b: Node, c: Node, d: Node, e: Node)
    requires ExampleShape(pins, a, b, c, d, e)
    ensures var s := [a, b, c, d, e];
            ReorderPass(pins, ReorderPass(pins, s)) != ReorderPass(pins, s)
  {
    ExampleFirstPass(pins, a, b, c, d, e);
    ExampleSecondPass(pins, a, b, c, d, e);
    assert [b, d, a, c, e][0] != [d, b, a, c, e][0];
  }

  /** The corrected pass gives b, d, a, c, e in one go. */
  lemma ExampleFixedPass(pins: seq<PinnedEmail>, a: Node, b: Node, c: Node, d: Node, e: Node)
    requires ExampleShape(pins, a, b, c, d, e)
    ensures ReorderPassFixed(pins, [a, b, c, d, e]) == [b, d, a, c, e]
  {
    ReorderPassFixedPartition(pins, [a, b, c, d, e]);
    ExampleSortedRows(pins, a, b, c, d, e);
    ExampleUnpinned(pins, a, b, c, d, e);
    ExampleConcats(a, b, c, d, e);
  }

  /** The example rows exist: the five rows above have the example's shape. */
  lemma ExampleExists()
    ensures ExampleShape(ExamplePins, RowA, RowB, RowC, RowD, RowE)
  {
    assert ExamplePins[1..] == [PinnedEmail("d", "", "", 0)];
    assert ExamplePins[1..][1..] == [];
    assert "a" != "b" && "a" != "d" && "c" != "b" && "c" != "d" && "e" != "b" && "e" != "d" && "d" != "b";
  }

  /** The filter of content.js:322-326: pinned rows other than `row`. */
  function OtherPinnedNode(pins: seq<PinnedEmail>, row: Node): Node -> bool {
    n => n != row && IsPinnedNode(pins, n)
  }

  /** Every node but `row`. */
  function NotRow(row: Node): Node -> bool {
    n => n != row
  }

  /**
   * The last of the other pinned rows once sorted by pin index (content.js:321-335):
   * none when there is no other pinned row, else one with the greatest pin index.
   */
  function LastOtherPinned(pins: seq<PinnedEmail>, children: seq<Node>, row: Node): (r: Option<Node>)
    ensures r.None? <==> forall k :: 0 <= k < |children| ==> !OtherPinnedNode(pins, row)(children[k])
    ensures r.Some? ==> r.value in children && r.value != row && IsPinnedNode(pins, r.value)
    ensures r.Some? ==> forall n :: n in children && n != row && IsPinnedNode(pins, n) ==>
                          PinIndex(pins, n) <= PinIndex(pins, r.value)
  {
    var p := OtherPinnedNode(pins, row);
    var others := Filter(p, children);
    assert forall k :: 0 <= k < |children| ==> children[k] in children;
    if others == [] then None
    else
      var sorted := SortBy(PinOrder(pins), others);
      var last := sorted[|sorted| - 1];
      assert last in multiset(others);
      assert forall n :: n in children && p(n) ==> PinIndex(pins, n) <= PinIndex(pins, last) by {
        forall n | n in children && p(n)
          ensures PinIndex(pins, n) <= PinIndex(pins, last)
        {
          assert n in multiset(sorted);
          SortedLastIsMax(PinOrder(pins), sorted, n);
        }
      }
      Some(last)
  }

  /**
   * The move at content.js:336-340 once the last other pinned row is `children[k]`:
   * `row` goes before that row's next sibling, or to the end when there is none.
   * `insertBefore(row, row)` leaves `row` where it is, since the DOM then inserts
   * before the reference node's own next sibling.
   */
  function PlaceAfter(children: seq<Node>, row: Node, k: nat): (r: seq<Node>)
    requires row in children && k < |children|
    ensures multiset(r) == multiset(children)
  {
    if k + 1 < |children| then
      if children[k + 1] == row then children else MoveBefore(children, row, children[k + 1])
    else MoveToBack(children, row)
  }

  /** The move puts `row` directly after `children[k]` and keeps the other children in order. */
  lemma PlaceAfterAdjacent(children: seq<Node>, row: Node, k: nat)
    requires Distinct(children) && row in children && k < |children| && children[k] != row
    ensures Adjacent(PlaceAfter(children, row, k), children[k], row)
    ensures Filter(NotRow(row), PlaceAfter(children, row, k)) == Filter(NotRow(row), children)
  {
    if k + 1 < |children| {
      if children[k + 1] != row {
        MoveBeforeSuccessor(children, row, k);
        FilterMoveBefore(NotRow(row), children, row, children[k + 1]);
      }
    } else {
      MoveToBackAfterLast(children, row);
      FilterMoveToBack(NotRow(row), children, row);
    }
  }

  /**
   * `moveUnpinnedEmailToOriginalPosition(row)` (content.js:316-346) on the container's
   * children: nothing happens unless `row` is a child and another pinned row exists;
   * then `row` is placed after the last such row.
   */
  function MoveUnpinnedToOriginalPosition(pins: seq<PinnedEmail>, children: seq<Node>, row: Node): (r: seq<Node>)
    ensures multiset(r) == multiset(children)
  {
    if row !in children then children
    else match LastOtherPinned(pins, children, row)
      case None => children
      case Some(last) => PlaceAfter(children, row, IndexIn(children, last))
  }

  /**
   * With no other pinned row, or `row` not a child, the children stay as they are;
   * otherwise `row` ends up directly after the other pinned row with the greatest pin
   * index. Every other child keeps its relative order.
   */
  lemma MoveUnpinnedPlacement(pins: seq<PinnedEmail>, children: seq<Node>, row: Node)
    requires Distinct(children)
    ensures var r := MoveUnpinnedToOriginalPosition(pins, children, row);
            && Distinct(r)
            && Filter(NotRow(row), r) == Filter(NotRow(row), children)
            && (row !in children || LastOtherPinned(pins, children, row).None? ==> r == children)
            && (row in children && LastOtherPinned(pins, children, row).Some? ==>
                  Adjacent(r, LastOtherPinned(pins, children, row).value, row))
  {
    var r := MoveUnpinnedToOriginalPosition(pins, children, row);
    PermutationDistinct(r, children);
    if row in children && LastOtherPinned(pins, children, row).Some? {
      var last := LastOtherPinned(pins, children, row).value;
      var k := IndexIn(children, last);
      assert r == PlaceAfter(children, row, k);
      PlaceAfterAdjacent(children, row, k);
    }
  }
}
