/**
 * atb_DLinkedList: an intrusive, circular, doubly linked list. Every node
 * carries a `next` and a `prev` link; a list is a ring of nodes through a
 * head node that holds no entry.
 *
 * Nodes are numbered 0 .. count - 1 (a node's number stands for its
 * address), and the links of all nodes live in two arrays. The operations
 * are proved against specification functions on the value `Links`, and the
 * ring properties are lemmas about those functions.
 */
module LinkedList {

  /** The next and prev links of every node. */
  datatype Links = Links(next: seq<nat>, prev: seq<nat>) {
    /** Every link names a node. */
    predicate Valid() {
      |next| == |prev| &&
      (forall x :: 0 <= x < |next| ==> next[x] < |next|) &&
      (forall x :: 0 <= x < |prev| ==> prev[x] < |next|)
    }

    predicate Node(x: nat) { x < |next| && x < |prev| }

    /** A node alone in its ring, as atb_DLinkedList_Init leaves it. */
    predicate SelfLinked(x: nat)
      requires Node(x)
    {
      next[x] == x && prev[x] == x
    }

    /** x.next.prev == x and x.prev.next == x for every node x. */
    predicate Consistent()
      requires Valid()
    {
      (forall x :: 0 <= x < |next| ==> prev[next[x]] == x) &&
      (forall x :: 0 <= x < |prev| ==> next[prev[x]] == x)
    }

    /**
     * The nodes of `ring` are distinct and form one ring: each one's next is
     * the following one, the last one's next is the first, and prev goes the
     * opposite way.
     */
    predicate IsRing(ring: seq<nat>)
      requires Valid()
    {
      |ring| > 0 &&
      (forall i :: 0 <= i < |ring| ==> ring[i] < |next|) &&
      Distinct(ring) &&
      (forall i :: 0 <= i < |ring| - 1 ==> next[ring[i]] == ring[i + 1] && prev[ring[i + 1]] == ring[i]) &&
      next[ring[|ring| - 1]] == ring[0] && prev[ring[0]] == ring[|ring| - 1]
    }
  }

  /** No node occurs twice in s. */
  predicate Distinct(s: seq<nat>) {
    forall j :: 0 <= j < |s| ==> s[j] !in s[..j]
  }

  /** Two positions of a sequence of distinct nodes hold different nodes. */
  lemma Differ(s: seq<nat>, i: nat, j: nat)
    requires Distinct(s) && i < |s| && j < |s| && i != j
    ensures s[i] != s[j]
  {
    if i < j {
      assert s[..j][i] == s[i];
    } else {
      assert s[..i][j] == s[j];
    }
  }

  /** Putting a new node into a sequence of distinct nodes keeps them distinct. */
  lemma DistinctInsert(s: seq<nat>, k: nat, n: nat)
    requires Distinct(s) && k <= |s| && n !in s
    ensures Distinct(s[..k] + [n] + s[k..])
  {
    var t := s[..k] + [n] + s[k..];
    forall j | 0 <= j < |t| ensures t[j] !in t[..j] {
      if j < k {
        assert t[..j] == s[..j];
      } else if j == k {
        assert t[..j] == s[..k];
      } else {
        assert t[..j] == s[..k] + [n] + s[k..j - 1];
        assert s[..j - 1] == s[..k] + s[k..j - 1];
        assert t[j] == s[j - 1];
      }
    }
  }

  /** Taking a node out of a sequence of distinct nodes keeps them distinct. */
  lemma DistinctRemove(s: seq<nat>, k: nat)
    requires Distinct(s) && k < |s|
    ensures Distinct(s[..k] + s[k + 1..])
  {
    var t := s[..k] + s[k + 1..];
    forall j | 0 <= j < |t| ensures t[j] !in t[..j] {
      if j < k {
        assert t[..j] == s[..j];
      } else {
        assert t[..j] == s[..k] + s[k + 1..j + 1];
        assert s[..j + 1] == s[..k] + [s[k]] + s[k + 1..j + 1];
        assert t[j] == s[j + 1];
      }
    }
  }

  /** atb_DLinkedList_Init: x links to itself both ways. */
  function InitSpec(l: Links, x: nat): (r: Links)
    requires l.Valid() && l.Node(x)
    ensures r.Valid()
  {
    Links(l.next[x := x], l.prev[x := x])
  }

  /** atb_DLinkedList_Connect: first.next = second, then second.prev = first. */
  function ConnectSpec(l: Links, first: nat, second: nat): (r: Links)
    requires l.Valid() && l.Node(first) && l.Node(second)
    ensures r.Valid()
  {
    Links(l.next[first := second], l.prev[second := first])
  }

  /** atb_DLinkedList_InsertAfter: Connect(n, node.next), then Connect(node, n). */
  function InsertAfterSpec(l: Links, node: nat, n: nat): (r: Links)
    requires l.Valid() && l.Node(node) && l.Node(n)
    ensures r.Valid()
  {
    ConnectSpec(ConnectSpec(l, n, l.next[node]), node, n)
  }

  /** atb_DLinkedList_InsertBefore: Connect(node.prev, n), then Connect(n, node). */
  function InsertBeforeSpec(l: Links, node: nat, n: nat): (r: Links)
    requires l.Valid() && l.Node(node) && l.Node(n)
    ensures r.Valid()
  {
    ConnectSpec(ConnectSpec(l, l.prev[node], n), n, node)
  }

  /** atb_DLinkedList_Pop: Connect(n.prev, n.next), then Init(n). */
  function PopSpec(l: Links, n: nat): (r: Links)
    requires l.Valid() && l.Node(n)
    ensures r.Valid()
  {
    InitSpec(ConnectSpec(l, l.prev[n], l.next[n]), n)
  }

  /** The sequence s backwards. */
  function Reverse(s: seq<nat>): (r: seq<nat>)
    ensures |r| == |s|
    ensures forall i :: 0 <= i < |s| ==> r[i] == s[|s| - 1 - i]
  {
    if s == [] then [] else Reverse(s[1..]) + [s[0]]
  }

  /** A node just initialised is a ring of one. */
  lemma InitIsRing(l: Links, x: nat)
    requires l.Valid() && l.Node(x)
    ensures InitSpec(l, x).SelfLinked(x) && InitSpec(l, x).IsRing([x])
  {
  }

  /**
   * InsertAfter makes n the next of node and the prev of node's old next,
   * gives n node's old next, and changes no other link, provided n is not
   * node and not already node's next.
   */
  lemma InsertAfterLinks(l: Links, node: nat, n: nat)
    requires l.Valid() && l.Node(node) && l.Node(n) && node != n && l.next[node] != n
    ensures var r := InsertAfterSpec(l, node, n);
      r.next[node] == n && r.prev[n] == node && r.next[n] == l.next[node] && r.prev[l.next[node]] == n
    ensures var r := InsertAfterSpec(l, node, n);
      (forall x :: 0 <= x < |l.next| && x != node && x != n ==> r.next[x] == l.next[x]) &&
      (forall x :: 0 <= x < |l.prev| && x != n && x != l.next[node] ==> r.prev[x] == l.prev[x])
  {
  }

  /**
   * InsertBefore makes n the prev of node and the next of node's old prev,
   * gives n node's old prev, and changes no other link, provided n is not
   * node and not already node's prev.
   */
  lemma InsertBeforeLinks(l: Links, node: nat, n: nat)
    requires l.Valid() && l.Node(node) && l.Node(n) && node != n && l.prev[node] != n
    ensures var r := InsertBeforeSpec(l, node, n);
      r.prev[node] == n && r.next[n] == node && r.prev[n] == l.prev[node] && r.next[l.prev[node]] == n
    ensures var r := InsertBeforeSpec(l, node, n);
      (forall x :: 0 <= x < |l.next| && x != n && x != l.prev[node] ==> r.next[x] == l.next[x]) &&
      (forall x :: 0 <= x < |l.prev| && x != node && x != n ==> r.prev[x] == l.prev[x])
  {
  }

  /**
   * Pop joins n's old neighbours to each other and leaves n self-linked; on a
   * self-linked node it changes nothing.
   */
  lemma PopLinks(l: Links, n: nat)
    requires l.Valid() && l.Node(n)
    ensures var r := PopSpec(l, n);
      r.SelfLinked(n) &&
      (l.prev[n] != n ==> r.next[l.prev[n]] == l.next[n]) &&
      (l.next[n] != n ==> r.prev[l.next[n]] == l.prev[n])
    ensures l.SelfLinked(n) ==> PopSpec(l, n) == l
  {
    if l.SelfLinked(n) {
      assert PopSpec(l, n).next == l.next;
      assert PopSpec(l, n).prev == l.prev;
    }
  }

  /** Inserting a self-linked node after another keeps every link consistent. */
  lemma InsertAfterKeepsConsistent(l: Links, node: nat, n: nat)
    requires l.Valid() && l.Consistent() && l.Node(node) && l.Node(n) && l.SelfLinked(n) && node != n
    ensures InsertAfterSpec(l, node, n).Consistent()
  {
    var r := InsertAfterSpec(l, node, n);
    var m := l.next[node];
    assert m != n by {
      assert l.prev[m] == node;
    }
    forall x | 0 <= x < |r.next|
      ensures r.prev[r.next[x]] == x
    {
      if x != node && x != n {
        assert l.prev[l.next[x]] == x;
      }
    }
    forall x | 0 <= x < |r.prev|
      ensures r.next[r.prev[x]] == x
    {
      if x != n && x != m {
        assert l.next[l.prev[x]] == x;
      }
    }
  }

  /** Inserting a self-linked node before another keeps every link consistent. */
  lemma InsertBeforeKeepsConsistent(l: Links, node: nat, n: nat)
    requires l.Valid() && l.Consistent() && l.Node(node) && l.Node(n) && l.SelfLinked(n) && node != n
    ensures InsertBeforeSpec(l, node, n).Consistent()
  {
    var r := InsertBeforeSpec(l, node, n);
    var p := l.prev[node];
    assert p != n by {
      assert l.next[p] == node;
    }
    forall x | 0 <= x < |r.next|
      ensures r.prev[r.next[x]] == x
    {
      if x != n && x != p {
        assert l.prev[l.next[x]] == x;
      }
    }
    forall x | 0 <= x < |r.prev|
      ensures r.next[r.prev[x]] == x
    {
      if x != node && x != n {
        assert l.next[l.prev[x]] == x;
      }
    }
  }

  /** Popping a node keeps every link consistent. */
  lemma PopKeepsConsistent(l: Links, n: nat)
    requires l.Valid() && l.Consistent() && l.Node(n)
    ensures PopSpec(l, n).Consistent()
  {
    var r := PopSpec(l, n);
    var p, m := l.prev[n], l.next[n];
    forall x | 0 <= x < |r.next|
      ensures r.prev[r.next[x]] == x
    {
      if x != n && x != p {
        assert l.prev[l.next[x]] == x;
      }
    }
    forall x | 0 <= x < |r.prev|
      ensures r.next[r.prev[x]] == x
    {
      if x != n && x != m {
        assert l.next[l.prev[x]] == x;
      }
    }
  }

  /** Inserting a node outside the ring after ring[k] puts it right after ring[k]. */
  lemma InsertAfterRing(l: Links, ring: seq<nat>, k: nat, n: nat)
    requires l.Valid() && l.IsRing(ring) && k < |ring| && l.Node(n) && n !in ring
    ensures InsertAfterSpec(l, ring[k], n).IsRing(ring[..k + 1] + [n] + ring[k + 1..])
  {
    var ring' := ring[..k + 1] + [n] + ring[k + 1..];
    DistinctInsert(ring, k + 1, n);
    forall i | 0 <= i < |ring'|
      ensures ring'[i] == (if i <= k then ring[i] else if i == k + 1 then n else ring[i - 1])
    {
    }
    InsertAfterRingAt(l, ring, k, n, ring');
  }

  /** InsertAfterRing, with the new ring described position by position. */
  lemma InsertAfterRingAt(l: Links, ring: seq<nat>, k: nat, n: nat, ring': seq<nat>)
    requires l.Valid() && l.IsRing(ring) && k < |ring| && l.Node(n) && n !in ring
    requires |ring'| == |ring| + 1 && Distinct(ring')
    requires forall i {:trigger ring'[i]} :: 0 <= i < |ring'| ==>
      ring'[i] == (if i <= k then ring[i] else if i == k + 1 then n else ring[i - 1])
    ensures InsertAfterSpec(l, ring[k], n).IsRing(ring')
  {
    var node := ring[k];
    var last := |ring| - 1;
    var m := l.next[node];
    var r := InsertAfterSpec(l, node, n);
    assert r.next == l.next[n := m][node := n] && r.prev == l.prev[m := n][n := node];
    assert m == if k < last then ring[k + 1] else ring[0];
    forall i | 0 <= i < |ring'| ensures ring'[i] < |r.next| {
      if i <= k {
        assert ring'[i] == ring[i];
      } else if i == k + 1 {
        assert ring'[i] == n;
      } else {
        assert ring'[i] == ring[i - 1];
      }
    }
    forall i | 0 <= i < |ring'| - 1
      ensures r.next[ring'[i]] == ring'[i + 1] && r.prev[ring'[i + 1]] == ring'[i]
    {
      if i < k {
        assert ring'[i] == ring[i] && ring'[i + 1] == ring[i + 1];
        InsertAfterRingKeepsLink(l, ring, k, n, i);
      } else if i > k + 1 {
        assert ring'[i] == ring[i - 1] && ring'[i + 1] == ring[i];
        InsertAfterRingKeepsLink(l, ring, k, n, i - 1);
      }
    }
    if k < last {
      Differ(ring, last, k);
      Differ(ring, 0, k + 1);
    }
  }

  /** Inserting after ring[k] keeps the link from ring[j] to ring[j + 1] for every other j. */
  lemma InsertAfterRingKeepsLink(l: Links, ring: seq<nat>, k: nat, n: nat, j: nat)
    requires l.Valid() && l.IsRing(ring) && k < |ring| && l.Node(n) && n !in ring
    requires j + 1 < |ring| && j != k
    ensures InsertAfterSpec(l, ring[k], n).next[ring[j]] == ring[j + 1]
    ensures InsertAfterSpec(l, ring[k], n).prev[ring[j + 1]] == ring[j]
  {
    var node, last := ring[k], |ring| - 1;
    var m := l.next[node];
    var r := InsertAfterSpec(l, node, n);
    assert r.next == l.next[n := m][node := n] && r.prev == l.prev[m := n][n := node];
    Differ(ring, j, k);
    if k < last {
      assert m == ring[k + 1];
      Differ(ring, j + 1, k + 1);
    } else {
      assert m == ring[0];
      Differ(ring, j + 1, 0);
    }
  }

  /** Inserting before a node is inserting after its predecessor. */
  lemma InsertBeforeIsInsertAfterPrev(l: Links, node: nat, n: nat)
    requires l.Valid() && l.Node(node) && l.Node(n)
    requires l.next[l.prev[node]] == node && n != node && n != l.prev[node]
    ensures InsertBeforeSpec(l, node, n) == InsertAfterSpec(l, l.prev[node], n)
  {
    var p := l.prev[node];
    assert InsertBeforeSpec(l, node, n).next == InsertAfterSpec(l, p, n).next;
    assert InsertBeforeSpec(l, node, n).prev == InsertAfterSpec(l, p, n).prev;
  }

  /**
   * Inserting a node outside the ring before ring[k] puts it right before
   * ring[k]; before the first node, it becomes the last one.
   */
  lemma InsertBeforeRing(l: Links, ring: seq<nat>, k: nat, n: nat)
    requires l.Valid() && l.IsRing(ring) && k < |ring| && l.Node(n) && n !in ring
    ensures InsertBeforeSpec(l, ring[k], n).IsRing(if k > 0 then ring[..k] + [n] + ring[k..] else ring + [n])
  {
    var j := if k > 0 then k - 1 else |ring| - 1;
    assert l.prev[ring[k]] == ring[j];
    InsertBeforeIsInsertAfterPrev(l, ring[k], n);
    InsertAfterRing(l, ring, j, n);
    if k == 0 {
      assert ring[..j + 1] + [n] + ring[j + 1..] == ring + [n];
    }
  }

  /** Popping ring[k] from a ring of two or more removes exactly that node. */
  lemma PopRing(l: Links, ring: seq<nat>, k: nat)
    requires l.Valid() && l.IsRing(ring) && k < |ring| && |ring| > 1
    ensures PopSpec(l, ring[k]).SelfLinked(ring[k])
    ensures PopSpec(l, ring[k]).IsRing(ring[..k] + ring[k + 1..])
  {
    var ring' := ring[..k] + ring[k + 1..];
    DistinctRemove(ring, k);
    forall i | 0 <= i < |ring'| ensures ring'[i] == (if i < k then ring[i] else ring[i + 1]) {
    }
    PopRingAt(l, ring, k, ring');
  }

  /** PopRing, with the remaining ring described position by position. */
  lemma PopRingAt(l: Links, ring: seq<nat>, k: nat, ring': seq<nat>)
    requires l.Valid() && l.IsRing(ring) && k < |ring| && |ring| > 1
    requires |ring'| == |ring| - 1 && Distinct(ring')
    requires forall i {:trigger ring'[i]} :: 0 <= i < |ring'| ==> ring'[i] == (if i < k then ring[i] else ring[i + 1])
    ensures PopSpec(l, ring[k]).SelfLinked(ring[k])
    ensures PopSpec(l, ring[k]).IsRing(ring')
  {
    var node := ring[k];
    var last := |ring| - 1;
    var p, m := l.prev[node], l.next[node];
    var r := PopSpec(l, node);
    assert r.next == l.next[p := m][node := node] && r.prev == l.prev[m := p][node := node];
    assert p == (if k > 0 then ring[k - 1] else ring[last]);
    assert m == (if k < last then ring[k + 1] else ring[0]);
    forall i | 0 <= i < |ring'| ensures ring'[i] < |r.next| {
      if i < k {
        assert ring'[i] == ring[i];
      } else {
        assert ring'[i] == ring[i + 1];
      }
    }
    forall i | 0 <= i < |ring'| - 1
      ensures r.next[ring'[i]] == ring'[i + 1] && r.prev[ring'[i + 1]] == ring'[i]
    {
      if i < k - 1 {
        assert ring'[i] == ring[i] && ring'[i + 1] == ring[i + 1];
        PopRingKeepsLink(l, ring, k, i);
      } else if i >= k {
        assert ring'[i] == ring[i + 1] && ring'[i + 1] == ring[i + 2];
        PopRingKeepsLink(l, ring, k, i + 1);
      }
    }
    if 0 < k < last {
      Differ(ring, last, k);
      Differ(ring, last, k - 1);
      Differ(ring, 0, k);
      Differ(ring, 0, k + 1);
    }
  }

  /** Popping ring[k] keeps the link from ring[j] to ring[j + 1] when neither is ring[k]. */
  lemma PopRingKeepsLink(l: Links, ring: seq<nat>, k: nat, j: nat)
    requires l.Valid() && l.IsRing(ring) && k < |ring| && |ring| > 1
    requires j + 1 < |ring| && j != k && j + 1 != k
    ensures PopSpec(l, ring[k]).next[ring[j]] == ring[j + 1]
    ensures PopSpec(l, ring[k]).prev[ring[j + 1]] == ring[j]
  {
    var node, last := ring[k], |ring| - 1;
    var p, m := l.prev[node], l.next[node];
    var r := PopSpec(l, node);
    assert r.next == l.next[p := m][node := node] && r.prev == l.prev[m := p][node := node];
    Differ(ring, j, k);
    Differ(ring, j + 1, k);
    if k > 0 {
      assert p == ring[k - 1];
      Differ(ring, j, k - 1);
    } else {
      assert p == ring[last];
      Differ(ring, j, last);
    }
    if k < last {
      assert m == ring[k + 1];
      Differ(ring, j + 1, k + 1);
    } else {
      assert m == ring[0];
      Differ(ring, j + 1, 0);
    }
  }

  /** The links of all the nodes, one entry per node. */
  class Nodes {
    const next: array<nat>
    const prev: array<nat>

    ghost function Model(): Links
      reads next, prev
    {
      Links(next[..], prev[..])
    }

    ghost predicate Valid()
      reads next, prev
    {
      next != prev && Model().Valid()
    }

    /** `count` nodes, each set up by atb_DLinkedList_HEAD_INITIALIZER. */
    constructor (count: nat)
      ensures Valid() && fresh(next) && fresh(prev) && next.Length == count
      ensures forall x :: 0 <= x < count ==> Model().SelfLinked(x)
    {
      next := new nat[count](x => x);
      prev := new nat[count](x => x);
    }

    /** atb_DLinkedList_Init. */
    method Init(x: nat)
      requires Valid() && x < next.Length
      modifies next, prev
      ensures Valid() && Model() == InitSpec(old(Model()), x)
    {
      next[x] := x;
      prev[x] := x;
    }

    /** atb_DLinkedList_Connect. */
    method Connect(first: nat, second: nat)
      requires Valid() && first < next.Length && second < next.Length
      modifies next, prev
      ensures Valid() && Model() == ConnectSpec(old(Model()), first, second)
    {
      next[first] := second;
      prev[second] := first;
    }

    /** atb_DLinkedList_InsertAfter. */
    method InsertAfter(node: nat, n: nat)
      requires Valid() && node < next.Length && n < next.Length
      modifies next, prev
      ensures Valid() && Model() == InsertAfterSpec(old(Model()), node, n)
    {
      Connect(n, next[node]);
      Connect(node, n);
    }

    /** atb_DLinkedList_InsertBefore. */
    method InsertBefore(node: nat, n: nat)
      requires Valid() && node < next.Length && n < next.Length
      modifies next, prev
      ensures Valid() && Model() == InsertBeforeSpec(old(Model()), node, n)
    {
      Connect(prev[node], n);
      Connect(n, node);
    }

    /** atb_DLinkedList_Pop. */
    method Pop(n: nat)
      requires Valid() && n < next.Length
      modifies next, prev
      ensures Valid() && Model() == PopSpec(old(Model()), n)
    {
      Connect(prev[n], next[n]);
      Init(n);
    }

    /** atb_DLinkedList_ForEach: the nodes visited following next from the head, the head excluded. */
    method ForEach(head: nat, ghost ring: seq<nat>) returns (visited: seq<nat>)
      requires Valid() && Model().IsRing(ring) && ring[0] == head
      ensures visited == ring[1..]
    {
      var node := next[head];
      visited := [];
      ghost var i := 1;
      while node != head
        invariant 1 <= i <= |ring|
        invariant node == (if i < |ring| then ring[i] else ring[0])
        invariant visited == ring[1..i]
        decreases |ring| - i
      {
        Differ(ring, i, 0);
        visited := visited + [node];
        node := next[node];
        i := i + 1;
      }
    }

    /** atb_DLinkedList_ForEachReverse: the nodes visited following prev from the head, the head excluded. */
    method ForEachReverse(head: nat, ghost ring: seq<nat>) returns (visited: seq<nat>)
      requires Valid() && Model().IsRing(ring) && ring[0] == head
      ensures visited == Reverse(ring[1..])
    {
      var node := prev[head];
      visited := [];
      ghost var i := |ring| - 1;
      while node != head
        invariant 0 <= i < |ring|
        invariant node == ring[i]
        invariant visited == Reverse(ring[i + 1..])
        decreases i
      {
        if i == 0 {
          assert false;
        }
        assert ring[i..] == [ring[i]] + ring[i + 1..];
        visited := visited + [node];
        node := prev[node];
        i := i - 1;
      }
    }
  }
}
