/** The singly linked list `LinkedList<T>` and its cells `Node<T>`.
    Every list keeps, as ghost state, the sequence of its nodes from the head
    on (`nodes`) and the sequence of the values they hold (`contents`);
    `Valid()` ties both to the real `head`, `size` and `next` links. */
module LinkedLists {
  import opened SeqSpec

  /** The two conditions the library signals with `std::range_error`. */
  datatype Error = EmptyList | NegativeNumber

  datatype Result<T> = Ok(value: T) | Err(error: Error)

  /** One storage cell: a value and the link to the following cell. */
  class Node<T> {
    var value: T
    var next: Node?<T>

    constructor (e: T)
      ensures value == e && next == null
    {
      value := e;
      next := null;
    }
  }

  /** Position `k` of `ns`; the distinctness facts below are stated on it so
      that they are only used where a proof asks for them. */
  ghost function At<T>(ns: seq<Node<T>>, k: int): Node<T>
    requires 0 <= k < |ns|
  {
    ns[k]
  }

  /** No node occurs twice in `ns`. */
  ghost predicate Distinct<T>(ns: seq<Node<T>>)
  {
    forall j, k {:trigger At(ns, j), At(ns, k)} :: 0 <= j < k < |ns| ==> At(ns, j) != At(ns, k)
  }

  lemma DistinctAt<T>(ns: seq<Node<T>>, j: int, k: int)
    requires Distinct(ns) && 0 <= j < |ns| && 0 <= k < |ns| && j != k
    ensures ns[j] != ns[k]
  {
    if j < k {
      assert At(ns, j) != At(ns, k);
    } else {
      assert At(ns, k) != At(ns, j);
    }
  }

  /** Every position other than `i` holds a node other than `ns[i]`. */
  lemma DistinctFrom<T>(ns: seq<Node<T>>, i: int)
    requires Distinct(ns) && 0 <= i < |ns|
    ensures forall k :: 0 <= k < |ns| && k != i ==> ns[k] != ns[i]
  {
    forall k | 0 <= k < |ns| && k != i
      ensures ns[k] != ns[i]
    {
      DistinctAt(ns, k, i);
    }
  }

  lemma DistinctCons<T>(v: Node<T>, ns: seq<Node<T>>)
    requires Distinct(ns) && v !in ns
    ensures Distinct([v] + ns)
  {
    var ms := [v] + ns;
    forall j, k | 0 <= j < k < |ms|
      ensures At(ms, j) != At(ms, k)
    {
      if j > 0 {
        DistinctAt(ns, j - 1, k - 1);
      }
    }
  }

  lemma DistinctSnoc<T>(ns: seq<Node<T>>, v: Node<T>)
    requires Distinct(ns) && v !in ns
    ensures Distinct(ns + [v])
  {
    var ms := ns + [v];
    forall j, k | 0 <= j < k < |ms|
      ensures At(ms, j) != At(ms, k)
    {
      if k < |ns| {
        DistinctAt(ns, j, k);
      }
    }
  }

  lemma DistinctTail<T>(ns: seq<Node<T>>)
    requires Distinct(ns) && ns != []
    ensures Distinct(ns[1..]) && ns[0] !in ns[1..]
  {
    var ms := ns[1..];
    forall j, k | 0 <= j < k < |ms|
      ensures At(ms, j) != At(ms, k)
    {
      DistinctAt(ns, j + 1, k + 1);
    }
    DistinctFrom(ns, 0);
  }

  lemma DistinctWithout<T>(ns: seq<Node<T>>, i: int)
    requires Distinct(ns) && 0 <= i < |ns|
    ensures Distinct(ns[..i] + ns[i + 1..])
  {
    var ms := ns[..i] + ns[i + 1..];
    forall j, k | 0 <= j < k < |ms|
      ensures At(ms, j) != At(ms, k)
    {
      DistinctAt(ns, if j < i then j else j + 1, if k < i then k else k + 1);
    }
  }

  lemma DistinctReversed<T>(ns: seq<Node<T>>)
    requires Distinct(ns)
    ensures Distinct(Reversed(ns))
  {
    var ms := Reversed(ns);
    forall j, k | 0 <= j < k < |ms|
      ensures At(ms, j) != At(ms, k)
    {
      ReversedAt(ns, j);
      ReversedAt(ns, k);
      DistinctAt(ns, |ns| - 1 - j, |ns| - 1 - k);
    }
  }

  /** The node that follows position `k` in a chain, `null` after the last one. */
  function NextOf<T>(ns: seq<Node<T>>, k: int): Node?<T>
  {
    if 0 <= k + 1 < |ns| then ns[k + 1] else null
  }

  /** The first node of a chain, `null` for the empty chain. */
  function HeadOf<T>(ns: seq<Node<T>>): Node?<T>
  {
    if ns == [] then null else ns[0]
  }

  /** `ns` is a null-terminated, acyclic chain: each node's `next` is the
      node after it, the last one's is `null`, and no node is shared. */
  ghost predicate IsChain<T>(ns: seq<Node<T>>)
    reads ns
  {
    Distinct(ns) && forall k {:trigger ns[k].next} :: 0 <= k < |ns| ==> ns[k].next == NextOf(ns, k)
  }

  /** A chain whose links all point one step back, ending at the first
      node, is the reversal of that sequence read as a chain. */
  lemma LinkedBackwards<T>(ns: seq<Node<T>>)
    requires |ns| >= 1 && Distinct(ns) && ns[0].next == null
    requires forall k {:trigger ns[k].next} :: 1 <= k < |ns| ==> ns[k].next == ns[k - 1]
    ensures IsChain(Reversed(ns)) && HeadOf(Reversed(ns)) == ns[|ns| - 1]
  {
    var n := |ns|;
    DistinctReversed(ns);
    forall k | 0 <= k < n
      ensures Reversed(ns)[k] == ns[n - 1 - k]
    {
      ReversedAt(ns, k);
    }
  }

  /** Reversing the nodes and the values together keeps node `k` holding value `k`. */
  lemma ReversedValues<T>(ns: seq<Node<T>>, vs: seq<T>)
    requires |ns| == |vs|
    requires forall k :: 0 <= k < |ns| ==> ns[k].value == vs[k]
    ensures forall k :: 0 <= k < |ns| ==> Reversed(ns)[k].value == Reversed(vs)[k]
  {
    forall k | 0 <= k < |ns|
      ensures Reversed(ns)[k].value == Reversed(vs)[k]
    {
      ReversedAt(ns, k);
      ReversedAt(vs, k);
    }
  }

  /** Cutting node `i` out of a chain, by pointing its predecessor at its
      successor, leaves the chain of the other nodes with their values. */
  lemma Unlinked<T>(ns: seq<Node<T>>, vs: seq<T>, i: nat, ms: seq<Node<T>>, ws: seq<T>)
    requires i < |ns| == |vs| && Distinct(ns)
    requires ms == ns[..i] + ns[i + 1..] && ws == vs[..i] + vs[i + 1..]
    requires forall k {:trigger ns[k].next} :: 0 <= k < |ns| && k + 1 != i ==> ns[k].next == NextOf(ns, k)
    requires 0 < i ==> ns[i - 1].next == NextOf(ns, i)
    requires forall k :: 0 <= k < |ns| ==> ns[k].value == vs[k]
    ensures IsChain(ms)
    ensures HeadOf(ms) == if i == 0 then NextOf(ns, 0) else ns[0]
    ensures forall k :: 0 <= k < |ms| ==> ms[k].value == ws[k]
  {
    DistinctWithout(ns, i);
    forall k | 0 <= k < |ms|
      ensures ms[k] == if k < i then ns[k] else ns[k + 1]
    {
    }
  }

  class LinkedList<T(==)> {
    var head: Node?<T>
    var size: nat
    ghost var contents: seq<T>
    ghost var nodes: seq<Node<T>>

    /** The structural invariant: `size` counts the nodes reachable from
        `head`, the chain ends in `null` without a cycle, and node `k`
        holds element `k` of `contents`. */
    ghost predicate Valid()
      reads this, nodes
    {
      IsChain(nodes) && head == HeadOf(nodes) &&
      size == |nodes| && |contents| == |nodes| &&
      forall k :: 0 <= k < |nodes| ==> nodes[k].value == contents[k]
    }

    constructor ()
      ensures Valid() && contents == [] && nodes == []
      ensures head == null && size == 0
    {
      head := null;
      size := 0;
      contents := [];
      nodes := [];
    }

    /** `empty()`: whether the head is null. */
    function Empty(): (b: bool)
      reads this, nodes
      requires Valid()
      ensures b <==> contents == []
      ensures b <==> size == 0
    {
      head == null
    }

    /** `front()`: the head's value, or the range error of an empty list. */
    function Front(): (r: Result<T>)
      reads this, nodes
      requires Valid()
      ensures r.Err? <==> contents == []
      ensures r.Err? ==> r.error == EmptyList
      ensures r.Ok? ==> r.value == contents[0]
    {
      if Empty() then Err(EmptyList) else Ok(head.value)
    }

    /** `size()`: the stored count, which is the length of the contents. */
    function Size(): (n: nat)
      reads this, nodes
      requires Valid()
      ensures n == |contents| == |nodes|
    {
      size
    }

    /** `addFront(e)`: a fresh node holding `e` becomes the head. */
    method AddFront(e: T)
      requires Valid()
      modifies this
      ensures Valid()
      ensures contents == [e] + old(contents) && size == old(size) + 1
      ensures fresh(head) && nodes == [head] + old(nodes)
      ensures Front() == Ok(e)
    {
      var v := new Node<T>(e);
      DistinctCons(v, nodes);
      v.next := head;
      head := v;
      size := size + 1;
      contents := [e] + contents;
      nodes := [v] + nodes;
    }

    /** `removeFront()`: drops the head node; a no-op on an empty list. */
    method RemoveFront()
      requires Valid()
      modifies this
      ensures Valid()
      ensures old(contents) == [] ==> unchanged(this)
      ensures old(contents) != [] ==>
        contents == old(contents)[1..] && nodes == old(nodes)[1..] &&
        size == old(size) - 1
    {
      if Empty() {
        return;
      }
      DistinctTail(nodes);
      var old_ := head;
      head := old_.next;
      size := size - 1;
      contents := contents[1..];
      nodes := nodes[1..];
    }

    /** The destructor's loop: `removeFront()` until `empty()`. */
    method Clear()
      requires Valid()
      modifies this
      ensures Valid() && contents == [] && nodes == []
      ensures head == null && size == 0
    {
      while !Empty()
        invariant Valid()
        decreases size
      {
        RemoveFront();
      }
    }

    /** `reverse()`: relinks the existing nodes in the opposite order,
        moving one node at a time from the remaining chain to the front. */
    method Reverse()
      requires Valid()
      modifies this, nodes
      ensures Valid()
      ensures contents == Reversed(old(contents)) && nodes == Reversed(old(nodes))
      ensures size == old(size)
      ensures multiset(nodes) == multiset(old(nodes))
      ensures |old(nodes)| <= 1 ==> unchanged(this) && unchanged(nodes)
    {
      if head == null || head.next == null {
        ReversedShort(nodes);
        ReversedShort(contents);
        return;
      }
      ghost var N, C := nodes, contents;
      ghost var n := |N|;
      DistinctFrom(N, 0);
      var listToDo := head.next;
      head.next := null;
      ghost var i := 1;
      while listToDo != null
        invariant 1 <= i <= n
        invariant head == N[i - 1] && listToDo == NextOf(N, i - 1)
        invariant N[0].next == null
        invariant forall k {:trigger N[k].next} :: 1 <= k < i ==> N[k].next == N[k - 1]
        invariant forall k {:trigger N[k].next} :: i <= k < n ==> N[k].next == NextOf(N, k)
        invariant forall k :: 0 <= k < n ==> N[k].value == C[k]
        modifies this`head, N
        decreases n - i
      {
        DistinctFrom(N, i);
        var temp := listToDo;
        listToDo := listToDo.next;
        temp.next := head;
        head := temp;
        i := i + 1;
      }
      LinkedBackwards(N);
      ReversedValues(N, C);
      ReversedElements(N);
      nodes := Reversed(N);
      contents := Reversed(C);
    }

    /** `reverseRecursive()`: the head becomes what the recursive helper returns. */
    method ReverseRecursive()
      requires Valid()
      modifies this, nodes
      ensures Valid()
      ensures contents == Reversed(old(contents)) && nodes == Reversed(old(nodes))
      ensures size == old(size)
      ensures multiset(nodes) == multiset(old(nodes))
    {
      ghost var N, C := nodes, contents;
      head := ReverseRecursiveFrom(head, nodes);
      ReversedValues(N, C);
      ReversedElements(N);
      nodes := Reversed(N);
      contents := Reversed(C);
    }

    /** `_reverse_recursive(node)`: reverses the chain `ns` that starts at
        `node` by reversing the chain after it, then hanging `node` behind
        the old second node; returns the old last node. */
    method ReverseRecursiveFrom(node: Node?<T>, ghost ns: seq<Node<T>>) returns (r: Node?<T>)
      requires IsChain(ns) && node == HeadOf(ns)
      modifies ns
      ensures IsChain(Reversed(ns)) && r == HeadOf(Reversed(ns))
      ensures node != null ==> node.next == null
      ensures forall k :: 0 <= k < |ns| ==> ns[k].value == old(ns[k].value)
      decreases |ns|
    {
      if node == null || node.next == null {
        ReversedShort(ns);
        return node;
      }
      ghost var rest := ns[1..];
      DistinctTail(ns);
      var reversedList := ReverseRecursiveFrom(node.next, rest);
      ghost var R := Reversed(rest);
      ReversedAt(rest, |rest| - 1);
      ReversedAt(rest, 0);
      ReversedElements(rest);
      assert node !in R;
      DistinctSnoc(R, node);
      DistinctFrom(R, |R| - 1);
      node.next.next := node;
      node.next := null;
      assert Reversed(ns) == R + [node];
      r := reversedList;
    }

    /** `deleteKey(key)`: scans for the first node holding `key` and unlinks
        it from its predecessor, or from the head; no match changes nothing. */
    method DeleteKey(key: T)
      requires Valid()
      modifies this, nodes
      ensures Valid()
      ensures contents == RemoveFirst(old(contents), key)
      ensures size == if key in old(contents) then old(size) - 1 else old(size)
      ensures key !in old(contents) ==> nodes == old(nodes) && head == old(head)
      ensures key in old(contents) ==>
        var i := FirstIndex(old(contents), key);
        nodes == old(nodes)[..i] + old(nodes)[i + 1..]
      ensures old(contents) != [] && old(contents)[0] == key ==>
        nodes == old(nodes)[1..] && head == old(head.next)
    {
      ghost var N, C := nodes, contents;
      ghost var n := |N|;
      var prev: Node?<T> := null;
      var current := head;
      ghost var i := 0;
      while current != null
        invariant 0 <= i <= n
        invariant size == n
        invariant current == (if i < n then N[i] else null)
        invariant prev == (if i == 0 then null else N[i - 1])
        invariant key !in C[..i]
        modifies this`size
        decreases n - i
      {
        if current.value == key {
          size := size - 1;
          break;
        }
        assert C[..i + 1] == C[..i] + [C[i]];
        prev := current;
        current := current.next;
        i := i + 1;
      }
      if current == null {
        assert C[..i] == C;
        RemoveFirstAbsent(C, key);
        return;
      }
      RemoveFirstAt(C, key, i);
      FirstIndexAt(C, key, i);
      if 0 < i {
        DistinctAt(N, 0, i);
        DistinctFrom(N, i - 1);
      }
      ghost var M, D := N[..i] + N[i + 1..], C[..i] + C[i + 1..];
      if current == head {
        head := head.next;
      } else {
        prev.next := current.next;
      }
      Unlinked(N, C, i, M, D);
      assert head == HeadOf(M);
      nodes, contents := M, D;
    }
  }
}
