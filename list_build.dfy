/** The linked-list benchmark of bench/benchmarks/08_list_build in C, Go and Python:
    prepend nodes holding 0, 1, ..., n - 1 to an initially empty list, then walk the
    list from the head counting the nodes. The benchmark fixes n = 10000; here n is a
    parameter. */
module ListBuild {

  /** A list node. Nothing ever writes a node after creating it, so its fields are
      constants; `content` is the ghost view of the values from this node to the end
      of the list. */
  class Node {
    const val: int
    const next: Node?
    ghost const content: seq<int>

    /** The list starting here is well formed: content is val followed by the
        content of next, and the list ends in null. content shrinks along `next`,
        which rules out a cycle. */
    ghost predicate Valid()
      decreases |content|
    {
      && content == [val] + (if next == null then [] else next.content)
      && (next != null ==> next.Valid())
    }

    /** `Node(i, head)` / `&Node{val: i, next: head}` / malloc plus two stores. */
    constructor (v: int, n: Node?)
      requires n != null ==> n.Valid()
      ensures val == v && next == n
      ensures content == [v] + Content(n)
      ensures Valid()
    {
      val := v;
      next := n;
      content := [v] + (if n == null then [] else n.content);
    }
  }

  /** The values of the list starting at head; empty for null. */
  ghost function Content(head: Node?): seq<int>
  {
    if head == null then [] else head.content
  }

  /** n - 1, n - 2, ..., 0; empty for n <= 0. */
  function Descending(n: int): (s: seq<int>)
    ensures |s| == if n <= 0 then 0 else n
    ensures forall k :: 0 <= k < |s| ==> s[k] == n - 1 - k
  {
    if n <= 0 then [] else seq(n, k => n - 1 - k)
  }

  /** The build loop: after it, the list holds n - 1 down to 0, each node once,
      and ends in null; for n <= 0 the head stays null. */
  method Build(n: int) returns (head: Node?)
    ensures head != null ==> head.Valid()
    ensures Content(head) == Descending(n)
    ensures head == null <==> n <= 0
  {
    head := null;
    var i := 0;
    while i < n
      invariant 0 <= i && (n <= 0 ==> i == 0) && (n > 0 ==> i <= n)
      invariant head != null ==> head.Valid()
      invariant Content(head) == Descending(i)
      invariant head == null <==> i == 0
    {
      head := new Node(i, head);
      assert Content(head) == [i] + Descending(i);
      i := i + 1;
    }
  }

  /** The traversal: follows `next` from head to null without writing anything and
      counts one per node. */
  method Count(head: Node?) returns (count: int)
    requires head != null ==> head.Valid()
    ensures count == |Content(head)|
  {
    count := 0;
    var cur := head;
    while cur != null
      invariant cur != null ==> cur.Valid()
      invariant count + |Content(cur)| == |Content(head)|
      decreases |Content(cur)|
    {
      count := count + 1;
      cur := cur.next;
    }
  }

  /** The benchmark: builds the list and counts n nodes, 0 for n <= 0. */
  method BuildAndCount(n: int) returns (count: int)
    ensures count == if n <= 0 then 0 else n
  {
    var head := Build(n);
    count := Count(head);
  }
}
