/** Singly linked lists on the heap, built at their end. */
module Lists {
  class Node<T> {
    var value: T
    var next: Node?<T>

    constructor (value: T)
      ensures this.value == value && next == null
    {
      this.value := value;
      next := null;
    }
  }

  /** A null-terminated chain of distinct nodes from `head`, holding `list` in order. */
  ghost predicate IsList<T>(head: Node?<T>, nodes: seq<Node<T>>, list: seq<T>)
    reads nodes
  {
    && head == (if nodes == [] then null else nodes[0])
    && |nodes| == |list|
    && (forall i | 0 <= i < |nodes| :: nodes[i].value == list[i])
    && (forall i | 0 <= i < |nodes| :: nodes[i].next == if i + 1 < |nodes| then nodes[i + 1] else null)
    && (forall i, j | 0 <= i < j < |nodes| :: nodes[i] != nodes[j])
  }

  lemma EmptyList<T>()
    ensures IsList<T>(null, [], [])
  {}

  /** Links a new node at the end of the list; `last` is its last node, if there is one. */
  method Append<T>(head: Node?<T>, last: Node?<T>, value: T, ghost nodes: seq<Node<T>>, ghost list: seq<T>)
    returns (head': Node<T>, last': Node<T>, ghost nodes': seq<Node<T>>)
    requires IsList(head, nodes, list)
    requires last == if nodes == [] then null else nodes[|nodes| - 1]
    modifies nodes
    ensures fresh(last') && nodes' == nodes + [last']
    ensures IsList(head', nodes', list + [value])
  {
    last' := new Node(value);
    nodes' := nodes + [last'];
    if last == null {
      head' := last';
    } else {
      last.next := last';
      head' := head;
    }
  }
}
