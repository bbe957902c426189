/**
 * ListaDeCarga: the linear doubly-linked list that assembles the decoded
 * message. Nodes are numbered in the order they were created; node k holds
 * data[k] and its `siguiente`/`previo` pointers are nextOf[k]/prevOf[k]
 * (None is nullptr). `cabeza`, `cola` and `tamanio` are head, tail, size.
 */
module Payload {
  import opened Wrappers

  class PayloadList {
    /** dato of each node */
    var data: seq<char>
    /** siguiente of each node */
    var nextOf: seq<Option<nat>>
    /** previo of each node */
    var prevOf: seq<Option<nat>>
    /** cabeza: the first node, None when the list is empty */
    var head: Option<nat>
    /** cola: the last node, None when the list is empty */
    var tail: Option<nat>
    /** tamanio: the number of stored characters */
    var size: int

    /**
     * The nodes form one linear chain from head to tail: the first node has
     * no `previo`, the last no `siguiente`, and size counts the nodes.
     */
    ghost predicate Valid()
      reads this
    {
      |nextOf| == |data| && |prevOf| == |data| && size == |data| &&
      (head == None <==> size == 0) && (tail == None <==> size == 0) &&
      (size > 0 ==> head == Some(0) && tail == Some(size - 1)) &&
      (forall k | 0 <= k < |data| :: nextOf[k] == (if k + 1 < |data| then Some(k + 1) else None)) &&
      (forall k | 0 <= k < |data| :: prevOf[k] == (if k == 0 then None else Some(k - 1)))
    }

    /** The stored characters, in insertion order. */
    ghost function Contents(): seq<char>
      reads this
    {
      data
    }

    /** A new list has no head, no tail and no characters. */
    constructor ()
      ensures Valid() && Contents() == []
      ensures head == None && tail == None && size == 0
    {
      data, nextOf, prevOf := [], [], [];
      head, tail, size := None, None, 0;
    }

    /** getTamanio: the number of stored characters. */
    function Size(): (n: int)
      reads this
      requires Valid()
      ensures n == |Contents()|
    {
      size
    }

    /** estaVacia: the list is empty exactly when it has no head, exactly when its size is 0. */
    function IsEmpty(): (b: bool)
      reads this
      requires Valid()
      ensures b <==> Contents() == []
      ensures b <==> size == 0
    {
      head == None
    }

    /**
     * insertarAlFinal: links a new node holding d after the tail. The first
     * node becomes head and tail at once; earlier characters keep their order.
     */
    method InsertAtEnd(d: char)
      requires Valid()
      modifies this
      ensures Valid()
      ensures Contents() == old(Contents()) + [d]
      ensures size == old(size) + 1
      ensures tail == Some(size - 1) && data[tail.value] == d
      ensures old(size) == 0 ==> head == tail
      ensures old(size) > 0 ==> head == old(head)
    {
      var empty := IsEmpty();
      // a fresh node with null links
      var node := |data|;
      data, nextOf, prevOf := data + [d], nextOf + [None], prevOf + [None];
      if empty {
        head := Some(node);
        tail := Some(node);
      } else {
        nextOf := nextOf[tail.value := Some(node)];
        prevOf := prevOf[node := tail];
        tail := Some(node);
      }
      size := size + 1;
    }

    /**
     * The traversal of imprimirMensaje: follows `siguiente` from the head
     * until nullptr, collecting each node's character. It yields the
     * contents in insertion order and changes nothing.
     */
    method Render() returns (s: seq<char>)
      requires Valid()
      ensures s == Contents()
    {
      s := [];
      var current := head;
      while current != None
        invariant |s| <= |data| && s == data[..|s|]
        invariant current == (if |s| < |data| then Some(|s|) else None)
        decreases |data| - |s|
      {
        s := s + [data[current.value]];
        current := nextOf[current.value];
      }
    }
  }
}
