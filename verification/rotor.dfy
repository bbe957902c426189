/**
 * RotorDeMapeo: the circular doubly-linked ring of the 27 alphabet symbols
 * with a movable head. Nodes are ring positions 0..26 held in one array;
 * node k's `siguiente` and `previo` pointers are the positions ring[k].next
 * and ring[k].prev, and `cabeza` is the position `head`. Only `head`
 * changes after construction.
 */
module Rotor {
  import opened Wrappers
  import opened RotorSpec

  /** NodoRotor: a symbol and the positions of its two neighbours. */
  datatype Node = Node(data: char, next: nat, prev: nat)

  /** The node that belongs at ring position k once the ring is closed. */
  function RingNode(k: nat): Node
    requires k < SIZE
  {
    Node(Symbol(k), Succ(k), Pred(k))
  }

  /**
   * The ring is linked both ways and closed: `previo` of a node's
   * `siguiente` is the node itself, and so is `siguiente` of its `previo`;
   * the last node's `siguiente` is the first node and the first node's
   * `previo` is the last.
   */
  lemma RingLinked(k: nat)
    requires k < SIZE
    ensures RingNode(RingNode(k).next).prev == k
    ensures RingNode(RingNode(k).prev).next == k
    ensures RingNode(SIZE - 1).next == 0 && RingNode(0).prev == SIZE - 1
  {
  }

  class MappingRotor {
    /** the ring's nodes, by position */
    var ring: array<Node>
    /** cabeza: the node at the rotor's current "zero" position */
    var head: nat

    /** The ring is closed in both directions, holds the alphabet in order, and the head is one of its nodes. */
    ghost predicate Valid()
      reads this, ring
    {
      ring.Length == SIZE && head < SIZE &&
      forall k | 0 <= k < SIZE :: ring[k] == RingNode(k)
    }

    /** Builds the ring node by node, links each node to the one before it, then closes the circle; the head is 'A'. */
    constructor ()
      ensures Valid() && fresh(ring)
      ensures forall k | 0 <= k < SIZE :: ring[k].data == ALPHABET[k]
      ensures head == 0 && ring[head].data == 'A'
    {
      AlphabetIsSymbols();
      var nodes := new Node[SIZE];
      nodes[0] := Node(ALPHABET[0], 0, 0);
      var i := 1;
      while i < SIZE
        invariant 1 <= i <= SIZE
        invariant forall k | 0 <= k < i - 1 :: nodes[k].data == Symbol(k) && nodes[k].next == Succ(k)
        invariant forall k | 1 <= k < i :: nodes[k].prev == Pred(k)
        invariant nodes[i - 1].data == Symbol(i - 1)
      {
        // link: previous node <-> new node
        nodes[i] := Node(ALPHABET[i], 0, i - 1);
        nodes[i - 1] := nodes[i - 1].(next := i);
        i := i + 1;
      }
      // close the circle: last node <-> first node
      nodes[SIZE - 1] := nodes[SIZE - 1].(next := 0);
      nodes[0] := nodes[0].(prev := SIZE - 1);
      ring, head := nodes, 0;
    }

    /**
     * buscarNodo: walks the ring once, starting at the head, looking for c.
     * The node found (or none) does not depend on where the head is.
     */
    method FindNode(c: char) returns (node: Option<nat>)
      requires Valid()
      ensures node.Some? <==> InAlphabet(c)
      ensures node.Some? ==> node.value == IndexOf(c) && ring[node.value].data == c
    {
      var current := head;
      ghost var steps: nat := 0;
      while true
        invariant steps < SIZE && current == (head + steps) % SIZE
        invariant forall k | 0 <= k < SIZE && Dist(head, k) < steps :: ring[k].data != c
        decreases SIZE - steps
      {
        if ring[current].data == c {
          IndexOfSymbol(current);
          return Some(current);
        }
        forall k | 0 <= k < SIZE && Dist(head, k) <= steps
          ensures ring[k].data != c
        {
          DistInverse(head, k);
        }
        RingPosition(head, steps);
        RingPosition(head, steps + 1);
        SuccMod(head + steps);
        current := ring[current].next;
        steps := steps + 1;
        if current == head {
          break;
        }
      }
      // every node has been visited once
      forall k | 0 <= k < SIZE
        ensures Symbol(k) != c
      {
        assert ring[k] == RingNode(k);
      }
      SymbolOfIndex(c);
      return None;
    }

    /**
     * calcularDistancia: the number of `siguiente` steps from `from` to `to`,
     * 0 when either is null. On ring nodes the count stays below SIZE, so the
     * guard against running past 100 steps never fires.
     */
    method Distance(from: Option<nat>, to: Option<nat>) returns (d: int)
      requires Valid()
      requires from.Some? ==> from.value < SIZE
      requires to.Some? ==> to.value < SIZE
      ensures 0 <= d < SIZE
      ensures from.None? || to.None? ==> d == 0
      ensures from.Some? && to.Some? ==> d == (to.value - from.value) % SIZE
      ensures from.Some? && to.Some? ==> (from.value + d) % SIZE == to.value
    {
      if from.None? || to.None? {
        return 0;
      }
      var target := to.value;
      ghost var total := Dist(from.value, target);
      DistInverse(from.value, target);
      var distance := 0;
      var current := from.value;
      while current != target
        invariant 0 <= distance <= total
        invariant current == (from.value + distance) % SIZE
        decreases total - distance
      {
        SuccMod(from.value + distance);
        current := ring[current].next;
        distance := distance + 1;
        if distance > 100 {
          break;
        }
      }
      RingPosition(from.value, distance);
      d := distance;
    }

    /**
     * rotar: reduces n with C's truncating `%`, then steps the head forward
     * along `siguiente` for a positive remainder or backward along `previo`
     * for a negative one.
     */
    method Rotate(n: int)
      requires Valid()
      modifies this`head
      ensures Valid()
      ensures head == Rotated(old(head), n)
    {
      var m := CRem(n, SIZE);
      ghost var start := head;
      if m > 0 {
        var i := 0;
        while i < m
          invariant 0 <= i <= m
          invariant head < SIZE && head == (start + i) % SIZE
        {
          SuccMod(start + i);
          head := ring[head].next;
          i := i + 1;
        }
      } else if m < 0 {
        var i := 0;
        while i > m
          invariant m <= i <= 0
          invariant head < SIZE && head == (start + i) % SIZE
        {
          PredMod(start + i);
          head := ring[head].prev;
          i := i - 1;
        }
      }
      CRemRotated(start, n);
    }

    /**
     * getMapeo: finds c's node, counts its distance from the head, and
     * returns the symbol at that distance from 'A'. A character with no
     * node is returned unchanged.
     */
    method GetMapping(c: char) returns (r: char)
      requires Valid()
      ensures r == MapChar(head, c)
    {
      var original := FindNode(c);
      if original.None? {
        return c;
      }
      var distance := Distance(Some(head), original);
      var nodeA := FindNode('A');
      if nodeA.None? {
        return c;
      }
      var result := nodeA.value;
      var i := 0;
      while i < distance
        invariant 0 <= i <= distance
        invariant result == i
      {
        result := ring[result].next;
        i := i + 1;
      }
      r := ring[result].data;
    }
  }

  /** The number of `siguiente` steps from ring position h to ring position k. */
  function Dist(h: int, k: int): (d: nat)
    ensures d < SIZE
  {
    (k - h) % SIZE
  }

  /** Walking Dist(h, k) steps from h lands on k. */
  lemma DistInverse(h: nat, k: nat)
    requires h < SIZE && k < SIZE
    ensures (h + Dist(h, k)) % SIZE == k
  {
    if h <= k {
      assert Dist(h, k) == k - h;
    } else {
      assert Dist(h, k) == k - h + SIZE;
    }
  }

  /** Walking s <= SIZE steps from h: where it lands, and when it is back at h. */
  lemma RingPosition(h: nat, s: nat)
    requires h < SIZE && s <= SIZE
    ensures s < SIZE ==> Dist(h, (h + s) % SIZE) == s
    ensures ((h + s) % SIZE == h) <==> (s == 0 || s == SIZE)
  {
    if h + s < SIZE {
      assert (h + s) % SIZE == h + s;
    } else {
      assert (h + s) % SIZE == h + s - SIZE;
    }
  }
}
