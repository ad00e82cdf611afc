/** The list of the old server: doubly linked nodes behind a head node, and an array of the same items. */
module NodeLists {
  import opened Collections

  const CHUNK := 64

  class Node<T> {
    var prev: Node?<T>
    var next: Node?<T>
    var data: Option<T>

    constructor (prev: Node?<T>, data: Option<T>)
      ensures this.prev == prev && next == null && this.data == data
    {
      this.prev := prev;
      this.next := null;
      this.data := data;
    }
  }

  class List<T> {
    var head: Node<T>
    var tail: Node<T>
    var size: nat
    var hashSize: nat
    var hashTable: array<Option<T>>

    ghost var Items: seq<T>
    ghost var Nodes: seq<Node<T>>
    ghost var Repr: set<object>

    /** The nodes behind the head carry the items, linked both ways. */
    ghost predicate Linked()
      reads this`head, this`tail, this`Items, this`Nodes, Nodes
      ensures Linked() ==> tail in Nodes
    {
      && |Nodes| == |Items| + 1 && head == Nodes[0] && tail == Nodes[|Items|]
      && (forall i, j :: 0 <= i < j < |Nodes| ==> Nodes[i] != Nodes[j])
      && head.prev == null && tail.next == null
      && (forall i :: 0 <= i < |Items| ==> Nodes[i].next == Nodes[i + 1])
      && (forall i :: 1 <= i <= |Items| ==> Nodes[i].prev == Nodes[i - 1])
      && (forall i :: 1 <= i <= |Items| ==> Nodes[i].data == Some(Items[i - 1]))
    }

    /** The array has room for whole chunks and starts with the same items. */
    ghost predicate Indexed()
      reads this, hashTable
    {
      && size == |Items| <= hashSize == hashTable.Length && hashSize % CHUNK == 0
      && forall i :: 0 <= i < |Items| ==> hashTable[i] == Some(Items[i])
    }

    ghost predicate Valid()
      reads this, Repr
      ensures Valid() ==> this in Repr
    {
      && this in Repr && hashTable in Repr
      && (forall i :: 0 <= i < |Nodes| ==> Nodes[i] in Repr)
      && Linked() && Indexed()
    }

    constructor ()
      ensures Valid() && fresh(Repr) && Items == []
    {
      var node := new Node<T>(null, None);
      var table := new Option<T>[0](_ => None);
      head, tail := node, node;
      size, hashSize := 0, 0;
      hashTable := table;
      Items, Nodes := [], [node];
      Repr := {this, node, table};
    }

    /** operator[] for an index within the list. */
    method At(i: nat) returns (item: Option<T>)
      requires Valid() && i < |Items|
      ensures item == Some(Items[i])
    {
      item := hashTable[i];
    }

    /** Hangs a new node behind the last one. */
    method Link(node: Node<T>, item: T)
      requires Linked() && node !in Nodes && node.prev == tail && node.next == null && node.data == Some(item)
      modifies this`tail, this`Nodes, this`Items, tail
      ensures Linked() && Items == old(Items) + [item] && Nodes == old(Nodes) + [node]
    {
      tail.next := node;
      tail := node;
      Nodes := Nodes + [node];
      Items := Items + [item];
    }

    /** A larger array with the same beginning, if the array is full. */
    method Grow()
      requires Valid()
      modifies this`hashTable, this`hashSize, this`Repr
      ensures Valid() && hashSize > size && size == old(size) && Items == old(Items)
      ensures hashSize == if old(size) + 1 > old(hashSize) then old(hashSize) + 64 else old(hashSize)
      ensures fresh(Repr - old(Repr)) && old(Repr) <= Repr
    {
      hide Linked;
      if size + 1 > hashSize {
        var temp := new Option<T>[hashSize + CHUNK](_ => None);
        forall i | 0 <= i < hashSize {
          temp[i] := hashTable[i];
        }
        hashTable := temp;
        hashSize := hashSize + CHUNK;
        Repr := Repr + {temp};
      }
    }

    /** To the end, of the nodes and of the array. */
    method Push(item: T)
      requires Valid()
      modifies Repr
      ensures Valid() && fresh(Repr - old(Repr)) && Items == old(Items) + [item]
    {
      hide Linked;
      Grow();
      var node := new Node<T>(tail, Some(item));
      Link(node, item);
      Repr := Repr + {node};
      size := size + 1;
      hashTable[size - 1] := Some(item);
    }

    /** Takes the last item off, if there is one. */
    method Pop() returns (item: Option<T>)
      requires Valid()
      modifies Repr
      ensures Valid() && Repr == old(Repr)
      ensures old(Items) == [] ==> item == None && Items == []
      ensures old(Items) != [] ==>
        item == Some(old(Items)[|old(Items)| - 1]) && Items == old(Items)[..|old(Items)| - 1]
    {
      var current := tail;
      assert Items != [] ==> Nodes[|Items|].prev == Nodes[|Items| - 1];
      if tail.prev == null {
        return None;
      }
      tail := tail.prev;
      tail.next := null;
      item := current.data;
      size := size - 1;
      hashTable[size] := None;
      Items := Items[..|Items| - 1];
      Nodes := Nodes[..|Nodes| - 1];
    }

    /** Walks the links: the position of the first item with the property, -1 if there is none. */
    method Search(f: T -> bool) returns (k: int)
      requires Valid()
      ensures -1 <= k < |Items|
      ensures k >= 0 ==> f(Items[k]) && forall i :: 0 <= i < k ==> !f(Items[i])
      ensures k == -1 ==> forall i :: 0 <= i < |Items| ==> !f(Items[i])
    {
      var current := head;
      var count := 0;
      while current.next != null
        invariant 0 <= count <= |Items| && current == Nodes[count]
        invariant current.next == if count < |Items| then Nodes[count + 1] else null
        invariant forall i :: 0 <= i < count ==> !f(Items[i])
        decreases |Items| - count
      {
        current := current.next;
        if f(current.data.value) {
          return count;
        }
        count := count + 1;
      }
      k := -1;
    }

    /** What the search finds through the links, the array holds at the position it returns. */
    method Find(f: T -> bool) returns (item: Option<T>)
      requires Valid()
      ensures item.None? <==> forall i :: 0 <= i < |Items| ==> !f(Items[i])
      ensures item.Some? ==> f(item.value) && exists k ::
        0 <= k < |Items| && Items[k] == item.value && forall i :: 0 <= i < k ==> !f(Items[i])
    {
      var k := Search(f);
      if k < 0 {
        return None;
      }
      item := At(k);
    }
  }
}
