/** The FIFO of pending commands: a singly linked list of private copies. */
module CmdPools {
  import opened Bytes

  class Buffer {
    var length: nat
    var buffer: array?<byte>
    var next: Buffer?

    constructor ()
      ensures length == 0 && buffer == null && next == null
    {
      length := 0;
      buffer := null;
      next := null;
    }

    ghost predicate Holds(content: seq<byte>)
      reads this, buffer
    {
      content != [] && buffer != null && length == |content| && buffer[..] == content
    }

    /** Zero, and no change, for an empty or missing source. */
    method Set(ptr: array?<byte>, size: nat) returns (stored: nat)
      requires ptr != null ==> size <= ptr.Length
      modifies this
      ensures next == old(next)
      ensures size == 0 || ptr == null ==> stored == 0 && length == old(length) && buffer == old(buffer)
      ensures size > 0 && ptr != null ==> stored == size && fresh(buffer) && Holds(ptr[..size])
    {
      if size == 0 || ptr == null {
        return 0;
      }
      var copy := new byte[size](_ => 0);
      forall i | 0 <= i < size {
        copy[i] := ptr[i];
      }
      buffer := copy;
      assert buffer[..] == ptr[..size];
      length := size;
      stored := size;
    }

    /** Zero, and no change, if there is nothing to copy or not enough room for it. */
    method Get(ptr: array?<byte>, size: nat) returns (copied: nat)
      requires ptr != null ==> size <= ptr.Length && ptr != buffer
      requires buffer != null ==> buffer.Length == length
      modifies ptr
      ensures ptr == null || size < length || buffer == null || length == 0 ==>
        copied == 0 && (ptr != null ==> ptr[..] == old(ptr[..]))
      ensures ptr != null && length <= size && buffer != null && length > 0 ==>
        copied == length && ptr[..length] == buffer[..] && ptr[length..] == old(ptr[length..])
    {
      if ptr == null || size < length || buffer == null || length == 0 {
        return 0;
      }
      forall i | 0 <= i < length {
        ptr[i] := buffer[i];
      }
      assert ptr[..length] == buffer[..];
      copied := length;
    }
  }

  class CmdPool {
    var head: Buffer?
    var tail: Buffer?
    var length: nat

    ghost var Nodes: seq<Buffer>
    ghost var Contents: seq<seq<byte>>
    ghost var Repr: set<object>

    ghost predicate Linked()
      reads this, Nodes
    {
      && length == |Nodes| == |Contents|
      && (forall i, j :: 0 <= i < j < |Nodes| ==> Nodes[i] != Nodes[j])
      && head == (if Nodes == [] then null else Nodes[0])
      && (Nodes != [] ==> tail == Nodes[|Nodes| - 1] && tail.next == null)
      && (forall i :: 0 <= i < |Nodes| - 1 ==> Nodes[i].next == Nodes[i + 1])
    }

    ghost predicate Valid()
      reads this, Repr
      ensures Valid() ==> this in Repr
    {
      && this in Repr
      && (forall i :: 0 <= i < |Nodes| ==> Nodes[i] in Repr && Nodes[i].buffer in Repr)
      && Linked()
      && (forall i :: 0 <= i < |Nodes| ==> Nodes[i].Holds(Contents[i]))
    }

    constructor ()
      ensures Valid() && fresh(Repr) && Contents == []
    {
      head := null;
      tail := null;
      length := 0;
      Nodes := [];
      Contents := [];
      Repr := {this};
    }

    /** Hangs a filled buffer behind the last one. */
    method Link(curBuffer: Buffer, ghost content: seq<byte>)
      requires Valid() && curBuffer !in Repr && curBuffer.buffer !in Repr
      requires curBuffer.Holds(content) && curBuffer.next == null
      modifies this, Repr
      ensures Valid() && Contents == old(Contents) + [content]
      ensures Repr == old(Repr) + {curBuffer, curBuffer.buffer} && curBuffer.buffer == old(curBuffer.buffer)
    {
      if length == 0 {
        head := curBuffer;
        tail := curBuffer;
      } else {
        tail.next := curBuffer;
        tail := curBuffer;
      }
      length := length + 1;
      Nodes := Nodes + [curBuffer];
      Contents := Contents + [content];
      Repr := Repr + {curBuffer, curBuffer.buffer};
    }

    /** Appends a private copy. */
    method Put(ptr: array?<byte>, size: nat) returns (ok: bool)
      requires Valid()
      requires ptr != null ==> size <= ptr.Length
      modifies Repr
      ensures Valid() && fresh(Repr - old(Repr))
      ensures ok == (size > 0 && ptr != null)
      ensures Contents == old(Contents) + if ok then [old(ptr[..size])] else []
    {
      var curBuffer := new Buffer();
      var stored := curBuffer.Set(ptr, size);
      if stored == 0 {
        return false;
      }
      Link(curBuffer, ptr[..size]);
      ok := true;
    }

    /** Lets go of the first buffer. */
    method Unlink()
      requires Valid() && Contents != []
      modifies this
      ensures Valid() && Contents == old(Contents)[1..] && Repr == old(Repr)
    {
      ghost var rest := Nodes[1..];
      assert head == Nodes[0];
      assert rest != [] ==> Nodes[0].next == Nodes[1];
      forall i | 0 <= i < |rest| - 1
        ensures rest[i].next == rest[i + 1]
      {
        assert Nodes[i + 1].next == Nodes[i + 2];
      }
      head := head.next;
      length := length - 1;
      Nodes := rest;
      Contents := Contents[1..];
    }

    /** Moves the oldest command out, unless there is none or it does not fit. */
    method Get(ptr: array<byte>, size: nat) returns (copied: nat)
      requires Valid()
      requires size <= ptr.Length && ptr !in Repr
      modifies Repr, ptr
      ensures Valid() && Repr == old(Repr)
      ensures old(Contents) == [] || size < |old(Contents)[0]| ==>
        copied == 0 && Contents == old(Contents) && ptr[..] == old(ptr[..])
      ensures old(Contents) != [] && |old(Contents)[0]| <= size ==>
        && copied == |old(Contents)[0]| && Contents == old(Contents)[1..]
        && ptr[..copied] == old(Contents)[0] && ptr[copied..] == old(ptr[copied..])
    {
      var curBuffer := head;
      if curBuffer == null {
        return 0;
      }
      copied := curBuffer.Get(ptr, size);
      if copied == 0 {
        return;
      }
      Unlink();
    }
  }
}
