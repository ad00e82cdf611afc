/** The blocking receive of generic_socket, over a byte stream that arrives in segments. */
module StreamSocket {
  import opened Bytes

  /** What the network still has for this socket, one element for each delivery. An empty one is a call of the
      system that fails or times out: it brings nothing, and what the receive has gathered so far is thrown away. */
  type Segments = seq<seq<byte>>

  function Flat(s: Segments): seq<byte> {
    if s == [] then [] else s[0] + Flat(s[1..])
  }

  ghost predicate NoneEmpty(s: Segments) {
    forall i :: 0 <= i < |s| ==> |s[i]| > 0
  }

  /** Position n of the stream falls between two deliveries. */
  predicate Cut(s: Segments, n: nat) {
    n == 0 || (s != [] && |s[0]| <= n && Cut(s[1..], n - |s[0]|))
  }

  function AfterCut(s: Segments, n: nat): Segments
    requires Cut(s, n)
  {
    if n == 0 then s else AfterCut(s[1..], n - |s[0]|)
  }

  /** The first n bytes come in before any receive fails. */
  predicate Unbroken(s: Segments, n: nat) {
    n == 0 || (s != [] && |s[0]| > 0 && (n <= |s[0]| || Unbroken(s[1..], n - |s[0]|)))
  }

  const RECV_BUFFER := 300

  function BufferSize(asked: nat): nat {
    if asked > RECV_BUFFER then asked + 100 else RECV_BUFFER
  }

  datatype Delivery = Delivery(data: seq<byte>, rest: Segments)

  /** One call of the system's recv: at most one segment, at most `space` bytes of it. */
  function RawRecv(s: Segments, space: nat): Delivery {
    if s == [] then Delivery([], [])
    else if |s[0]| <= space then Delivery(s[0], s[1..])
    else Delivery(s[0][..space], [s[0][space..]] + s[1..])
  }

  /** The loop of recv: read on until the asked bytes are there, keeping whatever came with them. */
  function Gather(s: Segments, got: seq<byte>, asked: nat, size: nat): Delivery
    requires asked <= size
    decreases asked - |got|
  {
    if |got| >= asked then Delivery(got, s)
    else
      var d := RawRecv(s, size - |got|);
      if d.data == [] then Delivery(got, d.rest) else Gather(d.rest, got + d.data, asked, size)
  }

  lemma RawRecvFlat(s: Segments, space: nat)
    requires space > 0
    ensures var d := RawRecv(s, space);
      d.data + Flat(d.rest) == Flat(s) && |d.data| <= space && (d.data == [] <==> s == [] || s[0] == [])
  {
    if s != [] && |s[0]| > space {
      var rest := [s[0][space..]] + s[1..];
      assert rest[1..] == s[1..];
      assert s[0] == s[0][..space] + s[0][space..];
    }
  }

  lemma RawRecvCut(s: Segments, space: nat)
    requires space > 0
    ensures var d := RawRecv(s, space);
      && Unbroken(s, |d.data|)
      && (d.data != [] && |d.data| < space ==> Cut(s, |d.data|) && AfterCut(s, |d.data|) == d.rest)
  {
    if s != [] && |s[0]| <= space {
      CutNothing(s[1..]);
    }
  }

  lemma RawRecvNoneEmpty(s: Segments, space: nat)
    requires space > 0 && NoneEmpty(s)
    ensures var d := RawRecv(s, space);
      NoneEmpty(d.rest) && (d.data == [] ==> d.rest == [])
  {
    if s != [] {
      assert |s[0]| > 0;
    }
  }

  lemma RawRecvKeeps(s: Segments, space: nat)
    requires space > 0
    ensures var d := RawRecv(s, space);
      && d.data + Flat(d.rest) == Flat(s) && |d.data| <= space
      && (d.data == [] <==> s == [] || s[0] == []) && Unbroken(s, |d.data|)
      && (d.data != [] && |d.data| < space ==> Cut(s, |d.data|) && AfterCut(s, |d.data|) == d.rest)
      && (NoneEmpty(s) ==> NoneEmpty(d.rest) && (d.data == [] ==> d.rest == []))
  {
    hide RawRecv, Flat, NoneEmpty, Cut, AfterCut, Unbroken;
    RawRecvFlat(s, space);
    RawRecvCut(s, space);
    if NoneEmpty(s) {
      RawRecvNoneEmpty(s, space);
    }
  }

  lemma {:induction false} UnbrokenAdds(s: Segments, m: nat, n: nat)
    requires Cut(s, m) && Unbroken(s, m)
    ensures Unbroken(AfterCut(s, m), n) <==> Unbroken(s, m + n)
    decreases |s|
  {
    if m > 0 {
      UnbrokenAdds(s[1..], m - |s[0]|, n);
    }
  }

  lemma {:induction false} UnbrokenLess(s: Segments, m: nat, n: nat)
    requires m <= n && Unbroken(s, n)
    ensures Unbroken(s, m)
    decreases |s|
  {
    if n > 0 && m > |s[0]| {
      UnbrokenLess(s[1..], m - |s[0]|, n - |s[0]|);
    }
  }

  lemma {:induction false} NoneEmptyIsUnbroken(s: Segments, n: nat)
    requires NoneEmpty(s) && n <= |Flat(s)|
    ensures Unbroken(s, n)
    decreases |s|
  {
    if n > 0 {
      assert |s[0]| > 0;
      if n > |s[0]| {
        NoneEmptyIsUnbroken(s[1..], n - |s[0]|);
      }
    }
  }

  lemma {:induction false} CutAdds(s: Segments, m: nat, n: nat)
    requires Cut(s, m)
    ensures Cut(AfterCut(s, m), n) <==> Cut(s, m + n)
    ensures Cut(s, m + n) ==> AfterCut(AfterCut(s, m), n) == AfterCut(s, m + n)
    decreases |s|
  {
    if m > 0 {
      CutAdds(s[1..], m - |s[0]|, n);
    }
  }

  /** No byte is skipped or reordered, whatever fails on the way. */
  lemma {:induction false} GatherKeeps(s: Segments, got: seq<byte>, asked: nat, size: nat)
    requires |got| <= size && asked <= size
    ensures var d := Gather(s, got, asked, size);
      && d.data + Flat(d.rest) == got + Flat(s)
      && |got| <= |d.data| <= size && d.data[..|got|] == got
    decreases asked - |got|
  {
    hide Flat, RawRecv;
    if |got| < asked {
      var r := RawRecv(s, size - |got|);
      RawRecvKeeps(s, size - |got|);
      if r.data == [] {
        assert r.data + Flat(r.rest) == Flat(r.rest);
      } else {
        var got' := got + r.data;
        GatherKeeps(r.rest, got', asked, size);
        Joined(got, r.data, Flat(r.rest), Gather(r.rest, got', asked, size).data);
      }
    }
  }

  /** Without failures only the end of the stream cuts a receive short. */
  lemma {:induction false} GatherToTheEnd(s: Segments, got: seq<byte>, asked: nat, size: nat)
    requires NoneEmpty(s) && |got| <= size && asked <= size
    ensures var d := Gather(s, got, asked, size);
      NoneEmpty(d.rest) && (|d.data| < asked ==> d.rest == [])
    decreases asked - |got|
  {
    hide NoneEmpty, Flat, Cut, AfterCut, RawRecv;
    if |got| < asked {
      var r := RawRecv(s, size - |got|);
      RawRecvKeeps(s, size - |got|);
      if r.data != [] {
        GatherToTheEnd(r.rest, got + r.data, asked, size);
      }
    }
  }

  /** A receive gets what it asks for exactly when nothing fails before that; if it does not fill its buffer,
      it stops at a delivery. */
  lemma {:induction false} GatherStops(s: Segments, got: seq<byte>, asked: nat, size: nat)
    requires |got| <= size && asked <= size
    ensures var d := Gather(s, got, asked, size);
      && |got| <= |d.data|
      && (|got| <= asked ==> (|d.data| >= asked <==> Unbroken(s, asked - |got|)))
      && (|d.data| >= asked ==> Unbroken(s, |d.data| - |got|))
      && (|d.data| >= asked && |d.data| < size ==>
            Cut(s, |d.data| - |got|) && d.rest == AfterCut(s, |d.data| - |got|))
    decreases asked - |got|
  {
    hide NoneEmpty, Flat, Cut, AfterCut, RawRecv, Unbroken;
    CutNothing(s);
    if |got| < asked {
      var r := RawRecv(s, size - |got|);
      RawRecvKeeps(s, size - |got|);
      if r.data == [] {
        NothingIsBroken(s, asked - |got|);
      } else {
        var got' := got + r.data;
        var d := Gather(r.rest, got', asked, size);
        GatherStops(r.rest, got', asked, size);
        if |got'| >= asked {
          UnbrokenLess(s, asked - |got|, |r.data|);
        } else {
          UnbrokenAdds(s, |r.data|, asked - |got'|);
          if |d.data| >= asked {
            UnbrokenAdds(s, |r.data|, |d.data| - |got'|);
            if |d.data| < size {
              CutAdds(s, |r.data|, |d.data| - |got'|);
            }
          }
        }
      }
    }
  }

  lemma NothingIsBroken(s: Segments, n: nat)
    requires s == [] || s[0] == []
    ensures n > 0 ==> !Unbroken(s, n)
  {
  }

  lemma CutNothing(s: Segments)
    ensures Cut(s, 0) && AfterCut(s, 0) == s && Unbroken(s, 0)
  {
  }

  lemma Joined<T>(a: seq<T>, b: seq<T>, c: seq<T>, longer: seq<T>)
    ensures a + (b + c) == a + b + c
    ensures |a + b| <= |longer| && longer[..|a + b|] == a + b ==> longer[..|a|] == a
  {
    if |a + b| <= |longer| {
      assert longer[..|a|] == longer[..|a + b|][..|a|];
      assert (a + b)[..|a|] == a;
    }
  }

  /** A whole receive. */
  lemma RecvKeeps(s: Segments, asked: nat, size: nat)
    requires asked <= size
    ensures var d := Gather(s, [], asked, size);
      && d.data + Flat(d.rest) == Flat(s) && |d.data| <= size
      && |Flat(d.rest)| == |Flat(s)| - |d.data|
      && (|d.data| >= asked <==> Unbroken(s, asked))
      && (|d.data| >= asked ==> Unbroken(s, |d.data|))
      && (|d.data| >= asked && |d.data| < size ==> Cut(s, |d.data|) && d.rest == AfterCut(s, |d.data|))
    ensures NoneEmpty(s) ==>
      var d := Gather(s, [], asked, size);
      NoneEmpty(d.rest) && (|d.data| < asked ==> d.rest == [])
  {
    hide Gather, Flat, NoneEmpty, Cut, AfterCut, Unbroken;
    GatherKeeps(s, [], asked, size);
    GatherStops(s, [], asked, size);
    if NoneEmpty(s) {
      GatherToTheEnd(s, [], asked, size);
    }
    var d := Gather(s, [], asked, size);
    assert [] + Flat(s) == Flat(s);
    assert |d.data + Flat(d.rest)| == |d.data| + |Flat(d.rest)|;
  }

  /** A delivery boundary that lies at or beyond the asked bytes is never crossed. */
  lemma {:induction false} GatherStopsAtCut(s: Segments, got: seq<byte>, asked: nat, size: nat, n: nat)
    requires |got| < asked <= |got| + n <= size && Cut(s, n)
    requires |Gather(s, got, asked, size).data| >= asked
    ensures var d := Gather(s, got, asked, size);
      && |d.data| <= |got| + n
      && Cut(d.rest, |got| + n - |d.data|)
      && AfterCut(d.rest, |got| + n - |d.data|) == AfterCut(s, n)
    decreases asked - |got|
  {
    var got' := got + s[0];
    assert RawRecv(s, size - |got|) == Delivery(s[0], s[1..]);
    if |got'| < asked {
      GatherStopsAtCut(s[1..], got', asked, size, n - |s[0]|);
    }
  }

  /** The connection as the threads see it: its unread deliveries and the buffers sent so far. */
  class GenericSocket {
    var incoming: Segments
    var outgoing: seq<seq<byte>>
    var attempts: nat
    /** Whether the k-th call of send gets all its bytes out. */
    const sendWorks: nat -> bool

    constructor (incoming: Segments, sendWorks: nat -> bool)
      ensures this.incoming == incoming && outgoing == [] && attempts == 0
      ensures this.sendWorks == sendWorks
    {
      this.incoming := incoming;
      this.outgoing := [];
      this.attempts := 0;
      this.sendWorks := sendWorks;
    }

    /** False is the exception; an empty buffer is refused without touching the connection. */
    method Send(buffer: seq<byte>) returns (ok: bool)
      modifies this`outgoing, this`attempts
      ensures buffer == [] ==> !ok && attempts == old(attempts)
      ensures buffer != [] ==> ok == sendWorks(old(attempts)) && attempts == old(attempts) + 1
      ensures outgoing == old(outgoing) + if ok then [buffer] else []
    {
      if buffer == [] {
        return false;
      }
      ok := sendWorks(attempts);
      attempts := attempts + 1;
      if ok {
        outgoing := outgoing + [buffer];
      }
    }

    /** A short result stands for a closed or failing connection. */
    method Recv(asked: nat) returns (received: seq<byte>)
      requires asked > 0
      modifies this`incoming
      ensures Delivery(received, incoming) == Gather(old(incoming), [], asked, BufferSize(asked))
    {
      var size := BufferSize(asked);
      received := [];
      while true
        invariant |received| < asked
        invariant Gather(incoming, received, asked, size) == Gather(old(incoming), [], asked, size)
        decreases asked - |received|
      {
        var d := RawRecv(incoming, size - |received|);
        incoming := d.rest;
        if d.data == [] {
          break;
        }
        received := received + d.data;
        if |received| >= asked {
          break;
        }
      }
    }
  }

  /** A delivery that is long enough is taken whole, together with what came behind the asked bytes, unless it is longer
      than the buffer: 300 bytes, or 100 more than were asked for if these are over 300. */
  lemma OneDelivery(u: seq<byte>, s: Segments, asked: nat)
    requires 0 < asked <= |u|
    ensures Gather([u] + s, [], asked, BufferSize(asked)) ==
      var n := if asked > 300 then asked + 100 else 300;
      if |u| <= n then Delivery(u, s) else Delivery(u[..n], [u[n..]] + s)
  {
    var n := BufferSize(asked);
    assert ([u] + s)[1..] == s && [] + u == u && (n < |u| ==> [] + u[..n] == u[..n]);
    assert RawRecv([u] + s, n) == if |u| <= n then Delivery(u, s) else Delivery(u[..n], [u[n..]] + s);
  }
}
