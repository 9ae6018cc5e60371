/**
 * `setupSocketReader` (src/client/wl.js): the closure state behind a
 * client's `socket.onmessage`. Text markers select what the next binary
 * message is; Wayland messages are queued and cut into requests for the
 * client, descriptor messages feed the FIFO that `h` arguments are taken
 * from, and any exception while requests are processed detaches the handler.
 */
module Reader {
  import opened Util
  import opened Bytes
  import opened Wire
  import opened Slicer
  import opened Wl

  /** What the WebSocket hands to `onmessage`: the text `"wl"` or `"fd"`, or a binary message. */
  datatype Delivery = WlMarker | FdMarker | Binary(data: seq<u8>)

  /** The closure's `mode`: undefined until the first marker. */
  datatype Mode = Unset | WlMode | FdMode

  /** The elements of `new Int32Array(data)` for a length divisible by four, in the platform's (little-endian) byte order. */
  function Int32s(data: seq<u8>): (r: seq<int>)
    requires |data| % 4 == 0
    ensures |r| == |data| / 4
  {
    if data == [] then [] else [I32At(data, 0)] + Int32s(data[4..])
  }

  /** Descriptors packed four little-endian bytes each, as the peer sends them. */
  function PackI32s(ks: seq<int>): seq<u8>
    requires forall k :: k in ks ==> IsI32(k)
  {
    if ks == [] then [] else LeU32(ToUint32(ks[0])) + PackI32s(ks[1..])
  }

  /** Each element of the typed array is the int32 at four times its index. */
  lemma {:induction false} Int32sAt(data: seq<u8>, k: nat)
    requires |data| % 4 == 0 && k < |data| / 4
    ensures Int32s(data)[k] == I32At(data, 4 * k)
  {
    if k > 0 {
      Int32sAt(data[4..], k - 1);
      assert data[4..][4 * (k - 1)..4 * (k - 1) + 4] == data[4 * k..4 * k + 4];
    } else if |data| > 4 {
      Int32sAt(data[4..], 0);
    }
  }

  /** A message of packed descriptors is read back as exactly those descriptors. */
  lemma {:induction false} FdsRoundTrip(ks: seq<int>)
    requires forall k :: k in ks ==> IsI32(k)
    ensures |PackI32s(ks)| == 4 * |ks|
    ensures Int32s(PackI32s(ks)) == ks
  {
    if ks != [] {
      var data := PackI32s(ks);
      FdsRoundTrip(ks[1..]);
      assert data[4..] == PackI32s(ks[1..]);
      assert data[0..4] == LeU32(ToUint32(ks[0]));
      I32RoundTrip(data, 0, ks[0]);
    }
  }

  class SocketReader {
    const client: Client
    var mode: Mode
    /** `messageBuffer`: the queued Wayland messages, the first one read from `pos` on. */
    var queue: seq<seq<u8>>
    var pos: nat
    /** `fds`: the descriptor FIFO shared with the decoder. */
    var fds: seq<int>
    /** Whether `socket.onmessage` is still this handler. */
    var attached: bool
    /** Every byte queued as a Wayland message, in order. */
    ghost var received: seq<u8>
    /** Every slice handed to `$handleRequest`, in order. */
    ghost var handled: seq<seq<u8>>

    /** The cursor lies within the head message, and what was received is what was handed over followed by what is pending. */
    ghost predicate Valid()
      reads this`queue, this`pos, this`received, this`handled
    {
      (queue == [] ==> pos == 0) && (queue != [] ==> pos <= |queue[0]|) &&
      received == Flatten(handled) + Pending(queue, pos)
    }

    /** `setupSocketReader(socket, client)`: an empty queue and FIFO, no mode, the handler installed. */
    constructor(client: Client)
      ensures Valid()
      ensures this.client == client && mode == Unset && queue == [] && pos == 0 && fds == [] && attached
      ensures received == [] && handled == []
    {
      this.client := client;
      mode := Unset;
      queue := [];
      pos := 0;
      fds := [];
      attached := true;
      received := [];
      handled := [];
    }

    /** A cut keeps the reader's invariant: the slice moves from what is pending to what was handed over. */
    static lemma CutKeepsValid(queue: seq<seq<u8>>, pos: nat, handled: seq<seq<u8>>, received: seq<u8>)
      requires queue != [] && pos <= |queue[0]| && CutAt(queue[0], pos).Cut?
      requires received == Flatten(handled) + Pending(queue, pos)
      ensures var c := CutAt(queue[0], pos);
              var q := QueueAfter(queue, c.shift);
              (q == [] ==> c.next == 0) && (q != [] ==> c.next <= |q[0]|) &&
              received == Flatten(handled + [c.slice]) + Pending(q, c.next) &&
              |Pending(q, c.next)| == |Pending(queue, pos)| - |c.slice|
    {
      var c := CutAt(queue[0], pos);
      var q := QueueAfter(queue, c.shift);
      assert Pending(queue, pos) == c.slice + Pending(q, c.next) && (q != [] ==> c.next <= |q[0]|) by {
        CutConsumes(queue, pos);
      }
      FlattenPush(handled, c.slice);
      Regroup(received, Flatten(handled), c.slice, Pending(queue, pos), Pending(q, c.next));
    }

    /** `processMessage`: false on an empty queue; otherwise a cut, then the slice handed to the client with the FIFO, which returns only for a slice holding at least a header. */
    method ProcessMessage() returns (st: Status, more: bool)
      requires Valid() && client.Valid()
      modifies this`queue, this`pos, this`fds, this`handled
      modifies client`log, client`objects, client`order, client.scratch, client.display, client.objects.Values
      ensures Valid() && client.Valid()
      ensures forall x :: x in client.objects.Values ==> x in old(client.objects.Values) || fresh(x)
      ensures more ==> |Pending(queue, pos)| < old(|Pending(queue, pos)|)
      ensures old(queue) == [] || CutAt(old(queue)[0], old(pos)).CutFailed? ==>
                client.log == old(client.log) && client.objects == old(client.objects) && client.order == old(client.order) &&
                client.Kept(old(client.objects.Values))
      ensures old(queue) == [] ==>
                st == Done && !more && queue == [] && pos == old(pos) && fds == old(fds) && handled == old(handled)
      ensures old(queue) != [] ==>
                var c := CutAt(old(queue)[0], old(pos));
                (c.CutFailed? ==>
                   st == Thrown(c.err) && !more && queue == old(queue) && pos == old(pos) && fds == old(fds) &&
                   handled == old(handled)) &&
                (c.Cut? ==>
                   queue == QueueAfter(old(queue), c.shift) && pos == c.next && handled == old(handled) + [c.slice] &&
                   more == (st == Done) && (st == Done ==> |c.slice| >= 8))
    {
      if queue == [] {
        return Done, false;
      }
      var c := CutAt(queue[0], pos);
      if c.CutFailed? {
        return Thrown(c.err), false;
      }
      TakeSlice(c);
      st := Dispatch(c.slice);
      more := st == Done;
    }

    /** The cut's effect on the reader: the slice leaves the queue and joins what was handed over. */
    method TakeSlice(c: Cut)
      requires Valid() && queue != [] && c == CutAt(queue[0], pos) && c.Cut?
      modifies this`queue, this`pos, this`handled
      ensures Valid()
      ensures queue == QueueAfter(old(queue), c.shift) && pos == c.next && handled == old(handled) + [c.slice]
      ensures |Pending(queue, pos)| == old(|Pending(queue, pos)|) - |c.slice|
    {
      CutKeepsValid(queue, pos, handled, received);
      queue, pos, handled := QueueAfter(queue, c.shift), c.next, handled + [c.slice];
    }

    /** The call that ends `processMessage`: `$handleRequest` on the slice with the FIFO, which takes the descriptors the request's `h` arguments consume. */
    method Dispatch(slice: seq<u8>) returns (st: Status)
      requires client.Valid()
      modifies this`fds
      modifies client`log, client`objects, client`order, client.scratch, client.display, client.objects.Values
      ensures client.Valid()
      ensures forall x :: x in client.objects.Values ==> x in old(client.objects.Values) || fresh(x)
      ensures st == Done ==> |slice| >= 8
    {
      var left;
      st, left := client.HandleRequest(slice, fds);
      fds := left;
    }

    /** `processMessages`: requests are processed until the queue is empty or one throws; when none throws, everything received has been handed over. */
    method ProcessMessages() returns (st: Status)
      requires Valid() && client.Valid()
      modifies this`queue, this`pos, this`fds, this`handled
      modifies client`log, client`objects, client`order, client.scratch, client.display, client.objects.Values
      ensures Valid() && client.Valid()
      ensures forall x :: x in client.objects.Values ==> x in old(client.objects.Values) || fresh(x)
      ensures |handled| >= |old(handled)| && handled[..|old(handled)|] == old(handled)
      ensures st == Done ==> queue == [] && Flatten(handled) == received
    {
      while true
        invariant Valid() && client.Valid()
        invariant forall x :: x in client.objects.Values ==> x in old(client.objects.Values) || fresh(x)
        invariant |handled| >= |old(handled)| && handled[..|old(handled)|] == old(handled)
        decreases |Pending(queue, pos)|
      {
        ghost var before := handled;
        var more;
        st, more := ProcessMessage();
        assert handled[..|before|] == before;
        if !more {
          if st == Done {
            assert Pending(queue, pos) == [];
          }
          return;
        }
      }
    }

    /** The loop of the `"fd"` branch: every int32 of the message is pushed onto the FIFO in order. */
    method PushFds(data: seq<u8>)
      requires |data| % 4 == 0
      modifies this`fds
      ensures fds == old(fds) + Int32s(data)
    {
      var n := |data| / 4;
      var i := 0;
      while i < n
        invariant 0 <= i <= n && |Int32s(data)| == n
        invariant fds == old(fds) + Int32s(data)[..i]
      {
        Int32sAt(data, i);
        TakeNext(Int32s(data), i);
        fds := fds + [I32At(data, 4 * i)];
        i := i + 1;
      }
      assert Int32s(data)[..n] == Int32s(data);
    }

    /**
     * `socket.onmessage(event)`, while it is installed: a marker sets the
     * mode; a binary message is read as descriptors in `"fd"` mode (a
     * RangeError for a length not divisible by four), queued and processed
     * in `"wl"` mode, and ignored before any marker. An exception while
     * processing uninstalls the handler.
     */
    method OnMessage(m: Delivery) returns (st: Status)
      requires Valid() && client.Valid()
      modifies this`mode, this`queue, this`pos, this`fds, this`handled, this`received, this`attached
      modifies client`log, client`objects, client`order, client.scratch, client.display, client.objects.Values
      ensures Valid() && client.Valid()
      ensures forall x :: x in client.objects.Values ==> x in old(client.objects.Values) || fresh(x)
      ensures !old(attached) || m.WlMarker? || m.FdMarker? || old(mode) != WlMode ==>
                queue == old(queue) && pos == old(pos) && received == old(received) && handled == old(handled) &&
                client.log == old(client.log) && client.objects == old(client.objects) && client.order == old(client.order) &&
                client.Kept(old(client.objects.Values))
      ensures !old(attached) ==> st == Done && mode == old(mode) && fds == old(fds) && !attached
      ensures old(attached) && m.WlMarker? ==> st == Done && mode == WlMode && fds == old(fds) && attached
      ensures old(attached) && m.FdMarker? ==> st == Done && mode == FdMode && fds == old(fds) && attached
      ensures old(attached) && m.Binary? && old(mode) == Unset ==> st == Done && mode == Unset && fds == old(fds) && attached
      ensures old(attached) && m.Binary? && old(mode) == FdMode ==>
                mode == FdMode && attached &&
                (|m.data| % 4 != 0 ==> st == Thrown(RangeError) && fds == old(fds)) &&
                (|m.data| % 4 == 0 ==> st == Done && fds == old(fds) + Int32s(m.data))
      ensures old(attached) && m.Binary? && old(mode) == WlMode ==>
                mode == WlMode && received == old(received) + m.data &&
                |handled| >= |old(handled)| && handled[..|old(handled)|] == old(handled) &&
                (st == Done ==> attached && queue == [] && Flatten(handled) == received) &&
                (st != Done ==> !attached)
    {
      st := Done;
      if !attached {
        return;
      }
      match m
      case WlMarker => mode := WlMode;
      case FdMarker => mode := FdMode;
      case Binary(data) => st := OnBinary(data);
    }

    /** A binary message while attached: descriptors in `"fd"` mode, requests in `"wl"` mode, nothing before a marker. */
    method OnBinary(data: seq<u8>) returns (st: Status)
      requires Valid() && client.Valid() && attached
      modifies this`queue, this`pos, this`fds, this`handled, this`received, this`attached
      modifies client`log, client`objects, client`order, client.scratch, client.display, client.objects.Values
      ensures Valid() && client.Valid()
      ensures forall x :: x in client.objects.Values ==> x in old(client.objects.Values) || fresh(x)
      ensures mode != WlMode ==>
                queue == old(queue) && pos == old(pos) && received == old(received) && handled == old(handled) &&
                client.log == old(client.log) && client.objects == old(client.objects) && client.order == old(client.order) &&
                client.Kept(old(client.objects.Values))
      ensures mode == Unset ==> st == Done && fds == old(fds) && attached
      ensures mode == FdMode ==>
                attached &&
                (|data| % 4 != 0 ==> st == Thrown(RangeError) && fds == old(fds)) &&
                (|data| % 4 == 0 ==> st == Done && fds == old(fds) + Int32s(data))
      ensures mode == WlMode ==>
                received == old(received) + data &&
                |handled| >= |old(handled)| && handled[..|old(handled)|] == old(handled) &&
                (st == Done ==> attached && queue == [] && Flatten(handled) == received) &&
                (st != Done ==> !attached)
    {
      st := Done;
      if mode == FdMode {
        if |data| % 4 != 0 {
          return Thrown(RangeError);
        }
        PushFds(data);
      } else if mode == WlMode {
        st := Receive(data);
        if st != Done {
          attached := false;
        }
      }
    }

    /** The `"wl"` branch: the message is queued, then requests are processed; when none throws, everything received has been handed over. */
    method Receive(data: seq<u8>) returns (st: Status)
      requires Valid() && client.Valid()
      modifies this`queue, this`pos, this`fds, this`handled, this`received
      modifies client`log, client`objects, client`order, client.scratch, client.display, client.objects.Values
      ensures Valid() && client.Valid()
      ensures forall x :: x in client.objects.Values ==> x in old(client.objects.Values) || fresh(x)
      ensures received == old(received) + data
      ensures |handled| >= |old(handled)| && handled[..|old(handled)|] == old(handled)
      ensures st == Done ==> queue == [] && Flatten(handled) == received
    {
      PendingPush(queue, pos, data);
      queue := queue + [data];
      received := received + data;
      st := ProcessMessages();
    }
  }
}
