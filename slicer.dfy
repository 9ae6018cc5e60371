/**
 * The frame slicer of `setupSocketReader` (src/client/wl.js): queued
 * WebSocket messages are cut into requests at a cursor `pos`, each request
 * being as long as the 16-bit size field of its own header says.
 */
module Slicer {
  import opened Util
  import opened Bytes
  import opened Wire

  /** One `processMessage` on the message at the head of the queue: the slice handed to `$handleRequest` and where the cursor goes, or the exception. */
  datatype Cut = Cut(slice: seq<u8>, next: nat, shift: bool) | CutFailed(err: Error)

  /**
   * The header's size is read at `pos + 6` (a RangeError when the message
   * holds fewer than eight bytes from `pos`); a size larger than what is
   * left throws; otherwise the slice is `[pos, pos + size)` and the cursor
   * moves past it, the message being shifted off the queue, and the cursor
   * reset, when the slice ends it.
   */
  function CutAt(msg: seq<u8>, pos: nat): Cut
    requires pos <= |msg|
  {
    if pos + 8 > |msg| then CutFailed(RangeError)
    else
      var size := U16At(msg, pos + 6);
      if |msg| - pos < size then CutFailed(Overrun)
      else if pos + size == |msg| then Cut(msg[pos..pos + size], 0, true)
      else Cut(msg[pos..pos + size], pos + size, false)
  }

  /** The bytes not yet handed to `$handleRequest`: the rest of the head message from the cursor on, then every later message. */
  function Pending(queue: seq<seq<u8>>, pos: nat): seq<u8>
    requires queue != [] ==> pos <= |queue[0]|
  {
    if queue == [] then [] else queue[0][pos..] + Flatten(queue[1..])
  }

  /** The queue after a cut: the head message is shifted off when the slice ends it. */
  function QueueAfter(queue: seq<seq<u8>>, shift: bool): seq<seq<u8>>
    requires queue != []
  {
    if shift then queue[1..] else queue
  }

  /** A successful cut is as long as the size field declares, and the slice carries its own length at offset 6 whenever it is long enough to hold a header. */
  lemma CutSize(msg: seq<u8>, pos: nat)
    requires pos <= |msg| && CutAt(msg, pos).Cut?
    ensures var c := CutAt(msg, pos);
            |c.slice| == U16At(msg, pos + 6) &&
            (|c.slice| >= 8 ==> U16At(c.slice, 6) == |c.slice|)
  {
    var c := CutAt(msg, pos);
    if |c.slice| >= 8 {
      SliceHeader(msg, pos, |c.slice|);
    }
  }

  /** A successful cut hands over exactly the bytes at the front of what is pending, and leaves the cursor within the new head message. */
  lemma CutConsumes(queue: seq<seq<u8>>, pos: nat)
    requires queue != [] && pos <= |queue[0]|
    requires CutAt(queue[0], pos).Cut?
    ensures var c := CutAt(queue[0], pos);
            var q := QueueAfter(queue, c.shift);
            (q != [] ==> c.next <= |q[0]|) &&
            Pending(queue, pos) == c.slice + Pending(q, c.next)
  {
    CutSplits(queue[0], pos);
    if CutAt(queue[0], pos).shift {
      PendingFromStart(queue[1..]);
    }
  }

  /** The rest of a message from the cursor is the slice a cut takes, then what follows it. */
  lemma CutSplits(msg: seq<u8>, pos: nat)
    requires pos <= |msg| && CutAt(msg, pos).Cut?
    ensures var c := CutAt(msg, pos);
            msg[pos..] == c.slice + msg[pos + |c.slice|..] &&
            (c.shift ==> msg[pos + |c.slice|..] == []) &&
            (!c.shift ==> c.next == pos + |c.slice|)
  {
    var c := CutAt(msg, pos);
    assert msg[pos..] == c.slice + msg[pos + |c.slice|..];
  }

  /** A slice taken at `pos` reads the same size field as the message it came from. */
  lemma SliceHeader(msg: seq<u8>, pos: nat, size: nat)
    requires 8 <= size && pos + size <= |msg|
    ensures U16At(msg[pos..pos + size], 6) == U16At(msg, pos + 6)
  {
    var sl := msg[pos..pos + size];
    assert sl[6] == msg[pos + 6] && sl[7] == msg[pos + 7];
  }

  /** With the cursor at the start of the head message, everything queued is pending. */
  lemma PendingFromStart(queue: seq<seq<u8>>)
    ensures Pending(queue, 0) == Flatten(queue)
  {
    if queue != [] {
      assert queue[0][0..] == queue[0];
    }
  }

  /** A cut fails with a RangeError exactly when the header's size field lies past the message's end, and with an overrun exactly when the declared size exceeds what is left. */
  lemma CutFailures(msg: seq<u8>, pos: nat)
    requires pos <= |msg|
    ensures CutAt(msg, pos) == CutFailed(RangeError) <==> pos + 8 > |msg|
    ensures CutAt(msg, pos) == CutFailed(Overrun) <==> pos + 8 <= |msg| && U16At(msg, pos + 6) > |msg| - pos
  {
  }

  /** A message pushed onto the queue is pending after everything already pending. */
  lemma PendingPush(queue: seq<seq<u8>>, pos: nat, data: seq<u8>)
    requires queue == [] ==> pos == 0
    requires queue != [] ==> pos <= |queue[0]|
    ensures Pending(queue + [data], pos) == Pending(queue, pos) + data
  {
    if queue == [] {
      assert Flatten<u8>([]) == [];
      assert data[0..] == data;
    } else {
      assert (queue + [data])[1..] == queue[1..] + [data];
      FlattenPush(queue[1..], data);
    }
  }

  lemma {:induction false} FlattenPush(ss: seq<seq<u8>>, s: seq<u8>)
    ensures Flatten(ss + [s]) == Flatten(ss) + s
  {
    if ss == [] {
      assert [s][1..] == [];
    } else {
      assert (ss + [s])[1..] == ss[1..] + [s];
      FlattenPush(ss[1..], s);
    }
  }
}
