/**
 * The per-connection objects of src/client/wl.js: a `Client` owns the map
 * from object ids to `Resource`s, decodes and dispatches requests, and
 * sends events through the shared scratch buffer; a `Resource` carries
 * its version, its implementation table and its destroy listeners.
 *
 * What the engine does to the outside world (frames handed to the socket,
 * the socket closed, callbacks outside this model invoked) is recorded, in
 * order, in the client's `log`.
 */
module Wl {
  import opened Util
  import opened Bytes
  import opened Wire
  import opened Scratch
  import opened WlDisplay

  /**
   * An entry of an implementation table. The display's `sync` and
   * `get_registry` and the registry's `bind` are the closures of
   * `_bindDisplay`; every other implementation is code outside this model.
   */
  datatype Handler = DisplaySync | DisplayGetRegistry | RegistryBind | External

  /** What the engine does outside its own state, in order. */
  datatype Effect =
    | Send(target: int, opcode: int, args: seq<Arg>, frame: seq<u8>) // `socket.send` of an event frame
    | CloseSocket                                                   // `socket.close()`
    | CallListener(listener: nat)                                   // a destroy listener, called with an unbound `this`
    | CallBind(bindFunc: nat, resource: int)                        // a global's bind callback, given the new resource
    | CallImplementation(target: int, request: string, args: seq<Arg>) // an implementation outside this model

  /** Whether an operation returned or threw. */
  datatype Status = Done | Thrown(err: Error)

  /** The outcome of sending events: the status, what was sent, and the scratch buffer afterwards. */
  datatype Transmission = Transmission(status: Status, sent: seq<Effect>, buf: seq<u8>)

  /** `$sendEvent` on a client that is `closed` or not, with scratch contents `buf`: nothing at all when closed; otherwise the encoded frame is sent, or the encoder's exception is thrown with nothing sent. */
  function Transmit(closed: bool, buf: seq<u8>, target: int, opcode: int, types: seq<string>, args: seq<Arg>): (t: Transmission)
    requires |buf| == SCRATCH_SIZE
    ensures |t.buf| == SCRATCH_SIZE
    ensures |t.sent| <= 1 && (t.sent != [] ==> t.status == Done)
  {
    if closed then Transmission(Done, [], buf)
    else match EncodeEvent(buf, target, opcode, types, args)
      case Encoded(b, f) => Transmission(Done, [Send(target, opcode, args, f)], b)
      case EncodeFailed(e, b) => Transmission(Thrown(e), [], b)
  }

  /** An event stub of `Resource.create`: the event named `name` of the resource's interface (the last one of that name), or a TypeError when there is none. */
  function EmitEvent(closed: bool, buf: seq<u8>, target: int, iface: Iface, name: string, args: seq<Arg>): (t: Transmission)
    requires |buf| == SCRATCH_SIZE
    ensures |t.buf| == SCRATCH_SIZE
    ensures |t.sent| <= 1 && (t.sent != [] ==> t.status == Done)
  {
    var op := EventOpcode(iface.events, name);
    if op < 0 then Transmission(Thrown(TypeError), [], buf)
    else Transmit(closed, buf, target, op, iface.events[op].signature, args)
  }

  /** `t` preceded by effects already sent. */
  function After(sent: seq<Effect>, t: Transmission): Transmission
  {
    t.(sent := sent + t.sent)
  }

  /** The arguments of one `global` event: the name, the interface name and the version. */
  function GlobalArgs(a: (int, string, int)): seq<Arg>
  {
    [Uint(a.0), Str(a.1), Uint(a.2)]
  }

  /** The `global` events of `get_registry`, one per announcement in order, stopping at the first exception. */
  function Announce(closed: bool, buf: seq<u8>, target: int, iface: Iface, anns: seq<(int, string, int)>): (t: Transmission)
    requires |buf| == SCRATCH_SIZE
    ensures |t.buf| == SCRATCH_SIZE
    decreases |anns|
  {
    if anns == [] then Transmission(Done, [], buf)
    else
      var t := EmitEvent(closed, buf, target, iface, "global", GlobalArgs(anns[0]));
      if t.status.Thrown? then t
      else After(t.sent, Announce(closed, t.buf, target, iface, anns[1..]))
  }

  /** The announcements from the `i`-th on: the `i`-th event, then, unless it threw, the rest. */
  lemma AnnounceStep(closed: bool, buf: seq<u8>, target: int, iface: Iface, anns: seq<(int, string, int)>, i: nat)
    requires |buf| == SCRATCH_SIZE && i < |anns|
    ensures var t := EmitEvent(closed, buf, target, iface, "global", GlobalArgs(anns[i]));
            Announce(closed, buf, target, iface, anns[i..]) ==
              if t.status.Thrown? then t else After(t.sent, Announce(closed, t.buf, target, iface, anns[i + 1..]))
  {
    assert anns[i..][0] == anns[i] && anns[i..][1..] == anns[i + 1..];
  }

  lemma AfterAfter(a: seq<Effect>, b: seq<Effect>, t: Transmission)
    ensures After(a, After(b, t)) == After(a + b, t)
  {
  }

  /**
   * An open client hands an encodable event to the socket as exactly one
   * frame: its header carries the target, the opcode and the frame's own
   * length, and its body reads back as the arguments the peer expects.
   */
  lemma TransmitDelivers(buf: seq<u8>, target: int, opcode: int, types: seq<string>, args: seq<Arg>,
                         v: View, cat: map<string, Iface>, fds: seq<int>)
    requires |buf| == SCRATCH_SIZE && IsU32(target) && IsU16(opcode)
    requires EncodableFrom(ParseTypes(types), args, 0, v, cat)
    requires 8 + SizeFrom(ParseTypes(types), args, 0) <= SCRATCH_SIZE
    ensures var t := Transmit(false, buf, target, opcode, types, args);
            t.status == Done && |t.sent| == 1 && t.sent[0].Send? &&
            var f := t.sent[0].frame;
            t.sent[0] == Send(target, opcode, args, f) &&
            U32At(f, 0) == target && U16At(f, 4) == opcode && U16At(f, 6) == |f| &&
            ReadArgsFrom(f, cat, Cursor(8, v, fds), ParseTypes(types), 0, []) ==
              ArgsRead(ExpectedFrom(ParseTypes(types), args, 0, v, cat),
                       Cursor(|f|, ViewAfterAll(ParseTypes(types), args, 0, v, cat), fds))
  {
    FrameRoundTrip(buf, target, opcode, types, args, v, cat, fds);
  }

  /** An event stub that returns sends nothing on a closed client and exactly its own event, from its resource, on an open one. */
  lemma EmitSendsOne(closed: bool, buf: seq<u8>, target: int, iface: Iface, name: string, args: seq<Arg>)
    requires |buf| == SCRATCH_SIZE
    ensures var t := EmitEvent(closed, buf, target, iface, name, args);
            t.status == Done ==>
              (closed ==> t.sent == []) &&
              (!closed ==> |t.sent| == 1 && t.sent[0].Send? && t.sent[0].target == target && t.sent[0].args == args)
  {
  }

  /** `sent` are `global` events from `target` for the first announcements of `anns`, one each and in order. */
  predicate GlobalsSent(sent: seq<Effect>, target: int, anns: seq<(int, string, int)>)
  {
    |sent| <= |anns| &&
    forall k :: 0 <= k < |sent| ==> sent[k].Send? && sent[k].target == target && sent[k].args == GlobalArgs(anns[k])
  }

  /** The event for the first announcement followed by events for the rest, in order, are events for the whole list, in order. */
  lemma GlobalsSentCons(first: seq<Effect>, rest: seq<Effect>, target: int, anns: seq<(int, string, int)>)
    requires anns != [] && |first| == 1 && first[0].Send? && first[0].target == target && first[0].args == GlobalArgs(anns[0])
    requires GlobalsSent(rest, target, anns[1..])
    ensures GlobalsSent(first + rest, target, anns)
  {
    forall k | 1 <= k < 1 + |rest|
      ensures (first + rest)[k] == rest[k - 1] && anns[1..][k - 1] == anns[k]
    {
    }
  }

  /**
   * `get_registry` announces the globals in table order: the events sent
   * are `global` events from the registry for the first announcements,
   * one each; a closed client sends none, and an open one that does not
   * throw sends all of them.
   */
  lemma {:induction false} AnnounceInOrder(closed: bool, buf: seq<u8>, target: int, iface: Iface, anns: seq<(int, string, int)>)
    requires |buf| == SCRATCH_SIZE
    ensures var t := Announce(closed, buf, target, iface, anns);
            GlobalsSent(t.sent, target, anns) &&
            (closed ==> t.sent == []) &&
            (!closed && t.status == Done ==> |t.sent| == |anns|)
    decreases |anns|
  {
    if anns != [] {
      var t0 := EmitEvent(closed, buf, target, iface, "global", GlobalArgs(anns[0]));
      if !t0.status.Thrown? {
        AnnounceInOrder(closed, t0.buf, target, iface, anns[1..]);
        var rest := Announce(closed, t0.buf, target, iface, anns[1..]);
        assert Announce(closed, buf, target, iface, anns).sent == t0.sent + rest.sent;
        EmitSendsOne(closed, buf, target, iface, "global", GlobalArgs(anns[0]));
        if !closed {
          GlobalsSentCons(t0.sent, rest.sent, target, anns);
        }
      }
    }
  }

  /** The destroy listeners called, in the order given. */
  function Runs(listeners: seq<nat>): (r: seq<Effect>)
    ensures |r| == |listeners|
    ensures forall k :: 0 <= k < |listeners| ==> r[k] == CallListener(listeners[k])
  {
    seq(|listeners|, k requires 0 <= k < |listeners| => CallListener(listeners[k]))
  }

  /** Listeners kept newest first run in the reverse of the order in which they were added. */
  lemma RunsNewestFirst(added: seq<nat>)
    ensures var r := Runs(Reverse(added));
            |r| == |added| && forall k :: 0 <= k < |added| ==> r[k] == CallListener(added[|added| - 1 - k])
  {
    forall k | 0 <= k < |added|
      ensures Runs(Reverse(added))[k] == CallListener(added[|added| - 1 - k])
    {
      ReverseAt(added, k);
    }
  }

  /** The listener calls of destroying the first `n` resources named in `ids`, in that order (ids not mapped contribute nothing). */
  function ClosingRuns(objects: map<int, Resource>, ids: seq<int>, n: nat): seq<Effect>
    requires n <= |ids|
    reads objects.Values
  {
    if n == 0 then []
    else
      var id := ids[n - 1];
      ClosingRuns(objects, ids, n - 1) + (if id in objects then Runs(objects[id].listeners) else [])
  }

  /** Once the client is closed, an event stub sends nothing: it returns, or throws a TypeError when the interface has no such event. */
  lemma ClosedSendsNothing(buf: seq<u8>, target: int, iface: Iface, name: string, args: seq<Arg>)
    requires |buf| == SCRATCH_SIZE
    ensures var t := EmitEvent(true, buf, target, iface, name, args);
            t.sent == [] && t.buf == buf &&
            t.status == if EventOpcode(iface.events, name) < 0 then Thrown(TypeError) else Done
  {
  }

  /** A number argument as JavaScript would use it as an integer (a fixed-point value is not used as one here). */
  function AsInteger(a: Arg): Option<int>
  {
    match a
    case Int(i) => Some(i)
    case Uint(u) => Some(u)
    case _ => None
  }

  /** `readString` run byte by byte: the length, `length - 1` characters, the NUL check, then the code's padding. */
  method ReadStringAt(frame: seq<u8>, c: Cursor) returns (r: ArgRead)
    ensures r == ReadString(frame, c)
  {
    var pos := c.pos;
    if pos + 4 > |frame| {
      return ReadFailed(RangeError);
    }
    var length := U32At(frame, pos);
    pos := pos + 4;
    var n := if length >= 1 then length - 1 else 0;
    var s := "";
    var i := 0;
    while i < n
      invariant 0 <= i <= n && pos == c.pos + 4 + i && pos <= |frame|
      invariant s == Latin1(frame[c.pos + 4..pos])
    {
      if pos >= |frame| {
        return ReadFailed(RangeError);
      }
      assert Latin1(frame[c.pos + 4..pos + 1]) == s + [frame[pos] as char] by {
        SliceNext(frame, c.pos + 4, pos);
      }
      s := s + [frame[pos] as char];
      pos := pos + 1;
      i := i + 1;
    }
    if pos >= |frame| {
      return ReadFailed(RangeError);
    }
    if frame[pos] != 0 {
      return ReadFailed(BadNullByte);
    }
    pos := pos + 1;
    r := Read(Str(s), c.(pos := pos + Pad(length)));
  }

  class Resource {
    const client: Client
    const id: int
    const iface: Iface
    var version: Arg
    var impl: map<string, Handler>
    var listeners: seq<nat>
    /** The listeners in the order `addDestroyListener` received them. */
    ghost var added: seq<nat>

    /** Listeners are kept newest first. */
    ghost predicate Valid()
      reads this
    {
      listeners == Reverse(added)
    }

    /** `Resource(client, objectID)`: no version, no implementation, no listeners, and registered with its client under its id. */
    constructor(client: Client, id: int, iface: Iface)
      requires client.Tables()
      modifies client`objects, client`order
      ensures this.client == client && this.id == id && this.iface == iface
      ensures version == Undefined && impl == map[] && listeners == [] && added == []
      ensures Valid()
      ensures client.Tables()
      ensures client.objects == old(client.objects)[id := this]
      ensures client.ObjectView() == Register(old(client.ObjectView()), id, iface)
    {
      this.client := client;
      this.id := id;
      this.iface := iface;
      version := Undefined;
      impl := map[];
      listeners := [];
      added := [];
      new;
      client.RegisterObject(this);
    }

    /** `setVersion`: stores whatever it is given. */
    method SetVersion(v: Arg)
      modifies this`version
      ensures version == v
    {
      version := v;
    }

    /** `setImplementation`: replaces the whole table. */
    method SetImplementation(m: map<string, Handler>)
      modifies this`impl
      ensures impl == m
    {
      impl := m;
    }

    /** `addDestroyListener`: the new listener goes to the front, so listeners run newest first. */
    method AddDestroyListener(f: nat)
      requires Valid()
      modifies this`listeners, this`added
      ensures Valid()
      ensures added == old(added) + [f]
      ensures listeners == [f] + old(listeners)
    {
      ReverseSnoc(added, f);
      listeners := [f] + listeners;
      added := added + [f];
    }

    /** An event stub: looks the event up by name and sends it from this resource. */
    method Emit(name: string, args: seq<Arg>) returns (st: Status)
      requires client.scratch.Length == SCRATCH_SIZE
      modifies client`log, client.scratch
      ensures var t := EmitEvent(client.closed, old(client.scratch[..]), id, iface, name, args);
              st == t.status && client.log == old(client.log) + t.sent && client.scratch[..] == t.buf
    {
      var op := EventOpcode(iface.events, name);
      if op < 0 {
        return Thrown(TypeError);
      }
      st := client.SendEvent(id, op, iface.events[op].signature, args);
    }

    /**
     * `destroy`: `delete_id` with this resource's id on the client's display
     * resource, then every listener, newest first. The id stays in the
     * object map.
     */
    method Destroy() returns (st: Status)
      requires client.Bound()
      modifies client`log, client.scratch
      ensures var d := client.displayResource;
              var t := EmitEvent(client.closed, old(client.scratch[..]), d.id, d.iface, "delete_id", [Uint(id)]);
              st == t.status && client.scratch[..] == t.buf &&
              client.log == old(client.log) + t.sent + (if t.status == Done then Runs(listeners) else [])
    {
      st := client.displayResource.Emit("delete_id", [Uint(id)]);
      if st.Thrown? {
        return;
      }
      client.RunListeners(listeners);
    }

    /** `$handleRequest(opcode, args)`: calls the implementation of the request's name; a missing one is a TypeError. */
    method HandleRequest(opcode: int, args: seq<Arg>) returns (st: Status)
      requires client.Valid() && 0 <= opcode < |iface.requests|
      modifies client`log, client`objects, client`order, client.scratch, client.display, client.objects.Values
      ensures client.Valid()
      ensures forall r :: r in client.objects.Values ==> r in old(client.objects.Values) || fresh(r)
      ensures var name := iface.requests[opcode].name;
              (name !in old(impl) || old(impl)[name] == External ==>
                 client.objects == old(client.objects) && client.order == old(client.order) &&
                 client.Kept(old(client.objects.Values))) &&
              (name !in old(impl) ==> st == Thrown(TypeError) && client.log == old(client.log)) &&
              (name in old(impl) && old(impl)[name] == External ==>
                 st == Done && client.log == old(client.log) + [CallImplementation(id, name, args)])
    {
      var name := iface.requests[opcode].name;
      if name !in impl {
        return Thrown(TypeError);
      }
      match impl[name]
      case DisplaySync => st := client.Sync(this, args);
      case DisplayGetRegistry => st := client.GetRegistry(args);
      case RegistryBind => st := client.Bind(args);
      case External =>
        client.log := client.log + [CallImplementation(id, name, args)];
        st := Done;
    }
  }

  class Client {
    const display: Display
    /** `tmpBuffer`, shared by every client. */
    const scratch: array<u8>
    /** The `wl` namespace: interface descriptors by name, for typed new-ids. */
    const catalog: map<string, Iface>
    var displayResource: Resource?
    var objects: map<int, Resource>
    /** The ids of `objects` in insertion order. */
    var order: seq<int>
    var closed: bool
    var log: seq<Effect>

    /** The object map is an insertion-ordered map keyed by each resource's own id. */
    predicate Tables()
      reads this`objects, this`order, display
    {
      display.Valid() && scratch.Length == SCRATCH_SIZE &&
      |order| == |objects| &&
      (forall id :: id in order ==> id in objects) &&
      (forall id :: id in objects ==> id in order && objects[id].id == id && objects[id].client == this)
    }

    /** A bootstrapped client: the tables, and the display resource bound to this client. */
    predicate Valid()
      reads this`objects, this`order, this`displayResource, display
    {
      Tables() && Bound()
    }

    /** The display resource is bound to this client, which owns the scratch buffer. */
    predicate Bound()
      reads this`displayResource
    {
      displayResource != null && displayResource.client == this && scratch.Length == SCRATCH_SIZE
    }

    /** The object map as the codec sees it. */
    function ObjectView(): View
      reads this`objects, this`order
    {
      View(order, map id | id in objects :: objects[id].iface)
    }

    /** The object map's view is well formed: its order lists every mapped id exactly once. */
    lemma TablesView()
      requires Tables()
      ensures ViewValid(ObjectView())
    {
      assert forall id :: id in order <==> id in objects.Keys;
      DistinctByCount(order, objects.Keys);
    }

    /** The scratch buffer, the display and the fields of the resources `rs` are as they were. */
    twostate predicate Kept(rs: set<Resource>)
      reads scratch, display, rs
    {
      scratch[..] == old(scratch[..]) && display.serial == old(display.serial) && display.globals == old(display.globals) &&
      forall r :: r in rs ==>
        r.version == old(r.version) && r.impl == old(r.impl) && r.listeners == old(r.listeners) && r.added == old(r.added)
    }

    /** The resource an object argument names, if it is mapped. */
    function Target(a: Arg): set<Resource>
      reads this`objects
    {
      if a.Obj? && a.id in objects then {objects[a.id]} else {}
    }

    /** `new Client(display, socket)`: an empty object map, then `_bindDisplay`. */
    constructor(display: Display, scratch: array<u8>, catalog: map<string, Iface>)
      requires display.Valid() && scratch.Length == SCRATCH_SIZE && "wl_display" in catalog
      ensures Valid()
      ensures this.display == display && this.scratch == scratch && this.catalog == catalog
      ensures !closed && log == []
      ensures order == [1] && objects == map[1 := displayResource]
      ensures displayResource.iface == catalog["wl_display"] && displayResource.version == Uint(1)
      ensures displayResource.impl == map["sync" := DisplaySync, "get_registry" := DisplayGetRegistry]
    {
      this.display := display;
      this.scratch := scratch;
      this.catalog := catalog;
      displayResource := null;
      objects := map[];
      order := [];
      closed := false;
      log := [];
      new;
      BindDisplay();
    }

    /** `_bindDisplay`: the display resource at id 1, version 1, with `sync` and `get_registry`. */
    method BindDisplay()
      requires Tables() && "wl_display" in catalog
      modifies this`displayResource, this`objects, this`order
      ensures Valid()
      ensures fresh(displayResource) && displayResource.id == 1
      ensures objects == old(objects)[1 := displayResource]
      ensures order == if 1 in old(objects) then old(order) else old(order) + [1]
      ensures displayResource.iface == catalog["wl_display"] && displayResource.version == Uint(1)
      ensures displayResource.impl == map["sync" := DisplaySync, "get_registry" := DisplayGetRegistry]
    {
      var d := new Resource(this, 1, catalog["wl_display"]);
      d.SetVersion(Uint(1));
      d.SetImplementation(map["sync" := DisplaySync, "get_registry" := DisplayGetRegistry]);
      displayResource := d;
    }

    /** `$registerObject`: `Map.prototype.set` under the resource's id; an existing entry is overwritten in place. */
    method RegisterObject(obj: Resource)
      requires Tables() && obj.client == this
      modifies this`objects, this`order
      ensures Tables()
      ensures objects == old(objects)[obj.id := obj]
      ensures order == if obj.id in old(objects) then old(order) else old(order) + [obj.id]
      ensures ObjectView() == Register(old(ObjectView()), obj.id, obj.iface)
    {
      if obj.id !in objects {
        order := order + [obj.id];
      }
      objects := objects[obj.id := obj];
    }

    /** `getObject`: the resource mapped under `id`, which carries that id and belongs to this client. */
    function GetObject(id: int): (r: Option<Resource>)
      reads this`objects, this`order, display
      requires Tables()
      ensures r.Some? <==> id in ObjectView().ifaces
      ensures r.Some? ==> r.value.id == id && r.value.client == this && r.value.iface == ObjectView().ifaces[id]
    {
      if id in objects then Some(objects[id]) else None
    }

    /** `$sendEvent`: nothing once the client is closed; otherwise the frame is encoded into the scratch buffer and sent. */
    method SendEvent(target: int, opcode: int, types: seq<string>, args: seq<Arg>) returns (st: Status)
      requires scratch.Length == SCRATCH_SIZE
      modifies this`log, scratch
      ensures var t := Transmit(closed, old(scratch[..]), target, opcode, types, args);
              st == t.status && log == old(log) + t.sent && scratch[..] == t.buf
    {
      if closed {
        return Done;
      }
      var r := Encode(scratch, target, opcode, types, args);
      match r
      case Sent(f) =>
        log := log + [Send(target, opcode, args, f)];
        st := Done;
      case Failed(e) =>
        st := Thrown(e);
    }

    /** One `readArg` of `$handleRequest`, reading from this client's object map and registering typed new-ids in it. */
    method ReadArgAt(frame: seq<u8>, pos: nat, fds: seq<int>, t: ArgType) returns (r: ArgRead)
      requires Tables()
      modifies this`objects, this`order
      ensures Tables()
      ensures forall x :: x in objects.Values ==> x in old(objects.Values) || fresh(x)
      ensures r == ReadArg(frame, catalog, Cursor(pos, old(ObjectView()), fds), t)
      ensures ObjectView() == if r.Read? then r.next.view else old(ObjectView())
    {
      var c := Cursor(pos, ObjectView(), fds);
      match t
      case StringT =>
        r := ReadStringAt(frame, c);
      case ObjectT(iface, nullable) =>
        if pos + 4 > |frame| {
          return ReadFailed(RangeError);
        }
        var id := U32At(frame, pos);
        var obj := GetObject(id);
        if obj.None? {
          r := if nullable then Read(Null, c.(pos := pos + 4)) else ReadFailed(BadObject);
        } else if obj.value.iface.name != iface {
          r := ReadFailed(BadObject);
        } else {
          r := Read(Obj(id, iface), c.(pos := pos + 4));
        }
      case NewIdT(iface) =>
        if pos + 4 > |frame| {
          return ReadFailed(RangeError);
        }
        var id := U32At(frame, pos);
        if |iface| == 0 {
          return Read(Uint(id), c.(pos := pos + 4));
        }
        if iface !in catalog {
          return ReadFailed(IllegalType(iface));
        }
        var res := new Resource(this, id, catalog[iface]);
        r := Read(Obj(id, catalog[iface].name), c.(pos := pos + 4, view := ObjectView()));
      case _ =>
        // the number, array and fd readers touch neither the object map nor a loop
        r := ReadArg(frame, catalog, c, t);
    }

    /** `$handleRequest` up to the dispatch: the header, the target, the request's types read one by one, and the size check. */
    method DecodeInto(frame: seq<u8>, fds: seq<int>) returns (d: Decoded)
      requires Tables()
      modifies this`objects, this`order
      ensures Tables()
      ensures forall x :: x in objects.Values ==> x in old(objects.Values) || fresh(x)
      ensures d == DecodeRequest(frame, catalog, old(ObjectView()), fds)
      ensures ObjectView() == if d.Decoded? then d.end.view else d.at.view
    {
      var c0 := Cursor(8, ObjectView(), fds);
      if |frame| < 8 {
        return DecodeFailed(RangeError, c0);
      }
      var id := U32At(frame, 0);
      var opcode := U16At(frame, 4);
      var size := U16At(frame, 6);
      var obj := GetObject(id);
      if obj.None? {
        return DecodeFailed(NoObject(id), c0);
      }
      var requests := obj.value.iface.requests;
      if opcode >= |requests| {
        return DecodeFailed(NoRequest(opcode), c0);
      }
      var types := requests[opcode].signature;
      ghost var ts := ParseTypes(types);
      var c := c0;
      var args: seq<Arg> := [];
      var i := 0;
      while i < |types|
        invariant 0 <= i <= |types|
        invariant Tables() && c.view == ObjectView()
        invariant forall x :: x in objects.Values ==> x in old(objects.Values) || fresh(x)
        invariant ReadArgsFrom(frame, catalog, c, ts, i, args) == ReadArgsFrom(frame, catalog, c0, ts, 0, [])
      {
        var r := ReadArgAt(frame, c.pos, c.fds, ParseType(types[i]));
        if r.ReadFailed? {
          return DecodeFailed(r.err, c);
        }
        args := args + [r.arg];
        c := r.next;
        i := i + 1;
      }
      if c.pos != size {
        return DecodeFailed(SizeMismatch, c);
      }
      d := Decoded(Request(id, opcode, args), c);
    }

    /**
     * `$handleRequest(buffer, fds)`: decodes the request (taking descriptors
     * from the front of `fds`) and dispatches it to the resource that was
     * mapped under the target id before its arguments were read.
     */
    method HandleRequest(frame: seq<u8>, fds: seq<int>) returns (st: Status, fdsLeft: seq<int>)
      requires Valid()
      modifies this`log, this`objects, this`order, scratch, display, objects.Values
      ensures Valid()
      ensures forall x :: x in objects.Values ==> x in old(objects.Values) || fresh(x)
      ensures var d := DecodeRequest(frame, catalog, old(ObjectView()), fds);
              (d.DecodeFailed? ==> st == Thrown(d.err) && fdsLeft == d.at.fds && log == old(log) && ObjectView() == d.at.view &&
                                   Kept(old(objects.Values))) &&
              (d.Decoded? ==> fdsLeft == d.end.fds)
    ensures st == Done ==> |frame| >= 8
    {
      var target: Option<Resource> := None;
      if |frame| >= 8 {
        target := GetObject(U32At(frame, 0));
      }
      var d := DecodeInto(frame, fds);
      if d.DecodeFailed? {
        return Thrown(d.err), d.at.fds;
      }
      fdsLeft := d.end.fds;
      st := target.value.HandleRequest(d.req.opcode, d.req.args);
    }

    /** The display's `sync(callback)`: the callback takes the display resource's version and gets `done` with the next serial. */
    method Sync(self: Resource, args: seq<Arg>) returns (st: Status)
      requires Valid()
      modifies this`log, scratch, display, Target(ArgAt(args, 0))
      ensures Valid()
      ensures display.globals == old(display.globals)
      ensures forall r :: r in Target(ArgAt(args, 0)) ==>
                r.impl == old(r.impl) && r.listeners == old(r.listeners) && r.added == old(r.added)
      ensures var cb := ArgAt(args, 0);
              (Target(cb) == {} ==> st == Thrown(TypeError) && log == old(log) && display.serial == old(display.serial) &&
                                    scratch[..] == old(scratch[..])) &&
              (Target(cb) != {} ==>
                 var r := objects[cb.id];
                 r.version == old(self.version) && display.serial == SerialAfter(old(display.serial)) &&
                 var t := EmitEvent(closed, old(scratch[..]), r.id, r.iface, "done", [Uint(display.serial)]);
                 st == t.status && log == old(log) + t.sent && scratch[..] == t.buf)
    {
      var cb := ArgAt(args, 0);
      if !(cb.Obj? && cb.id in objects) {
        return Thrown(TypeError);
      }
      var callback := objects[cb.id];
      callback.SetVersion(self.version);
      var serial := display.NextSerial();
      st := callback.Emit("done", [Uint(serial)]);
    }

    /** The display's `get_registry(registry)`: version 1, the `bind` implementation, then one `global` event per global in table order. */
    method GetRegistry(args: seq<Arg>) returns (st: Status)
      requires Valid()
      modifies this`log, scratch, Target(ArgAt(args, 0))
      ensures Valid()
      ensures var a := ArgAt(args, 0);
              (Target(a) == {} ==> st == Thrown(TypeError) && log == old(log) && scratch[..] == old(scratch[..])) &&
              (Target(a) != {} ==>
                 var r := objects[a.id];
                 r.version == Uint(1) && r.impl == map["bind" := RegistryBind] &&
                 r.listeners == old(r.listeners) && r.added == old(r.added) &&
                 var t := Announce(closed, old(scratch[..]), r.id, r.iface, Announcements(display.globals));
                 st == t.status && log == old(log) + t.sent && scratch[..] == t.buf)
    {
      var a := ArgAt(args, 0);
      if !(a.Obj? && a.id in objects) {
        return Thrown(TypeError);
      }
      var registry := objects[a.id];
      registry.SetVersion(Uint(1));
      registry.SetImplementation(map["bind" := RegistryBind]);
      st := SendGlobals(registry, Announcements(display.globals));
    }

    /** The `forEach` of `get_registry`: one `global` event from the registry per announcement, in order, until one throws. */
    method SendGlobals(registry: Resource, anns: seq<(int, string, int)>) returns (st: Status)
      requires registry.client == this && scratch.Length == SCRATCH_SIZE
      modifies this`log, scratch
      ensures var t := Announce(closed, old(scratch[..]), registry.id, registry.iface, anns);
              st == t.status && log == old(log) + t.sent && scratch[..] == t.buf
    {
      ghost var whole := Announce(closed, scratch[..], registry.id, registry.iface, anns);
      ghost var start := log;
      ghost var sent: seq<Effect> := [];
      var i := 0;
      while i < |anns|
        invariant 0 <= i <= |anns|
        invariant log == start + sent
        invariant After(sent, Announce(closed, scratch[..], registry.id, registry.iface, anns[i..])) == whole
      {
        st, sent := AnnounceNext(registry, anns, i, start, sent, whole);
        if st.Thrown? {
          return;
        }
        i := i + 1;
      }
      st := Done;
    }

    /** One `global` event of `get_registry`: either it throws, which ends the announcements, or the rest follow it. */
    method AnnounceNext(registry: Resource, anns: seq<(int, string, int)>, i: nat, ghost start: seq<Effect>,
                        ghost sent: seq<Effect>, ghost whole: Transmission) returns (st: Status, ghost sent': seq<Effect>)
      requires registry.client == this && scratch.Length == SCRATCH_SIZE && i < |anns|
      requires log == start + sent
      requires After(sent, Announce(closed, scratch[..], registry.id, registry.iface, anns[i..])) == whole
      modifies this`log, scratch
      ensures st.Thrown? ==> st == whole.status && log == start + whole.sent && scratch[..] == whole.buf
      ensures st.Done? ==> log == start + sent' &&
                           After(sent', Announce(closed, scratch[..], registry.id, registry.iface, anns[i + 1..])) == whole
    {
      ghost var t := EmitEvent(closed, scratch[..], registry.id, registry.iface, "global", GlobalArgs(anns[i]));
      AnnounceStep(closed, scratch[..], registry.id, registry.iface, anns, i);
      st := registry.Emit("global", GlobalArgs(anns[i]));
      sent' := sent + t.sent;
      if st.Done? {
        AfterAfter(sent, t.sent, Announce(closed, t.buf, registry.id, registry.iface, anns[i + 1..]));
      }
    }

    /** The registry's `bind(name, interface, version, id)`: the global named `name` is constructed at the peer's id with the given version, and its bind callback runs. */
    method Bind(args: seq<Arg>) returns (st: Status)
      requires Valid()
      modifies this`objects, this`order, this`log
      ensures Valid()
      ensures forall x :: x in objects.Values ==> x in old(objects.Values) || fresh(x)
      ensures var name := AsInteger(ArgAt(args, 0));
              var g := if name.Some? then FindGlobal(display.globals, name.value) else None;
              var id := AsInteger(ArgAt(args, 3));
              (g.None? ==> st == Thrown(TypeError) && objects == old(objects) && order == old(order) && log == old(log)) &&
              (g.Some? && id.None? ==> st == Thrown(BadArgument) && objects == old(objects) && order == old(order) && log == old(log)) &&
              (g.Some? && id.Some? ==>
                 st == Done && id.value in objects && fresh(objects[id.value]) &&
                 objects == old(objects)[id.value := objects[id.value]] &&
                 order == (if id.value in old(objects) then old(order) else old(order) + [id.value]) &&
                 ObjectView() == Register(old(ObjectView()), id.value, g.value.iface) &&
                 objects[id.value].impl == map[] && objects[id.value].listeners == [] &&
                 objects[id.value].iface == g.value.iface && objects[id.value].version == ArgAt(args, 2) &&
                 log == old(log) + [CallBind(g.value.bindFunc, id.value)])
    {
      var name := AsInteger(ArgAt(args, 0));
      var g := if name.Some? then FindGlobal(display.globals, name.value) else None;
      if g.None? {
        return Thrown(TypeError);
      }
      var id := AsInteger(ArgAt(args, 3));
      if id.None? {
        return Thrown(BadArgument);
      }
      var resource := new Resource(this, id.value, g.value.iface);
      resource.SetVersion(ArgAt(args, 2));
      log := log + [CallBind(g.value.bindFunc, id.value)];
      st := Done;
    }

    /** The `forEach` of `destroy`: each listener is called in list order. */
    method RunListeners(listeners: seq<nat>)
      modifies this`log
      ensures log == old(log) + Runs(listeners)
    {
      var i := 0;
      while i < |listeners|
        invariant 0 <= i <= |listeners|
        invariant log == old(log) + Runs(listeners[..i])
      {
        TakeNext(listeners, i);
        log := log + [CallListener(listeners[i])];
        i := i + 1;
      }
      assert listeners[..i] == listeners;
    }

    /** Whether the display resource's interface has a `delete_id` event. */
    predicate SendsDeleteId()
      reads this`displayResource
    {
      displayResource != null && EventOpcode(displayResource.iface.events, "delete_id") >= 0
    }

    /** One `resource.destroy()` of `_close`, on a closed client: the `i`-th resource in insertion order is destroyed, and since no frame is sent only its listeners run, unless the display has no `delete_id` event. */
    method DestroyClosed(i: nat, ghost start: seq<Effect>) returns (st: Status)
      requires Bound() && closed && i < |order| && order[i] in objects && objects[order[i]].client == this
      requires log == start + ClosingRuns(objects, order, i)
      modifies this`log, scratch
      ensures SendsDeleteId() ==> st == Done && log == start + ClosingRuns(objects, order, i + 1)
      ensures !SendsDeleteId() ==> st == Thrown(TypeError) && log == old(log)
    {
      var id := order[i];
      var r := objects[id];
      ClosedSendsNothing(scratch[..], displayResource.id, displayResource.iface, "delete_id", [Uint(id)]);
      ghost var runs := ClosingRuns(objects, order, i);
      st := r.Destroy();
      assert runs == ClosingRuns(objects, order, i);
    }

    /**
     * `_close`: the socket is closed and the client marked closed, then
     * every mapped resource is destroyed in insertion order. Since the
     * client is closed, no `delete_id` is sent; only the listeners run.
     */
    method Close() returns (st: Status)
      requires Valid()
      modifies this`log, this`closed, scratch
      ensures Valid() && closed
      ensures st == Done ==> log == old(log) + [CloseSocket] + ClosingRuns(objects, order, |order|)
      ensures st != Done ==> st == Thrown(TypeError) && log == old(log) + [CloseSocket] && order != [] && !SendsDeleteId()
      ensures SendsDeleteId() ==> st == Done
      ensures !SendsDeleteId() && order != [] ==> st == Thrown(TypeError)
    {
      log := log + [CloseSocket];
      closed := true;
      st := DestroyAll();
    }

    /** The `forEach` of `_close` over the object map, in insertion order, stopping at the first exception. */
    method DestroyAll() returns (st: Status)
      requires Valid() && closed
      modifies this`log, scratch
      ensures st == Done ==> log == old(log) + ClosingRuns(objects, order, |order|)
      ensures st != Done ==> st == Thrown(TypeError) && log == old(log) && order != [] && !SendsDeleteId()
      ensures SendsDeleteId() ==> st == Done
      ensures !SendsDeleteId() && order != [] ==> st == Thrown(TypeError)
    {
      ghost var start := log;
      var i := 0;
      while i != |order|
        invariant 0 <= i <= |order| && Bound()
        invariant forall id :: id in order ==> id in objects && objects[id].client == this
        invariant log == start + ClosingRuns(objects, order, i)
        invariant !SendsDeleteId() ==> i == 0
      {
        st := DestroyClosed(i, start);
        if st.Thrown? {
          return;
        }
        i := i + 1;
      }
      st := Done;
    }
  }
}
