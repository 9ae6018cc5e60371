/**
 * The Wayland wire codec of the browser-side engine (src/client/wl.js):
 * the `read*` helpers of `Client.prototype.$handleRequest` and the `write*`
 * helpers of `Client.prototype.$sendEvent`, written as functions of the
 * frame (for decoding) or of the shared scratch buffer's previous contents
 * (for encoding: padding bytes are skipped, not written, so they keep
 * whatever an earlier event left there).
 *
 * A message is an 8-byte header (object id: u32 at 0, opcode: u16 at 4,
 * total size: u16 at 6, all little-endian) followed by the arguments.
 *
 * Where the code cannot run as written, the evident intent is modelled:
 *  - the decoder maps `readArg` over the request's `types` (the code maps
 *    it over the empty `args` array; see `DecodeRequestAsWritten`);
 *  - `readObject` and `readNewID` use the receiving client (the code names
 *    an undefined `display` and `client`), and `readObject` returns the
 *    object it looked up;
 *  - `readObject` and `writeObject` check the object's interface through
 *    `obj.constructor.$iface`, as the rest of the file does (the code reads
 *    `obj.$iface`, which `Resource.create` never sets on an instance, so
 *    every non-null object argument would throw);
 *  - `readArray` reads its length through the frame's view (the code's
 *    `var view` shadows it) and pads by the byte length it just sliced;
 *  - `writeArg` switches on the type tag (the code switches on an undefined
 *    `op`), and `writeArray` writes its length through the view and pads
 *    by the array's byte length (the code names an undefined `length`).
 * The string padding `4 - length % 4` is kept exactly as written, for both
 * directions; `CodePadVersusWayland` states how it differs from the
 * Wayland wire format.
 */
module Wire {
  import opened Util
  import opened Bytes

  /** A request or event descriptor: its name and its argument type strings. */
  datatype Message = Message(name: string, signature: seq<string>)

  /** An interface descriptor, consumed as data. */
  datatype Iface = Iface(name: string, version: int, requests: seq<Message>, events: seq<Message>)

  /** The type of one argument, as selected by the first character of its type string. */
  datatype ArgType =
    | IntT
    | UintT
    | FixedT
    | StringT
    | ObjectT(iface: string, nullable: bool)
    | NewIdT(iface: string)
    | ArrayT
    | FdT
    | UnknownT   // a tag the switch has no case for: nothing is read or written

  /** `readArg`/`writeArg`'s prefix handling: an optional `?`, then the tag, then the interface name. */
  function ParseType(t: string): ArgType
  {
    var nullable := |t| > 0 && t[0] == '?';
    var u := if nullable then t[1..] else t;
    if |u| == 0 then UnknownT
    else if u[0] == 'i' then IntT
    else if u[0] == 'u' then UintT
    else if u[0] == 'f' then FixedT
    else if u[0] == 's' then StringT
    else if u[0] == 'o' then ObjectT(u[1..], nullable)
    else if u[0] == 'n' then NewIdT(u[1..])
    else if u[0] == 'a' then ArrayT
    else if u[0] == 'h' then FdT
    else UnknownT
  }

  /** The canonical type string of an argument type. */
  function TypeString(t: ArgType): string
  {
    match t
    case IntT => "i"
    case UintT => "u"
    case FixedT => "f"
    case StringT => "s"
    case ObjectT(iface, nullable) => (if nullable then "?o" else "o") + iface
    case NewIdT(iface) => "n" + iface
    case ArrayT => "a"
    case FdT => "h"
    case UnknownT => ""
  }

  /** Every argument type is recovered from its canonical type string. */
  lemma ParseTypeString(t: ArgType)
    ensures ParseType(TypeString(t)) == t
  {
    match t
    case ObjectT(iface, nullable) =>
      var s := TypeString(t);
      if nullable {
        assert s[1..] == "o" + iface && s[0] == '?';
        assert (s[1..])[1..] == iface;
      } else {
        assert s[0] == 'o' && s[1..] == iface;
      }
    case NewIdT(iface) =>
      assert TypeString(t)[1..] == iface;
    case _ =>
  }

  function ParseTypes(ts: seq<string>): (r: seq<ArgType>)
    ensures |r| == |ts|
    ensures forall i :: 0 <= i < |ts| ==> r[i] == ParseType(ts[i])
  {
    seq(|ts|, i requires 0 <= i < |ts| => ParseType(ts[i]))
  }

  /** A JavaScript argument value as the codec sees it. */
  datatype Arg =
    | Int(i: int)                 // a number read by `readInt`
    | Uint(u: int)                // a number read by `readUint` or an untyped `readNewID`, or passed by the engine
    | Fixed(x: real)              // a number read by `readFixed` (wire value / 256)
    | Str(s: string)
    | Obj(id: int, iface: string) // a resource: its object id and its interface name
    | Null                        // null, or the undefined returned by a failed nullable lookup
    | Arr(bytes: seq<u8>)
    | Fd(fd: int)
    | Undefined                   // JavaScript undefined

  predicate IsNumber(a: Arg) { a.Int? || a.Uint? || a.Fixed? }

  function NumberValue(a: Arg): real
    requires IsNumber(a)
  {
    match a
    case Int(i) => i as real
    case Uint(u) => u as real
    case Fixed(x) => x
  }

  /** Truncation toward zero, the first step of ToInt32/ToUint32. */
  function Trunc(x: real): (k: int)
    ensures x >= 0.0 ==> k as real <= x < k as real + 1.0
    ensures x < 0.0 ==> k as real - 1.0 < x <= k as real
  {
    if x >= 0.0 then x.Floor else -((-x).Floor)
  }

  /** The exceptions the engine throws. */
  datatype Error =
    | RangeError        // a DataView or typed-array access outside its buffer
    | BadNullByte       // "bad null byte"
    | BadObject         // "Got a bad object" / "Bad object"
    | RequiredObject    // "Required object, got null"
    | IllegalType(name: string)
    | NoObject(id: int) // "No object by ID"
    | NoRequest(opcode: int) // the TypeError of `request[1]` when the interface has no request with that opcode
    | SizeMismatch      // "Size mismatch"
    | Overrun           // a declared size larger than the bytes left ("This shouldn't happen")
    | FdUnsupported     // "welp": descriptors cannot be sent
    | TypeError         // a missing handler, event, global or object method
    | BadArgument       // an argument of the wrong kind for its slot, which JavaScript would coerce or misread

  /** The object map as the codec sees it: ids in insertion order and each id's interface. */
  datatype View = View(order: seq<int>, ifaces: map<int, Iface>)

  predicate ViewValid(v: View)
  {
    NoDups(v.order) && v.ifaces.Keys == set id | id in v.order
  }

  /** `Map.prototype.set`: a new id is appended to the order, an existing one keeps its place. */
  function Register(v: View, id: int, iface: Iface): (r: View)
    ensures r.ifaces == v.ifaces[id := iface]
    ensures id in v.ifaces ==> r.order == v.order
    ensures id !in v.ifaces ==> r.order == v.order + [id]
  {
    View(if id in v.ifaces then v.order else v.order + [id], v.ifaces[id := iface])
  }

  /** Registering keeps the order free of duplicates and in step with the map's keys. */
  lemma RegisterKeepsValid(v: View, id: int, iface: Iface)
    requires ViewValid(v)
    ensures ViewValid(Register(v, id, iface))
  {
  }

  /** The padding after a string or array of `length` bytes, as the code computes it. */
  function Pad(length: int): int
  {
    4 - length % 4
  }

  /** The padding the Wayland wire format prescribes: up to the next multiple of 4. */
  function WaylandPad(length: int): int
  {
    (4 - length % 4) % 4
  }

  /** The code's padding agrees with the Wayland format except for lengths that are multiples of 4, where it adds a whole extra word. */
  lemma CodePadVersusWayland(length: nat)
    ensures Pad(length) == WaylandPad(length) <==> length % 4 != 0
    ensures length % 4 == 0 ==> Pad(length) == WaylandPad(length) + 4
    ensures (length + Pad(length)) % 4 == 0 && (length + WaylandPad(length)) % 4 == 0
  {
  }

  predicate Latin1Only(s: string)
  {
    forall i :: 0 <= i < |s| ==> s[i] as int < 0x100
  }

  /** The UTF-16 code units of one character: itself below U+10000, otherwise a high and a low surrogate. */
  function CodeUnitsOf(ch: char): (r: seq<int>)
    ensures ch as int < 0x1_0000 ==> r == [ch as int]
    ensures ch as int >= 0x1_0000 ==>
              |r| == 2 && 0xD800 <= r[0] < 0xDC00 && 0xDC00 <= r[1] < 0xE000 &&
              0x1_0000 + (r[0] - 0xD800) * 0x400 + (r[1] - 0xDC00) == ch as int
  {
    var v := ch as int;
    if v < 0x1_0000 then [v] else [0xD800 + (v - 0x1_0000) / 0x400, 0xDC00 + (v - 0x1_0000) % 0x400]
  }

  /**
   * A JavaScript string as it is stored: its UTF-16 code units, which
   * `length` counts and `charCodeAt` returns one at a time.
   */
  function CodeUnits(s: string): seq<int>
  {
    if s == [] then [] else CodeUnitsOf(s[0]) + CodeUnits(s[1..])
  }

  /** Below U+0100 every character is one code unit equal to its code, so `length` is the number of characters. */
  lemma {:induction false} CodeUnitsLatin1(s: string)
    requires Latin1Only(s)
    ensures |CodeUnits(s)| == |s|
    ensures forall i :: 0 <= i < |s| ==> CodeUnits(s)[i] == s[i] as int
  {
    if s != [] {
      CodeUnitsLatin1(s[1..]);
      assert CodeUnits(s) == [s[0] as int] + CodeUnits(s[1..]);
    }
  }

  /** Reading UTF-16 code units back as characters, pairing surrogates; a lone surrogate has no character. */
  function FromCodeUnits(us: seq<int>): Option<string>
  {
    if us == [] then Some([])
    else if 0 <= us[0] < 0xD800 || 0xE000 <= us[0] < 0x1_0000 then
      match FromCodeUnits(us[1..])
      case None => None
      case Some(rest) => Some([us[0] as char] + rest)
    else if 0xD800 <= us[0] < 0xDC00 && |us| >= 2 && 0xDC00 <= us[1] < 0xE000 then
      match FromCodeUnits(us[2..])
      case None => None
      case Some(rest) => Some([(0x1_0000 + (us[0] - 0xD800) * 0x400 + (us[1] - 0xDC00)) as char] + rest)
    else None
  }

  /** Every string is recovered from its code units: surrogate pairs join back into the characters they came from. */
  lemma {:induction false} CodeUnitsRoundTrip(s: string)
    ensures FromCodeUnits(CodeUnits(s)) == Some(s)
  {
    if s != [] {
      var us := CodeUnits(s);
      var head := CodeUnitsOf(s[0]);
      assert us == head + CodeUnits(s[1..]);
      CodeUnitsRoundTrip(s[1..]);
      if s[0] as int < 0x1_0000 {
        assert us[1..] == CodeUnits(s[1..]);
      } else {
        assert us[2..] == CodeUnits(s[1..]);
      }
      assert [s[0]] + s[1..] == s;
    }
  }

  /** `setUint8(pos, s.charCodeAt(i))` for each code unit: its low byte. */
  function CharBytes(s: string): (r: seq<u8>)
    ensures |r| == |CodeUnits(s)|
  {
    var us := CodeUnits(s);
    seq(|us|, i requires 0 <= i < |us| => us[i] % 0x100)
  }

  /** A character above U+FFFF counts twice: U+1F600 is the code units 0xD83D 0xDE00, whose low bytes 0x3D and 0x00 are written. */
  lemma AstralCharBytes()
    ensures CodeUnits("\U{1F600}") == [0xD83D, 0xDE00]
    ensures CharBytes("\U{1F600}") == [0x3D, 0x00]
  {
    assert CodeUnits("\U{1F600}") == CodeUnitsOf('\U{1F600}') + CodeUnits([]);
  }

  /** `String.fromCharCode(getUint8(pos))` for each byte. */
  function Latin1(bs: seq<u8>): (r: string)
    ensures |r| == |bs|
  {
    seq(|bs|, i requires 0 <= i < |bs| => bs[i] as char)
  }

  lemma Latin1CharBytes(s: string)
    requires Latin1Only(s)
    ensures Latin1(CharBytes(s)) == s
  {
    CodeUnitsLatin1(s);
  }

  // ---------------------------------------------------------------------
  // Decoding (`$handleRequest`'s read helpers)
  // ---------------------------------------------------------------------

  /** The decoder's mutable context: its cursor, the object map and the descriptor queue. */
  datatype Cursor = Cursor(pos: nat, view: View, fds: seq<int>)

  datatype ArgRead = Read(arg: Arg, next: Cursor) | ReadFailed(err: Error)

  /** `readString`: a u32 length that counts the terminating NUL, the bytes, the NUL, then the code's padding. */
  function ReadString(frame: seq<u8>, c: Cursor): (r: ArgRead)
    ensures r.Read? ==> r.arg.Str? && r.next == c.(pos := r.next.pos) && r.next.pos >= c.pos + 4 + |r.arg.s| + 1
    ensures r.ReadFailed? ==> r.err == RangeError || r.err == BadNullByte
    ensures c.pos + 4 > |frame| ==> r == ReadFailed(RangeError)
    ensures c.pos + 4 <= |frame| ==>
              var length := U32At(frame, c.pos);
              var n := if length >= 1 then length - 1 else 0;
              (r == ReadFailed(RangeError) <==> c.pos + 4 + n >= |frame|) &&
              (c.pos + 4 + n < |frame| ==>
                 (r == ReadFailed(BadNullByte) <==> frame[c.pos + 4 + n] != 0) &&
                 (r.Read? ==> r.arg == Str(Latin1(frame[c.pos + 4..c.pos + 4 + n])) &&
                              r.next.pos == c.pos + 4 + n + 1 + Pad(length)))
  {
    var p := c.pos;
    if p + 4 > |frame| then ReadFailed(RangeError)
    else
      var length := U32At(frame, p);
      var n := if length >= 1 then length - 1 else 0;
      if p + 4 + n + 1 > |frame| then ReadFailed(RangeError)
      else if frame[p + 4 + n] != 0 then ReadFailed(BadNullByte)
      else Read(Str(Latin1(frame[p + 4..p + 4 + n])), c.(pos := p + 4 + n + 1 + Pad(length)))
  }

  /** `readObject`: a u32 id looked up in the receiving client's object map and checked against the interface. */
  function ReadObject(frame: seq<u8>, c: Cursor, iface: string, nullable: bool): (r: ArgRead)
    ensures r.Read? ==> r.next == c.(pos := c.pos + 4)
    ensures r.Read? ==> (r.arg.Null? && nullable) || (r.arg.Obj? && r.arg.iface == iface && r.arg.id in c.view.ifaces && c.view.ifaces[r.arg.id].name == iface)
  {
    var p := c.pos;
    if p + 4 > |frame| then ReadFailed(RangeError)
    else
      var id := U32At(frame, p);
      if id !in c.view.ifaces then
        if nullable then Read(Null, c.(pos := p + 4)) else ReadFailed(BadObject)
      else if c.view.ifaces[id].name != iface then ReadFailed(BadObject)
      else Read(Obj(id, iface), c.(pos := p + 4))
  }

  /** `readNewID`: a u32 id; with an interface, a resource is constructed and registered under that id. */
  function ReadNewId(frame: seq<u8>, cat: map<string, Iface>, c: Cursor, iface: string): (r: ArgRead)
    ensures r.Read? ==> r.next.pos == c.pos + 4 && r.next.fds == c.fds
    ensures r.Read? && iface == "" ==> r.arg.Uint? && r.next.view == c.view
    ensures r.Read? && iface != "" ==> iface in cat && r.arg.Obj? && r.arg.iface == cat[iface].name && r.next.view == Register(c.view, r.arg.id, cat[iface])
    ensures r.ReadFailed? && c.pos + 4 <= |frame| ==> r.err == IllegalType(iface) && iface !in cat
  {
    var p := c.pos;
    if p + 4 > |frame| then ReadFailed(RangeError)
    else
      var id := U32At(frame, p);
      if |iface| == 0 then Read(Uint(id), c.(pos := p + 4))
      else if iface !in cat then ReadFailed(IllegalType(iface))
      else Read(Obj(id, cat[iface].name), c.(pos := p + 4, view := Register(c.view, id, cat[iface])))
  }

  /** `readArray`: a u32 byte count, the bytes (the slice stops at the frame's end), then the padding. */
  function ReadArray(frame: seq<u8>, c: Cursor): (r: ArgRead)
    ensures r.Read? ==> r.arg.Arr? && r.next == c.(pos := c.pos + 4 + |r.arg.bytes| + Pad(|r.arg.bytes|))
    ensures r.Read? ==> c.pos + 4 + |r.arg.bytes| <= |frame| && r.arg.bytes == frame[c.pos + 4..c.pos + 4 + |r.arg.bytes|]
    ensures r.ReadFailed? <==> c.pos + 4 > |frame|
  {
    var p := c.pos;
    if p + 4 > |frame| then ReadFailed(RangeError)
    else
      var size := U32At(frame, p);
      var end := Min(p + 4 + size, |frame|);
      var bytes := frame[p + 4..end];
      Read(Arr(bytes), c.(pos := end + Pad(|bytes|)))
  }

  /** One `readArg(type)`: reads one argument at the cursor. A failed read leaves the context as it was. */
  function ReadArg(frame: seq<u8>, cat: map<string, Iface>, c: Cursor, t: ArgType): (r: ArgRead)
    ensures r.Read? && !t.NewIdT? ==> r.next.view == c.view
    ensures r.Read? && t != FdT ==> r.next.fds == c.fds
    ensures r.Read? && t != FdT && t != UnknownT ==> r.next.pos >= c.pos + 4
    ensures t == FdT ==>
              r == if c.fds == [] then Read(Undefined, c) else Read(Fd(c.fds[0]), c.(fds := c.fds[1..]))
  {
    var p := c.pos;
    match t
    case IntT =>
      if p + 4 <= |frame| then Read(Int(I32At(frame, p)), c.(pos := p + 4)) else ReadFailed(RangeError)
    case UintT =>
      if p + 4 <= |frame| then Read(Uint(U32At(frame, p)), c.(pos := p + 4)) else ReadFailed(RangeError)
    case FixedT =>
      if p + 4 <= |frame| then Read(Fixed(I32At(frame, p) as real / 256.0), c.(pos := p + 4))
      else ReadFailed(RangeError)
    case StringT => ReadString(frame, c)
    case ObjectT(iface, nullable) => ReadObject(frame, c, iface, nullable)
    case NewIdT(iface) => ReadNewId(frame, cat, c, iface)
    case ArrayT => ReadArray(frame, c)
    case FdT =>
      if c.fds == [] then Read(Undefined, c) else Read(Fd(c.fds[0]), c.(fds := c.fds[1..]))
    case UnknownT =>
      Read(Undefined, c)
  }

  datatype ArgsRead = ArgsRead(args: seq<Arg>, end: Cursor) | ArgsFailed(err: Error, at: Cursor)

  /** `types.map(readArg)` from the `i`-th type on, after `acc` was read. */
  function ReadArgsFrom(frame: seq<u8>, cat: map<string, Iface>, c: Cursor, ts: seq<ArgType>, i: nat, acc: seq<Arg>): (r: ArgsRead)
    decreases |ts| - i
  {
    if i >= |ts| then ArgsRead(acc, c)
    else match ReadArg(frame, cat, c, ts[i])
      case ReadFailed(e) => ArgsFailed(e, c)
      case Read(a, next) => ReadArgsFrom(frame, cat, next, ts, i + 1, acc + [a])
  }

  /** The arguments that descriptors `fds` become. */
  function FdArgs(fds: seq<int>): seq<Arg>
  {
    seq(|fds|, k requires 0 <= k < |fds| => Fd(fds[k]))
  }

  /** `h` arguments take the descriptor FIFO's entries in order: `k` of them read its first `k` descriptors and leave the rest queued. */
  lemma {:induction false} ReadFdsInOrder(frame: seq<u8>, cat: map<string, Iface>, c: Cursor, ts: seq<ArgType>, i: nat, acc: seq<Arg>)
    requires i <= |ts| && |ts| - i <= |c.fds|
    requires forall j :: i <= j < |ts| ==> ts[j] == FdT
    ensures ReadArgsFrom(frame, cat, c, ts, i, acc) ==
            ArgsRead(acc + FdArgs(c.fds[..|ts| - i]), c.(fds := c.fds[|ts| - i..]))
    decreases |ts| - i
  {
    var k := |ts| - i;
    if k == 0 {
      assert acc + FdArgs(c.fds[..0]) == acc;
      assert c.(fds := c.fds[0..]) == c;
    } else {
      var c1 := c.(fds := c.fds[1..]);
      assert ReadArg(frame, cat, c, ts[i]) == Read(Fd(c.fds[0]), c1);
      ReadFdsInOrder(frame, cat, c1, ts, i + 1, acc + [Fd(c.fds[0])]);
      assert c1.fds[k - 1..] == c.fds[k..];
      assert [Fd(c.fds[0])] + FdArgs(c1.fds[..k - 1]) == FdArgs(c.fds[..k]);
    }
  }

  /** The header fields and the decoded arguments of a request. */
  datatype Request = Request(target: int, opcode: int, args: seq<Arg>)

  datatype Decoded = Decoded(req: Request, end: Cursor) | DecodeFailed(err: Error, at: Cursor)

  /**
   * `Client.prototype.$handleRequest` up to the dispatch: the header, the
   * target lookup, the request descriptor, the arguments and the strict
   * size check. `at` is the context when the exception was thrown (objects
   * constructed by new-id arguments before the failure stay registered).
   */
  function DecodeRequest(frame: seq<u8>, cat: map<string, Iface>, v: View, fds: seq<int>): (d: Decoded)
    ensures d.Decoded? ==> |frame| >= 8 && d.req.target == U32At(frame, 0) && d.req.opcode == U16At(frame, 4)
    ensures d.Decoded? ==> d.end.pos == U16At(frame, 6)
    ensures d.Decoded? ==> d.req.target in v.ifaces && d.req.opcode < |v.ifaces[d.req.target].requests|
    ensures |frame| < 8 ==> d == DecodeFailed(RangeError, Cursor(8, v, fds))
    ensures |frame| >= 8 && U32At(frame, 0) !in v.ifaces ==> d == DecodeFailed(NoObject(U32At(frame, 0)), Cursor(8, v, fds))
  {
    var c := Cursor(8, v, fds);
    if |frame| < 8 then DecodeFailed(RangeError, c)
    else
      var id := U32At(frame, 0);
      var opcode := U16At(frame, 4);
      var size := U16At(frame, 6);
      if id !in v.ifaces then DecodeFailed(NoObject(id), c)
      else if opcode >= |v.ifaces[id].requests| then DecodeFailed(NoRequest(opcode), c)
      else match ReadArgsFrom(frame, cat, c, ParseTypes(v.ifaces[id].requests[opcode].signature), 0, [])
        case ArgsFailed(e, at) => DecodeFailed(e, at)
        case ArgsRead(args, end) =>
          if end.pos != size then DecodeFailed(SizeMismatch, end) else Decoded(Request(id, opcode, args), end)
  }

  /**
   * The decoder as written: `args.map(readArg)` maps over the empty `args`
   * array, so no argument is read and the cursor stays at 8.
   */
  function DecodeRequestAsWritten(frame: seq<u8>, v: View, fds: seq<int>): (d: Decoded)
    ensures d.Decoded? ==> |frame| >= 8 && d.req.args == [] && U16At(frame, 6) == 8
  {
    var c := Cursor(8, v, fds);
    if |frame| < 8 then DecodeFailed(RangeError, c)
    else
      var id := U32At(frame, 0);
      var opcode := U16At(frame, 4);
      if id !in v.ifaces then DecodeFailed(NoObject(id), c)
      else if opcode >= |v.ifaces[id].requests| then DecodeFailed(NoRequest(opcode), c)
      else if U16At(frame, 6) != 8 then DecodeFailed(SizeMismatch, c)
      else Decoded(Request(id, opcode, []), c)
  }

  // ---------------------------------------------------------------------
  // Encoding (`$sendEvent`'s write helpers, into the shared scratch buffer)
  // ---------------------------------------------------------------------

  /** The size of the shared scratch buffer `tmpBuffer`. */
  const SCRATCH_SIZE: nat := 0xFFFF

  /** The scratch buffer after a write, and the cursor; or the exception and the buffer as it was left. */
  datatype Written = Written(buf: seq<u8>, pos: nat) | WriteFailed(err: Error, buf: seq<u8>)

  /** One `setUint32`: all four bytes, or a RangeError before any is written. */
  function WriteU32(buf: seq<u8>, p: nat, v: int): (w: Written)
    requires IsU32(v)
    ensures |w.buf| == |buf|
    ensures w.Written? <==> p + 4 <= |buf|
    ensures w.Written? ==> w == Written(Put(buf, p, LeU32(v)), p + 4)
  {
    if p + 4 <= |buf| then Written(Put(buf, p, LeU32(v)), p + 4) else WriteFailed(RangeError, buf)
  }

  /** A run of `setUint8` calls: the bytes that fit are written before the RangeError. */
  function WriteEach(buf: seq<u8>, p: nat, bytes: seq<u8>): (w: Written)
    ensures |w.buf| == |buf|
    ensures w.Written? <==> p + |bytes| <= |buf|
    ensures w.Written? ==> w == Written(Put(buf, p, bytes), p + |bytes|)
  {
    if p + |bytes| <= |buf| then Written(Put(buf, p, bytes), p + |bytes|)
    else if p >= |buf| then WriteFailed(RangeError, buf)
    else WriteFailed(RangeError, Put(buf, p, bytes[..|buf| - p]))
  }

  /** A run of `setUint8` calls that overruns the buffer has written the bytes that fit before it threw. */
  lemma WriteEachPartial(buf: seq<u8>, p: nat, bytes: seq<u8>)
    requires p < |buf| < p + |bytes|
    ensures WriteEach(buf, p, bytes).WriteFailed?
    ensures WriteEach(buf, p, bytes).buf == buf[..p] + bytes[..|buf| - p]
  {
  }

  /** One `Uint8Array.prototype.set`: all bytes, or a RangeError before any is written. */
  function WriteAll(buf: seq<u8>, p: nat, bytes: seq<u8>): (w: Written)
    ensures |w.buf| == |buf|
    ensures w.Written? <==> p + |bytes| <= |buf|
    ensures w.Written? ==> w == Written(Put(buf, p, bytes), p + |bytes|)
    ensures w.WriteFailed? ==> w.buf == buf
  {
    if p + |bytes| <= |buf| then Written(Put(buf, p, bytes), p + |bytes|) else WriteFailed(RangeError, buf)
  }

  /** `writeString`: the length (UTF-16 code units, counting the NUL), the low byte of each code unit, the NUL, then the cursor skips the code's padding. */
  function WriteString(buf: seq<u8>, p: nat, s: string): (w: Written)
    ensures |w.buf| == |buf|
    ensures w.Written? ==> w.pos == p + 4 + |CodeUnits(s)| + 1 + Pad(|CodeUnits(s)| + 1)
  {
    var length := |CodeUnits(s)| + 1;
    match WriteU32(buf, p, ToUint32(length))
    case WriteFailed(e, b) => WriteFailed(e, b)
    case Written(b, q) =>
      var w := WriteEach(b, q, CharBytes(s) + [0]);
      if w.Written? then Written(w.buf, w.pos + Pad(length)) else w
  }

  /** `writeString("\U{1F600}")` into zeroed bytes: the length field counts 3 code units (two surrogates and the NUL), then 0x3D, 0x00 and the NUL. */
  lemma AstralStringWritten()
    ensures WriteString(seq(16, _ => 0), 0, "\U{1F600}") ==
            Written(LeU32(3) + [0x3D, 0x00, 0] + seq(9, _ => 0), 8)
  {
    AstralCharBytes();
    var b := Put(seq(16, _ => 0), 0, LeU32(3));
    assert WriteU32(seq(16, _ => 0), 0, 3) == Written(b, 4);
    assert Put(b, 4, [0x3D, 0x00, 0]) == LeU32(3) + [0x3D, 0x00, 0] + seq(9, _ => 0);
  }

  /** `writeArray`: the byte count, the bytes, then the cursor skips the padding. */
  function WriteArray(buf: seq<u8>, p: nat, bytes: seq<u8>): (w: Written)
    requires IsU32(|bytes|)
    ensures |w.buf| == |buf|
    ensures w.Written? ==> w.pos == p + 4 + |bytes| + Pad(|bytes|)
  {
    match WriteU32(buf, p, |bytes|)
    case WriteFailed(e, b) => WriteFailed(e, b)
    case Written(b, q) =>
      var w := WriteAll(b, q, bytes);
      if w.Written? then Written(w.buf, w.pos + Pad(|bytes|)) else w
  }

  /** `writeObject`: the resource's id after an interface check, or 0 for null where the type allows it. */
  function WriteObject(buf: seq<u8>, p: nat, iface: string, nullable: bool, a: Arg): (w: Written)
    ensures |w.buf| == |buf|
    ensures w.Written? ==> w.pos == p + 4
    ensures a.Obj? && a.iface != iface ==> w == WriteFailed(BadObject, buf)
    ensures (a.Null? || a.Undefined?) && !nullable ==> w == WriteFailed(RequiredObject, buf)
  {
    if a.Obj? then
      if a.iface != iface then WriteFailed(BadObject, buf) else WriteU32(buf, p, ToUint32(a.id))
    else if a.Null? || a.Undefined? then
      if nullable then WriteU32(buf, p, 0) else WriteFailed(RequiredObject, buf)
    else WriteFailed(BadArgument, buf)
  }

  /** `writeInt`/`writeUint`/`writeNewID` (scale 1) and `writeFixed` (scale 256): a number stored as its ToUint32. */
  function WriteNumber(buf: seq<u8>, p: nat, a: Arg, scale: real): (w: Written)
    ensures |w.buf| == |buf|
    ensures w.Written? ==> w.pos == p + 4
    ensures !IsNumber(a) ==> w == WriteFailed(BadArgument, buf)
  {
    if IsNumber(a) then WriteU32(buf, p, NumberWord(a, scale)) else WriteFailed(BadArgument, buf)
  }

  /** The word `setUint32` stores for a number argument multiplied by `scale`: truncated toward zero, then wrapped to 32 bits. */
  function NumberWord(a: Arg, scale: real): int
    requires IsNumber(a)
  {
    ToUint32(Trunc(NumberValue(a) * scale))
  }

  /** One `writeArg(type)` with the argument `a` at cursor `p`; only the region from `p` on can change. */
  function WriteArg(buf: seq<u8>, p: nat, t: ArgType, a: Arg): (w: Written)
    ensures |w.buf| == |buf|
    ensures w.Written? ==> w.pos >= p
    ensures t == FdT ==> w == WriteFailed(FdUnsupported, buf)
  {
    match t
    case IntT => WriteNumber(buf, p, a, 1.0)
    case UintT => WriteNumber(buf, p, a, 1.0)
    case FixedT => WriteNumber(buf, p, a, 256.0)
    case StringT => if a.Str? then WriteString(buf, p, a.s) else WriteFailed(BadArgument, buf)
    case ObjectT(iface, nullable) => WriteObject(buf, p, iface, nullable, a)
    case NewIdT(_) => WriteNumber(buf, p, a, 1.0)
    case ArrayT => if a.Arr? && IsU32(|a.bytes|) then WriteArray(buf, p, a.bytes) else WriteFailed(BadArgument, buf)
    case FdT => WriteFailed(FdUnsupported, buf)
    case UnknownT => Written(buf, p)
  }

  /** `args.shift()`: the `i`-th argument, or undefined once they run out. */
  function ArgAt(args: seq<Arg>, i: nat): Arg
  {
    if i < |args| then args[i] else Undefined
  }

  /** `types.forEach(writeArg)` from the `i`-th type on. */
  function WriteArgs(buf: seq<u8>, p: nat, ts: seq<ArgType>, args: seq<Arg>, i: nat): (w: Written)
    ensures |w.buf| == |buf|
    ensures w.Written? ==> w.pos >= p
    decreases |ts| - i
  {
    if i >= |ts| then Written(buf, p)
    else match WriteArg(buf, p, ts[i], ArgAt(args, i))
      case WriteFailed(e, b) => WriteFailed(e, b)
      case Written(b, q) =>
        var w := WriteArgs(b, q, ts, args, i + 1);
        w
  }

  /** The scratch buffer after an event and the frame handed to `socket.send`; or the exception. */
  datatype Encoded = Encoded(buf: seq<u8>, frame: seq<u8>) | EncodeFailed(err: Error, buf: seq<u8>)

  /** The header written before the arguments: object id at 0, opcode at 4. */
  function StampHeader(buf: seq<u8>, id: int, opcode: int): (b: seq<u8>)
    requires |buf| >= 8
    ensures |b| == |buf| && b[8..] == buf[8..]
    ensures U32At(b, 0) == ToUint32(id) && U16At(b, 4) == ToUint16(opcode)
  {
    var b1 := Put(buf, 0, LeU32(ToUint32(id)));
    var b := Put(b1, 4, LeU16(ToUint16(opcode)));
    assert b[0..4] == b1[0..4] by { assert b[..4] == b1[..4]; }
    U32RoundTrip(b, 0, ToUint32(id));
    U16RoundTrip(b, 4, ToUint16(opcode));
    b
  }

  /**
   * `Client.prototype.$sendEvent` on an open client: the header, the
   * arguments, the final cursor stamped as the size, and the frame
   * `buffer.slice(0, size)` (the slice stops at the buffer's end).
   */
  function EncodeEvent(buf: seq<u8>, id: int, opcode: int, types: seq<string>, args: seq<Arg>): (e: Encoded)
    requires |buf| == SCRATCH_SIZE
    ensures |e.buf| == SCRATCH_SIZE
    ensures e.Encoded? ==> 8 <= |e.frame| <= |e.buf| && e.frame == e.buf[..|e.frame|]
  {
    var b := StampHeader(buf, id, opcode);
    match WriteArgs(b, 8, ParseTypes(types), args, 0)
    case WriteFailed(e, b2) => EncodeFailed(e, b2)
    case Written(b2, size) =>
      var b3 := Put(b2, 6, LeU16(ToUint16(size)));
      Encoded(b3, b3[..Min(size, |b3|)])
  }

  /** Storing bytes at or after `p` keeps everything before `p`. */
  lemma PutKeepsPrefix(buf: seq<u8>, at: nat, bytes: seq<u8>, p: nat)
    requires at + |bytes| <= |buf| && p <= at
    ensures Put(buf, at, bytes)[..p] == buf[..p]
  {
    assert Put(buf, at, bytes)[..p] == Put(buf, at, bytes)[..at][..p];
  }

  /** `writeString` only changes bytes from the cursor on. */
  lemma WriteStringLocal(buf: seq<u8>, p: nat, s: string)
    requires p <= |buf|
    ensures WriteString(buf, p, s).buf[..p] == buf[..p]
  {
    if p + 4 <= |buf| {
      var b := Put(buf, p, LeU32(ToUint32(|CodeUnits(s)| + 1)));
      PutKeepsPrefix(buf, p, LeU32(ToUint32(|CodeUnits(s)| + 1)), p);
      var bytes := CharBytes(s) + [0];
      if p + 4 + |bytes| <= |b| {
        PutKeepsPrefix(b, p + 4, bytes, p);
      } else if p + 4 < |b| {
        PutKeepsPrefix(b, p + 4, bytes[..|b| - (p + 4)], p);
      }
    }
  }

  /** `writeArray` only changes bytes from the cursor on. */
  lemma WriteArrayLocal(buf: seq<u8>, p: nat, bytes: seq<u8>)
    requires p <= |buf| && IsU32(|bytes|)
    ensures WriteArray(buf, p, bytes).buf[..p] == buf[..p]
  {
    if p + 4 <= |buf| {
      var b := Put(buf, p, LeU32(|bytes|));
      PutKeepsPrefix(buf, p, LeU32(|bytes|), p);
      if p + 4 + |bytes| <= |b| {
        PutKeepsPrefix(b, p + 4, bytes, p);
      }
    }
  }

  /** `writeArg` only changes bytes from the cursor on. */
  lemma WriteArgLocal(buf: seq<u8>, p: nat, t: ArgType, a: Arg)
    requires p <= |buf|
    ensures WriteArg(buf, p, t, a).buf[..p] == buf[..p]
  {
    match t
    case StringT => if a.Str? { WriteStringLocal(buf, p, a.s); }
    case ArrayT => if a.Arr? && IsU32(|a.bytes|) { WriteArrayLocal(buf, p, a.bytes); }
    case _ =>
      if p + 4 <= |buf| {
        forall x: int | IsU32(x) ensures Put(buf, p, LeU32(x))[..p] == buf[..p] {
          PutKeepsPrefix(buf, p, LeU32(x), p);
        }
      }
  }

  /** The whole argument list only changes bytes from the starting cursor on: the header is never overwritten. */
  lemma {:induction false} WriteArgsLocal(buf: seq<u8>, p: nat, ts: seq<ArgType>, args: seq<Arg>, i: nat)
    requires p <= |buf|
    ensures WriteArgs(buf, p, ts, args, i).buf[..p] == buf[..p]
    decreases |ts| - i
  {
    if i < |ts| {
      var w := WriteArg(buf, p, ts[i], ArgAt(args, i));
      WriteArgLocal(buf, p, ts[i], ArgAt(args, i));
      if w.Written? {
        WriteArgsStep(buf, p, ts, args, i, w.buf, w.pos);
        if w.pos <= |w.buf| {
          WriteArgsLocal(w.buf, w.pos, ts, args, i + 1);
          var w2 := WriteArgs(w.buf, w.pos, ts, args, i + 1).buf;
          assert w2[..p] == w2[..w.pos][..p] && w.buf[..p] == w.buf[..w.pos][..p];
        } else {
          WriteArgsPastEnd(w.buf, w.pos, ts, args, i + 1);
        }
      }
    }
  }

  /** With the cursor past the buffer's end, no later write changes anything. */
  lemma {:induction false} WriteArgsPastEnd(buf: seq<u8>, p: nat, ts: seq<ArgType>, args: seq<Arg>, i: nat)
    requires p > |buf|
    ensures WriteArgs(buf, p, ts, args, i).buf == buf
    decreases |ts| - i
  {
    if i < |ts| {
      var w := WriteArg(buf, p, ts[i], ArgAt(args, i));
      assert w.buf == buf;
      if w.Written? {
        WriteArgsStep(buf, p, ts, args, i, w.buf, w.pos);
        WriteArgsPastEnd(buf, w.pos, ts, args, i + 1);
      }
    }
  }

  /** The header of every frame `$sendEvent` produces: the object id and the opcode, truncated to their field widths. */
  lemma EncodeEventHeader(buf: seq<u8>, id: int, opcode: int, types: seq<string>, args: seq<Arg>)
    requires |buf| == SCRATCH_SIZE
    ensures var e := EncodeEvent(buf, id, opcode, types, args);
            e.Encoded? ==> U32At(e.frame, 0) == ToUint32(id) && U16At(e.frame, 4) == ToUint16(opcode)
  {
    var e := EncodeEvent(buf, id, opcode, types, args);
    var b := StampHeader(buf, id, opcode);
    var w := WriteArgs(b, 8, ParseTypes(types), args, 0);
    WriteArgsLocal(b, 8, ParseTypes(types), args, 0);
    if e.Encoded? {
      var b3 := Put(w.buf, 6, LeU16(ToUint16(w.pos)));
      PutKeepsPrefix(w.buf, 6, LeU16(ToUint16(w.pos)), 6);
      assert e.frame[..6] == b3[..6];
      assert w.buf[..6] == b[..6] by { assert w.buf[..6] == w.buf[..8][..6]; }
      assert e.frame[0..4] == b[0..4] && e.frame[4..6] == b[4..6];
      U32Bytes(b, 0);
      U32RoundTrip(e.frame, 0, ToUint32(id));
      U16RoundTrip(e.frame, 4, ToUint16(opcode));
    }
  }

  // ---------------------------------------------------------------------
  // Round trip
  // ---------------------------------------------------------------------

  /** A real that is an int32 number of 256ths: exactly what a fixed-point argument can carry. */
  predicate IsFixed(x: real)
  {
    (x * 256.0).Floor as real == x * 256.0 && IsI32((x * 256.0).Floor)
  }

  /** An argument the encoder writes without loss and the decoder (with object map `v`) accepts. */
  predicate Encodable(t: ArgType, a: Arg, v: View, cat: map<string, Iface>)
  {
    match t
    case IntT => a.Int? && IsI32(a.i)
    case UintT => a.Uint? && IsU32(a.u)
    case FixedT => a.Fixed? && IsFixed(a.x)
    case StringT => a.Str? && Latin1Only(a.s) && |CodeUnits(a.s)| + 1 < U32_LIMIT
    case ObjectT(iface, nullable) =>
      (a.Obj? && IsU32(a.id) && a.iface == iface && a.id in v.ifaces && v.ifaces[a.id].name == iface)
      || (a.Null? && nullable && 0 !in v.ifaces)
    case NewIdT(iface) => a.Uint? && IsU32(a.u) && (iface == "" || iface in cat)
    case ArrayT => a.Arr? && IsU32(|a.bytes|)
    case FdT => false
    case UnknownT => true
  }

  /** The bytes `writeArg` stores for an encodable argument (padding is skipped, not written). */
  function Field(t: ArgType, a: Arg): seq<u8>
  {
    match t
    case IntT => if a.Int? then LeU32(ToUint32(a.i)) else []
    case UintT => if a.Uint? then LeU32(ToUint32(a.u)) else []
    case FixedT => if a.Fixed? then LeU32(ToUint32((a.x * 256.0).Floor)) else []
    case StringT => if a.Str? then LeU32(ToUint32(|CodeUnits(a.s)| + 1)) + CharBytes(a.s) + [0] else []
    case ObjectT(_, _) => if a.Obj? then LeU32(ToUint32(a.id)) else LeU32(0)
    case NewIdT(_) => if a.Uint? then LeU32(ToUint32(a.u)) else []
    case ArrayT => if a.Arr? then LeU32(ToUint32(|a.bytes|)) + a.bytes else []
    case FdT => []
    case UnknownT => []
  }

  /** The number of bytes an argument advances the cursor: its field and, for strings and arrays, the code's padding. */
  function WireSize(t: ArgType, a: Arg): nat
  {
    match t
    case StringT => if a.Str? then 4 + (|CodeUnits(a.s)| + 1) + Pad(|CodeUnits(a.s)| + 1) else 0
    case ArrayT => if a.Arr? then 4 + |a.bytes| + Pad(|a.bytes|) else 0
    case UnknownT => 0
    case FdT => 0
    case _ => 4
  }

  /** Every encodable argument keeps the cursor 4-aligned, and its stored bytes fit inside the space it advances over. */
  lemma WireSizeAligned(t: ArgType, a: Arg, v: View, cat: map<string, Iface>)
    requires Encodable(t, a, v, cat)
    ensures WireSize(t, a) % 4 == 0
    ensures |Field(t, a)| < WireSize(t, a) || (|Field(t, a)| == WireSize(t, a) && !t.StringT? && !t.ArrayT?)
  {
    match t
    case StringT => PadAligned(|CodeUnits(a.s)| + 1);
    case ArrayT => PadAligned(|a.bytes|);
    case _ =>
  }

  /** The code's padding is one to four bytes and always reaches a multiple of 4. */
  lemma PadAligned(n: nat)
    ensures 1 <= Pad(n) <= 4 && (n + Pad(n)) % 4 == 0
  {
  }

  /** What the decoder returns for an encodable argument: the same value, except that a typed new-id comes back as the resource it constructs and an unknown tag as undefined. */
  function Expected(t: ArgType, a: Arg, cat: map<string, Iface>): Arg
  {
    match t
    case NewIdT(iface) => if iface != "" && iface in cat && a.Uint? then Obj(a.u, cat[iface].name) else a
    case UnknownT => Undefined
    case _ => a
  }

  /** The object map after decoding an encodable argument: a typed new-id registers its resource. */
  function ViewAfter(t: ArgType, a: Arg, v: View, cat: map<string, Iface>): View
  {
    match t
    case NewIdT(iface) => if iface != "" && iface in cat && a.Uint? then Register(v, a.u, cat[iface]) else v
    case _ => v
  }

  lemma PutPut(buf: seq<u8>, p: nat, x: seq<u8>, y: seq<u8>)
    requires p + |x| + |y| <= |buf|
    ensures Put(Put(buf, p, x), p + |x|, y) == Put(buf, p, x + y)
  {
    var b1 := Put(buf, p, x);
    assert b1[..p + |x|] == buf[..p] + x;
    assert b1[p + |x| + |y|..] == buf[p + |x| + |y|..];
  }

  /** A string is stored as its length field, its character bytes and the NUL. */
  lemma WriteStringField(buf: seq<u8>, p: nat, s: string)
    requires |CodeUnits(s)| + 1 < U32_LIMIT
    requires p + WireSize(StringT, Str(s)) <= |buf|
    ensures p + |Field(StringT, Str(s))| <= |buf|
    ensures WriteString(buf, p, s) == Written(Put(buf, p, Field(StringT, Str(s))), p + WireSize(StringT, Str(s)))
  {
    var length := |CodeUnits(s)| + 1;
    var b := Put(buf, p, LeU32(length));
    assert WriteU32(buf, p, length) == Written(b, p + 4);
    assert WriteEach(b, p + 4, CharBytes(s) + [0]) == Written(Put(b, p + 4, CharBytes(s) + [0]), p + 4 + length);
    PutPut(buf, p, LeU32(length), CharBytes(s) + [0]);
    assert LeU32(length) + (CharBytes(s) + [0]) == Field(StringT, Str(s));
  }

  /** An array is stored as its length field and its bytes. */
  lemma WriteArrayField(buf: seq<u8>, p: nat, bytes: seq<u8>)
    requires IsU32(|bytes|)
    requires p + WireSize(ArrayT, Arr(bytes)) <= |buf|
    ensures p + |Field(ArrayT, Arr(bytes))| <= |buf|
    ensures WriteArray(buf, p, bytes) == Written(Put(buf, p, Field(ArrayT, Arr(bytes))), p + WireSize(ArrayT, Arr(bytes)))
  {
    var b := Put(buf, p, LeU32(|bytes|));
    assert WriteU32(buf, p, |bytes|) == Written(b, p + 4);
    assert WriteAll(b, p + 4, bytes) == Written(Put(b, p + 4, bytes), p + 4 + |bytes|);
    PutPut(buf, p, LeU32(|bytes|), bytes);
  }

  /** Truncation leaves integral numbers alone. */
  lemma TruncIntegral(x: real)
    requires x.Floor as real == x
    ensures Trunc(x) == x.Floor
  {
    if x < 0.0 {
      assert (-x).Floor == -x.Floor;
    }
  }

  /** A number whose scaled value is the integer `k` is stored as the four bytes of `k`'s ToUint32. */
  lemma WriteNumberField(buf: seq<u8>, p: nat, a: Arg, scale: real, k: int)
    requires IsNumber(a) && NumberValue(a) * scale == k as real
    requires p + 4 <= |buf|
    ensures WriteNumber(buf, p, a, scale) == Written(Put(buf, p, LeU32(ToUint32(k))), p + 4)
  {
    TruncIntegral(k as real);
  }

  /** An object is stored as its id, and an allowed null as 0. */
  lemma WriteObjectField(buf: seq<u8>, p: nat, iface: string, nullable: bool, a: Arg, v: View)
    requires (a.Obj? && IsU32(a.id) && a.iface == iface) || (a.Null? && nullable)
    requires p + 4 <= |buf|
    ensures WriteObject(buf, p, iface, nullable, a) == Written(Put(buf, p, Field(ObjectT(iface, nullable), a)), p + 4)
  {
  }

  /** Writing an encodable argument stores exactly its field at the cursor and advances by its wire size. */
  lemma WriteField(buf: seq<u8>, p: nat, t: ArgType, a: Arg, v: View, cat: map<string, Iface>)
    requires Encodable(t, a, v, cat)
    requires p + WireSize(t, a) <= |buf|
    ensures p + |Field(t, a)| <= |buf|
    ensures WriteArg(buf, p, t, a) == Written(Put(buf, p, Field(t, a)), p + WireSize(t, a))
  {
    match t
    case StringT => WriteStringField(buf, p, a.s);
    case ArrayT => WriteArrayField(buf, p, a.bytes);
    case FixedT => WriteNumberField(buf, p, a, 256.0, (a.x * 256.0).Floor);
    case IntT => WriteNumberField(buf, p, a, 1.0, a.i);
    case UintT => WriteNumberField(buf, p, a, 1.0, a.u);
    case NewIdT(_) => WriteNumberField(buf, p, a, 1.0, a.u);
    case ObjectT(iface, nullable) => WriteObjectField(buf, p, iface, nullable, a, v);
    case FdT =>
    case UnknownT =>
  }

  /** Sequences that agree before `q` agree on every span before `q`. */
  lemma PrefixAgree(w: seq<u8>, b: seq<u8>, q: nat, lo: nat, hi: nat)
    requires lo <= hi <= q <= |w| && q <= |b| && w[..q] == b[..q]
    ensures w[lo..hi] == b[lo..hi]
  {
    assert w[lo..hi] == w[..q][lo..hi] && b[lo..hi] == b[..q][lo..hi];
  }

  /** A part of a block stored at `p` is stored at the corresponding offset. */
  lemma SliceWithin(f: seq<u8>, p: nat, block: seq<u8>, a: nat, b: nat)
    requires p + |block| <= |f| && f[p..p + |block|] == block && a <= b <= |block|
    ensures f[p + a..p + b] == block[a..b]
  {
    assert forall k :: a <= k < b ==> f[p + k] == block[k];
  }

  /** A string field is read back as the string, with the cursor after the code's padding. */
  lemma ReadStringField(f: seq<u8>, c: Cursor, s: string)
    requires Latin1Only(s) && |CodeUnits(s)| + 1 < U32_LIMIT
    requires c.pos + WireSize(StringT, Str(s)) <= |f|
    requires f[c.pos..c.pos + |Field(StringT, Str(s))|] == Field(StringT, Str(s))
    ensures ReadString(f, c) == Read(Str(s), c.(pos := c.pos + WireSize(StringT, Str(s))))
  {
    StringFieldShape(s);
    ReadStringBytes(f, c, CharBytes(s));
  }

  /** A Latin-1 string's field is its length plus one, its bytes and a NUL, and its bytes read back as the string. */
  lemma StringFieldShape(s: string)
    requires Latin1Only(s)
    ensures |CharBytes(s)| == |s| && Latin1(CharBytes(s)) == s
    ensures Field(StringT, Str(s)) == LeU32(ToUint32(|s| + 1)) + CharBytes(s) + [0]
    ensures WireSize(StringT, Str(s)) == 4 + |s| + 1 + Pad(|s| + 1)
  {
    CodeUnitsLatin1(s);
    Latin1CharBytes(s);
  }

  /** A u32 length, that many bytes less one and a NUL are read back as those bytes, with the cursor after the padding. */
  lemma ReadStringBytes(f: seq<u8>, c: Cursor, bytes: seq<u8>)
    requires |bytes| + 1 < U32_LIMIT && c.pos + 4 + |bytes| < |f|
    requires f[c.pos..c.pos + |bytes| + 5] == LeU32(ToUint32(|bytes| + 1)) + bytes + [0]
    ensures ReadString(f, c) == Read(Str(Latin1(bytes)), c.(pos := c.pos + 4 + |bytes| + 1 + Pad(|bytes| + 1)))
  {
    var p := c.pos;
    var n := |bytes|;
    var field := LeU32(n + 1) + bytes + [0];
    assert field[..4] == LeU32(n + 1) && field[4..4 + n] == bytes && field[4 + n] == 0;
    assert U32At(f, p) == n + 1 by {
      SliceWithin(f, p, field, 0, 4);
      U32RoundTrip(f, p, n + 1);
    }
    assert f[p + 4..p + 4 + n] == bytes by {
      SliceWithin(f, p, field, 4, 4 + n);
    }
    assert f[p + 4 + n] == field[4 + n];
  }

  /** An array field is read back as the same bytes, with the cursor after the padding. */
  lemma ReadArrayField(f: seq<u8>, c: Cursor, bytes: seq<u8>)
    requires IsU32(|bytes|)
    requires c.pos + WireSize(ArrayT, Arr(bytes)) <= |f|
    requires f[c.pos..c.pos + |Field(ArrayT, Arr(bytes))|] == Field(ArrayT, Arr(bytes))
    ensures ReadArray(f, c) == Read(Arr(bytes), c.(pos := c.pos + WireSize(ArrayT, Arr(bytes))))
  {
    var p := c.pos;
    var field := Field(ArrayT, Arr(bytes));
    assert f[p..p + 4] == field[..4];
    U32RoundTrip(f, p, |bytes|);
    assert f[p + 4..p + 4 + |bytes|] == field[4..] == bytes;
  }

  /** The field of an encodable argument is read back as `Expected`, advancing by its wire size and registering a typed new-id. */
  lemma ReadField(f: seq<u8>, cat: map<string, Iface>, c: Cursor, t: ArgType, a: Arg)
    requires Encodable(t, a, c.view, cat)
    requires c.pos + WireSize(t, a) <= |f|
    requires c.pos + |Field(t, a)| <= |f| && f[c.pos..c.pos + |Field(t, a)|] == Field(t, a)
    ensures ReadArg(f, cat, c, t) == Read(Expected(t, a, cat), c.(pos := c.pos + WireSize(t, a), view := ViewAfter(t, a, c.view, cat)))
  {
    var p := c.pos;
    match t
    case StringT => ReadStringField(f, c, a.s);
    case ArrayT => ReadArrayField(f, c, a.bytes);
    case IntT => I32RoundTrip(f, p, a.i);
    case UintT => U32RoundTrip(f, p, a.u);
    case FixedT =>
      var k := (a.x * 256.0).Floor;
      I32RoundTrip(f, p, k);
    case ObjectT(_, _) =>
      if a.Obj? { U32RoundTrip(f, p, a.id); } else { U32RoundTrip(f, p, 0); }
    case NewIdT(_) => U32RoundTrip(f, p, a.u);
    case FdT =>
    case UnknownT =>
  }

  predicate EncodableFrom(ts: seq<ArgType>, args: seq<Arg>, i: nat, v: View, cat: map<string, Iface>)
    decreases |ts| - i
  {
    i >= |ts| ||
    (Encodable(ts[i], ArgAt(args, i), v, cat) &&
     EncodableFrom(ts, args, i + 1, ViewAfter(ts[i], ArgAt(args, i), v, cat), cat))
  }

  function ExpectedFrom(ts: seq<ArgType>, args: seq<Arg>, i: nat, v: View, cat: map<string, Iface>): seq<Arg>
    decreases |ts| - i
  {
    if i >= |ts| then []
    else [Expected(ts[i], ArgAt(args, i), cat)] + ExpectedFrom(ts, args, i + 1, ViewAfter(ts[i], ArgAt(args, i), v, cat), cat)
  }

  function ViewAfterAll(ts: seq<ArgType>, args: seq<Arg>, i: nat, v: View, cat: map<string, Iface>): View
    decreases |ts| - i
  {
    if i >= |ts| then v else ViewAfterAll(ts, args, i + 1, ViewAfter(ts[i], ArgAt(args, i), v, cat), cat)
  }

  function SizeFrom(ts: seq<ArgType>, args: seq<Arg>, i: nat): nat
    decreases |ts| - i
  {
    if i >= |ts| then 0 else WireSize(ts[i], ArgAt(args, i)) + SizeFrom(ts, args, i + 1)
  }

  /** `WriteArgs` after one successful `writeArg` continues from the new buffer and cursor. */
  lemma WriteArgsStep(buf: seq<u8>, p: nat, ts: seq<ArgType>, args: seq<Arg>, i: nat, b: seq<u8>, q: nat)
    requires i < |ts| && WriteArg(buf, p, ts[i], ArgAt(args, i)) == Written(b, q)
    ensures WriteArgs(buf, p, ts, args, i) == WriteArgs(b, q, ts, args, i + 1)
  {
  }

  lemma PutSuffix(buf: seq<u8>, p: nat, x: seq<u8>, q: nat)
    requires p + |x| <= q <= |buf|
    ensures Put(buf, p, x)[q..] == buf[q..]
  {
    assert Put(buf, p, x)[p + |x|..][q - p - |x|..] == Put(buf, p, x)[q..];
  }

  /** Blocks of bytes, each stored at its offset and followed by the next one the block's span later. */
  predicate Placed(f: seq<u8>, p: nat, blocks: seq<(seq<u8>, nat)>)
    decreases |blocks|
  {
    blocks == [] ||
    (p + |blocks[0].0| <= |f| && f[p..p + |blocks[0].0|] == blocks[0].0 && Placed(f, p + blocks[0].1, blocks[1..]))
  }

  function Span(blocks: seq<(seq<u8>, nat)>): nat
  {
    if blocks == [] then 0 else blocks[0].1 + Span(blocks[1..])
  }

  predicate Fitting(blocks: seq<(seq<u8>, nat)>)
  {
    forall k :: 0 <= k < |blocks| ==> |blocks[k].0| <= blocks[k].1
  }

  /** The field and wire size of each argument from the `i`-th on. */
  function Blocks(ts: seq<ArgType>, args: seq<Arg>, i: nat): seq<(seq<u8>, nat)>
    decreases |ts| - i
  {
    if i >= |ts| then [] else [(Field(ts[i], ArgAt(args, i)), WireSize(ts[i], ArgAt(args, i)))] + Blocks(ts, args, i + 1)
  }

  /** `f` holds, from `p` on, the field of each argument from the `i`-th on, each at the cursor the previous one advanced to. */
  predicate LaidOut(f: seq<u8>, p: nat, ts: seq<ArgType>, args: seq<Arg>, i: nat)
  {
    Placed(f, p, Blocks(ts, args, i))
  }

  /** A field never outgrows the space its argument advances the cursor over. */
  lemma FieldFits(t: ArgType, a: Arg)
    ensures |Field(t, a)| <= WireSize(t, a)
  {
  }

  /** The buffer with the field of each argument from the `i`-th on stored at its cursor. */
  function PutFields(buf: seq<u8>, p: nat, ts: seq<ArgType>, args: seq<Arg>, i: nat): (r: seq<u8>)
    requires p + SizeFrom(ts, args, i) <= |buf|
    ensures |r| == |buf|
    decreases |ts| - i
  {
    if i >= |ts| then buf
    else
      var a := ArgAt(args, i);
      FieldFits(ts[i], a);
      PutFields(Put(buf, p, Field(ts[i], a)), p + WireSize(ts[i], a), ts, args, i + 1)
  }

  /** One encodable argument written at the head of the list stores its field and moves the cursor by its wire size. */
  lemma WriteHead(buf: seq<u8>, p: nat, ts: seq<ArgType>, args: seq<Arg>, i: nat, v: View, cat: map<string, Iface>, b1: seq<u8>, q1: nat)
    requires i < |ts| && Encodable(ts[i], ArgAt(args, i), v, cat)
    requires p + |Field(ts[i], ArgAt(args, i))| <= |buf| && p + WireSize(ts[i], ArgAt(args, i)) <= |buf|
    requires b1 == Put(buf, p, Field(ts[i], ArgAt(args, i))) && q1 == p + WireSize(ts[i], ArgAt(args, i))
    ensures WriteArgs(buf, p, ts, args, i) == WriteArgs(b1, q1, ts, args, i + 1)
  {
    WriteField(buf, p, ts[i], ArgAt(args, i), v, cat);
    WriteArgsStep(buf, p, ts, args, i, b1, q1);
  }

  /** The hypotheses of the list write, unfolded once. */
  lemma UnfoldWritePlan(ts: seq<ArgType>, args: seq<Arg>, i: nat, v: View, cat: map<string, Iface>)
    requires i < |ts| && EncodableFrom(ts, args, i, v, cat)
    ensures Encodable(ts[i], ArgAt(args, i), v, cat)
    ensures EncodableFrom(ts, args, i + 1, ViewAfter(ts[i], ArgAt(args, i), v, cat), cat)
    ensures SizeFrom(ts, args, i) == WireSize(ts[i], ArgAt(args, i)) + SizeFrom(ts, args, i + 1)
  {
  }

  /** `PutFields` stores the first field and continues after its wire size. */
  lemma PutFieldsStep(buf: seq<u8>, p: nat, ts: seq<ArgType>, args: seq<Arg>, i: nat, b1: seq<u8>, q1: nat)
    requires i < |ts| && p + SizeFrom(ts, args, i) <= |buf|
    requires p + |Field(ts[i], ArgAt(args, i))| <= |buf|
    requires b1 == Put(buf, p, Field(ts[i], ArgAt(args, i))) && q1 == p + WireSize(ts[i], ArgAt(args, i))
    requires q1 + SizeFrom(ts, args, i + 1) <= |b1|
    ensures PutFields(buf, p, ts, args, i) == PutFields(b1, q1, ts, args, i + 1)
  {
  }

  /** Writing a list of encodable arguments succeeds, stores their fields and ends `SizeFrom` bytes later. */
  lemma {:induction false} WriteAsPut(buf: seq<u8>, p: nat, ts: seq<ArgType>, args: seq<Arg>, i: nat, v: View, cat: map<string, Iface>)
    requires EncodableFrom(ts, args, i, v, cat)
    requires p + SizeFrom(ts, args, i) <= |buf|
    ensures WriteArgs(buf, p, ts, args, i) == Written(PutFields(buf, p, ts, args, i), p + SizeFrom(ts, args, i))
    decreases |ts| - i
  {
    if i < |ts| {
      var a := ArgAt(args, i);
      UnfoldWritePlan(ts, args, i, v, cat);
      FieldFits(ts[i], a);
      var b1 := Put(buf, p, Field(ts[i], a));
      var q1 := p + WireSize(ts[i], a);
      PutFieldsStep(buf, p, ts, args, i, b1, q1);
      WriteHead(buf, p, ts, args, i, v, cat, b1, q1);
      WriteAsPut(b1, q1, ts, args, i + 1, ViewAfter(ts[i], a, v, cat), cat);
    } else {
      assert WriteArgs(buf, p, ts, args, i) == Written(buf, p);
    }
  }

  /** Later writes beyond `q1` keep a field stored at `p` and the bytes before it. */
  lemma ComposeWrite(buf: seq<u8>, p: nat, field: seq<u8>, q1: nat, q: nat, w: seq<u8>)
    requires p + |field| <= q1 <= q <= |buf| && |w| == |buf|
    requires w[..q1] == Put(buf, p, field)[..q1] && w[q..] == Put(buf, p, field)[q..]
    ensures w[..p] == buf[..p] && w[q..] == buf[q..] && w[p..p + |field|] == field
  {
    var b1 := Put(buf, p, field);
    PutSuffix(buf, p, field, q);
    assert w[..p] == w[..q1][..p] && b1[..p] == b1[..q1][..p];
    assert w[p..p + |field|] == w[..q1][p..p + |field|] && b1[p..p + |field|] == b1[..q1][p..p + |field|];
  }

  /** A field in place followed by the rest laid out is the whole list laid out. */
  lemma LaidOutCons(f: seq<u8>, p: nat, ts: seq<ArgType>, args: seq<Arg>, i: nat)
    requires i < |ts|
    requires p + |Field(ts[i], ArgAt(args, i))| <= |f|
    requires f[p..p + |Field(ts[i], ArgAt(args, i))|] == Field(ts[i], ArgAt(args, i))
    requires LaidOut(f, p + WireSize(ts[i], ArgAt(args, i)), ts, args, i + 1)
    ensures LaidOut(f, p, ts, args, i)
  {
    assert Blocks(ts, args, i)[1..] == Blocks(ts, args, i + 1);
  }

  /** The first field of a layout is in place and the rest is laid out after its wire size. */
  lemma LaidOutHead(f: seq<u8>, p: nat, ts: seq<ArgType>, args: seq<Arg>, i: nat)
    requires i < |ts| && LaidOut(f, p, ts, args, i)
    ensures p + |Field(ts[i], ArgAt(args, i))| <= |f|
    ensures f[p..p + |Field(ts[i], ArgAt(args, i))|] == Field(ts[i], ArgAt(args, i))
    ensures LaidOut(f, p + WireSize(ts[i], ArgAt(args, i)), ts, args, i + 1)
  {
    assert Blocks(ts, args, i)[1..] == Blocks(ts, args, i + 1);
  }

  /** The size of a list is its first argument's wire size plus the size of the rest. */
  lemma SizeFromStep(ts: seq<ArgType>, args: seq<Arg>, i: nat)
    requires i < |ts|
    ensures SizeFrom(ts, args, i) == WireSize(ts[i], ArgAt(args, i)) + SizeFrom(ts, args, i + 1)
  {
  }

  /** Storing the fields changes nothing before `p` nor after the span `SizeFrom` long from `p`. */
  lemma {:induction false} PutFieldsFrame(buf: seq<u8>, p: nat, ts: seq<ArgType>, args: seq<Arg>, i: nat)
    requires p + SizeFrom(ts, args, i) <= |buf|
    ensures var w := PutFields(buf, p, ts, args, i);
            w[..p] == buf[..p] && w[p + SizeFrom(ts, args, i)..] == buf[p + SizeFrom(ts, args, i)..]
    decreases |ts| - i
  {
    if i < |ts| {
      var a := ArgAt(args, i);
      var field := Field(ts[i], a);
      var q1 := p + WireSize(ts[i], a);
      var q := q1 + SizeFrom(ts, args, i + 1);
      FieldFits(ts[i], a);
      var b1 := Put(buf, p, field);
      PutFieldsFrame(b1, q1, ts, args, i + 1);
      var w := PutFields(b1, q1, ts, args, i + 1);
      assert PutFields(buf, p, ts, args, i) == w;
      assert p + SizeFrom(ts, args, i) == q;
      ComposeWrite(buf, p, field, q1, q, w);
    }
  }

  /** Storing the fields lays them out. */
  lemma {:induction false} PutFieldsLaidOut(buf: seq<u8>, p: nat, ts: seq<ArgType>, args: seq<Arg>, i: nat)
    requires p + SizeFrom(ts, args, i) <= |buf|
    ensures LaidOut(PutFields(buf, p, ts, args, i), p, ts, args, i)
    decreases |ts| - i
  {
    if i < |ts| {
      var a := ArgAt(args, i);
      var q1 := p + WireSize(ts[i], a);
      var b1 := Put(buf, p, Field(ts[i], a));
      assert q1 + SizeFrom(ts, args, i + 1) <= |b1| by {
        FieldFits(ts[i], a);
        SizeFromStep(ts, args, i);
      }
      PutFieldsLaidOut(b1, q1, ts, args, i + 1);
      PutFieldsHead(buf, p, ts, args, i);
    }
  }

  /** Storing the fields puts the first one in place, so they are laid out once the rest, stored after its wire size into the buffer that holds it, are. */
  lemma PutFieldsHead(buf: seq<u8>, p: nat, ts: seq<ArgType>, args: seq<Arg>, i: nat)
    requires i < |ts| && p + SizeFrom(ts, args, i) <= |buf|
    requires var b1 := Put(buf, p, Field(ts[i], ArgAt(args, i)));
             var q1 := p + WireSize(ts[i], ArgAt(args, i));
             q1 + SizeFrom(ts, args, i + 1) <= |b1| && LaidOut(PutFields(b1, q1, ts, args, i + 1), q1, ts, args, i + 1)
    ensures LaidOut(PutFields(buf, p, ts, args, i), p, ts, args, i)
  {
    var a := ArgAt(args, i);
    var field := Field(ts[i], a);
    var q1 := p + WireSize(ts[i], a);
    assert p + |field| <= q1 by {
      FieldFits(ts[i], a);
    }
    var b1 := Put(buf, p, field);
    assert PutFields(buf, p, ts, args, i) == PutFields(b1, q1, ts, args, i + 1) by {
      PutFieldsStep(buf, p, ts, args, i, b1, q1);
    }
    var w := PutFields(b1, q1, ts, args, i + 1);
    assert w[p..p + |field|] == field by {
      PutFieldsFrame(b1, q1, ts, args, i + 1);
      StoredBefore(buf, p, field, q1, w);
    }
    LaidOutCons(w, p, ts, args, i);
  }

  /** A block stored at `p` is still there in any later contents that agree with the store up to `q1`, past the block's end. */
  lemma StoredBefore(buf: seq<u8>, p: nat, block: seq<u8>, q1: nat, w: seq<u8>)
    requires p + |block| <= q1 <= |buf| && |w| == |buf|
    requires w[..q1] == Put(buf, p, block)[..q1]
    ensures w[p..p + |block|] == block
  {
    PutContents(buf, p, block);
    PrefixAgree(w, Put(buf, p, block), q1, p, p + |block|);
  }

  /** Writing a list of encodable arguments succeeds, lays out their fields, ends `SizeFrom` bytes later and changes nothing outside that span. */
  lemma WriteFields(buf: seq<u8>, p: nat, ts: seq<ArgType>, args: seq<Arg>, i: nat, v: View, cat: map<string, Iface>)
    requires EncodableFrom(ts, args, i, v, cat)
    requires p + SizeFrom(ts, args, i) <= |buf|
    ensures var w := WriteArgs(buf, p, ts, args, i);
            w.Written? && w.pos == p + SizeFrom(ts, args, i) &&
            w.buf[..p] == buf[..p] && w.buf[w.pos..] == buf[w.pos..] &&
            LaidOut(w.buf, p, ts, args, i)
  {
    WriteAsPut(buf, p, ts, args, i, v, cat);
    PutFieldsFrame(buf, p, ts, args, i);
    PutFieldsLaidOut(buf, p, ts, args, i);
  }

  /** The blocks of a list span `SizeFrom` bytes and each field fits its wire size. */
  lemma {:induction false} BlocksSpan(ts: seq<ArgType>, args: seq<Arg>, i: nat)
    ensures Span(Blocks(ts, args, i)) == SizeFrom(ts, args, i)
    ensures Fitting(Blocks(ts, args, i))
    decreases |ts| - i
  {
    if i < |ts| {
      BlocksSpan(ts, args, i + 1);
      FieldFits(ts[i], ArgAt(args, i));
      assert Blocks(ts, args, i)[1..] == Blocks(ts, args, i + 1);
    }
  }

  /** Whether blocks are placed depends only on the `n` bytes they span. */
  lemma {:induction false} PlacedAgree(f: seq<u8>, g: seq<u8>, p: nat, blocks: seq<(seq<u8>, nat)>, n: nat)
    requires Placed(g, p, blocks) && Fitting(blocks) && n == Span(blocks)
    requires p + n <= |f| && p + n <= |g| && f[p..p + n] == g[p..p + n]
    ensures Placed(f, p, blocks)
    decreases |blocks|
  {
    if blocks != [] {
      var q1 := p + blocks[0].1;
      assert Fitting(blocks[1..]) by {
        forall k | 0 <= k < |blocks| - 1
          ensures |blocks[1..][k].0| <= blocks[1..][k].1
        {
          assert blocks[1..][k] == blocks[k + 1];
        }
      }
      AgreeOnField(f, g, p, blocks[0].0, q1, p + n);
      PlacedAgree(f, g, q1, blocks[1..], n - blocks[0].1);
    }
  }

  /** Whether the fields are laid out depends only on the bytes they span. */
  lemma LaidOutAgree(f: seq<u8>, g: seq<u8>, p: nat, ts: seq<ArgType>, args: seq<Arg>, i: nat)
    requires LaidOut(g, p, ts, args, i)
    requires p + SizeFrom(ts, args, i) <= |f| && p + SizeFrom(ts, args, i) <= |g|
    requires f[p..p + SizeFrom(ts, args, i)] == g[p..p + SizeFrom(ts, args, i)]
    ensures LaidOut(f, p, ts, args, i)
  {
    BlocksSpan(ts, args, i);
    PlacedAgree(f, g, p, Blocks(ts, args, i), SizeFrom(ts, args, i));
  }

  /** `ReadArgsFrom` after one successful `readArg` continues from the new context. */
  lemma ReadArgsStep(f: seq<u8>, cat: map<string, Iface>, c: Cursor, ts: seq<ArgType>, i: nat, acc: seq<Arg>, a: Arg, c1: Cursor)
    requires i < |ts| && ReadArg(f, cat, c, ts[i]) == Read(a, c1)
    ensures ReadArgsFrom(f, cat, c, ts, i, acc) == ReadArgsFrom(f, cat, c1, ts, i + 1, acc + [a])
  {
  }

  /** When `g` holds `field` at `p` and `f` agrees with `g` on `[p, q)`, `f` holds the field too and agrees with `g` past the field's span. */
  lemma AgreeOnField(f: seq<u8>, g: seq<u8>, p: nat, field: seq<u8>, q1: nat, q: nat)
    requires p + |field| <= q1 <= q <= |f| && q <= |g|
    requires g[p..p + |field|] == field && f[p..q] == g[p..q]
    ensures f[p..p + |field|] == field && f[q1..q] == g[q1..q]
  {
    SplitAgreement(f, g, p, q1, q);
    SplitAgreement(f, g, p, p + |field|, q1);
  }

  /** Two sequences that agree on `[p, r)` agree on both parts of it. */
  lemma SplitAgreement(f: seq<u8>, g: seq<u8>, p: nat, q: nat, r: nat)
    requires p <= q <= r <= |f| && r <= |g| && f[p..r] == g[p..r]
    ensures f[p..q] == g[p..q] && f[q..r] == g[q..r]
  {
    forall k | p <= k < r
      ensures f[k] == g[k]
    {
      assert f[k] == f[p..r][k - p] && g[k] == g[p..r][k - p];
    }
    assert f[p..q] == g[p..q];
    assert f[q..r] == g[q..r];
  }

  /** The decoder's context after reading an encodable argument. */
  function NextCursor(c: Cursor, t: ArgType, a: Arg, cat: map<string, Iface>): Cursor
  {
    c.(pos := c.pos + WireSize(t, a), view := ViewAfter(t, a, c.view, cat))
  }

  /** Reading a list whose first field is in place continues after that field with its expected value. */
  lemma ReadHead(f: seq<u8>, cat: map<string, Iface>, c: Cursor, ts: seq<ArgType>, i: nat, a: Arg, acc: seq<Arg>)
    requires i < |ts| && Encodable(ts[i], a, c.view, cat)
    requires c.pos + WireSize(ts[i], a) <= |f|
    requires c.pos + |Field(ts[i], a)| <= |f| && f[c.pos..c.pos + |Field(ts[i], a)|] == Field(ts[i], a)
    ensures ReadArgsFrom(f, cat, c, ts, i, acc) == ReadArgsFrom(f, cat, NextCursor(c, ts[i], a, cat), ts, i + 1, acc + [Expected(ts[i], a, cat)])
  {
    ReadField(f, cat, c, ts[i], a);
    ReadArgsStep(f, cat, c, ts, i, acc, Expected(ts[i], a, cat), NextCursor(c, ts[i], a, cat));
  }

  /** The hypotheses of the list round trip, unfolded once. */
  lemma UnfoldPlan(f: seq<u8>, ts: seq<ArgType>, args: seq<Arg>, i: nat, cat: map<string, Iface>, c: Cursor)
    requires i < |ts| && EncodableFrom(ts, args, i, c.view, cat)
    requires c.pos + SizeFrom(ts, args, i) <= |f| && LaidOut(f, c.pos, ts, args, i)
    ensures var a := ArgAt(args, i); var c1 := NextCursor(c, ts[i], a, cat);
            Encodable(ts[i], a, c.view, cat) && c.pos + WireSize(ts[i], a) <= |f| &&
            c.pos + |Field(ts[i], a)| <= |f| && f[c.pos..c.pos + |Field(ts[i], a)|] == Field(ts[i], a) &&
            EncodableFrom(ts, args, i + 1, c1.view, cat) && LaidOut(f, c1.pos, ts, args, i + 1) &&
            c1.pos + SizeFrom(ts, args, i + 1) == c.pos + SizeFrom(ts, args, i)
  {
    LaidOutHead(f, c.pos, ts, args, i);
    SizeFromStep(ts, args, i);
  }

  /** The conclusion of the list round trip, unfolded once. */
  lemma UnfoldResult(ts: seq<ArgType>, args: seq<Arg>, i: nat, cat: map<string, Iface>, c: Cursor, acc: seq<Arg>)
    requires i < |ts|
    ensures var a := ArgAt(args, i); var c1 := NextCursor(c, ts[i], a, cat);
            acc + ExpectedFrom(ts, args, i, c.view, cat) == (acc + [Expected(ts[i], a, cat)]) + ExpectedFrom(ts, args, i + 1, c1.view, cat) &&
            Cursor(c.pos + SizeFrom(ts, args, i), ViewAfterAll(ts, args, i, c.view, cat), c.fds) ==
            Cursor(c1.pos + SizeFrom(ts, args, i + 1), ViewAfterAll(ts, args, i + 1, c1.view, cat), c1.fds)
  {
    var a := ArgAt(args, i);
    assert acc + ExpectedFrom(ts, args, i, c.view, cat) == (acc + [Expected(ts[i], a, cat)]) + ExpectedFrom(ts, args, i + 1, NextCursor(c, ts[i], a, cat).view, cat);
  }

  /** A frame with the fields of encodable arguments laid out is read back argument by argument. */
  lemma {:induction false} ReadFields(f: seq<u8>, ts: seq<ArgType>, args: seq<Arg>, i: nat,
                                      cat: map<string, Iface>, c: Cursor, acc: seq<Arg>)
    requires EncodableFrom(ts, args, i, c.view, cat)
    requires c.pos + SizeFrom(ts, args, i) <= |f| && LaidOut(f, c.pos, ts, args, i)
    ensures ReadArgsFrom(f, cat, c, ts, i, acc) ==
            ArgsRead(acc + ExpectedFrom(ts, args, i, c.view, cat), Cursor(c.pos + SizeFrom(ts, args, i), ViewAfterAll(ts, args, i, c.view, cat), c.fds))
    decreases |ts| - i
  {
    if i < |ts| {
      var a := ArgAt(args, i);
      var c1 := NextCursor(c, ts[i], a, cat);
      UnfoldPlan(f, ts, args, i, cat, c);
      ReadHead(f, cat, c, ts, i, a, acc);
      ReadFields(f, ts, args, i + 1, cat, c1, acc + [Expected(ts[i], a, cat)]);
      UnfoldResult(ts, args, i, cat, c, acc);
    } else {
      assert acc + [] == acc;
    }
  }

  /** Stamping the final cursor as the size makes the frame carry its own length and keeps the arguments. */
  lemma SizeStamp(b2: seq<u8>, size: nat)
    requires 8 <= size <= |b2| && IsU16(size)
    ensures var frame := Put(b2, 6, LeU16(size))[..size];
            U16At(frame, 6) == size && frame[8..] == b2[8..size]
  {
    var b3 := Put(b2, 6, LeU16(size));
    var frame := b3[..size];
    assert frame[6..8] == b3[6..8] == LeU16(size);
    U16RoundTrip(frame, 6, size);
    assert frame[8..] == b3[8..size] == b2[8..size] by {
      assert b3[8..] == b2[8..];
    }
  }

  /** The frame `$sendEvent` produces for encodable arguments that fit the scratch buffer. */
  lemma EncodeEventFits(buf: seq<u8>, id: int, opcode: int, types: seq<string>, args: seq<Arg>, v: View, cat: map<string, Iface>)
    requires |buf| == SCRATCH_SIZE
    requires EncodableFrom(ParseTypes(types), args, 0, v, cat)
    requires 8 + SizeFrom(ParseTypes(types), args, 0) <= SCRATCH_SIZE
    ensures var w := PutFields(StampHeader(buf, id, opcode), 8, ParseTypes(types), args, 0);
            var size := 8 + SizeFrom(ParseTypes(types), args, 0);
            EncodeEvent(buf, id, opcode, types, args) == Encoded(Put(w, 6, LeU16(size)), Put(w, 6, LeU16(size))[..size])
  {
    WriteAsPut(StampHeader(buf, id, opcode), 8, ParseTypes(types), args, 0, v, cat);
  }

  /** The header of the frame for encodable arguments: the object id, the opcode and the frame's own length. */
  lemma FrameHeader(buf: seq<u8>, id: int, opcode: int, types: seq<string>, args: seq<Arg>, v: View, cat: map<string, Iface>)
    requires |buf| == SCRATCH_SIZE && IsU32(id) && IsU16(opcode)
    requires EncodableFrom(ParseTypes(types), args, 0, v, cat)
    requires 8 + SizeFrom(ParseTypes(types), args, 0) <= SCRATCH_SIZE
    ensures EncodeEvent(buf, id, opcode, types, args).Encoded?
    ensures var frame := EncodeEvent(buf, id, opcode, types, args).frame;
            |frame| == 8 + SizeFrom(ParseTypes(types), args, 0) &&
            U32At(frame, 0) == id && U16At(frame, 4) == opcode && U16At(frame, 6) == |frame|
  {
    var size := 8 + SizeFrom(ParseTypes(types), args, 0);
    EncodeEventFits(buf, id, opcode, types, args, v, cat);
    SizeStamp(PutFields(StampHeader(buf, id, opcode), 8, ParseTypes(types), args, 0), size);
    EncodeEventHeader(buf, id, opcode, types, args);
  }

  /** A frame cut from a buffer with the fields laid out after the header, its size stamped at offset 6, is read back as expected. */
  lemma StampedFrameArgs(w: seq<u8>, size: nat, ts: seq<ArgType>, args: seq<Arg>, v: View, cat: map<string, Iface>, fds: seq<int>)
    requires EncodableFrom(ts, args, 0, v, cat)
    requires size == 8 + SizeFrom(ts, args, 0) && size <= |w| && IsU16(size)
    requires LaidOut(w, 8, ts, args, 0)
    ensures ReadArgsFrom(Put(w, 6, LeU16(size))[..size], cat, Cursor(8, v, fds), ts, 0, []) ==
            ArgsRead(ExpectedFrom(ts, args, 0, v, cat), Cursor(size, ViewAfterAll(ts, args, 0, v, cat), fds))
  {
    var frame := Put(w, 6, LeU16(size))[..size];
    SizeStamp(w, size);
    LaidOutAgree(frame, w, 8, ts, args, 0);
    ReadFields(frame, ts, args, 0, cat, Cursor(8, v, fds), []);
    assert [] + ExpectedFrom(ts, args, 0, v, cat) == ExpectedFrom(ts, args, 0, v, cat);
  }

  /** The arguments of the frame for encodable arguments are read back as expected. */
  lemma FrameArgs(buf: seq<u8>, id: int, opcode: int, types: seq<string>, args: seq<Arg>,
                  v: View, cat: map<string, Iface>, fds: seq<int>)
    requires |buf| == SCRATCH_SIZE
    requires EncodableFrom(ParseTypes(types), args, 0, v, cat)
    requires 8 + SizeFrom(ParseTypes(types), args, 0) <= SCRATCH_SIZE
    ensures EncodeEvent(buf, id, opcode, types, args).Encoded?
    ensures ReadArgsFrom(EncodeEvent(buf, id, opcode, types, args).frame, cat, Cursor(8, v, fds), ParseTypes(types), 0, []) ==
            ArgsRead(ExpectedFrom(ParseTypes(types), args, 0, v, cat),
                     Cursor(8 + SizeFrom(ParseTypes(types), args, 0), ViewAfterAll(ParseTypes(types), args, 0, v, cat), fds))
  {
    var ts := ParseTypes(types);
    EncodeEventFits(buf, id, opcode, types, args, v, cat);
    PutFieldsLaidOut(StampHeader(buf, id, opcode), 8, ts, args, 0);
    var w := PutFields(StampHeader(buf, id, opcode), 8, ts, args, 0);
    StampedFrameArgs(w, 8 + SizeFrom(ts, args, 0), ts, args, v, cat, fds);
  }

  /**
   * The round trip of a whole message: when every argument is encodable
   * and the message fits the scratch buffer, `$sendEvent` produces a frame
   * whose header carries the object id, the opcode and the frame's own
   * length, and whose arguments the decoder reads back, ending exactly at
   * the declared size.
   */
  lemma FrameRoundTrip(buf: seq<u8>, id: int, opcode: int, types: seq<string>, args: seq<Arg>,
                       v: View, cat: map<string, Iface>, fds: seq<int>)
    requires |buf| == SCRATCH_SIZE && IsU32(id) && IsU16(opcode)
    requires EncodableFrom(ParseTypes(types), args, 0, v, cat)
    requires 8 + SizeFrom(ParseTypes(types), args, 0) <= SCRATCH_SIZE
    ensures var e := EncodeEvent(buf, id, opcode, types, args);
            e.Encoded? && |e.frame| == 8 + SizeFrom(ParseTypes(types), args, 0) &&
            U32At(e.frame, 0) == id && U16At(e.frame, 4) == opcode && U16At(e.frame, 6) == |e.frame| &&
            ReadArgsFrom(e.frame, cat, Cursor(8, v, fds), ParseTypes(types), 0, []) ==
              ArgsRead(ExpectedFrom(ParseTypes(types), args, 0, v, cat),
                       Cursor(|e.frame|, ViewAfterAll(ParseTypes(types), args, 0, v, cat), fds))
  {
    FrameHeader(buf, id, opcode, types, args, v, cat);
    FrameArgs(buf, id, opcode, types, args, v, cat, fds);
  }

  /**
   * The round trip through the decoder: an event frame whose object id
   * names, in the decoder's object map, an interface whose request
   * `opcode` has the same signature is decoded into that request with
   * the expected arguments.
   */
  lemma EventDecodes(buf: seq<u8>, id: int, opcode: int, types: seq<string>, args: seq<Arg>,
                     v: View, cat: map<string, Iface>, fds: seq<int>)
    requires |buf| == SCRATCH_SIZE && IsU32(id) && IsU16(opcode)
    requires id in v.ifaces && opcode < |v.ifaces[id].requests| && v.ifaces[id].requests[opcode].signature == types
    requires EncodableFrom(ParseTypes(types), args, 0, v, cat)
    requires 8 + SizeFrom(ParseTypes(types), args, 0) <= SCRATCH_SIZE
    ensures var e := EncodeEvent(buf, id, opcode, types, args);
            e.Encoded? &&
            DecodeRequest(e.frame, cat, v, fds) ==
              Decoded(Request(id, opcode, ExpectedFrom(ParseTypes(types), args, 0, v, cat)),
                      Cursor(|e.frame|, ViewAfterAll(ParseTypes(types), args, 0, v, cat), fds))
  {
    FrameRoundTrip(buf, id, opcode, types, args, v, cat, fds);
  }

  /** The decoder as written rejects every request that carries an argument: a `sync` with its callback id (12 bytes) fails the size check, while the intended decoder accepts it. */
  lemma AsWrittenRejectsArguments(frame: seq<u8>, v: View, cat: map<string, Iface>)
    requires frame == LeU32(1) + LeU16(0) + LeU16(12) + LeU32(2)
    requires v == View([1], map[1 := Iface("wl_display", 1, [Message("sync", ["nwl_callback"])], [])])
    requires "wl_callback" in cat
    ensures DecodeRequestAsWritten(frame, v, []).DecodeFailed?
    ensures DecodeRequestAsWritten(frame, v, []).err == SizeMismatch
    ensures DecodeRequest(frame, cat, v, []).Decoded?
    ensures DecodeRequest(frame, cat, v, []).req.args == [Obj(2, cat["wl_callback"].name)]
  {
    U32RoundTrip(frame, 0, 1);
    U16RoundTrip(frame, 4, 0);
    U16RoundTrip(frame, 6, 12);
    U32RoundTrip(frame, 8, 2);
    var ts := ParseTypes(["nwl_callback"]);
    assert ts[0] == NewIdT("wl_callback") by {
      assert "nwl_callback"[1..] == "wl_callback";
    }
  }

  /** The strict size check: a `sync` whose header claims 16 bytes while its signature reads only 12 fails with "Size mismatch" at cursor 12, so it is never dispatched. */
  lemma OversizedHeaderMismatch(frame: seq<u8>, v: View, cat: map<string, Iface>)
    requires frame == LeU32(1) + LeU16(0) + LeU16(16) + LeU32(2) + LeU32(0)
    requires v == View([1], map[1 := Iface("wl_display", 1, [Message("sync", ["nwl_callback"])], [])])
    requires "wl_callback" in cat
    ensures DecodeRequest(frame, cat, v, []).DecodeFailed?
    ensures DecodeRequest(frame, cat, v, []).err == SizeMismatch
    ensures DecodeRequest(frame, cat, v, []).at.pos == 12
  {
    U32RoundTrip(frame, 0, 1);
    U16RoundTrip(frame, 4, 0);
    U16RoundTrip(frame, 6, 16);
    U32RoundTrip(frame, 8, 2);
    var ts := ParseTypes(["nwl_callback"]);
    assert ts[0] == NewIdT("wl_callback") by {
      assert "nwl_callback"[1..] == "wl_callback";
    }
  }

  /** An event's opcode: the last event of that name (later stubs overwrite earlier ones), or -1. */
  function EventOpcode(events: seq<Message>, name: string): (op: int)
    ensures -1 <= op < |events|
  {
    if events == [] then -1
    else if events[|events| - 1].name == name then |events| - 1
    else EventOpcode(events[..|events| - 1], name)
  }

  /** The opcode found for `name` is the last event of that name, and none is found exactly when no event has that name. */
  lemma {:induction false} EventOpcodeLast(events: seq<Message>, name: string)
    ensures var op := EventOpcode(events, name);
            (op >= 0 ==> events[op].name == name && forall j :: op < j < |events| ==> events[j].name != name) &&
            (op == -1 <==> forall j :: 0 <= j < |events| ==> events[j].name != name)
  {
    if events != [] && events[|events| - 1].name != name {
      EventOpcodeLast(events[..|events| - 1], name);
    }
  }
}
