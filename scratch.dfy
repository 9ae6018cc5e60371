/**
 * The encoder of `Client.prototype.$sendEvent` (src/client/wl.js) as it
 * runs: the shared scratch buffer `tmpBuffer` is an array written in place
 * through a DataView, and the `write*` helpers advance a cursor over it.
 * Each method is proved to leave the array exactly as the corresponding
 * function of module Wire describes, so the round-trip lemmas proved there
 * apply to what the engine sends.
 */
module Scratch {
  import opened Util
  import opened Bytes
  import opened Wire

  /** Where a write helper left the cursor, or the exception it threw. */
  datatype Step = Advanced(pos: nat) | Threw(err: Error)

  /** The array now holds `now` and the helper returned `s`, exactly as the codec function's result `w` describes. */
  predicate Follows(w: Written, now: seq<u8>, s: Step)
  {
    now == w.buf &&
    match w
    case Written(_, q) => s == Advanced(q)
    case WriteFailed(e, _) => s == Threw(e)
  }

  /** What `$sendEvent` hands to the socket, or the exception it threw. */
  datatype Outcome = Sent(frame: seq<u8>) | Failed(err: Error)

  /** A typed-array store of `bytes` at offset `at`. */
  method Store(buf: array<u8>, at: nat, bytes: seq<u8>)
    requires at + |bytes| <= buf.Length
    modifies buf
    ensures buf[..] == Put(old(buf[..]), at, bytes)
  {
    ghost var was := buf[..];
    forall k | 0 <= k < |bytes| {
      buf[at + k] := bytes[k];
    }
    forall i | 0 <= i < buf.Length
      ensures buf[..][i] == Put(was, at, bytes)[i]
    {
      PutIndex(was, at, bytes, i);
    }
  }

  /** `view.setUint32(at, v, true)`: the four bytes, or a RangeError with nothing written. */
  method SetU32(buf: array<u8>, at: nat, v: int) returns (s: Step)
    requires IsU32(v)
    modifies buf
    ensures Follows(WriteU32(old(buf[..]), at, v), buf[..], s)
  {
    if at + 4 <= buf.Length {
      Store(buf, at, LeU32(v));
      s := Advanced(at + 4);
    } else {
      s := Threw(RangeError);
    }
  }

  /** Storing nothing at the very end of a buffer leaves it as it was. */
  lemma PutNothing(buf: seq<u8>)
    ensures Put(buf, |buf|, []) == buf
  {
    assert buf[..|buf|] == buf;
  }

  /** The loop of `writeString`: one `setUint8` per UTF-16 code unit (`charCodeAt(i)`, its low byte), then one for the NUL; a store past the end throws after the earlier ones took effect. */
  method StoreChars(buf: array<u8>, q: nat, s: string) returns (st: Step)
    requires q <= buf.Length
    modifies buf
    ensures Follows(WriteEach(old(buf[..]), q, CharBytes(s) + [0]), buf[..], st)
  {
    ghost var b1 := buf[..];
    ghost var bytes := CharBytes(s) + [0];
    PutNothing(b1);
    var units := CodeUnits(s);
    var pos := q;
    var i := 0;
    while i < |units|
      invariant 0 <= i <= |units| && pos == q + i && pos <= buf.Length
      invariant buf[..] == Put(b1, q, bytes[..i])
    {
      if pos >= buf.Length {
        return Threw(RangeError);
      }
      StoreNext(buf, b1, q, bytes, i, units[i] % 0x100);
      pos := pos + 1;
      i := i + 1;
    }
    if pos >= buf.Length {
      return Threw(RangeError);
    }
    StoreNext(buf, b1, q, bytes, i, 0);
    assert bytes[..i + 1] == bytes;
    st := Advanced(pos + 1);
  }

  /** One `setUint8` of the `writeString` loop: the stores so far are followed by the next byte. */
  method StoreNext(buf: array<u8>, ghost b1: seq<u8>, q: nat, ghost bytes: seq<u8>, i: nat, v: u8)
    requires i < |bytes| && v == bytes[i] && q + i < buf.Length && |b1| == buf.Length
    requires buf[..] == Put(b1, q, bytes[..i])
    modifies buf
    ensures buf[..] == Put(b1, q, bytes[..i + 1])
  {
    Store(buf, q + i, [v]);
    PutPut(b1, q, bytes[..i], [bytes[i]]);
    TakeNext(bytes, i);
  }

  /** `writeString`: the length (`s.length + 1`, in UTF-16 code units), the code units' low bytes and the NUL, then the code's padding. */
  method WriteStringInto(buf: array<u8>, p: nat, s: string) returns (st: Step)
    modifies buf
    ensures Follows(WriteString(old(buf[..]), p, s), buf[..], st)
  {
    var length := |CodeUnits(s)| + 1;
    st := SetU32(buf, p, ToUint32(length));
    if st.Threw? {
      return;
    }
    st := StoreChars(buf, p + 4, s);
    if st.Advanced? {
      st := Advanced(st.pos + Pad(length));
    }
  }

  /** `writeArray`: the byte count, the bytes with one typed-array store, then the padding. */
  method WriteArrayInto(buf: array<u8>, p: nat, bytes: seq<u8>) returns (st: Step)
    requires IsU32(|bytes|)
    modifies buf
    ensures Follows(WriteArray(old(buf[..]), p, bytes), buf[..], st)
  {
    st := SetU32(buf, p, |bytes|);
    if st.Threw? {
      return;
    }
    var pos := p + 4;
    if pos + |bytes| > buf.Length {
      return Threw(RangeError);
    }
    Store(buf, pos, bytes);
    pos := pos + |bytes|;
    pos := pos + Pad(|bytes|);
    st := Advanced(pos);
  }

  /** `writeObject`: a resource's id after the interface check, 0 for an allowed null. */
  method WriteObjectInto(buf: array<u8>, p: nat, iface: string, nullable: bool, a: Arg) returns (st: Step)
    modifies buf
    ensures Follows(WriteObject(old(buf[..]), p, iface, nullable, a), buf[..], st)
  {
    if a.Obj? {
      if a.iface != iface {
        return Threw(BadObject);
      }
      st := SetU32(buf, p, ToUint32(a.id));
    } else if a.Null? || a.Undefined? {
      if !nullable {
        return Threw(RequiredObject);
      }
      st := SetU32(buf, p, 0);
    } else {
      st := Threw(BadArgument);
    }
  }

  /** `writeInt`, `writeUint`, `writeNewID` (scale 1) and `writeFixed` (scale 256). */
  method WriteNumberInto(buf: array<u8>, p: nat, a: Arg, scale: real) returns (st: Step)
    modifies buf
    ensures Follows(WriteNumber(old(buf[..]), p, a, scale), buf[..], st)
  {
    if !IsNumber(a) {
      return Threw(BadArgument);
    }
    st := SetU32(buf, p, NumberWord(a, scale));
  }

  /** One `writeArg(type)`: selects the helper by the type's tag. */
  method WriteArgInto(buf: array<u8>, p: nat, t: ArgType, a: Arg) returns (st: Step)
    modifies buf
    ensures Follows(WriteArg(old(buf[..]), p, t, a), buf[..], st)
  {
    match t
    case IntT => st := WriteNumberInto(buf, p, a, 1.0);
    case UintT => st := WriteNumberInto(buf, p, a, 1.0);
    case FixedT => st := WriteNumberInto(buf, p, a, 256.0);
    case StringT =>
      if a.Str? {
        st := WriteStringInto(buf, p, a.s);
      } else {
        st := Threw(BadArgument);
      }
    case ObjectT(iface, nullable) => st := WriteObjectInto(buf, p, iface, nullable, a);
    case NewIdT(_) => st := WriteNumberInto(buf, p, a, 1.0);
    case ArrayT =>
      if a.Arr? && IsU32(|a.bytes|) {
        st := WriteArrayInto(buf, p, a.bytes);
      } else {
        st := Threw(BadArgument);
      }
    case FdT => st := Threw(FdUnsupported);
    case UnknownT => st := Advanced(p);
  }

  /**
   * The body of `$sendEvent` after the closed check: the header, then
   * `types.forEach(writeArg)` with `args.shift()` supplying each argument,
   * then the final cursor stored as the size and the frame sliced off.
   */
  method Encode(buf: array<u8>, id: int, opcode: int, types: seq<string>, args: seq<Arg>) returns (r: Outcome)
    requires buf.Length == SCRATCH_SIZE
    modifies buf
    ensures var e := EncodeEvent(old(buf[..]), id, opcode, types, args);
            buf[..] == e.buf &&
            (e.Encoded? ==> r == Sent(e.frame)) &&
            (e.EncodeFailed? ==> r == Failed(e.err))
  {
    ghost var ts := ParseTypes(types);
    Store(buf, 0, LeU32(ToUint32(id)));
    Store(buf, 4, LeU16(ToUint16(opcode)));
    ghost var b := buf[..];
    assert b == StampHeader(old(buf[..]), id, opcode);
    var pos := 8;
    var i := 0;
    while i < |types|
      invariant 0 <= i <= |types|
      invariant WriteArgs(buf[..], pos, ts, args, i) == WriteArgs(b, 8, ts, args, 0)
    {
      ghost var before := buf[..];
      var st := WriteArgInto(buf, pos, ParseType(types[i]), ArgAt(args, i));
      if st.Threw? {
        return Failed(st.err);
      }
      WriteArgsStep(before, pos, ts, args, i, buf[..], st.pos);
      pos := st.pos;
      i := i + 1;
    }
    var size := pos;
    Store(buf, 6, LeU16(ToUint16(size)));
    r := Sent(buf[..Min(size, buf.Length)]);
  }
}
