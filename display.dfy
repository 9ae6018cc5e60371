/**
 * The compositor-wide `Display` of src/client/wl.js: the serial counter
 * that events such as `wl_callback.done` carry, and the append-only table
 * of globals that every client's registry advertises.
 */
module WlDisplay {
  import opened Util
  import opened Wire

  const MAX_UINT32: int := 0xFFFF_FFFF

  /**
   * An entry of `$globals`: the resource constructor (represented by the
   * interface it builds), the advertised version and the bind callback,
   * which is code outside this model and is represented by an identity.
   */
  datatype Global = Global(iface: Iface, version: int, bindFunc: nat)

  /** The serial `nextSerial` returns when the counter holds `s`. */
  function SerialAfter(s: int): int
  {
    (if s == MAX_UINT32 then 0 else s) + 1
  }

  /** `nextSerial` never hands out 0, stays within 32 bits, counts up by one and wraps from 0xFFFFFFFF back to 1. */
  lemma SerialBounds(s: int)
    requires 0 <= s <= MAX_UINT32
    ensures 1 <= SerialAfter(s) <= MAX_UINT32
    ensures s < MAX_UINT32 ==> SerialAfter(s) == s + 1
    ensures s == MAX_UINT32 ==> SerialAfter(s) == 1
  {
  }

  /** The counter after `k` calls of `nextSerial` starting from `s`. */
  function SerialsAfter(s: int, k: nat): int
  {
    if k == 0 then s else SerialAfter(SerialsAfter(s, k - 1))
  }

  /** After `k >= 1` calls starting from any counter value, the serial is the starting value advanced by `k` on the cycle 1..0xFFFFFFFF. */
  lemma {:induction false} SerialsAfterClosed(s: int, k: nat)
    requires 0 <= s <= MAX_UINT32 && k >= 1
    ensures SerialsAfter(s, k) == (s + k - 1) % MAX_UINT32 + 1
  {
    if k > 1 {
      SerialsAfterClosed(s, k - 1);
      var x := (s + k - 2) % MAX_UINT32;
      if x == MAX_UINT32 - 1 {
        assert (s + k - 1) % MAX_UINT32 == 0;
      } else {
        assert (s + k - 1) % MAX_UINT32 == x + 1;
      }
    }
  }

  /** Two serials handed out fewer than 0xFFFFFFFF calls apart are different: a serial repeats only after a full cycle. */
  lemma SerialsDistinct(s: int, j: nat, k: nat)
    requires 0 <= s <= MAX_UINT32
    requires 1 <= j < k < j + MAX_UINT32
    ensures SerialsAfter(s, j) != SerialsAfter(s, k)
    ensures SerialsAfter(s, k + MAX_UINT32) == SerialsAfter(s, k)
  {
    SerialsAfterClosed(s, j);
    SerialsAfterClosed(s, k);
    SerialsAfterClosed(s, k + MAX_UINT32);
    ModShift(s + j - 1, k - j);
    ModCycle(s + k - 1);
  }

  /** A full cycle forward leaves the remainder modulo 0xFFFFFFFF unchanged. */
  lemma ModCycle(x: int)
    ensures (x + MAX_UINT32) % MAX_UINT32 == x % MAX_UINT32
  {
    var q, r := x / MAX_UINT32, x % MAX_UINT32;
    assert x + MAX_UINT32 == (q + 1) * MAX_UINT32 + r;
  }

  /** Moving less than a full cycle forward changes the remainder modulo 0xFFFFFFFF. */
  lemma ModShift(x: int, d: int)
    requires 0 < d < MAX_UINT32
    ensures (x + d) % MAX_UINT32 != x % MAX_UINT32
  {
    var k := (x + d) / MAX_UINT32 - x / MAX_UINT32;
    assert (x + d) % MAX_UINT32 - x % MAX_UINT32 == d - k * MAX_UINT32;
    if k <= 0 {
      assert d - k * MAX_UINT32 >= d;
    } else {
      assert d - k * MAX_UINT32 <= d - MAX_UINT32;
    }
  }

  /** `globalName(idx)`: a global's name is its 1-based position in the table. */
  function GlobalName(idx: int): int
  {
    idx + 1
  }

  /** `findGlobal(name)`: the entry `$globals[name - 1]`, undefined outside the table. */
  function FindGlobal(globals: seq<Global>, name: int): Option<Global>
  {
    var idx := name - 1;
    if 0 <= idx < |globals| then Some(globals[idx]) else None
  }

  /** `findGlobal` inverts `globalName`, and every other name (0, negative or past the end) finds nothing. */
  lemma FindGlobalName(globals: seq<Global>, name: int)
    ensures FindGlobal(globals, name).Some? <==> 1 <= name <= |globals|
    ensures forall idx :: 0 <= idx < |globals| ==> FindGlobal(globals, GlobalName(idx)) == Some(globals[idx])
  {
  }

  /** Appending a global keeps every existing name bound to the same global and names the new one `|globals| + 1`. */
  lemma FindGlobalAppend(globals: seq<Global>, g: Global, name: int)
    ensures 1 <= name <= |globals| ==> FindGlobal(globals + [g], name) == FindGlobal(globals, name)
    ensures FindGlobal(globals + [g], |globals| + 1) == Some(g)
  {
  }

  /** The `global` events `get_registry` announces: one (name, interface name, version) triple per global, in table order. */
  function Announcements(globals: seq<Global>): (r: seq<(int, string, int)>)
    ensures |r| == |globals|
    ensures forall i :: 0 <= i < |globals| ==> r[i] == (GlobalName(i), globals[i].iface.name, globals[i].version)
  {
    if globals == [] then []
    else Announcements(globals[..|globals| - 1]) + [(GlobalName(|globals| - 1), globals[|globals| - 1].iface.name, globals[|globals| - 1].version)]
  }

  /** Every announced name finds the global it was announced for. */
  lemma AnnouncedNamesBind(globals: seq<Global>, i: int)
    requires 0 <= i < |globals|
    ensures FindGlobal(globals, Announcements(globals)[i].0) == Some(globals[i])
    ensures Announcements(globals)[i].1 == globals[i].iface.name
  {
  }

  /** The display: the serial counter and the global table. */
  class Display {
    var serial: int
    var globals: seq<Global>

    predicate Valid()
      reads this
    {
      0 <= serial <= MAX_UINT32
    }

    constructor()
      ensures Valid()
      ensures serial == 0 && globals == []
    {
      serial := 0;
      globals := [];
    }

    /** `nextSerial`: wraps the counter to 0 when it holds 0xFFFFFFFF, then increments it and returns it. */
    method NextSerial() returns (s: int)
      requires Valid()
      modifies this
      ensures Valid()
      ensures s == serial == SerialAfter(old(serial))
      ensures globals == old(globals)
    {
      if serial == MAX_UINT32 {
        serial := 0;
      }
      serial := serial + 1;
      s := serial;
    }

    /** `registerGlobal`: appends an entry; the table is never reordered or shrunk. */
    method RegisterGlobal(iface: Iface, version: int, bindFunc: nat)
      modifies this
      ensures globals == old(globals) + [Global(iface, version, bindFunc)]
      ensures serial == old(serial)
    {
      globals := globals + [Global(iface, version, bindFunc)];
    }
  }
}
