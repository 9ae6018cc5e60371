/**
 * The shadow shared-memory pool of src/client/shm.js: a client-side copy
 * of a memory segment the peer owns, kept current over the pool's own
 * socket. `fetchUpdate` asks the peer for a region under a fresh token;
 * the peer answers with `update` announcements, each followed by a binary
 * chunk copied into the shadow buffer, and then `update_done` with the
 * token, which resolves the fetch with the buffer. A pixel `Buffer`
 * turns damage to a rectangle into one such fetch and, once it completes,
 * copies the rectangle's rows out of the pool.
 */
module Shm {
  import opened Util
  import opened Bytes
  import opened Decimal
  import Scratch

  /** `_bytesPerPixel`: only packed 32-bit formats are supported. */
  const BYTES_PER_PIXEL: int := 4

  /**
   * What arrives on the pool's socket: the control messages `update` and
   * `update_done` (already parsed), any other control message, or a binary
   * chunk.
   */
  datatype PoolMessage = Update(offset: int) | UpdateDone(token: int) | OtherControl | Chunk(data: seq<u8>)

  /** The exceptions the pool's code throws. */
  datatype PoolError =
    | RangeError  // a typed-array store outside the buffer, or `new ArrayBuffer` of a negative size
    | TypeError   // `update_done` for a token with no resolver
    | SyntaxError // an empty binary chunk, which the handler hands to `JSON.parse`

  /** Whether a call returned or threw. */
  datatype Outcome = Handled | Failed(err: PoolError)

  /** The request `fetchUpdate` sends: `"region "` and the five numbers joined by commas. */
  function RegionRequest(token: int, offset: int, w: int, h: int, stride: int): string
  {
    "region " + JoinInts([token, offset, w, h, stride])
  }

  /** The peer's `"region %d,%d,%d,%d,%d"` conversion reads back exactly the five numbers of a request, with nothing left over. */
  lemma RegionRequestScans(token: int, offset: int, w: int, h: int, stride: int)
    ensures var s := RegionRequest(token, offset, w, h, stride);
            |s| >= 7 && s[..7] == "region " &&
            ScanInts(s[7..], 5) == Some(([token, offset, w, h, stride], ""))
  {
    var ns := [token, offset, w, h, stride];
    var s := RegionRequest(token, offset, w, h, stride);
    assert s[7..] == JoinInts(ns);
    ScanJoinedInts(ns);
  }

  /** `new Uint8Array(buffer).set(bytes, offset)`: the buffer with the bytes stored at `offset`, or None for the RangeError of a negative offset or a store past the end. */
  function StoreAt(buf: seq<u8>, offset: int, bytes: seq<u8>): Option<seq<u8>>
  {
    if offset < 0 || offset + |bytes| > |buf| then None else Some(Put(buf, offset, bytes))
  }

  /** A store succeeds exactly when the bytes fit at a non-negative offset, and then they are copied byte for byte at the offset while every other byte keeps its value. */
  lemma StoreAtLands(buf: seq<u8>, offset: int, bytes: seq<u8>)
    ensures StoreAt(buf, offset, bytes).Some? <==> 0 <= offset && offset + |bytes| <= |buf|
    ensures StoreAt(buf, offset, bytes).Some? ==>
              var r := StoreAt(buf, offset, bytes).value;
              |r| == |buf| &&
              (forall i :: 0 <= i < |bytes| ==> r[offset + i] == bytes[i]) &&
              (forall i :: 0 <= i < |buf| && !(offset <= i < offset + |bytes|) ==> r[i] == buf[i])
  {
    if 0 <= offset && offset + |bytes| <= |buf| {
      forall i | 0 <= i < |bytes|
        ensures Put(buf, offset, bytes)[offset + i] == bytes[i]
      {
        PutIndex(buf, offset, bytes, offset + i);
      }
      forall i | 0 <= i < |buf| && !(offset <= i < offset + |bytes|)
        ensures Put(buf, offset, bytes)[i] == buf[i]
      {
        PutIndex(buf, offset, bytes, i);
      }
    }
  }

  /**
   * `set` as line 24 calls it, with the chunk's ArrayBuffer as the source:
   * an ArrayBuffer has no `length`, so it is read as an empty array-like;
   * the offset checks still throw, but nothing is copied.
   */
  function StoreBufferAsWritten(buf: seq<u8>, offset: int, source: seq<u8>): Option<seq<u8>>
  {
    if offset < 0 || offset > |buf| then None else Some(buf)
  }

  /** An announced three-byte chunk at offset 0 of a four-byte pool: as written the pool keeps its zeros, while the intended store copies the chunk. */
  lemma ChunkIgnoredAsWritten()
    ensures StoreBufferAsWritten([0, 0, 0, 0], 0, [1, 2, 3]) == Some([0, 0, 0, 0])
    ensures StoreAt([0, 0, 0, 0], 0, [1, 2, 3]) == Some([1, 2, 3, 0])
  {
    assert Put([0, 0, 0, 0], 0, [1, 2, 3]) == [1, 2, 3, 0];
  }

  /** The index `ArrayBuffer.prototype.slice` uses for a bound `x` on a buffer of `len` bytes: a negative bound counts from the end, and every bound is clamped to the buffer. */
  function SliceBound(len: nat, x: int): (k: nat)
    ensures k <= len
    ensures 0 <= x <= len ==> k == x
  {
    if x < 0 then Max(len + x, 0) else Min(x, len)
  }

  /** `buffer.slice(start, end)`: the bytes between the two clamped bounds, none when they cross. */
  function SliceOf(buf: seq<u8>, start: int, end: int): seq<u8>
  {
    var a, b := SliceBound(|buf|, start), SliceBound(|buf|, end);
    if a < b then buf[a..b] else []
  }

  /** A slice is never longer than the distance between its bounds, and within the buffer it is exactly the bytes between them. */
  lemma SliceOfLength(buf: seq<u8>, start: int, end: int)
    requires start <= end
    ensures |SliceOf(buf, start, end)| <= end - start
    ensures 0 <= start && end <= |buf| ==> SliceOf(buf, start, end) == buf[start..end]
  {
  }

  /** Where the rectangle's pixel `(x, y)` begins in the pool: `offset + y * stride + x * 4`. */
  function Origin(offset: int, stride: int, x: int, y: int): int
  {
    offset + y * stride + x * BYTES_PER_PIXEL
  }

  /** Pixels of a row lie four bytes apart and rows lie `stride` bytes apart, so row `r` of a rectangle starting at `(x, y)` begins `r * stride` bytes after its first pixel. */
  lemma OriginLayout(offset: int, stride: int, x: int, y: int, r: int)
    ensures Origin(offset, stride, x + 1, y) == Origin(offset, stride, x, y) + BYTES_PER_PIXEL
    ensures Origin(offset, stride, x, y + 1) == Origin(offset, stride, x, y) + stride
    ensures Origin(offset, stride, x, y + r) == Origin(offset, stride, x, y) + r * stride
  {
    assert (y + r) * stride == y * stride + r * stride;
  }

  /** `k * x` by repeated addition: the row arithmetic below is proved in these terms, which the solver treats as linear. */
  function Times(k: nat, x: int): (t: int)
    ensures 0 <= x ==> 0 <= t
  {
    if k == 0 then 0 else Times(k - 1, x) + x
  }

  lemma {:induction false} TimesIsProduct(k: nat, x: int)
    ensures Times(k, x) == k * x
  {
    if k > 0 {
      TimesIsProduct(k - 1, x);
      assert (k - 1) * x + x == k * x;
    }
  }

  /** Row `a` of a non-negative width ends no later than row `b > a` begins. */
  lemma {:induction false} TimesBefore(a: nat, b: nat, x: nat)
    requires a < b
    ensures Times(a, x) + x <= Times(b, x)
    decreases b - a
  {
    if a + 1 < b {
      TimesBefore(a, b - 1, x);
    }
  }

  /** Row `r` of a completed fetch: `rowBytes` bytes of the pool from `origin + r * stride`, as `slice` clamps them. */
  function Row(pool: seq<u8>, origin: int, stride: int, rowBytes: nat, r: nat): (row: seq<u8>)
    ensures |row| <= rowBytes
  {
    SliceOfLength(pool, origin + Times(r, stride), origin + Times(r, stride) + rowBytes);
    SliceOf(pool, origin + Times(r, stride), origin + Times(r, stride) + rowBytes)
  }

  /** The rows a fetch of `n` rows reads from the pool, in order. */
  function Rows(pool: seq<u8>, origin: int, stride: int, rowBytes: nat, n: nat): (rows: seq<seq<u8>>)
    ensures |rows| == n && Fit(rows, rowBytes)
  {
    seq(n, r requires 0 <= r => Row(pool, origin, stride, rowBytes, r))
  }

  /** No row is longer than `rowBytes`. */
  predicate Fit(rows: seq<seq<u8>>, rowBytes: nat)
  {
    forall r :: 0 <= r < |rows| ==> |rows[r]| <= rowBytes
  }

  /** The image after the first `n` of `rows` are copied into it in order, row `r` at `Times(r, rowBytes)`. */
  function Repainted(image: seq<u8>, rows: seq<seq<u8>>, rowBytes: nat, n: nat): (r: seq<u8>)
    requires Fit(rows, rowBytes) && n <= |rows| && |image| >= Times(n, rowBytes)
    ensures |r| == |image|
  {
    if n == 0 then image
    else Put(Repainted(image, rows, rowBytes, n - 1), Times(n - 1, rowBytes), rows[n - 1])
  }

  /** Copying row `n - 1` changes exactly its own bytes, which become that row. */
  lemma {:induction false} RepaintedLastRow(image: seq<u8>, rows: seq<seq<u8>>, rowBytes: nat, n: nat, k: int)
    requires Fit(rows, rowBytes) && 0 < n <= |rows| && |image| >= Times(n, rowBytes) && 0 <= k < |image|
    ensures var at := Times(n - 1, rowBytes);
            Repainted(image, rows, rowBytes, n)[k] ==
            if at <= k < at + |rows[n - 1]| then rows[n - 1][k - at] else Repainted(image, rows, rowBytes, n - 1)[k]
  {
    PutIndex(Repainted(image, rows, rowBytes, n - 1), Times(n - 1, rowBytes), rows[n - 1], k);
  }

  /** A byte before row `n - 1` is not changed by copying that row. */
  lemma BeforeLastRow(image: seq<u8>, rows: seq<seq<u8>>, rowBytes: nat, n: nat, k: int)
    requires Fit(rows, rowBytes) && 0 < n <= |rows| && |image| >= Times(n, rowBytes) && 0 <= k < Times(n - 1, rowBytes)
    ensures k < |image| && Repainted(image, rows, rowBytes, n)[k] == Repainted(image, rows, rowBytes, n - 1)[k]
  {
    TimesBefore(n - 1, n, rowBytes);
    RepaintedLastRow(image, rows, rowBytes, n, k);
  }

  /** A byte of row `n - 1` is that row's byte once it is copied. */
  lemma InLastRow(image: seq<u8>, rows: seq<seq<u8>>, rowBytes: nat, n: nat, i: nat)
    requires Fit(rows, rowBytes) && 0 < n <= |rows| && |image| >= Times(n, rowBytes) && i < |rows[n - 1]|
    ensures Times(n - 1, rowBytes) + i < |image| && Repainted(image, rows, rowBytes, n)[Times(n - 1, rowBytes) + i] == rows[n - 1][i]
  {
    TimesBefore(n - 1, n, rowBytes);
    RepaintedLastRow(image, rows, rowBytes, n, Times(n - 1, rowBytes) + i);
  }

  /** Row `r` of the image holds `rows[r]`, byte for byte, once `n > r` rows are copied: later rows do not overwrite it. */
  lemma {:induction false} RepaintPlacesRows(image: seq<u8>, rows: seq<seq<u8>>, rowBytes: nat, n: nat, r: nat, i: nat)
    requires Fit(rows, rowBytes) && n <= |rows| && |image| >= Times(n, rowBytes) && r < n && i < |rows[r]|
    ensures Times(r, rowBytes) + |rows[r]| <= |image|
    ensures Repainted(image, rows, rowBytes, n)[Times(r, rowBytes) + i] == rows[r][i]
  {
    var at := Times(r, rowBytes);
    assert |rows[r]| <= rowBytes;
    assert at + rowBytes <= Times(n, rowBytes) by {
      TimesBefore(r, n, rowBytes);
    }
    if r < n - 1 {
      assert at + rowBytes <= Times(n - 1, rowBytes) by {
        TimesBefore(r, n - 1, rowBytes);
      }
      RepaintPlacesRows(image, rows, rowBytes, n - 1, r, i);
      BeforeLastRow(image, rows, rowBytes, n, at + i);
    } else {
      InLastRow(image, rows, rowBytes, n, i);
    }
  }

  /**
   * Byte `i` of row `r` of the image is the pool's byte at `origin +
   * Times(r, stride) + i`, that is `origin + r * stride + i`, whenever that
   * row lies inside the pool: the stride is honoured and never assumed to
   * equal the row's width.
   */
  lemma {:induction false} RepaintReadsPool(image: seq<u8>, pool: seq<u8>, origin: int, stride: int, rowBytes: nat, n: nat, r: nat, i: nat)
    requires |image| >= Times(n, rowBytes) && r < n && i < rowBytes
    requires 0 <= origin + Times(r, stride) && origin + Times(r, stride) + rowBytes <= |pool|
    ensures Times(r, rowBytes) + i < |image|
    ensures Repainted(image, Rows(pool, origin, stride, rowBytes, n), rowBytes, n)[Times(r, rowBytes) + i] == pool[origin + Times(r, stride) + i]
  {
    var start := origin + Times(r, stride);
    var rows := Rows(pool, origin, stride, rowBytes, n);
    assert rows[r] == pool[start..start + rowBytes] by {
      SliceOfLength(pool, start, start + rowBytes);
    }
    RepaintPlacesRows(image, rows, rowBytes, n, r, i);
  }

  /** Where line 74 puts row `y` of a `w`-pixel-wide rectangle, and how many bytes it takes there: at `y * w`, `stride` bytes. */
  function RowTargetAsWritten(y: int, w: int, stride: int): (int, int)
  {
    (y * w, stride)
  }

  /** Where the row belongs in a row-major image of four-byte pixels, and its length: at `y * w * 4`, `w * 4` bytes. */
  function RowTarget(y: int, w: int): (int, int)
  {
    (y * (w * BYTES_PER_PIXEL), w * BYTES_PER_PIXEL)
  }

  /**
   * Damage of 10 by 10 pixels in a buffer of stride 400: the image holds
   * 400 bytes. Once line 74 copies the slice's bytes (as written it copies
   * nothing, see `RowCopyIgnoredAsWritten`), the target and length it uses
   * would put the second row (400 bytes at offset 10) past the image's end,
   * starting inside the first row, while the intended rows are 40 bytes
   * each, the last one ending at the image's end.
   */
  lemma RowTargetAsWrittenOverruns()
    ensures var (at, len) := RowTargetAsWritten(1, 10, 400);
            at + len > 10 * 10 * BYTES_PER_PIXEL && at < RowTarget(0, 10).1
    ensures RowTarget(1, 10) == (40, 40) && RowTarget(9, 10) == (360, 40)
  {
  }

  /**
   * Line 74 as written hands `set` the ArrayBuffer that `buffer.slice`
   * returns (the fetch resolves with the pool's ArrayBuffer), which has no
   * `length`: no byte is copied, and the offset `y * w` never exceeds the
   * image, so no row store throws and the image keeps its contents.
   */
  lemma {:induction false} RowCopyIgnoredAsWritten(image: seq<u8>, row: seq<u8>, y: nat, w: nat, h: nat, stride: int)
    requires y < h && |image| == Times(h, w * BYTES_PER_PIXEL)
    ensures StoreBufferAsWritten(image, RowTargetAsWritten(y, w, stride).0, row) == Some(image)
  {
    TimesBefore(y, h, w);
    TimesIsProduct(y, w);
    TimesIsProduct(h, w);
    TimesIsProduct(h, w * BYTES_PER_PIXEL);
    assert h * (w * BYTES_PER_PIXEL) == BYTES_PER_PIXEL * (h * w);
  }

  /** Each row of the intended layout lies inside the image and ends where the next begins. */
  lemma {:induction false} RowTargetsTile(y: nat, w: nat, h: nat)
    requires y < h
    ensures var (at, len) := RowTarget(y, w);
            at + len == RowTarget(y + 1, w).0 && at + len <= h * (w * BYTES_PER_PIXEL)
  {
    var rowBytes := w * BYTES_PER_PIXEL;
    TimesIsProduct(y, rowBytes);
    TimesIsProduct(y + 1, rowBytes);
    TimesIsProduct(h, rowBytes);
    TimesBefore(y, h, rowBytes);
  }

  /**
   * The loop of the completion callback as intended: row `y` of the
   * fetched region, `slice`d from the pool at `origin + y * stride`, has
   * its bytes copied (the code passes the ArrayBuffer itself, which copies
   * nothing) to `y * w * 4` of the image data, which holds `h` rows of
   * `w * 4` bytes (`Times(h, x) == h * x` by `TimesIsProduct`).
   */
  method CopyRows(image: array<u8>, pool: seq<u8>, origin: int, stride: int, w: nat, h: nat)
    requires image.Length == Times(h, w * BYTES_PER_PIXEL)
    modifies image
    ensures image[..] == Repainted(old(image[..]), Rows(pool, origin, stride, w * BYTES_PER_PIXEL, h), w * BYTES_PER_PIXEL, h)
  {
    var rowBytes := w * BYTES_PER_PIXEL;
    ghost var rows := Rows(pool, origin, stride, rowBytes, h);
    var y := 0;
    while y != h
      invariant 0 <= y <= h && Times(y, rowBytes) <= image.Length
      invariant image[..] == Repainted(old(image[..]), rows, rowBytes, y)
    {
      assert Times(y + 1, rowBytes) <= image.Length by {
        TimesBefore(y, h, rowBytes);
      }
      CopyRow(image, old(image[..]), pool, origin, stride, rowBytes, rows, y);
      y := y + 1;
    }
  }

  /** One turn of the row loop: row `y` is sliced from the pool at `origin + y * stride` and stored at `y * rowBytes`, just past the rows before it. */
  method CopyRow(image: array<u8>, ghost start: seq<u8>, pool: seq<u8>, origin: int, stride: int, rowBytes: nat, ghost rows: seq<seq<u8>>, y: nat)
    requires y < |rows| && rows == Rows(pool, origin, stride, rowBytes, |rows|)
    requires |start| == image.Length && Times(y + 1, rowBytes) <= |start|
    requires image[..] == Repainted(start, rows, rowBytes, y)
    modifies image
    ensures image[..] == Repainted(start, rows, rowBytes, y + 1)
  {
    var bufferOffs := origin + y * stride;
    var imageOffs := y * rowBytes;
    assert bufferOffs == origin + Times(y, stride) && imageOffs == Times(y, rowBytes) by {
      TimesIsProduct(y, stride);
      TimesIsProduct(y, rowBytes);
    }
    var row := SliceOf(pool, bufferOffs, bufferOffs + rowBytes);
    assert row == rows[y];
    Scratch.Store(image, imageOffs, row);
  }

  /** A fetch in flight: the token it was issued under and the rectangle it will repaint. */
  datatype Damage = Damage(token: int, x: int, y: int, w: int, h: int, origin: int)

  class ShadowPool {
    /** The descriptor that names the segment. */
    const fd: int
    /** The path of the pool's socket. */
    const path: string
    /** `_size`: undefined until the first `setSize`. */
    var size: Option<int>
    /** `_buffer`: the shadow copy (empty until the first `setSize`). */
    var buffer: array<u8>
    /** `_currentOffset`: where the next chunk goes; -1 until announced. */
    var currentOffset: int
    /** `_currentToken`: the last token issued. */
    var currentToken: int
    /** The keys of `_operations`: fetches whose completion is awaited. */
    var pending: set<int>
    /** The fetches resolved so far, with the buffer contents each was resolved with. */
    var completed: map<int, seq<u8>>
    /** The text sent on the pool's socket. */
    var sent: seq<string>

    /** Every token awaited or resolved was issued, none is both, and one request was sent per token. */
    ghost predicate Valid()
      reads this
    {
      0 <= currentToken && |sent| == currentToken &&
      (forall t :: t in pending ==> 1 <= t <= currentToken) &&
      (forall t :: t in completed ==> 1 <= t <= currentToken) &&
      pending !! completed.Keys
    }

    /** `ShadowPool(compositor, fd)`: the socket at `"/fd/" + fd`, no offset announced, no token issued, nothing awaited. */
    constructor(fd: int)
      ensures Valid()
      ensures this.fd == fd && path == "/fd/" + IntToString(fd)
      ensures size == None && buffer.Length == 0 && fresh(buffer)
      ensures currentOffset == -1 && currentToken == 0 && pending == {} && completed == map[] && sent == []
    {
      this.fd := fd;
      path := "/fd/" + IntToString(fd);
      size := None;
      buffer := new u8[0];
      currentOffset := -1;
      currentToken := 0;
      pending := {};
      completed := map[];
      sent := [];
    }

    /** `setSize(n)`: records the size, then replaces the buffer with a fresh zero-filled one of exactly `n` bytes; a negative size throws after it was recorded. */
    method SetSize(n: int) returns (st: Outcome)
      modifies this`size, this`buffer
      ensures size == Some(n)
      ensures n < 0 ==> st == Failed(RangeError) && buffer == old(buffer)
      ensures n >= 0 ==> st == Handled && fresh(buffer) && buffer.Length == n && buffer[..] == seq(n, _ => 0)
    {
      size := Some(n);
      if n < 0 {
        return Failed(RangeError);
      }
      buffer := new u8[n](_ => 0);
      st := Handled;
    }

    /** The `set` of a binary chunk at the announced offset. */
    method WriteChunk(data: seq<u8>) returns (st: Outcome)
      modifies buffer
      ensures var r := StoreAt(old(buffer[..]), currentOffset, data);
              (r.None? ==> st == Failed(RangeError) && buffer[..] == old(buffer[..])) &&
              (r.Some? ==> st == Handled && buffer[..] == r.value)
    {
      if currentOffset < 0 || currentOffset + |data| > buffer.Length {
        return Failed(RangeError);
      }
      Scratch.Store(buffer, currentOffset, data);
      st := Handled;
    }

    /**
     * The socket's `onmessage`, with `this` the pool: a non-empty chunk is
     * stored at the announced offset, an empty one is handed to
     * `JSON.parse` and throws, `update` announces the offset and
     * `update_done` completes a fetch; other control messages do nothing.
     */
    method OnMessage(m: PoolMessage) returns (st: Outcome)
      requires Valid()
      modifies this`currentOffset, this`pending, this`completed, buffer
      ensures Valid()
      ensures m.Update? ==> st == Handled && currentOffset == m.offset
      ensures !m.Update? ==> currentOffset == old(currentOffset)
      ensures !m.Chunk? ==> buffer[..] == old(buffer[..])
      ensures !m.UpdateDone? ==> pending == old(pending) && completed == old(completed)
      ensures m.OtherControl? ==> st == Handled
      ensures m.Chunk? && m.data == [] ==> st == Failed(SyntaxError) && buffer[..] == old(buffer[..])
      ensures m.Chunk? && m.data != [] ==>
                var r := StoreAt(old(buffer[..]), currentOffset, m.data);
                (r.None? ==> st == Failed(RangeError) && buffer[..] == old(buffer[..])) &&
                (r.Some? ==> st == Handled && buffer[..] == r.value)
      ensures m.UpdateDone? ==>
                pending == old(pending) - {m.token} &&
                (m.token in old(pending) ==> st == Handled && completed == old(completed)[m.token := buffer[..]]) &&
                (m.token !in old(pending) ==> st == Failed(TypeError) && completed == old(completed))
    {
      match m
      case Update(offset) =>
        currentOffset := offset;
        st := Handled;
      case UpdateDone(token) =>
        st := Complete(token);
      case OtherControl =>
        st := Handled;
      case Chunk(data) =>
        if |data| == 0 {
          return Failed(SyntaxError);
        }
        st := WriteChunk(data);
    }

    /** `fetchUpdate`: issues the next token, sends the region request under it, and awaits its completion. */
    method FetchUpdate(offset: int, w: int, h: int, stride: int) returns (token: int)
      requires Valid()
      modifies this`currentToken, this`sent, this`pending
      ensures Valid()
      ensures token == old(currentToken) + 1 == currentToken
      ensures token !in old(pending) && token !in old(completed)
      ensures sent == old(sent) + [RegionRequest(token, offset, w, h, stride)]
      ensures pending == old(pending) + {token}
    {
      currentToken := currentToken + 1;
      token := currentToken;
      sent := sent + [RegionRequest(token, offset, w, h, stride)];
      pending := pending + {token};
    }

    /** `_updateDone(token)`: the entry is deleted, then its resolver is called with the buffer; a token with no entry has no resolver, and calling it throws. */
    method Complete(token: int) returns (st: Outcome)
      requires Valid()
      modifies this`pending, this`completed
      ensures Valid()
      ensures pending == old(pending) - {token}
      ensures token in old(pending) ==> st == Handled && completed == old(completed)[token := buffer[..]]
      ensures token !in old(pending) ==> st == Failed(TypeError) && completed == old(completed)
    {
      var known := token in pending;
      pending := pending - {token};
      if !known {
        return Failed(TypeError);
      }
      completed := completed[token := buffer[..]];
      st := Handled;
    }
  }

  /** A pixel buffer: a view of a pool at an offset, with its size, stride and format. */
  class Buffer {
    const pool: ShadowPool
    const offset: int
    const width: int
    const height: int
    const stride: int
    const format: int
    const bytesPerPixel: int

    /** `Buffer(pool, offset, width, height, stride, format)`: four bytes per pixel. */
    constructor(pool: ShadowPool, offset: int, width: int, height: int, stride: int, format: int)
      ensures this.pool == pool && this.offset == offset && this.width == width && this.height == height
      ensures this.stride == stride && this.format == format && bytesPerPixel == BYTES_PER_PIXEL
    {
      this.pool := pool;
      this.offset := offset;
      this.width := width;
      this.height := height;
      this.stride := stride;
      this.format := format;
      bytesPerPixel := BYTES_PER_PIXEL;
    }

    /** `damaged(x, y, w, h)`: exactly one fetch, of the rectangle's first pixel's offset, `w * 4` and `h * 4` bytes, at the buffer's stride. */
    method Damaged(x: int, y: int, w: int, h: int) returns (d: Damage)
      requires pool.Valid() && bytesPerPixel == BYTES_PER_PIXEL
      modifies pool`currentToken, pool`sent, pool`pending
      ensures pool.Valid()
      ensures d == Damage(old(pool.currentToken) + 1, x, y, w, h, Origin(offset, stride, x, y))
      ensures pool.sent == old(pool.sent) + [RegionRequest(d.token, d.origin, w * BYTES_PER_PIXEL, h * BYTES_PER_PIXEL, stride)]
      ensures pool.pending == old(pool.pending) + {d.token} && d.token !in old(pool.completed)
    {
      var poolOffset := offset + (y * stride) + (x * bytesPerPixel);
      var bytesW := w * bytesPerPixel;
      var bytesH := h * bytesPerPixel;
      var token := pool.FetchUpdate(poolOffset, bytesW, bytesH, stride);
      d := Damage(token, x, y, w, h, poolOffset);
    }

    /** The completion of a damage fetch: the rectangle's rows copied from the resolved buffer into the image data of the canvas. */
    method Repaint(d: Damage, resolved: seq<u8>, image: array<u8>)
      requires d.w >= 0 && d.h >= 0 && image.Length == Times(d.h, d.w * BYTES_PER_PIXEL)
      modifies image
      ensures image[..] == Repainted(old(image[..]), Rows(resolved, d.origin, stride, d.w * BYTES_PER_PIXEL, d.h), d.w * BYTES_PER_PIXEL, d.h)
    {
      CopyRows(image, resolved, d.origin, stride, d.w, d.h);
    }
  }

  /** `create_pool(newID, fd, size)`: a new pool for the descriptor, sized to the request. */
  method CreatePool(fd: int, size: int) returns (pool: ShadowPool, st: Outcome)
    ensures fresh(pool) && pool.Valid() && pool.fd == fd && pool.size == Some(size)
    ensures pool.currentOffset == -1 && pool.currentToken == 0 && pool.pending == {} && pool.completed == map[]
    ensures size < 0 ==> st == Failed(RangeError) && pool.buffer.Length == 0
    ensures size >= 0 ==> st == Handled && pool.buffer[..] == seq(size, _ => 0)
  {
    pool := new ShadowPool(fd);
    st := pool.SetSize(size);
  }
}
