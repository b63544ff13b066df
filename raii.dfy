/**
 * The resource helpers of AutoConnectRAII.h: a secret buffer that is zeroed
 * on every release path, a string builder, a bump allocator and a
 * wrap-around timeout. The millisecond clock is a parameter `now`.
 */
module RAII {
  import opened ArduinoTypes
  import opened Wrappers

  // ---------------------------------------------------------------------
  // SecureString

  /** A fixed-capacity character buffer for secret material. */
  class SecureString {
    var data: array<char>
    var length: nat

    /** At most capacity - 1 characters are held, and every byte from `length` on is zero. */
    ghost predicate Valid()
      reads this, data
    {
      && (length == 0 || length < data.Length)
      && (forall i :: length <= i < data.Length ==> data[i] == Nul)
    }

    function Capacity(): nat
      reads this
    {
      data.Length
    }

    /** A fresh buffer of `capacity` zero bytes. */
    constructor (capacity: nat)
      ensures Valid() && fresh(data)
      ensures data.Length == capacity && length == 0
      ensures data[..] == Zeros(capacity)
    {
      data := new char[capacity](_ => Nul);
      length := 0;
    }

    /**
     * Rejects a string that would leave no room for the terminator and then
     * changes nothing; otherwise zeroes the whole buffer and copies the
     * string in with strncpy.
     */
    method Set(str: string) returns (ok: bool)
      requires Valid()
      modifies this, data
      ensures Valid() && data == old(data)
      ensures ok <==> |str| < data.Length
      ensures !ok ==> length == old(length) && data[..] == old(data[..])
      ensures ok ==> length == |str| && data[..] == Strncpy(str, data.Length)
      ensures ok && Nul !in str ==> data[..] == str + Zeros(data.Length - |str|)
      ensures ok && Nul !in str ==> CStr() == str
    {
      if |str| >= data.Length {
        return false;
      }
      Wipe();
      var i := 0;
      while i < |str|
        invariant 0 <= i <= |str| < data.Length
        invariant forall k :: 0 <= k < i ==> data[k] == Strncpy(str, data.Length)[k]
        invariant forall k :: i <= k < data.Length ==> data[k] == Nul
        modifies data
      {
        if i < |CString(str)| {
          data[i] := str[i];
        } else {
          data[i] := Nul;
        }
        i := i + 1;
      }
      length := |str|;
      ok := true;
      if Nul !in str {
        StrncpyRoundTrip(str, data.Length);
      }
    }

    /** memset(_data, 0, _capacity) */
    method Wipe()
      modifies data
      ensures data[..] == Zeros(data.Length)
    {
      var i := 0;
      while i < data.Length
        invariant 0 <= i <= data.Length
        invariant forall k :: 0 <= k < i ==> data[k] == Nul
      {
        data[i] := Nul;
        i := i + 1;
      }
    }

    /** Zeroes every byte and forgets the length; also what destruction does before freeing. */
    method Clear()
      requires Valid()
      modifies this, data
      ensures Valid() && data == old(data)
      ensures length == 0 && data[..] == Zeros(data.Length)
      ensures IsEmpty() && CStr() == []
    {
      Wipe();
      length := 0;
    }

    /** c_str(): the characters before the first terminator. */
    function CStr(): (s: string)
      reads this, data
      ensures Nul !in s && |s| <= data.Length
    {
      CString(data[..])
    }

    /** The stored length leaves room for the terminator and covers everything c_str exposes. */
    function Length(): (n: nat)
      reads this, data
      requires Valid()
      ensures n == 0 || n < data.Length
      ensures |CStr()| <= n
    {
      if length < data.Length then
        CStringStopsAtNul(data[..], length);
        length
      else
        length
    }

    /** An empty buffer exposes the empty C string. */
    predicate IsEmpty(): (e: bool)
      reads this, data
      requires Valid()
      ensures e ==> CStr() == []
    {
      Length() == 0
    }
  }

  /** A fresh buffer and a cleared one look the same: empty, all zero, nothing readable. */
  lemma ZeroedBufferIsEmpty(n: nat)
    ensures CString(Zeros(n)) == []
  {
    if n > 0 {
      assert Zeros(n)[0] == Nul;
    }
  }

  // ---------------------------------------------------------------------
  // StringBuilder

  /** The in-order concatenation of the parts. */
  function Concat(parts: seq<string>): string
  {
    if parts == [] then "" else Concat(parts[..|parts| - 1]) + parts[|parts| - 1]
  }

  function TotalLength(parts: seq<string>): nat
  {
    if parts == [] then 0 else TotalLength(parts[..|parts| - 1]) + |parts[|parts| - 1]|
  }

  lemma {:induction false} ConcatLength(parts: seq<string>)
    ensures |Concat(parts)| == TotalLength(parts)
  {
    if parts != [] {
      ConcatLength(parts[..|parts| - 1]);
    }
  }

  lemma ConcatSnoc(parts: seq<string>, s: string)
    ensures Concat(parts + [s]) == Concat(parts) + s
    ensures TotalLength(parts + [s]) == TotalLength(parts) + |s|
  {
    assert (parts + [s])[..|parts|] == parts;
  }

  /** Concatenation distributes over joining two lists of parts. */
  lemma {:induction false} ConcatAppend(a: seq<string>, b: seq<string>)
    ensures Concat(a + b) == Concat(a) + Concat(b)
  {
    if b == [] {
      assert a + b == a;
    } else {
      var init, last := b[..|b| - 1], b[|b| - 1];
      assert a + b == (a + init) + [last];
      assert b == init + [last];
      ConcatSnoc(a + init, last);
      ConcatSnoc(init, last);
      ConcatAppend(a, init);
    }
  }

  /** vsnprintf into `char buffer[256]` keeps at most 255 characters. */
  const FormatBufferSize: nat := 256

  /** Collects parts and keeps a running total of their lengths. */
  class StringBuilder {
    var parts: seq<string>
    var estimatedSize: nat

    ghost predicate Valid()
      reads this
    {
      estimatedSize == TotalLength(parts)
    }

    constructor ()
      ensures Valid() && parts == [] && estimatedSize == 0
    {
      parts := [];
      estimatedSize := 0;
    }

    method Append(str: string)
      requires Valid()
      modifies this
      ensures Valid()
      ensures parts == old(parts) + [str]
      ensures estimatedSize == old(estimatedSize) + |str|
      ensures Concat(parts) == Concat(old(parts)) + str
    {
      ConcatSnoc(parts, str);
      parts := parts + [str];
      estimatedSize := estimatedSize + |str|;
    }

    /** append(const char*): a null pointer (None) is ignored. */
    method AppendCStr(str: Option<string>)
      requires Valid()
      modifies this
      ensures Valid()
      ensures str.None? ==> parts == old(parts) && estimatedSize == old(estimatedSize)
      ensures str.Some? ==> parts == old(parts) + [CString(str.value)]
      ensures str.Some? ==> Concat(parts) == Concat(old(parts)) + CString(str.value)
      ensures str.Some? ==> estimatedSize == old(estimatedSize) + |CString(str.value)|
    {
      if str.Some? {
        Append(CString(str.value));
      }
    }

    /**
     * appendFormat, given the text the format and arguments produce: the
     * 256-byte stack buffer keeps at most 255 characters of it.
     */
    method AppendFormatted(formatted: string)
      requires Valid()
      modifies this
      ensures Valid()
      ensures |formatted| < FormatBufferSize ==> parts == old(parts) + [CString(formatted)]
      ensures |formatted| < FormatBufferSize ==> Concat(parts) == Concat(old(parts)) + CString(formatted)
      ensures |formatted| >= FormatBufferSize ==> parts == old(parts) + [CString(formatted[..FormatBufferSize - 1])]
    {
      var kept := if |formatted| < FormatBufferSize then formatted else formatted[..FormatBufferSize - 1];
      AppendCStr(Some(kept));
    }

    /** toString: every part, in the order appended. */
    method ToString() returns (result: string)
      requires Valid()
      ensures result == Concat(parts)
      ensures |result| == estimatedSize
    {
      result := "";
      var i := 0;
      while i < |parts|
        invariant 0 <= i <= |parts|
        invariant result == Concat(parts[..i])
      {
        ConcatSnoc(parts[..i], parts[i]);
        assert parts[..i + 1] == parts[..i] + [parts[i]];
        result := result + parts[i];
        i := i + 1;
      }
      assert parts[..i] == parts;
      ConcatLength(parts);
    }

    method Clear()
      modifies this
      ensures Valid() && parts == [] && estimatedSize == 0 && IsEmpty()
    {
      parts := [];
      estimatedSize := 0;
    }

    /** The running size is the length of the text toString builds. */
    function EstimatedSize(): (n: nat)
      reads this
      requires Valid()
      ensures n == |Concat(parts)|
    {
      ConcatLength(parts);
      estimatedSize
    }

    /** A builder with no parts builds the empty text. */
    predicate IsEmpty(): (e: bool)
      reads this
      ensures e ==> Concat(parts) == []
    {
      parts == []
    }
  }

  /** An empty builder has size 0; the converse fails when only empty strings were appended. */
  lemma EmptyBuilderHasNoSize(b: StringBuilder)
    requires b.Valid() && b.IsEmpty()
    ensures b.EstimatedSize() == 0
  {
  }

  // ---------------------------------------------------------------------
  // MemoryPool

  /** The request rounded up to the next multiple of 4, computed without overflow. */
  function AlignUp(bytes: nat): (aligned: nat)
    ensures aligned % 4 == 0
    ensures bytes <= aligned < bytes + 4
  {
    (bytes + 3) / 4 * 4
  }

  /**
   * `(bytes + 3) & ~3` exactly as written, in 32-bit size_t arithmetic: the
   * sum wraps modulo 2^32, and clearing the two low bits subtracts the sum's
   * remainder modulo 4. The wrap hits the three largest requests.
   */
  function AlignUpAsWritten(bytes: u32): (aligned: u32)
    ensures bytes <= U32_LIMIT - 4 ==> aligned == AlignUp(bytes)
  {
    var sum := (bytes + 3) % U32_LIMIT;
    sum - sum % 4
  }

  /**
   * allocate() as written, on 32-bit size_t: the rounding and the bound
   * check `_offset + aligned_bytes > _size` both wrap. Answers the offset
   * handed out and the new `_offset`, or None for the null return.
   */
  function AllocateAsWritten(offset: u32, size: u32, bytes: u32): Option<(u32, u32)>
  {
    var aligned := AlignUpAsWritten(bytes);
    var end := (offset + aligned) % U32_LIMIT;
    if end > size then None else Some((offset, end))
  }

  /**
   * Two requests the wrap lets through: 0xFFFFFFFF rounds to 0 and succeeds
   * without reserving anything, and 0xFFFFFFF8 at offset 8 succeeds and
   * rewinds the offset to 0 so later allocations overlap live ones.
   */
  lemma AllocateAsWrittenOverflows()
    ensures AlignUpAsWritten(U32_LIMIT - 1) == 0
    ensures AllocateAsWritten(0, 16, U32_LIMIT - 1) == Some((0, 0))
    ensures AllocateAsWritten(8, 16, U32_LIMIT - 8) == Some((8, 0))
    ensures AlignUp(U32_LIMIT - 1) > 16 && 8 + AlignUp(U32_LIMIT - 8) > 16
  {
  }

  /** A bump allocator over one buffer; allocation failure of the buffer is an input. */
  class MemoryPool {
    var buffer: array?<u8>
    var size: u32
    var offset: nat

    ghost predicate Valid()
      reads this
    {
      && offset <= size
      && (buffer == null ==> size == 0)
      && (buffer != null ==> buffer.Length == size)
    }

    /** `obtained` says whether new uint8_t[size] returned a buffer; if not, the pool has size 0. */
    constructor (requested: u32, obtained: bool)
      ensures Valid() && offset == 0
      ensures obtained ==> buffer != null && fresh(buffer) && size == requested
      ensures !obtained ==> buffer == null && size == 0
    {
      if obtained {
        buffer := new u8[requested];
        size := requested;
      } else {
        buffer := null;
        size := 0;
      }
      offset := 0;
    }

    /**
     * Hands out the current offset and advances it by the rounded request,
     * or returns null and changes nothing when the rest of the pool is too
     * small. The pointer is the buffer offset; a pool without a buffer
     * hands out null.
     */
    method Allocate(bytes: u32) returns (ptr: Option<nat>)
      requires Valid()
      modifies this
      ensures Valid() && buffer == old(buffer) && size == old(size)
      ensures old(offset) + AlignUp(bytes) > size ==> ptr.None? && offset == old(offset)
      ensures old(offset) + AlignUp(bytes) <= size ==>
        && offset == old(offset) + AlignUp(bytes)
        && ptr == (if buffer == null then None else Some(old(offset)))
    {
      var aligned := AlignUp(bytes);
      if offset + aligned > size {
        return None;
      }
      ptr := if buffer == null then None else Some(offset);
      offset := offset + aligned;
    }

    /** Rewinds to the start and zeroes the whole buffer. */
    method Reset()
      requires Valid()
      modifies this, buffer
      ensures Valid() && buffer == old(buffer) && size == old(size)
      ensures offset == 0
      ensures buffer != null ==> forall i :: 0 <= i < buffer.Length ==> buffer[i] == 0
    {
      offset := 0;
      if buffer != null {
        var b := buffer;
        var i := 0;
        while i < b.Length
          invariant 0 <= i <= b.Length
          invariant forall k :: 0 <= k < i ==> b[k] == 0
          modifies b
        {
          b[i] := 0;
          i := i + 1;
        }
      }
    }

    function Available(): (n: nat)
      reads this
      requires Valid()
      ensures n + Used() == size
    {
      size - offset
    }

    /** The bytes handed out so far never exceed the pool. */
    function Used(): (n: nat)
      reads this
      requires Valid()
      ensures n <= size
    {
      offset
    }

    /** A pool without a buffer has nothing to hand out. */
    predicate IsValid(): (v: bool)
      reads this
      requires Valid()
      ensures !v ==> size == 0 && Available() == 0
    {
      buffer != null
    }
  }

  // ---------------------------------------------------------------------
  // TimeoutHelper

  /** unsigned subtraction `now - start`, wrapping modulo 2^32. */
  function WrappingElapsed(start: u32, now: u32): (e: u32)
    ensures (start + e) % U32_LIMIT == now
    ensures start <= now ==> e == now - start
  {
    (now - start) % U32_LIMIT
  }

  /** A deadline measured from a start time; the clock reading is passed in as `now`. */
  class TimeoutHelper {
    var startTime: u32
    var timeout: u32

    constructor (timeoutMs: u32, now: u32)
      ensures startTime == now && timeout == timeoutMs
    {
      startTime := now;
      timeout := timeoutMs;
    }

    function Elapsed(now: u32): (e: u32)
      reads this
      ensures (startTime + e) % U32_LIMIT == now
    {
      WrappingElapsed(startTime, now)
    }

    /** A zero timeout is expired at once; otherwise a fresh start is not yet expired. */
    predicate IsExpired(now: u32): (b: bool)
      reads this
      ensures timeout == 0 ==> b
      ensures now == startTime ==> (b <==> timeout == 0)
    {
      Elapsed(now) >= timeout
    }

    /** Time left before expiry, or 0 once expired. */
    function Remaining(now: u32): (r: u32)
      reads this
      ensures r == 0 <==> IsExpired(now)
      ensures !IsExpired(now) ==> r + Elapsed(now) == timeout
      ensures r <= timeout
    {
      var elapsed := Elapsed(now);
      if elapsed >= timeout then 0 else timeout - elapsed
    }

    method Restart(now: u32)
      modifies this
      ensures startTime == now && timeout == old(timeout)
      ensures Elapsed(now) == 0 && (IsExpired(now) <==> timeout == 0)
    {
      startTime := now;
    }
  }

  /** Expiry survives the counter wrapping: a start just before 2^32 and a later `now` past zero. */
  lemma ExpiryAcrossWrap(t: TimeoutHelper, now: u32)
    requires t.startTime == U32_LIMIT - 100 && t.timeout == 150 && now == 49
    ensures t.Elapsed(now) == 149 && !t.IsExpired(now) && t.Remaining(now) == 1
  {
  }
}
