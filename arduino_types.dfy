/**
 * Machine-level vocabulary shared by the AutoConnect model: fixed-width
 * unsigned integers as bounded naturals, IPv4 addresses, and the view of a
 * NUL-terminated C string inside a character buffer.
 */
module ArduinoTypes {

  const U8_LIMIT: nat := 0x100
  const U16_LIMIT: nat := 0x1_0000
  const U32_LIMIT: nat := 0x1_0000_0000

  type u8 = x: nat | x < U8_LIMIT
  type u16 = x: nat | x < U16_LIMIT
  /** uint32_t, and also size_t and unsigned long on the 32-bit ESP targets. */
  type u32 = x: nat | x < U32_LIMIT
  type i32 = x: int | -0x8000_0000 <= x < 0x8000_0000

  /** An IPAddress as its four octets; the default IPAddress is 0.0.0.0. */
  datatype IPv4 = IPv4(a: u8, b: u8, c: u8, d: u8)

  const AnyAddress: IPv4 := IPv4(0, 0, 0, 0)

  /** The terminator byte of a C string; a zeroed buffer holds only this. */
  const Nul: char := 0 as char

  /** `n` terminator bytes: what memset(p, 0, n) leaves behind. */
  function Zeros(n: nat): (z: seq<char>)
    ensures |z| == n
    ensures forall i :: 0 <= i < n ==> z[i] == Nul
  {
    seq(n, _ => Nul)
  }

  /**
   * What c_str() readers see of a buffer: every character up to, not
   * including, the first terminator (or the whole buffer if it has none).
   */
  function CString(buf: seq<char>): (s: seq<char>)
    ensures |s| <= |buf| && s == buf[..|s|]
    ensures Nul !in s
    ensures |s| < |buf| ==> buf[|s|] == Nul
  {
    if buf == [] || buf[0] == Nul then []
    else [buf[0]] + CString(buf[1..])
  }

  /** A terminator-free string is read back whole, whatever follows its terminator. */
  lemma {:induction false} CStringOfTerminated(s: seq<char>, rest: seq<char>)
    requires Nul !in s
    ensures CString(s + [Nul] + rest) == s
  {
    if s != [] {
      assert (s + [Nul] + rest)[1..] == s[1..] + [Nul] + rest;
      CStringOfTerminated(s[1..], rest);
    }
  }

  /**
   * Reading a C string from two adjacent buffers: it stops inside the first
   * when that holds a terminator, and otherwise runs on into the second.
   */
  lemma {:induction false} CStringOfConcat(a: seq<char>, b: seq<char>)
    ensures Nul in a ==> CString(a + b) == CString(a)
    ensures Nul !in a ==> CString(a + b) == a + CString(b)
  {
    if a != [] {
      assert (a + b)[1..] == a[1..] + b;
      CStringOfConcat(a[1..], b);
    } else {
      assert a + b == b;
    }
  }

  /** A C string ends at or before any terminator in its buffer. */
  lemma CStringStopsAtNul(buf: seq<char>, k: nat)
    requires k < |buf| && buf[k] == Nul
    ensures |CString(buf)| <= k
  {
  }

  /** A terminator-free buffer is its own C string. */
  lemma {:induction false} CStringOfNulFree(s: seq<char>)
    requires Nul !in s
    ensures CString(s) == s
  {
    if s != [] {
      CStringOfNulFree(s[1..]);
    }
  }

  /**
   * strncpy(dst, src, n): the first n characters of `src` up to its first
   * terminator, then terminators padding the destination to n characters.
   */
  function Strncpy(src: seq<char>, n: nat): (dst: seq<char>)
    ensures |dst| == n
    ensures forall k :: 0 <= k < n ==>
      dst[k] == (if k < |CString(src)| then src[k] else Nul)
  {
    var c := CString(src);
    if |c| >= n then c[..n] else c + Zeros(n - |c|)
  }

  /** ASCII letters and digits: isalnum in the "C" locale. */
  predicate IsAlnum(c: char)
  {
    ('a' <= c <= 'z') || ('A' <= c <= 'Z') || ('0' <= c <= '9')
  }

  /** strncpy of a terminator-free string into a larger field is read back whole by c_str(). */
  lemma StrncpyRoundTrip(s: seq<char>, n: nat)
    requires Nul !in s && |s| < n
    ensures Strncpy(s, n) == s + Zeros(n - |s|)
    ensures CString(Strncpy(s, n)) == s
  {
    CStringOfNulFree(s);
    assert s + Zeros(n - |s|) == s + [Nul] + Zeros(n - |s| - 1);
    CStringOfTerminated(s, Zeros(n - |s| - 1));
  }

  /** strncpy of a string that fills the whole field leaves no terminator in it. */
  lemma StrncpyFillsField(s: seq<char>, n: nat)
    requires Nul !in s && |s| == n
    ensures Strncpy(s, n) == s && Nul !in Strncpy(s, n)
  {
    CStringOfNulFree(s);
  }

  // ---------------------------------------------------------------------
  // printf "%u"

  function DigitChar(d: nat): (c: char)
    requires d < 10
    ensures '0' <= c <= '9'
  {
    ('0' as int + d) as char
  }

  /** The decimal digits of `n`, most significant first, without leading zeros. */
  function FormatUnsigned(n: nat): (s: string)
    ensures |s| >= 1
    ensures forall i :: 0 <= i < |s| ==> '0' <= s[i] <= '9'
    ensures s[0] == '0' <==> n == 0
    ensures n == 0 ==> s == "0"
  {
    if n < 10 then [DigitChar(n)] else FormatUnsigned(n / 10) + [DigitChar(n % 10)]
  }

  /** Reads decimal digits back into a number: the inverse of FormatUnsigned. */
  function ParseUnsigned(s: string): nat
    requires forall i :: 0 <= i < |s| ==> '0' <= s[i] <= '9'
  {
    if s == [] then 0 else ParseUnsigned(s[..|s| - 1]) * 10 + (s[|s| - 1] as int - '0' as int)
  }

  lemma {:induction false} FormatUnsignedRoundTrip(n: nat)
    ensures ParseUnsigned(FormatUnsigned(n)) == n
  {
    if n >= 10 {
      var s := FormatUnsigned(n);
      assert s[..|s| - 1] == FormatUnsigned(n / 10);
      FormatUnsignedRoundTrip(n / 10);
    }
  }

  /** A 32-bit value prints in at most ten digits. */
  lemma FormatUnsignedLength(n: u32)
    ensures |FormatUnsigned(n)| <= 10
  {
    DigitsBound(n, 10);
  }

  lemma {:induction false} DigitsBound(n: nat, k: nat)
    requires 1 <= k && n < Power10(k)
    ensures |FormatUnsigned(n)| <= k
  {
    if n >= 10 {
      assert Power10(1) == 10;
      assert Power10(k) == 10 * Power10(k - 1);
      assert n / 10 < Power10(k - 1);
      DigitsBound(n / 10, k - 1);
    }
  }

  function Power10(k: nat): (p: nat)
    ensures p >= 1
  {
    if k == 0 then 1 else 10 * Power10(k - 1)
  }
}
