/** Byte strings as the C code sees them: NUL-free sequences of bytes, with the
    few string operations the viewer relies on (snprintf-style truncation,
    `%-Ns` padding, strchr, decimal `%d`). */
module Bytes {

  newtype byte = x: int | 0 <= x < 256

  datatype Option<T> = None | Some(value: T)

  const SPACE: byte := 32
  const NEWLINE: byte := 10
  const PIPE: byte := 124

  /** The bytes of an ASCII string literal. */
  function Ascii(s: string): (r: seq<byte>)
    requires forall i :: 0 <= i < |s| ==> s[i] < 128 as char
    ensures |r| == |s|
  {
    seq(|s|, i requires 0 <= i < |s| => s[i] as int as byte)
  }

  /** The longest prefix of `s` that fits in `n` bytes: what snprintf or
      strncpy keep of a string when the destination holds `n` bytes plus NUL. */
  function Take(s: seq<byte>, n: nat): (r: seq<byte>)
    ensures |r| <= n && |r| <= |s|
    ensures |s| <= n ==> r == s
    ensures |s| > n ==> |r| == n
    ensures r == s[..|r|]
  {
    if |s| <= n then s else s[..n]
  }

  /** `n` space bytes. */
  function Spaces(n: nat): (r: seq<byte>)
    ensures |r| == n
    ensures forall i :: 0 <= i < n ==> r[i] == SPACE
  {
    if n == 0 then [] else Spaces(n - 1) + [SPACE]
  }

  /** printf's `%-Ns`: right-pad with spaces up to `width` bytes; a longer
      string is printed whole. */
  function PadRight(s: seq<byte>, width: nat): (r: seq<byte>)
  {
    if |s| >= width then s else s + Spaces(width - |s|)
  }

  lemma PadRightNeverTruncates(s: seq<byte>, width: nat)
    ensures |PadRight(s, width)| == if |s| >= width then |s| else width
    ensures PadRight(s, width)[..|s|] == s
    ensures forall i :: |s| <= i < |PadRight(s, width)| ==> PadRight(s, width)[i] == SPACE
  {
    if |s| < width {
      assert PadRight(s, width) == s + Spaces(width - |s|);
    }
  }

  /** strchr: the index of the first occurrence of `b`, if any. */
  function FindFirst(s: seq<byte>, b: byte): (r: Option<nat>)
    ensures r.None? <==> b !in s
    ensures r.Some? ==> r.value < |s| && s[r.value] == b && b !in s[..r.value]
  {
    if s == [] then None
    else if s[0] == b then Some(0)
    else
      match FindFirst(s[1..], b)
      case None => None
      case Some(k) =>
        assert s[1..][..k] == s[1..k + 1];
        Some(k + 1)
  }

  // Two steps of sequence algebra, called where a loop's output is
  // regrouped; a call costs the solver less there than an inline assert.

  lemma AppendAssoc(a: seq<byte>, b: seq<byte>, c: seq<byte>)
    ensures (a + b) + c == a + (b + c)
  {
  }

  lemma AppendEmpty(a: seq<byte>)
    ensures [] + a == a
  {
  }

  // ---------------------------------------------------------------------
  // `%d` for the non-negative numbers the viewer prints

  function DigitByte(d: nat): byte
    requires d < 10
  {
    (48 + d) as byte
  }

  /** Decimal digits of `n`, most significant first, no leading zeros. */
  function Decimal(n: nat): (r: seq<byte>)
    ensures 1 <= |r|
    ensures forall i :: 0 <= i < |r| ==> 48 <= r[i] as int <= 57
    ensures |r| > 1 ==> r[0] != 48
  {
    if n < 10 then [DigitByte(n)] else Decimal(n / 10) + [DigitByte(n % 10)]
  }

  /** The number a string of decimal digits denotes. */
  function DigitsValue(r: seq<byte>): int
  {
    if r == [] then 0 else 10 * DigitsValue(r[..|r| - 1]) + (r[|r| - 1] as int - 48)
  }

  lemma {:induction false} DecimalRoundTrip(n: nat)
    ensures DigitsValue(Decimal(n)) == n
  {
    if n >= 10 {
      DecimalRoundTrip(n / 10);
      var r := Decimal(n);
      assert r[..|r| - 1] == Decimal(n / 10);
    }
  }

  // ---------------------------------------------------------------------
  // Subsequences: what is left of a list of appends when some are dropped

  ghost predicate IsSubseq<T>(a: seq<T>, b: seq<T>)
    decreases |b|
  {
    if b == [] then a == []
    else
      (a != [] && a[|a| - 1] == b[|b| - 1] && IsSubseq(a[..|a| - 1], b[..|b| - 1]))
      || IsSubseq(a, b[..|b| - 1])
  }

  /** Appending `x` to the target either keeps `x` or drops it. */
  lemma SubseqSnoc<T>(a: seq<T>, b: seq<T>, x: T, kept: bool)
    requires IsSubseq(a, b)
    ensures IsSubseq(if kept then a + [x] else a, b + [x])
  {
    assert (b + [x])[..|b|] == b;
    if kept {
      assert (a + [x])[..|a|] == a;
    }
  }
}
