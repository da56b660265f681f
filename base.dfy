/** Shared vocabulary: bytes, Option and Result, the bytewise order that Rust's
    `Ord for str` and `Ord for [u8]` use, and the decimal rendering of integers
    that `u64::to_string` / `str::parse::<u64>` produce and accept. */
module Base {

  type byte = x: int | 0 <= x < 256

  const U32_LIMIT: nat := 0x1_0000_0000
  const U64_LIMIT: nat := 0x1_0000_0000_0000_0000

  type u32 = x: int | 0 <= x < 0x1_0000_0000
  type u64 = x: int | 0 <= x < 0x1_0000_0000_0000_0000

  datatype Option<T> = None | Some(value: T)

  datatype Result<T, E> = Ok(value: T) | Err(error: E)

  /** The byte of an ASCII character. */
  function Ascii(c: char): byte
    requires c as int < 128
  {
    c as int
  }

  /** An ASCII Dafny string as the bytes Rust stores for it. */
  function AsciiBytes(s: string): (r: seq<byte>)
    requires forall i :: 0 <= i < |s| ==> s[i] as int < 128
    ensures |r| == |s|
    ensures forall i :: 0 <= i < |s| ==> r[i] == s[i] as int
  {
    if s == [] then [] else [Ascii(s[0])] + AsciiBytes(s[1..])
  }

  // ---------------------------------------------------------------------------
  // Bytewise lexicographic order.

  /** Strict lexicographic order: the first differing byte decides, and a
      proper prefix comes first. */
  predicate LexLess(a: seq<byte>, b: seq<byte>)
  {
    if |b| == 0 then false
    else if |a| == 0 then true
    else if a[0] != b[0] then a[0] < b[0]
    else LexLess(a[1..], b[1..])
  }

  predicate LexLe(a: seq<byte>, b: seq<byte>)
  {
    a == b || LexLess(a, b)
  }

  lemma {:induction false} LexLessIrreflexive(a: seq<byte>)
    ensures !LexLess(a, a)
  {
    if |a| > 0 {
      LexLessIrreflexive(a[1..]);
    }
  }

  lemma {:induction false} LexLessTransitive(a: seq<byte>, b: seq<byte>, c: seq<byte>)
    requires LexLess(a, b) && LexLess(b, c)
    ensures LexLess(a, c)
  {
    if |a| > 0 && a[0] == b[0] && b[0] == c[0] {
      LexLessTransitive(a[1..], b[1..], c[1..]);
    }
  }

  lemma {:induction false} LexLessTotal(a: seq<byte>, b: seq<byte>)
    ensures a == b || LexLess(a, b) || LexLess(b, a)
  {
    if |a| > 0 && |b| > 0 && a[0] == b[0] {
      LexLessTotal(a[1..], b[1..]);
      if a[1..] == b[1..] {
        assert a == [a[0]] + a[1..] && b == [b[0]] + b[1..];
      }
    }
  }

  lemma LexLessAsymmetric(a: seq<byte>, b: seq<byte>)
    requires LexLess(a, b)
    ensures !LexLess(b, a) && a != b
  {
    if LexLess(b, a) {
      LexLessTransitive(a, b, a);
      LexLessIrreflexive(a);
    }
    if a == b {
      LexLessIrreflexive(a);
    }
  }

  /** A prefix is never greater than the string it starts. */
  lemma {:induction false} PrefixLexLe(a: seq<byte>, b: seq<byte>)
    requires |a| <= |b| && b[..|a|] == a
    ensures LexLe(a, b)
  {
    if |a| > 0 {
      assert b[1..][..|a| - 1] == a[1..];
      PrefixLexLe(a[1..], b[1..]);
      if a[1..] == b[1..] {
        assert a == [a[0]] + a[1..] && b == [b[0]] + b[1..];
      }
    }
  }

  /** Strictly ascending in bytewise order (hence duplicate-free). */
  predicate StrictlySorted(s: seq<seq<byte>>)
  {
    forall i, j :: 0 <= i < j < |s| ==> LexLess(s[i], s[j])
  }

  lemma StrictlySortedAdjacent(s: seq<seq<byte>>)
    requires forall i :: 0 < i < |s| ==> LexLess(s[i - 1], s[i])
    ensures StrictlySorted(s)
  {
    forall i, j | 0 <= i < j < |s| ensures LexLess(s[i], s[j]) {
      StrictlySortedStep(s, i, j);
    }
  }

  lemma {:induction false} StrictlySortedStep(s: seq<seq<byte>>, i: nat, j: nat)
    requires forall k :: 0 < k < |s| ==> LexLess(s[k - 1], s[k])
    requires i < j < |s|
    ensures LexLess(s[i], s[j])
    decreases j - i
  {
    if i + 1 < j {
      StrictlySortedStep(s, i, j - 1);
      LexLessTransitive(s[i], s[j - 1], s[j]);
    }
  }

  /** Regrouping concatenations, proved apart from any context whose
      functions would make the solver look inside the parts. */
  lemma ConcatAssoc<T>(a: seq<T>, b: seq<T>, c: seq<T>, d: seq<T>)
    ensures a + (b + c + d) == a + b + (c + d) == (a + b) + c + d == a + (b + (c + d))
  {
  }

  lemma ConcatAssoc3<T>(a: seq<T>, b: seq<T>, c: seq<T>)
    ensures a + b + c == a + (b + c)
  {
  }

  /** A non-empty sequence is its head followed by its tail. */
  lemma HeadTail<T>(s: seq<T>)
    requires s != []
    ensures [s[0]] + s[1..] == s
  {
  }

  // ---------------------------------------------------------------------------
  // Decimal rendering (`u64::to_string`) and parsing (`str::parse::<u64>`).

  predicate IsDigit(c: byte) { '0' as int <= c <= '9' as int }

  /** The decimal digits of n, most significant first, without leading zeros. */
  function Decimal(n: nat): (r: seq<byte>)
    ensures |r| > 0 && forall i :: 0 <= i < |r| ==> IsDigit(r[i])
    decreases n
  {
    if n < 10 then ['0' as int + n] else Decimal(n / 10) + ['0' as int + n % 10]
  }

  /** The value of a string of digits, read most significant first. */
  function DigitsValue(s: seq<byte>): nat
    requires forall i :: 0 <= i < |s| ==> IsDigit(s[i])
  {
    if s == [] then 0
    else
      assert IsDigit(s[|s| - 1]);
      DigitsValue(s[..|s| - 1]) * 10 + (s[|s| - 1] - '0' as int)
  }

  /** `str::parse::<u64>`: an optional '+', then at least one digit, and a
      value that fits in 64 bits; anything else is a parse error (None). */
  function ParseU64(s: seq<byte>): (r: Option<u64>)
    ensures r.Some? ==> |s| > 0
  {
    var digits := if |s| > 0 && s[0] == '+' as int then s[1..] else s;
    if |digits| == 0 || exists i :: 0 <= i < |digits| && !IsDigit(digits[i]) then None
    else
      var v := DigitsValue(digits);
      if v < U64_LIMIT then Some(v) else None
  }

  lemma {:induction false} DecimalValue(n: nat)
    ensures DigitsValue(Decimal(n)) == n
    decreases n
  {
    if n >= 10 {
      var d := Decimal(n);
      assert d[..|d| - 1] == Decimal(n / 10);
      DecimalValue(n / 10);
    }
  }

  /** Parsing the rendering of a 64-bit number gives the number back. */
  lemma DecimalRoundTrip(n: u64)
    ensures ParseU64(Decimal(n)) == Some(n)
  {
    DecimalValue(n);
    var d := Decimal(n);
    assert d[0] != '+' as int by { assert IsDigit(d[0]); }
  }

  /** The rendering never contains a newline, so a newline after it marks its end. */
  lemma DecimalHasNoNewline(n: nat)
    ensures forall i :: 0 <= i < |Decimal(n)| ==> Decimal(n)[i] != '\n' as int
  {
  }

  // ---------------------------------------------------------------------------
  // UTF-8 well-formedness (the table of section 4 of RFC 3629), which Rust's
  // `String::from_utf8` and `fs::read_to_string` check.

  predicate InRange(b: byte, lo: int, hi: int) { lo <= b <= hi }

  /** The length of the well-formed character at the start of s, or 0 when s
      does not start with one. */
  function Utf8CharLen(s: seq<byte>): (n: nat)
    ensures n <= 4 && n <= |s|
  {
    if |s| == 0 then 0
    else if s[0] <= 0x7F then 1
    else if InRange(s[0], 0xC2, 0xDF) then
      if |s| >= 2 && InRange(s[1], 0x80, 0xBF) then 2 else 0
    else if InRange(s[0], 0xE0, 0xEF) then
      var lo := if s[0] == 0xE0 then 0xA0 else 0x80;
      var hi := if s[0] == 0xED then 0x9F else 0xBF;
      if |s| >= 3 && InRange(s[1], lo, hi) && InRange(s[2], 0x80, 0xBF) then 3 else 0
    else if InRange(s[0], 0xF0, 0xF4) then
      var lo := if s[0] == 0xF0 then 0x90 else 0x80;
      var hi := if s[0] == 0xF4 then 0x8F else 0xBF;
      if |s| >= 4 && InRange(s[1], lo, hi) && InRange(s[2], 0x80, 0xBF) && InRange(s[3], 0x80, 0xBF)
      then 4 else 0
    else 0
  }

  predicate ValidUtf8(s: seq<byte>)
    decreases |s|
  {
    |s| == 0 || (Utf8CharLen(s) > 0 && ValidUtf8(s[Utf8CharLen(s)..]))
  }

  /** Digits (indeed any ASCII) are well-formed UTF-8. */
  lemma {:induction false} AsciiIsUtf8(s: seq<byte>)
    requires forall i :: 0 <= i < |s| ==> s[i] < 128
    ensures ValidUtf8(s)
  {
    if |s| > 0 {
      AsciiIsUtf8(s[1..]);
    }
  }

  // ---------------------------------------------------------------------------
  // Euclidean remainder.

  lemma {:induction false} MulAtLeast(k: nat, n: nat)
    requires k >= 1
    ensures k * n >= n
  {
    if k > 1 {
      MulAtLeast(k - 1, n);
      assert k * n == (k - 1) * n + n;
    }
  }

  /** The remainder is the r of any decomposition b == q * n + r with 0 <= r < n. */
  lemma ModUnique(b: int, n: int, q: int, r: int)
    requires n > 0 && b == q * n + r && 0 <= r < n
    ensures b % n == r
  {
    var q2, r2 := b / n, b % n;
    assert b == q2 * n + r2;
    assert (q - q2) * n == q * n - q2 * n;
    if q > q2 {
      MulAtLeast(q - q2, n);
    } else if q < q2 {
      assert (q2 - q) * n == q2 * n - q * n;
      MulAtLeast(q2 - q, n);
    }
  }

  /** Fewer than n apart, two numbers have different remainders modulo n. */
  lemma ModDistinct(a: nat, b: nat, n: nat)
    requires n > 0 && a < b < a + n
    ensures a % n != b % n
  {
    var q, r := a / n, a % n;
    assert a == q * n + r;
    if r + (b - a) < n {
      ModUnique(b, n, q, r + (b - a));
    } else {
      assert (q + 1) * n == q * n + n;
      ModUnique(b, n, q + 1, r + (b - a) - n);
    }
  }

  /** Adding a multiple of n does not change the remainder modulo n. */
  lemma ModAddMultiple(x: int, k: int, n: int)
    requires n > 0
    ensures (x + k * n) % n == x % n
  {
    var q, r := x / n, x % n;
    assert x == q * n + r;
    assert (q + k) * n == q * n + k * n;
    ModUnique(x + k * n, n, q + k, r);
  }

  /** Reducing modulo a multiple of n first does not change the remainder
      modulo n. */
  lemma ModOfMod(x: int, n: nat, t: nat)
    requires n > 0 && t > 0
    ensures (x % (n * t)) % n == x % n
  {
    assert n * t > 0 by { MulAtLeast(t, n); }
    var q := x / (n * t);
    assert x == q * (n * t) + x % (n * t);
    assert q * (n * t) == (q * t) * n;
    ModAddMultiple(x % (n * t), q * t, n);
  }
}
