/**
 * Helpers in source/tools.cpp: the Adler-32 checksum that frames network
 * packets and the dotted-quad formatting of IPv4 addresses.
 */
module Tools {
  import opened Bytes
  import opened Wrappers

  /** Largest network message; declared in const.h, which is not part of this model. */
  const NETWORKMESSAGE_MAXSIZE: nat := 24590

  /** The largest prime below 2^16 (RFC 1950, section 2.2). */
  const ADLER_BASE: nat := 65521

  /** Longest run of bytes after which the running sums still fit 32 bits (RFC 1950, section 8.2). */
  const ADLER_CHUNK: nat := 5552

  datatype AdlerSums = AdlerSums(a: nat, b: nat)

  /**
   * The Adler-32 sums as RFC 1950 section 2.2 defines them: s1 starts at 1 and
   * s2 at 0; for each byte, s1 := (s1 + byte) mod 65521, then s2 := (s2 + s1) mod 65521.
   */
  function AdlerFold(s: seq<byte>): (r: AdlerSums)
    ensures r.a < ADLER_BASE && r.b < ADLER_BASE
  {
    if |s| == 0 then AdlerSums(1, 0)
    else
      var prev := AdlerFold(s[..|s| - 1]);
      var a := (prev.a + s[|s| - 1]) % ADLER_BASE;
      AdlerSums(a, (prev.b + a) % ADLER_BASE)
  }

  /**
   * `(b << 16) | a` on a uint32_t, for sums below 2^16: the shift cannot
   * overflow and the two halves do not overlap, so the result is a sum.
   */
  function Combine(a: nat, b: nat): (r: u32)
    requires a < 0x1_0000 && b < 0x1_0000
    ensures r % 0x1_0000 == a && r / 0x1_0000 == b
  {
    b * 0x1_0000 + a
  }

  /** The Adler-32 checksum of s, as specified by RFC 1950. */
  function Adler32(s: seq<byte>): (r: u32)
  {
    var sums := AdlerFold(s);
    Combine(sums.a, sums.b)
  }

  /** Sum of the bytes of s. */
  function Sum(s: seq<byte>): nat
  {
    if |s| == 0 then 0 else Sum(s[..|s| - 1]) + s[|s| - 1]
  }

  /** Sum, over every non-empty prefix p of s, of 1 + Sum(p): the unreduced s2. */
  function RunningSum(s: seq<byte>): nat
  {
    if |s| == 0 then 0 else RunningSum(s[..|s| - 1]) + 1 + Sum(s)
  }

  /** 0 + 1 + ... + k. */
  ghost function Triangle(k: nat): nat
  {
    if k == 0 then 0 else Triangle(k - 1) + k
  }

  lemma {:induction false} TriangleClosedForm(k: nat)
    ensures 2 * Triangle(k) == k * (k + 1)
  {
    if k > 0 {
      TriangleClosedForm(k - 1);
    }
  }

  lemma {:induction false} TriangleMonotone(j: nat, k: nat)
    requires j <= k
    ensures Triangle(j) <= Triangle(k)
    decreases k - j
  {
    if j < k {
      TriangleMonotone(j, k - 1);
    }
  }

  /** Bytes seen within one chunk of at most 5552 bytes keep s2 below 2^32. */
  lemma ChunkBound(k: nat)
    requires k <= ADLER_CHUNK
    ensures 65520 * (k + 1) + 255 * Triangle(k) < 0x1_0000_0000
  {
    TriangleMonotone(k, ADLER_CHUNK);
    TriangleClosedForm(ADLER_CHUNK);
  }

  lemma ModSum(x: nat, y: nat)
    ensures (x % ADLER_BASE + y % ADLER_BASE) % ADLER_BASE == (x + y) % ADLER_BASE
  {
    var m := ADLER_BASE;
    var z := x % m + y % m;
    assert x + y == (x / m + y / m) * m + z;
    var r := z % m;
    assert z == (z / m) * m + r;
    assert x + y == (x / m + y / m + z / m) * m + r;
  }

  /**
   * The closed form of the checksum: s1 is 1 plus the sum of the bytes and s2
   * the sum of the running s1 values, each reduced modulo 65521 once.
   */
  lemma {:induction false} AdlerClosedForm(s: seq<byte>)
    ensures AdlerFold(s) == AdlerSums((1 + Sum(s)) % ADLER_BASE, RunningSum(s) % ADLER_BASE)
  {
    if |s| > 0 {
      var p, x := s[..|s| - 1], s[|s| - 1];
      AdlerClosedForm(p);
      assert s == p + [x];
      ChunkStepSums(p, x, 1 + Sum(p), RunningSum(p));
    }
  }

  /** Adler-32 of the empty input is 1. */
  lemma AdlerEmpty()
    ensures Adler32([]) == 1
  {
  }

  /** Both 16-bit halves of every checksum are below the modulus. */
  lemma AdlerHalves(s: seq<byte>)
    ensures Adler32(s) % 0x1_0000 < ADLER_BASE && Adler32(s) / 0x1_0000 < ADLER_BASE
  {
    var sums := AdlerFold(s);
    assert Adler32(s) == Combine(sums.a, sums.b);
  }

  /**
   * What the source's inner do-while keeps, k bytes into a chunk that has
   * reached data[i]: a and b are congruent to the RFC sums of data[..i] and
   * bounded by the most k bytes of 255 can add.
   */
  ghost predicate ChunkSums(data: seq<byte>, i: nat, a: nat, b: nat, k: nat)
  {
    && i <= |data|
    && a % ADLER_BASE == AdlerFold(data[..i]).a && b % ADLER_BASE == AdlerFold(data[..i]).b
    && a <= 65520 + 255 * k && b <= 65520 * (k + 1) + 255 * Triangle(k)
  }

  /**
   * One byte of the inner do-while: a and b, reduced only at the end of the
   * chunk, stay congruent to the RFC sums and within 32 bits.
   */
  lemma ChunkStep(data: seq<byte>, i: nat, a: nat, b: nat, k: nat)
    requires i < |data| && k + 1 <= ADLER_CHUNK && ChunkSums(data, i, a, b, k)
    ensures a + data[i] < 0x1_0000_0000 && b + a + data[i] < 0x1_0000_0000
    ensures ChunkSums(data, i + 1, a + data[i], b + a + data[i], k + 1)
  {
    assert data[..i + 1] == data[..i] + [data[i]];
    ChunkStepSums(data[..i], data[i], a, b);
    ChunkStepBounds(data[i], a, b, k);
  }

  /** One byte more, summed without reduction, keeps the reduced sums right. */
  lemma ChunkStepSums(prefix: seq<byte>, x: byte, a: nat, b: nat)
    requires a % ADLER_BASE == AdlerFold(prefix).a && b % ADLER_BASE == AdlerFold(prefix).b
    ensures (a + x) % ADLER_BASE == AdlerFold(prefix + [x]).a
    ensures (b + a + x) % ADLER_BASE == AdlerFold(prefix + [x]).b
  {
    var s := prefix + [x];
    assert s[..|s| - 1] == prefix && s[|s| - 1] == x;
    var prev := AdlerFold(prefix);
    assert AdlerFold(s).a == (prev.a + x) % ADLER_BASE;
    assert AdlerFold(s).b == (prev.b + AdlerFold(s).a) % ADLER_BASE;
    StepArithmetic(a, b, x, prev.a, prev.b);
  }

  /** The arithmetic of one step: reducing before or after adding gives the same sums. */
  lemma StepArithmetic(a: nat, b: nat, x: byte, pa: nat, pb: nat)
    requires a % ADLER_BASE == pa && b % ADLER_BASE == pb
    ensures (a + x) % ADLER_BASE == (pa + x) % ADLER_BASE
    ensures (b + a + x) % ADLER_BASE == (pb + (pa + x) % ADLER_BASE) % ADLER_BASE
  {
    ModSum(a, x);
    assert x % ADLER_BASE == x;
    ModSum(b, a + x);
  }

  /** One byte more keeps the unreduced sums within the chunk's bounds. */
  lemma ChunkStepBounds(x: byte, a: nat, b: nat, k: nat)
    requires k + 1 <= ADLER_CHUNK
    requires a <= 65520 + 255 * k && b <= 65520 * (k + 1) + 255 * Triangle(k)
    ensures a + x <= 65520 + 255 * (k + 1)
    ensures b + a + x <= 65520 * (k + 2) + 255 * Triangle(k + 1)
    ensures b + a + x < 0x1_0000_0000
  {
    assert Triangle(k + 1) == Triangle(k) + k + 1;
    ChunkBound(k + 1);
  }


  /**
   * adlerChecksum: inputs longer than NETWORKMESSAGE_MAXSIZE give 0. Otherwise
   * the bytes are summed in chunks of at most 5552 bytes, reducing modulo
   * 65521 only after each chunk; the 32-bit variables a and b never overflow,
   * and the result equals RFC 1950's per-byte definition.
   */
  method AdlerChecksum(data: seq<byte>) returns (r: u32)
    ensures r == if |data| > NETWORKMESSAGE_MAXSIZE then 0 else Adler32(data)
  {
    if |data| > NETWORKMESSAGE_MAXSIZE {
      return 0;
    }
    var a: u32, b: u32 := 1, 0;
    var length: nat := |data|;
    var pos: nat := 0;
    while length > 0
      invariant pos + length == |data|
      invariant a == AdlerFold(data[..pos]).a && b == AdlerFold(data[..pos]).b
    {
      var tmp: nat := if length > ADLER_CHUNK then ADLER_CHUNK else length;
      length := length - tmp;
      a, b := SumChunk(data, pos, tmp, a, b);
      pos := pos + tmp;
    }
    assert data[..pos] == data;
    r := Combine(a, b);
  }

  /**
   * The inner do-while of adlerChecksum: add the tmp bytes from pos into a
   * and b without reduction, then reduce both once modulo 65521.
   */
  method SumChunk(data: seq<byte>, pos: nat, tmp: nat, a0: u32, b0: u32) returns (a: u32, b: u32)
    requires 0 < tmp <= ADLER_CHUNK && pos + tmp <= |data|
    requires a0 == AdlerFold(data[..pos]).a && b0 == AdlerFold(data[..pos]).b
    ensures a == AdlerFold(data[..pos + tmp]).a && b == AdlerFold(data[..pos + tmp]).b
  {
    a, b := a0, b0;
    var i := pos;
    var left := tmp;
    ghost var k: nat := 0;
    while left > 0
      invariant i + left == pos + tmp && k == i - pos
      invariant ChunkSums(data, i, a, b, k)
    {
      ChunkStep(data, i, a, b, k);
      a := a + data[i];
      i := i + 1;
      b := b + a;
      left := left - 1;
      k := k + 1;
    }
    a := a % ADLER_BASE;
    b := b % ADLER_BASE;
  }

  /** The characters of a decimal digit. */
  function DigitChar(d: nat): (c: char)
    requires d < 10
    ensures IsDigit(c) && DigitValue(c) == d
  {
    (('0' as int) + d) as char
  }

  predicate IsDigit(c: char)
  {
    '0' <= c <= '9'
  }

  function DigitValue(c: char): nat
    requires IsDigit(c)
  {
    (c as int) - ('0' as int)
  }

  /** `%u`: the decimal text of n, without leading zeros. */
  function Decimal(n: nat): (s: string)
    ensures |s| >= 1
    ensures forall i :: 0 <= i < |s| ==> IsDigit(s[i])
  {
    if n < 10 then [DigitChar(n)] else Decimal(n / 10) + [DigitChar(n % 10)]
  }

  /** Reads back a string of decimal digits. */
  function ParseDecimal(s: string): nat
    requires forall i :: 0 <= i < |s| ==> IsDigit(s[i])
  {
    if |s| == 0 then 0 else 10 * ParseDecimal(s[..|s| - 1]) + DigitValue(s[|s| - 1])
  }

  lemma {:induction false} DecimalRoundTrip(n: nat)
    ensures ParseDecimal(Decimal(n)) == n
  {
    if n >= 10 {
      DecimalRoundTrip(n / 10);
      var s := Decimal(n);
      assert s == Decimal(n / 10) + [DigitChar(n % 10)];
      assert s[..|s| - 1] == Decimal(n / 10) && s[|s| - 1] == DigitChar(n % 10);
      assert n == 10 * (n / 10) + n % 10;
    }
  }

  /** A byte prints as one to three digits. */
  lemma DecimalOfByte(n: nat)
    requires n < 256
    ensures 1 <= |Decimal(n)| <= 3
  {
    if n >= 10 {
      assert Decimal(n) == Decimal(n / 10) + [DigitChar(n % 10)];
      if n / 10 >= 10 {
        assert Decimal(n / 10) == Decimal(n / 100) + [DigitChar(n / 10 % 10)];
      }
    }
  }

  /** The four octets of ip, byte 0 (the least significant) first. */
  function Octets(ip: u32): seq<nat>
  {
    [ip % 0x100, ip / 0x100 % 0x100, ip / 0x1_0000 % 0x100, ip / 0x100_0000]
  }

  /**
   * convertIPToString: `%u.%u.%u.%u` of `ip & 0xFF`, `(ip >> 8) & 0xFF`,
   * `(ip >> 16) & 0xFF` and `ip >> 24`. The text fits the 17-byte buffer
   * with its terminating NUL; sprintf cannot fail for this format.
   */
  function ConvertIPToString(ip: u32): (s: string)
    ensures |s| + 1 <= 17
  {
    var o := Octets(ip);
    DecimalOfByte(o[0]);
    DecimalOfByte(o[1]);
    DecimalOfByte(o[2]);
    DecimalOfByte(o[3]);
    Decimal(o[0]) + "." + Decimal(o[1]) + "." + Decimal(o[2]) + "." + Decimal(o[3])
  }

  /** Splits s at every '.'. */
  function SplitDots(s: string): (parts: seq<string>)
    ensures |parts| >= 1
  {
    if |s| == 0 then [""]
    else if s[0] == '.' then [""] + SplitDots(s[1..])
    else
      var rest := SplitDots(s[1..]);
      [[s[0]] + rest[0]] + rest[1..]
  }

  lemma {:induction false} SplitAfterDigits(d: string, rest: string)
    requires forall i :: 0 <= i < |d| ==> IsDigit(d[i])
    ensures SplitDots(d + "." + rest) == [d] + SplitDots(rest)
  {
    var s := d + "." + rest;
    if |d| == 0 {
      assert s[0] == '.' && s[1..] == rest;
    } else {
      SplitAfterDigits(d[1..], rest);
      assert IsDigit(d[0]) && s[0] == d[0];
      assert s[1..] == d[1..] + "." + rest;
      assert [d[0]] + d[1..] == d;
    }
  }

  lemma {:induction false} SplitOfDigits(d: string)
    requires forall i :: 0 <= i < |d| ==> IsDigit(d[i])
    ensures SplitDots(d) == [d]
  {
    if |d| > 0 {
      SplitOfDigits(d[1..]);
      assert IsDigit(d[0]);
      assert [d[0]] + d[1..] == d;
    }
  }

  /** Reads a dotted quad back into the address, byte 0 first. */
  function ParseIP(s: string): Option<nat>
  {
    var parts := SplitDots(s);
    if |parts| == 4 && forall k, i :: 0 <= k < 4 && 0 <= i < |parts[k]| ==> IsDigit(parts[k][i]) then
      Some(ParseDecimal(parts[0]) + 0x100 * ParseDecimal(parts[1])
           + 0x1_0000 * ParseDecimal(parts[2]) + 0x100_0000 * ParseDecimal(parts[3]))
    else None
  }

  /** The four octets put back together give the address. */
  lemma OctetsRecompose(ip: u32)
    ensures var o := Octets(ip); o[0] + 0x100 * o[1] + 0x1_0000 * o[2] + 0x100_0000 * o[3] == ip
  {
    var o := Octets(ip);
    assert ip == (ip / 0x100) * 0x100 + o[0];
    var i1 := ip / 0x100;
    assert i1 == (i1 / 0x100) * 0x100 + o[1];
    var i2 := i1 / 0x100;
    assert i2 == ip / 0x1_0000;
    assert i2 == (i2 / 0x100) * 0x100 + o[2];
    assert i2 / 0x100 == ip / 0x100_0000;
  }

  /** Four digit strings joined by dots split back into the same four strings. */
  lemma SplitQuad(d0: string, d1: string, d2: string, d3: string)
    requires forall i :: 0 <= i < |d0| ==> IsDigit(d0[i])
    requires forall i :: 0 <= i < |d1| ==> IsDigit(d1[i])
    requires forall i :: 0 <= i < |d2| ==> IsDigit(d2[i])
    requires forall i :: 0 <= i < |d3| ==> IsDigit(d3[i])
    ensures SplitDots(d0 + "." + d1 + "." + d2 + "." + d3) == [d0, d1, d2, d3]
  {
    var t2 := d2 + "." + d3;
    var t1 := d1 + "." + t2;
    var t0 := d0 + "." + t1;
    assert SplitDots(t2) == [d2, d3] by {
      SplitOfDigits(d3);
      SplitAfterDigits(d2, d3);
    }
    assert SplitDots(t1) == [d1, d2, d3] by {
      SplitAfterDigits(d1, t2);
    }
    assert SplitDots(t0) == [d0, d1, d2, d3] by {
      SplitAfterDigits(d0, t1);
    }
    JoinAssociates(d0, d1, d2, d3);
  }

  lemma JoinAssociates(d0: string, d1: string, d2: string, d3: string)
    ensures d0 + "." + d1 + "." + d2 + "." + d3 == d0 + "." + (d1 + "." + (d2 + "." + d3))
  {
  }

  /** The printed address determines the address: the formatting loses nothing. */
  lemma IPRoundTrip(ip: u32)
    ensures ParseIP(ConvertIPToString(ip)) == Some(ip)
  {
    var o := Octets(ip);
    var d := [Decimal(o[0]), Decimal(o[1]), Decimal(o[2]), Decimal(o[3])];
    SplitQuad(d[0], d[1], d[2], d[3]);
    assert SplitDots(ConvertIPToString(ip)) == d;
    DecimalRoundTrip(o[0]);
    DecimalRoundTrip(o[1]);
    DecimalRoundTrip(o[2]);
    DecimalRoundTrip(o[3]);
    OctetsRecompose(ip);
  }
}
