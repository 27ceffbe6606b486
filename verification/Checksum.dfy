/** The multiplicative checksum of the save files, in 32-bit wrap-around arithmetic, whole and as the
    exclusive or of the sums of 4096-byte chunks. */
module Checksum {

  const STATE_BUFFER_SIZE: nat := 4096
  const TWO_32: nat := 0x1_0000_0000

  newtype byte = x: int | 0 <= x < 256

  /** One step of the loop: the sum shifted left by five, plus itself, plus a byte, each wrapped to 32 bits. */
  function Mix(sum: nat, b: byte): nat {
    ((sum * 32 % TWO_32 + sum) % TWO_32 + b as nat) % TWO_32
  }

  function Sum(data: seq<byte>): nat {
    if data == [] then 0 else Mix(Sum(data[..|data| - 1]), data[|data| - 1])
  }

  method CalculateChecksum(data: array<byte>, size: nat) returns (checksum: nat)
    requires size <= data.Length
    ensures checksum == Sum(data[..size]) == Polynomial(data[..size]) % TWO_32
  {
    SumIsPolynomial(data[..size]);
    checksum := 0;
    for i := 0 to size
      invariant checksum == Sum(data[..i])
    {
      assert data[..i + 1][..i] == data[..i];
      checksum := ((checksum * 32 % TWO_32 + checksum) % TWO_32 + data[i] as nat) % TWO_32;
    }
  }

  /** The bytes as the digits, first byte highest, of a number in base 33. */
  function Polynomial(data: seq<byte>): nat {
    if data == [] then 0 else data[0] as nat * Pow33(|data| - 1) + Polynomial(data[1..])
  }

  function Pow33(n: nat): nat {
    if n == 0 then 1 else 33 * Pow33(n - 1)
  }

  // ----- The step -----

  /** The step computes 33 * sum + b modulo 2^32. */
  lemma MixIs33(sum: nat, b: byte)
    ensures Mix(sum, b) == (33 * sum + b as nat) % TWO_32
  {
    Wrap(sum * 32, sum);
    Wrap(33 * sum, b as nat);
  }

  lemma Wrap(a: nat, b: nat)
    ensures (a % TWO_32 + b) % TWO_32 == (a + b) % TWO_32
  {
    var q := a / TWO_32;
    assert a + b == q * TWO_32 + (a % TWO_32 + b);
    SameRemainder(a % TWO_32 + b, q);
  }

  lemma SameRemainder(a: nat, q: nat)
    ensures (q * TWO_32 + a) % TWO_32 == a % TWO_32
  {
    var p := a / TWO_32;
    assert q * TWO_32 + a == (q + p) * TWO_32 + a % TWO_32;
  }

  /** Multiplication by 33 is injective modulo 2^32, because 33 * 1041204193 == 8 * 2^32 + 1. */
  lemma MixInjective(a: nat, b: nat, x: byte)
    requires a < TWO_32 && b < TWO_32 && Mix(a, x) == Mix(b, x)
    ensures a == b
  {
    MixIs33(a, x);
    MixIs33(b, x);
    var u, v := 33 * a + x as nat, 33 * b + x as nat;
    var k := u / TWO_32 - v / TWO_32;
    assert 33 * (a - b) == k * TWO_32;
    var t := 1041204193 * k - 8 * (a - b);
    assert a - b == t * TWO_32;
  }

  lemma MixSeparates(a: nat, x: byte, y: byte)
    requires Mix(a, x) == Mix(a, y)
    ensures x == y
  {
    MixIs33(a, x);
    MixIs33(a, y);
    var k := (33 * a + x as nat) / TWO_32 - (33 * a + y as nat) / TWO_32;
    assert x as int - y as int == k * TWO_32;
  }

  lemma SumIs32Bit(data: seq<byte>)
    ensures Sum(data) < TWO_32
  {
  }

  // ----- Detection -----

  /** Sums that differ stay different whatever bytes follow. */
  lemma {:induction false} SumsStayApart(a: seq<byte>, b: seq<byte>, tail: seq<byte>)
    ensures Sum(a + tail) == Sum(b + tail) <==> Sum(a) == Sum(b)
  {
    if tail == [] {
      assert a + tail == a && b + tail == b;
    } else {
      var n := |tail| - 1;
      var s, t := a + tail, b + tail;
      assert s[..|s| - 1] == a + tail[..n] && t[..|t| - 1] == b + tail[..n];
      SumsStayApart(a, b, tail[..n]);
      if Sum(s) == Sum(t) {
        SumIs32Bit(a + tail[..n]);
        SumIs32Bit(b + tail[..n]);
        MixInjective(Sum(a + tail[..n]), Sum(b + tail[..n]), tail[n]);
      }
    }
  }

  /** Changing one byte, anywhere in data of any length, changes the checksum. */
  lemma OneByteChangesSum(data: seq<byte>, i: nat, x: byte)
    requires i < |data| && data[i] != x
    ensures Sum(data[i := x]) != Sum(data)
  {
    hide Mix;
    var a, b := data[..i] + [data[i]], data[..i] + [x];
    assert data == a + data[i + 1..] && data[i := x] == b + data[i + 1..];
    assert a[..i] == data[..i] && b[..i] == data[..i];
    if Sum(a) == Sum(b) {
      MixSeparates(Sum(data[..i]), data[i], x);
    }
    SumsStayApart(a, b, data[i + 1..]);
  }

  // ----- Chunks -----

  /** Bitwise exclusive or. */
  function Xor(a: nat, b: nat): nat
    decreases a + b
  {
    if a == 0 && b == 0 then 0 else (if a % 2 == b % 2 then 0 else 1) + 2 * Xor(a / 2, b / 2)
  }

  lemma {:induction false} XorInjective(r: nat, a: nat, b: nat)
    ensures Xor(r, a) == Xor(r, b) ==> a == b
    ensures Xor(a, r) == Xor(b, r) ==> a == b
    decreases r + a + b
  {
    if r + a + b > 0 {
      XorInjective(r / 2, a / 2, b / 2);
      XorBits(r, a);
      XorBits(r, b);
      XorBits(a, r);
      XorBits(b, r);
    }
  }

  /** The `i`th binary digit. */
  function Bit(n: nat, i: nat): nat
    decreases i
  {
    if i == 0 then n % 2 else Bit(n / 2, i - 1)
  }

  /** Every binary digit of the exclusive or is one just when the two digits there differ. */
  lemma {:induction false} XorIsBitwise(a: nat, b: nat, i: nat)
    ensures Bit(Xor(a, b), i) == if Bit(a, i) == Bit(b, i) then 0 else 1
    decreases i
  {
    XorBits(a, b);
    if i > 0 {
      XorIsBitwise(a / 2, b / 2, i - 1);
    }
  }

  lemma XorBits(a: nat, b: nat)
    ensures Xor(a, b) / 2 == Xor(a / 2, b / 2)
    ensures Xor(a, b) % 2 == if a % 2 == b % 2 then 0 else 1
  {
  }

  function Chunk(data: seq<byte>): (n: nat)
    ensures n == if |data| < 4096 then |data| else 4096
  {
    if |data| < STATE_BUFFER_SIZE then |data| else STATE_BUFFER_SIZE
  }

  /** Folds the sums of consecutive chunks into `acc`. */
  function ChunkedSum(acc: nat, data: seq<byte>): nat
    decreases |data|
  {
    if data == [] then acc
    else ChunkedSum(Xor(acc, Sum(data[..Chunk(data)])), data[Chunk(data)..])
  }

  /** The loop that reads the file a buffer at a time and folds in each buffer's sum. */
  method SumChunks(data: seq<byte>) returns (checksum: nat)
    ensures checksum == ChunkedSum(0, data)
  {
    hide Sum, Xor;
    checksum := 0;
    var pos := 0;
    while pos < |data|
      invariant pos <= |data|
      invariant ChunkedSum(checksum, data[pos..]) == ChunkedSum(0, data)
    {
      var n := Chunk(data[pos..]);
      var buffer := new byte[n](k requires 0 <= k < n => data[pos + k]);
      assert buffer[..n] == data[pos..][..n] && data[pos..][n..] == data[pos + n..];
      var sum := CalculateChecksum(buffer, n);
      checksum := Xor(checksum, sum);
      pos := pos + n;
    }
  }

  /** The sums are folded in over the first 4096 bytes, then over the next 4096, and so on ... */
  lemma ChunkedSumOfFirst(acc: nat, first: seq<byte>, more: seq<byte>)
    requires |first| == 4096
    ensures ChunkedSum(acc, first + more) == ChunkedSum(Xor(acc, Sum(first)), more)
  {
    hide Sum, Xor;
    var data := first + more;
    assert data[..4096] == first && data[4096..] == more;
  }

  /** ... and at last over what is left. */
  lemma ChunkedSumOfLast(acc: nat, data: seq<byte>)
    requires |data| <= 4096
    ensures ChunkedSum(acc, data) == if data == [] then acc else Xor(acc, Sum(data))
  {
    hide Sum, Xor;
    assert data[..|data|] == data && data[|data|..] == [];
  }

  /** Up to one buffer the chunked sum is the plain sum. */
  lemma ChunkedIsWholeWhenShort(data: seq<byte>)
    requires |data| <= STATE_BUFFER_SIZE
    ensures ChunkedSum(0, data) == Sum(data)
  {
    if data != [] {
      assert data[..|data|] == data && data[|data|..] == [];
      XorZero(Sum(data));
    }
  }

  lemma XorZero(a: nat)
    ensures Xor(0, a) == a
  {
  }

  lemma {:induction false} ChunkedSumsStayApart(a: nat, b: nat, data: seq<byte>)
    ensures ChunkedSum(a, data) == ChunkedSum(b, data) ==> a == b
    decreases |data|
  {
    if data != [] {
      var s := Sum(data[..Chunk(data)]);
      ChunkedSumsStayApart(Xor(a, s), Xor(b, s), data[Chunk(data)..]);
      XorInjective(s, a, b);
    }
  }

  /** Changing one byte, in whatever chunk it lies, changes the chunked sum. */
  lemma {:induction false} OneByteChangesChunkedSum(acc: nat, data: seq<byte>, i: nat, x: byte)
    requires i < |data| && data[i] != x
    ensures ChunkedSum(acc, data[i := x]) != ChunkedSum(acc, data)
    decreases |data|
  {
    hide Sum, Xor;
    var n, other := Chunk(data), data[i := x];
    if i < n {
      assert other[..n] == data[..n][i := x] && other[n..] == data[n..];
      OneByteChangesSum(data[..n], i, x);
      XorInjective(acc, Sum(other[..n]), Sum(data[..n]));
      ChunkedSumsStayApart(Xor(acc, Sum(other[..n])), Xor(acc, Sum(data[..n])), data[n..]);
    } else {
      assert other[..n] == data[..n] && other[n..] == data[n..][i - n := x];
      OneByteChangesChunkedSum(Xor(acc, Sum(data[..n])), data[n..], i - n, x);
    }
  }

  // ----- Concatenation -----

  lemma Mul33(u: nat, x: nat)
    ensures (33 * (u % TWO_32) + x) % TWO_32 == (33 * u + x) % TWO_32
  {
    var q := u / TWO_32;
    assert 33 * u + x == (33 * q) * TWO_32 + (33 * (u % TWO_32) + x);
    SameRemainder(33 * (u % TWO_32) + x, 33 * q);
  }

  /** The sum of a concatenation is the first part's sum times 33^n plus the second part's, modulo 2^32,
      where `n` is the length of the second part. */
  lemma {:induction false} SumOfConcatenation(a: seq<byte>, b: seq<byte>)
    ensures Sum(a + b) == (Sum(a) * Pow33(|b|) + Sum(b)) % TWO_32
  {
    hide Mix;
    SumIs32Bit(a);
    if b == [] {
      assert a + b == a;
    } else {
      var n, x := |b| - 1, b[|b| - 1];
      assert (a + b)[..|a + b| - 1] == a + b[..n];
      SumOfConcatenation(a, b[..n]);
      var s, p, t := Sum(a), Pow33(n), Sum(b[..n]);
      MixIs33(Sum(a + b[..n]), x);
      MixIs33(t, x);
      Regroup33(s, p, t, x as nat);
    }
  }

  lemma Regroup33(s: nat, p: nat, t: nat, x: nat)
    ensures (33 * ((s * p + t) % TWO_32) + x) % TWO_32 == (s * (33 * p) + (33 * t + x) % TWO_32) % TWO_32
  {
    Mul33(s * p + t, x);
    Wrap(33 * t + x, s * (33 * p));
    assert s * (33 * p) == 33 * (s * p);
  }

  /** The sum is the value of the bytes in base 33, modulo 2^32. */
  lemma {:induction false} SumIsPolynomial(data: seq<byte>)
    ensures Sum(data) == Polynomial(data) % TWO_32
    decreases |data|
  {
    hide Mix, Pow33;
    if data != [] {
      var b := data[0];
      assert data == [b] + data[1..];
      SumOfConcatenation([b], data[1..]);
      SumOfOne(b);
      SumIsPolynomial(data[1..]);
      Wrap(Polynomial(data[1..]), b as nat * Pow33(|data| - 1));
    }
  }

  lemma SumOfOne(b: byte)
    ensures Sum([b]) == b as nat
  {
    assert [b][..0] == [];
    MixIs33(0, b);
  }
}
