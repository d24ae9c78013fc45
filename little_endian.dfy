/**
 * Bytes and the unsigned little-endian integers that `struct.unpack_from`
 * reads with the formats `<I` (4 bytes) and `<Q` (8 bytes).
 */
module LittleEndian {

  /** One byte of a Python `bytes`/`memoryview`, as the int indexing yields. */
  type Byte = b: int | 0 <= b < 256

  type Bytes = seq<Byte>

  function Pow256(n: nat): (r: nat)
    ensures r >= 1
  {
    if n == 0 then 1 else 256 * Pow256(n - 1)
  }

  /** The unsigned integer whose little-endian encoding is `s`. */
  function FromLE(s: Bytes): (r: nat)
    ensures r < Pow256(|s|)
  {
    if s == [] then 0 else s[0] + 256 * FromLE(s[1..])
  }

  /** The `n` low-order bytes of `x`, least significant first (`struct.pack('<…', x)`). */
  function ToLE(x: nat, n: nat): (r: Bytes)
    ensures |r| == n
  {
    if n == 0 then [] else [x % 256] + ToLE(x / 256, n - 1)
  }

  /** Decoding an encoding gives back the number, reduced to `n` bytes. */
  lemma {:induction false} FromToLE(x: nat, n: nat)
    ensures FromLE(ToLE(x, n)) == x % Pow256(n)
  {
    if n > 0 {
      FromToLE(x / 256, n - 1);
      var s := ToLE(x, n);
      assert s[1..] == ToLE(x / 256, n - 1);
      DivModSplit(x, Pow256(n - 1));
    }
  }

  /** `x % (256 * p) == x % 256 + 256 * ((x / 256) % p)`. */
  lemma DivModSplit(x: nat, p: nat)
    requires p >= 1
    ensures x % (256 * p) == x % 256 + 256 * ((x / 256) % p)
  {
    var q := x / 256;
    var r := x % 256;
    assert x == 256 * q + r;
    var q2 := q / p;
    var r2 := q % p;
    assert q == p * q2 + r2;
    assert x == (256 * p) * q2 + (256 * r2 + r);
    assert 0 <= 256 * r2 + r < 256 * p;
    LemmaModUnique(x, 256 * p, q2, 256 * r2 + r);
  }

  lemma LemmaModUnique(x: int, m: int, q: int, r: int)
    requires m > 0 && 0 <= r < m && x == m * q + r
    ensures x % m == r
  {
    var q' := x / m;
    var r' := x % m;
    assert x == m * q' + r';
    if q' > q {
      assert m * q' >= m * (q + 1) by { LemmaMulMono(m, q + 1, q'); }
    } else if q' < q {
      assert m * q >= m * (q' + 1) by { LemmaMulMono(m, q' + 1, q); }
    }
  }

  lemma LemmaMulMono(m: int, a: int, b: int)
    requires m > 0 && a <= b
    ensures m * a <= m * b
  {
  }

  /** Encoding a decoded value gives back the bytes. */
  lemma {:induction false} ToFromLE(s: Bytes)
    ensures ToLE(FromLE(s), |s|) == s
  {
    if s != [] {
      ToFromLE(s[1..]);
      var x := FromLE(s);
      assert x % 256 == s[0] && x / 256 == FromLE(s[1..]);
    }
  }

  /** Round trip for numbers that fit: decoding `ToLE(x, n)` is `x`. */
  lemma FromToLEFits(x: nat, n: nat)
    requires x < Pow256(n)
    ensures FromLE(ToLE(x, n)) == x
  {
    FromToLE(x, n);
  }

  /** `FromLE` is the inverse of `ToLE` on `n`-byte strings: two readings agree iff the bytes do. */
  lemma FromLEInjective(s: Bytes, t: Bytes)
    requires |s| == |t| && FromLE(s) == FromLE(t)
    ensures s == t
  {
    ToFromLE(s);
    ToFromLE(t);
  }
}
