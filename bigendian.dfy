// Most-significant-byte-first integer codec used for every multi-byte
// field of the DMF attribute (msb_store / msb_load).

module BigEndian {

  /** An unsigned char of the attribute buffer. */
  newtype byte = x: int | 0 <= x < 256

  /** An unsigned 64-bit value (u_int64_t). */
  type U64 = x: int | 0 <= x < 0x1_0000_0000_0000_0000

  const U64_MODULUS: nat := 0x1_0000_0000_0000_0000

  /** Reinterprets a signed 64-bit quantity (such as an off64_t) as u_int64_t,
      as C's conversion to an unsigned type does. */
  function ToU64(x: int): (r: U64)
    ensures 0 <= x < U64_MODULUS ==> r == x
    ensures -(U64_MODULUS as int) <= x < 0 ==> r == x + U64_MODULUS
  {
    x % U64_MODULUS
  }

  function Pow256(n: nat): (r: nat)
    ensures r > 0
  {
    if n == 0 then 1 else 256 * Pow256(n - 1)
  }

  /** The unsigned value of a big-endian byte string. */
  function Value(s: seq<byte>): nat
  {
    if s == [] then 0 else Value(s[..|s| - 1]) * 256 + s[|s| - 1] as int
  }

  /** The `n` low-order bytes of `v`, most significant first. */
  function Bytes(v: nat, n: nat): (r: seq<byte>)
    ensures |r| == n
  {
    if n == 0 then [] else Bytes(v / 256, n - 1) + [(v % 256) as byte]
  }

  /** `b` with the bytes `w` written over it from position `off`. */
  function Splice(b: seq<byte>, off: nat, w: seq<byte>): (r: seq<byte>)
    requires off + |w| <= |b|
    ensures |r| == |b|
    ensures forall i | 0 <= i < |b| :: r[i] == if off <= i < off + |w| then w[i - off] else b[i]
  {
    b[..off] + w + b[off + |w|..]
  }

  /** Writing `w` at `off` leaves the bytes in `[lo, hi)` alone when the two
      ranges do not overlap. */
  lemma SpliceKeeps(b: seq<byte>, off: nat, w: seq<byte>, lo: nat, hi: nat)
    requires off + |w| <= |b| && lo <= hi <= |b|
    requires hi <= off || off + |w| <= lo
    ensures Splice(b, off, w)[lo..hi] == b[lo..hi]
  {
  }

  lemma SpliceWrites(b: seq<byte>, off: nat, w: seq<byte>)
    requires off + |w| <= |b|
    ensures Splice(b, off, w)[off..off + |w|] == w
  {
  }

  /** Two writes side by side are one write of their concatenation. */
  lemma SpliceAdjacent(b: seq<byte>, off: nat, w1: seq<byte>, w2: seq<byte>)
    requires off + |w1| + |w2| <= |b|
    ensures Splice(Splice(b, off, w1), off + |w1|, w2) == Splice(b, off, w1 + w2)
  {
    var x, y := Splice(Splice(b, off, w1), off + |w1|, w2), Splice(b, off, w1 + w2);
    forall i | 0 <= i < |b| ensures x[i] == y[i] {
      if off + |w1| <= i < off + |w1| + |w2| {
        assert (w1 + w2)[i - off] == w2[i - off - |w1|];
      }
    }
  }

  lemma SpliceTwice(b: seq<byte>, off: nat, w: seq<byte>)
    requires off + |w| <= |b|
    ensures Splice(Splice(b, off, w), off, w) == Splice(b, off, w)
  {
  }

  /** Writes to disjoint ranges commute. */
  lemma SpliceCommute(b: seq<byte>, o1: nat, w1: seq<byte>, o2: nat, w2: seq<byte>)
    requires o1 + |w1| <= |b| && o2 + |w2| <= |b|
    requires o1 + |w1| <= o2 || o2 + |w2| <= o1
    ensures Splice(Splice(b, o1, w1), o2, w2) == Splice(Splice(b, o2, w2), o1, w1)
  {
  }

  lemma SliceOfSlice(s: seq<byte>, lo: nat, hi: nat, a: nat, b: nat)
    requires lo <= hi <= |s| && a <= b <= hi - lo
    ensures s[lo..hi][a..b] == s[lo + a..lo + b]
  {
    forall i | 0 <= i < b - a ensures s[lo..hi][a..b][i] == s[lo + a..lo + b][i] {
    }
  }

  lemma Pow256Eight()
    ensures Pow256(8) == U64_MODULUS
  {
    assert Pow256(2) == 0x1_0000;
    assert Pow256(4) == 0x1_0000_0000;
  }

  lemma {:induction false} Pow256Monotonic(m: nat, n: nat)
    requires m <= n
    ensures Pow256(m) <= Pow256(n)
  {
    if m < n {
      Pow256Monotonic(m, n - 1);
    }
  }

  lemma {:induction false} MulAtLeast(m: int, k: int)
    requires m > 0 && k >= 1
    ensures m * k >= m
  {
    if k > 1 {
      MulAtLeast(m, k - 1);
      assert m * k == m * (k - 1) + m;
    }
  }

  /** Division and remainder are determined by any decomposition with an
      in-range remainder. */
  lemma DivModUnique(v: int, m: int, q: int, r: int)
    requires m > 0 && 0 <= r < m && v == m * q + r
    ensures v / m == q && v % m == r
  {
    var q', r' := v / m, v % m;
    var d := q - q';
    assert m * q' + r' == m * q + r;
    assert m * d == m * q - m * q';
    assert m * d == r' - r;
    if d >= 1 {
      MulAtLeast(m, d);
    } else if d <= -1 {
      MulAtLeast(m, -d);
    }
  }

  /** A big-endian string of `n` bytes never denotes a value of `n` bytes or more. */
  lemma {:induction false} ValueBound(s: seq<byte>)
    ensures Value(s) < Pow256(|s|)
  {
    if s != [] {
      var p := s[..|s| - 1];
      ValueBound(p);
      assert Value(p) + 1 <= Pow256(|s| - 1);
      assert (Value(p) + 1) * 256 <= Pow256(|s| - 1) * 256;
    }
  }

  /** Peeling off the low byte: `v mod 256p` is the low byte plus 256 times
      `(v / 256) mod p`. */
  lemma ModPeel(v: nat, p: nat)
    requires p > 0
    ensures ((v / 256) % p) * 256 + v % 256 == v % (256 * p)
  {
    var q, r := v / 256, v % 256;
    var qm := q % p;
    assert q == p * (q / p) + qm;
    assert v == 256 * q + r;
    assert v == (256 * p) * (q / p) + (qm * 256 + r);
    assert qm * 256 + r < 256 * p by {
      assert qm + 1 <= p;
      assert (qm + 1) * 256 <= p * 256;
    }
    DivModUnique(v, 256 * p, q / p, qm * 256 + r);
  }

  /** Appending a byte shifts the value left by one byte. */
  lemma ValueSnoc(p: seq<byte>, x: byte)
    ensures Value(p + [x]) == Value(p) * 256 + x as int
  {
    assert (p + [x])[..|p|] == p;
  }

  /** Storing `n` bytes keeps exactly `v mod 256^n`: higher bits are dropped. */
  lemma {:induction false} ValueOfBytes(v: nat, n: nat)
    ensures Value(Bytes(v, n)) == v % Pow256(n)
  {
    if n > 0 {
      var hi := Bytes(v / 256, n - 1);
      var lo := (v % 256) as byte;
      assert Bytes(v, n) == hi + [lo];
      ValueSnoc(hi, lo);
      ValueOfBytes(v / 256, n - 1);
      PeelStep(v, Pow256(n - 1), Value(hi), lo as int);
    }
  }

  /** The arithmetic step of ValueOfBytes, kept apart from the sequences. */
  lemma PeelStep(v: nat, p: nat, hi: int, lo: int)
    requires p > 0 && hi == (v / 256) % p && lo == v % 256
    ensures hi * 256 + lo == v % (256 * p)
  {
    ModPeel(v, p);
  }

  /** The codec round trip is exact for every value that fits in `n` bytes. */
  lemma RoundTrip(v: nat, n: nat)
    requires v < Pow256(n)
    ensures Value(Bytes(v, n)) == v
  {
    ValueOfBytes(v, n);
    DivModUnique(v, Pow256(n), 0, v);
  }

  /** Decoding then re-encoding at the same width gives back the same bytes. */
  lemma {:induction false} BytesOfValue(s: seq<byte>)
    ensures Bytes(Value(s), |s|) == s
  {
    if s != [] {
      var p := s[..|s| - 1];
      var last := s[|s| - 1];
      BytesOfValue(p);
      DivModUnique(Value(s), 256, Value(p), last as int);
      assert s == p + [last];
    }
  }

  /** Modular reduction commutes with the shift-and-or step of msb_load. */
  lemma ShiftInMod(t: int, b: int, m: int)
    requires m > 0 && m % 256 == 0 && 0 <= b < 256
    ensures ((t % m) * 256 + b) % m == (t * 256 + b) % m
  {
    var k := t / m;
    assert t == m * k + t % m;
    assert t * 256 + b == m * (256 * k) + ((t % m) * 256 + b);
    var x := (t % m) * 256 + b;
    DivModUnique(x, m, x / m, x % m);
    DivModUnique(t * 256 + b, m, 256 * k + x / m, x % m);
  }

  /** msb_store: writes the `length` low-order bytes of `src` into
      `dest[off..off + length]`, most significant first; nothing else changes. */
  method MsbStore(dest: array<byte>, off: nat, src: U64, length: nat)
    requires off + length <= dest.Length
    modifies dest
    ensures dest[..] == Splice(old(dest[..]), off, Bytes(src, length))
  {
    var cur: nat := src;
    var i: int := length - 1;
    while i >= 0
      invariant -1 <= i < length
      invariant Bytes(src, length) == Bytes(cur, i + 1) + dest[off + i + 1..off + length]
      invariant forall j | 0 <= j < dest.Length && !(off + i < j < off + length) :: dest[j] == old(dest[j])
    {
      ghost var suffix := dest[off + i + 1..off + length];
      assert Bytes(cur, i + 1) == Bytes(cur / 256, i) + [(cur % 256) as byte];
      dest[off + i] := (cur % 256) as byte;
      assert dest[off + i..off + length] == [(cur % 256) as byte] + suffix;
      cur := cur / 256;
      i := i - 1;
    }
    assert dest[off..off + length] == Bytes(src, length);
    assert dest[..] == Splice(old(dest[..]), off, Bytes(src, length)) by {
      forall j | 0 <= j < dest.Length
        ensures dest[j] == Splice(old(dest[..]), off, Bytes(src, length))[j]
      {
        if off <= j < off + length {
          assert dest[j] == dest[off..off + length][j - off];
        }
      }
    }
  }

  /** msb_load: accumulates `length` bytes from `src[off..]` into a 64-bit
      value, shifting left by 8 each step (bits shifted out of 64 are lost). */
  method MsbLoad(src: array<byte>, off: nat, length: nat) returns (v: U64)
    requires off + length <= src.Length
    ensures v == Value(src[off..off + length]) % U64_MODULUS
    ensures length <= 8 ==> v == Value(src[off..off + length])
  {
    var tmp: U64 := 0;
    var i := 0;
    while i < length
      invariant 0 <= i <= length
      invariant tmp == Value(src[off..off + i]) % U64_MODULUS
    {
      var prefix := src[off..off + i];
      assert src[off..off + i + 1] == prefix + [src[off + i]];
      assert (prefix + [src[off + i]])[..i] == prefix;
      ShiftInMod(Value(prefix), src[off + i] as int, U64_MODULUS);
      tmp := (tmp * 256 + src[off + i] as int) % U64_MODULUS;
      i := i + 1;
    }
    v := tmp;
    if length <= 8 {
      var s := src[off..off + length];
      ValueBound(s);
      Pow256Monotonic(length, 8);
      Pow256Eight();
      DivModUnique(Value(s), U64_MODULUS, 0, Value(s));
    }
  }

  /** msb_store followed by msb_load of the same field: the value comes
      back reduced modulo 256^length, and exactly when it fits. */
  method StoreThenLoad(buf: array<byte>, off: nat, v: U64, length: nat) returns (w: U64)
    requires off + length <= buf.Length && length <= 8
    modifies buf
    ensures w == v % Pow256(length)
    ensures v < Pow256(length) ==> w == v
  {
    MsbStore(buf, off, v, length);
    assert buf[off..off + length] == Bytes(v, length);
    w := MsbLoad(buf, off, length);
    ValueOfBytes(v, length);
    if v < Pow256(length) {
      RoundTrip(v, length);
    }
  }
}
