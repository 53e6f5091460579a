/** The fixed-size integer encoding of Go's `encoding/binary`, as
    `binary.Write` and `binary.Read` apply it to one signed value. */
module Binary {
  import opened GoInts

  datatype ByteOrder = LittleEndian | BigEndian

  function Pow256(k: nat): (p: nat)
    ensures p > 0
  {
    if k == 0 then 1 else 256 * Pow256(k - 1)
  }

  lemma ModulusIsPow(w: Width)
    ensures Modulus(w) == Pow256(Bytes(w))
  {
    assert Pow256(1) == 0x100;
    assert Pow256(2) == 0x1_0000;
    assert Pow256(4) == 0x1_0000_0000 by {
      assert Pow256(3) == 0x100_0000;
    }
    assert Pow256(8) == 0x1_0000_0000_0000_0000 by {
      assert Pow256(4) == 0x1_0000_0000 by {
        assert Pow256(3) == 0x100_0000;
      }
      assert Pow256(5) == 0x100_0000_0000;
      assert Pow256(6) == 0x1_0000_0000_0000;
      assert Pow256(7) == 0x100_0000_0000_0000;
    }
  }

  // ---------------------------------------------------------------------
  // Unsigned little-endian digits
  // ---------------------------------------------------------------------

  /** The `k` base-256 digits of `u`, least significant first. */
  function LeBytes(u: nat, k: nat): (bs: seq<byte>)
    requires u < Pow256(k)
    ensures |bs| == k
  {
    if k == 0 then [] else [(u % 256) as byte] + LeBytes(u / 256, k - 1)
  }

  /** The number whose base-256 digits, least significant first, are `bs`. */
  function LeValue(bs: seq<byte>): (u: nat)
    ensures u < Pow256(|bs|)
  {
    if |bs| == 0 then 0 else bs[0] as nat + 256 * LeValue(bs[1..])
  }

  lemma {:induction false} LeValueOfBytes(u: nat, k: nat)
    requires u < Pow256(k)
    ensures LeValue(LeBytes(u, k)) == u
  {
    if k > 0 {
      LeValueOfBytes(u / 256, k - 1);
      assert LeBytes(u, k)[1..] == LeBytes(u / 256, k - 1);
    }
  }

  lemma {:induction false} LeBytesOfValue(bs: seq<byte>)
    ensures LeBytes(LeValue(bs), |bs|) == bs
  {
    if |bs| > 0 {
      LeBytesOfValue(bs[1..]);
      var u := LeValue(bs);
      assert u % 256 == bs[0] as nat && u / 256 == LeValue(bs[1..]);
    }
  }

  function Reverse<T>(s: seq<T>): (r: seq<T>)
    ensures |r| == |s|
    ensures forall i :: 0 <= i < |s| ==> r[i] == s[|s| - 1 - i]
  {
    if |s| == 0 then [] else Reverse(s[1..]) + [s[0]]
  }

  lemma ReverseReverse<T>(s: seq<T>)
    ensures Reverse(Reverse(s)) == s
  {
  }

  // ---------------------------------------------------------------------
  // One signed value
  // ---------------------------------------------------------------------

  /** The `k` lowest base-256 digits of `x`, least significant first:
      for a negative `x` these are the digits of its two's complement. */
  function Digits(x: int, k: nat): (bs: seq<byte>)
    ensures |bs| == k
    decreases k
  {
    if k == 0 then [] else [(x % 256) as byte] + Digits(x / 256, k - 1)
  }

  /** The bytes `binary.Write` produces for a value of width `w`: its
      two's-complement digits in the given byte order (only the low `w`
      bits of `x` take part). */
  function EncodeValue(order: ByteOrder, w: Width, x: int): (bs: seq<byte>)
    ensures |bs| == Bytes(w)
  {
    var le := Digits(x, Bytes(w));
    if order == LittleEndian then le else Reverse(le)
  }

  /** Euclidean division has one quotient and one remainder. */
  lemma DivModUnique(x: int, m: int, d: int, s: int)
    requires m > 0 && x == m * d + s && 0 <= s < m
    ensures x / m == d && x % m == s
  {
    var d', s' := x / m, x % m;
    if d > d' {
      assert m * d == m * d' + m * (d - d');
      MulAtLeast(m, d - d');
    } else if d < d' {
      assert m * d' == m * d + m * (d' - d);
      MulAtLeast(m, d' - d);
    }
  }

  lemma {:induction false} MulAtLeast(m: nat, t: nat)
    requires t >= 1
    ensures m * t >= m
    decreases t
  {
    if t > 1 {
      MulAtLeast(m, t - 1);
      assert m * t == m * (t - 1) + m;
    }
  }

  /** Dropping the lowest digit of `x mod 256q` is dropping it from `x`
      and then reducing mod `q`. */
  lemma ModStep(x: int, q: nat)
    requires q > 0
    ensures (x % (256 * q)) % 256 == x % 256
    ensures (x % (256 * q)) / 256 == (x / 256) % q
  {
    var a, r := x / 256, x % 256;
    var b, c := a / q, a % q;
    assert x == 256 * q * b + (256 * c + r);
    DivModUnique(x, 256 * q, b, 256 * c + r);
    DivModUnique(256 * c + r, 256, c, r);
  }

  /** The digits are those of the value reduced to `k` bytes. */
  lemma {:induction false} DigitsAreLowBytes(x: int, k: nat)
    ensures Digits(x, k) == LeBytes(x % Pow256(k), k)
    decreases k
  {
    if k > 0 {
      ModStep(x, Pow256(k - 1));
      DigitsAreLowBytes(x / 256, k - 1);
    }
  }

  /** The value `binary.Read` fills in from `Bytes(w)` bytes. */
  function DecodeValue(order: ByteOrder, w: Width, bs: seq<byte>): (x: int)
    requires |bs| == Bytes(w)
    ensures InRange(w, x)
  {
    ModulusIsPow(w);
    var u := LeValue(if order == LittleEndian then bs else Reverse(bs));
    if u >= Half(w) then u - Modulus(w) else u
  }

  /** The written bytes are the base-256 digits of the value taken
      modulo 2^(bits of w). */
  lemma EncodeValueIsLowBytes(order: ByteOrder, w: Width, x: int)
    ensures Modulus(w) == Pow256(Bytes(w))
    ensures var le := LeBytes(x % Modulus(w), Bytes(w));
            EncodeValue(order, w, x) == if order == LittleEndian then le else Reverse(le)
  {
    ModulusIsPow(w);
    DigitsAreLowBytes(x, Bytes(w));
  }

  /** Reduction modulo 2^(bits of w) of a value of width `w`. */
  lemma ModOfInRange(w: Width, x: int)
    requires InRange(w, x)
    ensures x % Modulus(w) == if x >= 0 then x else x + Modulus(w)
  {
    if x >= 0 {
      DivModUnique(x, Modulus(w), 0, x);
    } else {
      DivModUnique(x, Modulus(w), -1, x + Modulus(w));
    }
  }

  /** Reading back what was written gives the value. */
  lemma DecodeEncode(order: ByteOrder, w: Width, x: int)
    requires InRange(w, x)
    ensures DecodeValue(order, w, EncodeValue(order, w, x)) == x
  {
    EncodeValueIsLowBytes(order, w, x);
    ModOfInRange(w, x);
    var u := x % Modulus(w);
    var le := LeBytes(u, Bytes(w));
    LeValueOfBytes(u, Bytes(w));
    if order == BigEndian {
      ReverseReverse(le);
    }
  }

  /** Writing what was read gives the bytes. */
  lemma EncodeDecode(order: ByteOrder, w: Width, bs: seq<byte>)
    requires |bs| == Bytes(w)
    ensures EncodeValue(order, w, DecodeValue(order, w, bs)) == bs
  {
    var le := if order == LittleEndian then bs else Reverse(bs);
    var x := DecodeValue(order, w, bs);
    DecodedResidue(order, w, bs);
    EncodeValueIsLowBytes(order, w, x);
    LeBytesOfValue(le);
    if order == BigEndian {
      ReverseReverse(bs);
    }
  }

  /** The value read is congruent to the unsigned number the bytes spell. */
  lemma DecodedResidue(order: ByteOrder, w: Width, bs: seq<byte>)
    requires |bs| == Bytes(w)
    ensures DecodeValue(order, w, bs) % Modulus(w) == LeValue(if order == LittleEndian then bs else Reverse(bs))
  {
    ModulusIsPow(w);
    var u := LeValue(if order == LittleEndian then bs else Reverse(bs));
    var x := DecodeValue(order, w, bs);
    if u >= Half(w) {
      DivModUnique(x, Modulus(w), -1, u);
    } else {
      DivModUnique(x, Modulus(w), 0, u);
    }
  }
}
