/** RFC 6455 framing as the load generator (client) and the echo upstream (server) implement it. */
module WsFrames {
  import opened Arithmetic

  /** An octet.  The bit operations on it are written out in arithmetic. */
  type Byte = x: nat | x < 256

  // ---------------------------------------------------------------- bits

  /** Exclusive or of the low `k` bits. */
  function XorBits(a: nat, b: nat, k: nat): nat {
    if k == 0 then 0 else 2 * XorBits(a / 2, b / 2, k - 1) + (a + b) % 2
  }

  lemma {:induction false} XorBitsBelow(a: nat, b: nat, k: nat)
    ensures XorBits(a, b, k) < Pow2(k)
  {
    if k > 0 { XorBitsBelow(a / 2, b / 2, k - 1); }
  }

  lemma {:induction false} XorBitsTwice(a: nat, b: nat, k: nat)
    requires a < Pow2(k)
    ensures XorBits(XorBits(a, b, k), b, k) == a
  {
    if k > 0 {
      XorBitsTwice(a / 2, b / 2, k - 1);
      LastBit(XorBits(a / 2, b / 2, k - 1), a, b);
    }
  }

  lemma LastBit(h: nat, a: nat, b: nat)
    ensures var x := 2 * h + (a + b) % 2;
            x / 2 == h && (x + b) % 2 == a % 2
  {
  }

  lemma EightBits()
    ensures Pow2(8) == 256
  {
    assert Pow2(4) == 16;
    assert Pow2(8) == 2 * (2 * (2 * (2 * Pow2(4))));
  }

  function Xor(a: Byte, b: Byte): Byte {
    EightBits();
    XorBitsBelow(a, b, 8);
    XorBits(a, b, 8)
  }

  lemma {:induction false} XorBitsBitwise(a: nat, b: nat, n: nat, k: nat)
    requires k < n
    ensures BitSet(XorBits(a, b, n), k) <==> BitSet(a, k) != BitSet(b, k)
  {
    var h := XorBits(a / 2, b / 2, n - 1);
    LastBit(h, a, b);
    if k > 0 {
      XorBitsBitwise(a / 2, b / 2, n - 1, k - 1);
      HigherBit(a, k);
      HigherBit(b, k);
      HigherBit(XorBits(a, b, n), k);
    } else {
      LowestBit(a);
      LowestBit(b);
      LowestBit(XorBits(a, b, n));
    }
  }

  lemma LowestBit(x: nat)
    ensures BitSet(x, 0) <==> x % 2 == 1
  {
  }

  lemma HigherBit(x: nat, k: nat)
    requires k > 0
    ensures BitSet(x, k) <==> BitSet(x / 2, k - 1)
  {
    HalfFirst(x, Pow2(k - 1));
  }

  lemma HalfFirst(x: nat, p: nat)
    requires p > 0
    ensures x / (2 * p) == (x / 2) / p
  {
    var h, q, r := x / 2, (x / 2) / p, (x / 2) % p;
    assert h == q * p + r;
    assert q * (2 * p) == 2 * (q * p);
    DivModUnique(x, 2 * p, q, 2 * r + x % 2);
  }

  /** Bit by bit: set exactly where the two differ. */
  lemma XorIsBitwise(a: Byte, b: Byte, k: nat)
    requires k < 8
    ensures BitSet(Xor(a, b), k) <==> BitSet(a, k) != BitSet(b, k)
  {
    XorBitsBitwise(a, b, 8, k);
  }

  lemma XorTwice(a: Byte, b: Byte)
    ensures Xor(Xor(a, b), b) == a
  {
    EightBits();
    XorBitsTwice(a, b, 8);
  }

  /** `0x80 | x`, `x & 0x80 != 0`, `x & 0x7f` and `x & 0x0f`. */
  function SetTop(x: Byte): Byte { if x < 128 then x + 128 else x }

  predicate HasTop(x: Byte) { x >= 128 }

  function Low7(x: Byte): Byte { x % 128 }

  function Low4(x: Byte): Byte { x % 16 }

  lemma HalfOfRemainder(x: nat, p: nat)
    requires p > 0
    ensures (x % (2 * p)) / 2 == (x / 2) % p && (x % (2 * p)) % 2 == x % 2
  {
    var q, r := (x / 2) / p, (x / 2) % p;
    assert x / 2 == q * p + r;
    assert 2 * (q * p) == q * (2 * p);
    DivModUnique(x, 2 * p, q, 2 * r + x % 2);
  }

  /** The remainder by a power of two keeps the low bits and clears the others. */
  lemma {:induction false} LowBitsKept(x: nat, n: nat, k: nat)
    ensures BitSet(x % Pow2(n), k) <==> k < n && BitSet(x, k)
    decreases n
  {
    if n == 0 {
      NoBits(k);
    } else {
      HalfOfRemainder(x, Pow2(n - 1));
      if k == 0 {
        LowestBit(x);
        LowestBit(x % Pow2(n));
      } else {
        LowBitsKept(x / 2, n - 1, k - 1);
        HigherBit(x, k);
        HigherBit(x % Pow2(n), k);
      }
    }
  }

  lemma NoBits(k: nat)
    ensures !BitSet(0, k)
  {
    DivModUnique(0, Pow2(k), 0, 0);
  }

  lemma TopBit(x: Byte)
    ensures BitSet(x, 7) <==> x >= 128
  {
    assert Pow2(3) == 8;
    assert Pow2(7) == 2 * (2 * (2 * (2 * Pow2(3))));
  }

  /** The four masks, bit by bit: the low four, the low seven, the top one, and the top one set. */
  lemma MasksAreBits(x: Byte, k: nat)
    requires k < 8
    ensures BitSet(Low4(x), k) <==> k < 4 && BitSet(x, k)
    ensures BitSet(Low7(x), k) <==> k < 7 && BitSet(x, k)
    ensures HasTop(x) <==> BitSet(x, 7)
    ensures BitSet(SetTop(x), k) <==> k == 7 || BitSet(x, k)
  {
    assert Pow2(3) == 8;
    assert Pow2(4) == 16;
    assert Pow2(7) == 2 * (2 * (2 * Pow2(4)));
    LowBitsKept(x, 4, k);
    LowBitsKept(x, 7, k);
    LowBitsKept(SetTop(x), 7, k);
    TopBit(x);
    TopBit(SetTop(x));
    assert SetTop(x) % 128 == x % 128;
  }

  // ---------------------------------------------------------------- big-endian lengths

  function Pow256(k: nat): (p: nat)
    ensures p > 0
  {
    if k == 0 then 1 else 256 * Pow256(k - 1)
  }

  /** The `k` low bytes of `n`, most significant first. */
  function BigEndian(n: nat, k: nat): (r: seq<Byte>)
    ensures |r| == k
  {
    if k == 0 then [] else BigEndian(n / 256, k - 1) + [n % 256]
  }

  function FromBigEndian(bs: seq<Byte>): nat {
    if bs == [] then 0 else 256 * FromBigEndian(bs[..|bs| - 1]) + bs[|bs| - 1]
  }

  lemma {:induction false} BigEndianRoundTrip(n: nat, k: nat)
    requires n < Pow256(k)
    ensures FromBigEndian(BigEndian(n, k)) == n
  {
    if k > 0 {
      BigEndianRoundTrip(n / 256, k - 1);
      var r := BigEndian(n / 256, k - 1);
      assert (r + [n % 256])[..k - 1] == r;
    }
  }

  lemma DivideTwice(n: nat, p: nat)
    requires p > 0
    ensures (n / 256) / p == n / (256 * p)
  {
    var q, r := (n / 256) / p, (n / 256) % p;
    assert n / 256 == q * p + r;
    assert q * (256 * p) == 256 * (q * p);
    DivModUnique(n, 256 * p, q, 256 * r + n % 256);
  }

  /** Each byte of the network form, most significant first. */
  lemma {:induction false} BigEndianBytes(n: nat, k: nat, i: nat)
    requires i < k
    ensures BigEndian(n, k)[i] == (n / Pow256(k - 1 - i)) % 256
  {
    if i < k - 1 {
      BigEndianBytes(n / 256, k - 1, i);
      DivideTwice(n, Pow256(k - 2 - i));
    }
  }

  lemma LengthBounds()
    ensures Pow256(2) == 0x1_0000 && Pow256(8) == 0x1_0000_0000_0000_0000
  {
    assert Pow256(2) == 0x1_0000;
    assert Pow256(4) == 0x1_0000_0000;
    assert Pow256(6) == 0x1_0000_0000_0000;
  }

  // ---------------------------------------------------------------- masking

  function Masked(payload: seq<Byte>, mask: seq<Byte>): (r: seq<Byte>)
    requires |mask| == 4
    ensures |r| == |payload|
    ensures forall i :: 0 <= i < |r| ==> r[i] == Xor(payload[i], mask[i % 4])
  {
    seq(|payload|, i requires 0 <= i < |payload| => Xor(payload[i], mask[i % 4]))
  }

  lemma MaskedTwice(payload: seq<Byte>, mask: seq<Byte>)
    requires |mask| == 4
    ensures Masked(Masked(payload, mask), mask) == payload
  {
    hide Xor;
    forall i | 0 <= i < |payload| ensures Masked(Masked(payload, mask), mask)[i] == payload[i] {
      XorTwice(payload[i], mask[i % 4]);
    }
  }

  /** The reader's loop: unmask the buffer in place. */
  method Unmask(payload: array<Byte>, mask: seq<Byte>)
    requires |mask| == 4
    modifies payload
    ensures payload[..] == Masked(old(payload[..]), mask)
  {
    hide Xor;
    ghost var was := payload[..];
    for i := 0 to payload.Length
      invariant forall k :: 0 <= k < i ==> payload[k] == Xor(was[k], mask[k % 4])
      invariant forall k :: i <= k < payload.Length ==> payload[k] == was[k]
    {
      payload[i] := Xor(payload[i], mask[i % 4]);
    }
    assert payload[..] == Masked(was, mask);
  }
}
