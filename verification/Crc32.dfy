/**
 CRC-32 in its reflected form (clause 3.2.9 of IEEE 802.3; the same polynomial
 and bit order as section 8 of RFC 1952), computed bit by bit as the log does,
 and what corruption detection rests on: the register update loses nothing, and
 a burst of up to four changed bytes always leaves a different checksum.
 */
module Crc32 {
  import opened Bytes

  function Repeat(bit: bool, n: nat): (s: seq<bool>)
    ensures |s| == n && forall i :: 0 <= i < n ==> s[i] == bit
  {
    seq(n, _ => bit)
  }

  /** A 32-bit register, least significant bit first. */
  type Word = w: seq<bool> | |w| == 32 witness Repeat(false, 32)

  // ---- numbers as bits -------------------------------------------------------

  function Bits(v: nat, n: nat): (s: seq<bool>)
    ensures |s| == n
  {
    if n == 0 then [] else [v % 2 == 1] + Bits(v / 2, n - 1)
  }

  function Value(s: seq<bool>): nat {
    if s == [] then 0 else (if s[0] then 1 else 0) + 2 * Value(s[1..])
  }

  function Pow2(n: nat): (r: nat)
    ensures r >= 1
  {
    if n == 0 then 1 else 2 * Pow2(n - 1)
  }

  lemma Pow2Values()
    ensures Pow2(8) == 256 && Pow2(32) == 0x1_0000_0000
  {
    assert Pow2(4) == 16;
    assert Pow2(12) == 16 * Pow2(8);
    assert Pow2(16) == 16 * Pow2(12);
    assert Pow2(20) == 16 * Pow2(16);
    assert Pow2(24) == 16 * Pow2(20);
    assert Pow2(28) == 16 * Pow2(24);
  }

  lemma {:induction false} ValueBits(v: nat, n: nat)
    requires v < Pow2(n)
    ensures Value(Bits(v, n)) == v
  {
    if n > 0 {
      ValueBits(v / 2, n - 1);
      assert Bits(v, n)[1..] == Bits(v / 2, n - 1);
    }
  }

  lemma {:induction false} ValueBound(s: seq<bool>)
    ensures Value(s) < Pow2(|s|)
  {
    if s != [] {
      ValueBound(s[1..]);
    }
  }

  lemma {:induction false} ValueInjective(s: seq<bool>, t: seq<bool>)
    requires |s| == |t| && Value(s) == Value(t)
    ensures s == t
  {
    if s != [] {
      ValueInjective(s[1..], t[1..]);
      assert s == [s[0]] + s[1..] && t == [t[0]] + t[1..];
    }
  }

  // ---- the register ----------------------------------------------------------

  /** Whether the generator polynomial has a term of this degree below 32. */
  predicate Term(degree: int) {
    degree in {26, 23, 22, 16, 12, 11, 10, 8, 7, 5, 4, 2, 1, 0}
  }

  /**
   The polynomial reflected: bit i is the term of degree 31 - i (0xEDB88320).
   The constant term is bit 31, which makes a step reversible.
   */
  const POLYNOMIAL: Word := seq(32, i => Term(31 - i))

  lemma TopTerm()
    ensures POLYNOMIAL[31]
  {
    assert Term(0);
  }

  const ONES: Word := Repeat(true, 32)

  function Xor(a: Word, b: Word): Word {
    seq(32, i requires 0 <= i < 32 => a[i] != b[i])
  }

  /** Shift right once and fold the polynomial in when a one falls out. */
  function BitStep(c: Word): Word {
    seq(32, i requires 0 <= i < 32 => (i < 31 && c[i + 1]) != (c[0] && POLYNOMIAL[i]))
  }

  function BitSteps(c: Word, n: nat): Word {
    if n == 0 then c else BitStep(BitSteps(c, n - 1))
  }

  /** A byte as the low eight bits of a register. */
  function Low(b: byte): Word {
    Bits(b, 8) + Repeat(false, 24)
  }

  function ByteStep(c: Word, b: byte): Word {
    BitSteps(Xor(c, Low(b)), 8)
  }

  /** The register after folding in all of `data`, first byte first. */
  function Update(c: Word, data: seq<byte>): Word
    decreases |data|
  {
    if data == [] then c else Update(ByteStep(c, data[0]), data[1..])
  }

  /** The checksum of `data`: all-ones preset, complemented at the end. */
  function Checksum(data: seq<byte>): (r: nat)
    ensures r < 0x1_0000_0000
  {
    Pow2Values();
    ValueBound(Xor(Update(ONES, data), ONES));
    Value(Xor(Update(ONES, data), ONES))
  }

  /** The nested loop of the log's checksum routine computes Update. */
  method UpdateLoop(c: Word, data: seq<byte>) returns (crc: Word)
    ensures crc == Update(c, data)
  {
    crc := c;
    for i := 0 to |data|
      invariant Update(crc, data[i..]) == Update(c, data)
    {
      ghost var before := crc;
      crc := Xor(crc, Low(data[i]));
      for k := 0 to 8
        invariant crc == BitSteps(Xor(before, Low(data[i])), k)
      {
        crc := BitStep(crc);
      }
      assert data[i..][1..] == data[i + 1..];
    }
  }

  lemma {:induction false} UpdateConcat(c: Word, a: seq<byte>, b: seq<byte>)
    ensures Update(c, a + b) == Update(Update(c, a), b)
    decreases |a|
  {
    if a == [] {
      assert a + b == b;
    } else {
      assert (a + b)[1..] == a[1..] + b;
      UpdateConcat(ByteStep(c, a[0]), a[1..], b);
    }
  }

  // ---- nothing is lost -------------------------------------------------------

  lemma LowInjective(a: byte, b: byte)
    requires Low(a)[..8] == Low(b)[..8]
    ensures a == b
  {
    Pow2Values();
    ValueBits(a, 8);
    ValueBits(b, 8);
    assert Low(a)[..8] == Bits(a, 8) && Low(b)[..8] == Bits(b, 8);
  }

  lemma StepInjective(a: Word, b: Word)
    requires BitStep(a) == BitStep(b)
    ensures a == b
  {
    TopTerm();
    assert BitStep(a)[31] == a[0] && BitStep(b)[31] == b[0];
    forall i | 0 < i < 32
      ensures a[i] == b[i]
    {
      assert BitStep(a)[i - 1] == BitStep(b)[i - 1];
    }
  }

  lemma {:induction false} StepsInjective(a: Word, b: Word, n: nat)
    requires BitSteps(a, n) == BitSteps(b, n)
    ensures a == b
  {
    if n > 0 {
      StepInjective(BitSteps(a, n - 1), BitSteps(b, n - 1));
      StepsInjective(a, b, n - 1);
    }
  }

  /** Different registers stay different however many equal bytes follow. */
  lemma {:induction false} UpdateInjective(a: Word, b: Word, data: seq<byte>)
    requires Update(a, data) == Update(b, data)
    ensures a == b
    decreases |data|
  {
    if data != [] {
      UpdateInjective(ByteStep(a, data[0]), ByteStep(b, data[0]), data[1..]);
      var x, y := Xor(a, Low(data[0])), Xor(b, Low(data[0]));
      StepsInjective(x, y, 8);
      forall i | 0 <= i < 32
        ensures a[i] == b[i]
      {
        assert x[i] == y[i];
      }
    }
  }

  // ---- bursts ----------------------------------------------------------------

  lemma StepLinear(a: Word, b: Word)
    ensures BitStep(Xor(a, b)) == Xor(BitStep(a), BitStep(b))
  {
  }

  lemma {:induction false} StepsLinear(a: Word, b: Word, n: nat)
    ensures BitSteps(Xor(a, b), n) == Xor(BitSteps(a, n), BitSteps(b, n))
  {
    if n > 0 {
      StepsLinear(a, b, n - 1);
      StepLinear(BitSteps(a, n - 1), BitSteps(b, n - 1));
    }
  }

  /** Every bit from position k up is clear. */
  predicate ClearFrom(w: Word, k: nat) {
    forall i :: k <= i < 32 ==> !w[i]
  }

  /**
   If n steps end with the top bits clear, no step folded the polynomial in:
   the steps were plain shifts of a word whose low n bits were clear.
   */
  lemma {:induction false} PlainShifts(w: Word, n: nat, k: nat)
    requires n + k <= 32
    requires ClearFrom(BitSteps(w, n), k)
    ensures forall i :: 0 <= i < n ==> !w[i]
    ensures forall i :: 0 <= i && i + n < 32 ==> BitSteps(w, n)[i] == w[i + n]
  {
    if n > 0 {
      TopTerm();
      var y := BitSteps(w, n - 1);
      assert BitStep(y)[31] == y[0];
      assert forall i :: 0 < i < 32 ==> y[i] == BitStep(y)[i - 1];
      assert ClearFrom(y, k + 1);
      PlainShifts(w, n - 1, k + 1);
      assert y[0] == w[n - 1];
      forall i | 0 <= i && i + n < 32
        ensures BitStep(y)[i] == w[i + n]
      {
        assert BitStep(y)[i] == y[i + 1];
      }
    }
  }

  /** One byte step backwards, for registers that end up close together. */
  lemma StepBack(a: Word, b: Word, s: byte, t: byte, k: nat)
    requires k + 8 <= 32
    requires ClearFrom(Xor(ByteStep(a, s), ByteStep(b, t)), k)
    ensures ClearFrom(Xor(a, b), k + 8)
    ensures forall i :: 0 <= i < 8 ==> Xor(a, Low(s))[i] == Xor(b, Low(t))[i]
  {
    var x, y := Xor(a, Low(s)), Xor(b, Low(t));
    StepsLinear(x, y, 8);
    PlainShifts(Xor(x, y), 8, k);
    forall i | 0 <= i < 8
      ensures x[i] == y[i]
    {
      assert !Xor(x, y)[i];
    }
    forall i | k + 8 <= i < 32
      ensures !Xor(a, b)[i]
    {
      assert BitSteps(Xor(x, y), 8)[i - 8] == Xor(x, y)[i];
    }
  }

  /** Registers that m more bytes bring together differ only in their low 8m bits. */
  lemma {:induction false} MeetBack(a: Word, b: Word, s: seq<byte>, t: seq<byte>)
    requires |s| == |t| <= 4
    requires Update(a, s) == Update(b, t)
    ensures ClearFrom(Xor(a, b), 8 * |s|)
    decreases |s|
  {
    if s != [] {
      MeetBack(ByteStep(a, s[0]), ByteStep(b, t[0]), s[1..], t[1..]);
      StepBack(a, b, s[0], t[0], 8 * (|s| - 1));
    }
  }

  /** From one register, two bursts of at most four bytes meet only if they are equal. */
  lemma {:induction false} BurstInjective(c: Word, s: seq<byte>, t: seq<byte>)
    requires |s| == |t| <= 4
    requires Update(c, s) == Update(c, t)
    ensures s == t
    decreases |s|
  {
    if s != [] {
      MeetBack(ByteStep(c, s[0]), ByteStep(c, t[0]), s[1..], t[1..]);
      StepBack(c, c, s[0], t[0], 8 * (|s| - 1));
      forall i | 0 <= i < 8
        ensures Low(s[0])[i] == Low(t[0])[i]
      {
        assert Xor(c, Low(s[0]))[i] == Xor(c, Low(t[0]))[i];
      }
      LowInjective(s[0], t[0]);
      BurstInjective(ByteStep(c, s[0]), s[1..], t[1..]);
      assert s == [s[0]] + s[1..] && t == [t[0]] + t[1..];
    }
  }

  /** Replacing at most four consecutive bytes by different ones changes the checksum. */
  lemma ChecksumDetectsBurst(pre: seq<byte>, s: seq<byte>, t: seq<byte>, post: seq<byte>)
    requires |s| == |t| <= 4 && s != t
    ensures Checksum(pre + s + post) != Checksum(pre + t + post)
  {
    if Checksum(pre + s + post) == Checksum(pre + t + post) {
      var x, y := Update(ONES, pre + s + post), Update(ONES, pre + t + post);
      ValueInjective(Xor(x, ONES), Xor(y, ONES));
      forall i | 0 <= i < 32
        ensures x[i] == y[i]
      {
        assert Xor(x, ONES)[i] == Xor(y, ONES)[i];
      }
      UpdateConcat(ONES, pre + s, post);
      UpdateConcat(ONES, pre + t, post);
      UpdateInjective(Update(ONES, pre + s), Update(ONES, pre + t), post);
      UpdateConcat(ONES, pre, s);
      UpdateConcat(ONES, pre, t);
      BurstInjective(Update(ONES, pre), s, t);
    }
  }
}
