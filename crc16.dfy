/**
  MainWindow::crc16_ccitt: a bytewise, MSB-first CRC-16 with generator
  polynomial 0x1021 (x^16 + x^12 + x^5 + 1), initial register 0xFFFF, no
  reflection and no final XOR (the variant catalogued as CRC-16/CCITT-FALSE,
  also CRC-16/IBM-3740). The register is a `bv16`, so every shift truncates
  to 16 bits exactly as the assignment back to `quint16` does in the source.
*/
module Crc16 {

  type Byte = bv8

  const Poly: bv16 := 0x1021
  const Init: bv16 := 0xFFFF
  /** Passes of the inner loop per input byte. */
  const BitsPerByte: nat := 8

  /** One pass of the inner loop: shift left, folding in the polynomial when bit 15 was set. */
  function Round(crc: bv16): bv16
  {
    if crc & 0x8000 != 0 then (crc << 1) ^ Poly else crc << 1
  }

  /** `n` passes of the inner loop. */
  function Rounds(crc: bv16, n: nat): bv16
  {
    if n == 0 then crc else Round(Rounds(crc, n - 1))
  }

  /** The work done for one input byte: xor it into the high half, then eight rounds. */
  function Step(crc: bv16, b: Byte): bv16
  {
    Rounds(crc ^ ((b as bv16) << 8), BitsPerByte)
  }

  /** Left fold of `Step` over `data`, starting from register `crc`. */
  function Fold(crc: bv16, data: seq<Byte>): bv16
  {
    if |data| == 0 then crc else Step(Fold(crc, data[..|data| - 1]), data[|data| - 1])
  }

  /** The checksum of `data`. */
  function Crc(data: seq<Byte>): bv16
  {
    Fold(Init, data)
  }

  /** The nested loops of crc16_ccitt compute exactly the fold. */
  method Crc16Ccitt(data: seq<Byte>) returns (crc: bv16)
    ensures crc == Crc(data)
  {
    crc := 0xFFFF;
    for k := 0 to |data|
      invariant crc == Crc(data[..k])
    {
      var byte := data[k];
      crc := crc ^ ((byte as bv16) << 8);
      ghost var mixed := crc;
      for i := 0 to BitsPerByte
        invariant crc == Rounds(mixed, i)
      {
        RoundCases(crc);
        if crc & 0x8000 != 0 {
          crc := (crc << 1) ^ 0x1021;
        } else {
          crc := crc << 1;
        }
      }
      CrcPrefixStep(data, k);
    }
    assert data[..|data|] == data;
  }

  /** The two branches of the inner loop body, one per value of bit 15. */
  lemma RoundCases(crc: bv16)
    ensures crc & 0x8000 != 0 ==> Round(crc) == (crc << 1) ^ 0x1021
    ensures crc & 0x8000 == 0 ==> Round(crc) == crc << 1
  {
  }

  /** The eight rounds of one byte, written out. */
  lemma StepUnrolled(crc: bv16, b: Byte)
    ensures var x := crc ^ ((b as bv16) << 8);
            Step(crc, b) == Round(Round(Round(Round(Round(Round(Round(Round(x))))))))
  {
    var x := crc ^ ((b as bv16) << 8);
    assert Rounds(x, 1) == Round(x);
    assert Rounds(x, 2) == Round(Round(x));
    assert Rounds(x, 3) == Round(Rounds(x, 2));
    assert Rounds(x, 4) == Round(Rounds(x, 3));
    assert Rounds(x, 5) == Round(Rounds(x, 4));
    assert Rounds(x, 6) == Round(Rounds(x, 5));
    assert Rounds(x, 7) == Round(Rounds(x, 6));
  }

  lemma CrcPrefixStep(data: seq<Byte>, k: nat)
    requires k < |data|
    ensures Crc(data[..k + 1]) == Step(Crc(data[..k]), data[k])
  {
    assert data[..k + 1][..k] == data[..k];
  }

  // ---------------------------------------------------------------------------
  // Reference values

  /** The empty input leaves the initial register untouched. */
  lemma CrcOfEmpty()
    ensures Crc([]) == 0xFFFF
  {
  }

  /** A single zero byte. */
  lemma CrcOfZeroByte()
    ensures Crc([0x00]) == 0xE1F0
  {
  }

  /** The catalogue check value of CRC-16/CCITT-FALSE: the ASCII digits "123456789". */
  lemma CrcCheckValue()
    ensures Crc([0x31, 0x32, 0x33, 0x34, 0x35, 0x36, 0x37, 0x38, 0x39]) == 0x29B1
  {
    var digits: seq<Byte> := [0x31, 0x32, 0x33, 0x34, 0x35, 0x36, 0x37, 0x38, 0x39];
    StepUnrolled(Crc(digits[..0]), digits[0]);
    CrcPrefixStep(digits, 0);
    assert Crc(digits[..1]) == 0xC782;
    StepUnrolled(Crc(digits[..1]), digits[1]);
    CrcPrefixStep(digits, 1);
    assert Crc(digits[..2]) == 0x3DBA;
    StepUnrolled(Crc(digits[..2]), digits[2]);
    CrcPrefixStep(digits, 2);
    assert Crc(digits[..3]) == 0x5BCE;
    StepUnrolled(Crc(digits[..3]), digits[3]);
    CrcPrefixStep(digits, 3);
    assert Crc(digits[..4]) == 0x5349;
    StepUnrolled(Crc(digits[..4]), digits[4]);
    CrcPrefixStep(digits, 4);
    assert Crc(digits[..5]) == 0x4560;
    StepUnrolled(Crc(digits[..5]), digits[5]);
    CrcPrefixStep(digits, 5);
    assert Crc(digits[..6]) == 0x2EF4;
    StepUnrolled(Crc(digits[..6]), digits[6]);
    CrcPrefixStep(digits, 6);
    assert Crc(digits[..7]) == 0x7718;
    StepUnrolled(Crc(digits[..7]), digits[7]);
    CrcPrefixStep(digits, 7);
    assert Crc(digits[..8]) == 0xA12B;
    StepUnrolled(Crc(digits[..8]), digits[8]);
    CrcPrefixStep(digits, 8);
    assert Crc(digits[..9]) == 0x29B1;
    assert digits[..|digits|] == digits;
  }

  // ---------------------------------------------------------------------------
  // Streaming

  /** Appending one byte advances the register by one step. */
  lemma CrcAppend(s: seq<Byte>, b: Byte)
    ensures Crc(s + [b]) == Step(Crc(s), b)
  {
    assert (s + [b])[..|s|] == s;
  }

  /** The checksum can be computed in pieces: the register after `s` is the start for `t`. */
  lemma {:induction false} FoldConcat(crc: bv16, s: seq<Byte>, t: seq<Byte>)
    ensures Fold(crc, s + t) == Fold(Fold(crc, s), t)
    decreases |t|
  {
    if |t| == 0 {
      assert s + t == s;
    } else {
      var t' := t[..|t| - 1];
      assert (s + t)[..|s + t| - 1] == s + t';
      FoldConcat(crc, s, t');
    }
  }

  // ---------------------------------------------------------------------------
  // Detection of single-byte errors

  /** The branch-free form of a round: the feedback is the polynomial masked by bit 15. */
  lemma RoundShiftXor(crc: bv16)
    ensures Round(crc) == (crc << 1) ^ (Poly & (0 - (crc >> 15)))
  {
    RoundCases(crc);
    if crc & 0x8000 != 0 {
      assert 0 - (crc >> 15) == 0xFFFF;
    } else {
      assert crc >> 15 == 0;
    }
  }

  /** Bit 15 reappears as bit 0 of the result, so a round loses no information. */
  lemma RoundInjective(a: bv16, b: bv16)
    requires Round(a) == Round(b)
    ensures a == b
  {
    RoundShiftXor(a);
    RoundShiftXor(b);
  }

  lemma {:induction false} RoundsInjective(a: bv16, b: bv16, n: nat)
    requires Rounds(a, n) == Rounds(b, n)
    ensures a == b
  {
    if n > 0 {
      RoundInjective(Rounds(a, n - 1), Rounds(b, n - 1));
      RoundsInjective(a, b, n - 1);
    }
  }

  /** Different registers stay different after the same byte. */
  lemma StepInjectiveInRegister(c1: bv16, c2: bv16, b: Byte)
    requires Step(c1, b) == Step(c2, b)
    ensures c1 == c2
  {
    RoundsInjective(c1 ^ ((b as bv16) << 8), c2 ^ ((b as bv16) << 8), BitsPerByte);
  }

  /** Different bytes give different registers from the same start. */
  lemma StepInjectiveInByte(c: bv16, b1: Byte, b2: Byte)
    requires Step(c, b1) == Step(c, b2)
    ensures b1 == b2
  {
    RoundsInjective(c ^ ((b1 as bv16) << 8), c ^ ((b2 as bv16) << 8), BitsPerByte);
  }

  /**
    Folding two inputs that differ only at position `k`: the registers agree
    on every prefix that stops before `k` and disagree on every longer one.
  */
  lemma {:induction false} FoldSingleByteError(crc: bv16, s: seq<Byte>, t: seq<Byte>, k: nat, n: nat)
    requires |s| == |t| && k < |s| && n <= |s|
    requires s[k] != t[k]
    requires forall i :: 0 <= i < |s| && i != k ==> s[i] == t[i]
    ensures n <= k ==> Fold(crc, s[..n]) == Fold(crc, t[..n])
    ensures n > k ==> Fold(crc, s[..n]) != Fold(crc, t[..n])
  {
    if n > 0 {
      FoldSingleByteError(crc, s, t, k, n - 1);
      assert s[..n][..n - 1] == s[..n - 1];
      assert t[..n][..n - 1] == t[..n - 1];
      if n - 1 == k {
        if Fold(crc, s[..n]) == Fold(crc, t[..n]) {
          StepInjectiveInByte(Fold(crc, s[..k]), s[k], t[k]);
        }
      } else if n - 1 > k {
        if Fold(crc, s[..n]) == Fold(crc, t[..n]) {
          StepInjectiveInRegister(Fold(crc, s[..n - 1]), Fold(crc, t[..n - 1]), s[n - 1]);
        }
      }
    }
  }

  /**
    Two inputs of the same length that differ in exactly one byte (so in
    particular in exactly one bit) never have the same checksum.
  */
  lemma SingleByteErrorDetected(s: seq<Byte>, t: seq<Byte>, k: nat)
    requires |s| == |t| && k < |s|
    requires s[k] != t[k]
    requires forall i :: 0 <= i < |s| && i != k ==> s[i] == t[i]
    ensures Crc(s) != Crc(t)
  {
    FoldSingleByteError(Init, s, t, k, |s|);
    assert s[..|s|] == s;
    assert t[..|t|] == t;
  }
}
