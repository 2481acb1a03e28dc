/** The reflected CRC-32 of section 8 of RFC 1952, one bit at a time. */
module Crc {

  const POLYNOMIAL: bv32 := 0xEDB88320

  function Xor(a: bv32, b: bv32): bv32 {
    a ^ b
  }

  function Not(a: bv32): bv32 {
    !a
  }

  function Mask(c: bv32): bv32 {
    POLYNOMIAL & (0 - (c & 1))
  }

  /** One bit: shift right, and subtract the polynomial when a one falls out. */
  function Step(c: bv32): bv32 {
    (c >> 1) ^ Mask(c)
  }

  function Steps(c: bv32, n: nat): bv32
    decreases n
  {
    if n == 0 then c else Steps(Step(c), n - 1)
  }

  function Feed(c: bv32, b: bv8): bv32 {
    Steps(Xor(c, b as bv32), 8)
  }

  /** The register after the bytes of `data`. */
  function Run(c: bv32, data: seq<bv8>): bv32 {
    if data == [] then c else Feed(Run(c, data[..|data|-1]), data[|data|-1])
  }

  function Crc32(crc: bv32, data: seq<bv8>): bv32 {
    Not(Run(Not(crc), data))
  }

  lemma {:induction false} StepsLast(c: bv32, n: nat)
    ensures Steps(c, n + 1) == Step(Steps(c, n))
    decreases n
  {
    hide Step;
    if n > 0 {
      StepsLast(Step(c), n - 1);
    }
  }

  /** The loop over a buffer; no buffer gives 0. */
  method ComputeCrc32(crc: bv32, data: array?<bv8>, len: nat) returns (r: bv32)
    requires data != null ==> len <= data.Length
    ensures r == if data == null then 0 else Crc32(crc, data[..len])
  {
    hide Step, Xor, Not;
    if data == null {
      return 0;
    }
    var c := Not(crc);
    for i := 0 to len
      invariant c == Run(Not(crc), data[..i])
    {
      c := Xor(c, data[i] as bv32);
      ghost var start := c;
      for j := 0 to 8
        invariant c == Steps(start, j)
      {
        StepsLast(start, j);
        c := Step(c);
      }
      assert data[..i + 1][..i] == data[..i];
    }
    r := Not(c);
  }

  lemma {:induction false} RunConcat(c: bv32, a: seq<bv8>, b: seq<bv8>)
    ensures Run(c, a + b) == Run(Run(c, a), b)
    decreases |b|
  {
    hide Feed;
    if b == [] {
      assert a + b == a;
    } else {
      assert (a + b)[..|a + b| - 1] == a + b[..|b|-1];
      RunConcat(c, a, b[..|b|-1]);
    }
  }

  lemma NotNot(c: bv32)
    ensures Not(Not(c)) == c
  {
  }

  /** Feeding a message in pieces gives the CRC of the whole. */
  lemma Chaining(crc: bv32, a: seq<bv8>, b: seq<bv8>)
    ensures Crc32(Crc32(crc, a), b) == Crc32(crc, a + b)
  {
    hide Not, Run;
    RunConcat(Not(crc), a, b);
    NotNot(Run(Not(crc), a));
  }

  lemma StepInjective(a: bv32, b: bv32)
    requires Step(a) == Step(b)
    ensures a == b
  {
  }

  lemma {:induction false} StepsInjective(a: bv32, b: bv32, n: nat)
    requires Steps(a, n) == Steps(b, n)
    ensures a == b
    decreases n
  {
    hide Step;
    if n > 0 {
      StepsInjective(Step(a), Step(b), n - 1);
      StepInjective(a, b);
    }
  }

  lemma XorInjective(a: bv32, b: bv32, x: bv32)
    requires Xor(a, x) == Xor(b, x)
    ensures a == b
  {
  }

  lemma FeedInjective(c: bv32, d: bv32, b: bv8)
    requires Feed(c, b) == Feed(d, b)
    ensures c == d
  {
    hide Xor, Steps;
    StepsInjective(Xor(c, b as bv32), Xor(d, b as bv32), 8);
    XorInjective(c, d, b as bv32);
  }

  /** Two different registers stay different whatever is fed to both. */
  lemma {:induction false} RunInjective(c: bv32, d: bv32, data: seq<bv8>)
    requires Run(c, data) == Run(d, data)
    ensures c == d
    decreases |data|
  {
    hide Feed;
    if data != [] {
      var n := |data| - 1;
      FeedInjective(Run(c, data[..n]), Run(d, data[..n]), data[n]);
      RunInjective(c, d, data[..n]);
    }
  }

  lemma ShiftLinear(a: bv32, b: bv32)
    ensures (a ^ b) >> 1 == (a >> 1) ^ (b >> 1)
  {
  }

  lemma XorSwap(a: bv32, b: bv32, c: bv32, d: bv32)
    ensures (a ^ b) ^ (c ^ d) == (a ^ c) ^ (b ^ d)
  {
  }

  lemma MaskLinear(a: bv32, b: bv32)
    ensures Mask(a ^ b) == Mask(a) ^ Mask(b)
  {
  }

  lemma StepLinear(a: bv32, b: bv32)
    ensures Step(Xor(a, b)) == Xor(Step(a), Step(b))
  {
    hide Mask;
    MaskLinear(a, b);
    ShiftLinear(a, b);
    XorSwap(a >> 1, b >> 1, Mask(a), Mask(b));
  }

  lemma {:induction false} StepsLinear(a: bv32, b: bv32, n: nat)
    ensures Steps(Xor(a, b), n) == Xor(Steps(a, n), Steps(b, n))
    decreases n
  {
    hide Step, Xor;
    if n > 0 {
      StepLinear(a, b);
      StepsLinear(Step(a), Step(b), n - 1);
    }
  }

  lemma {:induction false} StepsSplit(c: bv32, m: nat, n: nat)
    ensures Steps(c, m + n) == Steps(Steps(c, m), n)
    decreases m
  {
    hide Step;
    if m > 0 {
      StepsSplit(Step(c), m - 1, n);
    }
  }

  /** Eight steps merely shift a value whose low byte is zero. */
  lemma ShiftOut(x: bv32)
    requires x <= 0xFF_FFFF
    ensures Steps(x << 8, 8) == x
  {
  }

  /** Four bytes as one little-endian word. */
  function Word(a: seq<bv8>): bv32
    requires |a| == 4
  {
    Pack(a[0], Pack(a[1], Pack(a[2], Pack(a[3], 0))))
  }

  /** A byte with further bytes waiting above it. */
  function Pack(b: bv8, above: bv32): bv32 {
    (b as bv32) ^ (above << 8)
  }

  lemma PackBounds(b: bv8, above: bv32)
    ensures above == 0 ==> Pack(b, above) <= 0xFF
    ensures above <= 0xFF ==> Pack(b, above) <= 0xFFFF
    ensures above <= 0xFFFF ==> Pack(b, above) <= 0xFF_FFFF
  {
  }

  lemma XorAssoc(c: bv32, b: bv8, above: bv32)
    ensures Xor(c, Pack(b, above)) == Xor(Xor(c, b as bv32), above << 8)
  {
  }

  /** Feeding a byte moves the bytes waiting above it down. */
  lemma FeedPacked(c: bv32, b: bv8, above: bv32)
    requires above <= 0xFF_FFFF
    ensures Steps(Xor(c, Pack(b, above)), 8) == Xor(Feed(c, b), above)
  {
    hide Step, Steps, Xor, Pack;
    XorAssoc(c, b, above);
    StepsLinear(Xor(c, b as bv32), above << 8, 8);
    ShiftOut(above);
  }

  /** Feeding four bytes is feeding their word, thirty-two steps at once. */
  lemma FeedWord(c: bv32, a: seq<bv8>)
    requires |a| == 4
    ensures Run(c, a) == Steps(Xor(c, Word(a)), 32)
  {
    hide Step, Steps, Xor, Pack, Feed;
    PackBounds(a[3], 0);
    PackBounds(a[2], Pack(a[3], 0));
    PackBounds(a[1], Pack(a[2], Pack(a[3], 0)));
    var w3 := Pack(a[3], 0);
    var w2 := Pack(a[2], w3);
    var w1 := Pack(a[1], w2);
    FeedPacked(c, a[0], w1);
    FeedPacked(Feed(c, a[0]), a[1], w2);
    FeedPacked(Feed(Feed(c, a[0]), a[1]), a[2], w3);
    FeedPacked(Feed(Feed(Feed(c, a[0]), a[1]), a[2]), a[3], 0);
    StepsSplit(Xor(c, Word(a)), 8, 24);
    StepsSplit(Xor(Feed(c, a[0]), w1), 8, 16);
    StepsSplit(Xor(Feed(Feed(c, a[0]), a[1]), w2), 8, 8);
    XorZero(Feed(Feed(Feed(Feed(c, a[0]), a[1]), a[2]), a[3]));
    RunFour(c, a);
  }

  lemma XorZero(c: bv32)
    ensures Xor(c, 0) == c
  {
  }

  lemma RunFour(c: bv32, a: seq<bv8>)
    requires |a| == 4
    ensures Run(c, a) == Feed(Feed(Feed(Feed(c, a[0]), a[1]), a[2]), a[3])
  {
    hide Feed;
    assert a[..3][..2] == a[..2] && a[..2][..1] == a[..1] && a[..1][..0] == [];
    assert Run(c, a[..1]) == Feed(c, a[0]);
    assert Run(c, a[..2]) == Feed(Run(c, a[..1]), a[1]);
    assert Run(c, a[..3]) == Feed(Run(c, a[..2]), a[2]);
  }

  function Low(w: bv32): bv8 {
    (w & 0xFF) as bv8
  }

  function High(w: bv32): bv32 {
    w >> 8
  }

  /** The `n` low bytes of a word, lowest first. */
  function LowBytes(w: bv32, n: nat): (a: seq<bv8>)
    ensures |a| == n
  {
    if n == 0 then [] else [Low(w)] + LowBytes(High(w), n - 1)
  }

  lemma FourBytes(w: bv32)
    ensures Pack(Low(w), Pack(Low(High(w)), Pack(Low(High(High(w))), Pack(Low(High(High(High(w)))), 0)))) == w
  {
  }

  lemma WordOfBytes(w: bv32)
    ensures Word(LowBytes(w, 4)) == w
  {
    hide Low, High, Pack;
    FourBytes(w);
    var b := High(w);
    var c := High(b);
    assert LowBytes(c, 2) == [Low(c), Low(High(c))];
    assert LowBytes(b, 3) == [Low(b), Low(c), Low(High(c))];
    assert LowBytes(w, 4) == [Low(w), Low(b), Low(c), Low(High(c))];
  }

  /** A low byte with a word above it. */
  function Joined(low: bv8, high: bv32): bv32 {
    (low as bv32) | (high << 8)
  }

  function Number(w: bv32): (x: nat) {
    w as int
  }

  lemma JoinedNumber(low: bv8, high: bv32)
    requires high <= 0xFF_FFFF
    ensures Number(Joined(low, high)) == low as int + 256 * Number(high)
  {
  }

  lemma JoinedParts(w: bv32)
    ensures High(w) <= 0xFF_FFFF && w == Joined(Low(w), High(w))
  {
  }

  /** The low byte is the remainder by 256, and the rest the quotient. */
  lemma LowByte(w: bv32)
    ensures Low(w) as int == Number(w) % 256 && Number(High(w)) == Number(w) / 256
  {
    hide Low, High, Joined, Number;
    JoinedParts(w);
    JoinedNumber(Low(w), High(w));
  }

  /** Thirty-two steps of a register of all ones. */
  lemma StepsOfOnes()
    ensures Steps(0xFFFF_FFFF, 32) == 0xDEBB_20E3
  {
    assert Steps(0xFFFF_FFFF, 8) == 0x2DFD_1072;
    assert Steps(0x2DFD_1072, 8) == 0xBE26_ED00;
    assert Steps(0xBE26_ED00, 8) == 0x00BE_26ED;
    assert Steps(0x00BE_26ED, 8) == 0xDEBB_20E3;
    StepsSplit(0xFFFF_FFFF, 8, 24);
    StepsSplit(0x2DFD_1072, 8, 16);
    StepsSplit(0xBE26_ED00, 8, 8);
  }

  lemma AllOnes(c: bv32)
    ensures Xor(c, Not(c)) == 0xFFFF_FFFF
  {
  }

  /** The residue law: a message followed by its own CRC, lowest byte first, always has the same CRC. */
  lemma Residue(m: seq<bv8>)
    ensures Crc32(0, m + LowBytes(Crc32(0, m), 4)) == 0x2144_DF1C
  {
    hide Run, Steps, Xor, Word, LowBytes;
    var c := Run(Not(0), m);
    RunConcat(Not(0), m, LowBytes(Not(c), 4));
    FeedWord(c, LowBytes(Not(c), 4));
    WordOfBytes(Not(c));
    AllOnes(c);
    StepsOfOnes();
  }

  lemma WordInjective(a: seq<bv8>, b: seq<bv8>)
    requires |a| == 4 && |b| == 4 && Word(a) == Word(b)
    ensures a == b
  {
  }

  /** From any register, different bursts of up to four bytes lead to different registers. */
  lemma {:induction false} BurstInjective(c: bv32, a: seq<bv8>, b: seq<bv8>)
    requires |a| == |b| <= 4 && Run(c, a) == Run(c, b)
    ensures a == b
    decreases 4 - |a|
  {
    hide Run, Steps, Xor, Word;
    if |a| == 4 {
      FeedWord(c, a);
      FeedWord(c, b);
      StepsInjective(Xor(c, Word(a)), Xor(c, Word(b)), 32);
      XorCommutes(c, Word(a));
      XorCommutes(c, Word(b));
      XorInjective(Word(a), Word(b), c);
      WordInjective(a, b);
    } else {
      RunConcat(c, a, [0]);
      RunConcat(c, b, [0]);
      BurstInjective(c, a + [0], b + [0]);
      assert (a + [0])[..|a|] == a && (b + [0])[..|b|] == b;
    }
  }

  lemma XorCommutes(a: bv32, b: bv32)
    ensures Xor(a, b) == Xor(b, a)
  {
  }

  /** Messages that differ only within four consecutive bytes never share a CRC. */
  lemma BurstDetected(crc: bv32, before: seq<bv8>, a: seq<bv8>, b: seq<bv8>, after: seq<bv8>)
    requires |a| == |b| <= 4 && a != b
    ensures Crc32(crc, before + a + after) != Crc32(crc, before + b + after)
  {
    hide Run, Not;
    var c := Run(Not(crc), before);
    RunConcat(Not(crc), before + a, after);
    RunConcat(Not(crc), before, a);
    RunConcat(Not(crc), before + b, after);
    RunConcat(Not(crc), before, b);
    if Run(Not(crc), before + a + after) == Run(Not(crc), before + b + after) {
      RunInjective(Run(c, a), Run(c, b), after);
      BurstInjective(c, a, b);
    }
    NotInjective(Run(Not(crc), before + a + after), Run(Not(crc), before + b + after));
  }

  lemma NotInjective(a: bv32, b: bv32)
    ensures Not(a) == Not(b) ==> a == b
  {
  }
}
