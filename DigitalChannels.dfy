/**
 * The digital-channel bitmask of the Weiss Technik 260SB driver: the eight
 * `DigitalState` flags and `setDigitalState`'s OR / AND-with-(0xFF - flag)
 * updates. Python integers are unbounded, so `|` and `&` are defined here
 * on `nat`, bit by bit, rather than on a fixed-width bit-vector.
 */
module DigitalChannels {

  /** Bit `i` (weight 2^i) of `n`. */
  function Bit(n: nat, i: nat): bool
    decreases i
  {
    if i == 0 then n % 2 == 1 else Bit(n / 2, i - 1)
  }

  function Pow2(k: nat): (r: nat)
    ensures r >= 1
  {
    if k == 0 then 1 else 2 * Pow2(k - 1)
  }

  lemma Pow2UpToByte()
    ensures Pow2(0) == 1 && Pow2(1) == 2 && Pow2(2) == 4 && Pow2(3) == 8
    ensures Pow2(4) == 0x10 && Pow2(5) == 0x20 && Pow2(6) == 0x40 && Pow2(7) == 0x80
    ensures Pow2(8) == 0x100
  {
    assert Pow2(1) == 2;
    assert Pow2(2) == 4;
    assert Pow2(3) == 8;
    assert Pow2(4) == 0x10;
    assert Pow2(5) == 0x20;
    assert Pow2(6) == 0x40;
    assert Pow2(7) == 0x80;
  }

  /** Python's `a | b` on non-negative integers: never below either operand, never above their sum. */
  function Or(a: nat, b: nat): (r: nat)
    ensures a <= r && b <= r && r <= a + b
    decreases a + b
  {
    if a == 0 && b == 0 then 0
    else 2 * Or(a / 2, b / 2) + (if a % 2 == 1 || b % 2 == 1 then 1 else 0)
  }

  /** Python's `a & b` on non-negative integers. */
  function And(a: nat, b: nat): (r: nat)
    ensures r <= a && r <= b
    decreases a + b
  {
    if a == 0 || b == 0 then 0
    else 2 * And(a / 2, b / 2) + (if a % 2 == 1 && b % 2 == 1 then 1 else 0)
  }

  /** The eight channel flags, from the most significant bit down. */
  datatype DigitalState =
    | ChamberEnable
    | DirectInput
    | DewProtection
    | DewpointExp
    | Channel1
    | Channel2
    | Channel3
    | Channel4

  const AllChannels: seq<DigitalState> :=
    [ChamberEnable, DirectInput, DewProtection, DewpointExp, Channel1, Channel2, Channel3, Channel4]

  /** Which bit of the mask a flag occupies. */
  function Position(c: DigitalState): (p: nat)
    ensures p < 8
  {
    match c
    case ChamberEnable => 7
    case DirectInput => 6
    case DewProtection => 5
    case DewpointExp => 4
    case Channel1 => 3
    case Channel2 => 2
    case Channel3 => 1
    case Channel4 => 0
  }

  /** The numeric value of a flag: exactly the bit at its position. */
  function Value(c: DigitalState): (v: nat)
    ensures v == Pow2(Position(c))
  {
    Pow2UpToByte();
    match c
    case ChamberEnable => 0x80
    case DirectInput => 0x40
    case DewProtection => 0x20
    case DewpointExp => 0x10
    case Channel1 => 0x08
    case Channel2 => 0x04
    case Channel3 => 0x02
    case Channel4 => 0x01
  }

  /** `setDigitalState(channel, True)`: `digital_state | channel`. */
  function SetFlag(mask: nat, c: DigitalState): (r: nat)
    ensures mask <= r <= mask + Value(c)
  {
    Or(mask, Value(c))
  }

  /** `setDigitalState(channel, False)`: `digital_state & (0xFF - channel)`. */
  function ClearFlag(mask: nat, c: DigitalState): (r: nat)
    ensures r <= mask && r <= 0xFF - Value(c)
  {
    And(mask, 0xFF - Value(c))
  }

  // ---------------------------------------------------------------------------
  // Bit-level facts about Or, And and the flag values

  lemma {:induction false} BitOfZero(i: nat)
    ensures !Bit(0, i)
  {
    if i > 0 {
      BitOfZero(i - 1);
    }
  }

  lemma {:induction false} BitOfOr(a: nat, b: nat, i: nat)
    ensures Bit(Or(a, b), i) == (Bit(a, i) || Bit(b, i))
    decreases i
  {
    if a == 0 && b == 0 {
      BitOfZero(i);
    } else if i > 0 {
      BitOfOr(a / 2, b / 2, i - 1);
    }
  }

  lemma {:induction false} BitOfAnd(a: nat, b: nat, i: nat)
    ensures Bit(And(a, b), i) == (Bit(a, i) && Bit(b, i))
    decreases i
  {
    if a == 0 || b == 0 {
      BitOfZero(i);
    } else if i > 0 {
      BitOfAnd(a / 2, b / 2, i - 1);
    }
  }

  /** Two numbers with the same bits are equal. */
  lemma {:induction false} BitsDetermine(a: nat, b: nat)
    requires forall i: nat :: Bit(a, i) == Bit(b, i)
    ensures a == b
    decreases a + b
  {
    assert Bit(a, 0) == Bit(b, 0);
    if a != 0 || b != 0 {
      forall i: nat
        ensures Bit(a / 2, i) == Bit(b / 2, i)
      {
        assert Bit(a, i + 1) == Bit(b, i + 1);
      }
      BitsDetermine(a / 2, b / 2);
    }
  }

  lemma {:induction false} BitOfPow2(k: nat, i: nat)
    ensures Bit(Pow2(k), i) == (i == k)
    decreases k
  {
    if k == 0 {
      if i > 0 {
        BitOfZero(i - 1);
      }
    } else if i > 0 {
      BitOfPow2(k - 1, i - 1);
    }
  }

  lemma {:induction false} AndAtMostRight(a: nat, b: nat)
    ensures And(a, b) <= b
    decreases a + b
  {
    if a != 0 && b != 0 {
      AndAtMostRight(a / 2, b / 2);
    }
  }

  lemma {:induction false} OrBelowPow2(a: nat, b: nat, w: nat)
    requires a < Pow2(w) && b < Pow2(w)
    ensures Or(a, b) < Pow2(w)
    decreases w
  {
    if w > 0 && (a != 0 || b != 0) {
      OrBelowPow2(a / 2, b / 2, w - 1);
    }
  }

  /** Within `w` bits, `2^w - 1 - n` is the bitwise complement of `n`. */
  lemma {:induction false} SubtractionComplements(w: nat, n: nat, i: nat)
    requires n < Pow2(w)
    ensures Bit(Pow2(w) - 1 - n, i) == (i < w && !Bit(n, i))
    decreases w
  {
    if w == 0 {
      BitOfZero(i);
    } else {
      var c := Pow2(w) - 1 - n;
      var half := Pow2(w - 1);
      assert Pow2(w) == 2 * half;
      assert n == 2 * (n / 2) + n % 2;
      assert c == 2 * (half - 1 - n / 2) + (1 - n % 2);
      assert c % 2 == 1 - n % 2 && c / 2 == half - 1 - n / 2;
      if i > 0 {
        SubtractionComplements(w - 1, n / 2, i - 1);
      }
    }
  }

  // ---------------------------------------------------------------------------
  // Properties of the DigitalState flags and of setDigitalState

  lemma BitOfFlag(c: DigitalState, i: nat)
    ensures Bit(Value(c), i) == (i == Position(c))
  {
    BitOfPow2(Position(c), i);
  }

  /** Distinct flags never share a bit. */
  lemma FlagsDisjoint(c: DigitalState, d: DigitalState)
    requires c != d
    ensures And(Value(c), Value(d)) == 0
  {
    forall i: nat
      ensures Bit(And(Value(c), Value(d)), i) == Bit(0, i)
    {
      BitOfAnd(Value(c), Value(d), i);
      BitOfFlag(c, i);
      BitOfFlag(d, i);
      BitOfZero(i);
    }
    BitsDetermine(And(Value(c), Value(d)), 0);
  }

  /** The OR of a list of flags. */
  function Union(cs: seq<DigitalState>): nat
  {
    if cs == [] then 0 else Or(Value(cs[0]), Union(cs[1..]))
  }

  lemma {:induction false} BitOfUnion(cs: seq<DigitalState>, i: nat)
    ensures Bit(Union(cs), i) <==> exists k :: 0 <= k < |cs| && Position(cs[k]) == i
  {
    if cs == [] {
      BitOfZero(i);
    } else {
      BitOfOr(Value(cs[0]), Union(cs[1..]), i);
      BitOfFlag(cs[0], i);
      BitOfUnion(cs[1..], i);
      if exists k :: 0 <= k < |cs[1..]| && Position(cs[1..][k]) == i {
        var k :| 0 <= k < |cs[1..]| && Position(cs[1..][k]) == i;
        assert Position(cs[k + 1]) == i;
      }
      if exists k :: 0 <= k < |cs| && Position(cs[k]) == i {
        var k :| 0 <= k < |cs| && Position(cs[k]) == i;
        if k > 0 {
          assert Position(cs[1..][k - 1]) == i;
        }
      }
    }
  }

  /** The eight flags together cover exactly the byte 0xFF. */
  lemma FlagsCoverByte()
    ensures Union(AllChannels) == 0xFF
  {
    var cs := AllChannels;
    forall i: nat
      ensures Bit(Union(cs), i) == Bit(0xFF, i)
    {
      ByteBits(i);
      BitOfUnion(cs, i);
      if i < 8 {
        assert Position(cs[7 - i]) == i;
      }
    }
    BitsDetermine(Union(cs), 0xFF);
  }

  lemma ByteBits(i: nat)
    ensures Bit(0xFF, i) == (i < 8)
  {
    Pow2UpToByte();
    SubtractionComplements(8, 0, i);
    BitOfZero(i);
  }

  /** `0xFF - channel` is the 8-bit complement of the flag. */
  lemma ComplementOfFlag(c: DigitalState, i: nat)
    ensures Bit(0xFF - Value(c), i) == (i < 8 && i != Position(c))
  {
    Pow2UpToByte();
    SubtractionComplements(8, Value(c), i);
    BitOfFlag(c, i);
  }

  /** Setting a channel turns its bit on and leaves every other bit as it was. */
  lemma SetFlagBits(mask: nat, c: DigitalState, i: nat)
    ensures Bit(SetFlag(mask, c), i) == (i == Position(c) || Bit(mask, i))
  {
    BitOfOr(mask, Value(c), i);
    BitOfFlag(c, i);
  }

  /**
   * Clearing a channel turns its bit off and keeps the other seven bits of
   * the byte; any bit above the byte is dropped as well.
   */
  lemma ClearFlagBits(mask: nat, c: DigitalState, i: nat)
    ensures Bit(ClearFlag(mask, c), i) == (i < 8 && i != Position(c) && Bit(mask, i))
  {
    BitOfAnd(mask, 0xFF - Value(c), i);
    ComplementOfFlag(c, i);
  }

  /** A mask that fits a byte still fits after a set; a clear always fits. */
  lemma FlagsKeepByteRange(mask: nat, c: DigitalState)
    ensures mask <= 0xFF ==> SetFlag(mask, c) <= 0xFF
    ensures ClearFlag(mask, c) <= 0xFF
  {
    Pow2UpToByte();
    if mask <= 0xFF {
      OrBelowPow2(mask, Value(c), 8);
    }
    AndAtMostRight(mask, 0xFF - Value(c));
  }

  lemma SetFlagIdempotent(mask: nat, c: DigitalState)
    ensures SetFlag(SetFlag(mask, c), c) == SetFlag(mask, c)
  {
    forall i: nat
      ensures Bit(SetFlag(SetFlag(mask, c), c), i) == Bit(SetFlag(mask, c), i)
    {
      SetFlagBits(SetFlag(mask, c), c, i);
      SetFlagBits(mask, c, i);
    }
    BitsDetermine(SetFlag(SetFlag(mask, c), c), SetFlag(mask, c));
  }

  lemma ClearFlagIdempotent(mask: nat, c: DigitalState)
    ensures ClearFlag(ClearFlag(mask, c), c) == ClearFlag(mask, c)
  {
    forall i: nat
      ensures Bit(ClearFlag(ClearFlag(mask, c), c), i) == Bit(ClearFlag(mask, c), i)
    {
      ClearFlagBits(ClearFlag(mask, c), c, i);
      ClearFlagBits(mask, c, i);
    }
    BitsDetermine(ClearFlag(ClearFlag(mask, c), c), ClearFlag(mask, c));
  }

  /** Clearing after setting gives what clearing alone gives. */
  lemma ClearAfterSet(mask: nat, c: DigitalState)
    ensures ClearFlag(SetFlag(mask, c), c) == ClearFlag(mask, c)
  {
    forall i: nat
      ensures Bit(ClearFlag(SetFlag(mask, c), c), i) == Bit(ClearFlag(mask, c), i)
    {
      ClearFlagBits(SetFlag(mask, c), c, i);
      SetFlagBits(mask, c, i);
      ClearFlagBits(mask, c, i);
    }
    BitsDetermine(ClearFlag(SetFlag(mask, c), c), ClearFlag(mask, c));
  }

  /**
   * Set-then-clear restores the mask exactly when the mask is a byte whose
   * bit for that channel was clear to begin with.
   */
  lemma SetThenClearRestores(mask: nat, c: DigitalState)
    ensures ClearFlag(SetFlag(mask, c), c) == mask <==> mask <= 0xFF && !Bit(mask, Position(c))
  {
    ClearAfterSet(mask, c);
    FlagsKeepByteRange(mask, c);
    ClearFlagBits(mask, c, Position(c));
    if mask <= 0xFF && !Bit(mask, Position(c)) {
      forall i: nat
        ensures Bit(ClearFlag(mask, c), i) == Bit(mask, i)
      {
        ClearFlagBits(mask, c, i);
        if i >= 8 {
          HighBitsOfByte(mask, i);
        }
      }
      BitsDetermine(ClearFlag(mask, c), mask);
    }
  }

  lemma HighBitsOfByte(n: nat, i: nat)
    requires n <= 0xFF && i >= 8
    ensures !Bit(n, i)
  {
    Pow2UpToByte();
    SubtractionComplements(8, 0xFF - n, i);
  }
}
