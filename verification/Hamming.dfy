/** Distance between perceptual hashes: `(a ^ b).bit_count()` on Python's unbounded integers. */
module Hamming {

  function Xor(a: nat, b: nat): nat
    decreases a + b
  {
    if a == 0 && b == 0 then 0
    else 2 * Xor(a / 2, b / 2) + (if a % 2 == b % 2 then 0 else 1)
  }

  function BitCount(n: nat): nat {
    if n == 0 then 0 else n % 2 + BitCount(n / 2)
  }

  function Distance(a: nat, b: nat): nat {
    BitCount(Xor(a, b))
  }

  lemma DistanceByLowBit(a: nat, b: nat)
    ensures Distance(a, b) == Distance(a / 2, b / 2) + (if a % 2 == b % 2 then 0 else 1)
  {
  }

  lemma {:induction false} DistanceSymmetric(a: nat, b: nat)
    ensures Distance(a, b) == Distance(b, a)
    decreases a + b
  {
    DistanceByLowBit(a, b);
    DistanceByLowBit(b, a);
    if a + b > 0 { DistanceSymmetric(a / 2, b / 2); }
  }

  lemma {:induction false} DistanceZero(a: nat, b: nat)
    ensures Distance(a, b) == 0 <==> a == b
    decreases a + b
  {
    DistanceByLowBit(a, b);
    if a + b > 0 { DistanceZero(a / 2, b / 2); }
  }

  lemma {:induction false} DistanceTriangle(a: nat, b: nat, c: nat)
    ensures Distance(a, c) <= Distance(a, b) + Distance(b, c)
    decreases a + b + c
  {
    DistanceByLowBit(a, b);
    DistanceByLowBit(b, c);
    DistanceByLowBit(a, c);
    if a + b + c > 0 { DistanceTriangle(a / 2, b / 2, c / 2); }
  }

  /** Binary digit `i` of a number, the lowest first. */
  function Bit(n: nat, i: nat): nat {
    if i == 0 then n % 2 else Bit(n / 2, i - 1)
  }

  ghost function DifferingBits(a: nat, b: nat): set<nat> {
    set i: nat | i < a + b && Bit(a, i) != Bit(b, i)
  }

  lemma {:induction false} HighBitsAreZero(n: nat, i: nat)
    requires i >= n
    ensures Bit(n, i) == 0
  {
    if i > 0 { HighBitsAreZero(n / 2, i - 1); }
  }

  lemma DifferingBitsMembers(a: nat, b: nat, i: nat)
    ensures i in DifferingBits(a, b) <==> Bit(a, i) != Bit(b, i)
  {
    if i >= a + b {
      HighBitsAreZero(a, i);
      HighBitsAreZero(b, i);
    }
  }

  /** The distance is the number of positions at which the binary digits differ. */
  lemma {:induction false} DistanceCountsBits(a: nat, b: nat)
    ensures Distance(a, b) == |DifferingBits(a, b)|
    ensures forall i: nat :: i in DifferingBits(a, b) <==> Bit(a, i) != Bit(b, i)
    decreases a + b
  {
    forall i: nat ensures i in DifferingBits(a, b) <==> Bit(a, i) != Bit(b, i) {
      DifferingBitsMembers(a, b, i);
    }
    if a + b == 0 {
      assert DifferingBits(a, b) == {};
    } else {
      DistanceByLowBit(a, b);
      DistanceCountsBits(a / 2, b / 2);
      DifferingBitsOfHalves(a, b);
    }
  }

  function Shifted(s: set<nat>): set<nat> {
    set i | i in s :: i + 1
  }

  lemma ShiftedMembers(s: set<nat>)
    ensures forall j: nat :: j in Shifted(s) <==> j > 0 && j - 1 in s
  {
    forall j: nat ensures j in Shifted(s) <==> j > 0 && j - 1 in s {
      if j > 0 && j - 1 in s {
        var i := j - 1;
        assert i + 1 in Shifted(s);
      }
    }
  }

  lemma DifferingBitsOfHalves(a: nat, b: nat)
    ensures |DifferingBits(a, b)| == |DifferingBits(a / 2, b / 2)| + if a % 2 == b % 2 then 0 else 1
  {
    var low := DifferingBits(a / 2, b / 2);
    forall i: nat
      ensures i in DifferingBits(a, b) <==> if i == 0 then a % 2 != b % 2 else i - 1 in low
    {
      DifferingBitsMembers(a, b, i);
      if i > 0 { DifferingBitsMembers(a / 2, b / 2, i - 1); }
    }
    hide DifferingBits, Shifted;
    ShiftedMembers(low);
    assert DifferingBits(a, b) == if a % 2 == b % 2 then Shifted(low) else Shifted(low) + {0};
    ShiftedSize(low);
  }

  lemma {:induction false} ShiftedSize(s: set<nat>)
    ensures |Shifted(s)| == |s|
  {
    if s != {} {
      var x :| x in s;
      ShiftedSize(s - {x});
      hide Shifted;
      ShiftedMembers(s);
      ShiftedMembers(s - {x});
      assert Shifted(s) == Shifted(s - {x}) + {x + 1};
    }
  }
}
