/** The bit operations of C on unsigned numbers, bit by bit, and what masks and marks do. */
module Bits {

  function And(x: nat, y: nat): nat {
    if x == 0 || y == 0 then 0 else 2 * And(x / 2, y / 2) + (x % 2) * (y % 2)
  }

  function Or(x: nat, y: nat): nat {
    if x == 0 then y
    else if y == 0 then x
    else 2 * Or(x / 2, y / 2) + if x % 2 + y % 2 > 0 then 1 else 0
  }

  function Power2(k: nat): (p: nat)
    ensures p > 0
  {
    if k == 0 then 1 else 2 * Power2(k - 1)
  }

  function ShiftLeft(x: nat, k: nat): nat { x * Power2(k) }

  function ShiftRight(x: nat, k: nat): nat {
    if k == 0 then x else ShiftRight(x / 2, k - 1)
  }

  lemma PowersOfTwo()
    ensures Power2(4) == 0x10 && Power2(5) == 0x20 && Power2(6) == 0x40 && Power2(7) == 0x80
    ensures Power2(8) == 0x100 && Power2(10) == 0x400
  {
    assert Power2(2) == 4 && Power2(4) == 16 && Power2(6) == 64 && Power2(8) == 256;
  }

  lemma AndStep(x: nat, y: nat)
    ensures And(x, y) == 2 * And(x / 2, y / 2) + (x % 2) * (y % 2)
  {
  }

  lemma OrStep(x: nat, y: nat)
    ensures Or(x, y) == 2 * Or(x / 2, y / 2) + if x % 2 + y % 2 > 0 then 1 else 0
  {
  }

  /** Halving a number that is given by its low `k` bits and the others. */
  lemma Halves(high: nat, low: nat, k: nat)
    requires k > 0 && low < Power2(k)
    ensures
      var p, x := Power2(k - 1), high * Power2(k) + low;
      high * Power2(k) == 2 * (high * p) && x / 2 == high * p + low / 2 && x % 2 == low % 2 && low / 2 < p
  {
    var t := high * Power2(k - 1);
    assert high * Power2(k) == 2 * t;
  }

  /** The operations act on the low `k` bits and on the others by themselves. */
  lemma {:induction false} AndSplit(a: nat, r: nat, b: nat, s: nat, k: nat)
    requires r < Power2(k) && s < Power2(k)
    ensures And(a * Power2(k) + r, b * Power2(k) + s) == And(a, b) * Power2(k) + And(r, s)
    decreases k
  {
    if k > 0 {
      hide And, Power2;
      AndStep(a * Power2(k) + r, b * Power2(k) + s);
      AndStep(r, s);
      Halves(a, r, k);
      Halves(b, s, k);
      AndSplit(a, r / 2, b, s / 2, k - 1);
      Halves(And(a, b), 0, k);
    }
  }

  lemma {:induction false} OrSplit(a: nat, r: nat, b: nat, s: nat, k: nat)
    requires r < Power2(k) && s < Power2(k)
    ensures Or(a * Power2(k) + r, b * Power2(k) + s) == Or(a, b) * Power2(k) + Or(r, s)
    decreases k
  {
    if k > 0 {
      hide Or, Power2;
      OrStep(a * Power2(k) + r, b * Power2(k) + s);
      OrStep(r, s);
      Halves(a, r, k);
      Halves(b, s, k);
      OrSplit(a, r / 2, b, s / 2, k - 1);
      Halves(Or(a, b), 0, k);
    }
  }

  lemma {:induction false} MaskKeeps(low: nat, k: nat)
    requires low < Power2(k)
    ensures And(low, Power2(k) - 1) == low
    decreases k
  {
    if k > 0 {
      AndStep(low, Power2(k) - 1);
      MaskKeeps(low / 2, k - 1);
    }
  }

  /** A mask of the low ten bits takes the remainder. */
  lemma LowTenBits(x: nat)
    ensures And(x, 0x3FF) == x % 0x400
  {
    hide And, Power2;
    PowersOfTwo();
    var q, r := x / 0x400, x % 0x400;
    AndNothing(q);
    AndSplit(q, r, 0, 0x3FF, 10);
    MaskKeeps(r, 10);
  }

  lemma AndNothing(x: nat)
    ensures And(x, 0) == 0
  {
  }

  /** Ten bits joined to ten others. */
  lemma JoinedTens(x: nat, y: nat)
    ensures Or(ShiftLeft(And(x, 0x3FF), 10), And(y, 0x3FF)) == (x % 0x400) * 0x400 + y % 0x400
  {
    hide And, Or, Power2;
    PowersOfTwo();
    LowTenBits(x);
    LowTenBits(y);
    MarkIsSum(x % 0x400, y % 0x400, 10);
  }

  lemma OrNothing(x: nat)
    ensures Or(x, 0) == x == Or(0, x)
  {
  }

  /** Setting bits above the low `k` ones adds them. */
  lemma MarkIsSum(high: nat, low: nat, k: nat)
    requires low < Power2(k)
    ensures Or(low, high * Power2(k)) == Or(high * Power2(k), low) == high * Power2(k) + low
  {
    OrNothing(high);
    OrNothing(low);
    hide Or, Power2;
    OrSplit(high, 0, 0, low, k);
    OrSplit(0, low, high, 0, k);
  }

  lemma ShiftSix(x: nat)
    ensures ShiftRight(x, 6) == x / 0x40
  {
    assert ShiftRight(x, 6) == ShiftRight(x / 2, 5) == ShiftRight(x / 2 / 2, 4) == ShiftRight(x / 2 / 2 / 2, 3);
    assert ShiftRight(x / 2 / 2 / 2, 3) == ShiftRight(x / 2 / 2 / 2 / 2, 2) == ShiftRight(x / 2 / 2 / 2 / 2 / 2, 1);
    assert ShiftRight(x / 2 / 2 / 2 / 2 / 2, 1) == ShiftRight(x / 2 / 2 / 2 / 2 / 2 / 2, 0);
  }

  /** The bytes of the encoding loop: `x | 0x80 & 0xBF` carries the low six bits of `x`. */
  lemma TailByte(x: nat)
    ensures And(Or(x, 0x80), 0xBF) == 0x80 + x % 0x40
  {
    hide And, Or;
    PowersOfTwo();
    var q, r := x / 0x40, x % 0x40;
    OrSplit(q, r, 2, 0, 6);
    OrNothing(r);
    AndSplit(Or(q, 2), r, 2, 0x3F, 6);
    MaskKeeps(r, 6);
    BitOne(q);
  }

  lemma BitOne(q: nat)
    ensures And(Or(q, 2), 2) == 2
  {
    OrStep(q, 2);
    OrStep(q / 2, 1);
    AndStep(Or(q, 2), 2);
    AndStep(Or(q, 2) / 2, 1);
  }

  /** `x | mark & 0xFF` for a mark above the bits of `x`. */
  lemma LeadByte(x: nat, mark: nat, k: nat, high: nat)
    requires x < Power2(k) && mark == high * Power2(k) && mark + x < 0x100
    ensures And(Or(x, mark), 0xFF) == mark + x
  {
    PowersOfTwo();
    MarkIsSum(high, x, k);
    MaskKeeps(mark + x, 8);
  }
}
