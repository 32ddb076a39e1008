/** The & of addresses and masks (src/ip_route.c:149), bit by bit. */
module AddressMask {

  function And(a: nat, b: nat): (r: nat)
    ensures r <= a && r <= b
    decreases a
  {
    if a == 0 || b == 0 then 0 else 2 * And(a / 2, b / 2) + (if a % 2 == 1 && b % 2 == 1 then 1 else 0)
  }

  lemma {:induction false} AndWithin(a: nat, m: nat, m': nat)
    requires And(m, m') == m
    ensures And(And(a, m'), m) == And(a, m)
    decreases a
  {
    if a != 0 && m != 0 {
      AndHalf(m, m');
      AndHalf(a, m');
      AndHalf(a, m);
      AndHalf(And(a, m'), m);
      AndWithin(a / 2, m / 2, m' / 2);
    }
  }

  lemma AndHalf(a: nat, b: nat)
    ensures And(a, b) / 2 == And(a / 2, b / 2)
    ensures And(a, b) % 2 == if a % 2 == 1 && b % 2 == 1 then 1 else 0
  {
  }

  /** Bit k, counted from the lowest. */
  predicate Bit(a: nat, k: nat) {
    if k == 0 then a % 2 == 1 else Bit(a / 2, k - 1)
  }

  /** A bit of the result is the and of the two bits. */
  lemma {:induction false} AndBits(a: nat, b: nat, k: nat)
    ensures Bit(And(a, b), k) <==> Bit(a, k) && Bit(b, k)
    decreases k
  {
    AndHalf(a, b);
    if k > 0 {
      AndBits(a / 2, b / 2, k - 1);
    }
  }

  // A mask of n ones and k zeros.
  function Ones(n: nat): nat {
    if n == 0 then 0 else 2 * Ones(n - 1) + 1
  }

  function Up(a: nat, k: nat): nat {
    if k == 0 then a else 2 * Up(a, k - 1)
  }

  function Down(a: nat, k: nat): nat {
    if k == 0 then a else Down(a / 2, k - 1)
  }

  lemma {:induction false} AndUp(a: nat, m: nat, k: nat)
    ensures And(a, Up(m, k)) == Up(And(Down(a, k), m), k)
  {
    if k > 0 {
      AndUp(a / 2, m, k - 1);
      AndHalf(a, Up(m, k));
      assert Up(m, k) / 2 == Up(m, k - 1) && Up(m, k) % 2 == 0;
    }
  }

  lemma {:induction false} AndOnes(a: nat, n: nat)
    requires a <= Ones(n)
    ensures And(a, Ones(n)) == a
  {
    if n > 0 {
      AndOnes(a / 2, n - 1);
      AndHalf(a, Ones(n));
    }
  }

  lemma UpFour(a: nat, k: nat)
    ensures Up(a, k + 4) == 16 * Up(a, k)
  {
    assert Up(a, k + 4) == 2 * Up(a, k + 3) && Up(a, k + 3) == 2 * Up(a, k + 2);
  }

  lemma UpMany(a: nat)
    ensures Up(a, 16) == 0x1_0000 * a && Up(a, 24) == 0x100_0000 * a
  {
    UpFour(a, 0);
    UpFour(a, 4);
    UpFour(a, 8);
    UpFour(a, 12);
    UpFour(a, 16);
    UpFour(a, 20);
  }

  lemma DownTwo(a: nat, k: nat)
    ensures Down(a, k + 2) == Down(a / 4, k)
  {
    assert Down(a, k + 2) == Down(a / 2, k + 1) == Down(a / 2 / 2, k);
  }

  lemma DownFour(a: nat, k: nat)
    ensures Down(a, k + 4) == Down(a / 16, k)
  {
    DownTwo(a, k + 2);
    DownTwo(a / 4, k);
  }

  lemma DownByte(a: nat, k: nat)
    ensures Down(a, k + 8) == Down(a / 256, k) && Down(a, 0) == a
  {
    DownFour(a, k + 4);
    DownFour(a / 16, k);
  }

  lemma Masks()
    ensures Ones(8) == 0xFF && Ones(16) == 0xFFFF
    ensures Down(0x0A01_0203, 24) == 0x0A && Down(0x0A01_0203, 16) == 0x0A01 && Down(0xC001_0203, 24) == 0xC0
  {
    hide Down;
    DownByte(0x0A01_0203, 16);
    DownByte(0x0A01_0203, 8);
    DownByte(0x0A_0102, 8);
    DownByte(0x0A_0102, 0);
    DownByte(0x0A01, 0);
    DownByte(0x0A, 0);
    DownByte(0xC001_0203, 16);
    DownByte(0xC0_0102, 8);
    DownByte(0xC001, 0);
    DownByte(0xC0, 0);
  }

  lemma AndNone(a: nat)
    ensures And(a, 0) == 0
  {
  }

  lemma Masked()
    ensures And(0x0A01_0203, 0xFF00_0000) == 0x0A00_0000
    ensures And(0x0A01_0203, 0xFFFF_0000) == 0x0A01_0000
    ensures And(0xC001_0203, 0xFF00_0000) == 0xC000_0000
    ensures And(0xC001_0203, 0) == 0
  {
    hide *;
    Masks();
    AndNone(0xC001_0203);
    UpMany(0xFF);
    UpMany(0xFFFF);
    UpMany(0x0A);
    UpMany(0x0A01);
    UpMany(0xC0);
    AndUp(0x0A01_0203, 0xFF, 24);
    AndUp(0x0A01_0203, 0xFFFF, 16);
    AndUp(0xC001_0203, 0xFF, 24);
    AndOnes(0x0A, 8);
    AndOnes(0x0A01, 16);
    AndOnes(0xC0, 8);
  }
}
