/** Machine integers of the i686 target: bytes, 32-bit words, wrap-around, and the
    bitwise operators on words. Error numbers are those of errno.h. */
module Words {

  const ESRCH := 3
  const EIO := 5
  const ENOMEM := 12
  const EINVAL := 22

  const WORD_RANGE := 0x1_0000_0000

  type Byte = x: int | 0 <= x < 0x100

  type Word = x: int | 0 <= x < 0x1_0000_0000

  /** Conversion of any integer to `uint32_t`. */
  function U32(x: int): (w: Word)
    ensures 0 <= x < WORD_RANGE ==> w == x
  {
    x % WORD_RANGE
  }

  lemma Odd(x: int, h: int)
    requires x == 2 * h + 1
    ensures x % 2 == 1
  {
  }

  /** Conversion of any integer to the signed 32-bit `int`. */
  function I32(x: int): (r: int)
    ensures -0x8000_0000 <= r < 0x8000_0000
    ensures U32(r) == U32(x)
    ensures -0x8000_0000 <= x < 0x8000_0000 ==> r == x
  {
    ShiftedWrap(x, (x + 0x8000_0000) / WORD_RANGE);
    (x + 0x8000_0000) % WORD_RANGE - 0x8000_0000
  }

  /** Whole turns of the wrap-around do not show. */
  lemma ShiftedWrap(x: int, k: int)
    ensures U32(x - WORD_RANGE * k) == U32(x)
  {
    var q := x / WORD_RANGE;
    assert x == WORD_RANGE * q + U32(x);
    assert x - WORD_RANGE * k == WORD_RANGE * (q - k) + U32(x);
  }

  type Int = x: int | -0x8000_0000 <= x < 0x8000_0000

  /** Converting to `int`, adding an unsigned number and converting again is converting the sum. */
  lemma ConvertedSum(x: int, y: int)
    ensures I32(U32(I32(x)) + y) == I32(x + y)
  {
    var p := x / WORD_RANGE;
    assert U32(I32(x)) + y == x + y - WORD_RANGE * p;
    ShiftedWrap(x + y + 0x8000_0000, p);
  }

  /** Bitwise `a & b`, bit by bit. */
  function And(a: nat, b: nat): nat
  {
    if a == 0 || b == 0 then 0
    else 2 * And(a / 2, b / 2) + (if a % 2 == 1 && b % 2 == 1 then 1 else 0)
  }

  /** Bitwise `a | b`, bit by bit. */
  function Or(a: nat, b: nat): nat
    decreases a + b
  {
    if a == 0 && b == 0 then 0
    else 2 * Or(a / 2, b / 2) + (if a % 2 == 1 || b % 2 == 1 then 1 else 0)
  }

  /** `a << k`. */
  function Shl(a: nat, k: nat): nat
  {
    if k == 0 then a else 2 * Shl(a, k - 1)
  }

  /** `a >> k`. */
  function Shr(a: nat, k: nat): nat
  {
    if k == 0 then a else Shr(a / 2, k - 1)
  }

  /** Bit k of an or is set if and only if it is set in one of the two, bit k of an and if in both. */
  lemma {:induction false} BitOfOr(a: nat, b: nat, k: nat)
    ensures Shr(Or(a, b), k) % 2 == 1 <==> Shr(a, k) % 2 == 1 || Shr(b, k) % 2 == 1
  {
    OrHalves(a, b);
    if k > 0 {
      BitOfOr(a / 2, b / 2, k - 1);
    }
  }

  lemma {:induction false} BitOfAnd(a: nat, b: nat, k: nat)
    ensures Shr(And(a, b), k) % 2 == 1 <==> Shr(a, k) % 2 == 1 && Shr(b, k) % 2 == 1
  {
    AndHalves(a, b);
    if k > 0 {
      BitOfAnd(a / 2, b / 2, k - 1);
    }
  }

  lemma {:induction false} OrHalves(a: nat, b: nat)
    ensures Or(a, b) / 2 == Or(a / 2, b / 2)
    ensures Or(a, b) % 2 == if a % 2 == 1 || b % 2 == 1 then 1 else 0
  {
    var h := Or(a / 2, b / 2);
    assert Or(a, b) == 2 * h + if a % 2 == 1 || b % 2 == 1 then 1 else 0;
  }

  lemma {:induction false} AndHalves(a: nat, b: nat)
    ensures And(a, b) / 2 == And(a / 2, b / 2)
    ensures And(a, b) % 2 == if a % 2 == 1 && b % 2 == 1 then 1 else 0
  {
    var h := And(a / 2, b / 2);
    assert And(a, b) == 2 * h + if a % 2 == 1 && b % 2 == 1 then 1 else 0;
  }

  lemma {:induction false} OrZero(a: nat)
    ensures Or(a, 0) == a
  {
    if a > 0 {
      OrZero(a / 2);
    }
  }

  /** Or-ing k low bits into a number whose k low bits are zero is an addition. */
  lemma {:induction false} OrIsSum(a: nat, low: nat, k: nat)
    requires low < Shl(1, k)
    ensures Or(Shl(a, k), low) == Shl(a, k) + low
  {
    if k == 0 {
      OrZero(a);
    } else {
      OrIsSum(a, low / 2, k - 1);
    }
  }

  /** Or-ing k low bits leaves the bits from position k upwards alone. */
  lemma {:induction false} OrKeepsHighBits(a: nat, low: nat, k: nat)
    requires low < Shl(1, k)
    ensures Shr(Or(a, low), k) == Shr(a, k)
  {
    if k == 0 {
      OrZero(a);
    } else {
      OrKeepsHighBits(a / 2, low / 2, k - 1);
    }
  }

  /** The result of an or fits wherever both operands fit. */
  lemma {:induction false} OrBound(a: nat, b: nat, k: nat)
    requires a < Shl(1, k) && b < Shl(1, k)
    ensures Or(a, b) < Shl(1, k)
  {
    if k > 0 {
      OrBound(a / 2, b / 2, k - 1);
    }
  }

  /** And-ing with k ones keeps a number of k bits. */
  lemma {:induction false} AndOnes(a: nat, k: nat)
    requires a < Shl(1, k)
    ensures Shl(1, k) >= 1 && And(a, Shl(1, k) - 1) == a
  {
    if k > 0 {
      AndOnes(a / 2, k - 1);
    }
  }

  /** A mask shifted left by k drops the low k bits. */
  lemma {:induction false} AndShift(a: nat, m: nat, k: nat)
    ensures And(a, Shl(m, k)) == Shl(And(Shr(a, k), m), k)
  {
    if k > 0 {
      AndShift(a / 2, m, k - 1);
    }
  }

  /** The page an address or a page-table entry points into. */
  function PageBase(entry: Word): (base: Word)
    ensures base <= entry < base + 4096 && base % 4096 == 0
  {
    entry - entry % 4096
  }

  /** An address inside a page belongs to that page. */
  lemma InPage(page: Word, k: nat)
    requires page % 4096 == 0 && k < 4096
    ensures page + k < WORD_RANGE && (page + k) % 4096 == k
  {
    var q := page / 4096;
    assert page == 4096 * q && q < 0x10_0000;
  }

  /** The second lowest bit of an address inside a page is that of the offset. */
  lemma SecondBit(page: Word, k: nat)
    requires page % 4096 == 0
    ensures (page + k) / 2 % 2 == k / 2 % 2
  {
    var q := page / 4096;
    assert page == 4096 * q;
    var h := k / 4;
    var r := k - 4 * h;
    var b := if r < 2 then 0 else 1;
    BitOne(k, h, b, r - 2 * b);
    BitOne(page + k, 1024 * q + h, b, r - 2 * b);
  }

  lemma BitOne(x: int, h: int, b: int, r: int)
    requires x == 4 * h + 2 * b + r && 0 <= b < 2 && 0 <= r < 2
    ensures x / 2 % 2 == b
  {
    assert x / 2 == 2 * h + b;
  }

  /** The mask 0xfffff000 takes the page frame out of an entry. */
  lemma PageMask(entry: Word)
    ensures And(entry, 0xFFFFF000) == PageBase(entry)
  {
    var q := Shr(entry, 12);
    ShiftTwelve(entry);
    ShiftTwelve(0xFFFFF);
    AndShift(entry, 0xFFFFF, 12);
    Powers();
    AndOnes(q, 20);
    ShiftTwelve(And(q, 0xFFFFF));
  }

  lemma ShiftTwelve(a: nat)
    ensures Shr(a, 12) == a / 4096
    ensures Shl(a, 12) == a * 4096
  {
    ShiftFour(a, 8);
    ShiftFour(a / 16, 4);
    ShiftFour(a / 256, 0);
    ShiftFour(a, 4);
    ShiftFour(a, 0);
  }

  lemma ShiftFour(a: nat, k: nat)
    ensures Shr(a, k + 4) == Shr(a / 16, k)
    ensures Shl(a, k + 4) == 16 * Shl(a, k)
  {
    assert Shr(a, k + 4) == Shr(a / 2, k + 3) == Shr(a / 4, k + 2) == Shr(a / 8, k + 1);
    assert Shl(a, k + 4) == 2 * Shl(a, k + 3) == 4 * Shl(a, k + 2) == 8 * Shl(a, k + 1);
  }

  lemma Powers()
    ensures Shl(1, 12) == 0x1000
    ensures Shl(1, 20) == 0x10_0000
    ensures Shl(1, 32) == WORD_RANGE
  {
    ShiftTwelve(1);
    ShiftFour(1, 12);
    ShiftFour(1, 16);
    ShiftFour(1, 20);
    ShiftFour(1, 24);
    ShiftFour(1, 28);
  }

  /** Flags below 4096 or-ed into an aligned page address are simply added to it ... */
  lemma OrFlags(page: Word, flags: nat)
    requires page % 4096 == 0 && flags < 4096
    ensures OrWords(page, flags) == page + flags
  {
    var q := page / 4096;
    ShiftTwelve(q);
    Powers();
    OrIsSum(q, flags, 12);
  }

  /** ... and any 12-bit value or-ed into an entry leaves its page frame unchanged. */
  lemma OrKeepsPage(entry: Word, flags: nat)
    requires flags < 4096
    ensures PageBase(OrWords(entry, flags)) == PageBase(entry)
  {
    var r := OrWords(entry, flags);
    Powers();
    OrKeepsHighBits(entry, flags, 12);
    ShiftTwelve(r);
    ShiftTwelve(entry);
  }

  /** The lowest bit of a word, and setting the second lowest. */
  lemma LowBits(w: Word)
    ensures And(w, 1) == w % 2
    ensures OrWords(w, 2) == if w / 2 % 2 == 1 then w else w + 2
  {
    OrZero(w / 2 / 2);
    assert Or(w / 2, 1) == 2 * Or(w / 2 / 2, 0) + 1;
    assert Or(w, 2) == 2 * Or(w / 2, 1) + w % 2;
  }

  /** Bitwise or of two words. */
  function OrWords(a: Word, b: Word): (w: Word)
  {
    assert Or(a, b) < WORD_RANGE by {
      Powers();
      OrBound(a, b, 32);
    }
    Or(a, b)
  }
}
