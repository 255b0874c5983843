/** Physical memory: one byte for each of the 2^32 addresses, and the little-endian words
    the kernel keeps in it. A memory is a value, so that two moments of a run can be compared. */
module Memory {
  import opened Words

  type Ram = m: seq<Byte> | |m| == WORD_RANGE ghost witness seq(WORD_RANGE, _ => 0)

  /** `a` can hold an aligned word. */
  predicate IsWordAddress(a: int)
  {
    0 <= a < WORD_RANGE && a % 4 == 0
  }

  function ReadWord(m: Ram, a: int): Word
    requires IsWordAddress(a)
  {
    (m[a] as int) + 0x100 * (m[a + 1] as int) + 0x1_0000 * (m[a + 2] as int) + 0x100_0000 * (m[a + 3] as int)
  }

  function WriteWord(m: Ram, a: int, w: Word): Ram
    requires IsWordAddress(a)
  {
    m[a := w % 0x100]
     [a + 1 := w / 0x100 % 0x100]
     [a + 2 := w / 0x1_0000 % 0x100]
     [a + 3 := w / 0x100_0000]
  }

  function WriteByte(m: Ram, a: int, b: Byte): Ram
    requires 0 <= a < WORD_RANGE
  {
    m[a := b]
  }

  /** m' differs from m at most in the n bytes from address a. */
  ghost predicate SameOutside(m: Ram, m': Ram, a: int, n: int)
  {
    forall x :: 0 <= x < WORD_RANGE && !(a <= x < a + n) ==> m'[x] == m[x]
  }

  /** A write is what a later read of the same word finds, and of any other word does not see. */
  lemma ReadAfterWrite(m: Ram, a: int, w: Word, r: int)
    requires IsWordAddress(a) && IsWordAddress(r)
    ensures ReadWord(WriteWord(m, a, w), r) == if r == a then w else ReadWord(m, r)
    ensures SameOutside(m, WriteWord(m, a, w), a, 4)
  {
    if r == a {
      SplitWord(w);
    } else {
      WordsApart(a, r);
    }
  }

  /** Words stand in memory with their lowest byte first. */
  lemma {:induction false} ByteOrder(m: Ram, a: int, w: Word)
    requires IsWordAddress(a)
    ensures var m' := WriteWord(m, a, w);
            (m'[a] as int) + 0x100 * (m'[a + 1] as int) + 0x1_0000 * (m'[a + 2] as int) + 0x100_0000 * (m'[a + 3] as int) == w
  {
    SplitWord(w);
  }

  lemma WordsApart(a: int, r: int)
    requires IsWordAddress(a) && IsWordAddress(r) && r != a
    ensures r + 4 <= a || a + 4 <= r
  {
    assert a == 4 * (a / 4) && r == 4 * (r / 4);
  }

  lemma SplitWord(w: Word)
    ensures w % 0x100 + 0x100 * (w / 0x100 % 0x100) + 0x1_0000 * (w / 0x1_0000 % 0x100)
            + 0x100_0000 * (w / 0x100_0000) == w
  {
    var w1, w2, w3 := w / 0x100, w / 0x1_0000, w / 0x100_0000;
    assert w == 0x100 * w1 + w % 0x100;
    Nested(w, w1, 0x100);
    Nested(w, w2, 0x1_0000);
    assert w1 == 0x100 * w2 + w1 % 0x100;
    assert w2 == 0x100 * w3 + w2 % 0x100;
  }

  /** Dividing by d and then by 0x100 is dividing by 0x100 times d. */
  lemma Nested(w: Word, q: int, d: int)
    requires (d == 0x100 || d == 0x1_0000) && q == w / d
    ensures q / 0x100 == w / (0x100 * d)
  {
    var r, k := w - d * q, q / 0x100;
    assert w == 0x100 * d * k + (d * (q % 0x100) + r);
  }
}
