/** Strings seen through page tables, as the bounded copy of string.c takes them. */
module UserString {
  import opened Words
  import opened Memory
  import opened PageSpace

  const COPY_LIMIT := 255

  /** The address k bytes further on; addresses wrap at the end of the address space. */
  function Ahead(s: Word, k: nat): (a: Word)
    ensures s + k < WORD_RANGE ==> a == s + k
  {
    U32(s + k)
  }

  /** The n bytes from virtual address s under a page map. */
  function View(m: Ram, space: Space, s: Word, n: nat): (v: seq<Byte>)
    ensures |v| == n
    ensures forall k :: 0 <= k < n ==> v[k] == m[Translate(space, Ahead(s, k))]
  {
    seq(n, k requires 0 <= k < n => m[Translate(space, Ahead(s, k))])
  }

  /** A string of at most n bytes ends at its first zero, or has n bytes and no earlier zero. */
  predicate IsCString(str: seq<Byte>, n: nat)
  {
    && |str| <= n
    && (forall k :: 0 <= k < |str| - 1 ==> str[k] != 0)
    && (|str| < n ==> |str| > 0 && str[|str| - 1] == 0)
  }

  /** The bytes up to and including the first zero, or all of them. */
  function Cut(v: seq<Byte>): (str: seq<Byte>)
    ensures IsCString(str, |v|)
    ensures str <= v
  {
    if v == [] then []
    else if v[0] == 0 then [0]
    else
      assert forall k :: 1 <= k < |v| ==> v[k] == v[1..][k - 1];
      [v[0]] + Cut(v[1..])
  }

  /** There is one string that a view starts with. */
  lemma CutIsUnique(v: seq<Byte>, str: seq<Byte>)
    requires IsCString(str, |v|) && str <= v
    ensures Cut(v) == str
  {
    var c := Cut(v);
    assert forall k :: 0 <= k < |c| && k < |str| ==> c[k] == v[k] == str[k];
  }

  /** The string at virtual address s, of at most n bytes with its terminator. */
  function CString(m: Ram, space: Space, s: Word, n: nat): (str: seq<Byte>)
    ensures IsCString(str, n)
    ensures forall k :: 0 <= k < |str| ==> str[k] == m[Translate(space, Ahead(s, k))]
  {
    Cut(View(m, space, s, n))
  }

  /** The string at s is determined by the bytes it consists of. */
  lemma CStringShown(m: Ram, space: Space, s: Word, n: nat, str: seq<Byte>)
    requires IsCString(str, n)
    requires forall k :: 0 <= k < |str| ==> str[k] == m[Translate(space, Ahead(s, k))]
    ensures CString(m, space, s, n) == str
  {
    var v := View(m, space, s, n);
    forall k | 0 <= k < |str| ensures str[k] == v[k] {
    }
    CutIsUnique(v, str);
  }
}
