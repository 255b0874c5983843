/** gdt.c: segment descriptors in their 8-byte hardware form (32-bit protected mode: base in bytes
    2, 3, 4 and 7, limit in bytes 0, 1 and the low half of 6, granularity in the top bit of 6). */
module Gdt {

  const DESCRIPTOR_BYTES := 8

  datatype Segment = Segment(base: bv32, limit: bv32, kind: bv8)

  /** The limits that do not make the kernel panic. */
  predicate Accepted(s: Segment)
  {
    s.limit <= 0x10000 || s.limit & 0xFFF == 0xFFF
  }

  /** The test before the panic: large limits must end in twelve ones. */
  lemma AcceptedExactly(s: Segment)
    ensures Accepted(s) <==> s.limit <= 65536 || s.limit << 20 == 0xFFF0_0000
  {
  }

  function LowByte(x: bv32): bv8
  {
    (x & 0xFF) as bv8
  }

  function Wide(b: bv8): bv32
  {
    b as bv32
  }

  // ----- what the processor reads -----

  function JoinBase(b2: bv8, b3: bv8, b4: bv8, b7: bv8): bv32
  {
    Wide(b2) | (Wide(b3) << 8) | (Wide(b4) << 16) | (Wide(b7) << 24)
  }

  function JoinLimit(b0: bv8, b1: bv8, b6: bv8): bv32
  {
    Wide(b0) | (Wide(b1) << 8) | (Wide(b6 & 0x0F) << 16)
  }

  /** The last offset of the segment: the limit counts bytes or, with granularity, pages. */
  function EffectiveLimit(limit20: bv32, b6: bv8): bv32
  {
    if b6 & 0x80 == 0 then limit20 else (limit20 << 12) | 0xFFF
  }

  /** The bytes d describe the segment s to the processor: one of 32-bit size, with the bits that are
      reserved or left to the system clear. */
  predicate Describes(d: seq<bv8>, s: Segment)
  {
    && |d| == 8
    && JoinBase(d[2], d[3], d[4], d[7]) == s.base
    && EffectiveLimit(JoinLimit(d[0], d[1], d[6]), d[6]) == s.limit
    && d[5] == s.kind
    && d[6] & 0x70 == 0x40
  }

  // ----- what the kernel writes -----

  lemma BaseJoined(x: bv32)
    ensures JoinBase(LowByte(x), LowByte(x >> 8), LowByte(x >> 16), LowByte(x >> 24)) == x
  {
  }

  /** The byte that holds the flags and the four highest bits of a 20-bit limit. */
  function FlagByte(flags: bv8, limit: bv32): bv8
  {
    flags | (LowByte(limit >> 16) & 0x0F)
  }

  lemma LimitJoined(limit: bv32)
    requires limit <= 0x10000
    ensures EffectiveLimit(JoinLimit(LowByte(limit), LowByte(limit >> 8), FlagByte(0x40, limit)), FlagByte(0x40, limit)) == limit
    ensures FlagByte(0x40, limit) & 0x70 == 0x40
  {
  }

  lemma ScaledLimitJoined(limit: bv32)
    requires limit > 0x10000 && limit & 0xFFF == 0xFFF
    ensures var l := limit >> 12;
            && EffectiveLimit(JoinLimit(LowByte(l), LowByte(l >> 8), FlagByte(0xC0, l)), FlagByte(0xC0, l)) == limit
            && FlagByte(0xC0, l) & 0x70 == 0x40
  {
  }

  /** The three bytes of a limit, scaled down when it is large. */
  function LimitBytes(limit: bv32): (bv8, bv8, bv8)
  {
    if limit > 0x10000 then
      var l := limit >> 12;
      (LowByte(l), LowByte(l >> 8), FlagByte(0xC0, l))
    else (LowByte(limit), LowByte(limit >> 8), FlagByte(0x40, limit))
  }

  lemma LimitBytesDescribe(limit: bv32)
    requires limit <= 0x10000 || limit & 0xFFF == 0xFFF
    ensures var b := LimitBytes(limit);
            EffectiveLimit(JoinLimit(b.0, b.1, b.2), b.2) == limit && b.2 & 0x70 == 0x40
  {
    if limit > 0x10000 {
      ScaledLimitJoined(limit);
    } else {
      LimitJoined(limit);
    }
  }

  /** The limit part of extract_structured_gdt_to_gdt. */
  method ExtractLimit(dst: array<bv8>, at: nat, limit: bv32)
    requires at + DESCRIPTOR_BYTES <= dst.Length
    modifies dst
    ensures (dst[at], dst[at + 1], dst[at + 6]) == LimitBytes(limit)
    ensures forall k :: 0 <= k < dst.Length && k != at && k != at + 1 && k != at + 6 ==> dst[k] == old(dst[k])
  {
    var l := limit;
    dst[at + 6] := 0x40;
    if limit > 0x10000 {
      l := limit >> 12;
      dst[at + 6] := 0xC0;
    }
    dst[at] := LowByte(l);
    dst[at + 1] := LowByte(l >> 8);
    dst[at + 6] := dst[at + 6] | (LowByte(l >> 16) & 0x0F);
  }

  /** The base part. */
  method ExtractBase(dst: array<bv8>, at: nat, base: bv32)
    requires at + DESCRIPTOR_BYTES <= dst.Length
    modifies dst
    ensures JoinBase(dst[at + 2], dst[at + 3], dst[at + 4], dst[at + 7]) == base
    ensures forall k :: 0 <= k < dst.Length && k != at + 2 && k != at + 3 && k != at + 4 && k != at + 7 ==> dst[k] == old(dst[k])
  {
    BaseJoined(base);
    dst[at + 2] := LowByte(base);
    dst[at + 3] := LowByte(base >> 8);
    dst[at + 4] := LowByte(base >> 16);
    dst[at + 7] := LowByte(base >> 24);
  }

  /** extract_structured_gdt_to_gdt, for a limit that is accepted: the eight bytes at `at` describe
      the segment exactly. */
  method Extract(dst: array<bv8>, at: nat, s: Segment)
    requires Accepted(s) && at + DESCRIPTOR_BYTES <= dst.Length
    modifies dst
    ensures Describes(dst[at..at + DESCRIPTOR_BYTES], s)
    ensures forall k :: 0 <= k < dst.Length && !(at <= k < at + DESCRIPTOR_BYTES) ==> dst[k] == old(dst[k])
  {
    LimitBytesDescribe(s.limit);
    ExtractLimit(dst, at, s.limit);
    ExtractBase(dst, at, s.base);
    dst[at + 5] := s.kind;
  }

  /** extract_structured_gdt: every entry of the table is described, independently of the others. */
  method ExtractAll(dst: array<bv8>, segments: seq<Segment>)
    requires DESCRIPTOR_BYTES * |segments| <= dst.Length && forall s :: s in segments ==> Accepted(s)
    modifies dst
    ensures forall i :: 0 <= i < |segments| ==> Describes(dst[8 * i..8 * i + 8], segments[i])
  {
    var i := 0;
    while i < |segments|
      invariant 0 <= i <= |segments|
      invariant forall k :: 0 <= k < i ==>
                  Describes(dst[DESCRIPTOR_BYTES * k..DESCRIPTOR_BYTES * k + DESCRIPTOR_BYTES], segments[k])
    {
      ghost var before := dst[..];
      Extract(dst, DESCRIPTOR_BYTES * i, segments[i]);
      forall k | 0 <= k < i
        ensures dst[DESCRIPTOR_BYTES * k..DESCRIPTOR_BYTES * k + DESCRIPTOR_BYTES]
                == before[DESCRIPTOR_BYTES * k..DESCRIPTOR_BYTES * k + DESCRIPTOR_BYTES]
      {
      }
      i := i + 1;
    }
  }
}
