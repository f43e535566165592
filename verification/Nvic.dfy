/** Interrupt priorities of the Cortex-M3: a group priority and a subpriority packed into
    the implemented priority bits (ARMv7-M Architecture Reference Manual, section B1.5.4),
    and the byte arrays that hold them. Everything is for any number P of implemented bits
    from 1 to 8. */
module Nvic {
  import opened Bits

  // ---------- the code of a priority ----------

  function PreemptBits(P: nat, group: nat): nat
  {
    var g := And(group, 0x07);
    if U32(7 - g) > P then P else U32(7 - g)
  }

  function SubBits(P: nat, group: nat): nat
  {
    var g := And(group, 0x07);
    if U32(g + P) < 7 then 0 else U32(g - 7 + P)
  }

  /** NVIC_EncodePriority. */
  function Encode(P: nat, group: nat, preempt: nat, sub: nat): nat
  {
    var pb, sb := PreemptBits(P, group), SubBits(P, group);
    Or(Shl(And(preempt, Pow2(pb) - 1), sb), And(sub, Pow2(sb) - 1))
  }

  /** NVIC_DecodePriority: what is written through the two out-pointers. */
  function Decode(P: nat, group: nat, priority: nat): (nat, nat)
  {
    var pb, sb := PreemptBits(P, group), SubBits(P, group);
    (And(Shr(priority, sb), Pow2(pb) - 1), And(priority, Pow2(sb) - 1))
  }

  /** The two fields fill the implemented bits, whatever group is asked for. */
  lemma Widths(P: nat, group: nat)
    requires 1 <= P <= 8
    ensures PreemptBits(P, group) + SubBits(P, group) == P
    ensures PreemptBits(P, group) <= 7
    ensures SubBits(P, group) == if group % 8 + P < 7 then 0 else group % 8 + P - 7
  {
    hide And, Pow2;
    EightIs();
    MaskIsMod(group, 3);
  }

  lemma EightIs()
    ensures Pow2(3) == 8
  {
  }

  /** The code as a number with two digits. */
  lemma EncodeIs(P: nat, group: nat, preempt: nat, sub: nat)
    ensures var (a, b) := (Pow2(PreemptBits(P, group)), Pow2(SubBits(P, group)));
      Encode(P, group, preempt, sub) == preempt % a * b + sub % b
  {
    hide And, Or, PreemptBits, SubBits;
    var pb, sb := PreemptBits(P, group), SubBits(P, group);
    MaskIsMod(preempt, pb);
    MaskIsMod(sub, sb);
    Remainder(preempt, Pow2(pb));
    Remainder(sub, Pow2(sb));
    OrDisjoint(preempt % Pow2(pb), sub % Pow2(sb), sb);
  }

  lemma Remainder(x: nat, m: nat)
    requires 0 < m
    ensures 0 <= x % m < m
  {
  }

  lemma DecodeIs(P: nat, group: nat, priority: nat)
    ensures var (a, b) := (Pow2(PreemptBits(P, group)), Pow2(SubBits(P, group)));
      priority / b >= 0 && Decode(P, group, priority) == (priority / b % a, priority % b)
  {
    hide And, PreemptBits, SubBits;
    var pb, sb := PreemptBits(P, group), SubBits(P, group);
    DivNonNegative(priority, Pow2(sb));
    MaskIsMod(Shr(priority, sb), pb);
    MaskIsMod(priority, sb);
  }

  /** A code fits the implemented bits. */
  lemma CodeFits(P: nat, group: nat, preempt: nat, sub: nat)
    requires 1 <= P <= 8
    ensures Encode(P, group, preempt, sub) < Pow2(P)
  {
    hide PreemptBits, SubBits, Encode, Pow2;
    var a, b := Pow2(PreemptBits(P, group)), Pow2(SubBits(P, group));
    EncodeIs(P, group, preempt, sub);
    Widths(P, group);
    Pow2Add(PreemptBits(P, group), SubBits(P, group));
    TwoDigits(preempt % a, sub % b, a, b);
  }

  lemma TwoDigits(x: nat, y: nat, a: nat, b: nat)
    requires x < a && y < b
    ensures x * b + y < a * b
  {
    MulLe(b, x + 1, a);
    assert (x + 1) * b == x * b + b;
  }

  /** Decoding a code gives back both priorities, cut to their fields. */
  lemma DecodeEncode(P: nat, group: nat, preempt: nat, sub: nat)
    requires 1 <= P <= 8
    ensures Decode(P, group, Encode(P, group, preempt, sub))
         == (preempt % Pow2(PreemptBits(P, group)), sub % Pow2(SubBits(P, group)))
  {
    hide PreemptBits, SubBits, Encode, Decode, Pow2;
    var a, b := Pow2(PreemptBits(P, group)), Pow2(SubBits(P, group));
    EncodeIs(P, group, preempt, sub);
    DecodeIs(P, group, Encode(P, group, preempt, sub));
    Remainder(preempt, a);
    Remainder(sub, b);
    DivModUnique(Encode(P, group, preempt, sub), b, preempt % a, sub % b);
    DivModUnique(preempt % a, a, 0, preempt % a);
  }

  /** Every code that the implemented bits can hold is the code of what it decodes to: with
      DecodeEncode, codes and pairs of in-range priorities correspond one to one. */
  lemma EncodeDecode(P: nat, group: nat, code: nat)
    requires 1 <= P <= 8 && code < Pow2(P)
    ensures var (p, s) := Decode(P, group, code);
      Encode(P, group, p, s) == code
  {
    hide PreemptBits, SubBits, Encode, Decode, Pow2;
    var a, b := Pow2(PreemptBits(P, group)), Pow2(SubBits(P, group));
    DecodeIs(P, group, code);
    Widths(P, group);
    Pow2Add(PreemptBits(P, group), SubBits(P, group));
    var (p, s) := Decode(P, group, code);
    EncodeIs(P, group, p, s);
    Recompose(code, a, b);
  }

  lemma Recompose(code: nat, a: nat, b: nat)
    requires 0 < b && 0 < a && code < a * b
    ensures 0 <= code / b && code / b % a % a * b + code % b % b == code
  {
    DivBounds(code, b);
    DivNonNegative(code, b);
    if code / b >= a {
      MulLe(b, a, code / b);
    }
    DivModUnique(code / b, a, 0, code / b);
    DivModUnique(code % b, b, 0, code % b);
  }

  /** For priorities in range the codes are ordered like the pairs: the group priority
      decides, and the subpriority only among equals. */
  lemma CodeOrder(P: nat, group: nat, p: nat, s: nat, q: nat, t: nat)
    requires 1 <= P <= 8
    requires p < Pow2(PreemptBits(P, group)) && q < Pow2(PreemptBits(P, group))
    requires s < Pow2(SubBits(P, group)) && t < Pow2(SubBits(P, group))
    ensures Encode(P, group, p, s) < Encode(P, group, q, t) <==> p < q || (p == q && s < t)
  {
    hide PreemptBits, SubBits, Encode, Pow2;
    var a, b := Pow2(PreemptBits(P, group)), Pow2(SubBits(P, group));
    EncodeIs(P, group, p, s);
    EncodeIs(P, group, q, t);
    DivModUnique(p, a, 0, p);
    DivModUnique(q, a, 0, q);
    DivModUnique(s, b, 0, s);
    DivModUnique(t, b, 0, t);
    if p < q {
      TwoDigits(p, s, q, b);
    } else if q < p {
      TwoDigits(q, t, p, b);
    }
  }

  // ---------- the priority registers ----------

  /** The byte that NVIC_SetPriority stores, and what NVIC_GetPriority makes of a byte. */
  function PriorityByte(P: nat, priority: nat): nat
    requires P <= 8
  {
    And(U32(Shl(priority, 8 - P)), 0xff)
  }

  function PriorityOf(P: nat, stored: nat): nat
    requires P <= 8
  {
    Shr(stored, 8 - P)
  }

  /** The stored byte holds the priority modulo 2^P in its upper bits, which are the
      implemented ones. */
  lemma PriorityByteIs(P: nat, priority: nat)
    requires 1 <= P <= 8
    ensures PriorityByte(P, priority) == priority % Pow2(P) * Pow2(8 - P) < 0x100
    ensures PriorityOf(P, PriorityByte(P, priority)) == priority % Pow2(P)
  {
    hide And, Pow2;
    var a, b := Pow2(P), Pow2(8 - P);
    Pow2Of32();
    Pow2Add(P, 8 - P);
    var x := Shl(priority, 8 - P);
    MaskIsMod(U32(x), 8);
    WrapTransparent(x, 8);
    Remainder(priority, a);
    DivBounds(priority, a);
    ShiftedRemainder(priority, a, b);
    DivModUnique(priority % a * b, b, priority % a, 0);
  }

  lemma ShiftedRemainder(x: nat, a: nat, b: nat)
    requires 0 < a && 0 < b
    ensures 0 < a * b && x * b % (a * b) == x % a * b < a * b
  {
    var q, r := x / a, x % a;
    assert x == q * a + r;
    Distribute(q, a, r, b);
    TwoDigits(r, 0, a, b);
    DivModUnique(x * b, a * b, q, r * b);
  }

  lemma Distribute(q: int, a: int, r: int, b: int)
    ensures (q * a + r) * b == q * (a * b) + r * b
  {
  }

  /** Where the priority of interrupt irqn is stored: system handlers have negative numbers
      from -12 on. */
  lemma SystemIndex(irqn: int)
    requires -12 <= irqn < 0
    ensures 4 <= And(U32(irqn), 0xF) && And(U32(irqn), 0xF) - 4 == irqn + 12
  {
    hide And, Pow2;
    assert Pow2(4) == 16 by { Pow2Add(2, 2); Pow2Add(1, 1); Pow2One(); }
    MaskIsMod(U32(irqn), 4);
    WrapTransparent(irqn, 4);
  }

  lemma Pow2One()
    ensures Pow2(1) == 2
  {
  }

  /** The priority arrays of NVIC and SCB. */
  class Priorities {
    const prioBits: nat
    const IP: array<byte>
    const SHP: array<byte>

    constructor (P: nat, ip: array<byte>, shp: array<byte>)
      ensures prioBits == P && IP == ip && SHP == shp
    {
      prioBits, IP, SHP := P, ip, shp;
    }

    ghost predicate Valid()
    {
      1 <= prioBits <= 8 && IP.Length == 240 && SHP.Length == 12 && IP != SHP
    }

    ghost predicate Exists(irqn: int) { -12 <= irqn < 240 }

    /** The priority that the hardware sees for an interrupt: the upper prioBits bits. */
    ghost function Priority(irqn: int): nat
      requires Valid() && Exists(irqn)
      reads IP, SHP
    {
      PriorityOf(prioBits, if irqn < 0 then SHP[irqn + 12] else IP[irqn])
    }

    /** Sets the priority of one interrupt, cut to the implemented bits, and no other: in IP
        for a device interrupt and from SHP[0] on for the system handlers from -12 on. */
    method SetPriority(irqn: int, priority: nat)
      requires Valid() && Exists(irqn)
      modifies IP, SHP
      ensures forall k :: 0 <= k < 240 ==>
        IP[k] == if k == irqn then priority % Pow2(prioBits) * Pow2(8 - prioBits) else old(IP[k])
      ensures forall k :: 0 <= k < 12 ==>
        SHP[k] == if k == 12 + irqn then priority % Pow2(prioBits) * Pow2(8 - prioBits) else old(SHP[k])
      ensures Priority(irqn) == priority % Pow2(prioBits)
      ensures forall other :: Exists(other) && other != irqn ==> Priority(other) == old(Priority(other))
    {
      hide And, Pow2, PriorityOf, PriorityByte;
      PriorityByteIs(prioBits, priority);
      var stored: byte := PriorityByte(prioBits, priority);
      if irqn < 0 {
        SystemIndex(irqn);
        SHP[And(U32(irqn), 0xF) - 4] := stored;
      } else {
        IP[irqn] := stored;
      }
    }

    method GetPriority(irqn: int) returns (priority: nat)
      requires Valid() && Exists(irqn)
      ensures priority == Priority(irqn)
      ensures priority == (if irqn < 0 then SHP[12 + irqn] else IP[irqn]) / Pow2(8 - prioBits)
    {
      if irqn < 0 {
        SystemIndex(irqn);
        priority := PriorityOf(prioBits, SHP[And(U32(irqn), 0xF) - 4]);
      } else {
        priority := PriorityOf(prioBits, IP[irqn]);
      }
    }
  }

  /** Encode, set, get, decode: the stored byte of an encoded pair gives back the code, and
      the code the pair, cut to its fields. */
  lemma StoredPairIsReadBack(P: nat, group: nat, preempt: nat, sub: nat)
    requires 1 <= P <= 8
    ensures var code := Encode(P, group, preempt, sub);
      var stored := PriorityOf(P, PriorityByte(P, code));
      && stored == code
      && Decode(P, group, stored) == (preempt % Pow2(PreemptBits(P, group)), sub % Pow2(SubBits(P, group)))
  {
    hide Encode, Decode, Pow2, PreemptBits, SubBits, PriorityOf, PriorityByte;
    var code := Encode(P, group, preempt, sub);
    CodeFits(P, group, preempt, sub);
    PriorityByteIs(P, code);
    DivModUnique(code, Pow2(P), 0, code);
    DecodeEncode(P, group, preempt, sub);
  }
}
