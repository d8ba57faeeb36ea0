/** SHA-1 on one block. The reference is section 6.1.2 of FIPS 180-4: an 80-word schedule and
    working variables that are shifted. The code keeps sixteen schedule words in a circle and
    rotates the roles of five registers instead (section 6.1.3). */
module Sha1Block {
  import opened Words
  import opened MessageBlocks

  // ---------- the standard ----------

  function Rotl1Bits(b: bv32): bv32 { (b << 1) | (b >> 31) }
  function Rotl5Bits(b: bv32): bv32 { (b << 5) | (b >> 27) }
  function Rotl30Bits(b: bv32): bv32 { (b << 30) | (b >> 2) }

  function Rotl1(x: Word): Word { Val(Rotl1Bits(Bits(x))) }
  function Rotl5(x: Word): Word { Val(Rotl5Bits(Bits(x))) }
  function Rotl30(x: Word): Word { Val(Rotl30Bits(Bits(x))) }

  function F(t: nat, x: Word, y: Word, z: Word): Word {
    if t < 20 then Ch(x, y, z) else if 40 <= t < 60 then Maj(x, y, z) else Xor3(x, y, z)
  }

  function K(t: nat): Word {
    if t < 20 then 0x5a827999 else if t < 40 then 0x6ed9eba1 else if t < 60 then 0x8f1bbcdc else 0xca62c1d6
  }

  /** The message schedule of a block of sixteen words. */
  function W(block: seq<Word>, t: nat): Word
    requires |block| == 16
  {
    if t < 16 then block[t]
    else Rotl1(Xor(Xor(Xor(W(block, t - 3), W(block, t - 8)), W(block, t - 14)), W(block, t - 16)))
  }

  datatype Vars = Vars(a: Word, b: Word, c: Word, d: Word, e: Word)

  function Round(v: Vars, t: nat, w: Word): Vars {
    Vars(Sum(Sum(Sum(Sum(Rotl5(v.a), F(t, v.b, v.c, v.d)), v.e), K(t)), w), v.a, Rotl30(v.b), v.c, v.d)
  }

  /** The working variables after `t` rounds. */
  function Rounds(h: Vars, block: seq<Word>, t: nat): Vars
    requires |block| == 16
  {
    if t == 0 then h else Round(Rounds(h, block, t - 1), t - 1, W(block, t - 1))
  }

  function Add(h: Vars, v: Vars): Vars {
    Vars(Sum(h.a, v.a), Sum(h.b, v.b), Sum(h.c, v.c), Sum(h.d, v.d), Sum(h.e, v.e))
  }

  /** The compression function. */
  function Compress(h: Vars, bytes: seq<Byte>): Vars {
    if |bytes| == 64 then Add(h, Rounds(h, BlockWords(bytes), 80)) else h
  }

  // ---------- the macros ----------

  /** The round function of macros R0 to R4. */
  function Mix(t: nat, w: Word, x: Word, y: Word): Word {
    if t < 20 then ChooseMacro(w, x, y) else if 40 <= t < 60 then MajorityMacro(w, x, y) else Xor3(w, x, y)
  }

  function ChooseMacro(w: Word, x: Word, y: Word): Word { Val((Bits(w) & (Bits(x) ^ Bits(y))) ^ Bits(y)) }
  function MajorityMacro(w: Word, x: Word, y: Word): Word {
    Val(((Bits(w) | Bits(x)) & Bits(y)) | (Bits(w) & Bits(x)))
  }

  lemma ChooseBits(w: bv32, x: bv32, y: bv32)
    ensures (w & (x ^ y)) ^ y == (w & x) ^ (!w & y)
  {
  }

  lemma MajorityBits(w: bv32, x: bv32, y: bv32)
    ensures ((w | x) & y) | (w & x) == (w & x) ^ (w & y) ^ (x & y)
  {
  }

  lemma ChooseForm(w: Word, x: Word, y: Word)
    ensures ChooseMacro(w, x, y) == Ch(w, x, y)
  {
    hide Val, Bits;
    ChooseBits(Bits(w), Bits(x), Bits(y));
  }

  lemma MajorityForm(w: Word, x: Word, y: Word)
    ensures MajorityMacro(w, x, y) == Maj(w, x, y)
  {
    hide Val, Bits;
    MajorityBits(Bits(w), Bits(x), Bits(y));
  }

  lemma MixIsF(t: nat, w: Word, x: Word, y: Word)
    ensures Mix(t, w, x, y) == F(t, w, x, y)
  {
    hide Ch, Maj, Xor3, ChooseMacro, MajorityMacro;
    ChooseForm(w, x, y);
    MajorityForm(w, x, y);
  }

  lemma SumOrder(e: Word, f: Word, w: Word, k: Word, a: Word)
    ensures Sum(e, Sum(Sum(Sum(f, w), k), a)) == Sum(Sum(Sum(Sum(a, f), e), k), w)
  {
  }

  // ---------- the circular schedule ----------

  /** Before round `t` the buffer holds the last sixteen schedule words, or, before round
      sixteen, the first `t` of them and the rest of the block still to be swapped. */
  ghost predicate Circular(l: seq<Word>, block: seq<Word>, t: nat)
    requires |l| == 16 && |block| == 16
  {
    if t < 16 then
      (forall j :: 0 <= j < t ==> l[j] == W(block, j)) && (forall j :: t <= j < 16 ==> Swap(l[j]) == block[j])
    else
      forall j :: 0 <= j < 16 ==> l[j] == W(block, Latest(t, j))
  }

  /** The last word before round `t` that was put into slot `j`. */
  function Latest(t: nat, j: nat): (k: nat)
    requires t >= 16 && j < 16
    ensures t - 16 <= k < t
  {
    var s := t % 16;
    if j < s then t - s + j else t - s + j - 16
  }

  /** Slot arithmetic modulo sixteen. */
  function Slot(t: nat, d: nat): (i: nat)
    requires d < 16
    ensures i < 16
  {
    var s := t % 16 + d;
    if s < 16 then s else s - 16
  }

  /** The word that macros `blk0` and `blk` put into the buffer in round `t`. */
  function NextWord(l: seq<Word>, t: nat): Word
    requires |l| == 16
  {
    if t < 16 then Swap(l[t])
    else Rotl1(Xor(Xor(Xor(l[Slot(t, 13)], l[Slot(t, 8)]), l[Slot(t, 2)]), l[Slot(t, 0)]))
  }

  lemma NextWordIsW(l: seq<Word>, block: seq<Word>, t: nat)
    requires |l| == 16 && |block| == 16 && Circular(l, block, t)
    ensures NextWord(l, t) == W(block, t)
  {
    hide Rotl1, Xor, Swap, W, Latest;
    ScheduleStep(block, t);
    if t >= 16 { LatestRead(t); }
  }

  lemma ScheduleStep(block: seq<Word>, t: nat)
    requires |block| == 16
    ensures t < 16 ==> W(block, t) == block[t]
    ensures t >= 16 ==>
      W(block, t) == Rotl1(Xor(Xor(Xor(W(block, t - 3), W(block, t - 8)), W(block, t - 14)), W(block, t - 16)))
  {
    hide Rotl1, Xor;
  }

  /** The slots read in round `t` hold words 3, 8, 14 and 16 rounds old. */
  lemma LatestRead(t: nat)
    requires t >= 16
    ensures Latest(t, Slot(t, 13)) == t - 3 && Latest(t, Slot(t, 8)) == t - 8
    ensures Latest(t, Slot(t, 2)) == t - 14 && Latest(t, Slot(t, 0)) == t - 16
  {
  }

  lemma CircularStep(l: seq<Word>, block: seq<Word>, t: nat, w: Word)
    requires |l| == 16 && |block| == 16 && Circular(l, block, t) && w == W(block, t)
    ensures Circular(l[Slot(t, 0) := w], block, t + 1)
  {
    hide W, Swap, Latest;
    if t >= 15 {
      var l' := l[Slot(t, 0) := w];
      forall j | 0 <= j < 16 ensures l'[j] == W(block, Latest(t + 1, j)) {
        LatestStep(t, j);
      }
    }
  }

  lemma LatestStep(t: nat, j: nat)
    requires t >= 15 && j < 16
    ensures j == Slot(t, 0) ==> Latest(t + 1, j) == t
    ensures j != Slot(t, 0) && t >= 16 ==> Latest(t + 1, j) == Latest(t, j)
    ensures t == 15 ==> Latest(t + 1, j) == j
  {
  }

  // ---------- registers with rotating roles ----------

  /** The register that plays role `r` (0 for a, ..., 4 for e) in round `t`. */
  function Role(t: nat, r: nat): (i: nat)
    requires t <= 80 && r < 5
    ensures i < 5
  {
    (80 - t + r) % 5
  }

  ghost function InRoles(regs: seq<Word>, t: nat): Vars
    requires |regs| == 5 && t <= 80
  {
    Vars(regs[Role(t, 0)], regs[Role(t, 1)], regs[Role(t, 2)], regs[Role(t, 3)], regs[Role(t, 4)])
  }

  lemma RolesShift(t: nat)
    requires t < 80
    ensures Role(t + 1, 0) == Role(t, 4) && Role(t + 1, 1) == Role(t, 0) && Role(t + 1, 2) == Role(t, 1)
    ensures Role(t + 1, 3) == Role(t, 2) && Role(t + 1, 4) == Role(t, 3)
  {
  }

  lemma RolesDiffer(t: nat)
    requires t <= 80
    ensures Role(t, 4) != Role(t, 0) && Role(t, 4) != Role(t, 1) && Role(t, 4) != Role(t, 2) && Role(t, 4) != Role(t, 3)
    ensures Role(t, 1) != Role(t, 0) && Role(t, 1) != Role(t, 2) && Role(t, 1) != Role(t, 3)
  {
  }

  /** The registers after one macro: `z += f(w, x, y) + word + K + rol(v, 5); w = rol(w, 30)`. */
  function Macro(regs: seq<Word>, t: nat, word: Word): (r: seq<Word>)
    requires |regs| == 5 && t < 80
    ensures |r| == 5
  {
    var v, w, x, y, z := regs[Role(t, 0)], regs[Role(t, 1)], regs[Role(t, 2)], regs[Role(t, 3)], regs[Role(t, 4)];
    regs[Role(t, 4) := Sum(z, Sum(Sum(Sum(Mix(t, w, x, y), word), K(t)), Rotl5(v)))][Role(t, 1) := Rotl30(w)]
  }

  /** A macro on rotated registers is a round on shifted variables. */
  lemma MacroIsRound(regs: seq<Word>, t: nat, word: Word)
    requires |regs| == 5 && t < 80
    ensures InRoles(Macro(regs, t, word), t + 1) == Round(InRoles(regs, t), t, word)
  {
    hide Mix, F, K, Rotl5, Rotl30, Sum, Role;
    var o := InRoles(regs, t);
    MixIsF(t, o.b, o.c, o.d);
    RolesShift(t);
    RolesDiffer(t);
    SumOrder(o.e, F(t, o.b, o.c, o.d), word, K(t), Rotl5(o.a));
  }
}
