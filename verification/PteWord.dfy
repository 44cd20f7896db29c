/** The 32-bit word of a page table entry: a frame number above twelve bits of flags. */
module PteWord {
  const VALID := 1
  const DIRTY := 2
  const REF := 4
  const ONSWAP := 8

  const PAGE_SIZE := 4096
  const WORD := 0x1_0000_0000
  const INVALID_SWAP := -1

  predicate IsFlag(bit: nat) {
    bit == VALID || bit == DIRTY || bit == REF || bit == ONSWAP
  }

  /** `w & bit` for one of the flag bits. */
  predicate Flag(w: nat, bit: nat)
    requires IsFlag(bit)
  {
    if bit == VALID then w % 2 == 1
    else if bit == DIRTY then w / 2 % 2 == 1
    else if bit == REF then w / 4 % 2 == 1
    else w / 8 % 2 == 1
  }

  /** `w | bit`. */
  function Set(w: nat, bit: nat): nat
    requires IsFlag(bit)
  {
    if Flag(w, bit) then w else w + bit
  }

  /** `w & ~bit`. */
  function Clear(w: nat, bit: nat): nat
    requires IsFlag(bit)
  {
    if Flag(w, bit) then w - bit else w
  }

  /** `frame << PAGE_SHIFT` in 32 bits. */
  function Shifted(frame: nat): nat {
    frame * PAGE_SIZE % WORD
  }

  /** `w >> PAGE_SHIFT`. */
  function FrameNo(w: nat): nat {
    w / PAGE_SIZE
  }

  /** A page table entry read field by field. REF is left to CLOCK, the only reader of that bit. */
  datatype Pte = Pte(frame: nat, valid: bool, dirty: bool, onswap: bool, swapOff: int)

  const Untouched := Pte(0, false, false, false, INVALID_SWAP)

  function Decode(w: nat, swapOff: int): Pte {
    Pte(FrameNo(w), Flag(w, VALID), Flag(w, DIRTY), Flag(w, ONSWAP), swapOff)
  }

  /** The word with these four flags below the number `n`. */
  function Word(n: nat, onswap: bool, ref: bool, dirty: bool, valid: bool): nat {
    16 * n + (if onswap then 8 else 0) + (if ref then 4 else 0) + (if dirty then 2 else 0) + (if valid then 1 else 0)
  }

  lemma Halved(w: nat, q: nat, bit: bool)
    requires w == 2 * q + if bit then 1 else 0
    ensures w / 2 == q && (w % 2 == 1 <==> bit)
  {
  }

  lemma HalvedAgain(w: nat)
    ensures w / 4 == w / 2 / 2 && w / 8 == w / 4 / 2 && w / 16 == w / 8 / 2
  {
  }

  lemma Doubled(w: nat)
    ensures w == 2 * (w / 2) + w % 2
  {
  }

  lemma FrameAbove(w: nat, n: nat, k: nat)
    requires 16 * n <= w < 16 * n + 16 && k == n / 256
    ensures FrameNo(w) == k
  {
    assert 4096 * k <= w < 4096 * k + 4096;
  }

  /** It reads back as it was put together. */
  lemma WordReads(n: nat, onswap: bool, ref: bool, dirty: bool, valid: bool)
    ensures var w := Word(n, onswap, ref, dirty, valid);
            Flag(w, VALID) == valid && Flag(w, DIRTY) == dirty && Flag(w, REF) == ref && Flag(w, ONSWAP) == onswap
    ensures FrameNo(Word(n, onswap, ref, dirty, valid)) == n / 256
  {
    var w := Word(n, onswap, ref, dirty, valid);
    var eighth := 2 * n + if onswap then 1 else 0;
    var quarter := 2 * eighth + if ref then 1 else 0;
    var half := 2 * quarter + if dirty then 1 else 0;
    Halved(w, half, valid);
    Halved(half, quarter, dirty);
    Halved(quarter, eighth, ref);
    Halved(eighth, n, onswap);
    HalvedAgain(w);
    FrameAbove(w, n, n / 256);
  }

  /** Every word is such a word. */
  lemma WordIs(w: nat)
    ensures w == Word(w / 16, Flag(w, ONSWAP), Flag(w, REF), Flag(w, DIRTY), Flag(w, VALID))
  {
    HalvedAgain(w);
    Doubled(w);
    Doubled(w / 2);
    Doubled(w / 4);
    Doubled(w / 8);
  }

  /** Setting and clearing, on such a word. */
  lemma FlagWritten(w: nat, bit: nat, on: bool)
    requires IsFlag(bit)
    ensures (if on then Set(w, bit) else Clear(w, bit))
         == Word(w / 16, if bit == ONSWAP then on else Flag(w, ONSWAP), if bit == REF then on else Flag(w, REF),
                 if bit == DIRTY then on else Flag(w, DIRTY), if bit == VALID then on else Flag(w, VALID))
  {
    WordIs(w);
  }

  lemma FlagReads(w: nat, bit: nat, on: bool, other: nat)
    requires IsFlag(bit) && IsFlag(other)
    ensures var w' := if on then Set(w, bit) else Clear(w, bit);
            (Flag(w', other) <==> if other == bit then on else Flag(w, other)) && FrameNo(w') == FrameNo(w)
  {
    FlagWritten(w, bit, on);
    WordIs(w);
    WordReads(w / 16, Flag(w, ONSWAP), Flag(w, REF), Flag(w, DIRTY), Flag(w, VALID));
    WordReads(w / 16, if bit == ONSWAP then on else Flag(w, ONSWAP), if bit == REF then on else Flag(w, REF),
              if bit == DIRTY then on else Flag(w, DIRTY), if bit == VALID then on else Flag(w, VALID));
  }

  /** Setting or clearing a flag changes that flag, no other, and not the frame number. */
  lemma FlagsAreIndependent(w: nat, bit: nat, other: nat)
    requires IsFlag(bit) && IsFlag(other)
    ensures Flag(Set(w, bit), other) <==> other == bit || Flag(w, other)
    ensures Flag(Clear(w, bit), other) <==> other != bit && Flag(w, other)
    ensures FrameNo(Set(w, bit)) == FrameNo(Clear(w, bit)) == FrameNo(w)
  {
    FlagReads(w, bit, true, other);
    FlagReads(w, bit, false, other);
  }

  /** The layout of the word: the frame number from bit 12 on, ONSWAP at bit 3, REF at bit 2, DIRTY at bit 1, VALID at
      bit 0. */
  lemma WordLayout(w: nat, swapOff: int, frame: nat, onswap: bool, ref: bool, dirty: bool, valid: bool)
    requires w == 4096 * frame + (if onswap then 8 else 0) + (if ref then 4 else 0) + (if dirty then 2 else 0)
                  + (if valid then 1 else 0)
    ensures Decode(w, swapOff) == Pte(frame, valid, dirty, onswap, swapOff) && (Flag(w, REF) <==> ref)
    ensures Set(w, VALID) == 4096 * frame + w % 4096 + if valid then 0 else 1
    ensures Set(w, DIRTY) == 4096 * frame + w % 4096 + if dirty then 0 else 2
    ensures Set(w, REF) == 4096 * frame + w % 4096 + if ref then 0 else 4
    ensures Set(w, ONSWAP) == 4096 * frame + w % 4096 + if onswap then 0 else 8
  {
    WordReads(256 * frame, onswap, ref, dirty, valid);
    assert w == Word(256 * frame, onswap, ref, dirty, valid);
    assert w % 4096 == w - 4096 * frame;
  }

  lemma DecodeSet(w: nat, swapOff: int)
    ensures Decode(Set(w, VALID), swapOff) == Decode(w, swapOff).(valid := true)
    ensures Decode(Set(w, DIRTY), swapOff) == Decode(w, swapOff).(dirty := true)
    ensures Decode(Set(w, ONSWAP), swapOff) == Decode(w, swapOff).(onswap := true)
    ensures Decode(Set(w, REF), swapOff) == Decode(Clear(w, REF), swapOff) == Decode(w, swapOff)
    ensures Decode(Clear(w, VALID), swapOff) == Decode(w, swapOff).(valid := false)
  {
    forall bit, other | IsFlag(bit) && IsFlag(other) {
      FlagsAreIndependent(w, bit, other);
    }
  }

  /** A frame number survives the shift exactly when it fits in the twenty bits above the flags, all clear then. */
  lemma ShiftedFits(frame: nat)
    ensures FrameNo(Shifted(frame)) == frame <==> frame < 0x10_0000
    ensures forall bit | IsFlag(bit) :: !Flag(Shifted(frame), bit)
  {
    var k, n := frame % 0x10_0000, frame / 0x10_0000;
    assert frame * PAGE_SIZE == n * WORD + k * PAGE_SIZE;
    assert Shifted(frame) == k * PAGE_SIZE;
    var w := k * PAGE_SIZE;
    assert w / 2 == k * 2048 && w / 4 == k * 1024 && w / 8 == k * 512;
  }
}
