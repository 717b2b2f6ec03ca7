/**
 The look-up-table instruction words of `src/flexspi.h` and the second packing of
 the same word, `LUT0`/`INSTR`, of `src/qspi.c`. All arithmetic is on 32-bit words: the
 first packing casts its arguments to uint32_t; of the second, which does not, the result
 is taken as the bits that a 32-bit LUT register would hold.
 */
module Lut {
  import opened Bytes

  /* The two instructions a LUT word holds: opcode (6 bits), pads (2 bits), operand (8 bits). */
  datatype Pair = Pair(opcode0: word, pads0: word, operand0: word, opcode1: word, pads1: word, operand1: word) {
    predicate InRange() {
      opcode0 < 64 && pads0 < 4 && operand0 < 256 && opcode1 < 64 && pads1 < 4 && operand1 < 256
    }
  }

  const OPERAND0_MASK: word := 0xFF
  const NUM_PADS0_MASK: word := 0x300
  const OPCODE0_MASK: word := 0xFC00
  const OPERAND1_MASK: word := 0xFF_0000
  const NUM_PADS1_MASK: word := 0x300_0000
  const OPCODE1_MASK: word := 0xFC00_0000

  /* FLEXSPI_LUT_SEQ: each field is shifted and masked, then all are ORed. */
  function LutSeq(p: Pair): word {
    (p.operand0 & OPERAND0_MASK)
    | ((p.pads0 << 8) & NUM_PADS0_MASK)
    | ((p.opcode0 << 10) & OPCODE0_MASK)
    | ((p.operand1 << 16) & OPERAND1_MASK)
    | ((p.pads1 << 24) & NUM_PADS1_MASK)
    | ((p.opcode1 << 26) & OPCODE1_MASK)
  }

  /* The fields a LUT word is read back as, by the masks and shifts of the header. */
  function Fields(w: word): Pair {
    Pair((w & OPCODE0_MASK) >> 10, (w & NUM_PADS0_MASK) >> 8, w & OPERAND0_MASK,
         (w & OPCODE1_MASK) >> 26, (w & NUM_PADS1_MASK) >> 24, (w & OPERAND1_MASK) >> 16)
  }

  /* INSTR and LUT0: the same word packed without masks. */
  function Instr(opcode: word, pads: word, operand: word): word {
    (opcode << 10) | (pads << 8) | operand
  }

  function Lut0(p: Pair): word {
    (Instr(p.opcode1, p.pads1, p.operand1) << 16) | Instr(p.opcode0, p.pads0, p.operand0)
  }

  /* Every field is brought into range by dropping its high bits. */
  function Truncated(p: Pair): (t: Pair)
    ensures t.InRange()
    ensures p.InRange() ==> t == p
  {
    Pair(p.opcode0 & 63, p.pads0 & 3, p.operand0 & 255, p.opcode1 & 63, p.pads1 & 3, p.operand1 & 255)
  }

  /* Reading back a packed word gives the fields, each cut to its own width, for all arguments. */
  lemma FieldsOfLutSeq(p: Pair)
    ensures Fields(LutSeq(p)) == Truncated(p)
  {
  }

  /* Every 32-bit word is the packing of its fields, and these are in range. */
  lemma LutSeqOfFields(w: word)
    ensures LutSeq(Fields(w)) == w
    ensures Fields(w).InRange()
  {
  }

  /* Packing is injective on in-range fields and hits every word. */
  lemma LutSeqInjective(p: Pair, q: Pair)
    requires p.InRange() && q.InRange()
    requires LutSeq(p) == LutSeq(q)
    ensures p == q
  {
    FieldsOfLutSeq(p);
    FieldsOfLutSeq(q);
  }

  /* The two packings agree on in-range fields ... */
  lemma Lut0Agrees(p: Pair)
    requires p.InRange()
    ensures Lut0(p) == LutSeq(p)
  {
  }

  lemma LutSeqTruncates(p: Pair)
    ensures LutSeq(p) == LutSeq(Truncated(p))
  {
  }

  /* ... and always once the fields are truncated, so they differ only by LUT0's missing masks. */
  lemma Lut0AgreesTruncated(p: Pair)
    ensures LutSeq(p) == Lut0(Truncated(p))
  {
    hide LutSeq, Lut0, Truncated;
    LutSeqTruncates(p);
    Lut0Agrees(Truncated(p));
  }

  /* Out of range they can differ: LUT0 lets a wide pad count spill into the opcode. */
  lemma Lut0Spills()
    ensures var p := Pair(0, 4, 0, 0, 0, 0); Lut0(p) != LutSeq(p) && Fields(Lut0(p)).opcode0 == 1
  {
  }
}
