/**
 The decoding functions of src/cpu/cpu.c as they run: the mask and sign loops of `Helper`, proved to
 give the fields and immediates of `Decoder`.
 */
module Decoding {
  import opened Words
  import opened Helper
  import opened Decoder

  /** `extract_bits_from_uint64` with the mask that `bitmask_from_bit_size` builds. */
  method Field(ins: uint32, start: nat, size: nat) returns (v: uint64)
    requires start < 64 && size <= 31
    ensures v == ExtractBits(ins, start, Mask(size))
    ensures v == ins / Pow2(start) % Pow2(size)
  {
    hide ExtractBits, Mask;
    var mask := BitmaskFromBitSize(size);
    v := ExtractBits(ins, start, mask);
    ExtractBitsIsField(ins, start, size);
  }

  /** `decode_rd`, `decode_rs1` and `decode_rs2`, by the position of the field. */
  method RegisterField(ins: uint32, start: nat) returns (r: uint5)
    requires start in {7, 15, 20}
    ensures r == if start == 7 then DecodeRd(ins) else if start == 15 then DecodeRs1(ins) else DecodeRs2(ins)
  {
    hide ExtractBits, Mask;
    FiveBits(ins, start);
    r := Field(ins, start, 5);
  }

  /** `decode_imm_i`. */
  method ImmediateI(ins: uint32) returns (imm: uint64)
    ensures imm == DecodeImmI(ins)
  {
    hide ExtractBits, Mask, RepeatBit;
    imm := Field(ins, 20, 12);
    imm := RepeatBitInNum(imm, 12, SignBit32(ins));
  }

  /** `decode_imm_s`. */
  method ImmediateS(ins: uint32) returns (imm: uint64)
    ensures imm == DecodeImmS(ins)
  {
    hide ExtractBits, Mask, RepeatBit, Shl64;
    var imm1 := Field(ins, 7, 5);
    var imm2 := Field(ins, 25, 7);
    imm := ToU64(imm1 + Shl64(imm2, 5));
    imm := RepeatBitInNum(imm, 12, SignBit32(ins));
  }

  /** `decode_imm_b`. */
  method ImmediateB(ins: uint32) returns (imm: uint64)
    ensures imm == DecodeImmB(ins)
  {
    hide ExtractBits, Mask, RepeatBit, Shl64;
    var imm1 := Field(ins, 7, 1);
    var imm2 := Field(ins, 8, 4);
    var imm3 := Field(ins, 25, 6);
    var imm4 := Field(ins, 31, 1);
    imm := ToU64(Shl64(imm1, 11) + Shl64(imm2, 1) + Shl64(imm3, 5) + Shl64(imm4, 12));
    imm := RepeatBitInNum(imm, 12, SignBit32(ins));
  }

  /** `decode_imm_u`. */
  method ImmediateU(ins: uint32) returns (imm: uint64)
    ensures imm == DecodeImmU(ins)
  {
    hide ExtractBits, Mask, RepeatBit, Shl64;
    imm := Field(ins, 12, 20);
    var word := Low32(Shl64(imm, 12));
    imm := RepeatBitInNum(word, 32, SignBit32(word));
  }

  /** `decode_imm_j`. */
  method ImmediateJ(ins: uint32) returns (imm: uint64)
    ensures imm == DecodeImmJ(ins)
  {
    hide ExtractBits, Mask, RepeatBit, Shl64;
    var imm1 := Field(ins, 12, 8);
    var imm2 := Field(ins, 20, 1);
    var imm3 := Field(ins, 21, 10);
    var imm4 := Field(ins, 31, 1);
    imm := ToU64(Shl64(imm1, 12) + Shl64(imm2, 11) + Shl64(imm3, 1) + Shl64(imm4, 20));
    imm := RepeatBitInNum(imm, 20, SignBit32(ins));
  }

  /** The record the decoder of a format fills in. */
  method Record(ins: uint32, format: Format) returns (d: Decoded)
    requires format == FormatAt(DecodeOpcode(ins))
    ensures d == DecodeFields(ins)
  {
    hide ExtractBits, Mask, RepeatBit, FormatAt, DecodeRd, DecodeRs1, DecodeRs2, DecodeOpcode,
      DecodeImmI, DecodeImmS, DecodeImmB, DecodeImmU, DecodeImmJ;
    d := Decoded(format, 0, 0, 0, 0, 0);
    match format
    case FR =>
      var rd := RegisterField(ins, 7);
      var rs1 := RegisterField(ins, 15);
      var rs2 := RegisterField(ins, 20);
      var func7 := Field(ins, 25, 7);
      d := d.(rd := rd, rs1 := rs1, rs2 := rs2, func7 := func7);
    case FI =>
      var rd := RegisterField(ins, 7);
      var rs1 := RegisterField(ins, 15);
      var imm := ImmediateI(ins);
      d := d.(rd := rd, rs1 := rs1, imm := imm);
    case FS =>
      var rs1 := RegisterField(ins, 15);
      var rs2 := RegisterField(ins, 20);
      var imm := ImmediateS(ins);
      d := d.(rs1 := rs1, rs2 := rs2, imm := imm);
    case FB =>
      var rs1 := RegisterField(ins, 15);
      var rs2 := RegisterField(ins, 20);
      var imm := ImmediateB(ins);
      d := d.(rs1 := rs1, rs2 := rs2, imm := imm);
    case FU =>
      var rd := RegisterField(ins, 7);
      var imm := ImmediateU(ins);
      d := d.(rd := rd, imm := imm);
    case FJ =>
      var rd := RegisterField(ins, 7);
      var imm := ImmediateJ(ins);
      d := d.(rd := rd, imm := imm);
    case FNone =>
  }
}
