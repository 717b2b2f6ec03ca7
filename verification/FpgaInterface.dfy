/**
 The FPGA's command table of `src/fpga_interface.h`, the indices that follow from its order,
 and the look-up table that `src/fpga_interface.c` builds over those indices.
 */
module FpgaInterface {
  import opened Bytes
  import opened Lut

  datatype Command =
    | WrSpi1 | WrSpi2 | WrDcuOut | WrGenericCmd | WrUart1 | WrUart2 | WrUart3 | WrUart4
    | WrMcaspCfg | WrPpsSel | WrMstClk
    | RdSample | RdSpi1 | RdSpi2 | RdUart1 | RdUart2 | RdUart3 | RdUart4 | RdSyncIn | RdMstClk

  datatype Entry = Entry(name: Command, opcode: byte)

  /* FPGA_TABLE */
  const TABLE: seq<Entry> :=
    [Entry(WrSpi1, 0x01), Entry(WrSpi2, 0x02), Entry(WrDcuOut, 0x03), Entry(WrGenericCmd, 0x04),
     Entry(WrUart1, 0x05), Entry(WrUart2, 0x06), Entry(WrUart3, 0x07), Entry(WrUart4, 0x08),
     Entry(WrMcaspCfg, 0x09), Entry(WrPpsSel, 0x0A), Entry(WrMstClk, 0x0C),
     Entry(RdSample, 0x80), Entry(RdSpi1, 0x81), Entry(RdSpi2, 0x82), Entry(RdUart1, 0x85),
     Entry(RdUart2, 0x86), Entry(RdUart3, 0x87), Entry(RdUart4, 0x88), Entry(RdSyncIn, 0x8B),
     Entry(RdMstClk, 0x8C)]

  /* Where a name first stands in a table; the table's length if nowhere. */
  function Position(table: seq<Entry>, name: Command): (i: nat)
    ensures i <= |table|
    ensures i < |table| ==> table[i].name == name
    ensures forall k :: 0 <= k < i ==> table[k].name != name
  {
    if table == [] || table[0].name == name then 0 else 1 + Position(table[1..], name)
  }

  /* FPGA_LUT_IDX_<name>: the enumeration counts the entries in table order. */
  function LutIndex(name: Command): byte {
    Position(TABLE, name) as byte
  }

  const LUT_CMD: word := 0x01
  const LUT_ADDR: word := 0x02
  const LUT_DUMMY: word := 0x0C
  const FOUR_PADS: word := 0x02

  /* fpga_lut: four words for every entry, LUT_NULL for all but RD_SAMPLE. */
  function FpgaLut(): (lut: seq<word>)
    ensures |lut| == 4 * |TABLE|
  {
    seq(4 * |TABLE|, i => if i == 4 * LutIndex(RdSample) as nat
                          then LutSeq(Pair(LUT_CMD, FOUR_PADS, 0x80, LUT_ADDR, FOUR_PADS, LUT_DUMMY))
                          else 0)
  }

  /* The sample command comes after the eleven write commands. */
  lemma SampleIndex()
    ensures LutIndex(RdSample) == 11
  {
    hide Position;
    assert TABLE[11].name == RdSample;
    assert forall k :: 0 <= k < 11 ==> TABLE[k].name != RdSample;
    assert Position(TABLE, RdSample) == 11;
  }

  /* Of all sequences of fpga_lut, the one QSPI_ReadSample names is the only one that is not
     null, and it starts by sending its own entry's opcode. */
  lemma SampleSequence(s: nat)
    requires s < |TABLE|
    ensures s == LutIndex(RdSample) as nat <==> FpgaLut()[4 * s..4 * s + 4] != [0, 0, 0, 0]
    ensures s == LutIndex(RdSample) as nat ==>
              var f := Fields(FpgaLut()[4 * s]);
              f.opcode0 == LUT_CMD && f.operand0 == TABLE[s].opcode as word
  {
    hide LutIndex;
    SampleIndex();
    hide Position;
    var p := Pair(LUT_CMD, FOUR_PADS, 0x80, LUT_ADDR, FOUR_PADS, LUT_DUMMY);
    var four := FpgaLut()[4 * s..4 * s + 4];
    assert four == [FpgaLut()[4 * s], 0, 0, 0];
    FieldsOfLutSeq(p);
    SampleWord();
  }

  lemma SampleWord()
    ensures LutSeq(Pair(LUT_CMD, FOUR_PADS, 0x80, LUT_ADDR, FOUR_PADS, LUT_DUMMY)) != 0
  {
  }
}
