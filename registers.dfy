/** The register map and the two control-register edits the driver makes. */
module Registers {
  import opened Bytes

  /** Acquisition mode; BAROMETER_M = 0 and ALTIMETER_M = 1 in the C++ enum. */
  datatype Mode = Barometer | Altimeter

  function ModeValue(m: Mode): (v: byte)
    ensures v == 0 || v == 1
    ensures v == 1 <==> m == Altimeter
  {
    match m
    case Barometer => 0
    case Altimeter => 1
  }

  /** The identity byte an MPL3115A2 answers from its WHOAMI register. */
  const DEVICE_ID: byte := 0xC4

  /** ALT, bit 7 of CTRL_REG1, edited by set_mode as `1UL << 7`. */
  const ALT_BIT: byte := 0x80

  /** OST, bit 1 of CTRL_REG1, set by initiate_one_shot as `1UL << 1`. */
  const OST_BIT: byte := 0x02

  /**
   * Register addresses and bit masks named by the driver. Their values live in
   * a header that is not part of this model, so the session is parameterised by them.
   */
  datatype RegisterMap = RegisterMap(
    whoAmI: byte,      // WHOAMI_R
    ctrlReg1: byte,    // CTRL_REG1
    status: byte,      // STATUS_R
    ptDataCfg: byte,   // PT_DATA_CFG_R
    outPMsb: byte,     // OUT_P_MSB_R
    outTMsb: byte,     // OUT_T_MSB_R
    barInMsb: byte,    // BAR_IN_MSB_R
    offH: byte,        // OFF_H_R
    rst: byte,         // CTRL_REG1_RST
    os128: byte,       // CTRL_REG1_OS128
    alt: byte,         // CTRL_REG1_ALT
    ost: byte,         // CTRL_REG1_OST
    ptdr: byte,        // STATUS_PTDR
    tdefe: byte,       // PT_DATA_CFG_TDEFE
    pdefe: byte,       // PT_DATA_CFG_PDEFE
    drem: byte)        // PT_DATA_CFG_DREM

  /** The CTRL_REG1 value begin writes: OS128 and ALT set, every other bit clear. */
  function CtrlConfig(regs: RegisterMap): byte
  {
    regs.os128 | regs.alt
  }

  /** The PT_DATA_CFG value begin writes: TDEFE, PDEFE and DREM set, every other bit clear. */
  function EventConfig(regs: RegisterMap): byte
  {
    regs.tdefe | regs.pdefe | regs.drem
  }

  /** The CTRL_REG1 configuration has OS128 and ALT set and every other bit clear. */
  lemma CtrlConfigBits(regs: RegisterMap)
    ensures var b := CtrlConfig(regs);
      b & regs.os128 == regs.os128 && b & regs.alt == regs.alt && b & !regs.os128 & !regs.alt == 0
  {
  }

  /** The PT_DATA_CFG configuration has TDEFE, PDEFE and DREM set and every other bit clear. */
  lemma EventConfigBits(regs: RegisterMap)
    ensures var e := EventConfig(regs);
      e & regs.tdefe == regs.tdefe && e & regs.pdefe == regs.pdefe && e & regs.drem == regs.drem &&
      e & !regs.tdefe & !regs.pdefe & !regs.drem == 0
  {
  }

  /** Some bit of `mask` is set in `b`: the flag test of every status and control poll. */
  predicate AnySet(b: byte, mask: byte)
  {
    b & mask != 0
  }

  /** The ALT bit of a CTRL_REG1 value, as 0 or 1. */
  function AltBit(b: byte): (v: byte)
    ensures v == 0 || v == 1
    ensures v == 1 <==> b & ALT_BIT != 0
  {
    (b & ALT_BIT) >> 7
  }

  /** Reference definition: `b` with bit 7 cleared, then set when `m` is Altimeter. */
  function WithMode(b: byte, m: Mode): (r: byte)
    ensures r & !ALT_BIT == b & !ALT_BIT
    ensures AltBit(r) == ModeValue(m)
  {
    (b & !ALT_BIT) | (if m == Altimeter then ALT_BIT else 0)
  }

  /**
   * set_mode's edit as the driver writes it: `b ^= (-mode ^ b) & (1 << 7)`.
   * Negating the mode value gives 0x00 or 0xFF, so bit 7 of the result is the mode value.
   */
  function ModeToggle(b: byte, m: Mode): (r: byte)
    ensures r == WithMode(b, m)
  {
    b ^ ((-ModeValue(m) ^ b) & ALT_BIT)
  }

  /** initiate_one_shot's edit: `b |= 1 << 1`. */
  function WithOst(b: byte): (r: byte)
    ensures r & !OST_BIT == b & !OST_BIT
    ensures r & OST_BIT == OST_BIT
  {
    b | OST_BIT
  }

  /** Triggering a one-shot measurement leaves the mode bit as it was read. */
  lemma OneShotKeepsMode(b: byte, m: Mode)
    ensures AltBit(WithOst(WithMode(b, m))) == ModeValue(m)
  {
  }

  /** The trigger write carries the ALT bit of the byte it was made from. */
  lemma TriggerKeepsAlt(b: byte)
    ensures AltBit(WithOst(b)) == AltBit(b)
  {
  }

  /** The configuration byte init writes selects the altimeter when CTRL_REG1_ALT is bit 7. */
  lemma ConfigSelectsAltimeter(regs: RegisterMap)
    requires regs.alt == ALT_BIT
    ensures AltBit(CtrlConfig(regs)) == ModeValue(Altimeter)
  {
  }
}
