/** Register maps shared by the kernel driver and the user-space program: the ADXL345's own
    registers, the command bits of the I2C controller's IC_DATA_CMD register, and the
    registers of the two memory-mapped windows (I2C0 controller, system manager). */
module Registers {

  /** An 8-bit value (u8 / uint8_t). */
  type Byte = x: int | 0 <= x < 0x100

  /** A 32-bit register value (unsigned int). */
  type Word = x: int | 0 <= x < 0x1_0000_0000

  // ADXL345 register addresses
  const DEVID: Byte := 0x00
  const BW_RATE: Byte := 0x2C
  const POWER_CTL: Byte := 0x2D
  const THRESH_ACT: Byte := 0x24
  const THRESH_INACT: Byte := 0x25
  const TIME_INACT: Byte := 0x26
  const ACT_INACT_CTL: Byte := 0x27
  const INT_ENABLE: Byte := 0x2E
  const INT_SOURCE: Byte := 0x30
  const DATA_FORMAT: Byte := 0x31
  /** First of the six data registers DATAX0..DATAZ1 (a literal in ADXL345_XYZ_Read). */
  const DATAX0: Byte := 0x32

  // INT_SOURCE bits
  const ACTIVITY: Byte := 0x10
  const DATAREADY: Byte := 0x80

  /** 7-bit bus address of the ADXL345, programmed into the controller's TAR register. */
  const ADXL345_ADDRESS: Word := 0x53

  // IC_DATA_CMD command words: bit 10 starts a transfer, bit 8 requests one byte
  const START_FLAG: Word := 0x400
  const READ_TOKEN: Word := 0x100

  /** Registers of the I2C0 controller window; their numeric offsets live in a platform header
      that is not part of this model, so they are distinct symbolic names. */
  datatype I2cReg = Con | Tar | DataCmd | FsSclHcnt | FsSclLcnt | Enable | Rxflr | EnableStatus

  /** Registers of the system-manager window that route the I2C0 pins. */
  datatype SysMgrReg = GeneralIo7 | GeneralIo8 | I2c0UseFpga

  /** `x & mask` is nonzero. */
  predicate HasBit(x: Byte, mask: Byte)
  {
    (x as bv8) & (mask as bv8) != 0
  }

  /** The low eight bits of a register word (`w & 0xFF`). */
  function LowByte(w: Word): Byte
  {
    w % 0x100
  }

  /** The address word `address + 0x400` that the driver writes: the start bit is set, the read
      bit is clear, and the word's low byte is the address. */
  function StartWord(address: Byte): (w: Word)
    ensures LowByte(w) == address && (w / 0x400) % 2 == 1 && (w / 0x100) % 2 == 0
  {
    address + START_FLAG
  }

  /** The sum is the same word as `address | 0x400`: an 8-bit register address never reaches the
      start bit. */
  lemma StartIsOr(address: Byte)
    ensures StartWord(address) == ((address as bv16) | (START_FLAG as bv16)) as int
  {
    var a := address as bv16;
    ByteAsBv16(address);
    OrBelowStart(a);
  }

  lemma ByteAsBv16(x: Byte)
    ensures (x as bv16) as int == x && x as bv16 < 0x100
  {
  }

  lemma OrBelowStart(a: bv16)
    requires a < 0x100
    ensures a | 0x400 == a + 0x400 && (a + 0x400) as int == a as int + 0x400
  {
  }
}
