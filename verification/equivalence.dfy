/** The two copies of the driver logic side by side: each routine of ADXL345_user.c, started on a
    window in the same state as the kernel's, leaves the same register trace, receive queue,
    status script and clock, and returns the same result as its ADXL345_driver.c counterpart. */
module Equivalence {
  import opened Registers
  import opened Sample
  import Protocol
  import KernelDriver
  import UserProgram

  /** Two distinct windows that start out alike. */
  predicate Alike(k: KernelDriver.AccelDriver, u: UserProgram.UserProgram)
    reads k, u, k.i2c0, u.i2c0Base
  {
    k.i2c0 != u.i2c0Base && k.i2c0.State() == u.i2c0Base.State()
  }

  method MuxInitAgrees(k: KernelDriver.AccelDriver, u: UserProgram.UserProgram)
    requires k.sysmgr != u.sysmgrBase && k.sysmgr.writes == u.sysmgrBase.writes
    modifies k.sysmgr, u.sysmgrBase
    ensures k.sysmgr.writes == u.sysmgrBase.writes
  {
    k.MuxInit();
    u.MuxInit();
  }

  method OnOffAgrees(k: KernelDriver.AccelDriver, u: UserProgram.UserProgram, onoff: Word)
    returns (kGood: int, uGood: int)
    requires Alike(k, u) && |k.i2c0.status| > Protocol.MAX_POLL_COUNT
    modifies k.i2c0, u.i2c0Base
    ensures Alike(k, u) && kGood == uGood
  {
    kGood := k.OnOff(onoff);
    uGood := u.OnOff(onoff);
  }

  method I2cInitAgrees(k: KernelDriver.AccelDriver, u: UserProgram.UserProgram)
    returns (kOk: int, uOk: int)
    requires Alike(k, u) && |k.i2c0.status| > 2 * Protocol.MAX_POLL_COUNT + 1
    modifies k.i2c0, u.i2c0Base
    ensures Alike(k, u) && kOk == uOk
  {
    kOk := k.I2cInit();
    uOk := u.I2cInit();
  }

  method RegReadAgrees(k: KernelDriver.AccelDriver, u: UserProgram.UserProgram, address: Byte)
    returns (kValue: Byte, uValue: Byte)
    requires Alike(k, u) && k.i2c0.rx != []
    modifies k.i2c0, u.i2c0Base
    ensures Alike(k, u) && kValue == uValue
  {
    kValue := k.RegRead(address);
    uValue := u.RegRead(address);
  }

  method RegWriteAgrees(k: KernelDriver.AccelDriver, u: UserProgram.UserProgram, address: Byte, value: Byte)
    requires Alike(k, u)
    modifies k.i2c0, u.i2c0Base
    ensures Alike(k, u)
  {
    k.RegWrite(address, value);
    u.RegWrite(address, value);
  }

  method MultiReadAgrees(k: KernelDriver.AccelDriver, u: UserProgram.UserProgram, address: Byte,
                         kValues: array<Byte>, uValues: array<Byte>, len: Byte)
    requires Alike(k, u) && kValues != uValues
    requires len as int <= kValues.Length && len as int <= uValues.Length && len as int <= |k.i2c0.rx|
    modifies k.i2c0, u.i2c0Base, kValues, uValues
    ensures Alike(k, u) && kValues[..len] == uValues[..len]
  {
    k.MultiRead(address, kValues, len);
    u.MultiRead(address, uValues, len);
  }

  method Adxl345InitAgrees(k: KernelDriver.AccelDriver, u: UserProgram.UserProgram)
    requires Alike(k, u)
    modifies k.i2c0, u.i2c0Base
    ensures Alike(k, u)
  {
    k.Adxl345Init();
    u.Adxl345Init();
  }

  method IsDataReadyAgrees(k: KernelDriver.AccelDriver, u: UserProgram.UserProgram)
    returns (kReady: int, uReady: int)
    requires Alike(k, u) && Protocol.ReadyAnswered(k.i2c0.rx)
    modifies k.i2c0, u.i2c0Base
    ensures Alike(k, u) && kReady == uReady
  {
    kReady := k.IsDataReady();
    uReady := u.IsDataReady();
  }

  method XyzReadAgrees(k: KernelDriver.AccelDriver, u: UserProgram.UserProgram,
                       kData: array<Int16>, uData: array<Int16>)
    requires Alike(k, u) && kData != uData && kData.Length == 3 && uData.Length == 3 && |k.i2c0.rx| >= 6
    modifies k.i2c0, u.i2c0Base, kData, uData
    ensures Alike(k, u) && kData[..] == uData[..]
  {
    k.XyzRead(kData);
    u.XyzRead(uData);
  }

  method IdReadAgrees(k: KernelDriver.AccelDriver, u: UserProgram.UserProgram)
    returns (kId: Byte, uId: Byte)
    requires Alike(k, u) && k.i2c0.rx != []
    modifies k.i2c0, u.i2c0Base
    ensures Alike(k, u) && kId == uId
  {
    kId := k.IdRead();
    uId := u.IdRead();
  }
}
