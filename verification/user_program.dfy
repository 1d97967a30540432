/** ADXL345_user.c: the user-space copy of the register routines, driving the same windows
    through i2c0_base_ptr and sysmgr_base_ptr. Each routine carries the same contract as its
    kernel counterpart in KernelDriver, namely equality with the Protocol function of the same
    name, so for the same window state the two copies leave identical register traces and return
    identical results. */
module UserProgram {
  import opened Registers
  import opened Hardware
  import opened Sample
  import Protocol

  class UserProgram {
    /** i2c0_base_ptr and sysmgr_base_ptr. */
    const i2c0Base: I2cWindow
    const sysmgrBase: SysMgrWindow

    constructor (i2c0Base: I2cWindow, sysmgrBase: SysMgrWindow)
      ensures this.i2c0Base == i2c0Base && this.sysmgrBase == sysmgrBase
    {
      this.i2c0Base := i2c0Base;
      this.sysmgrBase := sysmgrBase;
    }

    method MuxInit()
      modifies sysmgrBase
      ensures sysmgrBase.writes == old(sysmgrBase.writes) + Protocol.MUX_WRITES
    {
      sysmgrBase.Store(I2c0UseFpga, 0);
      sysmgrBase.Store(GeneralIo7, 1);
      sysmgrBase.Store(GeneralIo8, 1);
    }

    method OnOff(onoff: Word) returns (good: int)
      requires |i2c0Base.status| > Protocol.MAX_POLL_COUNT
      modifies i2c0Base
      ensures Protocol.After(i2c0Base.State(), good) == Protocol.OnOff(old(i2c0Base.State()), onoff)
    {
      ghost var b := i2c0Base.State();
      var pollCount := 0;
      i2c0Base.Store(Enable, onoff);
      var status := i2c0Base.LoadEnableStatus();
      while Protocol.Stays(status, onoff) && pollCount < Protocol.MAX_POLL_COUNT
        invariant 0 <= pollCount <= Protocol.MAX_POLL_COUNT
        invariant i2c0Base.State() == b.(writes := b.writes + Protocol.Repeat(Write(Enable, onoff), pollCount + 1),
                                         status := b.status[pollCount + 1..])
        invariant status == b.status[pollCount]
        invariant forall j | 0 <= j < pollCount :: Protocol.Stays(b.status[j], onoff)
        decreases Protocol.MAX_POLL_COUNT - pollCount
      {
        pollCount := pollCount + 1;
        i2c0Base.Store(Enable, onoff);
        status := i2c0Base.LoadEnableStatus();
      }
      Protocol.PollsIsFirstMove(b.status, onoff, pollCount);
      good := if pollCount < 10 then 1 else 0;
    }

    method I2cInit() returns (ok: int)
      requires |i2c0Base.status| > 2 * Protocol.MAX_POLL_COUNT + 1
      modifies i2c0Base
      ensures Protocol.After(i2c0Base.State(), ok) == Protocol.I2cInit(old(i2c0Base.State()))
    {
      ghost var b := i2c0Base.State();
      i2c0Base.Store(Enable, 0x2);
      var good := OnOff(2);
      ghost var off := Protocol.OnOff(b.(writes := b.writes + [Write(Enable, Protocol.DISABLE_CODE)]), Protocol.DISABLE_CODE);
      assert i2c0Base.State() == off.bus && good == off.value;
      if good == 0 {
        return 0;
      }
      i2c0Base.Store(Con, 0x65);
      i2c0Base.Store(Tar, 0x53);
      i2c0Base.Store(FsSclHcnt, 60 + 30);
      i2c0Base.Store(FsSclLcnt, 130 + 30);
      assert i2c0Base.State() == off.bus.(writes := off.bus.writes + Protocol.CONFIG_WRITES);
      good := OnOff(1);
      if good == 0 {
        return 0;
      }
      return 1;
    }

    method RegRead(address: Byte) returns (value: Byte)
      requires i2c0Base.rx != []
      modifies i2c0Base
      ensures Protocol.After(i2c0Base.State(), value) == Protocol.RegRead(old(i2c0Base.State()), address)
    {
      ghost var b := i2c0Base.State();
      ghost var arrival := b.rx[0].arrival;
      i2c0Base.Store(DataCmd, StartWord(address));
      i2c0Base.Store(DataCmd, READ_TOKEN);
      var level := i2c0Base.LoadRxflr();
      while level == 0
        invariant i2c0Base.State() == b.(writes := i2c0Base.writes, clock := i2c0Base.clock)
        invariant i2c0Base.writes == b.writes + [Write(DataCmd, StartWord(address)), Write(DataCmd, READ_TOKEN)]
        invariant b.clock < i2c0Base.clock && (i2c0Base.clock == b.clock + 1 || i2c0Base.clock <= arrival + 1)
        invariant level > 0 <==> arrival <= i2c0Base.clock - 1
        decreases arrival + 1 - i2c0Base.clock
      {
        level := i2c0Base.LoadRxflr();
      }
      var word := i2c0Base.LoadDataCmd();
      value := LowByte(word);
    }

    method RegWrite(address: Byte, value: Byte)
      modifies i2c0Base
      ensures i2c0Base.State() == Protocol.RegWrite(old(i2c0Base.State()), address, value)
    {
      i2c0Base.Store(DataCmd, StartWord(address));
      i2c0Base.Store(DataCmd, value);
    }

    method Adxl345Init()
      modifies i2c0Base
      ensures i2c0Base.State() == Protocol.Adxl345Init(old(i2c0Base.State()))
    {
      var dataFormat: Byte := 0x03;
      var bwRate: Byte := 0x07;
      RegWrite(DATA_FORMAT, dataFormat);
      RegWrite(BW_RATE, bwRate);
      RegWrite(THRESH_ACT, 0x04);
      RegWrite(THRESH_INACT, 0x02);
      RegWrite(TIME_INACT, 0x02);
      RegWrite(ACT_INACT_CTL, 0xFF);
      RegWrite(INT_ENABLE, 0x18);
      RegWrite(POWER_CTL, 0x00);
      RegWrite(POWER_CTL, 0x08);
    }

    method MultiRead(address: Byte, values: array<Byte>, len: Byte)
      requires len as int <= values.Length && len as int <= |i2c0Base.rx|
      modifies i2c0Base, values
      ensures var r := Protocol.MultiRead(old(i2c0Base.State()), address, len);
        i2c0Base.State() == r.bus && values[..len] == r.value
      ensures values[len..] == old(values[len..])
    {
      ghost var b := i2c0Base.State();
      i2c0Base.Store(DataCmd, StartWord(address));
      for i := 0 to len
        invariant i2c0Base.State() == b.(writes := b.writes + [Write(DataCmd, StartWord(address))]
                                                      + Protocol.Repeat(Write(DataCmd, READ_TOKEN), i))
        invariant unchanged(values)
      {
        i2c0Base.Store(DataCmd, READ_TOKEN);
        assert Protocol.Repeat(Write(DataCmd, READ_TOKEN), i) + [Write(DataCmd, READ_TOKEN)]
            == Protocol.Repeat(Write(DataCmd, READ_TOKEN), i + 1);
      }
      var nthByte := 0;
      var remaining := len;
      ghost var finish, v0 := Protocol.DrainClock(b.rx, b.clock, len), values[..];
      while remaining > 0
        invariant nthByte + remaining as int == len as int
        invariant i2c0Base.writes == b.writes + [Write(DataCmd, StartWord(address))]
                                          + Protocol.Repeat(Write(DataCmd, READ_TOKEN), len)
        invariant Protocol.Draining(b, i2c0Base.State(), nthByte, remaining as int, finish)
        invariant forall j | 0 <= j < nthByte :: values[j] == LowByte(b.rx[j].word)
        invariant values[nthByte..] == v0[nthByte..]
        decreases finish - i2c0Base.clock
      {
        ghost var before := i2c0Base.State();
        var level := i2c0Base.LoadRxflr();
        if level > 0 {
          var word := i2c0Base.LoadDataCmd();
          values[nthByte] := LowByte(word);
          Protocol.DrainingPop(b, before, i2c0Base.State(), nthByte, remaining as int, finish);
          nthByte := nthByte + 1;
          remaining := remaining - 1;
        } else {
          Protocol.DrainingWait(b, before, i2c0Base.State(), nthByte, remaining as int, finish);
        }
      }
      assert values[..len] == Protocol.MultiRead(b, address, len).value;
    }

    method IsDataReady() returns (ready: int)
      requires Protocol.ReadyAnswered(i2c0Base.rx)
      modifies i2c0Base
      ensures Protocol.After(i2c0Base.State(), ready) == Protocol.IsDataReady(old(i2c0Base.State()))
    {
      ready := 0;
      var data8 := RegRead(INT_SOURCE);
      if HasBit(data8, ACTIVITY) {
        data8 := RegRead(INT_SOURCE);
        if HasBit(data8, DATAREADY) {
          ready := 1;
        }
      }
    }

    method XyzRead(szData16: array<Int16>)
      requires szData16.Length == 3 && |i2c0Base.rx| >= 6
      modifies i2c0Base, szData16
      ensures var r := Protocol.XyzRead(old(i2c0Base.State()));
        i2c0Base.State() == r.bus && szData16[..] == r.value
    {
      var szData8 := new Byte[6];
      MultiRead(DATAX0, szData8, 6);
      szData16[0] := AssembleAxis(szData8[0], szData8[1]);
      szData16[1] := AssembleAxis(szData8[2], szData8[3]);
      szData16[2] := AssembleAxis(szData8[4], szData8[5]);
      assert szData8[..] == szData8[..6];
    }

    method IdRead() returns (id: Byte)
      requires i2c0Base.rx != []
      modifies i2c0Base
      ensures Protocol.After(i2c0Base.State(), id) == Protocol.IdRead(old(i2c0Base.State()))
    {
      id := RegRead(DEVID);
    }
  }
}
