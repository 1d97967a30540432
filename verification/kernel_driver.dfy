/** ADXL345_driver.c: the kernel module's register routines over the mapped I2C0 and
    system-manager windows, and the `accel_read` state machine over the module globals. Every
    routine is proved to produce exactly the trace and result that Protocol specifies. */
module KernelDriver {
  import opened Registers
  import opened Hardware
  import opened Sample
  import Decimal
  import Protocol

  class AccelDriver {
    /** I2C0_ptr and SYSMGR_ptr. */
    const i2c0: I2cWindow
    const sysmgr: SysMgrWindow
    /** XYZ: three 16-bit cells. XYZ_Read fills them through an s16 view; accel_read reads them
        back as u16, which ScaleMg accounts for. */
    const xyz: array<Int16>
    /** reg_read: the formatted line, handed out one character per call. */
    const regRead: array<char>
    var newData: Int16
    var xmg: Int16
    var ymg: Int16
    var zmg: Int16
    var indRead: Int16
    /** The text last formatted into reg_read; empty before the first sample. */
    ghost var line: string

    ghost predicate Valid()
      reads this, regRead
    {
      && xyz.Length == 3 && regRead.Length == 32
      && |line| < 32 && '\0' !in line
      && regRead[..|line|] == line && regRead[|line|] == '\0'
      && 0 <= indRead as int <= |line|
    }

    /** new_data, xmg, ymg, zmg and the contents of XYZ. */
    ghost function Readings(): Protocol.Readings
      reads this`newData, this`xmg, this`ymg, this`zmg, xyz
    {
      Protocol.Readings(xyz[..], newData, xmg, ymg, zmg)
    }

    /** The module's static state once both windows are mapped: every global zero. */
    constructor (i2c0: I2cWindow, sysmgr: SysMgrWindow)
      ensures Valid() && this.i2c0 == i2c0 && this.sysmgr == sysmgr
      ensures indRead == 0 && Readings() == Protocol.Readings([0, 0, 0], 0, 0, 0, 0) && line == ""
    {
      this.i2c0 := i2c0;
      this.sysmgr := sysmgr;
      xyz := new Int16[3](_ => 0);
      regRead := new char[32](_ => '\0');
      newData, xmg, ymg, zmg, indRead := 0, 0, 0, 0, 0;
      line := "";
    }

    method MuxInit()
      modifies sysmgr
      ensures sysmgr.writes == old(sysmgr.writes) + Protocol.MUX_WRITES
    {
      sysmgr.Store(I2c0UseFpga, 0);
      sysmgr.Store(GeneralIo7, 1);
      sysmgr.Store(GeneralIo8, 1);
    }

    method OnOff(onoff: Word) returns (good: int)
      requires |i2c0.status| > Protocol.MAX_POLL_COUNT
      modifies i2c0
      ensures Protocol.After(i2c0.State(), good) == Protocol.OnOff(old(i2c0.State()), onoff)
    {
      ghost var b := i2c0.State();
      var pollCount := 0;
      i2c0.Store(Enable, onoff);
      var status := i2c0.LoadEnableStatus();
      while Protocol.Stays(status, onoff) && pollCount < Protocol.MAX_POLL_COUNT
        invariant 0 <= pollCount <= Protocol.MAX_POLL_COUNT
        invariant i2c0.State() == b.(writes := b.writes + Protocol.Repeat(Write(Enable, onoff), pollCount + 1),
                                     status := b.status[pollCount + 1..])
        invariant status == b.status[pollCount]
        invariant forall j | 0 <= j < pollCount :: Protocol.Stays(b.status[j], onoff)
        decreases Protocol.MAX_POLL_COUNT - pollCount
      {
        pollCount := pollCount + 1;
        i2c0.Store(Enable, onoff);
        status := i2c0.LoadEnableStatus();
      }
      Protocol.PollsIsFirstMove(b.status, onoff, pollCount);
      good := if pollCount < 10 then 1 else 0;
    }

    method I2cInit() returns (ok: int)
      requires |i2c0.status| > 2 * Protocol.MAX_POLL_COUNT + 1
      modifies i2c0
      ensures Protocol.After(i2c0.State(), ok) == Protocol.I2cInit(old(i2c0.State()))
    {
      ghost var b := i2c0.State();
      i2c0.Store(Enable, 0x2);
      var good := OnOff(2);
      ghost var off := Protocol.OnOff(b.(writes := b.writes + [Write(Enable, Protocol.DISABLE_CODE)]), Protocol.DISABLE_CODE);
      assert i2c0.State() == off.bus && good == off.value;
      if good == 0 {
        return 0;
      }
      i2c0.Store(Con, 0x65);
      i2c0.Store(Tar, 0x53);
      i2c0.Store(FsSclHcnt, 60 + 30);
      i2c0.Store(FsSclLcnt, 130 + 30);
      assert i2c0.State() == off.bus.(writes := off.bus.writes + Protocol.CONFIG_WRITES);
      good := OnOff(1);
      if good == 0 {
        return 0;
      }
      return 1;
    }

    method RegRead(address: Byte) returns (value: Byte)
      requires i2c0.rx != []
      modifies i2c0
      ensures Protocol.After(i2c0.State(), value) == Protocol.RegRead(old(i2c0.State()), address)
    {
      ghost var b := i2c0.State();
      ghost var arrival := b.rx[0].arrival;
      i2c0.Store(DataCmd, StartWord(address));
      i2c0.Store(DataCmd, READ_TOKEN);
      var level := i2c0.LoadRxflr();
      while level == 0
        invariant i2c0.State() == b.(writes := i2c0.writes, clock := i2c0.clock)
        invariant i2c0.writes == b.writes + [Write(DataCmd, StartWord(address)), Write(DataCmd, READ_TOKEN)]
        invariant b.clock < i2c0.clock && (i2c0.clock == b.clock + 1 || i2c0.clock <= arrival + 1)
        invariant level > 0 <==> arrival <= i2c0.clock - 1
        decreases arrival + 1 - i2c0.clock
      {
        level := i2c0.LoadRxflr();
      }
      var word := i2c0.LoadDataCmd();
      value := LowByte(word);
    }

    method RegWrite(address: Byte, value: Byte)
      modifies i2c0
      ensures i2c0.State() == Protocol.RegWrite(old(i2c0.State()), address, value)
    {
      i2c0.Store(DataCmd, StartWord(address));
      i2c0.Store(DataCmd, value);
    }

    method Adxl345Init()
      modifies i2c0
      ensures i2c0.State() == Protocol.Adxl345Init(old(i2c0.State()))
    {
      var dataFormat: Byte := 0x03;
      var bwRate: Byte := 0x07;
      RegWrite(DATA_FORMAT, dataFormat);
      RegWrite(BW_RATE, bwRate);
      RegWrite(THRESH_ACT, 0x04);
      RegWrite(THRESH_INACT, 0x02);
      RegWrite(TIME_INACT, 0x02);
      RegWrite(ACT_INACT_CTL, 0xFF);
      RegWrite(INT_ENABLE, 0x18);
      RegWrite(POWER_CTL, 0x00);
      RegWrite(POWER_CTL, 0x08);
    }

    method MultiRead(address: Byte, values: array<Byte>, len: Byte)
      requires len as int <= values.Length && len as int <= |i2c0.rx|
      modifies i2c0, values
      ensures var r := Protocol.MultiRead(old(i2c0.State()), address, len);
        i2c0.State() == r.bus && values[..len] == r.value
      ensures values[len..] == old(values[len..])
    {
      ghost var b := i2c0.State();
      i2c0.Store(DataCmd, StartWord(address));
      for i := 0 to len
        invariant i2c0.State() == b.(writes := b.writes + [Write(DataCmd, StartWord(address))]
                                                      + Protocol.Repeat(Write(DataCmd, READ_TOKEN), i))
        invariant unchanged(values)
      {
        i2c0.Store(DataCmd, READ_TOKEN);
        assert Protocol.Repeat(Write(DataCmd, READ_TOKEN), i) + [Write(DataCmd, READ_TOKEN)]
            == Protocol.Repeat(Write(DataCmd, READ_TOKEN), i + 1);
      }
      var nthByte := 0;
      var remaining := len;
      ghost var finish, v0 := Protocol.DrainClock(b.rx, b.clock, len), values[..];
      while remaining > 0
        invariant nthByte + remaining as int == len as int
        invariant i2c0.writes == b.writes + [Write(DataCmd, StartWord(address))]
                                          + Protocol.Repeat(Write(DataCmd, READ_TOKEN), len)
        invariant Protocol.Draining(b, i2c0.State(), nthByte, remaining as int, finish)
        invariant forall j | 0 <= j < nthByte :: values[j] == LowByte(b.rx[j].word)
        invariant values[nthByte..] == v0[nthByte..]
        decreases finish - i2c0.clock
      {
        ghost var before := i2c0.State();
        var level := i2c0.LoadRxflr();
        if level > 0 {
          var word := i2c0.LoadDataCmd();
          values[nthByte] := LowByte(word);
          Protocol.DrainingPop(b, before, i2c0.State(), nthByte, remaining as int, finish);
          nthByte := nthByte + 1;
          remaining := remaining - 1;
        } else {
          Protocol.DrainingWait(b, before, i2c0.State(), nthByte, remaining as int, finish);
        }
      }
      assert values[..len] == Protocol.MultiRead(b, address, len).value;
    }

    method IsDataReady() returns (ready: int)
      requires Protocol.ReadyAnswered(i2c0.rx)
      modifies i2c0
      ensures Protocol.After(i2c0.State(), ready) == Protocol.IsDataReady(old(i2c0.State()))
    {
      ready := 0;
      var data8 := RegRead(INT_SOURCE);
      if HasBit(data8, ACTIVITY) {
        data8 := RegRead(INT_SOURCE);
        if HasBit(data8, DATAREADY) {
          ready := 1;
        }
      }
    }

    method XyzRead(szData16: array<Int16>)
      requires szData16.Length == 3 && |i2c0.rx| >= 6
      modifies i2c0, szData16
      ensures var r := Protocol.XyzRead(old(i2c0.State()));
        i2c0.State() == r.bus && szData16[..] == r.value
    {
      var szData8 := new Byte[6];
      MultiRead(DATAX0, szData8, 6);
      szData16[0] := AssembleAxis(szData8[0], szData8[1]);
      szData16[1] := AssembleAxis(szData8[2], szData8[3]);
      szData16[2] := AssembleAxis(szData8[4], szData8[5]);
      assert szData8[..] == szData8[..6];
    }

    method IdRead() returns (id: Byte)
      requires i2c0.rx != []
      modifies i2c0
      ensures Protocol.After(i2c0.State(), id) == Protocol.IdRead(old(i2c0.State()))
    {
      id := RegRead(DEVID);
    }

    /** accel_read: with the cursor at 0, sample and reformat the line; then hand out one
        character, or reset the cursor. Returns the new cursor; `copied` is what put_user
        delivered. */
    method Read(length: nat) returns (r: int, copied: string)
      requires Valid()
      requires indRead == 0 ==> Protocol.SampleAnswered(i2c0.rx)
      modifies this, i2c0, xyz, regRead
      ensures Valid()
      ensures old(indRead) == 0 ==>
        var s := Protocol.SampleStep(old(i2c0.State()), old(Readings()));
        && i2c0.State() == s.bus && Readings() == s.value
        && line == Decimal.FormatLine(newData, xmg, ymg, zmg, Protocol.MG_PER_LSB)
      ensures old(indRead) != 0 ==>
        i2c0.State() == old(i2c0.State()) && Readings() == old(Readings()) && line == old(line)
      ensures (indRead as int, copied) == Protocol.CursorStep(old(indRead) as int, line, length)
      ensures r == indRead as int
    {
      if indRead == 0 {
        TakeSample();
      }
      r, copied := CopyOut(length);
    }

    /** The output half of accel_read: hand out the character under the cursor and advance, or
        reset the cursor at the NUL or when the caller's buffer has no room. */
    method CopyOut(length: nat) returns (r: int, copied: string)
      requires Valid()
      modifies this`indRead
      ensures Valid()
      ensures (indRead as int, copied) == Protocol.CursorStep(old(indRead) as int, line, length)
      ensures r == indRead as int
    {
      assert regRead[indRead] != '\0' <==> (indRead as int) < |line|;
      assert (indRead as int) < |line| ==> regRead[indRead] == line[indRead];
      if regRead[indRead] != '\0' && length != 0 {
        copied := [regRead[indRead]];
        indRead := indRead + 1;
      } else {
        copied := [];
        indRead := 0;
      }
      r := indRead as int;
    }

    /** The sampling half of accel_read, ending with the sprintf into reg_read. */
    method TakeSample()
      requires Valid() && indRead == 0 && Protocol.SampleAnswered(i2c0.rx)
      modifies this, i2c0, xyz, regRead
      ensures Valid() && indRead == 0
      ensures var s := Protocol.SampleStep(old(i2c0.State()), old(Readings()));
        && i2c0.State() == s.bus && Readings() == s.value
        && line == Decimal.FormatLine(newData, xmg, ymg, zmg, Protocol.MG_PER_LSB)
    {
      ghost var b, prev := i2c0.State(), Readings();
      Protocol.IsDataReadyRx(b);
      var ready := IsDataReady();
      assert indRead == 0;
      if ready != 0 {
        XyzRead(xyz);
        xmg := ScaleMg(xyz[0], Protocol.MG_PER_LSB);
        ymg := ScaleMg(xyz[1], Protocol.MG_PER_LSB);
        zmg := ScaleMg(xyz[2], Protocol.MG_PER_LSB);
        newData := 1;
        Protocol.SampleStepWhenReady(b, prev);
        assert Readings() == Protocol.Readings(xyz[..], 1, xmg, ymg, zmg);
      } else {
        newData := 0;
        Protocol.SampleStepWhenIdle(b, prev);
        assert Readings() == prev.(newData := 0);
      }
      StoreLine();
    }

    /** The `sprintf` into reg_read: the formatted line followed by its terminating NUL. */
    method StoreLine()
      requires xyz.Length == 3 && regRead.Length == 32 && indRead == 0 && 0 <= newData <= 1
      modifies this`line, regRead
      ensures Valid()
      ensures line == Decimal.FormatLine(newData, xmg, ymg, zmg, Protocol.MG_PER_LSB)
    {
      var text := Decimal.FormatLine(newData, xmg, ymg, zmg, Protocol.MG_PER_LSB);
      Decimal.LineFits(newData, xmg, ymg, zmg, Protocol.MG_PER_LSB);
      PutLine(text);
    }

    /** Copies a NUL-free text of fewer than 32 characters into reg_read and terminates it. */
    method PutLine(text: string)
      requires xyz.Length == 3 && regRead.Length == 32 && indRead == 0
      requires |text| < 32 && '\0' !in text
      modifies this`line, regRead
      ensures Valid() && line == text
    {
      forall i | 0 <= i < |text| {
        regRead[i] := text[i];
      }
      regRead[|text|] := '\0';
      line := text;
      assert regRead[..|line|] == line;
    }
  }
}
