/** The register-level behaviour of the ADXL345 driver, once, as functions from the I2C0 window's
    state before an operation to its state after it and the operation's result. Both the kernel
    module (KernelDriver) and the user-space program (UserProgram) are proved to produce exactly
    these traces and results. */
module Protocol {
  import opened Registers
  import opened Hardware
  import opened Transactions
  import Sample

  /** The window's state after an operation, and what the operation returned. */
  datatype After<T> = After(bus: BusState, value: T)

  function Repeat<T>(x: T, n: nat): seq<T>
  {
    seq(n, _ => x)
  }

  /** `after` is `before` followed by exactly the DATA_CMD stores that encode the transfers `ts`. */
  predicate IssuesTransfers(before: seq<Write>, after: seq<Write>, ts: seq<Txn>)
  {
    |before| <= |after| && after[..|before|] == before && after[|before|..] == Stores(Encode(ts))
  }

  /** What such stores mean: the DATA_CMD trace grows by words that decode to exactly `ts`. */
  lemma IssuedTransfersDecode(before: seq<Write>, after: seq<Write>, ts: seq<Txn>)
    requires IssuesTransfers(before, after, ts)
    ensures DataCmdWords(after) == DataCmdWords(before) + Encode(ts)
    ensures Decode(DataCmdWords(after)[|DataCmdWords(before)|..]) == Some(ts)
  {
    assert after == before + Stores(Encode(ts));
    DataCmdTraceGrows(before, Encode(ts));
    DecodeEncode(ts);
  }

  /** Two operations in a row issue the first one's transfers followed by the second one's. */
  lemma IssuesTransfersChain(w0: seq<Write>, w1: seq<Write>, w2: seq<Write>, t1: seq<Txn>, t2: seq<Txn>)
    requires IssuesTransfers(w0, w1, t1) && IssuesTransfers(w1, w2, t2)
    ensures IssuesTransfers(w0, w2, t1 + t2)
  {
    var s1, s2 := Stores(Encode(t1)), Stores(Encode(t2));
    ExtendsBy(w0, w1, s1);
    ExtendsBy(w1, w2, s2);
    assert Stores(Encode(t1 + t2)) == s1 + s2 by {
      EncodeAppend(t1, t2);
      StoresAppend(Encode(t1), Encode(t2));
    }
    ExtendsTwice(w0, s1, s2);
  }

  lemma ExtendsBy(before: seq<Write>, after: seq<Write>, tail: seq<Write>)
    requires |before| <= |after| && after[..|before|] == before && after[|before|..] == tail
    ensures after == before + tail
  {
  }

  lemma ExtendsTwice(w: seq<Write>, a: seq<Write>, c: seq<Write>)
    ensures var after := w + a + c;
      |w| <= |after| && after[..|w|] == w && after[|w|..] == a + c
  {
    assert w + a + c == w + (a + c);
  }

  // ---------------------------------------------------------------------------------------------
  // Enable/disable handshake: I2C0_OnOff

  const MAX_POLL_COUNT: nat := 100
  const GOOD_POLL_LIMIT: nat := 10

  /** The loop test `(ENABLE_STATUS & 0x1) == (onoff - 1)`, with `onoff - 1` in unsigned int. */
  predicate Stays(status: Word, onoff: Word)
  {
    status % 2 == (onoff + 0xFFFF_FFFF) % 0x1_0000_0000
  }

  /** The final poll_count of the handshake loop when the loop test is first evaluated on
      `status[k]` with poll_count == k: the first scripted value that no longer stays, capped at
      MAX_POLL_COUNT. */
  function Polls(status: seq<Word>, onoff: Word, k: nat): (n: nat)
    requires k <= MAX_POLL_COUNT < |status|
    ensures k <= n <= MAX_POLL_COUNT
    ensures forall j | k <= j < n :: Stays(status[j], onoff)
    ensures n < MAX_POLL_COUNT ==> !Stays(status[n], onoff)
    decreases MAX_POLL_COUNT - k
  {
    if k < MAX_POLL_COUNT && Stays(status[k], onoff) then Polls(status, onoff, k + 1) else k
  }

  /** I2C0_OnOff: ENABLE is stored once before the loop and once per poll. The status register is
      read before `poll_count < 100` is tested, so the test at poll_count == 100 still reads it. */
  function OnOff(b: BusState, onoff: Word): After<int>
    requires |b.status| > MAX_POLL_COUNT
  {
    var n := Polls(b.status, onoff, 0);
    After(b.(writes := b.writes + Repeat(Write(Enable, onoff), n + 1), status := b.status[n + 1..]),
          if n < GOOD_POLL_LIMIT then 1 else 0)
  }

  /** The handshake reports success exactly when the status bit moves within the first ten reads;
      it stores ENABLE (always with `onoff`) once per status read, at most 101 times, and polls
      until the first read whose bit has moved. */
  lemma OnOffOutcome(b: BusState, onoff: Word)
    requires |b.status| > MAX_POLL_COUNT
    ensures var r := OnOff(b, onoff);
      var stores := |r.bus.writes| - |b.writes|;
      && (r.value == 1 <==> exists k | 0 <= k < GOOD_POLL_LIMIT :: !Stays(b.status[k], onoff))
      && (r.value == 0 || r.value == 1)
      && 1 <= stores <= MAX_POLL_COUNT + 1
      && r.bus.writes == b.writes + Repeat(Write(Enable, onoff), stores)
      && r.bus.status == b.status[stores..]
      && (forall j | 0 <= j < stores - 1 :: Stays(b.status[j], onoff))
      && (stores <= MAX_POLL_COUNT ==> !Stays(b.status[stores - 1], onoff))
      && r.bus.rx == b.rx && r.bus.clock == b.clock
  {
    var n := Polls(b.status, onoff, 0);
    if n < GOOD_POLL_LIMIT {
      assert !Stays(b.status[n], onoff);
    }
  }

  /** A controller that reaches the requested state on poll `flip` < 10 is reported ready after
      `flip` + 1 ENABLE stores. */
  lemma OnOffEarlyFlipSucceeds(b: BusState, onoff: Word, flip: nat)
    requires |b.status| > MAX_POLL_COUNT && flip < GOOD_POLL_LIMIT
    requires forall j | 0 <= j < flip :: Stays(b.status[j], onoff)
    requires !Stays(b.status[flip], onoff)
    ensures OnOff(b, onoff).value == 1
    ensures OnOff(b, onoff).bus.writes == b.writes + Repeat(Write(Enable, onoff), flip + 1)
  {
    PollsIsFirstMove(b.status, onoff, flip);
  }

  /** A controller that reaches the requested state on poll 10..99 is nevertheless reported as a
      failure. */
  lemma OnOffLateFlipFails(b: BusState, onoff: Word, flip: nat)
    requires |b.status| > MAX_POLL_COUNT && GOOD_POLL_LIMIT <= flip < MAX_POLL_COUNT
    requires forall j | 0 <= j < flip :: Stays(b.status[j], onoff)
    requires !Stays(b.status[flip], onoff)
    ensures OnOff(b, onoff).value == 0
    ensures |OnOff(b, onoff).bus.writes| == |b.writes| + flip + 1
  {
    PollsIsFirstMove(b.status, onoff, flip);
  }

  /** A controller that never reaches the requested state gets exactly 101 ENABLE stores (100
      polls) and a failure report. */
  lemma OnOffNeverFlipsFails(b: BusState, onoff: Word)
    requires |b.status| > MAX_POLL_COUNT
    requires forall j | 0 <= j <= MAX_POLL_COUNT :: Stays(b.status[j], onoff)
    ensures OnOff(b, onoff).value == 0
    ensures OnOff(b, onoff).bus.writes == b.writes + Repeat(Write(Enable, onoff), MAX_POLL_COUNT + 1)
  {
    PollsIsFirstMove(b.status, onoff, MAX_POLL_COUNT);
  }

  /** Polls is the first index at which the bit has moved, or the cap. */
  lemma PollsIsFirstMove(status: seq<Word>, onoff: Word, n: nat)
    requires n <= MAX_POLL_COUNT < |status|
    requires forall j | 0 <= j < n :: Stays(status[j], onoff)
    requires n < MAX_POLL_COUNT ==> !Stays(status[n], onoff)
    ensures Polls(status, onoff, 0) == n
  {
    PollsFrom(status, onoff, 0, n);
  }

  lemma {:induction false} PollsFrom(status: seq<Word>, onoff: Word, k: nat, n: nat)
    requires k <= n <= MAX_POLL_COUNT < |status|
    requires forall j | k <= j < n :: Stays(status[j], onoff)
    requires n < MAX_POLL_COUNT ==> !Stays(status[n], onoff)
    ensures Polls(status, onoff, k) == n
    decreases n - k
  {
    if k < n {
      PollsFrom(status, onoff, k + 1, n);
    }
  }

  /** While the bit stays on the first `m` reads, the loop runs at least `m` polls. */
  lemma {:induction false} PollsAtLeast(status: seq<Word>, onoff: Word, k: nat, m: nat)
    requires k <= MAX_POLL_COUNT < |status| && m <= MAX_POLL_COUNT
    requires forall j | k <= j < m :: Stays(status[j], onoff)
    ensures Polls(status, onoff, k) >= m
    decreases MAX_POLL_COUNT - k
  {
    if k < m {
      PollsAtLeast(status, onoff, k + 1, m);
    }
  }


  // ---------------------------------------------------------------------------------------------
  // Pin multiplexing: mux_init

  /** The system-manager stores of mux_init: I2C0 is taken away from the FPGA fabric
      (I2C0USEFPGA = 0) and GENERALIO7/GENERALIO8 hand the two pins to it (value 1). */
  const MUX_WRITES: seq<SysWrite> :=
    [SysWrite(I2c0UseFpga, 0), SysWrite(GeneralIo7, 1), SysWrite(GeneralIo8, 1)]

  /** The values a sequence of system-manager stores puts into `reg`, in order: the same projection
      as `WritesToPairs` for ADXL345 registers, over the system manager's own register names. */
  function SysWritesTo(ws: seq<SysWrite>, reg: SysMgrReg): seq<Word>
  {
    if ws == [] then [] else (if ws[0].reg == reg then [ws[0].value] else []) + SysWritesTo(ws[1..], reg)
  }

  /** mux_init stores each of the three mux registers exactly once, with I2C0USEFPGA = 0 first,
      then GENERALIO7 = 1, then GENERALIO8 = 1. */
  lemma MuxWritesEffect()
    ensures SysWritesTo(MUX_WRITES, I2c0UseFpga) == [0]
    ensures SysWritesTo(MUX_WRITES, GeneralIo7) == [1]
    ensures SysWritesTo(MUX_WRITES, GeneralIo8) == [1]
    ensures |MUX_WRITES| == 3 && MUX_WRITES[0].reg == I2c0UseFpga
    ensures MUX_WRITES[1].reg == GeneralIo7 && MUX_WRITES[2].reg == GeneralIo8
  {
    var m := MUX_WRITES;
    assert m[1..] == [m[1], m[2]] && m[1..][1..] == [m[2]] && m[1..][1..][1..] == [];
  }

  // ---------------------------------------------------------------------------------------------
  // Controller bring-up: I2C0_Init

  /** ENABLE values: 2 aborts and disables, 1 enables. */
  const DISABLE_CODE: Word := 2
  const ENABLE_CODE: Word := 1

  /** IC_CON: 7-bit addressing, fast mode (400 kbit/s), master. */
  const CON_VALUE: Word := 0x65
  /** SCL high and low counts: the fast-mode minima of 0.6 us and 1.3 us plus 0.3 us each. */
  const HCNT_VALUE: Word := 60 + 30
  const LCNT_VALUE: Word := 130 + 30

  /** The configuration stores made while the controller is disabled. */
  const CONFIG_WRITES: seq<Write> :=
    [Write(Con, CON_VALUE), Write(Tar, ADXL345_ADDRESS), Write(FsSclHcnt, HCNT_VALUE), Write(FsSclLcnt, LCNT_VALUE)]

  // Fast-mode SCL timing (section 6.1, table 10 of the I2C-bus specification UM10204), counted in
  // periods of the controller's 100 MHz reference clock.
  const IC_CLK_PERIOD_NS: nat := 10
  const T_HIGH_MIN_NS: nat := 600
  const T_LOW_MIN_NS: nat := 1300
  const MARGIN_NS: nat := 300

  lemma FastModeTiming()
    ensures HCNT_VALUE * IC_CLK_PERIOD_NS == T_HIGH_MIN_NS + MARGIN_NS
    ensures LCNT_VALUE * IC_CLK_PERIOD_NS == T_LOW_MIN_NS + MARGIN_NS
    ensures (HCNT_VALUE + LCNT_VALUE) * IC_CLK_PERIOD_NS == 2500
  {
  }

  /** I2C0_Init: store ENABLE = 2, run the disable handshake; on failure return 0, otherwise
      configure, run the enable handshake and return its verdict. */
  function I2cInit(b: BusState): After<int>
    requires |b.status| > 2 * MAX_POLL_COUNT + 1
  {
    var off := OnOff(b.(writes := b.writes + [Write(Enable, DISABLE_CODE)]), DISABLE_CODE);
    if off.value == 0 then After(off.bus, 0)
    else
      var on := OnOff(off.bus.(writes := off.bus.writes + CONFIG_WRITES), ENABLE_CODE);
      After(on.bus, if on.value == 0 then 0 else 1)
  }

  /** The exact store trace of I2C0_Init, split by the poll counts of its two handshakes. */
  lemma I2cInitTrace(b: BusState)
    requires |b.status| > 2 * MAX_POLL_COUNT + 1
    ensures var r := I2cInit(b);
      var n1 := Polls(b.status, DISABLE_CODE, 0);
      var disabled := Repeat(Write(Enable, DISABLE_CODE), n1 + 2);
      && r.bus.rx == b.rx && r.bus.clock == b.clock
      && (n1 >= GOOD_POLL_LIMIT ==> r.value == 0 && r.bus.writes == b.writes + disabled)
      && (n1 < GOOD_POLL_LIMIT ==>
            var n2 := Polls(b.status[n1 + 1..], ENABLE_CODE, 0);
            && r.bus.writes == b.writes + disabled + CONFIG_WRITES + Repeat(Write(Enable, ENABLE_CODE), n2 + 1)
            && (r.value == 1 <==> n2 < GOOD_POLL_LIMIT))
  {
    var n1 := Polls(b.status, DISABLE_CODE, 0);
    var b1 := b.(writes := b.writes + [Write(Enable, DISABLE_CODE)]);
    assert [Write(Enable, DISABLE_CODE)] + Repeat(Write(Enable, DISABLE_CODE), n1 + 1)
        == Repeat(Write(Enable, DISABLE_CODE), n1 + 2);
    assert b1.writes + Repeat(Write(Enable, DISABLE_CODE), n1 + 1)
        == b.writes + Repeat(Write(Enable, DISABLE_CODE), n1 + 2);
  }

  /** The last value stored into register `r`, if any. */
  function LastStore(ws: seq<Write>, r: I2cReg): Option<Word>
  {
    if ws == [] then None
    else if ws[|ws| - 1].reg == r then Some(ws[|ws| - 1].value)
    else LastStore(ws[..|ws| - 1], r)
  }

  lemma {:induction false} LastStoreAppend(a: seq<Write>, b: seq<Write>, r: I2cReg)
    ensures LastStore(a + b, r) == if LastStore(b, r).Some? then LastStore(b, r) else LastStore(a, r)
    decreases |b|
  {
    if b == [] {
      assert a + b == a;
    } else {
      assert (a + b)[..|a + b| - 1] == a + b[..|b| - 1];
      LastStoreAppend(a, b[..|b| - 1], r);
    }
  }

  lemma {:induction false} LastStoreRepeat(w: Write, n: nat, r: I2cReg)
    ensures LastStore(Repeat(w, n), r) == if n > 0 && w.reg == r then Some(w.value) else None
    decreases n
  {
    if n > 0 {
      assert Repeat(w, n)[..n - 1] == Repeat(w, n - 1);
      LastStoreRepeat(w, n - 1, r);
    }
  }

  lemma ConfigLastStores()
    ensures LastStore(CONFIG_WRITES, Con) == Some(CON_VALUE)
    ensures LastStore(CONFIG_WRITES, Tar) == Some(ADXL345_ADDRESS)
    ensures LastStore(CONFIG_WRITES, FsSclHcnt) == Some(HCNT_VALUE)
    ensures LastStore(CONFIG_WRITES, FsSclLcnt) == Some(LCNT_VALUE)
  {
    var c := CONFIG_WRITES;
    assert c[..3] == [c[0], c[1], c[2]] && c[..3][..2] == [c[0], c[1]] && c[..3][..2][..1] == [c[0]];
    assert c[..3][..2] == c[..2] && c[..2][..1] == c[..1];
    assert LastStore(c, Tar) == LastStore(c[..3], Tar);
    assert LastStore(c[..3], Tar) == LastStore(c[..2], Tar);
    assert LastStore(c, Con) == LastStore(c[..3], Con);
    assert LastStore(c[..3], Con) == LastStore(c[..2], Con);
    assert LastStore(c[..2], Con) == LastStore(c[..1], Con);
  }

  /** A successful bring-up leaves the controller configured for the ADXL345 and last told to
      enable. */
  lemma I2cInitConfigures(b: BusState)
    requires |b.status| > 2 * MAX_POLL_COUNT + 1
    ensures var r := I2cInit(b);
      r.value == 1 ==>
        && LastStore(r.bus.writes, Con) == Some(CON_VALUE)
        && LastStore(r.bus.writes, Tar) == Some(ADXL345_ADDRESS)
        && LastStore(r.bus.writes, FsSclHcnt) == Some(HCNT_VALUE)
        && LastStore(r.bus.writes, FsSclLcnt) == Some(LCNT_VALUE)
        && LastStore(r.bus.writes, Enable) == Some(ENABLE_CODE)
  {
    I2cInitTrace(b);
    var r := I2cInit(b);
    if r.value == 1 {
      var n1 := Polls(b.status, DISABLE_CODE, 0);
      var n2 := Polls(b.status[n1 + 1..], ENABLE_CODE, 0);
      ConfiguredStores(b.writes + Repeat(Write(Enable, DISABLE_CODE), n1 + 2), n2 + 1);
    }
  }

  lemma ConfiguredStores(pre: seq<Write>, n: nat)
    requires n > 0
    ensures var ws := pre + CONFIG_WRITES + Repeat(Write(Enable, ENABLE_CODE), n);
      && LastStore(ws, Con) == Some(CON_VALUE)
      && LastStore(ws, Tar) == Some(ADXL345_ADDRESS)
      && LastStore(ws, FsSclHcnt) == Some(HCNT_VALUE)
      && LastStore(ws, FsSclLcnt) == Some(LCNT_VALUE)
      && LastStore(ws, Enable) == Some(ENABLE_CODE)
  {
    var cfg := pre + CONFIG_WRITES;
    var tail := Repeat(Write(Enable, ENABLE_CODE), n);
    forall reg: I2cReg
      ensures LastStore(cfg + tail, reg) == if reg == Enable then Some(ENABLE_CODE) else LastStore(cfg, reg)
    {
      LastStoreAppend(cfg, tail, reg);
      LastStoreRepeat(Write(Enable, ENABLE_CODE), n, reg);
    }
    ConfigLastStores();
    LastStoreAppend(pre, CONFIG_WRITES, Con);
    LastStoreAppend(pre, CONFIG_WRITES, Tar);
    LastStoreAppend(pre, CONFIG_WRITES, FsSclHcnt);
    LastStoreAppend(pre, CONFIG_WRITES, FsSclLcnt);
  }

  /** If the disable handshake fails, I2C0_Init returns 0 having stored nothing but ENABLE = 2:
      CON, TAR and the SCL counts are untouched. */
  lemma I2cInitDisableFailure(b: BusState)
    requires |b.status| > 2 * MAX_POLL_COUNT + 1
    requires forall k | 0 <= k < GOOD_POLL_LIMIT :: Stays(b.status[k], DISABLE_CODE)
    ensures var r := I2cInit(b);
      && r.value == 0
      && |b.writes| < |r.bus.writes|
      && r.bus.writes[..|b.writes|] == b.writes
      && forall i | |b.writes| <= i < |r.bus.writes| :: r.bus.writes[i] == Write(Enable, DISABLE_CODE)
  {
    I2cInitTrace(b);
    PollsAtLeast(b.status, DISABLE_CODE, 0, GOOD_POLL_LIMIT);
  }

  // ---------------------------------------------------------------------------------------------
  // Transfer primitives: ADXL345_REG_WRITE, ADXL345_REG_READ, ADXL345_REG_MULTI_READ

  /** ADXL345_REG_WRITE: the address word, then the value. */
  function RegWrite(b: BusState, address: Byte, value: Byte): BusState
  {
    b.(writes := b.writes + [Write(DataCmd, StartWord(address)), Write(DataCmd, value)])
  }

  /** The tick of the RXFLR poll that first sees a byte arriving at `arrival`, polling from
      `clock` on. */
  function ReadyTick(clock: nat, arrival: nat): (t: nat)
    ensures t >= clock && t >= arrival
  {
    if clock < arrival then arrival else clock
  }

  /** ADXL345_REG_READ: address word, one read token, spin on RXFLR, pop one word, keep its low
      byte. */
  function RegRead(b: BusState, address: Byte): After<Byte>
    requires b.rx != []
  {
    After(b.(writes := b.writes + [Write(DataCmd, StartWord(address)), Write(DataCmd, READ_TOKEN)],
             rx := b.rx[1..],
             clock := ReadyTick(b.clock, b.rx[0].arrival) + 1),
          LowByte(b.rx[0].word))
  }

  /** The clock after the drain loop pops `n` words, polling RXFLR once per iteration. */
  function DrainClock(rx: seq<RxEntry>, clock: nat, n: nat): (c: nat)
    requires n <= |rx|
    ensures c >= clock + n
    decreases n
  {
    if n == 0 then clock else DrainClock(rx[1..], ReadyTick(clock, rx[0].arrival) + 1, n - 1)
  }

  /** Draining `n` bytes ends after every one of them has arrived. */
  lemma {:induction false} DrainClockAfterArrivals(rx: seq<RxEntry>, clock: nat, n: nat)
    requires n <= |rx|
    ensures forall i | 0 <= i < n :: DrainClock(rx, clock, n) > rx[i].arrival
    decreases n
  {
    if n > 0 {
      DrainClockAfterArrivals(rx[1..], ReadyTick(clock, rx[0].arrival) + 1, n - 1);
      assert forall i | 1 <= i < n :: rx[i] == rx[1..][i - 1];
    }
  }

  /** A poll of RXFLR before the head byte has arrived only spends a tick. */
  lemma DrainClockWait(rx: seq<RxEntry>, clock: nat, n: nat)
    requires 0 < n <= |rx| && rx[0].arrival > clock
    ensures DrainClock(rx, clock + 1, n) == DrainClock(rx, clock, n)
  {
  }

  /** A poll of RXFLR once the head byte has arrived is followed by popping it. */
  lemma DrainClockPop(rx: seq<RxEntry>, clock: nat, n: nat)
    requires 0 < n <= |rx| && rx[0].arrival <= clock
    ensures DrainClock(rx[1..], clock + 1, n - 1) == DrainClock(rx, clock, n)
  {
  }

  /** Part-way through MULTI_READ's drain loop: `done` words of `b`'s queue have been popped, `left`
      are still to come, and draining them from bus state `c` ends at tick `finish`. */
  ghost predicate Draining(b: BusState, c: BusState, done: nat, left: nat, finish: nat)
  {
    done <= |b.rx| && c.rx == b.rx[done..] && c.status == b.status
    && left <= |c.rx| && DrainClock(c.rx, c.clock, left) == finish
  }

  /** A drain-loop iteration whose poll of RXFLR finds the head word not yet arrived only spends
      a tick. */
  lemma DrainingWait(b: BusState, c: BusState, c': BusState, done: nat, left: nat, finish: nat)
    requires Draining(b, c, done, left, finish) && left > 0 && c.rx[0].arrival > c.clock
    requires c'.rx == c.rx && c'.status == c.status && c'.clock == c.clock + 1
    ensures Draining(b, c', done, left, finish)
  {
    DrainClockWait(c.rx, c.clock, left);
  }

  /** A drain-loop iteration whose poll finds the head word arrived pops the next word of `b`'s
      queue. */
  lemma DrainingPop(b: BusState, c: BusState, c': BusState, done: nat, left: nat, finish: nat)
    requires Draining(b, c, done, left, finish) && left > 0 && c.rx[0].arrival <= c.clock
    requires c'.rx == c.rx[1..] && c'.status == c.status && c'.clock == c.clock + 1
    ensures c.rx[0] == b.rx[done] && Draining(b, c', done + 1, left - 1, finish)
  {
    DrainClockPop(c.rx, c.clock, left);
    assert b.rx[done..][1..] == b.rx[done + 1..];
  }

  /** ADXL345_REG_MULTI_READ: one address word, `len` read tokens, then `len` words drained in
      arrival order. */
  function MultiRead(b: BusState, address: Byte, len: Byte): After<seq<Byte>>
    requires len <= |b.rx|
  {
    After(b.(writes := b.writes + [Write(DataCmd, StartWord(address))] + Repeat(Write(DataCmd, READ_TOKEN), len),
             rx := b.rx[len..],
             clock := DrainClock(b.rx, b.clock, len)),
          seq(len, i requires 0 <= i < len => LowByte(b.rx[i].word)))
  }

  /** REG_WRITE is one write transfer of `value` to register `address`, and touches nothing but
      DATA_CMD. */
  lemma RegWriteTrace(b: BusState, address: Byte, value: Byte)
    ensures var r := RegWrite(b, address, value);
      && IssuesTransfers(b.writes, r.writes, [Txn(address, [Put(value)])])
      && r.rx == b.rx && r.status == b.status && r.clock == b.clock
  {
    var ts := [Txn(address, [Put(value)])];
    assert Encode(ts) == [StartWord(address), value];
  }

  /** REG_READ is one single-byte read transfer from `address`; it pops exactly the head of the
      receive FIFO, only once that byte has arrived, and returns its low byte. */
  lemma RegReadTrace(b: BusState, address: Byte)
    requires b.rx != []
    ensures var r := RegRead(b, address);
      && IssuesTransfers(b.writes, r.bus.writes, [Txn(address, [Get])])
      && r.value == LowByte(b.rx[0].word)
      && r.bus.rx == b.rx[1..] && r.bus.status == b.status
      && r.bus.clock > b.rx[0].arrival && r.bus.clock > b.clock
  {
    var ts := [Txn(address, [Get])];
    assert Encode(ts) == [StartWord(address), READ_TOKEN];
  }

  /** MULTI_READ is one burst-read transfer of `len` bytes from `address`; the i-th result is the
      low byte of the i-th FIFO word, exactly `len` words are popped, each after it arrived. */
  lemma MultiReadTrace(b: BusState, address: Byte, len: Byte)
    requires len <= |b.rx|
    ensures var r := MultiRead(b, address, len);
      && IssuesTransfers(b.writes, r.bus.writes, [Txn(address, Repeat(Get, len))])
      && |r.value| == len
      && (forall i | 0 <= i < len :: r.value[i] == LowByte(b.rx[i].word))
      && r.bus.rx == b.rx[len..] && r.bus.status == b.status
      && (forall i | 0 <= i < len :: r.bus.clock > b.rx[i].arrival)
  {
    DrainClockAfterArrivals(b.rx, b.clock, len);
    var ts := [Txn(address, Repeat(Get, len))];
    assert EncodeOps(Repeat(Get, len)) == Repeat(READ_TOKEN, len);
    assert Encode(ts) == [StartWord(address)] + Repeat(READ_TOKEN, len);
    var r := MultiRead(b, address, len);
    assert r.bus.writes[|b.writes|..] == [Write(DataCmd, StartWord(address))] + Repeat(Write(DataCmd, READ_TOKEN), len);
  }

  // ---------------------------------------------------------------------------------------------
  // ADXL345_Init

  /** The (register, value) pairs ADXL345_Init writes, in order: +-16 g full resolution, output
      rate code 7, activity/inactivity thresholds and control, activity and data-ready interrupts,
      then standby followed by measurement mode. */
  const INIT_SEQUENCE: seq<(Byte, Byte)> := [
    (DATA_FORMAT, 0x03), (BW_RATE, 0x07),
    (THRESH_ACT, 0x04), (THRESH_INACT, 0x02), (TIME_INACT, 0x02), (ACT_INACT_CTL, 0xFF),
    (INT_ENABLE, 0x18),
    (POWER_CTL, 0x00), (POWER_CTL, 0x08)]

  /** Successive REG_WRITEs of `pairs`. */
  function RegWrites(b: BusState, pairs: seq<(Byte, Byte)>): BusState
    decreases |pairs|
  {
    if pairs == [] then b else RegWrites(RegWrite(b, pairs[0].0, pairs[0].1), pairs[1..])
  }

  /** ADXL345_Init: nine REG_WRITEs. */
  function Adxl345Init(b: BusState): BusState
  {
    var b := RegWrite(b, DATA_FORMAT, 0x03);
    var b := RegWrite(b, BW_RATE, 0x07);
    var b := RegWrite(b, THRESH_ACT, 0x04);
    var b := RegWrite(b, THRESH_INACT, 0x02);
    var b := RegWrite(b, TIME_INACT, 0x02);
    var b := RegWrite(b, ACT_INACT_CTL, 0xFF);
    var b := RegWrite(b, INT_ENABLE, 0x18);
    var b := RegWrite(b, POWER_CTL, 0x00);
    RegWrite(b, POWER_CTL, 0x08)
  }

  /** One single-byte write transfer per pair. */
  function WriteTxns(pairs: seq<(Byte, Byte)>): seq<Txn>
  {
    seq(|pairs|, i requires 0 <= i < |pairs| => Txn(pairs[i].0, [Put(pairs[i].1)]))
  }

  lemma {:induction false} RegWritesTrace(b: BusState, pairs: seq<(Byte, Byte)>)
    ensures var r := RegWrites(b, pairs);
      && IssuesTransfers(b.writes, r.writes, WriteTxns(pairs))
      && r.rx == b.rx && r.status == b.status && r.clock == b.clock
    decreases |pairs|
  {
    if pairs != [] {
      var b1 := RegWrite(b, pairs[0].0, pairs[0].1);
      var ts := WriteTxns(pairs);
      RegWriteTrace(b, pairs[0].0, pairs[0].1);
      RegWritesTrace(b1, pairs[1..]);
      assert ts == [Txn(pairs[0].0, [Put(pairs[0].1)])] + WriteTxns(pairs[1..]);
      IssuesTransfersChain(b.writes, b1.writes, RegWrites(b1, pairs[1..]).writes,
                           [Txn(pairs[0].0, [Put(pairs[0].1)])], WriteTxns(pairs[1..]));
    }
  }

  lemma StoresAppend(a: seq<Word>, c: seq<Word>)
    ensures Stores(a + c) == Stores(a) + Stores(c)
  {
  }

  /** ADXL345_Init is the fold of REG_WRITE over INIT_SEQUENCE, so it issues exactly those nine
      single-byte write transfers, in order, and nothing else. */
  lemma Adxl345InitTrace(b: BusState)
    ensures Adxl345Init(b) == RegWrites(b, INIT_SEQUENCE)
    ensures var r := Adxl345Init(b);
      && IssuesTransfers(b.writes, r.writes, WriteTxns(INIT_SEQUENCE))
      && r.rx == b.rx && r.status == b.status && r.clock == b.clock
  {
    Adxl345InitIsFold(b);
    RegWritesTrace(b, INIT_SEQUENCE);
  }

  lemma Adxl345InitIsFold(b: BusState)
    ensures Adxl345Init(b) == RegWrites(b, INIT_SEQUENCE)
  {
    var p := INIT_SEQUENCE;
    var b1 := RegWrite(b, p[0].0, p[0].1);
    assert RegWrites(b, p[0..]) == RegWrites(b1, p[1..]) by { RegWritesUnfold(b, p, 0); }
    var b2 := RegWrite(b1, p[1].0, p[1].1);
    assert RegWrites(b1, p[1..]) == RegWrites(b2, p[2..]) by { RegWritesUnfold(b1, p, 1); }
    var b3 := RegWrite(b2, p[2].0, p[2].1);
    assert RegWrites(b2, p[2..]) == RegWrites(b3, p[3..]) by { RegWritesUnfold(b2, p, 2); }
    var b4 := RegWrite(b3, p[3].0, p[3].1);
    assert RegWrites(b3, p[3..]) == RegWrites(b4, p[4..]) by { RegWritesUnfold(b3, p, 3); }
    var b5 := RegWrite(b4, p[4].0, p[4].1);
    assert RegWrites(b4, p[4..]) == RegWrites(b5, p[5..]) by { RegWritesUnfold(b4, p, 4); }
    var b6 := RegWrite(b5, p[5].0, p[5].1);
    assert RegWrites(b5, p[5..]) == RegWrites(b6, p[6..]) by { RegWritesUnfold(b5, p, 5); }
    var b7 := RegWrite(b6, p[6].0, p[6].1);
    assert RegWrites(b6, p[6..]) == RegWrites(b7, p[7..]) by { RegWritesUnfold(b6, p, 6); }
    var b8 := RegWrite(b7, p[7].0, p[7].1);
    assert RegWrites(b7, p[7..]) == RegWrites(b8, p[8..]) by { RegWritesUnfold(b7, p, 7); }
    var b9 := RegWrite(b8, p[8].0, p[8].1);
    assert RegWrites(b8, p[8..]) == RegWrites(b9, p[9..]) by { RegWritesUnfold(b8, p, 8); }
    assert p[9..] == [] && p[0..] == p;
  }

  lemma RegWritesUnfold(b: BusState, p: seq<(Byte, Byte)>, i: nat)
    requires i < |p|
    ensures RegWrites(b, p[i..]) == RegWrites(RegWrite(b, p[i].0, p[i].1), p[i + 1..])
  {
    assert p[i..][1..] == p[i + 1..];
  }

  /** Register by register, the device receives DATA_FORMAT = 0x03, BW_RATE = 0x07,
      THRESH_ACT = 0x04, THRESH_INACT = 0x02, TIME_INACT = 0x02, ACT_INACT_CTL = 0xFF,
      INT_ENABLE = 0x18, and POWER_CTL = 0x00 (standby) followed by 0x08 (measure); no other
      register is written. */
  lemma InitSequenceEffect()
    ensures var ts := WriteTxns(INIT_SEQUENCE);
      && WritesTo(ts, DATA_FORMAT) == [0x03]
      && WritesTo(ts, BW_RATE) == [0x07]
      && WritesTo(ts, THRESH_ACT) == [0x04]
      && WritesTo(ts, THRESH_INACT) == [0x02]
      && WritesTo(ts, TIME_INACT) == [0x02]
      && WritesTo(ts, ACT_INACT_CTL) == [0xFF]
      && WritesTo(ts, INT_ENABLE) == [0x18]
      && WritesTo(ts, POWER_CTL) == [0x00, 0x08]
    ensures forall reg: Byte | reg !in {DATA_FORMAT, BW_RATE, THRESH_ACT, THRESH_INACT, TIME_INACT,
                                        ACT_INACT_CTL, INT_ENABLE, POWER_CTL} ::
      WritesTo(WriteTxns(INIT_SEQUENCE), reg) == []
  {
    forall reg: Byte
      ensures WritesTo(WriteTxns(INIT_SEQUENCE), reg) == InitWritesTo(reg)
    {
      WritesToSingleWrites(INIT_SEQUENCE, reg);
      InitSequenceUnfolded(reg);
    }
    InitWritesToValues();
  }

  lemma InitWritesToValues()
    ensures InitWritesTo(DATA_FORMAT) == [0x03] && InitWritesTo(BW_RATE) == [0x07]
    ensures InitWritesTo(THRESH_ACT) == [0x04] && InitWritesTo(THRESH_INACT) == [0x02]
    ensures InitWritesTo(TIME_INACT) == [0x02] && InitWritesTo(ACT_INACT_CTL) == [0xFF]
    ensures InitWritesTo(INT_ENABLE) == [0x18] && InitWritesTo(POWER_CTL) == [0x00, 0x08]
    ensures forall reg: Byte | reg !in {DATA_FORMAT, BW_RATE, THRESH_ACT, THRESH_INACT, TIME_INACT,
                                        ACT_INACT_CTL, INT_ENABLE, POWER_CTL} ::
      InitWritesTo(reg) == []
  {
  }

  /** WritesToPairs(INIT_SEQUENCE, reg), pair by pair. It is the same function as
      `WritesToPairs(INIT_SEQUENCE, ·)` (InitSequenceUnfolded); the unrolled, right-nested form
      only keeps the per-register evaluation in InitWritesToValues cheap for the solver. */
  function InitWritesTo(reg: Byte): seq<Byte>
  {
    var p := INIT_SEQUENCE;
    WriteOf(p[0], reg) + (WriteOf(p[1], reg) + (WriteOf(p[2], reg) + (WriteOf(p[3], reg)
      + (WriteOf(p[4], reg) + (WriteOf(p[5], reg) + (WriteOf(p[6], reg) + (WriteOf(p[7], reg)
      + WriteOf(p[8], reg))))))))
  }

  lemma InitSequenceUnfolded(reg: Byte)
    ensures WritesToPairs(INIT_SEQUENCE, reg) == InitWritesTo(reg)
  {
    WritesToPairsOfNine(INIT_SEQUENCE, reg);
  }

  lemma WritesToPairsOfNine(p: seq<(Byte, Byte)>, reg: Byte)
    requires |p| == 9
    ensures WritesToPairs(p, reg)
         == WriteOf(p[0], reg) + (WriteOf(p[1], reg) + (WriteOf(p[2], reg) + (WriteOf(p[3], reg)
          + (WriteOf(p[4], reg) + (WriteOf(p[5], reg) + (WriteOf(p[6], reg) + (WriteOf(p[7], reg)
          + WriteOf(p[8], reg))))))))
  {
    var w8 := WriteOf(p[8], reg);
    assert WritesToPairs(p[8..], reg) == w8 by {
      WritesToPairsUnfold(p, 8, reg);
      assert p[9..] == [];
    }
    var w7 := WriteOf(p[7], reg) + w8;
    assert WritesToPairs(p[7..], reg) == w7 by { WritesToPairsUnfold(p, 7, reg); }
    var w6 := WriteOf(p[6], reg) + w7;
    assert WritesToPairs(p[6..], reg) == w6 by { WritesToPairsUnfold(p, 6, reg); }
    var w5 := WriteOf(p[5], reg) + w6;
    assert WritesToPairs(p[5..], reg) == w5 by { WritesToPairsUnfold(p, 5, reg); }
    var w4 := WriteOf(p[4], reg) + w5;
    assert WritesToPairs(p[4..], reg) == w4 by { WritesToPairsUnfold(p, 4, reg); }
    var w3 := WriteOf(p[3], reg) + w4;
    assert WritesToPairs(p[3..], reg) == w3 by { WritesToPairsUnfold(p, 3, reg); }
    var w2 := WriteOf(p[2], reg) + w3;
    assert WritesToPairs(p[2..], reg) == w2 by { WritesToPairsUnfold(p, 2, reg); }
    var w1 := WriteOf(p[1], reg) + w2;
    assert WritesToPairs(p[1..], reg) == w1 by { WritesToPairsUnfold(p, 1, reg); }
    var w0 := WriteOf(p[0], reg) + w1;
    assert WritesToPairs(p[0..], reg) == w0 by { WritesToPairsUnfold(p, 0, reg); }
    assert p[0..] == p;
  }

  lemma WritesToPairsUnfold(p: seq<(Byte, Byte)>, i: nat, reg: Byte)
    requires i < |p|
    ensures WritesToPairs(p[i..], reg) == WriteOf(p[i], reg) + WritesToPairs(p[i + 1..], reg)
  {
    assert p[i..][1..] == p[i + 1..];
  }

  /** The value a single-byte write of `pair` puts into `reg`, if any. */
  function WriteOf(pair: (Byte, Byte), reg: Byte): seq<Byte>
  {
    if pair.0 == reg then [pair.1] else []
  }

  /** The values a sequence of single-byte writes puts into `reg`. */
  function WritesToPairs(pairs: seq<(Byte, Byte)>, reg: Byte): seq<Byte>
  {
    if pairs == [] then [] else WriteOf(pairs[0], reg) + WritesToPairs(pairs[1..], reg)
  }

  lemma {:induction false} WritesToSingleWrites(pairs: seq<(Byte, Byte)>, reg: Byte)
    ensures WritesTo(WriteTxns(pairs), reg) == WritesToPairs(pairs, reg)
    decreases |pairs|
  {
    if pairs != [] {
      var ts := WriteTxns(pairs);
      assert ts[0] == Txn(pairs[0].0, [Put(pairs[0].1)]);
      assert OpsWritesTo([Put(pairs[0].1)], pairs[0].0, reg) == WriteOf(pairs[0], reg);
      assert ts[1..] == WriteTxns(pairs[1..]);
      WritesToSingleWrites(pairs[1..], reg);
    }
  }

  // ---------------------------------------------------------------------------------------------
  // ADXL345_IsDataReady

  /** The responder answers every INT_SOURCE read that IsDataReady makes. */
  predicate ReadyAnswered(rx: seq<RxEntry>)
  {
    |rx| >= 1 && (HasBit(LowByte(rx[0].word), ACTIVITY) ==> |rx| >= 2)
  }

  /** ADXL345_IsDataReady: read INT_SOURCE; only if ACTIVITY is set, read it again and test
      DATAREADY. */
  function IsDataReady(b: BusState): After<int>
    requires ReadyAnswered(b.rx)
  {
    var first := RegRead(b, INT_SOURCE);
    if HasBit(first.value, ACTIVITY) then
      var second := RegRead(first.bus, INT_SOURCE);
      After(second.bus, if HasBit(second.value, DATAREADY) then 1 else 0)
    else
      After(first.bus, 0)
  }

  /** IsDataReady answers 1 exactly when the first INT_SOURCE byte has ACTIVITY and the second has
      DATAREADY; it makes one INT_SOURCE read transfer when ACTIVITY is clear and two otherwise. */
  lemma IsDataReadyOutcome(b: BusState)
    requires ReadyAnswered(b.rx)
    ensures var r := IsDataReady(b);
      var active := HasBit(LowByte(b.rx[0].word), ACTIVITY);
      var count := if active then 2 else 1;
      && (r.value == 1 <==> active && HasBit(LowByte(b.rx[1].word), DATAREADY))
      && (r.value == 0 || r.value == 1)
      && IssuesTransfers(b.writes, r.bus.writes, Repeat(Txn(INT_SOURCE, [Get]), count))
      && r.bus.rx == b.rx[count..] && r.bus.status == b.status
  {
    var t := Txn(INT_SOURCE, [Get]);
    var first := RegRead(b, INT_SOURCE);
    RegReadTrace(b, INT_SOURCE);
    if HasBit(first.value, ACTIVITY) {
      RegReadTrace(first.bus, INT_SOURCE);
      assert Repeat(t, 2) == [t] + [t];
      assert Encode(Repeat(t, 2)) == Encode([t]) + Encode([t]);
      StoresAppend(Encode([t]), Encode([t]));
      assert b.rx[1..][1..] == b.rx[2..];
    } else {
      assert Repeat(t, 1) == [t];
    }
  }

  /** A positive answer from IsDataReady has consumed exactly the two INT_SOURCE bytes. */
  lemma IsDataReadyRx(b: BusState)
    requires ReadyAnswered(b.rx)
    ensures IsDataReady(b).value != 0 ==>
      && HasBit(LowByte(b.rx[0].word), ACTIVITY) && HasBit(LowByte(b.rx[1].word), DATAREADY)
      && IsDataReady(b).bus.rx == b.rx[2..]
  {
    if HasBit(LowByte(b.rx[0].word), ACTIVITY) {
      assert b.rx[1..][1..] == b.rx[2..];
    }
  }

  // ---------------------------------------------------------------------------------------------
  // ADXL345_XYZ_Read and ADXL345_IdRead

  /** ADXL345_XYZ_Read: a six-byte burst from DATAX0, decoded into X, Y, Z. */
  function XyzRead(b: BusState): After<seq<Sample.Int16>>
    requires |b.rx| >= 6
  {
    var m := MultiRead(b, DATAX0, 6);
    After(m.bus, Sample.Decode(m.value))
  }

  /** The s16 axis whose low byte is the k-th received byte and whose high byte is the next. */
  function AxisAt(rx: seq<RxEntry>, k: nat): Sample.Int16
    requires k + 1 < |rx|
  {
    Sample.Axis(LowByte(rx[k].word), LowByte(rx[k + 1].word))
  }

  /** XYZ_Read makes one six-byte burst read from DATAX0, and axis i is the s16 with low byte the
      (2i)-th and high byte the (2i+1)-th received byte. */
  lemma XyzReadOutcome(b: BusState)
    requires |b.rx| >= 6
    ensures var r := XyzRead(b);
      && IssuesTransfers(b.writes, r.bus.writes, [Txn(DATAX0, Repeat(Get, 6))])
      && r.value == [AxisAt(b.rx, 0), AxisAt(b.rx, 2), AxisAt(b.rx, 4)]
      && r.bus.rx == b.rx[6..] && r.bus.status == b.status
  {
    MultiReadTrace(b, DATAX0, 6);
    var bytes := MultiRead(b, DATAX0, 6).value;
    var xyz := Sample.Decode(bytes);
    assert xyz[0] == AxisAt(b.rx, 0) by {
      assert bytes[0] == LowByte(b.rx[0].word) && bytes[1] == LowByte(b.rx[1].word);
    }
    assert xyz[1] == AxisAt(b.rx, 2) by {
      assert bytes[2] == LowByte(b.rx[2].word) && bytes[3] == LowByte(b.rx[3].word);
    }
    assert xyz[2] == AxisAt(b.rx, 4) by {
      assert bytes[4] == LowByte(b.rx[4].word) && bytes[5] == LowByte(b.rx[5].word);
    }
  }

  /** ADXL345_IdRead: one read of DEVID. */
  function IdRead(b: BusState): After<Byte>
    requires b.rx != []
  {
    RegRead(b, DEVID)
  }

  lemma IdReadOutcome(b: BusState)
    requires b.rx != []
    ensures var r := IdRead(b);
      && IssuesTransfers(b.writes, r.bus.writes, [Txn(DEVID, [Get])])
      && r.value == LowByte(b.rx[0].word)
      && r.bus.rx == b.rx[1..]
  {
    RegReadTrace(b, DEVID);
  }

  // ---------------------------------------------------------------------------------------------
  // accel_read: sampling and the one-character cursor

  /** mg_per_lsb. */
  const MG_PER_LSB: Byte := 3

  /** The module globals that a sample refreshes: XYZ (read back through its declared u16 type by
      ScaleMg), new_data, xmg, ymg, zmg. */
  datatype Readings = Readings(xyz: seq<Sample.Int16>, newData: Sample.Int16,
                               xmg: Sample.Int16, ymg: Sample.Int16, zmg: Sample.Int16)

  /** The responder answers every read that one sampling step makes. */
  predicate SampleAnswered(rx: seq<RxEntry>)
  {
    ReadyAnswered(rx)
    && (HasBit(LowByte(rx[0].word), ACTIVITY) && HasBit(LowByte(rx[1].word), DATAREADY) ==> |rx| >= 8)
  }

  /** The sampling half of accel_read (taken when ind_read == 0). */
  function SampleStep(b: BusState, prev: Readings): After<Readings>
    requires SampleAnswered(b.rx)
  {
    IsDataReadyRx(b);
    var ready := IsDataReady(b);
    if ready.value != 0 then
      var s := XyzRead(ready.bus);
      After(s.bus, Readings(s.value, 1,
                            Sample.ScaleMg(s.value[0], MG_PER_LSB),
                            Sample.ScaleMg(s.value[1], MG_PER_LSB),
                            Sample.ScaleMg(s.value[2], MG_PER_LSB)))
    else
      After(ready.bus, prev.(newData := 0))
  }

  /** With data ready, new_data becomes 1, XYZ is the sample decoded from the six bytes after the
      two INT_SOURCE answers, and each mg value is 3 times its axis modulo 2^16 (exactly 3 times
      it when that fits in an s16). Otherwise new_data becomes 0 and everything else is kept. */
  lemma SampleStepOutcome(b: BusState, prev: Readings)
    requires SampleAnswered(b.rx)
    ensures var r := SampleStep(b, prev);
      var ready := HasBit(LowByte(b.rx[0].word), ACTIVITY) && HasBit(LowByte(b.rx[1].word), DATAREADY);
      && (ready ==>
            && r.value.newData == 1
            && r.value.xyz == [AxisAt(b.rx, 2), AxisAt(b.rx, 4), AxisAt(b.rx, 6)]
            && Sample.SameLow16(r.value.xmg, (r.value.xyz[0] as int) * 3)
            && Sample.SameLow16(r.value.ymg, (r.value.xyz[1] as int) * 3)
            && Sample.SameLow16(r.value.zmg, (r.value.xyz[2] as int) * 3)
            && r.bus.rx == b.rx[8..])
      && (!ready ==> r.value == prev.(newData := 0))
  {
    IsDataReadyOutcome(b);
    if IsDataReady(b).value != 0 {
      SampleStepReady(b, prev);
    }
  }

  lemma SampleStepReady(b: BusState, prev: Readings)
    requires SampleAnswered(b.rx)
    requires IsDataReady(b).value != 0
    ensures |b.rx| >= 8
    ensures var r := SampleStep(b, prev);
      && r.value.newData == 1
      && r.value.xyz == [AxisAt(b.rx, 2), AxisAt(b.rx, 4), AxisAt(b.rx, 6)]
      && Sample.SameLow16(r.value.xmg, (r.value.xyz[0] as int) * 3)
      && Sample.SameLow16(r.value.ymg, (r.value.xyz[1] as int) * 3)
      && Sample.SameLow16(r.value.zmg, (r.value.xyz[2] as int) * 3)
      && r.bus.rx == b.rx[8..]
  {
    ReadySample(b);
    SampleStepWhenReady(b, prev);
    ScaledReadings(XyzRead(IsDataReady(b).bus).value);
  }

  /** After a positive IsDataReady, XYZ_Read decodes the six bytes that follow the two INT_SOURCE
      answers. */
  lemma ReadySample(b: BusState)
    requires SampleAnswered(b.rx)
    requires IsDataReady(b).value != 0
    ensures |b.rx| >= 8 && IsDataReady(b).bus.rx == b.rx[2..]
    ensures var s := XyzRead(IsDataReady(b).bus);
      s.value == [AxisAt(b.rx, 2), AxisAt(b.rx, 4), AxisAt(b.rx, 6)] && s.bus.rx == b.rx[8..]
  {
    IsDataReadyRx(b);
    XyzReadAfterTwo(IsDataReady(b).bus, b.rx);
  }

  lemma XyzReadAfterTwo(c: BusState, rx: seq<RxEntry>)
    requires |rx| >= 8 && c.rx == rx[2..]
    ensures var s := XyzRead(c);
      s.value == [AxisAt(rx, 2), AxisAt(rx, 4), AxisAt(rx, 6)] && s.bus.rx == rx[8..]
  {
    XyzReadOutcome(c);
    AxisAtShift(rx, 2, 0);
    AxisAtShift(rx, 2, 2);
    AxisAtShift(rx, 2, 4);
    assert rx[2..][6..] == rx[8..];
  }

  /** The readings a fresh sample `v` produces: new_data is 1 and each mg value is 3 times its
      axis modulo 2^16. */
  lemma ScaledReadings(v: seq<Sample.Int16>)
    requires |v| == 3
    ensures var rd := Readings(v, 1, Sample.ScaleMg(v[0], MG_PER_LSB), Sample.ScaleMg(v[1], MG_PER_LSB),
                               Sample.ScaleMg(v[2], MG_PER_LSB));
      && rd.newData == 1 && rd.xyz == v
      && Sample.SameLow16(rd.xmg, (rd.xyz[0] as int) * 3)
      && Sample.SameLow16(rd.ymg, (rd.xyz[1] as int) * 3)
      && Sample.SameLow16(rd.zmg, (rd.xyz[2] as int) * 3)
  {
    ScaleMgByThree(v[0]);
    ScaleMgByThree(v[1]);
    ScaleMgByThree(v[2]);
  }

  lemma ScaleMgByThree(raw: Sample.Int16)
    ensures Sample.SameLow16(Sample.ScaleMg(raw, MG_PER_LSB), (raw as int) * 3)
  {
    assert (raw as int) * MG_PER_LSB == (raw as int) * 3;
  }

  lemma SampleStepWhenReady(b: BusState, prev: Readings)
    requires SampleAnswered(b.rx)
    requires IsDataReady(b).value != 0
    ensures |IsDataReady(b).bus.rx| >= 6
    ensures var s := XyzRead(IsDataReady(b).bus);
      SampleStep(b, prev)
        == After(s.bus, Readings(s.value, 1, Sample.ScaleMg(s.value[0], MG_PER_LSB),
                                 Sample.ScaleMg(s.value[1], MG_PER_LSB), Sample.ScaleMg(s.value[2], MG_PER_LSB)))
  {
    IsDataReadyRx(b);
  }

  lemma SampleStepWhenIdle(b: BusState, prev: Readings)
    requires SampleAnswered(b.rx)
    requires IsDataReady(b).value == 0
    ensures SampleStep(b, prev) == After(IsDataReady(b).bus, prev.(newData := 0))
  {
  }

  lemma AxisAtShift(rx: seq<RxEntry>, d: nat, k: nat)
    requires d + k + 1 < |rx|
    ensures AxisAt(rx[d..], k) == AxisAt(rx, d + k)
  {
    assert rx[d..][k] == rx[d + k] && rx[d..][k + 1] == rx[d + k + 1];
  }

  /** The output half of accel_read: with the cursor on a character and room in the caller's
      buffer, copy that one character and advance; otherwise reset the cursor and copy nothing. */
  function CursorStep(ind: nat, line: string, length: nat): (r: (nat, string))
    requires ind <= |line|
    ensures r.0 <= |line| && |r.1| <= 1
    ensures r.1 != [] <==> r.0 > 0
    ensures r.0 == 0 <==> ind == |line| || length == 0
    ensures r.1 != [] ==> r.0 == ind + 1 && r.1 == [line[ind]]
  {
    if ind < |line| && length > 0 then (ind + 1, [line[ind]]) else (0, [])
  }

  /** `calls` successive one-byte reads that start with the cursor at `ind` on a fixed line: the
      final cursor and the characters delivered. */
  function Drain(line: string, ind: nat, calls: nat): (nat, string)
    requires ind <= |line|
    decreases calls
  {
    if calls == 0 then (ind, [])
    else
      var s := CursorStep(ind, line, 1);
      var rest := Drain(line, s.0, calls - 1);
      (rest.0, s.1 + rest.1)
  }

  /** Reading on from cursor `ind` delivers the rest of the line, one character per call, and the
      call after that resets the cursor and returns 0. */
  lemma {:induction false} DrainDeliversLine(line: string, ind: nat)
    requires ind <= |line|
    ensures Drain(line, ind, |line| - ind) == (|line|, line[ind..])
    ensures CursorStep(|line|, line, 1) == (0, [])
    decreases |line| - ind
  {
    if ind < |line| {
      assert CursorStep(ind, line, 1) == (ind + 1, [line[ind]]);
      DrainDeliversLine(line, ind + 1);
      assert [line[ind]] + line[ind + 1..] == line[ind..];
    } else {
      assert line[ind..] == [];
    }
  }

}
