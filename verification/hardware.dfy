/** The two memory-mapped register windows, seen from the CPU.

    The I2C0 window remembers every store in order (a DATA_CMD trace is the projection of that
    log onto DATA_CMD), answers reads of ENABLE_STATUS from a scripted sequence, and holds the
    receive FIFO as a queue of words, each tagged with the tick at which the responder's byte
    arrives. Time advances one tick per read of RXFLR, the only register the driver busy-polls;
    RXFLR reports how many bytes at the head of the queue have arrived. */
module Hardware {
  import opened Registers

  /** One 32-bit store into a register of the I2C0 window. */
  datatype Write = Write(reg: I2cReg, value: Word)

  /** A word that the responder will place in the receive FIFO at tick `arrival`. */
  datatype RxEntry = RxEntry(word: Word, arrival: nat)

  /** The observable state of the I2C0 window as a value. */
  datatype BusState = BusState(writes: seq<Write>, rx: seq<RxEntry>, status: seq<Word>, clock: nat)

  /** The RXFLR reading at tick `clock`: the length of the already-arrived prefix of the queue. */
  function RxLevel(rx: seq<RxEntry>, clock: nat): (level: nat)
    ensures level <= |rx|
    ensures level > 0 <==> rx != [] && rx[0].arrival <= clock
  {
    if rx == [] || rx[0].arrival > clock then 0 else 1 + RxLevel(rx[1..], clock)
  }

  /** The I2C0 controller's register window. */
  class I2cWindow {
    var writes: seq<Write>
    var rx: seq<RxEntry>
    var status: seq<Word>
    var clock: nat

    function State(): BusState
      reads this
    {
      BusState(writes, rx, status, clock)
    }

    constructor (initial: BusState)
      ensures State() == initial
    {
      writes, rx, status, clock := initial.writes, initial.rx, initial.status, initial.clock;
    }

    /** `*(base + r) = v`. */
    method Store(r: I2cReg, v: Word)
      modifies this
      ensures State() == old(State()).(writes := old(writes) + [Write(r, v)])
    {
      writes := writes + [Write(r, v)];
    }

    /** A read of ENABLE_STATUS yields the next scripted value. */
    method LoadEnableStatus() returns (v: Word)
      requires status != []
      modifies this
      ensures v == old(status)[0]
      ensures State() == old(State()).(status := old(status)[1..])
    {
      v := status[0];
      status := status[1..];
    }

    /** A read of RXFLR reports the arrived prefix and takes one tick. */
    method LoadRxflr() returns (level: nat)
      modifies this
      ensures level == RxLevel(old(rx), old(clock))
      ensures clock == old(clock) + 1 && rx == old(rx) && writes == old(writes) && status == old(status)
    {
      level := RxLevel(rx, clock);
      clock := clock + 1;
    }

    /** A read of DATA_CMD pops the head of the receive FIFO; the hardware only defines it once
        RXFLR is nonzero, so that is its precondition. */
    method LoadDataCmd() returns (v: Word)
      requires RxLevel(rx, clock) > 0
      modifies this
      ensures v == old(rx)[0].word
      ensures rx == old(rx)[1..] && clock == old(clock) && writes == old(writes) && status == old(status)
    {
      v := rx[0].word;
      rx := rx[1..];
    }
  }

  /** One 32-bit store into a register of the system-manager window. */
  datatype SysWrite = SysWrite(reg: SysMgrReg, value: Word)

  /** The system manager's register window; only stores are observable. */
  class SysMgrWindow {
    var writes: seq<SysWrite>

    constructor ()
      ensures writes == []
    {
      writes := [];
    }

    /** `*(base + r) = v`. */
    method Store(r: SysMgrReg, v: Word)
      modifies this
      ensures writes == old(writes) + [SysWrite(r, v)]
    {
      writes := writes + [SysWrite(r, v)];
    }
  }
}
