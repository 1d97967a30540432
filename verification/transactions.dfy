/** What the words written to IC_DATA_CMD mean on the bus. A word with the start bit (0x400)
    opens a transfer to the ADXL345 whose low byte is the register address; after it, a word with
    the read bit (0x100) clocks one byte in from the device, and any other word is a data byte
    written to it. The ADXL345 auto-increments its register address after every byte. */
module Transactions {
  import opened Registers
  import opened Hardware

  datatype Option<T> = None | Some(value: T)

  /** One byte-sized step of a transfer. */
  datatype Op = Put(data: Byte) | Get

  /** A transfer: a register address followed by byte reads and writes. */
  datatype Txn = Txn(reg: Byte, ops: seq<Op>)

  /** The words stored into DATA_CMD, in order. */
  function DataCmdWords(ws: seq<Write>): (words: seq<Word>)
    ensures |words| <= |ws|
  {
    if ws == [] then []
    else DataCmdWords(ws[..|ws| - 1]) + (if ws[|ws| - 1].reg == DataCmd then [ws[|ws| - 1].value] else [])
  }

  /** The stores that put `words` into DATA_CMD one after another. */
  function Stores(words: seq<Word>): seq<Write>
  {
    seq(|words|, i requires 0 <= i < |words| => Write(DataCmd, words[i]))
  }

  lemma {:induction false} DataCmdWordsAppend(a: seq<Write>, b: seq<Write>)
    ensures DataCmdWords(a + b) == DataCmdWords(a) + DataCmdWords(b)
    decreases |b|
  {
    if b == [] {
      assert a + b == a;
    } else {
      var b' := b[..|b| - 1];
      var last := if b[|b| - 1].reg == DataCmd then [b[|b| - 1].value] else [];
      assert (a + b)[..|a + b| - 1] == a + b';
      assert (a + b)[|a + b| - 1] == b[|b| - 1];
      assert DataCmdWords(a + b) == DataCmdWords(a + b') + last;
      assert DataCmdWords(b) == DataCmdWords(b') + last;
      DataCmdWordsAppend(a, b');
    }
  }

  lemma {:induction false} DataCmdWordsOfStores(words: seq<Word>)
    ensures DataCmdWords(Stores(words)) == words
    decreases |words|
  {
    if words != [] {
      var w' := words[..|words| - 1];
      assert Stores(words)[..|words| - 1] == Stores(w');
      DataCmdWordsOfStores(w');
    }
  }

  /** Appending DATA_CMD stores of `words` appends exactly `words` to the DATA_CMD trace. */
  lemma DataCmdTraceGrows(ws: seq<Write>, words: seq<Word>)
    ensures DataCmdWords(ws + Stores(words)) == DataCmdWords(ws) + words
  {
    DataCmdWordsAppend(ws, Stores(words));
    DataCmdWordsOfStores(words);
  }

  predicate IsStart(w: Word)
  {
    (w / 0x400) % 2 == 1
  }

  predicate IsRead(w: Word)
  {
    (w / 0x100) % 2 == 1
  }

  function EncodeOp(op: Op): Word
  {
    match op
    case Put(d) => d
    case Get => READ_TOKEN
  }

  function EncodeOps(ops: seq<Op>): seq<Word>
  {
    seq(|ops|, i requires 0 <= i < |ops| => EncodeOp(ops[i]))
  }

  /** The DATA_CMD words of a sequence of transfers. */
  function Encode(ts: seq<Txn>): seq<Word>
  {
    if ts == [] then [] else [StartWord(ts[0].reg)] + EncodeOps(ts[0].ops) + Encode(ts[1..])
  }

  lemma {:induction false} EncodeAppend(t1: seq<Txn>, t2: seq<Txn>)
    ensures Encode(t1 + t2) == Encode(t1) + Encode(t2)
    decreases |t1|
  {
    if t1 != [] {
      assert (t1 + t2)[0] == t1[0] && (t1 + t2)[1..] == t1[1..] + t2;
      EncodeAppend(t1[1..], t2);
    } else {
      assert t1 + t2 == t2;
    }
  }

  function DecodeOp(w: Word): Op
  {
    if IsRead(w) then Get else Put(LowByte(w))
  }

  /** The number of leading words that continue the current transfer. */
  function CountOps(ws: seq<Word>): (n: nat)
    ensures n <= |ws|
    ensures forall i | 0 <= i < n :: !IsStart(ws[i])
    ensures n < |ws| ==> IsStart(ws[n])
  {
    if ws == [] || IsStart(ws[0]) then 0 else 1 + CountOps(ws[1..])
  }

  /** Splits a DATA_CMD trace into transfers; a trace that does not begin with a start word has no
      meaning. */
  function Decode(ws: seq<Word>): Option<seq<Txn>>
    decreases |ws|
  {
    if ws == [] then Some([])
    else if !IsStart(ws[0]) then None
    else
      var n := CountOps(ws[1..]);
      var rest := Decode(ws[1 + n..]);
      if rest.None? then None
      else Some([Txn(LowByte(ws[0]), seq(n, i requires 0 <= i < n => DecodeOp(ws[1 + i])))] + rest.value)
  }

  lemma EncodeStartsTransfer(ts: seq<Txn>)
    ensures Encode(ts) == [] || IsStart(Encode(ts)[0])
  {
  }

  lemma {:induction false} CountOpsOfEncoded(ops: seq<Op>, rest: seq<Word>)
    requires rest == [] || IsStart(rest[0])
    ensures CountOps(EncodeOps(ops) + rest) == |ops|
    decreases |ops|
  {
    if ops != [] {
      assert (EncodeOps(ops) + rest)[1..] == EncodeOps(ops[1..]) + rest;
      CountOpsOfEncoded(ops[1..], rest);
    }
  }

  lemma DecodeOpsOfEncoded(ops: seq<Op>, ws: seq<Word>, n: nat)
    requires n == |ops| && |ws| > n
    requires ws[1..1 + n] == EncodeOps(ops)
    ensures seq(n, i requires 0 <= i < n => DecodeOp(ws[1 + i])) == ops
  {
    forall i | 0 <= i < n
      ensures DecodeOp(ws[1 + i]) == ops[i]
    {
      assert ws[1 + i] == EncodeOps(ops)[i];
    }
  }

  /** One encoded transfer in front of a well-formed tail decodes to that transfer in front of the
      tail's transfers. */
  lemma DecodeCons(t: Txn, tail: seq<Word>)
    requires tail == [] || IsStart(tail[0])
    ensures Decode([StartWord(t.reg)] + EncodeOps(t.ops) + tail)
         == if Decode(tail).None? then None else Some([t] + Decode(tail).value)
  {
    var ws := [StartWord(t.reg)] + EncodeOps(t.ops) + tail;
    var n := |t.ops|;
    assert ws[1..] == EncodeOps(t.ops) + tail;
    CountOpsOfEncoded(t.ops, tail);
    assert ws[1 + n..] == tail;
    assert ws[1..1 + n] == EncodeOps(t.ops);
    DecodeOpsOfEncoded(t.ops, ws, n);
  }

  /** Decoding the words of any sequence of transfers gives back those transfers. */
  lemma {:induction false} DecodeEncode(ts: seq<Txn>)
    ensures Decode(Encode(ts)) == Some(ts)
    decreases |ts|
  {
    if ts != [] {
      EncodeStartsTransfer(ts[1..]);
      DecodeCons(ts[0], Encode(ts[1..]));
      DecodeEncode(ts[1..]);
      assert [ts[0]] + ts[1..] == ts;
    }
  }

  /** The values written to ADXL345 register `reg` by the Put steps of `ops`, where the first
      step addresses register `at`. */
  function OpsWritesTo(ops: seq<Op>, at: Byte, reg: Byte): seq<Byte>
    decreases |ops|
  {
    if ops == [] then []
    else
      (if ops[0].Put? && at == reg then [ops[0].data] else [])
        + OpsWritesTo(ops[1..], (at + 1) % 0x100, reg)
  }

  /** The values written to ADXL345 register `reg` by a sequence of transfers, in order. */
  function WritesTo(ts: seq<Txn>, reg: Byte): seq<Byte>
  {
    if ts == [] then [] else OpsWritesTo(ts[0].ops, ts[0].reg, reg) + WritesTo(ts[1..], reg)
  }
}
