/**
 * The command driver and warm-up sequence of the SGP30 driver.
 *
 * The bus is modelled by what happens on it: a trace of events, one per
 * block write, pause or block read. The bytes a read returns are not
 * produced by the model; each operation receives them as a parameter and
 * the read event records how many were asked for. Every exchange has the
 * same shape: write the first opcode byte with the second as its argument
 * list, pause for the command's settle time, then read the response from
 * register 0.
 */
module Driver {
  import opened Crc8
  import opened Frame

  /** The chip's fixed address on the bus. */
  const Address: Byte := 0x58

  /** What the bus observes. Pauses are in whole milliseconds. */
  datatype Event =
    | Write(addr: Byte, cmd: Byte, args: seq<Byte>)
    | Sleep(ms: nat)
    | Read(addr: Byte, reg: Byte, n: nat)

  /** The four commands the driver issues. */
  datatype Command = GetSerialId | InitAirQuality | MeasureAirQuality | MeasureRawSignals

  /** The command's two opcode bytes. */
  function Opcode(c: Command): (op: seq<Byte>)
    ensures |op| == 2
  {
    match c
    case GetSerialId => [0x36, 0x82]
    case InitAirQuality => [0x20, 0x03]
    case MeasureAirQuality => [0x20, 0x08]
    case MeasureRawSignals => [0x20, 0x50]
  }

  /** The pause after the command, in milliseconds. */
  function SettleMs(c: Command): nat
  {
    match c
    case GetSerialId => 100
    case InitAirQuality => 10
    case MeasureAirQuality => 120
    case MeasureRawSignals => 250
  }

  /** Bytes read back after the pause: a whole number of 3-byte groups. */
  function ResponseLength(c: Command): (n: nat)
    ensures n % 3 == 0 && n <= 9
    ensures n == 0 <==> c == InitAirQuality
  {
    match c
    case GetSerialId => 9
    case InitAirQuality => 0
    case MeasureAirQuality => 6
    case MeasureRawSignals => 6
  }

  /** The events of one exchange; initialisation reads nothing back. */
  function Exchange(c: Command): (t: seq<Event>)
  {
    [Write(Address, Opcode(c)[0], Opcode(c)[1..]), Sleep(SettleMs(c))]
      + (if c == InitAirQuality then [] else [Read(Address, 0, ResponseLength(c))])
  }

  /** The pause between warm-up measurements. */
  const WarmupPauseMs: nat := 1000
  /** The number of warm-up measurements. */
  const WarmupRounds: nat := 20

  /** The first `n` rounds of the warm-up loop: a measurement exchange, then a pause. */
  function WarmupCycles(n: nat): seq<Event>
  {
    if n == 0 then []
    else WarmupCycles(n - 1) + Exchange(MeasureAirQuality) + [Sleep(WarmupPauseMs)]
  }

  /** Everything a warm-up of `rounds` measurements puts on the bus. */
  function WarmupTrace(rounds: nat): seq<Event>
  {
    Exchange(InitAirQuality) + WarmupCycles(rounds)
  }

  /**
   * The protocol discipline: every read is of the chip at the address just
   * written to, and comes right after that write and its pause.
   */
  predicate ReadsFollowWrites(t: seq<Event>)
  {
    forall k | 0 <= k < |t| && t[k].Read? ::
      2 <= k && t[k - 2].Write? && t[k - 1].Sleep? && t[k - 2].addr == t[k].addr
  }

  /** The write events of a trace, in order. */
  function Writes(t: seq<Event>): seq<Event>
  {
    if t == [] then []
    else Writes(t[..|t| - 1]) + (if t[|t| - 1].Write? then [t[|t| - 1]] else [])
  }

  /** The total time a trace spends pausing. */
  function SleptMs(t: seq<Event>): nat
  {
    if t == [] then 0
    else SleptMs(t[..|t| - 1]) + (if t[|t| - 1].Sleep? then t[|t| - 1].ms else 0)
  }

  /** `n` copies of `e`. */
  function Repeat(e: Event, n: nat): (r: seq<Event>)
    ensures |r| == n && forall k | 0 <= k < n :: r[k] == e
  {
    if n == 0 then [] else Repeat(e, n - 1) + [e]
  }

  // ---------------------------------------------------------------------
  // The bus and the driver operations.
  // ---------------------------------------------------------------------

  /** The shared bus handle, with the events it has carried so far. */
  class Bus {
    var trace: seq<Event>

    constructor ()
      ensures trace == []
    {
      trace := [];
    }

    /** Block write: the opcode byte, then the argument bytes. */
    method WriteBlock(addr: Byte, cmd: Byte, args: seq<Byte>)
      modifies this
      ensures trace == old(trace) + [Write(addr, cmd, args)]
    {
      trace := trace + [Write(addr, cmd, args)];
    }

    /** Block the caller for `ms` milliseconds. */
    method Pause(ms: nat)
      modifies this
      ensures trace == old(trace) + [Sleep(ms)]
    {
      trace := trace + [Sleep(ms)];
    }

    /** Block read of `n` bytes from register `reg`; `response` is what the chip sends. */
    method ReadBlock(addr: Byte, reg: Byte, n: nat, response: seq<Byte>) returns (data: seq<Byte>)
      requires |response| == n
      modifies this
      ensures trace == old(trace) + [Read(addr, reg, n)]
      ensures data == response
    {
      trace := trace + [Read(addr, reg, n)];
      data := response;
    }
  }

  /** Reads the chip's serial number: three words, or failure if any group's checksum is wrong. */
  method GetSerial(bus: Bus, response: seq<Byte>) returns (r: SerialResult)
    requires |response| == 9
    modifies bus
    ensures bus.trace == old(bus.trace) + Exchange(GetSerialId)
    ensures r == SerialOf(response)
  {
    var cmd: seq<Byte> := [0x36, 0x82];
    bus.WriteBlock(Address, cmd[0], cmd[1..]);
    bus.Pause(100);
    var resp := bus.ReadBlock(Address, 0, 3 * 3, response);
    r := DecodeSerial(resp);
  }

  /** Reads one measurement, each field checked against its own checksum. */
  method GetMeasurement(bus: Bus, response: seq<Byte>) returns (m: Measurement)
    requires |response| == 6
    modifies bus
    ensures bus.trace == old(bus.trace) + Exchange(MeasureAirQuality)
    ensures fresh(m)
    ensures m.co2 == FieldOf(response, 0) && m.voc == FieldOf(response, 1)
    ensures m.warmup <==> IsWarmupReading(GroupWord(response, 0), GroupWord(response, 1))
  {
    var cmd: seq<Byte> := [0x20, 0x08];
    bus.WriteBlock(Address, cmd[0], cmd[1..]);
    bus.Pause(120);
    var resp := bus.ReadBlock(Address, 0, 6, response);
    m := new Measurement(resp);
  }

  /** Reads the raw H2 and ethanol signals, without checking their checksums. */
  method GetRawMeasurement(bus: Bus, response: seq<Byte>) returns (h2: Word, etoh: Word)
    requires |response| == 6
    modifies bus
    ensures bus.trace == old(bus.trace) + Exchange(MeasureRawSignals)
    ensures (h2, etoh) == RawSignalsOf(response)
  {
    var cmd: seq<Byte> := [0x20, 0x50];
    bus.WriteBlock(Address, cmd[0], cmd[1..]);
    bus.Pause(250);
    var resp := bus.ReadBlock(Address, 0, 6, response);
    h2 := BigEndian(resp[0], resp[1]);
    etoh := BigEndian(resp[3], resp[4]);
  }

  /**
   * Starts measurement mode and runs the warm-up: one init command, a 10 ms
   * settle, then twenty measurements each followed by a one-second pause.
   * `responses[i]` is what the chip answers to the i-th measurement, so the
   * loop runs `WarmupRounds` times.
   */
  method InitSensor(bus: Bus, responses: seq<seq<Byte>>)
    requires |responses| == WarmupRounds
    requires forall i | 0 <= i < |responses| :: |responses[i]| == 6
    modifies bus
    ensures bus.trace == old(bus.trace) + WarmupTrace(|responses|)
  {
    var cmd: seq<Byte> := [0x20, 0x03];
    bus.WriteBlock(Address, cmd[0], cmd[1..]);
    bus.Pause(10);

    ghost var prefix := bus.trace;
    for i := 0 to |responses|
      invariant bus.trace == prefix + WarmupCycles(i)
    {
      var _ := GetMeasurement(bus, responses[i]);
      bus.Pause(1000);
      NextWarmupCycle(prefix, i);
    }
  }

  /** One more pass of the warm-up loop: a measurement exchange, then a one-second pause. */
  lemma NextWarmupCycle(prefix: seq<Event>, i: nat)
    ensures prefix + WarmupCycles(i) + Exchange(MeasureAirQuality) + [Sleep(1000)]
         == prefix + WarmupCycles(i + 1)
  {
  }

  // ---------------------------------------------------------------------
  // What the traces guarantee.
  // ---------------------------------------------------------------------

  /** Appending a whole exchange keeps every read right after its write and pause. */
  lemma ExchangeKeepsDiscipline(t: seq<Event>, c: Command)
    requires ReadsFollowWrites(t)
    ensures ReadsFollowWrites(t + Exchange(c))
  {
    var u := t + Exchange(c);
    forall k | 0 <= k < |u| && u[k].Read?
      ensures 2 <= k && u[k - 2].Write? && u[k - 1].Sleep? && u[k - 2].addr == u[k].addr
    {
      if k >= |t| {
        assert k == |t| + 2;
      }
    }
  }

  /** Appending a pause keeps the discipline. */
  lemma PauseKeepsDiscipline(t: seq<Event>, ms: nat)
    requires ReadsFollowWrites(t)
    ensures ReadsFollowWrites(t + [Sleep(ms)])
  {
    var u := t + [Sleep(ms)];
    assert forall k | 0 <= k < |t| :: u[k] == t[k];
  }

  /** Every driver operation issues its write strictly before its read. */
  lemma WriteBeforeRead(c: Command)
    requires c != InitAirQuality
    ensures |Exchange(c)| == 3
    ensures Exchange(c)[0] == Write(Address, Opcode(c)[0], [Opcode(c)[1]])
    ensures Exchange(c)[1] == Sleep(SettleMs(c))
    ensures Exchange(c)[2] == Read(Address, 0, ResponseLength(c))
    ensures ReadsFollowWrites(Exchange(c))
  {
    ExchangeKeepsDiscipline([], c);
  }

  /** The warm-up rounds are the measurement exchange and a pause, repeated. */
  lemma {:induction false} WarmupCyclesShape(n: nat, k: nat)
    requires k < n
    ensures |WarmupCycles(n)| == 4 * n
    ensures WarmupCycles(n)[4 * k .. 4 * k + 4]
         == [Write(Address, 0x20, [0x08]), Sleep(120), Read(Address, 0, 6), Sleep(1000)]
  {
    if k < n - 1 {
      WarmupCyclesShape(n - 1, k);
      assert WarmupCycles(n)[4 * k .. 4 * k + 4] == WarmupCycles(n - 1)[4 * k .. 4 * k + 4];
    } else if n > 1 {
      WarmupCyclesShape(n - 1, 0);
    }
  }

  /** The warm-up rounds keep the read discipline. */
  lemma {:induction false} WarmupCyclesDiscipline(n: nat)
    ensures ReadsFollowWrites(WarmupCycles(n))
  {
    if n > 0 {
      WarmupCyclesDiscipline(n - 1);
      ExchangeKeepsDiscipline(WarmupCycles(n - 1), MeasureAirQuality);
      PauseKeepsDiscipline(WarmupCycles(n - 1) + Exchange(MeasureAirQuality), WarmupPauseMs);
    }
  }

  lemma {:induction false} WritesAppend(a: seq<Event>, b: seq<Event>)
    ensures Writes(a + b) == Writes(a) + Writes(b)
    decreases |b|
  {
    if b == [] {
      assert a + b == a;
    } else {
      WritesAppend(a, b[..|b| - 1]);
      assert (a + b)[..|a + b| - 1] == a + b[..|b| - 1];
    }
  }

  lemma {:induction false} SleptAppend(a: seq<Event>, b: seq<Event>)
    ensures SleptMs(a + b) == SleptMs(a) + SleptMs(b)
    decreases |b|
  {
    if b == [] {
      assert a + b == a;
    } else {
      SleptAppend(a, b[..|b| - 1]);
      assert (a + b)[..|a + b| - 1] == a + b[..|b| - 1];
    }
  }

  /** The warm-up rounds write only the measurement command, once per round. */
  lemma {:induction false} WarmupCyclesWrites(n: nat)
    ensures Writes(WarmupCycles(n)) == Repeat(Write(Address, 0x20, [0x08]), n)
  {
    if n > 0 {
      WarmupCyclesWrites(n - 1);
      var m := Exchange(MeasureAirQuality);
      WritesAppend(WarmupCycles(n - 1) + m, [Sleep(WarmupPauseMs)]);
      WritesAppend(WarmupCycles(n - 1), m);
      assert Writes(m) == [Write(Address, 0x20, [0x08])] by {
        assert m[..2][..1] == [m[0]];
        assert m[..|m| - 1] == m[..2];
      }
      assert Writes([Sleep(WarmupPauseMs)]) == [];
    }
  }

  /**
   * A warm-up issues exactly one init command followed by one measurement
   * command per round, and no other command.
   */
  lemma WarmupCommands(rounds: nat)
    ensures Writes(WarmupTrace(rounds))
         == [Write(Address, 0x20, [0x03])] + Repeat(Write(Address, 0x20, [0x08]), rounds)
  {
    var init := Exchange(InitAirQuality);
    WritesAppend(init, WarmupCycles(rounds));
    WarmupCyclesWrites(rounds);
    assert Writes(init) == [Write(Address, 0x20, [0x03])] by {
      assert init[..1] == [init[0]];
    }
  }

  /** Every warm-up round spends 120 ms settling and 1000 ms pausing. */
  lemma {:induction false} WarmupCyclesSleep(n: nat)
    ensures SleptMs(WarmupCycles(n)) == 1120 * n
  {
    if n > 0 {
      WarmupCyclesSleep(n - 1);
      var m := Exchange(MeasureAirQuality);
      SleptAppend(WarmupCycles(n - 1) + m, [Sleep(WarmupPauseMs)]);
      SleptAppend(WarmupCycles(n - 1), m);
      assert SleptMs(m) == 120 by {
        assert m[..2][..1] == [m[0]];
        assert m[..|m| - 1] == m[..2];
      }
      assert SleptMs([Sleep(WarmupPauseMs)]) == 1000 by {
        assert [Sleep(WarmupPauseMs)][..0] == [];
      }
    }
  }

  /**
   * A warm-up keeps the read discipline and is the init write and its 10 ms
   * settle, then per round a write, 120 ms, a read of six bytes and a
   * one-second pause; with twenty rounds that is 82 events and 22410 ms of
   * pauses.
   */
  lemma WarmupTraceShape(rounds: nat)
    ensures |WarmupTrace(rounds)| == 2 + 4 * rounds
    ensures WarmupTrace(rounds)[..2] == [Write(Address, 0x20, [0x03]), Sleep(10)]
    ensures forall k | 0 <= k < rounds ::
      WarmupTrace(rounds)[2 + 4 * k .. 6 + 4 * k]
        == [Write(Address, 0x20, [0x08]), Sleep(120), Read(Address, 0, 6), Sleep(1000)]
    ensures ReadsFollowWrites(WarmupTrace(rounds))
    ensures SleptMs(WarmupTrace(rounds)) == 10 + 1120 * rounds
    ensures rounds == WarmupRounds ==> |WarmupTrace(rounds)| == 82 && SleptMs(WarmupTrace(rounds)) == 22410
  {
    var init := Exchange(InitAirQuality);
    var cycles := WarmupCycles(rounds);
    var trace := WarmupTrace(rounds);
    if rounds > 0 {
      WarmupCyclesShape(rounds, 0);
    }
    forall k | 0 <= k < rounds
      ensures trace[2 + 4 * k .. 6 + 4 * k]
           == [Write(Address, 0x20, [0x08]), Sleep(120), Read(Address, 0, 6), Sleep(1000)]
    {
      WarmupCyclesShape(rounds, k);
      assert trace[2 + 4 * k .. 6 + 4 * k] == cycles[4 * k .. 4 * k + 4];
    }
    WarmupCyclesDiscipline(rounds);
    assert ReadsFollowWrites(init) by {
      ExchangeKeepsDiscipline([], InitAirQuality);
    }
    forall k | 0 <= k < |trace| && trace[k].Read?
      ensures 2 <= k && trace[k - 2].Write? && trace[k - 1].Sleep? && trace[k - 2].addr == trace[k].addr
    {
      assert k >= 2;
      assert cycles[k - 2].Read?;
    }
    SleptAppend(init, cycles);
    WarmupCyclesSleep(rounds);
    assert SleptMs(init) == 10 by {
      assert init[..1] == [init[0]];
    }
  }

  /** Every driver operation that reads keeps the read discipline of the bus trace. */
  lemma OperationsKeepDiscipline(t: seq<Event>)
    requires ReadsFollowWrites(t)
    ensures ReadsFollowWrites(t + Exchange(GetSerialId))
    ensures ReadsFollowWrites(t + Exchange(MeasureAirQuality))
    ensures ReadsFollowWrites(t + Exchange(MeasureRawSignals))
    ensures ReadsFollowWrites(t + WarmupTrace(WarmupRounds))
  {
    ExchangeKeepsDiscipline(t, GetSerialId);
    ExchangeKeepsDiscipline(t, MeasureAirQuality);
    ExchangeKeepsDiscipline(t, MeasureRawSignals);
    var w := WarmupTrace(WarmupRounds);
    WarmupTraceShape(WarmupRounds);
    var u := t + w;
    forall k | 0 <= k < |u| && u[k].Read?
      ensures 2 <= k && u[k - 2].Write? && u[k - 1].Sleep? && u[k - 2].addr == u[k].addr
    {
      if k >= |t| {
        assert w[k - |t|].Read?;
      }
    }
  }
}
