/** Virtualised RTC rates: the hardware runs at 1024 Hz, each terminal counts interrupts down to
    its own rate. */
module Rtc {
  import opened Common
  import opened Options

  const MAX_FREQ := 1024

  /** `count` and `frequencies` of one terminal, and how many virtual ticks it has been given. */
  datatype Timer = Timer(count: nat, rate: nat, ticks: nat) {

    function Period(): nat { if rate == 0 then 1 else rate }

    /** A count left over from a slower rate is cut off by the next interrupt. */
    function Start(): nat { if count < Period() then count else Period() - 1 }
  }

  /** One hardware interrupt. */
  function Interrupted(t: Timer): Timer {
    if t.count as int >= t.rate as int - 1 then t.(count := 0, ticks := t.ticks + 1)
    else t.(count := t.count + 1)
  }

  predicate Accepted(freq: int) { freq in {2, 4, 8, 16, 32, 64, 128, 512, 1024} }

  datatype Op = Interrupt | Open(t: nat) | Write(t: nat, freq: int)

  /** One step of terminal i's timer. */
  function Step(s: Timer, i: nat, op: Op): Timer {
    match op
    case Interrupt => Interrupted(s)
    case Open(t) => if t == i then s.(rate := MAX_FREQ / 2) else s
    case Write(t, freq) => if t == i && Accepted(freq) then s.(rate := MAX_FREQ / freq) else s
  }

  function Run(s: Timer, i: nat, ops: seq<Op>): Timer
    decreases |ops|
  {
    if ops == [] then s else Run(Step(s, i, ops[0]), i, ops[1..])
  }

  function Interrupts(ops: seq<Op>): nat {
    if ops == [] then 0 else (if ops[0].Interrupt? then 1 else 0) + Interrupts(ops[1..])
  }

  /** The rate of terminal i is not touched. */
  predicate LeavesRate(ops: seq<Op>, i: nat) {
    forall k :: 0 <= k < |ops| ==> ops[k].Interrupt? || ops[k].t != i
  }

  /** Conservation: interrupts are either delivered, a period each, or still counted. */
  lemma {:induction false} Conserved(s: Timer, i: nat, ops: seq<Op>)
    requires LeavesRate(ops, i)
    ensures var r := Run(s, i, ops);
            && r.rate == s.rate && r.ticks >= s.ticks
            && s.Period() * (r.ticks - s.ticks) + r.Start() == s.Start() + Interrupts(ops)
    decreases |ops|
  {
    if ops != [] {
      assert ops[0].Interrupt? || ops[0].t != i;
      assert LeavesRate(ops[1..], i) by {
        forall k | 0 <= k < |ops[1..]|
          ensures ops[1..][k].Interrupt? || ops[1..][k].t != i
        {
          assert ops[1..][k] == ops[k + 1];
        }
      }
      var s1 := Step(s, i, ops[0]);
      Conserved(s1, i, ops[1..]);
      var n := Run(s1, i, ops[1..]).ticks;
      Distribute(s.Period(), n - s1.ticks, s1.ticks - s.ticks);
      assert n - s.ticks == (n - s1.ticks) + (s1.ticks - s.ticks);
    }
  }

  /** Exactly floor((c + N) / rate) virtual ticks for N interrupts, whatever the other terminals do. */
  lemma DeliveredTicks(s: Timer, i: nat, ops: seq<Op>)
    requires LeavesRate(ops, i)
    ensures Run(s, i, ops).ticks - s.ticks == (s.Start() + Interrupts(ops)) / s.Period()
  {
    Conserved(s, i, ops);
    var r := Run(s, i, ops);
    DivMod(s.Start() + Interrupts(ops), s.Period(), r.ticks - s.ticks, r.Start());
  }

  /** Once a frequency is accepted and the count is below the rate, any 1024 consecutive
      interrupts deliver exactly that many ticks. */
  lemma FrequencyKept(s: Timer, i: nat, freq: int, ops: seq<Op>)
    requires Accepted(freq) && s.rate == MAX_FREQ / freq && s.count < s.rate
    requires LeavesRate(ops, i) && Interrupts(ops) == MAX_FREQ
    ensures Run(s, i, ops).ticks - s.ticks == freq
  {
    DeliveredTicks(s, i, ops);
    assert s.rate * freq == MAX_FREQ by {
      assert s.rate == 512 || s.rate == 256 || s.rate == 128 || s.rate == 64 || s.rate == 32
             || s.rate == 16 || s.rate == 8 || s.rate == 2 || s.rate == 1;
    }
    DivMod(s.count + MAX_FREQ, s.rate, freq, s.count);
  }

  /** What a write brings about: from it on, once the count is below the new rate, any 1024 interrupts
      deliver the frequency that was written. */
  lemma WriteDelivers(s: Timer, i: nat, freq: int, ops: seq<Op>)
    requires freq in {2, 4, 8, 16, 32, 64, 128, 512, 1024} && s.count < 1024 / freq
    requires LeavesRate(ops, i) && Interrupts(ops) == 1024
    ensures Run(s, i, [Write(i, freq)] + ops).ticks - s.ticks == freq
  {
    assert ([Write(i, freq)] + ops)[1..] == ops;
    FrequencyKept(Step(s, i, Write(i, freq)), i, freq, ops);
  }

  /** An open sets 2 Hz. */
  lemma OpenDelivers(s: Timer, i: nat, ops: seq<Op>)
    requires s.count < 512 && LeavesRate(ops, i) && Interrupts(ops) == 1024
    ensures Run(s, i, [Open(i)] + ops).ticks - s.ticks == 2
  {
    assert ([Open(i)] + ops)[1..] == ops;
    FrequencyKept(Step(s, i, Open(i)), i, 2, ops);
  }

  /** Another terminal's open or write, and a write of any other frequency, change nothing. */
  lemma WriteElsewhere(s: Timer, i: nat, t: nat, freq: int)
    requires t != i || freq !in {2, 4, 8, 16, 32, 64, 128, 512, 1024}
    ensures Step(s, i, Write(t, freq)) == s && (t != i ==> Step(s, i, Open(t)) == s)
  {
  }

  class Clock {
    const counts: array<nat>
    const rates: array<nat>
    const flags: array<bool>
    ghost var ticks: seq<nat>

    ghost predicate Valid()
      reads this
    {
      counts.Length == rates.Length == flags.Length == |ticks| == TERMINALS && counts != rates
    }

    ghost function TimerOf(i: nat): Timer
      requires Valid() && i < TERMINALS
      reads this, counts, rates
    {
      Timer(counts[i], rates[i], ticks[i])
    }

    constructor ()
      ensures Valid() && fresh(counts) && fresh(rates) && fresh(flags)
      ensures forall i :: 0 <= i < TERMINALS ==> TimerOf(i) == Timer(0, 0, 0)
    {
      counts := new nat[TERMINALS](_ => 0);
      rates := new nat[TERMINALS](_ => 0);
      flags := new bool[TERMINALS](_ => false);
      ticks := [0, 0, 0];
    }

    /** `rtc_interrupt_handler`: every timer makes its own step, and exactly the terminals that
        got a tick have their flag raised. */
    method HandleInterrupt()
      requires Valid()
      modifies this, counts, flags
      ensures Valid()
      ensures forall i :: 0 <= i < TERMINALS ==> TimerOf(i) == Step(old(TimerOf(i)), i, Interrupt)
      ensures forall i :: 0 <= i < TERMINALS ==> flags[i] == (old(flags[i]) || ticks[i] != old(ticks)[i])
    {
      for i := 0 to TERMINALS
        invariant Valid()
        invariant forall j :: 0 <= j < i ==> TimerOf(j) == Step(old(TimerOf(j)), j, Interrupt)
        invariant forall j :: 0 <= j < i ==> flags[j] == (old(flags[j]) || ticks[j] != old(ticks)[j])
        invariant forall j :: i <= j < TERMINALS ==> TimerOf(j) == old(TimerOf(j)) && flags[j] == old(flags[j])
      {
        var count := counts[i];
        counts[i] := count + 1;
        if count as int >= rates[i] as int - 1 {
          flags[i] := true;
          counts[i] := 0;
          ticks := ticks[i := ticks[i] + 1];
        }
      }
    }

    /** `rtc_open`, called while terminal t is scheduled. */
    method OpenRtc(t: nat)
      requires Valid() && t < TERMINALS
      modifies rates
      ensures Valid() && forall i :: 0 <= i < TERMINALS ==> TimerOf(i) == Step(old(TimerOf(i)), i, Open(t))
    {
      rates[t] := MAX_FREQ / 2;
    }

    /** `rtc_write`, called while terminal t is scheduled, with what its buffer holds unless it is
        NULL; 256 Hz is not accepted. */
    method WriteRtc(t: nat, nbytes: int, buf: Option<int>) returns (r: int)
      requires Valid() && t < TERMINALS
      modifies rates
      ensures Valid()
      ensures r == (if nbytes == 4 && buf.Some? && Accepted(buf.value) then 0 else -1)
      ensures r == 0 ==>
                forall i :: 0 <= i < TERMINALS ==> TimerOf(i) == Step(old(TimerOf(i)), i, Write(t, buf.value))
      ensures r != 0 ==> forall i :: 0 <= i < TERMINALS ==> TimerOf(i) == old(TimerOf(i))
    {
      if nbytes != 4 || buf.None? {
        return -1;
      }
      var rate;
      match buf.value {
        case 2 => rate := MAX_FREQ / 2;
        case 4 => rate := MAX_FREQ / 4;
        case 8 => rate := MAX_FREQ / 8;
        case 16 => rate := MAX_FREQ / 16;
        case 32 => rate := MAX_FREQ / 32;
        case 64 => rate := MAX_FREQ / 64;
        case 128 => rate := MAX_FREQ / 128;
        case 512 => rate := MAX_FREQ / 512;
        case 1024 => rate := MAX_FREQ / 1024;
        case _ => return -1;
      }
      rates[t] := rate;
      return 0;
    }
  }
}
