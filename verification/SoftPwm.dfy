/** The LED notifier's software PWM: a counter shared by three channels with their own duties. */
module SoftPwm {
  import opened Bytes

  const PERIOD: nat := 31

  datatype Pwm = Pwm(count: byte, duty1: byte, duty2: byte, duty3: byte) {
    function Duty(channel: nat): byte {
      if channel == 1 then duty1 else if channel == 2 then duty2 else duty3
    }

    /** The LED of the channel is lit until the next tick. */
    predicate Lit(channel: nat) { count < Duty(channel) }
  }

  /** A timer interrupt, or a byte from the host. */
  datatype Event = Tick | Host(b: byte)

  predicate Selects(b: byte, channel: nat) {
    if channel == 1 then b / 0x20 % 2 == 1 else if channel == 2 then b / 0x40 % 2 == 1 else b / 0x80 == 1
  }

  function AfterTick(p: Pwm): Pwm {
    var next := Wrap8(p.count + 1);
    p.(count := if next == PERIOD then 0 else next)
  }

  function Step(p: Pwm, e: Event): Pwm {
    match e
    case Tick => AfterTick(p)
    case Host(b) =>
      Pwm(p.count,
          if Selects(b, 1) then b % 0x20 else p.duty1,
          if Selects(b, 2) then b % 0x20 else p.duty2,
          if Selects(b, 3) then b % 0x20 else p.duty3)
  }

  function Run(p: Pwm, events: seq<Event>): Pwm
    decreases |events|
  {
    if events == [] then p else Run(Step(p, events[0]), events[1..])
  }

  const START := Pwm(0, 0, 0, 0)

  ghost predicate InRange(p: Pwm) {
    p.count < PERIOD && p.duty1 < 0x20 && p.duty2 < 0x20 && p.duty3 < 0x20
  }

  lemma {:induction false} StaysInRange(p: Pwm, events: seq<Event>)
    requires InRange(p)
    ensures InRange(Run(p, events))
    decreases |events|
  {
    if events != [] {
      StaysInRange(Step(p, events[0]), events[1..]);
    }
  }

  function Ticks(events: seq<Event>): nat {
    if events == [] then 0 else (if events[0].Tick? then 1 else 0) + Ticks(events[1..])
  }

  /** How many of the ticks leave the channel lit. */
  function LitTicks(p: Pwm, events: seq<Event>, channel: nat): nat
    decreases |events|
  {
    if events == [] then 0
    else
      var next := Step(p, events[0]);
      (if events[0].Tick? && next.Lit(channel) then 1 else 0) + LitTicks(next, events[1..], channel)
  }

  /** No host byte in the window is addressed to the channel. */
  ghost predicate Undisturbed(events: seq<Event>, channel: nat) {
    forall i :: 0 <= i < |events| && events[i].Host? ==> !Selects(events[i].b, channel)
  }

  /** Lit ticks among the next `n`, at most a period, from counter value `count`. */
  function Expected(count: nat, duty: nat, n: nat): int {
    if count + n < PERIOD then Min(duty, count + n + 1) - Min(duty, count + 1)
    else Min(duty, PERIOD) - Min(duty, count + 1) + Min(duty, count + n + 1 - PERIOD)
  }

  lemma {:induction false} LitTicksExpected(p: Pwm, events: seq<Event>, channel: nat)
    requires InRange(p) && 1 <= channel <= 3 && Undisturbed(events, channel) && Ticks(events) <= PERIOD
    ensures LitTicks(p, events, channel) == Expected(p.count, p.Duty(channel), Ticks(events))
    decreases |events|
  {
    hide Expected, Selects, InRange, Step, Pwm.Duty;
    if events == [] {
      CountBelowPeriod(p);
      ExpectedNone(p.count, p.Duty(channel));
    } else {
      StepFacts(p, events[0], channel);
      assert Undisturbed(events[1..], channel);
      LitTicksExpected(Step(p, events[0]), events[1..], channel);
      if events[0].Tick? {
        ExpectedStep(p.count, p.Duty(channel), Ticks(events));
      }
    }
  }

  lemma StepFacts(p: Pwm, e: Event, channel: nat)
    requires InRange(p) && 1 <= channel <= 3 && (e.Host? ==> !Selects(e.b, channel))
    ensures InRange(Step(p, e)) && Step(p, e).Duty(channel) == p.Duty(channel) <= PERIOD && p.count < PERIOD
    ensures Step(p, e).count == if e.Host? then p.count else if p.count + 1 == PERIOD then 0 else p.count + 1
  {
    assert [e][1..] == [] && Run(p, [e]) == Step(p, e);
    StaysInRange(p, [e]);
  }

  lemma CountBelowPeriod(p: Pwm)
    requires InRange(p)
    ensures p.count < PERIOD
  {
  }

  lemma ExpectedNone(count: nat, duty: nat)
    requires count < PERIOD
    ensures Expected(count, duty, 0) == 0
  {
  }

  /** One tick of the counter accounts for one tick of the expected number. */
  lemma ExpectedStep(count: nat, duty: nat, n: nat)
    requires count < PERIOD && duty <= PERIOD && 0 < n <= PERIOD
    ensures var next := if count + 1 == PERIOD then 0 else count + 1;
      Expected(count, duty, n) == (if next < duty then 1 else 0) + Expected(next, duty, n - 1)
  {
  }

  /**
   * After any history, in every stretch of 31 ticks without a byte for the channel, the
   * channel is lit for exactly as many ticks as its duty says.
   */
  lemma DutyExact(history: seq<Event>, window: seq<Event>, channel: nat)
    requires 1 <= channel <= 3 && Undisturbed(window, channel) && Ticks(window) == PERIOD
    ensures LitTicks(Run(START, history), window, channel) == Run(START, history).Duty(channel)
  {
    StaysInRange(START, history);
    LitTicksExpected(Run(START, history), window, channel);
  }

  /** The last host byte whose bit for the channel is set: bit 5, 6 or 7. */
  function LastFor(history: seq<Event>, channel: nat): Option<byte>
    requires 1 <= channel <= 3
  {
    if history == [] then None
    else
      var last := history[|history| - 1];
      if last.Host? && last.b / [0x20, 0x40, 0x80][channel - 1] % 2 == 1 then Some(last.b)
      else LastFor(history[..|history| - 1], channel)
  }

  lemma {:induction false} RunPush(p: Pwm, history: seq<Event>, e: Event)
    ensures Run(p, history + [e]) == Step(Run(p, history), e)
    decreases |history|
  {
    if history == [] {
      assert history + [e] == [e] && [e][1..] == [];
    } else {
      assert (history + [e])[0] == history[0] && (history + [e])[1..] == history[1..] + [e];
      RunPush(Step(p, history[0]), history[1..], e);
    }
  }

  /** The duty of a channel is the low five bits of the last byte for it. */
  lemma {:induction false} DutyFromHistory(history: seq<Event>, channel: nat)
    requires 1 <= channel <= 3
    ensures var last := LastFor(history, channel);
      Run(START, history).Duty(channel) == if last.Some? then last.value % 32 else 0
    decreases |history|
  {
    if history != [] {
      hide Run;
      var n := |history| - 1;
      assert history == history[..n] + [history[n]];
      RunPush(START, history[..n], history[n]);
      DutyFromHistory(history[..n], channel);
    } else {
      assert Run(START, history) == START;
    }
  }

  /** So the last byte for a channel says how many of the next 31 ticks it is lit. */
  lemma LitByLastByte(history: seq<Event>, window: seq<Event>, channel: nat)
    requires 1 <= channel <= 3 && Undisturbed(window, channel) && Ticks(window) == 31
    ensures var last := LastFor(history, channel);
      LitTicks(Run(START, history), window, channel) == if last.Some? then last.value % 32 else 0
  {
    hide Run, LitTicks, Undisturbed, LastFor;
    DutyExact(history, window, channel);
    DutyFromHistory(history, channel);
  }

  class Notifier {
    var count: byte
    var duty1: byte
    var duty2: byte
    var duty3: byte
    var led1: bool
    var led2: bool
    var led3: bool

    ghost function Value(): Pwm
      reads this
    {
      Pwm(count, duty1, duty2, duty3)
    }

    constructor ()
      ensures Value() == START
    {
      count, duty1, duty2, duty3 := 0, 0, 0, 0;
      led1, led2, led3 := false, false, false;
    }

    method TimerTick()
      modifies this
      ensures Value() == Step(old(Value()), Tick)
      ensures led1 == Value().Lit(1) && led2 == Value().Lit(2) && led3 == Value().Lit(3)
    {
      led1, led2, led3 := true, true, true;
      count := Wrap8(count + 1);
      if count == PERIOD {
        count := 0;
      }
      if count >= duty1 {
        led1 := false;
      }
      if count >= duty2 {
        led2 := false;
      }
      if count >= duty3 {
        led3 := false;
      }
    }

    method ReceiveColour(b: byte)
      modifies this`duty1, this`duty2, this`duty3
      ensures Value() == Step(old(Value()), Host(b))
    {
      var duty := b % 0x20;
      if b / 0x20 % 2 == 1 {
        duty1 := duty;
      }
      if b / 0x40 % 2 == 1 {
        duty2 := duty;
      }
      if b / 0x80 == 1 {
        duty3 := duty;
      }
    }
  }
}
