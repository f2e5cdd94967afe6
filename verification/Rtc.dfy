/** The real-time clock as every terminal sees it: its own frequency, and a wait
    for the next interrupt that the handler ends. */
module Rtc {
  import opened Division

  const MAX_FREQ: int := 1024
  const NUM_TERMINALS: int := 3
  const WORD: int := 0x1_0000_0000
  const DEFAULT_FREQ: int := 340

  /** The powers of two from 2 to 8192. */
  predicate Accepted(f: bv32) {
    || f == 2 || f == 4 || f == 8 || f == 16 || f == 32 || f == 64 || f == 128
    || f == 256 || f == 512 || f == 1024 || f == 2048 || f == 4096 || f == 8192
  }

  /** Exactly the powers of two have one bit set. */
  predicate OneBit(f: bv32) {
    f > 0 && f & (f - 1) == 0
  }

  /** The halvings of 32768, each with its rate. */
  predicate Halved(value: bv32, rate: int) {
    || (value == 32768 && rate == 1) || (value == 16384 && rate == 2) || (value == 8192 && rate == 3)
    || (value == 4096 && rate == 4) || (value == 2048 && rate == 5) || (value == 1024 && rate == 6)
    || (value == 512 && rate == 7) || (value == 256 && rate == 8) || (value == 128 && rate == 9)
    || (value == 64 && rate == 10) || (value == 32 && rate == 11) || (value == 16 && rate == 12)
    || (value == 8 && rate == 13) || (value == 4 && rate == 14) || (value == 2 && rate == 15)
    || (value == 1 && rate == 16)
  }

  lemma HalveOnce(value: bv32, rate: int, f: bv32)
    requires Halved(value, rate) && value > f && f > 0
    ensures Halved(value >> 1, rate + 1) && rate < 16
  {
  }

  /** Where the halving stops, the rate is one the clock knows exactly for the
      accepted frequencies. */
  lemma RateInRange(value: bv32, rate: int, f: bv32)
    requires Halved(value, rate) && value <= f && OneBit(f)
    requires value == 32768 || f < value << 1
    ensures 3 <= rate <= 15 <==> Accepted(f)
  {
  }

  /** No power of two lies strictly between a power and its double. */
  lemma RejectsOthers(f: bv32)
    requires !OneBit(f)
    ensures !Accepted(f)
  {
  }

  function TwoToThe(k: nat): nat {
    if k == 0 then 1 else 2 * TwoToThe(k - 1)
  }

  /** These are the powers from the first to the thirteenth. */
  lemma AcceptedArePowers(f: bv32)
    ensures Accepted(f) <==> exists k: nat :: 1 <= k <= 13 && f as int == TwoToThe(k)
  {
    Powers();
    if Accepted(f) {
      var k := Exponent(f);
      assert f as int == TwoToThe(k);
    }
  }

  lemma Powers()
    ensures TwoToThe(1) == 2 && TwoToThe(2) == 4 && TwoToThe(3) == 8 && TwoToThe(4) == 16 && TwoToThe(5) == 32
    ensures TwoToThe(6) == 64 && TwoToThe(7) == 128 && TwoToThe(8) == 256 && TwoToThe(9) == 512
    ensures TwoToThe(10) == 1024 && TwoToThe(11) == 2048 && TwoToThe(12) == 4096 && TwoToThe(13) == 8192
  {
    assert TwoToThe(4) == 16 && TwoToThe(8) == 256;
  }

  function Exponent(f: bv32): nat {
    if f == 2 then 1 else if f == 4 then 2 else if f == 8 then 3 else if f == 16 then 4 else if f == 32 then 5
    else if f == 64 then 6 else if f == 128 then 7 else if f == 256 then 8 else if f == 512 then 9
    else if f == 1024 then 10 else if f == 2048 then 11 else if f == 4096 then 12 else 13
  }

  lemma AsNumber(f: bv32)
    requires Accepted(f)
    ensures 2 <= f as int <= 8192
  {
  }

  /** The counter, which is one word, `k` interrupts later. */
  function Later(counter: nat, k: nat): (r: nat)
    ensures r < WORD
  {
    (counter + k) % WORD
  }

  lemma LaterSteps(counter: nat, k: nat)
    requires counter < WORD
    ensures Later(counter, 0) == counter
    ensures Later(Later(counter, 1), k) == Later(counter, k + 1)
  {
  }

  lemma NextMultiple(counter: nat, period: nat)
    requires 0 < period
    ensures (counter + period - counter % period) % period == 0
  {
    AtLeast(counter, period, 0);
    QuotientOf(counter / period + 1, 0, period);
    assert period * (counter / period + 1) == period * (counter / period) + period;
  }

  /** Within one period the counter is a multiple of it, also when it wraps
      around on the way. */
  lemma MultipleWithin(counter: nat, period: nat) returns (k: nat)
    requires counter < WORD && 0 < period
    ensures k < period && Later(counter, k) % period == 0
  {
    var r := counter % period;
    if r == 0 {
      return 0;
    }
    k := period - r;
    NextMultiple(counter, period);
    if counter + k >= WORD {
      k := WORD - counter;
      assert Later(counter, k) == 0;
    } else {
      assert Later(counter, k) == counter + period - r;
    }
  }

  /** A reader's flag, one while it waits, and the terminal's counter. */
  datatype Waiting = Waiting(flag: int, counter: nat)

  /** How many of the bits 1 up to `n` are set. */
  function Bits(mask: bv8, n: nat): nat
    requires n <= NUM_TERMINALS
    decreases n
  {
    if n <= 1 then 0 else Bits(mask, n - 1) + if (mask >> (n - 1)) & 1 == 1 then 1 else 0
  }

  /** How many terminals share the interrupts. */
  function Active(booted: bv8): nat {
    1 + Bits(booted, NUM_TERMINALS)
  }

  /** One interrupt for a terminal that is woken once in a period. */
  function Interrupt(w: Waiting, period: nat): Waiting
    requires period > 0
  {
    Waiting(if w.counter % period == 0 then 0 else w.flag, Later(w.counter, 1))
  }

  /** Several interrupts. */
  function Interrupts(w: Waiting, period: nat, n: nat): Waiting
    requires period > 0
    decreases n
  {
    if n == 0 then w else Interrupts(Interrupt(w, period), period, n - 1)
  }

  /** A tick that finds a multiple of the period releases the reader. */
  lemma {:induction false} ReleasedBy(w: Waiting, period: nat, n: nat, k: nat)
    requires w.counter < WORD && 0 < period
    requires w.flag == 0 || (k < n && Later(w.counter, k) % period == 0)
    ensures Interrupts(w, period, n).flag == 0
    decreases n
  {
    hide Later;
    LaterSteps(w.counter, 0);
    if n > 0 {
      var after := Interrupt(w, period);
      if k > 0 {
        LaterSteps(w.counter, k - 1);
        ReleasedBy(after, period, n - 1, k - 1);
      } else {
        ReleasedBy(after, period, n - 1, 0);
      }
    }
  }

  /** Until then it waits. */
  lemma {:induction false} HeldUntil(w: Waiting, period: nat, n: nat)
    requires w.counter < WORD && 0 < period
    requires forall j :: 0 <= j < n ==> Later(w.counter, j) % period != 0
    ensures Interrupts(w, period, n) == Waiting(w.flag, Later(w.counter, n))
    decreases n
  {
    hide Later;
    LaterSteps(w.counter, 0);
    if n > 0 {
      var after := Interrupt(w, period);
      forall j | 0 <= j < n - 1
        ensures Later(after.counter, j) % period != 0
      {
        LaterSteps(w.counter, j);
      }
      LaterSteps(w.counter, n - 1);
      HeldUntil(after, period, n - 1);
    }
  }

  /** Whatever the counter stands at, a waiting reader goes on within one period. */
  lemma ReleasedWithinPeriod(w: Waiting, period: nat, n: nat)
    requires w.counter < WORD && 0 < period <= n
    ensures Interrupts(w, period, n).flag == 0
  {
    var k := MultipleWithin(w.counter, period);
    ReleasedBy(w, period, n, k);
  }

  // ------------------------------------------------------------------
  // All terminals
  // ------------------------------------------------------------------

  /** Each terminal's flag and counter, and its frequency. */
  datatype Clocks = Clocks(waits: seq<Waiting>, freqs: seq<int>)

  predicate ClocksOk(c: Clocks) {
    && |c.waits| == NUM_TERMINALS && |c.freqs| == NUM_TERMINALS
    && forall t :: 0 <= t < NUM_TERMINALS ==> c.waits[t].counter < WORD && 2 <= c.freqs[t] <= 8192
  }

  /** The program of terminal `cur` sets its frequency or starts to wait; an
      interrupt arrives while terminal `cur` runs. */
  datatype Event = Write(cur: nat, frequency: bv32) | Wait(cur: nat) | Tick(cur: nat, booted: bv8)

  datatype Option<T> = None | Some(value: T)

  /** What the terminal asks of the clock, times the terminals that share it. */
  function Total(c: Clocks, cur: nat, booted: bv8): int
    requires ClocksOk(c) && cur < NUM_TERMINALS
  {
    c.freqs[cur] * Active(booted)
  }

  lemma TotalPositive(c: Clocks, cur: nat, booted: bv8)
    requires ClocksOk(c) && cur < NUM_TERMINALS
    ensures Total(c, cur, booted) >= 2
  {
  }

  /** One event; none when the handler divides by zero. */
  function Next(c: Clocks, e: Event): (r: Option<Clocks>)
    requires ClocksOk(c) && e.cur < NUM_TERMINALS
    ensures r.Some? ==> ClocksOk(r.value)
  {
    match e
    case Write(cur, f) =>
      if Accepted(f) then
        AsNumber(f);
        Some(c.(freqs := c.freqs[cur := f as int]))
      else Some(c)
    case Wait(cur) => Some(c.(waits := c.waits[cur := c.waits[cur].(flag := 1)]))
    case Tick(cur, booted) =>
      TotalPositive(c, cur, booted);
      if Total(c, cur, booted) > MAX_FREQ then None
      else Some(c.(waits := c.waits[cur := Interrupt(c.waits[cur], MAX_FREQ / Total(c, cur, booted))]))
  }

  predicate EventsOk(events: seq<Event>) {
    forall i :: 0 <= i < |events| ==> events[i].cur < NUM_TERMINALS
  }

  function After(c: Clocks, events: seq<Event>): (r: Option<Clocks>)
    requires ClocksOk(c) && EventsOk(events)
    ensures r.Some? ==> ClocksOk(r.value)
    decreases |events|
  {
    if events == [] then Some(c)
    else
      match Next(c, events[0])
      case None => None
      case Some(next) => After(next, events[1..])
  }

  /** How many interrupts came while terminal `t` ran. */
  function Charged(events: seq<Event>, t: nat): nat
    decreases |events|
  {
    if events == [] then 0 else (if events[0].Tick? && events[0].cur == t then 1 else 0) + Charged(events[1..], t)
  }

  /** How many of its own interrupts a terminal waits for, 0 when they fault. */
  function Period(freq: int, active: nat): (period: nat)
    ensures freq * active > 0 ==> (period > 0 <==> freq * active <= MAX_FREQ)
  {
    if 0 < freq * active <= MAX_FREQ then
      AtLeast(MAX_FREQ, freq * active, 1);
      MAX_FREQ / (freq * active)
    else 0
  }

  /** The program of terminal `t` is blocked, and whenever an interrupt finds `t`
      running, equally many terminals are active. */
  predicate Blocked(events: seq<Event>, t: nat, active: nat) {
    forall i :: 0 <= i < |events| && events[i].cur == t ==> events[i].Tick? && Active(events[i].booted) == active
  }

  /** What other terminals do does not matter: terminal `t` sees its own interrupts. */
  lemma {:induction false} OwnInterruptsOnly(c: Clocks, events: seq<Event>, t: nat, active: nat)
    requires ClocksOk(c) && EventsOk(events) && t < NUM_TERMINALS && Blocked(events, t, active)
    requires 0 < c.freqs[t] * active <= MAX_FREQ && After(c, events).Some?
    ensures var c' := After(c, events).value;
            c'.freqs[t] == c.freqs[t]
            && c'.waits[t] == Interrupts(c.waits[t], Period(c.freqs[t], active), Charged(events, t))
    decreases |events|
  {
    if events != [] {
      var next := Next(c, events[0]).value;
      OwnInterruptsOnly(next, events[1..], t, active);
    }
  }

  /** The program of terminal `t` is blocked, and whenever an interrupt finds `t`
      running, from `a` to `b` terminals are active, never fewer than before: a
      terminal may boot while `t` waits, none goes away. */
  predicate Growing(events: seq<Event>, t: nat, a: nat, b: nat) {
    && (forall i :: 0 <= i < |events| && events[i].cur == t ==>
                      events[i].Tick? && a <= Active(events[i].booted) <= b)
    && (forall i, j :: 0 <= i < j < |events| && BothCharged(events[i], events[j], t) ==>
                         Active(events[i].booted) <= Active(events[j].booted))
  }

  predicate BothCharged(e: Event, f: Event, t: nat) {
    e.Tick? && e.cur == t && f.Tick? && f.cur == t
  }

  /** How many interrupts may be charged to a terminal that is still waiting: for
      each number of active terminals, all but one of a period. */
  function Slack(freq: int, a: nat, b: nat): nat
    decreases b + 1 - a
  {
    if a > b then 0 else (if Period(freq, a) > 0 then Period(freq, a) - 1 else 0) + Slack(freq, a + 1, b)
  }

  /** Where the number of active terminals first differs from `a`. */
  function PhaseEnd(events: seq<Event>, t: nat, a: nat): (k: nat)
    ensures k <= |events|
    ensures forall i :: 0 <= i < k && events[i].cur == t && events[i].Tick? ==> Active(events[i].booted) == a
    ensures k < |events| ==> events[k].cur == t && events[k].Tick? && Active(events[k].booted) != a
  {
    if events == [] || (events[0].cur == t && events[0].Tick? && Active(events[0].booted) != a) then 0
    else 1 + PhaseEnd(events[1..], t, a)
  }

  lemma {:induction false} AfterSplits(c: Clocks, x: seq<Event>, y: seq<Event>)
    requires ClocksOk(c) && EventsOk(x) && EventsOk(y)
    ensures EventsOk(x + y)
    ensures After(c, x + y) == match After(c, x) case None => None case Some(mid) => After(mid, y)
    decreases |x|
  {
    if x == [] {
      assert x + y == y;
    } else {
      assert (x + y)[1..] == x[1..] + y;
      match Next(c, x[0])
      case None =>
      case Some(next) => AfterSplits(next, x[1..], y);
    }
  }

  lemma {:induction false} ChargedSplits(x: seq<Event>, y: seq<Event>, t: nat)
    ensures Charged(x + y, t) == Charged(x, t) + Charged(y, t)
    decreases |x|
  {
    if x == [] {
      assert x + y == y;
    } else {
      assert (x + y)[1..] == x[1..] + y;
      ChargedSplits(x[1..], y, t);
    }
  }

  predicate OnlyTicks(events: seq<Event>, t: nat) {
    forall i :: 0 <= i < |events| && events[i].cur == t ==> events[i].Tick?
  }

  /** A reader that has been released stays so, and its frequency stays. */
  lemma {:induction false} StaysReleased(c: Clocks, events: seq<Event>, t: nat)
    requires ClocksOk(c) && EventsOk(events) && t < NUM_TERMINALS && OnlyTicks(events, t) && After(c, events).Some?
    ensures c.waits[t].flag == 0 ==> After(c, events).value.waits[t].flag == 0
    ensures After(c, events).value.freqs[t] == c.freqs[t]
    decreases |events|
  {
    if events != [] {
      StaysReleased(Next(c, events[0]).value, events[1..], t);
    }
  }

  /** Too high a frequency faults at the first interrupt charged to the terminal. */
  lemma {:induction false} ChargedFaults(c: Clocks, events: seq<Event>, t: nat, active: nat)
    requires ClocksOk(c) && EventsOk(events) && t < NUM_TERMINALS && Blocked(events, t, active)
    requires c.freqs[t] * active > MAX_FREQ && After(c, events).Some?
    ensures Charged(events, t) == 0
    decreases |events|
  {
    if events != [] {
      ChargedFaults(Next(c, events[0]).value, events[1..], t, active);
    }
  }

  /** While the number of active terminals stays the same. */
  lemma OnePhase(c: Clocks, events: seq<Event>, t: nat, a: nat)
    requires ClocksOk(c) && EventsOk(events) && t < NUM_TERMINALS && a > 0 && Blocked(events, t, a)
    requires After(c, events).Some? && After(c, events).value.waits[t].flag != 0
    ensures Charged(events, t) <= if Period(c.freqs[t], a) > 0 then Period(c.freqs[t], a) - 1 else 0
  {
    var period := Period(c.freqs[t], a);
    ProductPositive(c.freqs[t], a);
    if period == 0 {
      ChargedFaults(c, events, t, a);
    } else if Charged(events, t) >= period {
      OwnInterruptsOnly(c, events, t, a);
      ReleasedWithinPeriod(c.waits[t], period, Charged(events, t));
      assert false;
    }
  }

  lemma ProductPositive(x: int, y: nat)
    requires x > 0 && y > 0
    ensures x * y > 0
  {
  }

  /** As long as a reader waits, few interrupts have been charged to its terminal. */
  lemma {:induction false} StillWaiting(c: Clocks, events: seq<Event>, t: nat, a: nat, b: nat)
    requires ClocksOk(c) && EventsOk(events) && t < NUM_TERMINALS && a > 0 && Growing(events, t, a, b)
    requires After(c, events).Some? && After(c, events).value.waits[t].flag != 0
    ensures Charged(events, t) <= Slack(c.freqs[t], a, b)
    decreases b + 1 - a
  {
    hide Period, Next, Active;
    if a > b {
      NobodyCharged(events, t);
    } else {
      var k := PhaseEnd(events, t, a);
      var x, y := events[..k], events[k..];
      assert x + y == events;
      AfterSplits(c, x, y);
      ChargedSplits(x, y, t);
      var mid := After(c, x).value;
      StaysReleased(mid, y, t);
      StaysReleased(c, x, t);
      OnePhase(c, x, t, a);
      LaterPhases(events, t, a, b);
      StillWaiting(mid, y, t, a + 1, b);
    }
  }

  lemma {:induction false} NobodyCharged(events: seq<Event>, t: nat)
    requires forall i :: 0 <= i < |events| ==> events[i].cur != t
    ensures Charged(events, t) == 0
  {
    if events != [] {
      NobodyCharged(events[1..], t);
    }
  }

  lemma LaterPhases(events: seq<Event>, t: nat, a: nat, b: nat)
    requires Growing(events, t, a, b)
    ensures Growing(events[PhaseEnd(events, t, a)..], t, a + 1, b)
  {
    var k := PhaseEnd(events, t, a);
    forall i | k <= i < |events| && events[i].cur == t
      ensures Active(events[i].booted) > a
    {
      assert k < i ==> Active(events[k].booted) <= Active(events[i].booted);
    }
  }

  /** A reader that starts to wait goes on as soon as one period of interrupts has
      been charged to its terminal, whatever the other terminals do; when
      terminals boot meanwhile, at the latest after all but one interrupt of a
      period for each number of active terminals, and one more. */
  lemma ReaderGoesOn(c: Clocks, events: seq<Event>, t: nat, a: nat, b: nat)
    requires ClocksOk(c) && EventsOk(events) && t < NUM_TERMINALS && 1 <= a && Growing(events, t, a, b)
    requires Charged(events, t) > Slack(c.freqs[t], a, b)
    ensures EventsOk([Wait(t)] + events)
    ensures var r := After(c, [Wait(t)] + events); r.Some? ==> r.value.waits[t].flag == 0
  {
    hide Period, Slack, Growing, Charged;
    var waiting := Next(c, Wait(t)).value;
    assert ([Wait(t)] + events)[1..] == events;
    if After(waiting, events).Some? && After(waiting, events).value.waits[t].flag != 0 {
      StillWaiting(waiting, events, t, a, b);
    }
  }

  /** With the number of active terminals unchanged that is one period: the 1024
      interrupts of a second, shared. */
  lemma SlackIsPeriod(freq: int, active: nat)
    requires active > 0 && 0 < freq * active <= 1024
    ensures Slack(freq, active, active) == 1024 / (freq * active) - 1
  {
  }

  /** A frequency that is accepted and then divides by zero at the next interrupt,
      whichever terminals are active. */
  lemma AcceptedFrequencyFaults(c: Clocks, booted: bv8)
    requires ClocksOk(c)
    ensures Next(c, Write(0, 2048)).Some? && After(c, [Write(0, 2048), Tick(0, booted)]) == None
  {
    var next := Next(c, Write(0, 2048)).value;
    assert next.freqs[0] == 2048;
    assert [Write(0, 2048), Tick(0, booted)][1..] == [Tick(0, booted)];
    assert Total(next, 0, booted) >= 2048;
  }

  class Clock {
    const flag: array<int>
    const counter: array<int>
    const freq: array<int>

    ghost predicate Valid()
      reads this, flag, counter, freq
    {
      && flag.Length == NUM_TERMINALS && counter.Length == NUM_TERMINALS && freq.Length == NUM_TERMINALS
      && flag != counter && flag != freq && counter != freq
      && (forall t :: 0 <= t < NUM_TERMINALS ==> 0 <= counter[t] < WORD)
      && (forall t :: 0 <= t < NUM_TERMINALS ==> 2 <= freq[t] <= 8192)
    }

    constructor ()
      ensures Valid() && fresh(flag) && fresh(counter) && fresh(freq)
      ensures forall t :: 0 <= t < 3 ==> flag[t] == 0 && counter[t] == 0 && freq[t] == 340
    {
      flag := new int[NUM_TERMINALS](_ => 0);
      counter := new int[NUM_TERMINALS](_ => 0);
      freq := new int[NUM_TERMINALS](_ => DEFAULT_FREQ);
    }

    /** Sets the frequency of the running terminal: accepted are exactly the
        powers of two from 2 to 8192. */
    method RtcWrite(cur: nat, frequency: bv32) returns (ret: int)
      requires Valid() && cur < NUM_TERMINALS
      modifies freq
      ensures Valid()
      ensures ret == if Accepted(frequency) then 0 else -1
      ensures freq[..] == if Accepted(frequency) then old(freq[..])[cur := frequency as int] else old(freq[..])
    {
      if !(frequency > 0 && frequency & (frequency - 1) == 0) {
        RejectsOthers(frequency);
        return -1;
      }
      var rate := 1;
      var value: bv32 := 32768;
      while value > frequency
        invariant Halved(value, rate)
        invariant value == 32768 || frequency < value << 1
        decreases 16 - rate
        modifies {}
      {
        HalveOnce(value, rate, frequency);
        value := value >> 1;
        rate := rate + 1;
      }
      RateInRange(value, rate, frequency);
      if rate < 3 || rate > 15 {
        return -1;
      }
      AsNumber(frequency);
      freq[cur] := frequency as int;
      return 0;
    }

    /** One interrupt, charged to the running terminal. It faults, dividing by
        zero, when the frequency is too high for the number of terminals. */
    method RtcHandler(cur: nat, booted: bv8) returns (fault: bool)
      requires Valid() && cur < NUM_TERMINALS
      modifies flag, counter
      ensures Valid()
      ensures fault <==> freq[cur] * Active(booted) > MAX_FREQ
      ensures fault ==> counter[..] == old(counter[..]) && flag[..] == old(flag[..])
      ensures !fault ==>
                var after := Interrupt(old(WaitOf(cur)), MAX_FREQ / (freq[cur] * Active(booted)));
                counter[..] == old(counter[..])[cur := after.counter] && flag[..] == old(flag[..])[cur := after.flag]
    {
      var active := 1;
      var i := 1;
      while i < NUM_TERMINALS
        invariant 1 <= i <= NUM_TERMINALS && active == 1 + Bits(booted, i)
        invariant flag[..] == old(flag[..]) && counter[..] == old(counter[..])
      {
        if (booted >> i) & 1 == 1 {
          active := active + 1;
        }
        i := i + 1;
      }
      var total := freq[cur] * active;
      if total > MAX_FREQ {
        return true;
      }
      if counter[cur] % (MAX_FREQ / total) == 0 {
        flag[cur] := 0;
      }
      counter[cur] := (counter[cur] + 1) % WORD;
      return false;
    }

    /** What a reader does before it starts to wait. */
    method StartWaiting(cur: nat)
      requires Valid() && cur < NUM_TERMINALS
      modifies flag
      ensures Valid() && flag[..] == old(flag[..])[cur := 1]
    {
      flag[cur] := 1;
    }

    ghost function WaitOf(t: nat): Waiting
      requires Valid() && t < NUM_TERMINALS
      reads this, flag, counter, freq
    {
      Waiting(flag[t], counter[t])
    }

    /** All terminals' state as a value. */
    ghost function View(): (c: Clocks)
      requires Valid()
      reads this, flag, counter, freq
      ensures ClocksOk(c)
    {
      Clocks([WaitOf(0), WaitOf(1), WaitOf(2)], freq[..])
    }
  }

  /** One event on the clock. */
  method Handle(clock: Clock, e: Event) returns (fault: bool)
    requires clock.Valid() && e.cur < NUM_TERMINALS
    modifies clock.flag, clock.counter, clock.freq
    ensures clock.Valid()
    ensures fault <==> Next(old(clock.View()), e) == None
    ensures !fault ==> Next(old(clock.View()), e) == Some(clock.View())
  {
    fault := false;
    ghost var c := clock.View();
    match e
    case Write(cur, frequency) =>
      var ret := clock.RtcWrite(cur, frequency);
    case Wait(cur) =>
      clock.StartWaiting(cur);
      SameWaits(clock, c.waits[cur := c.waits[cur].(flag := 1)]);
    case Tick(cur, booted) =>
      fault := clock.RtcHandler(cur, booted);
      TotalPositive(c, cur, booted);
      if !fault {
        SameWaits(clock, c.waits[cur := Interrupt(c.waits[cur], MAX_FREQ / Total(c, cur, booted))]);
      }
  }

  lemma SameWaits(clock: Clock, waits: seq<Waiting>)
    requires clock.Valid() && |waits| == NUM_TERMINALS
    requires forall t :: 0 <= t < NUM_TERMINALS ==> waits[t] == clock.WaitOf(t)
    ensures clock.View().waits == waits
  {
  }

  /** A run of events, up to a division by zero if there is one. */
  method HandleAll(clock: Clock, events: seq<Event>) returns (fault: bool)
    requires clock.Valid() && EventsOk(events)
    modifies clock.flag, clock.counter, clock.freq
    ensures clock.Valid()
    ensures fault <==> After(old(clock.View()), events) == None
    ensures !fault ==> After(old(clock.View()), events) == Some(clock.View())
  {
    ghost var c := clock.View();
    var i := 0;
    while i < |events|
      invariant i <= |events| && clock.Valid() && After(clock.View(), events[i..]) == After(c, events)
    {
      assert events[i..][0] == events[i] && events[i..][1..] == events[i + 1..];
      fault := Handle(clock, events[i]);
      if fault {
        return;
      }
      i := i + 1;
    }
    return false;
  }
}
