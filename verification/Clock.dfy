/** The RTC tick clock: integer microseconds driven by 8192 interrupts a second. */
module Clock {
  import opened Machine

  /** irqCount and the fields of ctime that ticks touch. */
  datatype Time = Time(irq: nat, micro: nat, milli: nat, unix: nat)

  /** ms_update. */
  function Update(t: Time): Time
  {
    var a := if t.irq >= 1024 then t.(irq := 0, micro := t.micro + 72) else t;
    var b := a.(micro := a.micro + 122);
    var c := if Minus(b.micro, b.milli * 1000) >= 1000 then b.(milli := b.milli + 1) else b;
    if c.milli >= 1000 then Time(c.irq, Minus(c.micro, 1000000), c.milli - 1000, c.unix + 1) else c
  }

  /** One interrupt: the handler counts it, then ms_update runs. */
  function Tick(t: Time): Time
  {
    Update(t.(irq := t.irq + 1))
  }

  /** The clock in place. The ghost fields say when it was started and how many interrupts there have been since. */
  class RtcClock {
    var irqCount: nat
    var microseconds: nat
    var milliseconds: nat
    var unixTime: nat
    ghost var base: nat
    ghost var ticks: nat

    function State(): Time
      reads this
    {
      Time(irqCount, microseconds, milliseconds, unixTime)
    }

    /** The fields show what that many ticks should make them show. */
    ghost predicate Valid()
      reads this
    {
      State() == Shows(base, ticks)
    }

    constructor (now: nat)
      ensures Valid() && base == now && ticks == 0
    {
      irqCount, microseconds, milliseconds, unixTime := 0, 0, 0, now;
      base, ticks := now, 0;
    }

    /** The state with its last interrupt counted in irqCount only. */
    ghost predicate Behind()
      reads this
    {
      irqCount > 0 && State().(irq := irqCount - 1) == Shows(base, ticks)
    }

    /** The other fields catch up with an interrupt that has been counted. */
    method MsUpdate()
      modifies this
      ensures State() == Update(old(State())) && base == old(base) && ticks == old(ticks) + 1
      ensures old(Behind()) ==> Valid()
    {
      CatchUp(State(), base, ticks);
      if irqCount >= 1024 {
        microseconds := microseconds + 72;
        irqCount := 0;
      }
      microseconds := microseconds + 122;
      if Minus(microseconds, milliseconds * 1000) >= 1000 {
        milliseconds := milliseconds + 1;
      }
      if milliseconds >= 1000 {
        microseconds := Minus(microseconds, 1000000);
        milliseconds := milliseconds - 1000;
        unixTime := unixTime + 1;
      }
      ticks := ticks + 1;
    }

    /** The interrupt handler irq_8. After it the clock is exact to the microsecond: it stands 122 microseconds a tick
        and 72 more every 1024 ticks past its start, less than 72 behind real time and never ahead. */
    method Irq8()
      requires Valid()
      modifies this
      ensures Valid() && base == old(base) && ticks == old(ticks) + 1
      ensures microseconds < 1000000 && milliseconds == microseconds / 1000
      ensures unixTime * 1000000 + microseconds == base * 1000000 + 122 * ticks + 72 * (ticks / 1024)
      ensures 0 <= 1000000 * ticks - 8192 * ((unixTime - base) * 1000000 + microseconds) < 72 * 8192
    {
      irqCount := irqCount + 1;
      MsUpdate();
      NoDrift(ticks);
      Reading(base, ticks);
    }
  }

  /** The reading in microseconds. */
  lemma Reading(u: nat, n: nat)
    ensures var t := Shows(u, n);
      t.unix * 1000000 + t.micro == u * 1000000 + Advanced(n) && t.micro < 1000000 && t.milli == t.micro / 1000
  {
  }

  function Ticks(t: Time, n: nat): Time
  {
    if n == 0 then t else Tick(Ticks(t, n - 1))
  }

  /** A clock just started at second u. */
  function Started(u: nat): Time
  {
    Time(0, 0, 0, u)
  }

  /** Microseconds the clock has advanced after n ticks. */
  function Advanced(n: nat): nat
  {
    122 * n + 72 * (n / 1024)
  }

  function Correction(irq: nat): nat
  {
    if irq == 1023 then 194 else 122
  }

  /** The clock at second u and microsecond m. */
  function At(irq: nat, m: nat, u: nat): Time
  {
    Time(irq, m, m / 1000, u)
  }

  lemma TickStep(irq: nat, m: nat, u: nat)
    requires irq < 1024 && m < 1000000
    ensures var e := m + Correction(irq);
      Tick(At(irq, m, u))
      == At((irq + 1) % 1024, if e < 1000000 then e else e - 1000000, if e < 1000000 then u else u + 1)
  {
  }

  lemma AdvancedStep(n: nat)
    ensures Advanced(n + 1) == Advanced(n) + Correction(n % 1024)
    ensures (n % 1024 + 1) % 1024 == (n + 1) % 1024
  {
  }

  /** What a clock started at second u shows when it has advanced as much as n ticks should make it. */
  function Shows(u: nat, n: nat): Time
  {
    At(n % 1024, Advanced(n) % 1000000, u + Advanced(n) / 1000000)
  }

  lemma ShowsNext(u: nat, n: nat)
    ensures Tick(Shows(u, n)) == Shows(u, n + 1)
  {
    AdvancedStep(n);
    var d, step := Advanced(n), Correction(n % 1024);
    TickStep(n % 1024, d % 1000000, u + d / 1000000);
    CarrySecond(d, step);
  }

  lemma CatchUp(t: Time, u: nat, n: nat)
    ensures t.irq > 0 && t.(irq := t.irq - 1) == Shows(u, n) ==> Update(t) == Shows(u, n + 1)
  {
    ShowsNext(u, n);
  }

  /** Exactly what the clock shows after any number of ticks: it has advanced 122 microseconds a tick and
      72 more every 1024 ticks, and its milliseconds are those of its microseconds. */
  lemma {:induction false} ClockShows(u: nat, n: nat)
    ensures Ticks(Started(u), n) == Shows(u, n)
  {
    if n == 0 {
    } else {
      ClockShows(u, n - 1);
      ShowsNext(u, n - 1);
    }
  }

  lemma CarrySecond(d: nat, step: nat)
    requires step < 1000000
    ensures if d % 1000000 + step < 1000000
      then (d + step) % 1000000 == d % 1000000 + step && (d + step) / 1000000 == d / 1000000
      else (d + step) % 1000000 == d % 1000000 + step - 1000000 && (d + step) / 1000000 == d / 1000000 + 1
  {
  }

  /** Against real time, n ticks being n / 8192 seconds, the clock is never ahead and always less than
      72 microseconds behind; the lag is exactly that of the ticks since the last correction. */
  lemma NoDrift(n: nat)
    ensures n * 1000000 - Advanced(n) * 8192 == 576 * (n % 1024)
    ensures 0 <= n * 1000000 - Advanced(n) * 8192 < 72 * 8192
  {
    assert n == 1024 * (n / 1024) + n % 1024;
  }

  /** Whole seconds are exact: 8192 k ticks add k seconds and nothing else. */
  lemma WholeSeconds(u: nat, k: nat)
    ensures Ticks(Started(u), 8192 * k) == Started(u + k)
  {
    ClockShows(u, 8192 * k);
    WholeGroups(8 * k);
    WholeMillions(k);
    assert 8192 * k == 1024 * (8 * k) && Advanced(8192 * k) == 1000000 * k;
  }

  lemma WholeGroups(k: nat)
    ensures (1024 * k) % 1024 == 0 && (1024 * k) / 1024 == k
  {
  }

  lemma WholeMillions(k: nat)
    ensures (1000000 * k) % 1000000 == 0 && (1000000 * k) / 1000000 == k
  {
  }
}
