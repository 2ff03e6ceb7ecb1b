/** The token bucket that paces outgoing packets. Credit and time are real numbers; the rounding of
    floating point is not modelled. */
module BandwidthLimiter {
  import opened Prelude

  datatype Event =
    | Update(elapsed: real)
    | Taken(bytes: nat)

  datatype Rates = Rates(bandwidth: nat, burst: nat)

  /** The credit earned in a time. */
  function Refill(elapsed: real, bandwidth: nat): real {
    elapsed * bandwidth as real
  }

  function MinReal(a: real, b: real): real {
    if a <= b then a else b
  }

  /** The credit after an event. */
  function After(r: Rates, credit: real, e: Event): real {
    match e
    case Update(elapsed) => MinReal(credit + Refill(elapsed, r.bandwidth), r.burst as real)
    case Taken(bytes) => credit - bytes as real
  }

  function Replay(r: Rates, credit: real, es: seq<Event>): real
    decreases |es|
  {
    if es == [] then credit else Replay(r, After(r, credit, es[0]), es[1..])
  }

  /** Bytes are only taken, at most `max` at a time, while the credit is not negative; time does not
      run backwards. */
  predicate Permitted(credit: real, e: Event, max: nat) {
    match e
    case Update(elapsed) => elapsed >= 0.0
    case Taken(bytes) => credit >= 0.0 && bytes <= max
  }

  predicate Guarded(r: Rates, credit: real, es: seq<Event>, max: nat)
    decreases |es|
  {
    es != [] ==>
      && Permitted(credit, es[0], max)
      && Guarded(r, After(r, credit, es[0]), es[1..], max)
  }

  function TotalTaken(es: seq<Event>): nat {
    if es == [] then 0 else (if es[0].Taken? then es[0].bytes else 0) + TotalTaken(es[1..])
  }

  function TotalElapsed(es: seq<Event>): real {
    if es == [] then 0.0 else (if es[0].Update? then es[0].elapsed else 0.0) + TotalElapsed(es[1..])
  }

  // ----- The bound -----

  /** Credit stays between minus the largest packet and the burst, and what was taken is paid for by
      the credit spent and the time elapsed. */
  lemma {:induction false} CreditBounds(r: Rates, credit: real, es: seq<Event>, max: nat)
    requires Guarded(r, credit, es, max)
    requires -(max as real) <= credit <= r.burst as real
    ensures -(max as real) <= Replay(r, credit, es) <= r.burst as real
    ensures TotalTaken(es) as real <= credit - Replay(r, credit, es) + Refill(TotalElapsed(es), r.bandwidth)
    decreases |es|
  {
    if es != [] {
      var elapsed := if es[0].Update? then es[0].elapsed else 0.0;
      RefillAdds(elapsed, TotalElapsed(es[1..]), r.bandwidth);
      CreditBounds(r, After(r, credit, es[0]), es[1..], max);
    }
  }

  lemma {:induction false} RefillAdds(a: real, b: real, bandwidth: nat)
    ensures Refill(a + b, bandwidth) == Refill(a, bandwidth) + Refill(b, bandwidth)
    ensures a >= 0.0 ==> Refill(a, bandwidth) >= 0.0
    ensures Refill(0.0, bandwidth) == 0.0
  {
  }

  lemma {:induction false} SplitRun(r: Rates, credit: real, a: seq<Event>, b: seq<Event>, max: nat)
    ensures Guarded(r, credit, a + b, max) <==> Guarded(r, credit, a, max) && Guarded(r, Replay(r, credit, a), b, max)
    ensures Replay(r, credit, a + b) == Replay(r, Replay(r, credit, a), b)
    decreases |a|
  {
    if a == [] {
      assert a + b == b;
    } else {
      assert (a + b)[1..] == a[1..] + b;
      SplitRun(r, After(r, credit, a[0]), a[1..], b, max);
    }
  }

  lemma {:induction false} LogOne(r: Rates, credit: real, es: seq<Event>, e: Event, max: nat)
    ensures Replay(r, credit, es + [e]) == After(r, Replay(r, credit, es), e)
    ensures Guarded(r, credit, es + [e], max) <==>
            Guarded(r, credit, es, max) && Permitted(Replay(r, credit, es), e, max)
  {
    SplitRun(r, credit, es, [e], max);
  }

  /** In any window of any guarded run from full credit, the bytes taken are at most the burst, plus the
      bandwidth times the time in the window, plus one largest packet. */
  lemma {:induction false} TokenBucket(r: Rates, before: seq<Event>, window: seq<Event>, max: nat)
    requires Guarded(r, r.burst as real, before + window, max)
    ensures TotalTaken(window) as real <=
            r.burst as real + Refill(TotalElapsed(window), r.bandwidth) + max as real
  {
    SplitRun(r, r.burst as real, before, window, max);
    CreditBounds(r, r.burst as real, before, max);
    CreditBounds(r, Replay(r, r.burst as real, before), window, max);
  }

  /** Waiting earns credit at the bandwidth, up to the burst: a level is reached exactly if it is at most the burst and
      what there was, with what the time is worth, reaches it. */
  lemma {:induction false} CreditReaches(r: Rates, credit: real, elapsed: real, level: real)
    ensures After(r, credit, Update(elapsed)) >= level <==>
            level <= r.burst as real && credit + elapsed * r.bandwidth as real >= level
  {
  }

  /** The delay announced is the shortest after which an update makes bytes available again. */
  lemma {:induction false} DelaySuffices(r: Rates, credit: real, wait: real)
    requires credit < 0.0 && r.bandwidth > 0 && wait >= 0.0
    ensures After(r, credit, Update(wait)) >= 0.0 <==> wait >= -credit / r.bandwidth as real
  {
    var b := r.bandwidth as real;
    var delay := -credit / b;
    assert delay * b == -credit;
    assert wait >= delay ==> wait * b >= delay * b;
    assert wait < delay ==> wait * b < delay * b;
  }

  class BandwidthLimiter {
    const rates: Rates
    var bytesAvailable: real
    var lastCalculation: real
    /** Every update and every take so far. */
    ghost var log: seq<Event>

    ghost predicate Valid()
      reads this
    {
      bytesAvailable == Replay(rates, rates.burst as real, log)
    }

    /** Every take so far was guarded. */
    ghost predicate Paced(max: nat)
      reads this
    {
      Valid() && Guarded(rates, rates.burst as real, log, max)
    }

    constructor (now: real, bandwidth: nat, burstBandwidth: nat)
      ensures Paced(0) && log == [] && lastCalculation == now && bytesAvailable == burstBandwidth as real
      ensures rates == Rates(bandwidth, burstBandwidth)
    {
      rates := Rates(bandwidth, burstBandwidth);
      bytesAvailable := burstBandwidth as real;
      lastCalculation := now;
      log := [];
    }

    method DelayUntilAvailable() returns (delay: Option<real>)
      requires rates.bandwidth > 0
      ensures delay == if bytesAvailable < 0.0 then Some(-bytesAvailable / rates.bandwidth as real) else None
    {
      if bytesAvailable < 0.0 {
        delay := Some(-bytesAvailable / rates.bandwidth as real);
      } else {
        delay := None;
      }
    }

    method UpdateAvailable(now: real, ghost max: nat)
      requires Valid() && lastCalculation <= now
      modifies this
      ensures Valid() && lastCalculation == now
      ensures log == old(log) + [Update(now - old(lastCalculation))]
      ensures old(Paced(max)) ==> Paced(max)
      ensures var earned := old(bytesAvailable) + Refill(now - old(lastCalculation), rates.bandwidth);
              && bytesAvailable <= earned && bytesAvailable <= rates.burst as real
              && (bytesAvailable == earned || bytesAvailable == rates.burst as real)
    {
      hide Refill, Guarded;
      ghost var e := Update(now - lastCalculation);
      LogOne(rates, rates.burst as real, log, e, max);
      bytesAvailable := bytesAvailable + Refill(now - lastCalculation, rates.bandwidth);
      bytesAvailable := MinReal(bytesAvailable, rates.burst as real);
      lastCalculation := now;
      log := log + [e];
    }

    method TakeBytes(bytes: nat, ghost max: nat)
      requires Valid()
      modifies `bytesAvailable, `log
      ensures Valid() && bytesAvailable == old(bytesAvailable) - bytes as real
      ensures log == old(log) + [Taken(bytes)]
      ensures old(Paced(max)) && old(bytesAvailable) >= 0.0 && bytes <= max ==> Paced(max)
    {
      LogOne(rates, rates.burst as real, log, Taken(bytes), max);
      bytesAvailable := bytesAvailable - bytes as real;
      log := log + [Taken(bytes)];
    }
  }

  /** Of a limiter whose every take was guarded, at any time: its credit is bounded, and so is what was taken
      between any two points of its log. */
  lemma {:induction false} PacedWindow(l: BandwidthLimiter, max: nat, i: nat, j: nat)
    requires l.Paced(max) && i <= j <= |l.log|
    ensures -(max as real) <= l.bytesAvailable <= l.rates.burst as real
    ensures TotalTaken(l.log[i..j]) as real <=
            l.rates.burst as real + Refill(TotalElapsed(l.log[i..j]), l.rates.bandwidth) + max as real
  {
    var full := l.rates.burst as real;
    CreditBounds(l.rates, full, l.log, max);
    assert l.log == l.log[..j] + l.log[j..] && l.log[..j] == l.log[..i] + l.log[i..j];
    SplitRun(l.rates, full, l.log[..j], l.log[j..], max);
    TokenBucket(l.rates, l.log[..i], l.log[i..j], max);
  }
}
