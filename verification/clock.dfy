/** The stream of seconds the clock feeds to the printer: each reading of
    the wall clock is dropped when it lies before the epoch, and otherwise
    narrowed from 64 to 32 bits, which panics once the seconds no longer
    fit. The wall clock itself is not modelled: its readings are the input. */
module Clock {
  import opened Prelude

  /** The message the narrowing panics with. `Result::expect` writes its
      argument, then ": ", then the error's `Debug` text; the error of a
      failed `u64` to `u32` conversion is `TryFromIntError(())`. */
  const Overflow := "Time overflowed.: TryFromIntError(())"

  /** The outcome of narrowing one reading. */
  datatype Narrowed = Fits(secs: u32) | Panics(message: string)

  /** `secs.try_into().expect("Time overflowed.")` from `u64` to `u32`: the
      seconds are kept unchanged when they fit, and there is no wrap-around. */
  function Narrow(secs: u64): (r: Narrowed)
    ensures r.Fits? <==> secs < 0x1_0000_0000
    ensures r.Fits? ==> r.secs as nat == secs as nat
    ensures r.Panics? ==> r.message == Overflow
  {
    if secs < 0x1_0000_0000 then Fits(secs) else Panics(Overflow)
  }

  /** The last second that fits, and the first that does not. */
  lemma NarrowBoundary()
    ensures Narrow(0xFFFF_FFFF) == Fits(0xFFFF_FFFF)
    ensures Narrow(0x1_0000_0000) == Panics(Overflow)
  {
  }

  /** What a run of clock readings produces: the seconds handed on, in
      order, and the panic message if the run ended in one. A reading is
      `None` when `duration_since(UNIX_EPOCH)` fails. */
  datatype Run = Run(emitted: seq<u32>, panic: Option<string>)

  /** `seconds()` consumed over the given readings: failed readings are
      skipped, the rest narrowed, and the first overflow stops everything. */
  function Seconds(readings: seq<Option<u64>>): (r: Run)
    ensures |r.emitted| <= |readings|
    ensures r.panic.Some? ==> r.panic.value == Overflow
    decreases |readings|
  {
    if |readings| == 0 then Run([], None)
    else
      match readings[0]
      case None => Seconds(readings[1..])
      case Some(secs) =>
        match Narrow(secs)
        case Panics(message) => Run([], Some(message))
        case Fits(x) =>
          var rest := Seconds(readings[1..]);
          Run([x] + rest.emitted, rest.panic)
  }

  /** Reference: the seconds of the readings that succeeded, in order. */
  function Present(readings: seq<Option<u64>>): (s: seq<u64>)
    ensures |s| <= |readings|
    decreases |readings|
  {
    if |readings| == 0 then []
    else
      match readings[0]
      case None => Present(readings[1..])
      case Some(secs) => [secs] + Present(readings[1..])
  }

  /** Some successful reading overflows 32 bits. */
  predicate Overflows(readings: seq<Option<u64>>)
  {
    exists i :: 0 <= i < |readings| && readings[i].Some? && readings[i].value >= 0x1_0000_0000
  }

  /** The run panics exactly when some successful reading overflows. */
  lemma {:induction false} SecondsPanicIff(readings: seq<Option<u64>>)
    ensures Seconds(readings).panic.Some? <==> Overflows(readings)
    decreases |readings|
  {
    if |readings| > 0 {
      var tail := readings[1..];
      SecondsPanicIff(tail);
      if Overflows(tail) {
        var i :| 0 <= i < |tail| && tail[i].Some? && tail[i].value >= 0x1_0000_0000;
        assert readings[i + 1] == tail[i];
      }
      if Overflows(readings) && !(readings[0].Some? && readings[0].value >= 0x1_0000_0000) {
        var i :| 0 <= i < |readings| && readings[i].Some? && readings[i].value >= 0x1_0000_0000;
        assert tail[i - 1] == readings[i];
      }
    }
  }

  /** Every second handed on is a successful reading, in order: the emitted
      seconds are a prefix of the successful readings, all of them when
      nothing overflows, and otherwise exactly those before the first
      successful reading that overflows. */
  lemma {:induction false} SecondsArePresent(readings: seq<Option<u64>>)
    ensures var r := Seconds(readings); var p := Present(readings);
      |r.emitted| <= |p|
      && (forall i :: 0 <= i < |r.emitted| ==> r.emitted[i] as nat == p[i] as nat)
      && (r.panic.None? ==> |r.emitted| == |p|)
      && (r.panic.Some? ==> |r.emitted| < |p| && p[|r.emitted|] >= 0x1_0000_0000)
    decreases |readings|
  {
    if |readings| > 0 {
      SecondsArePresent(readings[1..]);
    }
  }

  /** The iterator is lazy: a reading that fits is handed on before a later
      reading overflows. */
  lemma EmitsBeforePanic()
    ensures Seconds([Some(1), Some(0x1_0000_0000)]) == Run([1], Some(Overflow))
  {
    assert [Some(1 as u64), Some(0x1_0000_0000 as u64)][1..] == [Some(0x1_0000_0000)];
  }

  /** The stream is not deduplicated: two readings in the same second are
      both handed on. */
  lemma RepeatsPassThrough()
    ensures Seconds([Some(5), Some(5)]).emitted == [5, 5]
  {
    assert [Some(5 as u64), Some(5 as u64)][1..] == [Some(5)];
  }
}
