/** The integer bookkeeping of `ProgressTracker` (src/tracker.rs): the
    byte counters and the one-second display window of `update`, the
    remaining-time estimate, the elapsed-time text and the fifteen-cell
    progress bar. The clock is a parameter counting nanoseconds; the
    floating-point parts (percentage, kb/s, padding, colours) are left out. */
module Tracker {
  import opened Text

  const NANOS_PER_SEC: nat := 1_000_000_000

  /** `bar_length` of `progress_bar`. */
  const BAR_LENGTH: nat := 15

  /** A filled cell and an empty cell of the bar. */
  const FULL: char := '\U{28FF}'
  const EMPTY: char := '\U{00B7}'

  // ---------------------------------------------------------------------
  // Durations as text: `{}s` and `{}min{}s`

  /** Length of the run of decimal digits that `s` starts with. */
  function DigitRun(s: string): (n: nat)
    ensures n <= |s|
  {
    if s == [] || !IsDigit(s[0]) then 0 else 1 + DigitRun(s[1..])
  }

  /** The run holds only digits and stops at a non-digit or at the end. */
  lemma {:induction false} DigitRunDigits(s: string)
    ensures AllDigits(s[..DigitRun(s)])
    ensures DigitRun(s) < |s| ==> !IsDigit(s[DigitRun(s)])
  {
    if s != [] && IsDigit(s[0]) {
      DigitRunDigits(s[1..]);
      assert s[..DigitRun(s)] == [s[0]] + s[1..][..DigitRun(s[1..])];
    }
  }

  /** The number a text starts with and the text after it, if it starts
      with a digit. */
  function ReadNumber(t: string): Option<(nat, string)> {
    var i := DigitRun(t);
    DigitRunDigits(t);
    if i == 0 then None else Some((DecimalValue(t[..i]), t[i..]))
  }

  /** Reads back a duration written as `<s>s` or `<m>min<s>s`: the number
      of seconds it denotes, or `None` for any other text. */
  function ParseDuration(t: string): Option<nat> {
    match ReadNumber(t)
    case None => None
    case Some((n, rest)) =>
      if rest == "s" then Some(n)
      else if StartsWith(rest, "min") then
        match ReadNumber(rest[3..])
        case None => None
        case Some((secs, tail)) => if tail == "s" then Some(n * 60 + secs) else None
      else None
  }

  /** A printed number followed by a non-digit is read back whole. */
  lemma {:induction false} DigitRunOfPrinted(ds: string, rest: string)
    requires AllDigits(ds)
    requires rest != [] && !IsDigit(rest[0])
    ensures DigitRun(ds + rest) == |ds|
    ensures (ds + rest)[..|ds|] == ds && (ds + rest)[|ds|..] == rest
  {
    if ds != [] {
      assert (ds + rest)[1..] == ds[1..] + rest;
      DigitRunOfPrinted(ds[1..], rest);
    }
  }

  /** Minutes and seconds of a number of seconds, as `/ 60` and
      `rem_euclid(60)` on a `u64` give them. */
  function MinSecs(total: nat): (r: (nat, nat))
    ensures r.0 * 60 + r.1 == total && r.1 < 60
  {
    (total / 60, total % 60)
  }

  /** `format!("{}min{}s", min, secs)`. */
  function MinSecText(min: nat, secs: nat): string {
    DecimalString(min) + "min" + DecimalString(secs) + "s"
  }

  /** The `{}min{}s` text denotes `60 * min + secs` seconds. */
  lemma MinSecRoundTrip(min: nat, secs: nat)
    ensures ParseDuration(MinSecText(min, secs)) == Some(min * 60 + secs)
  {
    var rest := MinutesTail(secs);
    ReadMinutes(min, secs, rest);
    ParseMinutesStep(MinSecText(min, secs), min, rest, secs);
  }

  /** The number in front of `min` is read back first. */
  lemma ReadMinutes(min: nat, secs: nat, rest: string)
    requires rest == "min" + DecimalString(secs) + "s"
    ensures ReadNumber(MinSecText(min, secs)) == Some((min, rest))
  {
    assert MinSecText(min, secs) == DecimalString(min) + rest;
    ReadPrinted(min, rest);
  }

  /** What follows the minutes: `min`, then the seconds read back. */
  lemma MinutesTail(secs: nat) returns (rest: string)
    ensures rest == "min" + DecimalString(secs) + "s"
    ensures rest != "s" && StartsWith(rest, "min")
    ensures ReadNumber(rest[3..]) == Some((secs, "s"))
  {
    rest := "min" + DecimalString(secs) + "s";
    assert rest[3..] == DecimalString(secs) + "s";
    ReadPrinted(secs, "s");
    assert |rest| > 1 && rest[..3] == "min";
  }

  /** How `ParseDuration` reads a number, `min`, a number and `s`. */
  lemma ParseMinutesStep(t: string, min: nat, rest: string, secs: nat)
    requires ReadNumber(t) == Some((min, rest))
    requires rest != "s" && StartsWith(rest, "min")
    requires ReadNumber(rest[3..]) == Some((secs, "s"))
    ensures ParseDuration(t) == Some(min * 60 + secs)
  {
  }

  /** A printed number followed by a non-digit is read back as that number. */
  lemma ReadPrinted(n: nat, rest: string)
    requires rest != [] && !IsDigit(rest[0])
    ensures ReadNumber(DecimalString(n) + rest) == Some((n, rest))
  {
    DigitRunOfPrinted(DecimalString(n), rest);
    DecimalRoundTrip(n);
  }

  /** `elapsed_to_human_readable`, given the whole seconds since the start. */
  function ElapsedText(secs: nat): string {
    if secs < 60 then DecimalString(secs) + "s"
    else
      var (min, s) := MinSecs(secs);
      MinSecText(min, s)
  }

  /** The elapsed-time text denotes exactly the elapsed seconds, and it
      has a minutes part exactly from 60 seconds on. */
  lemma ElapsedRoundTrip(secs: nat)
    ensures ParseDuration(ElapsedText(secs)) == Some(secs)
    ensures secs < 60 <==> 'm' !in ElapsedText(secs)
  {
    var d := DecimalString(secs);
    if secs < 60 {
      ReadPrinted(secs, "s");
      assert (d + "s")[..|d|] == d && (d + "s")[|d|..] == "s";
      NoLetterInDigits(d + "s", |d|);
    } else {
      var (min, s) := MinSecs(secs);
      MinSecRoundTrip(min, s);
      var a := DecimalString(min);
      assert ElapsedText(secs)[|a|] == 'm';
    }
  }

  /** Digits followed by `s` hold no `m`. */
  lemma NoLetterInDigits(t: string, n: nat)
    requires n < |t| && AllDigits(t[..n]) && t[n..] == "s"
    ensures 'm' !in t
  {
    forall k | 0 <= k < |t| ensures t[k] != 'm' {
      if k < n {
        assert t[..n][k] == t[k];
      } else {
        assert t[k] == t[n..][k - n];
      }
    }
  }

  // ---------------------------------------------------------------------
  // The remaining-time estimate

  /** The three panics of `estimated`, in the order they can happen. */
  datatype EtaPanic =
    | ZeroElapsed   // `/ self.start.elapsed().as_secs()` with less than a second gone
    | Underflow     // `content_length - total_read` below zero
    | ZeroRate      // `/ rate` with fewer bytes read than seconds gone

  /** The whole seconds `estimated` predicts: the bytes left divided by
      the whole bytes per second read so far. */
  function EtaSeconds(contentLength: nat, totalRead: nat, elapsedSecs: nat): Result<nat, EtaPanic> {
    if elapsedSecs == 0 then Failure(ZeroElapsed)
    else
      var rate := totalRead / elapsedSecs;
      if contentLength < totalRead then Failure(Underflow)
      else
        var remaining := contentLength - totalRead;
        if rate == 0 then Failure(ZeroRate)
        else Success(remaining / rate)
  }

  /** Whole division rounds down: the quotient is the largest multiple
      of the divisor that fits. */
  lemma DivisionBounds(a: nat, b: nat)
    requires b > 0
    ensures (a / b) * b <= a < (a / b + 1) * b
  {
  }

  /** A whole quotient is zero exactly when the dividend is below the divisor. */
  lemma QuotientZero(a: nat, b: nat)
    requires b > 0
    ensures a / b == 0 <==> a < b
  {
    DivisionBounds(a, b);
  }

  /** `estimated` panics exactly in these three cases, each checked
      only once the ones before it have passed. */
  lemma EtaPanics(contentLength: nat, totalRead: nat, elapsedSecs: nat)
    ensures EtaSeconds(contentLength, totalRead, elapsedSecs) == Failure(ZeroElapsed) <==> elapsedSecs == 0
    ensures EtaSeconds(contentLength, totalRead, elapsedSecs) == Failure(Underflow) <==>
      elapsedSecs > 0 && contentLength < totalRead
    ensures EtaSeconds(contentLength, totalRead, elapsedSecs) == Failure(ZeroRate) <==>
      elapsedSecs > 0 && totalRead <= contentLength && totalRead < elapsedSecs
  {
    if elapsedSecs > 0 {
      QuotientZero(totalRead, elapsedSecs);
    }
  }

  /** A prediction is the whole number of seconds the bytes left take
      at the whole bytes-per-second rate so far, rounded down. */
  lemma EtaBounds(contentLength: nat, totalRead: nat, elapsedSecs: nat)
    requires EtaSeconds(contentLength, totalRead, elapsedSecs).Success?
    ensures elapsedSecs > 0 && totalRead <= contentLength
    ensures var eta := EtaSeconds(contentLength, totalRead, elapsedSecs).value;
      var rate := totalRead / elapsedSecs;
      eta * rate <= contentLength - totalRead < (eta + 1) * rate
  {
    DivisionBounds(contentLength - totalRead, totalRead / elapsedSecs);
  }

  /** `estimated`: the predicted time as `{}min{}s`. */
  function Estimated(contentLength: nat, totalRead: nat, elapsedSecs: nat): Result<string, EtaPanic> {
    match EtaSeconds(contentLength, totalRead, elapsedSecs)
    case Failure(p) => Failure(p)
    case Success(total) =>
      var (min, secs) := MinSecs(total);
      Success(MinSecText(min, secs))
  }

  /** The estimate text denotes the predicted seconds, and it fails
      exactly when `EtaSeconds` does, with the same panic. */
  lemma EstimatedRoundTrip(contentLength: nat, totalRead: nat, elapsedSecs: nat)
    ensures Estimated(contentLength, totalRead, elapsedSecs).Success? <==>
      EtaSeconds(contentLength, totalRead, elapsedSecs).Success?
    ensures Estimated(contentLength, totalRead, elapsedSecs).Failure? ==>
      Estimated(contentLength, totalRead, elapsedSecs).error == EtaSeconds(contentLength, totalRead, elapsedSecs).error
    ensures Estimated(contentLength, totalRead, elapsedSecs).Success? ==>
      ParseDuration(Estimated(contentLength, totalRead, elapsedSecs).value)
        == Some(EtaSeconds(contentLength, totalRead, elapsedSecs).value)
  {
    var r := EtaSeconds(contentLength, totalRead, elapsedSecs);
    if r.Success? {
      var (min, secs) := MinSecs(r.value);
      MinSecRoundTrip(min, secs);
    }
  }

  // ---------------------------------------------------------------------
  // The progress bar

  function Repeat(c: char, n: nat): (s: string)
    ensures |s| == n && forall k :: 0 <= k < n ==> s[k] == c
  {
    if n == 0 then [] else [c] + Repeat(c, n - 1)
  }

  function Min(a: nat, b: nat): nat {
    if a < b then a else b
  }

  /** The bar for a fill of `currentIndex` cells: full cells, then empty
      ones, fifteen in all. */
  function BarText(currentIndex: nat): string {
    var full := Min(currentIndex, BAR_LENGTH);
    Repeat(FULL, full) + Repeat(EMPTY, BAR_LENGTH - full)
  }

  /** Cell `k` of the bar is full exactly when `k` is below the fill. */
  lemma BarCells(currentIndex: nat)
    ensures |BarText(currentIndex)| == BAR_LENGTH
    ensures forall k :: 0 <= k < BAR_LENGTH ==>
      BarText(currentIndex)[k] == if k < currentIndex then FULL else EMPTY
  {
    var full := Min(currentIndex, BAR_LENGTH);
    var bar := BarText(currentIndex);
    forall k | 0 <= k < BAR_LENGTH
      ensures bar[k] == if k < currentIndex then FULL else EMPTY
    {
      if k >= full {
        assert bar[k] == Repeat(EMPTY, BAR_LENGTH - full)[k - full];
      }
    }
  }

  /** The bar shows `min(currentIndex, 15)` full cells and the rest empty. */
  lemma FullCellCount(currentIndex: nat)
    ensures multiset(BarText(currentIndex))[FULL] == Min(currentIndex, BAR_LENGTH)
    ensures multiset(BarText(currentIndex))[EMPTY] == BAR_LENGTH - Min(currentIndex, BAR_LENGTH)
  {
    var full := Min(currentIndex, BAR_LENGTH);
    TwoRunsCount(FULL, EMPTY, full, BAR_LENGTH - full);
  }

  /** A run of `n` copies of `c` then `m` copies of another `d` holds
      `n` of the one and `m` of the other. */
  lemma TwoRunsCount(c: char, d: char, n: nat, m: nat)
    requires c != d
    ensures multiset(Repeat(c, n) + Repeat(d, m))[c] == n
    ensures multiset(Repeat(c, n) + Repeat(d, m))[d] == m
  {
    RepeatCount(c, n, c);
    RepeatCount(c, n, d);
    RepeatCount(d, m, c);
    RepeatCount(d, m, d);
  }

  lemma {:induction false} RepeatCount(c: char, n: nat, x: char)
    ensures multiset(Repeat(c, n))[x] == if x == c then n else 0
  {
    if n > 0 {
      RepeatCount(c, n - 1, x);
      assert Repeat(c, n) == [c] + Repeat(c, n - 1);
    }
  }

  /** The cell loop of `progress_bar`. */
  method ProgressBar(currentIndex: nat) returns (bar: string)
    ensures bar == BarText(currentIndex)
  {
    bar := "";
    for idx := 0 to BAR_LENGTH
      invariant |bar| == idx
      invariant forall k :: 0 <= k < idx ==> bar[k] == if k < currentIndex then FULL else EMPTY
    {
      if idx < currentIndex {
        bar := bar + [FULL];
      } else {
        bar := bar + [EMPTY];
      }
    }
    BarCells(currentIndex);
  }

  /** `((percentage / 100.0) * bar_length).floor() as usize` with the
      percentage `total_read / content_length * 100`, in exact arithmetic;
      an empty download shows no cell and an infinite percentage the whole bar. */
  function CurrentIndex(totalRead: nat, contentLength: nat): nat {
    if contentLength == 0 then (if totalRead == 0 then 0 else BAR_LENGTH)
    else totalRead * BAR_LENGTH / contentLength
  }

  /** The fill is the share of the content read, in fifteenths, rounded down. */
  lemma CurrentIndexBounds(totalRead: nat, contentLength: nat)
    requires contentLength > 0
    ensures var n := CurrentIndex(totalRead, contentLength);
      n * contentLength <= totalRead * BAR_LENGTH < (n + 1) * contentLength
  {
    DivisionBounds(totalRead * BAR_LENGTH, contentLength);
  }

  /** Reading everything fills the whole bar. */
  lemma CompleteFillsBar(contentLength: nat)
    requires contentLength > 0
    ensures BarText(CurrentIndex(contentLength, contentLength)) == Repeat(FULL, BAR_LENGTH)
  {
    assert CurrentIndex(contentLength, contentLength) == BAR_LENGTH;
    assert Repeat(EMPTY, 0) == [];
  }

  // ---------------------------------------------------------------------
  // The tracker

  /** What `display` prints, less the floating-point parts. */
  datatype Line = Line(bar: string, elapsed: string, estimated: string)

  /** The line `display` prints at time `now`, or the panic of `estimated`. */
  function Shown(contentLength: nat, totalRead: nat, start: nat, now: nat): Result<Line, EtaPanic>
    requires start <= now
  {
    var secs := (now - start) / NANOS_PER_SEC;
    match Estimated(contentLength, totalRead, secs)
    case Failure(p) => Failure(p)
    case Success(eta) => Success(Line(BarText(CurrentIndex(totalRead, contentLength)), ElapsedText(secs), eta))
  }

  class ProgressTracker {
    var contentLength: nat
    var totalRead: nat
    var incrementalRead: nat
    var start: nat
    var timer: nat

    /** The window never starts before the download, and the bytes of the
        current window were all read during the download. */
    predicate Valid()
      reads this
    {
      start <= timer && incrementalRead <= totalRead
    }

    /** `new`: nothing read yet, both clocks started now. */
    constructor (contentLength: nat, now: nat)
      ensures Valid()
      ensures this.contentLength == contentLength
      ensures totalRead == 0 && incrementalRead == 0
      ensures start == now && timer == now
    {
      this.contentLength := contentLength;
      totalRead := 0;
      incrementalRead := 0;
      start := now;
      timer := now;
    }

    /** `display`, given the time: the line it prints. */
    method Display(now: nat) returns (r: Result<Line, EtaPanic>)
      requires Valid() && timer <= now
      ensures r == Shown(contentLength, totalRead, start, now)
    {
      var secs := (now - start) / NANOS_PER_SEC;
      var eta := Estimated(contentLength, totalRead, secs);
      if eta.Failure? {
        return Failure(eta.error);
      }
      var bar := ProgressBar(CurrentIndex(totalRead, contentLength));
      r := Success(Line(bar, ElapsedText(secs), eta.value));
    }

    /** `flush`: shows the current state once more. */
    method Flush(now: nat) returns (r: Result<Line, EtaPanic>)
      requires Valid() && timer <= now
      ensures r == Shown(contentLength, totalRead, start, now)
    {
      r := Display(now);
    }

    /** `update(read)` at time `now`: both counters grow by `read`; once
        more than a second has passed since the window opened, the line
        is shown and, unless showing it panicked, a new window opens with
        nothing read. `shown` is `None` when nothing is shown. */
    method Update(read: nat, now: nat) returns (shown: Option<Result<Line, EtaPanic>>)
      requires Valid() && timer <= now
      modifies this
      ensures Valid()
      ensures contentLength == old(contentLength) && start == old(start)
      ensures totalRead == old(totalRead) + read
      ensures now - old(timer) <= NANOS_PER_SEC ==>
        shown == None && incrementalRead == old(incrementalRead) + read && timer == old(timer)
      ensures now - old(timer) > NANOS_PER_SEC ==>
        shown == Some(Shown(contentLength, totalRead, start, now))
      ensures now - old(timer) > NANOS_PER_SEC && shown.value.Success? ==>
        incrementalRead == 0 && timer == now
      ensures now - old(timer) > NANOS_PER_SEC && shown.value.Failure? ==>
        incrementalRead == old(incrementalRead) + read && timer == old(timer)
      ensures shown.Some? && shown.value.Failure? ==> shown.value.error != ZeroElapsed
    {
      totalRead := totalRead + read;
      incrementalRead := incrementalRead + read;
      if now - timer > NANOS_PER_SEC {
        var line := Display(now);
        shown := Some(line);
        if line.Failure? {
          return;
        }
        timer := now;
        incrementalRead := 0;
      } else {
        shown := None;
      }
    }
  }
}
