/**
 * The token decoder tcode_parse_str (src/tcode.c:65-152).
 *
 * The decoder is a small state machine: after the class letter and the channel digit it
 * reads the rest of the token left to right with an accumulation target (magnitude,
 * speed or interval) and a decimal place counter (`magnitude_order`). Step and Run are
 * that machine as functions, Decode is the whole decoder, and ParseStr is the loop of the
 * source proved against Decode. The reference definitions further down describe the
 * decoded fields by the shape of the token instead (the leading digit run, the digit
 * groups after each S or I), and the lemmas tie Decode to them.
 */
module Decoder {
  import opened Types

  predicate IsDigit(c: byte) {
    '0' as byte <= c <= '9' as byte
  }

  function DigitValue(c: byte): (d: nat)
    requires IsDigit(c)
    ensures d <= 9
  {
    (c - '0' as byte) as nat
  }

  /** toupper in the C locale: only ASCII lower-case letters change. */
  function ToUpper(c: byte): byte {
    if 'a' as byte <= c <= 'z' as byte then c - 32 else c
  }

  /** The class letter of a token, case-insensitive. */
  function ClassOf(c: byte): Option<CommandType> {
    var u := ToUpper(c);
    if u == 'A' as byte then Some(Auxilliary)
    else if u == 'V' as byte then Some(Vibrate)
    else if u == 'R' as byte then Some(Rotate)
    else if u == 'L' as byte then Some(Linear)
    else None
  }

  /** The letters that switch the accumulation target: S (speed) and I (interval). */
  predicate IsModeSwitch(c: byte) {
    ToUpper(c) == 'S' as byte || ToUpper(c) == 'I' as byte
  }

  predicate AllDigits(s: seq<byte>) {
    forall i :: 0 <= i < |s| ==> IsDigit(s[i])
  }

  /** 10^n as a real (powf(10.0, n) without rounding). */
  function Pow10(n: nat): (r: real)
    ensures r >= 1.0
  {
    if n == 0 then 1.0 else 10.0 * Pow10(n - 1)
  }

  // ---------------------------------------------------------------------------
  // C strings

  /** strlen: the number of bytes before the first NUL (or all of them if there is none). */
  function StrLen(s: seq<byte>): (n: nat)
    ensures n <= |s|
    ensures forall i :: 0 <= i < n ==> s[i] != Nul
    ensures n < |s| ==> s[n] == Nul
  {
    if s == [] || s[0] == Nul then 0 else 1 + StrLen(s[1..])
  }

  /** The C string a char buffer holds: its bytes up to the first NUL. */
  function CString(s: seq<byte>): (r: seq<byte>)
    ensures r <= s && Nul !in r
  {
    s[..StrLen(s)]
  }

  /** A NUL at `k` ends the C string no later than `k`: the bytes after it are never read. */
  lemma CStringUpTo(s: seq<byte>, k: nat)
    requires k < |s| && s[k] == Nul
    ensures CString(s) == CString(s[..k])
  {
    assert StrLen(s) <= k;
    assert StrLen(s) == StrLen(s[..k]);
  }

  // ---------------------------------------------------------------------------
  // The state machine

  /** `a` and `b` agree on every field except the three numbers the loop after the channel accumulates. */
  predicate SameHeader(a: Command, b: Command) {
    && a.kind == b.kind && a.channel == b.channel
    && a.transitionMagnitude == b.transitionMagnitude
    && a.lastTransitionMs == b.lastTransitionMs
    && a.executeImmediate == b.executeImmediate
  }

  /** The accumulation target of the decoder. */
  datatype Target = MagnitudeTarget | SpeedTarget | IntervalTarget

  /** Decoder state after the channel: target, decimal place (`magnitude_order`), command so far. */
  datatype Scan = Scan(target: Target, order: nat, cmd: Command)

  /** One byte after the channel; None when the byte is neither a digit nor S/I. */
  function Step(st: Scan, c: byte): (r: Option<Scan>)
    ensures r.Some? <==> IsDigit(c) || IsModeSwitch(c)
    ensures r.Some? ==> SameHeader(r.value.cmd, st.cmd)
  {
    if IsDigit(c) then
      var d := DigitValue(c) as real;
      if st.target == IntervalTarget then
        Some(st.(cmd := st.cmd.(interval := st.cmd.interval * 10.0 + d)))
      else
        var diff := d / Pow10(st.order);
        var cmd :=
          if st.target == MagnitudeTarget then st.cmd.(magnitude := st.cmd.magnitude + diff)
          else st.cmd.(speed := st.cmd.speed + diff);
        Some(Scan(st.target, st.order + 1, cmd))
    else if ToUpper(c) == 'S' as byte then Some(Scan(SpeedTarget, 1, st.cmd))
    else if ToUpper(c) == 'I' as byte then Some(Scan(IntervalTarget, 1, st.cmd))
    else None
  }

  /** The machine run over a whole byte sequence, left to right. */
  function Run(st: Scan, s: seq<byte>): (r: Option<Scan>)
    ensures r.Some? ==> SameHeader(r.value.cmd, st.cmd)
    decreases |s|
  {
    if s == [] then Some(st)
    else match Step(st, s[0])
      case None => None
      case Some(next) => Run(next, s[1..])
  }

  /**
   * tcode_parse_str on the C string `s`, accumulating into `base` (the caller passes a
   * default command). None is TCODE_FAIL.
   */
  function Decode(s: seq<byte>, base: Command): (r: Option<Command>)
    ensures r.Some? ==> |s| >= 3 && ClassOf(s[0]).Some? && IsDigit(s[1])
    ensures r.Some? ==> r.value.kind == ClassOf(s[0]).value && r.value.kind != Invalid
    ensures r.Some? ==> r.value.channel as int == DigitValue(s[1])
    ensures r.Some? ==> r.value.transitionMagnitude == base.transitionMagnitude
    ensures r.Some? ==> r.value.lastTransitionMs == base.lastTransitionMs
    ensures r.Some? ==> r.value.executeImmediate == base.executeImmediate
  {
    if |s| < 3 then None
    else match ClassOf(s[0])
      case None => None
      case Some(k) =>
        if !IsDigit(s[1]) then None
        else
          var start := Scan(MagnitudeTarget, 1, base.(kind := k, channel := DigitValue(s[1]) as byte));
          match Run(start, s[2..])
          case None => None
          case Some(st) => Some(st.cmd)
  }

  /**
   * The loop of tcode_parse_str. `buffer` is the char array the caller passes; the
   * decoder reads it as a C string. On failure `out` holds whatever was written before
   * the failing byte; the only caller discards it except for its untouched fields.
   */
  method ParseStr(buffer: seq<byte>, cmd: Command) returns (err: Status, out: Command)
    ensures err == Ok || err == Fail
    ensures err == Ok <==> Decode(CString(buffer), cmd).Some?
    ensures err == Ok ==> out == Decode(CString(buffer), cmd).value
    ensures out.transitionMagnitude == cmd.transitionMagnitude
    ensures out.lastTransitionMs == cmd.lastTransitionMs
    ensures out.executeImmediate == cmd.executeImmediate
  {
    out := cmd;
    ghost var s := CString(buffer);
    if StrLen(buffer) < 3 {
      return Fail, out;
    }
    var idx := 0;
    var k := ClassOf(buffer[idx]);
    if k.None? {
      return Fail, out;
    }
    out := out.(kind := k.value);
    idx := idx + 1;
    if !IsDigit(buffer[idx]) {
      return Fail, out;
    }
    out := out.(channel := DigitValue(buffer[idx]) as byte);
    idx := idx + 1;

    var target := MagnitudeTarget;
    var order: nat := 1;
    ghost var start := Scan(target, order, out);
    assert s[2..] == buffer[2..StrLen(buffer)];
    while idx < |buffer| && buffer[idx] != Nul
      invariant 2 <= idx <= StrLen(buffer)
      invariant Run(Scan(target, order, out), buffer[idx..StrLen(buffer)]) == Run(start, s[2..])
      invariant out.transitionMagnitude == cmd.transitionMagnitude
      invariant out.lastTransitionMs == cmd.lastTransitionMs
      invariant out.executeImmediate == cmd.executeImmediate
      decreases |buffer| - idx
    {
      ghost var rest := buffer[idx..StrLen(buffer)];
      assert rest[0] == buffer[idx] && rest[1..] == buffer[idx + 1..StrLen(buffer)];
      var c := buffer[idx];
      if IsDigit(c) {
        if target == IntervalTarget {
          out := out.(interval := out.interval * 10.0 + DigitValue(c) as real);
        } else {
          var diff := DigitValue(c) as real / Pow10(order);
          order := order + 1;
          if target == MagnitudeTarget {
            out := out.(magnitude := out.magnitude + diff);
          } else if target == SpeedTarget {
            out := out.(speed := out.speed + diff);
          }
        }
      } else {
        order := 1;
        var u := ToUpper(c);
        if u == 'S' as byte {
          target := SpeedTarget;
        } else if u == 'I' as byte {
          target := IntervalTarget;
        } else {
          return Fail, out;
        }
      }
      idx := idx + 1;
    }
    assert buffer[idx..StrLen(buffer)] == [];
    err := Ok;
  }

  // ---------------------------------------------------------------------------
  // Reference definitions by the shape of the token

  /** The longest run of digits at the start of `s`. */
  function LeadingDigits(s: seq<byte>): (r: seq<byte>)
    ensures r <= s && AllDigits(r)
    ensures |r| < |s| ==> !IsDigit(s[|r|])
  {
    if s != [] && IsDigit(s[0]) then [s[0]] + LeadingDigits(s[1..]) else []
  }

  /** What follows the leading digit run. */
  function AfterDigits(s: seq<byte>): seq<byte> {
    s[|LeadingDigits(s)|..]
  }

  /** The digits read as a decimal fraction 0.d1d2d3... */
  function Frac(ds: seq<byte>): real
    requires AllDigits(ds)
  {
    if ds == [] then 0.0 else (DigitValue(ds[0]) as real + Frac(ds[1..])) / 10.0
  }

  /** The number the digits spell in base 10. */
  function DecimalValue(ds: seq<byte>): real
    requires AllDigits(ds)
  {
    if ds == [] then 0.0 else DigitValue(ds[0]) as real * Pow10(|ds| - 1) + DecimalValue(ds[1..])
  }

  /** Horner's rule: shift `v` left one decimal place per digit and add the digit. */
  function Horner(v: real, ds: seq<byte>): real
    requires AllDigits(ds)
    decreases |ds|
  {
    if ds == [] then v else Horner(v * 10.0 + DigitValue(ds[0]) as real, ds[1..])
  }

  /**
   * The speed groups of `s`, text that starts at a mode letter: each S contributes the
   * digit run that follows it, read as a fraction; an I group contributes nothing.
   */
  function SpeedSum(s: seq<byte>): real
    decreases |s|
  {
    if s == [] then 0.0
    else
      var ds := LeadingDigits(s[1..]);
      (if ToUpper(s[0]) == 'S' as byte then Frac(ds) else 0.0) + SpeedSum(s[1..][|ds|..])
  }

  /** The digits of every I group of `s`, concatenated in order. */
  function IntervalDigits(s: seq<byte>): (r: seq<byte>)
    ensures AllDigits(r)
    decreases |s|
  {
    if s == [] then []
    else
      var ds := LeadingDigits(s[1..]);
      (if ToUpper(s[0]) == 'I' as byte then ds else []) + IntervalDigits(s[1..][|ds|..])
  }

  /** The grammar <class><digit>(<digit> | S | I)*, case-insensitive. */
  predicate WellFormed(s: seq<byte>) {
    |s| >= 3 && ClassOf(s[0]).Some? && IsDigit(s[1]) &&
    forall i :: 2 <= i < |s| ==> IsDigit(s[i]) || IsModeSwitch(s[i])
  }

  // ---------------------------------------------------------------------------
  // Arithmetic facts

  lemma {:induction false} FracBounds(ds: seq<byte>)
    requires AllDigits(ds)
    ensures 0.0 <= Frac(ds) < 1.0
  {
    if ds != [] {
      FracBounds(ds[1..]);
    }
  }

  /** Fixed-point round trip: scaling the fraction by 10^|ds| gives back the number the digits spell. */
  lemma {:induction false} FracRoundTrip(ds: seq<byte>)
    requires AllDigits(ds)
    ensures Frac(ds) * Pow10(|ds|) == DecimalValue(ds)
  {
    if ds != [] {
      var d := DigitValue(ds[0]) as real;
      var r := ds[1..];
      FracRoundTrip(r);
      var p := Pow10(|r|);
      assert Frac(ds) == (d + Frac(r)) / 10.0;
      assert Pow10(|ds|) == 10.0 * p;
      TenthTimesTen(d + Frac(r), p);
      assert (d + Frac(r)) * p == d * p + Frac(r) * p;
    }
  }

  /** Accumulating digits with Horner's rule appends their decimal value to the shifted start. */
  lemma {:induction false} HornerDecimal(v: real, ds: seq<byte>)
    requires AllDigits(ds)
    ensures Horner(v, ds) == v * Pow10(|ds|) + DecimalValue(ds)
    decreases |ds|
  {
    if ds != [] {
      var d := DigitValue(ds[0]) as real;
      HornerDecimal(v * 10.0 + d, ds[1..]);
      HornerDecimalStep(v, ds);
    }
  }

  lemma HornerDecimalStep(v: real, ds: seq<byte>)
    requires ds != [] && AllDigits(ds)
    requires var d := DigitValue(ds[0]) as real;
      Horner(v * 10.0 + d, ds[1..]) == (v * 10.0 + d) * Pow10(|ds[1..]|) + DecimalValue(ds[1..])
    ensures Horner(v, ds) == v * Pow10(|ds|) + DecimalValue(ds)
  {
    var d := DigitValue(ds[0]) as real;
    var r := ds[1..];
    HornerCons(v, ds);
    DecimalCons(ds);
    Pow10Succ(|r|);
    ShiftDigit(v, d, Pow10(|r|), DecimalValue(r), Horner(v, ds), Pow10(|ds|), DecimalValue(ds));
  }

  lemma {:induction false} HornerCons(v: real, ds: seq<byte>)
    requires ds != [] && AllDigits(ds)
    ensures Horner(v, ds) == Horner(v * 10.0 + DigitValue(ds[0]) as real, ds[1..])
  {
  }

  lemma {:induction false} DecimalCons(ds: seq<byte>)
    requires ds != [] && AllDigits(ds)
    ensures DecimalValue(ds) == DigitValue(ds[0]) as real * Pow10(|ds[1..]|) + DecimalValue(ds[1..])
  {
    assert |ds| - 1 == |ds[1..]|;
  }

  lemma {:induction false} Pow10Succ(n: nat)
    ensures Pow10(n + 1) == 10.0 * Pow10(n)
  {
  }

  lemma ShiftDigit(v: real, d: real, p: real, rest: real, h: real, p10: real, dv: real)
    requires h == (v * 10.0 + d) * p + rest && p10 == 10.0 * p && dv == d * p + rest
    ensures h == v * p10 + dv
  {
  }

  lemma TenthTimesTen(a: real, p: real)
    ensures (a / 10.0) * (10.0 * p) == a * p
  {
  }

  lemma HornerFromZero(ds: seq<byte>)
    requires AllDigits(ds)
    ensures Horner(0.0, ds) == DecimalValue(ds)
  {
    HornerDecimal(0.0, ds);
  }

  /** Adding d/10^k and f/10^k is adding one more decimal place in front of f. */
  lemma PlaceShift(d: real, f: real, k: nat)
    requires k >= 1
    ensures ((d + f) / 10.0) / Pow10(k - 1) == d / Pow10(k) + f / Pow10(k)
  {
    var p := Pow10(k - 1);
    assert Pow10(k) == 10.0 * p;
    calc {
      ((d + f) / 10.0) / p;
      (d + f) / (10.0 * p);
      d / (10.0 * p) + f / (10.0 * p);
    }
  }

  /** A decimal numeral never denotes a negative number. */
  lemma {:induction false} DecimalValueNonNegative(ds: seq<byte>)
    requires AllDigits(ds)
    ensures DecimalValue(ds) >= 0.0
  {
    if ds != [] {
      DecimalValueNonNegative(ds[1..]);
      assert DigitValue(ds[0]) as real * Pow10(|ds| - 1) >= 0.0;
    }
  }

  lemma {:induction false} SpeedSumNonNegative(s: seq<byte>)
    ensures SpeedSum(s) >= 0.0
    decreases |s|
  {
    if s != [] {
      var ds := LeadingDigits(s[1..]);
      FracBounds(ds);
      SpeedSumNonNegative(s[1..][|ds|..]);
    }
  }

  // ---------------------------------------------------------------------------
  // The machine against the reference definitions

  lemma LeadingDigitsCons(s: seq<byte>)
    requires s != [] && IsDigit(s[0])
    ensures LeadingDigits(s) == [s[0]] + LeadingDigits(s[1..])
    ensures AfterDigits(s) == AfterDigits(s[1..])
  {
  }

  /** The machine accepts exactly the texts made of digits and mode letters. */
  lemma {:induction false} RunAccepts(st: Scan, s: seq<byte>)
    ensures Run(st, s).Some? <==> forall i :: 0 <= i < |s| ==> IsDigit(s[i]) || IsModeSwitch(s[i])
    decreases |s|
  {
    if s != [] {
      match Step(st, s[0])
      case None =>
      case Some(next) =>
        RunAccepts(next, s[1..]);
        assert forall i :: 1 <= i < |s| ==> s[i] == s[1..][i - 1];
    }
  }

  /** The machine never writes the type, the channel or the ramp bookkeeping fields. */
  lemma {:induction false} RunFrame(st: Scan, s: seq<byte>)
    requires st.order >= 1
    requires Run(st, s).Some?
    ensures var c := Run(st, s).value.cmd;
      c.kind == st.cmd.kind && c.channel == st.cmd.channel &&
      c.transitionMagnitude == st.cmd.transitionMagnitude &&
      c.lastTransitionMs == st.cmd.lastTransitionMs &&
      c.executeImmediate == st.cmd.executeImmediate
    decreases |s|
  {
    if s != [] {
      RunFrame(Step(st, s[0]).value, s[1..]);
    }
  }

  /** What the rest `s` of a token adds to the magnitude when the machine is in state `st`. */
  function MagnitudeGain(st: Scan, s: seq<byte>): real
    requires st.order >= 1
  {
    if st.target == MagnitudeTarget then Frac(LeadingDigits(s)) / Pow10(st.order - 1) else 0.0
  }

  /** What the rest `s` of a token adds to the speed in state `st`: the current run, then every S group. */
  function SpeedGain(st: Scan, s: seq<byte>): real
    requires st.order >= 1
  {
    (if st.target == SpeedTarget then Frac(LeadingDigits(s)) / Pow10(st.order - 1) else 0.0) +
    SpeedSum(AfterDigits(s))
  }

  /** The digits the rest `s` of a token shifts into the interval in state `st`. */
  function IntervalRun(st: Scan, s: seq<byte>): seq<byte> {
    (if st.target == IntervalTarget then LeadingDigits(s) else []) + IntervalDigits(AfterDigits(s))
  }

  /** A digit run read from decimal place k: its first digit at place k, the rest from place k + 1. */
  lemma FracRunCons(s: seq<byte>, k: nat)
    requires s != [] && IsDigit(s[0]) && k >= 1
    ensures Frac(LeadingDigits(s)) / Pow10(k - 1) ==
            DigitValue(s[0]) as real / Pow10(k) + Frac(LeadingDigits(s[1..])) / Pow10(k)
  {
    LeadingDigitsCons(s);
    var r := LeadingDigits(s[1..]);
    assert ([s[0]] + r)[1..] == r;
    assert Frac(LeadingDigits(s)) == (DigitValue(s[0]) as real + Frac(r)) / 10.0;
    PlaceShift(DigitValue(s[0]) as real, Frac(r), k);
  }

  lemma MagnitudeStep(st: Scan, s: seq<byte>)
    requires st.order >= 1 && s != [] && Step(st, s[0]).Some?
    ensures Step(st, s[0]).value.order >= 1
    ensures Step(st, s[0]).value.cmd.magnitude + MagnitudeGain(Step(st, s[0]).value, s[1..]) ==
            st.cmd.magnitude + MagnitudeGain(st, s)
  {
    if IsDigit(s[0]) {
      if st.target == MagnitudeTarget {
        FracRunCons(s, st.order);
      }
    } else {
      assert LeadingDigits(s) == [];
    }
  }

  lemma SpeedStep(st: Scan, s: seq<byte>)
    requires st.order >= 1 && s != [] && Step(st, s[0]).Some?
    ensures Step(st, s[0]).value.order >= 1
    ensures Step(st, s[0]).value.cmd.speed + SpeedGain(Step(st, s[0]).value, s[1..]) ==
            st.cmd.speed + SpeedGain(st, s)
  {
    if IsDigit(s[0]) {
      SpeedStepDigit(st, s);
    } else {
      SpeedStepSwitch(st, s);
    }
  }

  lemma SpeedStepDigit(st: Scan, s: seq<byte>)
    requires st.order >= 1 && s != [] && IsDigit(s[0])
    ensures Step(st, s[0]).Some? && Step(st, s[0]).value.order >= 1
    ensures Step(st, s[0]).value.cmd.speed + SpeedGain(Step(st, s[0]).value, s[1..]) ==
            st.cmd.speed + SpeedGain(st, s)
  {
    LeadingDigitsCons(s);
    var next := Step(st, s[0]).value;
    var rest := SpeedSum(AfterDigits(s));
    assert SpeedSum(AfterDigits(s[1..])) == rest;
    if st.target == SpeedTarget {
      var k := st.order;
      assert next.cmd.speed == st.cmd.speed + DigitValue(s[0]) as real / Pow10(k);
      assert next.order == k + 1 && next.target == SpeedTarget;
      FracRunCons(s, k);
    } else {
      assert next.cmd.speed == st.cmd.speed && next.target == st.target;
    }
  }

  lemma SpeedStepSwitch(st: Scan, s: seq<byte>)
    requires st.order >= 1 && s != [] && !IsDigit(s[0]) && Step(st, s[0]).Some?
    ensures Step(st, s[0]).value.order >= 1
    ensures Step(st, s[0]).value.cmd.speed + SpeedGain(Step(st, s[0]).value, s[1..]) ==
            st.cmd.speed + SpeedGain(st, s)
  {
    var next := Step(st, s[0]).value;
    assert next.order == 1 && next.cmd == st.cmd;
    assert next.target == SpeedTarget <==> ToUpper(s[0]) == 'S' as byte;
    assert LeadingDigits(s) == [];
    assert AfterDigits(s) == s;
    assert s[1..][|LeadingDigits(s[1..])|..] == AfterDigits(s[1..]);
    assert Pow10(0) == 1.0;
  }

  lemma IntervalStep(st: Scan, s: seq<byte>)
    requires s != [] && Step(st, s[0]).Some?
    ensures AllDigits(IntervalRun(st, s))
    ensures Horner(Step(st, s[0]).value.cmd.interval, IntervalRun(Step(st, s[0]).value, s[1..])) ==
            Horner(st.cmd.interval, IntervalRun(st, s))
  {
    var next := Step(st, s[0]).value;
    if IsDigit(s[0]) {
      LeadingDigitsCons(s);
      var rest := IntervalRun(next, s[1..]);
      if st.target == IntervalTarget {
        assert IntervalRun(st, s) == [s[0]] + rest;
        assert ([s[0]] + rest)[1..] == rest;
      } else {
        assert IntervalRun(st, s) == rest;
      }
    } else {
      assert LeadingDigits(s) == [];
      assert AfterDigits(s) == s;
      assert IntervalRun(st, s) == IntervalDigits(s);
      assert s[1..][|LeadingDigits(s[1..])|..] == AfterDigits(s[1..]);
      assert IntervalRun(st, s) == IntervalRun(next, s[1..]);
    }
  }

  /**
   * Magnitude: in the magnitude target the leading digit run is added at decimal places
   * order, order+1, ...; in any other target the magnitude is never touched.
   */
  lemma {:induction false} RunMagnitude(st: Scan, s: seq<byte>)
    requires st.order >= 1
    requires Run(st, s).Some?
    ensures Run(st, s).value.cmd.magnitude == st.cmd.magnitude + MagnitudeGain(st, s)
    decreases |s|
  {
    if s == [] {
      assert LeadingDigits(s) == [];
    } else {
      MagnitudeStep(st, s);
      RunMagnitude(Step(st, s[0]).value, s[1..]);
    }
  }

  /** Speed: the current speed run at decimal places order, ... plus every later S group. */
  lemma {:induction false} RunSpeed(st: Scan, s: seq<byte>)
    requires st.order >= 1
    requires Run(st, s).Some?
    ensures Run(st, s).value.cmd.speed == st.cmd.speed + SpeedGain(st, s)
    decreases |s|
  {
    if s == [] {
      assert LeadingDigits(s) == [] && AfterDigits(s) == [];
    } else {
      SpeedStep(st, s);
      RunSpeed(Step(st, s[0]).value, s[1..]);
    }
  }

  /** Interval: the current interval run and every later I group, accumulated by Horner's rule. */
  lemma {:induction false} RunInterval(st: Scan, s: seq<byte>)
    requires Run(st, s).Some?
    ensures AllDigits(IntervalRun(st, s))
    ensures Run(st, s).value.cmd.interval == Horner(st.cmd.interval, IntervalRun(st, s))
    decreases |s|
  {
    if s == [] {
      assert LeadingDigits(s) == [] && AfterDigits(s) == [];
      assert IntervalRun(st, s) == [];
    } else {
      IntervalStep(st, s);
      RunInterval(Step(st, s[0]).value, s[1..]);
    }
  }

  // ---------------------------------------------------------------------------
  // The decoder's promises

  /** A token decodes iff it matches <class><digit>(<digit> | S | I)*; "D0" and "Q01" do not. */
  lemma DecodeAccepts(s: seq<byte>, base: Command)
    ensures Decode(s, base).Some? <==> WellFormed(s)
  {
    if |s| >= 3 && ClassOf(s[0]).Some? && IsDigit(s[1]) {
      var start := Scan(MagnitudeTarget, 1, base.(kind := ClassOf(s[0]).value, channel := DigitValue(s[1]) as byte));
      RunAccepts(start, s[2..]);
      assert forall i :: 2 <= i < |s| ==> s[i] == s[2..][i - 2];
    }
  }

  /** The scanner state right after the class letter and the channel digit. */
  function Start(s: seq<byte>, base: Command): Scan
    requires |s| >= 2 && ClassOf(s[0]).Some? && IsDigit(s[1])
  {
    Scan(MagnitudeTarget, 1, base.(kind := ClassOf(s[0]).value, channel := DigitValue(s[1]) as byte))
  }

  lemma DecodeRun(s: seq<byte>, base: Command)
    requires Decode(s, base).Some?
    ensures |s| >= 3 && ClassOf(s[0]).Some? && IsDigit(s[1])
    ensures Run(Start(s, base), s[2..]).Some?
    ensures Decode(s, base).value == Run(Start(s, base), s[2..]).value.cmd
  {
  }

  lemma ClassOfValid(c: byte)
    requires ClassOf(c).Some?
    ensures ClassOf(c).value != Invalid
  {
  }

  lemma DecodeHeader(s: seq<byte>, base: Command)
    requires Decode(s, base).Some?
    ensures var c := Decode(s, base).value;
      c.kind == ClassOf(s[0]).value && c.kind != Invalid &&
      c.channel as int == DigitValue(s[1]) &&
      c.transitionMagnitude == base.transitionMagnitude &&
      c.lastTransitionMs == base.lastTransitionMs &&
      c.executeImmediate == base.executeImmediate
  {
    DecodeRun(s, base);
    RunFrame(Start(s, base), s[2..]);
    ClassOfValid(s[0]);
  }

  lemma DecodeMagnitude(s: seq<byte>, base: Command)
    requires Decode(s, base).Some?
    ensures Decode(s, base).value.magnitude == base.magnitude + Frac(LeadingDigits(s[2..]))
  {
    DecodeRun(s, base);
    RunMagnitude(Start(s, base), s[2..]);
    assert Pow10(0) == 1.0;
    assert MagnitudeGain(Start(s, base), s[2..]) == Frac(LeadingDigits(s[2..]));
  }

  lemma DecodeSpeed(s: seq<byte>, base: Command)
    requires Decode(s, base).Some?
    ensures Decode(s, base).value.speed == base.speed + SpeedSum(AfterDigits(s[2..]))
  {
    DecodeRun(s, base);
    RunSpeed(Start(s, base), s[2..]);
  }

  lemma DecodeInterval(s: seq<byte>, base: Command)
    requires Decode(s, base).Some?
    ensures Decode(s, base).value.interval == Horner(base.interval, IntervalDigits(AfterDigits(s[2..])))
  {
    DecodeRun(s, base);
    RunInterval(Start(s, base), s[2..]);
    assert IntervalRun(Start(s, base), s[2..]) == IntervalDigits(AfterDigits(s[2..]));
  }

  /**
   * What a successful decode writes: the class and channel from the first two bytes, the
   * leading digit run after the channel as a fraction added to the magnitude, every S group
   * as a fraction added to the speed, the I groups' digits shifted into the interval; and
   * nothing else.
   */
  lemma DecodeFields(s: seq<byte>, base: Command)
    requires Decode(s, base).Some?
    ensures var c := Decode(s, base).value;
      var body := s[2..];
      var ids := IntervalDigits(AfterDigits(body));
      c.kind == ClassOf(s[0]).value && c.kind != Invalid &&
      c.channel as int == DigitValue(s[1]) &&
      c.magnitude == base.magnitude + Frac(LeadingDigits(body)) &&
      c.speed == base.speed + SpeedSum(AfterDigits(body)) &&
      c.interval == Horner(base.interval, ids) &&
      c.transitionMagnitude == base.transitionMagnitude &&
      c.lastTransitionMs == base.lastTransitionMs &&
      c.executeImmediate == base.executeImmediate
  {
    DecodeHeader(s, base);
    DecodeMagnitude(s, base);
    DecodeSpeed(s, base);
    DecodeInterval(s, base);
  }

  /**
   * Decoding into a default command (execute flag `e`, as the tokenizer passes it): a
   * valid class, a channel 0..9, a magnitude in [0, 1), no negative interval or speed,
   * and the ramp fields and the flag untouched.
   */
  lemma DecodeFromDefault(s: seq<byte>, e: byte)
    requires Decode(s, DefaultCommand.(executeImmediate := e)).Some?
    ensures var c := Decode(s, DefaultCommand.(executeImmediate := e)).value;
      && c.kind != Invalid && c.channel <= 9
      && 0.0 <= c.magnitude < 1.0 && c.interval >= 0.0 && c.speed >= 0.0
      && c.transitionMagnitude == 0.0 && c.lastTransitionMs == 0 && c.executeImmediate == e
  {
    var base := DefaultCommand.(executeImmediate := e);
    DecodeHeader(s, base);
    DefaultMagnitude(s, base);
    DefaultInterval(s, base);
    DecimalValueNonNegative(IntervalDigits(AfterDigits(s[2..])));
    DecodeSpeed(s, base);
    SpeedSumNonNegative(AfterDigits(s[2..]));
  }

  lemma DefaultMagnitude(s: seq<byte>, base: Command)
    requires base.magnitude == 0.0 && Decode(s, base).Some?
    ensures |s| >= 3
    ensures var c := Decode(s, base).value;
      var mds := LeadingDigits(s[2..]);
      0.0 <= c.magnitude < 1.0 && c.magnitude * Pow10(|mds|) == DecimalValue(mds)
  {
    var mds := LeadingDigits(s[2..]);
    DecodeMagnitude(s, base);
    assert Decode(s, base).value.magnitude == Frac(mds);
    FracBounds(mds);
    FracRoundTrip(mds);
  }

  lemma DefaultInterval(s: seq<byte>, base: Command)
    requires base.interval == 0.0 && Decode(s, base).Some?
    ensures |s| >= 3
    ensures Decode(s, base).value.interval == DecimalValue(IntervalDigits(AfterDigits(s[2..])))
  {
    DecodeInterval(s, base);
    HornerFromZero(IntervalDigits(AfterDigits(s[2..])));
  }

  // ---------------------------------------------------------------------------
  // Examples

  /** A linear token on channel 0 with two magnitude digits, the second 0, read step by step. */
  lemma TwoDigitMagnitude(s: seq<byte>, base: Command, m: real)
    requires |s| == 4 && ClassOf(s[0]) == Some(Linear) && s[1] == '0' as byte && base.channel == 0
    requires IsDigit(s[2]) && IsDigit(s[3]) && s[3] == '0' as byte
    requires m == DigitValue(s[2]) as real / 10.0
    ensures Decode(s, base) == Some(base.(kind := Linear, magnitude := base.magnitude + m))
  {
    var st := Scan(MagnitudeTarget, 1, base.(kind := Linear));
    var st1 := Scan(MagnitudeTarget, 2, base.(kind := Linear, magnitude := base.magnitude + m));
    var st2 := Scan(MagnitudeTarget, 3, st1.cmd);
    assert s[2..] == [s[2], s[3]];
    assert Pow10(1) == 10.0 && Pow10(2) == 100.0;
    assert DigitValue(s[2]) as real / Pow10(st.order) == m;
    assert Step(st, s[2]) == Some(st1);
    assert DigitValue(s[3]) as real / Pow10(st1.order) == 0.0;
    assert Step(st1, s[3]) == Some(st2);
    assert Run(st1, s[3..]) == Some(st2);
  }

  /** "L090" is a linear command on channel 0 at magnitude 0.9; "L010" is at magnitude 0.1. */
  lemma DecodeLinearExamples(e: byte)
    ensures Decode(Ascii("L090"), DefaultCommand.(executeImmediate := e))
      == Some(DefaultCommand.(kind := Linear, magnitude := 0.9, executeImmediate := e))
    ensures Decode(Ascii("L010"), DefaultCommand.(executeImmediate := e))
      == Some(DefaultCommand.(kind := Linear, magnitude := 0.1, executeImmediate := e))
  {
    TwoDigitMagnitude(Ascii("L090"), DefaultCommand.(executeImmediate := e), 0.9);
    TwoDigitMagnitude(Ascii("L010"), DefaultCommand.(executeImmediate := e), 0.1);
  }

  /** "v1S50": lower case is accepted, and speed digits form a decimal fraction, 0.5. */
  lemma DecodeSpeedExample()
    ensures Decode(Ascii("v1S50"), DefaultCommand)
      == Some(DefaultCommand.(kind := Vibrate, channel := 1, speed := 0.5))
  {
    var s := Ascii("v1S50");
    assert s[2..] == [s[2], s[3], s[4]];
  }

  /** "L0I1I2": interval digits form an integer and continue across a repeated I, giving 12. */
  lemma DecodeIntervalExample()
    ensures Decode(Ascii("L0I1I2"), DefaultCommand)
      == Some(DefaultCommand.(kind := Linear, interval := 12.0))
  {
    var s := Ascii("L0I1I2");
    assert s[2..] == [s[2], s[3], s[4], s[5]];
  }

  /** Tokens that fail: too short, an unknown class letter, a letter in place of the channel, a stray letter. */
  lemma DecodeRejectExamples()
    ensures Decode(Ascii("D0"), DefaultCommand) == None
    ensures Decode(Ascii("Q01"), DefaultCommand) == None
    ensures Decode(Ascii("LX5"), DefaultCommand) == None
    ensures Decode(Ascii("L05X"), DefaultCommand) == None
  {
    var s := Ascii("L05X");
    assert s[2..] == [s[2], s[3]];
  }
}
