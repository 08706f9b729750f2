/** The "about" section counters. Each counter picks a target, then a timer
    chain reads the number currently displayed, moves it towards the target
    by a fixed increment and writes it back, until the target is reached.
    The displayed number lives in the element's text, so every tick goes
    through `parseInt` and back through number-to-string conversion; this
    module models both and shows that the round trip is exact, so the chain
    can be followed on integers. */
module Counter {
  import opened Optional
  import opened Text

  /** The divisor of the target that gives the per-tick increment. */
  const Speed: int := 200

  /** The value of `c` as a digit in radix 36 (`0`-`9`, then `a`-`z` in
      either case), or -1 when `c` is no digit at all. */
  function DigitValue(c: char): (v: int)
    ensures -1 <= v < 36
  {
    if '0' <= c <= '9' then c as int - '0' as int
    else if 'a' <= c <= 'z' then c as int - 'a' as int + 10
    else if 'A' <= c <= 'Z' then c as int - 'A' as int + 10
    else -1
  }

  predicate IsDigitIn(c: char, radix: nat) {
    0 <= DigitValue(c) < radix
  }

  /** The length of the longest prefix of `s` made of radix digits. */
  function DigitPrefixLength(s: string, radix: nat): (n: nat)
    ensures n <= |s|
    ensures forall k | 0 <= k < n :: IsDigitIn(s[k], radix)
    ensures n < |s| ==> !IsDigitIn(s[n], radix)
  {
    if |s| == 0 || !IsDigitIn(s[0], radix) then 0
    else 1 + DigitPrefixLength(s[1..], radix)
  }

  /** The number a string of radix digits denotes, most significant first. */
  function ValueOf(ds: string, radix: nat): nat
    requires forall k | 0 <= k < |ds| :: IsDigitIn(ds[k], radix)
  {
    if |ds| == 0 then 0
    else
      var high: nat := ValueOf(ds[..|ds| - 1], radix);
      assert IsDigitIn(ds[|ds| - 1], radix);
      var low: nat := DigitValue(ds[|ds| - 1]);
      MulNonNegative(high, radix);
      high * radix + low
  }

  /** The unsigned part of `parseInt`: a `0x` or `0X` prefix selects
      radix 16 (radix 10 otherwise), and the longest run of digits that
      follows is the value; no digit at all gives `None`. */
  function ParseMagnitude(u: string): Option<nat> {
    var hex := |u| >= 2 && u[0] == '0' && (u[1] == 'x' || u[1] == 'X');
    var radix := if hex then 16 else 10;
    var body := if hex then u[2..] else u;
    var n := DigitPrefixLength(body, radix);
    if n == 0 then None else Some(ValueOf(body[..n], radix))
  }

  /** `parseInt` after the leading whitespace: one optional sign, then the
      magnitude. */
  function ParseSigned(t: string): Option<int> {
    if |t| > 0 && (t[0] == '+' || t[0] == '-') then
      match ParseMagnitude(t[1..])
      case None => None
      case Some(v) => Some(if t[0] == '-' then -(v as int) else v)
    else
      match ParseMagnitude(t)
      case None => None
      case Some(v) => Some(v)
  }

  /** `parseInt(s)` with no radix argument, `None` standing for `NaN`:
      leading whitespace is skipped, then a signed magnitude is read. */
  function ParseInt(s: string): Option<int> {
    ParseSigned(TrimStart(s))
  }

  /** The decimal digit character for `d`. */
  function DigitChar(d: nat): (c: char)
    requires d < 10
    ensures DigitValue(c) == d
  {
    ('0' as int + d) as char
  }

  /** The decimal numeral of `n`, without leading zeros. */
  function Digits(n: nat): (r: string)
    ensures |r| > 0
    ensures forall k | 0 <= k < |r| :: IsDigitIn(r[k], 10)
    ensures r[0] == '0' ==> n == 0 && |r| == 1
  {
    if n < 10 then [DigitChar(n)] else Digits(n / 10) + [DigitChar(n % 10)]
  }

  /** The text a number becomes when it is assigned to `innerText`, for an
      integer of fewer than 22 digits: an optional minus sign, then the
      decimal numeral. */
  function ToDecimal(n: int): string {
    if n < 0 then "-" + Digits(-n) else Digits(n)
  }

  /** Reading a numeral back gives the number it was written from. */
  lemma {:induction false} ValueOfDigits(n: nat)
    ensures ValueOf(Digits(n), 10) == n
    decreases n
  {
    if n >= 10 {
      var d := Digits(n);
      assert d[..|d| - 1] == Digits(n / 10);
      ValueOfDigits(n / 10);
    }
  }

  /** The digits of a numeral run to its end, and denote the number. */
  lemma MagnitudeOfNumeral(m: nat)
    ensures ParseMagnitude(Digits(m)) == Some(m)
  {
    var d := Digits(m);
    ValueOfDigits(m);
    assert d[..|d|] == d;
    assert DigitPrefixLength(d, 10) == |d|;
  }

  /** A numeral is read whole. */
  lemma ParseNumeral(m: nat)
    ensures ParseInt(Digits(m)) == Some(m)
  {
    var d := Digits(m);
    MagnitudeOfNumeral(m);
    assert IsDigitIn(d[0], 10);
    assert TrimStart(d) == d;
  }

  /** A minus sign in front of a numeral negates it. */
  lemma ParseNegativeNumeral(m: nat)
    ensures ParseInt("-" + Digits(m)) == Some(-(m as int))
  {
    var d := Digits(m);
    var s := "-" + d;
    assert s[0] == '-' && s[1..] == d;
    assert TrimStart(s) == s by {
      assert !IsSpace('-');
    }
    assert ParseSigned(s) == Some(-(m as int)) by {
      MagnitudeOfNumeral(m);
    }
  }

  /** `parseInt` undoes the number-to-text conversion exactly. */
  lemma ParseDecimal(n: int)
    ensures ParseInt(ToDecimal(n)) == Some(n)
  {
    if n < 0 {
      ParseNegativeNumeral(-n);
    } else {
      ParseNumeral(n);
    }
  }

  /** `parseInt(counter.innerText) || 0`: the displayed number, with `NaN`
      (and zero) read as zero. */
  function ReadCurrent(text: string): int {
    ParseInt(text).GetOr(0)
  }

  /** A number the counter wrote is read back unchanged on the next tick. */
  lemma ReadBack(n: int)
    ensures ReadCurrent(ToDecimal(n)) == n
  {
    ParseDecimal(n);
  }

  /** The target: `data-target` parsed as an integer when that is not `NaN`
      (an absent attribute is `null`, which parses as the text "null");
      otherwise the number in the element's text, where `NaN` and 0 both
      become 100. */
  function SelectTarget(dataTarget: Option<string>, text: string): (target: int)
    ensures ParseInt(dataTarget.GetOr("null")).Some? ==> target == ParseInt(dataTarget.GetOr("null")).value
    ensures ParseInt(dataTarget.GetOr("null")).None? ==> target != 0
    ensures ParseInt(dataTarget.GetOr("null")).None? ==>
      target == 100 || ParseInt(text) == Some(target)
    ensures ParseInt(dataTarget.GetOr("null")).None? && ParseInt(text).Some? && ParseInt(text).value != 0 ==>
      target == ParseInt(text).value
    ensures ParseInt(dataTarget.GetOr("null")).None? && ParseInt(text).GetOr(0) == 0 ==> target == 100
  {
    match ParseInt(dataTarget.GetOr("null"))
    case Some(v) => v
    case None =>
      var fromText := ParseInt(text).GetOr(0);
      if fromText == 0 then 100 else fromText
  }

  /** A counter without `data-target` whose text is a nonzero number counts
      to that number; a counter with a numeric `data-target` counts to it
      whatever its text. */
  lemma SelectTargetFromNumbers(n: int, text: string)
    ensures n != 0 ==> SelectTarget(None, ToDecimal(n)) == n
    ensures SelectTarget(Some(ToDecimal(n)), text) == n
    ensures SelectTarget(None, ToDecimal(0)) == 100
  {
    ParseDecimal(n);
    ParseDecimal(0);
    assert "null"[0] == 'n';
    assert TrimStart("null") == "null";
    assert DigitPrefixLength("null", 10) == 0;
  }

  /** `Math.ceil(x / d)` for a positive divisor, on exact integers. */
  function CeilDiv(x: int, d: int): (q: int)
    requires d > 0
    ensures d * (q - 1) < x <= d * q
  {
    if x % d == 0 then x / d else x / d + 1
  }

  /** The increment of one tick, `Math.ceil(target / 200)`. */
  function Inc(target: int): (inc: int)
    ensures target > 0 ==> inc >= 1
    ensures target <= 0 ==> inc <= 0
  {
    CeilDiv(target, Speed)
  }

  /** What one tick does: the number it writes, and whether it schedules
      another tick. */
  datatype Tick = Tick(written: int, again: bool)

  /** One run of the counter's `update` callback as the page script has it:
      below the target it writes `min(current + inc, target)` and schedules
      another tick; at or above the target it writes the target and stops. */
  function UpdateAsWritten(current: int, target: int): (t: Tick)
    ensures current >= target ==> t == Tick(target, false)
    ensures current < target ==> t.again && t.written <= target
    ensures current < target && current + Inc(target) < target ==> t.written == current + Inc(target)
    ensures current < target && current + Inc(target) >= target ==> t.written == target
    ensures current < target && target > 0 ==> current < t.written
  {
    if current < target then
      var next := current + Inc(target);
      Tick(if next < target then next else target, true)
    else Tick(target, false)
  }

  /** The state after `n` ticks of the as-written callback, started at
      `current`; a tick that stopped the chain is not followed by more. */
  function RunAsWritten(current: int, target: int, n: nat): (t: Tick)
    ensures n == 0 ==> t == Tick(current, true)
  {
    if n == 0 then Tick(current, true)
    else
      var prev := RunAsWritten(current, target, n - 1);
      if prev.again then UpdateAsWritten(prev.written, target) else prev
  }

  /** The as-written callback never finishes below a non-positive target:
      the increment is 0 or negative, so the number never rises and every
      tick schedules another one, for ever. */
  lemma {:induction false} AsWrittenStalls(current: int, target: int, n: nat)
    requires current < target <= 0
    ensures RunAsWritten(current, target, n).again
    ensures RunAsWritten(current, target, n).written <= current
  {
    if n > 0 {
      AsWrittenStalls(current, target, n - 1);
    }
  }

  /** With an increment of 0 the as-written callback writes its starting
      number on every tick below the target and never stops. */
  lemma {:induction false} AsWrittenStandsStill(current: int, target: int, n: nat)
    requires current < target && Inc(target) == 0
    ensures RunAsWritten(current, target, n) == Tick(current, true)
  {
    if n > 0 {
      AsWrittenStandsStill(current, target, n - 1);
    }
  }

  /** The concrete case: a counter with `data-target="-10"` whose text reads
      "-20" writes -20 on every tick and never stops. */
  lemma AsWrittenStallExample(n: nat)
    ensures SelectTarget(Some("-10"), "-20") == -10
    ensures Inc(-10) == 0
    ensures UpdateAsWritten(-20, -10) == Tick(-20, true)
    ensures RunAsWritten(ReadCurrent(ToDecimal(-20)), -10, n) == Tick(-20, true)
  {
    assert ToDecimal(-10) == "-10" by { assert Digits(10) == "10"; }
    SelectTargetFromNumbers(-10, "-20");
    ReadBack(-20);
    AsWrittenStandsStill(-20, -10, n);
  }

  /** The increment with the evident guard: at least 1. */
  function GuardedInc(target: int): (inc: int)
    ensures inc >= 1
    ensures target > 0 ==> inc == Inc(target)
  {
    var inc := Inc(target);
    if inc < 1 then 1 else inc
  }

  /** One tick of the counter with the increment guarded to be at least 1:
      below the target the number strictly rises without passing the
      target; at or above it the target is written and the chain stops. */
  function Update(current: int, target: int): (t: Tick)
    ensures current >= target ==> t == Tick(target, false)
    ensures current < target ==> t.again && current < t.written <= target
    ensures current < target && current + GuardedInc(target) < target ==>
      t.written == current + GuardedInc(target)
    ensures current < target && current + GuardedInc(target) >= target ==> t.written == target
  {
    if current < target then
      var next := current + GuardedInc(target);
      Tick(if next < target then next else target, true)
    else Tick(target, false)
  }

  /** For every positive target the guarded tick is the page script's tick.
      Without a readable `data-target` the target is either the number the
      counter starts from (so no tick rises) or 100, so the two can differ
      only under an explicit `data-target` of 0 or less. */
  lemma UpdateAgrees(current: int, target: int)
    requires target > 0
    ensures Update(current, target) == UpdateAsWritten(current, target)
  {
  }

  /** The numbers written by the ticks that schedule a further tick,
      starting from `current`: strictly increasing, above `current`, never
      past the target, and ending at the target when there is any. */
  function Steps(current: int, target: int): (vs: seq<int>)
    ensures current >= target ==> vs == []
    ensures current < target ==> |vs| > 0 && vs[|vs| - 1] == target
    ensures forall k | 0 <= k < |vs| :: current < vs[k] <= target
    ensures forall k | 0 < k < |vs| :: vs[k - 1] < vs[k]
    decreases if current < target then target - current else 0
  {
    if current < target then
      var next := Update(current, target).written;
      [next] + Steps(next, target)
    else []
  }

  /** Everything the counter displays, tick by tick, from its initial text:
      the rising steps, then the target once more from the tick that
      finds it reached. The chain always ends on exactly the target. */
  function Animate(text: string, target: int): (shown: seq<int>)
    ensures |shown| > 0 && shown[|shown| - 1] == target
    ensures forall k | 0 <= k < |shown| - 1 :: ReadCurrent(text) < shown[k] <= target
  {
    Steps(ReadCurrent(text), target) + [target]
  }

  /** Each tick of the animation reads back what the previous one wrote and
      applies `Update` to it: the step sequence is the orbit of `Update`. */
  lemma {:induction false} StepsFollowUpdate(current: int, target: int, k: nat)
    requires k < |Steps(current, target)|
    ensures Steps(current, target)[k] ==
      Update(if k == 0 then current else ReadCurrent(ToDecimal(Steps(current, target)[k - 1])), target).written
    decreases if current < target then target - current else 0
  {
    var vs := Steps(current, target);
    var next := Update(current, target).written;
    if k > 0 {
      StepsFollowUpdate(next, target, k - 1);
      ReadBack(vs[k - 1]);
      if k > 1 {
        ReadBack(Steps(next, target)[k - 2]);
      }
    }
  }

  /** Counting from `current` towards a target of at most 200 goes up by
      one: the steps are `current + 1`, ..., `target`. */
  lemma {:induction false} StepsByOne(current: int, target: int)
    requires 0 < target <= Speed && current < target
    ensures |Steps(current, target)| == target - current
    ensures forall k | 0 <= k < target - current :: Steps(current, target)[k] == current + 1 + k
    decreases target - current
  {
    CeilDivOne(target, Speed);
    var next := current + 1;
    var vs := Steps(current, target);
    assert vs[0] == next;
    if next < target {
      StepsByOne(next, target);
      assert vs[1..] == Steps(next, target);
      forall k | 0 < k < target - current ensures vs[k] == current + 1 + k {
        assert vs[k] == vs[1..][k - 1];
      }
    }
  }

  /** A counter with a target of at most 200 whose text reads "0" shows
      1, 2, ..., target, then the target once more. */
  lemma CountUpFromZero(target: int)
    requires 0 < target <= Speed
    ensures |Steps(0, target)| == target
    ensures forall k | 0 <= k < target :: Steps(0, target)[k] == k + 1
    ensures Animate("0", target) == Steps(0, target) + [target]
  {
    StepsByOne(0, target);
    AnimateFromZero(target);
  }

  /** A counter targeting 37 from a text reading "0" shows 1, 2, ..., 37,
      that is 37 rising steps, then 37 once more, and never more than 37. */
  lemma CountTo37()
    ensures |Steps(0, 37)| == 37
    ensures forall k | 0 <= k < 37 :: Steps(0, 37)[k] == k + 1
    ensures Animate("0", 37) == Steps(0, 37) + [37]
  {
    CountUpFromZero(37);
  }

  /** A counter whose text reads "0" starts its chain at 0. */
  lemma AnimateFromZero(target: int)
    ensures Animate("0", target) == Steps(0, target) + [target]
  {
    assert ToDecimal(0) == "0";
    ReadBack(0);
  }

  /** The number of rising ticks is `ceil((target - current) / inc)`. */
  lemma {:induction false} StepCount(current: int, target: int)
    requires current < target
    ensures |Steps(current, target)| == CeilDiv(target - current, GuardedInc(target))
    decreases target - current
  {
    var inc := GuardedInc(target);
    var next := Update(current, target).written;
    if current + inc < target {
      StepCount(next, target);
      CeilDivStep(target - current, inc);
    } else {
      CeilDivOne(target - current, inc);
    }
  }

  /** For a positive target, the page script's own chain of ticks passes
      through exactly the numbers of `Steps`, each tick scheduling the next. */
  lemma {:induction false} RunAsWrittenFollowsSteps(current: int, target: int, k: nat)
    requires 0 < target && current < target
    requires 1 <= k <= |Steps(current, target)|
    ensures RunAsWritten(current, target, k) == Tick(Steps(current, target)[k - 1], true)
    decreases k
  {
    if k == 1 {
      UpdateAgrees(current, target);
    } else {
      RunAsWrittenFollowsSteps(current, target, k - 1);
      ScriptTickOnStep(current, target, k - 1);
    }
  }

  /** From any rising step but the last, the script's own tick writes the
      next step and schedules another tick. */
  lemma ScriptTickOnStep(current: int, target: int, k: nat)
    requires 0 < target && current < target
    requires 1 <= k < |Steps(current, target)|
    ensures UpdateAsWritten(Steps(current, target)[k - 1], target) == Tick(Steps(current, target)[k], true)
  {
    var vs := Steps(current, target);
    var prev := vs[k - 1];
    assert prev < target by {
      assert vs[k - 1] < vs[k];
    }
    StepsFollowUpdate(current, target, k);
    ReadBack(prev);
    UpdateAgrees(prev, target);
  }


  /** For a positive target the page script's chain stops, one tick after
      the last rising step, with exactly the target displayed, and stays so. */
  lemma {:induction false} RunAsWrittenReachesTarget(current: int, target: int, n: nat)
    requires 0 < target && current < target
    requires n > |Steps(current, target)|
    ensures RunAsWritten(current, target, n) == Tick(target, false)
    decreases n
  {
    var m := |Steps(current, target)|;
    if n == m + 1 {
      RunAsWrittenFollowsSteps(current, target, m);
    } else {
      RunAsWrittenReachesTarget(current, target, n - 1);
    }
  }

  /** Without a readable `data-target` the script's tick is the guarded one:
      the target is either positive or the very number the counter starts
      from. */
  lemma FallbackTargetIsSafe(dataTarget: Option<string>, text: string)
    requires ParseInt(dataTarget.GetOr("null")).None?
    ensures SelectTarget(dataTarget, text) > 0 || ReadCurrent(text) == SelectTarget(dataTarget, text)
    ensures UpdateAsWritten(ReadCurrent(text), SelectTarget(dataTarget, text))
         == Update(ReadCurrent(text), SelectTarget(dataTarget, text))
  {
    var target := SelectTarget(dataTarget, text);
    if target > 0 {
      UpdateAgrees(ReadCurrent(text), target);
    }
  }

  /** `ceil(x / d)` is 1 for `0 < x <= d`. */
  lemma CeilDivOne(x: int, d: int)
    requires 0 < x <= d
    ensures CeilDiv(x, d) == 1
  {
    CeilDivUnique(x, d, 1);
  }

  /** `ceil(x / d)` is one more than `ceil((x - d) / d)`. */
  lemma CeilDivStep(x: int, d: int)
    requires d > 0
    ensures CeilDiv(x, d) == CeilDiv(x - d, d) + 1
  {
    var q := CeilDiv(x - d, d);
    assert d * (q + 1 - 1) < x <= d * (q + 1) by {
      assert d * (q + 1) == d * q + d;
    }
    CeilDivUnique(x, d, q + 1);
  }

  /** Any `q` with `d * (q - 1) < x <= d * q` is `ceil(x / d)`. */
  lemma CeilDivUnique(x: int, d: int, q: int)
    requires d > 0
    requires d * (q - 1) < x <= d * q
    ensures CeilDiv(x, d) == q
  {
    var p := CeilDiv(x, d);
    if p < q {
      MulMonotone(d, p, q - 1);
    }
  }

  lemma MulNonNegative(a: nat, b: nat)
    ensures a * b >= 0
  {
  }

  lemma MulMonotone(d: int, a: int, b: int)
    requires d > 0 && a <= b
    ensures d * a <= d * b
  {
    assert d * b - d * a == d * (b - a);
  }
}
