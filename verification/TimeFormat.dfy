/** Times in milliseconds as text such as "1d2h3min4s5ms". Main results: the formatter, which mixes a running
    remainder with plain remainders, prints the exact parts of every time, and a parser reads every time back,
    so different times print differently. */
module TimeFormat {
  import opened MachineWords
  import opened Decimal
  import opened Options

  /** One number with its unit; nothing is shown for 0. */
  function Part(n: nat, unit: string): string {
    if n > 0 then Print(n) + unit else ""
  }

  datatype Parts = Parts(days: nat, hours: nat, mins: nat, secs: nat, millis: nat) {
    /** Each part below one of the next. */
    predicate InRange() {
      hours < 24 && mins < 60 && secs < 60 && millis < 1000
    }

    function Total(): nat {
      (((days * 24 + hours) * 60 + mins) * 60 + secs) * 1000 + millis
    }

    function Text(): string {
      Part(days, "d") + (Part(hours, "h") + (Part(mins, "min") + (Part(secs, "s") + Part(millis, "ms"))))
    }
  }

  /** The parts of a time, smallest first. */
  function PartsOf(t: nat): Parts {
    var secs := t / 1000;
    var mins := secs / 60;
    var hours := mins / 60;
    Parts(hours / 24, hours % 24, mins % 60, secs % 60, t % 1000)
  }

  /** There is exactly one way to make up a time from parts in range. */
  lemma PartsExactly(t: nat, p: Parts)
    ensures p == PartsOf(t) <==> p.InRange() && p.Total() == t
  {
    if p.InRange() && p.Total() == t {
      var hours := p.days * 24 + p.hours;
      var mins := hours * 60 + p.mins;
      var secs := mins * 60 + p.secs;
      assert t / 1000 == secs && t % 1000 == p.millis;
      assert secs / 60 == mins && secs % 60 == p.secs;
      assert mins / 60 == hours && mins % 60 == p.mins;
      assert hours / 24 == p.days && hours % 24 == p.hours;
    }
  }

  /** The formatter's own ways to the days, hours and minutes. */
  lemma RunningRemainder(t: nat)
    ensures
      var p := PartsOf(t);
      var secs := t / 1000;
      && secs / 86400 == p.days
      && p.days * 86400 <= secs && (secs - p.days * 86400) / 3600 == p.hours
      && p.days * (86400 * 1000) <= t
      && 0 <= t - p.days * (86400 * 1000) - p.hours * 3600 * 1000
      && (t - p.days * (86400 * 1000) - p.hours * 3600 * 1000) / 60000 == p.mins
      && p.mins * 60 * 1000 <= t - p.days * (86400 * 1000) - p.hours * 3600 * 1000
      && secs % 60 == p.secs && t % 1000 == p.millis
  {
    var p := PartsOf(t);
    PartsExactly(t, p);
    var below := (p.mins * 60 + p.secs) * 1000 + p.millis;
    assert t == p.days * (86400 * 1000) + p.hours * 3600 * 1000 + below;
    assert below / 60000 == p.mins;
  }

  /** What FormatTime prints for every time. */
  function Printed(t: nat): string {
    if t == 0 then "unknown" else PartsOf(t).Text()
  }

  /** FmtViaOSS, for a build whose faststUint has 8 bytes: nothing is subtracted below 0, and
      what is printed are the parts of the time. */
  method FormatTime(timeInMilliSecs: Word64) returns (text: string)
    ensures text == Printed(timeInMilliSecs)
  {
    if timeInMilliSecs == 0 {
      return "unknown";
    }
    ghost var p := PartsOf(timeInMilliSecs);
    RunningRemainder(timeInMilliSecs);
    hide PartsOf, Parts.Text, Part;
    var timeInSecs: nat := timeInMilliSecs / 1000;
    var days: nat := timeInSecs / 86400;
    var oss := Show("", days, "d");
    var rest: nat := timeInMilliSecs;
    assert days == p.days;
    if days > 0 {
      rest := rest - days * (86400 * 1000);
    }
    var secsMinusDays: nat := timeInSecs - days * 86400;
    var hours: nat := secsMinusDays / 3600;
    oss := Show(oss, hours, "h");
    assert hours == p.hours;
    if hours > 0 {
      rest := rest - hours * 3600 * 1000;
    }
    var mins: nat := rest / 60000;
    oss := Show(oss, mins, "min");
    assert mins == p.mins;
    if mins > 0 {
      rest := rest - mins * 60 * 1000;
    }
    oss := Show(oss, timeInSecs % 60, "s");
    oss := Show(oss, timeInMilliSecs % 1000, "ms");
    TextInOrder(p);
    text := oss;
  }

  /** Only parts above 0 are put out. */
  method Show(oss: string, n: nat, unit: string) returns (oss': string)
    ensures oss' == oss + Part(n, unit)
  {
    oss' := oss;
    if n > 0 {
      oss' := oss + (Print(n) + unit);
    }
  }

  /** A text written part by part. */
  lemma TextInOrder(p: Parts)
    ensures p.Text() ==
            "" + Part(p.days, "d") + Part(p.hours, "h") + Part(p.mins, "min") + Part(p.secs, "s") + Part(p.millis, "ms")
  {
    hide Part;
  }

  // ---- Which parts are shown ----

  /** The characters before the first digit. */
  function UpToDigit(s: string): (p: string)
    ensures p <= s && forall i :: 0 <= i < |p| ==> !IsDigit(p[i])
    ensures |p| < |s| ==> IsDigit(s[|p|])
  {
    if s != "" && !IsDigit(s[0]) then [s[0]] + UpToDigit(s[1..]) else ""
  }

  /** The digits a text starts with, what stands between them and the next digit, and the rest. */
  function NextGroup(s: string): (g: (string, string, string))
    ensures s != "" ==> |g.2| < |s|
  {
    var digits := DigitPrefix(s);
    var unit := UpToDigit(s[|digits|..]);
    assert digits == "" ==> s[|digits|..] == s;
    (digits, unit, s[|digits| + |unit|..])
  }

  /** A text split into its digits and what stands between them. */
  function Groups(s: string): seq<(string, string)>
    decreases |s|
  {
    if s == "" then []
    else
      var g := NextGroup(s);
      [(g.0, g.1)] + Groups(g.2)
  }

  /** A number above 0, printed, with its unit. */
  function Shown(part: (nat, string)): seq<(string, string)> {
    if part.0 > 0 then [(Print(part.0), part.1)] else []
  }

  /** The positive ones of some numbers, printed, with their units. */
  function Positive(parts: seq<(nat, string)>): seq<(string, string)> {
    if parts == [] then [] else Shown(parts[0]) + Positive(parts[1..])
  }

  /** What may follow a unit. */
  predicate IsTail(s: string) {
    s == "" || IsDigit(s[0])
  }

  predicate IsUnitText(unit: string) {
    unit != "" && forall i :: 0 <= i < |unit| ==> !IsDigit(unit[i])
  }

  lemma {:induction false} UnitStops(unit: string, rest: string)
    requires (forall i :: 0 <= i < |unit| ==> !IsDigit(unit[i])) && IsTail(rest)
    ensures UpToDigit(unit + rest) == unit
  {
    if unit == "" {
      assert unit + rest == rest;
    } else {
      assert (unit + rest)[1..] == unit[1..] + rest;
      UnitStops(unit[1..], rest);
    }
  }

  lemma FirstGroup(s: string, digits: string, unit: string, rest: string)
    requires s != "" && NextGroup(s) == (digits, unit, rest)
    ensures Groups(s) == [(digits, unit)] + Groups(rest)
  {
    hide NextGroup;
  }

  lemma PartSplit(n: nat, unit: string, rest: string)
    requires IsUnitText(unit) && IsTail(rest)
    ensures IsTail(Part(n, unit) + rest)
    ensures Groups(Part(n, unit) + rest) == Shown((n, unit)) + Groups(rest)
  {
    hide Print, Groups, Value, DigitPrefix, UpToDigit;
    if n > 0 {
      var s := Part(n, unit) + rest;
      PrintedValue(n);
      assert !StartsWithDigit(unit + rest) by {
        assert (unit + rest)[0] == unit[0];
      }
      PrefixStops(Print(n), unit + rest);
      UnitStops(unit, rest);
      assert s == Print(n) + (unit + rest);
      assert s[|Print(n)|..] == unit + rest && s[|Print(n)| + |unit|..] == rest;
      assert s[0] == Print(n)[0];
      FirstGroup(s, Print(n), unit, rest);
    } else {
      assert Part(n, unit) + rest == rest;
    }
  }

  /** The text shows exactly the parts above 0, in order, each as its number and its unit. */
  lemma OnlyPositiveParts(p: Parts)
    ensures Groups(p.Text()) ==
            Positive([(p.days, "d"), (p.hours, "h"), (p.mins, "min"), (p.secs, "s"), (p.millis, "ms")])
  {
    hide Part, Groups, Print;
    var e := "";
    NoGroups();
    PartSplit(p.millis, "ms", e);
    var millis := Part(p.millis, "ms");
    assert millis + e == millis;
    PartSplit(p.secs, "s", millis);
    var secs := Part(p.secs, "s") + millis;
    PartSplit(p.mins, "min", secs);
    var mins := Part(p.mins, "min") + secs;
    PartSplit(p.hours, "h", mins);
    PartSplit(p.days, "d", Part(p.hours, "h") + mins);
    var parts := [(p.days, "d"), (p.hours, "h"), (p.mins, "min"), (p.secs, "s"), (p.millis, "ms")];
    PositiveOfFive(parts);
  }

  lemma NoGroups()
    ensures Groups("") == [] && IsTail("")
  {
  }

  lemma PositiveOfFive(parts: seq<(nat, string)>)
    requires |parts| == 5
    ensures Positive(parts) ==
            Shown(parts[0]) + (Shown(parts[1]) + (Shown(parts[2]) + (Shown(parts[3]) + (Shown(parts[4]) + []))))
  {
    hide Shown;
    assert parts[4..][1..] == [] && Positive(parts[4..]) == Shown(parts[4]) + [];
    assert parts[3..][1..] == parts[4..] && Positive(parts[3..]) == Shown(parts[3]) + Positive(parts[4..]);
    assert parts[2..][1..] == parts[3..] && Positive(parts[2..]) == Shown(parts[2]) + Positive(parts[3..]);
    assert parts[1..][1..] == parts[2..] && Positive(parts[1..]) == Shown(parts[1]) + Positive(parts[2..]);
  }

  /** Five seconds are "5s". */
  lemma FiveSeconds()
    ensures PartsOf(5000).Text() == "5s"
  {
    assert Print(5) == "5";
  }

  // ---- Reading back ----

  /** The unit a text starts with: its length, and its milliseconds. */
  function UnitAt(s: string): (u: Option<(nat, nat)>)
    ensures u.Some? ==> 1 <= u.value.0 <= |s|
  {
    if "min" <= s then Some((3, 60000))
    else if "ms" <= s then Some((2, 1))
    else if "d" <= s then Some((1, 86400000))
    else if "h" <= s then Some((1, 3600000))
    else if "s" <= s then Some((1, 1000))
    else None
  }

  function Worth(digits: string, factor: nat): nat
    requires AllDigits(digits)
  {
    Value(digits) * factor
  }

  /** A sum of numbers with units. */
  function Parse(s: string): Option<nat>
    decreases |s|
  {
    if s == "" then Some(0)
    else
      var digits := DigitPrefix(s);
      if digits == "" then None
      else
        match UnitAt(s[|digits|..])
        case None => None
        case Some((length, factor)) =>
          match Parse(s[|digits| + length..])
          case None => None
          case Some(t) => Some(Worth(digits, factor) + t)
  }

  /** The milliseconds of a unit that is printed; no other unit could be read instead of it. */
  predicate IsUnit(unit: string, factor: nat) {
    (unit, factor) in {("d", 86400000), ("h", 3600000), ("min", 60000), ("s", 1000), ("ms", 1)}
  }

  lemma UnitRead(unit: string, factor: nat, rest: string)
    requires IsUnit(unit, factor)
    ensures UnitAt(unit + rest) == Some((|unit|, factor))
    ensures !StartsWithDigit(unit + rest)
  {
    var s := unit + rest;
    assert s[..|unit|] == unit;
    assert s[0] == unit[0];
    if unit == "min" || unit == "ms" {
      assert s[1] == unit[1];
    }
  }

  lemma GroupRead(s: string, digits: string, length: nat, factor: nat, t: nat)
    requires digits != "" && DigitPrefix(s) == digits && UnitAt(s[|digits|..]) == Some((length, factor))
    requires Parse(s[|digits| + length..]) == Some(t)
    ensures Parse(s) == Some(Worth(digits, factor) + t)
  {
    hide UnitAt, DigitPrefix, Worth;
  }

  lemma PartRead(n: nat, unit: string, factor: nat, rest: string, t: nat)
    requires IsUnit(unit, factor) && IsTail(rest) && Parse(rest) == Some(t)
    ensures IsTail(Part(n, unit) + rest)
    ensures Parse(Part(n, unit) + rest) == Some(n * factor + t)
  {
    hide IsUnit, UnitAt, Print, DigitPrefix, Parse, Value;
    if n > 0 {
      PrintedValue(n);
      UnitRead(unit, factor, rest);
      PrefixStops(Print(n), unit + rest);
      var s := Part(n, unit) + rest;
      assert s == Print(n) + (unit + rest);
      assert s[|Print(n)|..] == unit + rest;
      assert s[|Print(n)| + |unit|..] == rest;
      GroupRead(s, Print(n), |unit|, factor, t);
      assert s[0] == Print(n)[0];
    } else {
      assert Part(n, unit) + rest == rest;
    }
  }

  /** Whatever parts are printed, they are read back as their total. */
  lemma TextRead(p: Parts)
    ensures Parse(p.Text()) == Some(p.Total())
  {
    hide Parse, Part, IsTail;
    var e := "";
    assert IsTail(e) && Parse(e) == Some(0) by { EmptyRead(); }
    PartRead(p.millis, "ms", 1, e, 0);
    var millis := Part(p.millis, "ms");
    assert millis + e == millis;
    PartRead(p.secs, "s", 1000, millis, p.millis);
    var secs := Part(p.secs, "s") + millis;
    PartRead(p.mins, "min", 60000, secs, p.secs * 1000 + p.millis);
    var mins := Part(p.mins, "min") + secs;
    PartRead(p.hours, "h", 3600000, mins, p.mins * 60000 + p.secs * 1000 + p.millis);
    var hours := Part(p.hours, "h") + mins;
    PartRead(p.days, "d", 86400000, hours, p.hours * 3600000 + p.mins * 60000 + p.secs * 1000 + p.millis);
  }

  lemma EmptyRead()
    ensures IsTail("") && Parse("") == Some(0) && Parse("unknown") == None
  {
    assert !IsDigit("unknown"[0]);
  }

  /** Time format round trip, for every time but 0: the printed text is read back as that time. */
  lemma TimeRoundTrip(t: nat)
    ensures Parse(PartsOf(t).Text()) == Some(t)
  {
    hide Parse, PartsOf, Parts.Text;
    PartsExactly(t, PartsOf(t));
    TextRead(PartsOf(t));
  }

  /** Different times print differently. */
  lemma DifferentTimesPrintDifferently(t: nat, u: nat)
    ensures Printed(t) == Printed(u) <==> t == u
  {
    hide Parse, PartsOf, Parts.Text;
    TimeRoundTrip(t);
    TimeRoundTrip(u);
    EmptyRead();
  }
}
