/** The real value of an attribute from its raw value and a configured unit such as "1h15s". Numbers in the
    text are kept in 64 bits; raw value and result are not bounded. Main results: over every text the result is
    the raw value times a coefficient that depends on the text alone; when the 64 bits make a difference to it;
    what it is for every sequence of numbers followed by unit letters; and which texts are errors. */
module RealValue {
  import opened MachineWords
  import opened Decimal

  // The bytes of a degree sign in UTF-8, each as one char.
  const DEGREE0: char := 0xC2 as char
  const DEGREE1: char := 0xB0 as char

  /** The loop's state after some characters, before any wrap-around: coefficient is what the raw value has
      been multiplied by so far. */
  datatype Scan = Scan(num: nat, isNumber: bool, error: bool, coefficient: nat)

  const SCAN_START := Scan(0, false, false, 0)

  predicate IsUnitLetter(c: char) {
    c == 'B' || c == 'G' || c == 'h' || c == 's'
  }

  function Factor(c: char): nat
    requires IsUnitLetter(c)
  {
    if c == 'B' then 1 else if c == 'G' then 1000000000 else if c == 'h' then 3600000 else 1000
  }

  /** Characters that are neither digits nor unit letters but no error at their position: those of "°C". */
  predicate IsDegreeAt(c: char, idx: nat) {
    (c == DEGREE0 && idx == 0) || (c == DEGREE1 && idx == 1) || (c == 'C' && idx == 2)
  }

  function ScanChar(st: Scan, c: char, idx: nat): Scan {
    if IsDigit(c) then
      st.(isNumber := true, num := if st.isNumber then st.num * 10 + DigitValue(c) else DigitValue(c))
    else
      var num := if IsUnitLetter(c) then st.num * Factor(c) else if c == 'C' && idx == 2 then 1 else st.num;
      Scan(num, false, st.error || !(IsUnitLetter(c) || IsDegreeAt(c, idx)), st.coefficient + num)
  }

  function ScanText(s: string): Scan {
    if s == "" then SCAN_START else ScanChar(ScanText(s[..|s| - 1]), s[|s| - 1], |s| - 1)
  }

  // ---- Machine arithmetic ----

  function Wrap(x: nat): Word64 {
    x % TWO_TO_64
  }

  lemma WrapMultiple(x: nat, k: nat)
    ensures Wrap(x + k * TWO_TO_64) == Wrap(x)
  {
  }

  lemma WrapProduct(x: nat, y: nat)
    ensures Wrap(Wrap(x) * y) == Wrap(x * y)
  {
    var q, r := x / TWO_TO_64, Wrap(x);
    var k := q * y;
    assert x * y == r * y + k * TWO_TO_64;
    WrapMultiple(r * y, k);
  }

  lemma WrapSum(x: nat, y: nat)
    ensures Wrap(Wrap(x) + y) == Wrap(x + y)
  {
    WrapMultiple(Wrap(x) + y, x / TWO_TO_64);
  }

  /** The number after a digit, or after a unit letter, in machine arithmetic. */
  lemma WrapNumber(num: nat, x: nat, d: nat)
    ensures Wrap(Wrap(Wrap(num) * x) + d) == Wrap(num * x + d)
    ensures Wrap(Wrap(num) * x) == Wrap(num * x)
  {
    hide Wrap;
    WrapProduct(num, x);
    WrapSum(num * x, d);
  }

  /** What the raw value is multiplied by, with all numbers kept in 64 bits: a term for each character that is
      no digit. */
  function Multiplier(s: string): nat {
    if s == "" then 0
    else Multiplier(s[..|s| - 1]) + if IsDigit(s[|s| - 1]) then 0 else Wrap(ScanText(s).num)
  }

  /** getRealValue: for every text the result is linear in the raw value. */
  method GetRealValue(unit: string, raw: nat) returns (error: bool, value: nat)
    ensures error == ScanText(unit).error
    ensures value == raw * Multiplier(unit)
  {
    hide Wrap;
    WrapSmall();
    var currNum: Word64, isNumber := 0, false;
    error, value := false, 0;
    for idx := 0 to |unit|
      invariant error == ScanText(unit[..idx]).error && isNumber == ScanText(unit[..idx]).isNumber
      invariant currNum == Wrap(ScanText(unit[..idx]).num)
      invariant value == raw * Multiplier(unit[..idx])
    {
      hide ScanText;
      ghost var st := ScanText(unit[..idx]);
      OneMoreChar(unit, idx);
      var term: nat;
      error, isNumber, currNum, term := ReadChar(unit[idx], idx, raw, st, error, isNumber, currNum);
      TermAdded(raw, Multiplier(unit[..idx]), if IsDigit(unit[idx]) then 0 else currNum);
      value := value + term;
    }
    assert unit[..|unit|] == unit;
  }

  lemma TermAdded(raw: nat, multiplier: nat, num: nat)
    ensures raw * (multiplier + num) == raw * multiplier + raw * num
  {
  }

  /** One turn of getRealValue's loop; term is added to the result. */
  method ReadChar(ch: char, idx: nat, raw: nat, ghost st: Scan, error0: bool, isNumber0: bool, currNum0: Word64)
    returns (error: bool, isNumber: bool, currNum: Word64, term: nat)
    requires error0 == st.error && isNumber0 == st.isNumber && currNum0 == Wrap(st.num)
    ensures
      var st' := ScanChar(st, ch, idx);
      && error == st'.error && isNumber == st'.isNumber && currNum == Wrap(st'.num)
      && term == raw * if IsDigit(ch) then 0 else Wrap(st'.num)
  {
    hide Wrap;
    WrapSmall();
    error, isNumber, currNum, term := error0, isNumber0, currNum0, 0;
    if IsDigit(ch) {
      if !isNumber {
        isNumber := true;
        currNum := 0;
      } else {
        currNum := Wrap(currNum * 10);
      }
      WrapNumber(st.num, 10, DigitValue(ch));
      WrapSum(0, DigitValue(ch));
      currNum := Wrap(currNum + DigitValue(ch));
    } else {
      isNumber := false;
      if IsUnitLetter(ch) {
        hide Factor;
        WrapNumber(st.num, Factor(ch), 0);
        currNum := Wrap(currNum * Factor(ch));
      } else if ch == DEGREE0 {
        if idx != 0 {
          error := true;
        }
      } else if ch == DEGREE1 {
        if idx != 1 {
          error := true;
        }
      } else if ch == 'C' {
        if idx != 2 {
          error := true;
        } else {
          currNum := 1;
        }
      } else {
        error := true;
      }
      term := raw * currNum;
    }
  }

  lemma WrapSmall()
    ensures Wrap(0) == 0 && Wrap(1) == 1
  {
  }

  lemma OneMoreChar(s: string, idx: nat)
    requires idx < |s|
    ensures ScanText(s[..idx + 1]) == ScanChar(ScanText(s[..idx]), s[idx], idx)
    ensures Multiplier(s[..idx + 1]) ==
            Multiplier(s[..idx]) + if IsDigit(s[idx]) then 0 else Wrap(ScanText(s[..idx + 1]).num)
  {
    assert s[..idx + 1][..idx] == s[..idx];
    assert s[..idx + 1][idx] == s[idx];
  }

  // ---- Numbers that do not fit 64 bits ----

  /** Every number that counts stays below 2^64. */
  predicate NumbersFit(s: string) {
    forall i :: 0 <= i < |s| ==> NumberFits(s, i)
  }

  predicate NumberFits(s: string, i: nat)
    requires i < |s|
  {
    IsDigit(s[i]) || ScanText(s[..i + 1]).num < TWO_TO_64
  }

  lemma WrapAtMost(x: nat)
    ensures Wrap(x) <= x
    ensures Wrap(x) == x <==> x < TWO_TO_64
  {
  }

  lemma NumberFitsBefore(s: string, i: nat)
    requires i < |s| - 1
    ensures NumberFits(s[..|s| - 1], i) <==> NumberFits(s, i)
  {
    assert s[..|s| - 1][..i + 1] == s[..i + 1];
  }

  lemma LastNumberFits(s: string)
    requires s != ""
    ensures NumberFits(s, |s| - 1) <==> IsDigit(s[|s| - 1]) || ScanText(s).num < TWO_TO_64
  {
    assert s[..|s| - 1 + 1] == s;
  }

  lemma NumbersFitBefore(s: string)
    requires s != ""
    ensures
      var n := |s| - 1;
      NumbersFit(s) <==> NumbersFit(s[..n]) && (IsDigit(s[n]) || ScanText(s).num < TWO_TO_64)
  {
    hide ScanText, IsDigit, NumberFits;
    var before := s[..|s| - 1];
    forall i | 0 <= i < |before| ensures NumberFits(before, i) <==> NumberFits(s, i) {
      NumberFitsBefore(s, i);
    }
    LastNumberFits(s);
    assert NumbersFit(s) <==> NumbersFit(before) && NumberFits(s, |s| - 1);
  }

  /** With 64 bits for each number the coefficient can only get smaller, and it is right exactly when every
      number that counts fits. */
  lemma {:induction false} MultiplierExactly(s: string)
    ensures Multiplier(s) <= ScanText(s).coefficient
    ensures Multiplier(s) == ScanText(s).coefficient <==> NumbersFit(s)
  {
    if s != "" {
      hide Wrap, NumbersFit;
      MultiplierExactly(s[..|s| - 1]);
      NumbersFitBefore(s);
      WrapAtMost(ScanText(s).num);
    }
  }

  predicate ResultIsLinear(s: string, raw: nat) {
    raw * Multiplier(s) == raw * ScanText(s).coefficient
  }

  /** So getRealValue's result is raw times the coefficient for every raw value exactly when they fit. */
  lemma ResultExactly(s: string)
    ensures (forall raw: nat :: ResultIsLinear(s, raw)) <==> NumbersFit(s)
  {
    hide NumbersFit, ScanText, Multiplier;
    MultiplierExactly(s);
    assert ResultIsLinear(s, 1) <==> Multiplier(s) == ScanText(s).coefficient;
  }

  // ---- Errors ----

  /** Digits, unit letters, and the three bytes of a degree sign and C at the start of a text. */
  predicate IsLegalAt(s: string, i: nat)
    requires i < |s|
  {
    || '0' <= s[i] <= '9' || s[i] in {'B', 'G', 'h', 's'}
    || (i == 0 && s[i] as int == 0xC2) || (i == 1 && s[i] as int == 0xB0) || (i == 2 && s[i] == 'C')
  }

  /** A text is an error exactly when some character of it is out of place; so an error once raised stays. */
  lemma {:induction false} ErrorExactly(s: string)
    ensures ScanText(s).error <==> exists i :: 0 <= i < |s| && !IsLegalAt(s, i)
  {
    if s != "" {
      var n := |s| - 1;
      var before := s[..n];
      ErrorExactly(before);
      assert forall i :: 0 <= i < n ==> (IsLegalAt(before, i) <==> IsLegalAt(s, i));
      assert ScanText(s).error <==> ScanText(before).error || !IsLegalAt(s, n);
      if exists i :: 0 <= i < |s| && !IsLegalAt(s, i) {
        var i :| 0 <= i < |s| && !IsLegalAt(s, i);
        assert i < n ==> !IsLegalAt(before, i);
      }
    }
  }

  // ---- Meaning ----

  /** A number and the unit letters after it. */
  datatype Group = Group(digits: string, letters: string) {
    predicate Valid() {
      && digits != "" && AllDigits(digits)
      && letters != "" && forall i :: 0 <= i < |letters| ==> IsUnitLetter(letters[i])
    }

    function Text(): string {
      digits + letters
    }
  }

  type ValidGroup = g: Group | g.Valid() witness Group("1", "s")

  /** All the letters multiply. */
  function Product(n: nat, letters: string): nat
    requires forall i :: 0 <= i < |letters| ==> IsUnitLetter(letters[i])
  {
    if letters == "" then n else Product(n, letters[..|letters| - 1]) * Factor(letters[|letters| - 1])
  }

  /** Each letter adds a term: the number times the factors up to it. */
  function Terms(n: nat, letters: string): nat
    requires forall i :: 0 <= i < |letters| ==> IsUnitLetter(letters[i])
  {
    if letters == "" then 0 else Terms(n, letters[..|letters| - 1]) + Product(n, letters)
  }

  function TextOf(groups: seq<ValidGroup>): string {
    if groups == [] then "" else TextOf(groups[..|groups| - 1]) + groups[|groups| - 1].Text()
  }

  function Coefficient(groups: seq<ValidGroup>): nat
  {
    if groups == [] then 0
    else
      var g := groups[|groups| - 1];
      Coefficient(groups[..|groups| - 1]) + Terms(Value(g.digits), g.letters)
  }

  /** ScanText of a + b continues from ScanText of a. */
  lemma DigitsScanned(a: string, digits: string)
    requires digits != "" && AllDigits(digits) && !ScanText(a).isNumber
    ensures ScanText(a + digits) == ScanText(a).(num := Value(digits), isNumber := true)
    decreases |digits|
  {
    var before, d := digits[..|digits| - 1], digits[|digits| - 1];
    assert a + digits == (a + before) + [d];
    assert (a + digits)[..|a + digits| - 1] == a + before;
    if before == "" {
      assert a + before == a;
      assert Value(before) == 0;
    } else {
      DigitsScanned(a, before);
    }
  }

  lemma {:induction false} LettersScanned(a: string, n: nat, letters: string)
    requires forall i :: 0 <= i < |letters| ==> IsUnitLetter(letters[i])
    requires ScanText(a).num == n && ScanText(a).isNumber && !ScanText(a).error
    ensures
      ScanText(a + letters) ==
      Scan(Product(n, letters), letters == "", false, ScanText(a).coefficient + Terms(n, letters))
  {
    if letters == "" {
      assert a + letters == a;
    } else {
      var before, c := letters[..|letters| - 1], letters[|letters| - 1];
      LettersScanned(a, n, before);
      assert (a + letters)[..|a + letters| - 1] == a + before;
      assert (a + letters)[|a + letters| - 1] == c;
    }
  }

  lemma GroupScanned(a: string, g: ValidGroup)
    requires !ScanText(a).isNumber && !ScanText(a).error
    ensures
      ScanText(a + g.Text()) ==
      Scan(Product(Value(g.digits), g.letters), false, false,
           ScanText(a).coefficient + Terms(Value(g.digits), g.letters))
  {
    hide ScanText, Value, Terms, Product;
    DigitsScanned(a, g.digits);
    LettersScanned(a + g.digits, Value(g.digits), g.letters);
    assert a + g.Text() == (a + g.digits) + g.letters;
  }

  /** The meaning of every sequence of groups: no error, and a coefficient that sums the terms of all letters. */
  lemma {:induction false} GroupsScanned(groups: seq<ValidGroup>)
    ensures !ScanText(TextOf(groups)).error && !ScanText(TextOf(groups)).isNumber
    ensures ScanText(TextOf(groups)).coefficient == Coefficient(groups)
  {
    if groups != [] {
      hide ScanText, Terms, Value, Product;
      var before, g := groups[..|groups| - 1], groups[|groups| - 1];
      GroupsScanned(before);
      GroupScanned(TextOf(before), g);
    }
  }

  /** What the text means to a reader: each number times all the units behind it. */
  function Meant(groups: seq<ValidGroup>): nat
  {
    if groups == [] then 0
    else
      var g := groups[|groups| - 1];
      Meant(groups[..|groups| - 1]) + Product(Value(g.digits), g.letters)
  }

  predicate OneLetterOrZero(g: ValidGroup)
  {
    |g.letters| == 1 || Value(g.digits) == 0
  }

  lemma {:induction false} ProductPositive(n: nat, letters: string)
    requires forall i :: 0 <= i < |letters| ==> IsUnitLetter(letters[i])
    ensures n == 0 ==> Product(n, letters) == 0
    ensures n > 0 ==> Product(n, letters) > 0
  {
    if letters != "" {
      ProductPositive(n, letters[..|letters| - 1]);
    }
  }

  /** Terms counts more than the product exactly when there are further letters. */
  lemma {:induction false} TermsExceedProduct(n: nat, letters: string)
    requires letters != "" && forall i :: 0 <= i < |letters| ==> IsUnitLetter(letters[i])
    ensures Product(n, letters) <= Terms(n, letters)
    ensures Product(n, letters) == Terms(n, letters) <==> |letters| == 1 || n == 0
  {
    var before := letters[..|letters| - 1];
    ProductPositive(n, before);
    ProductPositive(n, letters);
    if before == "" {
      assert Terms(n, before) == 0;
    } else {
      TermsExceedProduct(n, before);
    }
  }

  lemma LetterCount(g: ValidGroup)
    ensures OneLetterOrZero(g) <==> |g.letters| == 1 || Value(g.digits) == 0
  {
    hide Value;
  }

  /** The coefficient is the meant one exactly when every number that counts has a single unit letter; it is
      too large otherwise. */
  lemma {:induction false} MeantExactly(groups: seq<ValidGroup>)
    ensures Meant(groups) <= Coefficient(groups)
    ensures Meant(groups) == Coefficient(groups) <==> forall k :: 0 <= k < |groups| ==> OneLetterOrZero(groups[k])
  {
    if groups != [] {
      var before, g := groups[..|groups| - 1], groups[|groups| - 1];
      hide Terms, Product, OneLetterOrZero, Value;
      MeantExactly(before);
      TermsExceedProduct(Value(g.digits), g.letters);
      LetterCount(g);
      assert forall k :: 0 <= k < |before| ==> before[k] == groups[k];
      assert (forall k :: 0 <= k < |groups| ==> OneLetterOrZero(groups[k])) <==>
             (forall k :: 0 <= k < |before| ==> OneLetterOrZero(before[k])) && OneLetterOrZero(g);
    }
  }

  lemma GroupOf(digits: string, letters: string)
    requires Group(digits, letters).Valid()
    ensures TextOf([Group(digits, letters)]) == digits + letters
    ensures Coefficient([Group(digits, letters)]) == Terms(Value(digits), letters)
  {
    hide Terms, Value;
    var g: ValidGroup := Group(digits, letters);
    assert [g][..0] == [];
  }

  lemma OneMoreLetter(n: nat, letters: string, c: char)
    requires IsUnitLetter(c) && forall i :: 0 <= i < |letters| ==> IsUnitLetter(letters[i])
    ensures forall i :: 0 <= i < |letters + [c]| ==> IsUnitLetter((letters + [c])[i])
    ensures Product(n, letters + [c]) == Product(n, letters) * Factor(c)
    ensures Terms(n, letters + [c]) == Terms(n, letters) + Product(n, letters) * Factor(c)
  {
    assert (letters + [c])[..|letters|] == letters;
  }

  lemma OneLetter(n: nat, c: char)
    requires IsUnitLetter(c)
    ensures Product(n, [c]) == Terms(n, [c]) == n * Factor(c)
  {
    hide Factor;
    assert "" + [c] == [c];
    OneMoreLetter(n, "", c);
  }

  lemma ConfiguredNumbers()
    ensures Value("1") == 1 && Value("15") == 15
  {
    assert "1"[..0] == "" && "15"[..1] == "1";
  }

  /** A number with one unit letter, for every number: bytes, gigabytes (10^9), hours and seconds in ms. */
  lemma SingleUnits(n: nat)
    ensures !ScanText(Print(n) + "B").error && ScanText(Print(n) + "B").coefficient == n
    ensures !ScanText(Print(n) + "G").error && ScanText(Print(n) + "G").coefficient == n * 1000000000
    ensures !ScanText(Print(n) + "h").error && ScanText(Print(n) + "h").coefficient == n * 3600000
    ensures !ScanText(Print(n) + "s").error && ScanText(Print(n) + "s").coefficient == n * 1000
  {
    hide ScanText, Print;
    assert "B" == ['B'] && "G" == ['G'] && "h" == ['h'] && "s" == ['s'];
    SingleUnit(n, 'B');
    SingleUnit(n, 'G');
    SingleUnit(n, 'h');
    SingleUnit(n, 's');
  }

  lemma SingleUnit(n: nat, c: char)
    requires IsUnitLetter(c)
    ensures !ScanText(Print(n) + [c]).error && ScanText(Print(n) + [c]).coefficient == n * Factor(c)
  {
    hide ScanText, Value, Terms, Product, Print, Factor;
    PrintedValue(n);
    var g: ValidGroup := Group(Print(n), [c]);
    GroupsScanned([g]);
    GroupOf(Print(n), [c]);
    OneLetter(n, c);
  }

  /** "512B" of the shipped configuration. */
  lemma ConfiguredBytes()
    ensures !ScanText("512B").error && ScanText("512B").coefficient == 512
  {
    SingleUnits(512);
    assert Print(512) == "512" by {
      assert Print(51) == Print(5) + "1" && Print(5) == "5";
    }
    assert "512" + "B" == "512B";
  }

  /** Units of the shipped configuration: "1GB" is counted twice, */
  lemma ConfiguredGB()
    ensures !ScanText("1GB").error && ScanText("1GB").coefficient == 2 * 1000000000
  {
    var g: ValidGroup := Group("1", "GB");
    assert "1" + "GB" == "1GB";
    assert "GB" == "G" + "B";
    ConfiguredNumbers();
    hide ScanText, Value, Terms, Product, TextOf, Coefficient;
    GroupsScanned([g]);
    GroupOf("1", "GB");
    OneLetter(1, 'G');
    OneMoreLetter(1, "G", 'B');
  }

  /** "1h15s" is 3615 seconds, */
  lemma ConfiguredHours()
    ensures !ScanText("1h15s").error && ScanText("1h15s").coefficient == 3615 * 1000
  {
    var g: ValidGroup, g': ValidGroup := Group("1", "h"), Group("15", "s");
    assert TextOf([g, g']) == "1h15s" by {
      assert [g, g'][..1] == [g];
      GroupOf("1", "h");
      assert "1" + "h" + ("15" + "s") == "1h15s";
    }
    ConfiguredNumbers();
    hide ScanText, Value, Terms, Product, TextOf;
    GroupsScanned([g, g']);
    assert [g, g'][..1] == [g];
    GroupOf("1", "h");
    OneLetter(1, 'h');
    OneLetter(15, 's');
  }

  lemma HoursCubed()
    ensures forall i :: 0 <= i < |"hhh"| ==> IsUnitLetter("hhh"[i])
    ensures Product(1, "hhh") == 3600000 * 3600000 * 3600000
  {
    assert "hhh" == "hh" + "h" && "hh" == "h" + "h";
    hide Product, Terms;
    OneLetter(1, 'h');
    OneMoreLetter(1, "h", 'h');
    OneMoreLetter(1, "hh", 'h');
  }

  /** The letter for hours, three times, multiplies to more than 2^64. */
  lemma TooManyHours()
    ensures !ScanText("1hhh").error && Multiplier("1hhh") < ScanText("1hhh").coefficient
  {
    var g: ValidGroup := Group("1", "hhh");
    assert "" + g.Text() == "1hhh";
    ConfiguredNumbers();
    HoursCubed();
    assert ScanText("") == SCAN_START;
    hide ScanText, Value, Terms, Product, Multiplier;
    GroupScanned("", g);
    LastNumberFits("1hhh");
    MultiplierExactly("1hhh");
  }

  /** the degree sign and C leave the raw value alone, and "32MiB" is an error. */
  lemma ConfiguredDegrees()
    ensures !ScanText([DEGREE0, DEGREE1, 'C']).error && ScanText([DEGREE0, DEGREE1, 'C']).coefficient == 1
    ensures ScanText("32MiB").error
  {
    var c := [DEGREE0, DEGREE1, 'C'];
    OneMoreChar(c, 0);
    OneMoreChar(c, 1);
    OneMoreChar(c, 2);
    assert c[..0] == "" && c[..3] == c;
    ErrorExactly("32MiB");
    assert !IsLegalAt("32MiB", 2);
  }
}
