/** `runtime_semver` of scripts/ports.py, against Semantic Versioning 2.0.0,
    items 2, 9 and 11. */
module Semver {
  import opened Text
  import opened Wrappers

  /** Python refuses to convert longer digit strings. */
  const MAX_DIGITS := 4300

  datatype SemverError = NoNumericComponent | TooManyDigits

  // ---- Decimal digits ----

  /** The decimal digits of Unicode with their values, which `\d` and `int` both go by. Of the ASCII
      characters these are the ten digits. */
  type Decimals = t: char -> Option<nat> | IsDecimalTable(t) witness AsciiValue

  function AsciiValue(c: char): Option<nat> {
    if IsDigit(c) then Some(DigitValue(c)) else None
  }

  ghost predicate IsDecimalTable(t: char -> Option<nat>) {
    forall c ::
      && (IsDigit(c) ==> t(c) == Some(DigitValue(c)))
      && (t(c).Some? ==> t(c).value < 10 && (c as int < 128 ==> IsDigit(c)))
  }

  predicate AllDecimal(t: Decimals, s: string) {
    forall i :: 0 <= i < |s| ==> t(s[i]).Some?
  }

  /** The same digits in ASCII. */
  function InAscii(t: Decimals, s: string): (a: string)
    requires AllDecimal(t, s)
    ensures |a| == |s| && AllDigits(a)
  {
    seq(|s|, i requires 0 <= i < |s| => DigitChar(t(s[i]).value))
  }

  function DecimalValue(t: Decimals, s: string): nat
    requires AllDecimal(t, s)
  {
    DigitsValue(InAscii(t, s))
  }

  lemma AsciiDigitsAreDecimal(t: Decimals, s: string)
    requires AllDigits(s)
    ensures AllDecimal(t, s) && InAscii(t, s) == s && DecimalValue(t, s) == DigitsValue(s)
  {
    forall i | 0 <= i < |s|
      ensures t(s[i]).Some? && DigitChar(t(s[i]).value) == s[i]
    {
      assert IsDigit(s[i]);
    }
  }

  // ---- Reading the digits ----

  function LeadingDigits(t: Decimals, s: string): (n: nat)
    ensures n <= |s|
  {
    if s != "" && t(s[0]).Some? then 1 + LeadingDigits(t, s[1..]) else 0
  }

  /** `re.findall(r"\d+", s)` */
  function DigitRuns(t: Decimals, s: string): seq<string>
    decreases |s|
  {
    if s == "" then []
    else
      var n := LeadingDigits(t, s);
      if n > 0 then [s[..n]] + DigitRuns(t, s[n..]) else DigitRuns(t, s[1..])
  }

  lemma {:induction false} LeadingDigitsAreDigits(t: Decimals, s: string)
    ensures AllDecimal(t, s[..LeadingDigits(t, s)])
  {
    if s != "" && t(s[0]).Some? {
      LeadingDigitsAreDigits(t, s[1..]);
      var n := LeadingDigits(t, s);
      assert s[..n] == [s[0]] + s[1..][..n - 1];
    }
  }

  /** Non-empty strings of digits. */
  predicate AreRuns(t: Decimals, parts: seq<string>) {
    forall i :: 0 <= i < |parts| ==> parts[i] != "" && AllDecimal(t, parts[i])
  }

  predicate AreCanonical(parts: seq<string>) {
    forall i :: 0 <= i < |parts| ==> Canonical(parts[i])
  }

  lemma {:induction false} RunsAreDigits(t: Decimals, s: string)
    ensures AreRuns(t, DigitRuns(t, s))
    decreases |s|
  {
    if s != "" {
      var n := LeadingDigits(t, s);
      LeadingDigitsAreDigits(t, s);
      RunsAreDigits(t, if n > 0 then s[n..] else s[1..]);
    }
  }

  lemma {:induction false} RunsExistWithADigit(t: Decimals, s: string)
    ensures DigitRuns(t, s) != [] <==> exists i :: 0 <= i < |s| && t(s[i]).Some?
    decreases |s|
  {
    if s != "" && t(s[0]).None? {
      RunsExistWithADigit(t, s[1..]);
      if i :| 0 <= i < |s| && t(s[i]).Some? {
        assert t(s[1..][i - 1]).Some?;
      }
      if DigitRuns(t, s) != [] {
        var i :| 0 <= i < |s[1..]| && t(s[1..][i]).Some?;
        assert t(s[i + 1]).Some?;
      }
    }
  }

  /** The numbers that the version string spells. */
  function Components(t: Decimals, version: string): seq<nat> {
    RunsAreDigits(t, version);
    Values(t, DigitRuns(t, version))
  }

  function Values(t: Decimals, runs: seq<string>): seq<nat>
    requires AreRuns(t, runs)
  {
    seq(|runs|, i requires 0 <= i < |runs| => DecimalValue(t, runs[i]))
  }

  // ---- Writing the version ----

  function Join(parts: seq<string>, separator: char): string {
    if parts == [] then ""
    else if |parts| == 1 then parts[0]
    else parts[0] + [separator] + Join(parts[1..], separator)
  }

  function Numerals(numbers: seq<nat>): seq<string> {
    seq(|numbers|, i requires 0 <= i < |numbers| => Decimal(numbers[i]))
  }

  function RuntimeSemver(t: Decimals, version: string): Result<string, SemverError> {
    if exists r :: r in DigitRuns(t, version) && |r| > MAX_DIGITS then Err(TooManyDigits)
    else
      var numericParts := Numerals(Components(t, version));
      if numericParts == [] then Err(NoNumericComponent)
      else
        var core := (numericParts + ["0", "0"])[..3];
        var suffix := if |numericParts| > 3 then numericParts[3..] else [];
        var normalized := Join(core, '.');
        Ok(if suffix != [] then normalized + "-" + Join(suffix, '.') else normalized)
  }

  /** The components, with zeros added up to three. */
  function PadToThree(numbers: seq<nat>): (p: seq<nat>)
    requires numbers != []
    ensures |p| >= 3 && (|p| == 3 || p == numbers)
    ensures numbers <= p && forall i :: |numbers| <= i < |p| ==> p[i] == 0
  {
    if |numbers| >= 3 then numbers else (numbers + [0, 0])[..3]
  }

  function Render(numbers: seq<nat>): string
    requires |numbers| >= 3
  {
    Join(Numerals(numbers[..3]), '.') + (if |numbers| > 3 then "-" + Join(Numerals(numbers[3..]), '.') else "")
  }

  /** The core and suffix of the source are the numerals of the padded components. */
  lemma PaddedNumerals(numbers: seq<nat>)
    requires numbers != []
    ensures var parts, padded := Numerals(numbers), PadToThree(numbers);
            && (parts + ["0", "0"])[..3] == Numerals(padded[..3])
            && (|padded| > 3 <==> |parts| > 3)
            && (|parts| > 3 ==> parts[3..] == Numerals(padded[3..]))
  {
    assert Decimal(0) == "0";
    hide Decimal;
    var parts, padded := Numerals(numbers), PadToThree(numbers);
    assert forall i :: 0 <= i < 3 ==> (parts + ["0", "0"])[i] == Decimal(padded[i]);
  }

  /** The function fails exactly on versions without a digit or with a run Python refuses;
      otherwise it renders the padded components. */
  lemma SemverRendersComponents(t: Decimals, version: string)
    ensures RuntimeSemver(t, version).Ok? <==>
              && (exists i :: 0 <= i < |version| && t(version[i]).Some?)
              && forall r :: r in DigitRuns(t, version) ==> |r| <= MAX_DIGITS
    ensures RuntimeSemver(t, version).Ok? ==>
              && Components(t, version) != []
              && RuntimeSemver(t, version).value == Render(PadToThree(Components(t, version)))
  {
    hide DigitRuns, Decimal, Join, Numerals, PadToThree;
    RunsExistWithADigit(t, version);
    assert |Numerals(Components(t, version))| == |DigitRuns(t, version)| by {
      NumeralsLength(Components(t, version));
    }
    if RuntimeSemver(t, version).Ok? {
      PaddedNumerals(Components(t, version));
    }
  }

  lemma NumeralsLength(numbers: seq<nat>)
    ensures |Numerals(numbers)| == |numbers|
  {
  }

  // ---- Re-reading what was written ----

  lemma {:induction false} LeadingDigitsOfRun(t: Decimals, d: string, rest: string)
    requires AllDecimal(t, d) && (rest != "" ==> t(rest[0]).None?)
    ensures LeadingDigits(t, d + rest) == |d|
  {
    if d == "" {
      assert d + rest == rest;
    } else {
      assert (d + rest)[1..] == d[1..] + rest;
      LeadingDigitsOfRun(t, d[1..], rest);
    }
  }

  lemma RunThenRest(t: Decimals, d: string, rest: string)
    requires d != "" && AllDecimal(t, d) && (rest != "" ==> t(rest[0]).None?)
    ensures DigitRuns(t, d + rest) == [d] + DigitRuns(t, rest)
  {
    LeadingDigitsOfRun(t, d, rest);
    assert (d + rest)[..|d|] == d && (d + rest)[|d|..] == rest;
  }

  lemma SeparatorIsSkipped(t: Decimals, c: char, rest: string)
    requires t(c).None?
    ensures DigitRuns(t, [c] + rest) == DigitRuns(t, rest)
  {
    assert ([c] + rest)[1..] == rest;
  }

  lemma {:induction false} RunsOfJoin(t: Decimals, parts: seq<string>, rest: string)
    requires parts != [] && AreRuns(t, parts)
    requires rest != "" ==> t(rest[0]).None?
    ensures DigitRuns(t, Join(parts, '.') + rest) == parts + DigitRuns(t, rest)
    decreases |parts|
  {
    hide DigitRuns, AllDecimal;
    if |parts| == 1 {
      RunThenRest(t, parts[0], rest);
    } else {
      var tail := Join(parts[1..], '.') + rest;
      assert Join(parts, '.') + rest == parts[0] + (['.'] + tail);
      RunThenRest(t, parts[0], ['.'] + tail);
      SeparatorIsSkipped(t, '.', tail);
      RunsOfJoin(t, parts[1..], rest);
    }
  }

  lemma NumeralsAreCanonical(numbers: seq<nat>)
    ensures AreCanonical(Numerals(numbers))
    ensures forall i :: 0 <= i < |numbers| ==>
              AllDigits(Numerals(numbers)[i]) && DigitsValue(Numerals(numbers)[i]) == numbers[i]
  {
    hide Canonical, Decimal;
    forall i | 0 <= i < |numbers|
      ensures Canonical(Numerals(numbers)[i])
      ensures AllDigits(Numerals(numbers)[i]) && DigitsValue(Numerals(numbers)[i]) == numbers[i]
    {
      DecimalReadsBack(numbers[i]);
      CanonicalIsRun(Decimal(numbers[i]));
    }
  }

  lemma NumeralsAreRuns(t: Decimals, numbers: seq<nat>)
    ensures AreRuns(t, Numerals(numbers))
    ensures AreRuns(t, Numerals(numbers)) ==> Values(t, Numerals(numbers)) == numbers
  {
    NumeralsAreCanonical(numbers);
    hide Canonical, Decimal, AllDigits, AllDecimal, DecimalValue;
    var parts := Numerals(numbers);
    forall i | 0 <= i < |numbers|
      ensures parts[i] != "" && AllDecimal(t, parts[i]) && DecimalValue(t, parts[i]) == numbers[i]
    {
      CanonicalIsRun(parts[i]);
      AsciiDigitsAreDecimal(t, parts[i]);
    }
  }

  lemma CanonicalIsRun(s: string)
    requires Canonical(s)
    ensures s != "" && AllDigits(s) && '.' !in s && '-' !in s
  {
  }

  lemma RunsOfRender(t: Decimals, numbers: seq<nat>)
    requires |numbers| >= 3
    ensures DigitRuns(t, Render(numbers)) == Numerals(numbers)
  {
    hide Decimal, AllDecimal;
    NumeralsAreRuns(t, numbers[..3]);
    NumeralsAreRuns(t, numbers[3..]);
    var core, suffix := Numerals(numbers[..3]), Numerals(numbers[3..]);
    assert Numerals(numbers) == core + suffix;
    if |numbers| > 3 {
      var tail := Join(suffix, '.');
      assert ['-'] + tail == "-" + tail;
      RunsOfJoin(t, core, "-" + tail);
      SeparatorIsSkipped(t, '-', tail);
      assert tail + "" == tail;
      RunsOfJoin(t, suffix, "");
    } else {
      RunsOfJoin(t, core, "");
    }
  }

  /** Reading the digits of the result gives the zero-padded components back. */
  lemma RereadingGivesComponents(t: Decimals, version: string)
    requires RuntimeSemver(t, version).Ok?
    ensures Components(t, version) != []
    ensures Components(t, RuntimeSemver(t, version).value) == PadToThree(Components(t, version))
  {
    SemverRendersComponents(t, version);
    var padded := PadToThree(Components(t, version));
    RunsOfRender(t, padded);
    NumeralsAreRuns(t, padded);
  }

  /** Normalizing a normalized version changes nothing. */
  lemma SemverIsIdempotent(t: Decimals, version: string)
    requires RuntimeSemver(t, version).Ok?
    ensures RuntimeSemver(t, RuntimeSemver(t, version).value) == RuntimeSemver(t, version)
  {
    SemverRendersComponents(t, version);
    var once := RuntimeSemver(t, version).value;
    var padded := PadToThree(Components(t, version));
    RunsOfRender(t, padded);
    RereadingGivesComponents(t, version);
    NumeralsFitTheLimit(t, version);
    SemverRendersComponents(t, once);
    RunsExistWithADigit(t, once);
  }

  lemma NumeralsFitTheLimit(t: Decimals, version: string)
    requires Components(t, version) != []
    requires forall r :: r in DigitRuns(t, version) ==> |r| <= MAX_DIGITS
    ensures forall r :: r in Numerals(PadToThree(Components(t, version))) ==> |r| <= MAX_DIGITS
  {
    var numbers := Components(t, version);
    var padded := PadToThree(numbers);
    RunsAreDigits(t, version);
    forall r | r in Numerals(padded)
      ensures |r| <= MAX_DIGITS
    {
      var i :| 0 <= i < |padded| && Numerals(padded)[i] == r;
      if i < |numbers| {
        ReprintNoLonger(InAscii(t, DigitRuns(t, version)[i]));
      } else {
        assert r == Decimal(0) == "0";
      }
    }
  }

  // ---- The grammar of Semantic Versioning ----

  datatype Identifier = Numeric(value: nat) | Alphanumeric(text: string)

  /** Major, minor, patch and the pre-release identifiers. */
  datatype SemVer = SemVer(core: seq<nat>, pre: seq<Identifier>)

  function Split(s: string, separator: char): seq<string> {
    if s == "" then [""]
    else if s[0] == separator then [""] + Split(s[1..], separator)
    else
      var parts := Split(s[1..], separator);
      if parts == [] then [s] else [[s[0]] + parts[0]] + parts[1..]
  }

  predicate IdentifierChar(c: char) {
    IsDigit(c) || 'a' <= c <= 'z' || 'A' <= c <= 'Z' || c == '-'
  }

  /** Items 9 and 11: digits only means numeric, and numeric means no leading zero. */
  function ParseIdentifier(s: string): Option<Identifier> {
    if s != "" && AllDigits(s) then (if Canonical(s) then Some(Numeric(DigitsValue(s))) else None)
    else if s != "" && forall c :: c in s ==> IdentifierChar(c) then Some(Alphanumeric(s))
    else None
  }

  function ParseIdentifiers(parts: seq<string>): Option<seq<Identifier>> {
    if parts == [] then Some([])
    else
      var first, rest := ParseIdentifier(parts[0]), ParseIdentifiers(parts[1..]);
      if first.Some? && rest.Some? then Some([first.value] + rest.value) else None
  }

  function FirstDash(s: string): (n: nat)
    ensures n <= |s|
    ensures n < |s| ==> s[n] == '-'
    ensures forall i :: 0 <= i < n ==> s[i] != '-'
  {
    if s == "" || s[0] == '-' then 0 else 1 + FirstDash(s[1..])
  }

  /** Item 2: three numbers without leading zeros; item 9: after a hyphen, dot-separated identifiers. */
  function ParseSemVer(s: string): Option<SemVer> {
    var cut := FirstDash(s);
    var core := Split(s[..cut], '.');
    if |core| != 3 || !(Canonical(core[0]) && Canonical(core[1]) && Canonical(core[2])) then None
    else
      var numbers := [DigitsValue(core[0]), DigitsValue(core[1]), DigitsValue(core[2])];
      if cut == |s| then Some(SemVer(numbers, []))
      else
        var pre := ParseIdentifiers(Split(s[cut + 1..], '.'));
        if pre.None? then None else Some(SemVer(numbers, pre.value))
  }

  lemma {:induction false} SplitPart(part: string, separator: char, rest: string)
    requires separator !in part
    ensures Split(part + [separator] + rest, separator) == [part] + Split(rest, separator)
    ensures Split(part, separator) == [part]
  {
    if part == "" {
      assert part + [separator] + rest == [separator] + rest;
      assert ([separator] + rest)[1..] == rest;
    } else {
      assert (part + [separator] + rest)[1..] == part[1..] + [separator] + rest;
      SplitPart(part[1..], separator, rest);
      assert [part[0]] + part[1..] == part;
    }
  }

  lemma {:induction false} SplitUndoesJoin(parts: seq<string>, separator: char)
    requires parts != [] && forall i :: 0 <= i < |parts| ==> separator !in parts[i]
    ensures Split(Join(parts, separator), separator) == parts
    decreases |parts|
  {
    if |parts| == 1 {
      SplitPart(parts[0], separator, "");
    } else {
      SplitPart(parts[0], separator, Join(parts[1..], separator));
      SplitUndoesJoin(parts[1..], separator);
    }
  }

  function NumericIdentifiers(numbers: seq<nat>): seq<Identifier> {
    seq(|numbers|, i requires 0 <= i < |numbers| => Numeric(numbers[i]))
  }

  lemma {:induction false} ParseNumerals(numbers: seq<nat>)
    ensures ParseIdentifiers(Numerals(numbers)) == Some(NumericIdentifiers(numbers))
    decreases |numbers|
  {
    if numbers != [] {
      assert Numerals(numbers)[1..] == Numerals(numbers[1..]);
      ParseNumerals(numbers[1..]);
      DecimalReadsBack(numbers[0]);
      assert NumericIdentifiers(numbers) == [Numeric(numbers[0])] + NumericIdentifiers(numbers[1..]);
      assert Numerals(numbers)[0] == Decimal(numbers[0]);
      assert ParseIdentifier(Decimal(numbers[0])) == Some(Numeric(numbers[0]));
    } else {
      assert Numerals(numbers) == [] && NumericIdentifiers(numbers) == [];
    }
  }

  lemma {:induction false} JoinHasNoDash(parts: seq<string>)
    requires AreCanonical(parts)
    ensures '-' !in Join(parts, '.')
    decreases |parts|
  {
    hide Canonical;
    if parts != [] {
      CanonicalIsRun(parts[0]);
      JoinHasNoDash(parts[1..]);
    }
  }

  lemma {:induction false} FirstDashAfter(front: string, back: string)
    requires '-' !in front
    ensures FirstDash(front) == |front|
    ensures FirstDash(front + "-" + back) == |front|
  {
    if front == "" {
      assert front + "-" + back == "-" + back;
    } else {
      assert front[0] in front;
      assert (front + "-" + back)[1..] == front[1..] + "-" + back;
      FirstDashAfter(front[1..], back);
    }
  }

  /** Every rendered version is in the grammar, and means its components. */
  lemma RenderedIsSemVer(numbers: seq<nat>)
    requires |numbers| >= 3
    ensures ParseSemVer(Render(numbers)) == Some(SemVer(numbers[..3], NumericIdentifiers(numbers[3..])))
  {
    hide Canonical, Decimal, Split, ParseIdentifiers;
    var core, suffix := Numerals(numbers[..3]), Numerals(numbers[3..]);
    NumeralsAreCanonical(numbers[..3]);
    NumeralsAreCanonical(numbers[3..]);
    var front := Join(core, '.');
    JoinHasNoDash(core);
    CanonicalSplits(core);
    assert numbers[..3] == [DigitsValue(core[0]), DigitsValue(core[1]), DigitsValue(core[2])];
    if |numbers| > 3 {
      var back := Join(suffix, '.');
      FirstDashAfter(front, back);
      var s := front + "-" + back;
      assert Render(numbers) == s && s[..|front|] == front && s[|front| + 1..] == back;
      CanonicalSplits(suffix);
      ParseNumerals(numbers[3..]);
    } else {
      FirstDashAfter(front, "");
      assert Render(numbers) == front && front[..|front|] == front;
      assert NumericIdentifiers(numbers[3..]) == [] && numbers[..3] == numbers;
    }
  }

  lemma CanonicalSplits(parts: seq<string>)
    requires parts != [] && AreCanonical(parts)
    ensures Split(Join(parts, '.'), '.') == parts
  {
    hide Canonical;
    forall i | 0 <= i < |parts|
      ensures '.' !in parts[i]
    {
      CanonicalIsRun(parts[i]);
    }
    SplitUndoesJoin(parts, '.');
  }

  lemma ResultIsSemVer(t: Decimals, version: string)
    requires RuntimeSemver(t, version).Ok?
    ensures ParseSemVer(RuntimeSemver(t, version).value).Some?
  {
    SemverRendersComponents(t, version);
    RenderedIsSemVer(PadToThree(Components(t, version)));
  }

  // ---- Precedence ----

  predicate LexLess(a: seq<nat>, b: seq<nat>) {
    b != [] && (a == [] || a[0] < b[0] || (a[0] == b[0] && LexLess(a[1..], b[1..])))
  }

  /** Numbers compare as numbers, texts in ASCII order, and numbers come before texts. */
  predicate IdentifierLess(a: Identifier, b: Identifier) {
    match (a, b)
    case (Numeric(m), Numeric(n)) => m < n
    case (Numeric(_), Alphanumeric(_)) => true
    case (Alphanumeric(_), Numeric(_)) => false
    case (Alphanumeric(s), Alphanumeric(t)) => Less(s, t)
  }

  /** Field by field; of two lists that agree so far, the shorter comes first. */
  predicate PreLess(a: seq<Identifier>, b: seq<Identifier>) {
    b != [] && (a == [] || IdentifierLess(a[0], b[0]) || (a[0] == b[0] && PreLess(a[1..], b[1..])))
  }

  /** Item 11: by the core numbers; at equal cores a pre-release comes before the release. */
  predicate Precedes(a: SemVer, b: SemVer) {
    if a.core != b.core then LexLess(a.core, b.core)
    else if a.pre == [] then false
    else if b.pre == [] then true
    else PreLess(a.pre, b.pre)
  }

  lemma {:induction false} NumericPreLess(a: seq<nat>, b: seq<nat>)
    ensures PreLess(NumericIdentifiers(a), NumericIdentifiers(b)) <==> LexLess(a, b)
    decreases |a|
  {
    if a != [] && b != [] {
      NumericPreLess(a[1..], b[1..]);
      assert NumericIdentifiers(a)[1..] == NumericIdentifiers(a[1..]);
      assert NumericIdentifiers(b)[1..] == NumericIdentifiers(b[1..]);
    }
  }

  lemma {:induction false} LexLessByPrefix(a: seq<nat>, b: seq<nat>, k: nat)
    requires k <= |a| && k <= |b|
    ensures LexLess(a, b) <==>
              if a[..k] == b[..k] then LexLess(a[k..], b[k..]) else LexLess(a[..k], b[..k])
    decreases k
  {
    if k > 0 {
      LexLessByPrefix(a[1..], b[1..], k - 1);
      assert a[..k] == [a[0]] + a[1..][..k - 1] && b[..k] == [b[0]] + b[1..][..k - 1];
      assert a[1..][k - 1..] == a[k..] && b[1..][k - 1..] == b[k..];
      assert a[..k][1..] == a[1..][..k - 1] && b[..k][1..] == b[1..][..k - 1];
    }
  }

  /** The meaning that the grammar gives to the normalized version. */
  function Meaning(t: Decimals, version: string): SemVer
    requires RuntimeSemver(t, version).Ok?
  {
    ResultIsSemVer(t, version);
    ParseSemVer(RuntimeSemver(t, version).value).value
  }

  /** Precedence agrees with the order of the padded components except for two versions with the same
      first three numbers of which only one has more: there the fourth number makes a pre-release. */
  lemma PrecedenceIsComponentOrder(t: Decimals, v: string, w: string)
    requires RuntimeSemver(t, v).Ok? && RuntimeSemver(t, w).Ok?
    ensures Components(t, v) != [] && Components(t, w) != []
    ensures var a, b := PadToThree(Components(t, v)), PadToThree(Components(t, w));
            (Precedes(Meaning(t, v), Meaning(t, w)) <==> LexLess(a, b))
            <==> !(a[..3] == b[..3] && ((|a| > 3) != (|b| > 3)))
  {
    hide RuntimeSemver, ParseSemVer;
    SemverRendersComponents(t, v);
    SemverRendersComponents(t, w);
    var a, b := PadToThree(Components(t, v)), PadToThree(Components(t, w));
    RenderedIsSemVer(a);
    RenderedIsSemVer(b);
    LexLessByPrefix(a, b, 3);
    NumericPreLess(a[3..], b[3..]);
  }
}
