/** Object references `class/partition/id`: how they are printed, and the two parsers,
    the host's and the SDK's, that have to agree on them. */
module ObjectRef {
  import opened Bytes

  const U32_MAX: nat := 0xFFFF_FFFF

  datatype Ref = Ref(cls: string, partition: nat, id: string)

  // ----- decimal numerals -----

  predicate IsDigit(c: char) { '0' <= c <= '9' }

  predicate AllDigits(s: string) { forall i | 0 <= i < |s| :: IsDigit(s[i]) }

  function Digit(d: nat): (c: char)
    requires d < 10
    ensures IsDigit(c) && DigitValue(c) == d
  {
    ('0' as int + d) as char
  }

  function DigitValue(c: char): (d: nat)
    requires IsDigit(c)
    ensures d < 10
  {
    c as int - '0' as int
  }

  function ToDecimal(n: nat): (s: string)
    ensures s != [] && AllDigits(s)
  {
    if n < 10 then [Digit(n)] else ToDecimal(n / 10) + [Digit(n % 10)]
  }

  function Value(s: string): (n: nat)
    requires AllDigits(s)
  {
    if s == [] then 0 else 10 * Value(s[..|s| - 1]) + DigitValue(s[|s| - 1])
  }

  lemma {:induction false} ValueOfDecimal(n: nat)
    ensures Value(ToDecimal(n)) == n
  {
    if n >= 10 {
      ValueOfDecimal(n / 10);
      assert (ToDecimal(n / 10) + [Digit(n % 10)])[..|ToDecimal(n / 10)|] == ToDecimal(n / 10);
    }
  }

  /** No leading zero, except for zero itself. */
  predicate Canonical(s: string) {
    s != [] && AllDigits(s) && (|s| > 1 ==> s[0] != '0')
  }

  lemma DecimalStep(m: nat, c: char)
    requires m > 0 && IsDigit(c)
    ensures ToDecimal(10 * m + DigitValue(c)) == ToDecimal(m) + [c]
  {
    var d := DigitValue(c);
    assert Digit(d) == c;
    assert (10 * m + d) / 10 == m && (10 * m + d) % 10 == d;
  }

  lemma {:induction false} CanonicalValue(s: string)
    requires Canonical(s)
    ensures s[0] != '0' ==> Value(s) > 0
    ensures ToDecimal(Value(s)) == s
  {
    var n := |s| - 1;
    if n > 0 {
      CanonicalValue(s[..n]);
      assert s == s[..n] + [s[n]];
      hide ToDecimal;
      DecimalStep(Value(s[..n]), s[n]);
    } else {
      assert Value(s[..0]) == 0;
    }
  }

  lemma {:induction false} DecimalIsCanonical(n: nat)
    ensures Canonical(ToDecimal(n)) && (n > 0 ==> ToDecimal(n)[0] != '0')
  {
    if n >= 10 {
      DecimalIsCanonical(n / 10);
    }
  }

  // ----- the two number readers -----

  /** The host's: an optional plus, then digits only, within 32 bits. */
  function ParseU32(s: string): (n: Option<nat>) {
    var digits := if s != [] && s[0] == '+' then s[1..] else s;
    if digits != [] && AllDigits(digits) && Value(digits) <= U32_MAX then Some(Value(digits)) else None
  }

  /** White space as ECMAScript's trimming has it. */
  predicate IsSpace(c: char) {
    || c in "\t\n\U{0B}\U{0C}\r \U{A0}\U{1680}\U{2028}\U{2029}\U{202F}\U{205F}\U{3000}\U{FEFF}"
    || '\U{2000}' <= c <= '\U{200A}'
  }

  function SkipSpace(s: string): (r: string)
    ensures |r| <= |s|
  {
    if s != [] && IsSpace(s[0]) then SkipSpace(s[1..]) else s
  }

  function DigitRun(s: string): (r: string)
    ensures AllDigits(r)
  {
    if s != [] && IsDigit(s[0]) then [s[0]] + DigitRun(s[1..]) else []
  }

  /** The SDK's: white space, a sign, then as many digits as there are; whatever follows is
      ignored, and nothing bounds the value. */
  function ParseInt(s: string): (n: Option<int>) {
    var t := SkipSpace(s);
    var negative := t != [] && t[0] == '-';
    var digits := DigitRun(if t != [] && (t[0] == '-' || t[0] == '+') then t[1..] else t);
    if digits == [] then None else Some(if negative then 0 - Value(digits) else Value(digits))
  }

  lemma {:induction false} DigitRunAll(s: string)
    requires AllDigits(s)
    ensures DigitRun(s) == s
  {
    if s != [] {
      DigitRunAll(s[1..]);
      assert [s[0]] + s[1..] == s;
    }
  }

  /** Every numeral the host reads, the SDK reads the same. */
  lemma HostNumeralsAgree(s: string)
    requires ParseU32(s).Some?
    ensures ParseInt(s) == Some(ParseU32(s).value)
  {
    var digits := if s[0] == '+' then s[1..] else s;
    assert !IsSpace(s[0]) && s[0] != '-' by { if s[0] != '+' { assert IsDigit(digits[0]); } }
    DigitRunAll(digits);
  }

  // ----- references -----

  function Slash(s: string): (i: Option<nat>)
    ensures i.Some? ==> i.value < |s|
  {
    if s == [] then None
    else if s[0] == '/' then Some(0)
    else
      var i := Slash(s[1..]);
      if i.None? then None else Some(i.value + 1)
  }

  datatype Parts = Parts(cls: string, partition: string, id: string)

  /** The three parts around the first two slashes. */
  function Split(s: string): (p: Option<Parts>) {
    var i := Slash(s);
    if i.None? then None
    else
      var rest := s[i.value + 1..];
      var j := Slash(rest);
      if j.None? then None else Some(Parts(s[..i.value], rest[..j.value], rest[j.value + 1..]))
  }

  function HostParse(s: string): (r: Option<Ref>) {
    var p := Split(s);
    if p.None? || p.value.cls == [] || p.value.id == [] then None
    else
      var n := ParseU32(p.value.partition);
      if n.None? then None else Some(Ref(p.value.cls, n.value, p.value.id))
  }

  /** The SDK's numbers, kept abstract: the double an integer rounds to, none for infinity,
      and the text of a finite one. */
  datatype Numbers = Numbers(round: nat -> Option<nat>, show: nat -> string)

  const MAX_SAFE: nat := 0x1F_FFFF_FFFF_FFFF

  /** From here on numbers print with an exponent. */
  const EXPONENT: nat := 1_000_000_000_000_000_000_000

  predicate IsNumber(num: Numbers, x: nat) {
    num.round(x) == Some(x)
  }

  /** A digit, then something that is no digit and no slash. */
  predicate Exponential(s: string) {
    |s| >= 2 && IsDigit(s[0]) && !IsDigit(s[1]) && '/' !in s
  }

  /** Safe integers are exact and print plainly; below 10^21 a number prints as digits that
      round back to it, and from there on in exponential form. */
  ghost predicate Lawful(num: Numbers) {
    && (forall n: nat | n <= MAX_SAFE :: IsNumber(num, n) && num.show(n) == ToDecimal(n))
    && (forall x: nat | IsNumber(num, x) && x < EXPONENT :: PrintsBack(num, x))
    && (forall x: nat | IsNumber(num, x) && x >= EXPONENT :: Exponential(num.show(x)))
  }

  predicate PrintsBack(num: Numbers, x: nat) {
    num.show(x) != [] && AllDigits(num.show(x)) && num.round(Value(num.show(x))) == Some(x)
  }

  /** The partition may come out infinite, which no check refuses. */
  datatype SdkParsed = Accepted(ref: Ref) | Infinite | Refused

  function SdkParse(num: Numbers, s: string): (r: SdkParsed) {
    var p := Split(s);
    if p.None? || p.value.cls == [] || p.value.id == [] then Refused
    else
      var n := ParseInt(p.value.partition);
      if n.None? || n.value < 0 then Refused
      else
        var x := num.round(n.value);
        if x.None? then Infinite else Accepted(Ref(p.value.cls, x.value, p.value.id))
  }

  function SdkPrint(num: Numbers, r: Ref): (s: string) {
    r.cls + "/" + num.show(r.partition) + "/" + r.id
  }

  function Print(r: Ref): (s: string) {
    r.cls + "/" + ToDecimal(r.partition) + "/" + r.id
  }

  lemma {:induction false} FirstSlash(a: string, b: string)
    requires '/' !in a
    ensures Slash(a + "/" + b) == Some(|a|)
  {
    if a != [] {
      assert (a + "/" + b)[1..] == a[1..] + "/" + b;
      FirstSlash(a[1..], b);
    }
  }

  lemma {:induction false} SlashSplits(s: string)
    requires Slash(s).Some?
    ensures '/' !in s[..Slash(s).value]
    ensures s == s[..Slash(s).value] + "/" + s[Slash(s).value + 1..]
  {
    if s[0] != '/' {
      SlashSplits(s[1..]);
      assert s[..Slash(s).value] == [s[0]] + s[1..][..Slash(s[1..]).value];
    }
  }

  lemma Rejoin(a: string, b: string, c: string)
    ensures a + "/" + (b + "/" + c) == a + "/" + b + "/" + c
  {
  }

  /** Splitting undoes joining when the first two parts have no slash. */
  lemma SplitJoined(p: Parts)
    requires '/' !in p.cls && '/' !in p.partition
    ensures Split(p.cls + "/" + p.partition + "/" + p.id) == Some(p)
  {
    var s := p.cls + "/" + p.partition + "/" + p.id;
    var rest := p.partition + "/" + p.id;
    Rejoin(p.cls, p.partition, p.id);
    FirstSlash(p.cls, rest);
    FirstSlash(p.partition, p.id);
    assert s[..|p.cls|] == p.cls && s[|p.cls| + 1..] == rest;
    assert rest[..|p.partition|] == p.partition && rest[|p.partition| + 1..] == p.id;
  }

  /** What is split is the joining of its parts, the first two without slashes. */
  lemma JoinSplit(s: string)
    requires Split(s).Some?
    ensures var p := Split(s).value;
            && '/' !in p.cls && '/' !in p.partition
            && s == p.cls + "/" + p.partition + "/" + p.id
  {
    hide Slash;
    var p := Split(s).value;
    SlashSplits(s);
    SlashSplits(s[Slash(s).value + 1..]);
    Rejoin(p.cls, p.partition, p.id);
  }

  lemma DigitsHaveNoSlash(s: string)
    requires AllDigits(s)
    ensures '/' !in s
  {
  }

  /** What a reference must be to survive printing and parsing. */
  predicate Printable(r: Ref) {
    r.cls != [] && '/' !in r.cls && r.id != []
  }

  /** Digits read as their value by both readers, the host's within 32 bits. */
  lemma PlainDigits(d: string)
    requires d != [] && AllDigits(d)
    ensures '/' !in d
    ensures ParseInt(d) == Some(Value(d))
    ensures ParseU32(d) == if Value(d) <= U32_MAX then Some(Value(d)) else None
  {
    hide Value;
    assert IsDigit(d[0]);
    assert d[0] != '+' && d[0] != '-' && !IsSpace(d[0]);
    DigitRunAll(d);
    DigitsHaveNoSlash(d);
  }

  /** The parts of a printed reference, whatever text the partition has. */
  lemma PrintedParts(r: Ref, d: string)
    requires '/' !in d
    ensures '/' !in r.cls ==> Split(r.cls + "/" + d + "/" + r.id) == Some(Parts(r.cls, d, r.id))
    ensures '/' in r.cls ==> var p := Split(r.cls + "/" + d + "/" + r.id); p.Some? ==> p.value.cls != r.cls
  {
    if '/' !in r.cls {
      SplitJoined(Parts(r.cls, d, r.id));
    } else if Split(r.cls + "/" + d + "/" + r.id).Some? {
      JoinSplit(r.cls + "/" + d + "/" + r.id);
    }
  }

  /** In the host, printing then parsing returns the reference exactly when its class is
      non-empty and slash-free, its id non-empty and its partition within 32 bits. */
  lemma PrintParse(r: Ref)
    ensures HostParse(Print(r)) == Some(r) <==> Printable(r) && r.partition <= U32_MAX
  {
    var d := ToDecimal(r.partition);
    ValueOfDecimal(r.partition);
    PlainDigits(d);
    PrintedParts(r, d);
    hide Split, ToDecimal, ParseU32;
  }

  /** In the SDK, exactly when its class is non-empty and slash-free, its id non-empty and its
      partition prints without exponent. */
  lemma SdkPrintParse(num: Numbers, r: Ref)
    requires Lawful(num) && IsNumber(num, r.partition)
    ensures SdkParse(num, SdkPrint(num, r)) == Accepted(r) <==> Printable(r) && r.partition < EXPONENT
  {
    var d := num.show(r.partition);
    if r.partition < EXPONENT {
      assert PrintsBack(num, r.partition);
      PlainDigits(d);
    } else {
      assert Exponential(d);
      ExponentialReads(num, d);
    }
    hide Split, ParseInt, Lawful;
    PrintedParts(r, d);
  }

  /** An exponential form reads as its first digit. */
  lemma ExponentialReads(num: Numbers, d: string)
    requires Lawful(num) && Exponential(d)
    ensures ParseInt(d).Some? && 0 <= ParseInt(d).value < 10
    ensures IsNumber(num, ParseInt(d).value)
  {
    assert d == [d[0]] + d[1..];
    DigitRunStops([d[0]], d[1..]);
    assert !IsSpace(d[0]) && SkipSpace(d) == d;
    assert Value([d[0]]) == DigitValue(d[0]) by { assert Value([]) == 0 && [d[0]][..0] == []; }
  }

  /** So a large number comes back as another partition, a single digit. */
  lemma LargeNumbersCollapse(num: Numbers, r: Ref)
    requires Lawful(num) && IsNumber(num, r.partition) && r.partition >= EXPONENT && Printable(r)
    ensures var p := SdkParse(num, SdkPrint(num, r));
            p.Accepted? && p.ref.cls == r.cls && p.ref.id == r.id && p.ref.partition < 10
  {
    var d := num.show(r.partition);
    assert Exponential(d);
    ExponentialReads(num, d);
    hide Split, ParseInt, Lawful;
    PrintedParts(r, d);
  }

  /** Every string the host accepts, the SDK accepts with the same reference. */
  lemma HostImpliesSdk(num: Numbers, s: string)
    requires Lawful(num) && HostParse(s).Some?
    ensures SdkParse(num, s) == Accepted(HostParse(s).value)
  {
    var n := ParseU32(Split(s).value.partition);
    assert n.value <= MAX_SAFE;
    assert IsNumber(num, n.value);
    hide ParseInt, ParseU32;
    HostNumeralsAgree(Split(s).value.partition);
  }

  /** The host accepts exactly what the SDK accepts with a plain 32-bit numeral. */
  lemma HostIffStrictSdk(num: Numbers, s: string)
    requires Lawful(num)
    ensures HostParse(s).Some? <==> SdkParse(num, s).Accepted? && ParseU32(Split(s).value.partition).Some?
  {
    if HostParse(s).Some? {
      HostImpliesSdk(num, s);
    }
  }

  /** Values over 32 bits that print without exponent come back in the SDK and are refused by
      the host. */
  lemma LargePartitionsDisagree(num: Numbers, r: Ref)
    requires Lawful(num) && IsNumber(num, r.partition)
    requires Printable(r) && U32_MAX < r.partition < EXPONENT
    ensures SdkParse(num, SdkPrint(num, r)) == Accepted(r) && HostParse(SdkPrint(num, r)) == None
  {
    SdkPrintParse(num, r);
    var d := num.show(r.partition);
    assert PrintsBack(num, r.partition);
    PlainDigits(d);
    assert Value(d) <= MAX_SAFE ==> IsNumber(num, Value(d));
    PrintedParts(r, d);
    hide Split, ParseInt, ParseU32, Lawful;
  }

  lemma {:induction false} DigitRunStops(d: string, junk: string)
    requires AllDigits(d) && (junk == [] || !IsDigit(junk[0]))
    ensures DigitRun(d + junk) == d
  {
    if d == [] {
      assert d + junk == junk;
    } else {
      assert (d + junk)[1..] == d[1..] + junk;
      DigitRunStops(d[1..], junk);
      assert [d[0]] + d[1..] == d;
    }
  }

  /** Text after the digits is ignored by the SDK and refused by the host. */
  lemma TrailingTextDisagrees(num: Numbers, r: Ref, junk: string)
    requires Lawful(num) && r.partition <= MAX_SAFE
    requires Printable(r) && junk != [] && !IsDigit(junk[0]) && '/' !in junk
    ensures var s := r.cls + "/" + (ToDecimal(r.partition) + junk) + "/" + r.id;
            SdkParse(num, s) == Accepted(r) && HostParse(s) == None
  {
    assert IsNumber(num, r.partition);
    var d := ToDecimal(r.partition);
    ValueOfDecimal(r.partition);
    DigitsHaveNoSlash(d);
    DigitRunStops(d, junk);
    assert IsDigit(d[0]) && (d + junk)[0] == d[0];
    assert !AllDigits(d + junk) by { assert (d + junk)[|d|] == junk[0]; }
    assert ParseInt(d + junk) == Some(r.partition) && ParseU32(d + junk) == None;
    SplitJoined(Parts(r.cls, d + junk, r.id));
    hide ParseInt, ParseU32, Split, ToDecimal, Lawful;
  }

  /** Exact numbers are one instance of what is asked of numbers. */
  lemma NumbersExist()
    ensures Lawful(Numbers((n: nat) => Some(n), (x: nat) => if x < EXPONENT then ToDecimal(x) else "1e"))
  {
    forall n: nat ensures Value(ToDecimal(n)) == n {
      ValueOfDecimal(n);
    }
  }

  function Zeros(n: nat): (s: string)
    ensures |s| == n && AllDigits(s)
  {
    if n == 0 then [] else ['0'] + Zeros(n - 1)
  }

  lemma {:induction false} ZerosAddNothing(n: nat, d: string)
    requires AllDigits(d)
    ensures AllDigits(Zeros(n) + d) && Value(Zeros(n) + d) == Value(d)
    decreases n, |d|
  {
    var s := Zeros(n) + d;
    if d != [] {
      assert s[..|s| - 1] == Zeros(n) + d[..|d| - 1];
      ZerosAddNothing(n, d[..|d| - 1]);
    } else if n > 0 {
      ZerosEnd(n);
      assert s == Zeros(n) && s[..n - 1] == Zeros(n - 1) + [];
      ZerosAddNothing(n - 1, []);
    }
  }

  lemma {:induction false} ZerosEnd(n: nat)
    requires n > 0
    ensures Zeros(n)[n - 1] == '0' && Zeros(n)[..n - 1] == Zeros(n - 1)
  {
    if n > 1 {
      ZerosEnd(n - 1);
    }
  }

  lemma ReadsDigits(digits: string)
    requires digits != [] && AllDigits(digits) && Value(digits) <= U32_MAX
    ensures ParseU32(digits) == Some(Value(digits))
    ensures ParseU32("+" + digits) == Some(Value(digits))
  {
    hide Value;
    assert IsDigit(digits[0]);
    assert ("+" + digits)[0] == '+' && ("+" + digits)[1..] == digits;
  }

  /** The host also takes a plus sign and leading zeros. */
  lemma HostTakesPlusAndZeros(n: nat, zeros: nat)
    requires n <= U32_MAX
    ensures ParseU32(Zeros(zeros) + ToDecimal(n)) == Some(n)
    ensures ParseU32("+" + (Zeros(zeros) + ToDecimal(n))) == Some(n)
  {
    ZerosAddNothing(zeros, ToDecimal(n));
    ValueOfDecimal(n);
    hide *;
    ReadsDigits(Zeros(zeros) + ToDecimal(n));
  }

  // ----- exactly what each parser reads -----

  /** The number written with any leading zeros and perhaps a plus sign. */
  ghost predicate Numeral(text: string, n: nat) {
    exists z: nat :: text == Zeros(z) + ToDecimal(n) || text == "+" + (Zeros(z) + ToDecimal(n))
  }

  lemma {:induction false} DigitsAre(d: string) returns (z: nat)
    requires d != [] && AllDigits(d)
    ensures d == Zeros(z) + ToDecimal(Value(d))
    decreases |d|
  {
    hide *;
    if Canonical(d) {
      z := 0;
      CanonicalValue(d);
      NoZeros(d);
    } else {
      ZeroFirst(d);
      z := DigitsAre(d[1..]);
      OneMoreZero(z, ToDecimal(Value(d)));
      z := z + 1;
    }
  }

  lemma NoZeros(d: string)
    ensures Zeros(0) + d == d
  {
  }

  lemma ZeroFirst(d: string)
    requires d != [] && AllDigits(d) && !Canonical(d)
    ensures d[1..] != [] && AllDigits(d[1..]) && d == "0" + d[1..] && Value(d) == Value(d[1..])
  {
    ZerosAddNothing(1, d[1..]);
    hide Value;
    assert Zeros(1) == "0" && d == "0" + d[1..];
  }

  lemma OneMoreZero(z: nat, t: string)
    ensures "0" + (Zeros(z) + t) == Zeros(z + 1) + t
  {
    assert Zeros(z + 1) == "0" + Zeros(z);
    hide Zeros;
  }

  lemma ReadIsDigits(text: string) returns (d: string)
    requires ParseU32(text).Some?
    ensures d != [] && AllDigits(d) && Value(d) <= U32_MAX && ParseU32(text) == Some(Value(d))
    ensures text == d || text == "+" + d
  {
    hide Value;
    d := if text[0] == '+' then text[1..] else text;
    assert text[0] == '+' ==> text == "+" + d;
  }

  lemma ParseU32Iff(text: string, n: nat)
    ensures ParseU32(text) == Some(n) <==> n <= 0xFFFF_FFFF && Numeral(text, n)
  {
    assert U32_MAX == 0xFFFF_FFFF;
    hide ToDecimal, Value, ParseU32, Zeros, AllDigits;
    if ParseU32(text) == Some(n) {
      var d := ReadIsDigits(text);
      var z := DigitsAre(d);
    }
    if n <= U32_MAX && Numeral(text, n) {
      var z: nat :| text == Zeros(z) + ToDecimal(n) || text == "+" + (Zeros(z) + ToDecimal(n));
      HostTakesPlusAndZeros(n, z);
    }
  }

  lemma NumeralHasNoSlash(text: string, n: nat)
    requires Numeral(text, n)
    ensures '/' !in text
  {
    var z: nat :| text == Zeros(z) + ToDecimal(n) || text == "+" + (Zeros(z) + ToDecimal(n));
    DigitsHaveNoSlash(Zeros(z));
    DigitsHaveNoSlash(ToDecimal(n));
    hide ToDecimal;
  }

  ghost predicate Written(s: string, r: Ref, text: string) {
    s == r.cls + "/" + text + "/" + r.id
  }

  ghost predicate HostWrites(s: string, r: Ref) {
    exists text :: Written(s, r, text) && Numeral(text, r.partition)
  }

  /** The host accepts exactly the printed forms of references, with any leading zeros and
      perhaps a plus sign in the partition. */
  lemma HostParseIff(s: string, r: Ref)
    ensures HostParse(s) == Some(r) <==> Printable(r) && r.partition <= 0xFFFF_FFFF && HostWrites(s, r)
  {
    if HostParse(s) == Some(r) {
      var p := Split(s).value;
      JoinSplit(s);
      ParseU32Iff(p.partition, r.partition);
      assert Written(s, r, p.partition);
    }
    if Printable(r) && r.partition <= U32_MAX && HostWrites(s, r) {
      var text :| Written(s, r, text) && Numeral(text, r.partition);
      NumeralHasNoSlash(text, r.partition);
      SplitJoined(Parts(r.cls, text, r.id));
      ParseU32Iff(text, r.partition);
      hide Split, ParseU32, Numeral;
    }
  }

  predicate AllSpace(s: string) { forall i | 0 <= i < |s| :: IsSpace(s[i]) }

  /** White space, a sign or none, digits, and then nothing or something that is no digit. */
  ghost predicate Layout(text: string, space: string, sign: string, d: string, junk: string) {
    && text == space + sign + d + junk
    && AllSpace(space) && (sign == "" || sign == "+" || sign == "-")
    && d != [] && AllDigits(d) && (junk == [] || !IsDigit(junk[0]))
  }

  lemma {:induction false} SkipsSpace(space: string, t: string)
    requires AllSpace(space) && (t == [] || !IsSpace(t[0]))
    ensures SkipSpace(space + t) == t
  {
    if space == [] {
      assert space + t == t;
    } else {
      assert (space + t)[1..] == space[1..] + t;
      SkipsSpace(space[1..], t);
    }
  }

  lemma {:induction false} SpaceSplits(s: string) returns (space: string)
    ensures AllSpace(space) && s == space + SkipSpace(s)
  {
    if s != [] && IsSpace(s[0]) {
      var rest := SpaceSplits(s[1..]);
      space := [s[0]] + rest;
      assert s == [s[0]] + s[1..];
    } else {
      space := [];
    }
  }

  lemma {:induction false} RunSplits(s: string) returns (junk: string)
    ensures s == DigitRun(s) + junk && (junk == [] || !IsDigit(junk[0]))
  {
    if s != [] && IsDigit(s[0]) {
      junk := RunSplits(s[1..]);
      assert s == [s[0]] + s[1..];
    } else {
      junk := s;
    }
  }

  /** Text of that layout reads as its digits with the sign. */
  lemma LayoutReads(text: string, space: string, sign: string, d: string, junk: string)
    requires Layout(text, space, sign, d, junk)
    ensures ParseInt(text) == Some(if sign == "-" then 0 - Value(d) else Value(d))
  {
    assert '0' <= d[0] <= '9' by { assert IsDigit(d[0]); }
    SignStarts(sign, d + junk);
    NoSpaceStarts((sign + (d + junk))[0]);
    DigitRunStops(d, junk);
    LayoutParts(text, space, sign, d, junk);
    hide *;
    SkipsSpace(space, sign + (d + junk));
    SignedReads(text, sign, d + junk);
  }

  lemma LayoutParts(text: string, space: string, sign: string, d: string, junk: string)
    requires Layout(text, space, sign, d, junk)
    ensures AllSpace(space) && (sign == "" || sign == "+" || sign == "-") && AllDigits(d) && d != []
    ensures text == space + (sign + (d + junk))
  {
    hide AllSpace, AllDigits, IsDigit;
    FourJoin(space, sign, d, junk);
  }

  lemma SignStarts(sign: string, body: string)
    requires (sign == "" || sign == "+" || sign == "-") && body != [] && '0' <= body[0] <= '9'
    ensures var t := sign + body;
            && t != []
            && (sign == "" ==> t[0] == body[0]) && (sign != "" ==> t[0] == sign[0] && t[1..] == body)
            && (IsDigit(t[0]) || t[0] == '+' || t[0] == '-')
  {
  }

  lemma SignedReads(text: string, sign: string, body: string)
    requires SkipSpace(text) == sign + body && (sign == "" || sign == "+" || sign == "-")
    requires body != [] && '0' <= body[0] <= '9' && DigitRun(body) != []
    ensures ParseInt(text) == Some(if sign == "-" then 0 - Value(DigitRun(body)) else Value(DigitRun(body)))
  {
    SignStarts(sign, body);
    assert sign == "" ==> sign + body == body;
    hide Value, IsSpace, SkipSpace, DigitRun;
  }

  lemma NoSpaceStarts(c: char)
    ensures IsDigit(c) || c == '+' || c == '-' ==> !IsSpace(c)
  {
  }

  /** And whatever the SDK's number reader accepts has that layout. */
  lemma ReadsLayout(text: string) returns (space: string, sign: string, d: string, junk: string)
    requires ParseInt(text).Some?
    ensures Layout(text, space, sign, d, junk)
  {
    SignSplits(text);
    hide *;
    space := SpaceSplits(text);
    var t := SkipSpace(text);
    sign := if t[0] == '-' then "-" else if t[0] == '+' then "+" else "";
    var body := if sign == "" then t else t[1..];
    d := DigitRun(body);
    junk := RunSplits(body);
    FourJoin(space, sign, d, junk);
    LayoutIs(text, space, sign, d, junk);
  }

  lemma SignSplits(text: string)
    requires ParseInt(text).Some?
    ensures var t := SkipSpace(text);
            && t != []
            && var sign := if t[0] == '-' then "-" else if t[0] == '+' then "+" else "";
            && var body := if sign == "" then t else t[1..];
            && t == sign + body && DigitRun(body) != []
  {
    hide Value, IsSpace, DigitRun;
    var t := SkipSpace(text);
    if t == [] { NoDigits(); }
  }

  lemma NoDigits()
    ensures DigitRun([]) == []
  {
  }

  lemma FourJoin(a: string, b: string, c: string, d: string)
    ensures a + (b + (c + d)) == a + b + c + d
  {
  }

  lemma LayoutIs(text: string, space: string, sign: string, d: string, junk: string)
    requires text == space + sign + d + junk
    requires AllSpace(space) && (sign == "" || sign == "+" || sign == "-")
    requires d != [] && AllDigits(d) && (junk == [] || !IsDigit(junk[0]))
    ensures Layout(text, space, sign, d, junk)
  {
    hide AllSpace, AllDigits, IsDigit;
  }

  ghost predicate SdkWrites(num: Numbers, s: string, r: Ref) {
    exists text :: Written(s, r, text) && SdkNumeral(num, text, r.partition)
  }

  /** Slash-free text that reads as a number which is not negative and rounds to `x`. */
  ghost predicate SdkNumeral(num: Numbers, text: string, x: nat) {
    '/' !in text && ParseInt(text).Some? && ParseInt(text).value >= 0 && num.round(ParseInt(text).value) == Some(x)
  }

  /** The SDK accepts exactly the printed forms of references, with any text its number reader
      takes in the place of the partition. */
  lemma SdkParseIff(num: Numbers, s: string, r: Ref)
    ensures SdkParse(num, s) == Accepted(r) <==> Printable(r) && SdkWrites(num, s, r)
  {
    hide ParseInt;
    if SdkParse(num, s) == Accepted(r) {
      JoinSplit(s);
      hide Split;
      var text := Split(s).value.partition;
      assert Written(s, r, text) && SdkNumeral(num, text, r.partition);
    }
    if Printable(r) && SdkWrites(num, s, r) {
      var text :| Written(s, r, text) && SdkNumeral(num, text, r.partition);
      SplitJoined(Parts(r.cls, text, r.id));
      hide Split;
    }
  }

  /** A reference the host accepts prints back as the same string exactly when its partition
      was written without plus sign and leading zeros. */
  lemma ParsePrint(s: string)
    requires HostParse(s).Some?
    ensures Print(HostParse(s).value) == s <==> Canonical(Split(s).value.partition)
  {
    var p := Split(s).value;
    var r := HostParse(s).value;
    JoinSplit(s);
    if Canonical(p.partition) {
      assert IsDigit(p.partition[0]);
      CanonicalValue(p.partition);
    }
    if Print(r) == s {
      ValueOfDecimal(r.partition);
      DigitsHaveNoSlash(ToDecimal(r.partition));
      SplitJoined(Parts(r.cls, ToDecimal(r.partition), r.id));
      DecimalIsCanonical(r.partition);
    }
  }

  /** Numeric entry keys come back from their string form exactly within 32 bits. */
  lemma NumericKeyRoundTrip(n: nat)
    ensures ParseU32(ToDecimal(n)) == Some(n) <==> n <= U32_MAX
  {
    ValueOfDecimal(n);
    assert IsDigit(ToDecimal(n)[0]);
  }
}
