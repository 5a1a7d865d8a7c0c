/** Durations as ISO 8601 periods: the printer, the parser, and the language between them.
    Durations are in nanoseconds; numbers with a fraction are exact. */
module Iso8601 {
  import opened Arithmetic
  import opened Common

  datatype Result<T> = Ok(value: T) | Err

  const SECOND: int := 1_000_000_000
  const MINUTE: int := 60 * SECOND
  const HOUR: int := 60 * MINUTE
  const DAY: int := 24 * HOUR
  const WEEK: int := 7 * DAY
  const YEAR: int := 365 * DAY
  const MONTH: int := YEAR / 12

  const MIN_DURATION: int := -0x8000_0000_0000_0000

  // ---------- numbers ----------

  predicate IsDigit(c: char) {
    '0' <= c <= '9'
  }

  function DigitValue(c: char): nat
    requires IsDigit(c)
  {
    c as int - '0' as int
  }

  predicate AllDigits(s: string) {
    forall i | 0 <= i < |s| :: IsDigit(s[i])
  }

  function Whole(s: string): nat
    requires AllDigits(s)
  {
    if s == [] then 0 else Whole(s[..|s| - 1]) * 10 + DigitValue(s[|s| - 1])
  }

  function Decimal(n: nat): (s: string)
    ensures s != [] && AllDigits(s)
  {
    var last := ['0' + (n % 10) as char];
    if n < 10 then last else Decimal(n / 10) + last
  }

  lemma {:induction false} DecimalIsWhole(n: nat)
    ensures Whole(Decimal(n)) == n
    ensures Decimal(n)[0] == '0' ==> n == 0 && |Decimal(n)| == 1
  {
    var s := Decimal(n);
    if n < 10 {
      assert s[..|s| - 1] == [];
    } else {
      DecimalIsWhole(n / 10);
      assert s[..|s| - 1] == Decimal(n / 10);
    }
  }

  function Pow10(n: nat): (p: nat)
    ensures p > 0
  {
    if n == 0 then 1 else 10 * Pow10(n - 1)
  }

  lemma {:induction false} Pow10Sum(m: nat, n: nat)
    ensures Pow10(0) == 1 && Pow10(1) == 10 && Pow10(m + n) == Pow10(m) * Pow10(n)
  {
    if m > 0 {
      Pow10Sum(m - 1, n);
      Scaled(10, Pow10(m - 1), Pow10(n));
    }
  }

  lemma Scaled(x: int, y: int, z: int)
    ensures (x * y) * z == x * (y * z)
  {
  }

  /** Digits count for ten times the digit after them. */
  lemma {:induction false} WholeConcat(u: string, v: string)
    requires AllDigits(u) && AllDigits(v)
    ensures AllDigits(u + v) && Whole(u + v) == Whole(u) * Pow10(|v|) + Whole(v)
    decreases |v|
  {
    if v == [] {
      assert u + v == u;
    } else {
      var front, last := v[..|v| - 1], v[|v| - 1];
      WholeConcat(u, front);
      assert (u + v)[..|u + v| - 1] == u + front;
      Scaled(10, Pow10(|front|), Whole(u));
      Distributed(Whole(u), Pow10(|front|), Whole(front));
    }
  }

  lemma Distributed(x: int, p: int, y: int)
    ensures (x * p + y) * 10 == x * (10 * p) + y * 10
  {
  }

  lemma DigitIsWhole(c: char)
    requires IsDigit(c)
    ensures Whole([c]) == c as int - '0' as int
  {
    assert [c][..0] == [];
  }

  /** The number `mantissa` / `scale`. */
  datatype Number = Number(mantissa: nat, scale: nat)

  /** The first of the characters before which there is no dot, or the end. */
  function DotIndex(s: string): (i: nat)
    ensures i <= |s| && '.' !in s[..i] && (i < |s| ==> s[i] == '.')
  {
    if s == [] || s[0] == '.' then 0
    else
      assert s[..1 + DotIndex(s[1..])] == [s[0]] + s[1..][..DotIndex(s[1..])];
      1 + DotIndex(s[1..])
  }

  predicate InNumber(c: char) {
    IsDigit(c) || c == '.'
  }

  /** Digits with at most one dot, which is nowhere or anywhere among them. */
  function ParseNumber(s: string): (n: Option<Number>)
    ensures n.Some? ==> n.value.scale > 0 && s != []
  {
    var i := DotIndex(s);
    var digits := if i < |s| then s[..i] + s[i + 1..] else s;
    if digits == [] || !AllDigits(digits) then None
    else Some(Number(Whole(digits), if i < |s| then Pow10(|s| - i - 1) else 1))
  }

  lemma NumberChars(s: string)
    requires ParseNumber(s).Some?
    ensures forall k | 0 <= k < |s| :: InNumber(s[k])
  {
    var i := DotIndex(s);
    var digits := if i < |s| then s[..i] + s[i + 1..] else s;
    assert AllDigits(digits);
    forall k | 0 <= k < |s|
      ensures InNumber(s[k])
    {
      if k != i {
        var j := if k < i then k else k - 1;
        assert s[k] == digits[j];
      }
    }
  }

  lemma {:induction false} DotAfter(u: string, v: string)
    requires AllDigits(u)
    ensures DotIndex(u) == |u| && DotIndex(u + "." + v) == |u|
    decreases |u|
  {
    if u == [] {
      assert u + "." + v == "." + v;
    } else {
      DotAfter(u[1..], v);
      assert (u + "." + v)[1..] == u[1..] + "." + v;
    }
  }

  /** Digits are the number they write; with a dot, digits after it count for tenths, hundredths and so on. */
  lemma NumberOf(u: string, v: string)
    requires AllDigits(u) && AllDigits(v)
    ensures u != [] ==> ParseNumber(u) == Some(Number(Whole(u), 1))
    ensures u != [] || v != [] ==>
              ParseNumber(u + "." + v) == Some(Number(Whole(u) * Pow10(|v|) + Whole(v), Pow10(|v|)))
  {
    hide Whole, Pow10, DotIndex;
    var s := u + "." + v;
    DotAfter(u, v);
    assert s[..|u|] == u && s[|u| + 1..] == v;
    WholeConcat(u, v);
  }

  /** `s` is digits around a dot. */
  ghost predicate Dotted(s: string, u: string, v: string) {
    AllDigits(u) && AllDigits(v) && (u != [] || v != []) && s == u + "." + v
  }

  lemma DigitsOfBoth(u: string, v: string)
    requires AllDigits(u + v)
    ensures AllDigits(u) && AllDigits(v)
  {
    assert forall k | 0 <= k < |u| :: u[k] == (u + v)[k];
    assert forall k | 0 <= k < |v| :: v[k] == (u + v)[|u| + k];
  }

  lemma DigitsAround(s: string)
    requires ParseNumber(s).Some? && DotIndex(s) < |s|
    ensures var i := DotIndex(s); s[..i] + s[i + 1..] != [] && AllDigits(s[..i] + s[i + 1..])
  {
    hide Whole, Pow10, AllDigits, DotIndex;
  }

  lemma JoinAt(s: string, i: nat)
    requires i < |s|
    ensures s == s[..i] + [s[i]] + s[i + 1..]
  {
  }

  lemma SplitAtDot(s: string)
    requires ParseNumber(s).Some? && DotIndex(s) < |s|
    ensures Dotted(s, s[..DotIndex(s)], s[DotIndex(s) + 1..])
  {
    hide ParseNumber, AllDigits, DotIndex;
    var i := DotIndex(s);
    DigitsAround(s);
    DigitsOfBoth(s[..i], s[i + 1..]);
    JoinAt(s, i);
  }

  /** Nothing else is a number. */
  lemma NumberIff(s: string)
    ensures ParseNumber(s).Some? <==> (s != [] && AllDigits(s)) || exists u, v :: Dotted(s, u, v)
  {
    hide Whole, Pow10;
    if ParseNumber(s).Some? && DotIndex(s) < |s| {
      SplitAtDot(s);
    }
    hide ParseNumber;
    if s != [] && AllDigits(s) {
      NumberOf(s, []);
    }
    if u, v :| Dotted(s, u, v) {
      NumberOf(u, v);
    }
  }

  lemma DecimalIsNumber(n: nat)
    ensures ParseNumber(Decimal(n)) == Some(Number(n, 1))
  {
    var i := DotIndex(Decimal(n));
    assert AllDigits(Decimal(n));
    DecimalIsWhole(n);
  }

  // ---------- the language ----------

  /** The parts of a period after its P. */
  datatype Token = TimeMark | Amount(number: string, designator: char)

  function UnitOf(time: bool, designator: char): Option<int> {
    if time then
      match designator
      case 'H' => Some(HOUR)
      case 'M' => Some(MINUTE)
      case 'S' => Some(SECOND)
      case _ => None
    else
      match designator
      case 'Y' => Some(YEAR)
      case 'M' => Some(MONTH)
      case 'W' => Some(WEEK)
      case 'D' => Some(DAY)
      case _ => None
  }

  function Nanos(unit: int, n: Number): int
    requires n.scale > 0
  {
    unit * n.mantissa / n.scale
  }

  /** The units in seconds, and parts of a nanosecond cut off. */
  lemma AmountIs(unit: int, n: Number)
    requires n.scale > 0
    ensures UnitOf(false, 'Y') == Some(31_536_000 * 1_000_000_000) && UnitOf(false, 'M') == Some(2_628_000 * 1_000_000_000)
    ensures UnitOf(false, 'W') == Some(604_800 * 1_000_000_000) && UnitOf(false, 'D') == Some(86_400 * 1_000_000_000)
    ensures UnitOf(true, 'H') == Some(3_600 * 1_000_000_000) && UnitOf(true, 'M') == Some(60 * 1_000_000_000)
    ensures UnitOf(true, 'S') == Some(1_000_000_000)
    ensures Nanos(unit, n) * n.scale <= unit * n.mantissa < (Nanos(unit, n) + 1) * n.scale
  {
    DivisionParts(unit * n.mantissa, n.scale);
    assert (Nanos(unit, n) + 1) * n.scale == Nanos(unit, n) * n.scale + n.scale;
  }

  function TokenText(token: Token): string {
    match token
    case TimeMark => "T"
    case Amount(number, designator) => number + [designator]
  }

  function TextOf(tokens: seq<Token>): string {
    if tokens == [] then [] else TokenText(tokens[0]) + TextOf(tokens[1..])
  }

  /** The amounts of the tokens, those after a T in units of time. */
  function Sum(tokens: seq<Token>, time: bool): Option<int> {
    if tokens == [] then Some(0)
    else
      match tokens[0]
      case TimeMark => Sum(tokens[1..], true)
      case Amount(number, designator) =>
        var n, unit, rest := ParseNumber(number), UnitOf(time, designator), Sum(tokens[1..], time);
        if n.None? || unit.None? || rest.None? then None else Some(Nanos(unit.value, n.value) + rest.value)
  }

  function Prefix(negative: bool): string {
    if negative then "-P" else "P"
  }

  function Signed(negative: bool, v: int): int {
    if negative then -v else v
  }

  /** `s` is a period of `v` nanoseconds. */
  ghost predicate Means(s: string, v: int) {
    exists negative, tokens :: MeansAs(s, v, negative, tokens)
  }

  ghost predicate MeansAs(s: string, v: int, negative: bool, tokens: seq<Token>) {
    s == Prefix(negative) + TextOf(tokens) && Sum(tokens, false) == Some(Signed(negative, v))
  }

  // ---------- the parser ----------

  predicate IsDesignator(c: char) {
    c == 'Y' || c == 'M' || c == 'W' || c == 'D' || c == 'H' || c == 'S'
  }

  /** The length of the longest start of `s` that consists of digits and dots. */
  function NumberEnd(s: string): (n: nat)
    ensures n <= |s| && (forall i | 0 <= i < n :: InNumber(s[i])) && (n < |s| ==> !InNumber(s[n]))
  {
    if s == [] || !InNumber(s[0]) then 0 else 1 + NumberEnd(s[1..])
  }

  datatype Consumed = Consumed(n: Number, designator: char, next: nat)

  function Consume(s: string): (c: Option<Consumed>)
    ensures c.Some? ==> 0 < c.value.next <= |s| && c.value.n.scale > 0
  {
    var i := NumberEnd(s);
    if i == |s| || !IsDesignator(s[i]) || ParseNumber(s[..i]).None? then None
    else Some(Consumed(ParseNumber(s[..i]).value, s[i], i + 1))
  }

  method ConsumeN(dur: string) returns (c: Option<Consumed>)
    ensures c == Consume(dur)
  {
    for i := 0 to |dur|
      invariant forall j | 0 <= j < i :: InNumber(dur[j])
    {
      if InNumber(dur[i]) {
        continue;
      }
      NumberEndIs(dur, i);
      if IsDesignator(dur[i]) {
        var n := ParseNumber(dur[..i]);
        if n.None? {
          return None;
        }
        return Some(Consumed(n.value, dur[i], i + 1));
      }
      return None;
    }
    return None;
  }

  lemma NumberEndIs(s: string, i: nat)
    requires i < |s| && (forall j | 0 <= j < i :: InNumber(s[j])) && !InNumber(s[i])
    ensures NumberEnd(s) == i
  {
    hide InNumber;
    assert NumberEnd(s) <= i;
  }

  function AddTo(r: Result<int>, v: int): Result<int> {
    match r
    case Ok(w) => Ok(v + w)
    case Err => Err
  }

  /** What the parser makes of the text that is left. */
  function ParseRest(s: string, time: bool): Result<int> {
    if s == [] then Ok(0)
    else if s[0] == 'T' then ParseRest(s[1..], true)
    else
      match Consume(s)
      case None => Err
      case Some(c) =>
        var unit := UnitOf(time, c.designator);
        if unit.None? then Err else AddTo(ParseRest(s[c.next..], time), Nanos(unit.value, c.n))
  }

  function ParsePeriod(s: string): Result<int> {
    if "P" <= s then ParseRest(s[1..], false)
    else if "-P" <= s then
      match ParseRest(s[2..], false)
      case Ok(v) => Ok(-v)
      case Err => Err
    else Err
  }

  lemma ConsumedText(s: string)
    requires Consume(s).Some?
    ensures var c := Consume(s).value;
            s == s[..c.next - 1] + [c.designator] + s[c.next..] && ParseNumber(s[..c.next - 1]) == Some(c.n)
  {
    hide ParseNumber, NumberEnd, IsDesignator;
  }

  lemma FirstToken(token: Token, rest: seq<Token>, time: bool)
    ensures TextOf([token] + rest) == TokenText(token) + TextOf(rest)
    ensures token.TimeMark? ==> Sum([token] + rest, time) == Sum(rest, true)
    ensures token.Amount? && ParseNumber(token.number).Some? && UnitOf(time, token.designator).Some? && Sum(rest, time).Some? ==>
              Sum([token] + rest, time)
              == Some(Nanos(UnitOf(time, token.designator).value, ParseNumber(token.number).value) + Sum(rest, time).value)
  {
    hide ParseNumber, UnitOf, Nanos, TokenText;
    assert ([token] + rest)[1..] == rest;
  }

  lemma {:induction false} ParsedIsMeant(s: string, time: bool) returns (tokens: seq<Token>)
    requires ParseRest(s, time).Ok?
    ensures TextOf(tokens) == s && Sum(tokens, time) == Some(ParseRest(s, time).value)
    decreases |s|
  {
    hide ParseNumber, Consume, Nanos, UnitOf, TextOf, Sum;
    if s == [] {
      tokens := [];
      NoTokens(time);
    } else if s[0] == 'T' {
      var rest := ParsedIsMeant(s[1..], true);
      tokens := [TimeMark] + rest;
      FirstToken(TimeMark, rest, time);
    } else {
      var c := Consume(s).value;
      var rest := ParsedIsMeant(s[c.next..], time);
      ConsumedText(s);
      var amount := Amount(s[..c.next - 1], c.designator);
      tokens := [amount] + rest;
      FirstToken(amount, rest, time);
    }
  }

  lemma NoTokens(time: bool)
    ensures TextOf([]) == "" && Sum([], time) == Some(0)
  {
  }

  lemma DesignatorOf(time: bool, designator: char)
    requires UnitOf(time, designator).Some?
    ensures IsDesignator(designator) && !InNumber(designator) && designator != 'T'
  {
  }

  lemma NotInNumber()
    ensures !InNumber('T')
  {
  }

  lemma ConsumeAmount(number: string, designator: char, rest: string)
    requires ParseNumber(number).Some? && IsDesignator(designator) && !InNumber(designator)
    ensures Consume(number + [designator] + rest) == Some(Consumed(ParseNumber(number).value, designator, |number| + 1))
    ensures (number + [designator] + rest)[0] != 'T'
  {
    hide ParseNumber, IsDesignator, InNumber, NumberEnd;
    assert !InNumber('T') by {
      NotInNumber();
    }
    NumberChars(number);
    var s := number + [designator] + rest;
    assert forall j | 0 <= j < |number| :: s[j] == number[j];
    NumberEndIs(s, |number|);
    assert s[..|number|] == number;
  }

  lemma {:induction false} MeantIsParsed(tokens: seq<Token>, time: bool)
    requires Sum(tokens, time).Some?
    ensures ParseRest(TextOf(tokens), time) == Ok(Sum(tokens, time).value)
  {
    hide ParseNumber, Nanos, UnitOf, Consume, TextOf, InNumber;
    if tokens == [] {
      NoTokens(time);
    } else {
      var rest := TextOf(tokens[1..]);
      FirstToken(tokens[0], tokens[1..], time);
      assert tokens == [tokens[0]] + tokens[1..];
      match tokens[0]
      case TimeMark =>
        MeantIsParsed(tokens[1..], true);
        assert ("T" + rest)[1..] == rest;
      case Amount(number, designator) =>
        MeantIsParsed(tokens[1..], time);
        DesignatorOf(time, designator);
        ConsumeAmount(number, designator, rest);
        var s := number + [designator] + rest;
        assert s[|number| + 1..] == rest;
        assert s[0] != 'T';
    }
  }

  /** The parser accepts exactly the periods, and returns what they mean. */
  lemma ParsedIffMeant(s: string, v: int)
    ensures ParsePeriod(s) == Ok(v) <==> Means(s, v)
  {
    hide ParseRest, TextOf, Sum;
    if ParsePeriod(s) == Ok(v) {
      var negative := !("P" <= s);
      var tokens := ParsedIsMeant(s[|Prefix(negative)|..], false);
      assert s == Prefix(negative) + s[|Prefix(negative)|..];
      assert MeansAs(s, v, negative, tokens);
    }
    if Means(s, v) {
      var negative, tokens :| MeansAs(s, v, negative, tokens);
      MeantIsParsed(tokens, false);
      assert s[|Prefix(negative)|..] == TextOf(tokens);
      assert negative ==> s[0] == '-' && s[1] == 'P';
    }
  }

  method ParseISO8601Period(s: string) returns (r: Result<int>)
    ensures r == ParsePeriod(s)
    ensures forall v :: r == Ok(v) <==> Means(s, v)
  {
    hide Consume, UnitOf, Nanos, Means;
    forall v
      ensures ParsePeriod(s) == Ok(v) <==> Means(s, v)
    {
      ParsedIffMeant(s, v);
    }
    var hasP := |s| > 0 && s[0] == 'P';
    var hasNP := |s| > 1 && s[0] == '-' && s[1] == 'P';
    if !hasP && !hasNP {
      return Err;
    }
    var dur := s[1..];
    if hasNP {
      dur := dur[1..];
    }
    ghost var whole := ParseRest(dur, false);
    assert ParsePeriod(s) == if hasNP then (if whole.Ok? then Ok(-whole.value) else Err) else whole;
    var result, time := 0, false;
    while |dur| > 0
      invariant whole == AddTo(ParseRest(dur, time), result)
      decreases |dur|
    {
      if dur[0] == 'T' {
        time := true;
        dur := dur[1..];
        continue;
      }
      var c := ConsumeN(dur);
      if c.None? {
        return Err;
      }
      dur := dur[c.value.next..];
      var unit := UnitOf(time, c.value.designator);
      if unit.None? {
        return Err;
      }
      result := result + Nanos(unit.value, c.value.n);
    }
    r := Ok(if hasNP then -result else result);
  }

  // ---------- the printer ----------

  function Neg64(x: int): int {
    if x == MIN_DURATION then x else -x
  }

  /** Division of signed integers, truncated toward zero. */
  function Quot(x: int, y: int): int
    requires y > 0
  {
    if x >= 0 then x / y else -(-x / y)
  }

  datatype Unit = Unit(nanos: int, designator: char)

  const DATES: seq<Unit> := [Unit(YEAR, 'Y'), Unit(MONTH, 'M'), Unit(WEEK, 'W'), Unit(DAY, 'D')]
  const TIMES: seq<Unit> := [Unit(HOUR, 'H'), Unit(MINUTE, 'M'), Unit(SECOND, 'S')]

  /** The part of the text for one unit. */
  function Part(x: int, u: Unit): seq<Token>
    requires u.nanos > 0
  {
    if Quot(x, u.nanos) > 0 then [Amount(Decimal(Quot(x, u.nanos)), u.designator)] else []
  }

  /** What is left for the smaller units. */
  function Left(x: int, u: Unit): int
    requires u.nanos > 0
  {
    if Quot(x, u.nanos) > 0 then x - Quot(x, u.nanos) * u.nanos else x
  }

  ghost predicate UnitsOf(units: seq<Unit>, time: bool) {
    forall i | 0 <= i < |units| ::
      units[i].nanos > 0 && units[i].nanos % SECOND == 0 && UnitOf(time, units[i].designator) == Some(units[i].nanos)
  }

  function Parts(x: int, units: seq<Unit>): seq<Token>
    requires forall i | 0 <= i < |units| :: units[i].nanos > 0
  {
    if units == [] then [] else Part(x, units[0]) + Parts(Left(x, units[0]), units[1..])
  }

  function AllLeft(x: int, units: seq<Unit>): int
    requires forall i | 0 <= i < |units| :: units[i].nanos > 0
  {
    if units == [] then x else AllLeft(Left(x, units[0]), units[1..])
  }

  function Tokens(x: int): seq<Token> {
    var rest := AllLeft(x, DATES);
    Parts(x, DATES) + if rest == 0 then [] else [TimeMark] + Parts(rest, TIMES)
  }

  function Magnitude(dur: int): int {
    if dur < 0 then Neg64(dur) else dur
  }

  function Printed(dur: int): string {
    Prefix(dur < 0) + TextOf(Tokens(Magnitude(dur)))
  }

  /** Whole seconds toward zero. */
  function Truncated(dur: int): int {
    if dur < 0 then -(-dur / SECOND * SECOND) else dur / SECOND * SECOND
  }

  lemma {:induction false} TextOfConcat(a: seq<Token>, b: seq<Token>)
    ensures TextOf(a + b) == TextOf(a) + TextOf(b)
  {
    hide TokenText;
    if a == [] {
      assert a + b == b;
    } else {
      TextOfConcat(a[1..], b);
      assert (a + b)[1..] == a[1..] + b;
      Associative(TokenText(a[0]), TextOf(a[1..]), TextOf(b));
    }
  }

  lemma SameSeconds(x: int, k: int)
    ensures (x + k * SECOND) % SECOND == x % SECOND
  {
    assert (x + k * SECOND) / SECOND == x / SECOND + k;
  }

  lemma LeftOf(x: int, u: Unit)
    requires x >= 0 && u.nanos > 0
    ensures Quot(x, u.nanos) * u.nanos + Left(x, u) == x && 0 <= Left(x, u) < u.nanos
  {
    assert x / u.nanos * u.nanos + x % u.nanos == x;
  }

  lemma LeftSeconds(x: int, u: Unit)
    requires x >= 0 && u.nanos > 0 && u.nanos % SECOND == 0
    ensures Left(x, u) % SECOND == x % SECOND
  {
    hide Left, Quot;
    LeftOf(x, u);
    var k, q := u.nanos / SECOND, Quot(x, u.nanos);
    assert u.nanos == k * SECOND;
    Reorder(q, k, SECOND);
    SameSeconds(Left(x, u), q * k);
  }

  lemma Reorder(q: int, k: int, s: int)
    ensures q * (k * s) == (q * k) * s
  {
  }

  lemma {:induction false} LeftOfAll(x: int, units: seq<Unit>, time: bool)
    requires x >= 0 && UnitsOf(units, time)
    ensures 0 <= AllLeft(x, units) && AllLeft(x, units) % SECOND == x % SECOND
    ensures units != [] ==> AllLeft(x, units) < units[|units| - 1].nanos
    decreases |units|
  {
    hide Quot, Left, UnitOf;
    if units != [] {
      LeftOf(x, units[0]);
      LeftSeconds(x, units[0]);
      assert UnitsOf(units[1..], time);
      LeftOfAll(Left(x, units[0]), units[1..], time);
    }
  }

  /** The parts of a duration sum up to what they take from it. */
  lemma {:induction false} PartsSum(x: int, units: seq<Unit>, time: bool, rest: seq<Token>)
    requires x >= 0 && UnitsOf(units, time) && Sum(rest, time).Some?
    ensures Sum(Parts(x, units) + rest, time) == Some(x - AllLeft(x, units) + Sum(rest, time).value)
    decreases |units|
  {
    hide Part, Left, UnitOf, Sum;
    if units == [] {
      assert Parts(x, units) + rest == rest;
    } else {
      var u := units[0];
      assert Left(x, u) >= 0 by {
        LeftOf(x, u);
      }
      assert UnitsOf(units[1..], time);
      PartsSum(Left(x, u), units[1..], time, rest);
      var more := Parts(Left(x, u), units[1..]) + rest;
      assert Parts(x, units) + rest == Part(x, u) + more;
      PartSum(x, u, time, more);
    }
  }

  lemma PartSum(x: int, u: Unit, time: bool, rest: seq<Token>)
    requires x >= 0 && u.nanos > 0 && UnitOf(time, u.designator) == Some(u.nanos) && Sum(rest, time).Some?
    ensures Sum(Part(x, u) + rest, time) == Some(x - Left(x, u) + Sum(rest, time).value)
  {
    hide ParseNumber, Decimal, UnitOf;
    if Quot(x, u.nanos) > 0 {
      DecimalIsNumber(Quot(x, u.nanos));
      assert (Part(x, u) + rest)[1..] == rest;
      assert Nanos(u.nanos, Number(Quot(x, u.nanos), 1)) == u.nanos * Quot(x, u.nanos);
    } else {
      assert Part(x, u) + rest == rest;
    }
  }

  /** The tokens of a duration mean the duration, without the part of a second. */
  lemma TokensSum(x: int)
    requires x >= 0
    ensures Sum(Tokens(x), false) == Some(x / SECOND * SECOND)
  {
    hide Parts, Sum, AllLeft;
    var rest := AllLeft(x, DATES);
    LeftOfAll(x, DATES, false);
    LeftOfAll(rest, TIMES, true);
    if rest == 0 {
      NoTokens(false);
      NoTokens(true);
      PartsSum(x, DATES, false, []);
    } else {
      NoTokens(false);
      NoTokens(true);
      var after := Parts(AllLeft(x, DATES), TIMES);
      PartsSum(x, DATES, false, []);
      PartsSum(rest, TIMES, true, []);
      assert after + [] == after;
      SumOfTime(after);
      PartsSum(x, DATES, false, [TimeMark] + after);
    }
  }

  lemma SumOfTime(tokens: seq<Token>)
    ensures Sum([TimeMark] + tokens, false) == Sum(tokens, true)
  {
    assert ([TimeMark] + tokens)[1..] == tokens;
  }

  lemma PrintedMeans(dur: int)
    requires dur > MIN_DURATION
    ensures Means(Printed(dur), Truncated(dur))
  {
    hide Sum, TextOf, Tokens;
    TokensSum(Magnitude(dur));
    assert MeansAs(Printed(dur), Truncated(dur), dur < 0, Tokens(Magnitude(dur)));
  }

  /** Parsing what was printed gives the whole seconds of the duration, for every duration but the least. */
  lemma RoundTripIff(dur: int)
    requires MIN_DURATION <= dur < -MIN_DURATION
    ensures ParsePeriod(Printed(dur)) == Ok(Truncated(dur)) <==> dur != MIN_DURATION
  {
    hide ParsePeriod, Sum, TextOf, Tokens;
    if dur != MIN_DURATION {
      PrintedMeans(dur);
      ParsedIffMeant(Printed(dur), Truncated(dur));
    } else {
      LeastIsNothing();
    }
  }

  /** The least duration has no negation, and is printed as no time at all. */
  lemma LeastIsNothing()
    ensures Printed(MIN_DURATION) == "-PT" && ParsePeriod(Printed(MIN_DURATION)) == Ok(0)
  {
    hide ParseNumber, Consume, Decimal, Parts, AllLeft;
    NothingPrinted(MIN_DURATION, DATES);
    NothingPrinted(MIN_DURATION, TIMES);
    assert [TimeMark][1..] == [];
    assert Tokens(MIN_DURATION) == [TimeMark];
    assert TextOf([TimeMark]) == "T";
    assert "-PT"[2..] == "T" && "T"[1..] == "";
  }

  lemma {:induction false} NothingPrinted(x: int, units: seq<Unit>)
    requires x < 0 && forall i | 0 <= i < |units| :: units[i].nanos > 0
    ensures Parts(x, units) == [] && AllLeft(x, units) == x
  {
    if units != [] {
      assert -x / units[0].nanos >= 0;
      NothingPrinted(x, units[1..]);
    }
  }

  /** The builder and the duration that is left after one unit. */
  method PrintPart(out: string, dur: int, u: Unit) returns (more: string, left: int)
    requires u.nanos > 0
    ensures more == out + TextOf(Part(dur, u)) && left == Left(dur, u)
  {
    more, left := out, dur;
    var n := Quot(dur, u.nanos);
    if n > 0 {
      more := more + Decimal(n) + [u.designator];
      left := left - n * u.nanos;
    }
  }

  lemma {:induction false} NothingLeft(units: seq<Unit>)
    requires forall i | 0 <= i < |units| :: units[i].nanos > 0
    ensures Parts(0, units) == [] && AllLeft(0, units) == 0
  {
    if units != [] {
      NothingLeft(units[1..]);
    }
  }

  ghost function TimeText(x: int, i: nat): string
    requires i <= 3
  {
    TextOf(Parts(x, TIMES[i..]))
  }

  /** The text still to print when the units of the date from the `i`th on are to come. */
  ghost function DateText(x: int, i: nat): string
    requires i <= 4
  {
    var rest := AllLeft(x, DATES[i..]);
    TextOf(Parts(x, DATES[i..])) + if rest == 0 then "" else "T" + TimeText(rest, 0)
  }

  lemma PartsStep(x: int, units: seq<Unit>)
    requires units != [] && forall i | 0 <= i < |units| :: units[i].nanos > 0
    ensures TextOf(Parts(x, units)) == TextOf(Part(x, units[0])) + TextOf(Parts(Left(x, units[0]), units[1..]))
    ensures AllLeft(x, units) == AllLeft(Left(x, units[0]), units[1..])
  {
    hide TextOf, Part, Left;
    TextOfConcat(Part(x, units[0]), Parts(Left(x, units[0]), units[1..]));
  }

  lemma Associative(a: string, b: string, c: string)
    ensures (a + b) + c == a + (b + c)
  {
  }

  lemma DateStep(x: int, i: nat, out: string, all: string)
    requires i < 4 && all == out + DateText(x, i)
    ensures all == out + TextOf(Part(x, DATES[i])) + DateText(Left(x, DATES[i]), i + 1)
    ensures DateText(0, i + 1) == ""
  {
    hide TextOf, Part, Left, Parts, AllLeft, TimeText;
    assert DATES[i..][1..] == DATES[i + 1..];
    PartsStep(x, DATES[i..]);
    var y := Left(x, DATES[i]);
    var rest := AllLeft(y, DATES[i + 1..]);
    var tail := if rest == 0 then "" else "T" + TimeText(rest, 0);
    Associative(TextOf(Part(x, DATES[i])), TextOf(Parts(y, DATES[i + 1..])), tail);
    Associative(out, TextOf(Part(x, DATES[i])), DateText(y, i + 1));
    NothingLeft(DATES[i + 1..]);
    NoTokens(false);
  }

  lemma TimeStep(x: int, i: nat, out: string, all: string)
    requires i < 3 && all == out + TimeText(x, i)
    ensures all == out + TextOf(Part(x, TIMES[i])) + TimeText(Left(x, TIMES[i]), i + 1)
    ensures TimeText(0, i + 1) == ""
  {
    hide TextOf, Part, Left, Parts, AllLeft;
    assert TIMES[i..][1..] == TIMES[i + 1..];
    PartsStep(x, TIMES[i..]);
    Associative(out, TextOf(Part(x, TIMES[i])), TimeText(Left(x, TIMES[i]), i + 1));
    NothingLeft(TIMES[i + 1..]);
    NoTokens(false);
  }

  lemma NothingMore(x: int, units: seq<Unit>)
    requires units == []
    ensures Parts(x, units) == [] && AllLeft(x, units) == x
  {
  }

  lemma TimeDone(x: int)
    ensures TimeText(x, 3) == ""
  {
    NothingMore(x, TIMES[3..]);
  }

  lemma TimeMarked(x: int, out: string, all: string)
    requires all == out + DateText(x, 4)
    ensures all == if x == 0 then out else out + "T" + TimeText(x, 0)
  {
    hide TextOf, Parts, AllLeft, TimeText;
    NothingMore(x, DATES[4..]);
    NoTokens(false);
  }

  lemma AllText(dur: int)
    ensures Printed(dur) == Prefix(dur < 0) + DateText(Magnitude(dur), 0)
  {
    hide Parts, AllLeft;
    var x := Magnitude(dur);
    var rest := AllLeft(x, DATES);
    assert DATES[0..] == DATES && TIMES[0..] == TIMES;
    if rest == 0 {
      assert Parts(x, DATES) + [] == Parts(x, DATES);
    } else {
      TextOfConcat(Parts(x, DATES), [TimeMark] + Parts(rest, TIMES));
      assert ([TimeMark] + Parts(rest, TIMES))[1..] == Parts(rest, TIMES);
    }
  }

  method AsISO8601Period(dur: int) returns (out: string)
    requires MIN_DURATION <= dur < -MIN_DURATION
    ensures out == Printed(dur)
    ensures dur != MIN_DURATION ==> Means(out, Truncated(dur))
  {
    hide Printed, Means, TextOf, Part, Left, DateText, TimeText, Truncated, Quot;
    AllText(dur);
    if dur != MIN_DURATION {
      PrintedMeans(dur);
    }
    ghost var all := Printed(dur);
    out := "";
    var left := dur;
    if left < 0 {
      out := out + "-";
      left := Neg64(left);
    }
    out := out + "P";
    DateStep(left, 0, out, all);
    out, left := PrintPart(out, left, DATES[0]);
    if left == 0 {
      return;
    }
    DateStep(left, 1, out, all);
    out, left := PrintPart(out, left, DATES[1]);
    if left == 0 {
      return;
    }
    DateStep(left, 2, out, all);
    out, left := PrintPart(out, left, DATES[2]);
    if left == 0 {
      return;
    }
    DateStep(left, 3, out, all);
    out, left := PrintPart(out, left, DATES[3]);
    TimeMarked(left, out, all);
    if left == 0 {
      return;
    }
    out := out + "T";
    TimeStep(left, 0, out, all);
    out, left := PrintPart(out, left, TIMES[0]);
    if left == 0 {
      return;
    }
    TimeStep(left, 1, out, all);
    out, left := PrintPart(out, left, TIMES[1]);
    if left == 0 {
      return;
    }
    TimeStep(left, 2, out, all);
    out, left := PrintPart(out, left, TIMES[2]);
    TimeDone(left);
  }

  // ---------- the printed text ----------

  ghost function Count(n: nat, designator: char): seq<Token> {
    if n > 0 then [Amount(Decimal(n), designator)] else []
  }

  /** Seconds of the units of a date and of a time. */
  function DateSeconds(years: nat, months: nat, weeks: nat, days: nat): nat {
    31_536_000 * years + 2_628_000 * months + 604_800 * weeks + 86_400 * days
  }

  function TimeSeconds(hours: nat, minutes: nat, seconds: nat): nat {
    3_600 * hours + 60 * minutes + seconds
  }

  lemma TakeFirst(n: nat, units: seq<Unit>, left: nat)
    requires units != [] && (forall i | 0 <= i < |units| :: units[i].nanos > 0) && left < units[0].nanos
    ensures var x := n * units[0].nanos + left;
            && Parts(x, units) == Count(n, units[0].designator) + Parts(left, units[1..])
            && AllLeft(x, units) == AllLeft(left, units[1..])
  {
    var u := units[0];
    ProductMonotone(0, n, u.nanos);
    assert (n + 1) * u.nanos == n * u.nanos + u.nanos;
    QuotientIs(n * u.nanos + left, n, u.nanos);
  }

  lemma NoParts(x: int)
    ensures Parts(x, []) == [] && AllLeft(x, []) == x
  {
  }

  lemma PartsOfTime(hours: nat, minutes: nat, seconds: nat, nanos: nat)
    requires minutes < 60 && seconds < 60 && nanos < 1_000_000_000
    ensures Parts(TimeSeconds(hours, minutes, seconds) * 1_000_000_000 + nanos, TIMES)
            == Count(hours, 'H') + Count(minutes, 'M') + Count(seconds, 'S')
  {
    hide Parts, AllLeft, Count;
    var l2 := seconds * SECOND + nanos;
    var l1 := minutes * MINUTE + l2;
    var u1, u2 := [Unit(MINUTE, 'M'), Unit(SECOND, 'S')], [Unit(SECOND, 'S')];
    assert TIMES[1..] == u1 && u1[1..] == u2 && u2[1..] == [];
    TakeFirst(hours, TIMES, l1);
    TakeFirst(minutes, u1, l2);
    TakeFirst(seconds, u2, nanos);
    NoParts(nanos);
    Three(Count(hours, 'H'), Count(minutes, 'M'), Count(seconds, 'S'));
  }

  lemma Three(a: seq<Token>, b: seq<Token>, c: seq<Token>)
    ensures a + (b + (c + [])) == a + b + c
  {
  }

  lemma DateNested(years: nat, months: nat, weeks: nat, days: nat, nanos: nat)
    ensures DateSeconds(years, months, weeks, days) * 1_000_000_000 + nanos
            == years * YEAR + (months * MONTH + (weeks * WEEK + (days * DAY + nanos)))
  {
  }

  lemma PartsOfDate(years: nat, months: nat, weeks: nat, days: nat, nanos: nat)
    requires months * MONTH + (weeks * WEEK + (days * DAY + nanos)) < YEAR
    requires weeks * WEEK + (days * DAY + nanos) < MONTH
    requires days * DAY + nanos < WEEK
    requires nanos < DAY
    ensures var x := years * YEAR + (months * MONTH + (weeks * WEEK + (days * DAY + nanos)));
            && Parts(x, DATES) == Count(years, 'Y') + Count(months, 'M') + Count(weeks, 'W') + Count(days, 'D')
            && AllLeft(x, DATES) == nanos
  {
    hide Parts, AllLeft, Count;
    var u1 := [Unit(MONTH, 'M'), Unit(WEEK, 'W'), Unit(DAY, 'D')];
    var u2, u3 := [Unit(WEEK, 'W'), Unit(DAY, 'D')], [Unit(DAY, 'D')];
    assert DATES[1..] == u1 && u1[1..] == u2 && u2[1..] == u3 && u3[1..] == [];
    TakeFirst(years, DATES, months * MONTH + (weeks * WEEK + (days * DAY + nanos)));
    TakeFirst(months, u1, weeks * WEEK + (days * DAY + nanos));
    TakeFirst(weeks, u2, days * DAY + nanos);
    TakeFirst(days, u3, nanos);
    NoParts(nanos);
    Four(Count(years, 'Y'), Count(months, 'M'), Count(weeks, 'W'), Count(days, 'D'));
  }

  lemma Four(a: seq<Token>, b: seq<Token>, c: seq<Token>, d: seq<Token>)
    ensures a + (b + (c + (d + []))) == a + b + c + d
  {
  }

  /** The printer takes as many years as fit, then as many months, weeks, days, hours, minutes and seconds, leaves out
      what there is none of, and writes a T if anything shorter than a day is left. */
  lemma CanonicalForm(years: nat, months: nat, weeks: nat, days: nat, hours: nat, minutes: nat, seconds: nat, nanos: nat)
    requires var time := TimeSeconds(hours, minutes, seconds) * 1_000_000_000 + nanos;
             && DateSeconds(0, months, weeks, days) * 1_000_000_000 + time < 31_536_000 * 1_000_000_000
             && DateSeconds(0, 0, weeks, days) * 1_000_000_000 + time < 2_628_000 * 1_000_000_000
             && days < 7 && hours < 24 && minutes < 60 && seconds < 60 && nanos < 1_000_000_000
    ensures var time := TimeSeconds(hours, minutes, seconds) * 1_000_000_000 + nanos;
            Tokens(DateSeconds(years, months, weeks, days) * 1_000_000_000 + time)
            == Count(years, 'Y') + Count(months, 'M') + Count(weeks, 'W') + Count(days, 'D')
               + if time == 0 then [] else [TimeMark] + (Count(hours, 'H') + Count(minutes, 'M') + Count(seconds, 'S'))
  {
    hide Parts, AllLeft, Count, Tokens, DateSeconds, TimeSeconds;
    var time := TimeSeconds(hours, minutes, seconds) * 1_000_000_000 + nanos;
    TimeBound(hours, minutes, seconds, nanos);
    DateForm(years, months, weeks, days, time);
    PartsOfTime(hours, minutes, seconds, nanos);
    TokensAre(DateSeconds(years, months, weeks, days) * 1_000_000_000 + time);
  }

  lemma TimeBound(hours: nat, minutes: nat, seconds: nat, nanos: nat)
    requires hours < 24 && minutes < 60 && seconds < 60 && nanos < 1_000_000_000
    ensures TimeSeconds(hours, minutes, seconds) * 1_000_000_000 + nanos < 86_400 * 1_000_000_000
  {
  }

  lemma TokensAre(x: int)
    ensures Tokens(x) == Parts(x, DATES)
                         + if AllLeft(x, DATES) == 0 then [] else [TimeMark] + Parts(AllLeft(x, DATES), TIMES)
  {
  }

  lemma DateForm(years: nat, months: nat, weeks: nat, days: nat, time: nat)
    requires DateSeconds(0, months, weeks, days) * 1_000_000_000 + time < 31_536_000 * 1_000_000_000
    requires DateSeconds(0, 0, weeks, days) * 1_000_000_000 + time < 2_628_000 * 1_000_000_000
    requires days < 7 && time < 86_400 * 1_000_000_000
    ensures var x := DateSeconds(years, months, weeks, days) * 1_000_000_000 + time;
            && Parts(x, DATES) == Count(years, 'Y') + Count(months, 'M') + Count(weeks, 'W') + Count(days, 'D')
            && AllLeft(x, DATES) == time
  {
    hide Parts, AllLeft, Count, DateSeconds, DATES;
    DateNested(years, months, weeks, days, time);
    DateNested(0, months, weeks, days, time);
    DateNested(0, 0, weeks, days, time);
    PartsOfDate(years, months, weeks, days, time);
  }

  /** One minute and a half second, and one second and a half. */
  lemma WithFraction()
    ensures ParsePeriod("PT1.5M") == Ok(90 * 1_000_000_000) && ParsePeriod("PT1.5S") == Ok(1_500_000_000)
  {
    hide ParseRest, UnitOf, Whole, Pow10;
    NumberOf("1", "5");
    DigitIsWhole('1');
    DigitIsWhole('5');
    Pow10Sum(1, 0);
    AmountIs(60 * 1_000_000_000, Number(15, 10));
    AmountIs(1_000_000_000, Number(15, 10));
    assert "1" + "." + "5" == "1.5";
    OneAmount("1.5", 'M', 90 * 1_000_000_000);
    OneAmount("1.5", 'S', 1_500_000_000);
    assert "PT1.5M"[1..] == "T" + ("1.5" + ['M'] + "") && "PT1.5S"[1..] == "T" + ("1.5" + ['S'] + "");
  }

  lemma OneAmount(number: string, designator: char, v: int)
    requires ParseNumber(number).Some? && UnitOf(true, designator).Some?
    requires v == Nanos(UnitOf(true, designator).value, ParseNumber(number).value)
    ensures ParseRest("T" + (number + [designator] + ""), false) == Ok(v)
  {
    hide ParseNumber, UnitOf, Nanos, TextOf, Sum;
    var tokens := [Amount(number, designator)];
    NoTokens(true);
    FirstToken(Amount(number, designator), [], true);
    FirstToken(TimeMark, tokens, false);
    assert tokens == [Amount(number, designator)] + [];
    MeantIsParsed([TimeMark] + tokens, false);
  }
}
