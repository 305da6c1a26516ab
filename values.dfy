/**
 * The two value parsers of the OBIS table: `parseValue`, which reads a
 * `(number*unit)` group, and `parseTimestamp`, which reads a
 * `(YYMMDDhhmmssX)` group. Their regular expressions are written out as
 * predicates on the text of the group, parentheses included.
 *
 * A number read with `parseFloat` is kept as an exact decimal
 * `mantissa / 10^scale` rather than a binary floating-point number, and a
 * timestamp as its calendar fields and its offset from UTC in hours rather than
 * a JavaScript `Date`.
 */
module Values {
  import opened Base
  import opened JsString

  /** The calendar fields of a timestamp, as written in the group (the year with its century). */
  datatype Stamp = Stamp(year: nat, month: nat, day: nat, hour: nat, minute: nat, second: nat)

  /**
   * A value of a record: a timestamp with its offset from UTC in hours, an exact
   * decimal `mantissa / 10^scale` (from `parseFloat`), or an integer (from `parseInt`).
   */
  datatype Value = Ts(stamp: Stamp, offsetHours: int) | Dec(mantissa: nat, scale: nat) | Int(n: nat)

  /**
   * The TypeErrors that decoding a telegram can throw: the row has no groups at
   * all (`null[0]`), the group asked for is missing (`undefined.match`), the group
   * does not match its pattern (destructuring a `null` match), or no row was
   * recognised (`reduce` of an empty array without an initial value).
   */
  datatype Fault = MissingValues | MissingGroup(index: nat) | NoMatch(text: string) | EmptyReduce

  /** The characters that `.` in a regular expression does not match. */
  predicate IsLineTerminator(c: char)
  {
    c == '\n' || c == '\r' || c == '\U{2028}' || c == '\U{2029}'
  }

  predicate NoLineTerminator(s: string)
  {
    forall i :: 0 <= i < |s| ==> !IsLineTerminator(s[i])
  }

  /** `\d+(?:\.\d+)?`: digits, optionally a point and more digits. */
  predicate IsNumber(x: string)
  {
    var d := IndexOf(x, '.');
    if d == -1 then |x| >= 1 && AllDigits(x)
    else 1 <= d < |x| - 1 && AllDigits(x[..d]) && AllDigits(x[d + 1..])
  }

  /** The digits before the point. */
  function IntegerDigits(x: string): (ip: string)
    requires IsNumber(x)
    ensures |ip| >= 1 && AllDigits(ip)
  {
    var d := IndexOf(x, '.');
    if d == -1 then x else x[..d]
  }

  /** The digits after the point; none when there is no point. */
  function FractionDigits(x: string): (fp: string)
    requires IsNumber(x)
    ensures AllDigits(fp)
  {
    var d := IndexOf(x, '.');
    if d == -1 then [] else x[d + 1..]
  }

  /** The two capture groups of `VALUE_REGEX`: the number and, when there is a `*`, the unit. */
  datatype ValueMatch = ValueMatch(number: string, unit: Option<string>)

  /** A unit as `(.+)` captures it: at least one character, none a line terminator. */
  predicate IsUnit(u: string)
  {
    |u| >= 1 && NoLineTerminator(u)
  }

  /** `v.match(VALUE_REGEX)`: `(`, a number, optionally `*` and a unit, `)`, and nothing else. */
  function MatchValue(v: string): Option<ValueMatch>
  {
    if |v| >= 2 && v[0] == '(' && v[|v| - 1] == ')' then
      var body := v[1..|v| - 1];
      var k := IndexOf(body, '*');
      if k == -1 then
        if IsNumber(body) then Some(ValueMatch(body, None)) else None
      else if IsNumber(body[..k]) && IsUnit(body[k + 1..]) then
        Some(ValueMatch(body[..k], Some(body[k + 1..])))
      else None
    else None
  }

  /** The group text that a number and an optional unit are written as. */
  function ValueText(number: string, unit: Option<string>): string
  {
    "(" + number + (if unit.Some? then "*" + unit.value else "") + ")"
  }

  /** The units whose numbers go through `parseFloat`. */
  predicate FloatUnit(u: string)
  {
    u == "A" || u == "kW" || u == "kWh" || u == "m3" || u == "V"
  }

  /** `parseValue(v)`. */
  function ParseValue(v: string): Result<Value, Fault>
  {
    match MatchValue(v)
    case None => Err(NoMatch(v))
    case Some(m) =>
      if IsNumber(m.number) then
        var ip, fp := IntegerDigits(m.number), FractionDigits(m.number);
        if m.unit.Some? && FloatUnit(m.unit.value) then
          Ok(Dec(DigitsValue(ip) * Pow10(|fp|) + DigitsValue(fp), |fp|))
        else
          Ok(Int(DigitsValue(ip)))
      else Err(NoMatch(v))
  }

  /** A number holds neither `*` nor a line terminator. */
  lemma NumberChars(x: string)
    requires IsNumber(x)
    ensures forall i :: 0 <= i < |x| ==> x[i] != '*' && x[i] != ')' && !IsLineTerminator(x[i])
  {
    var d := IndexOf(x, '.');
    if d != -1 {
      forall i | 0 <= i < |x| ensures x[i] != '*' && x[i] != ')' && !IsLineTerminator(x[i]) {
        if i < d { assert x[i] == x[..d][i]; }
        else if i > d { assert x[i] == x[d + 1..][i - d - 1]; }
      }
    }
  }

  /** `VALUE_REGEX` on a group whose first `*` separates a number from a unit. */
  lemma MatchStar(v: string, body: string, number: string, u: string)
    requires |v| >= 2 && v[0] == '(' && v[|v| - 1] == ')' && v[1..|v| - 1] == body
    requires IndexOf(body, '*') == |number| && body[..|number|] == number && body[|number| + 1..] == u
    requires IsNumber(number) && IsUnit(u)
    ensures MatchValue(v) == Some(ValueMatch(number, Some(u)))
  {
  }

  /** Every number and unit, written out as a group, is matched back to themselves. */
  lemma MatchValueText(number: string, unit: Option<string>)
    requires IsNumber(number)
    requires unit.Some? ==> IsUnit(unit.value)
    ensures MatchValue(ValueText(number, unit)) == Some(ValueMatch(number, unit))
  {
    var v := ValueText(number, unit);
    var tail := if unit.Some? then "*" + unit.value else "";
    assert v == "(" + (number + tail) + ")";
    var body := number + tail;
    assert |v| >= 2 && v[0] == '(' && v[|v| - 1] == ')';
    assert v[1..|v| - 1] == body;
    NumberChars(number);
    if unit.Some? {
      assert body[|number|] == '*';
      forall j | 0 <= j < |number| ensures body[j] != '*' {
        assert body[j] == number[j];
      }
      IndexOfIs(body, '*', |number|);
      assert body[..|number|] == number;
      assert body[|number| + 1..] == unit.value;
      MatchStar(v, body, number, unit.value);
    } else {
      assert body == number;
      IndexOfFirst(body, '*');
      assert MatchValue(v) == Some(ValueMatch(body, None));
    }
  }

  /** Whatever `VALUE_REGEX` matches is the written form of its number and unit. */
  lemma MatchValueIsText(v: string)
    requires MatchValue(v).Some?
    ensures var m := MatchValue(v).value;
            && IsNumber(m.number) && (m.unit.Some? ==> IsUnit(m.unit.value))
            && v == ValueText(m.number, m.unit)
  {
    var body := v[1..|v| - 1];
    var k := IndexOf(body, '*');
    var m := MatchValue(v).value;
    assert v == "(" + body + ")";
    if k != -1 {
      assert body == body[..k] + "*" + body[k + 1..];
    }
  }

  /** For the units read with `parseFloat`, every number, with or without a point, gives the
      exact decimal its digits denote, scaled by the number of digits after the point. */
  lemma ParseValueDecimal(x: string, u: string)
    requires IsNumber(x) && FloatUnit(u)
    ensures AllDigits(IntegerDigits(x) + FractionDigits(x))
    ensures ParseValue(ValueText(x, Some(u)))
            == Ok(Dec(DigitsValue(IntegerDigits(x) + FractionDigits(x)), |FractionDigits(x)|))
  {
    MatchValueText(x, Some(u));
    DigitsValueAppend(IntegerDigits(x), FractionDigits(x));
  }

  /** A whole number under one of those units, such as `(002*A)`, gives a decimal with no
      digits after the point. */
  lemma ParseValueWhole(x: string, u: string)
    requires |x| >= 1 && AllDigits(x) && FloatUnit(u)
    ensures ParseValue(ValueText(x, Some(u))) == Ok(Dec(DigitsValue(x), 0))
  {
    ParseValueDecimal(x, u);
    assert IntegerDigits(x) + FractionDigits(x) == x;
  }

  /** Written as `ip.fp`, the decimal is the digits of `ip` and `fp` with `|fp|` after the point. */
  lemma ParseValueDotted(ip: string, fp: string, u: string)
    requires |ip| >= 1 && AllDigits(ip) && |fp| >= 1 && AllDigits(fp)
    requires FloatUnit(u)
    ensures AllDigits(ip + fp)
    ensures ParseValue(ValueText(ip + "." + fp, Some(u))) == Ok(Dec(DigitsValue(ip + fp), |fp|))
  {
    DotNumber(ip, fp);
    ParseValueDecimal(ip + "." + fp, u);
  }

  /** `ip + "." + fp` is a number whose integer and fraction digits are `ip` and `fp`. */
  lemma DotNumber(ip: string, fp: string)
    requires |ip| >= 1 && AllDigits(ip) && |fp| >= 1 && AllDigits(fp)
    ensures IsNumber(ip + "." + fp)
    ensures IntegerDigits(ip + "." + fp) == ip && FractionDigits(ip + "." + fp) == fp
  {
    var x := ip + "." + fp;
    assert x[|ip|] == '.';
    forall j | 0 <= j < |ip| ensures x[j] != '.' {
      assert x[j] == ip[j];
    }
    IndexOfIs(x, '.', |ip|);
    assert x[..|ip|] == ip;
    assert x[|ip| + 1..] == fp;
  }

  /**
   * For any other unit, or none, `parseInt` keeps the integer digits only: the
   * result is the decimal that `parseFloat` would give, rounded down.
   */
  lemma ParseValueInteger(x: string, unit: Option<string>)
    requires IsNumber(x)
    requires unit.Some? ==> IsUnit(unit.value) && !FloatUnit(unit.value)
    ensures ParseValue(ValueText(x, unit)) == Ok(Int(DigitsValue(IntegerDigits(x))))
  {
    MatchValueText(x, unit);
  }

  /** That integer is the floor of the number written: `ip.fp` lies in `[ip, ip + 1)`. */
  lemma IntegerPartIsFloor(ip: string, fp: string)
    requires AllDigits(ip) && AllDigits(fp)
    ensures var p := Pow10(|fp|);
            DigitsValue(ip) * p <= DigitsValue(ip) * p + DigitsValue(fp) < (DigitsValue(ip) + 1) * p
  {
    DigitsValueBound(fp);
    var p := Pow10(|fp|);
    assert (DigitsValue(ip) + 1) * p == DigitsValue(ip) * p + p;
  }

  /** A group that is not `(number)` or `(number*unit)` makes `parseValue` throw. */
  lemma ParseValueRejects(v: string)
    requires MatchValue(v).None?
    ensures ParseValue(v) == Err(NoMatch(v))
  {
  }

  /** `DATE_REGEX`: `(`, 12 digits, `S` or `W` in either case, `)`. */
  predicate IsDate(v: string)
  {
    && |v| == 15 && v[0] == '(' && v[14] == ')'
    && AllDigits(v[1..13])
    && (v[13] == 'S' || v[13] == 's' || v[13] == 'W' || v[13] == 'w')
  }

  /** The 2 digits at `i` and `i + 1`. */
  function Two(v: string, i: nat): nat
    requires i + 2 <= |v| && IsDigit(v[i]) && IsDigit(v[i + 1])
  {
    (v[i] as int - '0' as int) * 10 + (v[i + 1] as int - '0' as int)
  }

  /** `parseTimestamp(v)`: summer time (`S`) is 2 hours ahead of UTC, winter time (`W`) 1 hour. */
  function ParseTimestamp(v: string): Result<Value, Fault>
  {
    if IsDate(v) then
      assert forall i :: 1 <= i < 13 ==> v[i] == v[1..13][i - 1];
      Ok(Ts(Stamp(2000 + Two(v, 1), Two(v, 3), Two(v, 5), Two(v, 7), Two(v, 9), Two(v, 11)),
            if v[13] == 'S' || v[13] == 's' then 2 else 1))
    else Err(NoMatch(v))
  }

  function DigitChar(d: nat): (c: char)
    requires d < 10
    ensures IsDigit(c) && c as int - '0' as int == d
  {
    '0' + d as char
  }

  /** The fields `parseTimestamp` can yield: a year of this century, every other field 2 digits. */
  predicate Writable(st: Stamp)
  {
    2000 <= st.year < 2100 && st.month < 100 && st.day < 100
    && st.hour < 100 && st.minute < 100 && st.second < 100
  }

  /** The group text of a timestamp: each field as 2 digits, then the season letter. */
  function StampText(st: Stamp, zone: char): (v: string)
    requires Writable(st)
    ensures |v| == 15 && v[0] == '(' && v[13] == zone && v[14] == ')'
  {
    var yy := st.year - 2000;
    ['(', DigitChar(yy / 10), DigitChar(yy % 10), DigitChar(st.month / 10), DigitChar(st.month % 10),
     DigitChar(st.day / 10), DigitChar(st.day % 10), DigitChar(st.hour / 10), DigitChar(st.hour % 10),
     DigitChar(st.minute / 10), DigitChar(st.minute % 10), DigitChar(st.second / 10), DigitChar(st.second % 10),
     zone, ')']
  }

  /** Writing a timestamp out and reading it back gives its fields, in order, and its offset. */
  lemma TimestampRoundTrip(st: Stamp, zone: char)
    requires Writable(st)
    requires zone == 'S' || zone == 's' || zone == 'W' || zone == 'w'
    ensures ParseTimestamp(StampText(st, zone))
         == Ok(Ts(st, if zone == 'S' || zone == 's' then 2 else 1))
  {
    var v := StampText(st, zone);
    assert AllDigits(v[1..13]) by {
      forall i | 0 <= i < 12 ensures IsDigit(v[1..13][i]) {
        assert v[1..13][i] == v[i + 1];
      }
    }
  }

  /** Whatever `DATE_REGEX` matches is the written form of the fields it yields. */
  lemma TimestampIsText(v: string)
    requires IsDate(v)
    ensures ParseTimestamp(v).Ok? && ParseTimestamp(v).value.Ts?
    ensures Writable(ParseTimestamp(v).value.stamp)
    ensures v == StampText(ParseTimestamp(v).value.stamp, v[13])
  {
    assert forall i :: 1 <= i < 13 ==> v[i] == v[1..13][i - 1];
    TwoBack(v, 1);
    TwoBack(v, 3);
    TwoBack(v, 5);
    TwoBack(v, 7);
    TwoBack(v, 9);
    TwoBack(v, 11);
    var st := Stamp(2000 + Two(v, 1), Two(v, 3), Two(v, 5), Two(v, 7), Two(v, 9), Two(v, 11));
    assert ParseTimestamp(v).value.stamp == st;
    var w := StampText(st, v[13]);
    assert forall i :: 0 <= i < 15 ==> v[i] == w[i];
  }

  /** The 2 digits of a field are the digits of the number they denote. */
  lemma TwoBack(v: string, i: nat)
    requires i + 2 <= |v| && IsDigit(v[i]) && IsDigit(v[i + 1])
    ensures Two(v, i) < 100 && DigitChar(Two(v, i) / 10) == v[i] && DigitChar(Two(v, i) % 10) == v[i + 1]
  {
  }

  /** A group that does not match `DATE_REGEX` makes `parseTimestamp` throw. */
  lemma ParseTimestampRejects(v: string)
    requires !IsDate(v)
    ensures ParseTimestamp(v) == Err(NoMatch(v))
  {
  }
}
