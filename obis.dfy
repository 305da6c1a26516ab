/**
 * `extractKeyValue`: the table from an OBIS identifier (IEC 62056-61) to the
 * fields of the decoded record, each read from one `(...)` group of the row.
 *
 * JavaScript evaluates an object literal's properties left to right, and the
 * first parser that throws ends the call; the model returns that throw as a
 * `Fault`.  An identifier the table does not list gives `undefined`: `Ok(None)`.
 */
module Obis {
  import opened Base
  import opened JsString
  import opened Values

  /** A decoded record: field name to value (a JavaScript object). */
  type Record = map<string, Value>

  /** The two group parsers. */
  datatype Parser = Timestamp | Number

  /** One field of a record: its name, its parser and the group it reads. */
  datatype Entry = Entry(name: string, parser: Parser, group: nat)

  /** `values[i]`: a `null` group list throws; a group past its end is `undefined`, and parsing that throws. */
  function Group(values: Option<seq<string>>, i: nat): (r: Result<string, Fault>)
    ensures values.None? <==> r == Err(MissingValues)
    ensures r.Ok? <==> values.Some? && i < |values.value|
    ensures r.Ok? ==> r.value == values.value[i]
  {
    if values.None? then Err(MissingValues)
    else if i < |values.value| then Ok(values.value[i])
    else Err(MissingGroup(i))
  }

  /** `parseTimestamp(values[i])` or `parseValue(values[i])`. */
  function Parse(p: Parser, values: Option<seq<string>>, i: nat): Result<Value, Fault>
  {
    match Group(values, i)
    case Err(e) => Err(e)
    case Ok(g) => if p == Timestamp then ParseTimestamp(g) else ParseValue(g)
  }

  /** `key.slice(-1) === "1" ? "low" : "high"`. */
  function Tariff(key: string): (t: string)
    ensures t == "low" <==> |key| >= 1 && key[|key| - 1] == '1'
    ensures t == "low" || t == "high"
  {
    if Slice(key, -1, |key|) == "1" then "low" else "high"
  }

  /** `+key.slice(4, -5)`: the code digits of a `1-0:dd.7.0` identifier, as a number. */
  function Code(key: string): nat
    requires |key| == 10 && IsDigit(key[4])
  {
    var d := Slice(key, 4, -5);
    assert d == [key[4]];
    DigitsValue(d)
  }

  /** The keys of `extractKeyValue`'s switch. */
  const Keys: set<string> := {
    "0-0:1.0.0", "1-3:0.2.8", "0-1:24.2.1",
    "1-0:1.8.1", "1-0:1.8.2", "1-0:2.8.1", "1-0:2.8.2",
    "1-0:1.7.0", "1-0:21.7.0", "1-0:41.7.0", "1-0:61.7.0",
    "1-0:2.7.0", "1-0:22.7.0", "1-0:42.7.0", "1-0:62.7.0",
    "1-0:31.7.0", "1-0:51.7.0", "1-0:71.7.0",
    "1-0:32.7.0", "1-0:52.7.0", "1-0:72.7.0",
    "0-0:96.14.0"
  }

  /**
   * The cases of `extractKeyValue`'s switch: the properties of the object
   * literal each case returns, in the order they are written, with the tariff
   * and the phase computed from the identifier as the code computes them.
   */
  function Fields(key: string): seq<Entry>
  {
    if key == "0-0:1.0.0" then [Entry("energy:timestamp", Timestamp, 0)]
    else if key == "1-3:0.2.8" then [Entry("version", Number, 0)]
    else if key == "0-1:24.2.1" then [Entry("gas:timestamp", Timestamp, 0), Entry("gas:in", Number, 1)]
    else if key == "1-0:1.8.1" || key == "1-0:1.8.2" then [Entry("energy:in:" + Tariff(key), Number, 0)]
    else if key == "1-0:2.8.1" || key == "1-0:2.8.2" then [Entry("energy:out:" + Tariff(key), Number, 0)]
    else if key == "1-0:1.7.0" then [Entry("power:in", Number, 0)]
    else if key == "1-0:21.7.0" || key == "1-0:41.7.0" || key == "1-0:61.7.0" then
      [Entry("power:in:phase-" + NatText(Code(key) / 2), Number, 0)]
    else if key == "1-0:2.7.0" then [Entry("power:out", Number, 0)]
    else if key == "1-0:22.7.0" || key == "1-0:42.7.0" || key == "1-0:62.7.0" then
      [Entry("power:out:phase-" + NatText(Code(key) / 2), Number, 0)]
    else if key == "1-0:31.7.0" || key == "1-0:51.7.0" || key == "1-0:71.7.0" then
      [Entry("current:phase-" + NatText((Code(key) - 1) / 2), Number, 0)]
    else if key == "1-0:32.7.0" || key == "1-0:52.7.0" || key == "1-0:72.7.0" then
      [Entry("voltage:phase-" + NatText((Code(key) - 1) / 2), Number, 0)]
    else if key == "0-0:96.14.0" then [Entry("tariff", Number, 0)]
    else []
  }

  /**
   * Building the object: the fields are parsed left to right, as JavaScript
   * evaluates an object literal, and the first parser that throws ends it.
   */
  function Apply(entries: seq<Entry>, values: Option<seq<string>>): Result<Record, Fault>
  {
    if entries == [] then Ok(map[])
    else
      match Parse(entries[0].parser, values, entries[0].group)
      case Err(e) => Err(e)
      case Ok(v) =>
        match Apply(entries[1..], values)
        case Err(e) => Err(e)
        case Ok(m) => Ok(map[entries[0].name := v] + m)
  }

  /** `extractKeyValue(key, values)`: `undefined` outside the switch, else the object its case builds. */
  function ExtractKeyValue(key: string, values: Option<seq<string>>): Result<Option<Record>, Fault>
  {
    var es := Fields(key);
    if es == [] then Ok(None)
    else
      match Apply(es, values)
      case Err(e) => Err(e)
      case Ok(m) => Ok(Some(m))
  }

  /** The table written out by hand, one line per identifier, with every name spelled out. */
  function Reference(key: string): seq<Entry>
  {
    if key == "0-0:1.0.0" then [Entry("energy:timestamp", Timestamp, 0)]
    else if key == "1-3:0.2.8" then [Entry("version", Number, 0)]
    else if key == "0-1:24.2.1" then [Entry("gas:timestamp", Timestamp, 0), Entry("gas:in", Number, 1)]
    else if key == "1-0:1.8.1" then [Entry("energy:in:low", Number, 0)]
    else if key == "1-0:1.8.2" then [Entry("energy:in:high", Number, 0)]
    else if key == "1-0:2.8.1" then [Entry("energy:out:low", Number, 0)]
    else if key == "1-0:2.8.2" then [Entry("energy:out:high", Number, 0)]
    else if key == "1-0:1.7.0" then [Entry("power:in", Number, 0)]
    else if key == "1-0:21.7.0" then [Entry("power:in:phase-1", Number, 0)]
    else if key == "1-0:41.7.0" then [Entry("power:in:phase-2", Number, 0)]
    else if key == "1-0:61.7.0" then [Entry("power:in:phase-3", Number, 0)]
    else if key == "1-0:2.7.0" then [Entry("power:out", Number, 0)]
    else if key == "1-0:22.7.0" then [Entry("power:out:phase-1", Number, 0)]
    else if key == "1-0:42.7.0" then [Entry("power:out:phase-2", Number, 0)]
    else if key == "1-0:62.7.0" then [Entry("power:out:phase-3", Number, 0)]
    else if key == "1-0:31.7.0" then [Entry("current:phase-1", Number, 0)]
    else if key == "1-0:51.7.0" then [Entry("current:phase-2", Number, 0)]
    else if key == "1-0:71.7.0" then [Entry("current:phase-3", Number, 0)]
    else if key == "1-0:32.7.0" then [Entry("voltage:phase-1", Number, 0)]
    else if key == "1-0:52.7.0" then [Entry("voltage:phase-2", Number, 0)]
    else if key == "1-0:72.7.0" then [Entry("voltage:phase-3", Number, 0)]
    else if key == "0-0:96.14.0" then [Entry("tariff", Number, 0)]
    else []
  }

  // The computed names, one identifier at a time.  Energy readings take the
  // tariff from the last character of the identifier, `1` being the low one;
  // power per phase halves the code digit (21 and 22 are phase 1, 41 and 42
  // phase 2, 61 and 62 phase 3); current and voltage per phase take one off
  // the digit first (31 and 32 are phase 1, 51 and 52 phase 2, 71 and 72 phase 3).

  lemma EnergyInLow()
    ensures Fields("1-0:1.8.1") == [Entry("energy:in:low", Number, 0)]
  {
    assert "energy:in:" + Tariff("1-0:1.8.1") == "energy:in:low";
  }

  lemma EnergyInHigh()
    ensures Fields("1-0:1.8.2") == [Entry("energy:in:high", Number, 0)]
  {
    assert "energy:in:" + Tariff("1-0:1.8.2") == "energy:in:high";
  }

  lemma EnergyOutLow()
    ensures Fields("1-0:2.8.1") == [Entry("energy:out:low", Number, 0)]
  {
    assert "energy:out:" + Tariff("1-0:2.8.1") == "energy:out:low";
  }

  lemma EnergyOutHigh()
    ensures Fields("1-0:2.8.2") == [Entry("energy:out:high", Number, 0)]
  {
    assert "energy:out:" + Tariff("1-0:2.8.2") == "energy:out:high";
  }

  lemma PowerIn1()
    ensures Fields("1-0:21.7.0") == [Entry("power:in:phase-1", Number, 0)]
  {
    assert "power:in:phase-" + NatText(Code("1-0:21.7.0") / 2) == "power:in:phase-1";
  }

  lemma PowerIn2()
    ensures Fields("1-0:41.7.0") == [Entry("power:in:phase-2", Number, 0)]
  {
    assert "power:in:phase-" + NatText(Code("1-0:41.7.0") / 2) == "power:in:phase-2";
  }

  lemma PowerIn3()
    ensures Fields("1-0:61.7.0") == [Entry("power:in:phase-3", Number, 0)]
  {
    assert "power:in:phase-" + NatText(Code("1-0:61.7.0") / 2) == "power:in:phase-3";
  }

  lemma PowerOut1()
    ensures Fields("1-0:22.7.0") == [Entry("power:out:phase-1", Number, 0)]
  {
    assert "power:out:phase-" + NatText(Code("1-0:22.7.0") / 2) == "power:out:phase-1";
  }

  lemma PowerOut2()
    ensures Fields("1-0:42.7.0") == [Entry("power:out:phase-2", Number, 0)]
  {
    assert "power:out:phase-" + NatText(Code("1-0:42.7.0") / 2) == "power:out:phase-2";
  }

  lemma PowerOut3()
    ensures Fields("1-0:62.7.0") == [Entry("power:out:phase-3", Number, 0)]
  {
    assert "power:out:phase-" + NatText(Code("1-0:62.7.0") / 2) == "power:out:phase-3";
  }

  lemma Current1()
    ensures Fields("1-0:31.7.0") == [Entry("current:phase-1", Number, 0)]
  {
    assert "current:phase-" + NatText((Code("1-0:31.7.0") - 1) / 2) == "current:phase-1";
  }

  lemma Current2()
    ensures Fields("1-0:51.7.0") == [Entry("current:phase-2", Number, 0)]
  {
    assert "current:phase-" + NatText((Code("1-0:51.7.0") - 1) / 2) == "current:phase-2";
  }

  lemma Current3()
    ensures Fields("1-0:71.7.0") == [Entry("current:phase-3", Number, 0)]
  {
    assert "current:phase-" + NatText((Code("1-0:71.7.0") - 1) / 2) == "current:phase-3";
  }

  lemma Voltage1()
    ensures Fields("1-0:32.7.0") == [Entry("voltage:phase-1", Number, 0)]
  {
    assert "voltage:phase-" + NatText((Code("1-0:32.7.0") - 1) / 2) == "voltage:phase-1";
  }

  lemma Voltage2()
    ensures Fields("1-0:52.7.0") == [Entry("voltage:phase-2", Number, 0)]
  {
    assert "voltage:phase-" + NatText((Code("1-0:52.7.0") - 1) / 2) == "voltage:phase-2";
  }

  lemma Voltage3()
    ensures Fields("1-0:72.7.0") == [Entry("voltage:phase-3", Number, 0)]
  {
    assert "voltage:phase-" + NatText((Code("1-0:72.7.0") - 1) / 2) == "voltage:phase-3";
  }

  /**
   * The switch, with its tariff taken from the last character and its phase
   * computed from the code digits, gives for every identifier exactly the
   * fields of the table written out by hand.
   */
  lemma FieldsAreReference(key: string)
    ensures Fields(key) == Reference(key)
  {
    if key == "1-0:1.8.1" {
      EnergyInLow();
    } else if key == "1-0:1.8.2" {
      EnergyInHigh();
    } else if key == "1-0:2.8.1" {
      EnergyOutLow();
    } else if key == "1-0:2.8.2" {
      EnergyOutHigh();
    } else if key == "1-0:21.7.0" {
      PowerIn1();
    } else if key == "1-0:41.7.0" {
      PowerIn2();
    } else if key == "1-0:61.7.0" {
      PowerIn3();
    } else if key == "1-0:22.7.0" {
      PowerOut1();
    } else if key == "1-0:42.7.0" {
      PowerOut2();
    } else if key == "1-0:62.7.0" {
      PowerOut3();
    } else if key == "1-0:31.7.0" {
      Current1();
    } else if key == "1-0:51.7.0" {
      Current2();
    } else if key == "1-0:71.7.0" {
      Current3();
    } else if key == "1-0:32.7.0" {
      Voltage1();
    } else if key == "1-0:52.7.0" {
      Voltage2();
    } else if key == "1-0:72.7.0" {
      Voltage3();
    }
  }

  /** The table lists exactly the identifiers of the switch. */
  lemma ReferenceKeys(key: string)
    ensures Reference(key) != [] <==> key in Keys
  {
  }

  /** Every identifier of the table reads its first field from group 0. */
  lemma FirstGroupZero(key: string)
    requires Reference(key) != []
    ensures Reference(key)[0].group == 0
  {
  }

  /** `extractKeyValue` gives `undefined` exactly for the identifiers the switch does not list. */
  lemma UnknownKey(key: string, values: Option<seq<string>>)
    ensures ExtractKeyValue(key, values) == Ok(None) <==> key !in Keys
  {
    FieldsAreReference(key);
    ReferenceKeys(key);
  }

  /** Without a group list nothing can be parsed. */
  lemma ApplyNone(entries: seq<Entry>)
    requires entries != []
    ensures Apply(entries, None) == Err(MissingValues)
  {
  }

  /** A known identifier whose row had no groups (`values` is `null`) throws. */
  lemma MissingValuesThrows(key: string)
    requires key in Keys
    ensures ExtractKeyValue(key, None) == Err(MissingValues)
  {
    FieldsAreReference(key);
    ReferenceKeys(key);
    ApplyNone(Fields(key));
  }

  /** The names of the fields of `entries`. */
  function Names(entries: seq<Entry>): set<string>
  {
    set e | e in entries :: e.name
  }

  lemma NamesCons(entries: seq<Entry>)
    requires entries != []
    ensures Names(entries) == {entries[0].name} + Names(entries[1..])
  {
    assert entries == [entries[0]] + entries[1..];
  }

  /** When every field parses, the object holds exactly the fields of the entries. */
  lemma {:induction false} ApplyNames(entries: seq<Entry>, values: Option<seq<string>>)
    requires Apply(entries, values).Ok?
    ensures Apply(entries, values).value.Keys == Names(entries)
  {
    if entries != [] {
      ApplyNames(entries[1..], values);
      NamesCons(entries);
    }
  }

  /** A recognised row yields a record with exactly the fields the table lists for it. */
  lemma ExtractNames(key: string, values: Option<seq<string>>)
    requires ExtractKeyValue(key, values).Ok? && ExtractKeyValue(key, values).value.Some?
    ensures ExtractKeyValue(key, values).value.value.Keys == Names(Reference(key))
  {
    FieldsAreReference(key);
    ApplyNames(Fields(key), values);
  }

  /** Two fields that both parse give an object with both, the later one winning a shared name. */
  lemma ApplyTwo(e0: Entry, e1: Entry, values: Option<seq<string>>)
    requires Parse(e0.parser, values, e0.group).Ok? && Parse(e1.parser, values, e1.group).Ok?
    ensures Apply([e0, e1], values)
         == Ok(map[e0.name := Parse(e0.parser, values, e0.group).value]
               + map[e1.name := Parse(e1.parser, values, e1.group).value])
  {
    var es := [e0, e1];
    var v1 := Parse(e1.parser, values, e1.group).value;
    assert es[1..] == [e1];
    assert es[1..][1..] == [];
    assert Apply(es[1..][1..], values) == Ok(map[]);
    assert map[e1.name := v1] + map[] == map[e1.name := v1];
    assert Apply(es[1..], values) == Ok(map[e1.name := v1]);
  }

  /** `0-1:24.2.1` yields both the gas timestamp, from group 0, and the gas reading, from group 1. */
  lemma GasReading(vs: seq<string>)
    requires |vs| >= 2 && ParseTimestamp(vs[0]).Ok? && ParseValue(vs[1]).Ok?
    ensures ExtractKeyValue("0-1:24.2.1", Some(vs))
         == Ok(Some(map["gas:timestamp" := ParseTimestamp(vs[0]).value, "gas:in" := ParseValue(vs[1]).value]))
  {
    var e0, e1 := Entry("gas:timestamp", Timestamp, 0), Entry("gas:in", Number, 1);
    assert Fields("0-1:24.2.1") == [e0, e1];
    ApplyTwo(e0, e1, Some(vs));
    var t, g := ParseTimestamp(vs[0]).value, ParseValue(vs[1]).value;
    assert map["gas:timestamp" := t] + map["gas:in" := g] == map["gas:timestamp" := t, "gas:in" := g];
  }

  /** The gas timestamp is read first: when it does not match, that throw wins over anything in group 1. */
  lemma GasTimestampFirst(vs: seq<string>)
    requires |vs| >= 1 && !IsDate(vs[0])
    ensures ExtractKeyValue("0-1:24.2.1", Some(vs)) == Err(NoMatch(vs[0]))
  {
  }

  /** When the first field's group does not parse, the object is not built and the throw is passed on. */
  lemma ApplyFirstFault(entries: seq<Entry>, values: Option<seq<string>>)
    requires entries != [] && Parse(entries[0].parser, values, entries[0].group).Err?
    ensures Apply(entries, values) == Err(Parse(entries[0].parser, values, entries[0].group).fault)
  {
  }

  /** A known identifier whose group 0 does not match its parser's regular expression throws. */
  lemma NoMatchThrows(key: string, vs: seq<string>)
    requires Reference(key) != [] && |vs| >= 1
    requires Reference(key)[0].parser == Number ==> MatchValue(vs[0]).None?
    requires Reference(key)[0].parser == Timestamp ==> !IsDate(vs[0])
    ensures ExtractKeyValue(key, Some(vs)) == Err(NoMatch(vs[0]))
  {
    FieldsAreReference(key);
    FirstGroupZero(key);
    ApplyFirstFault(Fields(key), Some(vs));
  }
}
