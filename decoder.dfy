/**
 * Decoding a validated telegram into one record: the rows between the two
 * header lines and the closing line, each row's OBIS identifier and `(...)`
 * groups, the table lookup of every row, and the left-to-right merge of the
 * records the known rows give.
 */
module Decoder {
  import opened Base
  import opened JsString
  import opened Values
  import opened Obis

  /** `telegram.split("\r\n").slice(2, -1)`: the pieces without the first two and the last. */
  function Rows(telegram: string): seq<string>
  {
    Slice(SplitCrlf(telegram), 2, -1)
  }

  /** `row.slice(0, row.indexOf("("))`: the identifier; a row without `(` loses its last character. */
  function RowId(row: string): string
  {
    Slice(row, 0, IndexOf(row, '('))
  }

  /** `row.slice(row.indexOf("("))`: the groups' text; a row without `(` keeps its last character. */
  function RowText(row: string): string
  {
    SliceFrom(row, IndexOf(row, '('))
  }

  /**
   * The matches of `/\(([^)]*)\)/g`, left to right: from the first `(` up to
   * the first `)` after it, then on from there.  A `(` with no `)` after it
   * ends the search.
   */
  function AllGroups(s: string): seq<string>
    decreases |s|
  {
    var i := IndexOf(s, '(');
    if i == -1 then []
    else
      var j := IndexOf(s[i + 1..], ')');
      if j == -1 then []
      else [s[i..i + j + 2]] + AllGroups(s[i + j + 2..])
  }

  /** `String.prototype.match` with a global pattern: `null` when nothing matches. */
  function Groups(s: string): Option<seq<string>>
  {
    var gs := AllGroups(s);
    if gs == [] then None else Some(gs)
  }

  /** The pair a row becomes before the table lookup: identifier and groups. */
  function RowGroups(row: string): Option<seq<string>>
  {
    Groups(RowText(row))
  }

  /** `extractKeyValue(...pair)` for one row. */
  function Lookup(row: string): Result<Option<Record>, Fault>
  {
    ExtractKeyValue(RowId(row), RowGroups(row))
  }

  /** `.map(extractKeyValue)`: the outcome of looking up each row, in row order. */
  function Results(rows: seq<string>): (rs: seq<Result<Option<Record>, Fault>>)
    ensures |rs| == |rows|
  {
    seq(|rows|, i requires 0 <= i < |rows| => Lookup(rows[i]))
  }

  /**
   * `.filter(Boolean)` after the `map`: the first row that throws ends the
   * decoding (the `map` stops there); otherwise the records of the known rows,
   * in order, the unknown rows' `undefined` being dropped.
   */
  function Collect(results: seq<Result<Option<Record>, Fault>>): Result<seq<Record>, Fault>
  {
    if results == [] then Ok([])
    else
      match results[0]
      case Err(e) => Err(e)
      case Ok(o) =>
        match Collect(results[1..])
        case Err(e) => Err(e)
        case Ok(rs) => Ok((if o.Some? then [o.value] else []) + rs)
  }

  /** The records of the known rows, or the first throw. */
  function Lookups(rows: seq<string>): Result<seq<Record>, Fault>
  {
    Collect(Results(rows))
  }

  /** `(a, b) => Object.assign({}, a, b)` folded left to right. */
  function Fold(records: seq<Record>): Record
    requires |records| >= 1
  {
    if |records| == 1 then records[0]
    else Fold(records[..|records| - 1]) + records[|records| - 1]
  }

  /** `reduce` without an initial value: no records is a throw. */
  function Merge(records: seq<Record>): Result<Record, Fault>
  {
    if records == [] then Err(EmptyReduce) else Ok(Fold(records))
  }

  /** A telegram's record. */
  function Decode(telegram: string): Result<Record, Fault>
  {
    match Lookups(Rows(telegram))
    case Err(e) => Err(e)
    case Ok(rs) => Merge(rs)
  }

  // ---------------------------------------------------------------- rows

  /** A telegram written as two header lines, its rows and a closing line gives back exactly its rows. */
  lemma RowsOfLines(h1: string, h2: string, rows: seq<string>, last: string)
    requires NoCrlf(h1) && NoCrlf(h2) && NoCrlf(last)
    requires forall k :: 0 <= k < |rows| ==> NoCrlf(rows[k])
    ensures Rows(JoinCrlf([h1, h2] + rows + [last])) == rows
  {
    var pieces := [h1, h2] + rows + [last];
    LinesNoCrlf(h1, h2, rows, last);
    SplitJoin(pieces);
    assert pieces[2..|pieces| - 1] == rows;
  }

  /**
   * Every text of at least three lines is its first two lines, its rows and
   * its last line joined with CR LF, none of which holds a CR LF: together with
   * `RowsOfLines` this describes `Rows` for every telegram.
   */
  lemma TelegramLines(telegram: string)
    requires |SplitCrlf(telegram)| >= 3
    ensures var p := SplitCrlf(telegram);
            && telegram == JoinCrlf([p[0], p[1]] + Rows(telegram) + [p[|p| - 1]])
            && NoCrlf(p[0]) && NoCrlf(p[1]) && NoCrlf(p[|p| - 1])
            && forall k :: 0 <= k < |Rows(telegram)| ==> NoCrlf(Rows(telegram)[k])
  {
    var p := SplitCrlf(telegram);
    JoinSplit(telegram);
    SplitPiecesNoCrlf(telegram);
    assert Rows(telegram) == p[2..|p| - 1];
    Bracketed(p);
    forall k | 0 <= k < |Rows(telegram)| ensures NoCrlf(Rows(telegram)[k]) {
      assert Rows(telegram)[k] == p[k + 2];
    }
  }

  /** A sequence of at least three elements is its first two, its middle and its last. */
  lemma Bracketed<T>(p: seq<T>)
    requires |p| >= 3
    ensures p == [p[0], p[1]] + p[2..|p| - 1] + [p[|p| - 1]]
  {
    assert p == p[..2] + p[2..|p| - 1] + p[|p| - 1..];
  }

  /** A text with fewer than three lines has no rows. */
  lemma ShortTelegram(telegram: string)
    requires |SplitCrlf(telegram)| <= 3
    ensures Rows(telegram) == []
  {
  }

  // ---------------------------------------------------------------- groups

  /** A group: `(`, text without `)`, `)`. */
  predicate IsGroup(g: string)
  {
    && |g| >= 2 && g[0] == '(' && g[|g| - 1] == ')'
    && forall k :: 1 <= k < |g| - 1 ==> g[k] != ')'
  }

  /** `(x)`. */
  function Wrap(x: string): (g: string)
    ensures |g| == |x| + 2
  {
    "(" + x + ")"
  }

  /** The groups of the values `xs`, written one after another. */
  function GroupsText(xs: seq<string>): string
  {
    if xs == [] then [] else Wrap(xs[0]) + GroupsText(xs[1..])
  }

  /** Each `xs[k]` wrapped in parentheses. */
  function Wrapped(xs: seq<string>): (gs: seq<string>)
    ensures |gs| == |xs|
  {
    if xs == [] then [] else [Wrap(xs[0])] + Wrapped(xs[1..])
  }

  /** True when no `)` occurs in `x`. */
  predicate NoClose(x: string)
  {
    forall k :: 0 <= k < |x| ==> x[k] != ')'
  }

  /** The first match: from the first `(` at `i` to the first `)` after it, `j + 1` further on. */
  lemma FirstGroup(s: string, i: int, j: int)
    requires i == IndexOf(s, '(') && i != -1
    requires j == IndexOf(s[i + 1..], ')') && j != -1
    ensures IsGroup(s[i..i + j + 2])
  {
    var t := s[i + 1..];
    IndexOfFirst(t, ')');
    var g := s[i..i + j + 2];
    assert g[0] == s[i];
    assert g[|g| - 1] == t[j];
    forall k | 1 <= k < |g| - 1 ensures g[k] != ')' {
      assert g[k] == t[k - 1];
    }
  }

  /** After the first match the search goes on from the end of it. */
  lemma AllGroupsStep(s: string, i: int, j: int)
    requires i == IndexOf(s, '(') && i != -1
    requires j == IndexOf(s[i + 1..], ')') && j != -1
    ensures AllGroups(s) == [s[i..i + j + 2]] + AllGroups(s[i + j + 2..])
  {
  }

  /** Every match is a group. */
  lemma {:induction false} AllGroupsAreGroups(s: string)
    ensures forall g :: g in AllGroups(s) ==> IsGroup(g)
    decreases |s|
  {
    var i := IndexOf(s, '(');
    if i != -1 {
      var j := IndexOf(s[i + 1..], ')');
      if j != -1 {
        FirstGroup(s, i, j);
        AllGroupsStep(s, i, j);
        AllGroupsAreGroups(s[i + j + 2..]);
      }
    }
  }

  /** Reading one group off the front of a text. */
  lemma GroupAhead(x: string, rest: string)
    requires NoClose(x)
    ensures AllGroups(Wrap(x) + rest) == [Wrap(x)] + AllGroups(rest)
  {
    var s := Wrap(x) + rest;
    assert s[0] == '(';
    var t := s[1..];
    assert t == x + (")" + rest);
    forall k | 0 <= k < |x| ensures t[k] != ')' {
      assert t[k] == x[k];
    }
    IndexOfIs(t, ')', |x|);
    assert s[0..|x| + 2] == Wrap(x);
    assert s[|x| + 2..] == rest;
  }

  /** Values without `)`, written as groups, are matched back one by one. */
  lemma {:induction false} GroupsRoundTrip(xs: seq<string>)
    requires forall k :: 0 <= k < |xs| ==> NoClose(xs[k])
    ensures AllGroups(GroupsText(xs)) == Wrapped(xs)
  {
    if xs != [] {
      GroupsRoundTrip(xs[1..]);
      GroupAhead(xs[0], GroupsText(xs[1..]));
    }
  }

  /** The text of a non-empty list of groups starts with `(`. */
  lemma GroupsTextStart(xs: seq<string>)
    requires xs != []
    ensures |GroupsText(xs)| >= 2 && GroupsText(xs)[0] == '('
  {
  }

  /**
   * A row written as an identifier without `(` followed by at least one group
   * splits back into that identifier and those groups.
   */
  lemma RowRoundTrip(id: string, xs: seq<string>)
    requires forall k :: 0 <= k < |id| ==> id[k] != '('
    requires xs != [] && forall k :: 0 <= k < |xs| ==> NoClose(xs[k])
    ensures RowId(id + GroupsText(xs)) == id
    ensures RowGroups(id + GroupsText(xs)) == Some(Wrapped(xs))
  {
    var row := id + GroupsText(xs);
    GroupsTextStart(xs);
    assert row[|id|] == '(';
    IndexOfIs(row, '(', |id|);
    assert row[..|id|] == id;
    assert row[|id|..] == GroupsText(xs);
    GroupsRoundTrip(xs);
  }

  /**
   * A row without `(`: the identifier is the row less its last character and
   * there are no groups (`match` on a single character finds nothing).
   */
  lemma RowWithoutParen(row: string)
    requires IndexOf(row, '(') == -1
    ensures |row| >= 1 ==> RowId(row) == row[..|row| - 1]
    ensures |row| == 0 ==> RowId(row) == []
    ensures RowGroups(row) == None
  {
    var t := RowText(row);
    assert t == SliceFrom(row, -1);
    OneCharNoGroups(t);
  }

  /** A text of at most one character holds no group. */
  lemma OneCharNoGroups(t: string)
    requires |t| <= 1
    ensures AllGroups(t) == []
  {
    var i := IndexOf(t, '(');
    if i != -1 {
      assert t[i + 1..] == [];
      assert IndexOf(t[i + 1..], ')') == -1;
    }
  }

  // ---------------------------------------------------------------- lookups

  /** The lookups of two runs of rows are the lookups of the first, then those of the second. */
  lemma ResultsAppend(a: seq<string>, b: seq<string>)
    ensures Results(a + b) == Results(a) + Results(b)
  {
  }

  /** Collecting two runs of outcomes: the first throw wins, else the records follow each other. */
  lemma {:induction false} CollectAppend(a: seq<Result<Option<Record>, Fault>>, b: seq<Result<Option<Record>, Fault>>)
    ensures Collect(a).Err? ==> Collect(a + b) == Collect(a)
    ensures Collect(a).Ok? && Collect(b).Err? ==> Collect(a + b) == Collect(b)
    ensures Collect(a).Ok? && Collect(b).Ok? ==> Collect(a + b) == Ok(Collect(a).value + Collect(b).value)
  {
    if a == [] {
      assert a + b == b;
      if Collect(b).Ok? {
        assert [] + Collect(b).value == Collect(b).value;
      }
    } else {
      assert (a + b)[0] == a[0];
      assert (a + b)[1..] == a[1..] + b;
      CollectAppend(a[1..], b);
      if Collect(a).Ok? && Collect(b).Ok? {
        var o := a[0].value;
        var h := if o.Some? then [o.value] else [];
        ConcatAssoc(h, Collect(a[1..]).value, Collect(b).value);
      }
    }
  }

  /** Looking up two runs of rows one after the other: the first throw wins, else the records follow each other. */
  lemma LookupsAppend(a: seq<string>, b: seq<string>)
    ensures Lookups(a).Err? ==> Lookups(a + b) == Lookups(a)
    ensures Lookups(a).Ok? && Lookups(b).Err? ==> Lookups(a + b) == Lookups(b)
    ensures Lookups(a).Ok? && Lookups(b).Ok? ==> Lookups(a + b) == Ok(Lookups(a).value + Lookups(b).value)
  {
    ResultsAppend(a, b);
    CollectAppend(Results(a), Results(b));
  }

  /** One outcome alone: its record when known, nothing when not, its throw when it throws. */
  lemma CollectOne(r: Result<Option<Record>, Fault>)
    ensures Collect([r]) == match r
                            case Err(e) => Err(e)
                            case Ok(o) => Ok(if o.Some? then [o.value] else [])
  {
    assert [r][1..] == [];
    if r.Ok? {
      var o := r.value;
      assert (if o.Some? then [o.value] else []) + [] == (if o.Some? then [o.value] else []);
    }
  }

  /** A row the table does not know can be inserted anywhere without changing the result. */
  lemma UnknownRowIgnored(pre: seq<string>, row: string, post: seq<string>)
    requires RowId(row) !in Keys
    ensures Lookups(pre + [row] + post) == Lookups(pre + post)
  {
    UnknownKey(RowId(row), RowGroups(row));
    assert Results([row]) == [Lookup(row)];
    CollectOne(Lookup(row));
    LookupsAppend(pre, [row]);
    LookupsAppend(pre + [row], post);
    LookupsAppend(pre, post);
    if Lookups(pre).Ok? {
      assert Lookups(pre).value + [] == Lookups(pre).value;
    }
  }

  /** The first row that throws decides the outcome, whatever the rows after it hold. */
  lemma FirstFaultWins(pre: seq<string>, row: string, post: seq<string>)
    requires Lookups(pre).Ok? && Lookup(row).Err?
    ensures Lookups(pre + [row] + post) == Err(Lookup(row).fault)
  {
    assert Results([row]) == [Lookup(row)];
    CollectOne(Lookup(row));
    LookupsAppend(pre, [row]);
    LookupsAppend(pre + [row], post);
  }

  /** Outcomes that are all `undefined` give no records. */
  lemma {:induction false} CollectNone(results: seq<Result<Option<Record>, Fault>>)
    requires forall k :: 0 <= k < |results| ==> results[k] == Ok(None)
    ensures Collect(results) == Ok([])
  {
    if results != [] {
      var rest := results[1..];
      assert forall k :: 0 <= k < |rest| ==> rest[k] == results[k + 1];
      CollectNone(rest);
      var none: seq<Record> := [];
      assert none + none == none;
    }
  }

  /** Rows the table does not know give no records, so a telegram of them only does not decode. */
  lemma NoKnownRows(rows: seq<string>)
    requires forall k :: 0 <= k < |rows| ==> RowId(rows[k]) !in Keys
    ensures Lookups(rows) == Ok([])
  {
    forall k | 0 <= k < |rows| ensures Results(rows)[k] == Ok(None) {
      UnknownKey(RowId(rows[k]), RowGroups(rows[k]));
    }
    CollectNone(Results(rows));
  }

  // ---------------------------------------------------------------- merge

  /** The index of the last record holding `k`, or -1 when none does. */
  function LastHolder(records: seq<Record>, k: string): (r: int)
    ensures -1 <= r < |records|
    ensures r != -1 ==> k in records[r]
  {
    if records == [] then -1
    else if k in records[|records| - 1] then |records| - 1
    else LastHolder(records[..|records| - 1], k)
  }

  /** No record after the last holder holds `k`; with -1, no record at all. */
  lemma {:induction false} LastHolderIsLast(records: seq<Record>, k: string)
    ensures forall i :: LastHolder(records, k) < i < |records| ==> k !in records[i]
  {
    if records != [] && k !in records[|records| - 1] {
      var init := records[..|records| - 1];
      LastHolderIsLast(init, k);
      forall i | LastHolder(records, k) < i < |records| ensures k !in records[i] {
        if i < |records| - 1 {
          assert records[i] == init[i];
        }
      }
    }
  }

  /**
   * Last write wins: the merged record holds a field exactly when some record
   * does, with the value of the last record that holds it.
   */
  lemma {:induction false} FoldLastWins(records: seq<Record>, k: string)
    requires |records| >= 1
    ensures k in Fold(records) <==> LastHolder(records, k) != -1
    ensures k in Fold(records) ==> Fold(records)[k] == records[LastHolder(records, k)][k]
  {
    if |records| > 1 {
      var init := records[..|records| - 1];
      FoldLastWins(init, k);
      if k !in records[|records| - 1] {
        assert LastHolder(records, k) == LastHolder(init, k);
        if LastHolder(init, k) != -1 {
          assert records[LastHolder(init, k)] == init[LastHolder(init, k)];
        }
      }
    }
  }

  /** Merging two runs of records is merging their merges. */
  lemma {:induction false} FoldAppend(a: seq<Record>, b: seq<Record>)
    requires |a| >= 1 && |b| >= 1
    ensures Fold(a + b) == Fold(a) + Fold(b)
    decreases |b|
  {
    if |b| == 1 {
      assert (a + b)[..|a + b| - 1] == a;
    } else {
      var init := b[..|b| - 1];
      assert (a + b)[..|a + b| - 1] == a + init;
      FoldAppend(a, init);
    }
  }

  /** Fields that are all overwritten later have no effect. */
  lemma Overwritten(x: Record, m: Record, y: Record)
    requires m.Keys <= y.Keys
    ensures x + m + y == x + y
  {
  }

  /** A record whose fields are all overwritten later has no effect on the merge. */
  lemma ShadowedRecord(a: seq<Record>, m: Record, b: seq<Record>)
    requires |a| >= 1 && |b| >= 1
    requires m.Keys <= Fold(b).Keys
    ensures Fold(a + [m] + b) == Fold(a + b)
  {
    FoldAppend(a, [m]);
    FoldAppend(a + [m], b);
    FoldAppend(a, b);
    Overwritten(Fold(a), m, Fold(b));
  }

  // ---------------------------------------------------------------- decode

  /** A telegram decodes to the merge of the records of its known rows, or to the first row's throw. */
  lemma DecodeLines(h1: string, h2: string, rows: seq<string>, last: string)
    requires NoCrlf(h1) && NoCrlf(h2) && NoCrlf(last)
    requires forall k :: 0 <= k < |rows| ==> NoCrlf(rows[k])
    ensures Lookups(rows).Err? ==> Decode(JoinCrlf([h1, h2] + rows + [last])) == Err(Lookups(rows).fault)
    ensures Lookups(rows) == Ok([]) ==> Decode(JoinCrlf([h1, h2] + rows + [last])) == Err(EmptyReduce)
    ensures Lookups(rows).Ok? && Lookups(rows).value != []
            ==> Decode(JoinCrlf([h1, h2] + rows + [last])) == Ok(Fold(Lookups(rows).value))
  {
    RowsOfLines(h1, h2, rows, last);
  }
}
