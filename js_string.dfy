/**
 * The JavaScript string built-ins the pipeline relies on, with their exact
 * edge-case behaviour: `indexOf` answering -1, `slice` with negative or
 * out-of-range indices, and `split` on the CR LF line separator.
 */
module JsString {
  import opened Base

  /** `s.indexOf(c)`: the first index of `c` in `s`, or -1 when there is none. */
  function IndexOf(s: string, c: char): (r: int)
    ensures r == -1 || (0 <= r < |s| && s[r] == c)
  {
    if |s| == 0 then -1
    else if s[0] == c then 0
    else
      var k := IndexOf(s[1..], c);
      if k == -1 then -1 else k + 1
  }

  /** No occurrence precedes the first index; none at all when it is -1. */
  lemma {:induction false} IndexOfFirst(s: string, c: char)
    ensures IndexOf(s, c) == -1 ==> forall j :: 0 <= j < |s| ==> s[j] != c
    ensures IndexOf(s, c) != -1 ==> forall j :: 0 <= j < IndexOf(s, c) ==> s[j] != c
  {
    if |s| > 0 && s[0] != c {
      IndexOfFirst(s[1..], c);
    }
  }

  /** An occurrence at `i` bounds the first index from above. */
  lemma {:induction false} IndexOfAtMost(s: string, c: char, i: nat)
    requires i < |s| && s[i] == c
    ensures 0 <= IndexOf(s, c) <= i
  {
    if s[0] != c { IndexOfAtMost(s[1..], c, i - 1); }
  }

  /** An occurrence with none before it is the first one. */
  lemma {:induction false} IndexOfIs(s: string, c: char, i: nat)
    requires i < |s| && s[i] == c
    requires forall j :: 0 <= j < i ==> s[j] != c
    ensures IndexOf(s, c) == i
  {
    if i > 0 { IndexOfIs(s[1..], c, i - 1); }
  }

  /** Text appended after a found character does not move its first index. */
  lemma {:induction false} IndexOfAppend(s: string, t: string, c: char)
    requires IndexOf(s, c) != -1
    ensures IndexOf(s + t, c) == IndexOf(s, c)
  {
    if s[0] != c {
      assert (s + t)[1..] == s[1..] + t;
      IndexOfAppend(s[1..], t, c);
    }
  }

  /** How `slice` turns a possibly negative index into a position in a string of length `n`. */
  function Position(i: int, n: nat): (p: nat)
    ensures p <= n
    ensures 0 <= i <= n ==> p == i
  {
    if i < 0 then (if n + i < 0 then 0 else n + i)
    else if i > n then n
    else i
  }

  /** `s.slice(start, end)` on a string or an array, negative indices counting from the end. */
  function Slice<T>(s: seq<T>, start: int, end: int): (r: seq<T>)
    ensures |r| <= |s|
    ensures 0 <= start <= end <= |s| ==> r == s[start..end]
    ensures 0 <= end <= start ==> r == []
  {
    var b := Position(start, |s|);
    var e := Position(end, |s|);
    if e <= b then [] else s[b..e]
  }

  /** `s.slice(start)`: everything from `start` on; empty once `start` passes the end. */
  function SliceFrom<T>(s: seq<T>, start: int): (r: seq<T>)
    ensures 0 <= start <= |s| ==> r == s[start..]
    ensures start >= |s| ==> r == []
  {
    Slice(s, start, |s|)
  }

  /** True when `p` holds no CR immediately followed by LF. */
  predicate NoCrlf(p: string)
  {
    forall i :: 0 <= i < |p| - 1 ==> !(p[i] == '\r' && p[i + 1] == '\n')
  }

  /** `s.split("\r\n")`: the pieces between the separators, left to right. */
  function SplitCrlf(s: string): (pieces: seq<string>)
    ensures |pieces| >= 1
  {
    if |s| == 0 then [[]]
    else if |s| >= 2 && s[0] == '\r' && s[1] == '\n' then [[]] + SplitCrlf(s[2..])
    else
      var t := SplitCrlf(s[1..]);
      [[s[0]] + t[0]] + t[1..]
  }

  /** `pieces.join("\r\n")`. */
  function JoinCrlf(pieces: seq<string>): string
    requires |pieces| >= 1
  {
    if |pieces| == 1 then pieces[0] else pieces[0] + "\r\n" + JoinCrlf(pieces[1..])
  }

  /** Splitting and joining again gives back the text. */
  lemma {:induction false} JoinSplit(s: string)
    ensures JoinCrlf(SplitCrlf(s)) == s
  {
    if |s| == 0 {
    } else if |s| >= 2 && s[0] == '\r' && s[1] == '\n' {
      var t := SplitCrlf(s[2..]);
      JoinSplit(s[2..]);
      JoinEmptyHead(t);
      assert s == "\r\n" + s[2..];
    } else {
      var t := SplitCrlf(s[1..]);
      JoinSplit(s[1..]);
      JoinConsHead(s[0], t);
      assert s == [s[0]] + s[1..];
    }
  }

  lemma JoinEmptyHead(t: seq<string>)
    requires |t| >= 1
    ensures JoinCrlf([[]] + t) == "\r\n" + JoinCrlf(t)
  {
    var u := [[]] + t;
    assert u[0] == [] && u[1..] == t;
  }

  /** A character put before the first piece comes first in the joined text. */
  lemma JoinConsHead(c: char, t: seq<string>)
    requires |t| >= 1
    ensures JoinCrlf([[c] + t[0]] + t[1..]) == [c] + JoinCrlf(t)
  {
    var u := [[c] + t[0]] + t[1..];
    assert u[0] == [c] + t[0];
    if |t| > 1 {
      assert u[1..] == t[1..];
      var j := JoinCrlf(t[1..]);
      assert JoinCrlf(u) == ([c] + t[0]) + "\r\n" + j;
      assert JoinCrlf(t) == t[0] + "\r\n" + j;
      ConcatAssoc([c] + t[0], "\r\n", j);
      ConcatAssoc([c], t[0], "\r\n" + j);
      ConcatAssoc(t[0], "\r\n", j);
    }
  }

  /** Two lines, some more lines and a last line, none holding the separator. */
  lemma LinesNoCrlf(h1: string, h2: string, rows: seq<string>, last: string)
    requires NoCrlf(h1) && NoCrlf(h2) && NoCrlf(last)
    requires forall k :: 0 <= k < |rows| ==> NoCrlf(rows[k])
    ensures forall k :: 0 <= k < |[h1, h2] + rows + [last]| ==> NoCrlf(([h1, h2] + rows + [last])[k])
  {
    var pieces := [h1, h2] + rows + [last];
    forall k | 0 <= k < |pieces| ensures NoCrlf(pieces[k]) {
      if k == 0 {
        assert pieces[k] == h1;
      } else if k == 1 {
        assert pieces[k] == h2;
      } else if k == |pieces| - 1 {
        assert pieces[k] == last;
      } else {
        assert pieces[k] == rows[k - 2];
      }
    }
  }

  /** No piece that `split` returns contains the separator. */
  lemma {:induction false} SplitPiecesNoCrlf(s: string)
    ensures forall k :: 0 <= k < |SplitCrlf(s)| ==> NoCrlf(SplitCrlf(s)[k])
  {
    if |s| == 0 {
    } else if |s| >= 2 && s[0] == '\r' && s[1] == '\n' {
      SplitPiecesNoCrlf(s[2..]);
      var t := SplitCrlf(s[2..]);
      assert SplitCrlf(s) == [[]] + t;
      forall k | 0 <= k < |SplitCrlf(s)| ensures NoCrlf(SplitCrlf(s)[k]) {
        if k > 0 { assert SplitCrlf(s)[k] == t[k - 1]; }
      }
    } else {
      SplitPiecesNoCrlf(s[1..]);
      var t := SplitCrlf(s[1..]);
      var p := [s[0]] + t[0];
      assert NoCrlf(t[0]);
      assert NoCrlf(p) by {
        forall i | 0 <= i < |p| - 1 ensures !(p[i] == '\r' && p[i + 1] == '\n') {
          if i == 0 {
            if |t[0]| > 0 && s[0] == '\r' { SplitHead(s[1..]); }
          } else {
            assert p[i] == t[0][i - 1] && p[i + 1] == t[0][i];
          }
        }
      }
      forall k | 0 <= k < |SplitCrlf(s)| ensures NoCrlf(SplitCrlf(s)[k]) {
        if k > 0 { assert SplitCrlf(s)[k] == t[k]; }
      }
    }
  }

  /** A non-empty first piece begins with the first character of the text. */
  lemma {:induction false} SplitHead(s: string)
    requires |SplitCrlf(s)[0]| > 0
    ensures |s| > 0 && SplitCrlf(s)[0][0] == s[0]
  {
  }

  /** A piece without the separator, followed by the separator, comes back whole. */
  lemma {:induction false} SplitAfterPiece(p: string, rest: string)
    requires NoCrlf(p)
    ensures SplitCrlf(p + "\r\n" + rest) == [p] + SplitCrlf(rest)
  {
    var s := p + "\r\n" + rest;
    if |p| == 0 {
      assert s[2..] == rest;
    } else {
      var q := p[1..];
      assert NoCrlf(q) by {
        forall i | 0 <= i < |q| - 1 ensures !(q[i] == '\r' && q[i + 1] == '\n') {
          assert q[i] == p[i + 1] && q[i + 1] == p[i + 2];
        }
      }
      assert s[1] == (if |q| > 0 then q[0] else '\r');
      assert !(s[0] == '\r' && s[1] == '\n') by {
        if |q| > 0 { assert p[0] == s[0] && p[1] == q[0]; }
      }
      assert s[1..] == q + "\r\n" + rest;
      SplitAfterPiece(q, rest);
      assert [s[0]] + q == p;
    }
  }

  /** A text without the separator splits into itself alone. */
  lemma {:induction false} SplitSingle(p: string)
    requires NoCrlf(p)
    ensures SplitCrlf(p) == [p]
  {
    if |p| > 0 {
      var q := p[1..];
      assert NoCrlf(q) by {
        forall i | 0 <= i < |q| - 1 ensures !(q[i] == '\r' && q[i + 1] == '\n') {
          assert q[i] == p[i + 1] && q[i + 1] == p[i + 2];
        }
      }
      SplitSingle(q);
      assert [p[0]] + q == p;
    }
  }

  /** Joining separator-free pieces and splitting again gives back the pieces. */
  lemma {:induction false} SplitJoin(pieces: seq<string>)
    requires |pieces| >= 1
    requires forall k :: 0 <= k < |pieces| ==> NoCrlf(pieces[k])
    ensures SplitCrlf(JoinCrlf(pieces)) == pieces
  {
    if |pieces| == 1 {
      SplitSingle(pieces[0]);
    } else {
      SplitJoin(pieces[1..]);
      SplitAfterPiece(pieces[0], JoinCrlf(pieces[1..]));
    }
  }

  predicate IsDigit(c: char)
  {
    '0' <= c <= '9'
  }

  predicate AllDigits(s: string)
  {
    forall i :: 0 <= i < |s| ==> IsDigit(s[i])
  }

  /** The number a string of decimal digits denotes, most significant digit first. */
  function DigitsValue(s: string): nat
    requires AllDigits(s)
  {
    if |s| == 0 then 0
    else DigitsValue(s[..|s| - 1]) * 10 + (s[|s| - 1] as int - '0' as int)
  }

  lemma AllDigitsAppend(a: string, b: string)
    requires AllDigits(a) && AllDigits(b)
    ensures AllDigits(a + b)
  {
    forall i | 0 <= i < |a + b| ensures IsDigit((a + b)[i]) {
      if i >= |a| { assert (a + b)[i] == b[i - |a|]; }
    }
  }

  /** The digits of `a + b` denote `a` shifted left by `|b|` places plus `b`. */
  lemma {:induction false} DigitsValueAppend(a: string, b: string)
    requires AllDigits(a) && AllDigits(b)
    ensures AllDigits(a + b)
    ensures DigitsValue(a + b) == DigitsValue(a) * Pow10(|b|) + DigitsValue(b)
  {
    AllDigitsAppend(a, b);
    if |b| > 0 {
      var b' := b[..|b| - 1];
      assert (a + b)[..|a + b| - 1] == a + b';
      DigitsValueAppend(a, b');
      var d := b[|b| - 1] as int - '0' as int;
      assert DigitsValue(a + b) == DigitsValue(a + b') * 10 + d;
      assert DigitsValue(b) == DigitsValue(b') * 10 + d;
      Regroup(DigitsValue(a), Pow10(|b'|), DigitsValue(b'), d);
    } else {
      assert a + b == a;
    }
  }

  lemma Regroup(x: int, p: int, y: int, d: int)
    ensures (x * p + y) * 10 + d == x * (p * 10) + (y * 10 + d)
  {
  }

  /** A string of `k` digits denotes a number below 10^k. */
  lemma {:induction false} DigitsValueBound(s: string)
    requires AllDigits(s)
    ensures DigitsValue(s) < Pow10(|s|)
  {
    if |s| > 0 { DigitsValueBound(s[..|s| - 1]); }
  }

  /** The decimal text of a natural number, as JavaScript prints it. */
  function NatText(n: nat): (t: string)
    ensures |t| >= 1 && AllDigits(t) && DigitsValue(t) == n
    decreases n
  {
    var d := ['0' + (n % 10) as char];
    if n < 10 then d
    else
      var t := NatText(n / 10) + d;
      assert t[..|t| - 1] == NatText(n / 10);
      t
  }
}
