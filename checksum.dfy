/**
 * The checksum filter of the pipeline: a frame `(telegram, checksum)` passes
 * when the CRC-16 of the telegram text equals `parseInt(checksum, 16)`, and
 * only the telegram text of a passing frame goes on. The CRC itself is computed
 * by a library outside this model, so it is a parameter `crc` here.
 *
 * `ParseIntHex` follows `parseInt(string, 16)` of the ECMAScript standard
 * (section 19.2.5 of ECMA-262): skip leading white space and line terminators,
 * take an optional sign, drop a `0x` / `0X` prefix, read the longest run of
 * hexadecimal digits, and answer NaN when that run is empty.
 */
module Checksum {
  import opened Base
  import opened JsString
  import opened Framing

  /** A JavaScript number as `parseInt` can return it: NaN or an integer (`-0` reads as 0). */
  datatype Parsed = NaN | Number(n: int)

  /** The white space and line terminators that `parseInt` skips at the start. */
  predicate IsJsSpace(c: char)
  {
    || c == '\t' || c == '\U{0B}' || c == '\U{0C}' || c == ' ' || c == '\U{A0}' || c == '\U{FEFF}'
    || c == '\U{1680}' || ('\U{2000}' <= c <= '\U{200A}') || c == '\U{202F}' || c == '\U{205F}' || c == '\U{3000}'
    || c == '\n' || c == '\r' || c == '\U{2028}' || c == '\U{2029}'
  }

  predicate IsHexDigit(c: char)
  {
    ('0' <= c <= '9') || ('a' <= c <= 'f') || ('A' <= c <= 'F')
  }

  predicate AllHex(s: string)
  {
    forall i :: 0 <= i < |s| ==> IsHexDigit(s[i])
  }

  function HexDigitValue(c: char): (d: nat)
    requires IsHexDigit(c)
    ensures d < 16
  {
    if '0' <= c <= '9' then c as int - '0' as int
    else if 'a' <= c <= 'f' then c as int - 'a' as int + 10
    else c as int - 'A' as int + 10
  }

  /** The number a run of hexadecimal digits denotes, most significant digit first. */
  function HexValue(s: string): nat
    requires AllHex(s)
  {
    if |s| == 0 then 0
    else HexValue(s[..|s| - 1]) * 16 + HexDigitValue(s[|s| - 1])
  }

  /** The text with its leading white space and line terminators removed. */
  function TrimStart(s: string): (t: string)
    ensures |t| <= |s|
  {
    if |s| > 0 && IsJsSpace(s[0]) then TrimStart(s[1..]) else s
  }

  /** `TrimStart` removes exactly the leading run of white space. */
  lemma {:induction false} TrimStartSpec(s: string)
    ensures var t := TrimStart(s);
            && t == s[|s| - |t|..]
            && (|t| == 0 || !IsJsSpace(t[0]))
            && forall i :: 0 <= i < |s| - |t| ==> IsJsSpace(s[i])
  {
    if |s| > 0 && IsJsSpace(s[0]) {
      TrimStartSpec(s[1..]);
      var t := TrimStart(s);
      forall i | 0 <= i < |s| - |t| ensures IsJsSpace(s[i]) {
        if i > 0 { assert s[i] == s[1..][i - 1]; }
      }
    }
  }

  /** The longest prefix made of hexadecimal digits. */
  function HexPrefix(s: string): (z: string)
    ensures |z| <= |s| && AllHex(z)
  {
    if |s| > 0 && IsHexDigit(s[0]) then
      var y := HexPrefix(s[1..]);
      assert forall i :: 1 <= i <= |y| ==> ([s[0]] + y)[i] == y[i - 1];
      [s[0]] + y
    else []
  }

  /** `HexPrefix` is the longest prefix of hexadecimal digits. */
  lemma {:induction false} HexPrefixSpec(s: string)
    ensures var z := HexPrefix(s);
            && z == s[..|z|]
            && (|z| == |s| || !IsHexDigit(s[|z|]))
  {
    if |s| > 0 && IsHexDigit(s[0]) {
      HexPrefixSpec(s[1..]);
      var z := HexPrefix(s);
      var y := HexPrefix(s[1..]);
      assert z == [s[0]] + y;
      assert s == [s[0]] + s[1..];
    }
  }

  /** What follows an optional sign and an optional `0x` / `0X` prefix. */
  function Unprefixed(t: string): (v: string)
    ensures |v| <= |t|
  {
    var u := if |t| > 0 && (t[0] == '-' || t[0] == '+') then t[1..] else t;
    if |u| >= 2 && u[0] == '0' && (u[1] == 'x' || u[1] == 'X') then u[2..] else u
  }

  /** `parseInt(s, 16)`. */
  function ParseIntHex(s: string): (p: Parsed)
  {
    var t := TrimStart(s);
    var z := HexPrefix(Unprefixed(t));
    if |z| == 0 then NaN
    else if |t| > 0 && t[0] == '-' then Number(-(HexValue(z) as int))
    else Number(HexValue(z))
  }

  /** `parseInt` once the white space, the sign and the prefix have been taken off. */
  lemma ParseParts(s: string, t: string, z: string)
    requires t == TrimStart(s) && z == HexPrefix(Unprefixed(t)) && |z| > 0
    ensures ParseIntHex(s) == Number(if |t| > 0 && t[0] == '-' then -(HexValue(z) as int) else HexValue(z))
  {
  }

  /** A text that starts with a hexadecimal digit is read from its first character on. */
  lemma StartsWithHex(s: string)
    requires |s| >= 1 && IsHexDigit(s[0])
    requires |s| >= 2 && s[0] == '0' ==> s[1] != 'x' && s[1] != 'X'
    ensures TrimStart(s) == s && Unprefixed(s) == s
  {
    assert !IsJsSpace(s[0]);
  }

  /** A checksum made of hexadecimal digits only reads as the number they denote. */
  lemma ParseHexDigits(s: string)
    requires |s| >= 1 && AllHex(s)
    ensures ParseIntHex(s) == Number(HexValue(s))
  {
    StartsWithHex(s);
    HexPrefixAll(s);
  }

  lemma {:induction false} HexPrefixAll(s: string)
    requires AllHex(s)
    ensures HexPrefix(s) == s
  {
    if |s| > 0 {
      HexPrefixAll(s[1..]);
      assert [s[0]] + s[1..] == s;
    }
  }

  /** A checksum that starts with anything but space, a sign or a hexadecimal digit reads as NaN. */
  lemma ParseNaN(s: string)
    requires |s| >= 1 && !IsJsSpace(s[0]) && !IsHexDigit(s[0]) && s[0] != '-' && s[0] != '+'
    ensures ParseIntHex(s) == NaN
  {
    assert TrimStart(s) == s && Unprefixed(s) == s;
  }

  /**
   * `parseInt` reads only the leading digits: anything after the first non-digit
   * is ignored, unless a lone `0` and an `x` form the prefix it skips.
   */
  lemma ParseStopsAtNonHex(z: string, tail: string)
    requires |z| >= 1 && AllHex(z)
    requires |tail| >= 1 && !IsHexDigit(tail[0])
    requires !(z == "0" && (tail[0] == 'x' || tail[0] == 'X'))
    ensures ParseIntHex(z + tail) == Number(HexValue(z))
  {
    var s := z + tail;
    assert s[0] == z[0];
    assert s[1] == if |z| >= 2 then z[1] else tail[0];
    StartsWithHex(s);
    HexPrefixStops(z, tail);
  }

  lemma {:induction false} HexPrefixStops(z: string, tail: string)
    requires AllHex(z)
    requires |tail| >= 1 && !IsHexDigit(tail[0])
    ensures HexPrefix(z + tail) == z
  {
    if |z| == 0 {
      assert (z + tail)[0] == tail[0];
    } else {
      HexPrefixStops(z[1..], tail);
      assert (z + tail)[1..] == z[1..] + tail;
      assert [z[0]] + z[1..] == z;
    }
  }

  /** Leading white space does not change what `parseInt` reads. */
  lemma ParseSkipsSpace(c: char, s: string)
    requires IsJsSpace(c)
    ensures ParseIntHex([c] + s) == ParseIntHex(s)
  {
    assert ([c] + s)[1..] == s;
  }

  /** A sign and a `0x` prefix are accepted in front of the digits: `-0x1f` reads as -31. */
  lemma ParseSignedPrefixed(s: string)
    requires |s| >= 4 && (s[0] == '-' || s[0] == '+') && s[1] == '0' && (s[2] == 'x' || s[2] == 'X')
    requires AllHex(s[3..])
    ensures ParseIntHex(s) == Number(if s[0] == '-' then -(HexValue(s[3..]) as int) else HexValue(s[3..]))
  {
    assert !IsJsSpace(s[0]);
    assert TrimStart(s) == s;
    assert s[1..][2..] == s[3..];
    assert Unprefixed(s) == s[3..];
    HexPrefixAll(s[3..]);
    ParseParts(s, s, s[3..]);
  }

  /** The upper-case hexadecimal digit for `d`. */
  function HexChar(d: nat): (c: char)
    requires d < 16
    ensures IsHexDigit(c) && HexDigitValue(c) == d
  {
    if d < 10 then '0' + d as char else 'A' + (d - 10) as char
  }

  /** The 4-digit upper-case hexadecimal rendering of a CRC-16 value, as a meter writes it. */
  function Hex4(n: nat): (s: string)
    requires n < 0x1_0000
    ensures |s| == 4 && AllHex(s)
  {
    var m := n / 16;
    var m2 := m / 16;
    [HexChar(m2 / 16), HexChar(m2 % 16), HexChar(m % 16), HexChar(n % 16)]
  }

  /** Reading back the 4-digit rendering gives the number. */
  lemma Hex4RoundTrip(n: nat)
    requires n < 0x1_0000
    ensures ParseIntHex(Hex4(n)) == Number(n)
  {
    var s := Hex4(n);
    ParseHexDigits(s);
    HexValue4(s);
  }

  lemma HexValue4(s: string)
    requires |s| == 4 && AllHex(s)
    ensures HexValue(s) == ((HexDigitValue(s[0]) * 16 + HexDigitValue(s[1])) * 16 + HexDigitValue(s[2])) * 16 + HexDigitValue(s[3])
  {
    assert s[..3][..2][..1] == [s[0]];
    assert s[..3][..2] == s[..2] && s[..3][..2][..1] == s[..1];
    assert HexValue(s[..1]) == HexDigitValue(s[0]);
    assert HexValue(s[..2]) == HexValue(s[..1]) * 16 + HexDigitValue(s[1]);
    assert HexValue(s[..3]) == HexValue(s[..2]) * 16 + HexDigitValue(s[2]);
  }

  /** The filter predicate: the CRC of the telegram equals the checksum read as hexadecimal. */
  predicate Accepts(crc: string -> int, f: Frame)
  {
    ParseIntHex(f.checksum) == Number(crc(f.telegram))
  }

  /** A frame whose checksum is the rendering of its telegram's CRC passes. */
  lemma AcceptsRendered(crc: string -> int, t: string)
    requires 0 <= crc(t) < 0x1_0000
    ensures Accepts(crc, Frame(t, Hex4(crc(t))))
  {
    Hex4RoundTrip(crc(t));
  }

  /** A frame with a 4-digit hexadecimal checksum passes exactly when the CRC equals its value. */
  lemma AcceptsHex(crc: string -> int, f: Frame)
    requires |f.checksum| >= 1 && AllHex(f.checksum)
    ensures Accepts(crc, f) <==> crc(f.telegram) == HexValue(f.checksum)
  {
    ParseHexDigits(f.checksum);
  }

  /** A checksum that is not a number never passes, whatever the CRC. */
  lemma RejectsNaN(crc: string -> int, f: Frame)
    requires ParseIntHex(f.checksum) == NaN
    ensures !Accepts(crc, f)
  {
  }

  /** `filter(...)` then `pluck(0)`: the telegram texts of the frames that pass, in order. */
  function Validated(crc: string -> int, frames: seq<Frame>): (r: seq<string>)
    ensures |r| <= |frames|
  {
    if |frames| == 0 then []
    else if Accepts(crc, frames[0]) then [frames[0].telegram] + Validated(crc, frames[1..])
    else Validated(crc, frames[1..])
  }

  /** Every telegram that goes on came from a frame that passed. */
  lemma {:induction false} ValidatedSound(crc: string -> int, frames: seq<Frame>)
    ensures forall t :: t in Validated(crc, frames) ==> exists k :: 0 <= k < |frames| && Accepts(crc, frames[k]) && frames[k].telegram == t
  {
    if |frames| > 0 {
      ValidatedSound(crc, frames[1..]);
      forall t | t in Validated(crc, frames)
        ensures exists k :: 0 <= k < |frames| && Accepts(crc, frames[k]) && frames[k].telegram == t
      {
        if !(Accepts(crc, frames[0]) && t == frames[0].telegram) {
          assert t in Validated(crc, frames[1..]);
          var k :| 0 <= k < |frames[1..]| && Accepts(crc, frames[1..][k]) && frames[1..][k].telegram == t;
          assert frames[k + 1] == frames[1..][k];
        }
      }
    }
  }

  /** Every frame that passes goes on. */
  lemma {:induction false} ValidatedComplete(crc: string -> int, frames: seq<Frame>)
    ensures forall k :: 0 <= k < |frames| && Accepts(crc, frames[k]) ==> frames[k].telegram in Validated(crc, frames)
  {
    if |frames| > 0 {
      ValidatedComplete(crc, frames[1..]);
      forall k | 0 <= k < |frames| && Accepts(crc, frames[k])
        ensures frames[k].telegram in Validated(crc, frames)
      {
        if k > 0 { assert frames[k] == frames[1..][k - 1]; }
      }
    }
  }

  /** Filtering a stream frame by frame: the frames of two batches pass as they would together. */
  lemma {:induction false} ValidatedAppend(crc: string -> int, a: seq<Frame>, b: seq<Frame>)
    ensures Validated(crc, a + b) == Validated(crc, a) + Validated(crc, b)
  {
    if |a| > 0 {
      assert (a + b)[0] == a[0];
      assert (a + b)[1..] == a[1..] + b;
      ValidatedAppend(crc, a[1..], b);
      ConcatAssoc([a[0].telegram], Validated(crc, a[1..]), Validated(crc, b));
    } else {
      assert a + b == b;
    }
  }

  /** Every telegram that passes the filter after the frame extractor ends in its only `!`. */
  lemma ValidatedWellFormed(crc: string -> int, s: string)
    ensures forall t :: t in Validated(crc, Extract(s).frames) ==> |t| >= 1 && t[|t| - 1] == '!' && '!' !in t[..|t| - 1]
  {
    ExtractWellFormed(s);
    ValidatedSound(crc, Extract(s).frames);
  }
}
