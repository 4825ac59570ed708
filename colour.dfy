/** Embed colours: hex_to_int (main.py:35-37) and the colour check of set_embed
    (main.py:224-228). */
module Colour {
  import opened Wrappers
  import opened Strings

  predicate IsHexDigit(c: char)
  {
    '0' <= c <= '9' || 'a' <= c <= 'f' || 'A' <= c <= 'F'
  }

  predicate AllHex(s: string)
  {
    forall i :: 0 <= i < |s| ==> IsHexDigit(s[i])
  }

  function HexDigitValue(c: char): (v: nat)
    requires IsHexDigit(c)
    ensures v < 16
    ensures '0' <= c <= '9' ==> v == c as int - '0' as int
    ensures 'a' <= c <= 'f' ==> v == c as int - 'a' as int + 10
    ensures 'A' <= c <= 'F' ==> v == c as int - 'A' as int + 10
  {
    if '0' <= c <= '9' then c as int - '0' as int
    else if 'a' <= c <= 'f' then c as int - 'a' as int + 10
    else c as int - 'A' as int + 10
  }

  function Pow16(n: nat): (p: nat)
    ensures p >= 1
  {
    if n == 0 then 1 else 16 * Pow16(n - 1)
  }

  /** The base-16 value of a string of hex digits, most significant digit first. */
  function HexValue(s: string): (v: nat)
    requires AllHex(s)
    ensures v < Pow16(|s|)
    decreases |s|
  {
    if s == [] then 0
    else HexValue(s[..|s| - 1]) * 16 + HexDigitValue(s[|s| - 1])
  }

  /** int(s, 16) on strings made only of hex digits: an empty string or any other
      character raises ValueError, modelled as None. */
  function ParseHex(s: string): (r: Option<nat>)
    ensures r.Some? <==> s != [] && AllHex(s)
  {
    if s != [] && AllHex(s) then Some(HexValue(s)) else None
  }

  /** hex_to_int: every '#' is removed, then every "0x", and the rest is read in base 16. */
  function HexToInt(s: string): Option<nat>
  {
    ParseHex(ReplaceAll(ReplaceAll(s, "#", ""), "0x", ""))
  }

  function HexChar(d: nat): (c: char)
    requires d < 16
    ensures IsHexDigit(c) && HexDigitValue(c) == d
  {
    if d < 10 then ('0' as int + d) as char else ('a' as int + d - 10) as char
  }

  /** The shortest lower-case hex spelling of n, the inverse of ParseHex. */
  function ToHex(n: nat): (s: string)
    ensures s != [] && AllHex(s)
    decreases n
  {
    if n < 16 then [HexChar(n)] else ToHex(n / 16) + [HexChar(n % 16)]
  }

  lemma {:induction false} ToHexRoundTrip(n: nat)
    ensures ParseHex(ToHex(n)) == Some(n)
    decreases n
  {
    var s := ToHex(n);
    if n >= 16 {
      ToHexRoundTrip(n / 16);
      assert s[..|s| - 1] == ToHex(n / 16);
    }
  }

  /** A plain string of hex digits carries no '#' and no "0x", so hex_to_int reads it as it is. */
  lemma HexDigitsUntouched(h: string)
    requires AllHex(h)
    ensures ReplaceAll(ReplaceAll(h, "#", ""), "0x", "") == h
  {
    ReplaceAbsent(h, "#", "");
    ReplaceAbsent(h, "0x", "");
  }

  /** "#3498db", "0x3498db" and "3498db" are the same colour to hex_to_int. */
  lemma {:induction false} PrefixesIgnored(h: string)
    requires h != [] && AllHex(h)
    ensures HexToInt(h) == Some(HexValue(h))
    ensures HexToInt("#" + h) == Some(HexValue(h))
    ensures HexToInt("0x" + h) == Some(HexValue(h))
  {
    HexDigitsUntouched(h);
    assert ("#" + h)[..1] == "#" && ("#" + h)[1..] == h;
    ReplaceAbsent(h, "#", "");
    assert ReplaceAll("#" + h, "#", "") == h;
    ReplaceAbsent("0x" + h, "#", "");
    assert ("0x" + h)[..2] == "0x" && ("0x" + h)[2..] == h;
    ReplaceAbsent(h, "0x", "");
    assert ReplaceAll("0x" + h, "0x", "") == h;
  }

  /** The pattern ^#?(?:[0-9a-fA-F]{3}){1,2}$|^0x[0-9a-fA-F]{6}$ of main.py:225:
      an optional '#' and three or six hex digits, or "0x" and six hex digits. */
  predicate MatchesColourPattern(w: string)
  {
    ShortOrLongHex(w) || (|w| == 8 && w[..2] == "0x" && AllHex(w[2..]))
  }

  /** The first alternative of the pattern. */
  predicate ShortOrLongHex(w: string)
  {
    var h := if |w| > 0 && w[0] == '#' then w[1..] else w;
    (|h| == 3 || |h| == 6) && AllHex(h)
  }

  /** set_embed's colour check: "0x" is rewritten to "#" before the pattern is tried. */
  predicate IsValidColour(value: string)
  {
    MatchesColourPattern(ReplaceAll(value, "0x", "#"))
  }

  /** The rewritten string never starts with "0x", so the pattern's second
      alternative can never match and only the first one decides. */
  lemma SecondAlternativeDead(value: string)
    ensures IsValidColour(value) <==> ShortOrLongHex(ReplaceAll(value, "0x", "#"))
  {
    RewriteLeavesNoZeroX(value);
    var w := ReplaceAll(value, "0x", "#");
    if |w| >= 2 {
      assert w[..2][0] == w[0] && w[..2][1] == w[1];
    }
  }

  /** The three shapes of colour that set_embed stores: hex digits alone, after a
      '#', or after "0x", with three or six digits in each case. */
  predicate ColourShape(value: string)
  {
    var h := ColourDigits(value);
    (|h| == 3 || |h| == 6) && AllHex(h)
  }

  /** The hex digits of a colour, with its '#' or "0x" prefix dropped. */
  function ColourDigits(value: string): string
  {
    if |value| >= 2 && value[..2] == "0x" then value[2..]
    else if |value| >= 1 && value[0] == '#' then value[1..]
    else value
  }

  /** Rewriting a string whose result holds no '#' rewrote nothing. */
  lemma {:induction false} RewriteWithoutHash(t: string)
    requires '#' !in ReplaceAll(t, "0x", "#")
    ensures ReplaceAll(t, "0x", "#") == t
    decreases |t|
  {
    if |t| >= 2 {
      if t[..2] != "0x" {
        var r := ReplaceAll(t[1..], "0x", "#");
        assert ReplaceAll(t, "0x", "#") == [t[0]] + r;
        assert '#' !in r by {
          forall i | 0 <= i < |r| ensures r[i] != '#' {
            assert ReplaceAll(t, "0x", "#")[i + 1] == r[i];
          }
        }
        RewriteWithoutHash(t[1..]);
      }
    }
  }

  /** The colour check accepts exactly the three shapes: "#fff", "3498db" and
      "0x3498db" pass, and so does "0xfff", while four or five digits fail. */
  lemma ValidColourShapes(value: string)
    ensures IsValidColour(value) <==> ColourShape(value)
  {
    SecondAlternativeDead(value);
    if |value| >= 2 && value[..2] == "0x" {
      ZeroXShape(value);
    } else if |value| >= 1 && value[0] == '#' {
      HashShape(value);
    } else {
      BareShape(value);
    }
  }

  /** A value starting with "0x" is rewritten to '#' and the rest. */
  lemma ZeroXShape(value: string)
    requires |value| >= 2 && value[..2] == "0x"
    ensures ShortOrLongHex(ReplaceAll(value, "0x", "#")) <==> ColourShape(value)
  {
    var w := ReplaceAll(value, "0x", "#");
    var t := value[2..];
    assert w == "#" + ReplaceAll(t, "0x", "#");
    assert w[1..] == ReplaceAll(t, "0x", "#");
    if ShortOrLongHex(w) {
      RewriteWithoutHash(t);
    } else if ColourShape(value) {
      ReplaceAbsent(t, "0x", "#");
    }
  }

  /** A value starting with '#' keeps it, and the rest is rewritten. */
  lemma HashShape(value: string)
    requires |value| >= 1 && value[0] == '#'
    ensures ShortOrLongHex(ReplaceAll(value, "0x", "#")) <==> ColourShape(value)
  {
    var w := ReplaceAll(value, "0x", "#");
    var t := value[1..];
    if |value| >= 2 {
      assert w == [value[0]] + ReplaceAll(t, "0x", "#");
    }
    assert w[1..] == ReplaceAll(t, "0x", "#");
    if ShortOrLongHex(w) {
      RewriteWithoutHash(t);
    } else if ColourShape(value) {
      ReplaceAbsent(t, "0x", "#");
    }
  }

  /** A value with neither prefix must come through the rewrite unchanged. */
  lemma BareShape(value: string)
    requires !(|value| >= 2 && value[..2] == "0x") && !(|value| >= 1 && value[0] == '#')
    ensures ShortOrLongHex(ReplaceAll(value, "0x", "#")) <==> ColourShape(value)
  {
    var w := ReplaceAll(value, "0x", "#");
    if |value| >= 2 {
      assert w == [value[0]] + ReplaceAll(value[1..], "0x", "#");
    }
    if ShortOrLongHex(w) {
      assert w[0] != '#';
      RewriteWithoutHash(value);
    } else if ColourShape(value) {
      ReplaceAbsent(value, "0x", "#");
    }
  }

  /** Any colour the check accepts is one hex_to_int can read: it yields the value
      of the colour's hex digits. */
  lemma AcceptedColourDecodes(value: string)
    requires IsValidColour(value)
    ensures AllHex(ColourDigits(value))
    ensures HexToInt(value) == Some(HexValue(ColourDigits(value)))
  {
    ValidColourShapes(value);
    var h := ColourDigits(value);
    assert h != [] && AllHex(h);
    PrefixesIgnored(h);
    if |value| >= 2 && value[..2] == "0x" {
      ZeroXPrefixed(value, h);
    } else if |value| >= 1 && value[0] == '#' {
      HashPrefixed(value, h);
    }
  }

  lemma ZeroXPrefixed(value: string, h: string)
    requires |value| >= 2 && value[..2] == "0x" && h == value[2..]
    ensures value == "0x" + h
  {
  }

  lemma HashPrefixed(value: string, h: string)
    requires |value| >= 1 && value[0] == '#' && h == value[1..]
    ensures value == "#" + h
  {
  }

  lemma ShortColourAccepted()
    ensures IsValidColour("#fff")
  {
    var v := "#fff";
    assert ColourShape(v) by {
      var h := ColourDigits(v);
      assert forall i :: 0 <= i < |h| ==> IsHexDigit(h[i]);
    }
    ValidColourShapes(v);
  }

  lemma LongColourAccepted()
    ensures IsValidColour("3498db")
  {
    var v := "3498db";
    assert ColourShape(v) by {
      var h := ColourDigits(v);
      assert forall i :: 0 <= i < |h| ==> IsHexDigit(h[i]);
    }
    ValidColourShapes(v);
  }

  lemma ZeroXColourAccepted()
    ensures IsValidColour("0x3498db")
  {
    var v := "0x3498db";
    assert ColourShape(v) by {
      var h := ColourDigits(v);
      assert forall i :: 0 <= i < |h| ==> IsHexDigit(h[i]);
    }
    ValidColourShapes(v);
  }

  lemma FourDigitsRejected()
    ensures !IsValidColour("#ffff")
  {
    ValidColourShapes("#ffff");
  }

  lemma FiveDigitsRejected()
    ensures !IsValidColour("3498d")
  {
    ValidColourShapes("3498d");
  }
}
