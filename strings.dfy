/** The two Python string operations the bot relies on: str.replace and str.lower. */
module Strings {

  /** Python's s.replace(pat, rep) for a non-empty pattern: the string is scanned
      from the left and every non-overlapping occurrence of pat is replaced. */
  function ReplaceAll(s: string, pat: string, rep: string): (r: string)
    requires |pat| > 0
    ensures forall i :: 0 <= i < |r| ==> r[i] in s || r[i] in rep
    ensures rep == [] ==> |r| <= |s|
    decreases |s|
  {
    if |s| < |pat| then s
    else if s[..|pat|] == pat then rep + ReplaceAll(s[|pat|..], pat, rep)
    else [s[0]] + ReplaceAll(s[1..], pat, rep)
  }

  /** A string in which the last character of the pattern never occurs holds no
      occurrence of the pattern, so replacing leaves it as it is. */
  lemma {:induction false} ReplaceAbsent(s: string, pat: string, rep: string)
    requires |pat| > 0
    requires pat[|pat| - 1] !in s
    ensures ReplaceAll(s, pat, rep) == s
    decreases |s|
  {
    if |s| >= |pat| {
      assert s[..|pat|][|pat| - 1] == s[|pat| - 1];
      assert s[..|pat|] != pat;
      assert forall c :: c in s[1..] ==> c in s;
      ReplaceAbsent(s[1..], pat, rep);
    }
  }

  /** Removing every occurrence of a single character leaves none of it behind. */
  lemma {:induction false} RemovedCharGone(s: string, c: char)
    ensures c !in ReplaceAll(s, [c], "")
    decreases |s|
  {
    if |s| >= 1 {
      RemovedCharGone(s[1..], c);
      if s[..1] != [c] {
        assert s[0] != c;
      }
    }
  }

  /** No '0' of w is followed by an 'x'. */
  predicate NoZeroX(w: string)
  {
    forall i :: 0 <= i < |w| - 1 && w[i] == '0' ==> w[i + 1] != 'x'
  }

  /** Rewriting every "0x" to "#" leaves a string that has no "0x" anywhere:
      each '0' of the result is followed by a character other than 'x'. */
  lemma {:induction false} RewriteLeavesNoZeroX(s: string)
    ensures NoZeroX(ReplaceAll(s, "0x", "#"))
    decreases |s|
  {
    var w := ReplaceAll(s, "0x", "#");
    if |s| >= 2 {
      if s[..2] == "0x" {
        var t := ReplaceAll(s[2..], "0x", "#");
        RewriteLeavesNoZeroX(s[2..]);
        assert w == "#" + t;
        forall i | 0 <= i < |w| - 1 && w[i] == '0' ensures w[i + 1] != 'x' {
          assert i > 0 && w[i] == t[i - 1] && w[i + 1] == t[(i - 1) + 1];
        }
      } else {
        var t := ReplaceAll(s[1..], "0x", "#");
        RewriteLeavesNoZeroX(s[1..]);
        assert w == [s[0]] + t;
        assert s[0] == '0' ==> s[1] != 'x' by { assert s[..2] == [s[0], s[1]]; }
        assert |t| > 0 && (t[0] == '#' || t[0] == s[1]) by {
          if |s[1..]| >= 2 && s[1..][..2] == "0x" {
            assert t[0] == '#';
          } else if |s[1..]| >= 2 {
            assert t[0] == s[1];
          } else {
            assert t == s[1..];
          }
        }
        forall i | 0 <= i < |w| - 1 && w[i] == '0' ensures w[i + 1] != 'x' {
          if i > 0 { assert w[i] == t[i - 1] && w[i + 1] == t[(i - 1) + 1]; }
        }
      }
    }
  }

  function LowerChar(c: char): char
  {
    if 'A' <= c <= 'Z' then (c as int + 32) as char else c
  }

  /** Python's str.lower() restricted to ASCII: upper-case letters become lower-case,
      every other character stays. */
  function Lower(s: string): (r: string)
    ensures |r| == |s|
    ensures forall i :: 0 <= i < |s| && 'A' <= s[i] <= 'Z' ==> r[i] as int == s[i] as int + 32
    ensures forall i :: 0 <= i < |s| && !('A' <= s[i] <= 'Z') ==> r[i] == s[i]
    ensures forall i :: 0 <= i < |r| ==> !('A' <= r[i] <= 'Z')
  {
    seq(|s|, i requires 0 <= i < |s| => LowerChar(s[i]))
  }
}
