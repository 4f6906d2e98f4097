/** The few functions of Go's `strings` package that the modelled code uses,
    restricted to the single-character cut sets it passes them. */
module Text {

  /** `n` copies of `c`. */
  function Repeat(c: char, n: nat): (r: string)
    ensures |r| == n
    ensures forall i :: 0 <= i < n ==> r[i] == c
  {
    seq(n, _ => c)
  }

  /** `strings.Index(s, string(c))`: the first position of `c` in `s`, or -1. */
  function IndexOf(s: string, c: char): (i: int)
    ensures -1 <= i < |s|
    ensures i == -1 <==> c !in s
    ensures 0 <= i ==> s[i] == c && c !in s[..i]
  {
    if |s| == 0 then -1
    else if s[0] == c then 0
    else
      var j := IndexOf(s[1..], c);
      assert s == [s[0]] + s[1..];
      if j < 0 then -1
      else
        assert s[..j + 1] == [s[0]] + s[1..][..j];
        j + 1
  }

  /** `strings.TrimLeft(s, string(c))`: drops every leading `c`. */
  function TrimLeft(s: string, c: char): (r: string)
    ensures |r| <= |s| && s == Repeat(c, |s| - |r|) + r
    ensures |r| > 0 ==> r[0] != c
  {
    if |s| > 0 && s[0] == c then
      var r := TrimLeft(s[1..], c);
      assert s == [c] + s[1..];
      assert [c] + Repeat(c, |s| - 1 - |r|) == Repeat(c, |s| - |r|);
      r
    else
      assert s == Repeat(c, 0) + s;
      s
  }

  /** `strings.TrimRight(s, string(c))`: drops every trailing `c`. */
  function TrimRight(s: string, c: char): (r: string)
    ensures |r| <= |s| && s == r + Repeat(c, |s| - |r|)
    ensures |r| > 0 ==> r[|r| - 1] != c
  {
    if |s| > 0 && s[|s| - 1] == c then
      var r := TrimRight(s[..|s| - 1], c);
      assert s == s[..|s| - 1] + [c];
      assert Repeat(c, |s| - 1 - |r|) + [c] == Repeat(c, |s| - |r|);
      r
    else
      assert s == s + Repeat(c, 0);
      s
  }

  /** `strings.Trim(s, string(c))`: drops every leading and trailing `c`. */
  function Trim(s: string, c: char): (r: string)
    ensures |r| > 0 ==> r[0] != c && r[|r| - 1] != c
    ensures exists k :: 0 <= k <= |s| - |r| && s == Repeat(c, k) + r + Repeat(c, |s| - |r| - k)
  {
    var l := TrimLeft(s, c);
    var r := TrimRight(l, c);
    assert |r| > 0 ==> r[0] == l[0];
    assert s == Repeat(c, |s| - |l|) + r + Repeat(c, |s| - |r| - (|s| - |l|));
    r
  }

  lemma TrimLeftNoop(s: string, c: char)
    requires |s| == 0 || s[0] != c
    ensures TrimLeft(s, c) == s
  {
  }

  lemma TrimRightNoop(s: string, c: char)
    requires |s| == 0 || s[|s| - 1] != c
    ensures TrimRight(s, c) == s
  {
  }

  lemma TrimLeftSkip(s: string, c: char)
    ensures TrimLeft([c] + s, c) == TrimLeft(s, c)
  {
    assert ([c] + s)[1..] == s;
  }

  lemma TrimRightSkip(s: string, c: char)
    ensures TrimRight(s + [c], c) == TrimRight(s, c)
  {
    assert (s + [c])[..|s|] == s;
  }

  /** Trim leaves a string without the cut character at either end alone. */
  lemma TrimNoop(s: string, c: char)
    requires |s| == 0 || (s[0] != c && s[|s| - 1] != c)
    ensures Trim(s, c) == s
  {
    TrimLeftNoop(s, c);
    TrimRightNoop(s, c);
  }

  /** One `c` on either side of a string with none at its ends is trimmed off. */
  lemma TrimSurrounded(s: string, c: char)
    requires |s| == 0 || (s[0] != c && s[|s| - 1] != c)
    ensures Trim([c] + s + [c], c) == s
  {
    assert [c] + s + [c] == [c] + (s + [c]);
    TrimLeftSkip(s + [c], c);
    if |s| > 0 {
      TrimLeftNoop(s + [c], c);
    } else {
      TrimLeftSkip([], c);
    }
    TrimRightSkip(s, c);
    TrimRightNoop(s, c);
  }

  /** One leading `c` before a string with none at its ends is trimmed off. */
  lemma TrimOneLeading(s: string, c: char)
    requires |s| == 0 || (s[0] != c && s[|s| - 1] != c)
    ensures Trim([c] + s, c) == s
  {
    TrimLeftSkip(s, c);
    TrimLeftNoop(s, c);
    TrimRightNoop(s, c);
  }

  /** `strings.TrimPrefix(s, p)`: drops one leading copy of `p`, if present. */
  function TrimPrefix(s: string, p: string): (r: string)
    ensures p <= s ==> s == p + r
    ensures !(p <= s) ==> r == s
  {
    if p <= s then s[|p|..] else s
  }

  /** `unicode.ToTitle` on ASCII letters: lower-case letters become upper-case. */
  function ToTitleChar(c: char): char {
    if 'a' <= c <= 'z' then (c as int - 'a' as int + 'A' as int) as char else c
  }

  /** `strings.ToTitle` on ASCII text. */
  function ToTitle(s: string): (r: string)
    ensures |r| == |s|
    ensures forall i :: 0 <= i < |s| ==> r[i] == ToTitleChar(s[i])
  {
    seq(|s|, i requires 0 <= i < |s| => ToTitleChar(s[i]))
  }
}
