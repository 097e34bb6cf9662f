/** The handful of Python string operations the matcher and the URL builder
    rely on: `str.split(',')`, `str.strip()`, `str.lower()`, `needle in hay`
    and `str.replace(a, b)` for single characters. Whitespace and case are
    modelled over ASCII only. */
module Text {

  /** Python's `str.isspace` restricted to ASCII: tab, line feed, vertical
      tab, form feed, carriage return, the four separators 0x1C-0x1F, space. */
  predicate IsSpace(c: char) {
    c == ' ' || (9 <= c as int <= 13) || (28 <= c as int <= 31)
  }

  predicate AllSpace(s: string) {
    forall i :: 0 <= i < |s| ==> IsSpace(s[i])
  }

  // ---------------------------------------------------------------------
  // strip

  /** Drops leading whitespace. */
  function TrimStart(s: string): (r: string)
    ensures |r| <= |s| && r == s[|s| - |r|..]
    ensures AllSpace(s[..|s| - |r|])
    ensures |r| > 0 ==> !IsSpace(r[0])
  {
    if |s| > 0 && IsSpace(s[0]) then TrimStart(s[1..]) else s
  }

  /** Drops trailing whitespace. */
  function TrimEnd(s: string): (r: string)
    ensures |r| <= |s| && r == s[..|r|]
    ensures AllSpace(s[|r|..])
    ensures |r| > 0 ==> !IsSpace(r[|r| - 1])
  {
    if |s| > 0 && IsSpace(s[|s| - 1]) then TrimEnd(s[..|s| - 1]) else s
  }

  /** `r` has neither leading nor trailing whitespace. */
  predicate IsStripped(r: string) {
    |r| > 0 ==> !IsSpace(r[0]) && !IsSpace(r[|r| - 1])
  }

  /** `r` is what `s.strip()` must be: the slice of `s` left once every
      leading and trailing whitespace character is cut off. */
  ghost predicate IsStripOf(r: string, s: string) {
    exists i, j :: 0 <= i <= j <= |s| && r == s[i..j]
      && AllSpace(s[..i]) && AllSpace(s[j..]) && IsStripped(r)
  }

  /** Python's `s.strip()` with no argument. */
  function Strip(s: string): (r: string)
    ensures IsStripOf(r, s)
    ensures IsStripped(r)
    ensures forall c :: c !in s ==> c !in r
  {
    var t := TrimStart(s);
    var r := TrimEnd(t);
    assert r == s[|s| - |t|..|s| - |t| + |r|];
    assert s[|s| - |t| + |r|..] == t[|r|..];
    r
  }

  /** No index before the end of a whitespace run holds a non-space character. */
  lemma SpaceRunBound(s: string, i: int, k: int)
    requires 0 <= k <= |s| && AllSpace(s[..k])
    requires 0 <= i < |s| && !IsSpace(s[i])
    ensures k <= i
  {
    forall m | 0 <= m < k
      ensures IsSpace(s[m])
    {
      assert s[..k][m] == s[m];
    }
  }

  /** No index after the start of a trailing whitespace run holds a non-space character. */
  lemma SpaceTailBound(s: string, i: int, k: int)
    requires 0 <= k <= |s| && AllSpace(s[k..])
    requires 0 <= i < |s| && !IsSpace(s[i])
    ensures i < k
  {
    forall m | k <= m < |s|
      ensures IsSpace(s[m])
    {
      assert s[k..][m - k] == s[m];
    }
  }

  /** Two cuts of `s` that both leave only whitespace outside a stripped
      middle select the same middle. */
  lemma StripCutUnique(s: string, i: int, j: int, i': int, j': int)
    requires 0 <= i <= j <= |s| && AllSpace(s[..i]) && AllSpace(s[j..]) && IsStripped(s[i..j])
    requires 0 <= i' <= j' <= |s| && AllSpace(s[..i']) && AllSpace(s[j'..]) && IsStripped(s[i'..j'])
    ensures s[i..j] == s[i'..j']
  {
    if i < j {
      assert s[i..j][0] == s[i] && s[i..j][j - i - 1] == s[j - 1];
      // s[i] is the first non-space character of s and s[j - 1] the last
      SpaceRunBound(s, i, i');
      SpaceTailBound(s, j - 1, j');
      SpaceTailBound(s, i, j');
      assert s[i'..j'][0] == s[i'] && s[i'..j'][j' - i' - 1] == s[j' - 1];
      SpaceRunBound(s, i', i);
      SpaceTailBound(s, j' - 1, j);
    } else if i' < j' {
      assert s[i'..j'][0] == s[i'];
      SpaceRunBound(s, i', i);
      SpaceTailBound(s, i', j);
    }
  }

  /** The description `IsStripOf` admits exactly one result. */
  lemma StripOfUnique(r: string, r': string, s: string)
    requires IsStripOf(r, s) && IsStripOf(r', s)
    ensures r == r'
  {
    var i, j :| 0 <= i <= j <= |s| && r == s[i..j]
      && AllSpace(s[..i]) && AllSpace(s[j..]) && IsStripped(r);
    var i', j' :| 0 <= i' <= j' <= |s| && r' == s[i'..j']
      && AllSpace(s[..i']) && AllSpace(s[j'..]) && IsStripped(r');
    StripCutUnique(s, i, j, i', j');
  }

  /** A whitespace-only string strips to the empty string. */
  lemma StripAllSpace(s: string)
    requires AllSpace(s)
    ensures Strip(s) == ""
  {
    assert IsStripOf("", s) by {
      assert "" == s[0..0] && s[..0] == [] && s[0..] == s;
    }
    StripOfUnique(Strip(s), "", s);
  }

  /** A string without surrounding whitespace is left alone by strip. */
  lemma StripStripped(s: string)
    requires IsStripped(s)
    ensures Strip(s) == s
  {
    assert IsStripOf(s, s) by {
      assert s == s[0..|s|] && s[..0] == [] && s[|s|..] == [];
    }
    StripOfUnique(Strip(s), s, s);
  }

  // ---------------------------------------------------------------------
  // lower

  predicate IsUpper(c: char) {
    'A' <= c <= 'Z'
  }

  function LowerChar(c: char): (d: char)
    ensures !IsUpper(d)
    ensures IsSpace(d) <==> IsSpace(c)
    ensures !IsUpper(c) ==> d == c
    ensures IsUpper(c) ==> 'a' <= d <= 'z'
  {
    if IsUpper(c) then (c as int + 32) as char else c
  }

  predicate NoUpper(s: string) {
    forall i :: 0 <= i < |s| ==> !IsUpper(s[i])
  }

  /** Python's `s.lower()` over ASCII letters. */
  function Lower(s: string): (r: string)
    ensures |r| == |s|
    ensures forall i :: 0 <= i < |s| ==> r[i] == LowerChar(s[i])
  {
    if |s| == 0 then "" else [LowerChar(s[0])] + Lower(s[1..])
  }

  /** Lowercasing leaves no upper-case letter, keeps whitespace where it was,
      and changes nothing in a string that has no upper-case letter. */
  lemma LowerProperties(s: string)
    ensures NoUpper(Lower(s))
    ensures IsStripped(s) ==> IsStripped(Lower(s))
    ensures NoUpper(s) ==> Lower(s) == s
  {
  }

  // ---------------------------------------------------------------------
  // split / join

  /** Index of the first `c` in `s`. */
  function FirstIndex(s: string, c: char): (i: nat)
    requires c in s
    ensures i < |s| && s[i] == c && c !in s[..i]
  {
    if s[0] == c then 0 else 1 + FirstIndex(s[1..], c)
  }

  /** Python's `s.split(sep)` for a one-character separator: the pieces
      between separators, empty pieces included, never an empty list. */
  function Split(s: string, sep: char): (parts: seq<string>)
    ensures |parts| >= 1
    ensures forall i :: 0 <= i < |parts| ==> sep !in parts[i]
    decreases |s|
  {
    if sep !in s then [s]
    else
      var i := FirstIndex(s, sep);
      [s[..i]] + Split(s[i + 1..], sep)
  }

  /** Python's `sep.join(parts)`. */
  function Join(parts: seq<string>, sep: char): string {
    if |parts| == 0 then ""
    else if |parts| == 1 then parts[0]
    else parts[0] + [sep] + Join(parts[1..], sep)
  }

  /** Splitting and re-joining gives back the original text. */
  lemma {:induction false} JoinSplit(s: string, sep: char)
    ensures Join(Split(s, sep), sep) == s
    decreases |s|
  {
    if sep in s {
      var i := FirstIndex(s, sep);
      JoinSplit(s[i + 1..], sep);
      assert s == s[..i] + [sep] + s[i + 1..];
    }
  }

  /** Joining separator-free pieces and splitting again gives back the pieces. */
  lemma {:induction false} SplitJoin(parts: seq<string>, sep: char)
    requires |parts| >= 1
    requires forall i :: 0 <= i < |parts| ==> sep !in parts[i]
    ensures Split(Join(parts, sep), sep) == parts
  {
    if |parts| > 1 {
      var rest := Join(parts[1..], sep);
      var p := |parts[0]|;
      var s := parts[0] + [sep] + rest;
      var i := FirstIndex(s, sep);
      // the first separator of s is the one right after parts[0]
      forall k | 0 <= k < i
        ensures s[k] != sep
      {
        assert s[..i][k] == s[k];
      }
      forall k | 0 <= k < p
        ensures s[k] != sep
      {
        assert s[k] == parts[0][k];
      }
      assert s[p] == sep;
      assert i == p;
      assert s[..i] == parts[0];
      assert s[i + 1..] == rest;
      SplitJoin(parts[1..], sep);
    }
  }

  // ---------------------------------------------------------------------
  // substring

  /** `needle` occurs in `hay` starting at position `i`. */
  predicate OccursAt(hay: string, needle: string, i: int) {
    0 <= i && i + |needle| <= |hay| && hay[i..i + |needle|] == needle
  }

  /** Python's `needle in hay` for strings. */
  predicate Contains(hay: string, needle: string)
    decreases |hay|
  {
    needle <= hay || (|hay| > 0 && Contains(hay[1..], needle))
  }

  /** `Contains` holds exactly when the needle occurs at some position. */
  lemma {:induction false} ContainsIffOccurs(hay: string, needle: string)
    ensures Contains(hay, needle) <==> exists i :: OccursAt(hay, needle, i)
    decreases |hay|
  {
    if |hay| > 0 {
      ContainsIffOccurs(hay[1..], needle);
      if exists i :: OccursAt(hay[1..], needle, i) {
        var i :| OccursAt(hay[1..], needle, i);
        assert OccursAt(hay, needle, i + 1);
      }
      if exists i :: OccursAt(hay, needle, i) {
        var i :| OccursAt(hay, needle, i);
        if i > 0 {
          assert OccursAt(hay[1..], needle, i - 1);
        } else {
          assert needle <= hay;
        }
      }
    }
    if OccursAt(hay, needle, 0) {
      assert needle <= hay;
    }
    if needle <= hay {
      assert OccursAt(hay, needle, 0);
    }
  }

  /** The empty string is a substring of every string. */
  lemma EmptyContained(hay: string)
    ensures Contains(hay, "")
  {
    assert "" <= hay;
  }

  // ---------------------------------------------------------------------
  // replace

  /** Python's `s.replace(from, to)` for single characters. */
  function ReplaceChar(s: string, from: char, to: char): (r: string)
    ensures |r| == |s|
    ensures forall i :: 0 <= i < |s| ==> r[i] == (if s[i] == from then to else s[i])
  {
    if |s| == 0 then "" else [if s[0] == from then to else s[0]] + ReplaceChar(s[1..], from, to)
  }

  /** Replacing `a` by `b` is undone by replacing `b` by `a`, provided `b`
      did not occur to begin with. */
  lemma ReplaceCharInverse(s: string, a: char, b: char)
    requires b !in s
    ensures ReplaceChar(ReplaceChar(s, a, b), b, a) == s
  {
    var t := ReplaceChar(s, a, b);
    var u := ReplaceChar(t, b, a);
    forall i | 0 <= i < |s|
      ensures u[i] == s[i]
    {
      assert s[i] != b;
    }
  }

  lemma {:induction false} ReplaceCharAppend(a: string, b: string, from: char, to: char)
    ensures ReplaceChar(a + b, from, to) == ReplaceChar(a, from, to) + ReplaceChar(b, from, to)
  {
    var r := ReplaceChar(a + b, from, to);
    var r' := ReplaceChar(a, from, to) + ReplaceChar(b, from, to);
    forall i | 0 <= i < |r|
      ensures r[i] == r'[i]
    {
      if i < |a| { assert (a + b)[i] == a[i]; } else { assert (a + b)[i] == b[i - |a|]; }
    }
  }

  lemma ReplaceCharAbsent(s: string, from: char, to: char)
    requires from !in s
    ensures ReplaceChar(s, from, to) == s
  {
  }

  /** Replacing a separator character in joined text swaps the separator
      and leaves the pieces alone. */
  lemma {:induction false} ReplaceJoin(words: seq<string>, a: char, b: char)
    requires forall i :: 0 <= i < |words| ==> a !in words[i]
    ensures ReplaceChar(Join(words, a), a, b) == Join(words, b)
  {
    if |words| == 1 {
      ReplaceCharAbsent(words[0], a, b);
    } else if |words| > 1 {
      ReplaceJoin(words[1..], a, b);
      ReplaceCharAbsent(words[0], a, b);
      ReplaceCharAppend(words[0] + [a], Join(words[1..], a), a, b);
      ReplaceCharAppend(words[0], [a], a, b);
    }
  }
}
