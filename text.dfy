/** Characters and strings with the semantics of Python 2 byte strings:
    ASCII white space and digits, ASCII-only case folding, `sep.join`
    and `str.strip`. */
module Text {

  /** `\s` in a byte-string pattern, and what `str.strip()` removes:
      space, tab, line feed, vertical tab, form feed and carriage return. */
  predicate IsSpace(c: char) {
    c == ' ' || '\t' <= c <= '\r'
  }

  /** `\d` in a byte-string pattern. */
  predicate IsDigit(c: char) {
    '0' <= c <= '9'
  }

  /** The ASCII lower-casing that `re.IGNORECASE` applies to byte strings:
      `A`-`Z` become `a`-`z`, every other character stays as it is. */
  function Lower(c: char): (l: char)
    ensures IsDigit(l) <==> IsDigit(c)
    ensures !('A' <= l <= 'Z')
    ensures 'A' <= c <= 'Z' ==> 'a' <= l <= 'z' && l as int - c as int == 'a' as int - 'A' as int
    ensures !('A' <= c <= 'Z') ==> l == c
  {
    if 'A' <= c <= 'Z' then (c as int + 32) as char else c
  }

  /** A string with every letter lower-cased. */
  function Fold(s: string): string {
    seq(|s|, i requires 0 <= i < |s| => Lower(s[i]))
  }

  /** Two characters that `re.IGNORECASE` treats as equal: the same
      character, or one ASCII letter in its two cases. */
  predicate SameIgnoringCase(a: char, b: char) {
    a == b
    || ('A' <= a <= 'Z' && b as int == a as int + 32)
    || ('A' <= b <= 'Z' && a as int == b as int + 32)
  }

  lemma LowerEqual(a: char, b: char)
    ensures Lower(a) == Lower(b) <==> SameIgnoringCase(a, b)
  {
  }

  /** Folded strings are equal exactly when the strings have the same length
      and agree position by position up to the case of ASCII letters. */
  lemma FoldEqual(a: string, b: string)
    ensures Fold(a) == Fold(b) <==>
      |a| == |b| && forall i :: 0 <= i < |a| ==> SameIgnoringCase(a[i], b[i])
  {
    if |a| == |b| {
      forall i | 0 <= i < |a|
        ensures Fold(a)[i] == Fold(b)[i] <==> SameIgnoringCase(a[i], b[i])
      {
        LowerEqual(a[i], b[i]);
      }
      if Fold(a) != Fold(b) {
        var i :| 0 <= i < |a| && Fold(a)[i] != Fold(b)[i];
        assert !SameIgnoringCase(a[i], b[i]);
      }
    }
  }

  /** `sep.join(parts)`. */
  function Join(parts: seq<string>, sep: string): string
    decreases |parts|
  {
    if |parts| == 0 then ""
    else if |parts| == 1 then parts[0]
    else parts[0] + sep + Join(parts[1..], sep)
  }

  predicate AllSpace(s: string) {
    forall i :: 0 <= i < |s| ==> IsSpace(s[i])
  }

  /** x occurs in s as a contiguous run of characters. */
  predicate Occurs(x: string, s: string) {
    exists i :: 0 <= i <= |s| && x <= s[i..]
  }

  lemma OccursInSuffix(x: string, t: string, h: string)
    requires Occurs(x, t)
    ensures Occurs(x, h + t)
  {
    var i :| 0 <= i <= |t| && x <= t[i..];
    assert (h + t)[|h| + i..] == t[i..];
  }

  /** Every part occurs in the joined string. */
  lemma {:induction false} JoinHasPart(parts: seq<string>, sep: string, k: nat)
    requires k < |parts|
    ensures Occurs(parts[k], Join(parts, sep))
    decreases |parts|
  {
    var j := Join(parts, sep);
    if k == 0 {
      if |parts| > 1 {
        assert j == parts[0] + (sep + Join(parts[1..], sep));
      }
      assert parts[0] <= j[0..];
    } else {
      var tail := Join(parts[1..], sep);
      var x := parts[k];
      JoinHasPart(parts[1..], sep, k - 1);
      var i :| 0 <= i <= |tail| && x <= tail[i..];
      var off := |parts[0]| + |sep|;
      assert j == (parts[0] + sep) + tail;
      assert j[off + i..] == tail[i..];
    }
  }

  /** `s.lstrip()`: the suffix of s left after its leading white space. */
  function TrimStart(s: string): (r: string)
    ensures |r| <= |s| && r == s[|s| - |r|..]
    ensures AllSpace(s[..|s| - |r|])
    ensures r == [] || !IsSpace(r[0])
    decreases |s|
  {
    if s != [] && IsSpace(s[0]) then TrimStart(s[1..]) else s
  }

  /** `s.rstrip()`: the prefix of s left before its trailing white space. */
  function TrimEnd(s: string): (r: string)
    ensures |r| <= |s| && r == s[..|r|]
    ensures AllSpace(s[|r|..])
    ensures r == [] || !IsSpace(r[|r| - 1])
    decreases |s|
  {
    if s != [] && IsSpace(s[|s| - 1]) then
      var r := TrimEnd(s[..|s| - 1]);
      assert s[|r|..] == s[..|s| - 1][|r|..] + [s[|s| - 1]];
      r
    else s
  }

  /** A prefix r of a suffix t of s, with only white space cut off on
      either side, is a slice of s between two white-space runs; it is
      empty exactly when s is all white space. */
  lemma TrimmedIsSlice(s: string, t: string, r: string)
    requires |t| <= |s| && t == s[|s| - |t|..] && AllSpace(s[..|s| - |t|])
    requires t == [] || !IsSpace(t[0])
    requires |r| <= |t| && r == t[..|r|] && AllSpace(t[|r|..])
    requires r == [] || !IsSpace(r[|r| - 1])
    ensures exists i, j :: 0 <= i <= j <= |s| && r == s[i..j] && AllSpace(s[..i]) && AllSpace(s[j..])
    ensures r == [] <==> AllSpace(s)
    ensures r == [] || (!IsSpace(r[0]) && !IsSpace(r[|r| - 1]))
  {
    var i := |s| - |t|;
    var j := i + |r|;
    assert r == s[i..j];
    assert s[j..] == t[|r|..];
    if r == [] {
      assert s == s[..i] + t[|r|..];
    } else {
      assert s[i] == r[0] == t[0];
    }
  }

  /** `s.strip()`: s with white space removed at both ends and nowhere
      else. The result is empty exactly when s is all white space, and
      otherwise neither starts nor ends with white space. */
  function Strip(s: string): (r: string)
    ensures exists i, j :: 0 <= i <= j <= |s| && r == s[i..j] && AllSpace(s[..i]) && AllSpace(s[j..])
    ensures r == [] <==> AllSpace(s)
    ensures r == [] || (!IsSpace(r[0]) && !IsSpace(r[|r| - 1]))
  {
    var t := TrimStart(s);
    var r := TrimEnd(t);
    TrimmedIsSlice(s, t, r);
    r
  }

  /** The non-white-space characters of s, in order. */
  function Squeeze(s: string): (r: string)
    ensures |r| <= |s|
    decreases |s|
  {
    if s == [] then []
    else if IsSpace(s[0]) then Squeeze(s[1..])
    else [s[0]] + Squeeze(s[1..])
  }

  function Concat(parts: seq<string>): string
    decreases |parts|
  {
    if parts == [] then [] else parts[0] + Concat(parts[1..])
  }

  lemma {:induction false} SqueezeAppend(a: string, b: string)
    ensures Squeeze(a + b) == Squeeze(a) + Squeeze(b)
    decreases |a|
  {
    if a != [] {
      assert (a + b)[1..] == a[1..] + b;
      SqueezeAppend(a[1..], b);
    } else {
      assert a + b == b;
    }
  }
}
