/** The ordering `list.sort()` uses on Python 2 byte strings: character by
    character, and a proper prefix before any of its extensions. */
module LexOrder {

  predicate LexLe(a: string, b: string)
    decreases |a|
  {
    a == [] || (b != [] && (a[0] < b[0] || (a[0] == b[0] && LexLe(a[1..], b[1..]))))
  }

  lemma {:induction false} LexReflexive(a: string)
    ensures LexLe(a, a)
    decreases |a|
  {
    if a != [] {
      LexReflexive(a[1..]);
    }
  }

  lemma {:induction false} LexTotal(a: string, b: string)
    ensures LexLe(a, b) || LexLe(b, a)
    decreases |a|
  {
    if a != [] && b != [] && a[0] == b[0] {
      LexTotal(a[1..], b[1..]);
    }
  }

  lemma {:induction false} LexAntisymmetric(a: string, b: string)
    requires LexLe(a, b) && LexLe(b, a)
    ensures a == b
    decreases |a|
  {
    if a != [] {
      LexAntisymmetric(a[1..], b[1..]);
      assert a == [a[0]] + a[1..] && b == [b[0]] + b[1..];
    }
  }

  lemma {:induction false} LexTransitive(a: string, b: string, c: string)
    requires LexLe(a, b) && LexLe(b, c)
    ensures LexLe(a, c)
    decreases |a|
  {
    if a != [] && a[0] == b[0] && b[0] == c[0] {
      LexTransitive(a[1..], b[1..], c[1..]);
    }
  }

  lemma LexTransitiveAll(xs: seq<string>, a: string, b: string)
    requires forall x :: x in xs ==> LexLe(x, a)
    requires LexLe(a, b)
    ensures forall x :: x in xs ==> LexLe(x, b)
  {
    forall x | x in xs
      ensures LexLe(x, b)
    {
      LexTransitive(x, a, b);
    }
  }

  /** What `s.sort(); s[-1]` returns: the greatest element of s. */
  function Greatest(s: seq<string>): (m: string)
    requires |s| > 0
    ensures m in s
    ensures forall x :: x in s ==> LexLe(x, m)
    decreases |s|
  {
    if |s| == 1 then
      LexReflexive(s[0]);
      s[0]
    else
      var init, last := s[..|s| - 1], s[|s| - 1];
      assert s == init + [last];
      var prev := Greatest(init);
      LexReflexive(last);
      LexTotal(prev, last);
      if LexLe(prev, last) then
        LexTransitiveAll(init, prev, last);
        last
      else
        prev
  }

  /** Among a name and its single-digit versions, the order is the order of
      the digit, with the bare name first: the greatest is the highest version. */
  lemma {:induction false} VersionOrder(name: string, d1: char, d2: char)
    ensures LexLe(name, name + [d1]) && !LexLe(name + [d1], name)
    ensures LexLe(name + [d1], name + [d2]) <==> d1 <= d2
    decreases |name|
  {
    if name != [] {
      assert (name + [d1])[1..] == name[1..] + [d1];
      assert (name + [d2])[1..] == name[1..] + [d2];
      VersionOrder(name[1..], d1, d2);
    }
  }
}
