/** Identifiers for captured nodes. The source draws them from a hash of a
    random number; here the k-th identifier handed out in one compilation is
    "N" followed by k in decimal, so identifiers are distinct by construction. */
module NodeIds {
  import opened Results
  import opened Text

  function DigitChar(d: nat): (c: char)
    requires d < 10
    ensures IsDigit(c)
  {
    ('0' as int + d) as char
  }

  /** The decimal numeral of n, without leading zeros. */
  function Decimal(n: nat): (s: string)
    ensures |s| >= 1
    ensures forall i :: 0 <= i < |s| ==> IsDigit(s[i])
    decreases n
  {
    if n < 10 then [DigitChar(n)] else Decimal(n / 10) + [DigitChar(n % 10)]
  }

  /** The number a string of decimal digits denotes. */
  function DigitsValue(s: string): nat
    requires forall i :: 0 <= i < |s| ==> IsDigit(s[i])
    decreases |s|
  {
    if s == [] then 0
    else
      assert IsDigit(s[|s| - 1]);
      DigitsValue(s[..|s| - 1]) * 10 + (s[|s| - 1] as int - '0' as int)
  }

  /** The identifier of the k-th capture in a compilation. */
  function NodeId(k: nat): (id: string)
    ensures |id| >= 2 && id[0] == 'N'
  {
    "N" + Decimal(k)
  }

  /** Reads back the counter value of an identifier of the NodeId form. */
  function ParseNodeId(id: string): Option<nat> {
    if |id| >= 2 && id[0] == 'N' && forall i :: 1 <= i < |id| ==> IsDigit(id[i])
    then Some(DigitsValue(id[1..]))
    else None
  }

  lemma {:induction false} DecimalRoundTrip(n: nat)
    ensures DigitsValue(Decimal(n)) == n
    decreases n
  {
    var s := Decimal(n);
    if n >= 10 {
      DecimalRoundTrip(n / 10);
      assert s[..|s| - 1] == Decimal(n / 10);
    }
  }

  /** Reading an identifier back gives the counter it was made from. */
  lemma NodeIdRoundTrip(k: nat)
    ensures ParseNodeId(NodeId(k)) == Some(k)
  {
    var id := NodeId(k);
    assert id[1..] == Decimal(k);
    DecimalRoundTrip(k);
  }

  /** Distinct counter values give distinct identifiers. */
  lemma NodeIdInjective(a: nat, b: nat)
    ensures NodeId(a) == NodeId(b) <==> a == b
  {
    NodeIdRoundTrip(a);
    NodeIdRoundTrip(b);
  }
}
