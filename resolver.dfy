/** The node-class resolver: maps a possibly abbreviated, possibly miscased
    class name to exactly one name of the plugin catalog, in three tiers
    (exact version match, case-insensitive version match, unique
    case-insensitive prefix), or fails. */
module Resolver {
  import opened Results
  import opened Text
  import opened LexOrder

  datatype ResolveError =
    | NoMatch(input: string)
    | Ambiguous(input: string, matches: seq<string>)

  /** The text of the ValueError raised for each failure: it opens by
      quoting the input, and an ambiguity lists every matching class. */
  function Message(e: ResolveError): (m: string)
    ensures "Input argument '" + e.input + "'" <= m
    ensures e.Ambiguous? ==> forall x :: x in e.matches ==> Occurs(x, m)
  {
    var head := "Input argument '" + e.input + "'";
    match e
    case NoMatch(_) =>
      head + " could not be matched to a node class"
    case Ambiguous(_, matches) =>
      var lead := head + " partially matched the following node classes:\n\t";
      ListsEveryMatch(lead, matches);
      lead + Join(matches, ", ")
  }

  /** Each class of the list shows up in a message that ends with it. */
  lemma ListsEveryMatch(lead: string, matches: seq<string>)
    ensures forall x :: x in matches ==> Occurs(x, lead + Join(matches, ", "))
  {
    forall x | x in matches
      ensures Occurs(x, lead + Join(matches, ", "))
    {
      var k :| 0 <= k < |matches| && matches[k] == x;
      JoinHasPart(matches, ", ", k);
      OccursInSuffix(x, Join(matches, ", "), lead);
    }
  }

  datatype Tier = Exact | Folded | Partial

  /** `^cand\d?$` matches item: item is cand, or cand followed by one digit. */
  predicate IsVersionOf(item: string, cand: string) {
    item == cand
    || (|item| == |cand| + 1 && item[..|cand|] == cand && IsDigit(item[|cand|]))
  }

  /** Whether the tier's pattern built from cand accepts the catalog name item.
      The candidate is read as literal text. */
  predicate Matches(tier: Tier, item: string, cand: string) {
    match tier
    case Exact => IsVersionOf(item, cand)
    case Folded => IsVersionOf(Fold(item), Fold(cand))
    case Partial => Fold(cand) <= Fold(item)
  }

  /** The names of the catalog that the tier accepts, in catalog order. */
  function Candidates(catalog: seq<string>, cand: string, tier: Tier): (ms: seq<string>)
    ensures |ms| <= |catalog|
    decreases |catalog|
  {
    if catalog == [] then []
    else
      var init, last := catalog[..|catalog| - 1], catalog[|catalog| - 1];
      Candidates(init, cand, tier) + (if Matches(tier, last, cand) then [last] else [])
  }

  /** What `getNukeNode` returns or raises. */
  function ResolveSpec(catalog: seq<string>, cand: string): Result<string, ResolveError> {
    var exact := Candidates(catalog, cand, Exact);
    var folded := Candidates(catalog, cand, Folded);
    var partial := Candidates(catalog, cand, Partial);
    if exact != [] then Ok(Greatest(exact))
    else if folded != [] then Ok(Greatest(folded))
    else if |partial| == 1 then Ok(partial[0])
    else if |partial| > 1 then Err(Ambiguous(cand, partial))
    else Err(NoMatch(cand))
  }

  /** One tier's scan of the catalog, building the list of matches. */
  method CollectMatches(catalog: seq<string>, cand: string, tier: Tier) returns (matches: seq<string>)
    ensures matches == Candidates(catalog, cand, tier)
  {
    matches := [];
    for i := 0 to |catalog|
      invariant matches == Candidates(catalog[..i], cand, tier)
    {
      assert catalog[..i + 1][..i] == catalog[..i];
      if Matches(tier, catalog[i], cand) {
        matches := matches + [catalog[i]];
      }
    }
    assert catalog[..|catalog|] == catalog;
  }

  /** `matches.sort(); return matches[-1]`, computed as a scan for the
      greatest element, which is the same string. */
  method LastInOrder(matches: seq<string>) returns (m: string)
    requires |matches| > 0
    ensures m == Greatest(matches)
  {
    m := matches[0];
    for i := 1 to |matches|
      invariant m == Greatest(matches[..i])
    {
      assert matches[..i + 1][..i] == matches[..i];
      if LexLe(m, matches[i]) {
        m := matches[i];
      }
    }
    assert matches[..|matches|] == matches;
  }

  /** `getNukeNode`. */
  method Resolve(catalog: seq<string>, cand: string) returns (r: Result<string, ResolveError>)
    ensures r == ResolveSpec(catalog, cand)
  {
    var matches := CollectMatches(catalog, cand, Exact);
    if matches != [] {
      var m := LastInOrder(matches);
      return Ok(m);
    }
    matches := CollectMatches(catalog, cand, Folded);
    if matches != [] {
      var m := LastInOrder(matches);
      return Ok(m);
    }
    matches := CollectMatches(catalog, cand, Partial);
    if matches != [] {
      if |matches| > 1 {
        return Err(Ambiguous(cand, matches));
      }
      return Ok(matches[0]);
    }
    return Err(NoMatch(cand));
  }

  // ---------------------------------------------------------------------
  // Properties of the resolver

  /** The tier's list of matches holds exactly the catalog names it accepts. */
  lemma {:induction false} CandidatesMembers(catalog: seq<string>, cand: string, tier: Tier, x: string)
    ensures x in Candidates(catalog, cand, tier) <==> x in catalog && Matches(tier, x, cand)
    decreases |catalog|
  {
    if catalog != [] {
      var init := catalog[..|catalog| - 1];
      assert catalog == init + [catalog[|catalog| - 1]];
      CandidatesMembers(init, cand, tier, x);
    }
  }

  /** An exact version match is also a case-insensitive one, and a
      case-insensitive version match is also a case-insensitive prefix match. */
  lemma TierImplications(item: string, cand: string)
    ensures Matches(Exact, item, cand) ==> Matches(Folded, item, cand)
    ensures Matches(Folded, item, cand) ==> Matches(Partial, item, cand)
  {
    if Matches(Exact, item, cand) && item != cand {
      assert Fold(item)[..|cand|] == Fold(cand);
    }
    if Matches(Folded, item, cand) && Fold(item) != Fold(cand) {
      assert Fold(item)[..|Fold(cand)|] == Fold(cand);
    }
  }

  /** Tier one: when some catalog name is the candidate or the candidate
      plus one digit (case-sensitively), the result is the greatest such name. */
  lemma ExactTierWins(catalog: seq<string>, cand: string, sample: string)
    requires sample in catalog && IsVersionOf(sample, cand)
    ensures ResolveSpec(catalog, cand).Ok?
    ensures var n := ResolveSpec(catalog, cand).value;
      n in catalog && IsVersionOf(n, cand)
      && forall m :: m in catalog && IsVersionOf(m, cand) ==> LexLe(m, n)
  {
    var exact := Candidates(catalog, cand, Exact);
    CandidatesMembers(catalog, cand, Exact, sample);
    var n := Greatest(exact);
    CandidatesMembers(catalog, cand, Exact, n);
    forall m | m in catalog && IsVersionOf(m, cand)
      ensures LexLe(m, n)
    {
      CandidatesMembers(catalog, cand, Exact, m);
    }
  }

  /** Tier two: consulted only when tier one found nothing; the result is the
      greatest name matching the candidate plus an optional digit ignoring case. */
  lemma FoldedTierWins(catalog: seq<string>, cand: string, sample: string)
    requires forall m :: m in catalog ==> !IsVersionOf(m, cand)
    requires sample in catalog && IsVersionOf(Fold(sample), Fold(cand))
    ensures ResolveSpec(catalog, cand).Ok?
    ensures var n := ResolveSpec(catalog, cand).value;
      n in catalog && IsVersionOf(Fold(n), Fold(cand))
      && forall m :: m in catalog && IsVersionOf(Fold(m), Fold(cand)) ==> LexLe(m, n)
  {
    var exact := Candidates(catalog, cand, Exact);
    var folded := Candidates(catalog, cand, Folded);
    if exact != [] {
      CandidatesMembers(catalog, cand, Exact, exact[0]);
    }
    CandidatesMembers(catalog, cand, Folded, sample);
    var n := Greatest(folded);
    CandidatesMembers(catalog, cand, Folded, n);
    forall m | m in catalog && IsVersionOf(Fold(m), Fold(cand))
      ensures LexLe(m, n)
    {
      CandidatesMembers(catalog, cand, Folded, m);
    }
  }

  /** Tier three: consulted only when neither version tier matched. One
      prefix match is the result; several are an error listing all of them
      in catalog order; none is a "could not be matched" error. */
  lemma PartialTier(catalog: seq<string>, cand: string)
    requires forall m :: m in catalog ==> !IsVersionOf(Fold(m), Fold(cand))
    ensures var partial := Candidates(catalog, cand, Partial);
      var r := ResolveSpec(catalog, cand);
      (forall x :: x in partial <==> x in catalog && Fold(cand) <= Fold(x))
      && (|partial| == 1 ==> r == Ok(partial[0]))
      && (|partial| > 1 ==> r == Err(Ambiguous(cand, partial)))
      && (partial == [] ==> r == Err(NoMatch(cand)))
  {
    var exact := Candidates(catalog, cand, Exact);
    var folded := Candidates(catalog, cand, Folded);
    if exact != [] {
      CandidatesMembers(catalog, cand, Exact, exact[0]);
      TierImplications(exact[0], cand);
    }
    if folded != [] {
      CandidatesMembers(catalog, cand, Folded, folded[0]);
    }
    forall x
      ensures x in Candidates(catalog, cand, Partial) <==> x in catalog && Fold(cand) <= Fold(x)
    {
      CandidatesMembers(catalog, cand, Partial, x);
    }
  }

  /** Whatever tier succeeds, the result is a catalog name that starts with
      the candidate when case is ignored. */
  lemma ResolvedIsCatalogName(catalog: seq<string>, cand: string)
    ensures var r := ResolveSpec(catalog, cand);
      r.Ok? ==> r.value in catalog && Fold(cand) <= Fold(r.value)
  {
    var exact := Candidates(catalog, cand, Exact);
    var folded := Candidates(catalog, cand, Folded);
    var partial := Candidates(catalog, cand, Partial);
    var r := ResolveSpec(catalog, cand);
    if r.Ok? {
      var n := r.value;
      if exact != [] {
        CandidatesMembers(catalog, cand, Exact, n);
      } else if folded != [] {
        CandidatesMembers(catalog, cand, Folded, n);
      } else {
        CandidatesMembers(catalog, cand, Partial, n);
      }
      TierImplications(n, cand);
    }
  }

  /** The tie-break between version-suffixed names picks the highest digit. */
  lemma BlurExample()
    ensures ResolveSpec(["Blur", "Blur2"], "Blur") == Ok("Blur2")
  {
    var catalog := ["Blur", "Blur2"];
    assert catalog[..1] == ["Blur"];
    assert catalog[..1][..0] == [];
    assert IsVersionOf("Blur2", "Blur");
    assert Candidates(catalog, "Blur", Exact) == ["Blur", "Blur2"];
    VersionOrder("Blur", '2', '2');
    assert Greatest(["Blur", "Blur2"]) == "Blur2";
  }

  /** The folded tier sorts its matches case-sensitively, so the last match
      need not carry the highest digit: with no exact match for "blur",
      "Blur" sorts after "BLUR2" ('l' comes after 'L') and is returned. */
  lemma FoldedTierSortsByCase()
    ensures ResolveSpec(["Blur", "BLUR2"], "blur") == Ok("Blur")
  {
    CaseExampleTiers();
    CaseExampleGreatest();
  }

  lemma CaseExampleTiers()
    ensures Candidates(["Blur", "BLUR2"], "blur", Exact) == []
    ensures Candidates(["Blur", "BLUR2"], "blur", Folded) == ["Blur", "BLUR2"]
  {
    var catalog := ["Blur", "BLUR2"];
    assert catalog[..1] == ["Blur"];
    assert catalog[..1][..0] == [];
    assert "Blur"[0] != "blur"[0];
    assert "BLUR2"[..4][0] != "blur"[0];
    assert Fold("Blur") == "blur" && Fold("BLUR2") == "blur2";
  }

  lemma CaseExampleGreatest()
    ensures Greatest(["Blur", "BLUR2"]) == "Blur"
  {
    assert !LexLe("Blur", "BLUR2") by {
      assert "Blur"[1..][0] > "BLUR2"[1..][0];
    }
  }
}
