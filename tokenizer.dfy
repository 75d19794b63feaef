/** The argument tokenizer: cuts the command line into flag segments at
    every " -", and each segment into tokens with the pattern
    `\{[{}.0-9\s]+\}|[^\s]+`, written out by hand. */
module Tokenizer {
  import opened Results
  import opened Text

  // ---------------------------------------------------------------------
  // Flag segments

  /** No piece of a split contains the separator " -". */
  predicate NoSeparator(p: string) {
    forall i :: 0 <= i < |p| - 1 ==> !(p[i] == ' ' && p[i + 1] == '-')
  }

  /** `s.split(' -')`: cut at every occurrence of a space followed by a dash,
      scanning from the left. */
  function SplitDash(s: string): (pieces: seq<string>)
    ensures |pieces| >= 1
    ensures pieces[0] <= s
    decreases |s|
  {
    if |s| < 2 then [s]
    else if s[0] == ' ' && s[1] == '-' then [""] + SplitDash(s[2..])
    else
      var rest := SplitDash(s[1..]);
      [[s[0]] + rest[0]] + rest[1..]
  }

  /** Joining the pieces with the separator gives back the input. */
  lemma {:induction false} SplitDashJoin(s: string)
    ensures Join(SplitDash(s), " -") == s
    decreases |s|
  {
    if |s| < 2 {
    } else if s[0] == ' ' && s[1] == '-' {
      var rest := SplitDash(s[2..]);
      SplitDashJoin(s[2..]);
      assert ([""] + rest)[1..] == rest;
      assert s == " -" + s[2..];
    } else {
      var rest := SplitDash(s[1..]);
      SplitDashJoin(s[1..]);
      var pieces := [[s[0]] + rest[0]] + rest[1..];
      if |rest| == 1 {
        assert s == [s[0]] + s[1..];
      } else {
        assert pieces[1..] == rest[1..];
        assert Join(rest, " -") == rest[0] + " -" + Join(rest[1..], " -");
        assert s == [s[0]] + s[1..];
      }
    }
  }

  /** No piece of the split still contains the separator. */
  lemma {:induction false} SplitDashPiecesFree(s: string)
    ensures forall k :: 0 <= k < |SplitDash(s)| ==> NoSeparator(SplitDash(s)[k])
    decreases |s|
  {
    if |s| < 2 {
    } else if s[0] == ' ' && s[1] == '-' {
      SplitDashPiecesFree(s[2..]);
      var rest := SplitDash(s[2..]);
      assert forall k :: 1 <= k < |[""] + rest| ==> ([""] + rest)[k] == rest[k - 1];
    } else {
      SplitDashPiecesFree(s[1..]);
      var rest := SplitDash(s[1..]);
      var head := [s[0]] + rest[0];
      assert NoSeparator(rest[0]);
      if |rest[0]| > 0 {
        assert rest[0][0] == s[1];
      }
      assert NoSeparator(head) by {
        forall i | 0 <= i < |head| - 1
          ensures !(head[i] == ' ' && head[i + 1] == '-')
        {
          if i > 0 {
            assert head[i] == rest[0][i - 1] && head[i + 1] == rest[0][i];
          }
        }
      }
      var pieces := [head] + rest[1..];
      assert forall k :: 1 <= k < |pieces| ==> pieces[k] == rest[k];
    }
  }

  /** `[i.strip() for i in pieces if i]`: emptiness is tested before
      stripping, so a piece of white space alone survives as "". */
  function KeepStripped(pieces: seq<string>): (segs: seq<string>)
    ensures |segs| <= |pieces|
    decreases |pieces|
  {
    if pieces == [] then []
    else (if pieces[0] == "" then [] else [Strip(pieces[0])]) + KeepStripped(pieces[1..])
  }

  /** The pieces that are not empty, in order. */
  function NonEmpty(pieces: seq<string>): (r: seq<string>)
    ensures forall p :: p in r <==> p in pieces && p != ""
    decreases |pieces|
  {
    if pieces == [] then []
    else (if pieces[0] == "" then [] else [pieces[0]]) + NonEmpty(pieces[1..])
  }

  function StripAll(ps: seq<string>): (r: seq<string>)
    ensures |r| == |ps| && forall k :: 0 <= k < |ps| ==> r[k] == Strip(ps[k])
    decreases |ps|
  {
    if ps == [] then [] else [Strip(ps[0])] + StripAll(ps[1..])
  }

  /** The filter runs before the strip: the segments are the non-empty
      pieces, stripped, in order, so a piece of white space alone becomes an
      empty segment instead of being dropped. */
  lemma {:induction false} SegmentsFilterThenStrip(pieces: seq<string>)
    ensures KeepStripped(pieces) == StripAll(NonEmpty(pieces))
    decreases |pieces|
  {
    if pieces != [] {
      SegmentsFilterThenStrip(pieces[1..]);
      var rest := NonEmpty(pieces[1..]);
      if pieces[0] != "" {
        var ne := [pieces[0]] + rest;
        assert NonEmpty(pieces) == ne;
        assert ne[0] == pieces[0] && ne[1..] == rest;
        assert StripAll(ne) == [Strip(pieces[0])] + StripAll(rest);
        assert KeepStripped(pieces) == [Strip(pieces[0])] + KeepStripped(pieces[1..]);
      } else {
        assert NonEmpty(pieces) == [] + rest == rest;
        assert KeepStripped(pieces) == [] + KeepStripped(pieces[1..]) == KeepStripped(pieces[1..]);
      }
    }
  }

  /** A piece of white space alone is kept as an empty segment. */
  lemma {:induction false} BlankPieceKept(pieces: seq<string>, k: nat)
    requires k < |pieces| && pieces[k] != "" && AllSpace(pieces[k])
    ensures "" in KeepStripped(pieces)
    decreases k
  {
    if k == 0 {
      assert KeepStripped(pieces) == [Strip(pieces[0])] + KeepStripped(pieces[1..]);
    } else {
      assert pieces[1..][k - 1] == pieces[k];
      BlankPieceKept(pieces[1..], k - 1);
      var head := if pieces[0] == "" then [] else [Strip(pieces[0])];
      assert KeepStripped(pieces) == head + KeepStripped(pieces[1..]);
    }
  }

  /** A slice of a piece without the separator has none either. */
  lemma SliceNoSeparator(p: string, i: nat, j: nat)
    requires i <= j <= |p| && NoSeparator(p)
    ensures NoSeparator(p[i..j])
  {
    forall k | 0 <= k < j - i - 1
      ensures !(p[i..j][k] == ' ' && p[i..j][k + 1] == '-')
    {
      assert p[i..j][k] == p[i + k] && p[i..j][k + 1] == p[i + k + 1];
    }
  }

  /** A segment as `parseCLI` leaves it: free of the separator, and
      neither starting nor ending with white space. */
  predicate CleanSegment(seg: string) {
    NoSeparator(seg) && (seg == [] || (!IsSpace(seg[0]) && !IsSpace(seg[|seg| - 1])))
  }

  /** Stripping a piece free of the separator leaves a clean segment. */
  lemma StrippedPiece(p: string)
    requires NoSeparator(p)
    ensures CleanSegment(Strip(p))
  {
    var i, j :| 0 <= i <= j <= |p| && Strip(p) == p[i..j] && AllSpace(p[..i]) && AllSpace(p[j..]);
    SliceNoSeparator(p, i, j);
  }

  /** Stripping pieces free of the separator leaves clean segments. */
  lemma StrippedSegments(pieces: seq<string>)
    requires forall k :: 0 <= k < |pieces| ==> NoSeparator(pieces[k])
    ensures forall seg :: seg in StripAll(NonEmpty(pieces)) ==> CleanSegment(seg)
  {
    var ne := NonEmpty(pieces);
    var segs := StripAll(ne);
    forall k | 0 <= k < |segs|
      ensures CleanSegment(segs[k])
    {
      assert ne[k] in pieces;
      var m :| 0 <= m < |pieces| && pieces[m] == ne[k];
      StrippedPiece(ne[k]);
    }
  }

  /** The command segments of a raw command line: a space is put in front,
      so a leading "-" opens the first segment. The segments are the
      non-empty pieces of the split, stripped, in order; none contains the
      separator and none starts or ends with white space. */
  function Segments(raw: string): (segs: seq<string>)
    ensures segs == StripAll(NonEmpty(SplitDash(" " + raw)))
    ensures forall seg :: seg in segs ==> CleanSegment(seg)
  {
    var pieces := SplitDash(" " + raw);
    SegmentsFilterThenStrip(pieces);
    SplitDashPiecesFree(" " + raw);
    StrippedSegments(pieces);
    KeepStripped(pieces)
  }

  // ---------------------------------------------------------------------
  // Tokens

  /** The class `[{}.0-9\s]` of the brace alternative. */
  predicate InBraceClass(c: char) {
    c == '{' || c == '}' || c == '.' || IsDigit(c) || IsSpace(c)
  }

  /** The length of the longest run of brace-class characters from index i. */
  function BraceRun(s: string, i: nat): (n: nat)
    requires i <= |s|
    ensures i + n <= |s|
    ensures forall k :: i <= k < i + n ==> InBraceClass(s[k])
    ensures i + n == |s| || !InBraceClass(s[i + n])
    decreases |s| - i
  {
    if i < |s| && InBraceClass(s[i]) then 1 + BraceRun(s, i + 1) else 0
  }

  /** The last index j with lo <= j <= hi and s[j] == '}', if any. */
  function LastClose(s: string, lo: nat, hi: int): (r: Option<nat>)
    requires hi < |s|
    ensures r.Some? ==> lo <= r.value <= hi && s[r.value] == '}'
    ensures r.Some? ==> forall k :: r.value < k <= hi ==> s[k] != '}'
    ensures r.None? ==> forall k :: lo <= k <= hi ==> s[k] != '}'
    decreases hi - lo + 1
  {
    if hi < lo then None
    else if s[hi] == '}' then Some(hi)
    else LastClose(s, lo, hi - 1)
  }

  /** The length of the longest run of non-white-space characters from index i. */
  function WordRun(s: string, i: nat): (n: nat)
    requires i <= |s|
    ensures i + n <= |s|
    ensures forall k :: i <= k < i + n ==> !IsSpace(s[k])
    ensures i + n == |s| || IsSpace(s[i + n])
    decreases |s| - i
  {
    if i < |s| && !IsSpace(s[i]) then 1 + WordRun(s, i + 1) else 0
  }

  /** A token of the first alternative: braces around at least one
      brace-class character. Nesting is not checked. */
  predicate IsBraceGroup(t: string) {
    |t| >= 3 && t[0] == '{' && t[|t| - 1] == '}'
    && forall k :: 0 < k < |t| - 1 ==> InBraceClass(t[k])
  }

  /** A token of the second alternative. */
  predicate IsWord(t: string) {
    |t| >= 1 && forall k :: 0 <= k < |t| ==> !IsSpace(t[k])
  }

  /** With the brace run from index 1 ending at index run, and j the last
      '}' of that run (from index 2), s[..j + 1] is the longest prefix of s
      that the brace alternative accepts. */
  lemma BraceLongest(s: string, run: nat, j: nat)
    requires |s| >= 1 && s[0] == '{' && run == BraceRun(s, 1)
    requires 2 <= j <= run && s[j] == '}'
    requires forall k :: j < k <= run ==> s[k] != '}'
    ensures IsBraceGroup(s[..j + 1])
    ensures forall m :: j + 1 < m <= |s| ==> !IsBraceGroup(s[..m])
  {
    forall m | j + 1 < m <= |s|
      ensures !IsBraceGroup(s[..m])
    {
      if m > run + 1 {
        RunEndsBefore(s, run, m);
      } else {
        assert s[..m][m - 1] == s[m - 1];
      }
    }
  }

  /** A prefix s[..m] that reaches past the brace run from index 1 has a
      character outside the brace class before its last position, or ends
      on one. */
  lemma RunEndsBefore(s: string, run: nat, m: nat)
    requires |s| >= 1 && run == BraceRun(s, 1)
    requires run + 2 <= m <= |s|
    ensures !IsBraceGroup(s[..m])
  {
    if 1 + run == m - 1 {
      assert s[..m][m - 1] == s[1 + run];
    } else {
      assert s[..m][1 + run] == s[1 + run];
    }
  }

  /** With no '}' in the brace run from index 2, no prefix of s is accepted
      by the brace alternative. */
  lemma NoBracePrefix(s: string, run: nat)
    requires |s| >= 1 && s[0] == '{' && run == BraceRun(s, 1)
    requires forall k :: 2 <= k <= run ==> s[k] != '}'
    ensures forall m :: 0 <= m <= |s| ==> !IsBraceGroup(s[..m])
  {
    forall m | 0 <= m <= |s|
      ensures !IsBraceGroup(s[..m])
    {
      if m > run + 1 {
        RunEndsBefore(s, run, m);
      } else if m >= 3 {
        assert s[..m][m - 1] == s[m - 1];
      }
    }
  }

  /** The length of the match of `\{[{}.0-9\s]+\}|[^\s]+` at the start of s.
      The first alternative is tried first, and its greedy run backtracks
      only as far as the last '}': when some prefix of s is a brace group,
      the match is the longest one. Otherwise the second alternative takes
      the whole run of non-white-space. */
  function TokenLength(s: string): (n: nat)
    requires s != [] && !IsSpace(s[0])
    ensures 1 <= n <= |s|
    ensures IsBraceGroup(s[..n]) || IsWord(s[..n])
    ensures (exists j :: 0 <= j <= |s| && IsBraceGroup(s[..j])) ==>
      IsBraceGroup(s[..n]) && forall j :: n < j <= |s| ==> !IsBraceGroup(s[..j])
    ensures (forall j :: 0 <= j <= |s| ==> !IsBraceGroup(s[..j])) ==>
      IsWord(s[..n]) && (n == |s| || IsSpace(s[n]))
  {
    if s[0] == '{' then
      var run := BraceRun(s, 1);
      match LastClose(s, 2, run)
      case Some(j) =>
        BraceLongest(s, run, j);
        j + 1
      case None =>
        NoBracePrefix(s, run);
        WordRun(s, 0)
    else
      assert forall j :: 0 <= j <= |s| ==> !IsBraceGroup(s[..j]) by {
        forall j | 0 <= j <= |s|
          ensures !IsBraceGroup(s[..j])
        {
          if j > 0 {
            assert s[..j][0] == s[0];
          }
        }
      }
      WordRun(s, 0)
  }

  /** `re.findall` with the token pattern. Each token is a brace group or a
      word, and there are no tokens exactly when s is all white space. */
  function Tokens(s: string): (ts: seq<string>)
    ensures forall k :: 0 <= k < |ts| ==> IsBraceGroup(ts[k]) || IsWord(ts[k])
    ensures ts == [] <==> AllSpace(s)
    decreases |s|
  {
    if s == [] then []
    else if IsSpace(s[0]) then Tokens(s[1..])
    else
      var n := TokenLength(s);
      [s[..n]] + Tokens(s[n..])
  }

  /** A brace value is one token, up to its closing brace, as long as the
      brace-class run that follows it holds no later '}'. */
  lemma BraceValueIsOneToken(body: string, rest: string)
    requires |body| >= 1 && forall k :: 0 <= k < |body| ==> InBraceClass(body[k])
    requires forall k :: 0 <= k < BraceRun(rest, 0) ==> rest[k] != '}'
    ensures Tokens("{" + body + "}" + rest) == ["{" + body + "}"] + Tokens(rest)
  {
    var value := "{" + body + "}";
    var s := value + rest;
    var m := |value|;
    assert s[..m] == value && s[m..] == rest;
    assert IsBraceGroup(value) by {
      forall k | 0 < k < m - 1
        ensures InBraceClass(value[k])
      {
        assert value[k] == body[k - 1];
      }
    }
    NoLongerBraceGroup(s, m, rest);
    var n := TokenLength(s);
    assert n == m;
  }

  /** Past a prefix of length m >= 1, when the brace-class run of what
      follows holds no '}', no longer prefix is a brace group. */
  lemma NoLongerBraceGroup(s: string, m: nat, rest: string)
    requires 1 <= m <= |s| && s[m..] == rest
    requires forall k :: 0 <= k < BraceRun(rest, 0) ==> rest[k] != '}'
    ensures forall j :: m < j <= |s| ==> !IsBraceGroup(s[..j])
  {
    var b := BraceRun(rest, 0);
    forall j | m < j <= |s|
      ensures !IsBraceGroup(s[..j])
    {
      if j - 1 - m < b {
        assert s[..j][j - 1] == rest[j - 1 - m];
      } else if m + b == j - 1 {
        assert s[..j][j - 1] == rest[b];
      } else {
        assert s[..j][m + b] == rest[b];
      }
    }
  }

  /** Two brace values with only white space between them are one token: the
      greedy run crosses the space, and the match ends at the last '}'. */
  lemma AdjacentBraceValuesMerge()
    ensures Tokens("{1} {2}") == ["{1} {2}"]
  {
    var s := "{1} {2}";
    assert s[..7] == s && s[7..] == [];
    assert IsBraceGroup(s[..7]);
    assert TokenLength(s) == 7;
  }

  /** Tokens never lose or invent a non-white-space character: their
      characters, white space aside, are those of the segment, in order. */
  lemma {:induction false} TokensCover(s: string)
    ensures Squeeze(Concat(Tokens(s))) == Squeeze(s)
    decreases |s|
  {
    if s == [] {
    } else if IsSpace(s[0]) {
      TokensCover(s[1..]);
    } else {
      var n := TokenLength(s);
      TokensCover(s[n..]);
      CoverStep(s, n, Tokens(s[n..]));
    }
  }

  /** One token step of TokensCover: the token s[..n] followed by tokens
      that cover s[n..] covers s. */
  lemma CoverStep(s: string, n: nat, ts: seq<string>)
    requires n <= |s| && Squeeze(Concat(ts)) == Squeeze(s[n..])
    ensures Squeeze(Concat([s[..n]] + ts)) == Squeeze(s)
  {
    assert ([s[..n]] + ts)[1..] == ts;
    SqueezeAppend(s[..n], Concat(ts));
    SqueezeAppend(s[..n], s[n..]);
    assert s == s[..n] + s[n..];
  }

  /** Words that hold no white space and do not open with a brace come back
      unchanged from tokenizing their space-joined text. */
  lemma {:induction false} TokensOfJoinedWords(ws: seq<string>)
    requires forall k :: 0 <= k < |ws| ==> IsWord(ws[k]) && ws[k][0] != '{'
    ensures Tokens(Join(ws, " ")) == ws
    decreases |ws|
  {
    if ws == [] {
    } else {
      var w := ws[0];
      if |ws| == 1 {
        assert WordRun(w, 0) == |w| by { WordRunWhole(w, "", 0); }
        assert w[..|w|] == w && w[|w|..] == [];
      } else {
        var tail := Join(ws[1..], " ");
        var s := w + " " + tail;
        assert WordRun(s, 0) == |w| by { WordRunWhole(w, " " + tail, 0); assert s == w + (" " + tail); }
        assert s[..|w|] == w;
        assert s[|w|..] == " " + tail;
        assert (" " + tail)[1..] == tail;
        TokensOfJoinedWords(ws[1..]);
      }
    }
  }

  lemma {:induction false} WordRunWhole(w: string, rest: string, i: nat)
    requires i <= |w|
    requires forall k :: 0 <= k < |w| ==> !IsSpace(w[k])
    requires rest == [] || IsSpace(rest[0])
    ensures WordRun(w + rest, i) == |w| - i
    decreases |w| - i
  {
    if i < |w| {
      WordRunWhole(w, rest, i + 1);
    } else if rest != [] {
      assert (w + rest)[i] == rest[0];
    }
  }

  // ---------------------------------------------------------------------
  // Commands

  datatype Command = Command(name: string, args: seq<string>)

  /** `parseLine`: the first token is the command, the rest its arguments.
      A segment of white space alone has no first token, which the source
      meets with an IndexError. */
  function ParseLine(line: string): (r: Option<Command>)
    ensures r.None? <==> AllSpace(line)
    ensures r.Some? ==> IsBraceGroup(r.value.name) || IsWord(r.value.name)
  {
    var ts := Tokens(line);
    if ts == [] then None else Some(Command(ts[0], ts[1..]))
  }
}
