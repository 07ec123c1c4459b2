/** `Time.from_duration_string`: reads a duration string such as "3h 5m" or
    "2d,8h,49m,3s" into a number of milliseconds. The input is stripped of
    surrounding whitespace and split on a one-character delimiter; every
    segment must be one or more ASCII digits followed by one or more ASCII
    letters naming a unit of the table, and the segments' values are summed. */
module DurationParse {
  import opened Text
  import opened Units

  /** Why a duration string was refused. */
  datatype ParseError =
    | NoMatch(segment: string)       // the pattern does not match at the start of the segment
    | PartialMatch(segment: string)  // it matches a proper prefix only: likely the wrong delimiter
    | UnknownUnit(unit: string)      // the letters are not a suffix of the unit table

  datatype Result<T> = Ok(value: T) | Err(error: ParseError)

  /** The pattern `(\d+)([a-zA-Z]+)` matches a prefix of `seg`: some digits,
      then at least one letter. */
  ghost predicate StartsWithToken(seg: string) {
    exists i :: 0 < i < |seg| && AllDigits(seg[..i]) && IsLetter(seg[i])
  }

  /** The pattern matches all of `seg`. */
  ghost predicate IsToken(seg: string) {
    exists i :: 0 < i < |seg| && AllDigits(seg[..i]) && AllLetters(seg[i..])
  }

  /** A match of `(\d+)([a-zA-Z]+)` at the start of a segment, given by
      where group 1 (the digits) ends and where the whole match, group 0,
      ends; group 2 (the letters) lies between. */
  datatype Match = Match(digitsEnd: nat, end: nat)

  /** `re.match` of the pattern `(\d+)([a-zA-Z]+)` on `seg`: anchored at the
      start, both runs greedy. Letters are never digits, so the greedy digit
      run is the only one after which the letters can start.
      `MatchPrefixGroups` states what the groups hold. */
  function MatchPrefix(seg: string): (m: Option<Match>)
    ensures m.Some? ==> 0 < m.get.digitsEnd < m.get.end <= |seg|
  {
    var i := CountLeading(seg, Digit);
    var j := CountLeading(seg[i..], Letter);
    if i == 0 || j == 0 then None else Some(Match(i, i + j))
  }

  /** The pattern matches exactly when the segment starts with digits
      followed by a letter; group 1 is then all digits, group 2 all letters,
      and group 2 stops at the first character that is not a letter. */
  lemma MatchPrefixGroups(seg: string)
    ensures MatchPrefix(seg).Some? <==> StartsWithToken(seg)
    ensures MatchPrefix(seg).Some? ==>
              var m := MatchPrefix(seg).get;
              && AllDigits(seg[..m.digitsEnd])
              && AllLetters(seg[m.digitsEnd..m.end])
              && (m.end < |seg| ==> !IsLetter(seg[m.end]))
  {
    var i := CountLeading(seg, Digit);
    var j := CountLeading(seg[i..], Letter);
    if i > 0 && j > 0 {
      assert seg[i..][0] == seg[i];
      assert forall k :: i <= k < i + j ==> seg[k] == seg[i..][k - i];
    }
  }

  /** One segment of the loop in `from_duration_string`: match the pattern,
      require that the match is the whole segment (group 0 equals the
      segment exactly when the match ends where the segment does), look the
      letters up in the table and multiply its magnitude by the number. */
  function SegmentValue(seg: string): Result<nat> {
    match MatchPrefix(seg)
    case None => Err(NoMatch(seg))
    case Some(m) =>
      if m.end != |seg| then Err(PartialMatch(seg))
      else
        var unit := seg[m.digitsEnd..];
        match Lookup(unit)
        case None => Err(UnknownUnit(unit))
        case Some(magnitude) => Ok(DecimalValue(seg[..m.digitsEnd]) * magnitude)
  }

  /** An accepted segment starts with a digit and ends with a letter; a
      refused one is named in the error, or its letters are, when they are
      not a suffix of the table. */
  lemma SegmentValueShape(seg: string)
    ensures SegmentValue(seg).Ok? ==> 2 <= |seg| && IsDigit(seg[0]) && IsLetter(seg[|seg| - 1])
    ensures SegmentValue(seg).Err? && !SegmentValue(seg).error.UnknownUnit? ==>
              SegmentValue(seg).error.segment == seg
    ensures SegmentValue(seg).Err? && SegmentValue(seg).error.UnknownUnit? ==>
              var unit := SegmentValue(seg).error.unit;
              |unit| > 0 && AllLetters(unit) && Lookup(unit).None? && unit == seg[|seg| - |unit|..]
  {
    MatchPrefixGroups(seg);
    if MatchPrefix(seg).Some? {
      var m := MatchPrefix(seg).get;
      assert seg[..m.digitsEnd][0] == seg[0];
      if m.end == |seg| {
        assert seg[m.digitsEnd..m.end] == seg[m.digitsEnd..];
      }
    }
  }

  /** A segment made of digits and then letters is worth the number times
      the unit's magnitude when the letters are a suffix of the table
      (compared exactly, so case matters), and is refused naming the unit
      otherwise. */
  lemma SegmentOfToken(digits: string, unit: string)
    requires |digits| > 0 && AllDigits(digits)
    requires |unit| > 0 && AllLetters(unit)
    ensures SegmentValue(digits + unit) ==
              match Lookup(unit)
              case Some(magnitude) => Ok(DecimalValue(digits) * magnitude)
              case None => Err(UnknownUnit(unit))
  {
    var seg := digits + unit;
    CountLeadingIs(seg, Digit, |digits|);
    assert seg[|digits|..] == unit;
    CountLeadingIs(unit, Letter, |unit|);
    assert seg[..|digits|] == digits;
  }

  /** Which of the three errors a segment draws, in terms of the pattern:
      no match at all, a match of a proper prefix only, or neither. */
  lemma SegmentErrorKinds(seg: string)
    ensures SegmentValue(seg) == Err(NoMatch(seg)) <==> !StartsWithToken(seg)
    ensures SegmentValue(seg) == Err(PartialMatch(seg)) <==> StartsWithToken(seg) && !IsToken(seg)
    ensures SegmentValue(seg).Ok? ==> IsToken(seg)
  {
    MatchPrefixGroups(seg);
    var m := MatchPrefix(seg);
    if m.Some? {
      if m.get.end == |seg| {
        assert seg[m.get.digitsEnd..m.get.end] == seg[m.get.digitsEnd..];
        assert IsToken(seg);
      } else {
        NotToken(seg, m.get.digitsEnd, m.get.end);
      }
    }
  }

  /** A match that stops before the end of the segment leaves a character
      that is not a letter, so the segment is not a token. */
  lemma NotToken(seg: string, i: nat, e: nat)
    requires 0 < i < e < |seg|
    requires AllDigits(seg[..i]) && IsLetter(seg[i]) && !IsLetter(seg[e])
    ensures !IsToken(seg)
  {
    forall w | i < w <= |seg|
      ensures !AllDigits(seg[..w])
    {
      assert seg[..w][i] == seg[i];
    }
    forall w | 0 < w <= i
      ensures !AllLetters(seg[w..])
    {
      assert seg[w..][e - w] == seg[e];
    }
  }


  /** Adds the value of one more segment to a running total; the first error
      met is the one reported. */
  function Then(acc: Result<nat>, next: Result<nat>): Result<nat> {
    if acc.Err? then acc else if next.Err? then next else Ok(acc.value + next.value)
  }

  /** Runs the accumulation over segment outcomes left to right. */
  function Sum(rs: seq<Result<nat>>): Result<nat> {
    if rs == [] then Ok(0) else Then(Sum(rs[..|rs| - 1]), rs[|rs| - 1])
  }

  /** The outcome of each segment on its own. */
  function Outcomes(segs: seq<string>): (rs: seq<Result<nat>>)
    ensures |rs| == |segs|
  {
    seq(|segs|, k requires 0 <= k < |segs| => SegmentValue(segs[k]))
  }

  lemma OutcomeAt(segs: seq<string>, k: nat)
    requires k < |segs|
    ensures Outcomes(segs)[k] == SegmentValue(segs[k])
  {
  }

  /** The outcome of the loop over `segs`. */
  function Total(segs: seq<string>): Result<nat> {
    Sum(Outcomes(segs))
  }

  /** What `from_duration_string(s, delim=delim)` returns or raises. */
  function Parse(s: string, delim: char): Result<nat> {
    Total(Split(Strip(s), delim))
  }

  /** `Time.from_duration_string` (timeutils.py): the loop over the
      segments with its running total; each of the three checks on a
      segment leaves with its error. */
  method FromDurationString(str: string, delim: char) returns (r: Result<nat>)
    ensures r == Parse(str, delim)
  {
    var parts := Split(Strip(str), delim);
    var duration: nat := 0;
    var n := 0;
    while n < |parts|
      invariant 0 <= n <= |parts|
      invariant Total(parts[..n]) == Ok(duration)
    {
      var part := parts[n];
      TotalStep(parts, n, duration);
      var m := MatchPrefix(part);
      if m.None? {
        return Err(NoMatch(part));
      }
      if m.get.end != |part| {
        return Err(PartialMatch(part));
      }
      var unit := part[m.get.digitsEnd..];
      var magnitude := Lookup(unit);
      if magnitude.None? {
        return Err(UnknownUnit(unit));
      }
      duration := duration + DecimalValue(part[..m.get.digitsEnd]) * magnitude.get;
      n := n + 1;
    }
    assert parts[..n] == parts;
    r := Ok(duration);
  }

  // ------------------------------------------------------------ the total

  /** Accumulating a concatenation: the first part's error, else the
      second's, else the sum of both totals. */
  lemma {:induction false} SumAppend(a: seq<Result<nat>>, b: seq<Result<nat>>)
    ensures Sum(a + b) == Then(Sum(a), Sum(b))
    decreases |b|
  {
    if b == [] {
      assert a + b == a;
    } else {
      var b' := b[..|b| - 1];
      assert (a + b)[..|a + b| - 1] == a + b';
      SumAppend(a, b');
    }
  }

  /** The accumulation succeeds exactly when every outcome does, and its
      result is then at least each outcome's value. */
  lemma {:induction false} SumOk(rs: seq<Result<nat>>)
    ensures Sum(rs).Ok? <==> forall k :: 0 <= k < |rs| ==> rs[k].Ok?
    ensures Sum(rs).Ok? ==> forall k :: 0 <= k < |rs| ==> rs[k].value <= Sum(rs).value
    decreases |rs|
  {
    if rs != [] {
      var init := rs[..|rs| - 1];
      SumOk(init);
      assert forall k :: 0 <= k < |init| ==> init[k] == rs[k];
    }
  }

  /** One pass of the loop in `from_duration_string`: with the segments
      before `segs[n]` accepted and summing to `acc`, each of the three
      checks on `segs[n]` that fails decides the outcome of the whole
      string, and a segment that passes them adds its value to `acc`. */
  lemma TotalStep(segs: seq<string>, n: nat, acc: nat)
    requires n < |segs|
    requires Total(segs[..n]) == Ok(acc)
    ensures var seg, m := segs[n], MatchPrefix(segs[n]);
            && (m.None? ==> Total(segs) == Err(NoMatch(seg)))
            && (m.Some? && m.get.end != |seg| ==> Total(segs) == Err(PartialMatch(seg)))
            && (m.Some? && m.get.end == |seg| && Lookup(seg[m.get.digitsEnd..]).None? ==>
                  Total(segs) == Err(UnknownUnit(seg[m.get.digitsEnd..])))
            && (m.Some? && m.get.end == |seg| && Lookup(seg[m.get.digitsEnd..]).Some? ==>
                  Total(segs[..n + 1]) ==
                    Ok(acc + DecimalValue(seg[..m.get.digitsEnd]) * Lookup(seg[m.get.digitsEnd..]).get))
  {
    var rs := Outcomes(segs);
    assert Outcomes(segs[..n]) == rs[..n];
    assert Outcomes(segs[..n + 1]) == rs[..n + 1];
    OutcomeAt(segs, n);
    if rs[n].Err? {
      FirstError(rs, n);
    } else {
      SumStep(rs, n, acc);
    }
  }

  /** One more outcome added to a running total. */
  lemma SumStep(rs: seq<Result<nat>>, n: nat, acc: nat)
    requires n < |rs|
    requires Sum(rs[..n]) == Ok(acc)
    ensures Sum(rs[..n + 1]) == Then(Ok(acc), rs[n])
  {
    assert rs[..n + 1][..n] == rs[..n];
  }

  /** The error reported is that of the first outcome that fails. */
  lemma FirstError(rs: seq<Result<nat>>, k: nat)
    requires k < |rs|
    requires Sum(rs[..k]).Ok?
    requires rs[k].Err?
    ensures Sum(rs) == rs[k]
  {
    assert rs[..k + 1][..k] == rs[..k];
    assert rs == rs[..k + 1] + rs[k + 1..];
    SumAppend(rs[..k + 1], rs[k + 1..]);
  }

  /** A failed accumulation reports the error of its first failing
      outcome. */
  lemma {:induction false} SumError(rs: seq<Result<nat>>)
    ensures Sum(rs).Err? ==>
              exists k :: 0 <= k < |rs| && Sum(rs) == rs[k] && forall j :: 0 <= j < k ==> rs[j].Ok?
    decreases |rs|
  {
    if rs != [] && Sum(rs).Err? {
      var init := rs[..|rs| - 1];
      SumError(init);
      SumOk(init);
      assert Sum(rs) == Then(Sum(init), rs[|rs| - 1]);
      if Sum(init).Err? {
        var k :| 0 <= k < |init| && Sum(init) == init[k] && forall j :: 0 <= j < k ==> init[j].Ok?;
        assert forall j :: 0 <= j < k ==> rs[j] == init[j];
        assert Sum(rs) == rs[k];
      } else {
        var k := |init|;
        assert forall j :: 0 <= j < k ==> rs[j] == init[j];
        assert Sum(rs) == rs[k];
      }
    }
  }

  /** Parsing segments succeeds exactly when every segment does, and fails
      with the error of the first segment that fails. */
  lemma TotalOutcome(segs: seq<string>)
    ensures Total(segs).Ok? <==> forall k :: 0 <= k < |segs| ==> SegmentValue(segs[k]).Ok?
    ensures Total(segs).Err? ==>
              exists k :: 0 <= k < |segs| && Total(segs) == SegmentValue(segs[k])
                          && forall j :: 0 <= j < k ==> SegmentValue(segs[j]).Ok?
  {
    var rs := Outcomes(segs);
    assert forall k :: 0 <= k < |segs| ==> rs[k] == SegmentValue(segs[k]);
    SumOk(rs);
    SumError(rs);
  }

  /** Parsing the segments of a concatenation: the first part's error, else
      the second's, else the sum of both totals. */
  lemma TotalAppend(a: seq<string>, b: seq<string>)
    ensures Total(a + b) == Then(Total(a), Total(b))
  {
    assert Outcomes(a + b) == Outcomes(a) + Outcomes(b);
    SumAppend(Outcomes(a), Outcomes(b));
  }

  /** The total does not depend on the order of the segments: any
      rearrangement succeeds exactly when the original does, with the same
      total. */
  lemma {:induction false} TotalPermutation(a: seq<string>, b: seq<string>)
    requires multiset(a) == multiset(b)
    ensures Total(a).Ok? <==> Total(b).Ok?
    ensures Total(a).Ok? ==> Total(a).value == Total(b).value
    decreases |a|
  {
    if a == [] {
      assert |b| == |multiset(b)| == 0;
    } else {
      var x := a[0];
      assert x in multiset(b);
      var j :| 0 <= j < |b| && b[j] == x;
      var b1, b2 := b[..j], b[j + 1..];
      assert b == b1 + [x] + b2;
      assert a == [x] + a[1..];
      calc {
        multiset(a[1..]);
        multiset(a) - multiset{x};
        multiset(b1) + multiset(b2);
        multiset(b1 + b2);
      }
      TotalPermutation(a[1..], b1 + b2);
      TotalAppend([x], a[1..]);
      TotalAppend(b1 + [x], b2);
      TotalAppend(b1, [x]);
      TotalAppend(b1, b2);
    }
  }

  // ------------------------------------------------------ whole strings

  /** A string that is already a delimited list of segments, with nothing to
      strip, parses as the total of those segments. */
  lemma ParseJoined(ts: seq<string>, delim: char)
    requires |ts| >= 1
    requires forall k :: 0 <= k < |ts| ==> delim !in ts[k]
    requires var s := Join(ts, delim); s != [] ==> !IsSpace(s[0]) && !IsSpace(s[|s| - 1])
    ensures Parse(Join(ts, delim), delim) == Total(ts)
  {
    StripUnchanged(Join(ts, delim));
    SplitJoin(ts, delim);
  }

  /** Reordering the segments of a string changes neither whether it parses
      nor the total. */
  lemma ParseReorder(s: string, t: string, delim: char)
    requires multiset(Split(Strip(s), delim)) == multiset(Split(Strip(t), delim))
    ensures Parse(s, delim).Ok? <==> Parse(t, delim).Ok?
    ensures Parse(s, delim).Ok? ==> Parse(s, delim).value == Parse(t, delim).value
  {
    TotalPermutation(Split(Strip(s), delim), Split(Strip(t), delim));
  }

  /** A single segment parses to its own outcome. */
  lemma TotalSingle(seg: string)
    ensures Total([seg]) == SegmentValue(seg)
  {
    var rs := Outcomes([seg]);
    assert rs == [SegmentValue(seg)];
    assert rs[..0] == [];
    assert Sum(rs[..0]) == Ok(0);
  }

  /** A lone segment without the delimiter and with nothing to strip
      parses as that segment. */
  lemma ParseSingle(x: string, delim: char)
    requires delim !in x && |x| > 0 && !IsSpace(x[0]) && !IsSpace(x[|x| - 1])
    ensures Parse(x, delim) == SegmentValue(x)
  {
    assert x == Join([x], delim);
    ParseJoined([x], delim);
    TotalSingle(x);
  }

  /** A first segment, the delimiter and a rest with nothing to strip parse
      as the first segment's error, else the rest's outcome plus the first
      segment's value. */
  lemma ParseCons(x: string, rest: string, delim: char)
    requires delim !in x && |x| > 0 && !IsSpace(x[0])
    requires |rest| > 0 && !IsSpace(rest[0]) && !IsSpace(rest[|rest| - 1])
    ensures Parse(x + [delim] + rest, delim) == Then(SegmentValue(x), Parse(rest, delim))
  {
    var s := x + [delim] + rest;
    assert s[0] == x[0] && s[|s| - 1] == rest[|rest| - 1];
    StripUnchanged(s);
    StripUnchanged(rest);
    SplitAfter(x, rest, delim);
    TotalCons(x, Split(rest, delim));
  }

  /** The token "<n><u>" for a suffix `u` of magnitude `m` is worth `n`
      times `m`. */
  lemma TokenValue(n: nat, u: string, m: nat)
    requires Lookup(u) == Some(m)
    ensures SegmentValue(NatToString(n) + u) == Ok(n * m)
  {
    LookupIsFormatters(u);
    SuffixShape(u);
    SegmentOfToken(NatToString(n), u);
  }

  /** The token "<n><u>" for a suffix `u` contains no space and neither
      starts nor ends with whitespace. */
  lemma TokenIsClean(n: nat, u: string)
    requires Lookup(u).Some?
    ensures var t := NatToString(n) + u; ' ' !in t && !IsSpace(t[0]) && !IsSpace(t[|t| - 1])
  {
    LookupIsFormatters(u);
    SuffixShape(u);
    var t := NatToString(n) + u;
    assert t[|t| - 1] == u[|u| - 1];
  }

  /** Parsing a first segment and then the rest. */
  lemma TotalCons(x: string, rest: seq<string>)
    ensures Total([x] + rest) == Then(SegmentValue(x), Total(rest))
  {
    TotalAppend([x], rest);
    TotalSingle(x);
  }

  /** The sum of a list of values. */
  function SumOf(vs: seq<nat>): nat {
    if vs == [] then 0 else vs[0] + SumOf(vs[1..])
  }

  /** Segments that are each accepted have as total the sum of their
      values. */
  lemma {:induction false} TotalValues(ts: seq<string>, vs: seq<nat>)
    requires |ts| == |vs|
    requires forall k :: 0 <= k < |ts| ==> SegmentValue(ts[k]) == Ok(vs[k])
    ensures Total(ts) == Ok(SumOf(vs))
    decreases |ts|
  {
    if ts == [] {
      assert Outcomes(ts) == [];
    } else {
      TotalValues(ts[1..], vs[1..]);
      TotalCons(ts[0], ts[1..]);
      assert ts == [ts[0]] + ts[1..];
    }
  }

  /** A string made of accepted segments joined by the delimiter parses to
      the sum of their values. */
  lemma ParseValues(ts: seq<string>, delim: char, vs: seq<nat>)
    requires |ts| == |vs| >= 1
    requires forall k :: 0 <= k < |ts| ==> SegmentValue(ts[k]) == Ok(vs[k])
    requires forall k :: 0 <= k < |ts| ==> delim !in ts[k]
    requires |ts[0]| > 0 && !IsSpace(ts[0][0])
    requires |ts[|ts| - 1]| > 0 && !IsSpace(ts[|ts| - 1][|ts[|ts| - 1]| - 1])
    ensures Parse(Join(ts, delim), delim) == Ok(SumOf(vs))
  {
    JoinEnds(ts, delim);
    ParseJoined(ts, delim);
    TotalValues(ts, vs);
  }
}
