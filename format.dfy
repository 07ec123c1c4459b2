/** The duration formatter `Time.format_duration`: a duration in
    milliseconds becomes a human-readable string such as "1h 45m". */
module DurationFormat {
  import opened Text
  import opened Units
  import opened DurationParse

  /** One piece of the output: a positive count of one unit of the table,
      with the unit's suffix and magnitude as `_FMT_ARR` pairs them. */
  datatype Part = Part(count: nat, unit: string, magnitude: nat)

  /** The text of a part: the count in decimal followed by the suffix. */
  function Render(p: Part): string {
    NatToString(p.count) + p.unit
  }

  /** The text of each part, in order. */
  function Rendered(ps: seq<Part>): (ts: seq<string>)
    ensures |ts| == |ps|
  {
    seq(|ps|, k requires 0 <= k < |ps| => Render(ps[k]))
  }

  /** The milliseconds a list of parts stands for. */
  function Values(ps: seq<Part>): (vs: seq<nat>)
    ensures |vs| == |ps|
  {
    seq(|ps|, k requires 0 <= k < |ps| => ps[k].count * ps[k].magnitude)
  }

  /** The greedy decomposition of `n` over the units `FmtArr[t..]`, largest
      first: each unit takes as many whole copies as fit in what the larger
      units left, and the units that take none are skipped. */
  function Decompose(n: nat, t: nat): seq<Part>
    requires t <= |FmtArr|
    decreases |FmtArr| - t
  {
    if t == |FmtArr| then []
    else
      FmtArrEntry(t);
      var (unit, value) := FmtArr[t];
      var v := n / value;
      var rest := Decompose(n % value, t + 1);
      if v > 0 then [Part(v, unit, value)] + rest else rest
  }

  /** The absolute value, which is what negative durations are formatted as. */
  function Abs(d: int): nat {
    if d < 0 then -d else d
  }

  /** The formatted string: the parts separated by single spaces, or "0ms"
      when there are none. */
  function Format(duration: int): string {
    var ps := Decompose(Abs(duration), 0);
    if ps == [] then "0ms" else Join(Rendered(ps), ' ')
  }

  /** The buffer the formatter builds: each part followed by a space. */
  function Terminated(ps: seq<Part>): string {
    if ps == [] then "" else Terminated(ps[..|ps| - 1]) + Render(ps[|ps| - 1]) + " "
  }

  /** `Time.format_duration`, with the source's loop over the unit table.
      The result is the greedy decomposition and reads back as the absolute
      value of the duration. */
  method FormatDuration(duration: int) returns (s: string)
    ensures s == Format(duration)
    ensures Parse(s, ' ') == Ok(Abs(duration))
  {
    var rest: nat := Abs(duration);
    var parts := 0;
    var buf := "";
    ghost var done: seq<Part> := [];
    for i := 0 to |FmtArr|
      invariant parts == |done| <= i
      invariant buf == Terminated(done)
      invariant done + Decompose(rest, i) == Decompose(Abs(duration), 0)
    {
      FmtArrEntry(i);
      var (unit, value) := FmtArr[i];
      var v := rest / value;
      FormatStep(done, rest, i, Decompose(Abs(duration), 0));
      rest := rest % value;
      if v > 0 && parts < |FmtArr| {
        parts := parts + 1;
        TerminatedSnoc(done, Part(v, unit, value));
        buf := buf + NatToString(v) + unit + " ";
        done := done + [Part(v, unit, value)];
      }
    }
    assert Decompose(rest, |FmtArr|) == [];
    assert done == Decompose(Abs(duration), 0);
    TerminatedIsJoin(done);
    if |buf| == 0 {
      s := "0ms";
    } else {
      s := buf[..|buf| - 1];
    }
    RoundTrip(duration);
  }

  /** One turn of the formatter's loop keeps the parts found so far followed
      by the decomposition of what is left equal to the whole decomposition. */
  lemma FormatStep(done: seq<Part>, rest: nat, i: nat, whole: seq<Part>)
    requires i < |FmtArr| && done + Decompose(rest, i) == whole
    ensures FmtArr[i].1 > 0
    ensures var (unit, value) := FmtArr[i];
      (if rest / value > 0 then done + [Part(rest / value, unit, value)] else done)
        + Decompose(rest % value, i + 1) == whole
  {
    FmtArrEntry(i);
    var (unit, value) := FmtArr[i];
    DecomposeUnfold(rest, i);
    var later := Decompose(rest % value, i + 1);
    if rest / value > 0 {
      var p := Part(rest / value, unit, value);
      assert done + [p] + later == done + ([p] + later);
    } else {
      assert [] + later == later;
    }
  }

  /** The first unit's part, if any, followed by the decomposition of the
      remainder over the smaller units. */
  lemma DecomposeUnfold(n: nat, t: nat)
    requires t < |FmtArr| && FmtArr[t].1 > 0
    ensures var (unit, value) := FmtArr[t];
      Decompose(n, t) ==
        (if n / value > 0 then [Part(n / value, unit, value)] else []) + Decompose(n % value, t + 1)
  {
  }

  /** Appending a part to the buffer. */
  lemma TerminatedSnoc(ps: seq<Part>, p: Part)
    ensures Terminated(ps + [p]) == Terminated(ps) + NatToString(p.count) + p.unit + " "
  {
    assert (ps + [p])[..|ps|] == ps;
  }

  /** Dropping the buffer's final space leaves the parts joined by spaces. */
  lemma {:induction false} TerminatedIsJoin(ps: seq<Part>)
    ensures |Terminated(ps)| == 0 <==> ps == []
    ensures ps != [] ==> Terminated(ps)[..|Terminated(ps)| - 1] == Join(Rendered(ps), ' ')
    decreases |ps|
  {
    if ps != [] {
      var init := ps[..|ps| - 1];
      var p := ps[|ps| - 1];
      TerminatedIsJoin(init);
      assert Terminated(ps) == Terminated(init) + Render(p) + " ";
      if init == [] {
        assert Rendered(ps) == [Render(p)];
      } else {
        assert Rendered(ps) == Rendered(init) + [Render(p)];
        JoinSnoc(Rendered(init), Render(p), ' ');
        assert Terminated(init) == Join(Rendered(init), ' ') + " ";
      }
    }
  }

  // ------------------------------------------------------------ properties

  /** Every part has a positive count and a unit of the table. */
  predicate KnownParts(ps: seq<Part>) {
    forall k :: 0 <= k < |ps| ==>
      ps[k].count > 0 && ps[k].magnitude > 0 && Lookup(ps[k].unit) == Some(ps[k].magnitude)
  }

  /** No part's magnitude exceeds `bound`. */
  predicate AtMost(ps: seq<Part>, bound: nat) {
    forall k :: 0 <= k < |ps| ==> ps[k].magnitude <= bound
  }

  /** Each part's magnitude is strictly smaller than the one before it. */
  predicate Descending(ps: seq<Part>) {
    forall k :: 0 < k < |ps| ==> ps[k - 1].magnitude > ps[k].magnitude
  }

  /** In a descending list every earlier part is larger than every later
      one, so no unit occurs twice. */
  lemma {:induction false} DescendingPairs(ps: seq<Part>, i: nat, j: nat)
    requires Descending(ps) && i < j < |ps|
    ensures ps[i].magnitude > ps[j].magnitude
    decreases j - i
  {
    if i + 1 < j {
      DescendingPairs(ps, i + 1, j);
    }
  }

  /** The decomposition's parts have positive counts and units of the table,
      none larger than the unit `FmtArr[t]`. */
  lemma {:induction false} DecomposeParts(n: nat, t: nat)
    requires t < |FmtArr|
    ensures KnownParts(Decompose(n, t)) && AtMost(Decompose(n, t), FmtArr[t].1)
    decreases |FmtArr| - t
  {
    FmtArrEntry(t);
    if t + 1 < |FmtArr| {
      DecomposeParts(n % FmtArr[t].1, t + 1);
      FmtArrStep(t);
    }
  }

  /** The units of the parts strictly decrease in magnitude, so each unit
      occurs at most once. */
  lemma {:induction false} DecomposeDescending(n: nat, t: nat)
    requires t < |FmtArr|
    ensures Descending(Decompose(n, t))
    decreases |FmtArr| - t
  {
    FmtArrEntry(t);
    var (unit, value) := FmtArr[t];
    DecomposeUnfold(n, t);
    var rest := Decompose(n % value, t + 1);
    if t + 1 < |FmtArr| {
      DecomposeDescending(n % value, t + 1);
      DecomposeParts(n % value, t + 1);
      FmtArrStep(t);
      if n / value > 0 {
        DescendingCons(Part(n / value, unit, value), rest, FmtArr[t + 1].1);
      }
    }
  }

  /** A part larger than every part of a descending list extends it. */
  lemma DescendingCons(p: Part, rest: seq<Part>, bound: nat)
    requires Descending(rest) && AtMost(rest, bound) && bound < p.magnitude
    ensures Descending([p] + rest)
  {
    var ps := [p] + rest;
    forall k | 0 < k < |ps|
      ensures ps[k - 1].magnitude > ps[k].magnitude
    {
      assert ps[k] == rest[k - 1];
      if k > 1 {
        assert ps[k - 1] == rest[k - 2];
      }
    }
  }

  /** The parts add up to `n`. */
  lemma {:induction false} DecomposeSum(n: nat, t: nat)
    requires t < |FmtArr|
    ensures SumOf(Values(Decompose(n, t))) == n
    decreases |FmtArr| - t
  {
    FmtArrEntry(t);
    var value := FmtArr[t].1;
    DecomposeStep(n, t);
    DivMod(n, value);
    if t + 1 == |FmtArr| {
      assert value == 1;
    } else {
      DecomposeSum(n % value, t + 1);
    }
  }

  /** One step of the decomposition: the part for `FmtArr[t]`, if any, is
      worth the quotient's multiple of the unit. */
  lemma DecomposeStep(n: nat, t: nat)
    requires t < |FmtArr| && FmtArr[t].1 > 0
    ensures var value := FmtArr[t].1;
      SumOf(Values(Decompose(n, t))) ==
        n / value * value + SumOf(Values(Decompose(n % value, t + 1)))
  {
    var (unit, value) := FmtArr[t];
    var v, r := n / value, n % value;
    var ps := Decompose(n, t);
    var rest := Decompose(r, t + 1);
    if v > 0 {
      assert ps == [Part(v, unit, value)] + rest;
      FmtArrEntry(t);
      assert Values(ps) == [v * value] + Values(rest);
      assert Values(ps)[1..] == Values(rest);
    } else {
      assert ps == rest;
      DivMod(n, value);
    }
  }

  /** Euclidean division: the quotient's multiple plus the remainder. */
  lemma DivMod(n: nat, m: nat)
    requires m > 0
    ensures n == n / m * m + n % m
    ensures n / m >= 0
    ensures n / m == 0 ==> n / m * m == 0 && n % m == n
  {
  }

  /** Zero has no parts. */
  lemma {:induction false} DecomposeZero(t: nat)
    requires t <= |FmtArr|
    ensures Decompose(0, t) == []
    decreases |FmtArr| - t
  {
    if t < |FmtArr| {
      FmtArrEntry(t);
      DecomposeZero(t + 1);
    }
  }

  /** The string "0ms" reads back as zero. */
  lemma ParseZero()
    ensures Parse("0ms", ' ') == Ok(0)
  {
    assert "0ms" == NatToString(0) + "ms";
    TokenValue(0, "ms", MS);
    TokenIsClean(0, "ms");
    ParseSingle("0ms", ' ');
  }

  /** Exactly the zero duration formats as "0ms". */
  lemma FormatZero(duration: int)
    ensures Format(duration) == "0ms" <==> duration == 0
  {
    RoundTrip(duration);
    ParseZero();
    if duration == 0 {
      DecomposeZero(0);
    }
  }

  /** A negative duration formats like its absolute value. */
  lemma FormatNegative(duration: int)
    ensures Format(-duration) == Format(duration)
  {
  }

  /** The formatted string splits on spaces into the rendered parts (the
      single token "0ms" for zero) and has no leading or trailing space. */
  lemma FormatTokens(duration: int)
    ensures var ps := Decompose(Abs(duration), 0);
      Split(Format(duration), ' ') == if ps == [] then ["0ms"] else Rendered(ps)
    ensures var s := Format(duration); |s| > 0 && !IsSpace(s[0]) && !IsSpace(s[|s| - 1])
  {
    var ps := Decompose(Abs(duration), 0);
    if ps == [] {
      SplitWithout("0ms", ' ');
    } else {
      DecomposeParts(Abs(duration), 0);
      JoinedSplits(ps);
    }
  }

  /** The rendering of a known part is a token the parser accepts with the
      part's value, and holds no whitespace at either end nor any space. */
  lemma RenderedTokens(ps: seq<Part>)
    requires KnownParts(ps)
    ensures var ts, vs := Rendered(ps), Values(ps);
      forall k :: 0 <= k < |ts| ==>
        && SegmentValue(ts[k]) == Ok(vs[k])
        && ' ' !in ts[k] && |ts[k]| > 0 && !IsSpace(ts[k][0]) && !IsSpace(ts[k][|ts[k]| - 1])
  {
    forall k | 0 <= k < |ps|
      ensures SegmentValue(Render(ps[k])) == Ok(ps[k].count * ps[k].magnitude)
      ensures var t := Render(ps[k]);
        ' ' !in t && |t| > 0 && !IsSpace(t[0]) && !IsSpace(t[|t| - 1])
    {
      TokenValue(ps[k].count, ps[k].unit, ps[k].magnitude);
      TokenIsClean(ps[k].count, ps[k].unit);
    }
  }

  /** Known parts rendered and joined by spaces split back into the
      rendered parts, and the string has no whitespace at either end. */
  lemma JoinedSplits(ps: seq<Part>)
    requires ps != [] && KnownParts(ps)
    ensures var s := Join(Rendered(ps), ' ');
      && Split(s, ' ') == Rendered(ps)
      && |s| > 0 && !IsSpace(s[0]) && !IsSpace(s[|s| - 1])
  {
    RenderedTokens(ps);
    SplitJoin(Rendered(ps), ' ');
    JoinEnds(Rendered(ps), ' ');
  }

  /** Known parts rendered and joined by spaces parse to the parts' total. */
  lemma JoinedParses(ps: seq<Part>)
    requires ps != [] && KnownParts(ps)
    ensures Parse(Join(Rendered(ps), ' '), ' ') == Ok(SumOf(Values(ps)))
  {
    RenderedTokens(ps);
    ParseValues(Rendered(ps), ' ', Values(ps));
  }

  /** Reading back a formatted duration gives its absolute value. */
  lemma RoundTrip(duration: int)
    ensures Parse(Format(duration), ' ') == Ok(Abs(duration))
  {
    var ps := Decompose(Abs(duration), 0);
    if ps == [] {
      assert Format(duration) == "0ms";
      ParseZero();
      DecomposeSum(Abs(duration), 0);
      assert SumOf(Values(ps)) == 0;
    } else {
      assert Format(duration) == Join(Rendered(ps), ' ');
      DecomposeParts(Abs(duration), 0);
      DecomposeSum(Abs(duration), 0);
      JoinedParses(ps);
    }
  }

  // ------------------------------------------------- the code as written

  /** The Python values the formatter's body handles: ints, strs, and the
      module object bound to the name `time` at module level. */
  datatype PyValue = PyInt(i: int) | PyStr(s: string) | PyModule(name: string)

  /** `abs(x)`: defined on ints; on any other value Python raises TypeError,
      modelled as `None`. */
  function PyAbs(x: PyValue): Option<PyValue> {
    match x
    case PyInt(i) => Some(PyInt(Abs(i)))
    case _ => None
  }

  /** `a + b`, and so `a += b`: int plus int and str plus str; any other
      mix raises TypeError. */
  function PyAdd(a: PyValue, b: PyValue): Option<PyValue> {
    match (a, b)
    case (PyInt(x), PyInt(y)) => Some(PyInt(x + y))
    case (PyStr(x), PyStr(y)) => Some(PyStr(x + y))
    case _ => None
  }

  /** `len(x)`: defined on strs; an int raises TypeError. */
  function PyLen(x: PyValue): Option<nat> {
    match x
    case PyStr(t) => Some(|t|)
    case _ => None
  }

  /** `t[:-1]`: everything but the last character (nothing for ""). */
  function DropLast(t: string): string {
    if |t| == 0 then t else t[..|t| - 1]
  }

  /** `Time.format_duration` exactly as written: `abs(time)` takes the
      absolute value of the module `time` rather than of `duration`, and
      `buf` starts as the int 0 while the loop appends strs to it and the
      end takes its `len`. `None` stands for the TypeError it raises, which
      it does on every input. */
  method FormatDurationAsWritten(duration: int) returns (r: Option<string>)
    ensures r == None
  {
    var d := duration;
    if d < 0 {
      match PyAbs(PyModule("time")) {
        case None => return None;
        case Some(x) =>
          match x {
            case PyInt(i) => d := i;
            case _ => return None;
          }
      }
    }
    var parts := 0;
    var buf := PyInt(0);
    for i := 0 to |FmtArr|
      invariant buf == PyInt(0)
    {
      FmtArrEntry(i);
      var (unit, value) := FmtArr[i];
      var v := d / value;
      d := d % value;
      if v > 0 && parts < |FmtArr| {
        parts := parts + 1;
        match PyAdd(buf, PyStr(NatToString(v) + unit + " ")) {
          case None => return None;
          case Some(b) => buf := b;
        }
      }
    }
    match PyLen(buf) {
      case None => return None;
      case Some(n) =>
        if n == 0 {
          // `"$dms" & time`: `&` between a str and a module raises as well
          return None;
        }
        match buf {
          case PyStr(t) => return Some(DropLast(t));
          case _ => return None;
        }
    }
  }
}
