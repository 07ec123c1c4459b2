/** The fixed unit table of `Time`: six millisecond magnitudes, the map from
    suffix to magnitude used by the parser, and the same pairs ordered by
    descending magnitude for the formatter's greedy decomposition. */
module Units {
  import opened Text

  const MS: nat := 1
  const S: nat := 1000 * MS
  const M: nat := 60 * S
  const H: nat := 60 * M
  const D: nat := 24 * H
  const W: nat := 7 * D

  /** Suffix to magnitude. Lookup is exact key equality, hence case-sensitive. */
  const Formatters: map<string, nat> :=
    map["w" := W, "d" := D, "h" := H, "m" := M, "s" := S, "ms" := MS]

  datatype Option<T> = None | Some(get: T)

  /** `_FORMATTERS.get(u)`: the magnitude of the suffix `u`, or nothing when
      `u` is not one. Written as a test on the characters of `u`;
      `LookupIsFormatters` shows it answers exactly as the map does. */
  function Lookup(u: string): Option<nat> {
    if |u| == 1 then
      if u[0] == 'w' then Some(W)
      else if u[0] == 'd' then Some(D)
      else if u[0] == 'h' then Some(H)
      else if u[0] == 'm' then Some(M)
      else if u[0] == 's' then Some(S)
      else None
    else if |u| == 2 && u[0] == 'm' && u[1] == 's' then Some(MS)
    else None
  }

  /** `Lookup` agrees with the map `Formatters` on every string. */
  lemma LookupIsFormatters(u: string)
    ensures Lookup(u) == if u in Formatters then Some(Formatters[u]) else None
  {
    assert Formatters.Keys == {"ms", "s", "m", "h", "d", "w"};
    if |u| == 1 {
      assert u == [u[0]];
    } else if |u| == 2 {
      assert u == [u[0], u[1]];
    }
  }

  /** The entries of `Formatters` sorted by descending magnitude. The source
      computes this order with `sorted(..., reverse=True)`; here it is written
      out, and `FmtArrIsFormatters` and `FmtArrDescending` prove it is that
      sort's result. */
  const FmtArr: seq<(string, nat)> :=
    [("w", W), ("d", D), ("h", H), ("m", M), ("s", S), ("ms", MS)]

  /** Each entry of `FmtArr` is a suffix of the table with its magnitude,
      which is positive. */
  lemma FmtArrEntry(t: nat)
    requires t < |FmtArr|
    ensures FmtArr[t].1 > 0
    ensures Lookup(FmtArr[t].0) == Some(FmtArr[t].1)
  {
    if t == 0 { assert FmtArr[t] == ("w", W); }
    else if t == 1 { assert FmtArr[t] == ("d", D); }
    else if t == 2 { assert FmtArr[t] == ("h", H); }
    else if t == 3 { assert FmtArr[t] == ("m", M); }
    else if t == 4 { assert FmtArr[t] == ("s", S); }
    else { assert FmtArr[t] == ("ms", MS); }
  }

  /** Neighbouring entries of `FmtArr` strictly decrease in magnitude. */
  lemma FmtArrStep(t: nat)
    requires t + 1 < |FmtArr|
    ensures FmtArr[t + 1].1 < FmtArr[t].1
  {
    FmtArrDescending();
  }

  /** The magnitudes in milliseconds. */
  lemma Magnitudes()
    ensures MS == 1 && S == 1000 && M == 60000 && H == 3600000
    ensures D == 86400000 && W == 604800000
    ensures Formatters.Keys == {"ms", "s", "m", "h", "d", "w"}
  {
  }

  /** `FmtArr` written out in milliseconds. */
  lemma FmtArrValues()
    ensures FmtArr == [("w", 604800000), ("d", 86400000), ("h", 3600000),
                       ("m", 60000), ("s", 1000), ("ms", 1)]
  {
    Magnitudes();
  }

  /** `FmtArr` lists exactly the pairs of `Formatters`, each suffix once. */
  lemma FmtArrIsFormatters()
    ensures |FmtArr| == |Formatters| == 6
    ensures forall i :: 0 <= i < |FmtArr| ==>
              FmtArr[i].0 in Formatters && Formatters[FmtArr[i].0] == FmtArr[i].1
    ensures forall u :: u in Formatters ==> exists i :: 0 <= i < |FmtArr| && FmtArr[i].0 == u
  {
    assert Formatters.Keys == {"ms", "s", "m", "h", "d", "w"};
    forall i | 0 <= i < |FmtArr|
      ensures FmtArr[i].0 in Formatters && Formatters[FmtArr[i].0] == FmtArr[i].1
    {
      if i == 0 { assert FmtArr[i] == ("w", W); }
      else if i == 1 { assert FmtArr[i] == ("d", D); }
      else if i == 2 { assert FmtArr[i] == ("h", H); }
      else if i == 3 { assert FmtArr[i] == ("m", M); }
      else if i == 4 { assert FmtArr[i] == ("s", S); }
      else { assert FmtArr[i] == ("ms", MS); }
    }
    forall u | u in Formatters
      ensures exists i :: 0 <= i < |FmtArr| && FmtArr[i].0 == u
    {
      if u == "w" { assert FmtArr[0].0 == u; }
      else if u == "d" { assert FmtArr[1].0 == u; }
      else if u == "h" { assert FmtArr[2].0 == u; }
      else if u == "m" { assert FmtArr[3].0 == u; }
      else if u == "s" { assert FmtArr[4].0 == u; }
      else { assert FmtArr[5].0 == u; }
    }
  }

  /** `FmtArr` is ordered by strictly descending magnitude, every magnitude
      divides the one before it and the smallest is one millisecond. */
  lemma FmtArrDescending()
    ensures forall i, j :: 0 <= i < j < |FmtArr| ==> FmtArr[i].1 > FmtArr[j].1
    ensures forall i :: 0 < i < |FmtArr| ==> FmtArr[i - 1].1 % FmtArr[i].1 == 0
    ensures FmtArr[|FmtArr| - 1].1 == 1
  {
    assert forall i :: 0 < i < |FmtArr| ==> FmtArr[i - 1].1 > FmtArr[i].1;
  }

  /** Every suffix is a non-empty run of ASCII letters, so the parser's
      pattern can match it, and contains no space, so the formatter's
      separator never occurs inside a token; every magnitude is positive. */
  lemma SuffixShape(u: string)
    requires u in Formatters
    ensures |u| > 0 && AllLetters(u) && ' ' !in u
    ensures Formatters[u] > 0
  {
    assert Formatters.Keys == {"ms", "s", "m", "h", "d", "w"};
  }
}
