/** The string operations the duration codec is built from: Python's
    `str.strip()`, `str.split(sep)` and `sep.join(...)`, the ASCII character
    classes of the pattern `(\d+)([a-zA-Z]+)`, and decimal conversion in both
    directions (`int(digits)` and `'%d' % n`). */
module Text {

  /** The characters Python's `str.isspace()` accepts, which are the ones
      `str.strip()` removes from both ends. */
  predicate IsSpace(c: char) {
    || c == ' '
    || '\t' <= c <= '\r'
    || '\U{1c}' <= c <= '\U{1f}'
    || c == '\U{85}' || c == '\U{a0}' || c == '\U{1680}'
    || '\U{2000}' <= c <= '\U{200a}'
    || c == '\U{2028}' || c == '\U{2029}' || c == '\U{202f}' || c == '\U{205f}' || c == '\U{3000}'
  }

  predicate IsDigit(c: char) {
    '0' <= c <= '9'
  }

  predicate IsLetter(c: char) {
    'a' <= c <= 'z' || 'A' <= c <= 'Z'
  }

  predicate AllDigits(s: string) {
    forall k :: 0 <= k < |s| ==> IsDigit(s[k])
  }

  predicate AllLetters(s: string) {
    forall k :: 0 <= k < |s| ==> IsLetter(s[k])
  }

  // ---------------------------------------------------------------- strip

  /** The three character classes the codec scans for. */
  datatype CharClass = Space | Digit | Letter

  predicate InClass(c: char, cls: CharClass) {
    match cls
    case Space => IsSpace(c)
    case Digit => IsDigit(c)
    case Letter => IsLetter(c)
  }

  /** The length of the longest prefix of `s` whose characters all belong
      to `cls`. */
  function CountLeading(s: string, cls: CharClass): (k: nat)
    ensures k <= |s|
    ensures forall j :: 0 <= j < k ==> InClass(s[j], cls)
    ensures k < |s| ==> !InClass(s[k], cls)
  {
    if |s| > 0 && InClass(s[0], cls) then 1 + CountLeading(s[1..], cls) else 0
  }

  /** A prefix of `k` characters of class `cls`, followed by the end of `s`
      or by a character outside it, is the longest such prefix. */
  lemma CountLeadingIs(s: string, cls: CharClass, k: nat)
    requires k <= |s|
    requires forall j :: 0 <= j < k ==> InClass(s[j], cls)
    requires k < |s| ==> !InClass(s[k], cls)
    ensures CountLeading(s, cls) == k
  {
  }

  /** `s` without its trailing whitespace. */
  function TrimEnd(s: string): (r: string)
    ensures |r| <= |s| && r == s[..|r|]
    ensures forall k :: |r| <= k < |s| ==> IsSpace(s[k])
    ensures r != [] ==> !IsSpace(r[|r| - 1])
  {
    if |s| > 0 && IsSpace(s[|s| - 1]) then TrimEnd(s[..|s| - 1]) else s
  }

  /** Python's `s.strip()`: `s` without the whitespace at either end. */
  function Strip(s: string): string {
    TrimEnd(s[CountLeading(s, Space)..])
  }

  /** What `Strip` keeps is a slice of `s` with only whitespace before and
      after it, and it neither starts nor ends with whitespace. */
  lemma StripSlice(s: string)
    ensures var r, i := Strip(s), CountLeading(s, Space);
            && i + |r| <= |s| && r == s[i..i + |r|]
            && (forall k :: 0 <= k < i ==> IsSpace(s[k]))
            && (forall k :: i + |r| <= k < |s| ==> IsSpace(s[k]))
            && (r != [] ==> !IsSpace(r[0]) && !IsSpace(r[|r| - 1]))
  {
  }

  /** A string that does not start or end with whitespace is left alone. */
  lemma {:induction false} StripUnchanged(s: string)
    requires s != [] ==> !IsSpace(s[0]) && !IsSpace(s[|s| - 1])
    ensures Strip(s) == s
  {
    assert CountLeading(s, Space) == 0;
  }

  // ---------------------------------------------------------- split, join

  /** Python's `s.split(d)` for a one-character separator `d`: the pieces
      between successive occurrences of `d`, empty pieces included, so that
      the empty string gives one empty piece. `SplitPieces` shows that no
      piece holds the separator and `JoinSplit` that joining the pieces
      gives back `s`. */
  function Split(s: string, d: char): (r: seq<string>)
    ensures |r| >= 1
  {
    if |s| == 0 then [""]
    else
      var rest := Split(s[1..], d);
      if s[0] == d then [""] + rest
      else [[s[0]] + rest[0]] + rest[1..]
  }

  /** No piece of a split holds the separator. */
  lemma {:induction false} SplitPieces(s: string, d: char)
    ensures forall k :: 0 <= k < |Split(s, d)| ==> d !in Split(s, d)[k]
    decreases |s|
  {
    if |s| > 0 {
      SplitPieces(s[1..], d);
    }
  }

  /** Python's `d.join(ts)`: the pieces with one `d` between neighbours. */
  function Join(ts: seq<string>, d: char): string
  {
    if |ts| == 0 then ""
    else if |ts| == 1 then ts[0]
    else ts[0] + [d] + Join(ts[1..], d)
  }

  lemma JoinCons(ts: seq<string>, d: char)
    requires |ts| >= 1
    ensures Join(ts, d) == ts[0] + (if |ts| == 1 then "" else [d] + Join(ts[1..], d))
  {
  }

  /** Appending a piece adds the separator and the piece at the end. */
  lemma {:induction false} JoinSnoc(ts: seq<string>, t: string, d: char)
    requires |ts| >= 1
    ensures Join(ts + [t], d) == Join(ts, d) + [d] + t
    decreases |ts|
  {
    if |ts| > 1 {
      JoinSnoc(ts[1..], t, d);
      assert (ts + [t])[1..] == ts[1..] + [t];
    }
  }

  /** The joined string starts with the first piece's first character and
      ends with the last piece's last character. */
  lemma {:induction false} JoinEnds(ts: seq<string>, d: char)
    requires |ts| >= 1 && |ts[|ts| - 1]| > 0
    ensures var s := Join(ts, d);
      |s| > 0 && s[|s| - 1] == ts[|ts| - 1][|ts[|ts| - 1]| - 1] &&
      (|ts[0]| > 0 ==> s[0] == ts[0][0])
    decreases |ts|
  {
    if |ts| > 1 {
      JoinEnds(ts[1..], d);
    }
  }

  /** Joining the pieces with the separator gives back the split string. */
  lemma {:induction false} JoinSplit(s: string, d: char)
    ensures Join(Split(s, d), d) == s
    decreases |s|
  {
    if |s| > 0 {
      var rest := Split(s[1..], d);
      JoinSplit(s[1..], d);
      JoinCons(rest, d);
      assert s == [s[0]] + s[1..];
      if s[0] == d {
        assert [""] + rest == [""] + [rest[0]] + rest[1..];
      } else {
        JoinCons([[s[0]] + rest[0]] + rest[1..], d);
      }
    }
  }

  /** Splitting undoes joining, provided no piece contains the separator. */
  lemma {:induction false} SplitJoin(ts: seq<string>, d: char)
    requires |ts| >= 1
    requires forall k :: 0 <= k < |ts| ==> d !in ts[k]
    ensures Split(Join(ts, d), d) == ts
  {
    if |ts| == 1 {
      SplitWithout(ts[0], d);
    } else {
      SplitJoin(ts[1..], d);
      SplitAfter(ts[0], Join(ts[1..], d), d);
      assert ts == [ts[0]] + ts[1..];
    }
  }

  /** A string without the separator is one piece. */
  lemma {:induction false} SplitWithout(s: string, d: char)
    requires d !in s
    ensures Split(s, d) == [s]
    decreases |s|
  {
    if |s| > 0 {
      SplitWithout(s[1..], d);
      assert s == [s[0]] + s[1..];
    }
  }

  /** The first piece ends at the first separator. */
  lemma {:induction false} SplitAfter(a: string, b: string, d: char)
    requires d !in a
    ensures Split(a + [d] + b, d) == [a] + Split(b, d)
    decreases |a|
  {
    var s := a + [d] + b;
    if |a| == 0 {
      assert s[1..] == b;
    } else {
      assert s[1..] == a[1..] + [d] + b;
      SplitAfter(a[1..], b, d);
      assert a == [a[0]] + a[1..];
    }
  }

  // -------------------------------------------------------------- decimal

  function DigitValue(c: char): nat
    requires IsDigit(c)
  {
    (c as int) - ('0' as int)
  }

  function DigitChar(n: nat): (c: char)
    requires n < 10
    ensures IsDigit(c) && DigitValue(c) == n
  {
    (('0' as int) + n) as char
  }

  /** Python's `int(s)` on a string of ASCII digits (leading zeros allowed,
      the empty string read as 0). */
  function DecimalValue(s: string): nat
    requires AllDigits(s)
  {
    if |s| == 0 then 0
    else DecimalValue(s[..|s| - 1]) * 10 + DigitValue(s[|s| - 1])
  }

  /** Python's `'%d' % n` for a natural number: its shortest decimal
      spelling, which reads back as `n`. */
  function NatToString(n: nat): (r: string)
    ensures |r| >= 1 && AllDigits(r)
    ensures DecimalValue(r) == n
    ensures r[0] == '0' ==> n == 0
    ensures |r| > 1 ==> r[0] != '0'
  {
    if n < 10 then [DigitChar(n)]
    else
      var r := NatToString(n / 10) + [DigitChar(n % 10)];
      assert r[..|r| - 1] == NatToString(n / 10);
      r
  }
}
