/**
 * `parse_int` of the build script: a range list such as `"1-3,5"` becomes
 * `[1, 2, 3, 5]`. The pattern `(\d+)(?:[~-](\d+))?` is written out as a
 * left-to-right scanner over ASCII characters: at a digit it reads the
 * longest run of digits, then, when a `-` or `~` is followed by a digit, a
 * second run; every other character is skipped.
 */
module RangeParser {
  predicate IsDigit(c: char)
  {
    '0' <= c <= '9'
  }

  /** The characters that may join the two ends of a range. */
  predicate IsSeparator(c: char)
  {
    c == '-' || c == '~'
  }

  /** s[i..j] is a run of digits. */
  predicate DigitsIn(s: string, i: nat, j: nat)
    requires i <= j <= |s|
  {
    forall k | i <= k < j :: IsDigit(s[k])
  }

  predicate AllDigits(d: string)
  {
    DigitsIn(d, 0, |d|)
  }

  function DigitValue(c: char): (n: nat)
    requires IsDigit(c)
    ensures n < 10
  {
    c as int - '0' as int
  }

  /** What `int` makes of the digits s[i..j], most significant first. */
  function ValueOf(s: string, i: nat, j: nat): (n: nat)
    requires i <= j <= |s| && DigitsIn(s, i, j)
    ensures j == i ==> n == 0
    ensures j == i + 1 ==> n == DigitValue(s[i])
    decreases j - i
  {
    if j == i then 0 else ValueOf(s, i, j - 1) * 10 + DigitValue(s[j - 1])
  }

  /** The number a string of digits denotes. */
  function Value(d: string): nat
    requires AllDigits(d)
  {
    ValueOf(d, 0, |d|)
  }

  /** Where the run of digits starting at i ends: the greedy `\d+`. */
  function DigitEnd(s: string, i: nat): (j: nat)
    requires i <= |s|
    ensures i <= j <= |s|
    ensures DigitsIn(s, i, j)
    ensures j == |s| || !IsDigit(s[j])
    decreases |s| - i
  {
    if i < |s| && IsDigit(s[i]) then DigitEnd(s, i + 1) else i
  }

  /** `range(a, b + 1)`: a, a+1, ..., b, and nothing when a > b. */
  function Span(a: int, b: int): (r: seq<int>)
    ensures a <= b ==> |r| == b - a + 1
    ensures b < a ==> r == []
    ensures forall k | 0 <= k < |r| :: r[k] == a + k
  {
    seq(if a <= b then b - a + 1 else 0, k => a + k)
  }

  /** A match of the pattern: the number in the first group, the number in
      the second group (the first again when the second is absent, as in
      `end = start`), and where the match ends. */
  datatype Match = Match(first: nat, last: nat, end: nat)

  /** The number written by the run of digits at s[i], and where the run
      ends. */
  function Number(s: string, i: nat): (r: (nat, nat))
    requires i < |s| && IsDigit(s[i])
    ensures r.1 == DigitEnd(s, i) && i < r.1
  {
    (ValueOf(s, i, DigitEnd(s, i)), DigitEnd(s, i))
  }

  /** The match that starts at the digit s[i]: the longest run of digits,
      then a separator and a second run when a digit follows the separator. */
  function MatchAt(s: string, i: nat): (m: Match)
    requires i < |s| && IsDigit(s[i])
    ensures i < m.end <= |s|
    ensures m.end == |s| || !IsDigit(s[m.end])
  {
    var (a, j) := Number(s, i);
    if j + 1 < |s| && IsSeparator(s[j]) && IsDigit(s[j + 1]) then
      var (b, k) := Number(s, j + 1);
      Match(a, b, k)
    else
      Match(a, a, j)
  }

  /** One step of the scan from position i: the numbers contributed by the
      match starting there (none when s[i] is not a digit) and where the
      search resumes. */
  function Step(s: string, i: nat): (r: (seq<int>, nat))
    requires i < |s|
    ensures i < r.1 <= |s|
    ensures !IsDigit(s[i]) <==> r.0 == [] && r.1 == i + 1
    ensures forall k | 0 <= k < |r.0| :: 0 <= r.0[k]
  {
    if !IsDigit(s[i]) then ([], i + 1)
    else
      var m := MatchAt(s, i);
      (Span(m.first, m.last), m.end)
  }

  /** The numbers the matches from position i onwards contribute, in order. */
  function ParseFrom(s: string, i: nat): (r: seq<int>)
    requires i <= |s|
    ensures forall k | 0 <= k < |r| :: 0 <= r[k]
    decreases |s| - i
  {
    if i == |s| then [] else Step(s, i).0 + ParseFrom(s, Step(s, i).1)
  }

  /** The list `parse_int` returns. */
  function Parse(s: string): (r: seq<int>)
    ensures forall k | 0 <= k < |r| :: 0 <= r[k]
  {
    ParseFrom(s, 0)
  }

  /** `int(match.group(n))`: the digits from i up to the first non-digit,
      and where they end. */
  method ReadNumber(s: string, i: nat) returns (n: nat, j: nat)
    requires i < |s| && IsDigit(s[i])
    ensures j == DigitEnd(s, i) && i < j
    ensures n == ValueOf(s, i, j)
  {
    n, j := 0, i;
    while j < |s| && IsDigit(s[j])
      invariant i <= j <= |s|
      invariant DigitsIn(s, i, j)
      invariant DigitEnd(s, j) == DigitEnd(s, i)
      invariant n == ValueOf(s, i, j)
      decreases |s| - j
    {
      n := n * 10 + DigitValue(s[j]);
      j := j + 1;
    }
  }

  /** One match of the pattern at the digit s[i]: `int(match.group(1))`,
      the second group's number (or the first again), and where the match
      ends. */
  method ReadMatch(s: string, i: nat) returns (start: nat, end: nat, next: nat)
    requires i < |s| && IsDigit(s[i])
    ensures MatchAt(s, i) == Match(start, end, next)
  {
    var j;
    start, j := ReadNumber(s, i);
    end, next := start, j;
    if j + 1 < |s| && IsSeparator(s[j]) && IsDigit(s[j + 1]) {
      end, next := ReadNumber(s, j + 1);
    }
  }

  /** `parse_int`: the matches found left to right, each extending the list
      with its inclusive range. */
  method ParseInt(s: string) returns (arr: seq<int>)
    ensures arr == Parse(s)
  {
    arr := [];
    var i := 0;
    while i < |s|
      invariant 0 <= i <= |s|
      invariant arr + ParseFrom(s, i) == Parse(s)
      decreases |s| - i
    {
      ghost var i0, arr0 := i, arr;
      arr, i := Advance(s, i, arr);
      Unfold(s, i0, arr0);
    }
  }

  /** One match further into the string, with the list built so far in
      front. */
  lemma Unfold(s: string, i: nat, arr: seq<int>)
    requires i < |s|
    ensures arr + ParseFrom(s, i) == (arr + Step(s, i).0) + ParseFrom(s, Step(s, i).1)
  {
  }

  lemma StepUnfold(s: string, i: nat)
    requires i < |s|
    ensures ParseFrom(s, i) == Step(s, i).0 + ParseFrom(s, Step(s, i).1)
  {
  }

  /** One turn of the `finditer` loop: skip a character that cannot start a
      match, or extend the list with the match that starts here. */
  method Advance(s: string, i: nat, arr: seq<int>) returns (arr': seq<int>, next: nat)
    requires i < |s|
    ensures arr' == arr + Step(s, i).0 && next == Step(s, i).1
  {
    if !IsDigit(s[i]) {
      arr', next := arr, i + 1;
      assert arr' == arr + [];
    } else {
      var start, end;
      start, end, next := ReadMatch(s, i);
      arr' := Extend(arr, start, end);
    }
  }

  /** `arr.extend(range(a, b + 1))`. */
  method Extend(arr: seq<int>, a: int, b: int) returns (r: seq<int>)
    ensures r == arr + Span(a, b)
  {
    r := arr;
    var v := a;
    while v <= b
      invariant a <= v && (v <= b + 1 || v == a)
      invariant r == arr + Span(a, v - 1)
      decreases b - v
    {
      assert Span(a, v) == Span(a, v - 1) + [v];
      r := r + [v];
      v := v + 1;
    }
  }

  /** A lone number `n` yields `[n]`. */
  lemma LoneNumber(d: string)
    requires d != [] && AllDigits(d)
    ensures Parse(d) == [Value(d)]
  {
    DigitEndAll(d, 0);
    assert Number(d, 0) == (Value(d), |d|);
    assert MatchAt(d, 0) == Match(Value(d), Value(d), |d|);
    assert Span(Value(d), Value(d)) == [Value(d)];
    assert Step(d, 0) == ([Value(d)], |d|);
    assert ParseFrom(d, |d|) == [];
  }

  /** `a-b` and `a~b` yield a, a+1, ..., b, and nothing when a > b. */
  lemma RangeGroup(a: string, sep: char, b: string)
    requires a != [] && AllDigits(a) && b != [] && AllDigits(b) && IsSeparator(sep)
    ensures Parse(a + [sep] + b) == Span(Value(a), Value(b))
    ensures Value(b) < Value(a) ==> Parse(a + [sep] + b) == []
  {
    var s := a + [sep] + b;
    DigitEndAll(a, 0);
    DigitEndExtend(a, sep, b, 0);
    ValueAgree(a, s, 0, |a|);
    assert s == (a + [sep]) + b;
    DigitEndAll(b, 0);
    DigitEndShift(a + [sep], b, 0);
    ValueShift(a + [sep], b, 0, |b|);
    assert s[|a|] == sep && s[|a| + 1] == b[0];
    assert Number(s, 0) == (Value(a), |a|);
    assert Number(s, |a| + 1) == (Value(b), |s|);
    assert MatchAt(s, 0) == Match(Value(a), Value(b), |s|);
    assert ParseFrom(s, |s|) == [];
  }

  /** A separator not followed by a digit ends the group: `"5-"` yields `[5]`. */
  lemma DanglingSeparator(d: string, sep: char)
    requires d != [] && AllDigits(d) && IsSeparator(sep)
    ensures Parse(d + [sep]) == [Value(d)]
  {
    var s := d + [sep];
    assert s == d + [sep] + [];
    DigitEndAll(d, 0);
    DigitEndExtend(d, sep, [], 0);
    ValueAgree(d, s, 0, |d|);
    assert Number(s, 0) == (Value(d), |d|);
    assert MatchAt(s, 0) == Match(Value(d), Value(d), |d|);
    assert Span(Value(d), Value(d)) == [Value(d)];
    assert Step(s, 0) == ([Value(d)], |d|);
    assert Step(s, |d|) == ([], |s|);
    assert ParseFrom(s, |d|) == [];
    assert ParseFrom(s, |s|) == [];
  }

  /** A string without digits yields the empty list. */
  lemma {:induction false} NoDigits(s: string, i: nat)
    requires i <= |s|
    requires forall k | i <= k < |s| :: !IsDigit(s[k])
    ensures ParseFrom(s, i) == []
    decreases |s| - i
  {
    if i < |s| {
      NoDigits(s, i + 1);
    }
  }

  /** Groups are concatenated in the order they appear, with no sorting and
      no merging of repeated numbers: a character that is neither a digit nor
      a separator splits the string into independently parsed halves. */
  lemma Concatenation(s: string, c: char, t: string)
    requires !IsDigit(c) && !IsSeparator(c)
    ensures Parse(s + [c] + t) == Parse(s) + Parse(t)
  {
    ConcatFrom(s, c, t, 0);
  }

  lemma {:induction false} ConcatFrom(s: string, c: char, t: string, i: nat)
    requires !IsDigit(c) && !IsSeparator(c) && i <= |s|
    ensures ParseFrom(s + [c] + t, i) == ParseFrom(s, i) + Parse(t)
    decreases |s| - i
  {
    if i == |s| {
      ConcatEnd(s, c, t);
    } else {
      var w := s + [c] + t;
      var (got, next) := Step(s, i);
      StepPrefix(s, c, t, i);
      StepUnfold(w, i);
      StepUnfold(s, i);
      ConcatFrom(s, c, t, next);
      assert got + (ParseFrom(s, next) + Parse(t)) == (got + ParseFrom(s, next)) + Parse(t);
    }
  }

  /** At the joining character, what follows is parsed on its own. */
  lemma ConcatEnd(s: string, c: char, t: string)
    requires !IsDigit(c) && !IsSeparator(c)
    ensures ParseFrom(s + [c] + t, |s|) == Parse(t)
  {
    var w := s + [c] + t;
    assert w == (s + [c]) + t;
    assert Step(w, |s|) == ([], |s| + 1);
    StepUnfold(w, |s|);
    ShiftFrom(s + [c], t, 0);
  }

  /** A match inside s is found the same way when s is followed by a
      character that is neither a digit nor a separator. */
  lemma StepPrefix(s: string, c: char, t: string, i: nat)
    requires !IsDigit(c) && !IsSeparator(c) && i < |s|
    ensures Step(s + [c] + t, i) == Step(s, i)
  {
    assert (s + [c] + t)[i] == s[i];
    if IsDigit(s[i]) {
      MatchPrefix(s, c, t, i);
    }
  }

  lemma MatchPrefix(s: string, c: char, t: string, i: nat)
    requires !IsDigit(c) && !IsSeparator(c) && i < |s| && IsDigit(s[i])
    ensures (s + [c] + t)[i] == s[i]
    ensures MatchAt(s + [c] + t, i) == MatchAt(s, i)
  {
    var w := s + [c] + t;
    NumberPrefix(s, c, t, i);
    var (a, j) := Number(s, i);
    var grouped := j + 1 < |s| && IsSeparator(s[j]) && IsDigit(s[j + 1]);
    if j + 1 < |s| {
      assert w[j] == s[j] && w[j + 1] == s[j + 1];
    } else if j + 1 == |s| {
      assert w[j + 1] == c;
    } else {
      assert w[j] == c;
    }
    assert grouped == (j + 1 < |w| && IsSeparator(w[j]) && IsDigit(w[j + 1]));
    if grouped {
      NumberPrefix(s, c, t, j + 1);
      var (b, k) := Number(s, j + 1);
      assert MatchAt(s, i) == Match(a, b, k);
    } else {
      assert MatchAt(s, i) == Match(a, a, j);
    }
  }

  lemma NumberPrefix(s: string, c: char, t: string, i: nat)
    requires !IsDigit(c) && i < |s| && IsDigit(s[i])
    ensures (s + [c] + t)[i] == s[i]
    ensures Number(s + [c] + t, i) == Number(s, i)
  {
    var w := s + [c] + t;
    assert w[i] == s[i];
    DigitEndExtend(s, c, t, i);
    ValueAgree(s, w, i, DigitEnd(s, i));
  }

  /** Parsing past a prefix is parsing the rest on its own. */
  lemma {:induction false} ShiftFrom(p: string, t: string, i: nat)
    requires i <= |t|
    ensures ParseFrom(p + t, |p| + i) == ParseFrom(t, i)
    decreases |t| - i
  {
    if i < |t| {
      var next := Step(t, i).1;
      UnfoldShifted(p, t, i);
      StepUnfold(t, i);
      ShiftFrom(p, t, next);
    } else {
      assert |p + t| == |p| + i;
    }
  }

  /** One step of parsing past a prefix is the step on the rest, shifted. */
  lemma UnfoldShifted(p: string, t: string, i: nat)
    requires i < |t|
    ensures Step(t, i).1 <= |t|
    ensures ParseFrom(p + t, |p| + i) == Step(t, i).0 + ParseFrom(p + t, |p| + Step(t, i).1)
  {
    StepShift(p, t, i);
    StepUnfold(p + t, |p| + i);
  }

  lemma StepShift(p: string, t: string, i: nat)
    requires i < |t|
    ensures Step(p + t, |p| + i) == (Step(t, i).0, |p| + Step(t, i).1)
  {
    var w := p + t;
    assert w[|p| + i] == t[i];
    if IsDigit(t[i]) {
      MatchShift(p, t, i);
    }
  }

  lemma MatchShift(p: string, t: string, i: nat)
    requires i < |t| && IsDigit(t[i])
    ensures (p + t)[|p| + i] == t[i]
    ensures MatchAt(p + t, |p| + i) == MatchAt(t, i).(end := |p| + MatchAt(t, i).end)
  {
    var w := p + t;
    NumberShift(p, t, i);
    var j := DigitEnd(t, i);
    if j + 1 < |t| {
      assert w[|p| + j] == t[j] && w[|p| + j + 1] == t[j + 1];
      if IsSeparator(t[j]) && IsDigit(t[j + 1]) {
        NumberShift(p, t, j + 1);
      }
    }
  }

  lemma NumberShift(p: string, t: string, i: nat)
    requires i < |t| && IsDigit(t[i])
    ensures (p + t)[|p| + i] == t[i]
    ensures Number(p + t, |p| + i) == (Number(t, i).0, |p| + Number(t, i).1)
  {
    assert (p + t)[|p| + i] == t[i];
    DigitEndShift(p, t, i);
    ValueShift(p, t, i, DigitEnd(t, i));
  }

  lemma {:induction false} DigitEndShift(p: string, t: string, i: nat)
    requires i <= |t|
    ensures DigitEnd(p + t, |p| + i) == |p| + DigitEnd(t, i)
    decreases |t| - i
  {
    if i < |t| {
      assert (p + t)[|p| + i] == t[i];
      DigitEndShift(p, t, i + 1);
    }
  }

  /** A run of digits inside s ends at the same place when s is followed by
      a character that is not a digit. */
  lemma {:induction false} DigitEndExtend(s: string, c: char, t: string, i: nat)
    requires !IsDigit(c) && i <= |s|
    ensures DigitEnd(s + [c] + t, i) == DigitEnd(s, i)
    decreases |s| - i
  {
    var w := s + [c] + t;
    if i < |s| {
      assert w[i] == s[i];
      DigitEndExtend(s, c, t, i + 1);
    } else {
      assert w[i] == c;
    }
  }

  lemma {:induction false} DigitEndAll(d: string, i: nat)
    requires i <= |d| && AllDigits(d)
    ensures DigitEnd(d, i) == |d|
    decreases |d| - i
  {
    if i < |d| {
      DigitEndAll(d, i + 1);
    }
  }

  lemma {:induction false} ValueShift(p: string, t: string, i: nat, j: nat)
    requires i <= j <= |t| && DigitsIn(t, i, j)
    ensures DigitsIn(p + t, |p| + i, |p| + j)
    ensures ValueOf(p + t, |p| + i, |p| + j) == ValueOf(t, i, j)
    decreases j - i
  {
    assert forall k | i <= k < j :: (p + t)[|p| + k] == t[k];
    if i < j {
      ValueShift(p, t, i, j - 1);
    }
  }

  /** The value of a run of digits depends on those characters alone. */
  lemma {:induction false} ValueAgree(s1: string, s2: string, i: nat, j: nat)
    requires i <= j <= |s1| && j <= |s2| && DigitsIn(s1, i, j)
    requires forall k | i <= k < j :: s1[k] == s2[k]
    ensures DigitsIn(s2, i, j) && ValueOf(s1, i, j) == ValueOf(s2, i, j)
    decreases j - i
  {
    if i < j {
      ValueAgree(s1, s2, i, j - 1);
    }
  }
}
