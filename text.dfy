/** Go's `strings` and `strconv` helpers used by the core, over byte strings.
    A Go `string` and a `[]byte` are both modelled as `string`, one `char`
    standing for one byte, so the conversions between them are the identity. */
module Text {
  import opened Wrappers

  /** The index of the first `c` in `s`, or `|s|` when there is none. */
  function IndexOf(s: string, c: char): (i: nat)
    ensures i <= |s|
    ensures forall j :: 0 <= j < i ==> s[j] != c
    ensures i < |s| ==> s[i] == c
  {
    if |s| == 0 then 0 else if s[0] == c then 0 else 1 + IndexOf(s[1..], c)
  }

  /** `strings.Split(s, sep)` for a one-character separator: never empty, and
      no piece contains the separator. */
  function Split(s: string, sep: char): (parts: seq<string>)
    ensures |parts| >= 1
    ensures forall k :: 0 <= k < |parts| ==> sep !in parts[k]
    decreases |s|
  {
    var i := IndexOf(s, sep);
    if i == |s| then [s] else [s[..i]] + Split(s[i + 1..], sep)
  }

  /** `strings.Join(parts, sep)`. */
  function JoinSep(parts: seq<string>, sep: char): string
  {
    if |parts| == 0 then ""
    else if |parts| == 1 then parts[0]
    else parts[0] + [sep] + JoinSep(parts[1..], sep)
  }

  /** Joining what `Split` cut gives the string back. */
  lemma {:induction false} JoinSplit(s: string, sep: char)
    ensures JoinSep(Split(s, sep), sep) == s
    decreases |s|
  {
    var i := IndexOf(s, sep);
    if i < |s| {
      var rest := s[i + 1..];
      var parts := [s[..i]] + Split(rest, sep);
      assert Split(s, sep) == parts;
      JoinOneOrMore(parts, sep);
      assert parts[1..] == Split(rest, sep);
      JoinSplit(rest, sep);
      assert s == s[..i] + [sep] + rest;
    } else {
      assert Split(s, sep) == [s];
    }
  }

  lemma {:induction false} JoinOneOrMore(parts: seq<string>, sep: char)
    requires |parts| >= 2
    ensures JoinSep(parts, sep) == parts[0] + [sep] + JoinSep(parts[1..], sep)
  {
  }

  /** A join starts with its first piece. */
  lemma {:induction false} JoinOneOrMoreHead(parts: seq<string>, sep: char)
    requires |parts| >= 1
    ensures parts[0] <= JoinSep(parts, sep)
  {
  }

  /** Splitting a join of separator-free pieces gives the pieces back. */
  lemma {:induction false} SplitJoin(parts: seq<string>, sep: char)
    requires |parts| >= 1
    requires forall k :: 0 <= k < |parts| ==> sep !in parts[k]
    ensures Split(JoinSep(parts, sep), sep) == parts
    decreases |parts|
  {
    if |parts| == 1 {
      NoSepIndex(parts[0], sep);
    } else {
      var tail := parts[1..];
      assert forall k :: 0 <= k < |tail| ==> sep !in tail[k] by {
        forall k | 0 <= k < |tail| ensures sep !in tail[k] {
          assert tail[k] == parts[k + 1];
        }
      }
      var rest := JoinSep(tail, sep);
      assert JoinSep(parts, sep) == parts[0] + [sep] + rest by {
        JoinOneOrMore(parts, sep);
      }
      assert Split(rest, sep) == tail by {
        SplitJoin(tail, sep);
      }
      SplitCut(parts[0], rest, sep);
      assert parts == [parts[0]] + tail;
    }
  }

  /** A separator-free piece before a separator is the first piece. */
  lemma SplitCut(a: string, b: string, sep: char)
    requires sep !in a
    ensures Split(a + [sep] + b, sep) == [a] + Split(b, sep)
  {
    var s := a + [sep] + b;
    assert s == a + ([sep] + b);
    PrefixIndex(a, [sep] + b, sep);
    assert s[..|a|] == a;
    assert s[|a| + 1..] == b;
  }

  lemma NoSepIndex(s: string, sep: char)
    requires sep !in s
    ensures IndexOf(s, sep) == |s|
  {
  }

  lemma PrefixIndex(a: string, b: string, sep: char)
    requires sep !in a
    requires |b| > 0 && b[0] == sep
    ensures IndexOf(a + b, sep) == |a|
  {
    assert (a + b)[|a|] == sep;
  }

  /** The first piece of `Split(s, sep)` is what precedes the first separator. */
  lemma SplitHead(s: string, sep: char)
    ensures Split(s, sep)[0] == s[..IndexOf(s, sep)]
  {
  }

  /** `Split` cuts at least twice exactly when the separator occurs, and the
      pieces after the first join back to what follows the first separator. */
  lemma SplitTail(s: string, sep: char)
    ensures |Split(s, sep)| >= 2 <==> sep in s
    ensures sep in s ==> JoinSep(Split(s, sep)[1..], sep) == s[IndexOf(s, sep) + 1..]
  {
    if sep in s {
      JoinSplit(s[IndexOf(s, sep) + 1..], sep);
    }
  }

  /** `strings.HasPrefix`. */
  predicate HasPrefix(s: string, prefix: string)
  {
    |prefix| <= |s| && s[..|prefix|] == prefix
  }

  // ------------------------------------------------------------------
  // strconv.Atoi

  predicate IsDigit(c: char) { '0' <= c <= '9' }

  predicate AllDigits(s: string)
  {
    forall k :: 0 <= k < |s| ==> IsDigit(s[k])
  }

  /** The value of a string of decimal digits, most significant first. */
  function DigitsValue(s: string): nat
    requires AllDigits(s)
  {
    if |s| == 0 then 0
    else 10 * DigitsValue(s[..|s| - 1]) + (s[|s| - 1] as int - '0' as int)
  }

  const MinInt64: int := -0x8000_0000_0000_0000
  const MaxInt64: int := 0x7FFF_FFFF_FFFF_FFFF

  /** `strconv.Atoi` on a 64-bit platform: an optional `+` or `-`, then one or
      more decimal digits, with the value inside the range of `int`. Any other
      input is an error (None). */
  function Atoi(s: string): (r: Option<int>)
    ensures r.Some? ==> MinInt64 <= r.value <= MaxInt64
    ensures r.Some? ==> |s| >= 1
  {
    var neg := |s| > 0 && s[0] == '-';
    var digits := if |s| > 0 && (s[0] == '-' || s[0] == '+') then s[1..] else s;
    if |digits| == 0 || !AllDigits(digits) then None
    else
      var v: int := if neg then -(DigitsValue(digits) as int) else DigitsValue(digits);
      if MinInt64 <= v <= MaxInt64 then Some(v) else None
  }

  /** Leading zeros do not change the value of a digit string. */
  lemma {:induction false} LeadingZeroValue(s: string)
    requires AllDigits(s)
    ensures AllDigits("0" + s) && DigitsValue("0" + s) == DigitsValue(s)
    decreases |s|
  {
    var z := "0" + s;
    assert AllDigits(z) by {
      forall k | 0 <= k < |z| ensures IsDigit(z[k]) {
        if k > 0 { assert z[k] == s[k - 1]; }
      }
    }
    if |s| > 0 {
      var init := s[..|s| - 1];
      assert z[..|z| - 1] == "0" + init;
      assert z[|z| - 1] == s[|s| - 1];
      LeadingZeroValue(init);
    }
  }

  /** A zero put before an unsigned digit string leaves its `Atoi` value
      unchanged: "01" and "1" denote the same number. */
  lemma AtoiLeadingZero(s: string)
    requires |s| >= 1 && AllDigits(s)
    ensures Atoi("0" + s) == Atoi(s)
  {
    LeadingZeroValue(s);
    assert ("0" + s)[0] == '0';
  }

  lemma AtoiExamples()
    ensures Atoi("01") == Some(1)
    ensures Atoi("7") == Some(7)
    ensures Atoi("-3") == Some(-3)
    ensures Atoi("") == None && Atoi("+") == None && Atoi("1a") == None
  {
    assert DigitsValue("01") == 10 * DigitsValue("0") + 1;
    assert DigitsValue("3") == 3;
    assert !AllDigits("1a") by { assert !IsDigit("1a"[1]); }
  }
}
