/** Character and string operations the D-PRS parser is built from: ASCII
    digits and their value (what Python's int() reads), prefixes, Python's
    str.split with an explicit separator, and the rewriting of every '/'
    into '\' used to state that the parser does not care which of the two
    separates latitude from longitude. */
module Text {

  datatype Option<+T> = None | Some(value: T)

  predicate IsDigit(c: char) { '0' <= c <= '9' }

  predicate AllDigits(s: string) { forall i :: 0 <= i < |s| ==> IsDigit(s[i]) }

  function DigitValue(c: char): (d: nat)
    requires IsDigit(c)
    ensures d < 10
  {
    c as int - '0' as int
  }

  function Pow10(n: nat): (p: nat)
    ensures p >= 1
  {
    if n == 0 then 1 else 10 * Pow10(n - 1)
  }

  /** The base-ten value of a string of ASCII digits (the empty string reads as 0). */
  function DigitsValue(s: string): (v: nat)
    requires AllDigits(s)
    ensures v < Pow10(|s|)
  {
    if |s| == 0 then 0
    else
      var high := DigitsValue(s[..|s| - 1]);
      assert high <= Pow10(|s| - 1) - 1;
      10 * high + DigitValue(s[|s| - 1])
  }

  /** Python's s.startswith(prefix). */
  predicate StartsWith(s: string, prefix: string)
  {
    |prefix| <= |s| && s[..|prefix|] == prefix
  }

  /** Number of occurrences of c in s. */
  function Count(s: string, c: char): (n: nat)
    ensures n == 0 <==> c !in s
    ensures n <= |s|
  {
    if |s| == 0 then 0
    else (if s[0] == c then 1 else 0) + Count(s[1..], c)
  }

  /** Index of the first occurrence of c in s, or |s| when there is none. */
  function IndexOf(s: string, c: char): (k: nat)
    ensures k <= |s|
    ensures k < |s| ==> s[k] == c
    ensures forall j :: 0 <= j < k ==> s[j] != c
  {
    if |s| == 0 then 0
    else if s[0] == c then 0
    else 1 + IndexOf(s[1..], c)
  }

  /** Python's s.split(sep) for a one-character separator: the pieces between
      consecutive separators, one more piece than there are separators. The
      first piece is the longest prefix of s free of sep. */
  function Split(s: string, sep: char): (parts: seq<string>)
    ensures |parts| == Count(s, sep) + 1
    ensures forall k :: 0 <= k < |parts| ==> sep !in parts[k]
    ensures StartsWith(s, parts[0])
    ensures |parts[0]| == |s| || s[|parts[0]|] == sep
  {
    if |s| == 0 then [""]
    else
      var rest := Split(s[1..], sep);
      if s[0] == sep then [""] + rest
      else [[s[0]] + rest[0]] + rest[1..]
  }

  /** Python's sep.join(parts). */
  function Join(parts: seq<string>, sep: char): string
    requires |parts| >= 1
  {
    if |parts| == 1 then parts[0]
    else parts[0] + [sep] + Join(parts[1..], sep)
  }

  lemma JoinCons(head: string, rest: seq<string>, sep: char)
    requires |rest| >= 1
    ensures Join([head] + rest, sep) == head + [sep] + Join(rest, sep)
  {
    assert ([head] + rest)[1..] == rest;
  }

  /** Putting a character in front of the first piece puts it in front of the join. */
  lemma JoinPrepend(c: char, parts: seq<string>, sep: char)
    requires |parts| >= 1
    ensures Join([[c] + parts[0]] + parts[1..], sep) == [c] + Join(parts, sep)
  {
    if |parts| > 1 {
      JoinCons([c] + parts[0], parts[1..], sep);
    }
  }

  /** Joining the pieces of a split with the same separator gives back the text. */
  lemma {:induction false} JoinSplit(s: string, sep: char)
    ensures Join(Split(s, sep), sep) == s
  {
    if |s| > 0 {
      var rest := Split(s[1..], sep);
      JoinSplit(s[1..], sep);
      SplitStep(s, sep);
      if s[0] == sep {
        JoinCons("", rest, sep);
      } else {
        JoinPrepend(s[0], rest, sep);
      }
      assert [s[0]] + s[1..] == s;
    }
  }

  lemma {:induction false} SplitSeparated(a: string, sep: char, b: string)
    requires sep !in a
    ensures Split(a + [sep] + b, sep) == [a] + Split(b, sep)
  {
    var s := a + [sep] + b;
    if |a| == 0 {
      assert s[0] == sep && s[1..] == b;
      SplitStep(s, sep);
    } else {
      assert s[0] == a[0] && a[0] != sep;
      assert s[1..] == a[1..] + [sep] + b;
      SplitSeparated(a[1..], sep, b);
      SplitStep(s, sep);
      assert [a[0]] + a[1..] == a;
    }
  }

  lemma {:induction false} SplitUnseparated(a: string, sep: char)
    requires sep !in a
    ensures Split(a, sep) == [a]
  {
    if |a| > 0 {
      SplitUnseparated(a[1..], sep);
      assert [a[0]] + a[1..] == a;
    }
  }

  /** Splitting a join of separator-free pieces gives back the pieces. */
  lemma {:induction false} SplitJoin(parts: seq<string>, sep: char)
    requires |parts| >= 1
    requires forall k :: 0 <= k < |parts| ==> sep !in parts[k]
    ensures Split(Join(parts, sep), sep) == parts
  {
    if |parts| == 1 {
      SplitUnseparated(parts[0], sep);
    } else {
      SplitJoin(parts[1..], sep);
      SplitSeparated(parts[0], sep, Join(parts[1..], sep));
      assert [parts[0]] + parts[1..] == parts;
    }
  }

  function Unslash(c: char): char { if c == '/' then '\\' else c }

  /** s with every '/' replaced by '\'. */
  function Backslashed(s: string): (r: string)
    ensures |r| == |s|
    ensures forall i :: 0 <= i < |s| ==> r[i] == Unslash(s[i])
  {
    seq(|s|, i requires 0 <= i < |s| => Unslash(s[i]))
  }

  lemma BackslashedSlice(s: string, i: nat, j: nat)
    requires i <= j <= |s|
    ensures Backslashed(s)[i..j] == Backslashed(s[i..j])
  {
  }

  lemma BackslashedFixes(s: string)
    requires '/' !in s
    ensures Backslashed(s) == s
  {
  }

  /** Each piece passed through Backslashed. */
  function BackslashedEach(parts: seq<string>): (r: seq<string>)
    ensures |r| == |parts|
    ensures forall k :: 0 <= k < |parts| ==> r[k] == Backslashed(parts[k])
  {
    seq(|parts|, k requires 0 <= k < |parts| => Backslashed(parts[k]))
  }

  lemma BackslashedEachCons(head: string, rest: seq<string>)
    ensures BackslashedEach([head] + rest) == [Backslashed(head)] + BackslashedEach(rest)
  {
  }

  lemma SplitStep(s: string, sep: char)
    requires |s| > 0
    ensures s[0] == sep ==> Split(s, sep) == [""] + Split(s[1..], sep)
    ensures s[0] != sep ==>
      Split(s, sep) == [[s[0]] + Split(s[1..], sep)[0]] + Split(s[1..], sep)[1..]
  {
  }

  lemma BackslashedHead(c: char, rest: seq<string>)
    requires |rest| >= 1
    ensures BackslashedEach([[c] + rest[0]] + rest[1..])
      == [[Unslash(c)] + BackslashedEach(rest)[0]] + BackslashedEach(rest)[1..]
  {
    assert Backslashed([c] + rest[0]) == [Unslash(c)] + Backslashed(rest[0]);
    BackslashedEachCons([c] + rest[0], rest[1..]);
    assert BackslashedEach(rest)[1..] == BackslashedEach(rest[1..]);
  }

  /** Rewriting '/' into '\' before splitting on any other separator rewrites
      each piece and nothing else. */
  lemma {:induction false} SplitBackslashed(s: string, sep: char)
    requires sep != '/' && sep != '\\'
    ensures Split(Backslashed(s), sep) == BackslashedEach(Split(s, sep))
  {
    if |s| > 0 {
      var t := Backslashed(s);
      var rest := Split(s[1..], sep);
      assert Split(t[1..], sep) == BackslashedEach(rest) by {
        assert t[1..] == Backslashed(s[1..]);
        SplitBackslashed(s[1..], sep);
      }
      assert t[0] == Unslash(s[0]) && (t[0] == sep <==> s[0] == sep);
      SplitStep(s, sep);
      SplitStep(t, sep);
      if s[0] == sep {
        BackslashedEachCons("", rest);
      } else {
        BackslashedHead(s[0], rest);
      }
    }
  }
}
