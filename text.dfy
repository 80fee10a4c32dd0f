/**
 * Text helpers shared by the DOT writers: joining with a separator, Python's
 * "append a separator after every item, then cut the last one off" idiom,
 * `hex` for naturals with its inverse, and `str.replace`.
 */
module Text {
  import opened Wrappers

  /** `sep.join(xs)`: the items with `sep` between consecutive ones. */
  function Join(xs: seq<string>, sep: string): string
  {
    if |xs| == 0 then "" else if |xs| == 1 then xs[0] else xs[0] + sep + Join(xs[1..], sep)
  }

  /** Every item followed by `sep`, as built by `acc += x + sep` in a loop. */
  function JoinTrailing(xs: seq<string>, sep: string): string
  {
    if xs == [] then "" else xs[0] + sep + JoinTrailing(xs[1..], sep)
  }

  /** Python's `s[0:-k]` for k > 0: drops the last k characters, or gives "" when there are no more than k. */
  function DropLast(s: string, k: nat): (r: string)
    ensures |s| >= k ==> r == s[..|s| - k]
    ensures |s| <= k ==> r == ""
  {
    if |s| >= k then s[..|s| - k] else ""
  }

  lemma {:induction false} JoinTrailingSnoc(xs: seq<string>, x: string, sep: string)
    ensures JoinTrailing(xs + [x], sep) == JoinTrailing(xs, sep) + x + sep
  {
    if xs == [] {
      assert xs + [x] == [x];
    } else {
      assert (xs + [x])[1..] == xs[1..] + [x];
      JoinTrailingSnoc(xs[1..], x, sep);
    }
  }

  /** A trailing-separator list is the joined list followed by one separator. */
  lemma {:induction false} JoinTrailingIsJoinPlusSep(xs: seq<string>, sep: string)
    requires xs != []
    ensures JoinTrailing(xs, sep) == Join(xs, sep) + sep
  {
    if |xs| > 1 {
      JoinTrailingIsJoinPlusSep(xs[1..], sep);
    }
  }

  /** Cutting the final separator off a trailing-separator list gives exactly the joined list. */
  lemma TrimmedTrailingIsJoin(xs: seq<string>, sep: string)
    ensures DropLast(JoinTrailing(xs, sep), |sep|) == Join(xs, sep)
  {
    if xs != [] {
      JoinTrailingIsJoinPlusSep(xs, sep);
      var j := Join(xs, sep);
      assert (j + sep)[..|j + sep| - |sep|] == j;
    }
  }

  lemma DropLastAppend(a: string, b: string, k: nat)
    requires |b| >= k
    ensures DropLast(a + b, k) == a + DropLast(b, k)
  {
    assert (a + b)[..|a + b| - k] == a + b[..|b| - k];
  }

  // ---------------------------------------------------------------------
  // Python's hex() on naturals: "0x" followed by lower-case digits, no
  // leading zeros.

  function HexDigit(d: nat): (c: char)
    requires d < 16
  {
    if d < 10 then ('0' as int + d) as char else ('a' as int + d - 10) as char
  }

  function HexDigits(n: nat): string
    decreases n
  {
    if n < 16 then [HexDigit(n)] else HexDigits(n / 16) + [HexDigit(n % 16)]
  }

  function Hex(n: nat): string
  {
    "0x" + HexDigits(n)
  }

  /** The value of a lower-case hexadecimal digit, if `c` is one. */
  function DigitValue(c: char): Option<nat>
  {
    if '0' <= c <= '9' then Some(c as int - '0' as int)
    else if 'a' <= c <= 'f' then Some(c as int - 'a' as int + 10)
    else None
  }

  predicate IsHexDigits(s: string)
  {
    forall i :: 0 <= i < |s| ==> DigitValue(s[i]).Some?
  }

  function DigitsValue(s: string): nat
    requires IsHexDigits(s)
  {
    if s == [] then 0 else 16 * DigitsValue(s[..|s| - 1]) + DigitValue(s[|s| - 1]).value
  }

  /** Reads back a string written by `Hex`. */
  function ParseHex(s: string): Option<nat>
  {
    if |s| > 2 && s[..2] == "0x" && IsHexDigits(s[2..]) then Some(DigitsValue(s[2..])) else None
  }

  lemma {:induction false} HexDigitsParse(n: nat)
    ensures |HexDigits(n)| > 0 && IsHexDigits(HexDigits(n)) && DigitsValue(HexDigits(n)) == n
    decreases n
  {
    var s := HexDigits(n);
    if n < 16 {
      assert DigitValue(HexDigit(n)) == Some(n);
    } else {
      HexDigitsParse(n / 16);
      var d := HexDigit(n % 16);
      assert DigitValue(d) == Some(n % 16);
      assert s[..|s| - 1] == HexDigits(n / 16);
      assert s[|s| - 1] == d;
    }
  }

  /** `hex` is injective on naturals: its text reads back to the number written. */
  lemma HexRoundTrip(n: nat)
    ensures ParseHex(Hex(n)) == Some(n)
  {
    HexDigitsParse(n);
    assert Hex(n)[..2] == "0x";
    assert Hex(n)[2..] == HexDigits(n);
  }

  /** `hex` writes no leading zero except for zero itself. */
  lemma {:induction false} HexNoLeadingZero(n: nat)
    ensures HexDigits(n)[0] == '0' <==> n == 0
    decreases n
  {
    if n >= 16 {
      HexNoLeadingZero(n / 16);
      HexDigitsParse(n / 16);
    }
  }

  // ---------------------------------------------------------------------
  // str.replace

  /** Whether `pat` occurs in `s` at position `i`. */
  predicate OccursAt(s: string, pat: string, i: nat)
  {
    i + |pat| <= |s| && s[i..i + |pat|] == pat
  }

  /** Python's `s.replace(pat, rep)` for a non-empty pattern: left to right, non-overlapping. */
  function ReplaceAll(s: string, pat: string, rep: string): string
    requires pat != []
    decreases |s|
  {
    if |s| < |pat| then s
    else if s[..|pat|] == pat then rep + ReplaceAll(s[|pat|..], pat, rep)
    else [s[0]] + ReplaceAll(s[1..], pat, rep)
  }

  /** A string in which the pattern never occurs is left as it is. */
  lemma {:induction false} ReplaceAllNoOccurrence(s: string, pat: string, rep: string)
    requires pat != []
    requires forall i :: 0 <= i <= |s| ==> !OccursAt(s, pat, i)
    ensures ReplaceAll(s, pat, rep) == s
    decreases |s|
  {
    if |s| >= |pat| {
      assert !OccursAt(s, pat, 0);
      assert s[..|pat|] != pat;
      var t := s[1..];
      forall i | 0 <= i <= |t|
        ensures !OccursAt(t, pat, i)
      {
        OccursAtTail(s, pat, i);
      }
      ReplaceAllNoOccurrence(t, pat, rep);
      assert ReplaceAll(s, pat, rep) == [s[0]] + ReplaceAll(t, pat, rep);
      assert [s[0]] + t == s;
    }
  }

  lemma OccursAtTail(s: string, pat: string, i: nat)
    requires |s| > 0 && !OccursAt(s, pat, i + 1)
    ensures !OccursAt(s[1..], pat, i)
  {
    if i + |pat| <= |s[1..]| {
      assert s[1..][i..i + |pat|] == s[i + 1..i + 1 + |pat|];
    }
  }

  /** Removing a pattern never makes a string longer. */
  lemma {:induction false} ReplaceByEmptyShortens(s: string, pat: string)
    requires pat != []
    ensures |ReplaceAll(s, pat, "")| <= |s|
    decreases |s|
  {
    if |s| >= |pat| {
      if s[..|pat|] == pat {
        ReplaceByEmptyShortens(s[|pat|..], pat);
      } else {
        ReplaceByEmptyShortens(s[1..], pat);
      }
    }
  }

  // ---------------------------------------------------------------------
  // str.split, the inverse of str.join

  /** Python's `s.split(sep)` for a non-empty separator: the pieces between occurrences, left to right. */
  function Split(s: string, sep: string): (r: seq<string>)
    requires sep != []
    ensures |r| >= 1
    decreases |s|
  {
    if |s| < |sep| then [s]
    else if s[..|sep|] == sep then [""] + Split(s[|sep|..], sep)
    else
      var rest := Split(s[1..], sep);
      [[s[0]] + rest[0]] + rest[1..]
  }

  /** A piece that does not contain the separator's first character splits off whole. */
  lemma {:induction false} SplitPiece(x: string, sep: string, rest: string)
    requires sep != [] && sep[0] !in x
    ensures Split(x + sep + rest, sep) == [x] + Split(rest, sep)
    decreases |x|
  {
    var s := x + sep + rest;
    if x == [] {
      assert s[..|sep|] == sep;
      assert s[|sep|..] == rest;
    } else {
      assert x[0] in x;
      assert s[..|sep|] != sep by {
        assert s[..|sep|][0] == x[0];
      }
      assert s[1..] == x[1..] + sep + rest;
      SplitPiece(x[1..], sep, rest);
      assert [x[0]] + x[1..] == x;
    }
  }

  lemma {:induction false} SplitWhole(x: string, sep: string)
    requires sep != [] && sep[0] !in x
    ensures Split(x, sep) == [x]
    decreases |x|
  {
    if |x| >= |sep| {
      assert x[0] in x;
      assert x[..|sep|] != sep by {
        assert x[..|sep|][0] == x[0];
      }
      SplitWhole(x[1..], sep);
      assert [x[0]] + x[1..] == x;
    }
  }

  /** Splitting a joined list gives the list back when no item contains the separator's first character. */
  lemma {:induction false} SplitJoin(xs: seq<string>, sep: string)
    requires sep != [] && xs != []
    requires forall x :: x in xs ==> sep[0] !in x
    ensures Split(Join(xs, sep), sep) == xs
    decreases |xs|
  {
    assert xs[0] in xs;
    if |xs| == 1 {
      SplitWhole(xs[0], sep);
    } else {
      SplitJoin(xs[1..], sep);
      SplitPiece(xs[0], sep, Join(xs[1..], sep));
      assert [xs[0]] + xs[1..] == xs;
    }
  }

  // ---------------------------------------------------------------------
  // Sequence bookkeeping shared by the writers.

  lemma SeqRegroup<T>(a: seq<T>, b: seq<T>, c: seq<T>)
    ensures (a + b) + c == a + (b + c) && [] + c == c
  {
  }

  lemma TakeSnoc<T>(s: seq<T>, i: nat)
    requires i < |s|
    ensures s[..i + 1] == s[..i] + [s[i]]
  {
  }

  lemma ConcatEmpty<T>(a: seq<T>, b: seq<T>, c: seq<T>)
    requires a == [] && c == []
    ensures a + b + c == b
  {
  }

  lemma DropEmpty<T>(a: seq<T>, b: seq<T>, c: seq<T>)
    requires b == []
    ensures a + b + c == a + c
  {
  }

  lemma ConsIndex<T>(x: T, rest: seq<T>, k: nat)
    requires 0 < k <= |rest|
    ensures ([x] + rest)[k] == rest[k - 1]
  {
  }
}
