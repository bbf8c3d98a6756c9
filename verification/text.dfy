/**
 Splitting a string on a single separator character and joining a sequence
 of strings with one separator between neighbours.

 `Split` behaves like Rust's `str::split` with a one-character pattern: the
 split is literal, so two adjacent separators give an empty segment between
 them, and the empty string gives the one segment `""`. `Join` behaves like
 `[String]::join`: exactly one separator between consecutive segments and
 none at either end.
 */
module Text {

  /** Number of positions of `s` that hold `c`. */
  function Occurrences(s: string, c: char): nat
  {
    if |s| == 0 then 0
    else (if s[0] == c then 1 else 0) + Occurrences(s[1..], c)
  }

  lemma {:induction false} OccurrencesAppend(a: string, b: string, c: char)
    ensures Occurrences(a + b, c) == Occurrences(a, c) + Occurrences(b, c)
    decreases |a|
  {
    if |a| == 0 {
      assert a + b == b;
    } else {
      assert (a + b)[1..] == a[1..] + b;
      OccurrencesAppend(a[1..], b, c);
    }
  }

  lemma {:induction false} OccurrencesAbsent(s: string, c: char)
    requires c !in s
    ensures Occurrences(s, c) == 0
    decreases |s|
  {
    if |s| > 0 {
      assert c !in s[1..] by {
        forall k | 0 <= k < |s[1..]| ensures s[1..][k] != c {
          assert s[1..][k] == s[k + 1];
        }
      }
      OccurrencesAbsent(s[1..], c);
    }
  }

  /** The segments of `s` between occurrences of `sep`, in order. */
  function Split(s: string, sep: char): (parts: seq<string>)
    ensures |parts| == Occurrences(s, sep) + 1
    ensures forall i | 0 <= i < |parts| :: sep !in parts[i]
    decreases |s|
  {
    if |s| == 0 then [""]
    else
      var rest := Split(s[1..], sep);
      if s[0] == sep then [""] + rest
      else [[s[0]] + rest[0]] + rest[1..]
  }

  /** The segments of `parts` in order, with one `sep` between neighbours. */
  function Join(parts: seq<string>, sep: char): (s: string)
    ensures |parts| > 0 ==> parts[0] <= s
    ensures |parts| > 1 ==> |s| > |parts[0]| && s[|parts[0]|] == sep
    decreases |parts|
  {
    if |parts| == 0 then ""
    else if |parts| == 1 then parts[0]
    else parts[0] + ([sep] + Join(parts[1..], sep))
  }

  /** Joining n separator-free segments puts exactly n - 1 separators in the result. */
  lemma {:induction false} JoinSeparators(parts: seq<string>, sep: char)
    requires |parts| > 0
    requires forall i | 0 <= i < |parts| :: sep !in parts[i]
    ensures Occurrences(Join(parts, sep), sep) == |parts| - 1
    decreases |parts|
  {
    OccurrencesAbsent(parts[0], sep);
    if |parts| > 1 {
      var tail := Join(parts[1..], sep);
      JoinSeparators(parts[1..], sep);
      OccurrencesAppend(parts[0], [sep] + tail, sep);
      OccurrencesAppend([sep], tail, sep);
    }
  }

  /** Joining the segments of a split gives back the original string. */
  lemma {:induction false} JoinSplit(s: string, sep: char)
    ensures Join(Split(s, sep), sep) == s
    decreases |s|
  {
    if |s| > 0 {
      var rest := Split(s[1..], sep);
      JoinSplit(s[1..], sep);
      if s[0] == sep {
        assert ([""] + rest)[1..] == rest;
        assert s == [sep] + s[1..];
      } else {
        var parts := [[s[0]] + rest[0]] + rest[1..];
        if |rest| == 1 {
          assert s == [s[0]] + s[1..];
        } else {
          assert parts[1..] == rest[1..];
          assert Join(rest, sep) == rest[0] + ([sep] + Join(rest[1..], sep));
          assert s == [s[0]] + s[1..];
        }
      }
    }
  }

  /** A separator-free prefix becomes the first segment of the split. */
  lemma {:induction false} SplitAfterSegment(p: string, sep: char, t: string)
    requires sep !in p
    ensures Split(p + [sep] + t, sep) == [p] + Split(t, sep)
    decreases |p|
  {
    if |p| == 0 {
      assert p + [sep] + t == [sep] + t;
      assert ([sep] + t)[1..] == t;
    } else {
      var s := p + [sep] + t;
      assert s[0] == p[0];
      assert s[1..] == p[1..] + [sep] + t;
      assert sep !in p[1..] by {
        forall k | 0 <= k < |p[1..]| ensures p[1..][k] != sep {
          assert p[1..][k] == p[k + 1];
        }
      }
      SplitAfterSegment(p[1..], sep, t);
      assert [p[0]] + p[1..] == p;
      assert ([p[1..]] + Split(t, sep))[1..] == Split(t, sep);
    }
  }

  /** A separator-free string splits into itself alone. */
  lemma {:induction false} SplitWithoutSeparator(p: string, sep: char)
    requires sep !in p
    ensures Split(p, sep) == [p]
    decreases |p|
  {
    if |p| > 0 {
      assert sep !in p[1..] by {
        forall k | 0 <= k < |p[1..]| ensures p[1..][k] != sep {
          assert p[1..][k] == p[k + 1];
        }
      }
      SplitWithoutSeparator(p[1..], sep);
      assert [p[0]] + p[1..] == p;
    }
  }

  /** Splitting a join of separator-free segments gives back the segments. */
  lemma {:induction false} SplitJoin(parts: seq<string>, sep: char)
    requires |parts| > 0
    requires forall i | 0 <= i < |parts| :: sep !in parts[i]
    ensures Split(Join(parts, sep), sep) == parts
    decreases |parts|
  {
    if |parts| == 1 {
      SplitWithoutSeparator(parts[0], sep);
    } else {
      var tail := Join(parts[1..], sep);
      assert Join(parts, sep) == parts[0] + [sep] + tail;
      SplitAfterSegment(parts[0], sep, tail);
      SplitJoin(parts[1..], sep);
      assert [parts[0]] + parts[1..] == parts;
    }
  }
}
