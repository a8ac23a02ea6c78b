/** String splitting and joining with the semantics of Rust's `str::split`,
    `str::split_once` and `str::starts_with`. */
module Text {
  import opened Wrappers

  /** Concatenation regroups freely. */
  lemma ConcatAssoc<T>(x: seq<T>, y: seq<T>, z: seq<T>)
    ensures x + (y + z) == x + y + z
  {
  }

  /** How many times `c` occurs in `s`. */
  function Occurrences(s: string, c: char): nat
  {
    if |s| == 0 then 0 else (if s[0] == c then 1 else 0) + Occurrences(s[1..], c)
  }

  lemma {:induction false} OccurrencesConcat(a: string, b: string, c: char)
    ensures Occurrences(a + b, c) == Occurrences(a, c) + Occurrences(b, c)
    decreases |a|
  {
    if |a| == 0 {
      assert a + b == b;
    } else {
      assert (a + b)[1..] == a[1..] + b;
      OccurrencesConcat(a[1..], b, c);
    }
  }

  lemma {:induction false} OccurrencesAbsent(s: string, c: char)
    ensures Occurrences(s, c) == 0 <==> c !in s
    decreases |s|
  {
    if |s| > 0 {
      OccurrencesAbsent(s[1..], c);
      assert s == [s[0]] + s[1..];
    }
  }

  /** Total occurrences of `c` over all strings of `parts`. */
  function OccurrencesAll(parts: seq<string>, c: char): nat
  {
    if |parts| == 0 then 0 else Occurrences(parts[0], c) + OccurrencesAll(parts[1..], c)
  }

  /** True when no string of `parts` contains `c`. */
  predicate FreeOf(parts: seq<string>, c: char)
  {
    forall i :: 0 <= i < |parts| ==> c !in parts[i]
  }

  /** `s.split(sep)`: the fields between occurrences of `sep`, in order; an empty
      string and adjacent separators give empty fields. */
  function Split(s: string, sep: char): (fields: seq<string>)
    ensures |fields| == Occurrences(s, sep) + 1
    ensures FreeOf(fields, sep)
    decreases |s|
  {
    if |s| == 0 then [""]
    else
      var rest := Split(s[1..], sep);
      if s[0] == sep then [""] + rest
      else
        assert sep !in [s[0]] + rest[0];
        [[s[0]] + rest[0]] + rest[1..]
  }

  /** The inverse of `Split`: the fields with `sep` between neighbours. */
  function Join(parts: seq<string>, sep: char): string
    requires |parts| > 0
  {
    if |parts| == 1 then parts[0] else parts[0] + [sep] + Join(parts[1..], sep)
  }

  /** Joining adds exactly one separator between each pair of neighbours. */
  lemma {:induction false} JoinOccurrences(parts: seq<string>, sep: char)
    requires |parts| > 0
    ensures Occurrences(Join(parts, sep), sep) == OccurrencesAll(parts, sep) + |parts| - 1
    decreases |parts|
  {
    if |parts| > 1 {
      JoinOccurrences(parts[1..], sep);
      OccurrencesConcat(parts[0] + [sep], Join(parts[1..], sep), sep);
      OccurrencesConcat(parts[0], [sep], sep);
      assert Occurrences([sep], sep) == 1 by {
        assert [sep][1..] == [];
      }
    } else {
      assert OccurrencesAll(parts[1..], sep) == 0;
    }
  }

  lemma {:induction false} OccurrencesAllFree(parts: seq<string>, sep: char)
    requires FreeOf(parts, sep)
    ensures OccurrencesAll(parts, sep) == 0
    decreases |parts|
  {
    if |parts| > 0 {
      OccurrencesAbsent(parts[0], sep);
      OccurrencesAllFree(parts[1..], sep);
    }
  }

  /** A separator-free string splits into itself. */
  lemma {:induction false} SplitFree(p: string, sep: char)
    requires sep !in p
    ensures Split(p, sep) == [p]
    decreases |p|
  {
    if |p| > 0 {
      SplitFree(p[1..], sep);
      assert [p[0]] + p[1..] == p;
    }
  }

  /** A separator-free field followed by the separator splits off as one field. */
  lemma {:induction false} SplitCons(p: string, sep: char, t: string)
    requires sep !in p
    ensures Split(p + [sep] + t, sep) == [p] + Split(t, sep)
    decreases |p|
  {
    var s := p + [sep] + t;
    if |p| == 0 {
      assert s[1..] == t;
    } else {
      assert s[1..] == p[1..] + [sep] + t;
      SplitCons(p[1..], sep, t);
      assert [p[0]] + p[1..] == p;
    }
  }

  /** Splitting undoes joining separator-free fields. */
  lemma {:induction false} SplitJoin(parts: seq<string>, sep: char)
    requires |parts| > 0
    requires FreeOf(parts, sep)
    ensures Split(Join(parts, sep), sep) == parts
    decreases |parts|
  {
    if |parts| == 1 {
      SplitFree(parts[0], sep);
    } else {
      SplitJoin(parts[1..], sep);
      SplitCons(parts[0], sep, Join(parts[1..], sep));
      assert [parts[0]] + parts[1..] == parts;
    }
  }

  /** Joining undoes splitting. */
  lemma {:induction false} JoinSplit(s: string, sep: char)
    ensures Join(Split(s, sep), sep) == s
    decreases |s|
  {
    if |s| > 0 {
      var rest := Split(s[1..], sep);
      JoinSplit(s[1..], sep);
      if s[0] == sep {
        assert Split(s, sep)[1..] == rest;
        assert s == [sep] + s[1..];
      } else {
        var fields := Split(s, sep);
        assert fields[0] == [s[0]] + rest[0] && fields[1..] == rest[1..];
        if |rest| == 1 {
          assert s == [s[0]] + rest[0];
        } else {
          assert Join(rest, sep) == rest[0] + [sep] + Join(rest[1..], sep);
          assert s == [s[0]] + s[1..];
        }
      }
    }
  }

  /** `s.split_once(sep)` for a character pattern: the text before the first
      occurrence of `sep` and the text after it. */
  function SplitOnce(s: string, sep: char): (r: Option<(string, string)>)
    ensures r.None? <==> sep !in s
    ensures r.Some? ==> sep !in r.value.0 && r.value.0 + [sep] + r.value.1 == s
    decreases |s|
  {
    if |s| == 0 then None
    else if s[0] == sep then Some(([], s[1..]))
    else
      match SplitOnce(s[1..], sep)
      case None => None
      case Some((before, after)) =>
        assert [s[0]] + before + [sep] + after == [s[0]] + s[1..] == s;
        Some(([s[0]] + before, after))
  }

  /** The decomposition `SplitOnce` finds is the only one with a separator-free
      first part. */
  lemma {:induction false} SplitOnceUnique(p: string, sep: char, q: string)
    requires sep !in p
    ensures SplitOnce(p + [sep] + q, sep) == Some((p, q))
    decreases |p|
  {
    var s := p + [sep] + q;
    if |p| == 0 {
      assert s[1..] == q;
    } else {
      assert s[1..] == p[1..] + [sep] + q;
      SplitOnceUnique(p[1..], sep, q);
      assert [p[0]] + p[1..] == p;
    }
  }

  /** The first field of a split is the text before the first separator. */
  lemma SplitFirstField(s: string, sep: char)
    ensures SplitOnce(s, sep).None? ==> Split(s, sep) == [s]
    ensures SplitOnce(s, sep).Some? ==>
      Split(s, sep) == [SplitOnce(s, sep).value.0] + Split(SplitOnce(s, sep).value.1, sep)
  {
    match SplitOnce(s, sep)
    case None => SplitFree(s, sep);
    case Some((before, after)) => SplitCons(before, sep, after);
  }

  /** `s.starts_with(pat)`. */
  predicate StartsWith(s: string, pat: string)
  {
    |pat| <= |s| && s[..|pat|] == pat
  }

  /** True when `pat` occurs in `s` starting at index `i`. */
  predicate OccursAt(s: string, pat: string, i: nat)
  {
    i + |pat| <= |s| && s[i..i + |pat|] == pat
  }

  /** An occurrence one place into `s` is an occurrence at the previous place of its tail. */
  lemma OccursAtTail(s: string, pat: string, i: nat)
    requires |s| > 0
    ensures OccursAt(s, pat, i + 1) <==> OccursAt(s[1..], pat, i)
  {
    if i + 1 + |pat| <= |s| {
      assert s[i + 1..i + 1 + |pat|] == s[1..][i..i + |pat|];
    }
  }

  /** `s.split_once(pat)` for a string pattern: the text before the first
      occurrence of `pat` and the text after it. */
  function SplitOnceStr(s: string, pat: string): (r: Option<(string, string)>)
    requires |pat| > 0
    ensures r.None? <==> forall i: nat :: !OccursAt(s, pat, i)
    ensures r.Some? ==> r.value.0 + pat + r.value.1 == s
    ensures r.Some? ==> forall i: nat :: i < |r.value.0| ==> !OccursAt(s, pat, i)
    decreases |s|
  {
    if |s| < |pat| then None
    else if StartsWith(s, pat) then
      assert OccursAt(s, pat, 0);
      Some(([], s[|pat|..]))
    else
      match SplitOnceStr(s[1..], pat)
      case None =>
        NoOccurrenceCons(s, pat);
        None
      case Some((before, after)) =>
        FirstOccurrenceCons(s, pat, before, after);
        Some(([s[0]] + before, after))
  }

  /** A pattern absent from the tail and not at the start is absent. */
  lemma NoOccurrenceCons(s: string, pat: string)
    requires |s| > 0 && !OccursAt(s, pat, 0)
    requires forall i: nat :: !OccursAt(s[1..], pat, i)
    ensures forall i: nat :: !OccursAt(s, pat, i)
  {
    forall i: nat ensures !OccursAt(s, pat, i) {
      if i > 0 {
        OccursAtTail(s, pat, i - 1);
      }
    }
  }

  /** The first occurrence in the tail, moved one place on, is the first
      occurrence when the pattern is not at the start. */
  lemma FirstOccurrenceCons(s: string, pat: string, before: string, after: string)
    requires |s| > 0 && !OccursAt(s, pat, 0)
    requires before + pat + after == s[1..]
    requires forall i: nat :: i < |before| ==> !OccursAt(s[1..], pat, i)
    ensures [s[0]] + before + pat + after == s
    ensures OccursAt(s, pat, |before| + 1)
    ensures forall i: nat :: i < |before| + 1 ==> !OccursAt(s, pat, i)
  {
    assert [s[0]] + before + pat + after == s by {
      assert [s[0]] + (before + pat + after) == s;
    }
    assert s[1..][|before|..|before| + |pat|] == pat;
    OccursAtTail(s, pat, |before|);
    forall i: nat | i < |before| + 1 ensures !OccursAt(s, pat, i) {
      if i > 0 {
        OccursAtTail(s, pat, i - 1);
      }
    }
  }
}
