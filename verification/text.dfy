/** The System.String operations the core uses, over `string` (a sequence of
    Unicode scalar values): whitespace tests, `Trim`, `Split`, `Replace`. All
    separators and placeholders the core passes are ASCII, so working on
    scalar values instead of UTF-16 code units does not change any result. */
module Text {
  import opened Wrappers
  import Seqs

  /** `char.IsWhiteSpace`: the Unicode space, line and paragraph separators,
      plus U+0009..U+000D and U+0085. */
  predicate IsWhiteSpace(c: char) {
    var v := c as int;
    || 0x09 <= v <= 0x0D || v == 0x20 || v == 0x85 || v == 0xA0 || v == 0x1680
    || 0x2000 <= v <= 0x200A || v == 0x2028 || v == 0x2029 || v == 0x202F
    || v == 0x205F || v == 0x3000
  }

  predicate AllWhiteSpace(s: string) {
    forall i | 0 <= i < |s| :: IsWhiteSpace(s[i])
  }

  /** `string.IsNullOrWhiteSpace`. */
  predicate IsNullOrWhiteSpace(s: Nullable<string>) {
    s.Null? || AllWhiteSpace(s.value)
  }

  /** `string.TrimStart()`: drops the leading whitespace. */
  function TrimStart(s: string): (r: string)
    ensures |r| <= |s| && r == s[|s| - |r|..]
    ensures AllWhiteSpace(s[..|s| - |r|])
    ensures |r| > 0 ==> !IsWhiteSpace(r[0])
    decreases |s|
  {
    if |s| > 0 && IsWhiteSpace(s[0]) then
      TrimStart(s[1..])
    else s
  }

  /** `string.TrimEnd()`: drops the trailing whitespace. */
  function TrimEnd(s: string): (r: string)
    ensures |r| <= |s| && r == s[..|r|]
    ensures AllWhiteSpace(s[|r|..])
    ensures |r| > 0 ==> !IsWhiteSpace(r[|r| - 1])
    decreases |s|
  {
    if |s| > 0 && IsWhiteSpace(s[|s| - 1]) then
      var r := TrimEnd(s[..|s| - 1]);
      TrimEndStep(s, s[..|s| - 1], r);
      r
    else s
  }

  /** Dropping one more trailing white-space character keeps the text before
      it and leaves only white space after it. */
  lemma TrimEndStep(s: string, init: string, r: string)
    requires |s| > 0 && IsWhiteSpace(s[|s| - 1]) && init == s[..|s| - 1]
    requires |r| <= |init| && r == init[..|r|] && AllWhiteSpace(init[|r|..])
    ensures r == s[..|r|] && AllWhiteSpace(s[|r|..])
  {
    assert s[|r|..] == init[|r|..] + [s[|s| - 1]];
  }

  /** `string.Trim()`: the slice of `s` left after removing whitespace at both
      ends; it is empty exactly when `s` is all whitespace, and otherwise it
      starts and ends with a non-whitespace character. */
  function Trim(s: string): (r: string)
    ensures exists i | 0 <= i <= |s| :: TrimmedAt(s, r, i)
    ensures |r| == 0 <==> AllWhiteSpace(s)
    ensures |r| > 0 ==> !IsWhiteSpace(r[0]) && !IsWhiteSpace(r[|r| - 1])
  {
    var t := TrimStart(s);
    var r := TrimEnd(t);
    TrimFacts(s, t, r);
    r
  }

  /** What `Trim` promises, from what `TrimStart` and `TrimEnd` promise. */
  lemma TrimFacts(s: string, t: string, r: string)
    requires |t| <= |s| && t == s[|s| - |t|..] && AllWhiteSpace(s[..|s| - |t|])
    requires |t| > 0 ==> !IsWhiteSpace(t[0])
    requires |r| <= |t| && r == t[..|r|] && AllWhiteSpace(t[|r|..])
    requires |r| > 0 ==> !IsWhiteSpace(r[|r| - 1])
    ensures TrimmedAt(s, r, |s| - |t|)
    ensures exists i | 0 <= i <= |s| :: TrimmedAt(s, r, i)
    ensures |r| == 0 <==> AllWhiteSpace(s)
    ensures |r| > 0 ==> !IsWhiteSpace(r[0]) && !IsWhiteSpace(r[|r| - 1])
  {
    var i := |s| - |t|;
    TrimWindow(s, i, t, r);
    TrimEmpty(s, i, t, r);
    assert TrimmedAt(s, r, i);
    assert |r| > 0 ==> r[0] == t[0];
  }

  /** `r` is the part of `s` from index `i` on, with only white space around it. */
  predicate TrimmedAt(s: string, r: string, i: int) {
    && 0 <= i <= |s| - |r|
    && r == s[i..i + |r|]
    && AllWhiteSpace(s[..i]) && AllWhiteSpace(s[i + |r|..])
  }

  /** Where the trimmed text sits in `s`, with white space on both sides. */
  lemma TrimWindow(s: string, i: nat, t: string, r: string)
    requires i <= |s| && t == s[i..] && |r| <= |t| && r == t[..|r|]
    requires AllWhiteSpace(s[..i]) && AllWhiteSpace(t[|r|..])
    ensures r == s[i..i + |r|]
    ensures AllWhiteSpace(s[i + |r|..])
  {
    SliceOfSuffix(s, i, t, |r|);
  }

  lemma SliceOfSuffix<T>(s: seq<T>, i: nat, t: seq<T>, k: nat)
    requires i <= |s| && t == s[i..] && k <= |t|
    ensures s[i..i + k] == t[..k] && s[i + k..] == t[k..]
  {
  }

  /** Trimming leaves nothing exactly when `s` is all white space. */
  lemma TrimEmpty(s: string, i: nat, t: string, r: string)
    requires i <= |s| && t == s[i..] && AllWhiteSpace(s[..i])
    requires |t| > 0 ==> !IsWhiteSpace(t[0])
    requires |r| <= |t| && r == t[..|r|] && AllWhiteSpace(t[|r|..])
    ensures |r| == 0 <==> AllWhiteSpace(s)
  {
    if |r| == 0 {
      assert t[|r|..] == t;
      assert |t| == 0;
      assert s[..i] == s;
    } else {
      assert r[0] == t[0] == s[i];
    }
  }

  lemma TrimOfBlankIsEmpty(s: string)
    ensures IsNullOrWhiteSpace(NonNull(s)) <==> Trim(s) == []
  {
  }

  /** `p` occurs in `s` starting at index `i`. */
  predicate OccursAt(s: string, p: string, i: int) {
    0 <= i && i + |p| <= |s| && s[i..i + |p|] == p
  }

  predicate Contains(s: string, p: string) {
    exists i | 0 <= i <= |s| :: OccursAt(s, p, i)
  }

  predicate StartsWith(s: string, p: string) {
    |p| <= |s| && s[..|p|] == p
  }

  /** `s.Replace(oldValue, newValue)`: scans left to right and replaces every
      non-overlapping occurrence of `oldValue` by `newValue` (ordinal
      comparison). .NET rejects an empty `oldValue`. */
  function ReplaceAll(s: string, oldValue: string, newValue: string): string
    requires |oldValue| > 0
    decreases |s|
  {
    if |s| == 0 then []
    else if StartsWith(s, oldValue) then newValue + ReplaceAll(s[|oldValue|..], oldValue, newValue)
    else [s[0]] + ReplaceAll(s[1..], oldValue, newValue)
  }

  /** `s.Split(separator)` with no options: the pieces between successive
      leftmost occurrences of the separator, empty pieces included. */
  function Split(s: string, separator: string): (r: seq<string>)
    requires |separator| > 0
    ensures |r| >= 1
    decreases |s|
  {
    if |s| == 0 then [[]]
    else if StartsWith(s, separator) then [[]] + Split(s[|separator|..], separator)
    else
      var rest := Split(s[1..], separator);
      [[s[0]] + rest[0]] + rest[1..]
  }

  /** `string.Join(separator, pieces)`. */
  function Join(pieces: seq<string>, separator: string): string
    decreases |pieces|
  {
    if |pieces| == 0 then []
    else if |pieces| == 1 then pieces[0]
    else pieces[0] + separator + Join(pieces[1..], separator)
  }

  lemma JoinConsHead(c: char, pieces: seq<string>, separator: string)
    requires |pieces| >= 1
    ensures Join([[c] + pieces[0]] + pieces[1..], separator) == [c] + Join(pieces, separator)
  {
    var q := [[c] + pieces[0]] + pieces[1..];
    assert q[1..] == pieces[1..];
  }

  lemma JoinConsEmpty(pieces: seq<string>, separator: string)
    requires |pieces| >= 1
    ensures Join([[]] + pieces, separator) == separator + Join(pieces, separator)
  {
    assert ([[]] + pieces)[1..] == pieces;
  }

  /** Splitting and joining again with the same separator gives back the string. */
  lemma {:induction false} JoinSplit(s: string, separator: string)
    requires |separator| > 0
    ensures Join(Split(s, separator), separator) == s
    decreases |s|
  {
    if |s| == 0 {
    } else if StartsWith(s, separator) {
      var tail := s[|separator|..];
      JoinSplit(tail, separator);
      JoinSplitAtSeparator(s, separator, tail, Split(tail, separator));
    } else {
      var tail := s[1..];
      JoinSplit(tail, separator);
      JoinSplitAtChar(s, separator, tail, Split(tail, separator));
    }
  }

  lemma JoinSplitAtSeparator(s: string, separator: string, tail: string, rest: seq<string>)
    requires StartsWith(s, separator) && tail == s[|separator|..]
    requires |rest| >= 1 && Join(rest, separator) == tail
    ensures Join([[]] + rest, separator) == s
  {
    JoinConsEmpty(rest, separator);
    assert s == separator + tail;
  }

  lemma JoinSplitAtChar(s: string, separator: string, tail: string, rest: seq<string>)
    requires |s| > 0 && tail == s[1..]
    requires |rest| >= 1 && Join(rest, separator) == tail
    ensures Join([[s[0]] + rest[0]] + rest[1..], separator) == s
  {
    JoinConsHead(s[0], rest, separator);
    assert s == [s[0]] + tail;
  }

  /** Replacing is splitting at the occurrences and joining with the new
      value: exactly the text between occurrences is kept, in order. */
  lemma {:induction false} ReplaceIsJoinOfSplit(s: string, oldValue: string, newValue: string)
    requires |oldValue| > 0
    ensures ReplaceAll(s, oldValue, newValue) == Join(Split(s, oldValue), newValue)
    decreases |s|
  {
    if |s| == 0 {
    } else if StartsWith(s, oldValue) {
      ReplaceIsJoinOfSplit(s[|oldValue|..], oldValue, newValue);
      JoinConsEmpty(Split(s[|oldValue|..], oldValue), newValue);
    } else {
      ReplaceIsJoinOfSplit(s[1..], oldValue, newValue);
      JoinConsHead(s[0], Split(s[1..], oldValue), newValue);
    }
  }

  /** The first piece of a split is a prefix of the string. */
  lemma {:induction false} SplitHeadIsPrefix(s: string, separator: string)
    requires |separator| > 0
    ensures |Split(s, separator)[0]| <= |s|
    ensures Split(s, separator)[0] == s[..|Split(s, separator)[0]|]
    decreases |s|
  {
    if |s| > 0 && !StartsWith(s, separator) {
      SplitHeadIsPrefix(s[1..], separator);
    }
  }

  lemma OccursAtShift(c: char, s: string, p: string, i: int)
    requires 0 <= i
    requires OccursAt([c] + s, p, i + 1)
    ensures OccursAt(s, p, i)
  {
    assert ([c] + s)[i + 1..i + 1 + |p|] == s[i..i + |p|];
  }

  /** No piece of a split contains the separator. */
  lemma {:induction false} SplitPiecesAvoidSeparator(s: string, separator: string)
    requires |separator| > 0
    ensures forall k | 0 <= k < |Split(s, separator)| :: !Contains(Split(s, separator)[k], separator)
    decreases |s|
  {
    var r := Split(s, separator);
    if |s| == 0 {
      assert r == [[]];
      assert forall i :: !OccursAt([], separator, i);
    } else if StartsWith(s, separator) {
      var rest := Split(s[|separator|..], separator);
      SplitPiecesAvoidSeparator(s[|separator|..], separator);
      assert r == [[]] + rest;
      assert forall i :: !OccursAt([], separator, i);
      forall k | 0 <= k < |r| ensures !Contains(r[k], separator) {
        if k > 0 { assert r[k] == rest[k - 1]; }
      }
    } else {
      var rest := Split(s[1..], separator);
      SplitPiecesAvoidSeparator(s[1..], separator);
      SplitHeadIsPrefix(s[1..], separator);
      var head := [s[0]] + rest[0];
      assert r == [head] + rest[1..];
      forall i | OccursAt(head, separator, i) ensures false {
        if i > 0 {
          OccursAtShift(s[0], rest[0], separator, i - 1);
        }
      }
      forall k | 0 <= k < |r| ensures !Contains(r[k], separator) {
        if k > 0 { assert r[k] == rest[k]; }
      }
    }
  }

  /** A string in which `oldValue` does not occur is returned unchanged. */
  lemma {:induction false} ReplaceAbsent(s: string, oldValue: string, newValue: string)
    requires |oldValue| > 0
    requires !Contains(s, oldValue)
    ensures ReplaceAll(s, oldValue, newValue) == s
    decreases |s|
  {
    if |s| > 0 {
      assert !StartsWith(s, oldValue) by {
        if StartsWith(s, oldValue) { assert OccursAt(s, oldValue, 0); }
      }
      assert !Contains(s[1..], oldValue) by {
        forall i | OccursAt(s[1..], oldValue, i) ensures false {
          assert s[1..][i..i + |oldValue|] == s[i + 1..i + 1 + |oldValue|];
          assert OccursAt(s, oldValue, i + 1);
        }
      }
      ReplaceAbsent(s[1..], oldValue, newValue);
      assert s == [s[0]] + s[1..];
    }
  }

  /** A string without the first character of `p` cannot contain `p`. */
  lemma AbsentWithoutFirstChar(s: string, p: string)
    requires |p| > 0 && p[0] !in s
    ensures !Contains(s, p)
  {
  }

  /** A string that does not contain the one-character string `[c]` does not hold `c`. */
  lemma CharAbsent(s: string, c: char)
    requires !Contains(s, [c])
    ensures c !in s
  {
    forall i | 0 <= i < |s| ensures s[i] != c {
      assert !OccursAt(s, [c], i);
      assert s[i..i + 1] == [s[i]];
    }
  }

  /** Replacement passes over a prefix that never holds the first character
      of `oldValue`. */
  lemma {:induction false} ReplaceSkipsPlain(a: string, oldValue: string, newValue: string, b: string)
    requires |oldValue| > 0 && oldValue[0] !in a
    ensures ReplaceAll(a + b, oldValue, newValue) == a + ReplaceAll(b, oldValue, newValue)
    decreases |a|
  {
    if |a| > 0 {
      var s := a + b;
      assert s[0] == a[0] != oldValue[0];
      assert !StartsWith(s, oldValue);
      assert s[1..] == a[1..] + b;
      ReplaceSkipsPlain(a[1..], oldValue, newValue, b);
      assert [a[0]] + a[1..] == a;
    } else {
      assert a + b == b;
    }
  }

  /** One occurrence of `oldValue` between two texts without its first
      character becomes `newValue`, and nothing else changes. */
  lemma ReplaceOnlyOccurrence(a: string, oldValue: string, newValue: string, b: string)
    requires |oldValue| > 0 && oldValue[0] !in a && oldValue[0] !in b
    ensures ReplaceAll(a + oldValue + b, oldValue, newValue) == a + newValue + b
  {
    assert a + oldValue + b == a + (oldValue + b);
    ReplaceSkipsPlain(a, oldValue, newValue, oldValue + b);
    var t := oldValue + b;
    assert StartsWith(t, oldValue) && t[|oldValue|..] == b;
    AbsentWithoutFirstChar(b, oldValue);
    ReplaceAbsent(b, oldValue, newValue);
  }

  /** Where `mark` can sit in `a + [mark] + n + [mark] + b` when only the two
      delimiters are marks. */
  lemma MarkPositions(a: string, n: string, b: string, mark: char, j: int)
    requires mark !in a && mark !in n && mark !in b
    requires 0 <= j < |a + [mark] + n + [mark] + b| && (a + [mark] + n + [mark] + b)[j] == mark
    ensures j == |a| || j == |a| + |n| + 1
  {
  }

  /** An occurrence of a delimited name in a text whose only marks delimit
      the name `n` is that very name. */
  lemma DelimitedOccurrence(a: string, n: string, b: string, m: string, mark: char, i: int)
    requires mark !in a && mark !in n && mark !in b && mark !in m
    requires OccursAt(a + [mark] + n + [mark] + b, [mark] + m + [mark], i)
    ensures i == |a| && m == n
  {
    var s := a + [mark] + n + [mark] + b;
    var q := [mark] + m + [mark];
    assert s[i..i + |q|] == q;
    assert s[i] == q[0] == mark;
    assert s[i + |m| + 1] == q[|m| + 1] == mark;
    assert s[i + 1..i + |m| + 1] == q[1..|m| + 1] == m;
    assert s[|a| + 1..|a| + |n| + 1] == n;
    MarkPositions(a, n, b, mark, i);
    MarkPositions(a, n, b, mark, i + |m| + 1);
  }

  /** A delimited name `[mark] + m + [mark]` does not occur in a text whose
      only marks delimit a different name `n`. */
  lemma OtherDelimitedAbsent(a: string, n: string, b: string, m: string, mark: char)
    requires mark !in a && mark !in n && mark !in b && mark !in m
    requires n != m
    ensures !Contains(a + [mark] + n + [mark] + b, [mark] + m + [mark])
  {
    var s := a + [mark] + n + [mark] + b;
    var q := [mark] + m + [mark];
    forall i | OccursAt(s, q, i) ensures m == n {
      DelimitedOccurrence(a, n, b, m, mark, i);
    }
  }

  /** Splitting on a one-character separator yields one more piece than there
      are occurrences of that character. */
  lemma {:induction false} SplitCharPieceCount(s: string, c: char)
    ensures |Split(s, [c])| == Seqs.Count(s, c) + 1
    decreases |s|
  {
    if |s| > 0 {
      SplitCharPieceCount(s[1..], c);
      if StartsWith(s, [c]) {
        assert s[..1] == [s[0]];
        assert s[1..] == s[|[c]|..];
      } else {
        assert s[..1] == [s[0]];
      }
    }
  }

  /** A text without the separator character is one piece. */
  lemma {:induction false} SplitWithoutSeparator(x: string, c: char)
    requires c !in x
    ensures Split(x, [c]) == [x]
    decreases |x|
  {
    if |x| > 0 {
      assert !StartsWith(x, [c]) by { assert x[..1] == [x[0]]; }
      SplitWithoutSeparator(x[1..], c);
      assert [x[0]] + x[1..] == x;
    }
  }

  /** Splitting on one character is a homomorphism: the pieces of `a + [c] + b`
      are the pieces of `a` followed by the pieces of `b`. */
  lemma {:induction false} SplitAroundSeparator(a: string, c: char, b: string)
    ensures Split(a + [c] + b, [c]) == Split(a, [c]) + Split(b, [c])
    decreases |a|
  {
    var s := a + [c] + b;
    if |a| == 0 {
      assert s == [c] + b;
      SplitAtSeparator(s, c, b);
    } else {
      var tail := a[1..];
      ConsAround(a, c, b, s, tail);
      SplitAroundSeparator(tail, c, b);
      if a[0] == c {
        SplitAtSeparator(s, c, s[1..]);
        SplitAtSeparator(a, c, tail);
      } else {
        SplitAtOther(s, c, s[1..]);
        SplitAtOther(a, c, tail);
        HeadPieceAppend(a[0], Split(tail, [c]), Split(b, [c]));
      }
    }
  }

  lemma ConsAround(a: string, c: char, b: string, s: string, tail: string)
    requires |a| > 0 && s == a + [c] + b && tail == a[1..]
    ensures |s| > 0 && s[0] == a[0] && s[1..] == tail + [c] + b
  {
  }

  /** A string that starts with the one-character separator splits into an
      empty piece and the pieces of the rest. */
  lemma SplitAtSeparator(s: string, c: char, tail: string)
    requires |s| > 0 && s[0] == c && tail == s[1..]
    ensures Split(s, [c]) == [[]] + Split(tail, [c])
  {
    assert StartsWith(s, [c]);
  }

  /** Any other first character joins the first piece of the rest. */
  lemma SplitAtOther(s: string, c: char, tail: string)
    requires |s| > 0 && s[0] != c && tail == s[1..]
    ensures Split(s, [c]) == [[s[0]] + Split(tail, [c])[0]] + Split(tail, [c])[1..]
  {
    assert !StartsWith(s, [c]);
  }

  lemma HeadPieceAppend(x: char, rest: seq<string>, more: seq<string>)
    requires |rest| >= 1
    ensures [[x] + (rest + more)[0]] + (rest + more)[1..] == ([[x] + rest[0]] + rest[1..]) + more
  {
    assert (rest + more)[0] == rest[0];
    assert (rest + more)[1..] == rest[1..] + more;
  }

  /** Splits `s` at the first occurrence of `delim`: the text before it and
      the text after it; Null when `delim` does not occur. */
  function Cut(s: string, delim: string): (r: Nullable<(string, string)>)
    requires |delim| > 0
    ensures r.NonNull? ==> |r.value.0| + |delim| + |r.value.1| == |s|
    decreases |s|
  {
    if StartsWith(s, delim) then NonNull(([], s[|delim|..]))
    else if |s| == 0 then Null
    else
      var rest :- Cut(s[1..], delim);
      NonNull(([s[0]] + rest.0, rest.1))
  }

  /** Cutting `a + delim + b` gives back `a` and `b` when `a` never holds the
      delimiter's first character. */
  lemma {:induction false} CutAt(a: string, delim: string, b: string)
    requires |delim| > 0
    requires forall i | 0 <= i < |a| :: a[i] != delim[0]
    ensures Cut(a + delim + b, delim) == NonNull((a, b))
    decreases |a|
  {
    var s := a + delim + b;
    if |a| == 0 {
      assert s == delim + b;
      assert StartsWith(s, delim);
      assert s[|delim|..] == b;
    } else {
      assert s[0] == a[0] != delim[0];
      assert !StartsWith(s, delim);
      assert s[1..] == a[1..] + delim + b;
      CutAt(a[1..], delim, b);
      assert [s[0]] + a[1..] == a;
    }
  }
}
