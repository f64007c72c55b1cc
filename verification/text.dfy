/**
 The string primitives the grammar tool relies on: ASCII character classes
 standing in for Python's `str.isalpha` / `str.islower`, and `str.split` /
 `str.replace(sep, "")` as left-to-right, non-overlapping scans.
 */
module Text {

  predicate IsUpper(c: char) { 'A' <= c <= 'Z' }

  predicate IsLower(c: char) { 'a' <= c <= 'z' }

  predicate IsLetter(c: char) { IsUpper(c) || IsLower(c) }

  /** `s.isalpha()` for ASCII text: non-empty and letters only. */
  predicate IsAlpha(s: string) {
    |s| > 0 && forall i :: 0 <= i < |s| ==> IsLetter(s[i])
  }

  /** `s.islower()` for ASCII text: some lowercase letter and no uppercase one. */
  predicate IsLowerCase(s: string) {
    (exists i :: 0 <= i < |s| && IsLower(s[i])) && forall i :: 0 <= i < |s| ==> !IsUpper(s[i])
  }

  /** No element occurs twice. */
  predicate Distinct<T(==)>(s: seq<T>) {
    forall i, j :: 0 <= i < j < |s| ==> s[i] != s[j]
  }

  /** A duplicate-free sequence has as many distinct elements as positions. */
  lemma {:induction false} DistinctCard<T>(s: seq<T>)
    requires Distinct(s)
    ensures |set x | x in s| == |s|
    decreases |s|
  {
    if |s| != 0 {
      DistinctCard(s[1..]);
      assert (set x | x in s) == {s[0]} + (set x | x in s[1..]);
      assert s[0] !in (set x | x in s[1..]);
    }
  }

  lemma {:induction false} DistinctCounts<T>(s: seq<T>)
    requires Distinct(s)
    ensures forall x :: multiset(s)[x] <= 1
    decreases |s|
  {
    if |s| != 0 {
      DistinctCounts(s[1..]);
      assert s == [s[0]] + s[1..];
      assert s[0] !in multiset(s[1..]);
    }
  }

  /** Rearranging a duplicate-free sequence leaves it duplicate-free. */
  lemma DistinctPermutation<T>(a: seq<T>, b: seq<T>)
    requires Distinct(a)
    requires multiset(a) == multiset(b)
    ensures Distinct(b)
  {
    DistinctCounts(a);
    forall i, j | 0 <= i < j < |b|
      ensures b[i] != b[j]
    {
      RepeatCounts(b, i, j);
    }
  }

  lemma RepeatCounts<T>(s: seq<T>, i: int, j: int)
    requires 0 <= i < j < |s|
    ensures s[i] == s[j] ==> multiset(s)[s[i]] >= 2
  {
    assert s == s[..i] + [s[i]] + s[i + 1..j] + [s[j]] + s[j + 1..];
  }

  predicate StartsWith(s: string, prefix: string) {
    |prefix| <= |s| && s[..|prefix|] == prefix
  }

  /** A text that starts with `prefix` is `prefix` followed by the rest. */
  lemma StartsWithSplits(s: string, prefix: string)
    requires StartsWith(s, prefix)
    ensures s == prefix + s[|prefix|..]
  {
    assert s == s[..|prefix|] + s[|prefix|..];
  }

  predicate EndsWith(s: string, suffix: string) {
    |suffix| <= |s| && s[|s| - |suffix|..] == suffix
  }

  lemma EndsWithPrepend(prefix: string, s: string, suffix: string)
    requires EndsWith(s, suffix)
    ensures EndsWith(prefix + s, suffix)
  {
    assert (prefix + s)[|prefix + s| - |suffix|..] == s[|s| - |suffix|..];
  }

  /** `s.split(sep)`: the pieces between the leftmost non-overlapping occurrences of `sep`. */
  function Split(s: string, sep: string): (parts: seq<string>)
    requires sep != ""
    ensures |parts| >= 1
    decreases |s|
  {
    if |s| == 0 then [""]
    else if StartsWith(s, sep) then [""] + Split(s[|sep|..], sep)
    else
      var rest := Split(s[1..], sep);
      [[s[0]] + rest[0]] + rest[1..]
  }

  /** Whether `sep` occurs somewhere in `s`. */
  predicate Occurs(s: string, sep: string) {
    exists i :: 0 <= i <= |s| && StartsWith(s[i..], sep)
  }

  /** The first piece of a split is a prefix of the text. */
  lemma {:induction false} SplitFirstPrefix(s: string, sep: string)
    requires sep != ""
    ensures |Split(s, sep)[0]| <= |s| && s[..|Split(s, sep)[0]|] == Split(s, sep)[0]
    decreases |s|
  {
    if |s| != 0 && !StartsWith(s, sep) {
      SplitFirstPrefix(s[1..], sep);
    }
  }

  /** A piece that extends a separator-free piece by one character at the front,
      and is a prefix of a text not starting with the separator, is separator-free. */
  lemma FirstPieceAvoids(s: string, sep: string, tail: string)
    requires sep != "" && |s| > 0 && !StartsWith(s, sep)
    requires |tail| < |s| && s[..|tail| + 1] == [s[0]] + tail
    requires !Occurs(tail, sep)
    ensures !Occurs([s[0]] + tail, sep)
  {
    var first := [s[0]] + tail;
    forall i | 0 <= i <= |first|
      ensures !StartsWith(first[i..], sep)
    {
      if i == 0 {
        assert |sep| <= |first| ==> first[..|sep|] == s[..|sep|];
      } else {
        assert first[i..] == tail[i - 1..];
      }
    }
  }

  /** No piece of `s.split(sep)` contains `sep`; with `JoinSplit`, the pieces are
      the text cut at separators only. */
  lemma {:induction false} SplitAvoidsSeparator(s: string, sep: string)
    requires sep != ""
    ensures forall p :: p in Split(s, sep) ==> !Occurs(p, sep)
    decreases |s|
  {
    if |s| == 0 {
      assert Split(s, sep) == [""];
    } else if StartsWith(s, sep) {
      SplitAvoidsSeparator(s[|sep|..], sep);
      assert forall p :: p in Split(s, sep) ==> p == "" || p in Split(s[|sep|..], sep);
    } else {
      var rest := Split(s[1..], sep);
      SplitAvoidsSeparator(s[1..], sep);
      SplitFirstPrefix(s[1..], sep);
      assert rest[0] in rest;
      assert s[..|rest[0]| + 1] == [s[0]] + s[1..][..|rest[0]|];
      FirstPieceAvoids(s, sep, rest[0]);
      assert forall p :: p in Split(s, sep) ==> p == [s[0]] + rest[0] || p in rest[1..];
    }
  }

  /** `sep.join(parts)`. */
  function Join(parts: seq<string>, sep: string): string
    decreases |parts|
  {
    if |parts| == 0 then ""
    else if |parts| == 1 then parts[0]
    else parts[0] + sep + Join(parts[1..], sep)
  }

  /** `s.replace(sep, "")`: deletes the leftmost non-overlapping occurrences of `sep`. */
  function Remove(s: string, sep: string): (r: string)
    requires sep != ""
    ensures |r| <= |s|
    ensures forall c :: c in r ==> c in s
    decreases |s|
  {
    if |s| == 0 then ""
    else if StartsWith(s, sep) then Remove(s[|sep|..], sep)
    else [s[0]] + Remove(s[1..], sep)
  }

  /** `Remove` applied to every element. */
  function RemoveEach(parts: seq<string>, sep: string): (r: seq<string>)
    requires sep != ""
    ensures |r| == |parts|
    ensures forall i :: 0 <= i < |r| ==> r[i] == Remove(parts[i], sep)
    decreases |parts|
  {
    if |parts| == 0 then [] else [Remove(parts[0], sep)] + RemoveEach(parts[1..], sep)
  }

  lemma SingleCharIsLowerCase(c: char)
    ensures IsLowerCase([c]) <==> IsLower(c)
  {
    if IsLower(c) {
      assert [c][0] == c;
    }
  }

  /** Joining the pieces of a split with the same separator gives back the text. */
  lemma {:induction false} JoinSplit(s: string, sep: string)
    requires sep != ""
    ensures Join(Split(s, sep), sep) == s
    decreases |s|
  {
    if |s| == 0 {
    } else if StartsWith(s, sep) {
      JoinSplit(s[|sep|..], sep);
      JoinSplitAtSep(s, sep);
    } else {
      JoinSplit(s[1..], sep);
      JoinSplitAtChar(s, sep);
    }
  }

  lemma {:induction false} JoinSplitAtSep(s: string, sep: string)
    requires sep != "" && |s| != 0 && StartsWith(s, sep)
    requires Join(Split(s[|sep|..], sep), sep) == s[|sep|..]
    ensures Join(Split(s, sep), sep) == s
  {
    var rest := Split(s[|sep|..], sep);
    assert Split(s, sep) == [""] + rest;
    assert ([""] + rest)[1..] == rest;
    calc {
      Join(Split(s, sep), sep);
      "" + sep + Join(rest, sep);
      sep + s[|sep|..];
      s[..|sep|] + s[|sep|..];
      s;
    }
  }

  lemma {:induction false} JoinSplitAtChar(s: string, sep: string)
    requires sep != "" && |s| != 0 && !StartsWith(s, sep)
    requires Join(Split(s[1..], sep), sep) == s[1..]
    ensures Join(Split(s, sep), sep) == s
  {
    var rest := Split(s[1..], sep);
    var parts := [[s[0]] + rest[0]] + rest[1..];
    assert Split(s, sep) == parts;
    if |rest| == 1 {
      assert Join(parts, sep) == [s[0]] + rest[0];
      assert s == [s[0]] + s[1..];
    } else {
      assert parts[1..] == rest[1..];
      calc {
        Join(parts, sep);
        [s[0]] + rest[0] + sep + Join(rest[1..], sep);
        [s[0]] + (rest[0] + sep + Join(rest[1..], sep));
        [s[0]] + Join(rest, sep);
        [s[0]] + s[1..];
        s;
      }
    }
  }

  /** Splitting on a one-character separator yields pieces free of that character. */
  lemma {:induction false} SplitPartsAvoid(s: string, c: char)
    ensures forall p :: p in Split(s, [c]) ==> c !in p
    decreases |s|
  {
    if |s| == 0 {
    } else if StartsWith(s, [c]) {
      SplitPartsAvoid(s[1..], c);
      assert Split(s, [c]) == [""] + Split(s[1..], [c]);
    } else {
      var rest := Split(s[1..], [c]);
      SplitPartsAvoid(s[1..], c);
      assert s[..1] == [s[0]];
      assert s[0] != c;
      assert rest[0] in rest;
      forall p | p in Split(s, [c])
        ensures c !in p
      {
        if p != [s[0]] + rest[0] {
          assert p in rest[1..];
        }
      }
    }
  }

  lemma {:induction false} SplitAcross(p: string, c: char, rest: string)
    requires c !in p
    ensures Split(p + [c] + rest, [c]) == [p] + Split(rest, [c])
    decreases |p|
  {
    var s := p + [c] + rest;
    if |p| == 0 {
      assert s == [c] + rest;
      assert StartsWith(s, [c]);
      assert s[1..] == rest;
    } else {
      assert s[0] == p[0];
      assert !StartsWith(s, [c]) by {
        assert s[..1] == [p[0]];
      }
      assert s[1..] == p[1..] + [c] + rest;
      SplitAcross(p[1..], c, rest);
      assert [p[0]] + p[1..] == p;
    }
  }

  lemma {:induction false} SplitAvoiding(p: string, c: char)
    requires c !in p
    ensures Split(p, [c]) == [p]
    decreases |p|
  {
    if |p| != 0 {
      assert !StartsWith(p, [c]) by {
        assert p[..1] == [p[0]];
      }
      SplitAvoiding(p[1..], c);
      assert [p[0]] + p[1..] == p;
    }
  }

  /** Splitting the join of separator-free pieces gives the pieces back. */
  lemma {:induction false} SplitJoin(parts: seq<string>, c: char)
    requires |parts| >= 1
    requires forall p :: p in parts ==> c !in p
    ensures Split(Join(parts, [c]), [c]) == parts
    decreases |parts|
  {
    if |parts| == 1 {
      SplitAvoiding(parts[0], c);
    } else {
      assert parts[0] in parts;
      assert forall p :: p in parts[1..] ==> p in parts;
      SplitJoin(parts[1..], c);
      SplitAcross(parts[0], c, Join(parts[1..], [c]));
      assert [parts[0]] + parts[1..] == parts;
    }
  }

  /** Deleting a separator is the same as splitting on it and concatenating the pieces. */
  lemma {:induction false} RemoveIsConcatOfSplit(s: string, sep: string)
    requires sep != ""
    ensures Remove(s, sep) == Join(Split(s, sep), "")
    decreases |s|
  {
    if |s| == 0 {
    } else if StartsWith(s, sep) {
      var rest := Split(s[|sep|..], sep);
      RemoveIsConcatOfSplit(s[|sep|..], sep);
      assert Split(s, sep) == [""] + rest;
      assert ([""] + rest)[1..] == rest;
      assert Join([""] + rest, "") == "" + "" + Join(rest, "");
    } else {
      var rest := Split(s[1..], sep);
      RemoveIsConcatOfSplit(s[1..], sep);
      var parts := [[s[0]] + rest[0]] + rest[1..];
      assert Split(s, sep) == parts;
      if |rest| == 1 {
        assert Join(parts, "") == [s[0]] + rest[0];
      } else {
        assert parts[1..] == rest[1..];
        calc {
          Join(parts, "");
          [s[0]] + rest[0] + "" + Join(rest[1..], "");
          [s[0]] + (rest[0] + "" + Join(rest[1..], ""));
          [s[0]] + Join(rest, "");
        }
      }
    }
  }

  /** A separator that lacks `c` cannot match across an occurrence of `c`. */
  lemma StartsWithAcross(a: string, c: char, b: string, sep: string)
    requires sep != ""
    requires c !in sep
    ensures StartsWith(a + [c] + b, sep) <==> StartsWith(a, sep)
  {
    var s := a + [c] + b;
    if |sep| <= |a| {
      assert s[..|sep|] == a[..|sep|];
    } else if |sep| <= |s| {
      assert s[..|sep|][|a|] == c;
      assert s[..|sep|] != sep;
    }
  }

  lemma {:induction false} RemoveAcross(a: string, c: char, b: string, sep: string)
    requires sep != ""
    requires c !in sep
    ensures Remove(a + [c] + b, sep) == Remove(a, sep) + [c] + Remove(b, sep)
    decreases |a|
  {
    var s := a + [c] + b;
    StartsWithAcross(a, c, b, sep);
    if |a| == 0 {
      assert s == [c] + b;
      assert s[1..] == b;
    } else if StartsWith(a, sep) {
      assert s[|sep|..] == a[|sep|..] + [c] + b;
      RemoveAcross(a[|sep|..], c, b, sep);
      assert Remove(s, sep) == Remove(s[|sep|..], sep);
      assert Remove(a, sep) == Remove(a[|sep|..], sep);
    } else {
      assert s[0] == a[0];
      assert s[1..] == a[1..] + [c] + b;
      RemoveAcross(a[1..], c, b, sep);
      assert Remove(s, sep) == [a[0]] + Remove(s[1..], sep);
      assert Remove(a, sep) == [a[0]] + Remove(a[1..], sep);
    }
  }

  /** Deleting a one-character separator deletes every copy of it. */
  lemma {:induction false} RemoveCharGone(s: string, c: char)
    ensures c !in Remove(s, [c])
    decreases |s|
  {
    if |s| != 0 {
      RemoveCharGone(s[1..], c);
      assert StartsWith(s, [c]) <==> s[0] == c;
    }
  }

  /** Deleting a separator from text built with another separator character works piece by piece. */
  lemma {:induction false} RemoveJoin(parts: seq<string>, c: char, sep: string)
    requires sep != ""
    requires c !in sep
    ensures Remove(Join(parts, [c]), sep) == Join(RemoveEach(parts, sep), [c])
    decreases |parts|
  {
    if |parts| == 0 {
    } else if |parts| == 1 {
    } else {
      RemoveJoin(parts[1..], c, sep);
      RemoveAcross(parts[0], c, Join(parts[1..], [c]), sep);
      assert RemoveEach(parts, sep)[1..] == RemoveEach(parts[1..], sep);
    }
  }

  /** Every character of every piece occurs in the joined text. */
  lemma {:induction false} InJoin(parts: seq<string>, sep: string, i: int, c: char)
    requires 0 <= i < |parts|
    requires c in parts[i]
    ensures c in Join(parts, sep)
    decreases |parts|
  {
    if |parts| > 1 {
      if i == 0 {
        assert Join(parts, sep) == parts[0] + (sep + Join(parts[1..], sep));
      } else {
        InJoin(parts[1..], sep, i - 1, c);
        assert Join(parts, sep) == (parts[0] + sep) + Join(parts[1..], sep);
      }
    }
  }

  /** Conversely, a character of a text glued from pieces lies in one of them. */
  lemma {:induction false} FromJoin(parts: seq<string>, c: char) returns (i: int)
    requires c in Join(parts, "")
    ensures 0 <= i < |parts| && c in parts[i]
    decreases |parts|
  {
    if |parts| == 1 {
      i := 0;
    } else {
      assert Join(parts, "") == parts[0] + Join(parts[1..], "");
      if c in parts[0] {
        i := 0;
      } else {
        var j := FromJoin(parts[1..], c);
        i := j + 1;
      }
    }
  }

  /** A text without `-` has no arrow to split at. */
  lemma {:induction false} SplitNoArrow(a: string)
    requires '-' !in a
    ensures Split(a, "->") == [a]
    decreases |a|
  {
    if |a| != 0 {
      assert !StartsWith(a, "->") by {
        if |a| >= 2 { assert a[..2][0] == a[0]; }
      }
      SplitNoArrow(a[1..]);
      assert [a[0]] + a[1..] == a;
    }
  }

  /** Splitting at the first arrow, when the text before it has no `-`. */
  lemma {:induction false} SplitAtArrow(a: string, rest: string)
    requires '-' !in a
    ensures Split(a + "->" + rest, "->") == [a] + Split(rest, "->")
    decreases |a|
  {
    var s := a + "->" + rest;
    if |a| == 0 {
      assert s == "->" + rest;
      assert StartsWith(s, "->");
      assert s[2..] == rest;
    } else {
      assert s[0] == a[0];
      assert !StartsWith(s, "->") by {
        assert s[..2][0] == a[0];
      }
      assert s[1..] == a[1..] + "->" + rest;
      SplitAtArrow(a[1..], rest);
      assert [a[0]] + a[1..] == a;
    }
  }

  /** A text with a single arrow splits into the sides around it. */
  lemma SplitOneArrow(a: string, b: string)
    requires '-' !in a && '-' !in b
    ensures Split(a + "->" + b, "->") == [a, b]
  {
    SplitAtArrow(a, b);
    SplitNoArrow(b);
  }
}
