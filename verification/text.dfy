/**
 * The few operations on Python `str` values that the portal relies on:
 * `lower()`, the `in` substring test, `strip()`, `split(',')` and the `<`
 * ordering of strings. Characters are compared by code point, as Python does.
 */
module Text {

  /** `str.lower()` on one character; only the ASCII letters are folded. */
  function LowerChar(c: char): char
  {
    if 'A' <= c <= 'Z' then (c as int + 32) as char else c
  }

  /** `str.lower()`, character by character. */
  function Lower(s: string): (r: string)
    ensures |r| == |s|
  {
    seq(|s|, i requires 0 <= i < |s| => LowerChar(s[i]))
  }

  predicate IsLower(s: string)
  {
    forall i :: 0 <= i < |s| ==> LowerChar(s[i]) == s[i]
  }

  /** `w` occurs in `s` starting at index `i`. */
  predicate OccursAt(s: string, w: string, i: int)
  {
    0 <= i && i + |w| <= |s| && s[i..i + |w|] == w
  }

  /** Python's `w in s` on strings. */
  predicate Contains(s: string, w: string)
  {
    exists i | 0 <= i <= |s| - |w| :: OccursAt(s, w, i)
  }

  /** An occurrence of `w` in `s` is an occurrence of `lower(w)` in `lower(s)`. */
  lemma LowerPreservesOccurrence(s: string, w: string, i: int)
    requires OccursAt(s, w, i)
    ensures OccursAt(Lower(s), Lower(w), i)
    ensures Contains(Lower(s), Lower(w))
  {
    var ls := Lower(s);
    assert ls[i..i + |w|] == Lower(w) by {
      forall k | 0 <= k < |w|
        ensures ls[i..i + |w|][k] == Lower(w)[k]
      {
        assert s[i..i + |w|][k] == w[k];
      }
    }
    assert 0 <= i <= |ls| - |Lower(w)| && OccursAt(ls, Lower(w), i);
  }

  /** A string lacking one of the characters of `w` does not contain `w`. */
  lemma MissingCharExcludes(s: string, w: string, c: char)
    requires c in w && c !in s
    ensures !Contains(s, w)
  {
    forall i | 0 <= i <= |s| - |w|
      ensures !OccursAt(s, w, i)
    {
      assert c !in s[i..i + |w|];
    }
  }

  /** A lower-case letter absent from `s` in both cases is absent from `lower(s)`. */
  lemma MissingAfterLower(s: string, c: char)
    requires 'a' <= c <= 'z'
    requires c !in s && (c as int - 32) as char !in s
    ensures c !in Lower(s)
  {
    forall i | 0 <= i < |s|
      ensures Lower(s)[i] != c
    {
      assert s[i] != c && s[i] as int != c as int - 32;
    }
  }

  /** The characters `str.strip()` removes: ASCII space, \t \n \v \f \r and \x1c-\x1f. */
  predicate IsSpace(c: char)
  {
    c == ' ' || 9 <= c as int <= 13 || 28 <= c as int <= 31
  }

  /** `str.lstrip()`: the longest suffix of `s` that does not start with whitespace. */
  function TrimStart(s: string): (r: string)
    ensures |r| <= |s| && r == s[|s| - |r|..]
    ensures r == [] || !IsSpace(r[0])
    ensures forall i :: 0 <= i < |s| - |r| ==> IsSpace(s[i])
  {
    if s != [] && IsSpace(s[0]) then TrimStart(s[1..]) else s
  }

  /** `str.rstrip()`: the longest prefix of `s` that does not end with whitespace. */
  function TrimEnd(s: string): (r: string)
    ensures |r| <= |s| && r == s[..|r|]
    ensures r == [] || !IsSpace(r[|r| - 1])
    ensures forall i :: |r| <= i < |s| ==> IsSpace(s[i])
  {
    if s != [] && IsSpace(s[|s| - 1]) then TrimEnd(s[..|s| - 1]) else s
  }

  /** `str.strip()`. */
  function Strip(s: string): string
  {
    TrimEnd(TrimStart(s))
  }

  /**
   * `strip()` cuts the slice `s[i..j]` out of `s`: everything cut is
   * whitespace and the slice neither starts nor ends with whitespace.
   */
  lemma StripIsSlice(s: string) returns (i: nat, j: nat)
    ensures i <= j <= |s| && Strip(s) == s[i..j]
    ensures forall k :: 0 <= k < i ==> IsSpace(s[k])
    ensures forall k :: j <= k < |s| ==> IsSpace(s[k])
    ensures i < j ==> !IsSpace(s[i]) && !IsSpace(s[j - 1])
  {
    var t := TrimStart(s);
    var r := TrimEnd(t);
    i := |s| - |t|;
    j := i + |r|;
    assert Strip(s) == s[i..j] by {
      SuffixSlice(s, i, |r|);
    }
    forall k | j <= k < |s|
      ensures IsSpace(s[k])
    {
      assert s[k] == t[k - i];
    }
    if i < j {
      assert s[i] == t[0] == r[0];
      assert s[j - 1] == t[|r| - 1] == r[|r| - 1];
    }
  }

  /** Cutting the first `m` characters off the suffix `s[i..]` is the slice `s[i..i + m]`. */
  lemma SuffixSlice(s: string, i: nat, m: nat)
    requires i + m <= |s|
    ensures s[i..][..m] == s[i..i + m]
  {
  }

  /** `strip()` gives the empty string exactly when `s` is blank. */
  lemma StripBlank(s: string)
    ensures Strip(s) == [] <==> forall k :: 0 <= k < |s| ==> IsSpace(s[k])
  {
    var i, j := StripIsSlice(s);
    if Strip(s) != [] {
      assert !IsSpace(s[i]);
    }
  }

  /** Python's `s.split(sep)` with an explicit one-character separator. */
  function Split(s: string, sep: char): (parts: seq<string>)
    ensures |parts| >= 1
    ensures forall k :: 0 <= k < |parts| ==> sep !in parts[k]
  {
    if s == [] then [""]
    else if s[0] == sep then [""] + Split(s[1..], sep)
    else
      var rest := Split(s[1..], sep);
      [[s[0]] + rest[0]] + rest[1..]
  }

  /** Python's `sep.join(parts)`. */
  function Join(parts: seq<string>, sep: char): string
    requires |parts| >= 1
  {
    if |parts| == 1 then parts[0] else parts[0] + [sep] + Join(parts[1..], sep)
  }

  /** Splitting and joining again gives back the original string. */
  lemma {:induction false} JoinSplit(s: string, sep: char)
    ensures Join(Split(s, sep), sep) == s
  {
    if s == [] {
    } else if s[0] == sep {
      JoinSplit(s[1..], sep);
      assert Split(s, sep)[1..] == Split(s[1..], sep);
    } else {
      var rest := Split(s[1..], sep);
      JoinSplit(s[1..], sep);
      var parts := Split(s, sep);
      if |rest| == 1 {
        assert parts == [[s[0]] + rest[0]];
      } else {
        assert parts[1..] == rest[1..];
        assert Join(rest, sep) == rest[0] + [sep] + Join(rest[1..], sep);
      }
    }
  }

  /** Joining fields that hold no separator and splitting again gives back the fields. */
  lemma {:induction false} SplitJoin(parts: seq<string>, sep: char)
    requires |parts| >= 1
    requires forall k :: 0 <= k < |parts| ==> sep !in parts[k]
    ensures Split(Join(parts, sep), sep) == parts
  {
    if |parts| == 1 {
      SplitField(parts[0], [], sep);
    } else {
      SplitJoin(parts[1..], sep);
      SplitField(parts[0], Join(parts[1..], sep), sep);
    }
  }

  /** Joining three or more fields starts with the first three, then the end or a separator. */
  lemma JoinFirstThree(parts: seq<string>, sep: char)
    requires |parts| >= 3
    ensures var prefix := parts[0] + [sep] + parts[1] + [sep] + parts[2];
            var joined := Join(parts, sep);
            && |prefix| <= |joined| && joined[..|prefix|] == prefix
            && (|parts| == 3 <==> |prefix| == |joined|)
            && (|parts| > 3 ==> joined[|prefix|] == sep)
  {
    var prefix := parts[0] + [sep] + parts[1] + [sep] + parts[2];
    var rest := if |parts| == 3 then [] else [sep] + Join(parts[3..], sep);
    JoinThree(parts, sep);
    assert Join(parts, sep) == prefix + rest;
  }

  /** One step of `Join`: the first field, a separator, then the rest joined. */
  lemma JoinUnfold(parts: seq<string>, sep: char)
    requires |parts| >= 2
    ensures Join(parts, sep) == parts[0] + [sep] + Join(parts[1..], sep)
  {
  }

  /** Three steps of `Join`, written out as the first three fields and what follows. */
  lemma JoinThree(parts: seq<string>, sep: char)
    requires |parts| >= 3
    ensures Join(parts, sep)
            == parts[0] + [sep] + parts[1] + [sep] + parts[2]
               + (if |parts| == 3 then [] else [sep] + Join(parts[3..], sep))
  {
    JoinUnfold(parts, sep);
    assert parts[1..][1..] == parts[2..];
    JoinUnfold(parts[1..], sep);
    if |parts| == 3 {
      assert parts[2..] == [parts[2]];
    } else {
      assert parts[2..][1..] == parts[3..];
      JoinUnfold(parts[2..], sep);
    }
  }

  /** Splitting `field + [sep] + tail` (or `field` alone) peels off `field` unchanged. */
  lemma {:induction false} SplitField(field: string, tail: string, sep: char)
    requires sep !in field
    ensures tail == [] ==> Split(field, sep) == [field]
    ensures Split(field + [sep] + tail, sep) == [field] + Split(tail, sep)
  {
    if field != [] {
      SplitField(field[1..], tail, sep);
      assert (field + [sep] + tail)[1..] == field[1..] + [sep] + tail;
      assert field[1..] + [] == field[1..];
      assert field == [field[0]] + field[1..];
    } else {
      assert field + [sep] + tail == [sep] + tail;
    }
  }

  /** Python's `a < b` on strings: lexicographic by code point, a proper prefix first. */
  predicate LexLess(a: string, b: string)
  {
    if a == [] then b != []
    else if b == [] then false
    else if a[0] != b[0] then a[0] < b[0]
    else LexLess(a[1..], b[1..])
  }

  /** `<` on strings is a strict total order. */
  lemma {:induction false} LexLessIrreflexive(a: string)
    ensures !LexLess(a, a)
  {
    if a != [] {
      LexLessIrreflexive(a[1..]);
    }
  }

  lemma {:induction false} LexLessTransitive(a: string, b: string, c: string)
    requires LexLess(a, b) && LexLess(b, c)
    ensures LexLess(a, c)
  {
    if a != [] && b != [] && c != [] && a[0] == b[0] && b[0] == c[0] {
      LexLessTransitive(a[1..], b[1..], c[1..]);
    }
  }

  lemma {:induction false} LexLessTotal(a: string, b: string)
    requires a != b
    ensures LexLess(a, b) || LexLess(b, a)
  {
    if a != [] && b != [] && a[0] == b[0] {
      assert a == [a[0]] + a[1..] && b == [b[0]] + b[1..];
      LexLessTotal(a[1..], b[1..]);
    }
  }
  /** A common prefix does not change the comparison. */
  lemma {:induction false} LexLessCommonPrefix(p: string, a: string, b: string)
    ensures LexLess(p + a, p + b) == LexLess(a, b)
  {
    if p != [] {
      assert (p + a)[0] == (p + b)[0];
      assert (p + a)[1..] == p[1..] + a && (p + b)[1..] == p[1..] + b;
      LexLessCommonPrefix(p[1..], a, b);
    } else {
      assert p + a == a && p + b == b;
    }
  }

  /** A string sorts before each of its proper extensions. */
  lemma {:induction false} LexLessExtension(a: string, t: string)
    requires t != []
    ensures LexLess(a, a + t)
  {
    if a != [] {
      assert (a + t)[0] == a[0] && (a + t)[1..] == a[1..] + t;
      LexLessExtension(a[1..], t);
    } else {
      assert a + t == t;
    }
  }
}
