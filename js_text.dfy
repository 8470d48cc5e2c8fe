/** The JavaScript string primitives the tag handling is built from:
    `String.prototype.trim`, `split` on a one-character separator, `Array.prototype.join`,
    `endsWith` and (ASCII) `toLowerCase`. */
module JsText {

  /** The ECMAScript WhiteSpace and LineTerminator code points, which `trim` strips. */
  predicate IsSpace(c: char) {
    var n := c as int;
    n == 0x09 || n == 0x0A || n == 0x0B || n == 0x0C || n == 0x0D || n == 0x20 ||
    n == 0xA0 || n == 0x1680 || (0x2000 <= n <= 0x200A) || n == 0x2028 || n == 0x2029 ||
    n == 0x202F || n == 0x205F || n == 0x3000 || n == 0xFEFF
  }

  predicate AllSpace(s: string) {
    forall i :: 0 <= i < |s| ==> IsSpace(s[i])
  }

  /** Neither end of `s` is white space: `trim` leaves `s` as it is. */
  predicate IsTrimmed(s: string) {
    s == [] || (!IsSpace(s[0]) && !IsSpace(s[|s| - 1]))
  }

  /** The first position at or after `i` that is not white space (or `|s|`). */
  function SkipSpaces(s: string, i: nat): (k: nat)
    requires i <= |s|
    ensures i <= k <= |s|
    decreases |s| - i
  {
    if i < |s| && IsSpace(s[i]) then SkipSpaces(s, i + 1) else i
  }

  /** `SkipSpaces` passes over white space only and stops at a non-space. */
  lemma {:induction false} SkipSpacesStops(s: string, i: nat)
    requires i <= |s|
    ensures forall j :: i <= j < SkipSpaces(s, i) ==> IsSpace(s[j])
    ensures SkipSpaces(s, i) < |s| ==> !IsSpace(s[SkipSpaces(s, i)])
    decreases |s| - i
  {
    if i < |s| && IsSpace(s[i]) {
      SkipSpacesStops(s, i + 1);
    }
  }

  /** The end of `s[..j]` once its trailing white space is dropped. */
  function SkipSpacesBack(s: string, j: nat): (k: nat)
    requires j <= |s|
    ensures k <= j
  {
    if j > 0 && IsSpace(s[j - 1]) then SkipSpacesBack(s, j - 1) else j
  }

  /** `SkipSpacesBack` passes over white space only and stops after a non-space. */
  lemma {:induction false} SkipSpacesBackStops(s: string, j: nat)
    requires j <= |s|
    ensures forall m :: SkipSpacesBack(s, j) <= m < j ==> IsSpace(s[m])
    ensures SkipSpacesBack(s, j) > 0 ==> !IsSpace(s[SkipSpacesBack(s, j) - 1])
  {
    if j > 0 && IsSpace(s[j - 1]) {
      SkipSpacesBackStops(s, j - 1);
    }
  }

  /** `s.trim()`: white space is removed from both ends and nothing else changes. */
  function Trim(s: string): (r: string)
    ensures IsTrimmed(r)
    ensures forall c :: c in r ==> c in s
    ensures r == [] <==> AllSpace(s)
    ensures IsTrimmed(s) ==> r == s
  {
    var a, b := SkipSpaces(s, 0), SkipSpacesBack(s, |s|);
    SkipSpacesStops(s, 0);
    SkipSpacesBackStops(s, |s|);
    TrimKeepsCharacters(s, a, b);
    TrimEmptyIffSpace(s, a, b);
    if a < b then s[a..b] else []
  }

  /** Trimming only cuts `s` down to a stretch of it with white space alone on
      either side; with `IsTrimmed` of the result the stretch is the largest such. */
  lemma TrimStripsEnds(s: string)
    ensures exists a, b :: 0 <= a <= b <= |s| && Trim(s) == s[a..b] && AllSpace(s[..a]) && AllSpace(s[b..])
  {
    var a, b := SkipSpaces(s, 0), SkipSpacesBack(s, |s|);
    SkipSpacesStops(s, 0);
    SkipSpacesBackStops(s, |s|);
    if a < b {
      assert AllSpace(s[..a]) && AllSpace(s[b..]);
      assert Trim(s) == s[a..b];
    } else {
      assert AllSpace(s[..|s|]) && AllSpace(s[|s|..]) by {
        forall i | 0 <= i < |s| ensures IsSpace(s[i]) {
          assert i < a || b <= i;
        }
      }
      assert Trim(s) == s[|s|..|s|];
    }
  }

  lemma TrimKeepsCharacters(s: string, a: nat, b: nat)
    requires a <= |s| && b <= |s|
    ensures a < b ==> forall c :: c in s[a..b] ==> c in s
  {
    if a < b {
      forall c | c in s[a..b] ensures c in s {
        var k :| 0 <= k < b - a && s[a..b][k] == c;
        assert s[a + k] == c;
      }
    }
  }

  lemma TrimEmptyIffSpace(s: string, a: nat, b: nat)
    requires a == SkipSpaces(s, 0) && b == SkipSpacesBack(s, |s|)
    ensures a < b <==> !AllSpace(s)
  {
    SkipSpacesStops(s, 0);
    SkipSpacesBackStops(s, |s|);
    if !AllSpace(s) {
      var j :| 0 <= j < |s| && !IsSpace(s[j]);
      assert a <= j < b;
    }
  }

  /** Trimming white space followed by an already trimmed, non-empty tag gives the tag. */
  lemma TrimAfterSpaces(pad: string, t: string)
    requires AllSpace(pad) && t != [] && IsTrimmed(t)
    ensures Trim(pad + t) == t
  {
    var s := pad + t;
    var a, b := SkipSpaces(s, 0), SkipSpacesBack(s, |s|);
    SkipSpacesStops(s, 0);
    SkipSpacesBackStops(s, |s|);
    assert s[|pad|] == t[0] && s[|s| - 1] == t[|t| - 1];
    assert a == |pad|;
    assert b == |s|;
    assert s[a..b] == t;
  }

  /** `s.split(sep)` for a one-character separator: the pieces between separators,
      one more piece than there are separators (so `"".split(",")` is `[""]`). */
  function Split(s: string, sep: char): (r: seq<string>)
    ensures |r| >= 1
    ensures forall p :: p in r ==> sep !in p
  {
    if s == [] then [[]]
    else
      var rest := Split(s[1..], sep);
      if s[0] == sep then [[]] + rest else [[s[0]] + rest[0]] + rest[1..]
  }

  /** `parts.join(sep)`. */
  function Join(parts: seq<string>, sep: string): (r: string)
    ensures |parts| == 0 ==> r == []
    ensures |parts| >= 1 ==> parts[0] <= r
    ensures |parts| >= 2 ==> parts[0] + sep <= r
  {
    if |parts| == 0 then []
    else if |parts| == 1 then parts[0]
    else parts[0] + sep + Join(parts[1..], sep)
  }

  /** Joining two non-empty lists of parts puts the separator between their joins. */
  lemma {:induction false} JoinAppend(a: seq<string>, b: seq<string>, sep: string)
    requires |a| > 0 && |b| > 0
    ensures Join(a + b, sep) == Join(a, sep) + sep + Join(b, sep)
  {
    assert (a + b)[0] == a[0] && (a + b)[1..] == a[1..] + b;
    if |a| > 1 {
      JoinAppend(a[1..], b, sep);
    } else {
      assert a[1..] + b == b;
    }
  }

  /** Joining the pieces of a split with the separator gives back the string. */
  lemma {:induction false} JoinSplit(s: string, sep: char)
    ensures Join(Split(s, sep), [sep]) == s
  {
    if s != [] {
      var rest := Split(s[1..], sep);
      JoinSplit(s[1..], sep);
      if s[0] == sep {
        assert Split(s, sep) == [[]] + rest;
        var empty: string := [];
        assert empty + [sep] + Join(rest, [sep]) == s;
      } else if |rest| == 1 {
        assert s == [s[0]] + s[1..];
      } else {
        var parts := Split(s, sep);
        assert parts[1..] == rest[1..];
        calc {
          Join(parts, [sep]);
          ([s[0]] + rest[0]) + [sep] + Join(rest[1..], [sep]);
          [s[0]] + (rest[0] + [sep] + Join(rest[1..], [sep]));
          [s[0]] + Join(rest, [sep]);
          s;
        }
      }
    }
  }

  /** A piece without separators splits to itself. */
  lemma {:induction false} SplitWithoutSeparator(a: string, sep: char)
    requires sep !in a
    ensures Split(a, sep) == [a]
  {
    if a != [] {
      SplitWithoutSeparator(a[1..], sep);
      assert a == [a[0]] + a[1..];
    }
  }

  /** Splitting `a + sep + b` yields `a` followed by the pieces of `b`. */
  lemma {:induction false} SplitAtSeparator(a: string, sep: char, b: string)
    requires sep !in a
    ensures Split(a + [sep] + b, sep) == [a] + Split(b, sep)
  {
    var s := a + [sep] + b;
    if a == [] {
      assert s[1..] == b;
    } else {
      assert s[1..] == a[1..] + [sep] + b;
      SplitAtSeparator(a[1..], sep, b);
      assert a == [a[0]] + a[1..];
    }
  }

  /** Separators never occur in the pieces, so splitting a join gives back the pieces. */
  lemma {:induction false} SplitJoin(parts: seq<string>, sep: char)
    requires |parts| >= 1
    requires forall p :: p in parts ==> sep !in p
    ensures Split(Join(parts, [sep]), sep) == parts
  {
    if |parts| == 1 {
      SplitWithoutSeparator(parts[0], sep);
    } else {
      SplitJoin(parts[1..], sep);
      SplitAtSeparator(parts[0], sep, Join(parts[1..], [sep]));
      assert parts == [parts[0]] + parts[1..];
    }
  }

  predicate EndsWith(s: string, suffix: string) {
    |suffix| <= |s| && s[|s| - |suffix|..] == suffix
  }

  /** `toLowerCase` on the ASCII letters; every other character is left alone. */
  function LowerChar(c: char): (r: char)
    ensures 'A' <= c <= 'Z' ==> 'a' <= r <= 'z'
    ensures !('A' <= c <= 'Z') ==> r == c
  {
    if 'A' <= c <= 'Z' then (c as int + 32) as char else c
  }

  function Lower(s: string): (r: string)
    ensures |r| == |s|
    ensures forall i :: 0 <= i < |s| ==> r[i] == LowerChar(s[i])
  {
    seq(|s|, i requires 0 <= i < |s| => LowerChar(s[i]))
  }

  /** `a.toLowerCase() === b.toLowerCase()`. */
  predicate EqualsIgnoreCase(a: string, b: string) {
    Lower(a) == Lower(b)
  }
}
