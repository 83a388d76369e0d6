/**
 * The string operations the dashboard relies on: substring containment
 * (`str.contains`), case-insensitive containment (`case=False`), splitting on
 * a separator (`str.split`) and trimming (`str.strip`).
 */
module Text {

  /** Counts how often `c` occurs in `s`. */
  function Occurrences(s: string, c: char): nat
  {
    if s == [] then 0 else (if s[0] == c then 1 else 0) + Occurrences(s[1..], c)
  }

  lemma {:induction false} OccurrencesAppend(a: string, b: string, c: char)
    ensures Occurrences(a + b, c) == Occurrences(a, c) + Occurrences(b, c)
  {
    if a == [] {
      assert a + b == b;
    } else {
      OccurrencesAppend(a[1..], b, c);
      assert (a + b)[1..] == a[1..] + b;
    }
  }

  // ---------------------------------------------------------------------------
  // Replacement
  // ---------------------------------------------------------------------------

  /** Python's `s.replace(old, new)` for a one-character `old`. */
  function Replace(s: string, target: char, repl: string): (r: string)
    ensures target !in repl ==> target !in r
  {
    if s == [] then [] else (if s[0] == target then repl else [s[0]]) + Replace(s[1..], target, repl)
  }

  lemma {:induction false} ReplaceAppend(a: string, b: string, target: char, repl: string)
    ensures Replace(a + b, target, repl) == Replace(a, target, repl) + Replace(b, target, repl)
  {
    if a == [] {
      assert a + b == b;
    } else {
      var head := if a[0] == target then repl else [a[0]];
      calc {
        Replace(a + b, target, repl);
      == { assert (a + b)[0] == a[0]; assert (a + b)[1..] == a[1..] + b; }
        head + Replace(a[1..] + b, target, repl);
      == { ReplaceAppend(a[1..], b, target, repl); }
        head + (Replace(a[1..], target, repl) + Replace(b, target, repl));
        (head + Replace(a[1..], target, repl)) + Replace(b, target, repl);
        Replace(a, target, repl) + Replace(b, target, repl);
      }
    }
  }

  /** Nothing to replace leaves the text unchanged. */
  lemma {:induction false} ReplaceAbsent(s: string, target: char, repl: string)
    requires target !in s
    ensures Replace(s, target, repl) == s
  {
    if s != [] {
      ReplaceAbsent(s[1..], target, repl);
      assert s == [s[0]] + s[1..];
    }
  }

  /** Deleting `target` leaves the count of every other character alone. */
  lemma {:induction false} DeleteOccurrences(s: string, target: char, c: char)
    requires c != target
    ensures Occurrences(Replace(s, target, []), c) == Occurrences(s, c)
  {
    if s != [] {
      DeleteOccurrences(s[1..], target, c);
      OccurrencesAppend(if s[0] == target then [] else [s[0]], Replace(s[1..], target, []), c);
    }
  }

  /** Replacing `target` by `c` adds one `c` per `target`. */
  lemma {:induction false} SubstituteOccurrences(s: string, target: char, c: char)
    requires c != target
    ensures Occurrences(Replace(s, target, [c]), c) == Occurrences(s, target) + Occurrences(s, c)
  {
    if s != [] {
      SubstituteOccurrences(s[1..], target, c);
      OccurrencesAppend(if s[0] == target then [c] else [s[0]], Replace(s[1..], target, [c]), c);
    }
  }

  // ---------------------------------------------------------------------------
  // Substring containment
  // ---------------------------------------------------------------------------

  /** `t` occurs in `s` starting at position `i`. */
  predicate OccursAt(s: string, t: string, i: int)
  {
    0 <= i && i + |t| <= |s| && s[i..i + |t|] == t
  }

  /** Literal substring containment, scanning start positions from the left. */
  predicate Contains(s: string, t: string)
    decreases |s|
  {
    t <= s || (s != [] && Contains(s[1..], t))
  }

  /** Containment means there is a position at which the pattern occurs. */
  lemma {:induction false} ContainsIff(s: string, t: string)
    ensures Contains(s, t) <==> exists i :: OccursAt(s, t, i)
    decreases |s|
  {
    if t <= s {
      assert OccursAt(s, t, 0);
    } else if s == [] {
    } else {
      ContainsIff(s[1..], t);
      if Contains(s[1..], t) {
        var i :| OccursAt(s[1..], t, i);
        assert s[1..][i..i + |t|] == s[i + 1..i + 1 + |t|];
        assert OccursAt(s, t, i + 1);
      }
      if exists i :: OccursAt(s, t, i) {
        var i :| OccursAt(s, t, i);
        if i == 0 {
          assert false;
        } else {
          assert s[1..][i - 1..i - 1 + |t|] == s[i..i + |t|];
          assert OccursAt(s[1..], t, i - 1);
        }
      }
    }
  }

  /** Containment is transitive: a text holding `m` holds everything `m` holds. */
  lemma ContainsTransitive(s: string, m: string, t: string)
    requires Contains(s, m) && Contains(m, t)
    ensures Contains(s, t)
  {
    ContainsIff(s, m);
    ContainsIff(m, t);
    var i :| OccursAt(s, m, i);
    var j :| OccursAt(m, t, j);
    assert s[i + j..i + j + |t|] == m[j..j + |t|] by {
      forall k | i + j <= k < i + j + |t|
        ensures s[k] == m[k - i]
      {
        assert s[k] == s[i..i + |m|][k - i];
      }
    }
    assert OccursAt(s, t, i + j);
    ContainsIff(s, t);
  }

  // ---------------------------------------------------------------------------
  // Case-insensitive containment
  // ---------------------------------------------------------------------------

  /**
   * Simple lower-case folding of one character: ASCII `A`..`Z` and the
   * Latin-1 capitals `À`..`Þ` (except `×`) map to their small letters.
   */
  function Fold(c: char): (r: char)
    ensures ('a' <= r <= 'z') ==> ('a' <= c <= 'z' || 'A' <= c <= 'Z')
  {
    if 'A' <= c <= 'Z' then (c as int + 32) as char
    else if 'À' <= c <= 'Þ' && c != '×' then (c as int + 32) as char
    else c
  }

  /** Folds every character of `s`. */
  function FoldAll(s: string): (r: string)
    ensures |r| == |s|
    ensures forall k :: 0 <= k < |s| ==> r[k] == Fold(s[k])
  {
    seq(|s|, k requires 0 <= k < |s| => Fold(s[k]))
  }

  /** `str.contains(t, case=False)` with `t` read literally. */
  predicate ContainsIgnoreCase(s: string, t: string)
  {
    Contains(FoldAll(s), FoldAll(t))
  }

  /** `t` matches `s` at `i` when every character agrees after folding. */
  predicate MatchesFoldedAt(s: string, t: string, i: int)
  {
    0 <= i && i + |t| <= |s| && forall k :: 0 <= k < |t| ==> Fold(s[i + k]) == Fold(t[k])
  }

  /** Case-insensitive containment is character-by-character agreement up to case at some position. */
  lemma ContainsIgnoreCaseIff(s: string, t: string)
    ensures ContainsIgnoreCase(s, t) <==> exists i :: MatchesFoldedAt(s, t, i)
  {
    var fs, ft := FoldAll(s), FoldAll(t);
    ContainsIff(fs, ft);
    if ContainsIgnoreCase(s, t) {
      var i :| OccursAt(fs, ft, i);
      forall k | 0 <= k < |t|
        ensures Fold(s[i + k]) == Fold(t[k])
      {
        assert fs[i..i + |ft|][k] == fs[i + k];
      }
      assert MatchesFoldedAt(s, t, i);
    }
    if exists i :: MatchesFoldedAt(s, t, i) {
      var i :| MatchesFoldedAt(s, t, i);
      assert fs[i..i + |ft|] == ft;
      assert OccursAt(fs, ft, i);
    }
  }

  /** A literal occurrence is also a case-insensitive one. */
  lemma ContainsImpliesIgnoreCase(s: string, t: string)
    requires Contains(s, t)
    ensures ContainsIgnoreCase(s, t)
  {
    ContainsIff(s, t);
    var i :| OccursAt(s, t, i);
    forall k | 0 <= k < |t|
      ensures Fold(s[i + k]) == Fold(t[k])
    {
      assert s[i..i + |t|][k] == s[i + k];
    }
    assert MatchesFoldedAt(s, t, i);
    ContainsIgnoreCaseIff(s, t);
  }

  /** Case-insensitive containment is transitive too. */
  lemma ContainsIgnoreCaseTransitive(s: string, m: string, t: string)
    requires ContainsIgnoreCase(s, m) && ContainsIgnoreCase(m, t)
    ensures ContainsIgnoreCase(s, t)
  {
    ContainsTransitive(FoldAll(s), FoldAll(m), FoldAll(t));
  }

  // ---------------------------------------------------------------------------
  // Splitting and joining
  // ---------------------------------------------------------------------------

  /** Python's `s.split(sep)` for a one-character separator: always at least one piece. */
  function Split(s: string, sep: char): (r: seq<string>)
    ensures |r| >= 1
    ensures forall k :: 0 <= k < |r| ==> sep !in r[k]
  {
    if s == [] then [[]]
    else
      var rest := Split(s[1..], sep);
      if s[0] == sep then [[]] + rest else [[s[0]] + rest[0]] + rest[1..]
  }

  /** Python's `sep.join(parts)`. */
  function Join(parts: seq<string>, sep: char): string
    requires |parts| >= 1
  {
    if |parts| == 1 then parts[0] else parts[0] + [sep] + Join(parts[1..], sep)
  }

  /** Joining the pieces of a split gives back the text. */
  lemma {:induction false} JoinSplit(s: string, sep: char)
    ensures Join(Split(s, sep), sep) == s
  {
    if s != [] {
      JoinSplit(s[1..], sep);
      var rest := Split(s[1..], sep);
      if s[0] == sep {
        assert Split(s, sep)[1..] == rest;
        assert s == [sep] + s[1..];
      } else if |rest| == 1 {
        assert s == [s[0]] + s[1..];
      } else {
        var r := Split(s, sep);
        assert r[1..] == rest[1..];
        assert Join(rest, sep) == rest[0] + [sep] + Join(rest[1..], sep);
        assert s == [s[0]] + s[1..];
      }
    }
  }

  /** A text without the separator is one piece. */
  lemma {:induction false} SplitFree(s: string, sep: char)
    requires sep !in s
    ensures Split(s, sep) == [s]
  {
    if s != [] {
      SplitFree(s[1..], sep);
      assert s == [s[0]] + s[1..];
    }
  }

  /** A separator after a separator-free prefix closes the first piece. */
  lemma {:induction false} SplitAfter(a: string, sep: char, b: string)
    requires sep !in a
    ensures Split(a + [sep] + b, sep) == [a] + Split(b, sep)
  {
    var s := a + [sep] + b;
    if a == [] {
      assert s[1..] == b;
    } else {
      assert s[1..] == a[1..] + [sep] + b;
      SplitAfter(a[1..], sep, b);
      assert a == [a[0]] + a[1..];
    }
  }

  /** Splitting joined pieces that hold no separator gives back the pieces. */
  lemma {:induction false} SplitJoin(parts: seq<string>, sep: char)
    requires |parts| >= 1
    requires forall k :: 0 <= k < |parts| ==> sep !in parts[k]
    ensures Split(Join(parts, sep), sep) == parts
  {
    if |parts| == 1 {
      SplitFree(parts[0], sep);
    } else {
      SplitJoin(parts[1..], sep);
      SplitAfter(parts[0], sep, Join(parts[1..], sep));
      assert parts == [parts[0]] + parts[1..];
    }
  }

  /** There is one piece more than there are separators. */
  lemma {:induction false} SplitCount(s: string, sep: char)
    ensures |Split(s, sep)| == Occurrences(s, sep) + 1
  {
    if s != [] {
      SplitCount(s[1..], sep);
    }
  }

  // ---------------------------------------------------------------------------
  // Trimming
  // ---------------------------------------------------------------------------

  /** Python's `str.isspace` for one character. */
  predicate IsSpace(c: char)
  {
    var n := c as int;
    (9 <= n <= 13) || (28 <= n <= 32) || n == 0x85 || n == 0xA0 || n == 0x1680 ||
    (0x2000 <= n <= 0x200A) || n == 0x2028 || n == 0x2029 || n == 0x202F ||
    n == 0x205F || n == 0x3000
  }

  /** Drops leading whitespace. */
  function TrimStart(s: string): (r: string)
    ensures |r| <= |s| && r == s[|s| - |r|..]
    ensures forall k :: 0 <= k < |s| - |r| ==> IsSpace(s[k])
    ensures r != [] ==> !IsSpace(r[0])
  {
    if s != [] && IsSpace(s[0]) then TrimStart(s[1..]) else s
  }

  /** Drops trailing whitespace. */
  function TrimEnd(s: string): (r: string)
    ensures |r| <= |s| && r == s[..|r|]
    ensures forall k :: |r| <= k < |s| ==> IsSpace(s[k])
    ensures r != [] ==> !IsSpace(r[|r| - 1])
  {
    if s != [] && IsSpace(s[|s| - 1]) then TrimEnd(s[..|s| - 1]) else s
  }

  /** `s` is whitespace, then `r` from position `i`, then whitespace. */
  predicate Surrounds(s: string, r: string, i: int)
  {
    0 <= i <= i + |r| <= |s| && s[i..i + |r|] == r &&
    (forall k :: 0 <= k < i ==> IsSpace(s[k])) &&
    (forall k :: i + |r| <= k < |s| ==> IsSpace(s[k]))
  }

  /** Python's `s.strip()`: only surrounding whitespace is removed, all of it. */
  function Strip(s: string): (r: string)
    ensures r != [] ==> !IsSpace(r[0]) && !IsSpace(r[|r| - 1])
    ensures exists i :: Surrounds(s, r, i)
  {
    var front := TrimStart(s);
    var r := TrimEnd(front);
    StripSurrounds(s, front, r, |s| - |front|);
    r
  }

  lemma StripSurrounds(s: string, front: string, r: string, i: int)
    requires 0 <= i <= |s| && front == s[i..]
    requires forall k :: 0 <= k < i ==> IsSpace(s[k])
    requires |r| <= |front| && r == front[..|r|]
    requires forall k :: |r| <= k < |front| ==> IsSpace(front[k])
    ensures Surrounds(s, r, i)
  {
    assert s[i..i + |r|] == r;
    forall k | i + |r| <= k < |s|
      ensures IsSpace(s[k])
    {
      assert s[k] == front[k - i];
    }
  }

  /** Stripping a text with no surrounding whitespace leaves it unchanged. */
  lemma StripClean(s: string)
    requires s != [] ==> !IsSpace(s[0]) && !IsSpace(s[|s| - 1])
    ensures Strip(s) == s
  {
  }
}
