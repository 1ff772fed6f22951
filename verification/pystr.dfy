/** The Python `str` operations the tracker relies on, with CPython's
    semantics: `find`, `in`, slicing `s[a:b]` and `split(sep)`. */
module PyStr {

  /** `sub` occurs in `s` starting at index `i`. */
  predicate OccursAt(s: string, sub: string, i: int)
  {
    0 <= i && i + |sub| <= |s| && s[i..i + |sub|] == sub
  }

  /** Python's `sub in s`. */
  predicate Contains(s: string, sub: string)
  {
    exists i :: 0 <= i <= |s| && OccursAt(s, sub, i)
  }

  /** The leftmost occurrence of `sub` at or after index `k`, or -1. */
  function FindFrom(s: string, sub: string, k: nat): (r: int)
    requires k <= |s|
    ensures r == -1 || (k <= r && OccursAt(s, sub, r))
    ensures forall j :: k <= j && (r == -1 || j < r) ==> !OccursAt(s, sub, j)
    decreases |s| - k
  {
    if k + |sub| > |s| then -1
    else if s[k..k + |sub|] == sub then k
    else FindFrom(s, sub, k + 1)
  }

  /** Python's `s.find(sub)`: the index of the leftmost occurrence, or -1. */
  function Find(s: string, sub: string): (r: int)
    ensures r >= -1
    ensures r == -1 <==> !Contains(s, sub)
    ensures r >= 0 ==> OccursAt(s, sub, r)
    ensures forall j :: 0 <= j < r ==> !OccursAt(s, sub, j)
  {
    FindFrom(s, sub, 0)
  }

  /** Python's normalisation of a slice bound against the length `n`:
      negative bounds count from the end, then clamp to `[0, n]`. */
  function SliceBound(i: int, n: nat): (r: nat)
    ensures r <= n
    ensures 0 <= i <= n ==> r == i
    ensures -(n as int) <= i < 0 ==> r == n + i
  {
    if i < 0 then (if n + i < 0 then 0 else n + i)
    else if i > n then n
    else i
  }

  /** Python's `s[start:stop]` (unit step); never fails. */
  function Slice(s: string, start: int, stop: int): (r: string)
    ensures |r| <= |s|
    ensures 0 <= start <= stop <= |s| ==> r == s[start..stop]
    ensures SliceBound(stop, |s|) <= SliceBound(start, |s|) ==> r == []
    ensures -|s| <= start < 0 && stop >= |s| ==> r == s[|s| + start..]
    ensures 0 <= start && -|s| <= stop < 0 && start <= |s| + stop ==> r == s[start..|s| + stop]
  {
    var a := SliceBound(start, |s|);
    var b := SliceBound(stop, |s|);
    if a < b then s[a..b] else []
  }

  /** Python's `sep.join(parts)`. */
  function Join(parts: seq<string>, sep: string): string
  {
    if |parts| == 0 then []
    else if |parts| == 1 then parts[0]
    else parts[0] + sep + Join(parts[1..], sep)
  }

  /** Python's `s.split(sep)` for a non-empty separator: the pieces between
      the leftmost non-overlapping occurrences of `sep`. */
  function Split(s: string, sep: string): (r: seq<string>)
    requires sep != []
    ensures |r| >= 1
    ensures |r| == 1 <==> !Contains(s, sep)
    ensures Join(r, sep) == s
    decreases |s|
  {
    var i := Find(s, sep);
    if i < 0 then [s]
    else
      var rest := s[i + |sep|..];
      assert s == s[..i] + sep + rest;
      var tail := Split(rest, sep);
      assert ([s[..i]] + tail)[1..] == tail;
      [s[..i]] + tail
  }

  /** In `a + sep`, the first occurrence of `sep` is the appended one: `a`
      neither contains `sep` nor ends in a proper prefix of it that `sep`
      would complete. */
  predicate Clean(a: string, sep: string)
  {
    Find(a + sep, sep) == |a|
  }

  // ---------------------------------------------------------------------
  // Facts about occurrences
  // ---------------------------------------------------------------------

  /** An occurrence inside a prefix is an occurrence in the whole string. */
  lemma OccursAtPrefix(x: string, y: string, sub: string, j: int)
    requires 0 <= j && j + |sub| <= |x|
    ensures OccursAt(x + y, sub, j) <==> OccursAt(x, sub, j)
  {
    assert (x + y)[j..j + |sub|] == x[j..j + |sub|];
  }

  /** Occurrences in a suffix `s[k..]` are occurrences in `s`, shifted. */
  lemma OccursAtSuffix(s: string, k: nat, sub: string, j: int)
    requires k <= |s| && 0 <= j
    ensures OccursAt(s[k..], sub, j) <==> OccursAt(s, sub, k + j)
  {
    if j + |sub| <= |s| - k {
      assert s[k..][j..j + |sub|] == s[k + j..k + j + |sub|];
    }
  }

  /** A suffix of `s` contains `sub` only if `s` does. */
  lemma ContainsSuffix(s: string, k: nat, sub: string)
    requires k <= |s|
    ensures Contains(s[k..], sub) ==> Contains(s, sub)
  {
    if Contains(s[k..], sub) {
      var j :| 0 <= j <= |s[k..]| && OccursAt(s[k..], sub, j);
      OccursAtSuffix(s, k, sub, j);
    }
  }

  /** `Find` is pinned down by its leftmost occurrence. */
  lemma FindIs(s: string, sub: string, i: int)
    requires OccursAt(s, sub, i)
    requires forall j :: 0 <= j < i ==> !OccursAt(s, sub, j)
    ensures Find(s, sub) == i
  {
  }

  /** A string without the character `c` holds no occurrence of `[c]`. */
  lemma NotContainsChar(s: string, c: char)
    requires c !in s
    ensures !Contains(s, [c])
  {
    forall j | 0 <= j < |s|
      ensures !OccursAt(s, [c], j)
    {
      assert s[j..j + 1][0] == s[j];
    }
  }

  /** `c in s` and `[c] in s` agree. */
  lemma CharContains(s: string, c: char)
    ensures c in s <==> Contains(s, [c])
  {
    if c in s {
      var j :| 0 <= j < |s| && s[j] == c;
      assert OccursAt(s, [c], j);
    } else {
      NotContainsChar(s, c);
    }
  }

  /** Joining two or more pieces starts with the first two around `sep`. */
  lemma {:induction false} JoinFirstTwo(parts: seq<string>, sep: string)
    requires |parts| >= 2
    ensures Join(parts, sep) == parts[0] + sep + parts[1]
      + (if |parts| == 2 then [] else sep + Join(parts[2..], sep))
  {
    var rest := parts[1..];
    assert Join(parts, sep) == parts[0] + sep + Join(rest, sep);
    if |parts| > 2 {
      assert rest[1..] == parts[2..];
      var j := Join(parts[2..], sep);
      assert Join(rest, sep) == parts[1] + sep + j;
      assert parts[0] + sep + (parts[1] + sep + j) == parts[0] + sep + parts[1] + (sep + j);
    }
  }

  /** For a one-character separator, `Clean` means the character is absent. */
  lemma CleanChar(a: string, c: char)
    requires c !in a
    ensures Clean(a, [c])
  {
    forall j | 0 <= j < |a|
      ensures !OccursAt(a + [c], [c], j)
    {
      assert (a + [c])[j..j + 1][0] == a[j];
    }
    assert (a + [c])[|a|..|a| + 1] == [c];
    FindIs(a + [c], [c], |a|);
  }

  /** A clean prefix holds no occurrence of the separator. */
  lemma CleanNotContains(a: string, sep: string)
    requires sep != [] && Clean(a, sep)
    ensures !Contains(a, sep)
  {
    forall j | 0 <= j <= |a| && j + |sep| <= |a|
      ensures !OccursAt(a, sep, j)
    {
      OccursAtPrefix(a, sep, sep, j);
    }
  }

  /** After a clean prefix, the separator is found right where it is put. */
  lemma {:induction false} FindAfterClean(a: string, sep: string, b: string)
    requires Clean(a, sep)
    ensures Find(a + sep + b, sep) == |a|
  {
    var s := a + sep + b;
    assert s == (a + sep) + b;
    OccursAtPrefix(a + sep, b, sep, |a|);
    forall j | 0 <= j < |a|
      ensures !OccursAt(s, sep, j)
    {
      OccursAtPrefix(a + sep, b, sep, j);
    }
    FindIs(s, sep, |a|);
  }

  /** Splitting `a + sep + b` with a clean `a` yields `a` and then the
      pieces of `b`. */
  lemma {:induction false} SplitAfterClean(a: string, sep: string, b: string)
    requires sep != [] && Clean(a, sep)
    ensures Split(a + sep + b, sep) == [a] + Split(b, sep)
  {
    var s := a + sep + b;
    FindAfterClean(a, sep, b);
    assert s[..|a|] == a;
    assert s[|a| + |sep|..] == b;
  }

  /** Regrouping the tail of a five-part concatenation. */
  lemma RegroupTail(a: string, b: string, c: string, d: string, e: string)
    ensures a + b + c + d + e == a + b + (c + d + e)
  {
  }

  /** After a clean prefix, the second piece is the first piece of what
      follows the separator. */
  lemma SplitSecondPiece(a: string, sep: string, t: string)
    requires sep != [] && Clean(a, sep)
    ensures |Split(a + sep + t, sep)| >= 2
    ensures Split(a + sep + t, sep)[1] == Split(t, sep)[0]
  {
    SplitAfterClean(a, sep, t);
  }

  /** A clean prefix is the first piece of the split. */
  lemma SplitFirstPiece(a: string, sep: string, t: string)
    requires sep != [] && Clean(a, sep)
    ensures Split(a + sep + t, sep)[0] == a
  {
    SplitAfterClean(a, sep, t);
  }

  /** Regrouping the tail of a four-part concatenation. */
  lemma RegroupFour(a: string, b: string, c: string, d: string)
    ensures a + b + c + d == a + b + (c + d)
  {
  }

  /** Up to the next `c` or the end, a piece free of `c` is the first piece. */
  lemma FirstPieceUpToChar(b: string, c: char, rest: string)
    requires c !in b && (rest == [] || rest[0] == c)
    ensures Split(b + rest, [c])[0] == b
  {
    if rest == [] {
      assert b + rest == b;
      NotContainsChar(b, c);
      SplitAbsent(b, [c]);
    } else {
      assert rest == [c] + rest[1..];
      PieceBeforeChar(b, c, rest[1..]);
    }
  }

  /** A piece free of `c` followed by `c` is the first piece. */
  lemma PieceBeforeChar(b: string, c: char, t: string)
    requires c !in b
    ensures Split(b + ([c] + t), [c])[0] == b
  {
    assert b + ([c] + t) == b + [c] + t;
    CleanChar(b, c);
    SplitFirstPiece(b, [c], t);
  }

  /** Splitting `a c b rest` on the character `c`, where `rest` is empty or
      starts with `c`, yields `a` and `b` as the first two pieces. */
  lemma SplitCharFirstTwo(a: string, c: char, b: string, rest: string)
    requires c !in a && c !in b && (rest == [] || rest[0] == c)
    ensures |Split(a + [c] + b + rest, [c])| >= 2
    ensures Split(a + [c] + b + rest, [c])[0] == a
    ensures Split(a + [c] + b + rest, [c])[1] == b
  {
    RegroupFour(a, [c], b, rest);
    CleanChar(a, c);
    SplitFirstPiece(a, [c], b + rest);
    SplitSecondPiece(a, [c], b + rest);
    FirstPieceUpToChar(b, c, rest);
  }

  /** Every piece produced by `Split` is free of the separator. */
  lemma {:induction false} SplitPiecesFree(s: string, sep: string)
    requires sep != []
    ensures forall k :: 0 <= k < |Split(s, sep)| ==> !Contains(Split(s, sep)[k], sep)
    decreases |s|
  {
    var i := Find(s, sep);
    if i >= 0 {
      var rest := s[i + |sep|..];
      SplitPiecesFree(rest, sep);
      assert s == s[..i] + s[i..];
      forall j | 0 <= j <= i && j + |sep| <= i
        ensures !OccursAt(s[..i], sep, j)
      {
        OccursAtPrefix(s[..i], s[i..], sep, j);
      }
      assert Split(s, sep) == [s[..i]] + Split(rest, sep);
    }
  }

  /** A string that does not contain the separator splits into itself. */
  lemma SplitAbsent(s: string, sep: string)
    requires sep != [] && !Contains(s, sep)
    ensures Split(s, sep) == [s]
  {
  }
}
