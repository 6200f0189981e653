/**
 The string operations the stream decoder relies on, modelled after the
 Rust standard library: `starts_with`, `ends_with`, `strip_prefix`,
 `strip_suffix` and `split_inclusive` with a string pattern.

 `SplitInclusive` is given by recursion (leftmost, non-overlapping
 matches; each piece keeps its terminator; an empty input has no pieces;
 only the last piece may lack the terminator) and is proved equal to the
 unique sequence satisfying the declarative `IsInclusiveSplit`.
 */
module Strings {
  import opened Types

  predicate StartsWith(s: string, p: string) {
    |p| <= |s| && s[..|p|] == p
  }

  predicate EndsWith(s: string, p: string) {
    |p| <= |s| && s[|s| - |p|..] == p
  }

  /** `str::strip_prefix`. */
  function StripPrefix(s: string, p: string): (r: Option<string>)
    ensures r.Some? <==> StartsWith(s, p)
    ensures r.Some? ==> s == p + r.value
  {
    if StartsWith(s, p) then Some(s[|p|..]) else None
  }

  /** `str::strip_suffix`. */
  function StripSuffix(s: string, p: string): (r: Option<string>)
    ensures r.Some? <==> EndsWith(s, p)
    ensures r.Some? ==> s == r.value + p
  {
    if EndsWith(s, p) then Some(s[..|s| - |p|]) else None
  }

  /** The pattern `d` occurs in `s` starting at index `i`. */
  ghost predicate OccursAt(s: string, d: string, i: int) {
    0 <= i && i + |d| <= |s| && s[i..i + |d|] == d
  }

  ghost predicate Contains(s: string, d: string) {
    exists i :: 0 <= i <= |s| - |d| && OccursAt(s, d, i)
  }

  /** `i` is the leftmost occurrence of `d` in `s`. */
  ghost predicate FirstOccurrence(s: string, d: string, i: int) {
    OccursAt(s, d, i) && forall j :: 0 <= j < i ==> !OccursAt(s, d, j)
  }

  /** A piece that ends with `d` and contains no earlier occurrence of it. */
  ghost predicate ClosedPiece(p: string, d: string) {
    |d| <= |p| && FirstOccurrence(p, d, |p| - |d|)
  }

  lemma {:induction false} ClosedEndsWith(p: string, d: string)
    ensures ClosedPiece(p, d) ==> EndsWith(p, d)
  {
    if |d| <= |p| {
      assert p[|p| - |d|..] == p[|p| - |d|..|p|];
    }
  }

  lemma {:induction false} EndsWithContains(s: string, d: string)
    ensures EndsWith(s, d) ==> Contains(s, d)
  {
    if EndsWith(s, d) {
      assert s[|s| - |d|..|s|] == s[|s| - |d|..];
      assert OccursAt(s, d, |s| - |d|);
    }
  }

  /** Text missing the pattern's first character cannot contain the pattern. */
  lemma {:induction false} MissingFirstCharNotContained(s: string, d: string)
    requires |d| > 0 && d[0] !in s
    ensures !Contains(s, d)
  {
    forall j | 0 <= j <= |s| - |d| ensures !OccursAt(s, d, j) {
      assert s[j..j + |d|][0] == s[j];
    }
  }

  function Flatten(ps: seq<string>): string {
    if ps == [] then "" else ps[0] + Flatten(ps[1..])
  }

  /** Piece `k` is non-empty and closed, or it is the last piece and has no `d`. */
  ghost predicate PieceOk(ps: seq<string>, k: int, d: string)
    requires 0 <= k < |ps|
  {
    |ps[k]| > 0 && (ClosedPiece(ps[k], d) || (k == |ps| - 1 && !Contains(ps[k], d)))
  }

  /** The declarative meaning of `s.split_inclusive(d)`. */
  ghost predicate IsInclusiveSplit(s: string, d: string, ps: seq<string>) {
    Flatten(ps) == s && forall k :: 0 <= k < |ps| ==> PieceOk(ps, k, d)
  }

  lemma {:induction false} OccursAtShift(s: string, d: string, j: int)
    requires |s| > 0 && 0 <= j
    ensures OccursAt(s, d, j + 1) <==> OccursAt(s[1..], d, j)
  {
    if j + 1 + |d| <= |s| {
      assert s[1..][j..j + |d|] == s[j + 1..j + 1 + |d|];
    }
  }

  /** The leftmost index at which `d` occurs in `s`, if any. */
  function Find(s: string, d: string): (r: Option<nat>)
    requires |d| > 0
    ensures r.Some? ==> r.value + |d| <= |s|
    decreases |s|
  {
    if |s| < |d| then None
    else if s[..|d|] == d then Some(0)
    else match Find(s[1..], d)
      case None => None
      case Some(i) => Some(i + 1)
  }

  /** `Find` returns the leftmost occurrence, and `None` exactly when there is none. */
  lemma {:induction false} FindSpec(s: string, d: string)
    requires |d| > 0
    ensures Find(s, d).Some? ==> FirstOccurrence(s, d, Find(s, d).value)
    ensures Find(s, d).None? ==> !Contains(s, d)
    decreases |s|
  {
    if |s| < |d| {
    } else if s[..|d|] == d {
      assert OccursAt(s, d, 0);
    } else {
      FindSpec(s[1..], d);
      assert !OccursAt(s, d, 0);
      forall j | 0 <= j ensures OccursAt(s, d, j + 1) <==> OccursAt(s[1..], d, j) {
        OccursAtShift(s, d, j);
      }
      match Find(s[1..], d)
      case None =>
        forall i | 0 <= i ensures !OccursAt(s, d, i) {
          if i > 0 { assert !OccursAt(s[1..], d, i - 1); }
        }
      case Some(i) =>
        forall j | 0 <= j < i + 1 ensures !OccursAt(s, d, j) {
          if j > 0 { assert !OccursAt(s[1..], d, j - 1); }
        }
    }
  }

  /** An occurrence inside a prefix of `s` is an occurrence in `s`, and back. */
  lemma {:induction false} OccursInPrefix(s: string, d: string, n: nat, j: int)
    requires n <= |s|
    requires j + |d| <= n
    ensures OccursAt(s[..n], d, j) <==> OccursAt(s, d, j)
  {
    if 0 <= j {
      assert s[..n][j..j + |d|] == s[j..j + |d|];
    }
  }

  /** An occurrence inside a suffix of `s` is an occurrence in `s`, shifted. */
  lemma {:induction false} OccursInSuffix(s: string, d: string, n: nat, j: int)
    requires n <= |s|
    ensures OccursAt(s[n..], d, j) <==> (0 <= j && OccursAt(s, d, n + j))
  {
    if 0 <= j && n + j + |d| <= |s| {
      assert s[n..][j..j + |d|] == s[n + j..n + j + |d|];
    }
  }

  /** `str::split_inclusive` with a non-empty string pattern. */
  function SplitInclusive(s: string, d: string): seq<string>
    requires |d| > 0
    decreases |s|
  {
    if |s| == 0 then []
    else match Find(s, d)
      case None => [s]
      case Some(i) => [s[..i + |d|]] + SplitInclusive(s[i + |d|..], d)
  }

  /** `SplitInclusive` meets the declarative description of `split_inclusive`. */
  lemma {:induction false} SplitInclusiveSplits(s: string, d: string)
    requires |d| > 0
    ensures IsInclusiveSplit(s, d, SplitInclusive(s, d))
    decreases |s|
  {
    if |s| > 0 {
      FindSpec(s, d);
      match Find(s, d)
      case None =>
        assert [s][1..] == [] && PieceOk([s], 0, d);
      case Some(i) =>
        var n := i + |d|;
        var rest := SplitInclusive(s[n..], d);
        SplitInclusiveSplits(s[n..], d);
        assert ClosedPiece(s[..n], d) by {
          OccursInPrefix(s, d, n, i);
          forall j | 0 <= j < i ensures !OccursAt(s[..n], d, j) {
            OccursInPrefix(s, d, n, j);
          }
        }
        var ps := [s[..n]] + rest;
        assert Flatten(ps) == s[..n] + Flatten(rest) by {
          assert ps[1..] == rest;
        }
        assert s[..n] + s[n..] == s;
        forall k | 0 <= k < |ps| ensures PieceOk(ps, k, d) {
          if k == 0 {
            assert ps[0] == s[..n];
          } else {
            assert ps[k] == rest[k - 1] && PieceOk(rest, k - 1, d);
          }
        }
    }
  }

  lemma {:induction false} FlattenAppend(a: seq<string>, b: seq<string>)
    ensures Flatten(a + b) == Flatten(a) + Flatten(b)
    decreases |a|
  {
    if a == [] {
      assert a + b == b;
    } else {
      assert (a + b)[1..] == a[1..] + b;
      FlattenAppend(a[1..], b);
    }
  }

  /** The tail of an inclusive split is the inclusive split of what it covers. */
  lemma {:induction false} TailIsInclusiveSplit(s: string, d: string, ps: seq<string>)
    requires IsInclusiveSplit(s, d, ps)
    requires |ps| > 0
    ensures s == ps[0] + Flatten(ps[1..])
    ensures IsInclusiveSplit(Flatten(ps[1..]), d, ps[1..])
  {
    forall k | 0 <= k < |ps| - 1 ensures PieceOk(ps[1..], k, d) {
      assert ps[1..][k] == ps[k + 1] && PieceOk(ps, k + 1, d);
    }
  }

  /** A closed piece at the front of `s` ends at the leftmost occurrence. */
  lemma {:induction false} FindAfterClosedPrefix(s: string, p: string, d: string)
    requires |d| > 0
    requires ClosedPiece(p, d)
    requires |p| <= |s| && s[..|p|] == p
    ensures Find(s, d) == Some(|p| - |d|)
  {
    var m := |p| - |d|;
    FindSpec(s, d);
    OccursInPrefix(s, d, |p|, m);
    forall j | 0 <= j < m ensures !OccursAt(s, d, j) {
      OccursInPrefix(s, d, |p|, j);
    }
    assert OccursAt(s, d, m);
  }

  lemma {:induction false} SplitUnfoldNone(s: string, d: string)
    requires |d| > 0 && |s| > 0
    requires Find(s, d).None?
    ensures SplitInclusive(s, d) == [s]
  {
  }

  lemma {:induction false} SplitUnfoldSome(s: string, d: string, i: nat)
    requires |d| > 0 && |s| > 0
    requires Find(s, d) == Some(i)
    ensures SplitInclusive(s, d) == [s[..i + |d|]] + SplitInclusive(s[i + |d|..], d)
  {
  }

  /** `split_inclusive` has exactly one result: `IsInclusiveSplit` determines it. */
  lemma {:induction false} InclusiveSplitUnique(s: string, d: string, ps: seq<string>)
    requires |d| > 0
    requires IsInclusiveSplit(s, d, ps)
    ensures ps == SplitInclusive(s, d)
    decreases |ps|
  {
    if ps == [] {
      assert s == "";
    } else {
      var p := ps[0];
      assert PieceOk(ps, 0, d);
      TailIsInclusiveSplit(s, d, ps);
      var tail := Flatten(ps[1..]);
      assert s[..|p|] == p && s[|p|..] == tail;
      if ClosedPiece(p, d) {
        FindAfterClosedPrefix(s, p, d);
        SplitUnfoldSome(s, d, |p| - |d|);
        InclusiveSplitUnique(tail, d, ps[1..]);
      } else {
        assert |ps| == 1 && !Contains(p, d);
        assert tail == "";
        assert s == p;
        FindSpec(s, d);
        assert Find(s, d).None?;
        SplitUnfoldNone(s, d);
      }
    }
  }

  /** Every piece carries its terminator: the text ends on a piece boundary. */
  ghost predicate AllClosed(ps: seq<string>, d: string) {
    forall k :: 0 <= k < |ps| ==> ClosedPiece(ps[k], d)
  }

  /** Splitting text that ends on a piece boundary distributes over `+`. */
  lemma {:induction false} SplitAppend(x: string, y: string, d: string)
    requires |d| > 0
    requires AllClosed(SplitInclusive(x, d), d)
    ensures SplitInclusive(x + y, d) == SplitInclusive(x, d) + SplitInclusive(y, d)
  {
    var px := SplitInclusive(x, d);
    var py := SplitInclusive(y, d);
    SplitInclusiveSplits(x, d);
    SplitInclusiveSplits(y, d);
    var ps := px + py;
    FlattenAppend(px, py);
    forall k | 0 <= k < |ps| ensures PieceOk(ps, k, d) {
      if k < |px| {
        assert ps[k] == px[k] && PieceOk(px, k, d) && ClosedPiece(px[k], d);
      } else {
        assert ps[k] == py[k - |px|] && PieceOk(py, k - |px|, d);
      }
    }
    InclusiveSplitUnique(x + y, d, ps);
  }

  /** A single closed piece splits to itself, and splits off the front of any text. */
  lemma {:induction false} SplitClosedPrefix(p: string, y: string, d: string)
    requires |d| > 0
    requires ClosedPiece(p, d)
    ensures SplitInclusive(p, d) == [p]
    ensures SplitInclusive(p + y, d) == [p] + SplitInclusive(y, d)
  {
    assert Flatten([p]) == p;
    InclusiveSplitUnique(p, d, [p]);
    SplitAppend(p, y, d);
  }

  /** Non-empty text without the pattern is a single piece. */
  lemma {:induction false} SplitNoPattern(s: string, d: string)
    requires |d| > 0
    requires |s| > 0 && !Contains(s, d)
    ensures SplitInclusive(s, d) == [s]
  {
    assert Flatten([s]) == s;
    InclusiveSplitUnique(s, d, [s]);
  }
}
