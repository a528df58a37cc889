/**
 * The JavaScript string built-ins the router relies on, over `string` (a sequence of
 * Unicode scalar values): `split` and `join` with a one-character separator,
 * `includes` / `indexOf` for a substring, `replace` of the first occurrence of a
 * string pattern, and `endsWith` / `startsWith` for one character.
 */
module Text {
  import opened Wrappers

  /** `s.split(d)`: the pieces between the separators; never empty (`"".split("/")` is `[""]`). */
  function Split(s: string, d: char): (r: seq<string>)
    ensures |r| >= 1
    ensures forall i :: 0 <= i < |r| ==> d !in r[i]
    decreases |s|
  {
    if s == [] then [""]
    else
      var rest := Split(s[1..], d);
      if s[0] == d then [""] + rest
      else [[s[0]] + rest[0]] + rest[1..]
  }

  /** `ps.join(d)`; an empty array joins to the empty string. */
  function Join(ps: seq<string>, d: char): string
  {
    if |ps| == 0 then ""
    else if |ps| == 1 then ps[0]
    else ps[0] + [d] + Join(ps[1..], d)
  }

  /** True when no piece holds the separator, so that splitting the join gives the pieces back. */
  predicate SeparatorFree(ps: seq<string>, d: char)
  {
    forall i :: 0 <= i < |ps| ==> d !in ps[i]
  }

  /** Splitting a string that holds no separator gives the string itself. */
  lemma {:induction false} SplitWithoutSeparator(s: string, d: char)
    requires d !in s
    ensures Split(s, d) == [s]
    decreases |s|
  {
    if s != [] {
      SplitWithoutSeparator(s[1..], d);
      assert [s[0]] + s[1..] == s;
    }
  }

  /** The first separator ends the first piece; the rest is split on its own. */
  lemma {:induction false} SplitAtSeparator(a: string, d: char, b: string)
    requires d !in a
    ensures Split(a + [d] + b, d) == [a] + Split(b, d)
    decreases |a|
  {
    if a == [] {
      assert a + [d] + b == [d] + b;
      assert ([d] + b)[1..] == b;
    } else {
      var s := a + [d] + b;
      assert s[0] == a[0] && s[1..] == a[1..] + [d] + b;
      SplitAtSeparator(a[1..], d, b);
      assert [a[0]] + a[1..] == a;
    }
  }

  /** Joining the pieces of a split gives back the string. */
  lemma {:induction false} JoinSplit(s: string, d: char)
    ensures Join(Split(s, d), d) == s
    decreases |s|
  {
    if s != [] {
      var rest := Split(s[1..], d);
      JoinSplit(s[1..], d);
      if s[0] == d {
        assert Split(s, d) == [""] + rest;
        assert ([""] + rest)[1..] == rest;
      } else {
        var r := Split(s, d);
        assert r == [[s[0]] + rest[0]] + rest[1..];
        if |rest| == 1 {
          assert Join(r, d) == [s[0]] + rest[0];
        } else {
          assert r[1..] == rest[1..];
          assert Join(r, d) == [s[0]] + rest[0] + [d] + Join(rest[1..], d);
          assert Join(rest, d) == rest[0] + [d] + Join(rest[1..], d);
        }
        assert [s[0]] + s[1..] == s;
      }
    }
  }

  /** Splitting a join of separator-free pieces gives back the pieces. */
  lemma {:induction false} SplitJoin(ps: seq<string>, d: char)
    requires |ps| >= 1 && SeparatorFree(ps, d)
    ensures Split(Join(ps, d), d) == ps
    decreases |ps|
  {
    if |ps| == 1 {
      SplitWithoutSeparator(ps[0], d);
    } else {
      SplitJoin(ps[1..], d);
      SplitAtSeparator(ps[0], d, Join(ps[1..], d));
      assert [ps[0]] + ps[1..] == ps;
    }
  }

  /** Appending one piece to a join. */
  lemma {:induction false} JoinSnoc(ps: seq<string>, p: string, d: char)
    ensures Join(ps + [p], d) == if ps == [] then p else Join(ps, d) + [d] + p
    decreases |ps|
  {
    if |ps| == 1 {
      assert ps + [p] == [ps[0], p];
    } else if |ps| > 1 {
      assert (ps + [p])[1..] == ps[1..] + [p];
      JoinSnoc(ps[1..], p, d);
    }
  }

  /** Joining two non-empty runs of pieces puts one separator between their joins. */
  lemma {:induction false} JoinAppend(ps: seq<string>, qs: seq<string>, d: char)
    requires ps != [] && qs != []
    ensures Join(ps + qs, d) == Join(ps, d) + [d] + Join(qs, d)
    decreases |ps|
  {
    if |ps| == 1 {
      assert ps + qs == [ps[0]] + qs;
      if |qs| == 1 {
        assert [ps[0]] + qs == [ps[0], qs[0]];
      } else {
        assert ([ps[0]] + qs)[1..] == qs;
      }
    } else {
      assert (ps + qs)[1..] == ps[1..] + qs;
      JoinAppend(ps[1..], qs, d);
    }
  }

  /** Every piece appears in the join, at some offset. */
  lemma {:induction false} JoinPieceAt(ps: seq<string>, i: nat, d: char) returns (off: nat)
    requires i < |ps|
    ensures off + |ps[i]| <= |Join(ps, d)| && Join(ps, d)[off..off + |ps[i]|] == ps[i]
    decreases |ps|
  {
    if |ps| == 1 {
      off := 0;
      assert Join(ps, d)[..|ps[0]|] == ps[0];
    } else if i == 0 {
      off := 0;
      assert Join(ps, d) == ps[0] + ([d] + Join(ps[1..], d));
    } else {
      var inner := JoinPieceAt(ps[1..], i - 1, d);
      off := |ps[0]| + 1 + inner;
      var j := Join(ps[1..], d);
      assert Join(ps, d) == (ps[0] + [d]) + j;
      assert Join(ps, d)[off..off + |ps[i]|] == j[inner..inner + |ps[i]|];
    }
  }

  /** A slice of a slice is a slice of the whole. */
  lemma SliceOfSlice<T>(s: seq<T>, lo: nat, hi: nat, a: nat, b: nat)
    requires lo <= hi <= |s| && a <= b <= hi - lo
    ensures s[lo..hi][a..b] == s[lo + a..lo + b]
  {
    forall i | 0 <= i < b - a
      ensures s[lo..hi][a..b][i] == s[lo + a..lo + b][i]
    {
      assert s[lo..hi][a..b][i] == s[lo + a + i];
    }
  }

  /** The pattern `pat` occurs in `s` starting at index `j`. */
  predicate OccursAt(s: string, pat: string, j: nat)
  {
    j + |pat| <= |s| && s[j..j + |pat|] == pat
  }

  /** `s.indexOf(pat, k)`: the first occurrence of `pat` at or after `k`. */
  function IndexFrom(s: string, pat: string, k: nat): (r: Option<nat>)
    ensures r.Some? ==> k <= r.value && OccursAt(s, pat, r.value)
    ensures r.Some? ==> forall j :: k <= j < r.value ==> !OccursAt(s, pat, j)
    ensures r.None? ==> forall j :: k <= j ==> !OccursAt(s, pat, j)
    decreases |s| - k
  {
    if k + |pat| > |s| then None
    else if s[k..k + |pat|] == pat then Some(k)
    else IndexFrom(s, pat, k + 1)
  }

  /** `s.indexOf(pat)`. */
  function IndexOf(s: string, pat: string): Option<nat>
  {
    IndexFrom(s, pat, 0)
  }

  /** `s.includes(pat)`. */
  predicate Contains(s: string, pat: string)
  {
    IndexOf(s, pat).Some?
  }

  /** `includes` holds exactly when the pattern occurs somewhere. */
  lemma ContainsIff(s: string, pat: string)
    ensures Contains(s, pat) <==> exists j :: OccursAt(s, pat, j)
  {
    if !Contains(s, pat) {
      forall j ensures !OccursAt(s, pat, j) {
        assert 0 <= j;
      }
    }
  }

  /**
   * `s.replace(pat, v)` with a string pattern and a replacement string free of `$`
   * (the only case in which JavaScript inserts `v` literally): the first occurrence
   * is replaced, and `s` is returned unchanged when there is none.
   */
  function ReplaceFirst(s: string, pat: string, v: string): string
  {
    match IndexOf(s, pat)
    case None => s
    case Some(i) => s[..i] + v + s[i + |pat|..]
  }

  /** Number of occurrences of the character `c` in `s`. */
  function Count(s: string, c: char): nat
  {
    multiset(s)[c]
  }

  /** `s.endsWith(c)` for a one-character string. */
  predicate EndsWith(s: string, c: char)
  {
    |s| > 0 && s[|s| - 1] == c
  }

  /** `s.startsWith(c)` for a one-character string. */
  predicate StartsWith(s: string, c: char)
  {
    |s| > 0 && s[0] == c
  }

  /** `n` copies of the character `c`. */
  function Repeat(c: char, n: nat): (r: string)
    ensures |r| == n && forall i :: 0 <= i < n ==> r[i] == c
  {
    if n == 0 then "" else Repeat(c, n - 1) + [c]
  }

  /** `s` with every trailing `c` removed: the outcome of `while (s.endsWith(c)) s = s.substring(0, s.length - 1)`. */
  function TrimEnd(s: string, c: char): string
    decreases |s|
  {
    if EndsWith(s, c) then TrimEnd(s[..|s| - 1], c) else s
  }

  /** What trimming removes is exactly a run of `c`, and what it keeps does not end in `c`. */
  lemma {:induction false} TrimEndShape(s: string, c: char)
    ensures !EndsWith(TrimEnd(s, c), c)
    ensures exists n: nat :: s == TrimEnd(s, c) + Repeat(c, n)
    decreases |s|
  {
    if EndsWith(s, c) {
      var t := s[..|s| - 1];
      TrimEndShape(t, c);
      var n: nat :| t == TrimEnd(t, c) + Repeat(c, n);
      assert s == t + [c];
      assert s == TrimEnd(s, c) + Repeat(c, n + 1);
    } else {
      assert s == TrimEnd(s, c) + Repeat(c, 0);
    }
  }

  /** The loop of the source: strips trailing `c` one character at a time. */
  method TrimTrailing(s: string, c: char) returns (t: string)
    ensures t == TrimEnd(s, c)
    ensures !EndsWith(t, c)
  {
    t := s;
    while EndsWith(t, c)
      invariant TrimEnd(t, c) == TrimEnd(s, c)
      decreases |t|
    {
      t := t[..|t| - 1];
    }
  }
}
