/**
 * The parts of java.lang.String (and of the project's StringUtil) that the
 * redaction engine relies on: `indexOf`, `split` with limit 0, `trim`,
 * the regex class `\s` and blank tests.  Strings are sequences of code points.
 */
module JavaStrings {
  import opened Wrappers

  /** Java regex `\s` without UNICODE_CHARACTER_CLASS: [ \t\n\x0B\f\r]. */
  predicate IsWhitespace(c: char) {
    c == ' ' || c == '\t' || c == '\n' || c == '\U{B}' || c == '\U{C}' || c == '\r'
  }

  /** `t` occurs in `s` starting at index `i`. */
  predicate OccursAt(s: string, t: string, i: int) {
    0 <= i && i + |t| <= |s| && s[i..i + |t|] == t
  }

  predicate Contains(s: string, t: string) {
    exists i :: 0 <= i <= |s| && OccursAt(s, t, i)
  }

  /** `s.indexOf(t, from)`: the first occurrence at or after `from`, or -1. */
  function IndexOfFrom(s: string, t: string, from: nat): (r: int)
    ensures r == -1 || (from <= r && OccursAt(s, t, r))
    ensures forall j :: from <= j && (r == -1 || j < r) ==> !OccursAt(s, t, j)
    decreases |s| - from
  {
    if from + |t| > |s| then -1
    else if s[from..from + |t|] == t then from
    else IndexOfFrom(s, t, from + 1)
  }

  /** `s.indexOf(t)`. */
  function IndexOf(s: string, t: string): (r: int)
    ensures r == -1 <==> !Contains(s, t)
    ensures r != -1 ==> OccursAt(s, t, r) && forall j :: 0 <= j < r ==> !OccursAt(s, t, j)
  {
    IndexOfFrom(s, t, 0)
  }

  /**
   * A prefix of `s` that ends before the first occurrence of `t` could
   * finish does not contain `t`.
   */
  lemma PrefixBeforeFirstOccurrence(s: string, t: string, i: int, n: int)
    requires |t| > 0 && 0 <= n <= |s| && n < i + |t|
    requires forall j :: 0 <= j < i ==> !OccursAt(s, t, j)
    ensures !Contains(s[..n], t)
  {
    forall j | 0 <= j <= n && OccursAt(s[..n], t, j)
      ensures false
    {
      assert s[..n][j..j + |t|] == s[j..j + |t|];
      assert OccursAt(s, t, j);
    }
  }

  /**
   * The pieces of `s` around the successive leftmost, non-overlapping
   * occurrences of `sep` (what a regex matcher's `find` loop yields for a
   * literal pattern), before any trailing pieces are dropped.
   */
  function Pieces(s: string, sep: string): (r: seq<string>)
    requires |sep| > 0
    ensures |r| >= 1
    ensures Join(r, sep) == s
    decreases |s|
  {
    var i := IndexOf(s, sep);
    if i == -1 then [s]
    else
      var rest := Pieces(s[i + |sep|..], sep);
      assert s == s[..i] + sep + s[i + |sep|..];
      [s[..i]] + rest
  }

  /** No piece contains the separator. */
  lemma {:induction false} PiecesSepFree(s: string, sep: string)
    requires |sep| > 0
    ensures forall k :: 0 <= k < |Pieces(s, sep)| ==> !Contains(Pieces(s, sep)[k], sep)
    decreases |s|
  {
    var i := IndexOf(s, sep);
    if i != -1 {
      PrefixBeforeFirstOccurrence(s, sep, i, i);
      PiecesSepFree(s[i + |sep|..], sep);
      var rest := Pieces(s[i + |sep|..], sep);
      assert Pieces(s, sep) == [s[..i]] + rest;
    }
  }

  /**
   * Each cut is at the leftmost occurrence: no occurrence of `sep` starts
   * inside a piece that a separator follows, not even one that runs on into
   * that separator.
   */
  lemma {:induction false} PiecesLeftmost(s: string, sep: string)
    requires |sep| > 0
    ensures forall k :: 0 <= k < |Pieces(s, sep)| - 1 ==> !Contains(Pieces(s, sep)[k] + sep[..|sep| - 1], sep)
    decreases |s|
  {
    var i := IndexOf(s, sep);
    if i != -1 {
      FirstCutLeftmost(s, sep, i);
      PiecesLeftmost(s[i + |sep|..], sep);
      var rest := Pieces(s[i + |sep|..], sep);
      var ps := Pieces(s, sep);
      assert ps == [s[..i]] + rest;
      forall k | 1 <= k < |ps| - 1
        ensures !Contains(ps[k] + sep[..|sep| - 1], sep)
      {
        assert ps[k] == rest[k - 1];
      }
    }
  }

  /** The first piece, glued to all but the last character of the separator after it, holds no occurrence. */
  lemma FirstCutLeftmost(s: string, sep: string, i: int)
    requires |sep| > 0 && i == IndexOf(s, sep) && i != -1
    ensures !Contains(s[..i] + sep[..|sep| - 1], sep)
  {
    var n := i + |sep| - 1;
    assert s[..i] + sep[..|sep| - 1] == s[..n] by {
      assert s[i..i + |sep|] == sep;
    }
    PrefixBeforeFirstOccurrence(s, sep, i, n);
  }

  /** `t` cannot start anywhere in the first `n` positions of `s` that do not hold its first character. */
  lemma FirstCharAbsent(s: string, t: string, n: int)
    requires |t| > 0 && 0 <= n <= |s| && t[0] !in s[..n]
    ensures forall j :: 0 <= j < n ==> !OccursAt(s, t, j)
  {
    forall j | 0 <= j < n
      ensures !OccursAt(s, t, j)
    {
      if j + |t| <= |s| {
        assert s[j..j + |t|][0] == s[j] == s[..n][j];
      }
    }
  }

  /** A string without the separator's first character is one piece. */
  lemma SplitAbsent(s: string, sep: string)
    requires |sep| > 0 && sep[0] !in s
    ensures !Contains(s, sep) && Pieces(s, sep) == [s] && Split(s, sep) == [s]
  {
    assert s[..|s|] == s;
    FirstCharAbsent(s, sep, |s|);
  }

  /** The first separator ends the first piece when no separator character comes before it. */
  lemma PiecesFirst(p: string, sep: string, rest: string)
    requires |sep| > 0 && sep[0] !in p
    ensures Contains(p + sep + rest, sep)
    ensures Pieces(p + sep + rest, sep) == [p] + Pieces(rest, sep)
  {
    var s := p + sep + rest;
    assert s[..|p|] == p;
    assert s[|p|..|p| + |sep|] == sep;
    assert OccursAt(s, sep, |p|);
    FirstCharAbsent(s, sep, |p|);
    assert IndexOf(s, sep) == |p|;
    assert s[|p| + |sep|..] == rest;
  }

  /** Three separator-free parts joined by `sep` split back into those parts, when the last is not empty. */
  lemma SplitThree(x: string, y: string, z: string, sep: string)
    requires |sep| > 0 && sep[0] !in x && sep[0] !in y && sep[0] !in z && z != []
    ensures Split(x + sep + y + sep + z, sep) == [x, y, z]
  {
    assert x + sep + y + sep + z == x + sep + (y + sep + z);
    PiecesFirst(x, sep, y + sep + z);
    PiecesFirst(y, sep, z);
    SplitAbsent(z, sep);
    assert Pieces(x + sep + y + sep + z, sep) == [x, y, z];
  }

  /** The inverse of splitting: the pieces glued back with `sep` between them. */
  function Join(ps: seq<string>, sep: string): string
  {
    if ps == [] then []
    else if |ps| == 1 then ps[0]
    else ps[0] + sep + Join(ps[1..], sep)
  }

  /** Removes the empty pieces at the end, as `split` does when its limit is 0. */
  function DropTrailingEmpty(ps: seq<string>): (r: seq<string>)
    ensures |r| <= |ps| && r == ps[..|r|]
    ensures r == [] || r[|r| - 1] != []
    ensures forall k :: |r| <= k < |ps| ==> ps[k] == []
  {
    if ps == [] || ps[|ps| - 1] != [] then ps
    else DropTrailingEmpty(ps[..|ps| - 1])
  }

  /**
   * `s.split(sep)` for a separator that the regex engine reads literally,
   * with limit 0: when `sep` does not occur the result is `[s]`; otherwise
   * the pieces with trailing empty ones removed (so the result may be empty).
   */
  function Split(s: string, sep: string): seq<string>
    requires |sep| > 0
  {
    if IndexOf(s, sep) == -1 then [s] else DropTrailingEmpty(Pieces(s, sep))
  }

  /**
   * No piece of a split contains the separator; without an occurrence the
   * result is `[s]`, and otherwise it is empty or ends in a non-empty piece.
   */
  lemma SplitShape(s: string, sep: string)
    requires |sep| > 0
    ensures var r := Split(s, sep);
      && (forall k :: 0 <= k < |r| ==> !Contains(r[k], sep))
      && (forall k :: 0 <= k < |r| - 1 ==> !Contains(r[k] + sep[..|sep| - 1], sep))
      && (!Contains(s, sep) ==> r == [s])
      && (Contains(s, sep) ==> r == [] || r[|r| - 1] != [])
  {
    if IndexOf(s, sep) != -1 {
      PiecesSepFree(s, sep);
      PiecesLeftmost(s, sep);
      var ps, r := Pieces(s, sep), Split(s, sep);
      forall k | 0 <= k < |r| - 1
        ensures !Contains(r[k] + sep[..|sep| - 1], sep)
      {
        assert r[k] == ps[k];
      }
    }
  }

  /** `n` copies of `t`, one after another. */
  function Repeat(t: string, n: nat): string
  {
    if n == 0 then [] else t + Repeat(t, n - 1)
  }

  /**
   * The split comes back empty exactly when `s` is the separator repeated
   * one or more times: every piece is empty, and split drops them all.
   */
  lemma SplitEmpty(s: string, sep: string)
    requires |sep| > 0
    ensures Split(s, sep) == [] <==> exists n :: 1 <= n && s == Repeat(sep, n)
  {
    if Split(s, sep) == [] {
      var i := IndexOf(s, sep);
      var ps := Pieces(s, sep);
      assert ps == [s[..i]] + Pieces(s[i + |sep|..], sep);
      JoinOfEmpties(ps, sep);
      assert 1 <= |ps| - 1 && s == Repeat(sep, |ps| - 1);
    }
    if exists n :: 1 <= n && s == Repeat(sep, n) {
      var n :| 1 <= n && s == Repeat(sep, n);
      PiecesOfRepeat(sep, n);
      assert s[0..|sep|] == sep;
      assert OccursAt(s, sep, 0);
    }
  }

  /** Pieces that are all empty glue back into one separator fewer than there are pieces. */
  lemma {:induction false} JoinOfEmpties(ps: seq<string>, sep: string)
    requires |ps| >= 1 && forall k :: 0 <= k < |ps| ==> ps[k] == []
    ensures Join(ps, sep) == Repeat(sep, |ps| - 1)
  {
    if |ps| > 1 {
      JoinOfEmpties(ps[1..], sep);
      assert ps[0] == [];
    }
  }

  /** The separator repeated `n` times cuts into `n + 1` empty pieces. */
  lemma {:induction false} PiecesOfRepeat(sep: string, n: nat)
    requires |sep| > 0
    ensures |Pieces(Repeat(sep, n), sep)| == n + 1
    ensures forall k :: 0 <= k < |Pieces(Repeat(sep, n), sep)| ==> Pieces(Repeat(sep, n), sep)[k] == []
  {
    var s := Repeat(sep, n);
    if n > 0 {
      PiecesOfRepeat(sep, n - 1);
      assert s[0..|sep|] == sep;
      assert OccursAt(s, sep, 0);
      assert IndexOf(s, sep) == 0;
      assert s[|sep|..] == Repeat(sep, n - 1);
      var rest := Pieces(Repeat(sep, n - 1), sep);
      assert Pieces(s, sep) == [[]] + rest;
    }
  }

  /**
   * Splitting drops nothing but empty trailing pieces: when `sep` occurs,
   * the result is the pieces (which glue back into `s`) up to a tail of
   * empty ones, and gluing the result back gives a prefix of `s`.
   */
  lemma {:induction false} SplitJoinPrefix(s: string, sep: string)
    requires |sep| > 0
    ensures var r := Split(s, sep); r != [] ==> Join(r, sep) <= s
    ensures var r := Split(s, sep); Contains(s, sep) ==>
      var ps := Pieces(s, sep);
      Join(ps, sep) == s && r == ps[..|r|] && forall k :: |r| <= k < |ps| ==> ps[k] == []
  {
    if IndexOf(s, sep) != -1 {
      var ps := Pieces(s, sep);
      var r := DropTrailingEmpty(ps);
      if r != [] {
        JoinPrefix(ps, |r|, sep);
      }
    }
  }

  /** Joining the first `n` pieces gives a prefix of joining them all. */
  lemma {:induction false} JoinPrefix(ps: seq<string>, n: nat, sep: string)
    requires 1 <= n <= |ps|
    ensures Join(ps[..n], sep) <= Join(ps, sep)
  {
    if n == 1 {
      assert ps[..n] == [ps[0]];
      if |ps| > 1 {
        assert Join(ps, sep) == ps[0] + (sep + Join(ps[1..], sep));
      }
    } else {
      JoinPrefix(ps[1..], n - 1, sep);
      assert ps[..n][1..] == ps[1..][..n - 1];
      PrefixUnderPrefix(ps[0] + sep, Join(ps[1..][..n - 1], sep), Join(ps[1..], sep));
    }
  }

  /** A common start keeps one string a prefix of another. */
  lemma PrefixUnderPrefix(x: string, a: string, b: string)
    requires a <= b
    ensures x + a <= x + b
  {
    assert x + b == (x + a) + b[|a|..];
  }

  /** Removes leading code points at or below U+0020, as `String.trim` does. */
  function TrimStart(s: string): string
  {
    if s != [] && s[0] <= ' ' then TrimStart(s[1..]) else s
  }

  /** What is left is a suffix that starts above U+0020, and only code points at or below it were removed. */
  lemma {:induction false} TrimStartShape(s: string)
    ensures var r := TrimStart(s);
      && |r| <= |s| && r == s[|s| - |r|..]
      && (r == [] || r[0] > ' ')
      && (forall i :: 0 <= i < |s| - |r| ==> s[i] <= ' ')
  {
    if s != [] && s[0] <= ' ' {
      TrimStartShape(s[1..]);
      var r := TrimStart(s[1..]);
      assert s[1..][|s| - 1 - |r|..] == s[|s| - |r|..];
      forall i | 1 <= i < |s| - |r|
        ensures s[i] <= ' '
      {
        assert s[1..][i - 1] == s[i];
      }
    }
  }

  /** Removes trailing code points at or below U+0020. */
  function TrimEnd(s: string): string
  {
    if s != [] && s[|s| - 1] <= ' ' then TrimEnd(s[..|s| - 1]) else s
  }

  /** What is left is a prefix that ends above U+0020, and only code points at or below it were removed. */
  lemma {:induction false} TrimEndShape(s: string)
    ensures var r := TrimEnd(s);
      && |r| <= |s| && r == s[..|r|]
      && (r == [] || r[|r| - 1] > ' ')
      && (forall i :: |r| <= i < |s| ==> s[i] <= ' ')
  {
    if s != [] && s[|s| - 1] <= ' ' {
      TrimEndShape(s[..|s| - 1]);
      var r := TrimEnd(s[..|s| - 1]);
      assert s[..|s| - 1][..|r|] == s[..|r|];
      forall i | |r| <= i < |s| - 1
        ensures s[i] <= ' '
      {
        assert s[..|s| - 1][i] == s[i];
      }
    }
  }

  /** `s.trim()`. */
  function Trim(s: string): string
  {
    TrimEnd(TrimStart(s))
  }

  /**
   * `trim` keeps one contiguous stretch of `s`, from `a` on: everything
   * before and after it is at or below U+0020, and the stretch is empty or
   * starts and ends above U+0020.
   */
  lemma TrimShape(s: string)
    ensures var r := Trim(s); var a := |s| - |TrimStart(s)|;
      && 0 <= a <= a + |r| <= |s| && r == s[a..a + |r|]
      && (forall i :: 0 <= i < a ==> s[i] <= ' ')
      && (forall i :: a + |r| <= i < |s| ==> s[i] <= ' ')
      && (r == [] || (r[0] > ' ' && r[|r| - 1] > ' '))
  {
    var t := TrimStart(s);
    var r := TrimEnd(t);
    var a := |s| - |t|;
    TrimStartShape(s);
    TrimEndShape(t);
    assert r == s[a..a + |r|] by {
      assert t[..|r|] == s[a..][..|r|];
    }
    forall i | a + |r| <= i < |s|
      ensures s[i] <= ' '
    {
      assert s[i] == t[i - a];
    }
  }

  /**
   * StringUtil.isBlank, taken to be "null, or every character is `\s`
   * whitespace" (the helper's own source is not part of this model).
   */
  predicate IsBlank(s: Option<string>) {
    s.None? || forall i :: 0 <= i < |s.value| ==> IsWhitespace(s.value[i])
  }

  /** `isBlank(t.trim())` holds exactly when every character of `t` is at or below U+0020. */
  lemma TrimmedBlank(t: string)
    ensures IsBlank(Some(Trim(t))) <==> forall i :: 0 <= i < |t| ==> t[i] <= ' '
  {
    var a := TrimStart(t);
    var r := TrimEnd(a);
    TrimStartShape(t);
    TrimEndShape(a);
    if r != [] {
      assert !IsWhitespace(r[0]);
      assert t[|t| - |a|] == a[0] == r[0];
    } else {
      assert a == [];
    }
  }
}
