/**
 * The string operations of Rust's standard library that the search tool relies on:
 * literal substring search (`str::find`, `str::contains`), ASCII lower-casing
 * (`str::to_lowercase` restricted to ASCII), decimal rendering of line numbers
 * (`{}` on an integer) and `str::replace`, which rewrites every non-overlapping,
 * left-to-right occurrence of a pattern.
 */
module Text {

  datatype Option<T> = None | Some(value: T)

  /** `p` occurs in `s` starting at index `i`. */
  predicate OccursAt(s: string, p: string, i: nat)
  {
    i + |p| <= |s| && s[i..i + |p|] == p
  }

  /** The first occurrence of `p` in `s` at or after index `i`. */
  function FindFrom(s: string, p: string, i: nat): (r: Option<nat>)
    ensures r.Some? ==> i <= r.value && OccursAt(s, p, r.value)
    ensures forall j: nat :: i <= j && (r.None? || j < r.value) ==> !OccursAt(s, p, j)
    decreases |s| - i
  {
    if |s| < i + |p| then None
    else if s[i..i + |p|] == p then Some(i)
    else FindFrom(s, p, i + 1)
  }

  /** `str::find`: the index (counted in characters) of the leftmost occurrence of `p` in `s`. */
  function Find(s: string, p: string): (r: Option<nat>)
    ensures r.Some? ==> OccursAt(s, p, r.value)
    ensures r.Some? ==> forall j: nat :: j < r.value ==> !OccursAt(s, p, j)
    ensures r.None? <==> forall j: nat :: !OccursAt(s, p, j)
  {
    FindFrom(s, p, 0)
  }

  /** `str::contains`: literal (non-regex) substring containment. */
  function Contains(s: string, p: string): (r: bool)
    ensures r <==> exists i: nat :: OccursAt(s, p, i)
  {
    Find(s, p).Some?
  }

  lemma EmptyPatternOccurs(s: string)
    ensures OccursAt(s, "", 0) && Contains(s, "")
  {
    assert s[0..0] == "";
  }

  /** A single-character pattern occurs exactly where that character is. */
  lemma {:induction false} ContainsChar(s: string, c: char)
    ensures Contains(s, [c]) <==> c in s
  {
    if c in s {
      var i :| 0 <= i < |s| && s[i] == c;
      assert s[i..i + 1] == [c];
      assert OccursAt(s, [c], i);
    }
    if Contains(s, [c]) {
      var i: nat :| OccursAt(s, [c], i);
      assert s[i] == s[i..i + 1][0];
    }
  }

  // ---------------------------------------------------------------------------
  // ASCII lower-casing

  function LowerChar(c: char): char
  {
    if 'A' <= c <= 'Z' then (c as int + 32) as char else c
  }

  /** `str::to_lowercase`, restricted to the ASCII letters. */
  function Lower(s: string): (r: string)
    ensures |r| == |s|
    ensures forall k :: 0 <= k < |r| ==> !('A' <= r[k] <= 'Z')
    ensures forall k :: 0 <= k < |s| && !('A' <= s[k] <= 'Z') ==> r[k] == s[k]
    ensures forall k :: 0 <= k < |s| && 'A' <= s[k] <= 'Z' ==> r[k] == (s[k] as int + 32) as char
  {
    seq(|s|, k requires 0 <= k < |s| => LowerChar(s[k]))
  }

  /** Lower-casing both sides never loses a match: a case-sensitive match is also a case-insensitive one. */
  lemma LowerKeepsOccurrence(s: string, p: string, i: nat)
    requires OccursAt(s, p, i)
    ensures OccursAt(Lower(s), Lower(p), i)
  {
    assert Lower(s)[i..i + |p|] == Lower(p) by {
      forall k | 0 <= k < |p|
        ensures Lower(s)[i..i + |p|][k] == Lower(p)[k]
      {
        assert s[i + k] == s[i..i + |p|][k];
      }
    }
  }

  lemma LowerKeepsContainment(s: string, p: string)
    ensures Contains(s, p) ==> Contains(Lower(s), Lower(p))
  {
    if Contains(s, p) {
      var i: nat :| OccursAt(s, p, i);
      LowerKeepsOccurrence(s, p, i);
    }
  }

  // ---------------------------------------------------------------------------
  // Decimal rendering of a line number

  predicate IsDigit(c: char)
  {
    '0' <= c <= '9'
  }

  function Digit(d: nat): (c: char)
    requires d < 10
  {
    ('0' as int + d) as char
  }

  /** The decimal rendering Rust's `{}` gives a non-negative integer: digits only, no leading zero. */
  function Decimal(n: nat): (r: string)
    ensures |r| >= 1 && forall k :: 0 <= k < |r| ==> IsDigit(r[k])
    ensures r[0] == '0' ==> n == 0
    decreases n
  {
    if n < 10 then [Digit(n)] else Decimal(n / 10) + [Digit(n % 10)]
  }

  /** Reading a string of digits back as a number. */
  function DigitsValue(ds: string): nat
    requires forall k :: 0 <= k < |ds| ==> IsDigit(ds[k])
  {
    if ds == [] then 0
    else
      var last := ds[|ds| - 1];
      assert IsDigit(last);
      DigitsValue(ds[..|ds| - 1]) * 10 + (last as int - '0' as int)
  }

  /** A rendered number reads back as the same number, so distinct line numbers print differently. */
  lemma {:induction false} DecimalRoundTrip(n: nat)
    ensures DigitsValue(Decimal(n)) == n
    decreases n
  {
    var r := Decimal(n);
    if n >= 10 {
      DecimalRoundTrip(n / 10);
      assert r[..|r| - 1] == Decimal(n / 10);
    }
  }

  // ---------------------------------------------------------------------------
  // `str::replace`: split at the occurrences, join with the replacement

  /** Each character of `s` as a one-character string. */
  function Chars(s: string): seq<string>
  {
    seq(|s|, k requires 0 <= k < |s| => [s[k]])
  }

  /**
   * The pieces of `s` between the non-overlapping occurrences of `p`, found left to right,
   * each search resuming after the previous occurrence. An empty pattern occurs at every
   * character boundary, the start and the end included.
   */
  function Split(s: string, p: string): (pieces: seq<string>)
    ensures |pieces| >= 1
    ensures |p| > 0 ==> forall k :: 0 <= k < |pieces| ==> !Contains(pieces[k], p)
    decreases |s|
  {
    if |p| == 0 then [""] + Chars(s) + [""]
    else match Find(s, p)
      case None => [s]
      case Some(i) =>
        var head := s[..i];
        assert !Contains(head, p) by {
          forall j: nat | OccursAt(head, p, j)
            ensures false
          {
            assert head[j..j + |p|] == s[j..j + |p|];
            assert j < i && OccursAt(s, p, j);
          }
        }
        [head] + Split(s[i + |p|..], p)
  }

  /** The pieces, with `sep` between each neighbouring pair. */
  function Join(pieces: seq<string>, sep: string): string
  {
    if |pieces| == 0 then ""
    else if |pieces| == 1 then pieces[0]
    else pieces[0] + sep + Join(pieces[1..], sep)
  }

  /** `str::replace`: every non-overlapping occurrence of `from` rewritten to `to`. */
  function Replace(s: string, from: string, to: string): (r: string)
    ensures !Contains(s, from) ==> r == s
    ensures to == from ==> r == s
  {
    if !Contains(s, from) then ReplaceWithoutMatch(s, from, to); Join(Split(s, from), to)
    else RejoinRestores(s, from); Join(Split(s, from), to)
  }

  lemma {:induction false} JoinCharsThenEmpty(s: string)
    ensures Join(Chars(s) + [""], "") == s
    decreases |s|
  {
    if s != "" {
      JoinCharsThenEmpty(s[1..]);
      assert Chars(s) + [""] == [[s[0]]] + (Chars(s[1..]) + [""]);
    }
  }

  /**
   * An empty pattern occurs at every character boundary, the start and the end included:
   * the pieces are an empty piece, each character on its own, and an empty piece, so a
   * replacement lands before, between and after the characters; joined with "" they give
   * the string back.
   */
  lemma JoinEmptyPieces(s: string)
    ensures var pieces := Split(s, "");
      && |pieces| == |s| + 2 && pieces[0] == "" && pieces[|s| + 1] == ""
      && (forall k :: 0 <= k < |s| ==> pieces[k + 1] == [s[k]])
      && Join(pieces, "") == s
  {
    JoinCharsThenEmpty(s);
    assert [""] + Chars(s) + [""] == [""] + (Chars(s) + [""]);
  }

  /** Joining the pieces back with the pattern itself restores the original string. */
  lemma {:induction false} RejoinRestores(s: string, p: string)
    ensures Join(Split(s, p), p) == s
    decreases |s|
  {
    if |p| == 0 {
      JoinEmptyPieces(s);
    } else if Find(s, p).Some? {
      var i := Find(s, p).value;
      var rest := s[i + |p|..];
      RejoinRestores(rest, p);
      RejoinStep(s, p, i, Split(rest, p));
    }
  }

  lemma RejoinStep(s: string, p: string, i: nat, tail: seq<string>)
    requires |p| > 0 && Find(s, p) == Some(i)
    requires tail == Split(s[i + |p|..], p) && Join(tail, p) == s[i + |p|..]
    ensures Join(Split(s, p), p) == s
  {
    var head := s[..i];
    var pieces := [head] + tail;
    assert Split(s, p) == pieces;
    assert |tail| >= 1 && pieces[0] == head && pieces[1..] == tail;
    assert Join(pieces, p) == head + p + Join(tail, p);
    assert s[i..i + |p|] == p;
    assert s == head + s[i..i + |p|] + s[i + |p|..];
  }

  /** The first occurrence is at `i` when `p` occurs there and nowhere before. */
  lemma FindIsFirst(t: string, p: string, i: nat)
    requires OccursAt(t, p, i)
    requires forall j: nat :: j < i ==> !OccursAt(t, p, j)
    ensures Find(t, p) == Some(i)
  {
  }

  /** The text before the first occurrence, followed by the pattern, has its first occurrence there. */
  lemma FirstCut(s: string, p: string, i: nat)
    requires Find(s, p) == Some(i)
    ensures Find(s[..i] + p, p) == Some(i)
  {
    var t := s[..i] + p;
    assert s[i..i + |p|] == p;
    assert t == s[..i + |p|];
    assert t[i..i + |p|] == p;
    forall j: nat | j < i
      ensures !OccursAt(t, p, j)
    {
      assert !OccursAt(s, p, j);
      assert j + |p| <= |t|;
      assert t[j..j + |p|] == s[..i + |p|][j..j + |p|] == s[j..j + |p|];
    }
    FindIsFirst(t, p, i);
  }

  /**
   * The cuts are leftmost, left to right: each piece but the last, followed by the pattern,
   * has its first occurrence of the pattern right after the piece. So a self-overlapping
   * pattern is cut where the left-to-right scan first meets it ("aaa" split at "aa" is
   * "" and "a", not "a" and "").
   */
  lemma {:induction false} SplitCutsLeftmost(s: string, p: string)
    requires |p| > 0
    ensures var pieces := Split(s, p);
      forall k :: 0 <= k < |pieces| - 1 ==> Find(pieces[k] + p, p) == Some(|pieces[k]|)
    decreases |s|
  {
    var pieces := Split(s, p);
    match Find(s, p)
    case None =>
    case Some(i) =>
      var rest := s[i + |p|..];
      SplitCutsLeftmost(rest, p);
      assert pieces == [s[..i]] + Split(rest, p);
      forall k | 0 <= k < |pieces| - 1
        ensures Find(pieces[k] + p, p) == Some(|pieces[k]|)
      {
        if k == 0 {
          FirstCut(s, p, i);
        } else {
          assert pieces[k] == Split(rest, p)[k - 1];
        }
      }
  }

  /** A string in which the pattern does not occur is left unchanged by `Replace`. */
  lemma ReplaceWithoutMatch(s: string, p: string, to: string)
    requires !Contains(s, p)
    ensures Split(s, p) == [s]
    ensures Join(Split(s, p), to) == s
  {
    EmptyPatternOccurs(s);
  }

  /** Every occurrence of character `x` rewritten to `y`, position by position. */
  function MapChar(s: string, x: char, y: char): string
  {
    seq(|s|, k requires 0 <= k < |s| => if s[k] == x then y else s[k])
  }

  lemma {:induction false} JoinSwapsSeparator(pieces: seq<string>, x: char, y: char)
    requires forall k :: 0 <= k < |pieces| ==> x !in pieces[k]
    ensures Join(pieces, [y]) == MapChar(Join(pieces, [x]), x, y)
    decreases |pieces|
  {
    if |pieces| == 1 {
      assert MapChar(pieces[0], x, y) == pieces[0];
    } else if |pieces| > 1 {
      JoinSwapsSeparator(pieces[1..], x, y);
      var a, b := pieces[0], Join(pieces[1..], [x]);
      assert MapChar(a + [x] + b, x, y) == MapChar(a, x, y) + [y] + MapChar(b, x, y);
      assert MapChar(a, x, y) == a;
    }
  }

  /** Replacing a one-character pattern by another character is a position-by-position rewrite. */
  lemma ReplaceCharIsMap(s: string, x: char, y: char)
    ensures Replace(s, [x], [y]) == MapChar(s, x, y)
  {
    var pieces := Split(s, [x]);
    forall k | 0 <= k < |pieces|
      ensures x !in pieces[k]
    {
      ContainsChar(pieces[k], x);
    }
    JoinSwapsSeparator(pieces, x, y);
    RejoinRestores(s, [x]);
  }
}
