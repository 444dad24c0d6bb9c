/**
 * The string operations the scripts use: `str.split(sep)` with an explicit
 * one-character separator, `str.strip()` with no argument, and `str(n)` /
 * `int(s)` for the natural numbers written into CSV files.
 */
module Text {
  /**
   * The characters Python's `str.isspace` accepts, which are the ones
   * `str.strip()` removes.
   */
  const Whitespace: set<char> := {
    ' ', '\t', '\n', '\r', '\U{B}', '\U{C}', '\U{1C}', '\U{1D}', '\U{1E}', '\U{1F}',
    '\U{85}', '\U{A0}', '\U{1680}',
    '\U{2000}', '\U{2001}', '\U{2002}', '\U{2003}', '\U{2004}', '\U{2005}',
    '\U{2006}', '\U{2007}', '\U{2008}', '\U{2009}', '\U{200A}',
    '\U{2028}', '\U{2029}', '\U{202F}', '\U{205F}', '\U{3000}'
  }

  predicate IsSpace(ch: char)
  {
    ch in Whitespace
  }

  /** `s.split(c)`: the maximal runs between occurrences of `c`; never empty. */
  function SplitOn(s: string, c: char): (parts: seq<string>)
    ensures |parts| >= 1
  {
    if s == [] then [""]
    else
      var rest := SplitOn(s[1..], c);
      if s[0] == c then [""] + rest else [[s[0]] + rest[0]] + rest[1..]
  }

  /** `c.join(parts)` */
  function Join(parts: seq<string>, c: char): string
    requires |parts| >= 1
  {
    if |parts| == 1 then parts[0] else parts[0] + [c] + Join(parts[1..], c)
  }

  /** No piece of a split contains the separator, and every character of a piece comes from the string. */
  lemma {:induction false} SplitPiecesFree(s: string, c: char)
    ensures forall k :: 0 <= k < |SplitOn(s, c)| ==> c !in SplitOn(s, c)[k]
    ensures forall k, ch :: 0 <= k < |SplitOn(s, c)| && ch in SplitOn(s, c)[k] ==> ch in s
  {
    if s != [] {
      SplitPiecesFree(s[1..], c);
      var parts, rest := SplitOn(s, c), SplitOn(s[1..], c);
      forall k, ch | 0 <= k < |parts| && ch in parts[k]
        ensures ch in s
      {
        assert s == [s[0]] + s[1..];
        if s[0] == c {
          assert k >= 1 && parts[k] == rest[k - 1];
          assert ch in s[1..];
        } else if k == 0 {
          assert parts[0] == [s[0]] + rest[0];
          assert ch == s[0] || ch in rest[0];
        } else {
          assert parts[k] == rest[k];
          assert ch in s[1..];
        }
      }
    }
  }

  /** Joining the pieces with the separator gives back the string. */
  lemma {:induction false} JoinSplit(s: string, c: char)
    ensures Join(SplitOn(s, c), c) == s
  {
    if s != [] {
      var rest := SplitOn(s[1..], c);
      JoinSplit(s[1..], c);
      if s[0] == c {
        assert SplitOn(s, c)[1..] == rest;
      } else {
        var parts := SplitOn(s, c);
        if |rest| == 1 {
          assert parts == [[s[0]] + rest[0]];
        } else {
          assert parts[1..] == rest[1..];
          assert Join(rest, c) == rest[0] + [c] + Join(rest[1..], c);
        }
      }
    }
  }

  /** Splitting a join of separator-free pieces gives back the pieces. */
  lemma {:induction false} SplitJoin(parts: seq<string>, c: char)
    requires |parts| >= 1
    requires forall k :: 0 <= k < |parts| ==> c !in parts[k]
    ensures SplitOn(Join(parts, c), c) == parts
  {
    if |parts| == 1 {
      SplitOfFree(parts[0], [], c);
    } else {
      SplitJoin(parts[1..], c);
      SplitOfFree(parts[0], parts[1..], c);
    }
  }

  /**
   * A separator-free prefix `p` glues onto the first piece of what follows
   * it: the split of `p + [c] + t` is `[p] + split(t)`, and of `p` alone is `[p]`.
   */
  lemma {:induction false} SplitOfFree(p: string, tail: seq<string>, c: char)
    requires c !in p
    requires |tail| >= 1 ==> SplitOn(Join(tail, c), c) == tail
    ensures |tail| == 0 ==> SplitOn(p, c) == [p]
    ensures |tail| >= 1 ==> SplitOn(p + [c] + Join(tail, c), c) == [p] + tail
  {
    if p == [] {
      if |tail| >= 1 {
        assert p + [c] + Join(tail, c) == [c] + Join(tail, c);
        assert ([c] + Join(tail, c))[1..] == Join(tail, c);
      }
    } else {
      SplitOfFree(p[1..], tail, c);
      if |tail| >= 1 {
        var s := p + [c] + Join(tail, c);
        assert s[0] == p[0];
        assert s[1..] == p[1..] + [c] + Join(tail, c);
        assert [p[0]] + p[1..] == p;
      } else {
        assert [p[0]] + p[1..] == p;
      }
    }
  }

  /** `s.lstrip(chars)` where `drop` says which characters are in `chars`. */
  function TrimLeft(s: string, drop: char -> bool): (t: string)
    ensures |t| <= |s|
  {
    if s != [] && drop(s[0]) then TrimLeft(s[1..], drop) else s
  }

  /** `s.rstrip(chars)` */
  function TrimRight(s: string, drop: char -> bool): (t: string)
    ensures |t| <= |s|
  {
    if s != [] && drop(s[|s| - 1]) then TrimRight(s[..|s| - 1], drop) else s
  }

  /** `s.strip(chars)` */
  function Trim(s: string, drop: char -> bool): string
  {
    TrimRight(TrimLeft(s, drop), drop)
  }

  /** `s.strip()`: whitespace removed from both ends. */
  function Strip(s: string): string
  {
    Trim(s, IsSpace)
  }

  /**
   * Trimming removes exactly the dropped characters at both ends: the result
   * is the contiguous piece s[i..i + |t|] of the input, everything cut off is
   * droppable, and the result neither starts nor ends with a droppable
   * character.
   */
  lemma TrimSpec(s: string, drop: char -> bool)
    ensures var t, i := Trim(s, drop), |s| - |TrimLeft(s, drop)|;
      && i + |t| <= |s| && t == s[i..i + |t|]
      && (forall k :: 0 <= k < i ==> drop(s[k]))
      && (forall k :: i + |t| <= k < |s| ==> drop(s[k]))
      && (t != [] ==> !drop(t[0]) && !drop(t[|t| - 1]))
  {
    var l := TrimLeft(s, drop);
    TrimLeftSpec(s, drop);
    TrimRightSpec(l, drop);
    TrimPiece(s, drop);
    TrimCutRight(s, drop);
  }

  /** The trimmed string is the piece of s that starts where the left trim stopped. */
  lemma TrimPiece(s: string, drop: char -> bool)
    ensures var t, i := Trim(s, drop), |s| - |TrimLeft(s, drop)|;
      i + |t| <= |s| && t == s[i..i + |t|]
  {
    var l := TrimLeft(s, drop);
    var t := TrimRight(l, drop);
    var i := |s| - |l|;
    TrimLeftSpec(s, drop);
    TrimRightSpec(l, drop);
    assert s[i..][..|t|] == s[i..i + |t|];
  }

  /** Everything after the trimmed piece is droppable. */
  lemma TrimCutRight(s: string, drop: char -> bool)
    ensures var t, i := Trim(s, drop), |s| - |TrimLeft(s, drop)|;
      forall k :: i + |t| <= k < |s| ==> drop(s[k])
  {
    var l := TrimLeft(s, drop);
    var t := TrimRight(l, drop);
    var i := |s| - |l|;
    TrimLeftSpec(s, drop);
    TrimRightSpec(l, drop);
    forall k | i + |t| <= k < |s|
      ensures drop(s[k])
    {
      assert s[k] == l[k - i];
    }
  }

  lemma {:induction false} TrimLeftSpec(s: string, drop: char -> bool)
    ensures var l := TrimLeft(s, drop);
      && |l| <= |s| && l == s[|s| - |l|..]
      && (forall k :: 0 <= k < |s| - |l| ==> drop(s[k]))
      && (l != [] ==> !drop(l[0]))
  {
    if s != [] && drop(s[0]) {
      TrimLeftSpec(s[1..], drop);
      var l := TrimLeft(s[1..], drop);
      assert s[1..][|s[1..]| - |l|..] == s[|s| - |l|..];
    }
  }

  lemma {:induction false} TrimRightSpec(s: string, drop: char -> bool)
    ensures var t := TrimRight(s, drop);
      && |t| <= |s| && t == s[..|t|]
      && (forall k :: |t| <= k < |s| ==> drop(s[k]))
      && (t != [] ==> !drop(t[|t| - 1]))
  {
    if s != [] && drop(s[|s| - 1]) {
      TrimRightSpec(s[..|s| - 1], drop);
      var t := TrimRight(s[..|s| - 1], drop);
      assert s[..|s| - 1][..|t|] == s[..|t|];
    }
  }

  /** A string with no droppable character is its own trim. */
  lemma TrimNothing(s: string, drop: char -> bool)
    requires forall k :: 0 <= k < |s| ==> !drop(s[k])
    ensures Trim(s, drop) == s
  {
    TrimLeftSpec(s, drop);
    TrimRightSpec(s, drop);
  }

  /** Trimming twice is trimming once. */
  lemma TrimIdempotent(s: string, drop: char -> bool)
    ensures Trim(Trim(s, drop), drop) == Trim(s, drop)
  {
    var t := Trim(s, drop);
    TrimSpec(s, drop);
    TrimLeftSpec(t, drop);
    TrimRightSpec(t, drop);
    if t != [] {
      assert TrimLeft(t, drop) == t;
      assert TrimRight(t, drop) == t;
    }
  }

  predicate IsDigits(s: string)
  {
    forall k :: 0 <= k < |s| ==> '0' <= s[k] <= '9'
  }

  function Digit(d: nat): (c: char)
    requires d < 10
    ensures '0' <= c <= '9'
  {
    ('0' as int + d) as char
  }

  /** `str(n)` for a natural number: its decimal digits, with no leading zero. */
  function DecimalString(n: nat): (s: string)
    ensures |s| >= 1 && IsDigits(s)
    ensures n > 0 ==> s[0] != '0'
  {
    if n < 10 then [Digit(n)] else DecimalString(n / 10) + [Digit(n % 10)]
  }

  /** `int(s)` on a string of decimal digits. */
  function ParseDecimal(s: string): nat
    requires IsDigits(s)
  {
    if s == [] then 0 else ParseDecimal(s[..|s| - 1]) * 10 + (s[|s| - 1] as int - '0' as int)
  }

  /** Reading back the digits written for n gives n. */
  lemma {:induction false} ParseDecimalString(n: nat)
    ensures ParseDecimal(DecimalString(n)) == n
  {
    if n >= 10 {
      var s := DecimalString(n);
      assert s[..|s| - 1] == DecimalString(n / 10);
      ParseDecimalString(n / 10);
    }
  }

  /** Different numbers are written differently. */
  lemma DecimalStringInjective(m: nat, n: nat)
    ensures DecimalString(m) == DecimalString(n) <==> m == n
  {
    ParseDecimalString(m);
    ParseDecimalString(n);
  }

  /** Python's `t in s` for strings. */
  predicate Contains(s: string, t: string)
    decreases |s|
  {
    |t| <= |s| && (s[..|t|] == t || Contains(s[1..], t))
  }

  /** t does not occur in s when no position of s starts it. */
  lemma {:induction false} NotContains(s: string, t: string)
    requires |t| > 0
    requires forall i :: 0 <= i < |s| ==> s[i] != t[0]
    ensures !Contains(s, t)
  {
    if |t| <= |s| {
      assert s[..|t|][0] == s[0];
      NotContains(s[1..], t);
    }
  }

  /** t occurs in p + t: a string ends with itself. */
  lemma {:induction false} ContainsSuffix(p: string, t: string)
    ensures Contains(p + t, t)
  {
    if p != [] {
      assert (p + t)[1..] == p[1..] + t;
      ContainsSuffix(p[1..], t);
    } else {
      assert (p + t)[..|t|] == t;
    }
  }

  /** t occurs in s + u whenever it occurs in s. */
  lemma {:induction false} ContainsAppend(s: string, u: string, t: string)
    requires Contains(s, t)
    ensures Contains(s + u, t)
    decreases |s|
  {
    if s[..|t|] == t {
      assert (s + u)[..|t|] == t;
    } else {
      assert (s + u)[1..] == s[1..] + u;
      ContainsAppend(s[1..], u, t);
    }
  }
}
