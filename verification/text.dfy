/** The Python 2 `str` operations the script relies on: `find`, slicing,
    `strip`, `split`, `join` and `replace`.

    A Python 2 `str` is a byte string; here it is a `string` (a `seq<char>`),
    and no operation below looks at more than one character at a time, so the
    two agree character for character.
 */
module Text {

  /** The characters C's `isspace` accepts, which `str.strip()` removes:
      space, tab, line feed, vertical tab, form feed and carriage return. */
  const Whitespace: set<char> := {' ', '\t', '\n', '\U{0B}', '\U{0C}', '\r'}

  /** `w` occurs in `s` starting at index `i`. */
  predicate OccursAt(s: string, w: string, i: int)
  {
    0 <= i && i + |w| <= |s| && s[i..i + |w|] == w
  }

  /** `w` is a substring of `s` (Python's `w in s`). */
  predicate Contains(s: string, w: string)
  {
    exists i | 0 <= i <= |s| - |w| :: OccursAt(s, w, i)
  }

  /** Every character of `s` belongs to `cs`. */
  predicate AllIn(s: string, cs: set<char>)
  {
    forall k :: 0 <= k < |s| ==> s[k] in cs
  }

  // ---------------------------------------------------------------------------
  // str.find
  // ---------------------------------------------------------------------------

  /** The lowest index at or after `i` where `w` occurs in `s`, or -1. */
  function FindFrom(s: string, w: string, i: nat): (r: int)
    ensures r == -1 || (i <= r && OccursAt(s, w, r))
    ensures forall j :: i <= j && (r == -1 || j < r) ==> !OccursAt(s, w, j)
    decreases |s| - i
  {
    if i + |w| > |s| then -1
    else if s[i..i + |w|] == w then i
    else FindFrom(s, w, i + 1)
  }

  /** Python's `s.find(w)`: the lowest index where `w` occurs, or -1 when it
      does not occur at all. */
  function Find(s: string, w: string): (r: int)
    ensures r == -1 <==> !Contains(s, w)
    ensures r != -1 ==> OccursAt(s, w, r)
    ensures forall j :: 0 <= j < r ==> !OccursAt(s, w, j)
  {
    FindFrom(s, w, 0)
  }

  // ---------------------------------------------------------------------------
  // Slicing
  // ---------------------------------------------------------------------------

  /** How Python normalises one bound of `s[lo:hi]` for a sequence of length
      `n`: a negative bound counts from the end, and the result is clamped to
      `0..n`. */
  function SliceBound(i: int, n: nat): (b: nat)
    ensures b <= n
    ensures 0 <= i <= n ==> b == i
    ensures i < 0 && 0 <= i + n ==> b == i + n
    ensures i + n < 0 ==> b == 0
    ensures n < i ==> b == n
  {
    if i < 0 then (if i + n < 0 then 0 else i + n)
    else if i > n then n
    else i
  }

  /** Python's `s[lo:hi]`: empty when the normalised bounds cross. */
  function Slice(s: string, lo: int, hi: int): (r: string)
    ensures |r| <= |s|
    ensures 0 <= lo <= hi <= |s| ==> r == s[lo..hi]
    ensures 0 <= hi <= lo ==> r == []
    ensures -|s| <= hi < 0 && 0 <= lo <= |s| + hi ==> r == s[lo..|s| + hi]
    ensures hi < -|s| ==> r == []
    ensures hi < 0 && 0 <= |s| + hi <= lo ==> r == []
  {
    var a := SliceBound(lo, |s|);
    var b := SliceBound(hi, |s|);
    if a < b then s[a..b] else []
  }

  // ---------------------------------------------------------------------------
  // str.strip
  // ---------------------------------------------------------------------------

  /** What is left after dropping every leading character in `cs`; this is
      how `int()` skips the whitespace between a sign and the digits. */
  function TrimStart(s: string, cs: set<char>): (r: string)
    ensures |r| <= |s|
    ensures |r| > 0 ==> r[0] !in cs
    decreases |s|
  {
    if |s| > 0 && s[0] in cs then TrimStart(s[1..], cs) else s
  }

  /** Leading characters from `cs` make no difference to `TrimStart`. */
  lemma {:induction false} TrimStartSkips(lead: string, x: string, cs: set<char>)
    requires AllIn(lead, cs)
    ensures TrimStart(lead + x, cs) == TrimStart(x, cs)
    decreases |lead|
  {
    if |lead| > 0 {
      assert (lead + x)[0] == lead[0];
      assert (lead + x)[1..] == lead[1..] + x;
      TrimStartSkips(lead[1..], x, cs);
    } else {
      assert lead + x == x;
    }
  }

  /** `TrimStart` leaves a suffix, and everything it dropped is in `cs`. */
  lemma {:induction false} TrimStartIsSuffix(s: string, cs: set<char>)
    ensures var r := TrimStart(s, cs);
      |r| <= |s| && r == s[|s| - |r|..] && AllIn(s[..|s| - |r|], cs)
    decreases |s|
  {
    if |s| > 0 && s[0] in cs {
      TrimStartIsSuffix(s[1..], cs);
      var r := TrimStart(s, cs);
      assert r == TrimStart(s[1..], cs);
      assert s[1..][|s| - 1 - |r|..] == s[|s| - |r|..];
      assert s[..|s| - |r|] == [s[0]] + s[1..][..|s| - 1 - |r|];
    }
  }

  /** `r` is the segment of `s` that starts at `i`, and everything of `s`
      before and after that segment is in `cs`. */
  predicate TrimmedAt(s: string, r: string, i: int, cs: set<char>)
  {
    && 0 <= i && i + |r| <= |s| && r == s[i..i + |r|]
    && AllIn(s[..i], cs)
    && AllIn(s[i + |r|..], cs)
  }

  /** Python's `s.strip(cs)`: leading characters in `cs` are dropped, then
      trailing ones, so that the result neither starts nor ends with one. */
  function Strip(s: string, cs: set<char>): (r: string)
    ensures |r| <= |s|
    ensures |r| > 0 ==> r[0] !in cs && r[|r| - 1] !in cs
    decreases |s|
  {
    if |s| > 0 && s[0] in cs then Strip(s[1..], cs)
    else if |s| > 0 && s[|s| - 1] in cs then Strip(s[..|s| - 1], cs)
    else s
  }

  /** A segment trimmed from `s[1..]` is trimmed from `s` when `s[0]` is in `cs`. */
  lemma TrimmedAfterLead(s: string, r: string, i: int, cs: set<char>)
    requires |s| > 0 && s[0] in cs && TrimmedAt(s[1..], r, i, cs)
    ensures TrimmedAt(s, r, i + 1, cs)
  {
    assert s[..i + 1] == [s[0]] + s[1..][..i];
    assert s[i + 1 + |r|..] == s[1..][i + |r|..];
    assert s[i + 1..i + 1 + |r|] == s[1..][i..i + |r|];
  }

  /** A segment trimmed from all of `s` but its last character is trimmed
      from `s` when that character is in `cs`. */
  lemma TrimmedBeforeTrail(s: string, r: string, i: int, cs: set<char>)
    requires |s| > 0 && s[|s| - 1] in cs && TrimmedAt(s[..|s| - 1], r, i, cs)
    ensures TrimmedAt(s, r, i, cs)
  {
    var t := s[..|s| - 1];
    assert s[..i] == t[..i];
    assert s[i..i + |r|] == t[i..i + |r|];
    assert s[i + |r|..] == t[i + |r|..] + [s[|s| - 1]];
  }

  /** What `strip` keeps is a segment of the input, and what it removes on
      either side is drawn from `cs`: the result is the middle of `s` left
      once both ends are trimmed. */
  lemma {:induction false} StripIsTrimmed(s: string, cs: set<char>)
    ensures exists i :: TrimmedAt(s, Strip(s, cs), i, cs)
    decreases |s|
  {
    var r := Strip(s, cs);
    if |s| > 0 && s[0] in cs {
      StripIsTrimmed(s[1..], cs);
      var i :| TrimmedAt(s[1..], r, i, cs);
      TrimmedAfterLead(s, r, i, cs);
    } else if |s| > 0 && s[|s| - 1] in cs {
      StripIsTrimmed(s[..|s| - 1], cs);
      var i :| TrimmedAt(s[..|s| - 1], r, i, cs);
      TrimmedBeforeTrail(s, r, i, cs);
    } else {
      assert TrimmedAt(s, r, 0, cs);
    }
  }

  /** Stripping a segment whose ends are already outside `cs` changes nothing. */
  lemma StripUntouched(s: string, cs: set<char>)
    requires |s| == 0 || (s[0] !in cs && s[|s| - 1] !in cs)
    ensures Strip(s, cs) == s
  {
  }

  /** Leading characters from `cs` make no difference to `Strip`. */
  lemma {:induction false} StripSkipsLead(lead: string, x: string, cs: set<char>)
    requires AllIn(lead, cs)
    ensures Strip(lead + x, cs) == Strip(x, cs)
    decreases |lead|
  {
    if |lead| > 0 {
      assert (lead + x)[0] == lead[0];
      assert (lead + x)[1..] == lead[1..] + x;
      StripSkipsLead(lead[1..], x, cs);
    } else {
      assert lead + x == x;
    }
  }

  /** Trailing characters from `cs` make no difference to `Strip` once the
      text starts outside `cs`. */
  lemma {:induction false} StripSkipsTrail(x: string, trail: string, cs: set<char>)
    requires AllIn(trail, cs)
    requires |x| >= 1 && x[0] !in cs
    ensures Strip(x + trail, cs) == Strip(x, cs)
    decreases |trail|
  {
    if |trail| > 0 {
      var s := x + trail;
      assert s[0] == x[0];
      assert s[|s| - 1] == trail[|trail| - 1];
      assert s[..|s| - 1] == x + trail[..|trail| - 1];
      StripSkipsTrail(x, trail[..|trail| - 1], cs);
    } else {
      assert x + trail == x;
    }
  }

  /** Padding drawn from `cs` on either side is exactly what `Strip` removes
      from a core that starts and ends outside `cs`. */
  lemma StripPadding(lead: string, core: string, trail: string, cs: set<char>)
    requires AllIn(lead, cs) && AllIn(trail, cs)
    requires |core| >= 1 && core[0] !in cs && core[|core| - 1] !in cs
    ensures Strip(lead + core + trail, cs) == core
  {
    assert lead + core + trail == lead + (core + trail);
    StripSkipsLead(lead, core + trail, cs);
    StripSkipsTrail(core, trail, cs);
    StripUntouched(core, cs);
  }

  /** A string made only of characters in `cs` strips to nothing. */
  lemma {:induction false} StripAllIn(s: string, cs: set<char>)
    requires AllIn(s, cs)
    ensures Strip(s, cs) == []
    decreases |s|
  {
    if |s| > 0 {
      StripAllIn(s[1..], cs);
    }
  }

  // ---------------------------------------------------------------------------
  // str.join and str.split
  // ---------------------------------------------------------------------------

  /** Python's `sep.join(parts)`. */
  function Join(sep: string, parts: seq<string>): string
  {
    if |parts| == 0 then []
    else if |parts| == 1 then parts[0]
    else parts[0] + sep + Join(sep, parts[1..])
  }

  /** Python's `s.split(sep)` for a non-empty separator: the pieces between
      the occurrences of `sep` found by scanning left to right, each search
      resuming just after the previous occurrence. */
  function Split(s: string, sep: string): (parts: seq<string>)
    requires |sep| > 0
    ensures |parts| >= 1
    decreases |s|
  {
    if |s| < |sep| then [s]
    else if s[..|sep|] == sep then [[]] + Split(s[|sep|..], sep)
    else
      var rest := Split(s[1..], sep);
      [[s[0]] + rest[0]] + rest[1..]
  }

  /** The first occurrence of `sep` in `part + sep` is the one right after
      `part`: cutting `part` off at that point is what a left-to-right scan
      for `sep` does. */
  predicate CutAtFirst(part: string, sep: string)
  {
    forall j :: 0 <= j < |part| ==> !OccursAt(part + sep, sep, j)
  }

  /** A join of pieces drawn from `cs`, with a separator drawn from `cs`,
      is drawn from `cs`. */
  lemma {:induction false} JoinAllIn(sep: string, parts: seq<string>, cs: set<char>)
    requires AllIn(sep, cs)
    requires forall k :: 0 <= k < |parts| ==> AllIn(parts[k], cs)
    ensures AllIn(Join(sep, parts), cs)
    decreases |parts|
  {
    if |parts| > 1 {
      JoinAllIn(sep, parts[1..], cs);
      var rest := Join(sep, parts[1..]);
      var s := parts[0] + sep + rest;
      forall k | 0 <= k < |s| ensures s[k] in cs {
        if k < |parts[0]| {
        } else if k < |parts[0]| + |sep| {
          assert s[k] == sep[k - |parts[0]|];
        } else {
          assert s[k] == rest[k - |parts[0]| - |sep|];
        }
      }
    }
  }

  /** Extending the first piece of a join extends the joined string. */
  lemma JoinExtendFirst(x: string, sep: string, parts: seq<string>)
    requires |parts| >= 1
    ensures Join(sep, [x + parts[0]] + parts[1..]) == x + Join(sep, parts)
  {
    var ps := [x + parts[0]] + parts[1..];
    assert ps[1..] == parts[1..];
  }

  /** Joining with one more piece at the end. */
  lemma JoinSnoc(sep: string, parts: seq<string>, last: string)
    requires |parts| >= 1
    ensures Join(sep, parts + [last]) == Join(sep, parts) + sep + last
    decreases |parts|
  {
    if |parts| == 1 {
      assert parts + [last] == [parts[0], last];
      assert [parts[0], last][1..] == [last];
    } else {
      assert (parts + [last])[1..] == parts[1..] + [last];
      JoinSnoc(sep, parts[1..], last);
    }
  }

  /** An occurrence in `[c] + t` past index 0 is an occurrence in `t`. */
  lemma OccursShift(c: char, t: string, w: string, j: int)
    requires j >= 1
    ensures OccursAt([c] + t, w, j) <==> OccursAt(t, w, j - 1)
  {
    if j + |w| <= |t| + 1 {
      assert ([c] + t)[j..j + |w|] == t[j - 1..j - 1 + |w|];
    }
  }

  /** The pieces of `Split` joined with `sep` give `s` back. */
  lemma {:induction false} SplitRejoins(s: string, sep: string)
    requires |sep| > 0
    ensures Join(sep, Split(s, sep)) == s
    decreases |s|
  {
    if |s| < |sep| {
    } else if s[..|sep|] == sep {
      var rest := Split(s[|sep|..], sep);
      SplitRejoins(s[|sep|..], sep);
      assert Split(s, sep) == [[]] + rest;
      assert ([[]] + rest)[1..] == rest;
      assert s == sep + s[|sep|..];
    } else {
      SplitRejoins(s[1..], sep);
      JoinExtendFirst([s[0]], sep, Split(s[1..], sep));
      assert s == [s[0]] + s[1..];
    }
  }

  /** A prefix at least as long as `w` starts with `w` exactly when the
      whole text does. */
  lemma OccursAtStartOfPrefix(s: string, p: string, w: string)
    requires |w| <= |p| <= |s| && p == s[..|p|]
    ensures OccursAt(p, w, 0) <==> OccursAt(s, w, 0)
  {
    assert p[..|w|] == s[..|w|];
  }

  /** When no occurrence of `sep` starts a text `s` at its first character,
      and the rest of `s` is a piece cut at the first occurrence followed by
      `sep`, gluing that first character in front of the piece keeps it cut
      there. */
  lemma PrefixKeepsCut(s: string, piece: string, sep: string, tail: string)
    requires |sep| > 0 && |s| >= 1 && !OccursAt(s, sep, 0)
    requires s[1..] == piece + sep + tail
    requires CutAtFirst(piece, sep)
    ensures CutAtFirst([s[0]] + piece, sep)
  {
    var first := [s[0]] + piece;
    forall j | 0 <= j < |first| ensures !OccursAt(first + sep, sep, j) {
      if j == 0 {
        assert first + sep == s[..|first + sep|] by {
          assert s == [s[0]] + (piece + sep + tail);
        }
        OccursAtStartOfPrefix(s, first + sep, sep);
      } else {
        assert first + sep == [s[0]] + (piece + sep);
        OccursShift(s[0], piece + sep, sep, j);
      }
    }
  }

  /** When no occurrence of `sep` starts at index 0 of `s`, an occurrence in
      `s` is one in `s[1..]`. */
  lemma PrefixKeepsClean(s: string, sep: string)
    requires |sep| > 0 && |s| >= 1 && !OccursAt(s, sep, 0)
    requires !Contains(s[1..], sep)
    ensures !Contains(s, sep)
  {
    if Contains(s, sep) {
      var j :| 0 <= j <= |s| - |sep| && OccursAt(s, sep, j);
      assert s == [s[0]] + s[1..];
      OccursShift(s[0], s[1..], sep, j);
    }
  }

  /** Pieces cut by the left-to-right scan: every piece but the last ends
      where the first remaining occurrence of `sep` starts, and the last
      piece holds no `sep` at all. */
  predicate Cuts(parts: seq<string>, sep: string)
  {
    && |parts| >= 1
    && (forall k :: 0 <= k < |parts| - 1 ==> CutAtFirst(parts[k], sep))
    && !Contains(parts[|parts| - 1], sep)
  }

  /** An empty piece in front of scanned pieces keeps them scanned pieces. */
  lemma CutsAfterSeparator(rest: seq<string>, sep: string)
    requires Cuts(rest, sep)
    ensures Cuts([[]] + rest, sep)
  {
    var parts := [[]] + rest;
    forall k | 0 <= k < |parts| - 1 ensures CutAtFirst(parts[k], sep) {
      if k > 0 {
        assert parts[k] == rest[k - 1];
      }
    }
    assert parts[|parts| - 1] == rest[|rest| - 1];
  }

  /** Gluing a character that starts no `sep` onto the first scanned piece
      of the rest keeps the pieces scanned pieces. */
  lemma CutsAfterCharacter(s: string, sep: string, rest: seq<string>)
    requires |sep| > 0 && |s| >= 1 && !OccursAt(s, sep, 0)
    requires Cuts(rest, sep) && Join(sep, rest) == s[1..]
    ensures Cuts([[s[0]] + rest[0]] + rest[1..], sep)
  {
    if |rest| == 1 {
      OnlyPieceKeepsClean(s, sep, rest);
    } else {
      FirstPieceKeepsCut(s, sep, rest);
      CutsWithNewFirst([s[0]] + rest[0], rest, sep);
    }
  }

  /** A single scanned piece stays clean of `sep` once a character that
      starts no `sep` is glued in front of it. */
  lemma OnlyPieceKeepsClean(s: string, sep: string, rest: seq<string>)
    requires |sep| > 0 && |s| >= 1 && !OccursAt(s, sep, 0)
    requires |rest| == 1 && Cuts(rest, sep) && Join(sep, rest) == s[1..]
    ensures Cuts([[s[0]] + rest[0]] + rest[1..], sep)
  {
    assert rest[0] == s[1..];
    PrefixKeepsClean(s, sep);
    assert [s[0]] + s[1..] == s;
    assert [[s[0]] + rest[0]] + rest[1..] == [s];
  }

  /** Replacing the first of several scanned pieces by one that is cut at
      the first occurrence keeps them scanned pieces. */
  lemma CutsWithNewFirst(first: string, rest: seq<string>, sep: string)
    requires |rest| >= 2 && Cuts(rest, sep) && CutAtFirst(first, sep)
    ensures Cuts([first] + rest[1..], sep)
  {
    var parts := [first] + rest[1..];
    forall k | 0 <= k < |parts| - 1 ensures CutAtFirst(parts[k], sep) {
      if k > 0 {
        assert parts[k] == rest[k];
      }
    }
    assert parts[|parts| - 1] == rest[|rest| - 1];
  }

  /** The first of several scanned pieces stays cut at the first occurrence
      once a character that starts no `sep` is glued in front of it. */
  lemma FirstPieceKeepsCut(s: string, sep: string, rest: seq<string>)
    requires |sep| > 0 && |s| >= 1 && !OccursAt(s, sep, 0)
    requires |rest| >= 2 && CutAtFirst(rest[0], sep) && Join(sep, rest) == s[1..]
    ensures CutAtFirst([s[0]] + rest[0], sep)
  {
    var tail := Join(sep, rest[1..]);
    assert s[1..] == rest[0] + sep + tail;
    PrefixKeepsCut(s, rest[0], sep, tail);
  }

  /** `Split` is the left-to-right scan. */
  lemma {:induction false} SplitCuts(s: string, sep: string)
    requires |sep| > 0
    ensures Cuts(Split(s, sep), sep)
    decreases |s|
  {
    if |s| < |sep| {
      assert Split(s, sep) == [s];
    } else if s[..|sep|] == sep {
      SplitCuts(s[|sep|..], sep);
      CutsAfterSeparator(Split(s[|sep|..], sep), sep);
    } else {
      SplitCuts(s[1..], sep);
      SplitRejoins(s[1..], sep);
      CutsAfterCharacter(s, sep, Split(s[1..], sep));
    }
  }

  /** A piece without `sep` in it splits to itself alone. */
  lemma {:induction false} SplitWithoutSeparator(s: string, c: char)
    requires c !in s
    ensures Split(s, [c]) == [s]
    decreases |s|
  {
    if |s| >= 1 {
      assert s[..1] != [c] by { assert s[..1][0] == s[0]; }
      SplitWithoutSeparator(s[1..], c);
      assert [s[0]] + s[1..] == s;
    }
  }

  /** Splitting `p + [c] + x` at `c`, where `p` holds no `c`, cuts off `p`. */
  lemma {:induction false} SplitAtFirstSeparator(p: string, c: char, x: string)
    requires c !in p
    ensures Split(p + [c] + x, [c]) == [p] + Split(x, [c])
    decreases |p|
  {
    var s := p + [c] + x;
    if |p| == 0 {
      assert s[..1] == [c];
      assert s[1..] == x;
    } else {
      assert s[..1] != [c] by { assert s[..1][0] == p[0]; }
      assert s[1..] == p[1..] + [c] + x;
      SplitAtFirstSeparator(p[1..], c, x);
      assert [p[0]] + p[1..] == p;
    }
  }

  /** Split inverts join for a one-character separator that no piece holds. */
  lemma {:induction false} SplitJoin(parts: seq<string>, c: char)
    requires |parts| >= 1
    requires forall k :: 0 <= k < |parts| ==> c !in parts[k]
    ensures Split(Join([c], parts), [c]) == parts
    decreases |parts|
  {
    if |parts| == 1 {
      SplitWithoutSeparator(parts[0], c);
    } else {
      SplitJoin(parts[1..], c);
      SplitAtFirstSeparator(parts[0], c, Join([c], parts[1..]));
      assert [parts[0]] + parts[1..] == parts;
    }
  }

  /** Splitting at a one-character separator gives one piece more than there
      are separators in `s`. */
  lemma {:induction false} SplitCount(s: string, c: char)
    ensures |Split(s, [c])| == 1 + multiset(s)[c]
    decreases |s|
  {
    if |s| >= 1 {
      assert s == [s[0]] + s[1..];
      assert multiset(s)[c] == multiset([s[0]])[c] + multiset(s[1..])[c];
      assert s[..1] == [s[0]];
      assert s[1..] == s[|[c]|..];
      SplitCount(s[1..], c);
    }
  }

  /** An occurrence of a `w` without `c` in `p + [c] + x` lies wholly in `p`
      or wholly in `x`. */
  lemma OccurrenceSide(p: string, c: char, x: string, w: string, j: int)
    requires c !in w && OccursAt(p + [c] + x, w, j)
    ensures OccursAt(p, w, j) || OccursAt(x, w, j - |p| - 1)
  {
    var s := p + [c] + x;
    if j + |w| <= |p| {
      assert p[j..j + |w|] == s[j..j + |w|];
    } else if j >= |p| + 1 {
      assert x[j - |p| - 1..j - |p| - 1 + |w|] == s[j..j + |w|];
    } else {
      StraddleHoldsSeparator(p, c, x, w, j);
    }
  }

  /** An occurrence that covers index `|p|` of `p + [c] + x` holds `c`. */
  lemma StraddleHoldsSeparator(p: string, c: char, x: string, w: string, j: int)
    requires OccursAt(p + [c] + x, w, j) && j <= |p| < j + |w|
    ensures c in w
  {
    assert w[|p| - j] == (p + [c] + x)[|p|];
  }

  /** Occurrences in either side of `p + [c] + x` are occurrences in it. */
  lemma OccurrenceFromSide(p: string, c: char, x: string, w: string)
    ensures Contains(p, w) ==> Contains(p + [c] + x, w)
    ensures Contains(x, w) ==> Contains(p + [c] + x, w)
  {
    var s := p + [c] + x;
    if Contains(p, w) {
      var j :| 0 <= j <= |p| - |w| && OccursAt(p, w, j);
      assert s[j..j + |w|] == p[j..j + |w|];
      assert OccursAt(s, w, j);
    }
    if Contains(x, w) {
      var i :| 0 <= i <= |x| - |w| && OccursAt(x, w, i);
      assert s[|p| + 1 + i..|p| + 1 + i + |w|] == x[i..i + |w|];
      assert OccursAt(s, w, |p| + 1 + i);
    }
  }

  /** For a one-character separator and a `w` without it, `w` occurs in a
      join exactly when it occurs in one of the pieces: no occurrence can
      straddle a separator. */
  lemma {:induction false} ContainsInJoin(parts: seq<string>, c: char, w: string)
    requires |parts| >= 1 && c !in w
    ensures Contains(Join([c], parts), w) <==> exists k :: 0 <= k < |parts| && Contains(parts[k], w)
    decreases |parts|
  {
    if |parts| > 1 {
      var p := parts[0];
      var rest := Join([c], parts[1..]);
      var s := Join([c], parts);
      assert s == p + [c] + rest;
      ContainsInJoin(parts[1..], c, w);
      OccurrenceFromSide(p, c, rest, w);
      if Contains(s, w) {
        var j :| 0 <= j <= |s| - |w| && OccursAt(s, w, j);
        OccurrenceSide(p, c, rest, w, j);
        if !OccursAt(p, w, j) {
          assert Contains(rest, w);
          var k :| 0 <= k < |parts[1..]| && Contains(parts[1..][k], w);
          assert parts[k + 1] == parts[1..][k];
        }
      }
      if exists k :: 0 <= k < |parts| && Contains(parts[k], w) {
        var k :| 0 <= k < |parts| && Contains(parts[k], w);
        if k > 0 {
          assert parts[1..][k - 1] == parts[k];
        }
      }
    }
  }

  /** `c in s` and `Contains(s, [c])` say the same. */
  lemma ContainsChar(s: string, c: char)
    ensures Contains(s, [c]) <==> c in s
  {
    if c in s {
      var i :| 0 <= i < |s| && s[i] == c;
      assert OccursAt(s, [c], i);
    }
    if Contains(s, [c]) {
      var i :| 0 <= i <= |s| - |[c]| && OccursAt(s, [c], i);
      assert s[i] == s[i..i + 1][0];
    }
  }

  // ---------------------------------------------------------------------------
  // str.replace
  // ---------------------------------------------------------------------------

  /** Python's `s.replace('', r)`: `r` before every character and at the end. */
  function InsertAround(s: string, r: string): string
  {
    if |s| == 0 then r else r + [s[0]] + InsertAround(s[1..], r)
  }

  /** Python's `s.replace(target, replacement)`: every occurrence of `target`
      found by a left-to-right scan that resumes after each match is replaced. */
  function Replace(s: string, target: string, replacement: string): (r: string)
    ensures |target| > 0 && !Contains(s, target) ==> r == s
    decreases |s|
  {
    if |target| == 0 then InsertAround(s, replacement)
    else if |s| < |target| then s
    else if s[..|target|] == target then
      assert OccursAt(s, target, 0);
      replacement + Replace(s[|target|..], target, replacement)
    else
      ContainsTail(s, target);
      assert s == [s[0]] + s[1..];
      [s[0]] + Replace(s[1..], target, replacement)
  }

  /** An occurrence in the text after its first character is one in the text. */
  lemma ContainsTail(s: string, w: string)
    requires |s| >= 1
    ensures Contains(s[1..], w) ==> Contains(s, w)
  {
    if Contains(s[1..], w) {
      var j :| 0 <= j <= |s[1..]| - |w| && OccursAt(s[1..], w, j);
      assert s == [s[0]] + s[1..];
      OccursShift(s[0], s[1..], w, j + 1);
    }
  }

  /** Replacing is splitting at `target` and joining with `replacement`: the
      text between the replaced occurrences is the same on both sides. */
  lemma {:induction false} ReplaceIsSplitJoin(s: string, target: string, replacement: string)
    requires |target| > 0
    ensures Replace(s, target, replacement) == Join(replacement, Split(s, target))
    decreases |s|
  {
    if |s| < |target| {
    } else if s[..|target|] == target {
      ReplaceIsSplitJoin(s[|target|..], target, replacement);
      var rest := Split(s[|target|..], target);
      assert Split(s, target) == [[]] + rest;
      assert ([[]] + rest)[1..] == rest;
    } else {
      ReplaceIsSplitJoin(s[1..], target, replacement);
      JoinExtendFirst([s[0]], replacement, Split(s[1..], target));
    }
  }

  /** Replacing a string with itself leaves the text as it was. */
  lemma {:induction false} ReplaceBySelf(s: string, target: string)
    ensures Replace(s, target, target) == s
    decreases |s|
  {
    if |target| == 0 {
      if |s| > 0 {
        ReplaceBySelf(s[1..], target);
        assert [s[0]] + s[1..] == s;
      }
    } else {
      ReplaceIsSplitJoin(s, target, target);
      SplitRejoins(s, target);
    }
  }

  /** Deleting a one-character target looks at one character at a time. */
  lemma DeleteStep(s: string, c: char)
    requires |s| >= 1
    ensures Replace(s, [c], []) == (if s[0] == c then [] else [s[0]]) + Replace(s[1..], [c], [])
  {
    assert s[..1] == [s[0]];
    assert s[1..] == s[|[c]|..];
  }

  /** Replacing with the empty string deletes exactly the occurrences of a
      one-character target: what is left holds no such character, every other
      character is kept, and nothing changes when the character is absent. */
  lemma {:induction false} DeleteChar(s: string, c: char)
    ensures c !in Replace(s, [c], [])
    ensures forall d :: d != c ==> multiset(Replace(s, [c], []))[d] == multiset(s)[d]
    ensures c !in s ==> Replace(s, [c], []) == s
    decreases |s|
  {
    if |s| >= 1 {
      DeleteChar(s[1..], c);
      DeleteStep(s, c);
      assert s == [s[0]] + s[1..];
    }
  }

  /** Deleting a character from a concatenation deletes it from each side. */
  lemma {:induction false} DeleteCharAppend(a: string, b: string, c: char)
    ensures Replace(a + b, [c], []) == Replace(a, [c], []) + Replace(b, [c], [])
    decreases |a|
  {
    if |a| >= 1 {
      var head := if a[0] == c then [] else [a[0]];
      var rest := Replace(a[1..], [c], []);
      var tail := Replace(b, [c], []);
      DeleteCharAppend(a[1..], b, c);
      assert (a + b)[1..] == a[1..] + b;
      assert (a + b)[0] == a[0];
      DeleteStep(a + b, c);
      assert Replace(a + b, [c], []) == head + (rest + tail);
      DeleteStep(a, c);
      assert Replace(a, [c], []) == head + rest;
    } else {
      assert a + b == b;
    }
  }
}
