/** The JavaScript `String.prototype` operations the editor's key handler
    relies on, with their clamping rules written out: `substring`,
    `lastIndexOf` for a one-character search string, `startsWith`,
    `endsWith`, and `split`/`join` on a one-character separator. */
module JsStrings {

  /** An index clamped into `[0, n]`, as `substring` treats its arguments. */
  function Clamp(i: int, n: nat): (r: nat)
    ensures r <= n
    ensures 0 <= i <= n ==> r == i
    ensures i < 0 ==> r == 0
    ensures n < i ==> r == n
  {
    if i < 0 then 0 else if i > n then n else i
  }

  /** `s.substring(from, to)`: both bounds are clamped to the string, and
      they are swapped when `from` is past `to`. */
  function Substring(s: string, from: int, to: int): (r: string)
    ensures 0 <= from <= to <= |s| ==> r == s[from..to]
    ensures 0 <= to <= from <= |s| ==> r == s[to..from]
    ensures |r| <= |s|
  {
    var a, b := Clamp(from, |s|), Clamp(to, |s|);
    if a <= b then s[a..b] else s[b..a]
  }

  /** `s.substring(from)`: everything from `from` (clamped) to the end. */
  function SubstringFrom(s: string, from: int): (r: string)
    ensures 0 <= from <= |s| ==> r == s[from..]
    ensures from < 0 ==> r == s
    ensures |s| < from ==> r == []
  {
    Substring(s, from, |s|)
  }

  /** The last index below `bound` that holds `c`, or -1 when there is none. */
  function LastIndexBefore(s: string, c: char, bound: nat): (r: int)
    requires bound <= |s|
    ensures -1 <= r < bound
    ensures 0 <= r ==> s[r] == c
    ensures forall k :: r < k < bound ==> s[k] != c
    decreases bound
  {
    if bound == 0 then -1
    else if s[bound - 1] == c then bound - 1
    else LastIndexBefore(s, c, bound - 1)
  }

  /** `s.lastIndexOf(c, position)` for a one-character search string: the
      position is clamped to `[0, |s|]`, so a negative position still
      looks at index 0; with no position given the caller passes `|s|`. */
  function LastIndexOf(s: string, c: char, position: int): (r: int)
    ensures -1 <= r < |s|
    ensures 0 <= r ==> s[r] == c && r <= Clamp(position, |s|)
    ensures forall k :: r < k < |s| && k <= Clamp(position, |s|) ==> s[k] != c
  {
    if |s| == 0 then -1
    else LastIndexBefore(s, c, Clamp(position, |s| - 1) + 1)
  }

  /** `s.startsWith(p)`. */
  predicate StartsWith(s: string, p: string) {
    |p| <= |s| && s[..|p|] == p
  }

  /** `s.endsWith(p)`. */
  predicate EndsWith(s: string, p: string) {
    |p| <= |s| && s[|s| - |p|..] == p
  }

  /** The number of occurrences of `c` in `s`. */
  function Count(s: string, c: char): nat
  {
    if s == [] then 0 else (if s[0] == c then 1 else 0) + Count(s[1..], c)
  }

  /** True when no piece contains the separator. */
  ghost predicate FreeOf(pieces: seq<string>, sep: char) {
    forall i :: 0 <= i < |pieces| ==> sep !in pieces[i]
  }

  /** `s.split(sep)` for a one-character separator: the pieces between
      separators, so the empty string splits into one empty piece and
      there is always one piece more than there are separators. */
  function Split(s: string, sep: char): (r: seq<string>)
    ensures |r| == Count(s, sep) + 1
    ensures FreeOf(r, sep)
    decreases |s|
  {
    if s == [] then [""]
    else if s[0] == sep then [""] + Split(s[1..], sep)
    else
      var rest := Split(s[1..], sep);
      [[s[0]] + rest[0]] + rest[1..]
  }

  /** `pieces.join(sep)`. */
  function Join(pieces: seq<string>, sep: char): string
    decreases |pieces|
  {
    if |pieces| == 0 then ""
    else if |pieces| == 1 then pieces[0]
    else pieces[0] + [sep] + Join(pieces[1..], sep)
  }

  /** Joining the pieces of a split gives back the original string. */
  lemma {:induction false} JoinSplit(s: string, sep: char)
    ensures Join(Split(s, sep), sep) == s
    decreases |s|
  {
    if s == [] {
    } else if s[0] == sep {
      JoinSplit(s[1..], sep);
      var rest := Split(s[1..], sep);
      assert Split(s, sep) == [""] + rest;
      assert ([""] + rest)[1..] == rest;
      assert s == [sep] + s[1..];
    } else {
      JoinSplit(s[1..], sep);
      var rest := Split(s[1..], sep);
      var pieces := [[s[0]] + rest[0]] + rest[1..];
      assert Split(s, sep) == pieces;
      if |rest| == 1 {
        assert Join(pieces, sep) == [s[0]] + rest[0];
        assert s == [s[0]] + s[1..];
      } else {
        assert pieces[1..] == rest[1..];
        assert Join(rest, sep) == rest[0] + [sep] + Join(rest[1..], sep);
        assert Join(pieces, sep) == [s[0]] + rest[0] + [sep] + Join(rest[1..], sep);
        assert s == [s[0]] + s[1..];
      }
    }
  }

  /** Splitting a piece free of the separator followed by more text puts
      that piece in front of the first piece of the rest. */
  lemma {:induction false} SplitPrefix(p: string, t: string, sep: char)
    requires sep !in p
    ensures Split(p + t, sep) == [p + Split(t, sep)[0]] + Split(t, sep)[1..]
    decreases |p|
  {
    if p == [] {
      assert p + t == t;
      var r := Split(t, sep);
      assert p + r[0] == r[0];
      assert [r[0]] + r[1..] == r;
    } else {
      assert (p + t)[0] == p[0];
      assert (p + t)[1..] == p[1..] + t;
      SplitPrefix(p[1..], t, sep);
      assert [p[0]] + (p[1..] + Split(t, sep)[0]) == p + Split(t, sep)[0];
    }
  }

  /** Splitting a join of separator-free pieces gives back those pieces. */
  lemma {:induction false} SplitJoin(pieces: seq<string>, sep: char)
    requires |pieces| >= 1
    requires FreeOf(pieces, sep)
    ensures Split(Join(pieces, sep), sep) == pieces
    decreases |pieces|
  {
    if |pieces| == 1 {
      SplitPrefix(pieces[0], "", sep);
      assert pieces[0] + "" == pieces[0];
    } else {
      var rest := pieces[1..];
      assert FreeOf(rest, sep) by {
        forall i | 0 <= i < |rest| ensures sep !in rest[i] {
          assert rest[i] == pieces[i + 1];
        }
      }
      SplitJoin(rest, sep);
      var tail := [sep] + Join(rest, sep);
      assert Join(pieces, sep) == pieces[0] + tail;
      assert tail[0] == sep && tail[1..] == Join(rest, sep);
      assert Split(tail, sep) == [""] + rest;
      SplitPrefix(pieces[0], tail, sep);
      assert ([""] + rest)[1..] == rest;
      assert pieces[0] + "" == pieces[0];
      assert [pieces[0]] + rest == pieces;
    }
  }

  /** A string holds no occurrence of `c` exactly when its count is zero. */
  lemma {:induction false} CountZero(s: string, c: char)
    ensures Count(s, c) == 0 <==> c !in s
    decreases |s|
  {
    if s != [] {
      CountZero(s[1..], c);
      assert s == [s[0]] + s[1..];
    }
  }

  /** A string splits into a single piece exactly when it holds no
      separator, and that piece is then the whole string. */
  lemma SplitSingle(s: string, sep: char)
    ensures |Split(s, sep)| == 1 <==> sep !in s
    ensures sep !in s ==> Split(s, sep) == [s]
  {
    CountZero(s, sep);
    if sep !in s {
      JoinSplit(s, sep);
    }
  }

  /** A join starts with its first piece. */
  lemma JoinHead(pieces: seq<string>, sep: char)
    requires |pieces| >= 1
    ensures |Join(pieces, sep)| >= |pieces[0]|
    ensures Join(pieces, sep)[..|pieces[0]|] == pieces[0]
  {
  }
}
