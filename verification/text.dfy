/**
 * The handful of java.lang.String operations the weather system relies on:
 * `startsWith`, `trim`, `indexOf` and `split` (with its default limit of 0),
 * written over `string` = `seq<char>`.
 */
module Text {
  import opened Base

  /** `s.startsWith(p)`. */
  predicate StartsWith(s: string, p: string) {
    |p| <= |s| && s[..|p|] == p
  }

  /** `String.trim` strips every character whose code is at most U+0020. */
  predicate IsBlank(c: char) {
    c <= ' '
  }

  /** Number of blank characters at the front of `s`. */
  function LeadingBlanks(s: string): (n: nat)
    ensures n <= |s|
    ensures forall k :: 0 <= k < n ==> IsBlank(s[k])
    ensures n < |s| ==> !IsBlank(s[n])
  {
    if |s| == 0 || !IsBlank(s[0]) then 0 else 1 + LeadingBlanks(s[1..])
  }

  /** Number of blank characters at the back of `s`. */
  function TrailingBlanks(s: string): (n: nat)
    ensures n <= |s|
    ensures forall k :: |s| - n <= k < |s| ==> IsBlank(s[k])
    ensures n < |s| ==> !IsBlank(s[|s| - 1 - n])
  {
    if |s| == 0 || !IsBlank(s[|s| - 1]) then 0 else 1 + TrailingBlanks(s[..|s| - 1])
  }

  /**
   * `s.trim()`: the infix of `s` left once the blank margins are gone.  The
   * result starts right after the leading blanks, everything after it is
   * blank, and it neither starts nor ends with a blank.
   */
  function Trim(s: string): (r: string)
    ensures |r| <= |s|
    ensures LeadingBlanks(s) + |r| <= |s| && r == s[LeadingBlanks(s)..LeadingBlanks(s) + |r|]
    ensures forall k :: LeadingBlanks(s) + |r| <= k < |s| ==> IsBlank(s[k])
    ensures |r| > 0 ==> !IsBlank(r[0]) && !IsBlank(r[|r| - 1])
  {
    var t := s[LeadingBlanks(s)..];
    t[..|t| - TrailingBlanks(t)]
  }

  /** Trimming twice is trimming once. */
  lemma TrimIdempotent(s: string)
    ensures Trim(Trim(s)) == Trim(s)
  {
    var r := Trim(s);
    assert LeadingBlanks(r) == 0;
    var t := r[LeadingBlanks(r)..];
    assert t == r;
    assert TrailingBlanks(t) == 0;
  }

  /** A string without blank margins is its own trim. */
  lemma TrimNoMargins(s: string)
    requires |s| > 0 ==> !IsBlank(s[0]) && !IsBlank(s[|s| - 1])
    ensures Trim(s) == s
  {
    assert LeadingBlanks(s) == 0;
    assert s[0..] == s;
    assert TrailingBlanks(s) == 0;
  }

  /** The trim of `s` is `s[i..j]` whenever the text outside `i..j` is blank and the text inside has no blank margins. */
  lemma TrimIs(s: string, i: nat, j: nat)
    requires i <= j <= |s|
    requires forall k :: 0 <= k < i ==> IsBlank(s[k])
    requires forall k :: j <= k < |s| ==> IsBlank(s[k])
    requires i < j ==> !IsBlank(s[i]) && !IsBlank(s[j - 1])
    ensures Trim(s) == s[i..j]
  {
    var r := Trim(s);
    var lead := LeadingBlanks(s);
    if i < j {
      assert lead == i;
    }
  }

  /** `d` occurs in `s` starting at index `i`. */
  predicate OccursAt(s: string, d: string, i: int) {
    0 <= i && i + |d| <= |s| && s[i..i + |d|] == d
  }

  /** `s.indexOf(d)`: the leftmost occurrence of `d` in `s`, or `None` for -1. */
  function IndexOf(s: string, d: string): (r: Option<nat>)
    requires |d| > 0
    ensures r.Some? ==> OccursAt(s, d, r.value)
    ensures r.Some? ==> forall j :: 0 <= j < r.value ==> !OccursAt(s, d, j)
    ensures r.None? ==> forall j :: !OccursAt(s, d, j)
    decreases |s|
  {
    if |s| < |d| then None
    else if s[..|d|] == d then Some(0)
    else
      var rest := IndexOf(s[1..], d);
      assert !OccursAt(s, d, 0);
      forall j | 0 < j
        ensures OccursAt(s, d, j) <==> OccursAt(s[1..], d, j - 1)
      {
        if j + |d| <= |s| {
          assert s[1..][j - 1..j - 1 + |d|] == s[j..j + |d|];
        }
      }
      match rest
      case None => None
      case Some(i) => Some(i + 1)
  }

  /** For a one-character delimiter, an occurrence is just that character. */
  lemma OccursAtChar(s: string, c: char, k: int)
    requires 0 <= k < |s|
    ensures OccursAt(s, [c], k) <==> s[k] == c
  {
    assert s[k..k + 1] == [s[k]];
  }

  /** `s.indexOf(c)` is the first index holding `c`. */
  lemma IndexOfChar(s: string, c: char, i: nat)
    requires i < |s| && s[i] == c
    requires forall k :: 0 <= k < i ==> s[k] != c
    ensures IndexOf(s, [c]) == Some(i)
  {
    OccursAtChar(s, c, i);
    forall k | 0 <= k < i ensures !OccursAt(s, [c], k) {
      OccursAtChar(s, c, k);
    }
  }

  /** `s.indexOf(c)` is -1 when no index holds `c`. */
  lemma IndexOfCharAbsent(s: string, c: char)
    requires forall k :: 0 <= k < |s| ==> s[k] != c
    ensures IndexOf(s, [c]) == None
  {
    if IndexOf(s, [c]).Some? {
      OccursAtChar(s, c, IndexOf(s, [c]).value);
    }
  }

  /** `s.contains(d)`. */
  predicate Contains(s: string, d: string)
    requires |d| > 0
  {
    IndexOf(s, d).Some?
  }

  /** `d` repeated `n` times. */
  function Repeat(d: string, n: nat): (r: string)
    ensures |r| == n * |d|
  {
    if n == 0 then "" else d + Repeat(d, n - 1)
  }

  /** The fields separated by `d`, in order, glued back together with `d`. */
  function Join(parts: seq<string>, d: string): string
    requires |parts| > 0
  {
    if |parts| == 1 then parts[0] else parts[0] + d + Join(parts[1..], d)
  }

  /**
   * Every field of `s` between leftmost, non-overlapping occurrences of `d`,
   * trailing empty fields included.  Joining them with `d` gives `s` back,
   * and no field contains `d`.
   */
  function SplitAll(s: string, d: string): (parts: seq<string>)
    requires |d| > 0
    ensures |parts| > 0
    ensures Join(parts, d) == s
    ensures forall k :: 0 <= k < |parts| ==> !Contains(parts[k], d)
    decreases |s|
  {
    match IndexOf(s, d)
    case None => [s]
    case Some(i) =>
      var head := s[..i];
      assert !Contains(head, d) by {
        forall j | OccursAt(head, d, j) ensures false {
          assert s[j..j + |d|] == head[j..j + |d|];
          assert OccursAt(s, d, j);
        }
      }
      var tail := SplitAll(s[i + |d|..], d);
      assert s == head + d + s[i + |d|..] by {
        assert s[i..i + |d|] == d;
      }
      [head] + tail
  }

  /** Drops the empty strings at the end of `parts`. */
  function DropTrailingEmpty(parts: seq<string>): (r: seq<string>)
    ensures |r| <= |parts| && r == parts[..|r|]
    ensures |r| > 0 ==> r[|r| - 1] != ""
    ensures forall k :: |r| <= k < |parts| ==> parts[k] == ""
  {
    if |parts| == 0 || parts[|parts| - 1] != "" then parts
    else DropTrailingEmpty(parts[..|parts| - 1])
  }

  /**
   * `s.split(d)` for a delimiter that is matched literally: the whole string
   * when `d` does not occur, otherwise the fields between occurrences with the
   * trailing empty ones removed (so the array can even be empty).
   */
  function JavaSplit(s: string, d: string): (parts: seq<string>)
    requires |d| > 0
    ensures !Contains(s, d) ==> parts == [s]
    ensures Contains(s, d) ==> |parts| <= |SplitAll(s, d)| && parts == SplitAll(s, d)[..|parts|]
    ensures Contains(s, d) && |parts| > 0 ==> parts[|parts| - 1] != ""
    ensures Contains(s, d) ==> forall k :: |parts| <= k < |SplitAll(s, d)| ==> SplitAll(s, d)[k] == ""
  {
    if !Contains(s, d) then [s] else DropTrailingEmpty(SplitAll(s, d))
  }

  predicate AllEmpty(parts: seq<string>) {
    forall k :: 0 <= k < |parts| ==> parts[k] == ""
  }

  /** A run of delimiters splits into nothing but empty fields. */
  lemma {:induction false} RunSplitsEmpty(d: string, n: nat)
    requires |d| > 0
    ensures AllEmpty(SplitAll(Repeat(d, n), d))
  {
    var s := Repeat(d, n);
    if n > 0 {
      assert s[..|d|] == d;
      assert IndexOf(s, d) == Some(0);
      assert s[|d|..] == Repeat(d, n - 1);
      RunSplitsEmpty(d, n - 1);
      assert SplitAll(s, d) == [""] + SplitAll(Repeat(d, n - 1), d);
    }
  }

  /** A string that splits into nothing but empty fields is a run of delimiters. */
  lemma {:induction false} EmptySplitIsRun(s: string, d: string) returns (n: nat)
    requires |d| > 0
    requires AllEmpty(SplitAll(s, d))
    ensures s == Repeat(d, n)
    decreases |s|
  {
    match IndexOf(s, d)
    case None =>
      assert SplitAll(s, d) == [s];
      n := 0;
    case Some(i) =>
      var rest := s[i + |d|..];
      var tail := SplitAll(rest, d);
      assert SplitAll(s, d) == [s[..i]] + tail;
      assert s[..i] == SplitAll(s, d)[0] == "";
      assert i == 0;
      forall k | 0 <= k < |tail| ensures tail[k] == "" {
        assert tail[k] == SplitAll(s, d)[k + 1];
      }
      var m := EmptySplitIsRun(rest, d);
      assert s[..|d|] == d;
      assert s == s[..|d|] + rest;
      n := m + 1;
  }

  /** All fields of a split are empty exactly when the string is a run of delimiters. */
  lemma AllFieldsEmptyIffRun(s: string, d: string)
    requires |d| > 0
    ensures AllEmpty(SplitAll(s, d)) <==> exists n: nat :: s == Repeat(d, n)
  {
    if AllEmpty(SplitAll(s, d)) {
      var n := EmptySplitIsRun(s, d);
    }
    if exists n: nat :: s == Repeat(d, n) {
      var n: nat :| s == Repeat(d, n);
      RunSplitsEmpty(d, n);
    }
  }

  /** A run of at least one delimiter starts with the delimiter. */
  lemma RunStartsWithDelimiter(d: string, n: nat)
    requires |d| > 0 && n >= 1
    ensures OccursAt(Repeat(d, n), d, 0)
  {
    assert Repeat(d, n)[..|d|] == d;
  }

  /** Once `d` occurs, `split` returns nothing exactly when every field is empty. */
  lemma SplitEmptyIffAllEmpty(s: string, d: string)
    requires |d| > 0 && Contains(s, d)
    ensures |JavaSplit(s, d)| == 0 <==> AllEmpty(SplitAll(s, d))
  {
    var parts := JavaSplit(s, d);
    var all := SplitAll(s, d);
    if |parts| > 0 {
      assert all[|parts| - 1] == parts[|parts| - 1] != "";
    }
  }

  /**
   * `s.split(d)[0]`: the array is empty exactly when `s` is one or more
   * delimiters in a row; otherwise its first element is the text before the
   * first occurrence of `d`, or all of `s` when `d` does not occur.
   */
  lemma SplitHead(s: string, d: string)
    requires |d| > 0
    ensures |JavaSplit(s, d)| == 0 <==> exists n: nat :: n >= 1 && s == Repeat(d, n)
    ensures |JavaSplit(s, d)| > 0 ==>
      JavaSplit(s, d)[0] == match IndexOf(s, d) case None => s case Some(i) => s[..i]
  {
    var parts := JavaSplit(s, d);
    match IndexOf(s, d)
    case None =>
      assert parts == [s];
      forall n: nat | n >= 1 ensures s != Repeat(d, n) {
        RunStartsWithDelimiter(d, n);
      }
    case Some(i) =>
      SplitEmptyIffAllEmpty(s, d);
      AllFieldsEmptyIffRun(s, d);
      if exists n: nat :: s == Repeat(d, n) {
        var n: nat :| s == Repeat(d, n);
        assert |s| >= |d|;
        assert n >= 1 && s == Repeat(d, n);
      }
      if |parts| > 0 {
        assert SplitAll(s, d) == [s[..i]] + SplitAll(s[i + |d|..], d);
        assert parts[0] == SplitAll(s, d)[0];
      }
  }

  /** `t` has some character other than `c`. */
  predicate HasOther(t: string, c: char) {
    exists k :: 0 <= k < |t| && t[k] != c
  }

  /** Splitting at the first `c`, at `j`: the text before it, which has no `c`, then the fields of the rest. */
  lemma SplitAtChar(t: string, c: char, j: nat)
    requires IndexOf(t, [c]) == Some(j)
    ensures j < |t| && t[j] == c
    ensures forall k :: 0 <= k < j ==> t[k] != c
    ensures SplitAll(t, [c]) == [t[..j]] + SplitAll(t[j + 1..], [c])
  {
    OccursAtChar(t, c, j);
    forall k | 0 <= k < j ensures t[k] != c {
      OccursAtChar(t, c, k);
    }
  }

  /** A character other than `c` leaves some field of the split non-empty. */
  lemma {:induction false} OtherMakesField(t: string, c: char)
    requires HasOther(t, c)
    ensures !AllEmpty(SplitAll(t, [c]))
    decreases |t|
  {
    var parts := SplitAll(t, [c]);
    match IndexOf(t, [c])
    case None =>
      assert parts == [t];
      assert parts[0] != "";
    case Some(j) =>
      SplitAtChar(t, c, j);
      var rest := t[j + 1..];
      var tail := SplitAll(rest, [c]);
      var k :| 0 <= k < |t| && t[k] != c;
      if k < j {
        assert parts[0] != "";
      } else {
        assert rest[k - j - 1] != c;
        OtherMakesField(rest, c);
        var m :| 0 <= m < |tail| && tail[m] != "";
        assert parts[m + 1] != "";
      }
  }

  /** A non-empty field of the split has a character other than `c` in it. */
  lemma {:induction false} FieldHasOther(t: string, c: char)
    requires !AllEmpty(SplitAll(t, [c]))
    ensures HasOther(t, c)
    decreases |t|
  {
    var parts := SplitAll(t, [c]);
    var k :| 0 <= k < |parts| && parts[k] != "";
    match IndexOf(t, [c])
    case None =>
      assert parts == [t];
      OccursAtChar(t, c, 0);
      assert t[0] != c;
    case Some(j) =>
      SplitAtChar(t, c, j);
      var rest := t[j + 1..];
      var tail := SplitAll(rest, [c]);
      if k == 0 {
        assert |t[..j]| > 0;
        assert t[0] != c;
      } else {
        assert tail[k - 1] == parts[k];
        FieldHasOther(rest, c);
        var m :| 0 <= m < |rest| && rest[m] != c;
        assert t[j + 1 + m] != c;
      }
  }

  /** Splitting on one character leaves a non-empty field exactly when some other character occurs. */
  lemma SplitCharAllEmpty(t: string, c: char)
    ensures !AllEmpty(SplitAll(t, [c])) <==> HasOther(t, c)
  {
    if HasOther(t, c) {
      OtherMakesField(t, c);
    }
    if !AllEmpty(SplitAll(t, [c])) {
      FieldHasOther(t, c);
    }
  }
}
