/** The compile-time string splitters: pieces between delimiters, and what is left when a part is removed.

Both splitters walk a string from one delimiter to the next; they differ in what counts as a delimiter and how wide
it is. What they share is stated for any search function. */
module Splitters {
  import opened Wrappers

  /** Where a delimiter begins. */
  type Positions = nat -> bool

  /** A search: the first delimiter at or after a position. */
  type Finder = nat -> Option<nat>

  /** `find` finds the first position of `at` from any position on; a delimiter of `width` fits before `n`. */
  ghost predicate Searches(find: Finder, at: Positions, width: nat, n: nat) {
    && width > 0
    && (forall i: nat :: at(i) ==> i + width <= n)
    && (forall i: nat :: FirstFrom(find(i), at, i))
  }

  ghost predicate FirstFrom(found: Option<nat>, at: Positions, i: nat) {
    match found
    case None => forall j: nat | i <= j :: !at(j)
    case Some(k) => i <= k && at(k) && forall j: nat | i <= j < k :: !at(j)
  }

  // ---------------------------------------------------------------- pieces

  /** The pieces of `s` from `from` on. */
  function Pieces(s: string, find: Finder, ghost at: Positions, width: nat, from: nat): (pieces: seq<string>)
    requires Searches(find, at, width, |s|) && from <= |s|
    ensures pieces != []
    decreases |s| - from
  {
    assert FirstFrom(find(from), at, from);
    match find(from)
    case None => [s[from..]]
    case Some(k) => [s[from..k]] + Pieces(s, find, at, width, k + width)
  }

  lemma {:induction false} Regroup(all: seq<string>, done: seq<string>, piece: string, rest: seq<string>)
    requires all == done + ([piece] + rest)
    ensures all == done + [piece] + rest
  {
  }

  /** The first pass: counts the pieces. */
  method CountPieces(s: string, find: Finder, ghost at: Positions, width: nat) returns (count: nat)
    requires Searches(find, at, width, |s|)
    ensures count == |Pieces(s, find, at, width, 0)|
  {
    count := 0;
    var index := 0;
    var found := find(index);
    while found.Some?
      invariant index <= |s| && found == find(index)
      invariant count + |Pieces(s, find, at, width, index)| == |Pieces(s, find, at, width, 0)|
      decreases |s| - index
    {
      assert FirstFrom(find(index), at, index);
      count := count + 1;
      index := found.value + width;
      found := find(index);
    }
    count := count + 1;
  }

  /** The second pass: fills an array of just that size. */
  method FillPieces(s: string, find: Finder, ghost at: Positions, width: nat, count: nat)
    returns (result: array<string>)
    requires Searches(find, at, width, |s|) && count == |Pieces(s, find, at, width, 0)|
    ensures result[..] == Pieces(s, find, at, width, 0)
  {
    result := new string[count](_ => "");
    ghost var all := Pieces(s, find, at, width, 0);
    var iter, start := 0, 0;
    var end := find(0);
    while end.Some?
      invariant start <= |s| && end == find(start)
      invariant iter + |Pieces(s, find, at, width, start)| == count
      invariant all == result[..iter] + Pieces(s, find, at, width, start)
      decreases |s| - start
    {
      assert FirstFrom(find(start), at, start);
      ghost var done := result[..iter];
      Regroup(all, done, s[start..end.value], Pieces(s, find, at, width, end.value + width));
      result[iter] := s[start..end.value];
      assert result[..iter + 1] == done + [s[start..end.value]];
      iter := iter + 1;
      start := end.value + width;
      end := find(start);
    }
    ghost var done := result[..iter];
    result[iter] := s[start..];
    assert result[..] == done + [s[start..]];
  }

  /** Only where the delimiters are and how wide they are matters. */
  lemma {:induction false} SamePieces(
      s: string, find: Finder, at: Positions, find': Finder, at': Positions, width: nat, from: nat)
    requires Searches(find, at, width, |s|) && Searches(find', at', width, |s|) && from <= |s|
    requires forall i: nat :: at(i) == at'(i)
    ensures Pieces(s, find, at, width, from) == Pieces(s, find', at', width, from)
    decreases |s| - from
  {
    assert FirstFrom(find(from), at, from) && FirstFrom(find'(from), at', from);
    if find(from).Some? {
      SamePieces(s, find, at, find', at', width, find(from).value + width);
    }
  }

  // ---------------------------------------------------------------- splitting at a string

  predicate MatchAt(s: string, d: string, i: nat) {
    i + |d| <= |s| && s[i..i + |d|] == d
  }

  function Find(s: string, d: string, from: nat): Option<nat>
    decreases |s| - from
  {
    if from > |s| then None
    else if MatchAt(s, d, from) then Some(from)
    else Find(s, d, from + 1)
  }

  lemma {:induction false} FindIsFirst(s: string, d: string, from: nat)
    ensures FirstFrom(Find(s, d, from), (i: nat) => MatchAt(s, d, i), from)
    decreases |s| - from
  {
    if from <= |s| && !MatchAt(s, d, from) {
      FindIsFirst(s, d, from + 1);
    }
  }

  /** The delimiter positions and the search of the splitter at a string. */
  function Matches(s: string, d: string): Positions {
    (i: nat) => MatchAt(s, d, i)
  }

  function StringFinder(s: string, d: string): Finder {
    (i: nat) => Find(s, d, i)
  }

  lemma {:induction false} StringSearches(s: string, d: string)
    requires d != ""
    ensures Searches(StringFinder(s, d), Matches(s, d), |d|, |s|)
  {
    forall i: nat ensures FirstFrom(StringFinder(s, d)(i), Matches(s, d), i) {
      FindIsFirst(s, d, i);
    }
  }

  /** The pieces of `s` between the occurrences of `d`. */
  function SplitPieces(s: string, d: string): (pieces: seq<string>)
    requires d != ""
    ensures pieces != []
  {
    StringSearches(s, d);
    Pieces(s, StringFinder(s, d), Matches(s, d), |d|, 0)
  }

  method Split(s: string, d: string) returns (result: array<string>)
    requires d != ""
    ensures result[..] == SplitPieces(s, d)
  {
    StringSearches(s, d);
    var find := StringFinder(s, d);
    var count := CountPieces(s, find, Matches(s, d), |d|);
    result := FillPieces(s, find, Matches(s, d), |d|, count);
  }

  // ---------------------------------------------------------------- what the pieces are

  function Join(pieces: seq<string>, d: string): string {
    if pieces == [] then "" else if |pieces| == 1 then pieces[0] else pieces[0] + d + Join(pieces[1..], d)
  }

  lemma {:induction false} JoinCons(piece: string, rest: seq<string>, d: string)
    requires rest != []
    ensures Join([piece] + rest, d) == piece + d + Join(rest, d)
  {
    assert ([piece] + rest)[1..] == rest;
  }

  lemma {:induction false} CutAround(s: string, d: string, from: nat, k: nat)
    requires from <= k && MatchAt(s, d, k)
    ensures s[from..] == s[from..k] + d + s[k + |d|..]
  {
  }

  lemma {:induction false} JoinFrom(s: string, d: string, find: Finder, at: Positions, from: nat)
    requires Searches(find, at, |d|, |s|) && from <= |s|
    requires forall i: nat :: at(i) ==> MatchAt(s, d, i)
    ensures Join(Pieces(s, find, at, |d|, from), d) == s[from..]
    decreases |s| - from
  {
    assert FirstFrom(find(from), at, from);
    if find(from).Some? {
      var k := find(from).value;
      JoinFrom(s, d, find, at, k + |d|);
      JoinCons(s[from..k], Pieces(s, find, at, |d|, k + |d|), d);
      CutAround(s, d, from, k);
    }
  }

  /** Joining the pieces with the delimiter gives the string back. */
  lemma {:induction false} JoinPieces(s: string, d: string)
    requires d != ""
    ensures Join(SplitPieces(s, d), d) == s
  {
    StringSearches(s, d);
    JoinFrom(s, d, StringFinder(s, d), Matches(s, d), 0);
    assert s[0..] == s;
  }

  predicate Contains(s: string, d: string) {
    exists i: nat :: i <= |s| && MatchAt(s, d, i)
  }

  /** To contain a string is to have it between two others. */
  lemma {:induction false} ContainsBetween(a: string, d: string, b: string)
    ensures Contains(a + d + b, d)
  {
    assert (a + d + b)[|a|..|a| + |d|] == d;
    assert MatchAt(a + d + b, d, |a|);
  }

  lemma {:induction false} Contained(s: string, d: string) returns (a: string, b: string)
    requires Contains(s, d)
    ensures s == a + d + b
  {
    var i: nat :| i <= |s| && MatchAt(s, d, i);
    a, b := s[..i], s[i + |d|..];
  }

  lemma {:induction false} SliceOfSlice(s: string, a: nat, b: nat, i: nat, j: nat)
    requires a <= b <= |s| && i <= j <= b - a
    ensures s[a..b][i..j] == s[a + i..a + j]
  {
    forall k | 0 <= k < j - i ensures s[a..b][i..j][k] == s[a + i..a + j][k] {
      assert s[a..b][i + k] == s[a + i + k];
    }
  }

  /** Before the first occurrence there is none. */
  lemma {:induction false} NoneBeforeFirst(s: string, d: string, from: nat, end: nat)
    requires from <= end <= |s| && d != ""
    requires forall i: nat | from <= i < end :: !MatchAt(s, d, i)
    ensures !Contains(s[from..end], d)
  {
    var piece := s[from..end];
    forall j: nat | j <= |piece| ensures !MatchAt(piece, d, j) {
      if j + |d| <= |piece| {
        SliceOfSlice(s, from, end, j, j + |d|);
        assert !MatchAt(s, d, from + j);
      }
    }
  }

  lemma {:induction false} NoneContainsFrom(s: string, d: string, find: Finder, at: Positions, from: nat, i: nat)
    requires Searches(find, at, |d|, |s|) && from <= |s| && i < |Pieces(s, find, at, |d|, from)|
    requires forall j: nat :: at(j) <==> MatchAt(s, d, j)
    ensures !Contains(Pieces(s, find, at, |d|, from)[i], d)
    decreases |s| - from
  {
    assert FirstFrom(find(from), at, from);
    if find(from) == None {
      NoneBeforeFirst(s, d, from, |s|);
      assert s[from..|s|] == s[from..];
    } else if i == 0 {
      NoneBeforeFirst(s, d, from, find(from).value);
    } else {
      NoneContainsFrom(s, d, find, at, find(from).value + |d|, i - 1);
    }
  }

  /** No piece contains the delimiter. */
  lemma {:induction false} NoPieceContains(s: string, d: string, i: nat)
    requires d != "" && i < |SplitPieces(s, d)|
    ensures !Contains(SplitPieces(s, d)[i], d)
  {
    StringSearches(s, d);
    NoneContainsFrom(s, d, StringFinder(s, d), Matches(s, d), 0, i);
  }

  /** The pieces cover `s` from `from` on, and each ends at the first delimiter there is. */
  ghost predicate Leftmost(s: string, d: string, pieces: seq<string>, from: nat)
    decreases |pieces|
  {
    if pieces == [] || from > |s| then false
    else if |pieces| == 1 then s[from..] == pieces[0] && forall j: nat | from <= j :: !MatchAt(s, d, j)
    else
      var k := from + |pieces[0]|;
      && MatchAt(s, d, k) && s[from..k] == pieces[0]
      && (forall j: nat | from <= j < k :: !MatchAt(s, d, j))
      && Leftmost(s, d, pieces[1..], k + |d|)
  }

  lemma {:induction false} UniqueFrom(
      s: string, d: string, find: Finder, at: Positions, pieces: seq<string>, from: nat)
    requires Searches(find, at, |d|, |s|) && from <= |s|
    requires forall j: nat :: at(j) <==> MatchAt(s, d, j)
    ensures Leftmost(s, d, pieces, from) <==> pieces == Pieces(s, find, at, |d|, from)
    decreases |pieces|
  {
    assert FirstFrom(find(from), at, from);
    if |pieces| > 1 {
      assert pieces == [pieces[0]] + pieces[1..];
      if find(from) == Some(from + |pieces[0]|) {
        UniqueFrom(s, d, find, at, pieces[1..], from + |pieces[0]| + |d|);
        assert Pieces(s, find, at, |d|, from)[1..] == Pieces(s, find, at, |d|, from + |pieces[0]| + |d|);
      }
    }
  }

  /** The pieces are the one way to cut the string at leftmost delimiters. (That joining gives the string and no piece
      contains the delimiter would not be enough: "aaa" at "aa" is "", "a" and not "a", "".) */
  lemma {:induction false} PiecesAreUnique(s: string, d: string, pieces: seq<string>)
    requires d != ""
    ensures Leftmost(s, d, pieces, 0) <==> pieces == SplitPieces(s, d)
  {
    StringSearches(s, d);
    UniqueFrom(s, d, StringFinder(s, d), Matches(s, d), pieces, 0);
  }

  // ---------------------------------------------------------------- removing

  function Concat(pieces: seq<string>): string {
    if pieces == [] then "" else pieces[0] + Concat(pieces[1..])
  }

  lemma {:induction false} ConcatCons(piece: string, rest: seq<string>)
    ensures Concat([piece] + rest) == piece + Concat(rest)
  {
    assert ([piece] + rest)[1..] == rest;
  }

  lemma {:induction false} ConcatOne(piece: string)
    ensures Concat([piece]) == piece
  {
    assert [piece][1..] == [];
  }

  /** A string without the occurrences of another: its pieces, put together. */
  function Remove(s: string, d: string): string
    requires d != ""
  {
    Concat(SplitPieces(s, d))
  }

  lemma {:induction false} OneMoreTime(n: int, m: int)
    ensures n * m == (n - 1) * m + m
  {
  }

  lemma {:induction false} LengthFrom(s: string, find: Finder, at: Positions, width: nat, from: nat)
    requires Searches(find, at, width, |s|) && from <= |s|
    ensures var pieces := Pieces(s, find, at, width, from);
      |Concat(pieces)| + (|pieces| - 1) * width == |s| - from
    decreases |s| - from
  {
    assert FirstFrom(find(from), at, from);
    if find(from).Some? {
      var k := find(from).value;
      LengthFrom(s, find, at, width, k + width);
      ConcatCons(s[from..k], Pieces(s, find, at, width, k + width));
      OneMoreTime(|Pieces(s, find, at, width, k + width)|, width);
    } else {
      ConcatOne(s[from..]);
    }
  }

  /** Removing costs one delimiter for every joint. */
  lemma {:induction false} RemovedLength(s: string, d: string)
    requires d != ""
    ensures |Remove(s, d)| == |s| - (|SplitPieces(s, d)| - 1) * |d|
  {
    StringSearches(s, d);
    LengthFrom(s, StringFinder(s, d), Matches(s, d), |d|, 0);
  }

  /** The characters other than c. */
  function Keep(s: string, c: char): string {
    if s == "" then "" else Keep(s[..|s| - 1], c) + (if s[|s| - 1] == c then "" else [s[|s| - 1]])
  }

  lemma {:induction false} KeepNext(s: string, i: nat, c: char)
    requires i < |s|
    ensures Keep(s[..i + 1], c) == Keep(s[..i], c) + (if s[i] == c then "" else [s[i]])
  {
    assert s[..i + 1][..i] == s[..i];
  }

  /** Moves the characters other than c to the front and returns their number. */
  method RemoveChar(a: array<char>, c: char) returns (size: nat)
    modifies a
    ensures size <= a.Length && a[..size] == Keep(old(a[..]), c)
  {
    ghost var s := a[..];
    size := 0;
    for i := 0 to a.Length
      invariant size <= i && a[..size] == Keep(s[..i], c)
      invariant forall j | i <= j < a.Length :: a[j] == s[j]
    {
      KeepNext(s, i, c);
      if a[i] != c {
        ghost var kept := a[..size];
        a[size] := a[i];
        size := size + 1;
        assert a[..size] == kept + [s[i]];
      }
    }
    assert s[..a.Length] == s;
  }

  lemma {:induction false} KeepJoin(s: string, t: string, c: char)
    ensures Keep(s + t, c) == Keep(s, c) + Keep(t, c)
    decreases |t|
  {
    if t == "" {
      assert s + t == s;
    } else {
      assert (s + t)[..|s + t| - 1] == s + t[..|t| - 1];
      KeepJoin(s, t[..|t| - 1], c);
    }
  }

  lemma {:induction false} KeepAll(s: string, c: char)
    requires forall i | 0 <= i < |s| :: s[i] != c
    ensures Keep(s, c) == s
    decreases |s|
  {
    if s != "" {
      KeepAll(s[..|s| - 1], c);
      assert s == s[..|s| - 1] + [s[|s| - 1]];
    }
  }

  /** Where the character does not stand, everything is kept. */
  lemma {:induction false} KeepGap(s: string, c: char, from: nat, end: nat)
    requires from <= end <= |s| && forall i: nat | from <= i < end :: s[i] != c
    ensures Keep(s[from..end], c) == s[from..end]
  {
    KeepAll(s[from..end], c);
  }

  lemma {:induction false} KeepAround(s: string, c: char, from: nat, k: nat)
    requires from <= k < |s| && s[k] == c
    ensures Keep(s[from..], c) == Keep(s[from..k], c) + Keep(s[k + 1..], c)
  {
    assert s[from..] == s[from..k] + ([c] + s[k + 1..]);
    KeepJoin(s[from..k], [c] + s[k + 1..], c);
    KeepJoin([c], s[k + 1..], c);
    assert Keep([c], c) == "";
  }

  lemma {:induction false} KeepFrom(s: string, c: char, find: Finder, at: Positions, from: nat)
    requires Searches(find, at, 1, |s|) && from <= |s|
    requires forall i: nat :: at(i) <==> i < |s| && s[i] == c
    ensures Keep(s[from..], c) == Concat(Pieces(s, find, at, 1, from))
    decreases |s| - from
  {
    assert FirstFrom(find(from), at, from);
    if find(from).Some? {
      var k := find(from).value;
      KeepGap(s, c, from, k);
      KeepFrom(s, c, find, at, k + 1);
      KeepAround(s, c, from, k);
      ConcatCons(s[from..k], Pieces(s, find, at, 1, k + 1));
    } else {
      KeepGap(s, c, from, |s|);
      assert s[from..|s|] == s[from..];
      ConcatOne(s[from..]);
    }
  }

  lemma {:induction false} MatchChar(s: string, c: char, i: nat)
    ensures MatchAt(s, [c], i) <==> i < |s| && s[i] == c
  {
    if i < |s| {
      assert s[i..i + 1] == [s[i]];
    }
  }

  /** Removing a character is removing the string of just that character. */
  lemma {:induction false} RemoveOneChar(s: string, c: char)
    ensures Keep(s, c) == Remove(s, [c])
  {
    StringSearches(s, [c]);
    forall i: nat ensures Matches(s, [c])(i) <==> i < |s| && s[i] == c {
      MatchChar(s, c, i);
    }
    KeepFrom(s, c, StringFinder(s, [c]), Matches(s, [c]), 0);
    assert s[0..] == s;
  }

  // ---------------------------------------------------------------- splitting at characters

  function FindFirstOf(s: string, group: string, from: nat): Option<nat>
    decreases |s| - from
  {
    if from >= |s| then None
    else if s[from] in group then Some(from)
    else FindFirstOf(s, group, from + 1)
  }

  function Members(s: string, group: string): Positions {
    (i: nat) => i < |s| && s[i] in group
  }

  function CharFinder(s: string, group: string): Finder {
    (i: nat) => FindFirstOf(s, group, i)
  }

  lemma {:induction false} FirstOfIsFirst(s: string, group: string, from: nat)
    ensures FirstFrom(FindFirstOf(s, group, from), Members(s, group), from)
    decreases |s| - from
  {
    if from < |s| && s[from] !in group {
      FirstOfIsFirst(s, group, from + 1);
    }
  }

  lemma {:induction false} CharSearches(s: string, group: string)
    ensures Searches(CharFinder(s, group), Members(s, group), 1, |s|)
  {
    forall i: nat ensures FirstFrom(CharFinder(s, group)(i), Members(s, group), i) {
      FirstOfIsFirst(s, group, i);
    }
  }

  /** The pieces of `s` between the characters of `group`. */
  function SplitOfPieces(s: string, group: string): (pieces: seq<string>)
    ensures pieces != []
  {
    CharSearches(s, group);
    Pieces(s, CharFinder(s, group), Members(s, group), 1, 0)
  }

  /** The positions of delimiters from `from` on, counted one by one. */
  function CountFrom(at: Positions, n: nat, from: nat): nat
    decreases n - from
  {
    if from >= n then 0 else (if at(from) then 1 else 0) + CountFrom(at, n, from + 1)
  }

  lemma {:induction false} CountSkips(at: Positions, n: nat, from: nat, k: nat)
    requires from <= k <= n && forall i: nat | from <= i < k :: !at(i)
    ensures CountFrom(at, n, from) == CountFrom(at, n, k)
    decreases k - from
  {
    if from < k {
      CountSkips(at, n, from + 1, k);
    }
  }

  /** Here the first pass counts characters, and still there is just one piece more than there are delimiters. */
  lemma {:induction false} CountsAgree(s: string, find: Finder, at: Positions, from: nat)
    requires Searches(find, at, 1, |s|) && from <= |s|
    ensures |Pieces(s, find, at, 1, from)| == CountFrom(at, |s|, from) + 1
    decreases |s| - from
  {
    assert FirstFrom(find(from), at, from);
    if find(from).Some? {
      CountSkips(at, |s|, from, find(from).value);
      CountsAgree(s, find, at, find(from).value + 1);
    } else {
      CountSkips(at, |s|, from, |s|);
    }
  }

  method SplitOf(s: string, group: string) returns (result: array<string>)
    ensures result[..] == SplitOfPieces(s, group)
  {
    CharSearches(s, group);
    ghost var at := Members(s, group);
    var count := 0;
    for i := 0 to |s|
      invariant count + CountFrom(at, |s|, i) == CountFrom(at, |s|, 0)
    {
      if s[i] in group {
        count := count + 1;
      }
    }
    count := count + 1;
    CountsAgree(s, CharFinder(s, group), at, 0);
    result := FillPieces(s, CharFinder(s, group), at, 1, count);
  }

  /** The pieces are free of the characters of `group`, and between them stands just one of these each time. */
  predicate Separated(s: string, group: string, pieces: seq<string>)
    decreases |pieces|
  {
    if pieces == [] then false
    else
      && (forall i | 0 <= i < |pieces[0]| :: pieces[0][i] !in group)
      && if |pieces| == 1 then s == pieces[0]
         else
           && |pieces[0]| < |s| && s[..|pieces[0]|] == pieces[0] && s[|pieces[0]|] in group
           && Separated(s[|pieces[0]| + 1..], group, pieces[1..])
  }

  lemma {:induction false} NoneInGap(s: string, group: string, from: nat, end: nat)
    requires from <= end <= |s|
    ensures (forall i | from <= i < end :: s[i] !in group)
       <==> forall i | 0 <= i < |s[from..end]| :: s[from..end][i] !in group
  {
    if forall i | 0 <= i < |s[from..end]| :: s[from..end][i] !in group {
      forall i | from <= i < end ensures s[i] !in group {
        assert s[from..end][i - from] == s[i];
      }
    }
  }

  lemma {:induction false} SeparatedFrom(
      s: string, group: string, find: Finder, at: Positions, pieces: seq<string>, from: nat)
    requires Searches(find, at, 1, |s|) && from <= |s|
    requires forall i: nat :: at(i) <==> i < |s| && s[i] in group
    ensures Separated(s[from..], group, pieces) <==> pieces == Pieces(s, find, at, 1, from)
    decreases |pieces|
  {
    if |pieces| == 1 {
      SeparatedOne(s, group, find, at, pieces, from);
    } else if |pieces| > 1 {
      SeparatedMany(s, group, pieces, from);
      SeparatedStep(s, group, find, at, pieces, from);
      var k := from + |pieces[0]|;
      if k < |s| {
        SeparatedFrom(s, group, find, at, pieces[1..], k + 1);
      }
    }
  }

  lemma {:induction false} SeparatedOne(
      s: string, group: string, find: Finder, at: Positions, pieces: seq<string>, from: nat)
    requires Searches(find, at, 1, |s|) && from <= |s| && |pieces| == 1
    requires forall i: nat :: at(i) <==> i < |s| && s[i] in group
    ensures Separated(s[from..], group, pieces) <==> pieces == Pieces(s, find, at, 1, from)
  {
    assert FirstFrom(find(from), at, from);
    NoneInGap(s, group, from, |s|);
    assert s[from..|s|] == s[from..];
  }

  lemma {:induction false} SeparatedMany(s: string, group: string, pieces: seq<string>, from: nat)
    requires from <= |s| && |pieces| > 1
    ensures var k := from + |pieces[0]|;
      Separated(s[from..], group, pieces)
      <==> k < |s| && (forall i | from <= i < k :: s[i] !in group) && s[from..k] == pieces[0] && s[k] in group
           && Separated(s[k + 1..], group, pieces[1..])
  {
    var k := from + |pieces[0]|;
    if k < |s| {
      NoneInGap(s, group, from, k);
      assert s[from..][..|pieces[0]|] == s[from..k] && s[from..][|pieces[0]| + 1..] == s[k + 1..];
    }
  }

  lemma {:induction false} SeparatedStep(
      s: string, group: string, find: Finder, at: Positions, pieces: seq<string>, from: nat)
    requires Searches(find, at, 1, |s|) && from <= |s| && |pieces| > 1
    requires forall i: nat :: at(i) <==> i < |s| && s[i] in group
    ensures var k := from + |pieces[0]|;
      pieces == Pieces(s, find, at, 1, from)
      <==> k < |s| && (forall i | from <= i < k :: s[i] !in group) && s[from..k] == pieces[0] && s[k] in group
           && pieces[1..] == Pieces(s, find, at, 1, k + 1)
  {
    assert FirstFrom(find(from), at, from);
    var k := from + |pieces[0]|;
    assert pieces == [pieces[0]] + pieces[1..];
    if find(from) == Some(k) {
      assert ([s[from..k]] + Pieces(s, find, at, 1, k + 1))[1..] == Pieces(s, find, at, 1, k + 1);
    } else if find(from).Some? {
      var j := find(from).value;
      assert |s[from..j]| == j - from;
    }
  }

  /** The pieces between the characters of a group are the one way to cut the string at just these characters. */
  lemma {:induction false} SplitOfIsUnique(s: string, group: string, pieces: seq<string>)
    ensures Separated(s, group, pieces) <==> pieces == SplitOfPieces(s, group)
  {
    CharSearches(s, group);
    SeparatedFrom(s, group, CharFinder(s, group), Members(s, group), pieces, 0);
    assert s[0..] == s;
  }

  /** Both splitters agree on a single delimiter character. */
  lemma {:induction false} SplittersAgree(s: string, c: char)
    ensures SplitOfPieces(s, [c]) == SplitPieces(s, [c])
  {
    StringSearches(s, [c]);
    CharSearches(s, [c]);
    forall i: nat ensures Members(s, [c])(i) == Matches(s, [c])(i) {
      MatchChar(s, c, i);
    }
    SamePieces(s, CharFinder(s, [c]), Members(s, [c]), StringFinder(s, [c]), Matches(s, [c]), 1, 0);
  }
}
