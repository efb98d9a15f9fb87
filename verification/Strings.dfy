/** Trimming strings. */
module Strings {
  const BLANKS: string := " \t"

  /** Removes characters of `group` from the start; a string of nothing else stays as it is. */
  function TrimLeft(s: string, group: string): string {
    if forall i | 0 <= i < |s| :: s[i] in group then s else DropLeft(s, group)
  }

  function DropLeft(s: string, group: string): string {
    if s == "" || s[0] !in group then s else DropLeft(s[1..], group)
  }

  function TrimRight(s: string, group: string): string {
    if s == "" || s[|s| - 1] !in group then s else TrimRight(s[..|s| - 1], group)
  }

  function Trim(s: string, group: string): string {
    TrimRight(TrimLeft(s, group), group)
  }

  lemma {:induction false} DropLeftStarts(s: string, group: string)
    requires exists i :: 0 <= i < |s| && s[i] !in group
    ensures DropLeft(s, group) != "" && DropLeft(s, group)[0] !in group
    decreases |s|
  {
    if s[0] in group {
      var i :| 0 <= i < |s| && s[i] !in group;
      assert s[1..][i - 1] == s[i];
      DropLeftStarts(s[1..], group);
    }
  }

  lemma {:induction false} TrimRightEnds(s: string, group: string)
    ensures TrimRight(s, group) == "" || TrimRight(s, group)[|TrimRight(s, group)| - 1] !in group
    decreases |s|
  {
    if s != "" && s[|s| - 1] in group {
      TrimRightEnds(s[..|s| - 1], group);
    }
  }

  lemma {:induction false} DropLeftIs(s: string, group: string) returns (left: string)
    ensures s == left + DropLeft(s, group) && forall i | 0 <= i < |left| :: left[i] in group
    decreases |s|
  {
    if s == "" || s[0] !in group {
      left := "";
    } else {
      left := DropLeftIs(s[1..], group);
      left := [s[0]] + left;
      assert s == [s[0]] + s[1..];
    }
  }

  lemma {:induction false} TrimRightIs(s: string, group: string) returns (right: string)
    ensures s == TrimRight(s, group) + right && forall i | 0 <= i < |right| :: right[i] in group
    decreases |s|
  {
    if s == "" || s[|s| - 1] !in group {
      right := "";
    } else {
      right := TrimRightIs(s[..|s| - 1], group);
      right := right + [s[|s| - 1]];
      assert s == s[..|s| - 1] + [s[|s| - 1]];
    }
  }

  lemma {:induction false} TrimRightAll(s: string, group: string)
    requires forall i | 0 <= i < |s| :: s[i] in group
    ensures TrimRight(s, group) == ""
    decreases |s|
  {
    if s != "" {
      TrimRightAll(s[..|s| - 1], group);
    }
  }

  /** Trimming takes characters of the group from both ends, and all of them. */
  lemma {:induction false} TrimIs(s: string, group: string) returns (left: string, right: string)
    ensures s == left + Trim(s, group) + right
    ensures forall i | 0 <= i < |left| :: left[i] in group
    ensures forall i | 0 <= i < |right| :: right[i] in group
    ensures Trim(s, group) != "" ==> Trim(s, group)[0] !in group && Trim(s, group)[|Trim(s, group)| - 1] !in group
  {
    if i :| 0 <= i < |s| && s[i] !in group {
      left := DropLeftIs(s, group);
      DropLeftStarts(s, group);
    } else {
      left := "";
      TrimRightAll(s, group);
    }
    right := TrimRightIs(TrimLeft(s, group), group);
    TrimRightEnds(TrimLeft(s, group), group);
    assert left + (Trim(s, group) + right) == left + Trim(s, group) + right;
  }

  /** Arguments are trimmed of spaces and tabs. */
  lemma {:induction false} TrimBlanks(s: string) returns (left: string, right: string)
    ensures s == left + Trim(s, BLANKS) + right
    ensures forall i | 0 <= i < |left| :: left[i] == ' ' || left[i] == '\t'
    ensures forall i | 0 <= i < |right| :: right[i] == ' ' || right[i] == '\t'
    ensures var t := Trim(s, BLANKS); t != "" ==> t[0] != ' ' && t[0] != '\t' && t[|t| - 1] != ' ' && t[|t| - 1] != '\t'
  {
    left, right := TrimIs(s, BLANKS);
    assert ' ' == BLANKS[0] && '\t' == BLANKS[1];
  }

  /** Trimming once is enough. */
  lemma {:induction false} TrimLeftOnce(s: string, group: string)
    ensures TrimLeft(TrimLeft(s, group), group) == TrimLeft(s, group)
  {
    if i :| 0 <= i < |s| && s[i] !in group {
      DropLeftStarts(s, group);
    }
  }

  /** Trimming the start changes a string exactly if it begins with a character of the group and has others too. */
  lemma {:induction false} TrimLeftKeeps(s: string, group: string)
    ensures TrimLeft(s, group) == s <==> s == "" || s[0] !in group || forall i | 0 <= i < |s| :: s[i] in group
  {
    if i :| 0 <= i < |s| && s[i] !in group {
      DropLeftStarts(s, group);
    }
  }
}
