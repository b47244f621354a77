/**
 * The few `java.lang.String` operations the transpiler relies on, written
 * over `seq<char>`.
 */
module JavaStrings {

  predicate StartsWith(s: string, prefix: string) {
    |prefix| <= |s| && s[..|prefix|] == prefix
  }

  /** `s.contains(sub)`: some position of `s` starts an occurrence of `sub`. */
  predicate Contains(s: string, sub: string)
    decreases |s|
  {
    StartsWith(s, sub) || (|s| > 0 && Contains(s[1..], sub))
  }

  /** `sub` occurs in `s` starting at index `i`. */
  predicate OccursAt(s: string, sub: string, i: int) {
    0 <= i <= |s| - |sub| && s[i..i + |sub|] == sub
  }

  /** `Contains` agrees with the positional reading of "occurs somewhere in". */
  lemma {:induction false} ContainsAt(s: string, sub: string)
    ensures Contains(s, sub) <==> exists i :: OccursAt(s, sub, i)
    decreases |s|
  {
    if StartsWith(s, sub) {
      assert OccursAt(s, sub, 0);
    }
    if |s| > 0 {
      ContainsAt(s[1..], sub);
      if Contains(s[1..], sub) {
        var i :| OccursAt(s[1..], sub, i);
        assert s[1..][i..i + |sub|] == s[i + 1..i + 1 + |sub|];
        assert OccursAt(s, sub, i + 1);
      }
      if exists i :: OccursAt(s, sub, i) {
        var i :| OccursAt(s, sub, i);
        if i > 0 {
          assert s[1..][i - 1..i - 1 + |sub|] == s[i..i + |sub|];
          assert OccursAt(s[1..], sub, i - 1);
        } else {
          assert StartsWith(s, sub);
        }
      }
    } else {
      if exists i :: OccursAt(s, sub, i) {
        var i :| OccursAt(s, sub, i);
        assert i == 0 && s[..|sub|] == s[i..i + |sub|];
      }
    }
  }

  /**
   * `s.replace(target, "")`: deletes every occurrence of `target`, found
   * left to right without overlap; the text left behind is not re-scanned.
   */
  function DeleteAll(s: string, target: string): (r: string)
    requires |target| > 0
    ensures |r| <= |s|
    decreases |s|
  {
    if |s| == 0 then ""
    else if StartsWith(s, target) then DeleteAll(s[|target|..], target)
    else [s[0]] + DeleteAll(s[1..], target)
  }

  /** Deleting an absent target changes nothing. */
  lemma {:induction false} DeleteAllAbsent(s: string, target: string)
    requires |target| > 0 && !Contains(s, target)
    ensures DeleteAll(s, target) == s
    decreases |s|
  {
    if |s| > 0 {
      DeleteAllAbsent(s[1..], target);
    }
  }

  /** The characters `String.trim` removes: code points up to U+0020. */
  predicate IsTrimmed(c: char) {
    c <= ' '
  }

  /** Leading trimmable characters removed: the longest suffix starting with a kept character. */
  function TrimStart(s: string): (r: string)
    ensures |r| <= |s| && r == s[|s| - |r|..]
    ensures r == [] || !IsTrimmed(r[0])
    ensures forall i :: 0 <= i < |s| - |r| ==> IsTrimmed(s[i])
    decreases |s|
  {
    if |s| > 0 && IsTrimmed(s[0]) then TrimStart(s[1..]) else s
  }

  /** Trailing trimmable characters removed: the longest prefix ending with a kept character. */
  function TrimEnd(s: string): (r: string)
    ensures |r| <= |s| && r == s[..|r|]
    ensures r == [] || !IsTrimmed(r[|r| - 1])
    ensures forall i :: |r| <= i < |s| ==> IsTrimmed(s[i])
    decreases |s|
  {
    if |s| > 0 && IsTrimmed(s[|s| - 1]) then TrimEnd(s[..|s| - 1]) else s
  }

  /** `s.trim()`. */
  function Trim(s: string): string {
    TrimEnd(TrimStart(s))
  }

  /** A string with no trimmable character is its own trim. */
  lemma TrimUntrimmable(s: string)
    requires forall i :: 0 <= i < |s| ==> !IsTrimmed(s[i])
    ensures Trim(s) == s
  {
    if |s| > 0 {
      assert !IsTrimmed(s[0]) && !IsTrimmed(s[|s| - 1]);
    }
    assert TrimStart(s) == s;
    assert TrimEnd(s) == s;
  }
}
