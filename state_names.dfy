/**
 * State names: the reserved names, the "is current" colour marker the
 * editor appends to a name, and the naming rule every name must obey.
 */
module StateNames {
  import opened JavaStrings

  /** Appended by the editor to the name of the state that is active now. */
  const Marker: string := "#FF5555"
  /** The initial pseudostate. */
  const InitialState: string := "初期状態"
  /** The final pseudostate, drawn as `[*]`. */
  const FinalState: string := "終了状態"
  /** Part of the name of a placeholder state, drawn in red. */
  const UndefinedMark: string := "未定義"

  /**
   * The class `[0-9A-Za-zＡ-Ｚａ-ｚ０-９ぁ-んァ-ヶ一-龥々ー〇]`: ASCII and
   * full-width digits and Latin letters, hiragana, katakana, the CJK block
   * up to U+9FA5, the iteration mark, the long vowel mark and the
   * ideographic zero.
   */
  predicate AllowedChar(c: char) {
    || '0' <= c <= '9'
    || 'A' <= c <= 'Z'
    || 'a' <= c <= 'z'
    || 'Ａ' <= c <= 'Ｚ'
    || 'ａ' <= c <= 'ｚ'
    || '０' <= c <= '９'
    || 'ぁ' <= c <= 'ん'
    || 'ァ' <= c <= 'ヶ'
    || '一' <= c <= '龥'
    || c == '々'
    || c == 'ー'
    || c == '〇'
  }

  /** `name.replace("#FF5555", "")`. */
  function StripMarker(name: string): string {
    DeleteAll(name, Marker)
  }

  /**
   * The naming rule is broken when, once every marker is deleted, some
   * character lies outside the allowed class. Nothing is trimmed first, and
   * the empty name is valid.
   */
  predicate IsInvalidName(name: string) {
    var cleaned := StripMarker(name);
    exists i :: 0 <= i < |cleaned| && !AllowedChar(cleaned[i])
  }

  /** The form a name takes in the set of all states: marker deleted, then trimmed. */
  function Clean(name: string): string {
    Trim(StripMarker(name))
  }

  predicate HasNoHash(name: string) {
    forall i :: 0 <= i < |name| ==> name[i] != '#'
  }

  /** A name that obeys the rule has nothing for `trim` to remove. */
  lemma ValidNameNeedsNoTrim(name: string)
    requires !IsInvalidName(name)
    ensures Clean(name) == StripMarker(name)
  {
    TrimUntrimmable(StripMarker(name));
  }

  /** Without a `#` there is no marker to delete. */
  lemma {:induction false} UnmarkedNameIsKept(name: string)
    requires HasNoHash(name)
    ensures StripMarker(name) == name
  {
    NoHashNoMarker(name);
    DeleteAllAbsent(name, Marker);
  }

  lemma {:induction false} NoHashNoMarker(name: string)
    requires HasNoHash(name)
    ensures !Contains(name, Marker)
    decreases |name|
  {
    if |name| > 0 {
      assert !StartsWith(name, Marker) by {
        assert |name| < |Marker| || name[..|Marker|][0] != Marker[0];
      }
      NoHashNoMarker(name[1..]);
    }
  }

  /**
   * The marker the editor appends to the current state is invisible to the
   * naming rule and to the set of states: stripping gives the plain name back.
   */
  lemma {:induction false} MarkedNameIsPlainName(name: string)
    requires HasNoHash(name)
    ensures StripMarker(name + Marker) == name
    ensures IsInvalidName(name + Marker) <==> IsInvalidName(name)
    decreases |name|
  {
    if |name| == 0 {
      assert name + Marker == Marker;
      assert StartsWith(Marker, Marker);
      assert Marker[|Marker|..] == "";
    } else {
      var s := name + Marker;
      assert !StartsWith(s, Marker) by {
        assert s[..|Marker|][0] == name[0] != Marker[0];
      }
      assert s[1..] == name[1..] + Marker;
      MarkedNameIsPlainName(name[1..]);
      assert StripMarker(s) == [name[0]] + name[1..];
    }
    UnmarkedNameIsKept(name);
  }

  /** The empty name obeys the rule. */
  lemma EmptyNameIsValid()
    ensures !IsInvalidName("")
  {
  }

  /**
   * The rule is checked before anything is trimmed: a leading space breaks
   * it, although the set of all states would hold the trimmed name.
   */
  lemma SpaceIsNotTrimmedBeforeCheck()
    ensures IsInvalidName(" A") && Clean(" A") == "A"
  {
    var s := " A";
    assert !StartsWith(s, Marker);
    assert !StartsWith(s[1..], Marker);
    assert s[1..][1..] == "";
    assert StripMarker(s) == s;
    assert !AllowedChar(StripMarker(s)[0]);
    assert TrimStart(s) == "A";
  }
}
