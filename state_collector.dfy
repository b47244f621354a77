/**
 * The first pass's lists: every declared name, every transition target,
 * the "current" identifier, and the ordered set of all states they give.
 */
module StateCollector {
  import opened StmTypes
  import opened JavaStrings
  import opened StateNames
  import opened OrderedSet

  /** The `nextState` of each transition that carries one, in order. */
  function Targets(transitions: seq<Transition>): seq<string>
    decreases |transitions|
  {
    if transitions == [] then []
    else
      var t := transitions[|transitions| - 1];
      Targets(transitions[..|transitions| - 1]) + (if t.nextState.Some? then [t.nextState.value] else [])
  }

  /** `stateList`: the name of every item, in order. */
  function Names(items: seq<StateItem>): seq<string>
    decreases |items|
  {
    if items == [] then [] else Names(items[..|items| - 1]) + [items[|items| - 1].state]
  }

  /** `nextStateList`: the targets of every item, item by item. */
  function AllTargets(items: seq<StateItem>): seq<string>
    decreases |items|
  {
    if items == [] then [] else AllTargets(items[..|items| - 1]) + Targets(items[|items| - 1].transitions)
  }

  /**
   * What `current` holds after visiting `targets`: the first one that
   * contains the marker, kept verbatim, or "" when none does.
   */
  function FirstMarked(targets: seq<string>): (marked: string)
    ensures marked == "" || (marked in targets && Contains(marked, Marker))
    decreases |targets|
  {
    if targets == [] then ""
    else
      var before := FirstMarked(targets[..|targets| - 1]);
      var last := targets[|targets| - 1];
      if before != "" then before else if Contains(last, Marker) then last else ""
  }

  /** What the stream makes of one raw name: its cleaned form, or nothing when that is empty. */
  function CleanOne(name: string): seq<string> {
    var c := Clean(name);
    if c == "" then [] else [c]
  }

  /** The stream over the raw names: marker deleted, trimmed, empty names dropped. */
  function CleanAll(names: seq<string>): seq<string>
    decreases |names|
  {
    if names == [] then [] else CleanAll(names[..|names| - 1]) + CleanOne(names[|names| - 1])
  }

  /**
   * `allStateSet`: the raw declared names, then the raw targets, put in a
   * `LinkedHashSet`; that set cleaned by the stream and collected into a
   * second `LinkedHashSet`.
   */
  function AllStateSet(stateList: seq<string>, nextStateList: seq<string>): seq<string> {
    Dedup(CleanAll(AddAll(AddAll([], stateList), nextStateList)))
  }

  /**
   * `collectNextStates`: appends the targets of one item to `nextStateList`
   * and records the first marked target in `current` while it is empty.
   */
  method CollectNextStates(transitions: seq<Transition>, nextStateList: seq<string>, current: string)
    returns (collected: seq<string>, found: string)
    ensures collected == nextStateList + Targets(transitions)
    ensures found == if current == "" then FirstMarked(Targets(transitions)) else current
  {
    collected, found := nextStateList, current;
    var k := 0;
    while k < |transitions|
      invariant 0 <= k <= |transitions|
      invariant collected == nextStateList + Targets(transitions[..k])
      invariant found == if current == "" then FirstMarked(Targets(transitions[..k])) else current
    {
      var t := transitions[k];
      assert transitions[..k + 1][..k] == transitions[..k];
      assert Targets(transitions[..k + 1]) ==
        Targets(transitions[..k]) + (if t.nextState.Some? then [t.nextState.value] else []);
      if t.nextState.Some? {
        var nextState := t.nextState.value;
        FirstMarkedSnoc(Targets(transitions[..k]), nextState);
        collected := collected + [nextState];
        if Contains(nextState, Marker) && found == "" {
          found := nextState;
        }
      } else {
        assert Targets(transitions[..k + 1]) == Targets(transitions[..k]);
      }
      k := k + 1;
    }
    assert transitions[..k] == transitions;
  }

  lemma FirstMarkedSnoc(targets: seq<string>, last: string)
    ensures FirstMarked(targets + [last]) ==
              if FirstMarked(targets) != "" then FirstMarked(targets)
              else if Contains(last, Marker) then last else ""
  {
    assert (targets + [last])[..|targets|] == targets;
  }

  lemma ContainsIsLongEnough(s: string, sub: string)
    ensures Contains(s, sub) ==> |s| >= |sub|
  {
    ContainsAt(s, sub);
  }

  /** `current` is kept once set: the marked targets of a later item do not replace it. */
  lemma {:induction false} FirstMarkedAppend(a: seq<string>, b: seq<string>)
    ensures FirstMarked(a + b) == if FirstMarked(a) != "" then FirstMarked(a) else FirstMarked(b)
    decreases |b|
  {
    if b == [] {
      assert a + b == a;
    } else {
      var b' := b[..|b| - 1];
      assert (a + b)[..|a + b| - 1] == a + b';
      FirstMarkedAppend(a, b');
    }
  }

  /**
   * The current identifier is "" exactly when no target carries the marker;
   * otherwise it is the first target that does, verbatim.
   */
  lemma {:induction false} FirstMarkedIsFirst(targets: seq<string>)
    ensures FirstMarked(targets) == "" <==> forall i :: 0 <= i < |targets| ==> !Contains(targets[i], Marker)
    ensures FirstMarked(targets) != "" ==>
              exists k :: 0 <= k < |targets| && targets[k] == FirstMarked(targets) && Contains(targets[k], Marker)
                       && forall i :: 0 <= i < k ==> !Contains(targets[i], Marker)
    decreases |targets|
  {
    if targets != [] {
      var init, last := targets[..|targets| - 1], targets[|targets| - 1];
      FirstMarkedIsFirst(init);
      ContainsIsLongEnough(last, Marker);
      if FirstMarked(init) != "" {
        var k :| 0 <= k < |init| && init[k] == FirstMarked(init) && Contains(init[k], Marker)
                 && forall i :: 0 <= i < k ==> !Contains(init[i], Marker);
        assert targets[k] == init[k];
      } else {
        assert forall i :: 0 <= i < |init| ==> targets[i] == init[i];
      }
    }
  }

  /** The cleaned list holds the non-empty cleaned forms of the raw names, and only those. */
  lemma CleanAllMembers(names: seq<string>, x: string)
    ensures x in CleanAll(names) <==> x != "" && exists i :: 0 <= i < |names| && Clean(names[i]) == x
  {
    if x in CleanAll(names) {
      CleanedFromSomeName(names, x);
    }
    if x != "" && exists i :: 0 <= i < |names| && Clean(names[i]) == x {
      var i :| 0 <= i < |names| && Clean(names[i]) == x;
      CleanedNameIsListed(names, i);
    }
  }

  lemma {:induction false} CleanedFromSomeName(names: seq<string>, x: string)
    requires x in CleanAll(names)
    ensures x != "" && exists i :: 0 <= i < |names| && Clean(names[i]) == x
    decreases |names|
  {
    var init, last := names[..|names| - 1], names[|names| - 1];
    assert CleanAll(names) == CleanAll(init) + CleanOne(last);
    if x in CleanAll(init) {
      CleanedFromSomeName(init, x);
      var i :| 0 <= i < |init| && Clean(init[i]) == x;
      assert names[i] == init[i];
    } else {
      assert x in CleanOne(last);
      assert Clean(names[|names| - 1]) == x;
    }
  }

  lemma {:induction false} CleanedNameIsListed(names: seq<string>, i: int)
    requires 0 <= i < |names| && Clean(names[i]) != ""
    ensures Clean(names[i]) in CleanAll(names)
    decreases |names|
  {
    var init, last := names[..|names| - 1], names[|names| - 1];
    var c := Clean(names[i]);
    if i < |init| {
      assert names[i] == init[i];
      CleanedNameIsListed(init, i);
      assert c in CleanAll(init);
    } else {
      assert c in CleanOne(last);
    }
  }

  lemma CleanAllSnoc(names: seq<string>, name: string)
    ensures CleanAll(names + [name]) == CleanAll(names) + CleanOne(name)
  {
    assert (names + [name])[..|names|] == names;
  }

  /** Deduplicating the raw names first does not change the cleaned set. */
  lemma {:induction false} DedupCleanDedup(xs: seq<string>)
    ensures Dedup(CleanAll(Dedup(xs))) == Dedup(CleanAll(xs))
    decreases |xs|
  {
    if xs != [] {
      var ys, y := xs[..|xs| - 1], xs[|xs| - 1];
      assert xs == ys + [y];
      DedupCleanDedup(ys);
      DedupSnoc(ys, [y]);
      CleanAllSnoc(ys, y);
      DedupSnoc(CleanAll(ys), CleanOne(y));
      DedupMember(ys, y);
      if y in ys {
        // y adds nothing to the raw set, and its cleaned form is already collected
        assert Dedup(xs) == Dedup(ys);
        if CleanOne(y) != [] {
          var i := IndexOf(ys, y);
          CleanedNameIsListed(ys, i);
          DedupMember(CleanAll(ys), Clean(y));
          assert Insert(Dedup(CleanAll(ys)), Clean(y)) == Dedup(CleanAll(ys));
        }
      } else {
        assert Dedup(xs) == Dedup(ys) + [y];
        CleanAllSnoc(Dedup(ys), y);
        DedupSnoc(CleanAll(Dedup(ys)), CleanOne(y));
      }
    }
  }

  /**
   * The set of all states is the first-occurrence deduplication of the
   * cleaned declared names followed by the cleaned targets.
   */
  lemma AllStateSetIsDedup(stateList: seq<string>, nextStateList: seq<string>)
    ensures AllStateSet(stateList, nextStateList) == Dedup(CleanAll(stateList + nextStateList))
  {
    AddAllConcat([], stateList, nextStateList);
    DedupCleanDedup(stateList + nextStateList);
  }

  /**
   * Every state appears once in the set of all states, and a name is in
   * it exactly when it is the non-empty cleaned form of a declared name or
   * of a target.
   */
  lemma AllStateSetMembers(stateList: seq<string>, nextStateList: seq<string>, x: string)
    ensures NoDuplicates(AllStateSet(stateList, nextStateList))
    ensures x in AllStateSet(stateList, nextStateList) <==>
              x != "" && exists i :: 0 <= i < |stateList + nextStateList| && Clean((stateList + nextStateList)[i]) == x
  {
    AllStateSetIsDedup(stateList, nextStateList);
    var raw := stateList + nextStateList;
    DedupFirstOccurrence(CleanAll(raw));
    AddAllMembers([], CleanAll(raw));
    CleanAllMembers(raw, x);
  }

  /** A target of item `k` is among all the collected targets. */
  lemma {:induction false} TargetCollected(items: seq<StateItem>, k: int, j: int)
    requires 0 <= k < |items| && 0 <= j < |items[k].transitions|
    requires items[k].transitions[j].nextState.Some?
    ensures items[k].transitions[j].nextState.value in AllTargets(items)
    decreases |items|
  {
    var init := items[..|items| - 1];
    if k < |items| - 1 {
      assert init[k] == items[k];
      TargetCollected(init, k, j);
    } else {
      TargetInTargets(items[k].transitions, j);
    }
  }

  lemma {:induction false} TargetInTargets(transitions: seq<Transition>, j: int)
    requires 0 <= j < |transitions| && transitions[j].nextState.Some?
    ensures transitions[j].nextState.value in Targets(transitions)
    decreases |transitions|
  {
    if j < |transitions| - 1 {
      var init := transitions[..|transitions| - 1];
      assert init[j] == transitions[j];
      TargetInTargets(init, j);
    }
  }

  /** The cleaned form of any raw name, when not empty, is in the set of all states. */
  lemma RawNameIsState(stateList: seq<string>, nextStateList: seq<string>, name: string)
    requires name in stateList + nextStateList && Clean(name) != ""
    ensures Clean(name) in AllStateSet(stateList, nextStateList)
  {
    var i := IndexOf(stateList + nextStateList, name);
    AllStateSetMembers(stateList, nextStateList, Clean(name));
  }

  /**
   * Every transition target whose cleaned form is not empty is in the set
   * of all states, as that cleaned form.
   */
  lemma TargetIsState(items: seq<StateItem>, k: int, j: int)
    requires 0 <= k < |items| && 0 <= j < |items[k].transitions|
    requires items[k].transitions[j].nextState.Some?
    requires Clean(items[k].transitions[j].nextState.value) != ""
    ensures Clean(items[k].transitions[j].nextState.value) in AllStateSet(Names(items), AllTargets(items))
  {
    var target := items[k].transitions[j].nextState.value;
    TargetCollected(items, k, j);
    assert target in Names(items) + AllTargets(items);
    RawNameIsState(Names(items), AllTargets(items), target);
  }
}
