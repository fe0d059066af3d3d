/** The action space both games build in `configure`: each action string of
    the action list mapped to its position in the list. */
module ActionSpaces {
  import opened Cards

  /** `action_space`: each action mapped to the length of the list before it was appended. */
  function ActionSpace(list: seq<string>): map<string, nat>
    decreases |list|
  {
    if |list| == 0 then map[] else ActionSpace(list[..|list| - 1])[list[|list| - 1] := |list| - 1]
  }

  /** For a list without repetitions, the space maps every action to its position. */
  lemma {:induction false} ActionSpaceIndexes(list: seq<string>)
    requires Distinct(list)
    ensures ActionSpace(list).Keys == Elements(list)
    ensures forall i | 0 <= i < |list| :: ActionSpace(list)[list[i]] == i
    decreases |list|
  {
    if |list| > 0 {
      var init := list[..|list| - 1];
      assert Distinct(init);
      ActionSpaceIndexes(init);
      assert list == init + [list[|list| - 1]];
    }
  }
}
