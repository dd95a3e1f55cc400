/**
 * Groups of text editors (tabs): each group lists the view models it shows
 * and which of them is active.  The reducers return a new collection; a
 * request naming a group that is not registered leaves the collection as it
 * was.
 */
module Groups {
  import opened Keys

  datatype TextEditorGroup = TextEditorGroup(
    groupKey: GroupKey,
    viewModelKeys: seq<ViewModelKey>,
    activeViewModelKey: ViewModelKey)

  datatype TextEditorGroupsCollection = TextEditorGroupsCollection(groupsList: seq<TextEditorGroup>)

  /** The first group with the key, or -1. */
  function IndexOfGroup(groups: seq<TextEditorGroup>, groupKey: GroupKey): (i: int)
    ensures -1 <= i < |groups|
    ensures i >= 0 ==> groups[i].groupKey == groupKey
    ensures forall j :: 0 <= j < |groups| && (i == -1 || j < i) ==> groups[j].groupKey != groupKey
  {
    if |groups| == 0 then -1
    else if groups[0].groupKey == groupKey then 0
    else
      var k := IndexOfGroup(groups[1..], groupKey);
      if k == -1 then -1 else k + 1
  }

  /** The first occurrence of a view-model key, or -1. */
  function IndexOfViewModelKey(keys: seq<ViewModelKey>, key: ViewModelKey): (i: int)
    ensures -1 <= i < |keys|
    ensures i >= 0 ==> keys[i] == key
    ensures i == -1 <==> key !in keys
    ensures forall j :: 0 <= j < |keys| && (i == -1 || j < i) ==> keys[j] != key
  {
    if |keys| == 0 then -1
    else if keys[0] == key then 0
    else
      var k := IndexOfViewModelKey(keys[1..], key);
      if k == -1 then -1 else k + 1
  }

  function GroupKeys(groups: seq<TextEditorGroup>): (keys: seq<GroupKey>)
    ensures |keys| == |groups|
    ensures forall j :: 0 <= j < |groups| ==> keys[j] == groups[j].groupKey
  {
    seq(|groups|, j requires 0 <= j < |groups| => groups[j].groupKey)
  }

  /** No two groups share a key. */
  predicate UniqueGroupKeys(groups: seq<TextEditorGroup>) {
    forall i, j :: 0 <= i < j < |groups| ==> groups[i].groupKey != groups[j].groupKey
  }

  /**
   * Registers a group unless one with its key exists; the new group goes to
   * the end of the list.
   */
  function ReduceRegisterGroup(c: TextEditorGroupsCollection, group: TextEditorGroup): (r: TextEditorGroupsCollection)
    ensures (exists j :: 0 <= j < |c.groupsList| && c.groupsList[j].groupKey == group.groupKey) ==> r == c
    ensures (forall j :: 0 <= j < |c.groupsList| ==> c.groupsList[j].groupKey != group.groupKey) ==>
              r.groupsList == c.groupsList + [group]
  {
    if IndexOfGroup(c.groupsList, group.groupKey) != -1 then c
    else TextEditorGroupsCollection(c.groupsList + [group])
  }

  /**
   * Appends a view model to a group unless it is already there; the first
   * view model of a group becomes its active one.  Only the first group with
   * the key changes.
   */
  function ReduceAddViewModelToGroup(c: TextEditorGroupsCollection, groupKey: GroupKey, viewModelKey: ViewModelKey)
    : (r: TextEditorGroupsCollection)
    ensures GroupKeys(r.groupsList) == GroupKeys(c.groupsList)
    ensures var i := IndexOfGroup(c.groupsList, groupKey);
            i == -1 || viewModelKey in c.groupsList[i].viewModelKeys ==> r == c
    ensures var i := IndexOfGroup(c.groupsList, groupKey);
            i != -1 && viewModelKey !in c.groupsList[i].viewModelKeys ==>
              && (forall j :: 0 <= j < |c.groupsList| && j != i ==> r.groupsList[j] == c.groupsList[j])
              && r.groupsList[i].viewModelKeys == c.groupsList[i].viewModelKeys + [viewModelKey]
              && r.groupsList[i].activeViewModelKey
                 == (if |c.groupsList[i].viewModelKeys| == 0 then viewModelKey else c.groupsList[i].activeViewModelKey)
  {
    var i := IndexOfGroup(c.groupsList, groupKey);
    if i == -1 then c
    else
      var existingGroup := c.groupsList[i];
      if viewModelKey in existingGroup.viewModelKeys then c
      else
        var nextGroup := existingGroup.(viewModelKeys := existingGroup.viewModelKeys + [viewModelKey]);
        var nextGroup' := if |nextGroup.viewModelKeys| == 1 then nextGroup.(activeViewModelKey := viewModelKey) else nextGroup;
        TextEditorGroupsCollection(c.groupsList[i := nextGroup'])
  }

  /**
   * The view model that becomes active when the one at index removedIndex is
   * removed from keys: the next one, or the previous one when the removed one
   * was last, or the empty key when none is left.
   */
  function NextActiveViewModelKey(keys: seq<ViewModelKey>, removedIndex: int): (k: ViewModelKey)
    requires 0 <= removedIndex < |keys|
    ensures |keys| == 1 ==> k == EmptyViewModelKey
    ensures |keys| > 1 ==> k in keys[..removedIndex] + keys[removedIndex + 1..]
    ensures |keys| > 1 ==>
              k == (if removedIndex == |keys| - 1 then keys[removedIndex - 1] else keys[removedIndex + 1])
    ensures var remaining := keys[..removedIndex] + keys[removedIndex + 1..];
            |keys| > 1 ==> k == remaining[if removedIndex == |keys| - 1 then removedIndex - 1 else removedIndex]
  {
    var activeViewModelKeyIndex := if removedIndex >= |keys| - 1 then removedIndex - 1 else removedIndex + 1;
    if |keys| - 1 == 0 then EmptyViewModelKey
    else
      var k := keys[activeViewModelKeyIndex];
      assert if activeViewModelKeyIndex < removedIndex
             then keys[..removedIndex][activeViewModelKeyIndex] == k
             else keys[removedIndex + 1..][activeViewModelKeyIndex - removedIndex - 1] == k;
      k
  }

  /**
   * Removes the first occurrence of a view model from a group and makes a
   * neighbour of it the active view model (whether or not the removed one was
   * active).  Only the first group with the key changes.
   */
  function ReduceRemoveViewModelFromGroup(c: TextEditorGroupsCollection, groupKey: GroupKey, viewModelKey: ViewModelKey)
    : (r: TextEditorGroupsCollection)
    ensures GroupKeys(r.groupsList) == GroupKeys(c.groupsList)
    ensures var i := IndexOfGroup(c.groupsList, groupKey);
            i == -1 || viewModelKey !in c.groupsList[i].viewModelKeys ==> r == c
    ensures var i := IndexOfGroup(c.groupsList, groupKey);
            i != -1 && viewModelKey in c.groupsList[i].viewModelKeys ==>
              var keys := c.groupsList[i].viewModelKeys;
              var removed := IndexOfViewModelKey(keys, viewModelKey);
              && (forall j :: 0 <= j < |c.groupsList| && j != i ==> r.groupsList[j] == c.groupsList[j])
              && r.groupsList[i].viewModelKeys == keys[..removed] + keys[removed + 1..]
              && r.groupsList[i].activeViewModelKey == NextActiveViewModelKey(keys, removed)
  {
    var i := IndexOfGroup(c.groupsList, groupKey);
    if i == -1 then c
    else
      var existingGroup := c.groupsList[i];
      var indexOfViewModelKeyToRemove := IndexOfViewModelKey(existingGroup.viewModelKeys, viewModelKey);
      if indexOfViewModelKeyToRemove == -1 then c
      else
        var keys := existingGroup.viewModelKeys;
        var nextGroup := existingGroup.(
          viewModelKeys := keys[..indexOfViewModelKeyToRemove] + keys[indexOfViewModelKeyToRemove + 1..],
          activeViewModelKey := NextActiveViewModelKey(keys, indexOfViewModelKeyToRemove));
        TextEditorGroupsCollection(c.groupsList[i := nextGroup])
  }

  /** Sets a group's active view model, whether or not the group lists it. */
  function ReduceSetActiveViewModelOfGroup(c: TextEditorGroupsCollection, groupKey: GroupKey, viewModelKey: ViewModelKey)
    : (r: TextEditorGroupsCollection)
    ensures GroupKeys(r.groupsList) == GroupKeys(c.groupsList)
    ensures IndexOfGroup(c.groupsList, groupKey) == -1 ==> r == c
    ensures var i := IndexOfGroup(c.groupsList, groupKey);
            i != -1 ==>
              && (forall j :: 0 <= j < |c.groupsList| && j != i ==> r.groupsList[j] == c.groupsList[j])
              && r.groupsList[i] == c.groupsList[i].(activeViewModelKey := viewModelKey)
  {
    var i := IndexOfGroup(c.groupsList, groupKey);
    if i == -1 then c
    else TextEditorGroupsCollection(c.groupsList[i := c.groupsList[i].(activeViewModelKey := viewModelKey)])
  }

  // ---------------------------------------------------------------------------
  // Properties of the reducers

  /** Registration keeps group keys unique, and afterwards a group with the key is registered. */
  lemma RegisterKeepsGroupKeysUnique(c: TextEditorGroupsCollection, group: TextEditorGroup)
    requires UniqueGroupKeys(c.groupsList)
    ensures var r := ReduceRegisterGroup(c, group);
            UniqueGroupKeys(r.groupsList) && IndexOfGroup(r.groupsList, group.groupKey) != -1
  {
    var r := ReduceRegisterGroup(c, group);
    if IndexOfGroup(c.groupsList, group.groupKey) == -1 {
      assert r.groupsList[|c.groupsList|].groupKey == group.groupKey;
    }
  }

  /** Registering a group twice is the same as registering it once. */
  lemma RegisterIsIdempotent(c: TextEditorGroupsCollection, group: TextEditorGroup)
    ensures ReduceRegisterGroup(ReduceRegisterGroup(c, group), group) == ReduceRegisterGroup(c, group)
  {
    var r := ReduceRegisterGroup(c, group);
    if IndexOfGroup(c.groupsList, group.groupKey) == -1 {
      assert r.groupsList[|c.groupsList|].groupKey == group.groupKey;
    }
  }

  /** No view model is listed twice. */
  predicate DistinctKeys(keys: seq<ViewModelKey>) {
    forall i, j :: 0 <= i < j < |keys| ==> keys[i] != keys[j]
  }

  /** Adding never lists a view model twice in a group: a listed key is skipped. */
  lemma AddKeepsViewModelKeysDistinct(c: TextEditorGroupsCollection, groupKey: GroupKey, viewModelKey: ViewModelKey)
    requires forall j :: 0 <= j < |c.groupsList| ==> DistinctKeys(c.groupsList[j].viewModelKeys)
    ensures var r := ReduceAddViewModelToGroup(c, groupKey, viewModelKey);
            forall j :: 0 <= j < |r.groupsList| ==> DistinctKeys(r.groupsList[j].viewModelKeys)
  {
    var r := ReduceAddViewModelToGroup(c, groupKey, viewModelKey);
    var i := IndexOfGroup(c.groupsList, groupKey);
    if i != -1 && viewModelKey !in c.groupsList[i].viewModelKeys {
      assert DistinctKeys(c.groupsList[i].viewModelKeys);
      forall j | 0 <= j < |r.groupsList|
        ensures DistinctKeys(r.groupsList[j].viewModelKeys)
      {
        if j != i {
          assert r.groupsList[j] == c.groupsList[j];
        }
      }
    }
  }

  /**
   * After a removal the group's active view model is one it still lists, or
   * the empty key when it lists none.
   */
  lemma {:induction false} RemoveLeavesActiveInGroup(c: TextEditorGroupsCollection, groupKey: GroupKey, viewModelKey: ViewModelKey)
    requires IndexOfGroup(c.groupsList, groupKey) != -1
    requires viewModelKey in c.groupsList[IndexOfGroup(c.groupsList, groupKey)].viewModelKeys
    ensures var i := IndexOfGroup(c.groupsList, groupKey);
            var g := ReduceRemoveViewModelFromGroup(c, groupKey, viewModelKey).groupsList[i];
            && |g.viewModelKeys| == |c.groupsList[i].viewModelKeys| - 1
            && (g.viewModelKeys == [] ==> g.activeViewModelKey == EmptyViewModelKey)
            && (g.viewModelKeys != [] ==> g.activeViewModelKey in g.viewModelKeys)
  {
  }

  /**
   * Adding a view model a group did not list and then removing it gives the
   * group back its list of view models; a group that was empty is empty
   * again, with the empty key active.
   */
  lemma {:induction false} AddThenRemoveRestoresViewModelKeys(c: TextEditorGroupsCollection, groupKey: GroupKey, viewModelKey: ViewModelKey)
    requires IndexOfGroup(c.groupsList, groupKey) != -1
    requires viewModelKey !in c.groupsList[IndexOfGroup(c.groupsList, groupKey)].viewModelKeys
    ensures var i := IndexOfGroup(c.groupsList, groupKey);
            var added := ReduceAddViewModelToGroup(c, groupKey, viewModelKey);
            var removed := ReduceRemoveViewModelFromGroup(added, groupKey, viewModelKey);
            && GroupKeys(removed.groupsList) == GroupKeys(c.groupsList)
            && removed.groupsList[i].viewModelKeys == c.groupsList[i].viewModelKeys
            && (c.groupsList[i].viewModelKeys == [] ==> removed.groupsList[i].activeViewModelKey == EmptyViewModelKey)
            && (forall j :: 0 <= j < |c.groupsList| && j != i ==> removed.groupsList[j] == c.groupsList[j])
  {
    var i := IndexOfGroup(c.groupsList, groupKey);
    var keys := c.groupsList[i].viewModelKeys;
    var added := ReduceAddViewModelToGroup(c, groupKey, viewModelKey);
    assert GroupKeys(added.groupsList)[..i] == GroupKeys(c.groupsList)[..i];
    SameKeysSameIndex(c.groupsList, added.groupsList, groupKey);
    var addedKeys := added.groupsList[i].viewModelKeys;
    assert addedKeys == keys + [viewModelKey];
    assert IndexOfViewModelKey(addedKeys, viewModelKey) == |keys| by {
      var k := IndexOfViewModelKey(addedKeys, viewModelKey);
      assert addedKeys[|keys|] == viewModelKey;
      assert k <= |keys|;
    }
    assert addedKeys[..|keys|] + addedKeys[|keys| + 1..] == keys;
  }

  /** Two group lists with the same keys find a group key at the same index. */
  lemma {:induction false} SameKeysSameIndex(a: seq<TextEditorGroup>, b: seq<TextEditorGroup>, groupKey: GroupKey)
    requires GroupKeys(a) == GroupKeys(b)
    ensures IndexOfGroup(a, groupKey) == IndexOfGroup(b, groupKey)
  {
    if |a| > 0 {
      assert a[0].groupKey == GroupKeys(a)[0] == b[0].groupKey;
      assert GroupKeys(a[1..]) == GroupKeys(a)[1..];
      assert GroupKeys(b[1..]) == GroupKeys(b)[1..];
      SameKeysSameIndex(a[1..], b[1..], groupKey);
    }
  }
}
