/**
 * The registered view models, one per view-model key.  A view model ties a
 * view-model key to the model (text buffer) it shows; its rendering state is
 * the virtualization result, which starts with no rows.  The reducers return
 * a new collection; a request naming an unknown key leaves it as it was.
 */
module ViewModels {
  import opened Keys
  import opened TextBuffer

  datatype TextEditorViewModel = TextEditorViewModel(
    textEditorViewModelKey: ViewModelKey,
    textEditorModelKey: ModelKey,
    virtualizationResult: seq<seq<RichCharacter>>)

  datatype TextEditorViewModelsCollection = TextEditorViewModelsCollection(viewModelsList: seq<TextEditorViewModel>)

  /** The first view model with the key, or -1. */
  function IndexOfViewModel(viewModels: seq<TextEditorViewModel>, key: ViewModelKey): (i: int)
    ensures -1 <= i < |viewModels|
    ensures i >= 0 ==> viewModels[i].textEditorViewModelKey == key
    ensures forall j :: 0 <= j < |viewModels| && (i == -1 || j < i) ==> viewModels[j].textEditorViewModelKey != key
  {
    if |viewModels| == 0 then -1
    else if viewModels[0].textEditorViewModelKey == key then 0
    else
      var k := IndexOfViewModel(viewModels[1..], key);
      if k == -1 then -1 else k + 1
  }

  /** No two view models share a key. */
  predicate UniqueViewModelKeys(viewModels: seq<TextEditorViewModel>) {
    forall i, j :: 0 <= i < j < |viewModels| ==> viewModels[i].textEditorViewModelKey != viewModels[j].textEditorViewModelKey
  }

  /** Registers a view model for the key unless one exists; the new one goes to the end. */
  function ReduceRegisterAction(c: TextEditorViewModelsCollection, viewModelKey: ViewModelKey, modelKey: ModelKey)
    : (r: TextEditorViewModelsCollection)
    ensures IndexOfViewModel(c.viewModelsList, viewModelKey) != -1 ==> r == c
    ensures IndexOfViewModel(c.viewModelsList, viewModelKey) == -1 ==>
              r.viewModelsList == c.viewModelsList + [TextEditorViewModel(viewModelKey, modelKey, [])]
  {
    if IndexOfViewModel(c.viewModelsList, viewModelKey) != -1 then c
    else
      var viewModel := TextEditorViewModel(viewModelKey, modelKey, []);
      TextEditorViewModelsCollection(c.viewModelsList + [viewModel])
  }

  /** Removes the view model with the key; the others keep their order. */
  function ReduceDisposeAction(c: TextEditorViewModelsCollection, viewModelKey: ViewModelKey)
    : (r: TextEditorViewModelsCollection)
    ensures IndexOfViewModel(c.viewModelsList, viewModelKey) == -1 ==> r == c
    ensures var i := IndexOfViewModel(c.viewModelsList, viewModelKey);
            i != -1 ==>
              && |r.viewModelsList| == |c.viewModelsList| - 1
              && r.viewModelsList == c.viewModelsList[..i] + c.viewModelsList[i + 1..]
  {
    var i := IndexOfViewModel(c.viewModelsList, viewModelKey);
    if i == -1 then c
    else TextEditorViewModelsCollection(c.viewModelsList[..i] + c.viewModelsList[i + 1..])
  }

  /** Replaces the view model with the key by withFunc applied to it, in its place. */
  function ReduceSetViewModelWithAction(c: TextEditorViewModelsCollection, viewModelKey: ViewModelKey,
                                        withFunc: TextEditorViewModel -> TextEditorViewModel)
    : (r: TextEditorViewModelsCollection)
    ensures IndexOfViewModel(c.viewModelsList, viewModelKey) == -1 ==> r == c
    ensures var i := IndexOfViewModel(c.viewModelsList, viewModelKey);
            i != -1 ==>
              && |r.viewModelsList| == |c.viewModelsList|
              && r.viewModelsList[i] == withFunc(c.viewModelsList[i])
              && forall j :: 0 <= j < |c.viewModelsList| && j != i ==> r.viewModelsList[j] == c.viewModelsList[j]
  {
    var i := IndexOfViewModel(c.viewModelsList, viewModelKey);
    if i == -1 then c
    else TextEditorViewModelsCollection(c.viewModelsList[i := withFunc(c.viewModelsList[i])])
  }

  // ---------------------------------------------------------------------------
  // Properties of the reducers

  /**
   * Register and dispose never make two view models share a key; set-with
   * keeps keys unique when the function keeps the view model's key.
   */
  lemma ReducersKeepViewModelKeysUnique(c: TextEditorViewModelsCollection, viewModelKey: ViewModelKey, modelKey: ModelKey,
                                        withFunc: TextEditorViewModel -> TextEditorViewModel)
    requires UniqueViewModelKeys(c.viewModelsList)
    ensures UniqueViewModelKeys(ReduceRegisterAction(c, viewModelKey, modelKey).viewModelsList)
    ensures UniqueViewModelKeys(ReduceDisposeAction(c, viewModelKey).viewModelsList)
    ensures (forall vm :: withFunc(vm).textEditorViewModelKey == vm.textEditorViewModelKey) ==>
              UniqueViewModelKeys(ReduceSetViewModelWithAction(c, viewModelKey, withFunc).viewModelsList)
  {
    var i := IndexOfViewModel(c.viewModelsList, viewModelKey);
    if i != -1 {
      var d := ReduceDisposeAction(c, viewModelKey).viewModelsList;
      assert forall j :: 0 <= j < |d| ==> d[j] == c.viewModelsList[if j < i then j else j + 1];
    }
  }

  /** After registering, the key is found and shows the given model; after disposing, it is gone. */
  lemma {:induction false} RegisterThenDispose(c: TextEditorViewModelsCollection, viewModelKey: ViewModelKey, modelKey: ModelKey)
    requires UniqueViewModelKeys(c.viewModelsList)
    ensures var registered := ReduceRegisterAction(c, viewModelKey, modelKey);
            var i := IndexOfViewModel(registered.viewModelsList, viewModelKey);
            i != -1
            && (IndexOfViewModel(c.viewModelsList, viewModelKey) == -1 ==>
                  registered.viewModelsList[i].textEditorModelKey == modelKey)
            && IndexOfViewModel(ReduceDisposeAction(registered, viewModelKey).viewModelsList, viewModelKey) == -1
  {
    var registered := ReduceRegisterAction(c, viewModelKey, modelKey);
    var n := |c.viewModelsList|;
    if IndexOfViewModel(c.viewModelsList, viewModelKey) == -1 {
      assert registered.viewModelsList[n].textEditorViewModelKey == viewModelKey;
      assert IndexOfViewModel(registered.viewModelsList, viewModelKey) == n;
    }
    ReducersKeepViewModelKeysUnique(c, viewModelKey, modelKey, vm => vm);
    DisposeRemovesTheKey(registered, viewModelKey);
  }

  /** With unique keys, disposing a key leaves no view model with it. */
  lemma DisposeRemovesTheKey(c: TextEditorViewModelsCollection, viewModelKey: ViewModelKey)
    requires UniqueViewModelKeys(c.viewModelsList)
    ensures IndexOfViewModel(ReduceDisposeAction(c, viewModelKey).viewModelsList, viewModelKey) == -1
  {
    var i := IndexOfViewModel(c.viewModelsList, viewModelKey);
    if i != -1 {
      var d := ReduceDisposeAction(c, viewModelKey).viewModelsList;
      assert forall j :: 0 <= j < |d| ==> d[j] == c.viewModelsList[if j < i then j else j + 1];
    }
  }
}
