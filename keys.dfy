/**
 * Identifiers of groups, view models and models.  Each wraps a GUID, written
 * here as a number; the empty GUID is 0.
 */
module Keys {
  datatype GroupKey = GroupKey(guid: nat)

  datatype ViewModelKey = ViewModelKey(guid: nat)

  datatype ModelKey = ModelKey(guid: nat)

  /** The key a group shows as active when it holds no view model. */
  const EmptyViewModelKey := ViewModelKey(0)
}
