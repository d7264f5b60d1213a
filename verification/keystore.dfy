/** `ApiKeyManager`: the saved API keys and the selected one, kept in synced
    browser storage under `apiKeys` and `selectedApiKey`. Storage is an
    explicit value and each operation maps it to its successor. */
module KeyStore {
  import opened Wrappers
  import opened Seqs

  /** The two storage entries; `None` is an entry never written or removed. */
  datatype Storage = Storage(apiKeys: Option<seq<string>>, selectedApiKey: Option<string>)

  /** Storage before any key was saved. */
  const Empty := Storage(None, None)

  /** `getSavedKeys`: the stored list, or the empty list when none is stored. */
  function SavedKeys(s: Storage): (keys: seq<string>)
    ensures s.apiKeys.None? ==> keys == []
    ensures s.apiKeys.Some? ==> keys == s.apiKeys.value
  {
    s.apiKeys.GetOr([])
  }

  /** `getSelectedKey`: the stored selection, or `""` when none is stored. */
  function SelectedKey(s: Storage): (key: string)
    ensures s.selectedApiKey.None? ==> key == ""
    ensures s.selectedApiKey.Some? ==> key == s.selectedApiKey.value
  {
    s.selectedApiKey.GetOr("")
  }

  /** What the rest of the popup can observe: the two getters. */
  function View(s: Storage): (seq<string>, string) {
    (SavedKeys(s), SelectedKey(s))
  }

  /** The store's invariant: no key twice, no empty key, and a selection,
      when present, names a saved key. */
  predicate Valid(s: Storage) {
    && NoDuplicates(SavedKeys(s))
    && "" !in SavedKeys(s)
    && (s.selectedApiKey.Some? ==> s.selectedApiKey.value in SavedKeys(s))
  }

  /** `saveKey`: an empty or already saved key is refused (`false`) and
      nothing is written; a new key is appended to the list, becomes the
      selection, and the result is `true`. */
  function SaveKey(s: Storage, key: string): (r: (Storage, bool))
    ensures r.1 <==> key != "" && key !in SavedKeys(s)
    ensures !r.1 ==> r.0 == s
    ensures r.1 ==> SavedKeys(r.0) == SavedKeys(s) + [key]
    ensures r.1 ==> r.0.selectedApiKey == Some(key)
  {
    if key == "" then (s, false)
    else
      var keys := SavedKeys(s);
      if key !in keys then
        (Storage(Some(keys + [key]), Some(key)), true)
      else
        (s, false)
  }

  /** `deleteKey`: every occurrence of `key` leaves the list, the other keys
      keep their order and multiplicity, and the selection is removed
      exactly when `getSelectedKey` reports `key`. */
  function DeleteKey(s: Storage, key: string): (s': Storage)
    ensures key !in SavedKeys(s')
    ensures forall k :: k != key ==> multiset(SavedKeys(s'))[k] == multiset(SavedKeys(s))[k]
    ensures IsSubsequence(SavedKeys(s'), SavedKeys(s))
    ensures SelectedKey(s) == key ==> s'.selectedApiKey == None
    ensures SelectedKey(s) != key ==> s'.selectedApiKey == s.selectedApiKey
  {
    var newKeys := Filter(SavedKeys(s), k => k != key);
    FilterOrder(SavedKeys(s), k => k != key);
    FilterCounts(SavedKeys(s), k => k != key);
    var written := Storage(Some(newKeys), s.selectedApiKey);
    if SelectedKey(written) == key then Storage(written.apiKeys, None) else written
  }

  /** `setSelectedKey`: overwrites the selection without checking that the
      key is saved; the list is untouched. */
  function SetSelectedKey(s: Storage, key: string): (s': Storage)
    ensures SavedKeys(s') == SavedKeys(s) && s'.apiKeys == s.apiKeys
    ensures SelectedKey(s') == key
  {
    Storage(s.apiKeys, Some(key))
  }

  /** Fresh storage satisfies the invariant and reads as no keys. */
  lemma EmptyIsValid()
    ensures Valid(Empty) && View(Empty) == ([], "")
  {
  }

  /** `saveKey` preserves the invariant. */
  lemma SaveKeyPreservesValid(s: Storage, key: string)
    requires Valid(s)
    ensures Valid(SaveKey(s, key).0)
  {
  }

  /** Saving the same key a second time is refused and changes nothing. */
  lemma SaveKeyTwiceRefused(s: Storage, key: string)
    ensures var s1 := SaveKey(s, key).0;
      SaveKey(s1, key) == (s1, false)
  {
  }

  /** `deleteKey` preserves the invariant. */
  lemma DeleteKeyPreservesValid(s: Storage, key: string)
    requires Valid(s)
    ensures Valid(DeleteKey(s, key))
  {
    var s' := DeleteKey(s, key);
    SubsequenceNoDuplicates(SavedKeys(s'), SavedKeys(s));
    SubsequenceMembers(SavedKeys(s'), SavedKeys(s));
  }

  /** On a valid store, deleting a key that is not saved leaves both the
      list and the selection as they were. */
  lemma DeleteAbsentKeyIsNoop(s: Storage, key: string)
    requires Valid(s)
    requires key !in SavedKeys(s)
    ensures View(DeleteKey(s, key)) == View(s)
    ensures DeleteKey(s, key).selectedApiKey == s.selectedApiKey
  {
    FilterKeepsAll(SavedKeys(s), k => k != key);
  }

  /** Without the invariant a selection may name an unsaved key (only
      `setSelectedKey` can write one); deleting that key then clears the
      selection although the list does not change. */
  lemma DeleteUnsavedSelectedKey(s: Storage, key: string)
    requires key !in SavedKeys(s)
    ensures var s' := DeleteKey(SetSelectedKey(s, key), key);
      SavedKeys(s') == SavedKeys(s) && s'.selectedApiKey == None
  {
    FilterKeepsAll(SavedKeys(s), k => k != key);
  }

  /** On a list without duplicates, deleting a saved key shortens the list
      by exactly one. */
  lemma DeleteSavedKeyShortens(s: Storage, key: string)
    requires NoDuplicates(SavedKeys(s))
    requires key in SavedKeys(s)
    ensures |SavedKeys(DeleteKey(s, key))| == |SavedKeys(s)| - 1
  {
    var keys := SavedKeys(s);
    var keys' := SavedKeys(DeleteKey(s, key));
    NoDuplicatesCount(keys, key);
    assert multiset(keys') == multiset(keys) - multiset{key};
  }

  /** A key occurs once in a list without duplicates. */
  lemma {:induction false} NoDuplicatesCount(keys: seq<string>, key: string)
    requires NoDuplicates(keys)
    requires key in keys
    ensures multiset(keys)[key] == 1
  {
    if keys[0] == key {
      assert key !in keys[1..];
      assert keys == [keys[0]] + keys[1..];
    } else {
      NoDuplicatesCount(keys[1..], key);
      assert keys == [keys[0]] + keys[1..];
    }
  }

  /** Deleting a key just saved restores the previous list and leaves no
      selection. */
  lemma DeleteUndoesSave(s: Storage, key: string)
    requires key != "" && key !in SavedKeys(s)
    ensures var s' := DeleteKey(SaveKey(s, key).0, key);
      SavedKeys(s') == SavedKeys(s) && s'.selectedApiKey == None
  {
    var keys := SavedKeys(s);
    FilterAppend(keys, [key], k => k != key);
    FilterKeepsAll(keys, k => k != key);
    assert Filter([key], k => k != key) == [];
  }

  /** Deleting twice is the same as deleting once. */
  lemma DeleteKeyIdempotent(s: Storage, key: string)
    ensures DeleteKey(DeleteKey(s, key), key) == DeleteKey(s, key)
  {
    var s1 := DeleteKey(s, key);
    FilterKeepsAll(SavedKeys(s1), k => k != key);
  }

  /** `setSelectedKey` preserves the invariant when the key is saved, which
      is how the key list drop-down calls it. */
  lemma SetSelectedKeyPreservesValid(s: Storage, key: string)
    requires Valid(s)
    requires key in SavedKeys(s)
    ensures Valid(SetSelectedKey(s, key))
  {
  }
}
