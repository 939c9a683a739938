/**
 * The create/edit phrase form.
 *
 * The form's state is a class: the current `editId` prop, the `isEditMode`
 * flag an effect derives from it, the form values, and the list of persisted
 * translation ids the user has removed but the server has not yet deleted
 * (null until the first such removal). Submission is a pure function from
 * that state and the abstract outcome of each server call to the trace of
 * effects the handlers perform.
 */
module PhraseForm {
  import opened PhraseTypes
  import opened PhraseSchema

  /** The server calls the form can issue. */
  datatype ApiCall =
    | DeleteTranslations(ids: seq<string>)
    | UpdatePhrase(id: Option<string>, data: PhraseInput)
    | CreatePhrase(data: PhraseInput)

  /** What a submission does, in order. */
  datatype Effect =
    | Call(call: ApiCall)
    | NotifySuccess  // the caller's onSuccess callback, which refetches the list
    | RefetchPhrase  // refetch of the by-id phrase query
    | CloseForm      // the caller's onClose callback

  /** The pending-removal list, reading null as empty. */
  function Pending(removed: Option<seq<string>>): seq<string> {
    if removed.None? then [] else removed.value
  }

  /** Keeps every element except the one at position `index`. */
  function WithoutIndex<T>(s: seq<T>, index: int): seq<T>
    decreases |s|
  {
    if s == [] then [] else (if index == 0 then [] else [s[0]]) + WithoutIndex(s[1..], index - 1)
  }

  /** The pending-removal list after removing a row whose id is `id`. */
  function AfterRemove(removed: Option<seq<string>>, editId: Option<string>, id: Option<string>): Option<seq<string>> {
    if Truthy(editId) && Truthy(id) then Some(Pending(removed) + [id.value]) else removed
  }

  /** A row's language selector is disabled. */
  predicate LanguageLocked(editId: Option<string>, row: Translation) {
    Truthy(editId) && Truthy(row.id)
  }

  /** Every row's remove button is disabled. */
  predicate RemoveDisabled(ts: seq<Translation>) {
    |ts| <= 1
  }

  /** The values the reset effect installs. */
  function ResetValues(isEditMode: bool, phrase: Option<Phrase>): PhraseInput {
    if isEditMode && phrase.Some? then
      PhraseInput(Some(phrase.value.id), phrase.value.phrase, phrase.value.status, phrase.value.translations)
    else
      DefaultValues
  }

  /** The active rule set is chosen by `isEditMode`. */
  function ParseWith(isEditMode: bool, values: PhraseInput): Parsed {
    if isEditMode then ParseUpdate(values) else ParseCreate(values)
  }

  /** The update mutation and, on its success, its callbacks. */
  function UpdateEffects(data: PhraseInput, updateOk: bool): seq<Effect> {
    [Call(UpdatePhrase(data.id, data))] + (if updateOk then [NotifySuccess, RefetchPhrase, CloseForm] else [])
  }

  /** The submit handler, run on data that passed validation. */
  function Dispatch(
    editId: Option<string>, removed: Option<seq<string>>, data: PhraseInput,
    deleteOk: bool, mutationOk: bool): seq<Effect>
  {
    if Truthy(editId) then
      if removed.Some? && |removed.value| > 0 then
        [Call(DeleteTranslations(removed.value))]
        + (if deleteOk then UpdateEffects(data, mutationOk) else [])
      else
        UpdateEffects(data, mutationOk)
    else
      [Call(CreatePhrase(data))] + (if mutationOk then [NotifySuccess, CloseForm] else [])
  }

  /**
   * A submission: validation against the active rule set, then, only if it
   * passes, the submit handler on the parsed data. `deleteOk` and
   * `mutationOk` are the outcomes of the delete call and of the create or
   * update call.
   */
  function SubmitEffects(
    editId: Option<string>, isEditMode: bool, removed: Option<seq<string>>, values: PhraseInput,
    deleteOk: bool, mutationOk: bool): seq<Effect>
  {
    var parsed := ParseWith(isEditMode, values);
    if parsed.Invalid? then [] else Dispatch(editId, removed, parsed.data, deleteOk, mutationOk)
  }

  /** The server calls in a trace, in order. */
  function Calls(es: seq<Effect>): seq<ApiCall>
    decreases |es|
  {
    if es == [] then []
    else (if es[0].Call? then [es[0].call] else []) + Calls(es[1..])
  }

  lemma {:induction false} CallsAppend(a: seq<Effect>, b: seq<Effect>)
    ensures Calls(a + b) == Calls(a) + Calls(b)
    decreases |a|
  {
    if a == [] {
      assert a + b == b;
    } else {
      var head := if a[0].Call? then [a[0].call] else [];
      assert (a + b)[0] == a[0];
      assert (a + b)[1..] == a[1..] + b;
      CallsAppend(a[1..], b);
      assert Calls(a + b) == head + Calls(a[1..] + b);
    }
  }

  lemma {:induction false} WithoutIndexSpec<T>(s: seq<T>, index: int)
    ensures WithoutIndex(s, index) == if 0 <= index < |s| then s[..index] + s[index + 1..] else s
    decreases |s|
  {
    if s != [] {
      WithoutIndexSpec(s[1..], index - 1);
      if 0 < index < |s| {
        assert s[1..][..index - 1] == s[1..index];
        assert s[1..][index..] == s[index + 1..];
        assert [s[0]] + s[1..index] == s[..index];
      } else if index != 0 {
        assert [s[0]] + s[1..] == s;
      }
    }
  }

  /**
   * Removing row `index` keeps the other rows in order; an out-of-range index
   * changes nothing. So while the remove button is enabled, a removal leaves
   * at least one row.
   */
  lemma RemoveTranslationRows(ts: seq<Translation>, index: int)
    ensures 0 <= index < |ts| ==>
              && |WithoutIndex(ts, index)| == |ts| - 1
              && (forall k :: 0 <= k < index ==> WithoutIndex(ts, index)[k] == ts[k])
              && (forall k :: index <= k < |ts| - 1 ==> WithoutIndex(ts, index)[k] == ts[k + 1])
    ensures !(0 <= index < |ts|) ==> WithoutIndex(ts, index) == ts
    ensures !RemoveDisabled(ts) ==> |WithoutIndex(ts, index)| >= 1
  {
    WithoutIndexSpec(ts, index);
  }

  /**
   * The pending-removal list grows by the row's id exactly when the form is
   * editing and the row is persisted; it is never shortened or deduplicated.
   */
  lemma AfterRemoveOnlyGrows(removed: Option<seq<string>>, editId: Option<string>, id: Option<string>)
    ensures Pending(removed) <= Pending(AfterRemove(removed, editId, id))
    ensures |Pending(AfterRemove(removed, editId, id))|
         == |Pending(removed)| + (if Truthy(editId) && Truthy(id) then 1 else 0)
    ensures Truthy(editId) && Truthy(id) ==> Pending(AfterRemove(removed, editId, id))[|Pending(removed)|] == id.value
    ensures !(Truthy(editId) && Truthy(id)) ==> AfterRemove(removed, editId, id) == removed
  {
  }

  /**
   * Rows without a persisted id, such as the ones `addTranslation` appends,
   * never have their language locked; in create mode no row does.
   */
  lemma UnpersistedRowsUnlocked(editId: Option<string>, row: Translation)
    requires !Truthy(row.id) || !Truthy(editId)
    ensures !LanguageLocked(editId, row)
  {
  }

  /** An invalid form issues no call and runs no callback. */
  lemma SubmitBlockedWhenInvalid(
    editId: Option<string>, isEditMode: bool, removed: Option<seq<string>>, values: PhraseInput,
    deleteOk: bool, mutationOk: bool)
    requires if isEditMode then !UpdateValid(values) else !CreateValid(values)
    ensures SubmitEffects(editId, isEditMode, removed, values, deleteOk, mutationOk) == []
  {
  }

  /**
   * The default values (what the reset effect installs outside edit mode,
   * and what the form starts with) can never be submitted.
   */
  lemma DefaultValuesCannotBeSubmitted(
    editId: Option<string>, isEditMode: bool, removed: Option<seq<string>>,
    deleteOk: bool, mutationOk: bool)
    ensures SubmitEffects(editId, isEditMode, removed, DefaultValues, deleteOk, mutationOk) == []
  {
    DefaultValuesRejected();
  }

  /** A valid submission runs the submit handler on the parsed data. */
  lemma SubmitDispatchesParsed(
    editId: Option<string>, isEditMode: bool, removed: Option<seq<string>>, values: PhraseInput,
    deleteOk: bool, mutationOk: bool)
    requires ParseWith(isEditMode, values).Valid?
    ensures SubmitEffects(editId, isEditMode, removed, values, deleteOk, mutationOk)
         == Dispatch(editId, removed, ParseWith(isEditMode, values).data, deleteOk, mutationOk)
  {
  }

  lemma CreateEffectsShape(data: PhraseInput, createOk: bool)
    ensures var es := [Call(CreatePhrase(data))] + (if createOk then [NotifySuccess, CloseForm] else []);
      && Calls(es) == [CreatePhrase(data)]
      && multiset(es)[NotifySuccess] == (if createOk then 1 else 0)
      && (CloseForm in es <==> createOk)
      && RefetchPhrase !in es
  {
    var tail: seq<Effect> := if createOk then [NotifySuccess, CloseForm] else [];
    CallsAppend([Call(CreatePhrase(data))], tail);
    assert Calls(tail) == [] by {
      if createOk {
        CallsAppend([NotifySuccess], [CloseForm]);
      }
    }
    assert multiset([Call(CreatePhrase(data))] + tail) == multiset([Call(CreatePhrase(data))]) + multiset(tail);
  }

  /**
   * Without an edit id, a valid submission issues exactly one create and no
   * delete or update; on success the caller is notified once and the form
   * closes, on failure neither happens.
   */
  lemma SubmitCreates(
    editId: Option<string>, isEditMode: bool, removed: Option<seq<string>>, values: PhraseInput,
    deleteOk: bool, mutationOk: bool)
    requires !Truthy(editId)
    requires ParseWith(isEditMode, values).Valid?
    ensures var es := SubmitEffects(editId, isEditMode, removed, values, deleteOk, mutationOk);
      && Calls(es) == [CreatePhrase(ParseWith(isEditMode, values).data)]
      && multiset(es)[NotifySuccess] == (if mutationOk then 1 else 0)
      && (CloseForm in es <==> mutationOk)
      && RefetchPhrase !in es
  {
    SubmitDispatchesParsed(editId, isEditMode, removed, values, deleteOk, mutationOk);
    CreateEffectsShape(ParseWith(isEditMode, values).data, mutationOk);
  }

  lemma UpdateEffectsShape(data: PhraseInput, updateOk: bool)
    ensures Calls(UpdateEffects(data, updateOk)) == [UpdatePhrase(data.id, data)]
    ensures multiset(UpdateEffects(data, updateOk))[NotifySuccess] == (if updateOk then 1 else 0)
    ensures CloseForm in UpdateEffects(data, updateOk) <==> updateOk
    ensures RefetchPhrase in UpdateEffects(data, updateOk) <==> updateOk
  {
    var tail: seq<Effect> := if updateOk then [NotifySuccess, RefetchPhrase, CloseForm] else [];
    CallsAppend([Call(UpdatePhrase(data.id, data))], tail);
    assert Calls(tail) == [] by {
      if updateOk {
        CallsAppend([NotifySuccess], [RefetchPhrase, CloseForm]);
        CallsAppend([RefetchPhrase], [CloseForm]);
      }
    }
  }

  lemma DeleteThenUpdateShape(ids: seq<string>, data: PhraseInput, deleteOk: bool, updateOk: bool)
    ensures var es := [Call(DeleteTranslations(ids))] + (if deleteOk then UpdateEffects(data, updateOk) else []);
      && Calls(es) == [DeleteTranslations(ids)] + (if deleteOk then [UpdatePhrase(data.id, data)] else [])
      && multiset(es)[NotifySuccess] == (if deleteOk && updateOk then 1 else 0)
      && (CloseForm in es <==> deleteOk && updateOk)
  {
    var rest := if deleteOk then UpdateEffects(data, updateOk) else [];
    CallsAppend([Call(DeleteTranslations(ids))], rest);
    UpdateEffectsShape(data, updateOk);
    assert multiset([Call(DeleteTranslations(ids))] + rest) == multiset([Call(DeleteTranslations(ids))]) + multiset(rest);
  }

  /**
   * Editing with pending removals: the first call deletes exactly the pending
   * ids, and the update follows iff that delete succeeds. The form closes
   * only when both succeed.
   */
  lemma SubmitDeletesThenUpdates(
    editId: Option<string>, isEditMode: bool, removed: Option<seq<string>>, values: PhraseInput,
    deleteOk: bool, mutationOk: bool)
    requires Truthy(editId) && Pending(removed) != []
    requires ParseWith(isEditMode, values).Valid?
    ensures var es := SubmitEffects(editId, isEditMode, removed, values, deleteOk, mutationOk);
      var data := ParseWith(isEditMode, values).data;
      && Calls(es) == [DeleteTranslations(Pending(removed))] + (if deleteOk then [UpdatePhrase(data.id, data)] else [])
      && multiset(es)[NotifySuccess] == (if deleteOk && mutationOk then 1 else 0)
      && (CloseForm in es <==> deleteOk && mutationOk)
  {
    SubmitDispatchesParsed(editId, isEditMode, removed, values, deleteOk, mutationOk);
    DeleteThenUpdateShape(Pending(removed), ParseWith(isEditMode, values).data, deleteOk, mutationOk);
  }

  /** Editing with a null or empty pending list: the update is issued directly, with no delete. */
  lemma SubmitUpdatesDirectly(
    editId: Option<string>, isEditMode: bool, removed: Option<seq<string>>, values: PhraseInput,
    deleteOk: bool, mutationOk: bool)
    requires Truthy(editId) && Pending(removed) == []
    requires ParseWith(isEditMode, values).Valid?
    ensures var es := SubmitEffects(editId, isEditMode, removed, values, deleteOk, mutationOk);
      var data := ParseWith(isEditMode, values).data;
      && Calls(es) == [UpdatePhrase(data.id, data)]
      && multiset(es)[NotifySuccess] == (if mutationOk then 1 else 0)
      && (CloseForm in es <==> mutationOk)
  {
    SubmitDispatchesParsed(editId, isEditMode, removed, values, deleteOk, mutationOk);
    UpdateEffectsShape(ParseWith(isEditMode, values).data, mutationOk);
  }

  /**
   * Once the edit-mode effect has run, the update is sent for the id held in
   * the form values, which the reset effect took from the loaded phrase.
   */
  lemma EditModeUpdatesLoadedId(editId: Option<string>, phrase: Phrase, removed: Option<seq<string>>, mutationOk: bool)
    requires Truthy(editId)
    requires UpdateValid(ResetValues(Truthy(editId), Some(phrase)))
    ensures var es := SubmitEffects(editId, Truthy(editId), removed, ResetValues(Truthy(editId), Some(phrase)), true, mutationOk);
      UpdatePhrase(Some(phrase.id), ResetValues(true, Some(phrase))) in Calls(es)
  {
    var values := ResetValues(true, Some(phrase));
    if Pending(removed) == [] {
      SubmitUpdatesDirectly(editId, true, removed, values, true, mutationOk);
    } else {
      SubmitDeletesThenUpdates(editId, true, removed, values, true, mutationOk);
    }
  }

  class CreateEditPhraseForm {
    var editId: Option<string>
    var isEditMode: bool
    var values: PhraseInput
    var removedTranslationIds: Option<seq<string>>

    /** Mounting: default values, not yet in edit mode, no pending removals. */
    constructor (editId: Option<string>)
      ensures this.editId == editId && !isEditMode
      ensures values == DefaultValues && removedTranslationIds == None
    {
      this.editId := editId;
      isEditMode := false;
      values := DefaultValues;
      removedTranslationIds := None;
    }

    /** The parent passes a new `editId`; the form stays mounted, so nothing else changes. */
    method ReceiveEditId(id: Option<string>)
      modifies this`editId
      ensures editId == id
    {
      editId := id;
    }

    /** The effect that follows `editId`. */
    method SyncEditMode()
      modifies this`isEditMode
      ensures isEditMode == Truthy(editId)
    {
      isEditMode := Truthy(editId);
    }

    /**
     * The reset effect: server values when editing a loaded phrase, the
     * defaults otherwise. The pending-removal list is left as it is.
     */
    method ApplyReset(phrase: Option<Phrase>)
      modifies this`values
      ensures values == ResetValues(isEditMode, phrase)
      ensures isEditMode && phrase.Some? ==>
        && values.id == Some(phrase.value.id)
        && values.phrase == phrase.value.phrase
        && values.status == phrase.value.status
        && values.translations == phrase.value.translations
      ensures !(isEditMode && phrase.Some?) ==> values == DefaultValues
    {
      values := ResetValues(isEditMode, phrase);
    }

    /** `addTranslation`: one empty row at the end; nothing else changes. */
    method AddTranslation()
      modifies this`values
      ensures values.translations == old(values.translations) + [EmptyRow]
      ensures values.(translations := old(values.translations)) == old(values)
    {
      values := values.(translations := values.translations + [EmptyRow]);
    }

    /**
     * `removeTranslation(index, id)`: drops the row at `index` and, when
     * editing and `id` is truthy, appends `id` to the pending-removal list.
     */
    method RemoveTranslation(index: int, id: Option<string>)
      modifies this`values, this`removedTranslationIds
      ensures values.translations == WithoutIndex(old(values.translations), index)
      ensures values.(translations := old(values.translations)) == old(values)
      ensures removedTranslationIds == AfterRemove(old(removedTranslationIds), editId, id)
    {
      if Truthy(editId) && Truthy(id) {
        removedTranslationIds := Some(Pending(removedTranslationIds) + [id.value]);
      }
      values := values.(translations := WithoutIndex(values.translations, index));
    }

    /** Submitting the current values, given the outcome of each server call. */
    method Submit(deleteOk: bool, mutationOk: bool) returns (effects: seq<Effect>)
      ensures effects == SubmitEffects(editId, isEditMode, removedTranslationIds, values, deleteOk, mutationOk)
    {
      var parsed := if isEditMode then ParseUpdate(values) else ParseCreate(values);
      if parsed.Invalid? {
        effects := [];
      } else {
        effects := Dispatch(editId, removedTranslationIds, parsed.data, deleteOk, mutationOk);
      }
    }

    /** Whether row `row`'s language selector is disabled. */
    function LanguageDisabled(row: nat): (r: bool)
      reads this
      requires row < |values.translations|
      ensures r ==> Truthy(values.translations[row].id)
      ensures !Truthy(editId) ==> !r
      ensures Truthy(editId) && Truthy(values.translations[row].id) ==> r
    {
      LanguageLocked(editId, values.translations[row])
    }

    /** Whether the rows' remove buttons are disabled: only while one row or none is left. */
    function RemoveButtonDisabled(): (r: bool)
      reads this
      ensures !r <==> |values.translations| >= 2
      ensures !r ==> forall index :: |WithoutIndex(values.translations, index)| >= 1
    {
      forall index ensures |WithoutIndex(values.translations, index)| >= 1 || RemoveDisabled(values.translations) {
        RemoveTranslationRows(values.translations, index);
      }
      RemoveDisabled(values.translations)
    }
  }

  lemma StaleRemovalTrace(b: Phrase, removedId: string)
    requires b.id != ""
    requires UpdateValid(ResetValues(true, Some(b)))
    ensures var es := SubmitEffects(Some(b.id), true, Some([removedId]), ResetValues(true, Some(b)), true, true);
      |Calls(es)| == 2 && Calls(es)[0] == DeleteTranslations([removedId])
  {
    SubmitDeletesThenUpdates(Some(b.id), true, Some([removedId]), ResetValues(true, Some(b)), true, true);
  }

  /** From the default values, `addTranslation` gives two empty rows. */
  method AddTranslationFromDefaults() returns (rows: seq<Translation>)
    ensures |rows| == 2 && rows[0] == EmptyRow && rows[1] == EmptyRow
  {
    var form := new CreateEditPhraseForm(None);
    form.AddTranslation();
    rows := form.values.translations;
  }

  /**
   * The pending-removal list is kept while the form stays mounted: a
   * translation removed while editing one phrase, then abandoned by closing
   * the form, is still deleted when another phrase is edited and submitted.
   */
  method PendingRemovalsOutliveEditTarget(a: Phrase, b: Phrase, removedId: string) returns (effects: seq<Effect>)
    requires a.id != "" && b.id != "" && removedId != ""
    requires UpdateValid(ResetValues(true, Some(b)))
    ensures |Calls(effects)| == 2 && Calls(effects)[0] == DeleteTranslations([removedId])
  {
    var form := new CreateEditPhraseForm(Some(a.id));
    form.SyncEditMode();
    form.ApplyReset(Some(a));
    var none: Option<seq<string>> := None;
    assert Pending(none) + [removedId] == [removedId];
    form.RemoveTranslation(0, Some(removedId));
    assert form.removedTranslationIds == Some([removedId]);
    // closing: the parent clears its edit id and the by-id query has no data
    form.ReceiveEditId(None);
    form.SyncEditMode();
    form.ApplyReset(None);
    // editing another phrase
    form.ReceiveEditId(Some(b.id));
    form.SyncEditMode();
    form.ApplyReset(Some(b));
    ghost var values := ResetValues(true, Some(b));
    assert form.values == values && form.editId == Some(b.id) && form.isEditMode;
    assert form.removedTranslationIds == Some([removedId]);
    effects := form.Submit(true, true);
    StaleRemovalTrace(b, removedId);
  }
}
