/**
 * The phrase list and search view.
 *
 * Pure parts: the `field:dir,field:dir` sort string, the search parameter
 * records, the sort-field toggle and the language label lookup. The view's
 * state (search term, sort fields and direction, the latest search
 * parameters, and the create/edit and delete-confirmation dialog state) is a
 * class whose methods are the event handlers and mutation callbacks.
 */
module PhraseList {
  import opened PhraseTypes

  datatype SortField = ByPhrase | ByStatus | ByTranslationLanguage

  datatype SortOrder = Asc | Desc

  /** The wire name of a sort field (the checkbox `name`). */
  function FieldName(f: SortField): string {
    match f
    case ByPhrase => "phrase"
    case ByStatus => "status"
    case ByTranslationLanguage => "translations.language"
  }

  function OrderName(o: SortOrder): string {
    match o
    case Asc => "asc"
    case Desc => "desc"
  }

  /** The search parameters sent to the search endpoint. */
  datatype ApiParams = ApiParams(query: string, sort: string, searchFields: string)

  /** `searchFields` of the parameters built when the view mounts. */
  const InitialSearchFields: string := "phrase,status,translations.text"

  /** `searchFields` of the parameters the debounced search rebuilds. */
  const DebouncedSearchFields: string := "phrase,status"

  /** `parts.join(sep)`. */
  function Join(parts: seq<string>, sep: char): string
    decreases |parts|
  {
    if parts == [] then ""
    else if |parts| == 1 then parts[0]
    else parts[0] + [sep] + Join(parts[1..], sep)
  }

  /** `s.split(sep)` for a one-character separator: "" splits into [""]. */
  function Split(s: string, sep: char): (r: seq<string>)
    ensures |r| >= 1
    decreases |s|
  {
    if s == [] then [""]
    else
      var rest := Split(s[1..], sep);
      if s[0] == sep then [""] + rest else [[s[0]] + rest[0]] + rest[1..]
  }

  /** One sort segment, `field:dir`. */
  function Segment(f: SortField, o: SortOrder): string {
    FieldName(f) + ":" + OrderName(o)
  }

  /** One segment per sort field, in order, each with the shared direction. */
  function SortSegments(fields: seq<SortField>, o: SortOrder): seq<string> {
    seq(|fields|, i requires 0 <= i < |fields| => Segment(fields[i], o))
  }

  function SortString(fields: seq<SortField>, o: SortOrder): string {
    Join(SortSegments(fields, o), ',')
  }

  function InitialParams(term: string, fields: seq<SortField>, o: SortOrder): ApiParams {
    ApiParams(term, SortString(fields, o), InitialSearchFields)
  }

  function DebouncedParams(term: string, fields: seq<SortField>, o: SortOrder): ApiParams {
    ApiParams(term, SortString(fields, o), DebouncedSearchFields)
  }

  lemma {:induction false} SplitSepFree(a: string, rest: string, sep: char)
    requires sep !in a
    ensures Split(a + rest, sep) == [a + Split(rest, sep)[0]] + Split(rest, sep)[1..]
    decreases |a|
  {
    if a != [] {
      assert (a + rest)[0] == a[0];
      assert (a + rest)[1..] == a[1..] + rest;
      SplitSepFree(a[1..], rest, sep);
      assert [a[0]] + (a[1..] + Split(rest, sep)[0]) == a + Split(rest, sep)[0];
    } else {
      var r := Split(rest, sep);
      assert a + rest == rest;
      assert a + r[0] == r[0];
      assert [r[0]] + r[1..] == r;
    }
  }

  /** Splitting a join of separator-free parts gives the parts back. */
  lemma {:induction false} SplitJoin(parts: seq<string>, sep: char)
    requires |parts| >= 1
    requires forall i :: 0 <= i < |parts| ==> sep !in parts[i]
    ensures Split(Join(parts, sep), sep) == parts
    decreases |parts|
  {
    if |parts| == 1 {
      SplitSepFree(parts[0], "", sep);
      assert parts[0] + "" == parts[0];
    } else {
      var tail := Join(parts[1..], sep);
      assert Join(parts, sep) == parts[0] + ([sep] + tail);
      SplitSepFree(parts[0], [sep] + tail, sep);
      assert ([sep] + tail)[1..] == tail;
      assert Split([sep] + tail, sep) == [""] + Split(tail, sep);
      SplitJoin(parts[1..], sep);
      assert parts[0] + "" == parts[0];
      assert [parts[0]] + parts[1..] == parts;
    }
  }

  lemma SegmentHasNoComma(f: SortField, o: SortOrder)
    ensures ',' !in Segment(f, o)
  {
    var s := Segment(f, o);
    assert forall i :: 0 <= i < |s| ==> s[i] != ',';
  }

  /**
   * The sort string has one comma-separated segment per sort field, in the
   * order of the fields, each `field:dir` with the one shared direction; no
   * fields give the empty string.
   */
  lemma SortStringSegments(fields: seq<SortField>, o: SortOrder)
    ensures fields == [] ==> SortString(fields, o) == ""
    ensures fields != [] ==>
              && |Split(SortString(fields, o), ',')| == |fields|
              && forall i :: 0 <= i < |fields| ==>
                   Split(SortString(fields, o), ',')[i] == FieldName(fields[i]) + ":" + OrderName(o)
  {
    if fields != [] {
      var segs := SortSegments(fields, o);
      forall i | 0 <= i < |segs| ensures ',' !in segs[i] {
        SegmentHasNoComma(fields[i], o);
      }
      SplitJoin(segs, ',');
    }
  }

  /** The initial state, `['phrase']` ascending, sorts by "phrase:asc". */
  lemma InitialSortString()
    ensures SortString([ByPhrase], Asc) == "phrase:asc"
  {
    assert Segment(ByPhrase, Asc) == "phrase:asc";
    assert SortSegments([ByPhrase], Asc) == ["phrase:asc"];
  }

  /** Two fields descending give "phrase:desc,status:desc". */
  lemma TwoFieldSortString()
    ensures SortString([ByPhrase, ByStatus], Desc) == "phrase:desc,status:desc"
  {
    var segs := SortSegments([ByPhrase, ByStatus], Desc);
    assert Segment(ByPhrase, Desc) == "phrase:desc";
    assert Segment(ByStatus, Desc) == "status:desc";
    assert segs == ["phrase:desc", "status:desc"];
    assert segs[1..] == ["status:desc"];
  }

  /**
   * The two ways of building parameters agree on query and sort and differ
   * only in `searchFields`: the debounced rebuild drops "translations.text".
   */
  lemma SearchFieldsAsymmetry(term: string, fields: seq<SortField>, o: SortOrder)
    ensures InitialParams(term, fields, o).(searchFields := DebouncedSearchFields) == DebouncedParams(term, fields, o)
    ensures InitialParams(term, fields, o).searchFields == DebouncedParams(term, fields, o).searchFields + ",translations.text"
  {
    SearchFieldsExtend();
  }

  lemma SearchFieldsExtend()
    ensures InitialSearchFields == DebouncedSearchFields + ",translations.text"
  {
    var tail := ",translations.text";
    assert |DebouncedSearchFields + tail| == |InitialSearchFields|;
    forall i | 0 <= i < |InitialSearchFields|
      ensures (DebouncedSearchFields + tail)[i] == InitialSearchFields[i]
    {
    }
  }

  /** The fields with every occurrence of `f` removed, the rest in their order. */
  function WithoutField(fields: seq<SortField>, f: SortField): seq<SortField>
    decreases |fields|
  {
    if fields == [] then [] else (if fields[0] == f then [] else [fields[0]]) + WithoutField(fields[1..], f)
  }

  /** The new sort fields after a checkbox change: append when checked, remove when unchecked. */
  function ToggleSortField(fields: seq<SortField>, f: SortField, checked: bool): seq<SortField> {
    if checked then fields + [f] else WithoutField(fields, f)
  }

  lemma {:induction false} WithoutFieldAppend(a: seq<SortField>, b: seq<SortField>, f: SortField)
    ensures WithoutField(a + b, f) == WithoutField(a, f) + WithoutField(b, f)
    decreases |a|
  {
    if a == [] {
      assert a + b == b;
    } else {
      assert (a + b)[0] == a[0];
      assert (a + b)[1..] == a[1..] + b;
      WithoutFieldAppend(a[1..], b, f);
    }
  }

  /**
   * Unchecking removes every occurrence of the field and keeps every other
   * field, as many times as it occurred.
   */
  lemma {:induction false} WithoutFieldCounts(fields: seq<SortField>, f: SortField)
    ensures multiset(WithoutField(fields, f)) == multiset(fields)[f := 0]
    decreases |fields|
  {
    if fields != [] {
      WithoutFieldCounts(fields[1..], f);
      assert fields == [fields[0]] + fields[1..];
      assert multiset(fields) == multiset([fields[0]]) + multiset(fields[1..]);
    }
  }

  /** A field that is not there is not touched: removal keeps the list as it is. */
  lemma {:induction false} WithoutAbsentField(fields: seq<SortField>, f: SortField)
    requires f !in fields
    ensures WithoutField(fields, f) == fields
    decreases |fields|
  {
    if fields != [] {
      assert fields[1..] == fields[1..];
      assert f !in fields[1..] by {
        forall i | 0 <= i < |fields| - 1 ensures fields[1..][i] != f {
          assert fields[1..][i] == fields[i + 1];
        }
      }
      WithoutAbsentField(fields[1..], f);
      assert [fields[0]] + fields[1..] == fields;
    }
  }

  /**
   * Checking appends with no duplicate guard; unchecking a field just
   * checked restores the list when the field was absent before.
   */
  lemma SortFieldToggle(fields: seq<SortField>, f: SortField)
    ensures |ToggleSortField(fields, f, true)| == |fields| + 1
    ensures ToggleSortField(fields, f, true)[|fields|] == f
    ensures multiset(ToggleSortField(fields, f, true))[f] == multiset(fields)[f] + 1
    ensures f !in ToggleSortField(fields, f, false)
    ensures f !in fields ==> ToggleSortField(ToggleSortField(fields, f, true), f, false) == fields
  {
    WithoutFieldCounts(fields, f);
    assert multiset(WithoutField(fields, f))[f] == 0;
    if f !in fields {
      WithoutFieldAppend(fields, [f], f);
      WithoutAbsentField(fields, f);
      assert WithoutField([f], f) == [];
    }
  }

  /** The first catalog entry whose code is `code`, if any. */
  function FindByCode(langs: seq<Language>, code: string): Option<Language>
    decreases |langs|
  {
    if langs == [] then None
    else if langs[0].code == code then Some(langs[0])
    else FindByCode(langs[1..], code)
  }

  /**
   * The label of a translation's language: the name of the first catalog
   * entry with that code, or the raw code when the catalog is not loaded,
   * has no such entry, or the entry's name is empty.
   */
  function LanguageLabel(langs: Option<seq<Language>>, code: string): string {
    var found := if langs.None? then None else FindByCode(langs.value, code);
    if found.Some? && found.value.language != "" then found.value.language else code
  }

  lemma {:induction false} FindByCodeFirst(langs: seq<Language>, code: string, i: nat)
    requires i < |langs| && langs[i].code == code
    requires forall j :: 0 <= j < i ==> langs[j].code != code
    ensures FindByCode(langs, code) == Some(langs[i])
    decreases i
  {
    if i > 0 {
      FindByCodeFirst(langs[1..], code, i - 1);
    }
  }

  lemma {:induction false} FindByCodeNone(langs: seq<Language>, code: string)
    requires forall j :: 0 <= j < |langs| ==> langs[j].code != code
    ensures FindByCode(langs, code) == None
    decreases |langs|
  {
    if langs != [] {
      FindByCodeNone(langs[1..], code);
    }
  }

  /** The first entry with the code decides the label; later entries never matter. */
  lemma LanguageLabelFirstMatch(langs: seq<Language>, code: string, i: nat)
    requires i < |langs| && langs[i].code == code
    requires forall j :: 0 <= j < i ==> langs[j].code != code
    ensures LanguageLabel(Some(langs), code) == if langs[i].language != "" then langs[i].language else code
  {
    FindByCodeFirst(langs, code, i);
  }

  /** No entry with the code: the label is the raw code. */
  lemma LanguageLabelFallback(langs: seq<Language>, code: string)
    requires forall j :: 0 <= j < |langs| ==> langs[j].code != code
    ensures LanguageLabel(Some(langs), code) == code
  {
    FindByCodeNone(langs, code);
  }

  class PhraseTemplate {
    var searchTerm: string
    var sortFields: seq<SortField>
    var sortOrder: SortOrder
    var searchParams: ApiParams
    /** The parameter record the query hook was built from at the last render. */
    var renderedParams: ApiParams
    var isCreateEditFormOpen: bool
    var editId: Option<string>
    var deleteDialogOpen: bool
    var phraseToDelete: Option<string>

    /** The state `resetForm` leaves: no form, no edit target, no delete dialog, nothing to delete. */
    predicate DialogsReset()
      reads this
    {
      !isCreateEditFormOpen && editId == None && !deleteDialogOpen && phraseToDelete == None
    }

    /** Mounting: sort by phrase ascending, and the initial search parameters. */
    constructor ()
      ensures searchTerm == "" && sortFields == [ByPhrase] && sortOrder == Asc
      ensures searchParams == ApiParams("", "phrase:asc", "phrase,status,translations.text")
      ensures renderedParams == searchParams
      ensures DialogsReset()
    {
      searchTerm := "";
      sortFields := [ByPhrase];
      sortOrder := Asc;
      searchParams := InitialParams("", [ByPhrase], Asc);
      renderedParams := searchParams;
      isCreateEditFormOpen := false;
      editId := None;
      deleteDialogOpen := false;
      phraseToDelete := None;
      InitialSortString();
    }

    /** `handleSortFieldChange`: a sort checkbox was checked or unchecked. */
    method HandleSortFieldChange(field: SortField, checked: bool)
      modifies this`sortFields
      ensures checked ==> sortFields == old(sortFields) + [field]
      ensures !checked ==> sortFields == WithoutField(old(sortFields), field)
    {
      sortFields := ToggleSortField(sortFields, field, checked);
    }

    /** `handleSortOrderChange`. */
    method HandleSortOrderChange(order: SortOrder)
      modifies this`sortOrder
      ensures sortOrder == order
    {
      sortOrder := order;
    }

    /** `handleSearchChange`. */
    method HandleSearchChange(term: string)
      modifies this`searchTerm
      ensures searchTerm == term
    {
      searchTerm := term;
    }

    /**
     * A render of the view: the query hook is rebuilt from the record the
     * parameter ref holds now, and that record becomes the query key.
     */
    method Render()
      modifies this`renderedParams
      ensures renderedParams == searchParams
    {
      renderedParams := searchParams;
    }

    /**
     * The debounced search callback, once its quiet period has passed. It
     * rebuilds the parameter record from the current state, which changes
     * only the ref and so causes no render, and then refetches. The refetch
     * re-runs the query of the last render, so what it sends is the record
     * that render used, not the one just built.
     */
    method RunDebouncedSearch() returns (sent: ApiParams)
      modifies this`searchParams
      ensures sent == renderedParams
      ensures searchParams.query == searchTerm
      ensures searchParams.sort == SortString(sortFields, sortOrder)
      ensures searchParams.searchFields == "phrase,status"
    {
      searchParams := DebouncedParams(searchTerm, sortFields, sortOrder);
      sent := renderedParams;
    }

    /** `handleOpenCreateForm`. */
    method HandleOpenCreateForm()
      modifies this`isCreateEditFormOpen
      ensures isCreateEditFormOpen
    {
      isCreateEditFormOpen := true;
    }

    /** The edit button of a row: edit that phrase in the form. */
    method HandleEditClick(id: string)
      modifies this`editId, this`isCreateEditFormOpen
      ensures editId == Some(id) && isCreateEditFormOpen
    {
      editId := Some(id);
      isCreateEditFormOpen := true;
    }

    /** `handleDeleteClick`: remember the phrase and open the confirmation dialog. */
    method HandleDeleteClick(id: string)
      modifies this`phraseToDelete, this`deleteDialogOpen
      ensures phraseToDelete == Some(id) && deleteDialogOpen
    {
      phraseToDelete := Some(id);
      deleteDialogOpen := true;
    }

    /** `resetForm`. */
    method ResetForm()
      modifies this`isCreateEditFormOpen, this`editId, this`deleteDialogOpen, this`phraseToDelete
      ensures DialogsReset()
    {
      isCreateEditFormOpen := false;
      editId := None;
      deleteDialogOpen := false;
      phraseToDelete := None;
    }

    /** `handleCloseCreateForm`: closes the form and resets all dialog state. */
    method HandleCloseCreateForm()
      modifies this`isCreateEditFormOpen, this`editId, this`deleteDialogOpen, this`phraseToDelete
      ensures DialogsReset()
    {
      isCreateEditFormOpen := false;
      editId := None;
      ResetForm();
    }

    /** `handleDeleteCancel`: no call, and the dialog state is reset. */
    method HandleDeleteCancel()
      modifies this`isCreateEditFormOpen, this`editId, this`deleteDialogOpen, this`phraseToDelete
      ensures DialogsReset()
    {
      ResetForm();
    }

    /**
     * `handleDeleteConfirm`: the id passed to the remove call, if one is
     * issued. It is issued exactly when `phraseToDelete` is truthy.
     */
    method HandleDeleteConfirm() returns (removeId: Option<string>)
      ensures removeId.Some? <==> Truthy(phraseToDelete)
      ensures removeId.Some? ==> removeId == phraseToDelete
    {
      if Truthy(phraseToDelete) {
        removeId := phraseToDelete;
      } else {
        removeId := None;
      }
    }

    /** The remove call succeeded: the list refetches (not modelled) and the dialog state is reset. */
    method DeleteSucceeded()
      modifies this`isCreateEditFormOpen, this`editId, this`deleteDialogOpen, this`phraseToDelete
      ensures DialogsReset()
    {
      ResetForm();
    }

    /** The remove call failed: the state stays as it was, so the user can retry. */
    method DeleteFailed()
      ensures unchanged(this)
    {
    }
  }

  /**
   * The delete flow from a freshly mounted view: clicking delete on a row and
   * confirming issues the remove call for that row's id, unless the id is
   * empty; a success then resets the dialog state.
   */
  method DeleteFlow(id: string, succeeds: bool) returns (removeId: Option<string>, reset: bool)
    ensures removeId == (if id != "" then Some(id) else None)
    ensures reset <==> removeId.Some? && succeeds
  {
    var view := new PhraseTemplate();
    view.HandleDeleteClick(id);
    removeId := view.HandleDeleteConfirm();
    if removeId.Some? && succeeds {
      view.DeleteSucceeded();
    } else if removeId.Some? {
      view.DeleteFailed();
    }
    reset := view.DialogsReset();
    assert view.deleteDialogOpen <==> !reset;
  }

  /** Cancelling the confirmation issues no call and clears the dialog state. */
  method CancelFlow(id: string) returns (removeId: Option<string>, reset: bool)
    ensures removeId == None && reset
  {
    var view := new PhraseTemplate();
    view.HandleDeleteClick(id);
    view.HandleDeleteCancel();
    removeId := view.HandleDeleteConfirm();
    reset := view.DialogsReset();
  }

  /**
   * Typing a term and letting the debounce fire: the refetch still sends the
   * mount-time record (empty query, all three search fields). The typed term
   * reaches the server only once some later render makes the rebuilt record
   * the query key.
   */
  method SearchLagsOneRender(term: string) returns (sent: ApiParams, nextKey: ApiParams)
    ensures sent == ApiParams("", "phrase:asc", InitialSearchFields)
    ensures nextKey == ApiParams(term, "phrase:asc", DebouncedSearchFields)
  {
    var view := new PhraseTemplate();
    view.HandleSearchChange(term);
    view.Render();
    sent := view.RunDebouncedSearch();
    view.Render();
    nextKey := view.renderedParams;
    InitialSortString();
  }
}
