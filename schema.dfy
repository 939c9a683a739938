/**
 * The create and update validation rules for a phrase payload.
 *
 * A rule set is modelled the way the validator reports it: as the list of
 * issues it finds, in field order (phrase, status, translations, then each
 * translation's language and text, then the update-only id). A payload is
 * valid when that list is empty. Parsing a valid payload also drops the keys
 * the rule set does not declare, so the create rules drop the phrase `id`.
 */
module PhraseSchema {
  import opened PhraseTypes

  /** The three accepted values of the status enum. */
  const Statuses: set<string> := {"active", "pending", "spam"}

  datatype Issue =
    | PhraseRequired              // "Phrase is required"
    | InvalidStatus               // status outside the enum
    | TranslationsRequired        // "At least one translation is required"
    | LanguageRequired(row: nat)  // "Language is required" at translations[row]
    | TextRequired(row: nat)      // "Translation text is required" at translations[row]
    | IdMissing                   // update rules: id absent
    | IdRequired                  // update rules: "Id is required" (id is '')

  datatype Parsed = Valid(data: PhraseInput) | Invalid(issues: seq<Issue>)

  /** Issues of one translation row at position `row`; its optional `id` is never checked. */
  function RowIssues(t: Translation, row: nat): seq<Issue> {
    (if t.language == "" then [LanguageRequired(row)] else [])
    + (if t.text == "" then [TextRequired(row)] else [])
  }

  /** Issues of the rows of `ts`, the first of which sits at position `offset`. */
  function TranslationIssues(ts: seq<Translation>, offset: nat): seq<Issue>
    decreases |ts|
  {
    if ts == [] then [] else RowIssues(ts[0], offset) + TranslationIssues(ts[1..], offset + 1)
  }

  /** The create rules (also the base of the update rules). */
  function BaseIssues(p: PhraseInput): seq<Issue> {
    (if p.phrase == "" then [PhraseRequired] else [])
    + (if p.status in Statuses then [] else [InvalidStatus])
    + (if |p.translations| == 0 then [TranslationsRequired] else [])
    + TranslationIssues(p.translations, 0)
  }

  /** The update rules: the create rules extended with a required, non-empty id. */
  function UpdateIssues(p: PhraseInput): seq<Issue> {
    BaseIssues(p)
    + (match p.id
       case None => [IdMissing]
       case Some(id) => if id == "" then [IdRequired] else [])
  }

  predicate CreateValid(p: PhraseInput) {
    BaseIssues(p) == []
  }

  predicate UpdateValid(p: PhraseInput) {
    UpdateIssues(p) == []
  }

  /** A row as the rules want it: a language and a text. */
  predicate RowComplete(t: Translation) {
    t.language != "" && t.text != ""
  }

  /** Parsing with the create rules: the undeclared `id` key is dropped from the output. */
  function ParseCreate(p: PhraseInput): (r: Parsed)
    ensures r.Valid? ==> CreateValid(p) && r.data == p.(id := None)
    ensures r.Invalid? ==> r.issues == BaseIssues(p) && r.issues != []
  {
    if CreateValid(p) then Valid(p.(id := None)) else Invalid(BaseIssues(p))
  }

  /** Parsing with the update rules: every key is declared, so the payload passes unchanged. */
  function ParseUpdate(p: PhraseInput): (r: Parsed)
    ensures r.Valid? ==> UpdateValid(p) && r.data == p
    ensures r.Invalid? ==> r.issues == UpdateIssues(p) && r.issues != []
  {
    if UpdateValid(p) then Valid(p) else Invalid(UpdateIssues(p))
  }

  lemma {:induction false} TranslationIssuesEmpty(ts: seq<Translation>, offset: nat)
    ensures TranslationIssues(ts, offset) == [] <==> forall i :: 0 <= i < |ts| ==> RowComplete(ts[i])
    decreases |ts|
  {
    if ts != [] {
      TranslationIssuesEmpty(ts[1..], offset + 1);
      assert forall i :: 1 <= i < |ts| ==> ts[i] == ts[1..][i - 1];
    }
  }

  /** Create-valid exactly when every field rule holds. */
  lemma CreateValidIff(p: PhraseInput)
    ensures CreateValid(p) <==>
      && p.phrase != ""
      && p.status in Statuses
      && |p.translations| > 0
      && forall i :: 0 <= i < |p.translations| ==> RowComplete(p.translations[i])
  {
    TranslationIssuesEmpty(p.translations, 0);
  }

  /** Update-valid exactly when create-valid and the id is present and non-empty. */
  lemma UpdateValidIff(p: PhraseInput)
    ensures UpdateValid(p) <==> CreateValid(p) && Truthy(p.id)
  {
  }

  /** The update rules only add a constraint to the create rules. */
  lemma UpdateValidImpliesCreateValid(p: PhraseInput)
    requires UpdateValid(p)
    ensures CreateValid(p)
  {
    UpdateValidIff(p);
  }

  /** An empty translation list is rejected whatever the other fields hold. */
  lemma EmptyTranslationsRejected(p: PhraseInput)
    requires p.translations == []
    ensures TranslationsRequired in BaseIssues(p)
    ensures !CreateValid(p) && !UpdateValid(p)
  {
    assert BaseIssues(p)[|BaseIssues(p)| - 1] == TranslationsRequired;
  }

  /** A status outside the enum is rejected by both rule sets. */
  lemma InvalidStatusRejected(p: PhraseInput)
    requires p.status !in Statuses
    ensures InvalidStatus in BaseIssues(p) && InvalidStatus in UpdateIssues(p)
    ensures !CreateValid(p) && !UpdateValid(p)
  {
    var pre := if p.phrase == "" then [PhraseRequired] else [];
    assert BaseIssues(p)[|pre|] == InvalidStatus;
    assert UpdateIssues(p)[|pre|] == InvalidStatus;
  }

  lemma {:induction false} LanguageIssueLocated(ts: seq<Translation>, offset: nat, k: nat)
    ensures LanguageRequired(k) in TranslationIssues(ts, offset)
        <==> offset <= k < offset + |ts| && ts[k - offset].language == ""
    decreases |ts|
  {
    if ts != [] {
      LanguageIssueLocated(ts[1..], offset + 1, k);
      var head, rest := RowIssues(ts[0], offset), TranslationIssues(ts[1..], offset + 1);
      assert TranslationIssues(ts, offset) == head + rest;
      assert LanguageRequired(k) in head <==> k == offset && ts[0].language == "";
      if offset < k < offset + |ts| {
        assert ts[k - offset] == ts[1..][k - (offset + 1)];
      }
    }
  }

  lemma {:induction false} TextIssueLocated(ts: seq<Translation>, offset: nat, k: nat)
    ensures TextRequired(k) in TranslationIssues(ts, offset)
        <==> offset <= k < offset + |ts| && ts[k - offset].text == ""
    decreases |ts|
  {
    if ts != [] {
      TextIssueLocated(ts[1..], offset + 1, k);
      var head, rest := RowIssues(ts[0], offset), TranslationIssues(ts[1..], offset + 1);
      assert TranslationIssues(ts, offset) == head + rest;
      assert TextRequired(k) in head <==> k == offset && ts[0].text == "";
      if offset < k < offset + |ts| {
        assert ts[k - offset] == ts[1..][k - (offset + 1)];
      }
    }
  }

  /**
   * Each row error is reported against exactly the row that has it: the issue
   * for row k is present iff row k exists and its field is empty.
   */
  lemma RowIssueIff(p: PhraseInput, k: nat)
    ensures LanguageRequired(k) in BaseIssues(p)
        <==> k < |p.translations| && p.translations[k].language == ""
    ensures TextRequired(k) in BaseIssues(p)
        <==> k < |p.translations| && p.translations[k].text == ""
  {
    LanguageIssueLocated(p.translations, 0, k);
    TextIssueLocated(p.translations, 0, k);
  }

  /** Two row lists that agree on every language and text. */
  predicate SameContent(ts: seq<Translation>, us: seq<Translation>) {
    && |ts| == |us|
    && forall i :: 0 <= i < |ts| ==> ts[i].language == us[i].language && ts[i].text == us[i].text
  }

  lemma {:induction false} TranslationIssuesIgnoreIds(ts: seq<Translation>, us: seq<Translation>, offset: nat)
    requires SameContent(ts, us)
    ensures TranslationIssues(ts, offset) == TranslationIssues(us, offset)
    decreases |ts|
  {
    if ts != [] {
      assert SameContent(ts[1..], us[1..]) by {
        forall i | 0 <= i < |ts| - 1
          ensures ts[1..][i].language == us[1..][i].language && ts[1..][i].text == us[1..][i].text
        {
          assert ts[1..][i] == ts[i + 1] && us[1..][i] == us[i + 1];
        }
      }
      TranslationIssuesIgnoreIds(ts[1..], us[1..], offset + 1);
    }
  }

  /**
   * Ids never matter to the create rules: neither the phrase id nor any
   * translation's optional id changes the issues found.
   */
  lemma IdsIgnoredByCreateRules(p: PhraseInput, id: Option<string>, us: seq<Translation>)
    requires SameContent(p.translations, us)
    ensures BaseIssues(p.(id := id, translations := us)) == BaseIssues(p)
    ensures CreateValid(p.(id := id, translations := us)) <==> CreateValid(p)
  {
    TranslationIssuesIgnoreIds(p.translations, us, 0);
  }

  /**
   * The form's default values are invalid as submitted: the phrase is empty
   * and the one empty row lacks both its language and its text; the status
   * is fine.
   */
  lemma DefaultValuesRejected()
    ensures BaseIssues(DefaultValues) == [PhraseRequired, LanguageRequired(0), TextRequired(0)]
    ensures UpdateIssues(DefaultValues) == [PhraseRequired, LanguageRequired(0), TextRequired(0), IdMissing]
  {
    assert "active" in Statuses;
    assert [EmptyRow][1..] == [];
    assert TranslationIssues([EmptyRow], 0) == [LanguageRequired(0), TextRequired(0)];
  }
}
