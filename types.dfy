/**
 * The value shapes shared by the phrase screens: a phrase, its translations,
 * the language catalog entries, and the form values the create/edit form holds.
 * Server-only fields (phraseId and the timestamps) play no part in any rule and
 * are not carried.
 */
module PhraseTypes {

  datatype Option<+T> = None | Some(value: T)

  /** JavaScript truthiness of a `string | undefined | null`: absent and '' are falsy. */
  predicate Truthy(s: Option<string>) {
    s.Some? && s.value != ""
  }

  /** A translation row; `id` is absent until the server has persisted it. */
  datatype Translation = Translation(id: Option<string>, language: string, text: string)

  /** The form values, which are also the create and update payloads. */
  datatype PhraseInput = PhraseInput(
    id: Option<string>,
    phrase: string,
    status: string,
    translations: seq<Translation>)

  /** A phrase as the by-id query returns it. */
  datatype Phrase = Phrase(id: string, phrase: string, status: string, translations: seq<Translation>)

  /** A language catalog entry: a display name and the code stored on translations. */
  datatype Language = Language(language: string, code: string)

  /** The row `addTranslation` appends and the single row of the default values. */
  const EmptyRow: Translation := Translation(None, "", "")

  /** The form's default values. */
  const DefaultValues: PhraseInput := PhraseInput(None, "", "active", [EmptyRow])
}
