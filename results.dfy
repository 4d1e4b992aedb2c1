/** Outcomes shared by the modules of the languages.json updater. */
module Results {

  datatype Option<T> = None | Some(value: T)

  /** The exceptions the updater does not catch: each one ends the run before
      anything is written. */
  datatype Failure =
    | MissingUnderscore(file: string)  // ValueError from str.index("_") on a .tsv file name
    | UnknownLanguage(code: string)    // KeyError from languages[iso639_code]
    | UnknownScriptName                // KeyError from the script alias table

  /** A value, or the exception that replaced it. */
  datatype Result<T> = Ok(value: T) | Err(error: Failure)

  /** What a state-changing step ended with. */
  datatype Status = Success | Raised(error: Failure)
}
