/** The failure values of the tag-derivation core: the errors the action throws,
    with the offending value kept as data instead of being formatted into a message. */
module Outcomes {

  datatype Option<+T> = None | Some(value: T)

  datatype Error =
    /** "Invalid suffix character: c" — a suffix character outside 'a'..'z'. */
    | InvalidSuffixCharacter(c: char)
    /** "Invalid version format: v" — v does not match ^(\d{5,7})([a-z]+)$. */
    | InvalidVersionFormat(version: string)
    /** "Failed to parse current version: ..." — wraps the error raised while
        handling an explicitly supplied current version. */
    | FailedToParseCurrentVersion(cause: Error)

  datatype Result<+T> = Success(value: T) | Failure(error: Error)
}
