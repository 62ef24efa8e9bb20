/** The failures the generator filters report. The source reports each as a
    message string; the model keeps one variant per distinct failure, with
    the data the message carries. */
module Errors {

  datatype FilterError =
    /** The input value is not a JSON object (responses / request body). */
    | NotAnObject
    /** The selected response or the request body has no `content` member. */
    | MissingContent
    /** The responses object has no entry at all. */
    | EmptyResponses
    /** Neither `application/json` nor the first media type carries a `schema`. */
    | NoUsableSchema
    /** The path handed to a filter is not a string. */
    | PathNotString
    /** The `method` argument is absent or not a string. */
    | MissingMethod
    /** The method is not one of the six supported verbs; the original text is kept. */
    | UnsupportedMethod(verb: string)
    /** The input value is not a JSON array (tags). */
    | NotAnArray
    /** The element at this index of the tags array is not a string. */
    | ElementNotString(index: nat)
    /** The property name handed to `is_required` is not a string. */
    | NameNotString
    /** The `required_list` argument is absent or not an array. */
    | RequiredListMissing
    /** The spec path has none of the recognised suffixes; the path is kept. */
    | FormatUndetected(path: string)
}
