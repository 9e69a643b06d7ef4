/**
  The exceptions the bot raises or lets escape. Each carries the data its
  message is built from, so two equal values always stand for equal message
  texts; the texts themselves are not spelled out.
*/
module Errors {
  import opened Json

  /** Where a TypeError comes from. */
  datatype TypeSite =
    | AnswerNotDict                // check_response: the answer is not a dict
    | HomeworksNotList             // check_response: `homeworks` is not a list
    | NotIterable(t: PyType)       // parse_status: `in` on a record of type t
    | StrIndex(t: PyType)          // parse_status: a list or str record indexed with a str
    | UnhashableStatus(t: PyType)  // parse_status: a list or dict status looked up in the verdict table

  /** Where a KeyError comes from. */
  datatype KeySite =
    | AnswerHomeworks              // check_response: no `homeworks` key
    | RecordFields                 // parse_status: no `homework_name` or no `status` key

  datatype Error =
    | MissingTokens(names: seq<string>)                     // the bare Exception raised by check_tokens
    | ConnectionFailure(fromDate: JVal, cause: string)      // the request for `from_date` failed with `cause`
    | InvalidResponseCode(code: int, reason: string, text: string)  // the reply status was not 200 OK
    | DecodeFailure(text: string)                           // response.json() found no JSON in the body `text`
    | TypeErr(typeSite: TypeSite)
    | KeyErr(keySite: KeySite)
    | ValueErr(shown: string)                               // an unknown status, as `str()` shows it
    | AttributeErr(answerType: PyType)                      // `.get` on an answer of this type
}
