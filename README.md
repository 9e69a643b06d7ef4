# homework_bot: a Dafny model of the status poller

The bot polls a homework-review API, looks at the first homework in the
answer, and sends a Telegram notification when the review status text
changes. Failures are reported through the same channel. This project models
the logic of `homework.py` between the network and the chat:

- the start-up credential check (`check_tokens`): a loop that collects the
  names of the blank variables, proved against a specification function;
- the validation of the decoded answer (`check_response`);
- the rendering of one homework record (`parse_status`) with the verdict table
  `HOMEWORK_VERDICTS`, together with a decoder that reads a notification back
  into its name and status;
- the deduplication rule shared by `process_homeworks` and `handle_error`;
- `update_timestamp` and one pass of `main`'s loop body as written, plus the
  whole of `main` as a method that runs a given sequence of cycles.

Modules: `Wrappers` (Option, Result), `Errors` (one tag per exception kind),
`Json` (decoded JSON values, dict lookup, Python's `str()`/`repr()`), `Tokens`,
`Validation` and `PollLoop`.

The HTTP exchange is an input (`HttpReply`): a failed request, or a status
code with a body that is JSON or not. The result of each `send_message` call
is an input boolean. The clock reading at start-up is a parameter. Each error
value carries the data its Python message is built from. Examples are the
site of a TypeError or KeyError, `str()` of an unknown status, the type that
lacks `.get`, the code, reason and body text of a bad reply, and the
`from_date` and cause of a failed request. `str()` of an exception is given by
a function parameter `detail` on that value.

In these points the code does something other than what a clean poller
design would suggest, and the model follows the code:

- `update_timestamp` fetches a second time and takes `current_date` from that
  second answer. It does not reuse the answer that was validated.
- `main` discards what `process_homeworks` and `handle_error` return, so
  `previous_message` stays `""` (see Findings). `PollLoop.Cycle` and
  `PollLoop.RunBot` model this as written.
- A non-object answer is a `TypeError`. A missing key is a `KeyError`. An
  unknown status is a `ValueError`. An answer that is not JSON is reported
  under the generic "program failure" prefix, not as a decode error of its
  own.
- The notification template and the verdicts are the Russian texts in the
  code.
- If the status in a dict record is a list or a dict, the verdict-table test
  raises `TypeError`, not `ValueError`.
- A record that is not a dict is handled as Python handles it:
  - a list record is tested by element membership;
  - a str record is tested by substring;
  - if both tests pass, indexing such a record with a str raises `TypeError`;
  - for any other kind of record, the `in` test itself raises `TypeError`.

## Model

| member | source | states |
|---|---|---|
| `Tokens.IsBlank` | homework.py:55 | `not value` for a variable read with `os.getenv`: unset or empty. The body is the definition. |
| `Tokens.TokenTable` | homework.py:46-50 | The `tokens` dict: the names PRACTICUM_TOKEN, TELEGRAM_TOKEN and TELEGRAM_CHAT_ID in this order, each with the value read for it. |
| `Tokens.BlankNames` | homework.py:52-57 | The list the loop builds: at most one name per token. Which names, and in what order, is stated by `BlankNamesExact` and `ThreeTokenNames`. |
| `Tokens.CheckTokens` | homework.py:44-65 | Succeeds with `true` exactly when all three variables are set and non-empty. Otherwise the error carries the names the loop appended, i.e. `BlankNames` of the three-entry table. |
| `Tokens.BlankNamesExact` | homework.py:52-57 | A name is reported exactly when some token with that name is unset or empty. |
| `Tokens.BlankNamesEmpty` | homework.py:59-65 | Nothing is reported exactly when no token is blank. |
| `Tokens.ThreeTokenNames` | homework.py:46-57 | For the bot's three variables, each blank one is reported once, in the order PRACTICUM_TOKEN, TELEGRAM_TOKEN, TELEGRAM_CHAT_ID. |
| `Json.Find` | homework.py:123-127 | A dict lookup finds a value exactly when the key is present. The value found is the one stored under the first item with that key. |
| `Json.FindUnique` | homework.py:127 | In a dict whose keys occur once, the lookup of a key returns the value stored with it. The first item and the last item with the key coincide, so the first-match lookup agrees with Python's dict. |
| `Json.TypeOf` | homework.py:146 | Python's type of a decoded value, as error messages name it. The body is the definition. |
| `Json.Str` | homework.py:153 | `str()` of the name in the f-string: a str is inserted as it is, and any other value as its `repr()`. The text is empty only for the empty str. |
| `Json.Repr` | homework.py:153 | `repr()` of a value is never empty, and it shows the kind: a str in quotes, a list in brackets, a dict in braces. The text of an int reads back as that int. |
| `Json.NatTextRoundTrip` | homework.py:153 | The decimal text of a natural number reads back as the number. |
| `Json.IntTextRoundTrip` | homework.py:153 | The text of an int, with its minus sign, reads back as the int. |
| `Json.Quote` | homework.py:153 | `repr()` of a str: the same quote opens and closes it. The quote is `"` exactly when the text holds a single quote and no double quote, and `'` otherwise. |
| `Json.EscapeRoundTrip` | homework.py:153 | Escaping a str for either quote can be undone: `Unescape` reads the escaped body back to the original text. |
| `Json.QuoteRoundTrip` | homework.py:153 | The body of `repr()` of a str, read with its own quote, gives back the str. So no two strs share a repr. |
| `Validation.Message` | homework.py:153 | The template `Изменился статус проверки работы "{name}". {verdict}`. The body is the definition. Its inverse is `DecodeMessage`, and `DecodeMessageRoundTrip` proves the round trip. |
| `Validation.VerdictTable` | homework.py:37-41 | `HOMEWORK_VERDICTS` has exactly the statuses approved, reviewing and rejected, each with a non-empty text. |
| `Validation.KnownStatus` | homework.py:146 | A status that is a key of the verdict table. The body is the definition. |
| `Validation.Unhashable` | homework.py:146 | A list or a dict status, for which the table test raises TypeError. The body is the definition. |
| `Validation.CheckResponse` | homework.py:117-132 | A non-dict answer is a TypeError (site: not a dict) before any key check. A dict without `homeworks` is a KeyError. A non-list `homeworks` is a TypeError (site: not a list). Otherwise the result is the very list stored under `homeworks`. |
| `Validation.ParseStatus` | homework.py:135-153 | For a dict record: KeyError iff `homework_name` or `status` is absent. With both present: success iff the status is a key of the verdict table, ValueError carrying `str()` of the status iff it is another hashable value, TypeError naming its type iff it is a list or a dict. Non-dict records fail as Python fails on them. A success decodes back to `str()` of the name and the status. |
| `Validation.DecodeMessage` | homework.py:153 | Whatever it decodes is a known status and a name that rebuild the text exactly through the template. |
| `Validation.DecodeMessageRoundTrip` | homework.py:153 | A notification built from a name and a known status decodes back to that name and status. |
| `Validation.VerdictEndingsDiffer` | homework.py:37-41 | No two verdict texts end in the same two characters. |
| `Validation.ParseStatusTemplate` | homework.py:143-153 | On success, the text is exactly `Изменился статус проверки работы "{name}". {verdict}`, with `str()` of the name and the verdict of the status. |
| `Validation.ParseStatusDependsOnlyOnFields` | homework.py:143-153 | Two dict records with the same `homework_name` and `status` values get the same outcome. So repeated calls on one record agree. |
| `Validation.SameMessageIff` | homework.py:143-153 | Two successfully rendered records give the same text iff their names render alike and their statuses are equal. |
| `PollLoop.Answer` | homework.py:107-114 | The decoded answer of a 200 reply whose body holds JSON. The body is the definition. |
| `PollLoop.GetApiAnswer` | homework.py:83-114 | A failed request is a ConnectionError carrying the `from_date` sent and the cause. A status other than 200 is an InvalidResponseCode with the code, reason and body text. A 200 reply yields its JSON body, or a decode error on the body text when it is not JSON. |
| `PollLoop.Homeworks` | homework.py:194-195 | The first two steps of `process_homeworks`: an error from `get_api_answer` propagates. Otherwise the result is `check_response` of the decoded answer. |
| `PollLoop.StatusText` | homework.py:194-202 | The text `process_homeworks` offers to send: when present, it is a notification that decodes to a name and a known status. |
| `PollLoop.SendIfNew` | homework.py:204-207 | Send is invoked iff the text differs from the previous one, and then with that text. The result is the new text iff the text differs and the send succeeded (or the two were already equal); otherwise it is the previous text. |
| `PollLoop.SendIfNewDedup` | homework.py:204-209 | After a text has been delivered, offering the same text again sends nothing and changes nothing. |
| `PollLoop.ProcessHomeworks` | homework.py:192-209 | Fetch and validation errors propagate. An empty list returns the previous text unchanged and sends nothing. Otherwise only the first homework is rendered; its error propagates, and its text goes through the dedup rule. |
| `PollLoop.ProcessHomeworksOnlyFirst` | homework.py:201-202 | Two answers whose homework lists start with the same record give the same outcome. |
| `PollLoop.UpdateTimestamp` | homework.py:212-215 | The second fetch's errors propagate, and a non-dict answer is an AttributeError naming the answer's type. It succeeds exactly when the second fetch yields a dict. The result is then the answer's `current_date` when that key exists, and the old cursor unchanged when it does not. |
| `PollLoop.ErrorText` | homework.py:178-187 | The text handed to `handle_error` is the clause's prefix followed by `str(error)`, and it is never empty. It starts with `Ошибка API: ` exactly for an InvalidResponseCode. It starts with `Сбой подключения: ` exactly for a ConnectionError. It starts with `Сбой в работе программы: ` exactly for every other error. So for any `str(error)`, the text tells which `except` clause caught the error. |
| `PollLoop.ErrorTextIff` | homework.py:178-187 | Two errors give the same report text exactly when the same `except` clause catches them and their messages are equal. |
| `PollLoop.HandleError` | homework.py:218-226 | The dedup rule on the error text: no send when the text equals the previous one, and otherwise exactly one send of the error text. The previous text advances only on a successful send of a different text. |
| `PollLoop.Cycle` | homework.py:174-189 | One loop pass as written. `previous` never changes. The cursor changes only to the value `update_timestamp` returns after `process_homeworks` succeeded. A failed `process_homeworks` leaves the state untouched and sends only the error report. When `process_homeworks` succeeds and `update_timestamp` fails, the state is untouched. The sends are then the status sends followed by the report of the second error. |
| `PollLoop.ThreadedCycle` | homework.py:174-189 | The intended pass, which keeps the `previous_message` that `process_homeworks` and `handle_error` return. The cursor is handled exactly as in `Cycle`. On success, `previous` and the sends are those of `process_homeworks`. When `process_homeworks` fails, `previous` is what `handle_error` returns, and only the report is sent. When `update_timestamp` fails, `handle_error` starts from the `previous` that `process_homeworks` returned, and its report follows the status sends. |
| `PollLoop.Run` | homework.py:174-189 | `while True` as a fold over a finite list of cycles. The body is the definition. Its properties are stated by `RunSplit`, `RunTwo` and `RunKeepsPrevious`. |
| `PollLoop.MainStep` | homework.py:174-189 | The as-written cycle as a step function for `Run`. The body is the definition. |
| `PollLoop.ThreadedStep` | homework.py:174-189 | The corrected cycle as a step function for `Run`, the partner of `MainStep`. The body is the definition. |
| `PollLoop.RunSplit` | homework.py:174-189 | Running one stretch of cycles and then another equals running them together: the second starts from the state the first leaves, and the sends are concatenated. |
| `PollLoop.RunKeepsPrevious` | homework.py:172-187 | Over any number of cycles of `main`, `previous_message` keeps its initial value. |
| `PollLoop.StatusTextNonEmpty` | homework.py:153 | A rendered notification is never empty, so it always differs from `main`'s initial `""`. |
| `PollLoop.RunTwo` | homework.py:174-189 | Two consecutive cycles: the second starts from the state the first leaves, and the sends are concatenated. |
| `PollLoop.CycleOffersStatus` | homework.py:176-177 | When the first homework renders and the cursor fetch succeeds, a cycle sends exactly what the dedup rule sends for that text. |
| `PollLoop.MainResendsUnchangedStatus` | homework.py:172-187 | As written, two cycles rendering the same status text both send it. |
| `PollLoop.ThreadedSuppressesRepeat` | homework.py:204-209 | As intended, once a status text is delivered, the next cycle with the same text sends nothing. |
| `PollLoop.ThreadedSuppressesRepeatedError` | homework.py:218-226 | As intended, once an error report is delivered, a following cycle that raises an equal error sends nothing. Equal errors carry equal data, so Python gives them equal messages. |
| `PollLoop.ThreadedSendsNewError` | homework.py:218-226 | As intended, after a delivered report, a failure caught by another clause, or with another message, is reported. Two such failures give two reports, in order. |
| `PollLoop.ApprovedHomeworkCycle` | homework.py:174-177 | Worked cycle: one approved homework "hw1" with `current_date` 1000 moves the cursor to 1000 and sends the approval notice once. |
| `PollLoop.UnknownStatusCycle` | homework.py:146-150 | Worked cycle: an unknown status is a ValueError. Only the error report is sent and the state is unchanged. |
| `PollLoop.RunBot` | homework.py:167-189 | `main`: blank credentials stop it before the loop, with the missing names. Otherwise the result is the given cycles run from cursor `now` with `previous` `""`, and `previous` is still `""` at the end. |

## Left out

- Building the request in `get_api_answer` is not modelled: URL, `Authorization` header and the `from_date` parameter. The code passes no timeout, so a request can block without bound; the model has no notion of time passing during a request. Each reply is an input `HttpReply`, so it does not depend on the cursor.
- The body of `send_message` and the Telegram client are not modelled. Only the boolean result is, as an input. An exception other than `ApiException` escaping `send_message`, and so escaping `handle_error` and `main`, is not modelled.
- Logging is not modelled: `logging.basicConfig`, the log file and every `logger` call. They only produce output.
- `load_dotenv` and `os.getenv` are not modelled. The three variables are given as optional strings.
- `time.time()` is a parameter (`now`). `time.sleep(RETRY_PERIOD)` changes no state and is not modelled. The endless `while True` is a finite sequence of cycles given to `RunBot`.
- Exception message texts are not spelled out, including the one `check_tokens` joins from the missing names and the one `InvalidResponseCode` formats. `str(error)` is the parameter `detail`. Each error value carries the data its message is built from, so equal errors stand for equal messages. Whether two different errors have different messages is left to `detail`. `PollLoop.ErrorTextIff` ties equal report texts to equal messages, and `PollLoop.ThreadedSendsNewError` takes differing messages (or clauses) as a premise.
- Json.Repr: the contract states the kind of value a text shows, and that the text of an int reads back as the int. The texts of `None`, `True`, `False` and of the items of a list or a dict are given by the body alone.
- JSON numbers with a fraction (Python floats) are not modelled.
- `repr()` of a str escapes only the backslash, the quote, and control characters below U+0020 and U+007F. Python also escapes other non-printable Unicode characters.
- Each dict key is assumed to occur once (`Json.UniqueKeys`), as in a dict Python builds. For a JSON text that repeats a key, Python's decoder keeps the last value, while `Json.Find` returns the first. The model does not capture that difference; `Json.FindUnique` shows that the two agree when keys are unique.
- exceptions.py is not part of this model. `homework.py` does not import it and declares its own `InvalidResponseCode`.

## Findings

| source | as written | input that shows it | evidently intended | confidence | as-written member | corrected member |
|---|---|---|---|---|---|---|
| homework.py:176-187 | `main` drops the values returned by `process_homeworks` and `handle_error`, so `previous_message` stays `""` and the dedup never suppresses a send | two cycles whose answers both list `{"homework_name": "hw1", "status": "approved"}` and whose cursor fetches succeed: the approval notice is sent in both cycles | `previous_message = process_homeworks(...)` and `previous_message = handle_error(...)`, so a delivered text is not sent again | high; not executed | `PollLoop.MainResendsUnchangedStatus` | `PollLoop.ThreadedSuppressesRepeat` |

`PollLoop.Cycle`, `PollLoop.Run` with `MainStep`, and `PollLoop.RunBot` model
`main` as written. `PollLoop.ThreadedCycle` with `ThreadedStep` is the
corrected cycle. In it, `ThreadedSuppressesRepeat` proves that a delivered
status text is not sent again. `ThreadedSuppressesRepeatedError` proves the
same for a delivered error report.
