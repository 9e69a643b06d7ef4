/**
  The polling cycle: fetch the statuses, notify about the first homework unless
  the text repeats the previous one, move the time cursor, and report failures
  through the same deduplicated channel. The HTTP exchange and the outcome of
  each `send_message` call are inputs; the clock reading at start-up is a
  parameter; sleeping between cycles has no effect on the state and is left out.
*/
module PollLoop {
  import opened Wrappers
  import opened Errors
  import opened Json
  import opened Tokens
  import opened Validation

  /** What one `requests.get` to the status endpoint produced. */
  datatype HttpReply =
    | RequestFailed(cause: string)  // requests raised a RequestException with this text
    | Reply(status: int, reason: string, text: string, body: Option<JVal>)
        // a reply: status code, reason phrase, body text and what `response.json()` decodes from it

  const HttpOk := 200
  const CurrentDateKey := "current_date"

  /** The decoded answer of a successful reply: a 200 whose body holds JSON. */
  function Answer(reply: HttpReply): Option<JVal>
  {
    if reply.Reply? && reply.status == HttpOk then reply.body else None
  }

  /**
    `get_api_answer(current_timestamp)` after the request: a failed request is a
    ConnectionError naming the `from_date` sent and the cause, a status other
    than 200 an InvalidResponseCode with the code, reason and body text, and a
    200 reply the decoded body (or the decoder's error on the body text).
  */
  function GetApiAnswer(cursor: JVal, reply: HttpReply): (r: Result<JVal, Error>)
    ensures r.Ok? <==> reply.Reply? && reply.status == HttpOk && reply.body.Some?
    ensures r.Ok? ==> Answer(reply) == Some(r.value) && r.value == reply.body.value
    ensures reply.RequestFailed? ==> r == Err(ConnectionFailure(cursor, reply.cause))
    ensures reply.Reply? && reply.status != HttpOk ==> r == Err(InvalidResponseCode(reply.status, reply.reason, reply.text))
    ensures reply.Reply? && reply.status == HttpOk && reply.body.None? ==> r == Err(DecodeFailure(reply.text))
  {
    match reply
    case RequestFailed(cause) => Err(ConnectionFailure(cursor, cause))
    case Reply(status, reason, text, body) =>
      if status != HttpOk then Err(InvalidResponseCode(status, reason, text))
      else if body.None? then Err(DecodeFailure(text))
      else Ok(body.value)
  }

  /** The first two steps of `process_homeworks`: fetch, then `check_response`. */
  function Homeworks(cursor: JVal, reply: HttpReply): (r: Result<seq<JVal>, Error>)
    ensures GetApiAnswer(cursor, reply).Err? ==> r == Err(GetApiAnswer(cursor, reply).error)
    ensures GetApiAnswer(cursor, reply).Ok? ==> r == CheckResponse(GetApiAnswer(cursor, reply).value)
  {
    var body :- GetApiAnswer(cursor, reply);
    CheckResponse(body)
  }

  /**
    The text `process_homeworks` offers to send for a reply, if it gets that
    far: a notification for the first homework of the answer.
  */
  function StatusText(reply: HttpReply): (r: Option<string>)
    ensures r.Some? ==> DecodeMessage(r.value).Some?
  {
    if Answer(reply).None? then None
    else
      match CheckResponse(Answer(reply).value)
      case Ok(homeworks) =>
        if |homeworks| > 0 && ParseStatus(homeworks[0]).Ok? then Some(ParseStatus(homeworks[0]).value) else None
      case Err(_) => None
  }

  /**
    What `process_homeworks` and `handle_error` return (the new `previous_message`)
    together with the texts they passed to `send_message` (none or one).
  */
  datatype Notice = Notice(previous: string, sent: seq<string>)

  /**
    The deduplication rule: `text != previous and send_message(bot, text)`, and
    `previous` becomes `text` only when the send reported success. `delivered` is
    what the send would report; it is not consulted when the texts are equal.
  */
  function SendIfNew(previous: string, text: string, delivered: bool): (n: Notice)
    ensures n.sent == [] <==> text == previous
    ensures n.sent != [] ==> n.sent == [text]
    ensures n.previous == text <==> text == previous || delivered
    ensures n.previous == previous || n.previous == text
  {
    if text == previous then Notice(previous, [])
    else if delivered then Notice(text, [text])
    else Notice(previous, [text])
  }

  /** Once a text has been delivered (or was already the previous one), the same text is not sent again. */
  lemma {:induction false} SendIfNewDedup(previous: string, text: string, delivered: bool, again: bool)
    requires delivered || text == previous
    ensures SendIfNew(SendIfNew(previous, text, delivered).previous, text, again) == Notice(text, [])
  {
    var first := SendIfNew(previous, text, delivered);
    assert first.previous == text;
  }

  /**
    `process_homeworks`: a fetch or `check_response` failure propagates; an empty
    list leaves `previous` as it was and sends nothing; otherwise only the first
    homework is formatted (its failure propagates) and offered to SendIfNew.
  */
  function ProcessHomeworks(previous: string, cursor: JVal, reply: HttpReply, delivered: bool): (r: Result<Notice, Error>)
    ensures Homeworks(cursor, reply).Err? ==> r == Err(Homeworks(cursor, reply).error)
    ensures Homeworks(cursor, reply) == Ok([]) ==> r == Ok(Notice(previous, []))
    ensures Homeworks(cursor, reply).Ok? && Homeworks(cursor, reply).value != [] ==>
              var first := Homeworks(cursor, reply).value[0];
              && (r.Ok? <==> ParseStatus(first).Ok?)
              && (r.Err? ==> r.error == ParseStatus(first).error)
    ensures r.Ok? ==> r.value.sent == [] || r.value.sent == [StatusText(reply).value]
    ensures r.Ok? && StatusText(reply).Some? ==> r.value == SendIfNew(previous, StatusText(reply).value, delivered)
    ensures r.Ok? && StatusText(reply).None? ==> r.value == Notice(previous, [])
  {
    var homeworks :- Homeworks(cursor, reply);
    if |homeworks| == 0 then Ok(Notice(previous, []))
    else
      var text :- ParseStatus(homeworks[0]);
      Ok(SendIfNew(previous, text, delivered))
  }

  /** Only the first homework of the list matters; the others are never looked at. */
  lemma ProcessHomeworksOnlyFirst(previous: string, cursor: JVal, r1: HttpReply, r2: HttpReply, delivered: bool)
    requires Homeworks(cursor, r1).Ok? && Homeworks(cursor, r2).Ok?
    requires Homeworks(cursor, r1).value != [] && Homeworks(cursor, r2).value != []
    requires Homeworks(cursor, r1).value[0] == Homeworks(cursor, r2).value[0]
    ensures ProcessHomeworks(previous, cursor, r1, delivered) == ProcessHomeworks(previous, cursor, r2, delivered)
  {
  }

  /**
    `update_timestamp`: a fresh fetch (its failure propagates); the body's
    `current_date` if present, else the old cursor. A body that is not a dict has
    no `.get` and raises AttributeError; no other check is made on it.
  */
  function UpdateTimestamp(cursor: JVal, reply: HttpReply): (r: Result<JVal, Error>)
    ensures GetApiAnswer(cursor, reply).Err? ==> r == Err(GetApiAnswer(cursor, reply).error)
    ensures GetApiAnswer(cursor, reply).Ok? && !GetApiAnswer(cursor, reply).value.JObj? ==>
              r == Err(AttributeErr(TypeOf(GetApiAnswer(cursor, reply).value)))
    ensures r.Ok? <==> GetApiAnswer(cursor, reply).Ok? && GetApiAnswer(cursor, reply).value.JObj?
    ensures r.Ok? <==> CursorReplyUsable(reply)
    ensures r.Ok? && HasKey(GetApiAnswer(cursor, reply).value.members, CurrentDateKey) ==>
              Find(GetApiAnswer(cursor, reply).value.members, CurrentDateKey) == Some(r.value)
    ensures r.Ok? && !HasKey(GetApiAnswer(cursor, reply).value.members, CurrentDateKey) ==> r.value == cursor
  {
    var body :- GetApiAnswer(cursor, reply);
    if !body.JObj? then Err(AttributeErr(TypeOf(body)))
    else
      match Find(body.members, CurrentDateKey)
      case Some(date) => Ok(date)
      case None => Ok(cursor)
  }

  /** The prefixes of the three `except` clauses of `main`. */
  const ApiPrefix := "Ошибка API: "
  const ConnectionPrefix := "Сбой подключения: "
  const FailurePrefix := "Сбой в работе программы: "

  /**
    The text `main` hands to `handle_error` for an error: a prefix chosen by the
    `except` clause that catches it, followed by `str(error)`. That is given by
    `detail`: the error carries everything its message is built from, but the
    message texts themselves are not spelled out.
  */
  function ClausePrefix(e: Error): string
  {
    match e
    case InvalidResponseCode(_, _, _) => ApiPrefix
    case ConnectionFailure(_, _) => ConnectionPrefix
    case _ => FailurePrefix
  }

  /** Two errors caught by the same `except` clause of `main`. */
  predicate SameClause(e1: Error, e2: Error)
  {
    e1.InvalidResponseCode? == e2.InvalidResponseCode? && e1.ConnectionFailure? == e2.ConnectionFailure?
  }

  function ErrorText(e: Error, detail: Error -> string): (t: string)
    ensures |t| > 0
    ensures t == ClausePrefix(e) + detail(e)
    ensures e.InvalidResponseCode? <==> ApiPrefix <= t
    ensures e.ConnectionFailure? <==> ConnectionPrefix <= t
    ensures !e.InvalidResponseCode? && !e.ConnectionFailure? <==> FailurePrefix <= t
  {
    match e
    case InvalidResponseCode(_, _, _) =>
      PrefixesDiffer(ConnectionPrefix, ApiPrefix, detail(e), 0);
      PrefixesDiffer(FailurePrefix, ApiPrefix, detail(e), 0);
      ApiPrefix + detail(e)
    case ConnectionFailure(_, _) =>
      PrefixesDiffer(ApiPrefix, ConnectionPrefix, detail(e), 0);
      PrefixesDiffer(FailurePrefix, ConnectionPrefix, detail(e), 5);
      ConnectionPrefix + detail(e)
    case _ =>
      PrefixesDiffer(ApiPrefix, FailurePrefix, detail(e), 0);
      PrefixesDiffer(ConnectionPrefix, FailurePrefix, detail(e), 5);
      FailurePrefix + detail(e)
  }

  /**
    Two errors give the same report text exactly when the same `except` clause
    catches them and their messages are equal: the text compared for
    deduplication stands for the (clause, message) pair.
  */
  lemma ErrorTextIff(e1: Error, e2: Error, detail: Error -> string)
    ensures ErrorText(e1, detail) == ErrorText(e2, detail) <==> SameClause(e1, e2) && detail(e1) == detail(e2)
  {
    var t1, t2 := ErrorText(e1, detail), ErrorText(e2, detail);
    if t1 == t2 {
      assert SameClause(e1, e2);
      var p := ClausePrefix(e1);
      assert p == ClausePrefix(e2);
      assert detail(e1) == t1[|p|..] == t2[|p|..] == detail(e2);
    }
  }

  /** A text that starts with `other` does not start with `prefix` when the two differ at `k`. */
  lemma PrefixesDiffer(prefix: string, other: string, rest: string, k: nat)
    requires k < |prefix| && k < |other| && prefix[k] != other[k]
    ensures !(prefix <= other + rest)
  {
  }

  /** `handle_error`: the deduplication rule applied to the error text. */
  function HandleError(previous: string, e: Error, detail: Error -> string, delivered: bool): (n: Notice)
    ensures n.sent == [] <==> ErrorText(e, detail) == previous
    ensures n.sent != [] ==> n.sent == [ErrorText(e, detail)]
    ensures n.previous == (if ErrorText(e, detail) != previous && delivered then ErrorText(e, detail) else previous)
  {
    SendIfNew(previous, ErrorText(e, detail), delivered)
  }

  /** The variables `main` keeps across cycles. */
  datatype LoopState = LoopState(cursor: JVal, previous: string)

  /**
    The outside world during one cycle: the reply to the fetch in
    `process_homeworks`, the reply to the second fetch in `update_timestamp`, and
    what a status send and an error send would report.
  */
  datatype CycleInput = CycleInput(statusReply: HttpReply, cursorReply: HttpReply,
                                   statusDelivered: bool, errorDelivered: bool)

  /** The state after a cycle and the texts passed to `send_message` during it, in order. */
  datatype CycleResult = CycleResult(state: LoopState, sent: seq<string>)

  /** A cursor reply on which `update_timestamp` succeeds, whatever the cursor. */
  predicate CursorReplyUsable(reply: HttpReply)
  {
    Answer(reply).Some? && Answer(reply).value.JObj?
  }

  /**
    One pass of `main`'s loop body as written: the values returned by
    `process_homeworks` and `handle_error` are discarded, so `previous` never
    changes; the cursor moves only when both `process_homeworks` and
    `update_timestamp` succeed; a failure in either is handed to `handle_error`.
  */
  function Cycle(s: LoopState, c: CycleInput, detail: Error -> string): (r: CycleResult)
    ensures r.state.previous == s.previous
    ensures r.state.cursor == s.cursor ||
            (ProcessHomeworks(s.previous, s.cursor, c.statusReply, c.statusDelivered).Ok? &&
             UpdateTimestamp(s.cursor, c.cursorReply) == Ok(r.state.cursor))
    ensures ProcessHomeworks(s.previous, s.cursor, c.statusReply, c.statusDelivered).Err? ==>
              && r.state == s
              && r.sent == HandleError(s.previous, ProcessHomeworks(s.previous, s.cursor, c.statusReply, c.statusDelivered).error,
                                       detail, c.errorDelivered).sent
    ensures ProcessHomeworks(s.previous, s.cursor, c.statusReply, c.statusDelivered).Ok? && CursorReplyUsable(c.cursorReply) ==>
              && r.state.cursor == UpdateTimestamp(s.cursor, c.cursorReply).value
              && r.sent == ProcessHomeworks(s.previous, s.cursor, c.statusReply, c.statusDelivered).value.sent
    ensures ProcessHomeworks(s.previous, s.cursor, c.statusReply, c.statusDelivered).Ok? && !CursorReplyUsable(c.cursorReply) ==>
              && r.state == s
              && r.sent == ProcessHomeworks(s.previous, s.cursor, c.statusReply, c.statusDelivered).value.sent +
                           HandleError(s.previous, UpdateTimestamp(s.cursor, c.cursorReply).error,
                                       detail, c.errorDelivered).sent
  {
    match ProcessHomeworks(s.previous, s.cursor, c.statusReply, c.statusDelivered)
    case Err(e) =>
      CycleResult(s, HandleError(s.previous, e, detail, c.errorDelivered).sent)
    case Ok(n) =>
      match UpdateTimestamp(s.cursor, c.cursorReply)
      case Err(e) => CycleResult(s, n.sent + HandleError(s.previous, e, detail, c.errorDelivered).sent)
      case Ok(cursor) => CycleResult(LoopState(cursor, s.previous), n.sent)
  }

  /**
    The cycle as evidently intended: `previous_message` takes the value returned
    by `process_homeworks`, and by `handle_error` when an error is handled.
    Cursor handling is the same as in Cycle.
  */
  function ThreadedCycle(s: LoopState, c: CycleInput, detail: Error -> string): (r: CycleResult)
    ensures r.state.cursor == Cycle(s, c, detail).state.cursor
    ensures ProcessHomeworks(s.previous, s.cursor, c.statusReply, c.statusDelivered).Ok? && CursorReplyUsable(c.cursorReply) ==>
              var n := ProcessHomeworks(s.previous, s.cursor, c.statusReply, c.statusDelivered).value;
              r.state.previous == n.previous && r.sent == n.sent
    ensures ProcessHomeworks(s.previous, s.cursor, c.statusReply, c.statusDelivered).Err? ==>
              var h := HandleError(s.previous, ProcessHomeworks(s.previous, s.cursor, c.statusReply, c.statusDelivered).error,
                                   detail, c.errorDelivered);
              r == CycleResult(LoopState(s.cursor, h.previous), h.sent)
    ensures ProcessHomeworks(s.previous, s.cursor, c.statusReply, c.statusDelivered).Ok? && !CursorReplyUsable(c.cursorReply) ==>
              var n := ProcessHomeworks(s.previous, s.cursor, c.statusReply, c.statusDelivered).value;
              var h := HandleError(n.previous, UpdateTimestamp(s.cursor, c.cursorReply).error, detail, c.errorDelivered);
              r == CycleResult(LoopState(s.cursor, h.previous), n.sent + h.sent)
  {
    match ProcessHomeworks(s.previous, s.cursor, c.statusReply, c.statusDelivered)
    case Err(e) =>
      var h := HandleError(s.previous, e, detail, c.errorDelivered);
      CycleResult(LoopState(s.cursor, h.previous), h.sent)
    case Ok(n) =>
      match UpdateTimestamp(s.cursor, c.cursorReply)
      case Err(e) =>
        var h := HandleError(n.previous, e, detail, c.errorDelivered);
        CycleResult(LoopState(s.cursor, h.previous), n.sent + h.sent)
      case Ok(cursor) => CycleResult(LoopState(cursor, n.previous), n.sent)
  }

  /** Cycles run one after another: the final state and every text sent, in order. */
  function Run(step: (LoopState, CycleInput) -> CycleResult, start: LoopState, cycles: seq<CycleInput>): CycleResult
  {
    if |cycles| == 0 then CycleResult(start, [])
    else
      var before := Run(step, start, cycles[..|cycles| - 1]);
      var last := step(before.state, cycles[|cycles| - 1]);
      CycleResult(last.state, before.sent + last.sent)
  }

  function MainStep(detail: Error -> string): (LoopState, CycleInput) -> CycleResult
  {
    (s, c) => Cycle(s, c, detail)
  }

  function ThreadedStep(detail: Error -> string): (LoopState, CycleInput) -> CycleResult
  {
    (s, c) => ThreadedCycle(s, c, detail)
  }

  /** Running two stretches of cycles one after the other is running them together. */
  lemma {:induction false} RunSplit(step: (LoopState, CycleInput) -> CycleResult, start: LoopState,
                                    xs: seq<CycleInput>, ys: seq<CycleInput>)
    ensures var a := Run(step, start, xs);
            var b := Run(step, a.state, ys);
            Run(step, start, xs + ys) == CycleResult(b.state, a.sent + b.sent)
  {
    var a := Run(step, start, xs);
    if |ys| == 0 {
      assert xs + ys == xs;
    } else {
      var init := ys[..|ys| - 1];
      RunSplit(step, start, xs, init);
      assert (xs + ys)[..|xs + ys| - 1] == xs + init;
      assert (xs + ys)[|xs + ys| - 1] == ys[|ys| - 1];
      var b := Run(step, a.state, init);
      var last := step(b.state, ys[|ys| - 1]);
      assert a.sent + b.sent + last.sent == a.sent + (b.sent + last.sent);
    }
  }

  /** However many cycles `main` runs, `previous_message` keeps its initial value. */
  lemma {:induction false} RunKeepsPrevious(start: LoopState, cycles: seq<CycleInput>, detail: Error -> string)
    ensures Run(MainStep(detail), start, cycles).state.previous == start.previous
  {
    if |cycles| > 0 {
      RunKeepsPrevious(start, cycles[..|cycles| - 1], detail);
    }
  }

  /** A notification text is never empty, so it always differs from `main`'s initial "". */
  lemma StatusTextNonEmpty(reply: HttpReply)
    requires StatusText(reply).Some?
    ensures StatusText(reply).value != ""
  {
    var first := CheckResponse(Answer(reply).value).value[0];
    ParseStatusTemplate(first);
  }

  /** Two cycles in a row: the second starts from the state the first leaves. */
  lemma RunTwo(step: (LoopState, CycleInput) -> CycleResult, start: LoopState, c1: CycleInput, c2: CycleInput)
    ensures var first := step(start, c1);
            var second := step(first.state, c2);
            Run(step, start, [c1, c2]) == CycleResult(second.state, first.sent + second.sent)
  {
    RunSplit(step, start, [c1], [c2]);
    assert [c1] + [c2] == [c1, c2];
    assert [c1][..0] == [] && [c2][..0] == [];
  }

  /**
    A cycle whose first homework formats to `text` and whose cursor fetch
    succeeds offers `text` to the deduplication rule and sends nothing else, in
    both the written and the intended cycle.
  */
  lemma CycleOffersStatus(s: LoopState, c: CycleInput, detail: Error -> string, text: string)
    requires StatusText(c.statusReply) == Some(text) && CursorReplyUsable(c.cursorReply)
    ensures Cycle(s, c, detail).sent == SendIfNew(s.previous, text, c.statusDelivered).sent
    ensures ThreadedCycle(s, c, detail).sent == SendIfNew(s.previous, text, c.statusDelivered).sent
    ensures ThreadedCycle(s, c, detail).state.previous == SendIfNew(s.previous, text, c.statusDelivered).previous
  {
    assert ProcessHomeworks(s.previous, s.cursor, c.statusReply, c.statusDelivered).Ok?;
  }

  /**
    As written, two cycles that both format the same status text both send it:
    with `previous` stuck at "", the deduplication never suppresses anything.
  */
  lemma MainResendsUnchangedStatus(start: LoopState, c1: CycleInput, c2: CycleInput,
                                   detail: Error -> string, text: string)
    requires start.previous == ""
    requires StatusText(c1.statusReply) == Some(text) && StatusText(c2.statusReply) == Some(text)
    requires CursorReplyUsable(c1.cursorReply) && CursorReplyUsable(c2.cursorReply)
    ensures Run(MainStep(detail), start, [c1, c2]).sent == [text, text]
  {
    StatusTextNonEmpty(c1.statusReply);
    RunTwo(MainStep(detail), start, c1, c2);
    var first := Cycle(start, c1, detail);
    CycleOffersStatus(start, c1, detail, text);
    CycleOffersStatus(first.state, c2, detail, text);
  }

  /**
    As intended, once a status text has been delivered, a following cycle with
    the same text sends nothing.
  */
  lemma ThreadedSuppressesRepeat(start: LoopState, c1: CycleInput, c2: CycleInput,
                                 detail: Error -> string, text: string)
    requires start.previous != text
    requires StatusText(c1.statusReply) == Some(text) && StatusText(c2.statusReply) == Some(text)
    requires c1.statusDelivered
    requires CursorReplyUsable(c1.cursorReply) && CursorReplyUsable(c2.cursorReply)
    ensures Run(ThreadedStep(detail), start, [c1, c2]).sent == [text]
  {
    RunTwo(ThreadedStep(detail), start, c1, c2);
    var first := ThreadedCycle(start, c1, detail);
    CycleOffersStatus(start, c1, detail, text);
    CycleOffersStatus(first.state, c2, detail, text);
  }

  /**
    As intended, once an error report has been delivered, a following cycle
    that raises an equal error sends nothing. Equal errors carry equal data, so
    Python gives them equal messages.
  */
  lemma ThreadedSuppressesRepeatedError(start: LoopState, c1: CycleInput, c2: CycleInput,
                                        detail: Error -> string, e: Error)
    requires start.previous != ErrorText(e, detail) && c1.errorDelivered
    requires ProcessHomeworks(start.previous, start.cursor, c1.statusReply, c1.statusDelivered) == Err(e)
    requires ProcessHomeworks(ErrorText(e, detail), start.cursor, c2.statusReply, c2.statusDelivered) == Err(e)
    ensures Run(ThreadedStep(detail), start, [c1, c2]).sent == [ErrorText(e, detail)]
  {
    RunTwo(ThreadedStep(detail), start, c1, c2);
    var first := ThreadedCycle(start, c1, detail);
    assert first.state.previous == ErrorText(e, detail);
    assert first.sent == [ErrorText(e, detail)];
    assert ThreadedCycle(first.state, c2, detail).sent == [];
  }

  /** The body texts of the two worked cycles below, as the API sends them. */
  const ApprovedText :=
    "{\"homeworks\": [{\"homework_name\": \"hw1\", \"status\": \"approved\"}], \"current_date\": 1000}"
  const UnknownStatusText := "{\"homeworks\": [{\"homework_name\": \"hw1\", \"status\": \"unknown_status\"}]}"

  /**
    As intended, a report whose text differs from the one delivered before is
    sent: two failures caught by different clauses, or whose messages differ,
    give two reports, in order.
  */
  lemma ThreadedSendsNewError(start: LoopState, c1: CycleInput, c2: CycleInput,
                              detail: Error -> string, e1: Error, e2: Error)
    requires start.previous != ErrorText(e1, detail) && c1.errorDelivered
    requires !SameClause(e1, e2) || detail(e1) != detail(e2)
    requires ProcessHomeworks(start.previous, start.cursor, c1.statusReply, c1.statusDelivered) == Err(e1)
    requires ProcessHomeworks(ErrorText(e1, detail), start.cursor, c2.statusReply, c2.statusDelivered) == Err(e2)
    ensures Run(ThreadedStep(detail), start, [c1, c2]).sent == [ErrorText(e1, detail), ErrorText(e2, detail)]
  {
    ErrorTextIff(e1, e2, detail);
    RunTwo(ThreadedStep(detail), start, c1, c2);
    var first := ThreadedCycle(start, c1, detail);
    assert first.state.previous == ErrorText(e1, detail);
    assert first.sent == [ErrorText(e1, detail)];
    assert ThreadedCycle(first.state, c2, detail).sent == [ErrorText(e2, detail)];
  }

  /**
    A worked cycle: an answer listing one approved homework "hw1" with
    `current_date` 1000, fetched twice, moves the cursor to 1000 and sends the
    approval notice once.
  */
  lemma ApprovedHomeworkCycle(start: LoopState, detail: Error -> string)
    requires start.previous == ""
    ensures var record := JObj([Member(NameKey, JStr("hw1")), Member(StatusKey, JStr("approved"))]);
            var body := JObj([Member(HomeworksKey, JList([record])), Member(CurrentDateKey, JInt(1000))]);
            var reply := Reply(HttpOk, "OK", ApprovedText, Some(body));
            Cycle(start, CycleInput(reply, reply, true, true), detail) ==
              CycleResult(LoopState(JInt(1000), ""), [Message("hw1", Verdicts["approved"])])
  {
    var record := JObj([Member(NameKey, JStr("hw1")), Member(StatusKey, JStr("approved"))]);
    var body := JObj([Member(HomeworksKey, JList([record])), Member(CurrentDateKey, JInt(1000))]);
    assert Find(record.members, NameKey) == Some(JStr("hw1"));
    assert Find(record.members, StatusKey) == Some(JStr("approved"));
    assert Find(body.members, HomeworksKey) == Some(JList([record]));
    assert Find(body.members, CurrentDateKey) == Some(JInt(1000));
    var text := Message("hw1", Verdicts["approved"]);
    assert ParseStatus(record) == Ok(text);
    var reply := Reply(HttpOk, "OK", ApprovedText, Some(body));
    assert StatusText(reply) == Some(text);
  }

  /** An answer whose homework carries an unknown status is a ValueError: nothing but the error report is sent and the state stays. */
  lemma UnknownStatusCycle(start: LoopState, detail: Error -> string)
    ensures var record := JObj([Member(NameKey, JStr("hw1")), Member(StatusKey, JStr("unknown_status"))]);
            var reply := Reply(HttpOk, "OK", UnknownStatusText, Some(JObj([Member(HomeworksKey, JList([record]))])));
            var c := CycleInput(reply, reply, true, true);
            Cycle(start, c, detail) == CycleResult(start, HandleError(start.previous, ValueErr("unknown_status"), detail, true).sent)
  {
    var record := JObj([Member(NameKey, JStr("hw1")), Member(StatusKey, JStr("unknown_status"))]);
    assert Find(record.members, NameKey) == Some(JStr("hw1"));
    assert Find(record.members, StatusKey) == Some(JStr("unknown_status"));
  }

  /**
    `main`: check the three credentials (a failure ends the program before the
    loop), then run the given cycles from the cursor `now` with
    `previous_message` set to "".
  */
  method RunBot(practicum: Option<string>, telegram: Option<string>, chatId: Option<string>,
                now: int, cycles: seq<CycleInput>, detail: Error -> string)
    returns (r: Result<CycleResult, Error>)
    ensures r.Err? <==> IsBlank(practicum) || IsBlank(telegram) || IsBlank(chatId)
    ensures r.Err? ==> r.error == MissingTokens(BlankNames(TokenTable(practicum, telegram, chatId)))
    ensures r.Ok? ==> r.value == Run(MainStep(detail), LoopState(JInt(now), ""), cycles)
    ensures r.Ok? ==> r.value.state.previous == ""
  {
    var ok := CheckTokens(practicum, telegram, chatId);
    if ok.Err? {
      return Err(ok.error);
    }
    var start := LoopState(JInt(now), "");
    var state := start;
    var sent: seq<string> := [];
    for i := 0 to |cycles|
      invariant CycleResult(state, sent) == Run(MainStep(detail), start, cycles[..i])
    {
      assert cycles[..i + 1][..i] == cycles[..i];
      var result := Cycle(state, cycles[i], detail);
      state := result.state;
      sent := sent + result.sent;
    }
    assert cycles[..|cycles|] == cycles;
    RunKeepsPrevious(start, cycles, detail);
    return Ok(CycleResult(state, sent));
  }
}
