/**
  Checking the decoded API answer (`check_response`) and turning one homework
  record into a notification text (`parse_status`), with the verdict table.
*/
module Validation {
  import opened Wrappers
  import opened Errors
  import opened Json

  /** HOMEWORK_VERDICTS: the known review statuses and the text shown for each. */
  const Verdicts: map<string, string> := map[
    "approved" := "Работа проверена: ревьюеру всё понравилось. Ура!",
    "reviewing" := "Работа взята на проверку ревьюером.",
    "rejected" := "Работа проверена: у ревьюера есть замечания."
  ]

  const HomeworksKey := "homeworks"
  const NameKey := "homework_name"
  const StatusKey := "status"

  /** The fixed parts of the notification template, before and after the quoted name. */
  const Lead := "Изменился статус проверки работы \""
  const Join := "\". "

  /** The notification for a homework name and a verdict text. */
  function Message(name: string, verdict: string): string
  {
    Lead + name + Join + verdict
  }

  /**
    `check_response`: the `homeworks` list of a dict answer, untouched. A value
    that is not a dict is a TypeError before any key is looked at; a dict without
    `homeworks` is a KeyError; a `homeworks` value that is not a list is a TypeError.
  */
  function CheckResponse(response: JVal): (r: Result<seq<JVal>, Error>)
    ensures !response.JObj? ==> r == Err(TypeErr(AnswerNotDict))
    ensures response.JObj? && !HasKey(response.members, HomeworksKey) ==> r == Err(KeyErr(AnswerHomeworks))
    ensures response.JObj? && HasKey(response.members, HomeworksKey) ==>
              (r.Ok? <==> Find(response.members, HomeworksKey).value.JList?) &&
              (r.Err? ==> r.error == TypeErr(HomeworksNotList))
    ensures r.Ok? ==>
              && response.JObj?
              && exists i :: 0 <= i < |response.members| && response.members[i] == Member(HomeworksKey, JList(r.value))
  {
    if !response.JObj? then Err(TypeErr(AnswerNotDict))
    else
      match Find(response.members, HomeworksKey)
      case None => Err(KeyErr(AnswerHomeworks))
      case Some(homeworks) => if homeworks.JList? then Ok(homeworks.items) else Err(TypeErr(HomeworksNotList))
  }

  /** A status with an entry in the verdict table. */
  predicate KnownStatus(status: JVal)
  {
    status.JStr? && status.s in Verdicts
  }

  /** A list or a dict: `status in HOMEWORK_VERDICTS` raises TypeError for it. */
  predicate Unhashable(v: JVal)
  {
    v.JList? || v.JObj?
  }

  /**
    `parse_status` on one homework record. For a dict: a KeyError when
    `homework_name` or `status` is absent, a TypeError when the status is a list or
    a dict, a ValueError when it is any other value outside the verdict table, and
    otherwise the template filled with `str()` of the name and the status's verdict.
    A list or a str record passes or fails the two `in` tests by membership or by
    substring, and then fails on indexing with a str; any other record fails the
    first `in` test.
  */
  function ParseStatus(homework: JVal): (r: Result<string, Error>)
    ensures homework.JObj? ==>
              (r == Err(KeyErr(RecordFields)) <==> !HasKey(homework.members, NameKey) || !HasKey(homework.members, StatusKey))
    ensures homework.JObj? && HasKey(homework.members, NameKey) && HasKey(homework.members, StatusKey) ==>
              var status := Find(homework.members, StatusKey).value;
              && (r.Ok? <==> KnownStatus(status))
              && (r == Err(ValueErr(Str(status))) <==> !KnownStatus(status) && !Unhashable(status))
              && (r == Err(TypeErr(UnhashableStatus(TypeOf(status)))) <==> Unhashable(status))
    ensures homework.JList? ==>
              r == if JStr(NameKey) in homework.items && JStr(StatusKey) in homework.items
                   then Err(TypeErr(StrIndex(ListType))) else Err(KeyErr(RecordFields))
    ensures homework.JStr? ==>
              r == if IsSubstring(NameKey, homework.s) && IsSubstring(StatusKey, homework.s)
                   then Err(TypeErr(StrIndex(StrType))) else Err(KeyErr(RecordFields))
    ensures homework.JNull? || homework.JBool? || homework.JInt? ==> r == Err(TypeErr(NotIterable(TypeOf(homework))))
    ensures r.Ok? ==>
              && homework.JObj?
              && DecodeMessage(r.value) == Some((Str(Find(homework.members, NameKey).value),
                                                 Find(homework.members, StatusKey).value.s))
  {
    match homework
    case JObj(members) =>
      (match (Find(members, NameKey), Find(members, StatusKey))
       case (Some(name), Some(status)) =>
         if Unhashable(status) then Err(TypeErr(UnhashableStatus(TypeOf(status))))
         else if KnownStatus(status) then
           DecodeMessageRoundTrip(Str(name), status.s);
           Ok(Message(Str(name), Verdicts[status.s]))
         else Err(ValueErr(Str(status)))
       case _ => Err(KeyErr(RecordFields)))
    case JList(items) =>
      if JStr(NameKey) !in items || JStr(StatusKey) !in items then Err(KeyErr(RecordFields)) else Err(TypeErr(StrIndex(ListType)))
    case JStr(s) =>
      if !IsSubstring(NameKey, s) || !IsSubstring(StatusKey, s) then Err(KeyErr(RecordFields)) else Err(TypeErr(StrIndex(StrType)))
    case _ => Err(TypeErr(NotIterable(TypeOf(homework))))
  }

  /** The name carried by `msg` if it is the notification for `status`. */
  function NameUnder(msg: string, status: string): Option<string>
    requires status in Verdicts
  {
    var tail := Join + Verdicts[status];
    if |Lead| + |tail| <= |msg| && msg[..|Lead|] == Lead && msg[|msg| - |tail|..] == tail
    then Some(msg[|Lead|..|msg| - |tail|])
    else None
  }

  /** Reads the name and the status back out of a notification text. */
  function DecodeMessage(msg: string): (r: Option<(string, string)>)
    ensures r.Some? ==> r.value.1 in Verdicts && msg == Message(r.value.0, Verdicts[r.value.1])
  {
    if NameUnder(msg, "approved").Some? then
      NameUnderRebuilds(msg, "approved");
      Some((NameUnder(msg, "approved").value, "approved"))
    else if NameUnder(msg, "reviewing").Some? then
      NameUnderRebuilds(msg, "reviewing");
      Some((NameUnder(msg, "reviewing").value, "reviewing"))
    else if NameUnder(msg, "rejected").Some? then
      NameUnderRebuilds(msg, "rejected");
      Some((NameUnder(msg, "rejected").value, "rejected"))
    else None
  }

  /** A text that carries a name under a status is the notification for that name and status. */
  lemma NameUnderRebuilds(msg: string, status: string)
    requires status in Verdicts && NameUnder(msg, status).Some?
    ensures msg == Message(NameUnder(msg, status).value, Verdicts[status])
  {
    var tail := Join + Verdicts[status];
    var name := msg[|Lead|..|msg| - |tail|];
    assert msg == msg[..|Lead|] + name + msg[|msg| - |tail|..];
  }

  /** HOMEWORK_VERDICTS holds exactly the three review statuses. */
  lemma VerdictTable()
    ensures Verdicts.Keys == {"approved", "reviewing", "rejected"}
    ensures forall status | status in Verdicts :: |Verdicts[status]| > 0
  {
  }

  /** No verdict text ends the way another one does, so the ending tells them apart. */
  lemma VerdictEndingsDiffer(a: string, b: string)
    requires a in Verdicts && b in Verdicts && a != b
    ensures var va, vb := Verdicts[a], Verdicts[b];
            |va| >= 2 && |vb| >= 2 &&
            (va[|va| - 1] != vb[|vb| - 1] || va[|va| - 2] != vb[|vb| - 2])
  {
  }

  /** A notification decodes to the name and status it was made from. */
  lemma {:induction false} DecodeMessageRoundTrip(name: string, status: string)
    requires status in Verdicts
    ensures DecodeMessage(Message(name, Verdicts[status])) == Some((name, status))
  {
    var msg := Message(name, Verdicts[status]);
    var tail := Join + Verdicts[status];
    assert msg == Lead + name + tail;
    assert msg[..|Lead|] == Lead;
    assert msg[|msg| - |tail|..] == tail;
    assert msg[|Lead|..|msg| - |tail|] == name;
    assert NameUnder(msg, status) == Some(name);
    forall other | other in Verdicts && other != status
      ensures NameUnder(msg, other).None?
    {
      VerdictEndingsDiffer(status, other);
      var tail' := Join + Verdicts[other];
      assert msg[|msg| - 1] == tail[|tail| - 1];
      assert msg[|msg| - 2] == tail[|tail| - 2];
      if |Lead| + |tail'| <= |msg| {
        var ending := msg[|msg| - |tail'|..];
        assert ending[|tail'| - 1] == msg[|msg| - 1];
        assert ending[|tail'| - 2] == msg[|msg| - 2];
      }
    }
  }

  /** On success, `parse_status` gives exactly the template with `str()` of the name and the verdict. */
  lemma ParseStatusTemplate(homework: JVal)
    requires ParseStatus(homework).Ok?
    ensures homework.JObj?
    ensures var status := Find(homework.members, StatusKey).value;
            status.JStr? && status.s in Verdicts &&
            ParseStatus(homework).value == Message(Str(Find(homework.members, NameKey).value), Verdicts[status.s])
  {
    var status := Find(homework.members, StatusKey).value;
    var m := ParseStatus(homework).value;
    DecodeMessageRoundTrip(Str(Find(homework.members, NameKey).value), status.s);
  }

  /** Two dict records with the same `homework_name` and `status` values get the same outcome. */
  lemma ParseStatusDependsOnlyOnFields(h1: JVal, h2: JVal)
    requires h1.JObj? && h2.JObj?
    requires Find(h1.members, NameKey) == Find(h2.members, NameKey)
    requires Find(h1.members, StatusKey) == Find(h2.members, StatusKey)
    ensures ParseStatus(h1) == ParseStatus(h2)
  {
  }

  /**
    Two records that both format give the same text exactly when their names
    render alike and their statuses are equal: the text compared for
    deduplication stands for the (name, status) pair.
  */
  lemma {:induction false} SameMessageIff(h1: JVal, h2: JVal)
    requires ParseStatus(h1).Ok? && ParseStatus(h2).Ok?
    ensures h1.JObj? && h2.JObj?
    ensures ParseStatus(h1) == ParseStatus(h2) <==>
            Str(Find(h1.members, NameKey).value) == Str(Find(h2.members, NameKey).value) &&
            Find(h1.members, StatusKey).value == Find(h2.members, StatusKey).value
  {
    ParseStatusTemplate(h1);
    ParseStatusTemplate(h2);
  }
}
