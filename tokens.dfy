/**
  The start-up check of the three credentials read from the environment
  (`check_tokens`). A variable that is unset is `None`; Python's `not value`
  treats it and the empty string alike as missing.
*/
module Tokens {
  import opened Wrappers
  import opened Errors

  datatype Token = Token(name: string, value: Option<string>)

  /** `not value` for a value read with `os.getenv`. */
  predicate IsBlank(value: Option<string>)
  {
    value.None? || value.value == ""
  }

  /** The `tokens` dict of `check_tokens`, in its insertion order. */
  function TokenTable(practicum: Option<string>, telegram: Option<string>, chatId: Option<string>): (t: seq<Token>)
    ensures |t| == 3
    ensures [t[0].name, t[1].name, t[2].name] == ["PRACTICUM_TOKEN", "TELEGRAM_TOKEN", "TELEGRAM_CHAT_ID"]
    ensures [t[0].value, t[1].value, t[2].value] == [practicum, telegram, chatId]
  {
    [Token("PRACTICUM_TOKEN", practicum), Token("TELEGRAM_TOKEN", telegram), Token("TELEGRAM_CHAT_ID", chatId)]
  }

  /** The names of the blank tokens, in table order: what the loop appends to `missing_tokens`. */
  function BlankNames(tokens: seq<Token>): (names: seq<string>)
    ensures |names| <= |tokens|
  {
    if |tokens| == 0 then []
    else
      var last := tokens[|tokens| - 1];
      BlankNames(tokens[..|tokens| - 1]) + (if IsBlank(last.value) then [last.name] else [])
  }

  /** A name is reported exactly when some token of that name is blank. */
  lemma {:induction false} BlankNamesExact(tokens: seq<Token>, name: string)
    ensures name in BlankNames(tokens) <==>
            exists i :: 0 <= i < |tokens| && tokens[i].name == name && IsBlank(tokens[i].value)
  {
    if |tokens| > 0 {
      var init := tokens[..|tokens| - 1];
      BlankNamesExact(init, name);
      if exists i :: 0 <= i < |init| && init[i].name == name && IsBlank(init[i].value) {
        var i :| 0 <= i < |init| && init[i].name == name && IsBlank(init[i].value);
        assert tokens[i] == init[i];
      }
      if exists i :: 0 <= i < |tokens| && tokens[i].name == name && IsBlank(tokens[i].value) {
        var i :| 0 <= i < |tokens| && tokens[i].name == name && IsBlank(tokens[i].value);
        if i < |init| {
          assert init[i] == tokens[i];
        }
      }
    }
  }

  /** Nothing is reported exactly when no token is blank. */
  lemma {:induction false} BlankNamesEmpty(tokens: seq<Token>)
    ensures BlankNames(tokens) == [] <==> forall i :: 0 <= i < |tokens| ==> !IsBlank(tokens[i].value)
  {
    if |tokens| > 0 {
      var init := tokens[..|tokens| - 1];
      BlankNamesEmpty(init);
      assert forall i :: 0 <= i < |init| ==> init[i] == tokens[i];
    }
  }

  /** For the bot's three variables: each blank one is named once, in the table's order. */
  lemma ThreeTokenNames(practicum: Option<string>, telegram: Option<string>, chatId: Option<string>)
    ensures BlankNames(TokenTable(practicum, telegram, chatId)) ==
            (if IsBlank(practicum) then ["PRACTICUM_TOKEN"] else []) +
            (if IsBlank(telegram) then ["TELEGRAM_TOKEN"] else []) +
            (if IsBlank(chatId) then ["TELEGRAM_CHAT_ID"] else [])
  {
    var t := TokenTable(practicum, telegram, chatId);
    var p := if IsBlank(practicum) then ["PRACTICUM_TOKEN"] else [];
    var q := if IsBlank(telegram) then ["TELEGRAM_TOKEN"] else [];
    assert t[..1][..0] == [];
    assert BlankNames(t[..1]) == p;
    assert t[..2][..1] == t[..1];
    assert BlankNames(t[..2]) == p + q;
    assert t[..2] == t[..|t| - 1];
  }

  /**
    `check_tokens`: true when all three variables are set and non-empty;
    otherwise the error lists the missing names in table order.
  */
  method CheckTokens(practicum: Option<string>, telegram: Option<string>, chatId: Option<string>)
    returns (r: Result<bool, Error>)
    ensures r.Ok? <==> !IsBlank(practicum) && !IsBlank(telegram) && !IsBlank(chatId)
    ensures r.Ok? ==> r.value
    ensures r.Err? ==> r.error == MissingTokens(BlankNames(TokenTable(practicum, telegram, chatId)))
  {
    var tokens := TokenTable(practicum, telegram, chatId);
    var missing: seq<string> := [];
    var i := 0;
    while i < |tokens|
      invariant 0 <= i <= |tokens|
      invariant missing == BlankNames(tokens[..i])
    {
      assert tokens[..i + 1][..i] == tokens[..i];
      if IsBlank(tokens[i].value) {
        missing := missing + [tokens[i].name];
      }
      i := i + 1;
    }
    assert tokens[..i] == tokens;
    ThreeTokenNames(practicum, telegram, chatId);
    if missing != [] {
      return Err(MissingTokens(missing));
    }
    return Ok(true);
  }
}
