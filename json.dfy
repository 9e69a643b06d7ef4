/**
  The values Python's JSON decoder hands to the bot, and the two things the bot
  does with them besides testing their kind: looking a key up in a dict and
  rendering a value into text as an f-string placeholder does (`str()`).
*/
module Json {
  import opened Wrappers

  /** A decoded JSON value. A dict keeps its items in insertion order. */
  datatype JVal =
    | JNull
    | JBool(b: bool)
    | JInt(n: int)
    | JStr(s: string)
    | JList(items: seq<JVal>)
    | JObj(members: seq<Member>)

  datatype Member = Member(key: string, value: JVal)

  /** Python's type of a decoded value, as its error messages name it. */
  datatype PyType = NoneType | BoolType | IntType | StrType | ListType | DictType

  function TypeOf(v: JVal): PyType
  {
    match v
    case JNull => NoneType
    case JBool(_) => BoolType
    case JInt(_) => IntType
    case JStr(_) => StrType
    case JList(_) => ListType
    case JObj(_) => DictType
  }

  /** `k in d` for a dict `d` with the given items. */
  predicate HasKey(members: seq<Member>, k: string)
  {
    exists i :: 0 <= i < |members| && members[i].key == k
  }

  /** `d.get(k)`: the value stored under `k`, if any (the first item with that key). */
  function Find(members: seq<Member>, k: string): (r: Option<JVal>)
    ensures r.Some? <==> HasKey(members, k)
    ensures r.Some? ==> exists i :: 0 <= i < |members| && members[i] == Member(k, r.value)
                                    && forall j :: 0 <= j < i ==> members[j].key != k
  {
    if |members| == 0 then None
    else if members[0].key == k then Some(members[0].value)
    else
      var r := Find(members[1..], k);
      if r.Some? then
        var i :| 0 <= i < |members[1..]| && members[1..][i] == Member(k, r.value)
                 && forall j :: 0 <= j < i ==> members[1..][j].key != k;
        assert members[i + 1] == Member(k, r.value);
        r
      else
        r
  }

  /**
    Keys occur once, as in every dict Python's decoder builds. (For a JSON text
    that repeats a key, Python keeps the last value; this model never builds
    such a dict, and FindUnique shows the question does not arise under it.)
  */
  predicate UniqueKeys(members: seq<Member>)
  {
    forall i, j :: 0 <= i < j < |members| ==> members[i].key != members[j].key
  }

  /** With unique keys, a lookup returns the value stored with the key, wherever it sits. */
  lemma {:induction false} FindUnique(members: seq<Member>, i: int)
    requires UniqueKeys(members) && 0 <= i < |members|
    ensures Find(members, members[i].key) == Some(members[i].value)
  {
    var k := members[i].key;
    var r := Find(members, k);
    var j :| 0 <= j < |members| && members[j] == Member(k, r.value)
             && forall j' :: 0 <= j' < j ==> members[j'].key != k;
  }

  /** `str(v)`, which is what `f'{v}'` inserts: a str as it is, anything else as its repr. */
  function Str(v: JVal): (r: string)
    ensures v.JStr? ==> r == v.s
    ensures !v.JStr? ==> r == Repr(v)
    ensures r == "" <==> v == JStr("")
  {
    match v
    case JStr(s) => s
    case _ => Repr(v)
  }

  /** `repr(v)`, used for the elements of a list and the items of a dict. */
  function Repr(v: JVal): (r: string)
    ensures |r| > 0
    ensures v.JStr? ==> r[0] == r[|r| - 1] && (r[0] == '\'' || r[0] == '"')
    ensures v.JList? ==> r[0] == '[' && r[|r| - 1] == ']'
    ensures v.JObj? ==> r[0] == '{' && r[|r| - 1] == '}'
    ensures v.JInt? ==> IntValue(r) == Some(v.n)
  {
    match v
    case JNull => "None"
    case JBool(b) => if b then "True" else "False"
    case JInt(n) => IntTextRoundTrip(n); IntText(n)
    case JStr(s) => Quote(s)
    case JList(items) => "[" + ReprItems(items) + "]"
    case JObj(members) => "{" + ReprMembers(members) + "}"
  }

  function ReprItems(items: seq<JVal>): string
  {
    if |items| == 0 then ""
    else if |items| == 1 then Repr(items[0])
    else Repr(items[0]) + ", " + ReprItems(items[1..])
  }

  function ReprMembers(members: seq<Member>): string
  {
    if |members| == 0 then ""
    else
      var item := Quote(members[0].key) + ": " + Repr(members[0].value);
      if |members| == 1 then item else item + ", " + ReprMembers(members[1..])
  }

  /** The decimal text of an integer, with a leading minus sign when negative. */
  function IntText(n: int): string
  {
    if n < 0 then "-" + NatText(-n) else NatText(n)
  }

  function NatText(n: nat): (t: string)
    ensures |t| > 0 && AllDigits(t)
  {
    if n < 10 then [Digit(n)] else NatText(n / 10) + [Digit(n % 10)]
  }

  function Digit(d: nat): (c: char)
    requires d < 10
    ensures '0' <= c <= '9'
  {
    ('0' as int + d) as char
  }

  predicate AllDigits(t: string)
  {
    forall i :: 0 <= i < |t| ==> '0' <= t[i] <= '9'
  }

  /** The number a non-empty string of decimal digits denotes. */
  function NatValue(t: string): nat
    requires AllDigits(t)
  {
    if |t| == 0 then 0 else 10 * NatValue(t[..|t| - 1]) + (t[|t| - 1] as int - '0' as int)
  }

  /** Reads an integer back from its decimal text: digits, after an optional minus sign. */
  function IntValue(t: string): Option<int>
  {
    if |t| > 0 && t[0] == '-' then
      if 1 < |t| && AllDigits(t[1..]) then Some(-(NatValue(t[1..]) as int)) else None
    else if 0 < |t| && AllDigits(t) then Some(NatValue(t))
    else None
  }

  /** The decimal text of a natural number reads back as that number. */
  lemma {:induction false} NatTextRoundTrip(n: nat)
    ensures NatValue(NatText(n)) == n
  {
    if n >= 10 {
      NatTextRoundTrip(n / 10);
      var t := NatText(n);
      assert t[..|t| - 1] == NatText(n / 10);
    }
  }

  /** The decimal text of an integer reads back as that integer. */
  lemma IntTextRoundTrip(n: int)
    ensures IntValue(IntText(n)) == Some(n)
  {
    if n < 0 {
      NatTextRoundTrip(-n);
      assert IntText(n)[1..] == NatText(-n);
    } else {
      NatTextRoundTrip(n);
    }
  }

  /** A lower-case hexadecimal digit, as `repr` writes it after `\x`. */
  function HexDigit(d: nat): char
    requires d < 16
  {
    if d < 10 then ('0' as int + d) as char else ('a' as int + d - 10) as char
  }

  predicate IsHexDigit(c: char)
  {
    '0' <= c <= '9' || 'a' <= c <= 'f'
  }

  function HexValue(c: char): (d: nat)
    requires IsHexDigit(c)
    ensures d < 16 && HexDigit(d) == c
  {
    if c <= '9' then c as int - '0' as int else c as int - 'a' as int + 10
  }

  /**
    The repr of a str: single quotes, unless the text holds a single quote and
    no double quote; backslash, the chosen quote and control characters escaped.
  */
  function Quote(s: string): (r: string)
    ensures |r| >= 2 && r[0] == r[|r| - 1] && (r[0] == '\'' || r[0] == '"')
    ensures r[0] == '"' <==> '\'' in s && '"' !in s
  {
    var q := if '\'' in s && '"' !in s then '"' else '\'';
    [q] + Escape(s, q) + [q]
  }

  function Escape(s: string, q: char): string
  {
    if |s| == 0 then "" else EscapeChar(s[0], q) + Escape(s[1..], q)
  }

  function EscapeChar(c: char, q: char): string
  {
    if c == q || c == '\\' then ['\\', c]
    else if c == '\n' then "\\n"
    else if c == '\r' then "\\r"
    else if c == '\t' then "\\t"
    else if c < ' ' || c as int == 0x7f then "\\x" + [HexDigit(c as int / 16), HexDigit(c as int % 16)]
    else [c]
  }

  function Prepend(c: char, rest: Option<string>): Option<string>
  {
    if rest.None? then None else Some([c] + rest.value)
  }

  /**
    Reads the body of a str literal quoted with `q` back into the text it
    denotes: the escapes `Escape` writes are undone, and a bare quote or a
    dangling backslash is rejected.
  */
  function Unescape(t: string, q: char): Option<string>
    decreases |t|
  {
    if |t| == 0 then Some("")
    else if t[0] != '\\' then
      if t[0] == q then None else Prepend(t[0], Unescape(t[1..], q))
    else if |t| < 2 then None
    else if t[1] == 'n' then Prepend('\n', Unescape(t[2..], q))
    else if t[1] == 'r' then Prepend('\r', Unescape(t[2..], q))
    else if t[1] == 't' then Prepend('\t', Unescape(t[2..], q))
    else if t[1] == q || t[1] == '\\' then Prepend(t[1], Unescape(t[2..], q))
    else if t[1] == 'x' && |t| >= 4 && IsHexDigit(t[2]) && IsHexDigit(t[3]) then
      Prepend((16 * HexValue(t[2]) + HexValue(t[3])) as char, Unescape(t[4..], q))
    else None
  }

  /** Unescaping undoes the escape of one character, whatever follows it. */
  lemma UnescapeChar(c: char, q: char, rest: string)
    requires q == '\'' || q == '"'
    ensures Unescape(EscapeChar(c, q) + rest, q) == Prepend(c, Unescape(rest, q))
  {
    var t := EscapeChar(c, q) + rest;
    if c == q || c == '\\' || c == '\n' || c == '\r' || c == '\t' {
      assert t[2..] == rest;
    } else if c < ' ' || c as int == 0x7f {
      var hi, lo := c as int / 16, c as int % 16;
      assert t[2] == HexDigit(hi) && t[3] == HexDigit(lo);
      assert HexValue(t[2]) == hi && HexValue(t[3]) == lo;
      assert t[4..] == rest;
    } else {
      assert t[1..] == rest;
    }
  }

  /** The escaped text reads back as the original. */
  lemma {:induction false} EscapeRoundTrip(s: string, q: char)
    requires q == '\'' || q == '"'
    ensures Unescape(Escape(s, q), q) == Some(s)
  {
    if |s| > 0 {
      var rest := Escape(s[1..], q);
      assert Escape(s, q) == EscapeChar(s[0], q) + rest;
      EscapeRoundTrip(s[1..], q);
      UnescapeChar(s[0], q, rest);
      assert [s[0]] + s[1..] == s;
    }
  }

  /** `repr` of a str is a quoted literal that reads back as the str. */
  lemma QuoteRoundTrip(s: string)
    ensures var r := Quote(s);
            Unescape(r[1..|r| - 1], r[0]) == Some(s)
  {
    var q := if '\'' in s && '"' !in s then '"' else '\'';
    var r := Quote(s);
    assert r[1..|r| - 1] == Escape(s, q);
    EscapeRoundTrip(s, q);
  }

  /** `needle in haystack` for two str values: a substring test. */
  predicate IsSubstring(needle: string, haystack: string)
  {
    exists i :: 0 <= i <= |haystack| && OccursAt(needle, haystack, i)
  }

  predicate OccursAt(needle: string, haystack: string, i: int)
  {
    0 <= i <= |haystack| - |needle| && haystack[i..i + |needle|] == needle
  }
}
