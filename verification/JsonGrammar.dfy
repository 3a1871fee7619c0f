/**
  What the reader makes of a document: tokens, strings, numbers and values,
  each as a function of the text still to be read.
 */
module JsonGrammar {
  import opened Options
  import opened Json

  // ---- Tokens

  datatype Kind =
    | ObjectBegin | ObjectEnd | ArrayBegin | ArrayEnd | StringToken | Number | True | False | NullToken
    | ArraySeparator | MemberSeparator | Comment | EndOfStream | Error

  /** A token, its text and what follows it. */
  datatype Token = Token(kind: Kind, text: string, rest: string)

  predicate IsSpace(c: char) {
    c == ' ' || c == '\t' || c == '\r' || c == '\n'
  }

  function SkipSpaces(t: string): (r: string)
    ensures |r| <= |t| && (r != "" ==> !IsSpace(r[0]))
  {
    if t != "" && IsSpace(t[0]) then SkipSpaces(t[1..]) else t
  }

  /** What follows the closing quote; a backslash hides the character after it. */
  function StringRest(t: string): (r: Option<string>)
    ensures r.Some? ==> |r.value| < |t|
    decreases |t|
  {
    if t == "" then None
    else if t[0] == '\\' then (if |t| == 1 then None else StringRest(t[2..]))
    else if t[0] == '"' then Some(t[1..])
    else StringRest(t[1..])
  }

  predicate IsNumberChar(c: char) {
    IsDigit(c) || c == '.' || c == 'e' || c == 'E' || c == '+' || c == '-'
  }

  function NumberRest(t: string): (r: string)
    ensures |r| <= |t|
  {
    if t != "" && IsNumberChar(t[0]) then NumberRest(t[1..]) else t
  }

  function BlockCommentRest(t: string): (r: Option<string>)
    ensures r.Some? ==> |r.value| <= |t|
  {
    if t == "" then None
    else if t[0] == '*' && |t| > 1 && t[1] == '/' then Some(t[2..])
    else BlockCommentRest(t[1..])
  }

  function LineCommentRest(t: string): (r: string)
    ensures |r| <= |t|
  {
    if t == "" then ""
    else if t[0] == '\r' || t[0] == '\n' then t[1..]
    else LineCommentRest(t[1..])
  }

  /** The token of kind `kind` that leaves `rest` of `t`. */
  function Taking(kind: Kind, t: string, rest: string): Token
    requires |rest| <= |t|
  {
    Token(kind, t[..|t| - |rest|], rest)
  }

  /** After the slash. */
  function CommentToken(t: string, u: string): (k: Token)
    requires t != "" && u == t[1..]
    ensures |k.rest| < |t|
  {
    if u == "" then Taking(Error, t, "")
    else if u[0] == '*' then
      (match BlockCommentRest(u[1..])
       case Some(rest) => Taking(Comment, t, rest)
       case None => Taking(Error, t, ""))
    else if u[0] == '/' then Taking(Comment, t, LineCommentRest(u[1..]))
    else Taking(Error, t, u[1..])
  }

  function WordToken(kind: Kind, t: string, u: string, pattern: string): (k: Token)
    requires t != "" && u == t[1..]
    ensures |k.rest| < |t|
  {
    if pattern <= u then Taking(kind, t, u[|pattern|..]) else Taking(Error, t, u)
  }

  /** The token at the front of a text that does not start with a space. */
  function FrontToken(t: string): (k: Token)
    ensures |k.rest| <= |t| && (k.kind != EndOfStream ==> |k.rest| < |t|)
  {
    if t == "" then Token(EndOfStream, "", "")
    else
      var c, u := t[0], t[1..];
      if c == '{' then Taking(ObjectBegin, t, u)
      else if c == '}' then Taking(ObjectEnd, t, u)
      else if c == '[' then Taking(ArrayBegin, t, u)
      else if c == ']' then Taking(ArrayEnd, t, u)
      else if c == '"' then
        (match StringRest(u)
         case Some(rest) => Taking(StringToken, t, rest)
         case None => Taking(Error, t, ""))
      else if c == '/' then CommentToken(t, u)
      else if IsDigit(c) || c == '-' then Taking(Number, t, NumberRest(u))
      else if c == 't' then WordToken(True, t, u, "rue")
      else if c == 'f' then WordToken(False, t, u, "alse")
      else if c == 'n' then WordToken(NullToken, t, u, "ull")
      else if c == ',' then Taking(ArraySeparator, t, u)
      else if c == ':' then Taking(MemberSeparator, t, u)
      else if c == '\0' then Taking(EndOfStream, t, u)
      else Taking(Error, t, u)
  }

  function NextToken(t: string): (k: Token)
    ensures |k.rest| <= |t| && (k.kind != EndOfStream ==> |k.rest| < |t|)
  {
    FrontToken(SkipSpaces(t))
  }

  function NextNonComment(t: string): (k: Token)
    ensures |k.rest| <= |t| && (k.kind != EndOfStream ==> |k.rest| < |t|) && k.kind != Comment
    decreases |t|
  {
    var k := NextToken(t);
    if k.kind == Comment then NextNonComment(k.rest) else k
  }

  // ---- Numbers

  ghost predicate IsNumberText(s: string) {
    s != "" && (IsDigit(s[0]) || s[0] == '-') && forall i :: 0 < i < |s| ==> IsNumberChar(s[i])
  }

  /** The characters that make a token a double. */
  predicate MarksDouble(s: string, i: nat)
    requires i < |s|
  {
    s[i] == '.' || s[i] == 'e' || s[i] == 'E' || s[i] == '+' || (s[i] == '-' && i != 0)
  }

  predicate IsDouble(s: string) {
    exists i :: 0 <= i < |s| && MarksDouble(s, i)
  }

  function Unsigned(s: string): string {
    if s != "" && s[0] == '-' then s[1..] else s
  }

  function Bound(s: string): nat {
    if s != "" && s[0] == '-' then -MIN_LARGEST_INT else MAX_LARGEST_UINT
  }

  lemma PlainDigits(s: string)
    requires IsNumberText(s) && !IsDouble(s)
    ensures AllDigits(Unsigned(s))
  {
    forall i | 0 <= i < |s| && !(i == 0 && s[0] == '-')
      ensures IsDigit(s[i])
    {
      assert !MarksDouble(s, i);
    }
  }

  /** An integer exactly when there is no double mark and the digits fit the bound. */
  function DecodedNumber(s: string): Value
    requires IsNumberText(s)
  {
    if IsDouble(s) then Double(s)
    else
      PlainDigits(s);
      var n: int := DigitsValue(Unsigned(s));
      if n > Bound(s) then Double(s) else if s[0] == '-' then Tagged(-n) else Tagged(n)
  }

  // ---- Strings

  function HexValue(c: char): (h: Option<nat>)
    ensures h.Some? ==> h.value < 16
  {
    if '0' <= c <= '9' then Some(c as int - '0' as int)
    else if 'a' <= c <= 'f' then Some(c as int - 'a' as int + 10)
    else if 'A' <= c <= 'F' then Some(c as int - 'A' as int + 10)
    else None
  }

  /** The number of four hexadecimal digits at the front. */
  function FourHex(s: string): (h: Option<nat>)
    ensures h.Some? ==> h.value < 0x10000 && |s| >= 4
  {
    if |s| < 4 then None
    else
      match (HexValue(s[0]), HexValue(s[1]), HexValue(s[2]), HexValue(s[3]))
      case (Some(a), Some(b), Some(c), Some(d)) => Some(((a * 16 + b) * 16 + c) * 16 + d)
      case _ => None
  }

  /** A code point after `\u` and what follows it; a high surrogate takes a second escape. */
  function CodePoint(s: string): (r: Option<(nat, string)>)
    ensures r.Some? ==> r.value.0 <= 0x10FFFF && |r.value.1| < |s|
  {
    match FourHex(s)
    case None => None
    case Some(high) =>
      if !(0xD800 <= high <= 0xDBFF) then Some((high, s[4..]))
      else if |s| < 10 || s[4] != '\\' || s[5] != 'u' then None
      else
        match FourHex(s[6..])
        case None => None
        case Some(low) => Some((0x10000 + high % 0x400 * 0x400 + low % 0x400, s[10..]))
  }

  function Byte(n: nat): char
    requires n < 0x100
  {
    n as char
  }

  function Utf8(cp: nat): string {
    if cp <= 0x7F then [Byte(cp)]
    else if cp <= 0x7FF then [Byte(0xC0 + cp / 0x40), Byte(0x80 + cp % 0x40)]
    else if cp <= 0xFFFF then [Byte(0xE0 + cp / 0x1000), Byte(0x80 + cp / 0x40 % 0x40), Byte(0x80 + cp % 0x40)]
    else if cp <= 0x10FFFF then
      [Byte(0xF0 + cp / 0x40000), Byte(0x80 + cp / 0x1000 % 0x40), Byte(0x80 + cp / 0x40 % 0x40), Byte(0x80 + cp % 0x40)]
    else ""
  }

  /** The code point that one to four bytes stand for. */
  function CodeOf(bytes: string): int {
    if |bytes| == 1 then bytes[0] as int
    else if |bytes| == 2 then (bytes[0] as int - 0xC0) * 0x40 + (bytes[1] as int - 0x80)
    else if |bytes| == 3 then ((bytes[0] as int - 0xE0) * 0x40 + (bytes[1] as int - 0x80)) * 0x40 + (bytes[2] as int - 0x80)
    else if |bytes| == 4 then
      (((bytes[0] as int - 0xF0) * 0x40 + (bytes[1] as int - 0x80)) * 0x40 + (bytes[2] as int - 0x80)) * 0x40
      + (bytes[3] as int - 0x80)
    else -1
  }

  /** No two code points share an encoding. */
  lemma Utf8Decodes(cp: nat)
    requires cp <= 0x10FFFF
    ensures CodeOf(Utf8(cp)) == cp
    ensures forall i :: 0 < i < |Utf8(cp)| ==> 0x80 <= Utf8(cp)[i] as int < 0xC0
  {
    assert cp == cp / 0x40 * 0x40 + cp % 0x40;
    var a := cp / 0x40;
    assert a == a / 0x40 * 0x40 + a % 0x40 && cp / 0x1000 == a / 0x40;
    var b := a / 0x40;
    assert b == b / 0x40 * 0x40 + b % 0x40 && cp / 0x40000 == b / 0x40;
  }

  /** The single-character escapes. */
  function SimpleEscape(c: char): Option<char> {
    if c == '"' || c == '/' || c == '\\' then Some(c)
    else if c == 'b' then Some(BACKSPACE)
    else if c == 'f' then Some(FORM_FEED)
    else if c == 'n' then Some('\n')
    else if c == 'r' then Some('\r')
    else if c == 't' then Some('\t')
    else None
  }

  function Prepend(prefix: string, r: Option<string>): Option<string> {
    if r.Some? then Some(prefix + r.value) else None
  }

  /** The string between the quotes with its escapes undone. */
  function Unescaped(s: string): Option<string>
    decreases |s|
  {
    if s == "" || s[0] == '"' then Some("")
    else if s[0] != '\\' then Prepend([s[0]], Unescaped(s[1..]))
    else if |s| == 1 then None
    else if SimpleEscape(s[1]).Some? then Prepend([SimpleEscape(s[1]).value], Unescaped(s[2..]))
    else if s[1] != 'u' then None
    else
      match CodePoint(s[2..])
      case None => None
      case Some((cp, rest)) => Prepend(Utf8(cp), Unescaped(rest))
  }

  /** Without the quotes around it. */
  function Body(token: string): string {
    if |token| < 2 then "" else token[1..|token| - 1]
  }

  // ---- Values

  datatype Parsed<T> = Failure | Success(value: T, rest: string)

  function ParseValue(t: string): (r: Parsed<Value>)
    ensures r.Success? ==> |r.rest| < |t|
    decreases |t|, 0
  {
    var k := NextNonComment(t);
    match k.kind
    case ObjectBegin =>
      (match ParseMembers(k.rest, true, [])
       case Success(members, rest) => Success(Obj(members), rest)
       case Failure => Failure)
    case ArrayBegin =>
      var u := SkipSpaces(k.rest);
      if u != "" && u[0] == ']' then Success(Arr([]), u[1..])
      else
        (match ParseItems(u, [])
         case Success(items, rest) => Success(Arr(items), rest)
         case Failure => Failure)
    case Number => NumberTokens(t); Success(DecodedNumber(k.text), k.rest)
    case StringToken => if Unescaped(Body(k.text)).Some? then Success(Str(Unescaped(Body(k.text)).value), k.rest) else Failure
    case True => Success(Bool(true), k.rest)
    case False => Success(Bool(false), k.rest)
    case NullToken => Success(Null, k.rest)
    case _ => Failure
  }

  function ParseItems(t: string, items: seq<Value>): (r: Parsed<seq<Value>>)
    ensures r.Success? ==> |r.rest| < |t|
    decreases |t|, 1
  {
    match ParseValue(t)
    case Failure => Failure
    case Success(v, u) =>
      var k := NextNonComment(u);
      if k.kind == ArrayEnd then Success(items + [v], k.rest)
      else if k.kind == ArraySeparator then ParseItems(k.rest, items + [v])
      else Failure
  }

  /**
    One round of the member loop. The closing brace in place of a name is taken only while the
    last name was empty; after a comment any token does for the separator.
   */
  function ParseMembers(t: string, nameEmpty: bool, members: seq<Member>): (r: Parsed<seq<Member>>)
    ensures r.Success? ==> |r.rest| < |t|
    decreases |t|, 1
  {
    var k := NextNonComment(t);
    if k.kind == ObjectEnd && nameEmpty then Success(members, k.rest)
    else if k.kind != StringToken || Unescaped(Body(k.text)).None? then Failure
    else
      var name := Unescaped(Body(k.text)).value;
      var colon := NextToken(k.rest);
      if colon.kind != MemberSeparator then Failure
      else
        match ParseValue(colon.rest)
        case Failure => Failure
        case Success(v, u) =>
          var comma := NextToken(u);
          if comma.kind != ObjectEnd && comma.kind != ArraySeparator && comma.kind != Comment then Failure
          else
            var last := if comma.kind == Comment then NextNonComment(comma.rest) else comma;
            var members' := Put(members, CString(name), v);
            if last.kind == ObjectEnd then Success(members', last.rest)
            else ParseMembers(last.rest, name == "", members')
  }

  /** Number tokens have the shape of a number. */
  lemma {:induction false} NumberTokens(t: string)
    ensures NextNonComment(t).kind == Number ==> IsNumberText(NextNonComment(t).text)
    decreases |t|
  {
    var k := NextToken(t);
    if k.kind == Comment {
      NumberTokens(k.rest);
    } else if k.kind == Number {
      NumberChars(SkipSpaces(t)[1..]);
    }
  }

  lemma {:induction false} NumberChars(t: string)
    ensures |NumberRest(t)| <= |t|
    ensures forall i :: 0 <= i < |t| - |NumberRest(t)| ==> IsNumberChar(t[i])
  {
    if t != "" && IsNumberChar(t[0]) {
      NumberChars(t[1..]);
      forall i | 0 <= i < |t| - |NumberRest(t)|
        ensures IsNumberChar(t[i])
      {
        assert i > 0 ==> t[i] == t[1..][i - 1];
      }
    }
  }

  // ---- Objects are maps

  /** Every object of the tree has its names in strict order, so none twice. */
  ghost predicate Ordered(v: Value)
    decreases v
  {
    match v
    case Arr(items) => forall i :: 0 <= i < |items| ==> Ordered(items[i])
    case Obj(members) => OrderedMembers(members)
    case _ => true
  }

  ghost predicate OrderedMembers(members: seq<Member>)
    decreases members
  {
    Ascending(members) && forall i :: 0 <= i < |members| ==> Ordered(members[i].value)
  }

  /** Whatever document is read, with repeated or unordered names too, the objects built are maps. */
  lemma {:induction false} ParsedOrdered(t: string)
    ensures ParseValue(t).Success? ==> Ordered(ParseValue(t).value)
    decreases |t|, 0
  {
    hide OrderedMembers, ParseItems, ParseMembers, NextNonComment, SkipSpaces;
    var k := NextNonComment(t);
    if k.kind == ObjectBegin {
      NoMembersOrdered();
      MembersOrdered(k.rest, true, []);
    } else if k.kind == ArrayBegin {
      ItemsOrdered(SkipSpaces(k.rest), []);
    }
  }

  lemma NoMembersOrdered()
    ensures OrderedMembers([])
  {
  }

  lemma {:induction false} ItemsOrdered(t: string, items: seq<Value>)
    requires forall i :: 0 <= i < |items| ==> Ordered(items[i])
    ensures ParseItems(t, items).Success? ==>
              forall i :: 0 <= i < |ParseItems(t, items).value| ==> Ordered(ParseItems(t, items).value[i])
    decreases |t|, 1
  {
    hide Ordered, ParseValue, NextNonComment;
    ParsedOrdered(t);
    var v := ParseValue(t);
    if v.Success? && NextNonComment(v.rest).kind == ArraySeparator {
      ItemsOrdered(NextNonComment(v.rest).rest, items + [v.value]);
    }
  }

  lemma PutOrdered(members: seq<Member>, name: string, value: Value)
    requires OrderedMembers(members) && Ordered(value)
    ensures OrderedMembers(Put(members, name, value))
  {
    hide Ordered, Put;
    PutAscending(members, name, value);
    var members' := Put(members, name, value);
    forall i | 0 <= i < |members'|
      ensures Ordered(members'[i].value)
    {
      PutMembers(members, name, value, members'[i]);
    }
  }

  lemma {:induction false} MembersOrdered(t: string, nameEmpty: bool, members: seq<Member>)
    requires OrderedMembers(members)
    ensures ParseMembers(t, nameEmpty, members).Success? ==> OrderedMembers(ParseMembers(t, nameEmpty, members).value)
    decreases |t|, 1
  {
    hide Ordered, OrderedMembers, ParseValue, NextNonComment, NextToken, Unescaped, Put;
    var k := NextNonComment(t);
    if k.kind == StringToken && Unescaped(Body(k.text)).Some? && NextToken(k.rest).kind == MemberSeparator {
      var colon := NextToken(k.rest);
      ParsedOrdered(colon.rest);
      var v := ParseValue(colon.rest);
      if v.Success? {
        var name, comma := Unescaped(Body(k.text)).value, NextToken(v.rest);
        var last := if comma.kind == Comment then NextNonComment(comma.rest) else comma;
        PutOrdered(members, CString(name), v.value);
        if |last.rest| < |t| {
          MembersOrdered(last.rest, name == "", Put(members, CString(name), v.value));
        }
      }
    }
  }
}
