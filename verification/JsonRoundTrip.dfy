/**
  Reading what the fast writer wrote gives the same tree back.
 */
module JsonRoundTrip {
  import opened Options
  import opened Json
  import opened JsonGrammar

  /** What may follow a value so that a number in front of it ends there. */
  ghost predicate Delimited(rest: string) {
    rest == "" || !IsNumberChar(rest[0])
  }

  // ---- Strings

  /** Undoing an escape gives the character and leaves the rest to be undone. */
  lemma UnescapeOne(c: char, s: string)
    requires c != '\0'
    ensures Unescaped(Escape(c) + s) == Prepend([c], Unescaped(s))
  {
    var e := Escape(c) + s;
    if c == '"' || c == '\\' || c == BACKSPACE || c == FORM_FEED || c == '\n' || c == '\r' || c == '\t' {
      assert e[2..] == s;
    } else if IsControl(c) {
      ControlEscape(c, s);
    } else {
      assert e[1..] == s;
    }
  }

  lemma ControlEscape(c: char, s: string)
    requires IsControl(c)
    ensures CodePoint("00" + [HexChar(c as int / 16), HexChar(c as int % 16)] + s) == Some((c as int, s))
    ensures Unescaped("\\u00" + [HexChar(c as int / 16), HexChar(c as int % 16)] + s) == Prepend([c], Unescaped(s))
  {
    var h := "00" + [HexChar(c as int / 16), HexChar(c as int % 16)] + s;
    assert h[4..] == s;
    HexRoundTrip(c as int / 16);
    HexRoundTrip(c as int % 16);
    var e := "\\u00" + [HexChar(c as int / 16), HexChar(c as int % 16)] + s;
    assert e[2..] == h;
  }

  lemma HexRoundTrip(d: nat)
    requires d < 16
    ensures HexValue(HexChar(d)) == Some(d)
  {
  }

  lemma {:induction false} UnescapeEscaped(s: string)
    requires '\0' !in s
    ensures Unescaped(Escaped(s)) == Some(s)
  {
    if s == "" {
    } else {
      hide Unescaped, Escape;
      UnescapeEscaped(s[1..]);
      UnescapeOne(s[0], Escaped(s[1..]));
      assert s == [s[0]] + s[1..];
    }
  }

  /** The closing quote is not found inside an escape. */
  lemma ScanOne(c: char, t: string)
    ensures StringRest(Escape(c) + t) == StringRest(t)
  {
    var e := Escape(c) + t;
    if c == '"' || c == '\\' || c == BACKSPACE || c == FORM_FEED || c == '\n' || c == '\r' || c == '\t' {
      assert e[2..] == t;
    } else if IsControl(c) {
      ScanControl(HexChar(c as int / 16), HexChar(c as int % 16), t);
    } else {
      assert e[1..] == t;
    }
  }

  lemma ScanControl(a: char, b: char, t: string)
    requires a != '\\' && a != '"' && b != '\\' && b != '"'
    ensures StringRest("\\u00" + [a, b] + t) == StringRest(t)
  {
    var e := "\\u00" + [a, b] + t;
    var t1, t2, t3 := [b] + t, [a] + ([b] + t), ['0'] + ([a] + ([b] + t));
    assert e[2..] == ['0'] + t3;
    ScanPlain(b, t);
    ScanPlain(a, t1);
    ScanPlain('0', t2);
    ScanPlain('0', t3);
  }

  lemma ScanPlain(c: char, t: string)
    requires c != '\\' && c != '"'
    ensures StringRest([c] + t) == StringRest(t)
  {
    assert ([c] + t)[1..] == t;
  }

  lemma {:induction false} ScanEscaped(s: string, t: string)
    ensures StringRest(Escaped(s) + "\"" + t) == Some(t)
  {
    if s == "" {
      assert ("\"" + t)[1..] == t;
      assert Escaped(s) + "\"" + t == "\"" + t;
    } else {
      ScanEscaped(s[1..], t);
      ScanOne(s[0], Escaped(s[1..]) + "\"" + t);
      assert Escaped(s) + "\"" + t == Escape(s[0]) + (Escaped(s[1..]) + "\"" + t);
    }
  }

  lemma QuoteToken(s: string, t: string)
    requires '\0' !in s
    ensures NextToken(Quote(s) + t) == Token(StringToken, Quote(s), t)
    ensures NextNonComment(Quote(s) + t) == Token(StringToken, Quote(s), t)
    ensures Unescaped(Body(Quote(s))) == Some(s)
  {
    hide Unescaped, StringRest, Escaped, CString;
    CStringLaws(s);
    var d := Quote(s) + t;
    assert d[0] == '"' && d[1..] == Escaped(s) + "\"" + t;
    ScanEscaped(s, t);
    assert d[..|d| - |t|] == Quote(s);
    assert Body(Quote(s)) == Escaped(s);
    UnescapeEscaped(s);
  }

  // ---- Numbers

  lemma {:induction false} NumberStops(s: string, t: string)
    requires AllDigits(s) && Delimited(t)
    ensures NumberRest(s + t) == t
  {
    if s == "" {
      assert s + t == t;
    } else {
      assert (s + t)[0] == s[0] && (s + t)[1..] == s[1..] + t;
      NumberStops(s[1..], t);
    }
  }

  lemma NumberToken(i: int, t: string)
    requires Delimited(t)
    ensures NextToken(IntText(i) + t) == Token(Number, IntText(i), t)
  {
    hide Digits;
    var s := IntText(i);
    var d := s + t;
    assert d[0] == s[0] && d[1..] == s[1..] + t;
    NumberStops(s[1..], t);
    assert d[..|d| - |t|] == s;
  }

  lemma NumberDecodes(i: int)
    requires MIN_LARGEST_INT < i <= MAX_LARGEST_UINT
    ensures IsNumberText(IntText(i)) && DecodedNumber(IntText(i)) == Tagged(i)
  {
    hide Digits;
    var s := IntText(i);
    forall k | 0 <= k < |s|
      ensures !MarksDouble(s, k)
    {
      if i < 0 && k > 0 {
        assert s[k] == Digits(-i)[k - 1];
      }
    }
    if i < 0 {
      assert s[1..] == Digits(-i);
    }
  }

  // ---- Values

  /** One character that is a token by itself. */
  lemma CharToken(c: char, t: string)
    requires c in "{}[],:"
    ensures NextToken([c] + t) == Token(CharKind(c), [c], t)
    ensures NextNonComment([c] + t) == Token(CharKind(c), [c], t)
  {
    var d := [c] + t;
    assert d[0] == c && d[1..] == t && d[..|d| - |t|] == [c];
  }

  function CharKind(c: char): Kind
    requires c in "{}[],:"
  {
    if c == '{' then ObjectBegin
    else if c == '}' then ObjectEnd
    else if c == '[' then ArrayBegin
    else if c == ']' then ArrayEnd
    else if c == ',' then ArraySeparator
    else MemberSeparator
  }

  lemma WordTaken(kind: Kind, word: string, t: string)
    requires word != ""
    ensures WordToken(kind, word + t, (word + t)[1..], word[1..]) == Token(kind, word, t)
  {
    var d := word + t;
    assert d[1..] == word[1..] + t;
    assert d[1..][|word| - 1..] == t && d[..|d| - |t|] == word;
  }

  lemma NullReads(t: string)
    ensures NextNonComment("null" + t) == Token(NullToken, "null", t)
  {
    WordTaken(NullToken, "null", t);
    hide WordToken, StringRest, NumberRest, CommentToken, Taking;
    assert "null"[1..] == "ull";
  }

  lemma TrueReads(t: string)
    ensures NextNonComment("true" + t) == Token(True, "true", t)
  {
    WordTaken(True, "true", t);
    hide WordToken, StringRest, NumberRest, CommentToken, Taking;
    assert "true"[1..] == "rue";
  }

  lemma FalseReads(t: string)
    ensures NextNonComment("false" + t) == Token(False, "false", t)
  {
    WordTaken(False, "false", t);
    hide WordToken, StringRest, NumberRest, CommentToken, Taking;
    assert "false"[1..] == "alse";
  }

  /** How a value's text starts: not with a space, and not with what would close an array. */
  lemma FirstChar(v: Value, colon: string)
    requires Writable(v)
    ensures Text(v, colon) != "" && !IsSpace(Text(v, colon)[0]) && Text(v, colon)[0] != ']'
  {
  }

  /** Leading spaces change nothing. */
  lemma SpaceBefore(t: string)
    ensures ParseValue(" " + t) == ParseValue(t)
  {
    hide ParseMembers, ParseItems, FrontToken;
    assert (" " + t)[1..] == t;
    assert NextToken(" " + t) == NextToken(t);
  }

  lemma {:induction false} ValueReads(v: Value, colon: string, rest: string)
    requires Writable(v) && (colon == ":" || colon == ": ") && Delimited(rest)
    ensures ParseValue(Text(v, colon) + rest) == Success(Retagged(v), rest)
    decreases v, 0
  {
    hide NextToken, NextNonComment, ParseItems, ParseMembers, Quote, IntText, Digits, ItemsText, MembersText,
         DecodedNumber, Unescaped, Body;
    match v
    case Null => NullReads(rest);
    case Bool(b) => if b { TrueReads(rest); } else { FalseReads(rest); }
    case Int(i) => IntReads(i, rest);
    case UInt(u) => UIntReads(u, rest);
    case Str(s) => QuoteToken(s, rest);
    case Arr(items) => ArrayReads(items, colon, rest);
    case Obj(members) => ObjectReads(members, colon, rest);
  }

  lemma UIntReads(u: nat, rest: string)
    requires u <= MAX_LARGEST_UINT && Delimited(rest)
    ensures ParseValue(Digits(u) + rest) == Success(Tagged(u), rest)
  {
    hide ParseValue, Digits;
    IntReads(u, rest);
  }

  lemma IntReads(i: int, rest: string)
    requires MIN_LARGEST_INT < i <= MAX_LARGEST_UINT && Delimited(rest)
    ensures ParseValue(IntText(i) + rest) == Success(Tagged(i), rest)
  {
    hide IntText, DecodedNumber, NextToken, ParseItems, ParseMembers, Tagged;
    NumberToken(i, rest);
    NumberDecodes(i);
  }

  // ---- Arrays

  lemma {:induction false} ArrayReads(items: seq<Value>, colon: string, rest: string)
    requires Writable(Arr(items)) && (colon == ":" || colon == ": ")
    ensures ParseValue("[" + ItemsText(items, colon) + "]" + rest) == Success(Retagged(Arr(items)), rest)
    decreases items, 2
  {
    hide ParseItems, ParseMembers, NextToken, NextNonComment, ItemsText;
    var t := ItemsText(items, colon) + "]" + rest;
    assert "[" + ItemsText(items, colon) + "]" + rest == "[" + t;
    CharToken('[', t);
    if items == [] {
      NoText(colon);
      assert t == "]" + rest && t[1..] == rest;
      assert Retagged(Arr(items)) == Arr([]);
    } else {
      FirstItem(items, colon);
      ItemsRead(items, colon, rest, []);
      assert [] + RetaggedItems(items) == RetaggedItems(items);
    }
  }

  lemma NoText(colon: string)
    ensures ItemsText([], colon) == "" && MembersText([], colon) == ""
  {
  }

  lemma FirstItem(items: seq<Value>, colon: string)
    requires items != [] && Writable(items[0])
    ensures ItemsText(items, colon) != "" && !IsSpace(ItemsText(items, colon)[0]) && ItemsText(items, colon)[0] != ']'
  {
    hide Text;
    FirstChar(items[0], colon);
  }

  /** What follows the first item: the end, or a comma and the others. */
  function AfterItem(items: seq<Value>, colon: string, rest: string): (s: string)
    requires items != []
    ensures s != "" && s[0] == (if |items| == 1 then ']' else ',')
    ensures s[1..] == if |items| == 1 then rest else ItemsText(items[1..], colon) + "]" + rest
  {
    if |items| == 1 then "]" + rest else "," + (ItemsText(items[1..], colon) + "]" + rest)
  }

  lemma ItemsSplit(items: seq<Value>, colon: string, rest: string)
    requires items != []
    ensures ItemsText(items, colon) + "]" + rest == Text(items[0], colon) + AfterItem(items, colon, rest)
  {
    hide Text;
    if |items| > 1 {
      assert ItemsText(items, colon) == Text(items[0], colon) + "," + ItemsText(items[1..], colon);
    }
  }

  lemma {:induction false} FirstItemReads(items: seq<Value>, colon: string, rest: string, done: seq<Value>)
    requires items != [] && Writable(items[0]) && (colon == ":" || colon == ": ")
    ensures var done' := done + [Retagged(items[0])];
            ParseItems(ItemsText(items, colon) + "]" + rest, done)
            == if |items| == 1 then Success(done', rest) else ParseItems(ItemsText(items[1..], colon) + "]" + rest, done')
    decreases items, 0
  {
    hide Text, ItemsText, AfterItem, ParseValue, NextToken, NextNonComment, Writable, Retagged;
    var after := AfterItem(items, colon, rest);
    ItemsSplit(items, colon, rest);
    ValueReads(items[0], colon, after);
    assert after == [after[0]] + after[1..];
    CharToken(after[0], after[1..]);
  }

  lemma {:induction false} ItemsRead(items: seq<Value>, colon: string, rest: string, done: seq<Value>)
    requires items != [] && (forall i :: 0 <= i < |items| ==> Writable(items[i])) && (colon == ":" || colon == ": ")
    ensures ParseItems(ItemsText(items, colon) + "]" + rest, done) == Success(done + RetaggedItems(items), rest)
    decreases items, 1
  {
    hide ItemsText, ParseItems, Writable, Retagged;
    FirstItemReads(items, colon, rest, done);
    var done' := done + [Retagged(items[0])];
    assert done + RetaggedItems(items) == done' + RetaggedItems(items[1..]);
    if |items| > 1 {
      ItemsRead(items[1..], colon, rest, done');
    } else {
      assert done' + RetaggedItems([]) == done';
    }
  }

  // ---- Objects

  lemma {:induction false} ObjectReads(members: seq<Member>, colon: string, rest: string)
    requires Writable(Obj(members)) && (colon == ":" || colon == ": ")
    ensures ParseValue("{" + MembersText(members, colon) + "}" + rest) == Success(Retagged(Obj(members)), rest)
    decreases members, 2
  {
    hide ParseItems, ParseMembers, NextToken, NextNonComment, MembersText;
    var t := MembersText(members, colon) + "}" + rest;
    assert "{" + MembersText(members, colon) + "}" + rest == "{" + t;
    CharToken('{', t);
    if members == [] {
      NoText(colon);
      assert t == "}" + rest;
      NoMembers(rest);
    } else {
      MembersRead(members, colon, rest, true, []);
      assert [] + RetaggedMembers(members) == RetaggedMembers(members);
    }
  }

  lemma NoMembers(rest: string)
    ensures ParseMembers("}" + rest, true, []) == Success([], rest)
  {
    hide NextToken, NextNonComment;
    CharToken('}', rest);
  }

  function AfterMember(members: seq<Member>, colon: string, rest: string): (s: string)
    requires members != []
    ensures s != "" && s[0] == (if |members| == 1 then '}' else ',')
    ensures s[1..] == if |members| == 1 then rest else MembersText(members[1..], colon) + "}" + rest
  {
    if |members| == 1 then "}" + rest else "," + (MembersText(members[1..], colon) + "}" + rest)
  }

  lemma MembersSplit(members: seq<Member>, colon: string, rest: string)
    requires members != []
    ensures MembersText(members, colon) + "}" + rest
            == Quote(members[0].name) + (colon + (Text(members[0].value, colon) + AfterMember(members, colon, rest)))
  {
    hide Text, Quote;
    var m := members[0];
    var q, x := Quote(m.name), Text(m.value, colon);
    assert MemberText(m, colon) == q + colon + x;
    if |members| == 1 {
      GlueLast(q, colon, x, rest);
    } else {
      assert MembersText(members, colon) == MemberText(m, colon) + "," + MembersText(members[1..], colon);
      hide MembersText, MemberText;
      GlueMore(q, colon, x, MembersText(members[1..], colon), rest);
    }
  }

  lemma GlueLast(q: string, c: string, x: string, rest: string)
    ensures (q + c + x) + "}" + rest == q + (c + (x + ("}" + rest)))
  {
  }

  lemma GlueMore(q: string, c: string, x: string, others: string, rest: string)
    ensures ((q + c + x) + "," + others) + "}" + rest == q + (c + (x + ("," + (others + "}" + rest))))
  {
    var tail := others + "}" + rest;
    assert ((q + c + x) + "," + others) + "}" + rest == (q + c + x) + ("," + tail);
    assert (q + c + x) + ("," + tail) == q + (c + (x + ("," + tail)));
  }

  lemma RestWritable(members: seq<Member>)
    requires members != [] && Writable(Obj(members))
    ensures '\0' !in members[0].name && Writable(members[0].value)
    ensures Writable(Obj(members[1..]))
    ensures |members| > 1 ==> Less(members[0].name, members[1].name)
  {
    hide Less;
  }

  /** One round of the member loop. */
  lemma MemberStep(t: string, nameEmpty: bool, done: seq<Member>, name: string, q: Token, v: Value, u: string, comma: Token)
    requires q == NextNonComment(t) && q.kind == StringToken && Unescaped(Body(q.text)) == Some(name) && '\0' !in name
    requires NextToken(q.rest).kind == MemberSeparator && ParseValue(NextToken(q.rest).rest) == Success(v, u)
    requires comma == NextToken(u) && (comma.kind == ObjectEnd || comma.kind == ArraySeparator)
    ensures comma.kind == ObjectEnd ==> ParseMembers(t, nameEmpty, done) == Success(Put(done, name, v), comma.rest)
    ensures comma.kind != ObjectEnd ==>
              ParseMembers(t, nameEmpty, done) == ParseMembers(comma.rest, name == "", Put(done, name, v))
  {
    hide ParseValue, NextToken, NextNonComment, Unescaped, Put, Body, CString;
    CStringLaws(name);
  }

  lemma {:induction false} FirstMemberReads(members: seq<Member>, colon: string, rest: string, nameEmpty: bool,
                                            done: seq<Member>)
    requires members != [] && Writable(Obj(members)) && (colon == ":" || colon == ": ")
    requires forall m :: m in done ==> Less(m.name, members[0].name)
    ensures var done' := done + [Member(members[0].name, Retagged(members[0].value))];
            ParseMembers(MembersText(members, colon) + "}" + rest, nameEmpty, done)
            == if |members| == 1 then Success(done', rest)
               else ParseMembers(MembersText(members[1..], colon) + "}" + rest, members[0].name == "", done')
    decreases members, 0
  {
    hide Text, MembersText, AfterMember, ParseValue, ParseMembers, NextToken, NextNonComment;
    hide Unescaped, Quote, Less, Put, Writable, Retagged, Body;
    var Member(name, value) := members[0];
    var after := AfterMember(members, colon, rest);
    var text := MembersText(members, colon) + "}" + rest;
    RestWritable(members);
    MembersSplit(members, colon, rest);
    QuoteToken(name, colon + (Text(value, colon) + after));
    ColonReads(value, colon, after);
    assert after == [after[0]] + after[1..];
    CharToken(after[0], after[1..]);
    MemberStep(text, nameEmpty, done, name, NextNonComment(text), Retagged(value), after, NextToken(after));
    PutLast(done, name, Retagged(value));
  }

  lemma {:induction false} MembersRead(members: seq<Member>, colon: string, rest: string, nameEmpty: bool, done: seq<Member>)
    requires members != [] && Writable(Obj(members)) && (colon == ":" || colon == ": ")
    requires forall m :: m in done ==> Less(m.name, members[0].name)
    ensures ParseMembers(MembersText(members, colon) + "}" + rest, nameEmpty, done)
         == Success(done + RetaggedMembers(members), rest)
    decreases members, 1
  {
    hide MembersText, ParseMembers, Less, Writable, Retagged;
    FirstMemberReads(members, colon, rest, nameEmpty, done);
    var Member(name, value) := members[0];
    var done' := done + [Member(name, Retagged(value))];
    assert done + RetaggedMembers(members) == done' + RetaggedMembers(members[1..]);
    if |members| > 1 {
      RestWritable(members);
      NamesBelow(done, name, Retagged(value), members[1].name);
      MembersRead(members[1..], colon, rest, name == "", done');
    } else {
      assert done' + RetaggedMembers([]) == done';
    }
  }

  lemma NamesBelow(done: seq<Member>, name: string, value: Value, next: string)
    requires (forall m :: m in done ==> Less(m.name, name)) && Less(name, next)
    ensures forall m :: m in done + [Member(name, value)] ==> Less(m.name, next)
  {
    forall m | m in done
      ensures Less(m.name, next)
    {
      LessTransitive(m.name, name, next);
    }
  }

  lemma {:induction false} ColonReads(value: Value, colon: string, after: string)
    requires Writable(value) && (colon == ":" || colon == ": ") && Delimited(after)
    ensures var k := NextToken(colon + (Text(value, colon) + after));
            k.kind == MemberSeparator && ParseValue(k.rest) == Success(Retagged(value), after)
    decreases value, 1
  {
    hide ParseValue, NextToken, NextNonComment, Text;
    var t := Text(value, colon) + after;
    ValueReads(value, colon, after);
    if colon == ":" {
      CharToken(':', t);
    } else {
      assert colon + t == ":" + (" " + t);
      CharToken(':', " " + t);
      SpaceBefore(t);
    }
  }

  /** Whatever of the writer's layout options is on, reading back gives the tree with its numbers retagged. */
  lemma WrittenIsRead(v: Value, yaml: bool, lineFeed: bool)
    requires Writable(v)
    ensures ParseValue(Text(v, if yaml then ": " else ":") + (if lineFeed then "\n" else ""))
            == Success(Retagged(v), if lineFeed then "\n" else "")
    ensures SameTree(v, Retagged(v))
  {
    RetaggedSame(v);
    ValueReads(v, if yaml then ": " else ":", if lineFeed then "\n" else "");
  }

  /** A string comes back whole exactly when it holds no NUL. */
  lemma StringComesBack(s: string)
    ensures ParseValue(Text(Str(s), ":")) == Success(Str(s), "") <==> '\0' !in s
  {
    hide ParseValue, CString;
    var c := CString(s);
    CStringLaws(s);
    CStringLaws(c);
    assert Text(Str(c), ":") == Text(Str(s), ":");
    ValueReads(Str(c), ":", "");
    assert Text(Str(c), ":") + "" == Text(Str(c), ":");
  }
}
