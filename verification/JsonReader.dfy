/**
  `Reader`: a cursor moves over the document while tokens are taken and decoded.
 */
module JsonReader {
  import opened Options
  import opened Json
  import opened JsonGrammar

  // ---- Numbers

  /**
    A token without a double mark is an integer exactly when its digits fit; the threshold
    test finds out before the accumulator could pass the bound.
   */
  method DecodeNumber(s: string) returns (decoded: Value)
    requires IsNumberText(s)
    ensures decoded == DecodedNumber(s)
  {
    var isDouble := false;
    for inspect := 0 to |s|
      invariant isDouble <==> exists i :: 0 <= i < inspect && MarksDouble(s, i)
    {
      isDouble := isDouble || MarksDouble(s, inspect);
    }
    if isDouble {
      return Double(s);
    }
    PlainDigits(s);
    var isNegative := s[0] == '-';
    var digits := if isNegative then s[1..] else s;
    var maxIntegerValue := if isNegative then -MIN_LARGEST_INT else MAX_LARGEST_UINT;
    var fits, value := AccumulateDigits(digits, maxIntegerValue);
    if !fits {
      return Double(s);
    }
    if isNegative {
      decoded := Int(-value);
    } else if value <= MAX_INT {
      decoded := Int(value);
    } else {
      decoded := UInt(value);
    }
  }

  method AccumulateDigits(digits: string, maxIntegerValue: nat) returns (fits: bool, value: nat)
    requires AllDigits(digits) && maxIntegerValue >= 10
    ensures fits <==> DigitsValue(digits) <= maxIntegerValue
    ensures fits ==> value == DigitsValue(digits)
  {
    var threshold := maxIntegerValue / 10;
    value := 0;
    var current := 0;
    while current < |digits|
      invariant current <= |digits| && value == DigitsValue(digits[..current]) <= maxIntegerValue
    {
      var digit := DigitValue(digits[current]);
      DigitsStep(digits, current);
      current := current + 1;
      if value >= threshold {
        if value > threshold || current != |digits| || digit > maxIntegerValue % 10 {
          TooMany(digits, current, maxIntegerValue, value, digit);
          return false, value;
        }
      }
      value := value * 10 + digit;
    }
    assert digits[..current] == digits;
    fits := true;
  }

  lemma DigitsStep(s: string, k: nat)
    requires AllDigits(s) && k < |s|
    ensures DigitsValue(s[..k + 1]) == 10 * DigitsValue(s[..k]) + DigitValue(s[k])
  {
    assert s[..k + 1][..k] == s[..k];
  }

  lemma {:induction false} DigitsGrow(s: string, k: nat)
    requires AllDigits(s) && k <= |s|
    ensures DigitsValue(s) >= DigitsValue(s[..k])
    ensures k < |s| ==> DigitsValue(s) >= 10 * DigitsValue(s[..k])
    decreases |s| - k
  {
    if k == |s| {
      assert s[..k] == s;
    } else {
      DigitsGrow(s, k + 1);
      DigitsStep(s, k);
    }
  }

  /** Whenever the loop gives up, the whole number is indeed above the bound. */
  lemma TooMany(s: string, k: nat, max: nat, value: nat, digit: nat)
    requires AllDigits(s) && 0 < k <= |s| && max >= 10
    requires value == DigitsValue(s[..k - 1]) && DigitsValue(s[..k]) == 10 * value + digit
    requires value >= max / 10
    requires value > max / 10 || k != |s| || digit > max % 10
    ensures DigitsValue(s) > max
  {
    DigitsGrow(s, k);
    assert max == 10 * (max / 10) + max % 10;
  }

  // ---- Strings

  method DecodeUnicodeEscapeSequence(s: string, start: nat) returns (unicode: Option<nat>)
    requires start <= |s|
    ensures unicode == FourHex(s[start..])
  {
    if |s| - start < 4 {
      return None;
    }
    var value := 0;
    ghost var h := s[start..];
    for index := 0 to 4
      invariant index >= 1 ==> HexValue(h[0]).Some?
      invariant index >= 2 ==> HexValue(h[1]).Some?
      invariant index >= 3 ==> HexValue(h[2]).Some?
      invariant index == 4 ==> HexValue(h[3]).Some?
      invariant index == 0 ==> value == 0
      invariant index == 1 ==> value == HexValue(h[0]).value
      invariant index == 2 ==> value == HexValue(h[0]).value * 16 + HexValue(h[1]).value
      invariant index == 3 ==> value == (HexValue(h[0]).value * 16 + HexValue(h[1]).value) * 16 + HexValue(h[2]).value
      invariant index == 4 ==>
                  value == ((HexValue(h[0]).value * 16 + HexValue(h[1]).value) * 16 + HexValue(h[2]).value) * 16
                           + HexValue(h[3]).value
    {
      var digit := HexValue(s[start + index]);
      if digit.None? {
        return None;
      }
      value := value * 16 + digit.value;
    }
    unicode := Some(value);
  }

  method DecodeUnicodeCodePoint(s: string, start: nat) returns (r: Option<(nat, nat)>)
    requires start <= |s|
    ensures r.None? <==> CodePoint(s[start..]).None?
    ensures r.Some? ==> start < r.value.1 <= |s| && CodePoint(s[start..]) == Some((r.value.0, s[r.value.1..]))
  {
    hide FourHex;
    var high := DecodeUnicodeEscapeSequence(s, start);
    if high.None? {
      return None;
    }
    var current := start + 4;
    var unicode := high.value;
    assert s[start..][4..] == s[current..];
    if 0xD800 <= unicode <= 0xDBFF {
      if |s| - current < 6 {
        return None;
      }
      if s[current] == '\\' && s[current + 1] == 'u' {
        var low := DecodeUnicodeEscapeSequence(s, current + 2);
        assert s[start..][6..] == s[current + 2..];
        if low.None? {
          return None;
        }
        assert s[start..][10..] == s[current + 6..];
        return Some((0x10000 + unicode % 0x400 * 0x400 + low.value % 0x400, current + 6));
      } else {
        return None;
      }
    }
    r := Some((unicode, current));
  }

  /** `s` is the token's text without its quotes. */
  method DecodeString(s: string) returns (r: Option<string>)
    ensures r == Unescaped(s)
  {
    hide CodePoint, Utf8, SimpleEscape;
    var decoded := "";
    var current := 0;
    assert s[0..] == s;
    PrependNothing(Unescaped(s));
    while current != |s|
      invariant current <= |s| && Prepend(decoded, Unescaped(s[current..])) == Unescaped(s)
      decreases |s| - current
    {
      var t := s[current..];
      var c := s[current];
      current := current + 1;
      if c == '"' {
        assert Unescaped(t) == Some("");
        break;
      } else if c == '\\' {
        if current == |s| {
          return None;
        }
        var escape := s[current];
        current := current + 1;
        assert t[2..] == s[current..];
        if SimpleEscape(escape).Some? {
          PrependTwice(decoded, [SimpleEscape(escape).value], Unescaped(s[current..]));
          decoded := decoded + [SimpleEscape(escape).value];
        } else if escape == 'u' {
          var point := DecodeUnicodeCodePoint(s, current);
          if point.None? {
            return None;
          }
          current := point.value.1;
          PrependTwice(decoded, Utf8(point.value.0), Unescaped(s[current..]));
          decoded := decoded + Utf8(point.value.0);
        } else {
          return None;
        }
      } else {
        assert t[1..] == s[current..];
        PrependTwice(decoded, [c], Unescaped(s[current..]));
        decoded := decoded + [c];
      }
    }
    assert decoded + "" == decoded;
    r := Some(decoded);
  }

  lemma PrependTwice(a: string, b: string, r: Option<string>)
    ensures Prepend(a, Prepend(b, r)) == Prepend(a + b, r)
  {
    if r.Some? {
      assert a + (b + r.value) == a + b + r.value;
    }
  }

  lemma PrependNothing(r: Option<string>)
    ensures Prepend("", r) == r
  {
    if r.Some? {
      assert "" + r.value == r.value;
    }
  }

  // ---- The cursor

  class Reader {
    const document: string
    var current: nat

    constructor (text: string)
      ensures Valid() && document == text && Rest() == text
    {
      document := text;
      current := 0;
    }

    ghost predicate Valid()
      reads this
    {
      current <= |document|
    }

    /** What is still to be read. */
    ghost function Rest(): string
      requires Valid()
      reads this
    {
      document[current..]
    }

    method GetNextChar() returns (c: char)
      requires Valid()
      modifies this
      ensures Valid()
      ensures old(Rest()) == "" ==> c == '\0' && Rest() == ""
      ensures old(Rest()) != "" ==> c == old(Rest())[0] && Rest() == old(Rest())[1..]
    {
      if current == |document| {
        return '\0';
      }
      c := document[current];
      current := current + 1;
    }

    method SkipBlanks()
      requires Valid()
      modifies this
      ensures Valid() && Rest() == SkipSpaces(old(Rest()))
    {
      while current != |document|
        invariant Valid() && SkipSpaces(Rest()) == SkipSpaces(old(Rest()))
        decreases |document| - current
      {
        if IsSpace(document[current]) {
          assert Rest()[1..] == document[current + 1..];
          current := current + 1;
        } else {
          break;
        }
      }
    }

    method Match(pattern: string) returns (ok: bool)
      requires Valid()
      modifies this
      ensures Valid() && ok == (pattern <= old(Rest()))
      ensures Rest() == if ok then old(Rest())[|pattern|..] else old(Rest())
    {
      if |document| - current < |pattern| {
        return false;
      }
      var index := |pattern|;
      while index != 0
        invariant 0 <= index <= |pattern| && current == old(current)
        invariant forall k :: index <= k < |pattern| ==> document[current + k] == pattern[k]
      {
        index := index - 1;
        if document[current + index] != pattern[index] {
          assert old(Rest())[index] != pattern[index];
          return false;
        }
      }
      assert old(Rest())[..|pattern|] == pattern;
      current := current + |pattern|;
      ok := true;
    }

    method ReadBlockComment() returns (ok: bool)
      requires Valid()
      modifies this
      ensures Valid() && ok == BlockCommentRest(old(Rest())).Some?
      ensures Rest() == if ok then BlockCommentRest(old(Rest())).value else ""
    {
      while current != |document|
        invariant Valid() && BlockCommentRest(Rest()) == BlockCommentRest(old(Rest()))
        decreases |document| - current
      {
        ghost var t := Rest();
        var c := GetNextChar();
        assert Rest() == t[1..];
        if c == '*' && current < |document| && document[current] == '/' {
          assert t[2..] == document[current + 1..];
          break;
        }
      }
      var last := GetNextChar();
      ok := last == '/';
    }

    method ReadLineComment()
      requires Valid()
      modifies this
      ensures Valid() && Rest() == LineCommentRest(old(Rest()))
    {
      while current != |document|
        invariant Valid() && LineCommentRest(Rest()) == LineCommentRest(old(Rest()))
        decreases |document| - current
      {
        ghost var t := Rest();
        var c := GetNextChar();
        assert Rest() == t[1..];
        if c == '\r' || c == '\n' {
          break;
        }
      }
    }

    /** After the slash. */
    method ReadComment(ghost t: string) returns (ok: bool)
      requires Valid() && t != "" && Rest() == t[1..]
      modifies this
      ensures Valid() && Rest() == CommentToken(t, t[1..]).rest
      ensures CommentToken(t, t[1..]).kind == if ok then Comment else Error
    {
      var c := GetNextChar();
      ok := false;
      if c == '*' {
        ok := ReadBlockComment();
      } else if c == '/' {
        ReadLineComment();
        ok := true;
      }
    }

    method ReadNumber()
      requires Valid()
      modifies this
      ensures Valid() && Rest() == NumberRest(old(Rest()))
    {
      while current != |document|
        invariant Valid() && NumberRest(Rest()) == NumberRest(old(Rest()))
        decreases |document| - current
      {
        if !IsNumberChar(document[current]) {
          break;
        }
        assert Rest()[1..] == document[current + 1..];
        current := current + 1;
      }
    }

    method ReadString() returns (ok: bool)
      requires Valid()
      modifies this
      ensures Valid() && ok == StringRest(old(Rest())).Some?
      ensures Rest() == if ok then StringRest(old(Rest())).value else ""
    {
      var c := '\0';
      while current != |document|
        invariant Valid() && c != '"' && StringRest(Rest()) == StringRest(old(Rest()))
        decreases |document| - current
      {
        ghost var t := Rest();
        c := GetNextChar();
        assert Rest() == t[1..];
        if c == '\\' {
          var hidden := GetNextChar();
          assert |t| > 1 ==> Rest() == t[2..];
        } else if c == '"' {
          break;
        }
      }
      ok := c == '"';
    }

    method ReadToken() returns (kind: Kind, start: nat, end: nat)
      requires Valid()
      modifies this
      ensures Valid() && start <= end == current
      ensures Token(kind, document[start..end], Rest()) == NextToken(old(Rest()))
    {
      SkipBlanks();
      start := current;
      ghost var t := Rest();
      kind := ReadFront();
      end := current;
      FrontText(t);
      assert document[start..end] == t[..|t| - |Rest()|];
    }

    /** The switch on the first character. */
    method ReadFront() returns (kind: Kind)
      requires Valid()
      modifies this
      ensures Valid() && current >= old(current)
      ensures kind == FrontToken(old(Rest())).kind && Rest() == FrontToken(old(Rest())).rest
    {
      hide StringRest, NumberRest, CommentToken;
      ghost var t := Rest();
      var c := GetNextChar();
      var ok := true;
      match c {
        case '{' => kind := ObjectBegin;
        case '}' => kind := ObjectEnd;
        case '[' => kind := ArrayBegin;
        case ']' => kind := ArrayEnd;
        case '"' =>
          kind := StringToken;
          ok := ReadString();
        case '/' =>
          kind := Comment;
          ok := ReadComment(t);
        case 't' =>
          kind := True;
          ok := Match("rue");
        case 'f' =>
          kind := False;
          ok := Match("alse");
        case 'n' =>
          kind := NullToken;
          ok := Match("ull");
        case ',' => kind := ArraySeparator;
        case ':' => kind := MemberSeparator;
        case '\0' => kind := EndOfStream;
        case _ =>
          if IsDigit(c) || c == '-' {
            kind := Number;
            ReadNumber();
          } else {
            kind := Error;
            ok := false;
          }
      }
      if !ok {
        kind := Error;
      }
    }

    method SkipCommentTokens() returns (kind: Kind, start: nat, end: nat)
      requires Valid()
      modifies this
      ensures Valid() && start <= end == current
      ensures Token(kind, document[start..end], Rest()) == NextNonComment(old(Rest()))
    {
      hide NextToken;
      kind, start, end := ReadToken();
      while kind == Comment
        invariant Valid() && start <= end == current
        invariant kind != Comment ==> Token(kind, document[start..end], Rest()) == NextNonComment(old(Rest()))
        invariant kind == Comment ==> NextNonComment(Rest()) == NextNonComment(old(Rest()))
        decreases kind == Comment, |document| - current
      {
        kind, start, end := ReadToken();
      }
    }

    // ---- Values

    /** The value read and the cursor behind it, or nothing. */
    ghost predicate Reads<T>(r: Option<T>, expected: Parsed<T>)
      requires Valid()
      reads this
    {
      match expected
      case Success(v, rest) => r == Some(v) && Rest() == rest
      case Failure => r == None
    }

    method ReadValue() returns (r: Option<Value>)
      requires Valid()
      modifies this
      ensures Valid() && current >= old(current) && Reads(r, ParseValue(old(Rest())))
      decreases |document| - current, 0
    {
      hide NextNonComment, ParseMembers, ParseItems, DecodedNumber, Unescaped;
      ghost var t := Rest();
      var kind, start, end := SkipCommentTokens();
      match kind {
        case ObjectBegin =>
          var members := ReadObject();
          r := if members.Some? then Some(Obj(members.value)) else None;
        case ArrayBegin =>
          var items := ReadArray();
          r := if items.Some? then Some(Arr(items.value)) else None;
        case Number =>
          NumberTokens(t);
          var number := DecodeNumber(document[start..end]);
          r := Some(number);
        case StringToken =>
          StringTokens(t);
          var decoded := DecodeString(document[start + 1..end - 1]);
          assert document[start + 1..end - 1] == Body(document[start..end]);
          r := if decoded.Some? then Some(Str(decoded.value)) else None;
        case True => r := Some(Bool(true));
        case False => r := Some(Bool(false));
        case NullToken => r := Some(Null);
        case _ => r := None;
      }
    }

    method ReadArray() returns (r: Option<seq<Value>>)
      requires Valid()
      modifies this
      ensures Valid() && current >= old(current) && Reads(r, ParsedArray(old(Rest())))
      decreases |document| - current, 1
    {
      hide ParseValue, NextNonComment;
      SkipBlanks();
      if current < |document| && document[current] == ']' {
        ghost var u := Rest();
        var kind, start, end := ReadToken();
        assert NextToken(u).rest == u[1..];
        return Some([]);
      }
      var items: seq<Value> := [];
      while true
        invariant Valid() && current >= old(current) && ParseItems(Rest(), items) == ParsedArray(old(Rest()))
        decreases |document| - current
      {
        var value := ReadValue();
        if value.None? {
          return None;
        }
        items := items + [value.value];
        var kind, start, end := SkipCommentTokens();
        if kind != ArraySeparator && kind != ArrayEnd {
          return None;
        }
        if kind == ArrayEnd {
          return Some(items);
        }
      }
    }

    method ReadObject() returns (r: Option<seq<Member>>)
      requires Valid()
      modifies this
      ensures Valid() && current >= old(current) && Reads(r, ParseMembers(old(Rest()), true, []))
      decreases |document| - current, 1
    {
      hide ParseValue, NextNonComment, NextToken, Put, Unescaped;
      var members: seq<Member> := [];
      var name := "";
      while true
        invariant Valid() && current >= old(current)
        invariant ParseMembers(Rest(), name == "", members) == ParseMembers(old(Rest()), true, [])
        decreases |document| - current
      {
        ghost var t := Rest();
        var kind, start, end := SkipCommentTokens();
        if kind == ObjectEnd && name == "" {
          return Some(members);
        }
        if kind != StringToken {
          return None;
        }
        StringTokens(t);
        var decoded := DecodeString(document[start + 1..end - 1]);
        assert document[start + 1..end - 1] == Body(document[start..end]);
        if decoded.None? {
          return None;
        }
        name := decoded.value;
        kind, start, end := ReadToken();
        if kind != MemberSeparator {
          return None;
        }
        var value := ReadValue();
        if value.None? {
          return None;
        }
        members := Put(members, CString(name), value.value);
        kind, start, end := ReadToken();
        if kind != ObjectEnd && kind != ArraySeparator && kind != Comment {
          return None;
        }
        if kind == Comment {
          kind, start, end := SkipCommentTokens();
        }
        if kind == ObjectEnd {
          return Some(members);
        }
      }
    }

    /** The first value of the document; what follows it is looked at and ignored. */
    method Parse() returns (r: Option<Value>)
      requires Valid()
      modifies this
      ensures Valid() && r == (match ParseValue(old(Rest())) case Success(v, _) => Some(v) case Failure => None)
    {
      hide ParseValue;
      r := ReadValue();
      var kind, start, end := SkipCommentTokens();
    }
  }

  ghost function ParsedArray(t: string): Parsed<seq<Value>> {
    var u := SkipSpaces(t);
    if u != "" && u[0] == ']' then Success([], u[1..]) else ParseItems(u, [])
  }

  lemma {:induction false} StringTokens(t: string)
    ensures NextNonComment(t).kind == StringToken ==> |NextNonComment(t).text| >= 2
    decreases |t|
  {
    hide StringRest, NumberRest;
    if NextToken(t).kind == Comment {
      StringTokens(NextToken(t).rest);
    } else {
      FrontText(SkipSpaces(t));
    }
  }

  lemma FrontText(t: string)
    ensures |FrontToken(t).rest| <= |t| && FrontToken(t).text == t[..|t| - |FrontToken(t).rest|]
  {
    hide StringRest, NumberRest, BlockCommentRest, LineCommentRest;
  }
}
