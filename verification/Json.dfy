/**
  JSON values and the text the fast writer gives them.
  A character stands for one byte of the document.
 */
module Json {

  /** A double keeps the text it was read from. */
  datatype Value =
    | Null
    | Bool(b: bool)
    | Int(i: int)
    | UInt(u: nat)
    | Double(text: string)
    | Str(s: string)
    | Arr(items: seq<Value>)
    | Obj(members: seq<Member>)

  datatype Member = Member(name: string, value: Value)

  const MAX_INT := 0x7fff_ffff
  const MIN_LARGEST_INT := -0x8000_0000_0000_0000
  const MAX_LARGEST_INT := 0x7fff_ffff_ffff_ffff
  const MAX_LARGEST_UINT := 0xffff_ffff_ffff_ffff

  const BACKSPACE := 8 as char
  const FORM_FEED := 12 as char

  // ---- Object members are kept in `strcmp` order of their names

  predicate Less(a: string, b: string) {
    b != "" && (a == "" || a[0] < b[0] || (a[0] == b[0] && Less(a[1..], b[1..])))
  }

  ghost predicate Ascending(members: seq<Member>) {
    forall i, j :: 0 <= i < j < |members| ==> Less(members[i].name, members[j].name)
  }

  /** `map_[name] = value` */
  function Put(members: seq<Member>, name: string, value: Value): seq<Member> {
    if members == [] || Less(name, members[0].name) then [Member(name, value)] + members
    else if name == members[0].name then [Member(name, value)] + members[1..]
    else [members[0]] + Put(members[1..], name, value)
  }

  lemma {:induction false} LessTotal(a: string, b: string)
    ensures Less(a, b) || Less(b, a) || a == b
    ensures !(Less(a, b) && Less(b, a))
  {
    if a != "" && b != "" {
      LessTotal(a[1..], b[1..]);
      assert a == [a[0]] + a[1..] && b == [b[0]] + b[1..];
    }
  }

  lemma {:induction false} LessTransitive(a: string, b: string, c: string)
    requires Less(a, b) && Less(b, c)
    ensures Less(a, c)
  {
    if a != "" && a[0] == b[0] == c[0] {
      LessTransitive(a[1..], b[1..], c[1..]);
    }
  }

  /** The first place where they differ decides, or the end of the shorter one. */
  lemma {:induction false} LessMeans(a: string, b: string, i: nat)
    requires i <= |a| && i < |b| && a[..i] == b[..i]
    requires i == |a| || a[i] < b[i]
    ensures Less(a, b)
  {
    if i == 0 {
    } else {
      assert a[0] == a[..i][0] == b[..i][0] == b[0];
      assert a[1..][..i - 1] == a[..i][1..] && b[1..][..i - 1] == b[..i][1..];
      LessMeans(a[1..], b[1..], i - 1);
    }
  }

  ghost predicate Below(name: string, members: seq<Member>) {
    forall m :: m in members ==> Less(name, m.name)
  }

  lemma FirstBelow(members: seq<Member>)
    requires members != [] && Ascending(members)
    ensures Below(members[0].name, members[1..]) && Ascending(members[1..])
  {
  }

  lemma BelowFirst(name: string, members: seq<Member>)
    requires members != [] && Below(members[0].name, members[1..])
    requires Less(name, members[0].name) || name == members[0].name
    ensures Below(name, members[1..])
  {
    forall m | m in members[1..]
      ensures Less(name, m.name)
    {
      if name != members[0].name {
        LessTransitive(name, members[0].name, m.name);
      }
    }
  }

  lemma AscendingCons(m: Member, members: seq<Member>)
    requires Ascending(members) && Below(m.name, members)
    ensures Ascending([m] + members)
  {
  }

  /** Assigning keeps the members in order. */
  lemma {:induction false} PutAscending(members: seq<Member>, name: string, value: Value)
    requires Ascending(members)
    ensures Ascending(Put(members, name, value))
    ensures forall lower :: Below(lower, members) && Less(lower, name) ==> Below(lower, Put(members, name, value))
  {
    if members == [] {
    } else {
      hide Less, Ascending;
      var first, rest := members[0], members[1..];
      assert members == [first] + rest;
      FirstBelow(members);
      LessTotal(name, first.name);
      if Less(name, first.name) {
        BelowFirst(name, members);
        AscendingCons(Member(name, value), members);
      } else if name == first.name {
        AscendingCons(Member(name, value), rest);
      } else {
        PutAscending(rest, name, value);
        AscendingCons(first, Put(rest, name, value));
      }
    }
  }

  /** Assigning changes the named member and no other. */
  lemma {:induction false} PutMembers(members: seq<Member>, name: string, value: Value, m: Member)
    requires Ascending(members)
    ensures m in Put(members, name, value) <==> m == Member(name, value) || (m in members && m.name != name)
  {
    if members == [] {
    } else {
      hide Less, Ascending;
      var first, rest := members[0], members[1..];
      assert members == [first] + rest;
      FirstBelow(members);
      LessTotal(name, first.name);
      LessTotal(name, m.name);
      if Less(name, first.name) || name == first.name {
        BelowFirst(name, members);
      } else {
        PutMembers(rest, name, value, m);
      }
    }
  }

  lemma {:induction false} PutLast(members: seq<Member>, name: string, value: Value)
    requires forall m :: m in members ==> Less(m.name, name)
    ensures Put(members, name, value) == members + [Member(name, value)]
  {
    if members == [] {
    } else {
      assert members[0] in members;
      LessTotal(members[0].name, name);
      PutLast(members[1..], name, value);
      assert members == [members[0]] + members[1..];
    }
  }

  // ---- Numbers

  predicate IsDigit(c: char) {
    '0' <= c <= '9'
  }

  function DigitChar(d: nat): (c: char)
    requires d < 10
    ensures IsDigit(c) && DigitValue(c) == d
  {
    ('0' as int + d) as char
  }

  function DigitValue(c: char): nat
    requires IsDigit(c)
  {
    c as int - '0' as int
  }

  predicate AllDigits(s: string) {
    forall i :: 0 <= i < |s| ==> IsDigit(s[i])
  }

  function DigitsValue(s: string): nat
    requires AllDigits(s)
  {
    if s == "" then 0 else 10 * DigitsValue(s[..|s| - 1]) + DigitValue(s[|s| - 1])
  }

  function Digits(n: nat): (s: string)
    ensures s != "" && AllDigits(s) && DigitsValue(s) == n
  {
    if n < 10 then
      var s := [DigitChar(n)];
      assert s[..0] == "";
      s
    else
      var s := Digits(n / 10) + [DigitChar(n % 10)];
      assert s[..|s| - 1] == Digits(n / 10);
      s
  }

  lemma {:induction false} NoLeadingZero(n: nat)
    ensures Digits(n)[0] == '0' ==> n == 0 && Digits(n) == "0"
  {
    if n < 10 {
    } else {
      NoLeadingZero(n / 10);
    }
  }

  function IntText(i: int): string {
    if i < 0 then "-" + Digits(-i) else Digits(i)
  }

  // ---- Strings

  function HexChar(d: nat): char
    requires d < 16
  {
    if d < 10 then DigitChar(d) else ('A' as int + (d - 10)) as char
  }

  predicate IsControl(c: char) {
    0 < c as int <= 0x1F
  }

  function Escape(c: char): (e: string)
    ensures e != ""
  {
    if c == '"' then "\\\""
    else if c == '\\' then "\\\\"
    else if c == BACKSPACE then "\\b"
    else if c == FORM_FEED then "\\f"
    else if c == '\n' then "\\n"
    else if c == '\r' then "\\r"
    else if c == '\t' then "\\t"
    else if IsControl(c) then "\\u00" + [HexChar(c as int / 16), HexChar(c as int % 16)]
    else [c]
  }

  function Escaped(s: string): string {
    if s == "" then "" else Escape(s[0]) + Escaped(s[1..])
  }

  /** A C string ends at its first NUL. */
  function CString(s: string): string {
    if s == "" || s[0] == '\0' then "" else [s[0]] + CString(s[1..])
  }

  lemma {:induction false} CStringLaws(s: string)
    ensures '\0' !in CString(s)
    ensures CString(s) == s <==> '\0' !in s
    ensures CString(s) <= s && (CString(s) != s ==> s[|CString(s)|] == '\0')
  {
    if s == "" {
    } else {
      CStringLaws(s[1..]);
      assert s == [s[0]] + s[1..];
    }
  }

  function Quote(s: string): string {
    "\"" + Escaped(CString(s)) + "\""
  }

  // ---- Values

  function Text(v: Value, colon: string): string
    decreases v
  {
    match v
    case Null => "null"
    case Bool(b) => if b then "true" else "false"
    case Int(i) => IntText(i)
    case UInt(u) => Digits(u)
    case Double(text) => text
    case Str(s) => Quote(s)
    case Arr(items) => "[" + ItemsText(items, colon) + "]"
    case Obj(members) => "{" + MembersText(members, colon) + "}"
  }

  function ItemsText(items: seq<Value>, colon: string): string
    decreases items
  {
    if items == [] then ""
    else if |items| == 1 then Text(items[0], colon)
    else Text(items[0], colon) + "," + ItemsText(items[1..], colon)
  }

  function MembersText(members: seq<Member>, colon: string): string
    decreases members
  {
    if members == [] then ""
    else if |members| == 1 then MemberText(members[0], colon)
    else MemberText(members[0], colon) + "," + MembersText(members[1..], colon)
  }

  function MemberText(m: Member, colon: string): string
    decreases m
  {
    Quote(m.name) + colon + Text(m.value, colon)
  }

  /** Trees that can be built without doubles, embedded NULs or the one integer that has no negation. */
  ghost predicate Writable(v: Value)
    decreases v
  {
    match v
    case Null => true
    case Bool(_) => true
    case Int(i) => MIN_LARGEST_INT < i <= MAX_LARGEST_INT
    case UInt(u) => u <= MAX_LARGEST_UINT
    case Double(_) => false
    case Str(s) => '\0' !in s
    case Arr(items) => forall i :: 0 <= i < |items| ==> Writable(items[i])
    case Obj(members) =>
      && Ascending(members)
      && forall i :: 0 <= i < |members| ==> '\0' !in members[i].name && Writable(members[i].value)
  }

  /** Reading tags a number by its size alone. */
  function Tagged(n: int): Value {
    if n <= MAX_INT then Int(n) else UInt(n)
  }

  function Retagged(v: Value): Value
    decreases v
  {
    match v
    case Int(i) => Tagged(i)
    case UInt(u) => Tagged(u)
    case Arr(items) => Arr(RetaggedItems(items))
    case Obj(members) => Obj(RetaggedMembers(members))
    case _ => v
  }

  function RetaggedItems(items: seq<Value>): seq<Value>
    decreases items
  {
    if items == [] then [] else [Retagged(items[0])] + RetaggedItems(items[1..])
  }

  function RetaggedMembers(members: seq<Member>): seq<Member>
    decreases members
  {
    if members == [] then []
    else [Member(members[0].name, Retagged(members[0].value))] + RetaggedMembers(members[1..])
  }

  /** The tree keeps its shape, its strings and its names; numbers keep their value. */
  ghost predicate SameTree(v: Value, w: Value)
    decreases v
  {
    match v
    case Int(i) => w == Int(i) || (i >= 0 && w == UInt(i))
    case UInt(u) => w == Int(u) || w == UInt(u)
    case Arr(items) => w.Arr? && |w.items| == |items| && forall i :: 0 <= i < |items| ==> SameTree(items[i], w.items[i])
    case Obj(members) =>
      && w.Obj?
      && |w.members| == |members|
      && forall i :: 0 <= i < |members| ==> w.members[i].name == members[i].name && SameTree(members[i].value, w.members[i].value)
    case _ => w == v
  }

  lemma {:induction false} RetaggedSame(v: Value)
    ensures SameTree(v, Retagged(v))
    decreases v
  {
    match v
    case Arr(items) =>
      forall i | 0 <= i < |items|
        ensures |RetaggedItems(items)| == |items| && SameTree(items[i], RetaggedItems(items)[i])
      {
        RetaggedItemsAt(items, i);
        RetaggedSame(items[i]);
      }
      RetaggedItemsLength(items);
    case Obj(members) =>
      RetaggedMembersLength(members);
      forall i | 0 <= i < |members|
        ensures RetaggedMembers(members)[i].name == members[i].name &&
                SameTree(members[i].value, RetaggedMembers(members)[i].value)
      {
        RetaggedMembersAt(members, i);
        RetaggedSame(members[i].value);
      }
    case _ =>
  }

  lemma {:induction false} RetaggedItemsLength(items: seq<Value>)
    ensures |RetaggedItems(items)| == |items|
  {
    if items == [] {
    } else {
      RetaggedItemsLength(items[1..]);
    }
  }

  lemma {:induction false} RetaggedItemsAt(items: seq<Value>, i: nat)
    requires i < |items|
    ensures |RetaggedItems(items)| == |items| && RetaggedItems(items)[i] == Retagged(items[i])
  {
    RetaggedItemsLength(items);
    if i == 0 {
    } else {
      RetaggedItemsAt(items[1..], i - 1);
    }
  }

  lemma {:induction false} RetaggedMembersLength(members: seq<Member>)
    ensures |RetaggedMembers(members)| == |members|
  {
    if members == [] {
    } else {
      RetaggedMembersLength(members[1..]);
    }
  }

  lemma {:induction false} RetaggedMembersAt(members: seq<Member>, i: nat)
    requires i < |members|
    ensures |RetaggedMembers(members)| == |members|
    ensures RetaggedMembers(members)[i] == Member(members[i].name, Retagged(members[i].value))
  {
    RetaggedMembersLength(members);
    if i == 0 {
    } else {
      RetaggedMembersAt(members[1..], i - 1);
    }
  }

  // ---- The characters written

  /** The short escape where there is one, `\\u00` and two digits with capital letters for other control characters. */
  lemma EscapeTable(c: char)
    ensures Escape('"') == "\\\"" && Escape('\\') == "\\\\" && Escape(8 as char) == "\\b" && Escape(12 as char) == "\\f"
    ensures Escape(10 as char) == "\\n" && Escape(13 as char) == "\\r" && Escape(9 as char) == "\\t"
    ensures Escape(1 as char) == "\\u0001" && Escape(0xB as char) == "\\u000B" && Escape(0x1F as char) == "\\u001F"
    ensures |Escape(c)| == 6 <==> 0 < c as int < 0x20 && c as int !in {8, 9, 10, 12, 13}
    ensures c as int >= 0x20 && c != '"' && c != '\\' ==> Escape(c) == [c]
  {
  }

  lemma HexLetters(d: nat)
    requires d < 16
    ensures HexChar(d) == ['0', '1', '2', '3', '4', '5', '6', '7', '8', '9', 'A', 'B', 'C', 'D', 'E', 'F'][d]
  {
  }

  lemma Decimal(d: nat)
    requires d < 10
    ensures DigitChar(d) == ['0', '1', '2', '3', '4', '5', '6', '7', '8', '9'][d]
    ensures Digits(907) == "907" && DigitsValue("907") == 907
  {
    assert "907"[..2] == "90" && "90"[..1] == "9" && "9"[..0] == "";
    assert Digits(9) == "9" && Digits(90) == "90";
  }

  /** Nothing is written between the tokens but the colon handed over. */
  lemma CompactArray(colon: string)
    ensures Text(Arr([Null, Bool(true), Bool(false)]), colon) == "[" + ("null" + "," + ("true" + "," + "false")) + "]"
  {
    var items := [Null, Bool(true), Bool(false)];
    assert items[1..] == [Bool(true), Bool(false)] && items[1..][1..] == [Bool(false)];
    assert ItemsText([Bool(false)], colon) == "false";
    assert ItemsText([Bool(true), Bool(false)], colon) == "true" + "," + "false";
  }

  lemma CompactNumber(colon: string)
    ensures Text(Int(-907), colon) == "-907" && Text(UInt(907), colon) == "907"
  {
    Decimal(0);
    hide Digits;
  }

  lemma CompactObject(a: Member, c: Member, colon: string)
    requires a == Member("a", Str("b")) && c == Member("c", Obj([]))
    ensures Text(Obj([a, c]), colon) == "{" + ("\"a\"" + colon + "\"b\"" + "," + ("\"c\"" + colon + "{}")) + "}"
  {
    OneLetter('a');
    OneLetter('b');
    OneLetter('c');
    hide Quote;
    EmptyText(colon);
    assert [a, c][1..] == [c];
    assert MembersText([c], colon) == MemberText(c, colon);
    assert MembersText([a, c], colon) == MemberText(a, colon) + "," + MemberText(c, colon);
  }

  lemma EmptyText(colon: string)
    ensures Text(Arr([]), colon) == "[]" && Text(Obj([]), colon) == "{}"
  {
  }

  lemma OneLetter(c: char)
    requires 'a' <= c <= 'z'
    ensures Quote([c]) == ['"', c, '"']
  {
    assert [c][1..] == "";
    assert CString([c]) == [c] && Escaped([c]) == [c];
  }
}
