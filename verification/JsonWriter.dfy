/**
  `FastWriter`: the text is appended piece by piece.
 */
module JsonWriter {
  import opened Json

  lemma DigitsStep(n: nat)
    ensures Digits(n) == (if n < 10 then "" else Digits(n / 10)) + [DigitChar(n % 10)]
  {
  }

  method UIntToString(n: nat) returns (s: string)
    ensures s == Digits(n)
    ensures s[0] == '0' ==> n == 0 && s == "0"
  {
    hide Digits, DigitChar;
    NoLeadingZero(n);
    DigitsStep(n);
    var value := n;
    s := [DigitChar(value % 10)];
    value := value / 10;
    while value != 0
      invariant value == 0 ==> s == Digits(n)
      invariant value > 0 ==> Digits(value) + s == Digits(n)
    {
      DigitsStep(value);
      ghost var shown, tail := if value < 10 then "" else Digits(value / 10), s;
      s := [DigitChar(value % 10)] + s;
      assert shown + s == shown + [s[0]] + tail;
      value := value / 10;
    }
  }

  method ValueToString(i: int) returns (s: string)
    ensures s == IntText(i)
  {
    s := UIntToString(if i < 0 then -i else i);
    if i < 0 {
      s := "-" + s;
    }
  }

  /** Characters that are written as they are. */
  predicate IsPlain(c: char) {
    c != '"' && c != '\\' && c != BACKSPACE && c != FORM_FEED && c != '\n' && c != '\r' && c != '\t' && !IsControl(c)
  }

  lemma {:induction false} PlainEscaped(s: string)
    requires forall i :: 0 <= i < |s| ==> IsPlain(s[i])
    ensures Escaped(s) == s
  {
    if s == "" {
    } else {
      PlainEscaped(s[1..]);
    }
  }

  /** The two scans before any escaping: only plain characters up to the end of the string? */
  method NeedsNoEscape(value: string) returns (plain: bool, n: nat)
    ensures plain ==> n <= |value| && CString(value) == value[..n] && forall i :: 0 <= i < n ==> IsPlain(value[i])
  {
    n := 0;
    plain := true;
    while n < |value| && value[n] != '\0'
      invariant n <= |value| && CString(value) == value[..n] + CString(value[n..])
      invariant forall i :: 0 <= i < n ==> IsPlain(value[i])
    {
      if !IsPlain(value[n]) {
        return false, n;
      }
      assert value[..n + 1] == value[..n] + [value[n]];
      assert value[n..][1..] == value[n + 1..];
      n := n + 1;
    }
    assert CString(value[n..]) == "";
    assert value[..n] + "" == value[..n];
  }

  method ValueToQuotedString(value: string) returns (result: string)
    ensures result == Quote(value)
  {
    var plain, n := NeedsNoEscape(value);
    if plain {
      PlainEscaped(value[..n]);
      return "\"" + value[..n] + "\"";
    }
    result := "\"";
    var k := 0;
    while k < |value| && value[k] != '\0'
      invariant k <= |value|
      invariant result + Escaped(CString(value[k..])) == "\"" + Escaped(CString(value))
    {
      EscapeStep(value, k);
      assert result + (Escape(value[k]) + Escaped(CString(value[k + 1..])))
          == (result + Escape(value[k])) + Escaped(CString(value[k + 1..]));
      result := result + Escape(value[k]);
      k := k + 1;
    }
    assert Escaped(CString(value[k..])) == "";
    result := result + "\"";
  }

  lemma EscapeStep(value: string, k: nat)
    requires k < |value| && value[k] != '\0'
    ensures Escaped(CString(value[k..])) == Escape(value[k]) + Escaped(CString(value[k + 1..]))
  {
    hide Escape;
    assert value[k..][1..] == value[k + 1..];
    var c := CString(value[k..]);
    assert c == [value[k]] + CString(value[k + 1..]);
    assert c[1..] == CString(value[k + 1..]);
  }

  // ---- Text of a growing prefix

  lemma {:induction false} ItemsTextPush(items: seq<Value>, v: Value, colon: string)
    ensures ItemsText(items + [v], colon) == ItemsText(items, colon) + (if items == [] then "" else ",") + Text(v, colon)
  {
    hide Text;
    if |items| == 0 {
      assert items + [v] == [v];
    } else {
      assert (items + [v])[1..] == items[1..] + [v];
      ItemsTextPush(items[1..], v, colon);
    }
  }

  lemma {:induction false} MembersTextPush(members: seq<Member>, m: Member, colon: string)
    ensures MembersText(members + [m], colon)
         == MembersText(members, colon) + (if members == [] then "" else ",") + MemberText(m, colon)
  {
    hide MemberText;
    if |members| == 0 {
      assert members + [m] == [m];
    } else {
      assert (members + [m])[1..] == members[1..] + [m];
      MembersTextPush(members[1..], m, colon);
    }
  }

  class FastWriter {
    var document: string
    var yamlCompatibilityEnabled: bool
    var omitEndingLineFeed: bool

    constructor ()
      ensures !yamlCompatibilityEnabled && !omitEndingLineFeed
    {
      document := "";
      yamlCompatibilityEnabled, omitEndingLineFeed := false, false;
    }

    function Colon(): string
      reads this
    {
      if yamlCompatibilityEnabled then ": " else ":"
    }

    method Write(root: Value) returns (r: string)
      modifies `document
      ensures r == Text(root, if yamlCompatibilityEnabled then ": " else ":") + (if omitEndingLineFeed then "" else "\n")
    {
      document := "";
      WriteValue(root);
      if !omitEndingLineFeed {
        document := document + "\n";
      }
      r := document;
    }

    method WriteValue(value: Value)
      modifies `document
      ensures document == old(document) + Text(value, Colon())
      decreases value, 1
    {
      match value
      case Null => document := document + "null";
      case Int(i) =>
        var s := ValueToString(i);
        document := document + s;
      case UInt(u) =>
        var s := UIntToString(u);
        document := document + s;
      case Double(text) => document := document + text;
      case Str(s) =>
        var q := ValueToQuotedString(s);
        document := document + q;
      case Bool(b) => document := document + (if b then "true" else "false");
      case Arr(items) => WriteItems(items);
      case Obj(members) => WriteMembers(members);
    }

    method WriteItems(items: seq<Value>)
      modifies `document
      ensures document == old(document) + ("[" + ItemsText(items, Colon()) + "]")
      decreases items, 0
    {
      hide Text, ItemsText;
      ghost var before := document;
      document := document + "[";
      NoItems(Colon());
      for index := 0 to |items|
        invariant document == before + "[" + ItemsText(items[..index], Colon())
      {
        if index > 0 {
          document := document + ",";
        }
        WriteValue(items[index]);
        ItemsTextPush(items[..index], items[index], Colon());
        assert items[..index] + [items[index]] == items[..index + 1];
      }
      document := document + "]";
      assert items[..|items|] == items;
    }

    method WriteMember(m: Member)
      modifies `document
      ensures document == old(document) + MemberText(m, Colon())
      decreases m, 0
    {
      hide Text, Quote;
      var name := ValueToQuotedString(m.name);
      document := document + name;
      document := document + (if yamlCompatibilityEnabled then ": " else ":");
      WriteValue(m.value);
    }

    method WriteMembers(members: seq<Member>)
      modifies `document
      ensures document == old(document) + ("{" + MembersText(members, Colon()) + "}")
      decreases members, 0
    {
      hide MemberText, MembersText;
      ghost var before := document;
      document := document + "{";
      NoItems(Colon());
      for index := 0 to |members|
        invariant document == before + "{" + MembersText(members[..index], Colon())
      {
        if index > 0 {
          document := document + ",";
        }
        WriteMember(members[index]);
        MembersTextPush(members[..index], members[index], Colon());
        assert members[..index] + [members[index]] == members[..index + 1];
      }
      document := document + "}";
      assert members[..|members|] == members;
    }
  }

  lemma NoItems(colon: string)
    ensures ItemsText([], colon) == "" && MembersText([], colon) == ""
  {
  }
}
