/**
  How a document may be laid out: blanks and comments between the tokens, any of the escapes in
  its strings, its members in any order. The reader finds what is meant in every such layout.
 */
module JsonLayout {
  import opened Options
  import opened Json
  import opened JsonGrammar
  import opened JsonRoundTrip

  // ---- What may stand between tokens

  datatype Pause = Blank(c: char) | Block(text: string) | Line(text: string, end: char)

  type Gap = seq<Pause>

  predicate EndsBlock(t: string, i: nat) {
    i + 1 < |t| && t[i] == '*' && t[i + 1] == '/'
  }

  ghost predicate Fine(p: Pause) {
    match p
    case Blank(c) => c in " \t\r\n"
    case Block(text) => forall i :: 0 <= i < |text| ==> !EndsBlock(text + "*/", i)
    case Line(text, end) => end in "\r\n" && forall i :: 0 <= i < |text| ==> text[i] !in "\r\n"
  }

  ghost predicate AllFine(g: Gap) {
    forall i :: 0 <= i < |g| ==> Fine(g[i])
  }

  ghost predicate AllBlank(g: Gap) {
    AllFine(g) && forall i :: 0 <= i < |g| ==> g[i].Blank?
  }

  // All layouts are spelt in front of the text that follows them.

  function SpellPause(p: Pause, rest: string): string {
    match p
    case Blank(c) => [c] + rest
    case Block(text) => "/*" + (text + ("*/" + rest))
    case Line(text, end) => "//" + (text + ([end] + rest))
  }

  function Spell(g: Gap, rest: string): string {
    if g == [] then rest else SpellPause(g[0], Spell(g[1..], rest))
  }

  lemma BlankSkipped(c: char, rest: string)
    ensures c in " \t\r\n" ==> SkipSpaces([c] + rest) == SkipSpaces(rest)
    ensures c !in " \t\r\n" ==> SkipSpaces([c] + rest) == [c] + rest
  {
    assert ([c] + rest)[1..] == rest;
  }

  lemma {:induction false} BlockSkipped(text: string, rest: string)
    requires Fine(Block(text))
    ensures BlockCommentRest(text + ("*/" + rest)) == Some(rest)
  {
    var d := text + ("*/" + rest);
    if text == "" {
      assert d[2..] == rest;
    } else {
      assert d[1..] == text[1..] + ("*/" + rest);
      assert !EndsBlock(text + "*/", 0);
      forall i | 0 <= i < |text[1..]|
        ensures !EndsBlock(text[1..] + "*/", i)
      {
        assert !EndsBlock(text + "*/", i + 1);
      }
      BlockSkipped(text[1..], rest);
    }
  }

  lemma {:induction false} LineSkipped(text: string, end: char, rest: string)
    requires Fine(Line(text, end))
    ensures LineCommentRest(text + ([end] + rest)) == rest
  {
    var d := text + ([end] + rest);
    if text == "" {
      assert d[1..] == rest;
    } else {
      assert d[1..] == text[1..] + ([end] + rest);
      LineSkipped(text[1..], end, rest);
    }
  }

  lemma CommentTaken(p: Pause, rest: string)
    requires Fine(p) && !p.Blank?
    ensures NextToken(SpellPause(p, rest)).kind == Comment && NextToken(SpellPause(p, rest)).rest == rest
  {
    hide StringRest, NumberRest, WordToken, BlockCommentRest, LineCommentRest;
    var d := SpellPause(p, rest);
    match p
    case Block(text) =>
      assert d[1..][1..] == text + ("*/" + rest);
      BlockSkipped(text, rest);
    case Line(text, end) =>
      assert d[1..][1..] == text + ([end] + rest);
      LineSkipped(text, end, rest);
  }

  lemma {:induction false} BlanksSkipped(g: Gap, rest: string)
    requires AllBlank(g)
    ensures SkipSpaces(Spell(g, rest)) == SkipSpaces(rest) && NextToken(Spell(g, rest)) == NextToken(rest)
  {
    hide SkipSpaces, FrontToken;
    if g == [] {
    } else {
      assert Fine(g[0]);
      BlanksSkipped(g[1..], rest);
      BlankSkipped(g[0].c, Spell(g[1..], rest));
    }
  }

  lemma {:induction false} GapSkipped(g: Gap, rest: string)
    requires AllFine(g)
    ensures NextNonComment(Spell(g, rest)) == NextNonComment(rest)
  {
    hide SkipSpaces, FrontToken, SpellPause;
    if g == [] {
    } else {
      var more := Spell(g[1..], rest);
      GapSkipped(g[1..], rest);
      PauseSkipped(g[0], more);
    }
  }

  lemma PauseSkipped(p: Pause, rest: string)
    requires Fine(p)
    ensures NextNonComment(SpellPause(p, rest)) == NextNonComment(rest)
  {
    hide SkipSpaces, FrontToken;
    if p.Blank? {
      BlankSkipped(p.c, rest);
      assert NextToken(SpellPause(p, rest)) == NextToken(rest);
    } else {
      CommentTaken(p, rest);
    }
  }

  /** Blanks and comments before a value, an item or a member change nothing. */
  lemma GapBefore(g: Gap, rest: string)
    requires AllFine(g)
    ensures ParseValue(Spell(g, rest)) == ParseValue(rest)
    ensures forall items :: ParseItems(Spell(g, rest), items) == ParseItems(rest, items)
    ensures forall e, members :: ParseMembers(Spell(g, rest), e, members) == ParseMembers(rest, e, members)
  {
    hide NextToken, NextNonComment, Spell, SkipSpaces, Unescaped, DecodedNumber;
    GapSkipped(g, rest);
  }

  /** Blanks and comments after a member's value: the separator is found behind them. */
  lemma {:induction false} GapAfter(g: Gap, c: char, rest: string)
    requires AllFine(g) && c in "},"
    ensures var k := NextToken(Spell(g, [c] + rest));
            k == Token(CharKind(c), [c], rest)
            || (k.kind == Comment && NextNonComment(k.rest) == Token(CharKind(c), [c], rest))
  {
    hide SkipSpaces, FrontToken, NextNonComment;
    CharToken(c, rest);
    if g == [] {
    } else {
      var more := Spell(g[1..], [c] + rest);
      assert Fine(g[0]);
      if g[0].Blank? {
        GapAfter(g[1..], c, rest);
        BlankSkipped(g[0].c, more);
      } else {
        CommentTaken(g[0], more);
        GapSkipped(g[1..], [c] + rest);
      }
    }
  }

  // ---- Strings

  datatype Piece = Plain(c: char) | Short(c: char) | Code(hex: string) | Pair(high: string, low: string)

  predicate IsHex(c: char) {
    c in "0123456789abcdefABCDEF"
  }

  predicate Hex4(s: string) {
    |s| == 4 && IsHex(s[0]) && IsHex(s[1]) && IsHex(s[2]) && IsHex(s[3])
  }

  function HexDigit(c: char): nat
    requires IsHex(c)
  {
    if c in "0123456789" then c as int - 48 else if c in "abcdef" then c as int - 87 else c as int - 55
  }

  function HexNumber(s: string): nat
    requires Hex4(s)
  {
    0x1000 * HexDigit(s[0]) + 0x100 * HexDigit(s[1]) + 0x10 * HexDigit(s[2]) + HexDigit(s[3])
  }

  predicate FinePiece(p: Piece) {
    match p
    case Plain(c) => c !in "\"\\"
    case Short(c) => c in "\"\\/bfnrt"
    case Code(hex) => Hex4(hex) && !(0xD800 <= HexNumber(hex) <= 0xDBFF)
    case Pair(high, low) => Hex4(high) && Hex4(low) && 0xD800 <= HexNumber(high) <= 0xDBFF
  }

  function SpellPiece(p: Piece, rest: string): string {
    match p
    case Plain(c) => [c] + rest
    case Short(c) => ['\\', c] + rest
    case Code(hex) => "\\u" + (hex + rest)
    case Pair(high, low) => "\\u" + (high + ("\\u" + (low + rest)))
  }

  function PieceMeans(p: Piece): string
    requires FinePiece(p)
  {
    match p
    case Plain(c) => [c]
    case Short(c) =>
      if c == 'b' then [8 as char]
      else if c == 'f' then [12 as char]
      else if c == 'n' then [10 as char]
      else if c == 'r' then [13 as char]
      else if c == 't' then [9 as char]
      else [c]
    case Code(hex) => Utf8(HexNumber(hex))
    case Pair(high, low) => Utf8(0x10000 + 0x400 * (HexNumber(high) - 0xD800) + HexNumber(low) % 0x400)
  }

  predicate FinePieces(ps: seq<Piece>) {
    forall i :: 0 <= i < |ps| ==> FinePiece(ps[i])
  }

  function SpellPieces(ps: seq<Piece>, rest: string): string {
    if ps == [] then rest else SpellPiece(ps[0], SpellPieces(ps[1..], rest))
  }

  function PiecesMean(ps: seq<Piece>): string
    requires FinePieces(ps)
  {
    if ps == [] then "" else PieceMeans(ps[0]) + PiecesMean(ps[1..])
  }

  lemma HexDigits(c: char)
    ensures HexValue(c) == if IsHex(c) then Some(HexDigit(c)) else None
    ensures IsHex(c) ==> c != '\\' && c != '"'
  {
  }

  /** Four digits count for 4096, 256, 16 and 1; anything else is no number. */
  lemma FourDigits(s: string, rest: string)
    requires |s| == 4
    ensures FourHex(s + rest) == if Hex4(s) then Some(HexNumber(s)) else None
  {
    hide HexValue, HexDigit, IsHex;
    var d := s + rest;
    assert d[0] == s[0] && d[1] == s[1] && d[2] == s[2] && d[3] == s[3];
    HexDigits(s[0]);
    HexDigits(s[1]);
    HexDigits(s[2]);
    HexDigits(s[3]);
  }

  lemma CodeRead(hex: string, rest: string)
    requires FinePiece(Code(hex))
    ensures CodePoint(hex + rest) == Some((HexNumber(hex), rest))
  {
    hide FourHex, HexNumber;
    FourDigits(hex, rest);
    assert (hex + rest)[4..] == rest;
  }

  lemma PairRead(high: string, low: string, rest: string)
    requires FinePiece(Pair(high, low))
    ensures CodePoint(high + ("\\u" + (low + rest)))
         == Some((0x10000 + 0x400 * (HexNumber(high) - 0xD800) + HexNumber(low) % 0x400, rest))
  {
    hide FourHex, HexNumber;
    var d := high + ("\\u" + (low + rest));
    FourDigits(high, "\\u" + (low + rest));
    FourDigits(low, rest);
    assert d[4] == '\\' && d[5] == 'u' && d[6..] == low + rest && d[10..] == rest;
    SurrogateBits(HexNumber(high));
  }

  lemma SurrogateBits(high: nat)
    requires 0xD800 <= high <= 0xDBFF
    ensures high % 0x400 == high - 0xD800
  {
  }

  lemma EscapeDecodes(rest: string, cp: nat, after: string)
    requires CodePoint(rest) == Some((cp, after))
    ensures Unescaped("\\u" + rest) == Prepend(Utf8(cp), Unescaped(after))
  {
    hide CodePoint, Utf8;
    var d := "\\u" + rest;
    assert d[0] == '\\' && d[1] == 'u' && d[2..] == rest;
  }

  lemma PieceDecodes(p: Piece, rest: string)
    requires FinePiece(p)
    ensures Unescaped(SpellPiece(p, rest)) == Prepend(PieceMeans(p), Unescaped(rest))
  {
    hide CodePoint, Utf8, HexNumber, Hex4;
    var d := SpellPiece(p, rest);
    if p.Plain? {
      assert d[1..] == rest;
    } else if p.Short? {
      assert d[0] == '\\' && d[1] == p.c && d[2..] == rest;
    } else {
      hide Unescaped;
      if p.Code? {
        CodeRead(p.hex, rest);
        EscapeDecodes(p.hex + rest, HexNumber(p.hex), rest);
      } else {
        PairRead(p.high, p.low, rest);
        EscapeDecodes(p.high + ("\\u" + (p.low + rest)),
                      0x10000 + 0x400 * (HexNumber(p.high) - 0xD800) + HexNumber(p.low) % 0x400, rest);
      }
    }
  }

  lemma ScanFour(hex: string, rest: string)
    requires Hex4(hex)
    ensures StringRest(hex + rest) == StringRest(rest)
  {
    hide StringRest, IsHex;
    HexDigits(hex[0]);
    HexDigits(hex[1]);
    HexDigits(hex[2]);
    HexDigits(hex[3]);
    var r3 := [hex[3]] + rest;
    var r2 := [hex[2]] + r3;
    var r1 := [hex[1]] + r2;
    assert hex + rest == [hex[0]] + r1;
    ScanPlain(hex[3], rest);
    ScanPlain(hex[2], r3);
    ScanPlain(hex[1], r2);
    ScanPlain(hex[0], r1);
  }

  lemma ScanHex(hex: string, rest: string)
    requires Hex4(hex)
    ensures StringRest("\\u" + (hex + rest)) == StringRest(rest)
  {
    hide StringRest, Hex4;
    ScanFour(hex, rest);
    ScanHidden('u', hex + rest);
    assert "\\u" + (hex + rest) == ['\\', 'u'] + (hex + rest);
  }

  lemma ScanHidden(c: char, rest: string)
    ensures StringRest(['\\', c] + rest) == StringRest(rest)
  {
    assert (['\\', c] + rest)[2..] == rest;
  }

  lemma PieceScanned(p: Piece, rest: string)
    requires FinePiece(p)
    ensures StringRest(SpellPiece(p, rest)) == StringRest(rest)
  {
    hide StringRest, HexNumber;
    match p
    case Plain(c) => ScanPlain(c, rest);
    case Short(c) => ScanHidden(c, rest);
    case Code(hex) => ScanHex(hex, rest);
    case Pair(high, low) =>
      ScanHex(low, rest);
      ScanHex(high, "\\u" + (low + rest));
  }

  lemma {:induction false} PiecesRead(ps: seq<Piece>, rest: string)
    requires FinePieces(ps)
    ensures Unescaped(SpellPieces(ps, "")) == Some(PiecesMean(ps))
    ensures StringRest(SpellPieces(ps, "\"" + rest)) == Some(rest)
  {
    if ps == [] {
      assert ("\"" + rest)[1..] == rest;
    } else {
      hide Unescaped, StringRest, PieceMeans, FinePiece, SpellPiece;
      PiecesRead(ps[1..], rest);
      PieceDecodes(ps[0], SpellPieces(ps[1..], ""));
      PieceScanned(ps[0], SpellPieces(ps[1..], "\"" + rest));
    }
  }

  lemma PieceAppends(p: Piece, s: string, rest: string)
    ensures SpellPiece(p, s + rest) == SpellPiece(p, s) + rest
  {
  }

  lemma {:induction false} PiecesAppend(ps: seq<Piece>, rest: string)
    ensures SpellPieces(ps, rest) == SpellPieces(ps, "") + rest
  {
    hide SpellPiece;
    if ps == [] {
    } else {
      PiecesAppend(ps[1..], rest);
      PieceAppends(ps[0], SpellPieces(ps[1..], ""), rest);
    }
  }

  /** A string token, whatever its escapes. */
  lemma QuotedRead(ps: seq<Piece>, rest: string)
    requires FinePieces(ps)
    ensures var k := NextNonComment("\"" + SpellPieces(ps, "\"" + rest));
            k.kind == StringToken && k.rest == rest && Unescaped(Body(k.text)) == Some(PiecesMean(ps))
  {
    hide Unescaped, StringRest, SpellPieces, PiecesMean, FinePieces;
    PiecesRead(ps, rest);
    PiecesAppend(ps, "\"" + rest);
    var d := "\"" + SpellPieces(ps, "\"" + rest);
    assert d[1..] == SpellPieces(ps, "\"" + rest);
    assert d[..|d| - |rest|] == "\"" + SpellPieces(ps, "") + "\"";
    assert Body(d[..|d| - |rest|]) == SpellPieces(ps, "");
  }

  /** Code points take the fewest bytes: up to 7, 11, 16 and 21 bits in one to four. */
  lemma Utf8Shortest(cp: nat)
    ensures |Utf8(cp)| == if cp < 0x80 then 1 else if cp < 0x800 then 2 else if cp < 0x10000 then 3
                          else if cp < 0x110000 then 4 else 0
  {
  }

  // ---- Numbers

  predicate InNumber(c: char) {
    c in ".eE+-0123456789"
  }

  predicate FineNumber(s: string) {
    s != "" && s[0] in "-0123456789" && forall i :: 0 <= i < |s| ==> InNumber(s[i])
  }

  predicate Fraction(s: string) {
    exists i :: 0 <= i < |s| && (s[i] in ".eE+" || (s[i] == '-' && i > 0))
  }

  function NumberMeans(s: string): Value
    requires FineNumber(s)
  {
    if Fraction(s) then Double(s)
    else
      PlainNumber(s);
      if s[0] == '-' then
        (var n: int := DigitsValue(s[1..]); if n <= 0x8000_0000_0000_0000 then Int(-n) else Double(s))
      else
        (var n: int := DigitsValue(s);
         if n <= 0x7fff_ffff then Int(n) else if n <= 0xffff_ffff_ffff_ffff then UInt(n) else Double(s))
  }

  lemma PlainNumber(s: string)
    requires FineNumber(s) && !Fraction(s)
    ensures if s[0] == '-' then AllDigits(s[1..]) else AllDigits(s)
  {
    forall i | 0 <= i < |s| && !(i == 0 && s[0] == '-')
      ensures IsDigit(s[i])
    {
      assert InNumber(s[i]);
    }
  }

  lemma NumberChar(c: char)
    ensures IsNumberChar(c) <==> InNumber(c)
    ensures c in "-0123456789" ==> InNumber(c)
  {
  }

  lemma FineNumberText(s: string)
    ensures FineNumber(s) <==> IsNumberText(s)
  {
    hide IsNumberChar, InNumber;
    if s != "" {
      NumberChar(s[0]);
    }
    forall i | 0 <= i < |s|
      ensures IsNumberChar(s[i]) <==> InNumber(s[i])
    {
      NumberChar(s[i]);
    }
  }

  /** Integers run from -2^63 to 2^64 - 1 and are unsigned from 2^31 on; the rest are doubles. */
  lemma NumberMeaning(s: string)
    requires FineNumber(s)
    ensures IsNumberText(s) && DecodedNumber(s) == NumberMeans(s)
  {
    hide DigitsValue;
    FineNumberText(s);
    assert IsDouble(s) <==> Fraction(s) by {
      if IsDouble(s) {
        var i :| 0 <= i < |s| && MarksDouble(s, i);
      }
      if Fraction(s) {
        var i :| 0 <= i < |s| && (s[i] in ".eE+" || (s[i] == '-' && i > 0));
        assert MarksDouble(s, i);
      }
    }
    if !Fraction(s) {
      PlainNumber(s);
    }
  }

  lemma {:induction false} NumberRun(s: string, rest: string)
    requires (forall i :: 0 <= i < |s| ==> IsNumberChar(s[i])) && Delimited(rest)
    ensures NumberRest(s + rest) == rest
  {
    if s == "" {
      assert s + rest == rest;
    } else {
      assert (s + rest)[0] == s[0] && (s + rest)[1..] == s[1..] + rest;
      NumberRun(s[1..], rest);
    }
  }

  lemma NumberTaken(s: string, rest: string)
    requires FineNumber(s) && Delimited(rest)
    ensures NextNonComment(s + rest) == Token(Number, s, rest)
  {
    hide StringRest, CommentToken, WordToken, IsNumberChar, NumberRest, FineNumber;
    FineNumberText(s);
    var d := s + rest;
    assert d[0] == s[0] && d[1..] == s[1..] + rest;
    NumberRun(s[1..], rest);
    assert d[..|d| - |rest|] == s;
  }

  // ---- Values

  datatype Layout =
    | Word(value: Value)
    | Num(text: string)
    | Quoted(pieces: seq<Piece>)
    | EmptyList(blanks: Gap)
    | List(items: Items)
    | Table(fields: Fields)

  datatype Items =
    | LastItem(before: Gap, first: Layout, after: Gap)
    | MoreItems(before: Gap, first: Layout, after: Gap, others: Items)

  datatype Fields =
    | Closed(before: Gap)
    | LastField(field: Field, after: Gap)
    | MoreFields(field: Field, after: Gap, separator: string, others: Fields)

  datatype Field = Field(before: Gap, name: seq<Piece>, blanks: Gap, between: Gap, value: Layout)

  /** Comments may stand anywhere but before a colon and in an array without items. */
  ghost predicate Proper(l: Layout)
    decreases l
  {
    match l
    case Word(value) => value.Null? || value.Bool?
    case Num(text) => FineNumber(text)
    case Quoted(pieces) => FinePieces(pieces)
    case EmptyList(blanks) => AllBlank(blanks)
    case List(items) => ProperItems(items)
    case Table(fields) => ProperFields(fields, true)
  }

  ghost predicate ProperItems(s: Items)
    decreases s
  {
    AllFine(s.before) && Proper(s.first) && AllFine(s.after) && (s.MoreItems? ==> ProperItems(s.others))
  }

  ghost predicate FineField(f: Field) {
    AllFine(f.before) && FinePieces(f.name) && AllBlank(f.blanks) && AllFine(f.between)
  }

  /**
    A brace may close in place of a name after an empty name or none; a separator is a comma,
    except that after a comment the reader takes any token for one.
   */
  ghost predicate ProperFields(s: Fields, nameEmpty: bool)
    decreases s
  {
    if s.Closed? then nameEmpty && AllFine(s.before)
    else
      && FineField(s.field)
      && Proper(s.field.value)
      && AllFine(s.after)
      && (s.MoreFields? ==> s.separator == "," || HasComment(s.after))
      && (s.MoreFields? ==> ProperFields(s.others, PiecesMean(s.field.name) == ""))
  }

  predicate HasComment(g: Gap) {
    exists i :: 0 <= i < |g| && !g[i].Blank?
  }

  predicate Commas(l: Layout)
    decreases l
  {
    match l
    case List(items) => ItemCommas(items)
    case Table(fields) => FieldCommas(fields)
    case _ => true
  }

  predicate ItemCommas(s: Items)
    decreases s
  {
    Commas(s.first) && (s.MoreItems? ==> ItemCommas(s.others))
  }

  predicate FieldCommas(s: Fields)
    decreases s
  {
    match s
    case Closed(_) => true
    case LastField(field, _) => Commas(field.value)
    case MoreFields(field, _, separator, others) => Commas(field.value) && separator == "," && FieldCommas(others)
  }

  function Show(l: Layout, rest: string): string
    decreases l
  {
    match l
    case Word(value) => (if value.Null? then "null" else if value == Bool(true) then "true" else "false") + rest
    case Num(text) => text + rest
    case Quoted(pieces) => "\"" + SpellPieces(pieces, "\"" + rest)
    case EmptyList(blanks) => "[" + Spell(blanks, "]" + rest)
    case List(items) => "[" + ShowItems(items, rest)
    case Table(fields) => "{" + ShowFields(fields, rest)
  }

  function ShowItems(s: Items, rest: string): string
    decreases s
  {
    match s
    case LastItem(before, first, after) => Spell(before, Show(first, Spell(after, "]" + rest)))
    case MoreItems(before, first, after, others) =>
      Spell(before, Show(first, Spell(after, "," + ShowItems(others, rest))))
  }

  function ShowField(f: Field, rest: string): string
    decreases f
  {
    Spell(f.before, "\"" + SpellPieces(f.name, "\"" + Spell(f.blanks, ":" + Spell(f.between, Show(f.value, rest)))))
  }

  function ShowFields(s: Fields, rest: string): string
    decreases s
  {
    match s
    case Closed(before) => Spell(before, "}" + rest)
    case LastField(field, after) => ShowField(field, Spell(after, "}" + rest))
    case MoreFields(field, after, separator, others) =>
      ShowField(field, Spell(after, separator + ShowFields(others, rest)))
  }

  ghost function Means(l: Layout): Value
    requires Proper(l)
    decreases l
  {
    match l
    case Word(value) => value
    case Num(text) => NumberMeans(text)
    case Quoted(pieces) => Str(PiecesMean(pieces))
    case EmptyList(_) => Arr([])
    case List(items) => Arr(ItemsMean(items))
    case Table(fields) => Obj(FieldsMean(fields, true, []))
  }

  ghost function ItemsMean(s: Items): seq<Value>
    requires ProperItems(s)
    decreases s
  {
    [Means(s.first)] + if s.MoreItems? then ItemsMean(s.others) else []
  }

  /** A later member takes the place of an earlier one of the same name. */
  ghost function FieldsMean(s: Fields, nameEmpty: bool, members: seq<Member>): seq<Member>
    requires ProperFields(s, nameEmpty)
    decreases s
  {
    if s.Closed? then members
    else
      var name := PiecesMean(s.field.name);
      var members' := Put(members, CString(name), Means(s.field.value));
      if s.LastField? then members' else FieldsMean(s.others, name == "", members')
  }

  lemma GapDelimits(g: Gap, c: char, rest: string)
    requires AllFine(g) && c in "]},"
    ensures Delimited(Spell(g, [c] + rest))
  {
    if g != [] {
      assert Fine(g[0]);
    }
  }

  /** The reader takes exactly the layout's text and finds what it means. */
  lemma {:induction false} LayoutRead(l: Layout, rest: string)
    requires Proper(l) && Commas(l) && Delimited(rest)
    ensures ParseValue(Show(l, rest)) == Success(Means(l), rest)
    decreases l
  {
    hide NextToken, NextNonComment, ParseItems, ParseMembers, DecodedNumber, Unescaped, SpellPieces, PiecesMean,
         FinePieces, FineNumber, ShowItems, ShowFields, ItemsMean, FieldsMean, ProperItems, ProperFields, Delimited, SkipSpaces;
    match l
    case Word(value) =>
      NullReads(rest);
      TrueReads(rest);
      FalseReads(rest);
    case Num(text) =>
      NumberTaken(text, rest);
      NumberMeaning(text);
    case Quoted(pieces) => QuotedRead(pieces, rest);
    case EmptyList(blanks) => EmptyListRead(blanks, rest);
    case List(items) =>
      CharToken('[', ShowItems(items, rest));
      ItemsRead(items, rest, []);
      ArrayBegins(ShowItems(items, rest));
      assert [] + ItemsMean(items) == ItemsMean(items);
    case Table(fields) =>
      CharToken('{', ShowFields(fields, rest));
      FieldsRead(fields, rest, true, []);
  }

  lemma EmptyListRead(blanks: Gap, rest: string)
    requires AllBlank(blanks)
    ensures ParseValue("[" + Spell(blanks, "]" + rest)) == Success(Arr([]), rest)
  {
    hide NextToken, NextNonComment, ParseItems, ParseMembers, DecodedNumber, Unescaped, SkipSpaces, Spell;
    var t := Spell(blanks, "]" + rest);
    CharToken('[', t);
    BlanksSkipped(blanks, "]" + rest);
    BlankSkipped(']', rest);
    assert ("]" + rest)[1..] == rest;
  }

  /** An array with an item in it starts like its first item. */
  lemma ArrayBegins(t: string)
    requires ParseItems(t, []).Success?
    ensures ParseValue("[" + t) == Success(Arr(ParseItems(t, []).value), ParseItems(t, []).rest)
  {
    hide NextNonComment, ParseMembers, DecodedNumber, Unescaped, SkipSpaces, FrontToken;
    CharToken('[', t);
    var u := SkipSpaces(t);
    SpacesBefore(t);
    if u != "" && u[0] == ']' {
      ClosingIsNoValue(t);
    }
  }

  lemma SpacesBefore(t: string)
    ensures ParseValue(SkipSpaces(t)) == ParseValue(t)
    ensures forall items :: ParseItems(SkipSpaces(t), items) == ParseItems(t, items)
  {
    hide FrontToken, ParseMembers, DecodedNumber, Unescaped;
    assert SkipSpaces(SkipSpaces(t)) == SkipSpaces(t);
    assert NextNonComment(SkipSpaces(t)) == NextNonComment(t);
  }

  lemma ClosingIsNoValue(t: string)
    requires SkipSpaces(t) != "" && SkipSpaces(t)[0] == ']'
    ensures ParseValue(t).Failure?
  {
    hide ParseItems, ParseMembers, DecodedNumber, Unescaped;
    assert NextToken(t).kind == ArrayEnd;
  }

  lemma {:induction false} ItemsRead(s: Items, rest: string, done: seq<Value>)
    requires ProperItems(s) && ItemCommas(s)
    ensures ParseItems(ShowItems(s, rest), done) == Success(done + ItemsMean(s), rest)
    decreases s
  {
    hide NextToken, NextNonComment, ParseValue, Show, Means, Proper, Spell, Delimited, AllFine;
    var c := if s.MoreItems? then ',' else ']';
    var more := if s.MoreItems? then ShowItems(s.others, rest) else rest;
    var after := Spell(s.after, [c] + more);
    GapDelimits(s.after, c, more);
    LayoutRead(s.first, after);
    GapBefore(s.before, Show(s.first, after));
    GapSkipped(s.after, [c] + more);
    CharToken(c, more);
    if s.MoreItems? {
      ItemsRead(s.others, rest, done + [Means(s.first)]);
      assert done + ItemsMean(s) == done + [Means(s.first)] + ItemsMean(s.others);
    } else {
      assert ItemsMean(s) == [Means(s.first)];
    }
  }

  lemma {:induction false} FieldsRead(s: Fields, rest: string, nameEmpty: bool, done: seq<Member>)
    requires ProperFields(s, nameEmpty) && FieldCommas(s)
    ensures ParseMembers(ShowFields(s, rest), nameEmpty, done) == Success(FieldsMean(s, nameEmpty, done), rest)
    decreases s
  {
    hide NextToken, NextNonComment, ParseValue, Show, ShowField, Means, Proper, Spell, Delimited, AllFine, PiecesMean,
         Unescaped, FinePieces, Put;
    if s.Closed? {
      GapBefore(s.before, "}" + rest);
      CharToken('}', rest);
    } else {
      var c := if s.MoreFields? then ',' else '}';
      var more := if s.MoreFields? then ShowFields(s.others, rest) else rest;
      FieldRead(s.field, s.after, c, more, nameEmpty, done);
      if s.MoreFields? {
        var name := PiecesMean(s.field.name);
        FieldsRead(s.others, rest, name == "", Put(done, CString(name), Means(s.field.value)));
      }
    }
  }

  lemma {:induction false} FieldRead(f: Field, after: Gap, c: char, more: string, nameEmpty: bool, done: seq<Member>)
    requires FineField(f) && Proper(f.value) && Commas(f.value) && AllFine(after) && c in "},"
    ensures var members := Put(done, CString(PiecesMean(f.name)), Means(f.value));
            ParseMembers(ShowField(f, Spell(after, [c] + more)), nameEmpty, done)
            == if c == '}' then Success(members, more) else ParseMembers(more, PiecesMean(f.name) == "", members)
    decreases f
  {
    hide NextToken, NextNonComment, ParseValue, Show, Means, Proper, Spell, Delimited, AllFine, AllBlank, PiecesMean, Unescaped,
         SpellPieces, Put, CString, FinePieces;
    var end := Spell(after, [c] + more);
    var value := Spell(f.between, Show(f.value, end));
    var colon := Spell(f.blanks, ":" + value);
    var t := "\"" + SpellPieces(f.name, "\"" + colon);
    GapBefore(f.before, t);
    QuotedRead(f.name, colon);
    BlanksSkipped(f.blanks, ":" + value);
    CharToken(':', value);
    GapBefore(f.between, Show(f.value, end));
    GapDelimits(after, c, more);
    LayoutRead(f.value, end);
    GapAfter(after, c, more);
  }
}
