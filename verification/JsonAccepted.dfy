/**
  The reader accepts nothing but layouts: every text it reads a value from is a layout of that
  value, up to the separators it lets pass after a comment.
 */
module JsonAccepted {
  import opened Options
  import opened Json
  import opened JsonGrammar
  import opened JsonRoundTrip
  import opened JsonLayout

  // ---- What is skipped

  lemma {:induction false} SpellAppends(g: Gap, h: Gap, rest: string)
    ensures Spell(g + h, rest) == Spell(g, Spell(h, rest))
  {
    hide SpellPause;
    if g == [] {
      assert g + h == h;
    } else {
      assert (g + h)[1..] == g[1..] + h;
      SpellAppends(g[1..], h, rest);
    }
  }

  lemma {:induction false} SpacesSplit(t: string) returns (g: Gap)
    ensures AllBlank(g) && t == Spell(g, SkipSpaces(t))
  {
    if t != "" && IsSpace(t[0]) {
      var h := SpacesSplit(t[1..]);
      g := [Blank(t[0])] + h;
      assert g[1..] == h;
    } else {
      g := [];
    }
  }

  lemma {:induction false} BlockSplit(t: string) returns (text: string)
    requires BlockCommentRest(t).Some?
    ensures Fine(Block(text)) && t == text + ("*/" + BlockCommentRest(t).value)
  {
    if EndsBlock(t, 0) {
      text := "";
    } else {
      var more := BlockSplit(t[1..]);
      text := [t[0]] + more;
      forall i | 0 <= i < |text|
        ensures !EndsBlock(text + "*/", i)
      {
        if i > 0 {
          assert !EndsBlock(more + "*/", i - 1);
        } else {
          assert (text + "*/")[1] == t[1];
        }
      }
    }
  }

  lemma {:induction false} LineSplit(t: string) returns (ended: bool, text: string, end: char)
    ensures if ended then Fine(Line(text, end)) && t == text + ([end] + LineCommentRest(t)) else LineCommentRest(t) == ""
  {
    if t == "" {
      ended, text, end := false, "", '\n';
    } else if t[0] == '\r' || t[0] == '\n' {
      ended, text, end := true, "", t[0];
    } else {
      var more;
      ended, more, end := LineSplit(t[1..]);
      text := [t[0]] + more;
    }
  }

  /** A comment token is a comment, unless the document ends in it. */
  lemma CommentSplit(t: string) returns (p: Pause)
    requires FrontToken(t).kind == Comment && FrontToken(t).rest != ""
    ensures Fine(p) && !p.Blank? && t == SpellPause(p, FrontToken(t).rest)
  {
    hide BlockCommentRest, LineCommentRest, StringRest, NumberRest;
    var u := t[1..][1..];
    assert t == [t[0]] + ([t[1]] + u);
    if t[1] == '*' {
      var text := BlockSplit(u);
      p := Block(text);
    } else {
      var ended, text, end := LineSplit(u);
      p := Line(text, end);
    }
  }

  // ---- Tokens are pieces of the text

  lemma {:induction false} StringSuffix(t: string)
    ensures StringRest(t).Some? ==> t == t[..|t| - |StringRest(t).value|] + StringRest(t).value
    ensures StringRest(t).Some? ==> t[|t| - |StringRest(t).value| - 1] == '"'
    decreases |t|
  {
    if t == "" {
    } else if t[0] == '\\' {
      if |t| > 1 {
        StringSuffix(t[2..]);
      }
    } else if t[0] != '"' {
      StringSuffix(t[1..]);
    }
  }

  lemma {:induction false} NumberSuffix(t: string)
    ensures t == t[..|t| - |NumberRest(t)|] + NumberRest(t)
  {
    if t != "" && IsNumberChar(t[0]) {
      NumberSuffix(t[1..]);
    }
  }

  lemma {:induction false} BlockSuffix(t: string)
    ensures BlockCommentRest(t).Some? ==> t == t[..|t| - |BlockCommentRest(t).value|] + BlockCommentRest(t).value
  {
    if t != "" && !EndsBlock(t, 0) {
      BlockSuffix(t[1..]);
    }
  }

  lemma {:induction false} LineSuffix(t: string)
    ensures t == t[..|t| - |LineCommentRest(t)|] + LineCommentRest(t)
  {
    if t != "" && t[0] != '\r' && t[0] != '\n' {
      LineSuffix(t[1..]);
    }
  }

  lemma Longer(c: char, t: string, rest: string)
    requires |rest| <= |t| && t == t[..|t| - |rest|] + rest
    ensures [c] + t == ([c] + t)[..|t| + 1 - |rest|] + rest
  {
    assert ([c] + t)[..|t| + 1 - |rest|] == [c] + t[..|t| - |rest|];
  }

  lemma CommentIsFront(t: string)
    requires t != ""
    ensures t == CommentToken(t, t[1..]).text + CommentToken(t, t[1..]).rest
  {
    hide BlockCommentRest, LineCommentRest;
    var u := t[1..];
    assert t == [t[0]] + u;
    if u != "" {
      assert u == [u[0]] + u[1..];
      BlockSuffix(u[1..]);
      LineSuffix(u[1..]);
      if u[0] == '*' && BlockCommentRest(u[1..]).Some? {
        Longer(u[0], u[1..], BlockCommentRest(u[1..]).value);
        Longer(t[0], u, BlockCommentRest(u[1..]).value);
      } else if u[0] == '/' {
        Longer(u[0], u[1..], LineCommentRest(u[1..]));
        Longer(t[0], u, LineCommentRest(u[1..]));
      }
    }
  }

  lemma WordIsFront(kind: Kind, t: string, pattern: string)
    requires t != ""
    ensures var k := WordToken(kind, t, t[1..], pattern);
            t == k.text + k.rest && (k.kind == Error || (k.kind == kind && k.text == [t[0]] + pattern))
  {
    if pattern <= t[1..] {
      assert t[..1 + |pattern|] == [t[0]] + pattern;
    }
  }

  /** A token and what follows it make up the text. */
  lemma FrontSplit(t: string)
    ensures t == FrontToken(t).text + FrontToken(t).rest
  {
    hide CommentToken, WordToken, StringRest, NumberRest;
    if t != "" {
      var u := t[1..];
      assert t == [t[0]] + u;
      CommentIsFront(t);
      WordIsFront(True, t, "rue");
      WordIsFront(False, t, "alse");
      WordIsFront(NullToken, t, "ull");
      StringSuffix(u);
      NumberSuffix(u);
      Longer(t[0], u, NumberRest(u));
      if StringRest(u).Some? {
        Longer(t[0], u, StringRest(u).value);
      }
    }
  }

  /** The tokens with one spelling. */
  function Spelling(kind: Kind): string {
    match kind
    case ObjectBegin => "{"
    case ObjectEnd => "}"
    case ArrayBegin => "["
    case ArrayEnd => "]"
    case ArraySeparator => ","
    case MemberSeparator => ":"
    case True => "true"
    case False => "false"
    case NullToken => "null"
    case _ => ""
  }

  lemma KindText(t: string)
    ensures Spelling(FrontToken(t).kind) != "" ==> FrontToken(t).text == Spelling(FrontToken(t).kind)
  {
    hide StringRest, NumberRest, BlockCommentRest, LineCommentRest, WordToken;
    if t != "" {
      assert t[..|t| - |t[1..]|] == [t[0]];
      WordIsFront(True, t, "rue");
      WordIsFront(False, t, "alse");
      WordIsFront(NullToken, t, "ull");
      assert "t" + "rue" == "true" && "f" + "alse" == "false" && "n" + "ull" == "null";
    }
  }

  /** The document ends at its end or at a NUL. */
  lemma NoTextEnds(t: string)
    ensures FrontToken(t).kind == EndOfStream <==> t == "" || t[0] == '\0'
    ensures FrontToken(t).text == "" ==> FrontToken(t).kind == EndOfStream && FrontToken(t).rest == ""
  {
    hide BlockCommentRest, LineCommentRest, StringRest, NumberRest;
    FrontSplit(t);
  }

  lemma TokenSplit(t: string) returns (g: Gap)
    ensures AllBlank(g) && t == Spell(g, NextToken(t).text + NextToken(t).rest)
  {
    hide FrontToken, SkipSpaces, Spell;
    g := SpacesSplit(t);
    FrontSplit(SkipSpaces(t));
  }

  lemma {:induction false} GapSplit(t: string) returns (g: Gap)
    requires NextNonComment(t).text != ""
    ensures AllFine(g) && t == Spell(g, NextNonComment(t).text + NextNonComment(t).rest)
    ensures NextToken(t).kind == Comment ==> HasComment(g)
    decreases |t|
  {
    hide FrontToken, SkipSpaces, Spell;
    var k := NextToken(t);
    if k.kind == Comment {
      EndHasNoText(k.rest);
      var blanks := SpacesSplit(t);
      var p := CommentSplit(SkipSpaces(t));
      var more := GapSplit(k.rest);
      g := blanks + ([p] + more);
      SpellOne(p, more, NextNonComment(t).text + NextNonComment(t).rest);
      SpellAppends(blanks, [p] + more, NextNonComment(t).text + NextNonComment(t).rest);
      assert g[|blanks|] == p;
    } else {
      g := TokenSplit(t);
    }
  }

  lemma EndHasNoText(t: string)
    ensures NextNonComment(t).text != "" ==> t != ""
  {
  }

  lemma SpellOne(p: Pause, more: Gap, rest: string)
    ensures Spell([p] + more, rest) == SpellPause(p, Spell(more, rest))
  {
    hide SpellPause;
    assert ([p] + more)[1..] == more;
  }

  // ---- Strings

  lemma HexSplit(s: string)
    requires FourHex(s).Some?
    ensures Hex4(s[..4]) && HexNumber(s[..4]) == FourHex(s).value && s == s[..4] + s[4..]
  {
    hide FourHex, HexNumber, Hex4;
    FourDigits(s[..4], s[4..]);
    assert s == s[..4] + s[4..];
  }

  /** The string token's text, with a quote at its end, is made of pieces. */
  lemma {:induction false} PiecesSplit(body: string, rest: string) returns (ps: seq<Piece>)
    requires StringRest(body + ("\"" + rest)) == Some(rest) && Unescaped(body).Some?
    ensures FinePieces(ps) && body == SpellPieces(ps, "") && PiecesMean(ps) == Unescaped(body).value
    decreases |body|
  {
    var t := body + ("\"" + rest);
    if body == "" {
      ps := [];
    } else {
      hide StringRest, Unescaped;
      var p, more := PieceSplit(body, rest);
      var others := PiecesSplit(more, rest);
      ps := [p] + others;
      assert ps[1..] == others;
    }
  }

  /** The first piece of a string that is not empty. */
  lemma PieceSplit(body: string, rest: string) returns (p: Piece, more: string)
    requires body != "" && StringRest(body + ("\"" + rest)) == Some(rest) && Unescaped(body).Some?
    ensures FinePiece(p) && body == SpellPiece(p, more) && |more| < |body|
    ensures Unescaped(more).Some? && Unescaped(body).value == PieceMeans(p) + Unescaped(more).value
    ensures StringRest(more + ("\"" + rest)) == Some(rest)
  {
    hide CodePoint, HexNumber, Hex4, Utf8;
    var t := body + ("\"" + rest);
    if body[0] != '\\' {
      NoBareQuote(body, rest);
      p, more := Plain(body[0]), body[1..];
    } else if SimpleEscape(body[1]).Some? {
      p, more := Short(body[1]), body[2..];
    } else {
      p, more := CodeSplit(body[2..]);
    }
    hide StringRest, Unescaped;
    PieceDecodes(p, more);
    PieceScanned(p, more + ("\"" + rest));
    PieceAppends(p, more, "\"" + rest);
  }

  lemma NoBareQuote(body: string, rest: string)
    requires body != "" && StringRest(body + ("\"" + rest)) == Some(rest)
    ensures body[0] != '"'
  {
    assert (body + ("\"" + rest))[0] == body[0];
  }

  lemma CodeSplit(s: string) returns (p: Piece, more: string)
    requires CodePoint(s).Some?
    ensures FinePiece(p) && "\\u" + s == SpellPiece(p, more) && |more| < |s|
  {
    hide FourHex, HexNumber, Hex4;
    HexSplit(s);
    var high := FourHex(s).value;
    if 0xD800 <= high <= 0xDBFF {
      HexSplit(s[6..]);
      p, more := Pair(s[..4], s[6..][..4]), s[10..];
      assert s[6..] == s[6..][..4] + s[10..];
      assert s[4..] == "\\u" + s[6..];
    } else {
      p, more := Code(s[..4]), s[4..];
    }
  }

  lemma StringFront(t: string)
    requires FrontToken(t).kind == StringToken
    ensures t != "" && t[0] == '"' && StringRest(t[1..]) == Some(FrontToken(t).rest)
  {
    hide StringRest, NumberRest, BlockCommentRest, LineCommentRest;
  }

  /** A string token is a quote, pieces and a quote. */
  lemma StringSplit(t: string) returns (ps: seq<Piece>)
    requires FrontToken(t).kind == StringToken && Unescaped(Body(FrontToken(t).text)).Some?
    ensures FinePieces(ps) && t == "\"" + SpellPieces(ps, "\"" + FrontToken(t).rest)
    ensures PiecesMean(ps) == Unescaped(Body(FrontToken(t).text)).value
  {
    hide FrontToken, StringRest, Unescaped, FinePieces, SpellPieces, PiecesMean;
    StringFront(t);
    var u, k := t[1..], FrontToken(t);
    StringSuffix(u);
    FrontSplit(t);
    var body := Body(k.text);
    assert k.text == "\"" + body + "\"";
    assert u == body + ("\"" + k.rest);
    ps := PiecesSplit(body, k.rest);
    PiecesAppend(ps, "\"" + k.rest);
  }

  /** The name or string that comes next, with what stands before it. */
  lemma QuotedSplit(t: string) returns (g: Gap, ps: seq<Piece>)
    requires NextNonComment(t).kind == StringToken && Unescaped(Body(NextNonComment(t).text)).Some?
    ensures AllFine(g) && FinePieces(ps) && t == Spell(g, "\"" + SpellPieces(ps, "\"" + NextNonComment(t).rest))
    ensures PiecesMean(ps) == Unescaped(Body(NextNonComment(t).text)).value
    ensures NextNonComment(t).text != ""
  {
    hide FrontToken, SkipSpaces, Spell, SpellPieces, PiecesMean, FinePieces, Unescaped, Body;
    var at := LastFront(t);
    var k := NextNonComment(t);
    ps := StringSplit(at);
    FrontSplit(at);
    assert k.text != "" by {
      assert at != k.rest;
    }
    g := GapSplit(t);
  }

  /** Where the next token that is no comment starts. */
  lemma {:induction false} LastFront(t: string) returns (at: string)
    ensures FrontToken(at) == NextNonComment(t)
    decreases |t|
  {
    hide FrontToken, SkipSpaces;
    var k := NextToken(t);
    if k.kind == Comment {
      at := LastFront(k.rest);
    } else {
      at := SkipSpaces(t);
    }
  }

  // ---- Values

  /** Blanks and comments that stand before the first item. */
  function Pad(g: Gap, s: Items): Items {
    s.(before := g + s.before)
  }

  lemma PadSpelt(g: Gap, s: Items, rest: string)
    requires AllFine(g) && ProperItems(s)
    ensures ProperItems(Pad(g, s)) && ItemsMean(Pad(g, s)) == ItemsMean(s)
    ensures ShowItems(Pad(g, s), rest) == Spell(g, ShowItems(s, rest))
  {
    hide Proper, Means, Show, Fine;
    if s.LastItem? {
      SpellAppends(g, s.before, Show(s.first, Spell(s.after, "]" + rest)));
    } else {
      SpellAppends(g, s.before, Show(s.first, Spell(s.after, "," + ShowItems(s.others, rest))));
    }
  }

  /** What was read is a layout of the value, behind blanks and comments. */
  lemma {:induction false} Accepted(t: string) returns (g: Gap, l: Layout)
    requires ParseValue(t).Success?
    ensures AllFine(g) && Proper(l)
    ensures t == Spell(g, Show(l, ParseValue(t).rest)) && Means(l) == ParseValue(t).value
    decreases |t|, 0
  {
    hide NextToken, NextNonComment, ParseItems, ParseMembers, DecodedNumber, Unescaped, SpellPieces, PiecesMean,
         FinePieces, FineNumber, ShowItems, ShowFields, ItemsMean, FieldsMean, ProperItems, ProperFields, SkipSpaces, Spell,
         AllFine, FrontToken;
    var k := NextNonComment(t);
    var at := LastFront(t);
    KindText(at);
    if k.kind == StringToken {
      var ps;
      g, ps := QuotedSplit(t);
      l := Quoted(ps);
    } else if k.kind == Number {
      NumberTokens(t);
      FineNumberText(k.text);
      NumberMeaning(k.text);
      g := GapSplit(t);
      l := Num(k.text);
    } else {
      g := GapSplit(t);
      if k.kind == ObjectBegin {
        var fields := AcceptedFields(k.rest, true, []);
        l := Table(fields);
      } else if k.kind == ArrayBegin {
        var u := SkipSpaces(k.rest);
        var blanks := SpacesSplit(k.rest);
        if u != "" && u[0] == ']' {
          l := EmptyList(blanks);
          assert u == "]" + u[1..];
        } else {
          var items := AcceptedItems(u, []);
          PadSpelt(blanks, items, ParseValue(t).rest);
          l := List(Pad(blanks, items));
          assert [] + ItemsMean(items) == ItemsMean(items);
        }
      } else {
        l := Word(ParseValue(t).value);
      }
    }
  }

  lemma {:induction false} AcceptedItems(t: string, done: seq<Value>) returns (s: Items)
    requires ParseItems(t, done).Success?
    ensures ProperItems(s) && t == ShowItems(s, ParseItems(t, done).rest)
    ensures ParseItems(t, done).value == done + ItemsMean(s)
    decreases |t|, 1
  {
    hide NextToken, NextNonComment, ParseValue, Proper, Means, Show, Spell, AllFine, FrontToken;
    var before, first := Accepted(t);
    var u := ParseValue(t).rest;
    var at := LastFront(u);
    KindText(at);
    var after := GapSplit(u);
    var k := NextNonComment(u);
    if k.kind == ArrayEnd {
      s := LastItem(before, first, after);
      assert ItemsMean(s) == [Means(first)];
    } else {
      var others := AcceptedItems(k.rest, done + [Means(first)]);
      s := MoreItems(before, first, after, others);
      assert done + ItemsMean(s) == done + [Means(first)] + ItemsMean(others);
    }
  }

  lemma {:induction false} AcceptedFields(t: string, nameEmpty: bool, done: seq<Member>) returns (s: Fields)
    requires ParseMembers(t, nameEmpty, done).Success?
    ensures ProperFields(s, nameEmpty) && t == ShowFields(s, ParseMembers(t, nameEmpty, done).rest)
    ensures ParseMembers(t, nameEmpty, done).value == FieldsMean(s, nameEmpty, done)
    decreases |t|, 1
  {
    hide NextToken, NextNonComment, ParseValue, Proper, Means, Show, ShowField, Spell, AllFine, FrontToken, Unescaped, Body,
         Put, CString, PiecesMean, FinePieces, AllBlank, HasComment;
    var k := NextNonComment(t);
    if k.kind == ObjectEnd && nameEmpty {
      var at := LastFront(t);
      KindText(at);
      var before := GapSplit(t);
      s := Closed(before);
    } else {
      var field, u := AcceptedField(t);
      SeparatorFound(u);
      var after, last := AcceptedSeparator(u);
      if last.kind == ObjectEnd {
        s := LastField(field, after);
      } else {
        var name := PiecesMean(field.name);
        var others := AcceptedFields(last.rest, name == "", Put(done, CString(name), Means(field.value)));
        s := MoreFields(field, after, last.text, others);
      }
    }
  }

  /** A member up to the end of its value. */
  lemma {:induction false} AcceptedField(t: string) returns (f: Field, u: string)
    requires NextNonComment(t).kind == StringToken && Unescaped(Body(NextNonComment(t).text)).Some?
    requires NextToken(NextNonComment(t).rest).kind == MemberSeparator
    requires ParseValue(NextToken(NextNonComment(t).rest).rest).Success?
    ensures FineField(f) && Proper(f.value) && t == ShowField(f, u)
    ensures PiecesMean(f.name) == Unescaped(Body(NextNonComment(t).text)).value
    ensures ParseValue(NextToken(NextNonComment(t).rest).rest) == Success(Means(f.value), u)
    decreases |t|, 0
  {
    hide NextNonComment, ParseValue, Proper, Means, Show, Spell, AllFine, AllBlank, FrontToken, SkipSpaces, Unescaped, Body,
         PiecesMean, SpellPieces, FinePieces;
    var k := NextNonComment(t);
    var before, name := QuotedSplit(t);
    var colon := NextToken(k.rest);
    KindText(SkipSpaces(k.rest));
    var blanks := TokenSplit(k.rest);
    var between, value := Accepted(colon.rest);
    u := ParseValue(colon.rest).rest;
    f := Field(before, name, blanks, between, value);
  }

  lemma SeparatorFound(u: string)
    ensures NextNonComment(u) == if NextToken(u).kind == Comment then NextNonComment(NextToken(u).rest) else NextToken(u)
  {
    hide NextToken;
  }

  /** The token that ends a member, with what stands before it. */
  lemma AcceptedSeparator(u: string) returns (after: Gap, last: Token)
    requires NextToken(u).kind in {ObjectEnd, ArraySeparator, Comment}
    requires NextNonComment(u).kind != EndOfStream || NextNonComment(u).rest != ""
    ensures AllFine(after) && u == Spell(after, last.text + last.rest)
    ensures last == if NextToken(u).kind == Comment then NextNonComment(NextToken(u).rest) else NextToken(u)
    ensures last.kind == ObjectEnd ==> last.text == "}"
    ensures last.text == "," || last.kind == ObjectEnd || HasComment(after)
  {
    hide FrontToken, SkipSpaces, Spell;
    var comma := NextToken(u);
    KindText(SkipSpaces(u));
    last := NextNonComment(u);
    var at := LastFront(u);
    NoTextEnds(at);
    KindText(at);
    after := GapSplit(u);
  }
}
