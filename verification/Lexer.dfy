// The SQL lexer: a cursor over the input, tokens with source spans, doubled
// quotes in strings, and comments that run to the end of the line.
module Lexers {
  import opened Results

  datatype Kind =
    | End | Identifier | IntegerLiteral | StringLiteral
    | Comma | LeftParen | RightParen | Semicolon | Equal | Minus
    | Create | Table | Index | On | Insert | Into | Values | Select | From | Where | Int | Text

  // A token without its span.
  datatype Word = Word(kind: Kind, text: string)

  datatype Location = Location(offset: nat, line: nat, column: nat)

  datatype Token = Token(word: Word, begin: Location, end: Location)

  // ---- characters (ASCII) ----

  predicate IsAlpha(c: char) {
    'a' <= c <= 'z' || 'A' <= c <= 'Z'
  }

  predicate IsDigit(c: char) {
    '0' <= c <= '9'
  }

  predicate IsSpace(c: char) {
    c == ' ' || '\t' <= c <= '\r'
  }

  predicate IsIdentifierStart(c: char) {
    IsAlpha(c) || c == '_'
  }

  predicate IsIdentifierPart(c: char) {
    IsAlpha(c) || IsDigit(c) || c == '_'
  }

  function LowerChar(c: char): char {
    if 'A' <= c <= 'Z' then c - 'A' + 'a' else c
  }

  function Lowercase(s: string): (r: string)
    ensures |r| == |s| && forall i | 0 <= i < |s| :: r[i] == LowerChar(s[i])
  {
    seq(|s|, i requires 0 <= i < |s| => LowerChar(s[i]))
  }

  function KeywordKind(s: string): Kind {
    KindOfLower(Lowercase(s))
  }

  function KindOfLower(n: string): Kind {
    if n == "create" then Create
    else if n == "table" then Table
    else if n == "index" then Index
    else if n == "on" then On
    else if n == "insert" then Insert
    else if n == "into" then Into
    else if n == "values" then Values
    else if n == "select" then Select
    else if n == "from" then From
    else if n == "where" then Where
    else if n == "int" then Int
    else if n == "text" then Text
    else Identifier
  }

  function SymbolKind(c: char): Option<Kind> {
    if c == ',' then Some(Comma)
    else if c == '(' then Some(LeftParen)
    else if c == ')' then Some(RightParen)
    else if c == ';' then Some(Semicolon)
    else if c == '=' then Some(Equal)
    else if c == '-' then Some(Minus)
    else None
  }

  // ---- what the cursor loops compute, on the rest of the input ----

  // The length of the longest prefix of characters in the class.
  function Run(s: string, p: char -> bool): (n: nat)
    ensures n <= |s| && (forall i | 0 <= i < n :: p(s[i])) && (n < |s| ==> !p(s[n]))
  {
    if s != [] && p(s[0]) then 1 + Run(s[1..], p) else 0
  }

  function NotNewline(): char -> bool {
    c => c != '\n'
  }

  function Part(): char -> bool {
    c => IsIdentifierPart(c)
  }

  function Digit(): char -> bool {
    c => IsDigit(c)
  }

  // The input after white space and comments.
  function Trim(s: string): (r: string)
    ensures |r| <= |s| && r == s[|s| - |r|..]
    decreases |s|
  {
    if s == [] then s
    else if IsSpace(s[0]) then Trim(s[1..])
    else if s[0] == '-' && |s| > 1 && s[1] == '-' then
      var n := Run(s, NotNewline());
      Trim(s[n..])
    else s
  }

  lemma TrimSteps(s: string)
    ensures s == [] ==> Trim(s) == s
    ensures s != [] && IsSpace(s[0]) ==> Trim(s) == Trim(s[1..])
    ensures |s| > 1 && s[0] == '-' && s[1] == '-' ==>
      Run(s, NotNewline()) > 0 && Trim(s) == Trim(s[Run(s, NotNewline())..])
    ensures s != [] && !IsSpace(s[0]) && !(s[0] == '-' && |s| > 1 && s[1] == '-') ==> Trim(s) == s
  {
  }

  // The value of a string literal after its opening quote, and the input after
  // its closing quote.
  function ScanString(s: string): (r: Option<(string, string)>)
    ensures r.Some? ==> |r.value.1| < |s| && r.value.1 == s[|s| - |r.value.1|..]
    decreases |s|
  {
    if s == [] then None
    else if s[0] != '\'' then Also(s[0], ScanString(s[1..]))
    else if |s| > 1 && s[1] == '\'' then Also('\'', ScanString(s[2..]))
    else Some(([], s[1..]))
  }

  function Also(c: char, r: Option<(string, string)>): Option<(string, string)> {
    match r
    case None => None
    case Some((text, rest)) => Some(([c] + text, rest))
  }

  // The token at the front of the input, and the input after it.
  function NextWord(s: string): (r: Option<(Word, string)>)
    requires s != []
    ensures r.Some? ==> |r.value.1| < |s| && r.value.1 == s[|s| - |r.value.1|..]
  {
    if IsIdentifierStart(s[0]) then
      var n := Run(s, Part());
      Some((Word(KeywordKind(s[..n]), s[..n]), s[n..]))
    else if IsDigit(s[0]) then
      var n := Run(s, Digit());
      Some((Word(IntegerLiteral, s[..n]), s[n..]))
    else if s[0] == '\'' then
      match ScanString(s[1..])
      case None => None
      case Some((text, rest)) => Some((Word(StringLiteral, text), rest))
    else
      match SymbolKind(s[0])
      case None => None
      case Some(kind) => Some((Word(kind, [s[0]]), s[1..]))
  }

  // A token, with how much input was left before and after it.
  datatype Piece = Piece(word: Word, before: nat, after: nat)

  // All tokens of the input, or nothing when it has a syntax error.
  function Pieces(s: string): Option<seq<Piece>>
    decreases |s|
  {
    var t := Trim(s);
    if t == [] then Some([Piece(Word(End, []), 0, 0)])
    else
      match NextWord(t)
      case None => None
      case Some((word, rest)) =>
        match Pieces(rest)
        case None => None
        case Some(more) => Some([Piece(word, |t|, |rest|)] + more)
  }

  // ---- source locations ----

  function Step(l: Location, c: char): Location {
    if c == '\n' then Location(l.offset + 1, l.line + 1, 1) else Location(l.offset + 1, l.line, l.column + 1)
  }

  function LocationAt(input: string, n: nat): (l: Location)
    requires n <= |input|
    ensures l.offset == n && l.line > 0 && l.column > 0
  {
    if n == 0 then Location(0, 1, 1) else Step(LocationAt(input, n - 1), input[n - 1])
  }

  function TokenOf(input: string, p: Piece): Token
    requires p.before <= |input| && p.after <= |input|
  {
    Token(p.word, LocationAt(input, |input| - p.before), LocationAt(input, |input| - p.after))
  }

  ghost predicate Located(input: string, ps: seq<Piece>, tokens: seq<Token>) {
    && |tokens| == |ps|
    && forall i | 0 <= i < |ps| ::
         ps[i].before <= |input| && ps[i].after <= |input| && tokens[i] == TokenOf(input, ps[i])
  }

  // ---- laws ----

  // The pieces of an input follow each other without overlap; only the last one
  // is the end token, which is empty.
  ghost predicate InOrder(ps: seq<Piece>, size: nat) {
    && ps != [] && ps[|ps| - 1] == Piece(Word(End, []), 0, 0)
    && (forall i | 0 <= i < |ps| - 1 ::
          ps[i].word.kind != End && ps[i + 1].before <= ps[i].after < ps[i].before <= size)
  }

  lemma NotEnd(s: string)
    requires s != [] && NextWord(s).Some?
    ensures NextWord(s).value.0.kind != End
  {
  }

  lemma PiecesNone(s: string)
    requires Trim(s) == []
    ensures Pieces(s) == Some([Piece(Word(End, []), 0, 0)])
  {
  }

  lemma PiecesStep(s: string)
    requires Trim(s) != []
    ensures match NextWord(Trim(s))
      case None => Pieces(s) == None
      case Some((word, rest)) =>
        |rest| < |Trim(s)| <= |s| &&
        match Pieces(rest)
        case None => Pieces(s) == None
        case Some(more) => Pieces(s) == Some([Piece(word, |Trim(s)|, |rest|)] + more)
  {
  }

  lemma InOrderCons(p: Piece, ps: seq<Piece>, size: nat)
    requires p.word.kind != End && p.after < p.before <= size
    requires InOrder(ps, p.after) && ps[0].before <= p.after
    ensures InOrder([p] + ps, size)
  {
    var all := [p] + ps;
    forall i | 0 <= i < |all| - 1
      ensures all[i].word.kind != End && all[i + 1].before <= all[i].after < all[i].before <= size
    {
      if i > 0 {
        assert all[i] == ps[i - 1] && all[i + 1] == ps[i];
      }
    }
  }

  lemma {:induction false} PiecesInOrder(s: string)
    requires Pieces(s).Some?
    ensures InOrder(Pieces(s).value, |s|) && Pieces(s).value[0].before <= |s|
    decreases |s|
  {
    hide NextWord, Trim, Pieces, InOrder;
    var t := Trim(s);
    if t == [] {
      PiecesNone(s);
      OnlyEnd(|s|);
    } else {
      PiecesStep(s);
      NotEnd(t);
      var (word, rest) := NextWord(t).value;
      PiecesInOrder(rest);
      InOrderCons(Piece(word, |t|, |rest|), Pieces(rest).value, |s|);
    }
  }

  lemma OnlyEnd(size: nat)
    ensures InOrder([Piece(Word(End, []), 0, 0)], size)
  {
  }

  // Spans are ordered and disjoint, every token but the last covers some input,
  // and the last one is the empty end token at the end of the input.
  lemma SpansOrdered(input: string, tokens: seq<Token>)
    requires Pieces(input).Some? && Located(input, Pieces(input).value, tokens)
    ensures tokens != [] && tokens[|tokens| - 1].word.kind == End
    ensures tokens[|tokens| - 1].begin == tokens[|tokens| - 1].end == LocationAt(input, |input|)
    ensures forall i | 0 <= i < |tokens| - 1 ::
      && tokens[i].word.kind != End
      && tokens[i].begin.offset < tokens[i].end.offset <= tokens[i + 1].begin.offset
  {
    hide Pieces, LocationAt;
    PiecesInOrder(input);
    var ps := Pieces(input).value;
    forall i | 0 <= i < |tokens| - 1
      ensures tokens[i].word.kind != End
      ensures tokens[i].begin.offset < tokens[i].end.offset <= tokens[i + 1].begin.offset
    {
      assert tokens[i] == TokenOf(input, ps[i]) && tokens[i + 1] == TokenOf(input, ps[i + 1]);
    }
  }

  // ---- printing ----

  function Doubled(s: string): string {
    if s == [] then []
    else (if s[0] == '\'' then ['\'', '\''] else [s[0]]) + Doubled(s[1..])
  }

  function Spelling(w: Word): string {
    if w.kind == StringLiteral then ['\''] + Doubled(w.text) + ['\''] else w.text
  }

  // Every token followed by one space.
  function Printed(ws: seq<Word>): string {
    if ws == [] then [] else Spelling(ws[0]) + [' '] + Printed(ws[1..])
  }

  // The words that can be printed and read back.
  predicate WordOk(w: Word) {
    match w.kind
    case End => false
    case StringLiteral => true
    case IntegerLiteral => w.text != [] && forall i | 0 <= i < |w.text| :: IsDigit(w.text[i])
    case Comma => w.text == ","
    case LeftParen => w.text == "("
    case RightParen => w.text == ")"
    case Semicolon => w.text == ";"
    case Equal => w.text == "="
    case Minus => w.text == "-"
    case _ =>
      && w.text != [] && IsIdentifierStart(w.text[0])
      && (forall i | 0 <= i < |w.text| :: IsIdentifierPart(w.text[i]))
      && KeywordKind(w.text) == w.kind
  }

  lemma {:induction false} RunStops(t: string, c: char, rest: string, p: char -> bool)
    requires (forall i | 0 <= i < |t| :: p(t[i])) && !p(c)
    ensures Run(t + [c] + rest, p) == |t|
  {
    var s := t + [c] + rest;
    if t != [] {
      assert s[1..] == t[1..] + [c] + rest;
      RunStops(t[1..], c, rest, p);
    }
  }

  lemma ScanPlain(c: char, tail: string)
    requires c != '\''
    ensures ScanString([c] + tail) == Also(c, ScanString(tail))
  {
    assert ([c] + tail)[1..] == tail;
  }

  lemma ScanQuote(tail: string)
    ensures ScanString(['\'', '\''] + tail) == Also('\'', ScanString(tail))
  {
    assert (['\'', '\''] + tail)[2..] == tail;
  }

  lemma ScanEnd(rest: string)
    requires rest == [] || rest[0] != '\''
    ensures ScanString(['\''] + rest) == Some(([], rest))
  {
    assert (['\''] + rest)[1..] == rest;
  }

  lemma Regroup(a: string, b: string, c: string, d: string)
    ensures a + b + c + d == a + (b + c + d)
  {
  }

  lemma DoubledStep(t: string, rest: string)
    requires t != []
    ensures Doubled(t) + ['\''] + rest ==
      (if t[0] == '\'' then ['\'', '\''] else [t[0]]) + (Doubled(t[1..]) + ['\''] + rest)
  {
    var front := if t[0] == '\'' then ['\'', '\''] else [t[0]];
    Regroup(front, Doubled(t[1..]), ['\''], rest);
  }

  lemma {:induction false} StringBack(t: string, rest: string)
    requires rest == [] || rest[0] != '\''
    ensures ScanString(Doubled(t) + ['\''] + rest) == Some((t, rest))
  {
    hide ScanString;
    if t == [] {
      assert Doubled(t) + ['\''] + rest == ['\''] + rest;
      ScanEnd(rest);
    } else {
      hide Doubled;
      StringBack(t[1..], rest);
      DoubledStep(t, rest);
      var tail := Doubled(t[1..]) + ['\''] + rest;
      if t[0] == '\'' {
        ScanQuote(tail);
      } else {
        ScanPlain(t[0], tail);
      }
      assert [t[0]] + t[1..] == t;
    }
  }

  lemma StaysTrimmed(s: string)
    requires s != [] && !IsSpace(s[0]) && (s[0] == '-' ==> |s| > 1 && s[1] != '-')
    ensures Trim(s) == s
  {
  }

  lemma QuotedText(t: string, rest: string)
    ensures Spelling(Word(StringLiteral, t)) + rest == ['\''] + (Doubled(t) + ['\''] + rest)
  {
    hide Doubled;
    Regroup(['\''], Doubled(t), ['\''], rest);
  }

  lemma AfterQuote(body: string)
    ensures var s := ['\''] + body; s != [] && s[0] == '\'' && s[1..] == body
  {
  }

  // A spelled word at the head of a text is the next word of the text.
  ghost predicate Reads(w: Word, rest: string) {
    var s := Spelling(w) + rest;
    s != [] && Trim(s) == s && NextWord(s) == Some((w, rest))
  }

  lemma StringWord(t: string, rest: string)
    requires rest != [] && rest[0] == ' '
    ensures Reads(Word(StringLiteral, t), rest)
  {
    hide ScanString, Run, Trim, Doubled, KeywordKind, SymbolKind, Spelling;
    StringBack(t, rest);
    QuotedText(t, rest);
    AfterQuote(Doubled(t) + ['\''] + rest);
    StaysTrimmed(Spelling(Word(StringLiteral, t)) + rest);
  }

  lemma RunWord(t: string, rest: string, p: char -> bool)
    requires t != [] && rest != [] && !p(rest[0]) && forall i | 0 <= i < |t| :: p(t[i])
    ensures var s := t + rest;
      Run(s, p) == |t| && s[..|t|] == t && s[|t|..] == rest && s[0] == t[0]
  {
    assert rest == [rest[0]] + rest[1..];
    assert t + rest == t + [rest[0]] + rest[1..];
    RunStops(t, rest[0], rest[1..], p);
  }

  lemma IntegerWord(t: string, rest: string)
    requires rest != [] && rest[0] == ' ' && WordOk(Word(IntegerLiteral, t))
    ensures Reads(Word(IntegerLiteral, t), rest)
  {
    hide ScanString, Run, Trim, KeywordKind, SymbolKind, Doubled, NextWord;
    RunWord(t, rest, Digit());
    DigitFirst(t + rest);
    StaysTrimmed(t + rest);
    IntegerNext(t + rest, |t|);
  }

  lemma DigitFirst(s: string)
    requires s != [] && IsDigit(s[0])
    ensures !IsSpace(s[0]) && s[0] != '-' && !IsIdentifierStart(s[0])
  {
  }

  lemma IntegerNext(s: string, n: nat)
    requires s != [] && IsDigit(s[0]) && !IsIdentifierStart(s[0]) && n <= |s| && Run(s, Digit()) == n
    ensures NextWord(s) == Some((Word(IntegerLiteral, s[..n]), s[n..]))
  {
    hide Run, IsDigit, IsIdentifierStart;
  }

  lemma NameWord(w: Word, rest: string)
    requires rest != [] && rest[0] == ' ' && w.text != [] && IsIdentifierStart(w.text[0])
    requires (forall i | 0 <= i < |w.text| :: IsIdentifierPart(w.text[i])) && KeywordKind(w.text) == w.kind
    requires w.kind != StringLiteral
    ensures Reads(w, rest)
  {
    hide ScanString, Run, KeywordKind, SymbolKind, Doubled, Trim, NextWord;
    RunWord(w.text, rest, Part());
    NameFirst(w.text + rest);
    StaysTrimmed(w.text + rest);
    NameNext(w.text + rest);
  }

  lemma NameFirst(s: string)
    requires s != [] && IsIdentifierStart(s[0])
    ensures !IsSpace(s[0]) && s[0] != '-'
  {
  }

  lemma SymbolFacts(c: char)
    requires SymbolKind(c).Some?
    ensures !IsIdentifierStart(c) && !IsDigit(c) && c != '\'' && !IsSpace(c)
  {
  }

  lemma SymbolWord(c: char, kind: Kind, rest: string)
    requires rest != [] && rest[0] == ' ' && SymbolKind(c) == Some(kind)
    requires kind != StringLiteral
    ensures Reads(Word(kind, [c]), rest)
  {
    hide ScanString, Run, KeywordKind, Trim, IsIdentifierStart, IsDigit, IsSpace, SymbolKind;
    SymbolFacts(c);
    var s := [c] + rest;
    assert s[0] == c && s[1..] == rest && s[1] == ' ';
    StaysTrimmed(s);
  }

  lemma NameParts(w: Word)
    requires WordOk(w)
    requires w.kind !in {StringLiteral, IntegerLiteral, Comma, LeftParen, RightParen, Semicolon, Equal, Minus}
    ensures w.text != [] && IsIdentifierStart(w.text[0]) && KeywordKind(w.text) == w.kind
    ensures forall i | 0 <= i < |w.text| :: IsIdentifierPart(w.text[i])
  {
    hide KeywordKind, IsIdentifierStart, IsIdentifierPart;
  }

  lemma SymbolParts(w: Word)
    requires WordOk(w) && w.kind in {Comma, LeftParen, RightParen, Semicolon, Equal, Minus}
    ensures |w.text| == 1 && SymbolKind(w.text[0]) == Some(w.kind)
  {
    hide KeywordKind, IsIdentifierStart, IsIdentifierPart;
  }

  lemma WordBack(w: Word, rest: string)
    requires WordOk(w) && rest != [] && rest[0] == ' '
    ensures Reads(w, rest)
  {
    hide Reads, WordOk, KeywordKind, SymbolKind, IsIdentifierStart, IsIdentifierPart;
    if w.kind == StringLiteral {
      StringWord(w.text, rest);
    } else if w.kind == IntegerLiteral {
      IntegerWord(w.text, rest);
    } else if w.kind in {Comma, LeftParen, RightParen, Semicolon, Equal, Minus} {
      SymbolParts(w);
      assert [w.text[0]] == w.text;
      SymbolWord(w.text[0], w.kind, rest);
    } else {
      NameParts(w);
      NameWord(w, rest);
    }
  }

  function WordsOf(ps: seq<Piece>): (ws: seq<Word>)
    ensures |ws| == |ps|
  {
    seq(|ps|, i requires 0 <= i < |ps| => ps[i].word)
  }

  lemma WordsCons(p: Piece, ps: seq<Piece>)
    ensures WordsOf([p] + ps) == [p.word] + WordsOf(ps)
  {
  }

  lemma PrintedStep(ws: seq<Word>)
    requires ws != []
    ensures Printed(ws) == Spelling(ws[0]) + ([' '] + Printed(ws[1..]))
  {
    hide Spelling;
  }

  lemma ConsSnoc(ws: seq<Word>, w: Word)
    requires ws != []
    ensures ws + [w] == [ws[0]] + (ws[1..] + [w])
  {
  }

  lemma NothingPrinted()
    ensures Pieces(Printed([])) == Some([Piece(Word(End, []), 0, 0)])
    ensures WordsOf([Piece(Word(End, []), 0, 0)]) == [] + [Word(End, [])]
  {
    hide NextWord, Trim, Pieces;
    NothingLeft([]);
    PiecesNone([]);
  }

  lemma SpaceSkipped(s: string)
    ensures Pieces([' '] + s) == Pieces(s)
  {
    assert ([' '] + s)[1..] == s;
  }

  lemma FirstPiece(ws: seq<Word>)
    requires ws != [] && WordOk(ws[0]) && Pieces(Printed(ws[1..])).Some?
    ensures exists p: Piece :: p.word == ws[0] && Pieces(Printed(ws)) == Some([p] + Pieces(Printed(ws[1..])).value)
  {
    hide NextWord, Trim, WordOk, Spelling, Pieces, Printed, Reads;
    var rest := [' '] + Printed(ws[1..]);
    PrintedStep(ws);
    WordBack(ws[0], rest);
    ReadsNext(ws[0], rest);
    SpaceSkipped(Printed(ws[1..]));
    PiecesStep(Printed(ws));
    assert Piece(ws[0], |Printed(ws)|, |rest|).word == ws[0];
  }

  lemma ReadsNext(w: Word, rest: string)
    requires Reads(w, rest)
    ensures var s := Spelling(w) + rest;
      s != [] && Trim(s) == s && NextWord(s) == Some((w, rest))
  {
    hide NextWord, Trim, Spelling;
  }

  // Printed words lex to the same words and the end token.
  lemma {:induction false} WordsBack(ws: seq<Word>)
    requires forall i | 0 <= i < |ws| :: WordOk(ws[i])
    ensures Pieces(Printed(ws)).Some?
    ensures WordsOf(Pieces(Printed(ws)).value) == ws + [Word(End, [])]
  {
    hide WordOk, Pieces, Printed, WordsOf;
    if ws == [] {
      NothingPrinted();
    } else {
      WordsBack(ws[1..]);
      FirstPiece(ws);
      var p: Piece :| p.word == ws[0] && Pieces(Printed(ws)) == Some([p] + Pieces(Printed(ws[1..])).value);
      WordsCons(p, Pieces(Printed(ws[1..])).value);
      ConsSnoc(ws, Word(End, []));
    }
  }

  // ---- the lexer ----

  class Lexer {
    const input: string
    var offset: nat
    var location: Location

    ghost predicate Valid()
      reads this
    {
      offset <= |input| && location == LocationAt(input, offset)
    }

    ghost function Rest(): string
      requires offset <= |input|
      reads this
    {
      input[offset..]
    }

    constructor (input: string)
      ensures this.input == input && Valid() && Rest() == input
    {
      this.input, offset, location := input, 0, Location(0, 1, 1);
    }

    method Advance()
      requires Valid() && offset < |input|
      modifies this
      ensures Valid() && offset == old(offset) + 1 && Rest() == old(Rest())[1..]
    {
      var c := input[offset];
      offset := offset + 1;
      if c == '\n' {
        location := Location(location.offset + 1, location.line + 1, 1);
      } else {
        location := Location(location.offset + 1, location.line, location.column + 1);
      }
    }

    // Moves past the longest run of characters of a class.
    method AdvanceWhile(p: char -> bool)
      requires Valid()
      modifies this
      ensures Valid() && offset == old(offset) + Run(old(Rest()), p) && Rest() == old(Rest())[Run(old(Rest()), p)..]
    {
      ghost var s := Rest();
      while offset < |input| && p(input[offset])
        invariant Valid() && old(offset) <= offset && Rest() == s[offset - old(offset)..]
        invariant offset - old(offset) + Run(Rest(), p) == Run(s, p)
        decreases |input| - offset
      {
        Advance();
      }
    }

    method SkipTrivia()
      requires Valid()
      modifies this
      ensures Valid() && old(offset) <= offset && Rest() == Trim(old(Rest()))
    {
      hide Trim, LocationAt, Run;
      while offset < |input|
        invariant Valid() && old(offset) <= offset && Trim(Rest()) == Trim(old(Rest()))
        decreases |input| - offset
      {
        var c := input[offset];
        TrimSteps(Rest());
        if IsSpace(c) {
          Advance();
          continue;
        }
        if c == '-' && offset + 1 < |input| && input[offset + 1] == '-' {
          AdvanceWhile(NotNewline());
          continue;
        }
        return;
      }
      TrimSteps(Rest());
    }

    method LexIdentifierOrKeyword(start: Location) returns (token: Token)
      requires Valid() && offset < |input| && IsIdentifierStart(input[offset])
      modifies this
      ensures Valid() && offset > old(offset)
      ensures var n := Run(old(Rest()), Part());
        token == Token(Word(KeywordKind(old(Rest())[..n]), old(Rest())[..n]), start, location) && Rest() == old(Rest())[n..]
    {
      hide LocationAt, KeywordKind;
      var beginOffset := offset;
      AdvanceWhile(Part());
      var lexeme := input[beginOffset..offset];
      assert lexeme == old(Rest())[..offset - beginOffset];
      return Token(Word(KeywordKind(lexeme), lexeme), start, location);
    }

    method LexInteger(start: Location) returns (token: Token)
      requires Valid() && offset < |input| && IsDigit(input[offset])
      modifies this
      ensures Valid() && offset > old(offset)
      ensures var n := Run(old(Rest()), Digit());
        token == Token(Word(IntegerLiteral, old(Rest())[..n]), start, location) && Rest() == old(Rest())[n..]
    {
      hide LocationAt;
      var beginOffset := offset;
      AdvanceWhile(Digit());
      var lexeme := input[beginOffset..offset];
      assert lexeme == old(Rest())[..offset - beginOffset];
      return Token(Word(IntegerLiteral, lexeme), start, location);
    }

    // From an opening quote to its closing quote; two quotes in a row are one
    // quote of the value.
    method LexString(start: Location) returns (r: Result<Token>)
      requires Valid() && offset < |input|
      modifies this
      ensures Valid()
      ensures match ScanString(old(Rest())[1..])
        case None => r == Err(Syntax)
        case Some((text, rest)) =>
          r == Ok(Token(Word(StringLiteral, text), start, location)) && Rest() == rest && offset > old(offset)
    {
      hide LocationAt, ScanString, Prefixed, Also;
      ghost var body := Rest()[1..];
      Advance();
      var value: string := [];
      PrefixedSteps([], ' ', ScanString(body));
      while offset < |input|
        invariant Valid() && offset > old(offset)
        invariant ScanString(body) == Prefixed(value, ScanString(Rest()))
        decreases |input| - offset
      {
        var c := input[offset];
        ghost var s := Rest();
        ScanSteps(s);
        if c == '\'' {
          Advance();
          if offset < |input| && input[offset] == '\'' {
            PrefixedSteps(value, '\'', ScanString(s[2..]));
            value := value + ['\''];
            Advance();
            continue;
          }
          PrefixedSteps(value, ' ', Some(([], s[1..])));
          return Ok(Token(Word(StringLiteral, value), start, location));
        }
        PrefixedSteps(value, c, ScanString(s[1..]));
        value := value + [c];
        Advance();
      }
      ScanSteps(Rest());
      PrefixedNone(value);
      return Err(Syntax);
    }

    // One token at a position that is neither the end nor trivia.
    method LexToken() returns (r: Result<Token>)
      requires Valid() && offset < |input|
      modifies this
      ensures Valid()
      ensures match NextWord(old(Rest()))
        case None => r == Err(Syntax)
        case Some((word, rest)) =>
          r == Ok(Token(word, old(location), location)) && Rest() == rest && offset > old(offset)
    {
      hide LocationAt, ScanString, KeywordKind, Run;
      var start := location;
      var c := input[offset];
      if IsIdentifierStart(c) {
        var token := LexIdentifierOrKeyword(start);
        return Ok(token);
      }
      if IsDigit(c) {
        var token := LexInteger(start);
        return Ok(token);
      }
      if c == '\'' {
        r := LexString(start);
        return;
      }
      Advance();
      var kind := SymbolKind(c);
      if kind.None? {
        return Err(Syntax);
      }
      return Ok(Token(Word(kind.value, [c]), start, location));
    }

    // The next token, if trivia is not all that is left.
    method LexNext() returns (r: Result<Option<Token>>, ghost piece: Piece)
      requires Valid() && offset < |input|
      modifies this
      ensures Valid()
      ensures r.Err? ==> r.error == Syntax && Pieces(old(Rest())) == None
      ensures r == Ok(None) ==> offset == |input| && Pieces(old(Rest())) == Pieces([])
      ensures r.Ok? && r.value.Some? ==>
        && offset > old(offset) && piece.before <= |input| && piece.after <= |input|
        && r.value.value == TokenOf(input, piece)
        && Pieces(old(Rest())) == InFront([piece], Pieces(Rest()))
    {
      hide LocationAt, NextWord, Trim, Pieces;
      ghost var s := Rest();
      piece := Piece(Word(End, []), 0, 0);
      SkipTrivia();
      if offset == |input| {
        SameTrim(s);
        return Ok(None), piece;
      }
      PiecesStep(s);
      ghost var before := |Rest()|;
      var token := LexToken();
      if token.Err? {
        return Forward(token), piece;
      }
      piece := Piece(token.value.word, before, |Rest()|);
      return Ok(Some(token.value)), piece;
    }

    // All tokens of the input with their places in it.
    method Lex() returns (r: Result<seq<Token>>)
      requires Valid() && offset == 0
      modifies this
      ensures r.Ok? <==> Pieces(input).Some?
      ensures r.Ok? ==> Located(input, Pieces(input).value, r.value)
      ensures r.Err? ==> r.error == Syntax
    {
      hide LocationAt, Pieces, Located, InFront, TokenOf;
      var tokens: seq<Token> := [];
      ghost var pieces: seq<Piece> := [];
      assert Rest() == input;
      NothingInFront(Pieces(input));
      NothingLocated(input);
      while offset < |input|
        invariant Valid() && Located(input, pieces, tokens)
        invariant Pieces(input) == InFront(pieces, Pieces(Rest()))
        decreases |input| - offset
      {
        var next;
        ghost var piece;
        next, piece := LexNext();
        if next.Err? {
          NothingBehind(pieces);
          return Forward(next);
        }
        if next.value.None? {
          break;
        }
        InFrontTwice(pieces, piece, Pieces(Rest()));
        MoreLocated(input, pieces, tokens, piece, next.value.value);
        pieces := pieces + [piece];
        tokens := tokens + [next.value.value];
      }
      assert Rest() == [];
      EndPiece([]);
      ghost var last := Piece(Word(End, []), 0, 0);
      var end := Token(Word(End, []), location, location);
      EndToken(input, end);
      MoreLocated(input, pieces, tokens, last, end);
      AllInFront(pieces, [last]);
      tokens := tokens + [end];
      return Ok(tokens);
    }
  }

  lemma EndToken(input: string, token: Token)
    requires token == Token(Word(End, []), LocationAt(input, |input|), LocationAt(input, |input|))
    ensures token == TokenOf(input, Piece(Word(End, []), 0, 0))
  {
    hide LocationAt;
  }

  lemma NothingLocated(input: string)
    ensures Located(input, [], [])
  {
  }

  lemma MoreLocated(input: string, ps: seq<Piece>, tokens: seq<Token>, p: Piece, token: Token)
    requires Located(input, ps, tokens) && p.before <= |input| && p.after <= |input| && token == TokenOf(input, p)
    ensures Located(input, ps + [p], tokens + [token])
  {
    hide LocationAt, TokenOf;
  }

  lemma NothingBehind(front: seq<Piece>)
    ensures InFront(front, None) == None
  {
  }

  lemma AllInFront(front: seq<Piece>, more: seq<Piece>)
    ensures InFront(front, Some(more)) == Some(front + more)
  {
  }

  function Prefixed(front: string, r: Option<(string, string)>): Option<(string, string)> {
    match r
    case None => None
    case Some((text, rest)) => Some((front + text, rest))
  }

  lemma PrefixedSteps(front: string, c: char, r: Option<(string, string)>)
    ensures Prefixed(front, Also(c, r)) == Prefixed(front + [c], r)
    ensures r.Some? && r.value.0 == [] ==> Prefixed(front, r) == Some((front, r.value.1))
    ensures Prefixed([], r) == r
  {
    if r.Some? {
      assert front + ([c] + r.value.0) == front + [c] + r.value.0;
      assert [] + r.value.0 == r.value.0;
      assert front + [] == front;
    }
  }

  lemma PrefixedNone(front: string)
    ensures Prefixed(front, None) == None
  {
  }

  lemma ScanSteps(s: string)
    ensures s == [] ==> ScanString(s) == None
    ensures s != [] && s[0] != '\'' ==> ScanString(s) == Also(s[0], ScanString(s[1..]))
    ensures |s| > 1 && s[0] == '\'' && s[1] == '\'' ==> ScanString(s) == Also('\'', ScanString(s[2..]))
    ensures s != [] && s[0] == '\'' && !(|s| > 1 && s[1] == '\'') ==> ScanString(s) == Some(([], s[1..]))
  {
  }

  function InFront(front: seq<Piece>, r: Option<seq<Piece>>): Option<seq<Piece>> {
    match r
    case None => None
    case Some(more) => Some(front + more)
  }

  lemma NothingInFront(r: Option<seq<Piece>>)
    ensures InFront([], r) == r
  {
    if r.Some? {
      assert [] + r.value == r.value;
    }
  }

  lemma InFrontTwice(front: seq<Piece>, p: Piece, r: Option<seq<Piece>>)
    ensures InFront(front, InFront([p], r)) == InFront(front + [p], r)
  {
    if r.Some? {
      assert front + ([p] + r.value) == front + [p] + r.value;
    }
  }

  lemma SameTrim(s: string)
    requires Trim(s) == []
    ensures Pieces(s) == Pieces([])
  {
  }

  lemma EndPiece(s: string)
    requires s == []
    ensures Pieces(s) == Some([Piece(Word(End, []), 0, 0)])
  {
  }

  // The tokens of a text, as a caller gets them.
  method LexSql(sql: string) returns (r: Result<seq<Token>>)
    ensures r.Ok? <==> Pieces(sql).Some?
    ensures r.Ok? ==> Located(sql, Pieces(sql).value, r.value)
    ensures r.Err? ==> r.error == Syntax
    ensures r.Ok? <==> exists ps :: Reading(sql, ps)
    ensures r.Ok? ==> Tokenizes(sql, r.value)
  {
    hide Pieces, Reading, LocationAt;
    var lexer := new Lexer(sql);
    r := lexer.Lex();
    if r.Ok? {
      PiecesRead(sql);
      TokensPlaced(sql, Pieces(sql).value, r.value);
    }
    forall ps | Reading(sql, ps) ensures r.Ok? {
      ReadingFound(sql, ps);
    }
  }

  // The tokens are the words of a reading, with their places in the input.
  ghost predicate Tokenizes(input: string, tokens: seq<Token>) {
    exists ps: seq<Piece> :: Reading(input, ps) && |tokens| == |ps| && forall i | 0 <= i < |ps| ::
      && tokens[i].word == ps[i].word
      && PlaceAt(input, tokens[i].begin, |input| - ps[i].before)
      && PlaceAt(input, tokens[i].end, |input| - ps[i].after)
  }

  // Lines and columns count from one: a line more for every newline before, a
  // column more for every character since the last one.
  ghost predicate PlaceAt(input: string, l: Location, n: int) {
    && l.offset == n && 0 <= n <= |input|
    && l.line == 1 + multiset(input[..n])['\n']
    && 1 <= l.column <= n + 1
    && (forall i | n - l.column < i < n :: 0 <= i && input[i] != '\n')
    && (l.column <= n ==> input[n - l.column] == '\n')
  }

  lemma {:induction false} LocationExact(input: string, n: nat)
    requires n <= |input|
    ensures PlaceAt(input, LocationAt(input, n), n)
  {
    if n > 0 {
      LocationExact(input, n - 1);
      assert input[..n] == input[..n - 1] + [input[n - 1]];
    }
  }

  lemma TokensPlaced(input: string, ps: seq<Piece>, tokens: seq<Token>)
    requires Reading(input, ps) && Located(input, ps, tokens)
    ensures Tokenizes(input, tokens)
  {
    hide Reading, PlaceAt, LocationAt;
    forall i | 0 <= i < |ps|
      ensures PlaceAt(input, tokens[i].begin, |input| - ps[i].before)
      ensures PlaceAt(input, tokens[i].end, |input| - ps[i].after)
    {
      LocationExact(input, |input| - ps[i].before);
      LocationExact(input, |input| - ps[i].after);
    }
  }

  // ---- what lexing is, apart from how it is done ----

  predicate Letter(c: char) {
    65 <= c as int <= 90 || 97 <= c as int <= 122
  }

  predicate DecimalDigit(c: char) {
    48 <= c as int <= 57
  }

  predicate Blank(c: char) {
    c as int == 32 || 9 <= c as int <= 13
  }

  predicate NameChar(c: char) {
    Letter(c) || DecimalDigit(c) || c == '_'
  }

  // The two cases of one letter, or one character.
  predicate SameLetter(a: char, b: char) {
    a == b || (Letter(a) && Letter(b) && (a as int == b as int + 32 || b as int == a as int + 32))
  }

  predicate SameUpToCase(a: string, b: string) {
    |a| == |b| && forall i | 0 <= i < |a| :: SameLetter(a[i], b[i])
  }

  function Keyword(kind: Kind): Option<string> {
    match kind
    case Create => Some("CREATE")
    case Table => Some("TABLE")
    case Index => Some("INDEX")
    case On => Some("ON")
    case Insert => Some("INSERT")
    case Into => Some("INTO")
    case Values => Some("VALUES")
    case Select => Some("SELECT")
    case From => Some("FROM")
    case Where => Some("WHERE")
    case Int => Some("INT")
    case Text => Some("TEXT")
    case _ => None
  }

  // A name is a keyword when it is spelled like one in any case, and otherwise an
  // identifier.
  ghost predicate NameKind(text: string, kind: Kind) {
    if kind == Identifier then forall k: Kind | Keyword(k).Some? :: !SameUpToCase(text, Keyword(k).value)
    else Keyword(kind).Some? && SameUpToCase(text, Keyword(kind).value)
  }

  function Symbol(kind: Kind): Option<char> {
    match kind
    case Comma => Some(',')
    case LeftParen => Some('(')
    case RightParen => Some(')')
    case Semicolon => Some(';')
    case Equal => Some('=')
    case Minus => Some('-')
    case _ => None
  }

  predicate BeginsComment(s: string) {
    |s| > 1 && s[0] == '-' && s[1] == '-'
  }

  // The first n characters of a text are the word: a quoted text, a longest run of
  // digits or of a name's characters, or a symbol that does not begin a comment.
  ghost predicate WordAt(s: string, w: Word, n: nat) {
    && 0 < n <= |s|
    && match w.kind
       case End => false
       case StringLiteral => s[..n] == ['\''] + Doubled(w.text) + ['\''] && (n < |s| ==> s[n] != '\'')
       case IntegerLiteral =>
         s[..n] == w.text && (forall i | 0 <= i < n :: DecimalDigit(s[i])) && (n < |s| ==> !DecimalDigit(s[n]))
       case _ =>
         if Symbol(w.kind).Some? then
           && n == 1 && [s[0]] == w.text && s[0] == Symbol(w.kind).value
           && !BeginsComment(s)
         else
           && s[..n] == w.text && !DecimalDigit(s[0]) && (forall i | 0 <= i < n :: NameChar(s[i]))
           && (n < |s| ==> !NameChar(s[n]))
           && NameKind(w.text, w.kind)
  }

  // White space, and comments that a newline or the end of the input ends.
  ghost predicate Trivia(s: string, last: bool) {
    || s == []
    || (Blank(s[0]) && Trivia(s[1..], last))
    || (exists n: nat :: CommentTo(s, n) && (if n == |s| then last else Trivia(s[n + 1..], last)))
  }

  // A comment of n characters, and the newline behind it if there is one.
  ghost predicate CommentTo(s: string, n: nat) {
    && 2 <= n <= |s| && s[0] == s[1] == '-'
    && (forall i | 0 <= i < n :: s[i] != '\n')
    && (n < |s| ==> s[n] == '\n')
  }

  // The pieces are words of the text in order, with trivia between them.
  ghost predicate Reading(s: string, ps: seq<Piece>)
    decreases |ps|
  {
    && ps != [] && ps[0].before <= |s|
    && var t := s[|s| - ps[0].before..];
       && Trivia(s[..|s| - ps[0].before], t == [])
       && if |ps| == 1 then ps[0] == Piece(Word(End, []), 0, 0)
          else ps[0].after < |t| && WordAt(t, ps[0].word, |t| - ps[0].after) && Reading(t[|t| - ps[0].after..], ps[1..])
  }

  // ---- the lexer finds the reading ----

  lemma Classes(c: char)
    ensures IsSpace(c) <==> Blank(c)
    ensures IsDigit(c) <==> DecimalDigit(c)
    ensures IsIdentifierPart(c) <==> NameChar(c)
    ensures IsIdentifierStart(c) <==> NameChar(c) && !DecimalDigit(c)
    ensures forall kind :: SymbolKind(c) == Some(kind) <==> Symbol(kind) == Some(c)
  {
  }

  lemma {:induction false} TrimSplits(s: string)
    ensures |Trim(s)| <= |s| && s == s[..|s| - |Trim(s)|] + Trim(s)
    ensures Trim(s) != [] ==> !IsSpace(Trim(s)[0]) && (Trim(s)[0] == '-' && |Trim(s)| > 1 ==> Trim(s)[1] != '-')
    decreases |s|
  {
    hide Trim, Run, IsSpace;
    TrimSteps(s);
    TrimSuffix(s);
    if s != [] {
      if IsSpace(s[0]) {
        TrimSplits(s[1..]);
      } else if s[0] == '-' && |s| > 1 && s[1] == '-' {
        TrimSplits(s[Run(s, NotNewline())..]);
      }
    }
  }

  lemma TrimSuffix(s: string)
    ensures |Trim(s)| <= |s| && s == s[..|s| - |Trim(s)|] + Trim(s)
  {
    assert Trim(s) == s[|s| - |Trim(s)|..];
    Cut(s, |s| - |Trim(s)|);
  }

  // What is trimmed off.
  function Gap(s: string): string {
    s[..|s| - |Trim(s)|]
  }

  lemma Fronts(s: string, a: string, b: string, n: nat)
    requires s == a + b && n <= |b|
    ensures s[..|s| - n] == a + b[..|b| - n]
  {
  }

  lemma HeadAndTail(s: string)
    requires s != []
    ensures s == [s[0]] + s[1..]
  {
  }

  lemma AroundNewline(s: string, n: nat)
    requires n < |s| && s[n] == '\n'
    ensures s[n..][1..] == s[n + 1..] && s == (s[..n] + ['\n']) + s[n + 1..]
  {
  }

  lemma NoGap(s: string)
    requires Trim(s) == s
    ensures Gap(s) == []
  {
    hide Trim;
  }

  lemma GapIs(s: string, a: string, b: string)
    requires s == a + b && Trim(s) == Trim(b) && |Trim(b)| <= |b|
    ensures Gap(s) == a + Gap(b)
  {
    hide Trim;
    Fronts(s, a, b, |Trim(b)|);
  }

  lemma BlankGap(s: string)
    requires s != [] && IsSpace(s[0])
    ensures Trim(s) == Trim(s[1..]) && Gap(s) == [s[0]] + Gap(s[1..])
  {
    TrimSteps(s);
    TrimSplits(s[1..]);
    HeadAndTail(s);
    hide Trim, IsSpace, Gap;
    GapIs(s, [s[0]], s[1..]);
  }

  lemma CommentRun(s: string)
    requires |s| > 1 && s[0] == '-' && s[1] == '-'
    ensures var n := Run(s, NotNewline());
      && 2 <= n <= |s| && (forall i | 0 <= i < n :: s[i] != '\n') && (n < |s| ==> s[n] == '\n')
      && Trim(s) == Trim(s[n..])
  {
    hide Trim, Run;
    RunTwo(s);
    RunFacts(s);
    TrimSteps(s);
  }

  // A comment that the input ends, and one that a newline ends.
  lemma LastCommentGap(s: string)
    requires |s| > 1 && s[0] == '-' && s[1] == '-' && Run(s, NotNewline()) == |s|
    ensures Trim(s) == [] && Gap(s) == s
  {
    hide Trim, Run, Gap, IsSpace;
    CommentRun(s);
    NothingLeft(s);
    AllGap(s);
  }

  lemma NothingLeft(s: string)
    ensures Trim(s[|s|..]) == []
  {
    hide Run, IsSpace;
    assert s[|s|..] == [];
  }

  lemma AllGap(s: string)
    requires Trim(s) == []
    ensures Gap(s) == s
  {
    hide Trim;
  }

  lemma CommentGap(s: string)
    requires |s| > 1 && s[0] == '-' && s[1] == '-' && Run(s, NotNewline()) < |s|
    ensures var n := Run(s, NotNewline());
      Trim(s) == Trim(s[n + 1..]) && Gap(s) == (s[..n] + ['\n']) + Gap(s[n + 1..])
  {
    hide Trim, Run, Gap;
    CommentRun(s);
    var n := Run(s, NotNewline());
    AroundNewline(s, n);
    NewlineTrimmed(s[n..]);
    TrimSplits(s[n + 1..]);
    GapIs(s, s[..n] + ['\n'], s[n + 1..]);
  }

  lemma NewlineTrimmed(s: string)
    requires s != [] && s[0] == '\n'
    ensures Trim(s) == Trim(s[1..])
  {
    hide Trim, IsSpace, Run;
    NewlineIsSpace();
    TrimSteps(s);
  }

  lemma NewlineIsSpace()
    ensures IsSpace('\n')
  {
  }

  lemma RunFacts(s: string)
    ensures var n := Run(s, NotNewline());
      (forall i | 0 <= i < n :: s[i] != '\n') && (n < |s| ==> s[n] == '\n')
  {
    var n := Run(s, NotNewline());
    forall i | 0 <= i < n ensures s[i] != '\n' {
      assert NotNewline()(s[i]);
    }
    assert n < |s| ==> !NotNewline()(s[n]);
  }

  lemma RunTwo(s: string)
    requires |s| > 1 && s[0] != '\n' && s[1] != '\n'
    ensures Run(s, NotNewline()) >= 2
  {
    assert s[1..][0] == s[1];
  }

  lemma BlankTrivia(c: char, g: string, last: bool)
    requires Blank(c) && Trivia(g, last)
    ensures Trivia([c] + g, last)
  {
    assert ([c] + g)[1..] == g;
  }

  lemma CommentTrivia(c: string, g: string, last: bool)
    requires |c| > 1 && c[0] == c[1] == '-' && (forall i | 0 <= i < |c| :: c[i] != '\n') && Trivia(g, last)
    ensures Trivia(c + ['\n'] + g, last)
  {
    var s := c + ['\n'] + g;
    assert s[|c| + 1..] == g;
    assert CommentTo(s, |c|);
  }

  lemma LastComment(c: string)
    requires |c| > 1 && c[0] == c[1] == '-' && forall i | 0 <= i < |c| :: c[i] != '\n'
    ensures Trivia(c, true)
  {
    assert CommentTo(c, |c|);
  }

  // What is trimmed off is trivia.
  lemma {:induction false} TrimmedIsTrivia(s: string)
    ensures Trivia(Gap(s), Trim(s) == [])
    decreases |s|
  {
    hide Trim, Run, Trivia, Gap, IsSpace, Blank;
    TrimSteps(s);
    if s == [] || Trim(s) == s {
      NoGap(s);
      NoTrivia(Trim(s) == []);
    } else if IsSpace(s[0]) {
      BlankGap(s);
      TrimmedIsTrivia(s[1..]);
      Classes(s[0]);
      BlankTrivia(s[0], Gap(s[1..]), Trim(s) == []);
    } else {
      CommentRun(s);
      var n := Run(s, NotNewline());
      if n == |s| {
        LastCommentGap(s);
        LastComment(s);
      } else {
        CommentGap(s);
        TrimmedIsTrivia(s[n + 1..]);
        CommentTrivia(s[..n], Gap(s[n + 1..]), Trim(s) == []);
      }
    }
  }

  lemma NoTrivia(last: bool)
    ensures Trivia([], last)
  {
  }

  lemma {:induction false} RunIs(s: string, p: char -> bool, n: nat)
    requires n <= |s| && (forall i | 0 <= i < n :: p(s[i])) && (n < |s| ==> !p(s[n]))
    ensures Run(s, p) == n
  {
    if n > 0 {
      RunIs(s[1..], p, n - 1);
    }
  }

  // Whatever begins no trivia is left when trivia in front of it are trimmed.
  lemma {:induction false} TriviaTrimmed(g: string, t: string)
    requires Trivia(g, t == []) && NoTriviaFirst(t)
    ensures Trim(g + t) == t
    decreases |g|
  {
    hide Trim, Run, IsSpace, Blank, Trivia, NoTriviaFirst;
    if g == [] {
      assert g + t == t;
      TrimNothing(t);
    } else if Blank(g[0]) && Trivia(g[1..], t == []) {
      TriviaTrimmed(g[1..], t);
      Classes(g[0]);
      HeadOfSum(g, t);
      TrimSteps(g + t);
    } else {
      TriviaComment(g, t == []);
      var n: nat :| CommentTo(g, n) && (if n == |g| then t == [] else Trivia(g[n + 1..], t == []));
      CommentInFront(g, n, t);
      if n < |g| {
        TriviaTrimmed(g[n + 1..], t);
      }
    }
  }

  predicate NoTriviaFirst(t: string) {
    t != [] ==> !IsSpace(t[0]) && (t[0] == '-' && |t| > 1 ==> t[1] != '-')
  }

  lemma TrimNothing(t: string)
    requires NoTriviaFirst(t)
    ensures Trim(t) == t
  {
    hide Trim, Run, IsSpace;
    TrimSteps(t);
  }

  lemma HeadOfSum(g: string, t: string)
    requires g != []
    ensures g + t != [] && (g + t)[0] == g[0] && (g + t)[1..] == g[1..] + t
  {
  }

  lemma TriviaComment(g: string, last: bool)
    requires Trivia(g, last) && g != [] && !(Blank(g[0]) && Trivia(g[1..], last))
    ensures exists n: nat :: CommentTo(g, n) && (if n == |g| then last else Trivia(g[n + 1..], last))
  {
    hide Blank, CommentTo;
  }

  lemma CommentInFront(g: string, n: nat, t: string)
    requires CommentTo(g, n) && (n == |g| ==> t == [])
    ensures Trim(g + t) == if n == |g| then t else Trim(g[n + 1..] + t)
  {
    hide Trim, IsSpace, Run, CommentTo;
    var s := g + t;
    CommentRunIs(g, n, t);
    if n == |g| {
      LastCommentGap(s);
    } else {
      CommentGap(s);
      AfterSum(g, n, t);
    }
  }

  lemma CommentRunIs(g: string, n: nat, t: string)
    requires CommentTo(g, n) && (n == |g| ==> t == [])
    ensures var s := g + t;
      && |s| > 1 && s[0] == '-' && s[1] == '-' && Run(s, NotNewline()) == n <= |g|
      && (n == |g| ==> |s| == n)
  {
    hide Run;
    var s := g + t;
    forall i | 0 <= i < n ensures NotNewline()(s[i]) {
      assert s[i] == g[i];
    }
    assert n < |g| ==> s[n] == g[n] && !NotNewline()(s[n]);
    RunIs(s, NotNewline(), n);
  }

  lemma AfterSum(g: string, n: nat, t: string)
    requires n < |g|
    ensures (g + t)[n + 1..] == g[n + 1..] + t
  {
  }

  // ---- keywords in any case ----

  lemma LowerSame(c: char, d: char)
    ensures LowerChar(c) == LowerChar(d) <==> SameLetter(c, d)
  {
  }

  lemma LowercaseSame(text: string, upper: string)
    ensures Lowercase(text) == Lowercase(upper) <==> SameUpToCase(text, upper)
  {
    hide LowerChar, SameLetter;
    if SameUpToCase(text, upper) {
      forall i | 0 <= i < |text| ensures Lowercase(text)[i] == Lowercase(upper)[i] {
        LowerSame(text[i], upper[i]);
      }
    }
    if Lowercase(text) == Lowercase(upper) {
      forall i | 0 <= i < |text| ensures SameLetter(text[i], upper[i]) {
        assert Lowercase(text)[i] == Lowercase(upper)[i];
        LowerSame(text[i], upper[i]);
      }
    }
  }

  lemma LowercaseKeywords()
    ensures Lowercase("CREATE") == "create" && Lowercase("TABLE") == "table" && Lowercase("INDEX") == "index"
    ensures Lowercase("ON") == "on" && Lowercase("INSERT") == "insert" && Lowercase("INTO") == "into"
    ensures Lowercase("VALUES") == "values" && Lowercase("SELECT") == "select" && Lowercase("FROM") == "from"
    ensures Lowercase("WHERE") == "where" && Lowercase("INT") == "int" && Lowercase("TEXT") == "text"
  {
  }

  // A name's kind is the one that its letters give it.
  lemma KeywordExactly(text: string, kind: Kind)
    ensures KeywordKind(text) == kind <==> NameKind(text, kind)
  {
    hide Lowercase, SameUpToCase;
    LowercaseKeywords();
    forall k: Kind | Keyword(k).Some?
      ensures SameUpToCase(text, Keyword(k).value) <==> Lowercase(text) == Lowercase(Keyword(k).value)
    {
      LowercaseSame(text, Keyword(k).value);
    }
    var lower := Lowercase(text);
    KindsOfLower(lower);
    if kind == Identifier {
      if KeywordKind(text) != Identifier {
        assert Keyword(KeywordKind(text)).Some?;
      }
    }
  }

  lemma KindsOfLower(lower: string)
    ensures forall k: Kind | k != Identifier ::
      KindOfLower(lower) == k <==> Keyword(k).Some? && lower == LowerKeyword(k)
    ensures KindOfLower(lower) != Identifier ==> Keyword(KindOfLower(lower)).Some?
  {
  }

  function LowerKeyword(kind: Kind): string {
    match kind
    case Create => "create"
    case Table => "table"
    case Index => "index"
    case On => "on"
    case Insert => "insert"
    case Into => "into"
    case Values => "values"
    case Select => "select"
    case From => "from"
    case Where => "where"
    case Int => "int"
    case Text => "text"
    case _ => ""
  }

  // ---- one word ----

  lemma {:induction false} StringFound(s: string)
    requires ScanString(s).Some?
    ensures var (text, rest) := ScanString(s).value;
      s == Doubled(text) + ['\''] + rest && (rest != [] ==> rest[0] != '\'')
    decreases |s|
  {
    hide ScanString;
    ScanSteps(s);
    var (text, rest) := ScanString(s).value;
    if s[0] != '\'' {
      StringFound(s[1..]);
      FrontOfScan(s, s[1..], s[0], [s[0]]);
    } else if |s| > 1 && s[1] == '\'' {
      StringFound(s[2..]);
      FrontOfScan(s, s[2..], '\'', ['\'', '\'']);
    } else {
      assert s == [] + ['\''] + s[1..];
    }
  }

  lemma FrontOfScan(s: string, tail: string, c: char, front: string)
    requires ScanString(tail).Some? && ScanString(s) == Also(c, ScanString(tail)) && s == front + tail
    requires front == if c == '\'' then ['\'', '\''] else [c]
    requires tail == Doubled(ScanString(tail).value.0) + ['\''] + ScanString(tail).value.1
    ensures s == Doubled(ScanString(s).value.0) + ['\''] + ScanString(s).value.1
    ensures ScanString(s).value.1 == ScanString(tail).value.1
  {
    hide ScanString;
    var (text, rest) := ScanString(tail).value;
    var more := [c] + text;
    assert more[1..] == text;
    assert Doubled(more) == front + Doubled(text);
    Regroup(front, Doubled(text), ['\''], rest);
  }

  lemma Cut(s: string, n: nat)
    requires n <= |s|
    ensures s == s[..n] + s[n..] && |s| - |s[n..]| == n
  {
  }

  lemma QuotedAt(s: string, text: string, n: nat)
    requires n <= |s| && s != [] && s[0] == '\'' && s[1..] == Doubled(text) + ['\''] + s[n..]
    ensures n == |Doubled(text)| + 2 && s[..n] == ['\''] + Doubled(text) + ['\'']
  {
    hide Doubled;
    var quoted := ['\''] + Doubled(text) + ['\''];
    HeadAndTail(s);
    Regroup(['\''], Doubled(text), ['\''], s[n..]);
    assert s == quoted + s[n..];
  }

  lemma QuotedThere(s: string, text: string, n: nat)
    requires n <= |s| && s[..n] == ['\''] + Doubled(text) + ['\'']
    ensures s != [] && s[0] == '\'' && s[1..] == Doubled(text) + ['\''] + s[n..]
  {
    hide Doubled;
    Cut(s, n);
    Regroup(['\''], Doubled(text), ['\''], s[n..]);
    assert s == ['\''] + (Doubled(text) + ['\''] + s[n..]);
    AfterQuote(Doubled(text) + ['\''] + s[n..]);
  }

  // Doubling goes character by character, and doubles quotes only.
  lemma {:induction false} DoubledExactly(a: string, b: string, c: char)
    ensures Doubled(a + b) == Doubled(a) + Doubled(b)
    ensures Doubled([c]) == if c as int == 39 then [c, c] else [c]
  {
    assert [c][1..] == [];
    if a == [] {
      assert a + b == b;
    } else {
      assert (a + b)[1..] == a[1..] + b;
      DoubledExactly(a[1..], b, c);
    }
  }

  // The next word stands at the front.
  lemma NextIsWord(s: string)
    requires s != [] && NoTriviaFirst(s) && NextWord(s).Some?
    ensures var (w, rest) := NextWord(s).value; WordAt(s, w, |s| - |rest|)
  {
    hide ScanString, Run, KeywordKind, NameKind, Doubled;
    Classes(s[0]);
    var c := s[0];
    if IsIdentifierStart(c) {
      NameFound(s);
    } else if IsDigit(c) {
      DigitsFound(s);
    } else if c == '\'' {
      TextFound(s);
    } else {
      hide IsSpace, IsIdentifierStart, IsDigit;
    }
  }

  lemma NameFound(s: string)
    requires s != [] && IsIdentifierStart(s[0])
    ensures var n := Run(s, Part());
      && 0 < n <= |s| && NextWord(s) == Some((Word(KeywordKind(s[..n]), s[..n]), s[n..]))
      && WordAt(s, Word(KeywordKind(s[..n]), s[..n]), n)
  {
    hide ScanString, KeywordKind, NameKind, Doubled, SymbolKind, Run, IsIdentifierStart, IsIdentifierPart, NameChar;
    hide DecimalDigit, NextWord, IsDigit;
    NameRun(s);
    NameNext(s);
    var n := Run(s, Part());
    KeywordExactly(s[..n], KeywordKind(s[..n]));
    NameKinds(s[..n], KeywordKind(s[..n]));
  }

  lemma NameNext(s: string)
    requires s != [] && IsIdentifierStart(s[0])
    ensures var n := Run(s, Part());
      NextWord(s) == Some((Word(KeywordKind(s[..n]), s[..n]), s[n..]))
  {
    hide ScanString, KeywordKind, SymbolKind, Run, IsIdentifierStart, IsDigit;
  }

  lemma NameRun(s: string)
    requires s != [] && IsIdentifierStart(s[0])
    ensures var n := Run(s, Part());
      && 0 < n <= |s| && !DecimalDigit(s[0]) && (forall i | 0 <= i < n :: NameChar(s[i]))
      && (n < |s| ==> !NameChar(s[n]))
  {
    Classes(s[0]);
    hide IsIdentifierStart, IsIdentifierPart, NameChar, DecimalDigit;
    var n := Run(s, Part());
    assert Part()(s[0]);
    forall i | 0 <= i < |s| ensures Part()(s[i]) <==> NameChar(s[i]) {
      Classes(s[i]);
    }
  }

  lemma NameKinds(text: string, kind: Kind)
    requires NameKind(text, kind)
    ensures Symbol(kind).None? && kind != End && kind != StringLiteral && kind != IntegerLiteral
  {
    hide SameUpToCase;
  }

  lemma DigitsFound(s: string)
    requires s != [] && IsDigit(s[0])
    ensures var n := Run(s, Digit());
      && 0 < n <= |s| && NextWord(s) == Some((Word(IntegerLiteral, s[..n]), s[n..]))
      && WordAt(s, Word(IntegerLiteral, s[..n]), n)
  {
    hide ScanString, KeywordKind, NameKind, Doubled, SymbolKind, Run, IsDigit, DecimalDigit, NextWord, NameChar;
    DigitRun(s);
    DigitFirst(s);
    IntegerNext(s, Run(s, Digit()));
  }

  lemma DigitRun(s: string)
    requires s != [] && IsDigit(s[0])
    ensures var n := Run(s, Digit());
      && 0 < n <= |s| && (forall i | 0 <= i < n :: DecimalDigit(s[i])) && (n < |s| ==> !DecimalDigit(s[n]))
  {
    hide IsDigit, DecimalDigit;
    var n := Run(s, Digit());
    assert Digit()(s[0]);
    forall i | 0 <= i < |s| ensures Digit()(s[i]) <==> DecimalDigit(s[i]) {
      Classes(s[i]);
    }
  }

  lemma TextFound(s: string)
    requires s != [] && s[0] == '\'' && ScanString(s[1..]).Some?
    ensures var (text, rest) := ScanString(s[1..]).value;
      && |rest| < |s| && rest == s[|s| - |rest|..]
      && WordAt(s, Word(StringLiteral, text), |s| - |rest|)
  {
    StringFound(s[1..]);
    var (text, rest) := ScanString(s[1..]).value;
    hide ScanString, Doubled, NameKind;
    assert rest == s[1..][|s[1..]| - |rest|..] == s[|s| - |rest|..];
    QuotedAt(s, text, |s| - |rest|);
  }

  // What stands at the front is the next word.
  lemma WordIsNext(s: string, w: Word, n: nat)
    requires WordAt(s, w, n)
    ensures s != [] && NoTriviaFirst(s) && NextWord(s) == Some((w, s[n..]))
  {
    hide ScanString, Run, KeywordKind, NameKind, Doubled, NextWord, NoTriviaFirst;
    match w.kind
    case StringLiteral => TextIsNext(s, w, n);
    case IntegerLiteral => DigitsAreNext(s, w, n);
    case _ =>
      if Symbol(w.kind).Some? {
        SymbolIsNext(s, w, n);
      } else {
        NameIsNext(s, w, n);
      }
  }

  lemma TextIsNext(s: string, w: Word, n: nat)
    requires WordAt(s, w, n) && w.kind == StringLiteral
    ensures NoTriviaFirst(s) && NextWord(s) == Some((w, s[n..]))
  {
    hide Doubled, ScanString, NameKind, Run;
    QuotedThere(s, w.text, n);
    assert s[n..] != [] ==> s[n..][0] == s[n];
    StringBack(w.text, s[n..]);
  }

  lemma DigitsAreNext(s: string, w: Word, n: nat)
    requires WordAt(s, w, n) && w.kind == IntegerLiteral
    ensures NoTriviaFirst(s) && NextWord(s) == Some((w, s[n..]))
  {
    hide ScanString, NameKind, Doubled, Run;
    forall i | 0 <= i < |s| ensures Digit()(s[i]) <==> DecimalDigit(s[i]) {
      Classes(s[i]);
    }
    RunIs(s, Digit(), n);
  }

  lemma SymbolIsNext(s: string, w: Word, n: nat)
    requires WordAt(s, w, n) && Symbol(w.kind).Some?
    ensures NoTriviaFirst(s) && NextWord(s) == Some((w, s[n..]))
  {
    hide ScanString, NameKind, Doubled, Run, KeywordKind;
    Classes(s[0]);
    SymbolFacts(s[0]);
  }

  lemma NameIsNext(s: string, w: Word, n: nat)
    requires WordAt(s, w, n) && Symbol(w.kind).None? && w.kind != StringLiteral && w.kind != IntegerLiteral
    ensures NoTriviaFirst(s) && NextWord(s) == Some((w, s[n..]))
  {
    hide ScanString, NameKind, Doubled, Run, KeywordKind;
    Classes(s[0]);
    forall i | 0 <= i < |s| ensures Part()(s[i]) <==> NameChar(s[i]) {
      Classes(s[i]);
    }
    RunIs(s, Part(), n);
    KeywordExactly(w.text, w.kind);
  }

  // ---- the whole input ----

  // What the lexer finds is a reading of the input.
  lemma {:induction false} PiecesRead(s: string)
    requires Pieces(s).Some?
    ensures Reading(s, Pieces(s).value)
    decreases |s|
  {
    hide NextWord, Trim, Pieces, Trivia, WordAt, Gap;
    var t := Trim(s);
    TrimSplits(s);
    TrimmedIsTrivia(s);
    TrimmedFront(s);
    if t == [] {
      PiecesNone(s);
    } else {
      PiecesStep(s);
      var (w, rest) := NextWord(t).value;
      NextIsWord(t);
      PiecesRead(rest);
      ReadingCons(s, t, w, rest, Pieces(rest).value);
    }
  }

  lemma TrimmedFront(s: string)
    ensures Gap(s) == s[..|s| - |Trim(s)|] && Trim(s) == s[|s| - |Trim(s)|..] && NoTriviaFirst(Trim(s))
  {
    hide Trim;
    TrimSplits(s);
    EndOf(s, |Trim(s)|);
  }

  lemma EndOf(s: string, n: nat)
    requires n <= |s|
    ensures |s[|s| - n..]| == n
  {
  }

  lemma ReadingCons(s: string, t: string, w: Word, rest: string, ps: seq<Piece>)
    requires |t| <= |s| && t == s[|s| - |t|..] && t != [] && |rest| < |t| && rest == t[|t| - |rest|..]
    requires Trivia(s[..|s| - |t|], false) && WordAt(t, w, |t| - |rest|) && Reading(rest, ps)
    ensures Reading(s, [Piece(w, |t|, |rest|)] + ps)
  {
    hide Trivia, WordAt, Reading;
    ReadingNotEmpty(rest, ps);
    PieceInFront(Piece(w, |t|, |rest|), ps);
    ReadingMore(s, [Piece(w, |t|, |rest|)] + ps, t);
  }

  lemma ReadingNotEmpty(s: string, ps: seq<Piece>)
    requires Reading(s, ps)
    ensures ps != []
  {
    hide Trivia, WordAt;
  }

  lemma PieceInFront(p: Piece, ps: seq<Piece>)
    ensures var all := [p] + ps; |all| == |ps| + 1 && all[0] == p && all[1..] == ps
  {
  }

  lemma ReadingMore(s: string, ps: seq<Piece>, t: string)
    requires |ps| > 1 && ps[0].before <= |s| && t == s[|s| - ps[0].before..] && t != []
    requires Trivia(s[..|s| - ps[0].before], false)
    requires ps[0].after < |t| && WordAt(t, ps[0].word, |t| - ps[0].after) && Reading(t[|t| - ps[0].after..], ps[1..])
    ensures Reading(s, ps)
  {
    hide Trivia, WordAt;
  }

  // Every reading of the input is what the lexer finds.
  lemma {:induction false} ReadingFound(s: string, ps: seq<Piece>)
    requires Reading(s, ps)
    ensures Pieces(s) == Some(ps)
    decreases |ps|
  {
    hide NextWord, Trim, Pieces, Trivia, WordAt, NoTriviaFirst;
    var t := s[|s| - ps[0].before..];
    Cut(s, |s| - ps[0].before);
    if |ps| == 1 {
      EndFirst();
      TriviaTrimmed(s[..|s| - ps[0].before], t);
      PiecesNone(s);
      assert ps == [ps[0]];
    } else {
      var n := |t| - ps[0].after;
      WordIsNext(t, ps[0].word, n);
      TriviaTrimmed(s[..|s| - ps[0].before], t);
      PiecesStep(s);
      ReadingFound(t[n..], ps[1..]);
      assert ps[0] == Piece(ps[0].word, |t|, |t[n..]|);
      FrontAndMore(ps);
    }
  }

  lemma FrontAndMore(ps: seq<Piece>)
    requires ps != []
    ensures [ps[0]] + ps[1..] == ps
  {
  }

  lemma EndFirst()
    ensures NoTriviaFirst([])
  {
  }
}
