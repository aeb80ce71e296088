// The SQL parser: recursive descent over the tokens of one statement, with a
// cursor that never passes the end token. It accepts exactly the sentences of
// the grammar, and reads every printed statement back as it was.
module Parsers {
  import opened Results
  import opened ByteCodec
  import opened RecordCodec
  import opened Lexers

  datatype Literal = Number(value: Int64) | Quoted(text: string)

  datatype ColumnDefinition = ColumnDefinition(name: string, kind: ColumnType)

  datatype Condition = Condition(column: string, literal: Literal)

  datatype Ast =
    | CreateTable(table: string, columns: seq<ColumnDefinition>)
    | CreateIndex(index: string, table: string, column: string)
    | InsertInto(table: string, values: seq<Literal>)
    | SelectFrom(projections: seq<string>, table: string, condition: Option<Condition>)

  // ---- integers ----

  const INT_MAX: int := 0x7FFF_FFFF_FFFF_FFFF

  function DigitValue(c: char): (d: nat)
    ensures d < 10
  {
    if IsDigit(c) then c as int - '0' as int else 0
  }

  function Decimal(s: string): nat {
    if s == [] then 0 else 10 * Decimal(s[..|s| - 1]) + DigitValue(s[|s| - 1])
  }

  function DigitChar(d: nat): (c: char)
    requires d < 10
    ensures IsDigit(c) && DigitValue(c) == d
  {
    '0' + d as char
  }

  function Digits(n: nat): (s: string)
    ensures s != [] && forall i | 0 <= i < |s| :: IsDigit(s[i])
  {
    if n < 10 then [DigitChar(n)] else Digits(n / 10) + [DigitChar(n % 10)]
  }

  lemma {:induction false} DecimalOfDigits(n: nat)
    ensures Decimal(Digits(n)) == n
  {
    var s := Digits(n);
    if n >= 10 {
      DecimalOfDigits(n / 10);
      assert s[..|s| - 1] == Digits(n / 10);
    } else {
      assert s[..0] == [];
    }
  }

  // The value of an integer literal, if it is a signed 64-bit number.
  function IntegerValue(digits: string, negative: bool): Option<Int64> {
    var size: int := Decimal(digits);
    var n: int := if negative then -size else size;
    if -INT_MAX - 1 <= n <= INT_MAX then Some(n) else None
  }

  // ---- what the numbers are, apart from how they are computed ----

  function PowerOfTen(n: nat): nat {
    if n == 0 then 1 else 10 * PowerOfTen(n - 1)
  }

  // Every digit times its power of ten.
  function DigitSum(s: string): nat {
    if s == [] then 0 else DigitValue(s[0]) * PowerOfTen(|s| - 1) + DigitSum(s[1..])
  }

  lemma DigitsInOrder(c: char)
    requires IsDigit(c)
    ensures "0123456789"[DigitValue(c)] == c
  {
  }

  lemma {:induction false} DecimalSum(s: string)
    ensures Decimal(s) == DigitSum(s)
  {
    if s != [] {
      var front, n := s[..|s| - 1], |s| - 1;
      DecimalSum(front);
      DigitSumSnoc(front, s[n]);
      assert front + [s[n]] == s;
    }
  }

  lemma {:induction false} DigitSumSnoc(s: string, c: char)
    ensures DigitSum(s + [c]) == 10 * DigitSum(s) + DigitValue(c)
  {
    if s == [] {
      assert [c][1..] == [];
      assert PowerOfTen(0) == 1;
    } else {
      var all := s + [c];
      assert all[1..] == s[1..] + [c] && all[0] == s[0];
      DigitSumSnoc(s[1..], c);
      TenTimes(DigitValue(s[0]), PowerOfTen(|s| - 1));
      assert PowerOfTen(|s|) == 10 * PowerOfTen(|s| - 1);
    }
  }

  lemma TenTimes(d: nat, p: nat)
    ensures d * (10 * p) == 10 * (d * p)
  {
  }

  // A literal has a value exactly when it is a signed 64-bit number.
  lemma IntegerExactly(digits: string)
    ensures var n: int := DigitSum(digits);
      && IntegerValue(digits, false) == (if n <= 9223372036854775807 then Some(n) else None)
      && IntegerValue(digits, true) == (if n <= 9223372036854775808 then Some(-n) else None)
  {
    DecimalSum(digits);
  }

  // ---- the grammar ----

  predicate IsName(ws: seq<Word>, name: string) {
    ws == [Word(Identifier, name)]
  }

  predicate IsLiteral(ws: seq<Word>, l: Literal) {
    || (|ws| == 1 && ws[0].kind == StringLiteral && l == Quoted(ws[0].text))
    || (|ws| == 1 && ws[0].kind == IntegerLiteral && l.Number? && IntegerValue(ws[0].text, false) == Some(l.value))
    || (|ws| == 2 && ws[0].kind == Minus && ws[1].kind == IntegerLiteral && l.Number?
        && IntegerValue(ws[1].text, true) == Some(l.value))
  }

  predicate IsColumn(ws: seq<Word>, c: ColumnDefinition) {
    && |ws| == 2 && ws[0] == Word(Identifier, c.name)
    && ws[1].kind == (if c.kind == IntType then Int else Text)
  }

  // One or more items separated by commas.
  ghost predicate IsList<T(!new)>(isItem: (seq<Word>, T) -> bool, ws: seq<Word>, items: seq<T>)
    decreases |items|
  {
    if items == [] then false
    else if |items| == 1 then isItem(ws, items[0])
    else exists k :: 0 <= k < |ws| && CommaAt(isItem, ws, items, k)
  }

  ghost predicate CommaAt<T(!new)>(isItem: (seq<Word>, T) -> bool, ws: seq<Word>, items: seq<T>, k: nat)
    requires k < |ws| && |items| > 1
    decreases |items|, 0
  {
    ws[k].kind == Comma && isItem(ws[..k], items[0]) && IsList(isItem, ws[k + 1..], items[1..])
  }

  // The given kinds at the front of the words.
  predicate StartsWith(ws: seq<Word>, kinds: seq<Kind>) {
    |kinds| <= |ws| && forall i | 0 <= i < |kinds| :: ws[i].kind == kinds[i]
  }

  function Names(): (seq<Word>, string) -> bool {
    (ws, n) => IsName(ws, n)
  }

  function Columns(): (seq<Word>, ColumnDefinition) -> bool {
    (ws, c) => IsColumn(ws, c)
  }

  function Literals(): (seq<Word>, Literal) -> bool {
    (ws, l) => IsLiteral(ws, l)
  }

  ghost predicate IsCreateTable(ws: seq<Word>, a: Ast) {
    && a.CreateTable? && |ws| > 5
    && StartsWith(ws, [Create, Table, Identifier, LeftParen]) && ws[2].text == a.table
    && ws[|ws| - 1].kind == RightParen
    && IsList(Columns(), ws[4..|ws| - 1], a.columns)
  }

  ghost predicate IsCreateIndex(ws: seq<Word>, a: Ast) {
    && a.CreateIndex? && |ws| == 8
    && StartsWith(ws, [Create, Index, Identifier, On, Identifier, LeftParen, Identifier, RightParen])
    && ws[2].text == a.index && ws[4].text == a.table && ws[6].text == a.column
  }

  ghost predicate IsInsert(ws: seq<Word>, a: Ast) {
    && a.InsertInto? && |ws| > 6
    && StartsWith(ws, [Insert, Into, Identifier, Values, LeftParen]) && ws[2].text == a.table
    && ws[|ws| - 1].kind == RightParen
    && IsList(Literals(), ws[5..|ws| - 1], a.values)
  }

  // k is where FROM stands.
  ghost predicate IsSelectAt(ws: seq<Word>, a: Ast, k: nat) {
    && a.SelectFrom? && k + 2 <= |ws| && k > 0
    && ws[0].kind == Select && ws[k].kind == From && ws[k + 1] == Word(Identifier, a.table)
    && IsList(Names(), ws[1..k], a.projections)
    && if a.condition.None? then |ws| == k + 2
       else
         && |ws| > k + 5
         && ws[k + 2].kind == Where && ws[k + 3] == Word(Identifier, a.condition.value.column)
         && ws[k + 4].kind == Equal && IsLiteral(ws[k + 5..], a.condition.value.literal)
  }

  ghost predicate IsStatement(ws: seq<Word>, a: Ast) {
    IsCreateTable(ws, a) || IsCreateIndex(ws, a) || IsInsert(ws, a) || exists k :: IsSelectAt(ws, a, k)
  }

  // A statement, an optional semicolon, and the end.
  ghost predicate IsSentence(ws: seq<Word>, a: Ast) {
    && ws != [] && ws[|ws| - 1].kind == End
    && var body := ws[..|ws| - 1];
       IsStatement(body, a) ||
       (body != [] && body[|body| - 1].kind == Semicolon && IsStatement(body[..|body| - 1], a))
  }

  // ---- what the cursor computes, on the rest of the tokens ----

  type Parsed<T> = Option<(T, seq<Word>)>

  function Skip(ws: seq<Word>, kind: Kind): Option<seq<Word>> {
    if ws != [] && ws[0].kind == kind then Some(ws[1..]) else None
  }

  function ParseName(ws: seq<Word>): Parsed<string> {
    if ws != [] && ws[0].kind == Identifier then Some((ws[0].text, ws[1..])) else None
  }

  function ParseInteger(ws: seq<Word>, negative: bool): Parsed<Literal> {
    if ws == [] || ws[0].kind != IntegerLiteral then None
    else
      match IntegerValue(ws[0].text, negative)
      case None => None
      case Some(v) => Some((Number(v), ws[1..]))
  }

  function ParseLiteral(ws: seq<Word>): Parsed<Literal> {
    if ws == [] then None
    else if ws[0].kind == Minus then ParseInteger(ws[1..], true)
    else if ws[0].kind == StringLiteral then Some((Quoted(ws[0].text), ws[1..]))
    else ParseInteger(ws, false)
  }

  function ParseColumn(ws: seq<Word>): Parsed<ColumnDefinition> {
    if |ws| < 2 || ws[0].kind != Identifier then None
    else if ws[1].kind == Int then Some((ColumnDefinition(ws[0].text, IntType), ws[2..]))
    else if ws[1].kind == Text then Some((ColumnDefinition(ws[0].text, TextType), ws[2..]))
    else None
  }

  function InFrontOf<T>(items: seq<T>, r: Parsed<seq<T>>): Parsed<seq<T>> {
    match r
    case None => None
    case Some((more, rest)) => Some((items + more, rest))
  }

  // Items up to the first one that no comma follows.
  function ParseList<T>(item: seq<Word> -> Parsed<T>, ws: seq<Word>): Parsed<seq<T>>
    decreases |ws|
  {
    match item(ws)
    case None => None
    case Some((x, rest)) =>
      if rest != [] && rest[0].kind == Comma && |rest| <= |ws| then InFrontOf([x], ParseList(item, rest[1..]))
      else Some(([x], rest))
  }

  function NameParser(): seq<Word> -> Parsed<string> {
    ws => ParseName(ws)
  }

  function ColumnParser(): seq<Word> -> Parsed<ColumnDefinition> {
    ws => ParseColumn(ws)
  }

  function LiteralParser(): seq<Word> -> Parsed<Literal> {
    ws => ParseLiteral(ws)
  }

  // After CREATE TABLE.
  function ParseCreateTable(ws: seq<Word>): Parsed<Ast> {
    match ParseName(ws)
    case None => None
    case Some((table, rest)) =>
      match Skip(rest, LeftParen)
      case None => None
      case Some(inner) =>
        match ParseList(ColumnParser(), inner)
        case None => None
        case Some((columns, after)) =>
          match Skip(after, RightParen)
          case None => None
          case Some(end) => Some((CreateTable(table, columns), end))
  }

  // After CREATE INDEX.
  function ParseCreateIndex(ws: seq<Word>): Parsed<Ast> {
    if StartsWith(ws, [Identifier, On, Identifier, LeftParen, Identifier, RightParen]) then
      Some((CreateIndex(ws[0].text, ws[2].text, ws[4].text), ws[6..]))
    else None
  }

  // After INSERT.
  function ParseInsert(ws: seq<Word>): Parsed<Ast> {
    if !StartsWith(ws, [Into, Identifier, Values, LeftParen]) then None
    else
      match ParseList(LiteralParser(), ws[4..])
      case None => None
      case Some((values, after)) =>
        match Skip(after, RightParen)
        case None => None
        case Some(end) => Some((InsertInto(ws[1].text, values), end))
  }

  function ParseCondition(ws: seq<Word>): Parsed<Condition> {
    if !StartsWith(ws, [Identifier, Equal]) then None
    else
      match ParseLiteral(ws[2..])
      case None => None
      case Some((l, rest)) => Some((Condition(ws[0].text, l), rest))
  }

  // After SELECT.
  function ParseSelect(ws: seq<Word>): Parsed<Ast> {
    match ParseList(NameParser(), ws)
    case None => None
    case Some((projections, rest)) =>
      if !StartsWith(rest, [From, Identifier]) then None
      else
        var table, tail := rest[1].text, rest[2..];
        match Skip(tail, Where)
        case None => Some((SelectFrom(projections, table, None), tail))
        case Some(inner) =>
          match ParseCondition(inner)
          case None => None
          case Some((c, end)) => Some((SelectFrom(projections, table, Some(c)), end))
  }

  function ParseStatement(ws: seq<Word>): Parsed<Ast> {
    if StartsWith(ws, [Create, Table]) then ParseCreateTable(ws[2..])
    else if StartsWith(ws, [Create, Index]) then ParseCreateIndex(ws[2..])
    else if StartsWith(ws, [Insert]) then ParseInsert(ws[1..])
    else if StartsWith(ws, [Select]) then ParseSelect(ws[1..])
    else None
  }

  function ParseWords(ws: seq<Word>): Result<Ast> {
    match ParseStatement(ws)
    case None => Err(Syntax)
    case Some((a, rest)) =>
      var last := if rest != [] && rest[0].kind == Semicolon then rest[1..] else rest;
      if last != [] && last[0].kind == End then Ok(a) else Err(Syntax)
  }

  // ---- lists ----

  // What an item parser takes is an item.
  ghost predicate ItemSound<T(!new)>(item: seq<Word> -> Parsed<T>, isItem: (seq<Word>, T) -> bool) {
    forall ws :: item(ws).Some? ==> Takes(ws, item(ws).value, isItem)
  }

  ghost predicate Takes<T>(ws: seq<Word>, r: (T, seq<Word>), isItem: (seq<Word>, T) -> bool) {
    |r.1| < |ws| && ws == ws[..|ws| - |r.1|] + r.1 && isItem(ws[..|ws| - |r.1|], r.0)
  }

  // An item in front of other words is what its parser takes.
  ghost predicate ItemComplete<T(!new)>(item: seq<Word> -> Parsed<T>, isItem: (seq<Word>, T) -> bool) {
    forall c, x, rest :: isItem(c, x) && rest != [] ==> item(c + rest) == Some((x, rest))
  }

  lemma NamesExact()
    ensures ItemSound(NameParser(), Names()) && ItemComplete(NameParser(), Names())
  {
    forall ws | NameParser()(ws).Some? ensures Takes(ws, NameParser()(ws).value, Names()) {
      assert ws == ws[..1] + ws[1..];
    }
    forall c, x, rest | Names()(c, x) && rest != [] ensures NameParser()(c + rest) == Some((x, rest)) {
      assert (c + rest)[1..] == rest;
    }
  }

  lemma ColumnsExact()
    ensures ItemSound(ColumnParser(), Columns()) && ItemComplete(ColumnParser(), Columns())
  {
    forall ws | ColumnParser()(ws).Some? ensures Takes(ws, ColumnParser()(ws).value, Columns()) {
      assert ws == ws[..2] + ws[2..];
    }
    forall c, x, rest | Columns()(c, x) && rest != [] ensures ColumnParser()(c + rest) == Some((x, rest)) {
      assert (c + rest)[2..] == rest;
    }
  }

  lemma LiteralTaken(ws: seq<Word>)
    requires ParseLiteral(ws).Some?
    ensures Takes(ws, ParseLiteral(ws).value, Literals())
  {
    hide IntegerValue;
    var n := if ws[0].kind == Minus then 2 else 1;
    assert ws == ws[..n] + ws[n..];
    if n == 2 {
      assert ws[1..][1..] == ws[2..];
    }
  }

  lemma LiteralRead(c: seq<Word>, l: Literal, rest: seq<Word>)
    requires IsLiteral(c, l)
    ensures ParseLiteral(c + rest) == Some((l, rest))
  {
    hide IntegerValue;
    var ws := c + rest;
    assert ws[|c|..] == rest && ws[0] == c[0];
    if |c| == 2 {
      assert ws[1..][0] == c[1] && ws[1..][1..] == ws[2..];
    }
  }

  lemma LiteralsExact()
    ensures ItemSound(LiteralParser(), Literals()) && ItemComplete(LiteralParser(), Literals())
  {
    hide IsLiteral, ParseLiteral;
    forall ws | LiteralParser()(ws).Some? ensures Takes(ws, LiteralParser()(ws).value, Literals()) {
      LiteralTaken(ws);
    }
    forall c, x, rest | Literals()(c, x) && rest != [] ensures LiteralParser()(c + rest) == Some((x, rest)) {
      LiteralRead(c, x, rest);
    }
  }

  lemma ListStep<T>(item: seq<Word> -> Parsed<T>, ws: seq<Word>)
    requires item(ws).Some? && |item(ws).value.1| < |ws|
    ensures var (x, rest) := item(ws).value;
      ParseList(item, ws) ==
        if rest != [] && rest[0].kind == Comma then InFrontOf([x], ParseList(item, rest[1..])) else Some(([x], rest))
  {
  }

  lemma OneItem<T(!new)>(isItem: (seq<Word>, T) -> bool, ws: seq<Word>, x: T)
    requires isItem(ws, x)
    ensures IsList(isItem, ws, [x])
  {
  }

  lemma MoreItems<T(!new)>(isItem: (seq<Word>, T) -> bool, c: seq<Word>, comma: Word, d: seq<Word>, x: T, items: seq<T>)
    requires isItem(c, x) && comma.kind == Comma && IsList(isItem, d, items)
    ensures IsList(isItem, c + [comma] + d, [x] + items)
  {
    var ws, all := c + [comma] + d, [x] + items;
    assert ws[..|c|] == c && ws[|c|] == comma && ws[|c| + 1..] == d && all[1..] == items;
    assert CommaAt(isItem, ws, all, |c|);
  }

  lemma {:induction false} ListSound<T(!new)>(item: seq<Word> -> Parsed<T>, isItem: (seq<Word>, T) -> bool, ws: seq<Word>)
    requires ItemSound(item, isItem) && ParseList(item, ws).Some?
    ensures var (items, rest) := ParseList(item, ws).value;
      && |rest| < |ws| && ws == ws[..|ws| - |rest|] + rest
      && IsList(isItem, ws[..|ws| - |rest|], items)
      && (rest == [] || rest[0].kind != Comma)
    decreases |ws|
  {
    hide ParseList, IsList;
    FirstItem(item, ws);
    var (x, after) := item(ws).value;
    assert Takes(ws, item(ws).value, isItem);
    ListStep(item, ws);
    var c := ws[..|ws| - |after|];
    if after != [] && after[0].kind == Comma {
      ListSound(item, isItem, after[1..]);
      var (items, rest) := ParseList(item, after[1..]).value;
      var d := after[1..][..|after[1..]| - |rest|];
      MoreItems(isItem, c, after[0], d, x, items);
      Split3(ws, c, after, d, rest);
    } else {
      OneItem(isItem, c, x);
    }
  }

  lemma FirstItem<T>(item: seq<Word> -> Parsed<T>, ws: seq<Word>)
    requires ParseList(item, ws).Some?
    ensures item(ws).Some?
  {
  }

  lemma Split3(ws: seq<Word>, c: seq<Word>, after: seq<Word>, d: seq<Word>, rest: seq<Word>)
    requires ws == c + after && after != [] && after[1..] == d + rest
    ensures |rest| < |ws| && ws[..|ws| - |rest|] == c + [after[0]] + d && ws == ws[..|ws| - |rest|] + rest
  {
    assert after == [after[0]] + d + rest;
    assert ws == c + [after[0]] + d + rest;
  }

  lemma {:induction false} ListComplete<T(!new)>(item: seq<Word> -> Parsed<T>, isItem: (seq<Word>, T) -> bool,
                                                 c: seq<Word>, items: seq<T>, rest: seq<Word>)
    requires ItemComplete(item, isItem) && ItemSound(item, isItem)
    requires IsList(isItem, c, items) && rest != [] && rest[0].kind != Comma
    ensures ParseList(item, c + rest) == Some((items, rest))
    decreases |items|
  {
    hide ParseList;
    if |items| == 1 {
      assert isItem(c, items[0]);
      assert item(c + rest) == Some((items[0], rest));
      assert Takes(c + rest, item(c + rest).value, isItem);
      ListStep(item, c + rest);
      assert items == [items[0]];
    } else {
      var k :| 0 <= k < |c| && CommaAt(isItem, c, items, k);
      ListComplete(item, isItem, c[k + 1..], items[1..], rest);
      var tail := [c[k]] + (c[k + 1..] + rest);
      assert c + rest == c[..k] + tail;
      assert item(c[..k] + tail) == Some((items[0], tail));
      assert Takes(c + rest, item(c + rest).value, isItem);
      ListStep(item, c + rest);
      assert tail[1..] == c[k + 1..] + rest;
      assert [items[0]] + items[1..] == items;
    }
  }

  // ---- statements ----

  lemma SplitFront(ws: seq<Word>, n: nat)
    requires n <= |ws|
    ensures ws == ws[..n] + ws[n..]
  {
  }

  // What is left of the words after a statement, and what was taken.
  ghost predicate TakesStatement(ws: seq<Word>, r: (Ast, seq<Word>)) {
    |r.1| <= |ws| && ws == ws[..|ws| - |r.1|] + r.1 && IsStatement(ws[..|ws| - |r.1|], r.0)
  }

  // A list in brackets behind n words.
  lemma Bracketed(ws: seq<Word>, n: nat, list: seq<Word>, after: seq<Word>, end: seq<Word>)
    requires n <= |ws| && ws[n..] == list + after && after != [] && end == after[1..]
    ensures var c := ws[..|ws| - |end|];
      && |c| == n + |list| + 1 && ws == c + end
      && c[n..|c| - 1] == list && c[|c| - 1] == after[0]
      && forall i | 0 <= i < n :: c[i] == ws[i]
  {
    var c := ws[..|ws| - |end|];
    assert ws == ws[..n] + (list + after);
    assert after == [after[0]] + end;
    assert c == ws[..n] + list + [after[0]];
  }

  lemma CreateTableSound(ws: seq<Word>)
    requires StartsWith(ws, [Create, Table]) && ParseCreateTable(ws[2..]).Some?
    ensures TakesStatement(ws, ParseCreateTable(ws[2..]).value)
  {
    hide ParseList, IsList, ItemSound, ItemComplete;
    ColumnsExact();
    var body := ws[2..];
    var (a, end) := ParseCreateTable(body).value;
    var inner := body[2..];
    assert body[1..][1..] == inner;
    ListSound(ColumnParser(), Columns(), inner);
    var (columns, after) := ParseList(ColumnParser(), inner).value;
    var list := inner[..|inner| - |after|];
    Bracketed(ws, 4, list, after, end);
    ListNotEmpty(Columns(), list, columns);
    assert IsCreateTable(ws[..|ws| - |end|], a);
  }

  // A list of items takes at least one word when an item does.
  lemma ListNotEmpty<T(!new)>(isItem: (seq<Word>, T) -> bool, ws: seq<Word>, items: seq<T>)
    requires IsList(isItem, ws, items) && forall c, x :: isItem(c, x) ==> c != []
    ensures ws != []
  {
  }

  lemma CreateTableComplete(c: seq<Word>, a: Ast, rest: seq<Word>)
    requires IsCreateTable(c, a)
    ensures StartsWith(c + rest, [Create, Table]) && ParseCreateTable((c + rest)[2..]) == Some((a, rest))
  {
    hide ParseList, IsList, ItemSound, ItemComplete;
    ColumnsExact();
    var ws := c + rest;
    var list, tail := c[4..|c| - 1], [c[|c| - 1]] + rest;
    assert c == c[..4] + list + [c[|c| - 1]];
    assert ws == c[..4] + (list + tail);
    ListComplete(ColumnParser(), Columns(), list, a.columns, tail);
    assert ws[2..][2..] == list + tail && ws[2..][1..][1..] == list + tail;
    assert tail[1..] == rest;
  }

  lemma CreateIndexSound(ws: seq<Word>)
    requires StartsWith(ws, [Create, Index]) && ParseCreateIndex(ws[2..]).Some?
    ensures TakesStatement(ws, ParseCreateIndex(ws[2..]).value)
  {
    assert ws[2..][6..] == ws[8..];
    SplitFront(ws, 8);
    assert forall i | 2 <= i < 8 :: ws[i] == ws[2..][i - 2];
    assert IsCreateIndex(ws[..8], ParseCreateIndex(ws[2..]).value.0);
  }

  lemma CreateIndexComplete(c: seq<Word>, a: Ast, rest: seq<Word>)
    requires IsCreateIndex(c, a)
    ensures StartsWith(c + rest, [Create, Index]) && ParseCreateIndex((c + rest)[2..]) == Some((a, rest))
  {
    var ws := c + rest;
    assert ws[2..][6..] == rest;
    assert forall i | 2 <= i < 8 :: c[i] == ws[2..][i - 2];
  }

  lemma InsertSound(ws: seq<Word>)
    requires StartsWith(ws, [Insert]) && ParseInsert(ws[1..]).Some?
    ensures TakesStatement(ws, ParseInsert(ws[1..]).value)
  {
    hide ParseList, IsList, ItemSound, ItemComplete, IntegerValue, ParseLiteral;
    LiteralsExact();
    var (a, end) := ParseInsert(ws[1..]).value;
    var inner := ws[5..];
    assert ws[1..][4..] == inner;
    assert forall i | 1 <= i < 5 :: ws[i] == ws[1..][i - 1];
    ListSound(LiteralParser(), Literals(), inner);
    var (values, after) := ParseList(LiteralParser(), inner).value;
    var list := inner[..|inner| - |after|];
    Bracketed(ws, 5, list, after, end);
    ListNotEmpty(Literals(), list, values);
    assert IsInsert(ws[..|ws| - |end|], a);
  }

  lemma InsertComplete(c: seq<Word>, a: Ast, rest: seq<Word>)
    requires IsInsert(c, a)
    ensures StartsWith(c + rest, [Insert]) && ParseInsert((c + rest)[1..]) == Some((a, rest))
  {
    hide ParseList, IsList, ItemSound, ItemComplete;
    LiteralsExact();
    var ws := c + rest;
    var list, tail := c[5..|c| - 1], [c[|c| - 1]] + rest;
    assert c == c[..5] + list + [c[|c| - 1]];
    assert ws == c[..5] + (list + tail);
    ListComplete(LiteralParser(), Literals(), list, a.values, tail);
    assert ws[1..][4..] == list + tail;
    assert forall i | 1 <= i < 5 :: c[i] == ws[1..][i - 1];
    assert tail[1..] == rest;
  }

  lemma ConditionSound(ws: seq<Word>)
    requires ParseCondition(ws).Some?
    ensures var (c, rest) := ParseCondition(ws).value;
      && |rest| + 2 < |ws| && ws == ws[..|ws| - |rest|] + rest
      && ws[0] == Word(Identifier, c.column) && ws[1].kind == Equal
      && IsLiteral(ws[2..|ws| - |rest|], c.literal)
  {
    hide IsLiteral, ParseLiteral;
    LiteralTaken(ws[2..]);
    var (c, rest) := ParseCondition(ws).value;
    SplitFront(ws, 2);
    assert ws[2..] == ws[2..|ws| - |rest|] + rest;
  }

  // FROM, a name and perhaps a condition, behind k words.
  lemma SelectTail(ws: seq<Word>, k: nat, projections: seq<string>)
    requires 0 < k <= |ws| && ws[0].kind == Select && IsList(Names(), ws[1..k], projections)
    requires StartsWith(ws[k..], [From, Identifier])
    ensures var tail := ws[k + 2..];
      && (Skip(tail, Where).None? ==>
            IsSelectAt(ws[..k + 2], SelectFrom(projections, ws[k + 1].text, None), k))
      && (Skip(tail, Where).Some? && ParseCondition(Skip(tail, Where).value).Some? ==>
            var (c, end) := ParseCondition(Skip(tail, Where).value).value;
            && |end| < |ws|
            && IsSelectAt(ws[..|ws| - |end|], SelectFrom(projections, ws[k + 1].text, Some(c)), k)
            && ws == ws[..|ws| - |end|] + end)
  {
    hide IsList, ParseCondition, IsLiteral;
    assert ws[k..][0] == ws[k] && ws[k..][1] == ws[k + 1];
    var tail := ws[k + 2..];
    assert ws[..k + 2][1..k] == ws[1..k];
    if Skip(tail, Where).Some? {
      var inner := ws[k + 3..];
      assert tail[1..] == inner;
      if ParseCondition(inner).Some? {
        ConditionSound(inner);
        var end := ParseCondition(inner).value.1;
        var c := ws[..|ws| - |end|];
        assert c[k + 5..] == inner[2..|inner| - |end|] && c[1..k] == ws[1..k];
        assert c[k + 3] == inner[0] && c[k + 4] == inner[1];
        assert ws == ws[..k + 3] + inner;
        assert ws == c + end;
      }
    }
  }

  lemma SelectSound(ws: seq<Word>)
    requires StartsWith(ws, [Select]) && ParseSelect(ws[1..]).Some?
    ensures TakesStatement(ws, ParseSelect(ws[1..]).value)
  {
    hide ParseList, IsList, ItemSound, ItemComplete, ParseCondition, IsLiteral, IsSelectAt, Skip;
    NamesExact();
    var body := ws[1..];
    ListSound(NameParser(), Names(), body);
    var (names, rest) := ParseList(NameParser(), body).value;
    var k := |ws| - |rest|;
    FrontAndRest(ws, rest);
    SelectTail(ws, k, names);
  }

  lemma FrontAndRest(ws: seq<Word>, rest: seq<Word>)
    requires ws != [] && |rest| < |ws[1..]| && ws[1..] == ws[1..][..|ws| - 1 - |rest|] + rest
    ensures var k := |ws| - |rest|;
      && ws[1..][..|ws| - 1 - |rest|] == ws[1..k] && ws[k..] == rest
      && (|rest| > 1 ==> ws[k + 1] == rest[1] && rest[2..] == ws[k + 2..] && ws == ws[..k + 2] + ws[k + 2..])
  {
  }

  lemma SelectComplete(c: seq<Word>, a: Ast, k: nat, rest: seq<Word>)
    requires IsSelectAt(c, a, k) && rest != [] && rest[0].kind != Where
    ensures StartsWith(c + rest, [Select]) && ParseSelect((c + rest)[1..]) == Some((a, rest))
  {
    hide ParseList, IsList, ItemSound, ItemComplete, ParseLiteral, IsLiteral;
    NamesExact();
    var ws := c + rest;
    var list, tail := c[1..k], c[k..] + rest;
    assert ws[1..] == list + tail;
    ListComplete(NameParser(), Names(), list, a.projections, tail);
    assert tail[2..] == c[k + 2..] + rest;
    if a.condition.Some? {
      var inner := tail[3..];
      assert tail[2..][1..] == inner && inner == c[k + 3..] + rest;
      assert inner[2..] == c[k + 5..] + rest;
      LiteralRead(c[k + 5..], a.condition.value.literal, rest);
    } else {
      assert tail[2..] == rest;
    }
  }

  lemma StatementSound(ws: seq<Word>)
    requires ParseStatement(ws).Some?
    ensures TakesStatement(ws, ParseStatement(ws).value)
  {
    hide TakesStatement, ParseCreateTable, ParseCreateIndex, ParseInsert, ParseSelect;
    if StartsWith(ws, [Create, Table]) {
      CreateTableSound(ws);
    } else if StartsWith(ws, [Create, Index]) {
      CreateIndexSound(ws);
    } else if StartsWith(ws, [Insert]) {
      InsertSound(ws);
    } else {
      SelectSound(ws);
    }
  }

  lemma StatementComplete(c: seq<Word>, a: Ast, rest: seq<Word>)
    requires IsStatement(c, a) && rest != [] && rest[0].kind != Where
    ensures ParseStatement(c + rest) == Some((a, rest))
  {
    hide IsCreateTable, IsCreateIndex, IsInsert, IsSelectAt, ParseCreateTable, ParseCreateIndex, ParseInsert, ParseSelect;
    if IsCreateTable(c, a) {
      CreateTableComplete(c, a, rest);
    } else if IsCreateIndex(c, a) {
      CreateIndexComplete(c, a, rest);
      OneStart(c + rest);
    } else if IsInsert(c, a) {
      InsertComplete(c, a, rest);
      OneStart(c + rest);
    } else {
      var k :| IsSelectAt(c, a, k);
      SelectComplete(c, a, k, rest);
      OneStart(c + rest);
    }
  }

  // A statement starts in one way only.
  lemma OneStart(ws: seq<Word>)
    ensures StartsWith(ws, [Create, Index]) ==> !StartsWith(ws, [Create, Table])
    ensures StartsWith(ws, [Insert]) ==> !StartsWith(ws, [Create, Table]) && !StartsWith(ws, [Create, Index])
    ensures StartsWith(ws, [Select]) ==>
      !StartsWith(ws, [Create, Table]) && !StartsWith(ws, [Create, Index]) && !StartsWith(ws, [Insert])
  {
    assert StartsWith(ws, [Create, Table]) ==> ws[0].kind == [Create, Table][0] && ws[1].kind == [Create, Table][1];
    assert StartsWith(ws, [Create, Index]) ==> ws[0].kind == [Create, Index][0] && ws[1].kind == [Create, Index][1];
    assert StartsWith(ws, [Insert]) ==> ws[0].kind == [Insert][0];
    assert StartsWith(ws, [Select]) ==> ws[0].kind == [Select][0];
  }

  // The end token stands at the end and nowhere else.
  ghost predicate Ended(ws: seq<Word>) {
    ws != [] && forall i | 0 <= i < |ws| :: ws[i].kind == End <==> i == |ws| - 1
  }

  lemma AcceptedIsSentence(ws: seq<Word>, a: Ast)
    requires Ended(ws) && ParseWords(ws) == Ok(a)
    ensures IsSentence(ws, a)
  {
    hide ParseStatement, IsStatement;
    StatementSound(ws);
    var rest := ParseStatement(ws).value.1;
    var n, m := |ws| - 1, |ws| - |rest|;
    assert forall i | 0 <= i < |rest| :: rest[i] == ws[m + i];
    if rest[0].kind == Semicolon {
      assert rest[1] == ws[m + 1] && rest[1..][0] == rest[1];
      assert ws[..n][..n - 1] == ws[..m];
    } else {
      assert ws[..n] == ws[..m];
    }
  }

  lemma SentenceIsAccepted(ws: seq<Word>, a: Ast)
    requires Ended(ws) && IsSentence(ws, a)
    ensures ParseWords(ws) == Ok(a)
  {
    hide ParseStatement, IsStatement;
    var n := |ws| - 1;
    var body := ws[..n];
    if IsStatement(body, a) {
      assert ws == body + [ws[n]];
      StatementComplete(body, a, [ws[n]]);
    } else {
      var rest := [ws[n - 1], ws[n]];
      assert ws == body[..n - 1] + rest;
      StatementComplete(body[..n - 1], a, rest);
      assert rest[1..] == [ws[n]];
    }
  }

  // The parser accepts exactly the sentences of the grammar.
  lemma AcceptsExactly(ws: seq<Word>, a: Ast)
    requires Ended(ws)
    ensures ParseWords(ws) == Ok(a) <==> IsSentence(ws, a)
  {
    hide ParseWords, IsSentence;
    if ParseWords(ws) == Ok(a) {
      AcceptedIsSentence(ws, a);
    }
    if IsSentence(ws, a) {
      SentenceIsAccepted(ws, a);
    }
  }

  // ---- printing ----

  function LiteralWords(l: Literal): seq<Word> {
    match l
    case Quoted(text) => [Word(StringLiteral, text)]
    case Number(v) =>
      var n: int := v;
      if n < 0 then [Word(Minus, "-"), Word(IntegerLiteral, Digits(-n))] else [Word(IntegerLiteral, Digits(n))]
  }

  function NameWords(name: string): seq<Word> {
    [Word(Identifier, name)]
  }

  function ColumnWords(c: ColumnDefinition): seq<Word> {
    [Word(Identifier, c.name), if c.kind == IntType then Word(Int, "INT") else Word(Text, "TEXT")]
  }

  function ListWords<T>(words: T -> seq<Word>, items: seq<T>): seq<Word> {
    if items == [] then []
    else if |items| == 1 then words(items[0])
    else words(items[0]) + [Word(Comma, ",")] + ListWords(words, items[1..])
  }

  function ConditionWords(c: Option<Condition>): seq<Word> {
    match c
    case None => []
    case Some(Condition(column, l)) =>
      [Word(Where, "WHERE"), Word(Identifier, column), Word(Equal, "=")] + LiteralWords(l)
  }

  // A statement as its printer writes it.
  function AstWords(a: Ast): seq<Word> {
    match a
    case CreateTable(table, columns) =>
      [Word(Create, "CREATE"), Word(Table, "TABLE"), Word(Identifier, table), Word(LeftParen, "(")] +
      ListWords(c => ColumnWords(c), columns) + [Word(RightParen, ")")]
    case CreateIndex(index, table, column) =>
      [Word(Create, "CREATE"), Word(Index, "INDEX"), Word(Identifier, index), Word(On, "ON"), Word(Identifier, table),
       Word(LeftParen, "("), Word(Identifier, column), Word(RightParen, ")")]
    case InsertInto(table, values) =>
      [Word(Insert, "INSERT"), Word(Into, "INTO"), Word(Identifier, table), Word(Values, "VALUES"), Word(LeftParen, "(")] +
      ListWords(l => LiteralWords(l), values) + [Word(RightParen, ")")]
    case SelectFrom(projections, table, condition) =>
      [Word(Select, "SELECT")] + ListWords(n => NameWords(n), projections) +
      [Word(From, "FROM"), Word(Identifier, table)] + ConditionWords(condition)
  }

  // Names that are identifiers and not keywords, and no empty list.
  predicate NameOk(name: string) {
    WordOk(Word(Identifier, name))
  }

  predicate AstOk(a: Ast) {
    match a
    case CreateTable(table, columns) =>
      NameOk(table) && columns != [] && forall i | 0 <= i < |columns| :: NameOk(columns[i].name)
    case CreateIndex(index, table, column) => NameOk(index) && NameOk(table) && NameOk(column)
    case InsertInto(table, values) => NameOk(table) && values != []
    case SelectFrom(projections, table, condition) =>
      && NameOk(table) && projections != [] && (forall i | 0 <= i < |projections| :: NameOk(projections[i]))
      && (condition.Some? ==> NameOk(condition.value.column))
  }

  lemma LiteralPrinted(l: Literal)
    ensures IsLiteral(LiteralWords(l), l)
    ensures forall i | 0 <= i < |LiteralWords(l)| :: WordOk(LiteralWords(l)[i])
  {
    if l.Number? {
      var n: int := l.value;
      DecimalOfDigits(if n < 0 then -n else n);
    }
  }

  ghost predicate AllOk(ws: seq<Word>) {
    forall i | 0 <= i < |ws| :: WordOk(ws[i])
  }

  lemma {:induction false} ListPrinted<T(!new)>(words: T -> seq<Word>, isItem: (seq<Word>, T) -> bool, items: seq<T>)
    requires items != [] && forall i | 0 <= i < |items| :: isItem(words(items[i]), items[i]) && AllOk(words(items[i]))
    ensures IsList(isItem, ListWords(words, items), items) && AllOk(ListWords(words, items))
  {
    hide WordOk, IsList;
    if |items| == 1 {
      assert items == [items[0]];
      OneItem(isItem, words(items[0]), items[0]);
    } else {
      ListPrinted(words, isItem, items[1..]);
      MoreItems(isItem, words(items[0]), Word(Comma, ","), ListWords(words, items[1..]), items[0], items[1..]);
      assert [items[0]] + items[1..] == items;
      CommaOk();
    }
  }

  lemma CommaOk()
    ensures WordOk(Word(Comma, ","))
  {
  }

  // An upper-case spelling of a keyword.
  lemma Spelled(text: string, lower: string, kind: Kind)
    requires |text| == |lower| && text != [] && forall i | 0 <= i < |text| :: 'A' <= text[i] <= 'Z' && LowerChar(text[i]) == lower[i]
    requires KindOfLower(lower) == kind && kind != Identifier
    ensures WordOk(Word(kind, text))
  {
    assert Lowercase(text) == lower;
    hide Lowercase, KindOfLower;
    KeywordKindsOnly(lower);
  }

  lemma KeywordKindsOnly(lower: string)
    ensures var kind := KindOfLower(lower);
      kind != End && kind != IntegerLiteral && kind != StringLiteral && kind != Comma && kind != LeftParen
      && kind != RightParen && kind != Semicolon && kind != Equal && kind != Minus
  {
  }

  lemma DefinitionWordsOk()
    ensures WordOk(Word(Create, "CREATE")) && WordOk(Word(Table, "TABLE")) && WordOk(Word(Index, "INDEX"))
    ensures WordOk(Word(On, "ON")) && WordOk(Word(Int, "INT")) && WordOk(Word(Text, "TEXT"))
  {
    hide WordOk;
    Spelled("CREATE", "create", Create);
    Spelled("TABLE", "table", Table);
    Spelled("INDEX", "index", Index);
    Spelled("ON", "on", On);
    Spelled("INT", "int", Int);
    Spelled("TEXT", "text", Text);
  }

  lemma StatementWordsOk()
    ensures WordOk(Word(Insert, "INSERT")) && WordOk(Word(Into, "INTO")) && WordOk(Word(Values, "VALUES"))
    ensures WordOk(Word(Select, "SELECT")) && WordOk(Word(From, "FROM")) && WordOk(Word(Where, "WHERE"))
  {
    hide WordOk;
    Spelled("INSERT", "insert", Insert);
    Spelled("INTO", "into", Into);
    Spelled("VALUES", "values", Values);
    Spelled("SELECT", "select", Select);
    Spelled("FROM", "from", From);
    Spelled("WHERE", "where", Where);
  }

  lemma SymbolsOk()
    ensures WordOk(Word(LeftParen, "(")) && WordOk(Word(RightParen, ")")) && WordOk(Word(Equal, "="))
  {
  }

  lemma AllOkAppend(a: seq<Word>, b: seq<Word>)
    requires AllOk(a) && AllOk(b)
    ensures AllOk(a + b)
  {
    hide WordOk;
  }

  lemma CreateTablePrinted(a: Ast)
    requires a.CreateTable? && AstOk(a)
    ensures IsStatement(AstWords(a), a) && AllOk(AstWords(a))
  {
    hide WordOk, IsList, ListWords;
    DefinitionWordsOk();
    SymbolsOk();
    var words: ColumnDefinition -> seq<Word> := c => ColumnWords(c);
    ListPrinted(words, Columns(), a.columns);
    var front := [Word(Create, "CREATE"), Word(Table, "TABLE"), Word(Identifier, a.table), Word(LeftParen, "(")];
    var list, close := ListWords(words, a.columns), [Word(RightParen, ")")];
    ListNotEmpty(Columns(), list, a.columns);
    AllOkAppend(front, list);
    AllOkAppend(front + list, close);
    assert AstWords(a) == front + list + close;
    var ws := front + list + close;
    assert ws[4..|ws| - 1] == list;
    assert IsCreateTable(ws, a);
  }

  lemma CreateIndexPrinted(a: Ast)
    requires a.CreateIndex? && AstOk(a)
    ensures IsStatement(AstWords(a), a) && AllOk(AstWords(a))
  {
    hide WordOk;
    DefinitionWordsOk();
    SymbolsOk();
    assert IsCreateIndex(AstWords(a), a);
  }

  lemma InsertPrinted(a: Ast)
    requires a.InsertInto? && AstOk(a)
    ensures IsStatement(AstWords(a), a) && AllOk(AstWords(a))
  {
    hide WordOk, IsList, ListWords, LiteralWords, IsLiteral;
    StatementWordsOk();
    SymbolsOk();
    var words: Literal -> seq<Word> := l => LiteralWords(l);
    forall i | 0 <= i < |a.values| ensures Literals()(words(a.values[i]), a.values[i]) && AllOk(words(a.values[i])) {
      LiteralPrinted(a.values[i]);
    }
    ListPrinted(words, Literals(), a.values);
    LiteralNotEmpty();
    var front := [Word(Insert, "INSERT"), Word(Into, "INTO"), Word(Identifier, a.table), Word(Values, "VALUES"),
                  Word(LeftParen, "(")];
    var list, close := ListWords(words, a.values), [Word(RightParen, ")")];
    ListNotEmpty(Literals(), list, a.values);
    AllOkAppend(front, list);
    AllOkAppend(front + list, close);
    assert AstWords(a) == front + list + close;
    var ws := front + list + close;
    assert ws[5..|ws| - 1] == list;
    assert IsInsert(ws, a);
  }

  lemma LiteralNotEmpty()
    ensures forall c, x :: Literals()(c, x) ==> c != []
  {
  }

  lemma ConditionPrinted(c: Option<Condition>)
    requires c.Some? ==> NameOk(c.value.column)
    ensures AllOk(ConditionWords(c))
    ensures c.None? ==> ConditionWords(c) == []
    ensures c.Some? ==>
      var ws := ConditionWords(c);
      && |ws| > 3 && ws[0].kind == Where && ws[1] == Word(Identifier, c.value.column) && ws[2].kind == Equal
      && IsLiteral(ws[3..], c.value.literal)
  {
    hide WordOk, LiteralWords, IsLiteral;
    if c.Some? {
      StatementWordsOk();
      SymbolsOk();
      LiteralPrinted(c.value.literal);
      var front := [Word(Where, "WHERE"), Word(Identifier, c.value.column), Word(Equal, "=")];
      AllOkAppend(front, LiteralWords(c.value.literal));
      assert (front + LiteralWords(c.value.literal))[3..] == LiteralWords(c.value.literal);
      LiteralNotEmpty();
      assert Literals()(LiteralWords(c.value.literal), c.value.literal);
    }
  }

  lemma SelectPrinted(a: Ast)
    requires a.SelectFrom? && AstOk(a)
    ensures IsStatement(AstWords(a), a) && AllOk(AstWords(a))
  {
    hide WordOk, IsList, ListWords, ConditionWords, IsLiteral;
    StatementWordsOk();
    var words: string -> seq<Word> := n => NameWords(n);
    ListPrinted(words, Names(), a.projections);
    ConditionPrinted(a.condition);
    var front, list := [Word(Select, "SELECT")], ListWords(words, a.projections);
    var from, tail := [Word(From, "FROM"), Word(Identifier, a.table)], ConditionWords(a.condition);
    ListNotEmpty(Names(), list, a.projections);
    AllOkAppend(front, list);
    AllOkAppend(front + list, from);
    AllOkAppend(front + list + from, tail);
    assert AstWords(a) == front + list + from + tail;
    SelectAssembled(a, list, from, tail);
  }

  lemma SelectAssembled(a: Ast, list: seq<Word>, from: seq<Word>, tail: seq<Word>)
    requires a.SelectFrom? && IsList(Names(), list, a.projections) && list != []
    requires from == [Word(From, "FROM"), Word(Identifier, a.table)]
    requires a.condition.None? ==> tail == []
    requires a.condition.Some? ==>
      && |tail| > 3 && tail[0].kind == Where && tail[1] == Word(Identifier, a.condition.value.column)
      && tail[2].kind == Equal && IsLiteral(tail[3..], a.condition.value.literal)
    ensures IsSelectAt([Word(Select, "SELECT")] + list + from + tail, a, 1 + |list|)
  {
    hide IsList, IsLiteral;
    var ws, k := [Word(Select, "SELECT")] + list + from + tail, 1 + |list|;
    SelectParts(Word(Select, "SELECT"), list, from, tail);
    assert a.condition.Some? ==>
      ws[k + 2] == tail[0] && ws[k + 3] == tail[1] && ws[k + 4] == tail[2] && ws[k + 5..] == tail[3..];
  }

  lemma SelectParts(w: Word, list: seq<Word>, from: seq<Word>, tail: seq<Word>)
    requires |from| == 2
    ensures var ws, k := [w] + list + from + tail, 1 + |list|;
      && |ws| == k + 2 + |tail| && ws[0] == w && ws[1..k] == list && ws[k] == from[0] && ws[k + 1] == from[1]
      && (forall i | 0 <= i < |tail| :: ws[k + 2 + i] == tail[i])
      && (|tail| >= 3 ==> ws[k + 5..] == tail[3..])
  {
  }

  lemma AstPrinted(a: Ast)
    requires AstOk(a)
    ensures IsStatement(AstWords(a), a) && AllOk(AstWords(a))
  {
    hide IsStatement, AllOk, AstWords;
    match a
    case CreateTable(_, _) => CreateTablePrinted(a);
    case CreateIndex(_, _, _) => CreateIndexPrinted(a);
    case InsertInto(_, _) => InsertPrinted(a);
    case SelectFrom(_, _, _) => SelectPrinted(a);
  }

  // What a text means.
  function ParseText(sql: string): Result<Ast> {
    match Pieces(sql)
    case None => Err(Syntax)
    case Some(ps) => ParseWords(WordsOf(ps))
  }

  lemma EndAtTheEnd(ws: seq<Word>)
    requires AllOk(ws)
    ensures Ended(ws + [Word(End, [])])
  {
    var all := ws + [Word(End, [])];
    forall i | 0 <= i < |all| ensures all[i].kind == End <==> i == |all| - 1 {
      if i < |ws| {
        assert WordOk(ws[i]);
      }
    }
  }

  // ---- keywords in any case ----

  // The same words, but for the case of the letters of keywords.
  ghost predicate Recased(ws: seq<Word>, ws': seq<Word>) {
    |ws| == |ws'| && forall i | 0 <= i < |ws| :: WordRecased(ws[i], ws'[i])
  }

  predicate WordRecased(w: Word, w': Word) {
    w == w' || (w.kind == w'.kind && Keyword(w.kind).Some? && SameUpToCase(w.text, w'.text))
  }

  lemma RecasedPart(ws: seq<Word>, ws': seq<Word>, lo: nat, hi: nat)
    requires Recased(ws, ws') && lo <= hi <= |ws|
    ensures Recased(ws[lo..hi], ws'[lo..hi])
  {
    hide WordRecased;
    forall i | 0 <= i < hi - lo ensures WordRecased(ws[lo..hi][i], ws'[lo..hi][i]) {
      assert ws[lo..hi][i] == ws[lo + i] && ws'[lo..hi][i] == ws'[lo + i];
    }
  }

  lemma RecasedWord(ws: seq<Word>, ws': seq<Word>, i: nat)
    requires Recased(ws, ws') && i < |ws|
    ensures ws'[i].kind == ws[i].kind
    ensures Keyword(ws[i].kind).None? ==> ws'[i] == ws[i]
  {
    hide SameUpToCase, Keyword;
    assert WordRecased(ws[i], ws'[i]);
  }

  ghost predicate CaseBlind<T(!new)>(isItem: (seq<Word>, T) -> bool) {
    forall c, c', x :: isItem(c, x) && Recased(c, c') ==> isItem(c', x)
  }

  lemma {:induction false} ListRecased<T(!new)>(isItem: (seq<Word>, T) -> bool, ws: seq<Word>, ws': seq<Word>, items: seq<T>)
    requires CaseBlind(isItem) && IsList(isItem, ws, items) && Recased(ws, ws')
    ensures IsList(isItem, ws', items)
    decreases |items|
  {
    hide Recased;
    if |items| > 1 {
      var k :| 0 <= k < |ws| && CommaAt(isItem, ws, items, k);
      SameLength(ws, ws');
      RecasedPart(ws, ws', 0, k);
      RecasedPart(ws, ws', k + 1, |ws|);
      RecasedWord(ws, ws', k);
      assert ws[0..k] == ws[..k] && ws'[0..k] == ws'[..k];
      assert ws[k + 1..|ws|] == ws[k + 1..] && ws'[k + 1..|ws|] == ws'[k + 1..];
      ListRecased(isItem, ws[k + 1..], ws'[k + 1..], items[1..]);
      assert CommaAt(isItem, ws', items, k);
    }
  }

  lemma SameLength(ws: seq<Word>, ws': seq<Word>)
    requires Recased(ws, ws')
    ensures |ws| == |ws'|
  {
    hide WordRecased;
  }

  lemma ItemsCaseBlind()
    ensures CaseBlind(Names()) && CaseBlind(Columns()) && CaseBlind(Literals())
  {
    hide IntegerValue, SameUpToCase;
    forall c, c', x | Names()(c, x) && Recased(c, c') ensures Names()(c', x) {
      RecasedWord(c, c', 0);
    }
    forall c, c', x | Columns()(c, x) && Recased(c, c') ensures Columns()(c', x) {
      RecasedWord(c, c', 0);
      RecasedWord(c, c', 1);
    }
    forall c, c', x | Literals()(c, x) && Recased(c, c') ensures Literals()(c', x) {
      LiteralRecased(c, c', x);
    }
  }

  lemma LiteralRecased(c: seq<Word>, c': seq<Word>, x: Literal)
    requires IsLiteral(c, x) && Recased(c, c')
    ensures IsLiteral(c', x)
  {
    hide IntegerValue, SameUpToCase;
    forall i: nat | i < |c| ensures c'[i].kind == c[i].kind && (Keyword(c[i].kind).None? ==> c'[i] == c[i]) {
      RecasedWord(c, c', i);
    }
  }

  // The grammar does not look at the case of keywords.
  lemma StatementRecased(ws: seq<Word>, ws': seq<Word>, a: Ast)
    requires IsStatement(ws, a) && Recased(ws, ws')
    ensures IsStatement(ws', a)
  {
    hide IsList, IsLiteral;
    SameLength(ws, ws');
    ItemsCaseBlind();
    if IsCreateTable(ws, a) {
      CreateTableRecased(ws, ws', a);
    } else if IsCreateIndex(ws, a) {
      CreateIndexRecased(ws, ws', a);
    } else if IsInsert(ws, a) {
      InsertRecased(ws, ws', a);
    } else {
      var k :| IsSelectAt(ws, a, k);
      SelectRecased(ws, ws', a, k);
    }
  }

  lemma KindsRecased(ws: seq<Word>, ws': seq<Word>, kinds: seq<Kind>)
    requires StartsWith(ws, kinds) && Recased(ws, ws')
    ensures StartsWith(ws', kinds)
    ensures forall i: nat | i < |kinds| && kinds[i] == Identifier :: ws'[i] == ws[i]
  {
    hide Recased;
    SameLength(ws, ws');
    forall i: nat | i < |kinds| ensures ws'[i].kind == kinds[i] && (kinds[i] == Identifier ==> ws'[i] == ws[i]) {
      RecasedWord(ws, ws', i);
    }
  }

  lemma CreateTableRecased(ws: seq<Word>, ws': seq<Word>, a: Ast)
    requires IsCreateTable(ws, a) && Recased(ws, ws') && CaseBlind(Columns())
    ensures IsCreateTable(ws', a)
  {
    hide IsList, Recased, CaseBlind;
    SameLength(ws, ws');
    var kinds := [Create, Table, Identifier, LeftParen];
    assert kinds[2] == Identifier;
    KindsRecased(ws, ws', kinds);
    RecasedWord(ws, ws', |ws| - 1);
    RecasedPart(ws, ws', 4, |ws| - 1);
    ListRecased(Columns(), ws[4..|ws| - 1], ws'[4..|ws| - 1], a.columns);
  }

  lemma CreateIndexRecased(ws: seq<Word>, ws': seq<Word>, a: Ast)
    requires IsCreateIndex(ws, a) && Recased(ws, ws')
    ensures IsCreateIndex(ws', a)
  {
    hide Recased;
    SameLength(ws, ws');
    var kinds := [Create, Index, Identifier, On, Identifier, LeftParen, Identifier, RightParen];
    assert kinds[2] == kinds[4] == kinds[6] == Identifier;
    KindsRecased(ws, ws', kinds);
  }

  lemma InsertRecased(ws: seq<Word>, ws': seq<Word>, a: Ast)
    requires IsInsert(ws, a) && Recased(ws, ws') && CaseBlind(Literals())
    ensures IsInsert(ws', a)
  {
    hide IsList, Recased, CaseBlind;
    SameLength(ws, ws');
    var kinds := [Insert, Into, Identifier, Values, LeftParen];
    assert kinds[2] == Identifier;
    KindsRecased(ws, ws', kinds);
    RecasedWord(ws, ws', |ws| - 1);
    RecasedPart(ws, ws', 5, |ws| - 1);
    ListRecased(Literals(), ws[5..|ws| - 1], ws'[5..|ws| - 1], a.values);
  }

  lemma SelectRecased(ws: seq<Word>, ws': seq<Word>, a: Ast, k: nat)
    requires IsSelectAt(ws, a, k) && Recased(ws, ws') && CaseBlind(Names()) && CaseBlind(Literals())
    ensures IsSelectAt(ws', a, k)
  {
    hide IsList, Recased, CaseBlind, IsLiteral;
    SameLength(ws, ws');
    RecasedWord(ws, ws', 0);
    RecasedWord(ws, ws', k);
    RecasedWord(ws, ws', k + 1);
    RecasedPart(ws, ws', 1, k);
    ListRecased(Names(), ws[1..k], ws'[1..k], a.projections);
    if a.condition.Some? {
      RecasedWord(ws, ws', k + 2);
      RecasedWord(ws, ws', k + 3);
      RecasedWord(ws, ws', k + 4);
      RecasedPart(ws, ws', k + 5, |ws|);
      assert ws[k + 5..|ws|] == ws[k + 5..] && ws'[k + 5..|ws|] == ws'[k + 5..];
      LiteralRecased(ws[k + 5..], ws'[k + 5..], a.condition.value.literal);
    }
  }

  // Recased words can be printed.
  lemma RecasedOk(ws: seq<Word>, ws': seq<Word>)
    requires AllOk(ws) && Recased(ws, ws')
    ensures AllOk(ws')
  {
    hide WordOk, WordRecased;
    forall i | 0 <= i < |ws'| ensures WordOk(ws'[i]) {
      assert WordOk(ws[i]) && WordRecased(ws[i], ws'[i]);
      WordStaysOk(ws[i], ws'[i]);
    }
  }

  lemma WordStaysOk(w: Word, w': Word)
    requires WordOk(w) && WordRecased(w, w')
    ensures WordOk(w')
  {
    if w != w' {
      hide KeywordKind, IsIdentifierStart, IsIdentifierPart, Keyword;
      KeywordWord(w);
      forall i | 0 <= i < |w'.text| ensures IsIdentifierPart(w'.text[i]) {
        LetterStays(w.text[i], w'.text[i]);
      }
      LetterStays(w.text[0], w'.text[0]);
      CaseStays(w, w');
      KeywordWordOk(w');
    }
  }

  lemma KeywordWord(w: Word)
    requires WordOk(w) && Keyword(w.kind).Some?
    ensures w.text != [] && IsIdentifierStart(w.text[0]) && KeywordKind(w.text) == w.kind
    ensures forall i | 0 <= i < |w.text| :: IsIdentifierPart(w.text[i])
  {
    hide KeywordKind, IsIdentifierStart, IsIdentifierPart;
  }

  lemma KeywordWordOk(w: Word)
    requires w.text != [] && IsIdentifierStart(w.text[0]) && KeywordKind(w.text) == w.kind && Keyword(w.kind).Some?
    requires forall i | 0 <= i < |w.text| :: IsIdentifierPart(w.text[i])
    ensures WordOk(w)
  {
    hide KeywordKind, IsIdentifierStart, IsIdentifierPart;
  }

  lemma LetterStays(c: char, c': char)
    requires SameLetter(c, c')
    ensures IsIdentifierStart(c) <==> IsIdentifierStart(c')
    ensures IsIdentifierPart(c) <==> IsIdentifierPart(c')
  {
  }

  lemma CaseStays(w: Word, w': Word)
    requires KeywordKind(w.text) == w.kind && w.kind == w'.kind && Keyword(w.kind).Some? && SameUpToCase(w.text, w'.text)
    ensures KeywordKind(w'.text) == w.kind
  {
    hide Keyword, KindOfLower, Lowercase, SameUpToCase;
    LowercaseSame(w.text, w'.text);
  }

  // A printed statement, its keywords in any case and with or without a
  // semicolon, is read back as it was.
  lemma PrintedReadsBack(a: Ast, ws: seq<Word>, semicolon: bool)
    requires AstOk(a) && Recased(AstWords(a), ws)
    ensures ParseText(Printed(ws + (if semicolon then [Word(Semicolon, ";")] else []))) == Ok(a)
  {
    hide IsStatement, AstWords, Pieces, Printed, ParseWords, WordsOf, AllOk, IsSentence, Ended, Recased;
    AstPrinted(a);
    StatementRecased(AstWords(a), ws, a);
    RecasedOk(AstWords(a), ws);
    var tail := if semicolon then [Word(Semicolon, ";")] else [];
    SemicolonOk(tail);
    AllOkAppend(ws, tail);
    EachOk(ws + tail);
    WordsBack(ws + tail);
    EndAtTheEnd(ws + tail);
    SentenceMade(ws, a, semicolon);
    SentenceIsAccepted(ws + tail + [Word(End, [])], a);
  }

  lemma SentenceMade(ws: seq<Word>, a: Ast, semicolon: bool)
    requires IsStatement(ws, a)
    ensures IsSentence(ws + (if semicolon then [Word(Semicolon, ";")] else []) + [Word(End, [])], a)
  {
    hide IsStatement;
    var tail := if semicolon then [Word(Semicolon, ";")] else [];
    var all := ws + tail + [Word(End, [])];
    assert all[..|all| - 1] == ws + tail;
    assert ws + [] == ws;
    if semicolon {
      assert (ws + tail)[..|ws + tail| - 1] == ws;
    }
  }

  lemma SemicolonOk(tail: seq<Word>)
    requires tail == [] || tail == [Word(Semicolon, ";")]
    ensures AllOk(tail)
  {
  }

  lemma EachOk(ws: seq<Word>)
    requires AllOk(ws)
    ensures forall i | 0 <= i < |ws| :: WordOk(ws[i])
  {
    hide WordOk;
  }

  // ---- the parser ----

  ghost function WordsIn(tokens: seq<Token>): (ws: seq<Word>)
    ensures |ws| == |tokens| && forall i | 0 <= i < |tokens| :: ws[i] == tokens[i].word
  {
    seq(|tokens|, i requires 0 <= i < |tokens| => tokens[i].word)
  }

  class StatementParser {
    const tokens: seq<Token>
    var position: nat

    ghost function Words(): seq<Word> {
      WordsIn(tokens)
    }

    // The cursor is on a token.
    ghost predicate Valid()
      reads this
    {
      Ended(Words()) && position < |tokens|
    }

    ghost function Rest(): seq<Word>
      requires Valid()
      reads this
    {
      Words()[position..]
    }

    constructor (tokens: seq<Token>)
      requires Ended(WordsIn(tokens))
      ensures this.tokens == tokens && Valid() && Rest() == Words()
    {
      this.tokens, position := tokens, 0;
    }

    method Match(kind: Kind) returns (matched: bool)
      requires Valid() && kind != End
      modifies this
      ensures Valid() && old(position) <= position
      ensures match Skip(old(Rest()), kind)
        case None => !matched && Rest() == old(Rest())
        case Some(rest) => matched && Rest() == rest
    {
      if tokens[position].word.kind != kind {
        return false;
      }
      assert Words()[position].kind == kind;
      position := position + 1;
      return true;
    }

    method Expect(kind: Kind) returns (r: Result<Word>)
      requires Valid() && kind != End
      modifies this
      ensures Valid() && old(position) <= position
      ensures match Skip(old(Rest()), kind)
        case None => r == Err(Syntax) && Rest() == old(Rest())
        case Some(rest) => r == Ok(old(Rest())[0]) && Rest() == rest
    {
      var token := tokens[position].word;
      var matched := Match(kind);
      if !matched {
        return Err(Syntax);
      }
      return Ok(token);
    }

    method ParseIdentifier() returns (r: Result<string>)
      requires Valid()
      modifies this
      ensures Valid() && old(position) <= position
      ensures match ParseName(old(Rest()))
        case None => r == Err(Syntax)
        case Some((name, rest)) => r == Ok(name) && Rest() == rest
    {
      var token := Expect(Identifier);
      if token.Err? {
        return Forward(token);
      }
      return Ok(token.value.text);
    }

    method ParseIntegerLiteral(negative: bool) returns (r: Result<Literal>)
      requires Valid()
      modifies this
      ensures Valid() && old(position) <= position
      ensures match ParseInteger(old(Rest()), negative)
        case None => r == Err(Syntax)
        case Some((l, rest)) => r == Ok(l) && Rest() == rest
    {
      hide IntegerValue;
      var token := Expect(IntegerLiteral);
      if token.Err? {
        return Forward(token);
      }
      var value := IntegerValue(token.value.text, negative);
      if value.None? {
        return Err(Syntax);
      }
      return Ok(Number(value.value));
    }

    method ParseLiteralValue() returns (r: Result<Literal>)
      requires Valid()
      modifies this
      ensures Valid() && old(position) <= position
      ensures match ParseLiteral(old(Rest()))
        case None => r == Err(Syntax)
        case Some((l, rest)) => r == Ok(l) && Rest() == rest
    {
      hide ParseInteger;
      ghost var ws := Rest();
      var negative := Match(Minus);
      var token := tokens[position].word;
      assert token == Rest()[0];
      if token.kind == StringLiteral {
        if negative {
          NoStringAfterMinus(ws);
          return Err(Syntax);
        }
        var quoted := Expect(StringLiteral);
        return Ok(Quoted(token.text));
      }
      r := ParseIntegerLiteral(negative);
    }

    method ParseColumnDefinition() returns (r: Result<ColumnDefinition>)
      requires Valid()
      modifies this
      ensures Valid() && old(position) <= position
      ensures match ParseColumn(old(Rest()))
        case None => r == Err(Syntax)
        case Some((c, rest)) => r == Ok(c) && Rest() == rest
    {
      var name := ParseIdentifier();
      if name.Err? {
        return Forward(name);
      }
      var isInt := Match(Int);
      if isInt {
        return Ok(ColumnDefinition(name.value, IntType));
      }
      var isText := Match(Text);
      if isText {
        return Ok(ColumnDefinition(name.value, TextType));
      }
      return Err(Syntax);
    }

    // The three comma-separated loops.
    method ParseProjections() returns (r: Result<seq<string>>)
      requires Valid()
      modifies this
      ensures Valid() && old(position) <= position
      ensures match ParseList(NameParser(), old(Rest()))
        case None => r == Err(Syntax)
        case Some((xs, rest)) => r == Ok(xs) && Rest() == rest
    {
      hide ParseList, InFrontOf, ItemComplete;
      NamesExact();
      ghost var all := ParseList(NameParser(), Rest());
      var projections: seq<string> := [];
      NothingInFrontOf(all);
      while true
        invariant Valid() && old(position) <= position
        invariant all == InFrontOf(projections, ParseList(NameParser(), Rest()))
        decreases |tokens| - position
      {
        ghost var ws := Rest();
        ListSteps(NameParser(), Names(), ws, projections);
        var projection := ParseIdentifier();
        if projection.Err? {
          return Forward(projection);
        }
        projections := projections + [projection.value];
        var more := Match(Comma);
        if !more {
          return Ok(projections);
        }
      }
    }

    method ParseColumns() returns (r: Result<seq<ColumnDefinition>>)
      requires Valid()
      modifies this
      ensures Valid() && old(position) <= position
      ensures match ParseList(ColumnParser(), old(Rest()))
        case None => r == Err(Syntax)
        case Some((xs, rest)) => r == Ok(xs) && Rest() == rest
    {
      hide ParseList, InFrontOf, ItemComplete, ParseColumn;
      ColumnsExact();
      ghost var all := ParseList(ColumnParser(), Rest());
      var columns: seq<ColumnDefinition> := [];
      NothingInFrontOf(all);
      while true
        invariant Valid() && old(position) <= position
        invariant all == InFrontOf(columns, ParseList(ColumnParser(), Rest()))
        decreases |tokens| - position
      {
        ghost var ws := Rest();
        ListSteps(ColumnParser(), Columns(), ws, columns);
        var column := ParseColumnDefinition();
        if column.Err? {
          return Forward(column);
        }
        columns := columns + [column.value];
        var more := Match(Comma);
        if !more {
          return Ok(columns);
        }
      }
    }

    method ParseLiterals() returns (r: Result<seq<Literal>>)
      requires Valid()
      modifies this
      ensures Valid() && old(position) <= position
      ensures match ParseList(LiteralParser(), old(Rest()))
        case None => r == Err(Syntax)
        case Some((xs, rest)) => r == Ok(xs) && Rest() == rest
    {
      hide ParseList, InFrontOf, ItemComplete, ParseLiteral;
      LiteralsExact();
      ghost var all := ParseList(LiteralParser(), Rest());
      var literals: seq<Literal> := [];
      NothingInFrontOf(all);
      while true
        invariant Valid() && old(position) <= position
        invariant all == InFrontOf(literals, ParseList(LiteralParser(), Rest()))
        decreases |tokens| - position
      {
        ghost var ws := Rest();
        ListSteps(LiteralParser(), Literals(), ws, literals);
        var literal := ParseLiteralValue();
        if literal.Err? {
          return Forward(literal);
        }
        literals := literals + [literal.value];
        var more := Match(Comma);
        if !more {
          return Ok(literals);
        }
      }
    }

    method ParseCreateTableStatement() returns (r: Result<Ast>)
      requires Valid()
      modifies this
      ensures Valid()
      ensures match ParseCreateTable(old(Rest()))
        case None => r == Err(Syntax)
        case Some((a, rest)) => r == Ok(a) && Rest() == rest
    {
      hide ParseList;
      var table := ParseIdentifier();
      if table.Err? {
        return Forward(table);
      }
      var open := Expect(LeftParen);
      if open.Err? {
        return Forward(open);
      }
      var columns := ParseColumns();
      if columns.Err? {
        return Forward(columns);
      }
      var close := Expect(RightParen);
      if close.Err? {
        return Forward(close);
      }
      return Ok(CreateTable(table.value, columns.value));
    }

    method ParseCreateIndexStatement() returns (r: Result<Ast>)
      requires Valid()
      modifies this
      ensures Valid()
      ensures match ParseCreateIndex(old(Rest()))
        case None => r == Err(Syntax)
        case Some((a, rest)) => r == Ok(a) && Rest() == rest
    {
      ghost var ws := Rest();
      IndexSteps(ws);
      var index := ParseIdentifier();
      if index.Err? {
        return Forward(index);
      }
      var on := Expect(On);
      if on.Err? {
        return Forward(on);
      }
      var table := ParseIdentifier();
      if table.Err? {
        return Forward(table);
      }
      var open := Expect(LeftParen);
      if open.Err? {
        return Forward(open);
      }
      var column := ParseIdentifier();
      if column.Err? {
        return Forward(column);
      }
      var close := Expect(RightParen);
      if close.Err? {
        return Forward(close);
      }
      return Ok(CreateIndex(index.value, table.value, column.value));
    }

    method ParseInsertStatement() returns (r: Result<Ast>)
      requires Valid()
      modifies this
      ensures Valid()
      ensures match ParseInsert(old(Rest()))
        case None => r == Err(Syntax)
        case Some((a, rest)) => r == Ok(a) && Rest() == rest
    {
      hide ParseList, ParseInsert;
      ghost var ws := Rest();
      InsertSteps(ws);
      var into := Expect(Into);
      if into.Err? {
        return Forward(into);
      }
      var table := ParseIdentifier();
      if table.Err? {
        return Forward(table);
      }
      var keyword := Expect(Values);
      if keyword.Err? {
        return Forward(keyword);
      }
      var open := Expect(LeftParen);
      if open.Err? {
        return Forward(open);
      }
      var values := ParseLiterals();
      if values.Err? {
        return Forward(values);
      }
      var close := Expect(RightParen);
      if close.Err? {
        return Forward(close);
      }
      return Ok(InsertInto(table.value, values.value));
    }

    method ParseWhere() returns (r: Result<Condition>)
      requires Valid()
      modifies this
      ensures Valid()
      ensures match ParseCondition(old(Rest()))
        case None => r == Err(Syntax)
        case Some((c, rest)) => r == Ok(c) && Rest() == rest
    {
      hide ParseLiteral, ParseCondition;
      ConditionSteps(Rest());
      var column := ParseIdentifier();
      if column.Err? {
        return Forward(column);
      }
      var equal := Expect(Equal);
      if equal.Err? {
        return Forward(equal);
      }
      var literal := ParseLiteralValue();
      if literal.Err? {
        return Forward(literal);
      }
      return Ok(Condition(column.value, literal.value));
    }

    method ParseSelectStatement() returns (r: Result<Ast>)
      requires Valid()
      modifies this
      ensures Valid()
      ensures match ParseSelect(old(Rest()))
        case None => r == Err(Syntax)
        case Some((a, rest)) => r == Ok(a) && Rest() == rest
    {
      hide ParseList, ParseCondition, ParseSelect, StartsWith;
      SelectSteps(Rest());
      var projections := ParseProjections();
      if projections.Err? {
        return Forward(projections);
      }
      FromSteps(Rest());
      var from := Expect(From);
      if from.Err? {
        return Forward(from);
      }
      var table := ParseIdentifier();
      if table.Err? {
        return Forward(table);
      }
      var filtered := Match(Where);
      if !filtered {
        return Ok(SelectFrom(projections.value, table.value, None));
      }
      var condition := ParseWhere();
      if condition.Err? {
        return Forward(condition);
      }
      return Ok(SelectFrom(projections.value, table.value, Some(condition.value)));
    }

    method ParseOneStatement() returns (r: Result<Ast>)
      requires Valid()
      modifies this
      ensures Valid()
      ensures match ParseStatement(old(Rest()))
        case None => r == Err(Syntax)
        case Some((a, rest)) => r == Ok(a) && Rest() == rest
    {
      hide ParseCreateTable, ParseCreateIndex, ParseInsert, ParseSelect, ParseStatement;
      StatementSteps(Rest());
      var create := Match(Create);
      if create {
        var table := Match(Table);
        if table {
          r := ParseCreateTableStatement();
          return;
        }
        var index := Match(Index);
        if index {
          r := ParseCreateIndexStatement();
          return;
        }
        return Err(Syntax);
      }
      var insert := Match(Insert);
      if insert {
        r := ParseInsertStatement();
        return;
      }
      var select := Match(Select);
      if select {
        r := ParseSelectStatement();
        return;
      }
      return Err(Syntax);
    }

    // One statement, an optional semicolon, and nothing else.
    method Parse() returns (r: Result<Ast>)
      requires Valid()
      modifies this
      ensures Valid() && r == ParseWords(old(Rest()))
    {
      hide ParseStatement;
      var statement := ParseOneStatement();
      if statement.Err? {
        return statement;
      }
      var semicolon := Match(Semicolon);
      assert tokens[position].word == Rest()[0];
      if semicolon && tokens[position].word.kind != End {
        return Err(Syntax);
      }
      if tokens[position].word.kind != End {
        return Err(Syntax);
      }
      return statement;
    }
  }

  lemma NoStringAfterMinus(ws: seq<Word>)
    requires |ws| > 1 && ws[0].kind == Minus && ws[1].kind == StringLiteral
    ensures ParseLiteral(ws) == None
  {
  }

  lemma NothingInFrontOf<T>(r: Parsed<seq<T>>)
    ensures InFrontOf([], r) == r
  {
    if r.Some? {
      assert [] + r.value.0 == r.value.0;
    }
  }

  // One turn of a list loop.
  lemma ListSteps<T(!new)>(item: seq<Word> -> Parsed<T>, isItem: (seq<Word>, T) -> bool, ws: seq<Word>, front: seq<T>)
    requires ItemSound(item, isItem)
    ensures match item(ws)
      case None => InFrontOf(front, ParseList(item, ws)) == None
      case Some((x, rest)) =>
        |rest| < |ws| &&
        InFrontOf(front, ParseList(item, ws)) ==
          if rest != [] && rest[0].kind == Comma then InFrontOf(front + [x], ParseList(item, rest[1..]))
          else Some((front + [x], rest))
  {
    if item(ws).Some? {
      assert Takes(ws, item(ws).value, isItem);
      ListStep(item, ws);
      var (x, rest) := item(ws).value;
      if rest != [] && rest[0].kind == Comma && ParseList(item, rest[1..]).Some? {
        var more := ParseList(item, rest[1..]).value.0;
        assert front + ([x] + more) == front + [x] + more;
      }
    }
  }

  // The cursor goes through fixed words one at a time.
  lemma IndexSteps(ws: seq<Word>)
    ensures match Skip(ws, Identifier)
      case None => ParseCreateIndex(ws) == None
      case Some(w1) =>
        match Skip(w1, On)
        case None => ParseCreateIndex(ws) == None
        case Some(w2) =>
          match Skip(w2, Identifier)
          case None => ParseCreateIndex(ws) == None
          case Some(w3) =>
            match Skip(w3, LeftParen)
            case None => ParseCreateIndex(ws) == None
            case Some(w4) =>
              match Skip(w4, Identifier)
              case None => ParseCreateIndex(ws) == None
              case Some(w5) =>
                match Skip(w5, RightParen)
                case None => ParseCreateIndex(ws) == None
                case Some(w6) =>
                  ParseCreateIndex(ws) == Some((CreateIndex(ws[0].text, w2[0].text, w4[0].text), w6))
  {
    var kinds := [Identifier, On, Identifier, LeftParen, Identifier, RightParen];
    assert StartsWith(ws, kinds) ==> forall i | 0 <= i < 6 :: ws[i].kind == kinds[i];
  }

  lemma InsertSteps(ws: seq<Word>)
    ensures match Skip(ws, Into)
      case None => ParseInsert(ws) == None
      case Some(w1) =>
        match Skip(w1, Identifier)
        case None => ParseInsert(ws) == None
        case Some(w2) =>
          match Skip(w2, Values)
          case None => ParseInsert(ws) == None
          case Some(w3) =>
            match Skip(w3, LeftParen)
            case None => ParseInsert(ws) == None
            case Some(w4) =>
              ParseInsert(ws) ==
                match ParseList(LiteralParser(), w4)
                case None => None
                case Some((values, after)) =>
                  match Skip(after, RightParen)
                  case None => None
                  case Some(end) => Some((InsertInto(w1[0].text, values), end))
  {
    hide ParseList;
    var kinds := [Into, Identifier, Values, LeftParen];
    assert StartsWith(ws, kinds) ==> forall i | 0 <= i < 4 :: ws[i].kind == kinds[i];
    if |ws| >= 4 {
      assert ws[1..][1..][1..][1..] == ws[4..];
    }
  }

  lemma ConditionSteps(ws: seq<Word>)
    ensures match Skip(ws, Identifier)
      case None => ParseCondition(ws) == None
      case Some(w1) =>
        match Skip(w1, Equal)
        case None => ParseCondition(ws) == None
        case Some(w2) =>
          ParseCondition(ws) ==
            match ParseLiteral(w2)
            case None => None
            case Some((l, rest)) => Some((Condition(ws[0].text, l), rest))
  {
    hide ParseLiteral;
    var kinds := [Identifier, Equal];
    assert StartsWith(ws, kinds) ==> forall i | 0 <= i < 2 :: ws[i].kind == kinds[i];
    if |ws| >= 2 {
      assert ws[1..][1..] == ws[2..];
    }
  }

  lemma FromSteps(rest: seq<Word>)
    ensures match Skip(rest, From)
      case None => !StartsWith(rest, [From, Identifier])
      case Some(r1) =>
        match Skip(r1, Identifier)
        case None => !StartsWith(rest, [From, Identifier])
        case Some(r2) => StartsWith(rest, [From, Identifier]) && rest[1] == r1[0] && r2 == rest[2..]
  {
    var kinds := [From, Identifier];
    assert StartsWith(rest, kinds) ==> forall i | 0 <= i < 2 :: rest[i].kind == kinds[i];
  }

  lemma SelectSteps(ws: seq<Word>)
    ensures match ParseList(NameParser(), ws)
      case None => ParseSelect(ws) == None
      case Some((projections, rest)) =>
        && (!StartsWith(rest, [From, Identifier]) ==> ParseSelect(ws) == None)
        && (StartsWith(rest, [From, Identifier]) ==>
              |rest| >= 2 &&
              ParseSelect(ws) ==
                match Skip(rest[2..], Where)
                case None => Some((SelectFrom(projections, rest[1].text, None), rest[2..]))
                case Some(inner) =>
                  match ParseCondition(inner)
                  case None => None
                  case Some((c, end)) => Some((SelectFrom(projections, rest[1].text, Some(c)), end)))
  {
    hide ParseList, ParseCondition;
  }

  lemma StatementSteps(ws: seq<Word>)
    ensures match Skip(ws, Create)
      case None =>
        (match Skip(ws, Insert)
         case None =>
           (match Skip(ws, Select)
            case None => ParseStatement(ws) == None
            case Some(w1) => ParseStatement(ws) == ParseSelect(w1))
         case Some(w1) => ParseStatement(ws) == ParseInsert(w1))
      case Some(w1) =>
        match Skip(w1, Table)
        case Some(w2) => ParseStatement(ws) == ParseCreateTable(w2)
        case None =>
          match Skip(w1, Index)
          case Some(w2) => ParseStatement(ws) == ParseCreateIndex(w2)
          case None => ParseStatement(ws) == None
  {
    hide ParseCreateTable, ParseCreateIndex, ParseInsert, ParseSelect;
    OneStart(ws);
    assert StartsWith(ws, [Create, Table]) ==> ws[0].kind == [Create, Table][0] && ws[1].kind == [Create, Table][1];
    assert StartsWith(ws, [Create, Index]) ==> ws[0].kind == [Create, Index][0] && ws[1].kind == [Create, Index][1];
    assert StartsWith(ws, [Insert]) ==> ws[0].kind == [Insert][0];
    assert StartsWith(ws, [Select]) ==> ws[0].kind == [Select][0];
    if |ws| >= 2 {
      assert ws[1..][1..] == ws[2..];
    }
  }

  // Parses one statement of SQL text.
  method ParseSql(sql: string) returns (r: Result<Ast>)
    ensures r == ParseText(sql)
    ensures forall a :: r == Ok(a) <==> exists ps :: Reading(sql, ps) && IsSentence(WordsOf(ps), a)
    ensures r.Err? ==> r.error == Syntax
  {
    hide Pieces, ParseWords, Reading, IsSentence, WordsOf;
    TextExactly(sql);
    var tokens := LexSql(sql);
    if tokens.Err? {
      return Forward(tokens);
    }
    TokensEnd(sql, tokens.value);
    var parser := new StatementParser(tokens.value);
    r := parser.Parse();
  }

  // A text means a statement exactly when it reads as a sentence of the grammar
  // for it.
  lemma TextExactly(sql: string)
    ensures forall a :: ParseText(sql) == Ok(a) <==> exists ps :: Reading(sql, ps) && IsSentence(WordsOf(ps), a)
    ensures ParseText(sql).Err? ==> ParseText(sql).error == Syntax
  {
    hide Pieces, ParseWords, Reading, IsSentence, WordsOf, Ended, InOrder;
    forall a ensures ParseText(sql) == Ok(a) <==> exists ps :: Reading(sql, ps) && IsSentence(WordsOf(ps), a) {
      if Pieces(sql).Some? {
        PiecesRead(sql);
        PiecesInOrder(sql);
        InOrderEnded(Pieces(sql).value, |sql|);
        AcceptsExactly(WordsOf(Pieces(sql).value), a);
      }
      forall ps | Reading(sql, ps) ensures Pieces(sql) == Some(ps) {
        ReadingFound(sql, ps);
      }
    }
    if Pieces(sql).Some? {
      OnlySyntax(WordsOf(Pieces(sql).value));
    }
  }

  lemma OnlySyntax(ws: seq<Word>)
    ensures ParseWords(ws).Err? ==> ParseWords(ws).error == Syntax
  {
    hide ParseStatement;
  }

  lemma TokensEnd(sql: string, tokens: seq<Token>)
    requires Pieces(sql).Some? && Located(sql, Pieces(sql).value, tokens)
    ensures Ended(WordsIn(tokens)) && WordsIn(tokens) == WordsOf(Pieces(sql).value)
  {
    hide Pieces, LocationAt, TokenOf, InOrder, Ended, WordsIn, WordsOf, Located;
    PiecesInOrder(sql);
    LocatedWords(sql, Pieces(sql).value, tokens);
    InOrderEnded(Pieces(sql).value, |sql|);
  }

  lemma LocatedWords(sql: string, ps: seq<Piece>, tokens: seq<Token>)
    requires Located(sql, ps, tokens)
    ensures WordsIn(tokens) == WordsOf(ps)
  {
    hide LocationAt;
  }

  lemma InOrderEnded(ps: seq<Piece>, size: nat)
    requires InOrder(ps, size)
    ensures Ended(WordsOf(ps))
  {
    var ws := WordsOf(ps);
    forall i | 0 <= i < |ws| ensures ws[i].kind == End <==> i == |ws| - 1 {
      assert ws[i] == ps[i].word;
    }
  }
}
