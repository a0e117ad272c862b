/**
 The format-string machine of the HAL's log printf: which literals and conversions a format denotes,
 and what it prints for its arguments.
 */
module LogFormat {
  import opened Options
  import opened IntegerPrinting

  datatype Conversion = Signed | Unsigned | Octal | Hex | UpperHex

  /** What a format denotes, piece by piece. A width of -1 is an absent one. */
  datatype Item =
    | Literal(c: char)
    | Integer(zeros: bool, width: int, conv: Conversion)
    | Character(width: int)
    | Text(width: int)

  datatype Arg = Word(raw: nat) | Char(c: char) | Str(s: string)

  // ----- The machine -----

  datatype State = Chars | FirstFmtChar | OtherFmtChar(zeros: bool, before: int, after: int)

  /** The conversion a type letter selects. Other letters select none and print nothing. */
  function ItemOf(c: char, zeros: bool, width: int): (items: seq<Item>)
    ensures |items| <= 1
  {
    match c
    case 'd' => [Integer(zeros, width, Signed)]
    case 'i' => [Integer(zeros, width, Signed)]
    case 'u' => [Integer(zeros, width, Unsigned)]
    case 'o' => [Integer(zeros, width, Octal)]
    case 'x' => [Integer(zeros, width, Hex)]
    case 'X' => [Integer(zeros, width, UpperHex)]
    case 'c' => [Character(width)]
    case 's' => [Text(width)]
    case _ => []
  }

  predicate IsDigit(c: char) { '0' <= c <= '9' }

  function DigitValue(c: char): nat
    requires IsDigit(c)
  {
    (c - '0') as nat
  }

  /** A character after the first of a directive. */
  function OtherNext(c: char, zeros: bool, before: int, after: int): (r: (State, seq<Item>))
    ensures |r.1| <= 1
  {
    if c == '.' then (OtherFmtChar(zeros, before, 0), [])
    else if IsDigit(c) then
      if after < 0 then (OtherFmtChar(zeros, (if before < 0 then 0 else before * 10) + DigitValue(c), after), [])
      else (OtherFmtChar(zeros, before, after * 10 + DigitValue(c)), [])
    else if c == 'l' then (OtherFmtChar(zeros, before, after), [])
    else (Chars, ItemOf(c, zeros, before))
  }

  function Next(state: State, c: char): (r: (State, seq<Item>))
    ensures |r.1| <= 1
  {
    match state
    case Chars => if c == '%' then (FirstFmtChar, []) else (Chars, [Literal(c)])
    case FirstFmtChar =>
      if c == '0' then (OtherFmtChar(true, -1, -1), [])
      else if c == '%' then (Chars, [Literal('%')])
      else OtherNext(c, false, -1, -1)
    case OtherFmtChar(zeros, before, after) => OtherNext(c, zeros, before, after)
  }

  /** All that a format denotes from a given state on. */
  function Parse(fmt: string, state: State): seq<Item>
    decreases |fmt|
  {
    if fmt == "" then []
    else
      var (state', items) := Next(state, fmt[0]);
      items + Parse(fmt[1..], state')
  }

  // ----- Output -----

  function Base(conv: Conversion): nat {
    match conv
    case Octal => 8
    case Hex => 16
    case UpperHex => 16
    case _ => 10
  }

  function PrintedInteger(zeros: bool, width: int, conv: Conversion, raw: nat): string {
    Field(Meaning(raw, conv.Signed?), Base(conv), conv.UpperHex?, zeros, width)
  }

  /** The arguments have the types the items ask for. */
  predicate Supplied(items: seq<Item>, args: seq<Arg>)
    decreases |items|
  {
    items == [] ||
    if items[0].Literal? then Supplied(items[1..], args)
    else args != [] && Suits(items[0], args[0]) && Supplied(items[1..], args[1..])
  }

  predicate Suits(item: Item, arg: Arg) {
    match item
    case Literal(_) => true
    case Integer(_, _, _) => arg.Word? && arg.raw < TWO_32
    case Character(_) => arg.Char?
    case Text(_) => arg.Str?
  }

  function Printed(item: Item, arg: Arg): string
    requires Suits(item, arg) && !item.Literal?
  {
    match item
    case Integer(zeros, width, conv) => PrintedInteger(zeros, width, conv, arg.raw)
    case Character(width) => Repeat(' ', width - 1) + [arg.c]
    case Text(width) => Repeat(' ', width - |arg.s|) + arg.s
  }

  /** What the items print: literals as they are, and one field per argument. */
  function Output(items: seq<Item>, args: seq<Arg>): string
    requires Supplied(items, args)
    decreases |items|
  {
    if items == [] then ""
    else if items[0].Literal? then [items[0].c] + Output(items[1..], args)
    else Printed(items[0], args[0]) + Output(items[1..], args[1..])
  }

  // ----- Writing a format for given items -----

  predicate WidthOk(zeros: bool, width: int) { width == -1 || width > 0 || (zeros && width == 0) }

  /** Items that a format can denote. */
  predicate Expressible(item: Item) {
    match item
    case Literal(_) => true
    case Integer(zeros, width, _) => WidthOk(zeros, width)
    case Character(width) => WidthOk(false, width)
    case Text(width) => WidthOk(false, width)
  }

  function WidthDigits(width: int): (ds: seq<nat>)
    ensures forall i :: 0 <= i < |ds| ==> ds[i] < 10
    ensures width >= -1 ==> width == WidthOf(ds)
    ensures width > 0 ==> ds != [] && ds[0] != 0
  {
    if width < 0 then [] else Digits(width, 10)
  }

  function WidthText(width: int): string { IntegerPrinting.Text(WidthDigits(width), false) }

  function Letter(item: Item): char
    requires !item.Literal?
  {
    match item
    case Integer(_, _, Signed) => 'd'
    case Integer(_, _, Unsigned) => 'u'
    case Integer(_, _, Octal) => 'o'
    case Integer(_, _, Hex) => 'x'
    case Integer(_, _, UpperHex) => 'X'
    case Character(_) => 'c'
    case Text(_) => 's'
  }

  function Directive(zeros: bool, width: int, letter: char): string {
    ['%'] + (if zeros then "0" else "") + WidthText(width) + [letter]
  }

  function Written(item: Item): string {
    match item
    case Literal(c) => if c == '%' then "%%" else [c]
    case Integer(zeros, width, _) => Directive(zeros, width, Letter(item))
    case Character(width) => Directive(false, width, 'c')
    case Text(width) => Directive(false, width, 's')
  }

  function FormatFor(items: seq<Item>): string {
    if items == [] then "" else Written(items[0]) + FormatFor(items[1..])
  }

  // ----- Parsing undoes writing -----

  lemma ParseStep(c: char, rest: string, state: State)
    ensures Parse([c] + rest, state) == Next(state, c).1 + Parse(rest, Next(state, c).0)
  {
    assert ([c] + rest)[1..] == rest;
  }

  lemma DigitReads(d: nat)
    requires d < 10
    ensures IsDigit(DigitChar(d, false)) && DigitValue(DigitChar(d, false)) == d
  {}

  lemma Regrouped(a: string, c: char, b: string)
    ensures a + [c] + b == a + ([c] + b)
  {}

  /** The two formats denote the same, each from its own state. */
  ghost predicate SameItems(a: string, sa: State, b: string, sb: State) { Parse(a, sa) == Parse(b, sb) }

  lemma ParseDigit(d: nat, rest: string, zeros: bool, before: int)
    requires d < 10
    ensures SameItems([DigitChar(d, false)] + rest, OtherFmtChar(zeros, before, -1),
                      rest, OtherFmtChar(zeros, (if before < 0 then 0 else before * 10) + d, -1))
  {
    DigitReads(d);
    ParseStep(DigitChar(d, false), rest, OtherFmtChar(zeros, before, -1));
  }

  /** The width that digits accumulate to. */
  function WidthOf(ds: seq<nat>): int { if ds == [] then -1 else Value(ds, 10) }

  lemma WidthAppend(ds: seq<nat>, d: nat)
    ensures WidthOf(ds + [d]) == (if WidthOf(ds) < 0 then 0 else WidthOf(ds) * 10) + d
  {
    AppendValue(ds, d, 10);
  }

  /** The digits of a width accumulate to its value. */
  lemma {:induction false} ParseWidth(ds: seq<nat>, rest: string, zeros: bool)
    requires forall i :: 0 <= i < |ds| ==> ds[i] < 10
    ensures SameItems(IntegerPrinting.Text(ds, false) + rest, OtherFmtChar(zeros, -1, -1),
                      rest, OtherFmtChar(zeros, WidthOf(ds), -1))
    decreases |ds|
  {
    if ds == [] {
      assert IntegerPrinting.Text(ds, false) + rest == rest;
    } else {
      var high, d := ds[..|ds| - 1], ds[|ds| - 1];
      assert ds == high + [d];
      ParseWidth(high, [DigitChar(d, false)] + rest, zeros);
      ParseMoreWidth(high, d, rest, zeros);
    }
  }

  lemma ParseMoreWidth(ds: seq<nat>, d: nat, rest: string, zeros: bool)
    requires d < 10 && forall i :: 0 <= i < |ds| ==> ds[i] < 10
    requires SameItems(IntegerPrinting.Text(ds, false) + ([DigitChar(d, false)] + rest), OtherFmtChar(zeros, -1, -1),
                       [DigitChar(d, false)] + rest, OtherFmtChar(zeros, WidthOf(ds), -1))
    ensures SameItems(IntegerPrinting.Text(ds + [d], false) + rest, OtherFmtChar(zeros, -1, -1),
                      rest, OtherFmtChar(zeros, WidthOf(ds + [d]), -1))
  {
    var c := DigitChar(d, false);
    ParseDigit(d, rest, zeros, WidthOf(ds));
    WidthAppend(ds, d);
    TextAppend(ds, d, false);
    Regrouped(IntegerPrinting.Text(ds, false), c, rest);
  }

  /** Without a zero flag the first character is read as any other one is. */
  lemma FirstIsOther(c: char, rest: string)
    requires c != '0' && c != '%'
    ensures Parse([c] + rest, FirstFmtChar) == Parse([c] + rest, OtherFmtChar(false, -1, -1))
  {
    ParseStep(c, rest, FirstFmtChar);
    ParseStep(c, rest, OtherFmtChar(false, -1, -1));
  }

  predicate IsTypeLetter(c: char) { IsIntegerLetter(c) || c == 'c' || c == 's' }

  predicate IsIntegerLetter(c: char) { c == 'd' || c == 'i' || c == 'u' || c == 'o' || c == 'x' || c == 'X' }

  /** Width and type letter, once the zero flag has been dealt with. */
  lemma ParseWidthAndLetter(zeros: bool, width: int, letter: char, rest: string)
    requires width >= -1 && IsTypeLetter(letter)
    ensures Parse(WidthText(width) + ([letter] + rest), OtherFmtChar(zeros, -1, -1))
         == ItemOf(letter, zeros, width) + Parse(rest, Chars)
  {
    ParseWidth(WidthDigits(width), [letter] + rest, zeros);
    ParseLetter(zeros, width, letter, rest);
  }

  lemma ParseLetter(zeros: bool, width: int, letter: char, rest: string)
    requires IsTypeLetter(letter)
    ensures Parse([letter] + rest, OtherFmtChar(zeros, width, -1)) == ItemOf(letter, zeros, width) + Parse(rest, Chars)
  {
    ParseStep(letter, rest, OtherFmtChar(zeros, width, -1));
  }

  lemma WidthStart(width: int, letter: char, rest: string)
    requires (width == -1 || width > 0) && IsTypeLetter(letter)
    ensures var tail := WidthText(width) + ([letter] + rest); tail != "" && tail[0] != '0' && tail[0] != '%'
  {
    if width > 0 {
      assert WidthText(width)[0] == DigitChar(WidthDigits(width)[0], false);
    }
  }

  lemma ParseZeroFlag(tail: string)
    ensures Parse(['%'] + (['0'] + tail), Chars) == Parse(tail, OtherFmtChar(true, -1, -1))
  {
    ParseStep('0', tail, FirstFmtChar);
    ParseStep('%', ['0'] + tail, Chars);
  }

  lemma ParseNoFlag(tail: string)
    requires tail != "" && tail[0] != '0' && tail[0] != '%'
    ensures Parse(['%'] + tail, Chars) == Parse(tail, OtherFmtChar(false, -1, -1))
  {
    FirstIsOther(tail[0], tail[1..]);
    assert [tail[0]] + tail[1..] == tail;
    ParseStep('%', tail, Chars);
  }

  lemma DirectiveSplits(zeros: bool, width: int, letter: char, rest: string)
    ensures var tail := WidthText(width) + ([letter] + rest);
            Directive(zeros, width, letter) + rest == if zeros then ['%'] + (['0'] + tail) else ['%'] + tail
  {
    var text := WidthText(width);
    assert text + [letter] + rest == text + ([letter] + rest);
  }

  lemma ParseDirective(zeros: bool, width: int, letter: char, rest: string)
    requires WidthOk(zeros, width) && IsTypeLetter(letter)
    ensures Parse(Directive(zeros, width, letter) + rest, Chars) == ItemOf(letter, zeros, width) + Parse(rest, Chars)
  {
    var tail := WidthText(width) + ([letter] + rest);
    ParseWidthAndLetter(zeros, width, letter, rest);
    DirectiveSplits(zeros, width, letter, rest);
    if zeros {
      ParseZeroFlag(tail);
    } else {
      WidthStart(width, letter, rest);
      ParseNoFlag(tail);
    }
  }

  lemma ParseLiteral(c: char, rest: string)
    ensures Parse(Written(Literal(c)) + rest, Chars) == [Literal(c)] + Parse(rest, Chars)
  {
    if c == '%' {
      ParseStep('%', rest, FirstFmtChar);
      ParseStep('%', ['%'] + rest, Chars);
      assert Written(Literal(c)) + rest == ['%'] + (['%'] + rest);
    } else {
      ParseStep(c, rest, Chars);
    }
  }

  lemma LetterSelects(item: Item)
    requires !item.Literal?
    ensures IsTypeLetter(Letter(item))
    ensures ItemOf(Letter(item), item.Integer? && item.zeros, item.width) == [item]
  {}

  lemma ParseItem(item: Item, rest: string)
    requires Expressible(item)
    ensures Parse(Written(item) + rest, Chars) == [item] + Parse(rest, Chars)
  {
    if item.Literal? {
      ParseLiteral(item.c, rest);
    } else {
      LetterSelects(item);
      ParseDirective(item.Integer? && item.zeros, item.width, Letter(item), rest);
    }
  }

  /** Round trip: the machine reads every format written for a list of items as exactly those items. */
  lemma {:induction false} ParseUndoesWriting(items: seq<Item>)
    requires forall i :: 0 <= i < |items| ==> Expressible(items[i])
    ensures Parse(FormatFor(items), Chars) == items
    decreases |items|
  {
    if items != [] {
      ParseUndoesWriting(items[1..]);
      ParseItem(items[0], FormatFor(items[1..]));
    }
  }

  // ----- What each directive prints -----

  /** The text that a format with one directive prints for its argument. */
  lemma OneDirective(zeros: bool, width: int, letter: char, arg: Arg)
    requires WidthOk(zeros, width) && IsTypeLetter(letter) && Suits(ItemOf(letter, zeros, width)[0], arg)
    ensures var items := Parse(Directive(zeros, width, letter), Chars);
            Supplied(items, [arg]) && Output(items, [arg]) == Printed(ItemOf(letter, zeros, width)[0], arg)
  {
    var fmt, items := Directive(zeros, width, letter), ItemOf(letter, zeros, width);
    ParseDirective(zeros, width, letter, "");
    assert fmt + "" == fmt && items + [] == items;
    assert items[1..] == [] && Output([], [arg][1..]) == "";
    assert Printed(items[0], arg) + "" == Printed(items[0], arg);
  }

  function LetterBase(letter: char): nat {
    if letter == 'o' then 8 else if letter == 'x' || letter == 'X' then 16 else 10
  }

  /** What the argument means to the directive: a signed number for d and i alone. */
  function LetterValue(letter: char, raw: nat): int {
    if (letter == 'd' || letter == 'i') && raw >= 0x8000_0000 then raw - 0x1_0000_0000 else raw
  }

  lemma LetterPrints(zeros: bool, width: int, letter: char, raw: nat)
    requires IsIntegerLetter(letter) && raw < 0x1_0000_0000
    ensures var item := ItemOf(letter, zeros, width)[0];
            && Suits(item, Word(raw)) && item.Integer?
            && Printed(item, Word(raw))
               == Field(LetterValue(letter, raw), LetterBase(letter), letter == 'X', zeros, width)
  {
    var item := ItemOf(letter, zeros, width)[0];
    assert Meaning(raw, item.conv.Signed?) == LetterValue(letter, raw);
    assert Base(item.conv) == LetterBase(letter) && (item.conv.UpperHex? <==> letter == 'X');
  }

  lemma DirectiveIsField(zeros: bool, width: int, letter: char, raw: nat)
    requires WidthOk(zeros, width) && IsIntegerLetter(letter) && raw < 0x1_0000_0000
    ensures var items, value := Parse(Directive(zeros, width, letter), Chars), LetterValue(letter, raw);
            Supplied(items, [Word(raw)]) &&
            Output(items, [Word(raw)]) == Field(value, LetterBase(letter), letter == 'X', zeros, width)
  {
    LetterPrints(zeros, width, letter, raw);
    OneDirective(zeros, width, letter, Word(raw));
  }

  /**
   What a format with one integer directive prints, letter by letter: %d and %i the argument as a signed
   number in decimal, %u as an unsigned one, %o in octal, %x and %X in hexadecimal.
   */
  lemma IntegerDirectiveReadsBack(zeros: bool, width: int, letter: char, raw: nat)
    requires WidthOk(zeros, width) && IsIntegerLetter(letter) && raw < 0x1_0000_0000
    ensures var items := Parse(Directive(zeros, width, letter), Chars);
            Supplied(items, [Word(raw)]) &&
            var out := Output(items, [Word(raw)]);
            match letter
            case 'o' => ReadField(out, 8) == Some(raw)
            case 'x' => ReadField(out, 16) == Some(raw)
            case 'X' => ReadField(out, 16) == Some(raw)
            case 'u' => ReadField(out, 10) == Some(raw)
            case _ => ReadField(out, 10) == Some(if raw < 0x8000_0000 then raw else raw - 0x1_0000_0000)
  {
    DirectiveIsField(zeros, width, letter, raw);
    FieldReadsBack(LetterValue(letter, raw), LetterBase(letter), letter == 'X', zeros, width);
  }

  /**
   How it looks: hexadecimal letters are capitals for %X and small for %x; at least as wide as asked; with
   the zero flag there are no blanks, and without it no zero leads a longer number.
   */
  lemma IntegerDirectiveLooks(zeros: bool, width: int, letter: char, raw: nat)
    requires WidthOk(zeros, width) && IsIntegerLetter(letter) && raw < 0x1_0000_0000
    ensures var items := Parse(Directive(zeros, width, letter), Chars);
            Supplied(items, [Word(raw)]) &&
            var out := Output(items, [Word(raw)]);
            && (letter == 'X' ==> forall i :: 0 <= i < |out| ==> !('a' <= out[i] <= 'f'))
            && (letter != 'X' ==> forall i :: 0 <= i < |out| ==> !('A' <= out[i] <= 'F'))
            && |out| >= width && |out| > 0
            && (zeros ==> forall i :: 0 <= i < |out| ==> out[i] != ' ')
            && (!zeros && out[0] == '0' ==> |out| == 1)
  {
    DirectiveIsField(zeros, width, letter, raw);
    FieldLooks(LetterValue(letter, raw), LetterBase(letter), letter == 'X', zeros, width);
    PlainStarts(LetterValue(letter, raw), LetterBase(letter), letter == 'X', width);
  }

  /** Without the zero flag a field starts with a zero only if it is that zero alone. */
  lemma PlainStarts(m: int, base: nat, upper: bool, width: int)
    requires 2 <= base <= 16
    ensures var out := Field(m, base, upper, false, width); |out| > 0 && (out[0] == '0' ==> |out| == 1)
  {
    var ds := Digits(Magnitude(m), base);
    assert IntegerPrinting.Text(ds, upper)[0] == DigitChar(ds[0], upper);
  }

  /** %c prints its character, and %s its string, behind blanks up to the width. */
  lemma TextDirectivePrints(width: int, c: char, s: string)
    requires WidthOk(false, width)
    ensures var items := Parse(Directive(false, width, 'c'), Chars);
            Supplied(items, [Char(c)]) && RightAligned(Output(items, [Char(c)]), [c], width)
    ensures var items := Parse(Directive(false, width, 's'), Chars);
            Supplied(items, [Str(s)]) && RightAligned(Output(items, [Str(s)]), s, width)
  {
    OneDirective(false, width, 'c', Char(c));
    OneDirective(false, width, 's', Str(s));
  }

  /** s behind as many blanks as the width asks for, if any. */
  predicate RightAligned(out: string, s: string, width: int) {
    && |out| == (if width > |s| then width else |s|)
    && out[|out| - |s|..] == s && forall i :: 0 <= i < |out| - |s| ==> out[i] == ' '
  }

  /** The text of a width is its decimal notation. */
  lemma WidthReadsBack(width: nat)
    ensures ReadField(WidthText(width), 10) == Some(width)
  {
    FieldReadsBack(width, 10, false, false, -1);
    assert Field(width, 10, false, false, -1) == WidthText(width);
  }

  /** A precision is read and ignored, and so is a length modifier. */
  lemma PrecisionIsIgnored(precision: seq<nat>, zeros: bool, width: int, letter: char, rest: string)
    requires IsTypeLetter(letter) && forall i :: 0 <= i < |precision| ==> precision[i] < 10
    ensures Parse(['.'] + (IntegerPrinting.Text(precision, false) + ([letter] + rest)), OtherFmtChar(zeros, width, -1))
            == Parse([letter] + rest, OtherFmtChar(zeros, width, -1))
    ensures Parse(['l'] + ([letter] + rest), OtherFmtChar(zeros, width, -1))
            == Parse([letter] + rest, OtherFmtChar(zeros, width, -1))
  {
    var tail := [letter] + rest;
    ParseStep('.', IntegerPrinting.Text(precision, false) + tail, OtherFmtChar(zeros, width, -1));
    SkipPrecision(precision, zeros, width, 0, letter, rest);
    ParseLetter(zeros, width, letter, rest);
    ParseStep('l', tail, OtherFmtChar(zeros, width, -1));
  }

  lemma {:induction false} SkipPrecision(ds: seq<nat>, zeros: bool, width: int, after: nat, letter: char, rest: string)
    requires IsTypeLetter(letter) && forall i :: 0 <= i < |ds| ==> ds[i] < 10
    ensures Parse(IntegerPrinting.Text(ds, false) + ([letter] + rest), OtherFmtChar(zeros, width, after))
            == ItemOf(letter, zeros, width) + Parse(rest, Chars)
    decreases |ds|
  {
    var tail := [letter] + rest;
    if ds == [] {
      assert IntegerPrinting.Text(ds, false) + tail == tail;
      ParseStep(letter, rest, OtherFmtChar(zeros, width, after));
    } else {
      var c, low := DigitChar(ds[0], false), ds[1..];
      DigitReads(ds[0]);
      assert IntegerPrinting.Text(ds, false) + tail == [c] + (IntegerPrinting.Text(low, false) + tail);
      ParseStep(c, IntegerPrinting.Text(low, false) + tail, OtherFmtChar(zeros, width, after));
      SkipPrecision(low, zeros, width, after * 10 + ds[0], letter, rest);
    }
  }

  /** A directive of any other letter prints nothing and takes no argument. */
  lemma UnknownDirective(letter: char, rest: string)
    requires !IsTypeLetter(letter) && letter != '%' && letter != '.' && letter != 'l' && !IsDigit(letter)
    ensures Parse(['%'] + ([letter] + rest), Chars) == Parse(rest, Chars)
  {
    ParseStep('%', [letter] + rest, Chars);
    ParseStep(letter, rest, FirstFmtChar);
  }

  // ----- The loop -----

  method PrintField(item: Item, arg: Arg) returns (out: string)
    requires Suits(item, arg) && !item.Literal?
    ensures out == Printed(item, arg)
  {
    match item
    case Integer(zeros, width, conv) =>
      out := PrintInteger(arg.raw, conv.Signed?, Base(conv), conv.UpperHex?, zeros, width);
    case Character(width) =>
      var padding := RepChar(' ', width - 1);
      out := padding + [arg.c];
    case Text(width) =>
      var padding := RepChar(' ', width - |arg.s|);
      out := padding + arg.s;
  }

  /** One item in front of others. */
  lemma OutputFirst(item: Item, items: seq<Item>, args: seq<Arg>)
    requires Supplied([item] + items, args)
    ensures item.Literal? ==> Supplied(items, args) && Output([item] + items, args) == [item.c] + Output(items, args)
    ensures !item.Literal? ==> && args != [] && Suits(item, args[0]) && Supplied(items, args[1..])
                               && Output([item] + items, args) == Printed(item, args[0]) + Output(items, args[1..])
  {
    assert ([item] + items)[1..] == items;
  }

  /** Prints what one character has completed, if anything. */
  method PrintItems(items: seq<Item>, args: seq<Arg>, ghost later: seq<Item>) returns (text: string, left: seq<Arg>)
    requires |items| <= 1 && Supplied(items + later, args)
    ensures Supplied(later, left) && Output(items + later, args) == text + Output(later, left)
  {
    text, left := "", args;
    if items == [] {
      assert items + later == later;
    } else {
      var item := items[0];
      assert items == [item];
      OutputFirst(item, later, args);
      if item.Literal? {
        text := [item.c];
      } else {
        text := PrintField(item, args[0]);
        left := args[1..];
      }
    }
  }

  /** One character: the machine advances, and what it completes is printed. */
  method PrintNext(state: State, c: char, args: seq<Arg>, ghost rest: string)
      returns (state': State, text: string, left: seq<Arg>)
    requires Supplied(Parse([c] + rest, state), args)
    ensures Supplied(Parse(rest, state'), left)
    ensures Output(Parse([c] + rest, state), args) == text + Output(Parse(rest, state'), left)
  {
    ParseStep(c, rest, state);
    var (next, items) := Next(state, c);
    state' := next;
    text, left := PrintItems(items, args, Parse(rest, next));
  }

  /** Prints a format: the machine's state advances with each character, and each conversion takes an argument. */
  method PrintFormat(fmt: string, args: seq<Arg>) returns (out: string)
    requires Supplied(Parse(fmt, Chars), args)
    ensures out == Output(Parse(fmt, Chars), args)
  {
    var w, state, left := 0, Chars, args;
    out := "";
    ghost var rest, all := fmt, Output(Parse(fmt, Chars), args);
    while w < |fmt|
      invariant w <= |fmt| && rest == fmt[w..] && Supplied(Parse(rest, state), left)
      invariant out + Output(Parse(rest, state), left) == all
      decreases |fmt| - w
    {
      assert rest == [fmt[w]] + fmt[w + 1..];
      rest := fmt[w + 1..];
      var text;
      state, text, left := PrintNext(state, fmt[w], left, rest);
      out := out + text;
      w := w + 1;
    }
  }

  // ----- alt_printf's own loop -----

  /** The conversions alt_printf knows; others print nothing and take no argument. */
  function AltItem(c: char): (items: seq<Item>)
    ensures |items| <= 1
  {
    match c
    case '%' => [Literal('%')]
    case 'c' => [Character(-1)]
    case 'x' => [Integer(false, -1, Hex)]
    case 's' => [Text(-1)]
    case _ => []
  }

  /** What a format denotes to alt_printf. A final lone percent sign ends it. */
  function AltParse(fmt: string): seq<Item>
    decreases |fmt|
  {
    if fmt == "" then []
    else if fmt[0] != '%' then [Literal(fmt[0])] + AltParse(fmt[1..])
    else if |fmt| == 1 then []
    else AltItem(fmt[1]) + AltParse(fmt[2..])
  }

  /** Every percent sign is followed by another one or by c, s or x. */
  predicate Plain(fmt: string)
    decreases |fmt|
  {
    fmt == ""
    || (fmt[0] != '%' && Plain(fmt[1..]))
    || (|fmt| > 1 && fmt[0] == '%' && AltItem(fmt[1]) != [] && Plain(fmt[2..]))
  }

  /** On such formats the two printfs agree, whatever the arguments. */
  lemma {:induction false} PrintfsAgree(fmt: string)
    requires Plain(fmt)
    ensures AltParse(fmt) == Parse(fmt, Chars)
    decreases |fmt|
  {
    if fmt != "" {
      if fmt[0] != '%' {
        PrintfsAgree(fmt[1..]);
      } else {
        PrintfsAgree(fmt[2..]);
        DirectiveAgrees(fmt[1], fmt[2..]);
        assert fmt == ['%'] + ([fmt[1]] + fmt[2..]);
      }
    }
  }

  lemma DirectiveAgrees(c: char, rest: string)
    requires AltItem(c) != []
    ensures Parse(['%'] + ([c] + rest), Chars) == AltItem(c) + Parse(rest, Chars)
  {
    FirstLetter(c);
    ParseStep('%', [c] + rest, Chars);
    ParseStep(c, rest, FirstFmtChar);
  }

  lemma FirstLetter(c: char)
    requires AltItem(c) != []
    ensures Next(FirstFmtChar, c) == (Chars, AltItem(c))
  {}

  /** Other directives, and a last lone percent sign, print nothing and take no argument. */
  lemma AltOthersPrintNothing(c: char, rest: string)
    requires c != '%' && c != 'c' && c != 'x' && c != 's'
    ensures AltParse(['%'] + ([c] + rest)) == AltParse(rest) && AltParse("%") == [] && Parse("%", Chars) == []
  {
    AltDirective(c, rest);
    assert "%"[1..] == "";
  }

  method PrintAltField(item: Item, arg: Arg) returns (out: string)
    requires Suits(item, arg) && (item == Character(-1) || item == Integer(false, -1, Hex) || item == Text(-1))
    ensures out == Printed(item, arg)
  {
    match item
    case Integer(_, _, _) => out := PrintHex(arg.raw);
    case Character(_) => out := [arg.c];
    case Text(_) => out := arg.s;
  }

  /** One round of the loop: the items are those of one literal or directive. */
  method PrintAltItems(items: seq<Item>, args: seq<Arg>, ghost later: seq<Item>)
      returns (text: string, left: seq<Arg>)
    requires |items| <= 1 && Supplied(items + later, args)
    requires items != [] ==> items[0].Literal? || exists c :: items == AltItem(c)
    ensures Supplied(later, left) && Output(items + later, args) == text + Output(later, left)
  {
    text, left := "", args;
    if items == [] {
      assert items + later == later;
    } else {
      var item := items[0];
      assert items == [item];
      OutputFirst(item, later, args);
      if item.Literal? {
        text := [item.c];
      } else {
        text := PrintAltField(item, args[0]);
        left := args[1..];
      }
    }
  }

  /** What one round of alt_printf's loop takes from the format. */
  lemma AltStep(c: char, rest: string)
    requires c != '%'
    ensures AltParse([c] + rest) == [Literal(c)] + AltParse(rest)
  {
    assert ([c] + rest)[1..] == rest;
  }

  lemma AltDirective(c: char, rest: string)
    ensures AltParse(['%'] + ([c] + rest)) == AltItem(c) + AltParse(rest)
  {
    var fmt := ['%'] + ([c] + rest);
    assert fmt[1] == c && fmt[2..] == rest;
  }

  ghost predicate ToPrintAt(fmt: string, w: nat, args: seq<Arg>, out: string, all: string, u: nat) {
    u == w ==>
      && u <= |fmt| && Supplied(AltParse(fmt[u..]), args) && out + Output(AltParse(fmt[u..]), args) == all
  }

  /** With `out` printed, the rest of the format at w and the arguments left make up `all`. */
  ghost predicate ToPrint(fmt: string, w: nat, args: seq<Arg>, out: string, all: string) {
    forall u: nat {:trigger ToPrintAt(fmt, w, args, out, all, u)} :: ToPrintAt(fmt, w, args, out, all, u)
  }

  lemma PrintBegins(fmt: string, args: seq<Arg>)
    requires Supplied(AltParse(fmt), args)
    ensures ToPrint(fmt, 0, args, "", Output(AltParse(fmt), args))
  {
    assert fmt[0..] == fmt;
  }

  /** At the end, or before a last lone percent sign, everything is printed. */
  lemma PrintEnds(fmt: string, w: nat, args: seq<Arg>, out: string, all: string)
    requires ToPrint(fmt, w, args, out, all) && (w == |fmt| || (w + 1 == |fmt| && fmt[w] == '%'))
    ensures out == all
  {
    assert ToPrintAt(fmt, w, args, out, all, w);
    assert AltParse(fmt[w..]) == [];
  }

  /** What one round takes from the format, and what it leaves. */
  lemma AltRound(fmt: string, w: nat) returns (items: seq<Item>, size: nat)
    requires w < |fmt| && !(w + 1 == |fmt| && fmt[w] == '%')
    ensures if fmt[w] != '%' then size == 1 && items == [Literal(fmt[w])]
            else size == 2 && w + 2 <= |fmt| && items == AltItem(fmt[w + 1])
    ensures AltParse(fmt[w..]) == items + AltParse(fmt[w + size..])
  {
    if fmt[w] != '%' {
      items, size := [Literal(fmt[w])], 1;
      assert fmt[w..] == [fmt[w]] + fmt[w + 1..];
      AltStep(fmt[w], fmt[w + 1..]);
    } else {
      items, size := AltItem(fmt[w + 1]), 2;
      assert fmt[w..] == ['%'] + ([fmt[w + 1]] + fmt[w + 2..]);
      AltDirective(fmt[w + 1], fmt[w + 2..]);
    }
  }

  lemma PrintMoves(fmt: string, w: nat, args: seq<Arg>, out: string, all: string,
                   size: nat, text: string, left: seq<Arg>)
    requires ToPrint(fmt, w, args, out, all) && w + size <= |fmt| && Supplied(AltParse(fmt[w..]), args)
    requires Supplied(AltParse(fmt[w + size..]), left)
    requires Output(AltParse(fmt[w..]), args) == text + Output(AltParse(fmt[w + size..]), left)
    ensures ToPrint(fmt, w + size, left, out + text, all)
  {
    var rest := Output(AltParse(fmt[w + size..]), left);
    assert ToPrintAt(fmt, w, args, out, all, w);
    assert out + (text + rest) == out + text + rest;
    assert ToPrintAt(fmt, w + size, left, out + text, all, w + size);
  }

  /** One round: `size` characters of the format at w are used up. */
  method PrintAltNext(fmt: string, w: nat, args: seq<Arg>, ghost out: string, ghost all: string)
      returns (text: string, left: seq<Arg>, size: nat)
    requires w < |fmt| && !(w + 1 == |fmt| && fmt[w] == '%') && ToPrint(fmt, w, args, out, all)
    ensures 0 < size <= |fmt| - w && ToPrint(fmt, w + size, left, out + text, all)
  {
    ghost var parsed, used := AltRound(fmt, w);
    assert ToPrintAt(fmt, w, args, out, all, w);
    var items := [Literal(fmt[w])];
    size := 1;
    if fmt[w] == '%' {
      items := AltItem(fmt[w + 1]);
      size := 2;
    }
    text, left := PrintAltItems(items, args, AltParse(fmt[w + size..]));
    PrintMoves(fmt, w, args, out, all, size, text, left);
  }

  /** alt_printf prints, for every format, the literals and fields that the format denotes to it, in order. */
  method PrintAlt(fmt: string, args: seq<Arg>) returns (out: string)
    requires Supplied(AltParse(fmt), args)
    ensures out == Output(AltParse(fmt), args)
  {
    var w, left := 0, args;
    out := "";
    ghost var all := Output(AltParse(fmt), args);
    PrintBegins(fmt, args);
    while w < |fmt|
      invariant w <= |fmt| && ToPrint(fmt, w, left, out, all)
      decreases |fmt| - w
    {
      if w + 1 == |fmt| && fmt[w] == '%' {
        PrintEnds(fmt, w, left, out, all);
        return;
      }
      var text, size;
      text, left, size := PrintAltNext(fmt, w, left, out, all);
      out := out + text;
      w := w + size;
    }
    PrintEnds(fmt, w, left, out, all);
  }
}
