/**
 * The textual orders of a portfolio definition: the Python string splitting
 * they go through, the `<buy|sell> <count>@<price>` grammar, what applying one
 * order or a comma-separated list of them does to an entry, and
 * Portfolio.average_buyin over `count@price` lots.
 *
 * Python's float() is foreign: it is the parameter `toFloat`, whose None
 * stands for the ValueError float() raises on text that is not a number.
 */
module Orders {
  import opened Ledger

  // ---------------------------------------------------------------------
  // Python string splitting
  // ---------------------------------------------------------------------

  /** str.isspace() for one character: the characters str.split() and str.strip() treat as blanks. */
  predicate IsSpace(c: char)
  {
    var n := c as int;
    || (0x09 <= n <= 0x0D) || (0x1C <= n <= 0x20) || n == 0x85 || n == 0xA0 || n == 0x1680
    || (0x2000 <= n <= 0x200A) || n == 0x2028 || n == 0x2029 || n == 0x202F || n == 0x205F
    || n == 0x3000
  }

  /** A word: non-empty and without blanks. */
  predicate IsWord(w: string)
  {
    |w| > 0 && forall i :: 0 <= i < |w| ==> !IsSpace(w[i])
  }

  /** sep.join(pieces) for a one-character separator. */
  function Join(pieces: seq<string>, sep: char): string
    requires |pieces| > 0
  {
    if |pieces| == 1 then pieces[0] else pieces[0] + [sep] + Join(pieces[1..], sep)
  }

  /** s.split(sep) for a one-character separator: never empty, and joining the pieces gives s back. */
  function Split(s: string, sep: char): (r: seq<string>)
    ensures |r| > 0
    ensures forall i :: 0 <= i < |r| ==> sep !in r[i]
    ensures Join(r, sep) == s
    decreases |s|
  {
    if |s| == 0 then [""]
    else
      var rest := Split(s[1..], sep);
      if s[0] == sep then
        assert s == [] + [sep] + s[1..];
        [""] + rest
      else
        var r := [[s[0]] + rest[0]] + rest[1..];
        assert r[1..] == rest[1..];
        assert s == [s[0]] + s[1..];
        r
  }

  /** Splitting a piece that holds no separator gives the piece alone. */
  lemma {:induction false} SplitWithoutSeparator(w: string, sep: char)
    requires sep !in w
    ensures Split(w, sep) == [w]
    decreases |w|
  {
    if |w| > 0 {
      SplitWithoutSeparator(w[1..], sep);
      assert [w[0]] + w[1..] == w;
    }
  }

  /** Splitting at the first separator: the piece before it, then the split of the rest. */
  lemma {:induction false} SplitAfterPiece(w: string, sep: char, tail: string)
    requires sep !in w
    ensures Split(w + [sep] + tail, sep) == [w] + Split(tail, sep)
    decreases |w|
  {
    var s := w + [sep] + tail;
    if |w| == 0 {
      assert s[1..] == tail;
    } else {
      assert s[1..] == w[1..] + [sep] + tail;
      SplitAfterPiece(w[1..], sep, tail);
      assert [w[0]] + w[1..] == w;
    }
  }

  /** Split undoes Join when no piece holds the separator. */
  lemma {:induction false} SplitJoin(pieces: seq<string>, sep: char)
    requires |pieces| > 0
    requires forall i :: 0 <= i < |pieces| ==> sep !in pieces[i]
    ensures Split(Join(pieces, sep), sep) == pieces
    decreases |pieces|
  {
    if |pieces| == 1 {
      SplitWithoutSeparator(pieces[0], sep);
    } else {
      SplitJoin(pieces[1..], sep);
      SplitAfterPiece(pieces[0], sep, Join(pieces[1..], sep));
      assert [pieces[0]] + pieces[1..] == pieces;
    }
  }

  /** s.split() with no argument: the maximal runs of non-blank characters, in order. */
  function Words(s: string): (r: seq<string>)
    ensures forall i :: 0 <= i < |r| ==> IsWord(r[i])
    ensures |s| > 0 && !IsSpace(s[0]) ==> |r| > 0 && |r[0]| > 0 && r[0][0] == s[0]
    ensures (forall i :: 0 <= i < |s| ==> IsSpace(s[i])) ==> r == []
    decreases |s|
  {
    if |s| == 0 then []
    else
      var rest := Words(s[1..]);
      if IsSpace(s[0]) then rest
      else if |s| > 1 && !IsSpace(s[1]) then
        var w := [s[0]] + rest[0];
        assert IsWord(w) by {
          forall i | 0 <= i < |w| ensures !IsSpace(w[i]) {
            if i > 0 { assert w[i] == rest[0][i - 1]; }
          }
        }
        [w] + rest[1..]
      else
        [[s[0]]] + rest
  }

  /** s.lstrip(): the blanks at the front removed. */
  function TrimStart(s: string): (r: string)
    ensures |r| == 0 || !IsSpace(r[0])
    decreases |s|
  {
    if |s| > 0 && IsSpace(s[0]) then TrimStart(s[1..]) else s
  }

  /** s.rstrip(): the blanks at the end removed. */
  function TrimEnd(s: string): (r: string)
    ensures |r| == 0 || !IsSpace(r[|r| - 1])
    decreases |s|
  {
    if |s| > 0 && IsSpace(s[|s| - 1]) then TrimEnd(s[..|s| - 1]) else s
  }

  /** s.strip(). */
  function Strip(s: string): string
  {
    TrimEnd(TrimStart(s))
  }

  /** Blanks at the front do not change the words. */
  lemma {:induction false} WordsIgnoreLeadingBlanks(s: string)
    ensures Words(TrimStart(s)) == Words(s)
    decreases |s|
  {
    if |s| > 0 && IsSpace(s[0]) {
      WordsIgnoreLeadingBlanks(s[1..]);
    }
  }

  /** A blank appended at the end does not change the words. */
  lemma {:induction false} WordsIgnoreTrailingBlank(s: string, b: char)
    requires IsSpace(b)
    ensures Words(s + [b]) == Words(s)
    decreases |s|
  {
    var t := s + [b];
    if |s| > 0 {
      assert t[1..] == s[1..] + [b];
      WordsIgnoreTrailingBlank(s[1..], b);
    }
  }

  /** Blanks at the end do not change the words. */
  lemma {:induction false} WordsIgnoreTrailingBlanks(s: string)
    ensures Words(TrimEnd(s)) == Words(s)
    decreases |s|
  {
    if |s| > 0 && IsSpace(s[|s| - 1]) {
      var init := s[..|s| - 1];
      WordsIgnoreTrailingBlanks(init);
      assert s == init + [s[|s| - 1]];
      WordsIgnoreTrailingBlank(init, s[|s| - 1]);
    }
  }

  /** `order.strip().split()` is `order.split()`: the strip in load_from_config changes nothing. */
  lemma WordsIgnoreStrip(s: string)
    ensures Words(Strip(s)) == Words(s)
  {
    WordsIgnoreLeadingBlanks(s);
    WordsIgnoreTrailingBlanks(TrimStart(s));
  }

  /** A word alone splits into itself. */
  lemma {:induction false} WordsOfWord(w: string)
    requires IsWord(w)
    ensures Words(w) == [w]
    decreases |w|
  {
    var rest := Words(w[1..]);
    if |w| > 1 {
      WordsOfWord(w[1..]);
      assert !IsSpace(w[0]) && !IsSpace(w[1]);
      assert Words(w) == [[w[0]] + rest[0]] + rest[1..];
      assert [w[0]] + w[1..] == w;
    } else {
      assert rest == [];
      assert !IsSpace(w[0]);
      assert w == [w[0]];
    }
  }

  /** Two words separated by one blank split into those two words. */
  lemma {:induction false} WordsOfPair(a: string, b: char, w: string)
    requires IsWord(a) && IsSpace(b) && IsWord(w)
    ensures Words(a + [b] + w) == [a, w]
    decreases |a|
  {
    var s := a + [b] + w;
    if |a| == 1 {
      assert s[1..] == [b] + w;
      assert s[1..][1..] == w;
      WordsOfWord(w);
      assert Words(s[1..]) == [w];
      assert !IsSpace(s[0]) && IsSpace(s[1]);
      assert a == [s[0]];
    } else {
      assert s[1..] == a[1..] + [b] + w;
      WordsOfPair(a[1..], b, w);
      assert [a[0]] + a[1..] == a;
    }
  }

  /** The words glued back together, with nothing between them. */
  function Concat(words: seq<string>): string
  {
    if |words| == 0 then [] else words[0] + Concat(words[1..])
  }

  /** The text with every blank removed. */
  function NonBlanks(s: string): string
  {
    if |s| == 0 then [] else (if IsSpace(s[0]) then [] else [s[0]]) + NonBlanks(s[1..])
  }

  /** split() loses the blanks and nothing else: the words glued together are the text without its blanks. */
  lemma {:induction false} WordsKeepNonBlanks(s: string)
    ensures Concat(Words(s)) == NonBlanks(s)
    decreases |s|
  {
    if |s| > 0 {
      WordsKeepNonBlanks(s[1..]);
      var rest := Words(s[1..]);
      if !IsSpace(s[0]) {
        if |s| > 1 && !IsSpace(s[1]) {
          assert Words(s) == [[s[0]] + rest[0]] + rest[1..];
          assert Concat(rest) == rest[0] + Concat(rest[1..]);
          assert Concat(Words(s)) == [s[0]] + rest[0] + Concat(rest[1..]);
        } else {
          assert Words(s) == [[s[0]]] + rest;
          assert ([[s[0]]] + rest)[1..] == rest;
        }
      }
    }
  }

  /**
   * A blank ends a word: split() of a text around a blank is the words before
   * it followed by the words after it. With WordsOfWord this fixes split()
   * on every text: the words are the maximal blank-free runs, in order.
   */
  lemma {:induction false} WordsSplitAtBlank(a: string, b: char, w: string)
    requires IsSpace(b)
    ensures Words(a + [b] + w) == Words(a) + Words(w)
    decreases |a|
  {
    if |a| == 0 {
      assert a + [b] + w == [b] + w && ([b] + w)[1..] == w;
    } else {
      WordsSplitAtBlank(a[1..], b, w);
      WordsSplitAtBlankStep(a, b, w);
    }
  }

  /** The step of WordsSplitAtBlank: one more character in front of the text before the blank. */
  lemma WordsSplitAtBlankStep(a: string, b: char, w: string)
    requires IsSpace(b) && |a| > 0
    requires Words(a[1..] + [b] + w) == Words(a[1..]) + Words(w)
    ensures Words(a + [b] + w) == Words(a) + Words(w)
  {
    if IsSpace(a[0]) {
      AroundBlank(a, b, w);
      WordsSkipBlank(a + [b] + w);
      WordsSkipBlank(a);
    } else if |a| > 1 && !IsSpace(a[1]) {
      WordsSplitAtBlankJoin(a, b, w);
    } else {
      WordsSplitAtBlankApart(a, b, w);
    }
  }

  /** The step of WordsSplitAtBlank when the first character joins the first word. */
  lemma WordsSplitAtBlankJoin(a: string, b: char, w: string)
    requires IsSpace(b) && |a| > 1 && !IsSpace(a[0]) && !IsSpace(a[1])
    requires Words(a[1..] + [b] + w) == Words(a[1..]) + Words(w)
    ensures Words(a + [b] + w) == Words(a) + Words(w)
  {
    AroundBlank(a, b, w);
    WordsJoinFirst(a + [b] + w);
    WordsJoinFirst(a);
    WordsJoinAppend(a[0], Words(a[1..]), Words(w));
  }

  /** The step of WordsSplitAtBlank when the first character is a word of its own. */
  lemma WordsSplitAtBlankApart(a: string, b: char, w: string)
    requires IsSpace(b) && |a| > 0 && !IsSpace(a[0]) && (|a| == 1 || IsSpace(a[1]))
    requires Words(a[1..] + [b] + w) == Words(a[1..]) + Words(w)
    ensures Words(a + [b] + w) == Words(a) + Words(w)
  {
    AroundBlank(a, b, w);
    WordsSeparateFirst(a + [b] + w);
    WordsSeparateFirst(a);
    ConcatAssociates([[a[0]]], Words(a[1..]), Words(w));
  }

  /** The first two characters and the tail of a text that continues with a blank. */
  lemma AroundBlank(a: string, b: char, w: string)
    requires |a| > 0
    ensures var s := a + [b] + w;
      && s[0] == a[0] && s[1..] == a[1..] + [b] + w
      && s[1] == (if |a| == 1 then b else a[1])
  {
  }

  /** Sequence concatenation is associative. */
  lemma ConcatAssociates<T>(x: seq<T>, y: seq<T>, z: seq<T>)
    ensures x + (y + z) == (x + y) + z
  {
  }

  /** A leading blank is skipped. */
  lemma WordsSkipBlank(t: string)
    requires |t| > 0 && IsSpace(t[0])
    ensures Words(t) == Words(t[1..])
  {
  }

  /** A leading character followed by a blank, or by nothing, is a word of its own. */
  lemma WordsSeparateFirst(t: string)
    requires |t| > 0 && !IsSpace(t[0]) && (|t| == 1 || IsSpace(t[1]))
    ensures Words(t) == [[t[0]]] + Words(t[1..])
  {
  }

  /** A leading character followed by another non-blank joins the first word of the rest. */
  lemma WordsJoinFirst(t: string)
    requires |t| > 1 && !IsSpace(t[0]) && !IsSpace(t[1])
    ensures |Words(t[1..])| > 0
    ensures Words(t) == [[t[0]] + Words(t[1..])[0]] + Words(t[1..])[1..]
  {
  }

  /** Joining a character to the first word commutes with appending more words. */
  lemma WordsJoinAppend(c: char, rest: seq<string>, more: seq<string>)
    requires |rest| > 0
    ensures var whole := rest + more;
      [[c] + whole[0]] + whole[1..] == ([[c] + rest[0]] + rest[1..]) + more
  {
    var whole := rest + more;
    assert whole[0] == rest[0];
    assert whole[1..] == rest[1..] + more;
  }

  // ---------------------------------------------------------------------
  // One order: `<buy|sell> <count>@<price>`
  // ---------------------------------------------------------------------

  datatype OrderKind = BuyOrder | SellOrder

  /** An order whose two tokens passed every check; its numbers are still text. */
  datatype ParsedOrder = ParsedOrder(kind: OrderKind, countText: string, priceText: string)

  /** The TransactionType value an order's first token must spell. */
  function KindText(k: OrderKind): string
  {
    match k
    case BuyOrder => "buy"
    case SellOrder => "sell"
  }

  /**
   * The checks of load_from_config: two tokens after strip().split(), the
   * first "buy" or "sell", the second holding exactly one '@'. None means the
   * order is skipped.
   */
  function ParseOrder(order: string): (r: Option<ParsedOrder>)
    ensures r.Some? <==>
      (var parts := Words(order);
       |parts| == 2 && (parts[0] == "buy" || parts[0] == "sell") && |Split(parts[1], '@')| == 2)
    ensures r.Some? ==>
      var parts := Words(order);
      && KindText(r.value.kind) == parts[0]
      && parts[1] == r.value.countText + "@" + r.value.priceText
      && Split(parts[1], '@') == [r.value.countText, r.value.priceText]
  {
    WordsIgnoreStrip(order);
    var parts := Words(Strip(order));
    if |parts| != 2 then None
    else if parts[0] != "buy" && parts[0] != "sell" then None
    else
      var priceParts := Split(parts[1], '@');
      if |priceParts| != 2 then None
      else
        assert Join(priceParts, '@') == priceParts[0] + ['@'] + priceParts[1];
        Some(ParsedOrder(if parts[0] == "buy" then BuyOrder else SellOrder, priceParts[0], priceParts[1]))
  }

  /** How an order is written in a portfolio definition. */
  function FormatOrder(o: ParsedOrder): string
  {
    KindText(o.kind) + " " + o.countText + "@" + o.priceText
  }

  /** A number's text as it can stand in an order: a word with no '@' and no ','. */
  predicate IsNumberText(t: string)
  {
    IsWord(t) && '@' !in t && ',' !in t
  }

  /** Parsing a written order gives the order back. */
  lemma ParseFormatOrder(o: ParsedOrder)
    requires IsNumberText(o.countText) && IsNumberText(o.priceText)
    ensures ParseOrder(FormatOrder(o)) == Some(o)
  {
    FormatOrderWords(o);
    var r := ParseOrder(FormatOrder(o));
    assert r.Some?;
    assert KindText(r.value.kind) == KindText(o.kind);
    assert [r.value.countText, r.value.priceText] == [o.countText, o.priceText];
    assert r.value.kind == o.kind;
    assert r.value.countText == o.countText && r.value.priceText == o.priceText;
  }

  /** A written order is two words: its kind, then count '@' price, which splits back into the numbers. */
  lemma FormatOrderWords(o: ParsedOrder)
    requires IsNumberText(o.countText) && IsNumberText(o.priceText)
    ensures Words(FormatOrder(o)) == [KindText(o.kind), o.countText + "@" + o.priceText]
    ensures Split(o.countText + "@" + o.priceText, '@') == [o.countText, o.priceText]
  {
    var kind := KindText(o.kind);
    var lot := o.countText + "@" + o.priceText;
    NumberLot(o.countText, o.priceText);
    assert IsWord(kind);
    assert FormatOrder(o) == kind + [' '] + lot;
    WordsOfPair(kind, ' ', lot);
  }

  /** Two numbers joined by '@' make one word that splits back into them. */
  lemma NumberLot(count: string, price: string)
    requires IsNumberText(count) && IsNumberText(price)
    ensures IsWord(count + "@" + price)
    ensures Split(count + "@" + price, '@') == [count, price]
  {
    var lot := count + "@" + price;
    assert lot == Join([count, price], '@');
    SplitJoin([count, price], '@');
    forall i | 0 <= i < |lot| ensures !IsSpace(lot[i]) {
      if i < |count| { assert lot[i] == count[i]; }
      else if i > |count| { assert lot[i] == price[i - |count| - 1]; }
    }
  }

  /** The transaction an order becomes once its numbers are read. */
  function OrderTransaction(k: OrderKind, count: real, price: real): (t: Transaction)
    ensures t.Buy? <==> k == BuyOrder
    ensures t.Buy? || t.Sell?
    ensures t.count == count && t.price == price
  {
    match k
    case BuyOrder => Buy(count, price)
    case SellOrder => Sell(count, price)
  }

  /**
   * What one order did: applied; skipped as malformed; a number that float()
   * rejects (ValueError); or a BUY that divides by a zero count
   * (ZeroDivisionError). The last two abort the whole load.
   */
  datatype Status = Applied | Skipped | BadNumber | DivisionByZero
  {
    predicate Fails() { this == BadNumber || this == DivisionByZero }
  }

  /** One iteration of the loop over orders in load_from_config. */
  function ApplyOrder(e: EntryState, order: string, toFloat: string -> Option<real>): (r: (EntryState, Status))
    ensures ParseOrder(order).None? <==> r.1 == Skipped
    ensures r.1 == BadNumber <==>
      ParseOrder(order).Some? &&
      (toFloat(ParseOrder(order).value.countText).None? || toFloat(ParseOrder(order).value.priceText).None?)
    ensures r.1 == Skipped || r.1 == BadNumber ==> r.0 == e
    ensures r.1 == Applied || r.1 == DivisionByZero ==>
      var o := ParseOrder(order).value;
      && toFloat(o.countText).Some? && toFloat(o.priceText).Some?
      && var t := OrderTransaction(o.kind, toFloat(o.countText).value, toFloat(o.priceText).value);
      && r.0 == Apply(e, t)
      && (r.1 == DivisionByZero <==> Raises(e, t))
  {
    match ParseOrder(order)
    case None => (e, Skipped)
    case Some(o) =>
      match toFloat(o.countText)
      case None => (e, BadNumber)
      case Some(count) =>
        match toFloat(o.priceText)
        case None => (e, BadNumber)
        case Some(price) =>
          var t := OrderTransaction(o.kind, count, price);
          (Apply(e, t), if Raises(e, t) then DivisionByZero else Applied)
  }

  /**
   * The loop over orders: each order applied in textual order, stopping at
   * the first one that fails; the flag says whether all were processed.
   */
  function ApplyOrders(e: EntryState, orders: seq<string>, toFloat: string -> Option<real>): (r: (EntryState, bool))
    decreases |orders|
  {
    if |orders| == 0 then (e, true)
    else
      var prev := ApplyOrders(e, orders[..|orders| - 1], toFloat);
      if !prev.1 then prev
      else
        var step := ApplyOrder(prev.0, orders[|orders| - 1], toFloat);
        (step.0, !step.1.Fails())
  }

  /** Once an order has failed, the later orders are not looked at. */
  lemma {:induction false} FailureStops(e: EntryState, orders: seq<string>, k: nat, toFloat: string -> Option<real>)
    requires k <= |orders|
    requires !ApplyOrders(e, orders[..k], toFloat).1
    ensures ApplyOrders(e, orders, toFloat) == ApplyOrders(e, orders[..k], toFloat)
    decreases |orders| - k
  {
    if k < |orders| {
      var init := orders[..|orders| - 1];
      assert init[..k] == orders[..k];
      FailureStops(e, init, k, toFloat);
    } else {
      assert orders[..k] == orders;
    }
  }

  /** None of the orders has the shape `buy|sell <count>@<price>`. */
  predicate AllMalformed(orders: seq<string>)
  {
    forall i :: 0 <= i < |orders| ==> ParseOrder(orders[i]).None?
  }

  /** Orders that are all malformed are all skipped: the entry is unchanged. */
  lemma {:induction false} MalformedOrdersSkipped(e: EntryState, orders: seq<string>, toFloat: string -> Option<real>)
    requires AllMalformed(orders)
    ensures ApplyOrders(e, orders, toFloat) == (e, true)
    decreases |orders|
  {
    if |orders| > 0 {
      MalformedOrdersSkipped(e, orders[..|orders| - 1], toFloat);
    }
  }

  /** The `transactions` value of a section: the written orders joined by commas. */
  function FormatTransactions(orders: seq<ParsedOrder>): string
    requires |orders| > 0
  {
    Join(seq(|orders|, i requires 0 <= i < |orders| => FormatOrder(orders[i])), ',')
  }

  /** A written order holds no comma when its numbers hold none. */
  lemma FormattedOrderHasNoComma(o: ParsedOrder)
    requires IsNumberText(o.countText) && IsNumberText(o.priceText)
    ensures ',' !in FormatOrder(o)
  {
    var s := FormatOrder(o);
    var k := KindText(o.kind);
    assert s == k + [' '] + o.countText + ['@'] + o.priceText;
    forall i | 0 <= i < |s| ensures s[i] != ',' {
      if i < |k| { assert s[i] == k[i]; }
      else if |k| < i < |k| + 1 + |o.countText| { assert s[i] == o.countText[i - |k| - 1]; }
      else if i > |k| + 1 + |o.countText| { assert s[i] == o.priceText[i - |k| - 2 - |o.countText|]; }
    }
  }

  /** Splitting a written transaction list at commas and parsing each piece gives the orders back. */
  lemma ParseFormatTransactions(orders: seq<ParsedOrder>)
    requires |orders| > 0
    requires forall i :: 0 <= i < |orders| ==> IsNumberText(orders[i].countText) && IsNumberText(orders[i].priceText)
    ensures var pieces := Split(FormatTransactions(orders), ',');
      |pieces| == |orders| && forall i :: 0 <= i < |orders| ==> ParseOrder(pieces[i]) == Some(orders[i])
  {
    var written := seq(|orders|, i requires 0 <= i < |orders| => FormatOrder(orders[i]));
    forall i | 0 <= i < |orders| ensures ',' !in written[i] {
      FormattedOrderHasNoComma(orders[i]);
    }
    SplitJoin(written, ',');
    forall i | 0 <= i < |orders| ensures ParseOrder(written[i]) == Some(orders[i]) {
      ParseFormatOrder(orders[i]);
    }
  }

  // ---------------------------------------------------------------------
  // Portfolio.average_buyin
  // ---------------------------------------------------------------------

  /** Why average_buyin stops: a lot count ≤ 0 (exit()), a bad number (ValueError), no price (IndexError). */
  datatype BuyinError = NonPositiveLot | BadLotNumber | MissingLotPrice

  /** Lots read as (count, price) pairs, or the error of the first lot that could not be read. */
  datatype LotsRead = Lots(lots: seq<(real, real)>) | LotFailure(error: BuyinError)

  /** One `count@price` lot as average_buyin reads it: the count first, then the price. */
  function ReadLot(text: string, toFloat: string -> Option<real>): (r: LotsRead)
    ensures r.Lots? ==> |r.lots| == 1 && r.lots[0].0 > 0.0
  {
    var parts := Split(text, '@');
    match toFloat(parts[0])
    case None => LotFailure(BadLotNumber)
    case Some(c) =>
      if c <= 0.0 then LotFailure(NonPositiveLot)
      else if |parts| < 2 then LotFailure(MissingLotPrice)
      else
        match toFloat(parts[1])
        case None => LotFailure(BadLotNumber)
        case Some(p) => Lots([(c, p)])
  }

  /** The lots read in order; the first that fails decides the error. */
  function ReadLots(texts: seq<string>, toFloat: string -> Option<real>): (r: LotsRead)
    ensures r.Lots? ==> |r.lots| == |texts|
    decreases |texts|
  {
    if |texts| == 0 then Lots([])
    else
      match ReadLots(texts[..|texts| - 1], toFloat)
      case LotFailure(err) => LotFailure(err)
      case Lots(init) =>
        match ReadLot(texts[|texts| - 1], toFloat)
        case LotFailure(err) => LotFailure(err)
        case Lots(last) => Lots(init + last)
  }

  /** Every lot read has a positive count: average_buyin stops at the first that has not. */
  lemma {:induction false} ReadLotsPositive(texts: seq<string>, toFloat: string -> Option<real>)
    requires ReadLots(texts, toFloat).Lots?
    ensures forall i :: 0 <= i < |texts| ==> ReadLots(texts, toFloat).lots[i].0 > 0.0
  {
    if |texts| > 0 {
      var init := texts[..|texts| - 1];
      ReadLotsPositive(init, toFloat);
      var prev := ReadLots(init, toFloat).lots;
      var all := prev + ReadLot(texts[|texts| - 1], toFloat).lots;
      assert forall i :: 0 <= i < |prev| ==> all[i] == prev[i];
    }
  }

  /** Once a lot has failed, the lots after it are not looked at. */
  lemma {:induction false} LotFailureStops(texts: seq<string>, k: nat, toFloat: string -> Option<real>)
    requires k <= |texts|
    requires ReadLots(texts[..k], toFloat).LotFailure?
    ensures ReadLots(texts, toFloat) == ReadLots(texts[..k], toFloat)
    decreases |texts| - k
  {
    if k < |texts| {
      var init := texts[..|texts| - 1];
      assert init[..k] == texts[..k];
      LotFailureStops(init, k, toFloat);
    } else {
      assert texts[..k] == texts;
    }
  }

  /** Reading one more lot: the lots so far, then that lot, or the first error. */
  lemma ReadLotsSnoc(texts: seq<string>, i: nat, toFloat: string -> Option<real>)
    requires i < |texts|
    ensures ReadLots(texts[..i + 1], toFloat) ==
      match ReadLots(texts[..i], toFloat)
      case LotFailure(err) => LotFailure(err)
      case Lots(init) =>
        match ReadLot(texts[i], toFloat)
        case LotFailure(err) => LotFailure(err)
        case Lots(last) => Lots(init + last)
  {
    assert texts[..i + 1][..i] == texts[..i];
  }

  /** Appending one lot adds its count to Σc and its c·p to Σc·p. */
  lemma LotSumsSnoc(lots: seq<(real, real)>, last: seq<(real, real)>)
    requires |last| == 1
    ensures LotCount(lots + last) == LotCount(lots) + last[0].0
    ensures LotCost(lots + last) == LotCost(lots) + last[0].0 * last[0].1
  {
    assert (lots + last)[..|lots|] == lots;
  }

  /** What average_buyin returns: (count, bought_at), or the error that stopped it. */
  datatype Buyin = Buyin(count: real, boughtAt: real) | BuyinFailed(error: BuyinError)

  /**
   * The reference definition of average_buyin: the net count Σc(buys) − Σc(sells)
   * and the net cost Σc·p(buys) − Σc·p(sells) divided by it, or (0, 0) when the
   * net count is 0. Every buy lot is read before any sell lot.
   */
  function AverageBuyinOf(buys: seq<string>, sells: seq<string>, toFloat: string -> Option<real>): Buyin
  {
    match ReadLots(buys, toFloat)
    case LotFailure(err) => BuyinFailed(err)
    case Lots(b) =>
      match ReadLots(sells, toFloat)
      case LotFailure(err) => BuyinFailed(err)
      case Lots(s) =>
        var count := LotCount(b) - LotCount(s);
        if count == 0.0 then Buyin(0.0, 0.0)
        else Buyin(count, (LotCost(b) - LotCost(s)) / count)
  }

  /**
   * One loop of average_buyin: the running count and cost of the lots, or
   * the error of the first lot that fails.
   */
  method AccumulateLots(texts: seq<string>, toFloat: string -> Option<real>)
    returns (read: LotsRead, count: real, cost: real)
    ensures read.LotFailure? <==> ReadLots(texts, toFloat).LotFailure?
    ensures read.LotFailure? ==> read == ReadLots(texts, toFloat)
    ensures read.Lots? ==>
              count == LotCount(ReadLots(texts, toFloat).lots) && cost == LotCost(ReadLots(texts, toFloat).lots)
  {
    count, cost := 0.0, 0.0;
    var i := 0;
    while i < |texts|
      invariant 0 <= i <= |texts|
      invariant ReadLots(texts[..i], toFloat).Lots?
      invariant count == LotCount(ReadLots(texts[..i], toFloat).lots)
      invariant cost == LotCost(ReadLots(texts[..i], toFloat).lots)
    {
      ReadLotsSnoc(texts, i, toFloat);
      var lot := ReadLot(texts[i], toFloat);
      if lot.LotFailure? {
        read := lot;
        LotFailureStops(texts, i + 1, toFloat);
        return;
      }
      var (c, p) := lot.lots[0];
      LotSumsSnoc(ReadLots(texts[..i], toFloat).lots, lot.lots);
      count := count + c;
      cost := cost + p * c;
      i := i + 1;
    }
    assert texts[..i] == texts;
    read := ReadLots(texts, toFloat);
  }

  /** Portfolio.average_buyin: the buy lots are read, then the sell lots. */
  method AverageBuyin(buys: seq<string>, sells: seq<string>, toFloat: string -> Option<real>) returns (r: Buyin)
    ensures r == AverageBuyinOf(buys, sells, toFloat)
  {
    var bought, buyCount, buyCost := AccumulateLots(buys, toFloat);
    if bought.LotFailure? {
      return BuyinFailed(bought.error);
    }
    var sold, sellCount, sellCost := AccumulateLots(sells, toFloat);
    if sold.LotFailure? {
      return BuyinFailed(sold.error);
    }
    var count := buyCount - sellCount;
    if count == 0.0 {
      return Buyin(0.0, 0.0);
    }
    r := Buyin(count, (buyCost - sellCost) / count);
  }

  /**
   * With only buys, average_buyin agrees with the ledger: its result is the
   * count and average cost that processing the same lots as BUY orders gives
   * a fresh entry.
   */
  lemma AverageBuyinMatchesLedger(buys: seq<string>, toFloat: string -> Option<real>, ticker: string)
    requires |buys| > 0 && ReadLots(buys, toFloat).Lots?
    ensures var e := BuyAll(FreshEntry(ticker, None, None), ReadLots(buys, toFloat).lots);
      AverageBuyinOf(buys, [], toFloat) == Buyin(e.count, e.averageCost)
  {
    var lots := ReadLots(buys, toFloat).lots;
    ReadLotsPositive(buys, toFloat);
    WeightedAverageCost(FreshEntry(ticker, None, None), lots);
  }
}
