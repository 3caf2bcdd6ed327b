/** `parseExpenseMessage`: reads the amount, the description and the payment
    method out of a typed message such as "50 almuerzo en restaurante". */
module Parser {
  import opened Wrappers
  import opened Strings
  import opened KeywordSearch
  import PaymentMethodService

  const Placeholder := "Gasto sin descripción"
  const DefaultPayment := "Efectivo"

  /** The parse result; `amount` is `None` for JavaScript's `null`. */
  datatype ParsedExpense = ParsedExpense(amount: Option<real>, description: string, paymentMethod: string)

  // ------------------------------------------------------------ the split

  /** `message.split('.')[0]`: the text before the first '.'. */
  function MainPart(message: string): (main: string)
    ensures '.' !in main
    ensures main <= message
    ensures |main| < |message| ==> message[|main|] == '.'
  {
    var pieces := SplitOn(message, '.');
    JoinSplitOn(message, '.');
    pieces[0]
  }

  /** `message.split('.')[1]`: the text between the first and the second '.',
      or `None` (`undefined`) when the message has no '.'. */
  function PaymentPart(message: string): (payment: Option<string>)
    ensures payment.None? <==> '.' !in message
    ensures payment.Some? ==> '.' !in payment.value
  {
    var pieces := SplitOn(message, '.');
    if |pieces| >= 2 then Some(pieces[1]) else None
  }

  /** The main part, the payment part and the text after them make up the
      message: the payment part runs up to the second '.' or the end of the
      message, and whatever follows a second '.' is dropped. */
  lemma MessageParts(message: string)
    requires '.' in message
    ensures MainPart(message) + "." + PaymentPart(message).value <= message
    ensures var n := |MainPart(message)| + 1 + |PaymentPart(message).value|;
      n == |message| || message[n] == '.'
  {
    var i := IndexOf(message, '.');
    PartsAtFirstPoint(message, i);
    PieceLayout(message, i, MainPart(message[i + 1..]));
  }

  /** The main part is the text before the first '.', and the payment part
      the main part of the text after it. */
  lemma PartsAtFirstPoint(message: string, i: nat)
    requires '.' in message && i == IndexOf(message, '.')
    ensures MainPart(message) == message[..i]
    ensures PaymentPart(message) == Some(MainPart(message[i + 1..]))
  {
    SplitAround(message, i);
    SplitOnCons(message[..i], '.', message[i + 1..]);
  }

  /** Where a '.', and a piece of the text after it that ends at a '.' or at
      the end, sit in a message. */
  lemma PieceLayout(message: string, i: nat, p: string)
    requires i < |message| && message[i] == '.'
    requires p <= message[i + 1..]
    requires |p| < |message[i + 1..]| ==> message[i + 1..][|p|] == '.'
    ensures message[..i] + "." + p <= message
    ensures i + 1 + |p| == |message| || message[i + 1 + |p|] == '.'
  {
    assert message[..i + 1 + |p|] == message[..i] + "." + p;
  }

  /** `mainPart.trim().split(/\s+/)`. */
  function Tokens(main: string): seq<string> {
    SplitWs(Trim(main))
  }

  /** Tokens never contain white space, and they are empty only when the
      main part is blank, in which case the only token is "". */
  lemma TokensShape(main: string)
    ensures forall t, k :: t in Tokens(main) && 0 <= k < |t| ==> !IsSpace(t[k])
    ensures Trim(main) != [] ==> forall t :: t in Tokens(main) ==> t != []
  {
    if Trim(main) != [] {
      SplitWsPiecesNonEmpty(Trim(main));
    }
  }

  // ---------------------------------------------------------- the amount

  predicate IsNumericChar(c: char) {
    IsDigit(c) || c == '.' || c == ','
  }

  /** `part.replace(/[^\d.,]/g, '')`. */
  function KeepNumeric(part: string): (r: string)
    ensures forall k :: 0 <= k < |r| ==> IsNumericChar(r[k])
    ensures |r| <= |part|
  {
    if part == [] then []
    else (if IsNumericChar(part[0]) then [part[0]] else []) + KeepNumeric(part[1..])
  }

  /** Filtering twice is filtering once; numeric characters all survive. */
  lemma {:induction false} KeepNumericKeeps(part: string)
    requires forall k :: 0 <= k < |part| ==> IsNumericChar(part[k])
    ensures KeepNumeric(part) == part
  {
    if part != [] {
      KeepNumericKeeps(part[1..]);
    }
  }

  /** One character survives the cleaning exactly when it is a digit, a
      point or a comma. */
  lemma KeepNumericChar(c: char)
    ensures KeepNumeric([c]) == if IsNumericChar(c) then [c] else []
  {
    assert [c][1..] == [];
  }

  /** The cleaning works character by character and keeps the order: it
      distributes over concatenation. */
  lemma {:induction false} KeepNumericAppend(a: string, b: string)
    ensures KeepNumeric(a + b) == KeepNumeric(a) + KeepNumeric(b)
  {
    if a == [] {
      assert a + b == b;
    } else {
      assert (a + b)[0] == a[0];
      assert (a + b)[1..] == a[1..] + b;
      KeepNumericAppend(a[1..], b);
    }
  }

  /** `.replace(',', '.')`: only the first comma becomes a point. */
  function ReplaceFirstComma(s: string): (r: string)
    ensures |r| == |s|
    ensures ',' !in s ==> r == s
    ensures ',' in s ==> var i := IndexOf(s, ','); r[i] == '.' && r[..i] == s[..i] && r[i + 1..] == s[i + 1..]
  {
    if ',' in s then
      var i := IndexOf(s, ',');
      s[..i] + "." + s[i + 1..]
    else s
  }

  /** The longest prefix of `s` made of decimal digits. */
  function LeadingDigits(s: string): (d: string)
    ensures d <= s
    ensures forall k :: 0 <= k < |d| ==> IsDigit(d[k])
    ensures |d| < |s| ==> !IsDigit(s[|d|])
  {
    if s != [] && IsDigit(s[0]) then [s[0]] + LeadingDigits(s[1..]) else []
  }

  /** The value of the digits after a decimal point: 0.d1d2... */
  function FractionValue(d: string): (v: real)
    requires forall k :: 0 <= k < |d| ==> IsDigit(d[k])
    ensures 0.0 <= v <= 1.0
  {
    if d == [] then 0.0 else (DigitValue(d[0]) as real + FractionValue(d[1..])) / 10.0
  }

  /** `parseFloat` on a string of digits, points and commas: the integer
      digits, then an optional point and fraction digits, and whatever follows
      is ignored. No digit on either side of the point is `NaN` (`None`). */
  function ParseFloat(s: string): (r: Option<real>)
    ensures r.Some? ==> r.value >= 0.0
  {
    var whole := LeadingDigits(s);
    NumberValue(whole, FractionDigits(s[|whole|..]))
  }

  /** The fraction digits after the integer digits: those after a leading
      point, if there is one. */
  function FractionDigits(rest: string): (d: string)
    ensures forall k :: 0 <= k < |d| ==> IsDigit(d[k])
  {
    if rest != [] && rest[0] == '.' then LeadingDigits(rest[1..]) else []
  }

  /** The number written with integer digits `whole` and fraction digits
      `fraction`; `NaN` when there are none at all. */
  function NumberValue(whole: string, fraction: string): (r: Option<real>)
    requires forall k :: 0 <= k < |whole| ==> IsDigit(whole[k])
    requires forall k :: 0 <= k < |fraction| ==> IsDigit(fraction[k])
    ensures r.Some? ==> r.value >= 0.0
  {
    if whole == [] && fraction == [] then None
    else Some(DigitsValue(whole) as real + FractionValue(fraction))
  }

  /** The digit run stops at the first character that is not a digit. */
  lemma {:induction false} LeadingDigitsStop(w: string, rest: string)
    requires forall k :: 0 <= k < |w| ==> IsDigit(w[k])
    requires rest == [] || !IsDigit(rest[0])
    ensures LeadingDigits(w + rest) == w
  {
    if w != [] {
      assert (w + rest)[1..] == w[1..] + rest;
      LeadingDigitsStop(w[1..], rest);
    } else {
      assert w + rest == rest;
    }
  }

  /** A run of digits parses as its decimal value. */
  lemma ParseWhole(d: string)
    requires d != [] && forall k :: 0 <= k < |d| ==> IsDigit(d[k])
    ensures ParseFloat(d) == Some(DigitsValue(d) as real)
  {
    LeadingDigitsStop(d, []);
    assert d + [] == d;
    assert d[|d|..] == [];
    ParseFloatFrom(d, d, []);
  }

  /** Digits, a point and digits parse as whole part plus fraction, as long as
      one side has a digit (".5" is 0.5, "5." is 5). */
  lemma ParseDecimal(w: string, f: string)
    requires forall k :: 0 <= k < |w| ==> IsDigit(w[k])
    requires forall k :: 0 <= k < |f| ==> IsDigit(f[k])
    requires w != [] || f != []
    ensures ParseFloat(w + "." + f) == Some(DigitsValue(w) as real + FractionValue(f))
  {
    ParseDecimalAt(w + "." + f, w, f);
  }

  /** ParseDecimal for a string given by name (the solver handles the
      concatenation better this way). */
  lemma ParseDecimalAt(s: string, w: string, f: string)
    requires forall k :: 0 <= k < |w| ==> IsDigit(w[k])
    requires forall k :: 0 <= k < |f| ==> IsDigit(f[k])
    requires w != [] || f != []
    requires s == w + "." + f
    ensures ParseFloat(s) == Some(DigitsValue(w) as real + FractionValue(f))
  {
    DecimalPieces(w, f);
    ParseFloatFrom(s, w, f);
  }

  /** `parseFloat` reads the integer digits and the fraction digits and
      nothing else. */
  lemma ParseFloatFrom(s: string, w: string, f: string)
    requires forall k :: 0 <= k < |w| ==> IsDigit(w[k])
    requires forall k :: 0 <= k < |f| ==> IsDigit(f[k])
    requires LeadingDigits(s) == w && FractionDigits(s[|w|..]) == f
    ensures ParseFloat(s) == NumberValue(w, f)
  {
  }

  /** Where the integer and the fraction digits of `w.f` are. */
  lemma DecimalPieces(w: string, f: string)
    requires forall k :: 0 <= k < |w| ==> IsDigit(w[k])
    requires forall k :: 0 <= k < |f| ==> IsDigit(f[k])
    ensures var s := w + "." + f;
      LeadingDigits(s) == w && FractionDigits(s[|w|..]) == f
  {
    var s := w + "." + f;
    assert s == w + ("." + f);
    LeadingDigitsStop(w, "." + f);
    assert s[|w|..] == "." + f;
    assert ("." + f)[1..] == f;
    LeadingDigitsStop(f, []);
    assert f + [] == f;
  }

  /** A string with no digit before a possible point and none after it is
      `NaN`. */
  lemma ParseNoDigits(s: string)
    requires s == [] || s == "." || (s[0] != '.' && !IsDigit(s[0]))
    ensures ParseFloat(s) == None
  {
    assert LeadingDigits(s) == [];
    if s == "." {
      assert s[1..] == [];
    }
  }

  /** The number a token stands for, if any. */
  function TokenAmount(part: string): Option<real> {
    ParseFloat(ReplaceFirstComma(KeepNumeric(part)))
  }

  predicate Positive(a: Option<real>) {
    a.Some? && a.value > 0.0
  }

  /** A token that sets the amount: its number is positive. */
  predicate IsAmountToken(part: string) {
    Positive(TokenAmount(part))
  }

  /** Token `k` is the first of `parts` that `read` gives a positive number
      for. */
  ghost predicate FirstPositiveAt(parts: seq<string>, read: string -> Option<real>, k: int) {
    && 0 <= k < |parts|
    && Positive(read(parts[k]))
    && forall j :: 0 <= j < k ==> !Positive(read(parts[j]))
  }

  /** The token loop, given how a token reads as a number (`TokenAmount` in
      the parser): the amount is the number of the first token that reads as
      a positive number, and every token after it, numeric or not, is
      collected verbatim and in order; the tokens before it are dropped. */
  method ScanTokens(parts: seq<string>, read: string -> Option<real>) returns (amount: Option<real>, description: seq<string>)
    ensures amount.None? <==> forall j :: 0 <= j < |parts| ==> !Positive(read(parts[j]))
    ensures amount.None? ==> description == []
    ensures amount.Some? ==> (amount.value > 0.0 &&
      exists k :: FirstPositiveAt(parts, read, k) && amount == read(parts[k]) && description == parts[k + 1..])
  {
    amount := None;
    description := [];
    ghost var k := 0;
    for i := 0 to |parts|
      invariant amount.None? ==> description == [] && forall j :: 0 <= j < i ==> !Positive(read(parts[j]))
      invariant amount.Some? ==>
        && FirstPositiveAt(parts, read, k) && k < i
        && amount == read(parts[k])
        && description == parts[k + 1..i]
    {
      var part := parts[i];
      var numValue := read(part);
      if numValue.Some? && numValue.value > 0.0 && amount.None? {
        amount := numValue;
        k := i;
      } else if amount.Some? {
        assert parts[k + 1..i + 1] == parts[k + 1..i] + [part];
        description := description + [part];
      }
    }
    if amount.Some? {
      assert parts[k + 1..|parts|] == parts[k + 1..];
    }
  }

  // ------------------------------------------------------- the whole parse

  /** The payment method named by the outcome of `classifyPaymentMethod`:
      its row's name when there is one and it is not empty, cash otherwise
      (including when the call throws). */
  function PaymentName(classified: Result<Option<Row>, Failure>): (name: string)
    ensures name != ""
    ensures name != DefaultPayment ==> classified.Ok? && classified.value.Some? && classified.value.value.name == name
    ensures classified.Ok? && classified.value.Some? && classified.value.value.name != "" ==>
      name == classified.value.value.name
  {
    if classified.Ok? && classified.value.Some? && classified.value.value.name != "" then classified.value.value.name
    else DefaultPayment
  }

  /** `parseExpenseMessage`. `message` is `None` when it is not a string;
      `paymentRows` and `cashRow` are what the payment method service reads
      from the database. */
  method ParseExpenseMessage(message: Option<string>, paymentRows: Result<seq<Row>, Failure>, cashRow: Option<Row>)
    returns (e: ParsedExpense)
    ensures e.description != "" && e.paymentMethod != ""
    ensures message.None? || message == Some("") ==>
      e == ParsedExpense(None, Placeholder, DefaultPayment)
    ensures e.amount.None? ==> e.description == Placeholder
    ensures message.Some? && message != Some("") ==>
      var parts := Tokens(MainPart(message.value));
      && (e.amount.None? <==> forall j :: 0 <= j < |parts| ==> !IsAmountToken(parts[j]))
      && (e.amount.Some? ==> (e.amount.value > 0.0 &&
            exists k :: FirstPositiveAt(parts, TokenAmount, k) && e.amount == TokenAmount(parts[k]) &&
              e.description == if k + 1 == |parts| then Placeholder else Join(parts[k + 1..], ' ')))
    ensures (message.Some? && message != Some("") && (PaymentPart(message.value).None? || paymentRows.Err?)) ==>
      e.paymentMethod == DefaultPayment
    ensures (message.Some? && message != Some("") && PaymentPart(message.value).Some? && paymentRows.Ok? &&
             forall j :: 0 <= j < |paymentRows.value| ==> !RowMatches(PaymentPart(message.value).value, paymentRows.value[j])) ==>
      e.paymentMethod == PaymentName(Ok(cashRow))
    ensures (message.Some? && message != Some("") && PaymentPart(message.value).Some? && paymentRows.Ok? &&
             exists j :: 0 <= j < |paymentRows.value| && RowMatches(PaymentPart(message.value).value, paymentRows.value[j])) ==>
      exists i :: FirstMatchAt(PaymentPart(message.value).value, paymentRows.value, i) &&
        e.paymentMethod == PaymentName(Ok(Some(paymentRows.value[i])))
  {
    if message.None? || message == Some("") {
      return ParsedExpense(None, Placeholder, DefaultPayment);
    }
    var text := message.value;
    var amount, descriptionText := ReadAmount(MainPart(text));
    var classified := PaymentMethodService.ClassifyPaymentMethod(PaymentPart(text), paymentRows, cashRow);
    e := ParsedExpense(amount, descriptionText, PaymentName(classified));
  }

  /** The amount and the description read from the main part: the number of
      the first positive token, and the tokens after it joined by spaces, or
      the placeholder when there are none. */
  method ReadAmount(mainPart: string) returns (amount: Option<real>, descriptionText: string)
    ensures descriptionText != ""
    ensures amount.None? ==> descriptionText == Placeholder
    ensures var parts := Tokens(mainPart);
      && (amount.None? <==> forall j :: 0 <= j < |parts| ==> !IsAmountToken(parts[j]))
      && (amount.Some? ==> (amount.value > 0.0 &&
            exists k :: FirstPositiveAt(parts, TokenAmount, k) && amount == TokenAmount(parts[k]) &&
              descriptionText == if k + 1 == |parts| then Placeholder else Join(parts[k + 1..], ' ')))
  {
    var parts := Tokens(mainPart);
    var description;
    amount, description := ScanTokens(parts, TokenAmount);
    descriptionText := Join(description, ' ');
    if descriptionText == "" {
      descriptionText := Placeholder;
    }
    if amount.Some? {
      DescriptionJoin(mainPart, amount, description);
    }
  }

  /** The collected tokens join to the empty string only when none was
      collected, since tokens after an amount token are never empty. */
  lemma DescriptionJoin(main: string, amount: Option<real>, description: seq<string>)
    requires amount.Some?
    requires exists k :: FirstPositiveAt(Tokens(main), TokenAmount, k) && description == Tokens(main)[k + 1..]
    ensures Join(description, ' ') == "" <==> description == []
  {
    var k :| FirstPositiveAt(Tokens(main), TokenAmount, k) && description == Tokens(main)[k + 1..];
    var parts := Tokens(main);
    assert !IsAmountToken([]) by {
      assert KeepNumeric([]) == [] && ReplaceFirstComma([]) == [];
    }
    assert Trim(main) == [] ==> parts == [[]];
    TokensShape(main);
    if description != [] {
      assert description[0] in parts;
      JoinFirst(description);
    }
  }

  lemma JoinFirst(parts: seq<string>)
    requires parts != []
    ensures |Join(parts, ' ')| >= |parts[0]|
  {
  }

  // ------------------------------------------------------------- examples

  /** A message with a single '.' splits there: the text before it is the
      main part and the text after it the payment part. */
  lemma SplitAtPoint(message: string, main: string, payment: string)
    requires message == main + ['.'] + payment
    requires '.' !in main && '.' !in payment
    ensures MainPart(message) == main && PaymentPart(message) == Some(payment)
  {
    SplitOnCons(main, '.', payment);
  }

  /** The '.' of a decimal amount splits the message: "25.50 uber" keeps
      "25" as its main part, whose only token reads as 25 and leaves no
      description, and hands "50 uber" to the payment method search. */
  lemma DecimalPointSplitsMessage()
    ensures MainPart("25.50 uber") == "25"
    ensures PaymentPart("25.50 uber") == Some("50 uber")
    ensures Tokens(MainPart("25.50 uber")) == ["25"]
    ensures TokenAmount("25") == Some(25.0)
  {
    SplitAtPoint("25.50 uber", "25", "50 uber");
    TwentyFiveToken();
  }

  /** "25" is a single token, and it reads as 25. */
  lemma TwentyFiveToken()
    ensures Tokens("25") == ["25"] && TokenAmount("25") == Some(25.0)
  {
    SingleNumberToken("25");
    TwentyFive();
  }

  /** A run of digits is its own single token. */
  lemma SingleNumberToken(d: string)
    requires d != [] && forall k :: 0 <= k < |d| ==> IsDigit(d[k])
    ensures Tokens(d) == [d]
  {
    assert !IsSpace(d[0]) && !IsSpace(d[|d| - 1]);
    TrimTrimmed(d);
    SplitWsJoin([d]);
  }

  lemma TwentyFive()
    ensures TokenAmount("25") == Some(25.0)
  {
    TwentyFiveDigits();
    KeepNumericKeeps("25");
    WholeAmount("25", "25");
  }

  /** A token whose digits, points and commas are a plain run of digits is
      read as the value of that run. */
  lemma WholeAmount(token: string, digits: string)
    requires KeepNumeric(token) == digits
    requires digits != [] && forall k :: 0 <= k < |digits| ==> IsDigit(digits[k])
    ensures TokenAmount(token) == Some(DigitsValue(digits) as real)
  {
    NoCommaInDigits(digits);
    ParseWhole(digits);
  }

  lemma NoCommaInDigits(d: string)
    requires forall k :: 0 <= k < |d| ==> IsDigit(d[k])
    ensures ',' !in d
  {
    assert forall k :: 0 <= k < |d| ==> d[k] != ',';
  }

  /** A comma between two digit runs is read as the decimal point. */
  lemma CommaDecimal(token: string, w: string, f: string)
    requires token == w + [','] + f
    requires forall k :: 0 <= k < |w| ==> IsDigit(w[k])
    requires forall k :: 0 <= k < |f| ==> IsDigit(f[k])
    requires w != [] || f != []
    ensures TokenAmount(token) == Some(DigitsValue(w) as real + FractionValue(f))
  {
    KeepNumericKeeps(token);
    NoCommaInDigits(w);
    ReplaceCommaAt(token, w, f);
    ParseDecimalAt(ReplaceFirstComma(token), w, f);
  }

  /** A comma works as the decimal separator: "25,50" is 25.5. */
  lemma CommaIsDecimalPoint()
    ensures TokenAmount("25,50") == Some(25.5)
  {
    TwentyFiveDigits();
    FiftyHundredths();
    CommaDecimal("25,50", "25", "50");
  }

  lemma TwentyFiveDigits()
    ensures DigitsValue("25") == 25
  {
  }

  lemma FiftyHundredths()
    ensures FractionValue("50") == 0.5
  {
  }

  /** The first comma of `a,b` becomes a point. */
  lemma ReplaceCommaAt(s: string, a: string, b: string)
    requires s == a + [','] + b && ',' !in a
    ensures ReplaceFirstComma(s) == a + "." + b
  {
    IndexOfAfterPiece(a, ',', b);
    assert s[..|a|] == a && s[|a| + 1..] == b;
  }

  /** A zero carries no amount. */
  lemma ZeroIsNoAmount()
    ensures !IsAmountToken("0")
  {
    KeepNumericKeeps("0");
    WholeAmount("0", "0");
  }

  /** A word carries no number at all. */
  lemma WordIsNoNumber()
    ensures TokenAmount("uber") == None
  {
    assert KeepNumeric("uber") == "";
    ParseNoDigits("");
  }

  /** A currency sign is filtered away. */
  lemma CurrencySignDropped()
    ensures TokenAmount("$30") == Some(30.0)
  {
    assert KeepNumeric("$30") == "30";
    ThirtyDigits();
    WholeAmount("$30", "30");
  }

  lemma ThirtyDigits()
    ensures DigitsValue("30") == 30
  {
  }
}
