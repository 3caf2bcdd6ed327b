/** The expense service over rows already fetched: the record `createExpense`
    stores, the first day of a month as a date string, the monthly total and
    the per-category and per-payment-method totals. */
module ExpenseService {
  import opened Wrappers
  import opened Strings
  import opened Helpers
  import opened KeywordSearch

  // ------------------------------------------------------------ creation

  /** The row `createExpense` inserts. */
  datatype ExpenseData = ExpenseData(
    userId: string,
    subcategoryId: int,
    amount: real,
    description: string,
    paymentMethodId: Option<int>,
    expenseDate: string)

  /** The record built by `createExpense`: the description in sentence case
      and the given date, or `today` when none (or "") is given. The clock
      reading `today` is a parameter. */
  function NewExpense(userId: string, subcategoryId: int, amount: real, description: string,
                      paymentMethodId: Option<int>, expenseDate: Option<string>, today: string): (d: ExpenseData)
    ensures d.userId == userId && d.subcategoryId == subcategoryId && d.amount == amount
    ensures d.paymentMethodId == paymentMethodId
    ensures Blank(description) ==> d.description == description
    ensures !Blank(description) ==>
      SentenceCased(d.description) && Lower(d.description) == Lower(Trim(description))
    ensures d.expenseDate == today || (expenseDate.Some? && d.expenseDate == expenseDate.value != "")
    ensures expenseDate.Some? && expenseDate.value != "" ==> d.expenseDate == expenseDate.value
  {
    ExpenseData(userId, subcategoryId, amount, CapitalizeSentence(description), paymentMethodId,
                if expenseDate.Some? && expenseDate.value != "" then expenseDate.value else today)
  }

  /** Storing a stored description again leaves it as it is. */
  lemma NewExpenseDescriptionStable(userId: string, subcategoryId: int, amount: real, description: string,
                                    paymentMethodId: Option<int>, expenseDate: Option<string>, today: string)
    requires !Blank(description)
    ensures var d := NewExpense(userId, subcategoryId, amount, description, paymentMethodId, expenseDate, today);
      NewExpense(userId, subcategoryId, amount, d.description, paymentMethodId, expenseDate, today) == d
  {
    CapitalizeSentenceIdempotent(description);
  }

  // ---------------------------------------------------------- start date

  function DigitChar(d: nat): (c: char)
    requires d < 10
    ensures IsDigit(c) && DigitValue(c) == d
  {
    ('0' as int + d) as char
  }

  /** The decimal numeral of `n`, as JavaScript's `String(n)` writes it. */
  function NatToString(n: nat): (s: string)
    ensures s != []
    ensures forall k :: 0 <= k < |s| ==> IsDigit(s[k])
    decreases n
  {
    if n < 10 then [DigitChar(n)] else NatToString(n / 10) + [DigitChar(n % 10)]
  }

  /** Reading the numeral back gives the number. */
  lemma {:induction false} NatToStringValue(n: nat)
    ensures DigitsValue(NatToString(n)) == n
    decreases n
  {
    if n >= 10 {
      NatToStringValue(n / 10);
      var s := NatToString(n);
      assert s[..|s| - 1] == NatToString(n / 10);
    }
  }

  /** Numerals have no leading zero, except "0" itself. */
  lemma {:induction false} NatToStringNoLeadingZero(n: nat)
    ensures NatToString(n)[0] == '0' <==> n == 0
    decreases n
  {
    if n >= 10 {
      NatToStringNoLeadingZero(n / 10);
    }
  }

  /** `String(n)` for any integer. */
  function IntToString(n: int): string {
    if n < 0 then "-" + NatToString(-n) else NatToString(n)
  }

  /** `s.padStart(2, '0')`. */
  function PadStart2(s: string): (r: string)
    ensures |r| == if |s| >= 2 then |s| else 2
    ensures r[|r| - |s|..] == s
    ensures forall k :: 0 <= k < |r| - |s| ==> r[k] == '0'
  {
    if |s| >= 2 then s else seq(2 - |s|, _ => '0') + s
  }

  /** `${year}-${String(month).padStart(2, '0')}-01`. */
  function StartDate(year: int, month: int): string {
    IntToString(year) + "-" + PadStart2(IntToString(month)) + "-01"
  }

  /** The month field: two digits that read back as the month. */
  lemma MonthField(month: int)
    requires 1 <= month <= 12
    ensures var p := PadStart2(IntToString(month));
      |p| == 2 && IsDigit(p[0]) && IsDigit(p[1]) && DigitsValue(p) == month
  {
    var m := NatToString(month);
    NatToStringValue(month);
    NatToStringLength(month, 2);
    var p := PadStart2(m);
    if |m| == 1 {
      assert p == ['0'] + m;
      assert p[..1] == ['0'];
    } else {
      assert p == m;
    }
  }

  /** The year field: four digits that read back as the year. */
  lemma YearField(year: int)
    requires 1000 <= year <= 9999
    ensures var y := IntToString(year);
      |y| == 4 && (forall k :: 0 <= k < 4 ==> IsDigit(y[k])) && DigitsValue(y) == year
  {
    NatToStringValue(year);
    NatToStringLength(year, 4);
  }

  /** `s` is the ISO date YYYY-MM-01 of the first day of `month` in `year`. */
  ghost predicate IsoMonthStart(s: string, year: int, month: int) {
    && |s| == 10
    && s[4] == '-' && s[7] == '-' && s[8..] == "01"
    && (forall k :: 0 <= k < 4 ==> IsDigit(s[k]))
    && IsDigit(s[5]) && IsDigit(s[6])
    && DigitsValue(s[..4]) == year
    && DigitsValue(s[5..7]) == month
  }

  /** For a four-digit year and a month of the calendar the start date is
      the ISO date YYYY-MM-01, and the year and the month read back from it. */
  lemma StartDateIso(year: int, month: int)
    requires 1000 <= year <= 9999 && 1 <= month <= 12
    ensures IsoMonthStart(StartDate(year, month), year, month)
  {
    YearField(year);
    MonthField(month);
    DateLayout(IntToString(year), PadStart2(IntToString(month)));
  }

  /** Where the pieces of `y-p-01` sit, for a four-character `y` and a
      two-character `p`. */
  lemma DateLayout(y: string, p: string)
    requires |y| == 4 && |p| == 2
    ensures var s := y + "-" + p + "-01";
      && |s| == 10 && s[..4] == y && s[5..7] == p
      && s[4] == '-' && s[7] == '-' && s[8..] == "01"
  {
    var s := y + "-" + p + "-01";
    assert s[..4] == y;
    assert s[5..7] == p;
    assert s[8..] == "01";
  }

  /** A numeral has as many digits as the number needs. */
  lemma {:induction false} NatToStringLength(n: nat, digits: nat)
    requires n < Power10(digits)
    ensures |NatToString(n)| <= if digits == 0 then 1 else digits
    ensures digits > 0 && n >= Power10(digits - 1) ==> |NatToString(n)| == digits
    decreases n
  {
    if n >= 10 {
      NatToStringLength(n / 10, digits - 1);
    }
  }

  function Power10(n: nat): (p: nat)
    ensures p >= 1
  {
    if n == 0 then 1 else 10 * Power10(n - 1)
  }

  // --------------------------------------------------------------- totals

  /** The `name` and `icon` of a joined `categories` or `payment_methods`
      row; `None` stands for `null`. */
  datatype Relation = Relation(name: Option<string>, icon: Option<string>)

  /** A fetched expense with its category and payment method, `None` when the
      relation is missing. */
  datatype ExpenseRow = ExpenseRow(amount: real, categories: Option<Relation>, paymentMethods: Option<Relation>)

  /** `relation?.field || default`. */
  function FieldOr(field: Option<string>, default: string): (r: string)
    requires default != ""
    ensures r != ""
    ensures r == default <==> field.None? || field.value == "" || field.value == default
  {
    if field.Some? && field.value != "" then field.value else default
  }

  function NameOf(relation: Option<Relation>): Option<string> {
    if relation.Some? then relation.value.name else None
  }

  function IconOf(relation: Option<Relation>): Option<string> {
    if relation.Some? then relation.value.icon else None
  }

  const CategoryIcon := "\U{1F4E6}"
  const CategoryName := "Sin categoría"
  const PaymentIcon := "\U{1F4B0}"
  const PaymentName := "Sin especificar"

  /** `${categoryIcon} ${categoryName}`. */
  function CategoryKey(row: ExpenseRow): string {
    FieldOr(IconOf(row.categories), CategoryIcon) + " " + FieldOr(NameOf(row.categories), CategoryName)
  }

  /** `${methodIcon} ${methodName}`. */
  function PaymentKey(row: ExpenseRow): string {
    FieldOr(IconOf(row.paymentMethods), PaymentIcon) + " " + FieldOr(NameOf(row.paymentMethods), PaymentName)
  }

  /** Rows without a category all fall under one key, and so do rows without
      a payment method. */
  lemma MissingRelationKeys(row: ExpenseRow)
    ensures row.categories.None? ==> CategoryKey(row) == CategoryIcon + " " + CategoryName
    ensures row.paymentMethods.None? ==> PaymentKey(row) == PaymentIcon + " " + PaymentName
  {
  }

  /** `data.reduce((sum, expense) => sum + parseFloat(expense.amount), 0)`,
      with every amount already read as a number. */
  function Sum(rows: seq<ExpenseRow>): real {
    if rows == [] then 0.0 else Sum(rows[..|rows| - 1]) + rows[|rows| - 1].amount
  }

  lemma SumSnoc(rows: seq<ExpenseRow>, row: ExpenseRow)
    ensures Sum(rows + [row]) == Sum(rows) + row.amount
  {
    assert (rows + [row])[..|rows|] == rows;
  }

  /** Summing in two parts gives the same total. */
  lemma {:induction false} SumAppend(a: seq<ExpenseRow>, b: seq<ExpenseRow>)
    ensures Sum(a + b) == Sum(a) + Sum(b)
    decreases |b|
  {
    if b != [] {
      var init := b[..|b| - 1];
      SumAppend(a, init);
      assert a + b == (a + init) + [b[|b| - 1]];
      SumSnoc(a + init, b[|b| - 1]);
    } else {
      assert a + b == a;
    }
  }

  /** `getMonthlyTotal` over the fetched rows: a query error is thrown on, and
      otherwise the total is the sum of the amounts, 0 for no rows. */
  function MonthlyTotal(fetched: Result<seq<ExpenseRow>, Failure>): (r: Result<real, Failure>)
    ensures fetched.Err? <==> r.Err?
    ensures fetched.Err? ==> r.error == fetched.error
    ensures fetched.Ok? && fetched.value == [] ==> r == Ok(0.0)
  {
    if fetched.Err? then Err(fetched.error) else Ok(Sum(fetched.value))
  }

  /** The keys of `rows`. */
  ghost function KeySet(rows: seq<ExpenseRow>, keyOf: ExpenseRow -> string): set<string> {
    set i | 0 <= i < |rows| :: keyOf(rows[i])
  }

  lemma KeySetSnoc(rows: seq<ExpenseRow>, row: ExpenseRow, keyOf: ExpenseRow -> string)
    ensures KeySet(rows + [row], keyOf) == KeySet(rows, keyOf) + {keyOf(row)}
  {
    var r := rows + [row];
    forall k | k in KeySet(r, keyOf) ensures k in KeySet(rows, keyOf) + {keyOf(row)} {
      var i :| 0 <= i < |r| && keyOf(r[i]) == k;
      if i < |rows| {
        assert r[i] == rows[i];
      }
    }
    forall k | k in KeySet(rows, keyOf) ensures k in KeySet(r, keyOf) {
      var i :| 0 <= i < |rows| && keyOf(rows[i]) == k;
      assert r[i] == rows[i];
    }
    assert keyOf(r[|rows|]) == keyOf(row);
  }

  /** The amounts of the rows under `key`, added in row order. */
  function SumFor(rows: seq<ExpenseRow>, keyOf: ExpenseRow -> string, key: string): real {
    if rows == [] then 0.0
    else SumFor(rows[..|rows| - 1], keyOf, key) + (if keyOf(rows[|rows| - 1]) == key then rows[|rows| - 1].amount else 0.0)
  }

  lemma SumForSnoc(rows: seq<ExpenseRow>, row: ExpenseRow, keyOf: ExpenseRow -> string, key: string)
    ensures SumFor(rows + [row], keyOf, key)
      == SumFor(rows, keyOf, key) + (if keyOf(row) == key then row.amount else 0.0)
  {
    assert (rows + [row])[..|rows|] == rows;
  }

  /** A key no row has sums to nothing. */
  lemma {:induction false} SumForAbsent(rows: seq<ExpenseRow>, keyOf: ExpenseRow -> string, key: string)
    requires key !in KeySet(rows, keyOf)
    ensures SumFor(rows, keyOf, key) == 0.0
  {
    if rows != [] {
      var init := rows[..|rows| - 1];
      assert rows == init + [rows[|rows| - 1]];
      KeySetSnoc(init, rows[|rows| - 1], keyOf);
      SumForAbsent(init, keyOf, key);
    }
  }

  /** The loop of `getCategoryTotals` and `getPaymentMethodTotals`: a
      dictionary from key to total, built in place. The result has exactly
      the keys of the rows, and each key's total is the sum of the amounts of
      its rows. */
  method GroupTotals(rows: seq<ExpenseRow>, keyOf: ExpenseRow -> string) returns (totals: map<string, real>)
    ensures totals.Keys == KeySet(rows, keyOf)
    ensures forall key :: key in totals ==> totals[key] == SumFor(rows, keyOf, key)
  {
    totals := map[];
    for i := 0 to |rows|
      invariant totals.Keys == KeySet(rows[..i], keyOf)
      invariant forall key :: key in totals ==> totals[key] == SumFor(rows[..i], keyOf, key)
    {
      var expense := rows[i];
      var key := keyOf(expense);
      assert rows[..i + 1] == rows[..i] + [expense];
      KeySetSnoc(rows[..i], expense, keyOf);
      if key !in totals || totals[key] == 0.0 {
        if key !in totals {
          SumForAbsent(rows[..i], keyOf, key);
        }
        totals := totals[key := 0.0];
      }
      totals := totals[key := totals[key] + expense.amount];
      forall k | k in totals ensures totals[k] == SumFor(rows[..i + 1], keyOf, k) {
        SumForSnoc(rows[..i], expense, keyOf, k);
      }
    }
    assert rows[..|rows|] == rows;
  }

  /** `getCategoryTotals` over the fetched rows. */
  method CategoryTotals(fetched: Result<seq<ExpenseRow>, Failure>) returns (r: Result<map<string, real>, Failure>)
    ensures fetched.Err? ==> r == Err(fetched.error)
    ensures fetched.Ok? ==> (r.Ok? && r.value.Keys == KeySet(fetched.value, CategoryKey)
      && forall key :: key in r.value ==> r.value[key] == SumFor(fetched.value, CategoryKey, key))
  {
    if fetched.Err? {
      return Err(fetched.error);
    }
    var totals := GroupTotals(fetched.value, CategoryKey);
    return Ok(totals);
  }

  /** `getPaymentMethodTotals` over the fetched rows. */
  method PaymentMethodTotals(fetched: Result<seq<ExpenseRow>, Failure>) returns (r: Result<map<string, real>, Failure>)
    ensures fetched.Err? ==> r == Err(fetched.error)
    ensures fetched.Ok? ==> (r.Ok? && r.value.Keys == KeySet(fetched.value, PaymentKey)
      && forall key :: key in r.value ==> r.value[key] == SumFor(fetched.value, PaymentKey, key))
  {
    if fetched.Err? {
      return Err(fetched.error);
    }
    var totals := GroupTotals(fetched.value, PaymentKey);
    return Ok(totals);
  }

  // ------------------------------------------------- totals add up to sum

  /** The keys in order of first appearance: the order in which the
      dictionary receives them. */
  function KeysInOrder(rows: seq<ExpenseRow>, keyOf: ExpenseRow -> string): (keys: seq<string>)
    ensures forall i, j :: 0 <= i < j < |keys| ==> keys[i] != keys[j]
  {
    if rows == [] then []
    else
      var keys := KeysInOrder(rows[..|rows| - 1], keyOf);
      var key := keyOf(rows[|rows| - 1]);
      if key in keys then keys else keys + [key]
  }

  lemma {:induction false} KeysInOrderAreKeys(rows: seq<ExpenseRow>, keyOf: ExpenseRow -> string)
    ensures forall k :: k in KeysInOrder(rows, keyOf) <==> k in KeySet(rows, keyOf)
  {
    if rows != [] {
      var init := rows[..|rows| - 1];
      assert rows == init + [rows[|rows| - 1]];
      KeysInOrderAreKeys(init, keyOf);
      KeySetSnoc(init, rows[|rows| - 1], keyOf);
    }
  }

  /** Some row with key `x` comes before every row with key `y`. */
  ghost predicate SeenBefore(rows: seq<ExpenseRow>, keyOf: ExpenseRow -> string, x: string, y: string) {
    exists i :: 0 <= i < |rows| && keyOf(rows[i]) == x && forall j :: 0 <= j <= i ==> keyOf(rows[j]) != y
  }

  /** Keys come in the order of their first row: for any two listed keys,
      some row with the earlier key comes before every row with the later
      one. */
  lemma {:induction false} KeysInOrderFirstSeen(rows: seq<ExpenseRow>, keyOf: ExpenseRow -> string)
    ensures forall a, b :: 0 <= a < b < |KeysInOrder(rows, keyOf)| ==>
      SeenBefore(rows, keyOf, KeysInOrder(rows, keyOf)[a], KeysInOrder(rows, keyOf)[b])
  {
    if rows != [] {
      var init := rows[..|rows| - 1];
      var last := rows[|rows| - 1];
      var before := KeysInOrder(init, keyOf);
      var keys := KeysInOrder(rows, keyOf);
      KeysInOrderFirstSeen(init, keyOf);
      KeysInOrderAreKeys(init, keyOf);
      assert keys == before || keys == before + [keyOf(last)];
      forall a, b | 0 <= a < b < |keys| ensures SeenBefore(rows, keyOf, keys[a], keys[b]) {
        assert keys[a] == before[a];
        if b < |before| {
          assert keys[b] == before[b];
          assert SeenBefore(init, keyOf, before[a], before[b]);
          var i :| 0 <= i < |init| && keyOf(init[i]) == before[a]
            && forall j :: 0 <= j <= i ==> keyOf(init[j]) != before[b];
          assert forall j :: 0 <= j <= i ==> rows[j] == init[j];
        } else {
          assert keys[b] == keyOf(last) && keyOf(last) !in before;
          assert before[a] in KeySet(init, keyOf);
          var i :| 0 <= i < |init| && keyOf(init[i]) == before[a];
          assert keyOf(last) !in KeySet(init, keyOf);
          forall j | 0 <= j <= i ensures keyOf(rows[j]) != keys[b] {
            assert rows[j] == init[j];
          }
        }
      }
    }
  }

  /** The totals of the keys `keys`, added up. */
  function SumOver(rows: seq<ExpenseRow>, keyOf: ExpenseRow -> string, keys: seq<string>): real {
    if keys == [] then 0.0 else SumOver(rows, keyOf, keys[..|keys| - 1]) + SumFor(rows, keyOf, keys[|keys| - 1])
  }

  /** One more row adds its amount to the sum over distinct keys when its key
      is among them, and nothing otherwise. */
  lemma {:induction false} SumOverSnoc(rows: seq<ExpenseRow>, row: ExpenseRow, keyOf: ExpenseRow -> string, keys: seq<string>)
    requires forall i, j :: 0 <= i < j < |keys| ==> keys[i] != keys[j]
    ensures SumOver(rows + [row], keyOf, keys)
      == SumOver(rows, keyOf, keys) + (if keyOf(row) in keys then row.amount else 0.0)
  {
    if keys != [] {
      var init := keys[..|keys| - 1];
      var last := keys[|keys| - 1];
      SumOverSnoc(rows, row, keyOf, init);
      SumForSnoc(rows, row, keyOf, last);
      assert keyOf(row) in keys <==> keyOf(row) in init || keyOf(row) == last by {
        assert keys == init + [last];
      }
      if keyOf(row) == last {
        assert last !in init;
      }
    }
  }

  lemma SumOverSnocKey(rows: seq<ExpenseRow>, keyOf: ExpenseRow -> string, keys: seq<string>, key: string)
    ensures SumOver(rows, keyOf, keys + [key]) == SumOver(rows, keyOf, keys) + SumFor(rows, keyOf, key)
  {
    assert (keys + [key])[..|keys|] == keys;
  }

  /** The group totals add up to the sum of all amounts: every row is
      counted under exactly one key. */
  lemma {:induction false} TotalsAddUp(rows: seq<ExpenseRow>, keyOf: ExpenseRow -> string)
    ensures SumOver(rows, keyOf, KeysInOrder(rows, keyOf)) == Sum(rows)
  {
    if rows != [] {
      var init := rows[..|rows| - 1];
      var row := rows[|rows| - 1];
      var keys := KeysInOrder(init, keyOf);
      assert rows == init + [row];
      TotalsAddUp(init, keyOf);
      SumOverSnoc(init, row, keyOf, keys);
      SumSnoc(init, row);
      var key := keyOf(row);
      if key !in keys {
        SumOverSnocKey(rows, keyOf, keys, key);
        KeysInOrderAreKeys(init, keyOf);
        SumForAbsent(init, keyOf, key);
        SumForSnoc(init, row, keyOf, key);
      }
    }
  }

  /** The monthly total is the sum of the category totals, and of the
      payment method totals. */
  lemma MonthlyTotalIsSumOfGroups(rows: seq<ExpenseRow>)
    ensures MonthlyTotal(Ok(rows)) == Ok(SumOver(rows, CategoryKey, KeysInOrder(rows, CategoryKey)))
    ensures MonthlyTotal(Ok(rows)) == Ok(SumOver(rows, PaymentKey, KeysInOrder(rows, PaymentKey)))
  {
    TotalsAddUp(rows, CategoryKey);
    TotalsAddUp(rows, PaymentKey);
  }
}
