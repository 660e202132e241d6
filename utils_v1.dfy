/**
 * The report helpers of the rusqlite generation (src/commands/utils.rs, and
 * their older copy in src/commands.rs): the current month's date facts, the
 * owner label and the spending pace and status of one envelope.
 */
module UtilsV1 {
  import opened Wrappers
  import opened Text
  import opened Sorting
  import opened Calendar
  import opened Config
  import opened StoreV1
  import opened TransactionsV1

  /** What get_current_month_date_info returns, for the local date `today`. */
  datatype DateInfo = DateInfo(today: Date, day: nat, daysInMonth: nat, year: int, month: nat)

  /**
   * get_current_month_date_info: the day of the month, and the month's
   * length as the day number of the day before the next month's first.
   */
  function CurrentMonthDateInfo(today: Date): (r: DateInfo)
    requires IsValid(today)
    ensures r.today == today && r.year == today.year && r.month == today.month && r.day == today.day
    ensures r.daysInMonth == MonthLength(today.year, today.month)
    ensures 28 <= r.daysInMonth <= 31 && 1 <= r.day <= r.daysInMonth
  {
    DaysInMonthAgree(today);
    DateInfo(today, today.day, DaysInMonthByPred(today), today.year, today.month)
  }

  /** The traffic-light emoji: ⚪, 🟢, 🟡, 🔴. */
  datatype Status = White | Green | Yellow | Red

  /** How bad a status is; ⚪ (no allocation) sits with 🟢. */
  function Severity(s: Status): nat
  {
    match s
    case White => 0
    case Green => 0
    case Yellow => 1
    case Red => 2
  }

  /** `f64::max(0.0, allocation - balance)`: what the envelope has used up, never negative. */
  function SpentForIndicator(e: Envelope): (r: real)
    ensures r >= 0.0 && r >= e.allocation - e.balance
    ensures r == 0.0 || r == e.allocation - e.balance
  {
    if e.allocation - e.balance > 0.0 then e.allocation - e.balance else 0.0
  }

  /**
   * The expected spending to date: the daily allocation (allocation / days,
   * or 0 without a positive allocation) times the day of the month.
   */
  function ExpectedPace(allocation: real, day: nat, daysInMonth: nat): (r: real)
    requires daysInMonth > 0
    ensures allocation <= 0.0 ==> r == 0.0
    ensures allocation > 0.0 ==> r * daysInMonth as real == allocation * day as real
  {
    var daily := if allocation > 0.0 then allocation / daysInMonth as real else 0.0;
    daily * day as real
  }

  /** Within the month the pace grows from 0 to the whole allocation, reached on the last day. */
  lemma PaceWithinAllocation(allocation: real, day: nat, daysInMonth: nat)
    requires daysInMonth > 0 && allocation > 0.0 && day <= daysInMonth
    ensures 0.0 <= ExpectedPace(allocation, day, daysInMonth) <= allocation
    ensures day == daysInMonth ==> ExpectedPace(allocation, day, daysInMonth) == allocation
  {
    var d := daysInMonth as real;
    var daily := allocation / d;
    assert daily > 0.0;
    assert daily * d == allocation;
    assert daily * (d - day as real) >= 0.0;
    assert daily * day as real >= 0.0;
  }

  /** 500 allocated, day 15 of a 31-day month: 7500/31, which `{:.2}` prints as 241.94. */
  lemma PaceExample()
    ensures ExpectedPace(500.0, 15, 31) == 7500.0 / 31.0
    ensures 241.935 <= ExpectedPace(500.0, 15, 31) < 241.945
  {
    var r := ExpectedPace(500.0, 15, 31);
    assert r * 31.0 == 7500.0;
  }

  /**
   * The status rule: ⚪ without a positive allocation; otherwise 🟢 up to
   * 90% of the expected pace, 🔴 beyond 110% of it, 🟡 in between.
   */
  function StatusOf(e: Envelope, day: nat, daysInMonth: nat): (s: Status)
    requires daysInMonth > 0
    ensures s == White <==> e.allocation <= 0.0
  {
    var spent := SpentForIndicator(e);
    var expected := ExpectedPace(e.allocation, day, daysInMonth);
    if e.allocation <= 0.0 then White
    else if spent <= expected * 0.90 then Green
    else if spent > expected * 1.10 then Red
    else Yellow
  }

  /**
   * The bands partition the spending axis: 🟢 is at or below the pace, 🔴
   * strictly above it, and 🟡 lies within 10% of it on either side.
   */
  lemma StatusBands(e: Envelope, day: nat, daysInMonth: nat)
    requires daysInMonth > 0 && e.allocation > 0.0
    ensures var spent, expected := SpentForIndicator(e), ExpectedPace(e.allocation, day, daysInMonth);
      && (StatusOf(e, day, daysInMonth) == Green ==> spent <= expected)
      && (StatusOf(e, day, daysInMonth) == Red ==> spent > expected)
      && (StatusOf(e, day, daysInMonth) == Yellow ==> 0.90 * expected < spent <= 1.10 * expected)
  {
    PaceNonNegative(e.allocation, day, daysInMonth);
  }

  /**
   * The status rule in money terms, with the division by the month length
   * cleared: 🟢 exactly when ten times the used amount over the whole month
   * is at most nine times the allocation to date, 🔴 exactly when it is above
   * eleven times it, and 🟡 in between.
   */
  lemma {:induction false} StatusByMoney(e: Envelope, day: nat, daysInMonth: nat)
    requires daysInMonth > 0 && e.allocation > 0.0
    ensures var spent, d := SpentForIndicator(e), daysInMonth as real;
      && (StatusOf(e, day, daysInMonth) == Green <==> spent * d * 10.0 <= 9.0 * e.allocation * day as real)
      && (StatusOf(e, day, daysInMonth) == Red <==> spent * d * 10.0 > 11.0 * e.allocation * day as real)
      && (StatusOf(e, day, daysInMonth) == Yellow <==>
            9.0 * e.allocation * day as real < spent * d * 10.0 <= 11.0 * e.allocation * day as real)
  {
    var spent, d := SpentForIndicator(e), daysInMonth as real;
    var expected := ExpectedPace(e.allocation, day, daysInMonth);
    assert expected * d == e.allocation * day as real;
    ScaleLe(spent, expected * 0.90, d * 10.0);
    ScaleLe(spent, expected * 1.10, d * 10.0);
    assert expected * 0.90 * (d * 10.0) == 9.0 * (expected * d);
    assert expected * 1.10 * (d * 10.0) == 11.0 * (expected * d);
  }

  lemma ScaleLe(x: real, y: real, a: real)
    requires a > 0.0
    ensures x <= y <==> x * a <= y * a
  {
    if x <= y { assert (y - x) * a >= 0.0; } else { assert (x - y) * a > 0.0; }
  }

  lemma PaceNonNegative(allocation: real, day: nat, daysInMonth: nat)
    requires daysInMonth > 0
    ensures ExpectedPace(allocation, day, daysInMonth) >= 0.0
  {
    if allocation > 0.0 {
      var daily := allocation / daysInMonth as real;
      assert daily > 0.0;
      assert daily * day as real >= 0.0;
    }
  }

  /** A higher balance never gives a worse status: the light only improves as money comes back. */
  lemma StatusMonotoneInBalance(e: Envelope, balance: real, day: nat, daysInMonth: nat)
    requires daysInMonth > 0 && balance >= e.balance
    ensures Severity(StatusOf(e.(balance := balance), day, daysInMonth)) <= Severity(StatusOf(e, day, daysInMonth))
  {
    PaceNonNegative(e.allocation, day, daysInMonth);
  }

  /** An envelope still holding its whole allocation is 🟢. */
  lemma FullEnvelopeIsGreen(e: Envelope, day: nat, daysInMonth: nat)
    requires daysInMonth > 0 && e.allocation > 0.0 && e.balance >= e.allocation
    ensures StatusOf(e, day, daysInMonth) == Green
  {
    PaceNonNegative(e.allocation, day, daysInMonth);
  }

  /** Day 15 of 31 with 500 allocated: 200 used is 🟢, 250 is 🟡, 300 is 🔴. */
  lemma StatusExample(e: Envelope)
    requires e.allocation == 500.0
    ensures StatusOf(e.(balance := 300.0), 15, 31) == Green
    ensures StatusOf(e.(balance := 250.0), 15, 31) == Yellow
    ensures StatusOf(e.(balance := 200.0), 15, 31) == Red
  {
    PaceExample();
  }

  /**
   * The owner label of a report line: "(Shared)" without an owner, the
   * configured nickname for the two configured users, otherwise the last
   * four characters of the id.
   */
  function OwnerLabel(owner: Option<UserId>, config: AppConfig): string
  {
    match owner
    case None => "(Shared)"
    case Some(uid) =>
      if uid == config.userId1 then "(" + config.nickname1 + ")"
      else if uid == config.userId2 then "(" + config.nickname2 + ")"
      else "(ID: ..." + LastChars(uid, 4) + ")"
  }

  /**
   * The label always names its owner: a configured user by nickname (user 1
   * winning when both ids coincide), anyone else by the last four characters
   * of the id, or the whole id when it is shorter.
   */
  lemma OwnerLabelNamesOwner(owner: Option<UserId>, config: AppConfig)
    ensures owner.None? ==> OwnerLabel(owner, config) == "(Shared)"
    ensures owner == Some(config.userId1) ==> OwnerLabel(owner, config) == "(" + config.nickname1 + ")"
    ensures owner == Some(config.userId2) && config.userId2 != config.userId1 ==> OwnerLabel(owner, config) == "(" + config.nickname2 + ")"
    ensures owner.Some? && owner.value != config.userId1 && owner.value != config.userId2 && |owner.value| >= 4 ==>
      OwnerLabel(owner, config) == "(ID: ..." + owner.value[|owner.value| - 4..] + ")"
    ensures owner.Some? && owner.value != config.userId1 && owner.value != config.userId2 && |owner.value| < 4 ==>
      OwnerLabel(owner, config) == "(ID: ..." + owner.value + ")"
  {
  }

  /** One report line: its name and the figures its text shows. */
  datatype ReportField = ReportField(
    name: string,
    balance: real,
    allocation: real,
    actualSpending: real,
    expectedPace: real,
    status: Status)

  /**
   * generate_single_envelope_report_field_data: the line is named by the
   * envelope and its owner label; the "Spent (Actual)" figure is the month's
   * `spend` rows of this envelope, while the status is judged from
   * allocation minus balance, not from the log.
   */
  function ReportFieldData(e: Envelope, config: AppConfig, transactions: seq<Transaction>, info: DateInfo): (r: ReportField)
    requires info.daysInMonth > 0
    ensures r.name == e.name + " " + OwnerLabel(e.userId, config)
    ensures r.balance == e.balance && r.allocation == e.allocation
    ensures r.actualSpending == Total(Filter(transactions, (t: Transaction) => CountsAsSpending(t, e.id, info.year, info.month)))
    ensures r.actualSpending == MonthSpending(transactions, e.id, info.year, info.month)
    ensures r.status == StatusOf(e, info.day, info.daysInMonth)
    ensures r.expectedPace == ExpectedPace(e.allocation, info.day, info.daysInMonth)
  {
    MonthSpendingIsTotalOfSelected(transactions, e.id, info.year, info.month);
    ReportField(e.name + " " + OwnerLabel(e.userId, config), e.balance, e.allocation,
                MonthSpending(transactions, e.id, info.year, info.month),
                ExpectedPace(e.allocation, info.day, info.daysInMonth),
                StatusOf(e, info.day, info.daysInMonth))
  }
}
