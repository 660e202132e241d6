/**
 * Envelope reports of the sea-orm generation (src/core/report.rs): the
 * progress percentage, the progress bar, the signed amount and the report
 * that gathers them. Reports only read the store.
 */
module ReportCore {
  import opened Wrappers
  import opened Sorting
  import opened Floats
  import opened StoreV2
  import opened EnvelopeCore
  import opened TransactionCore

  // ----- progress -----

  /**
   * calculate_progress: the balance as a percentage of the allocation, 0
   * for a zero allocation; 100 means nothing spent, and an overdrawn
   * envelope gives a negative percentage.
   */
  function CalculateProgress(balance: real, allocation: real): (r: real)
    ensures allocation == 0.0 ==> r == 0.0
    ensures allocation != 0.0 ==> r * allocation == balance * 100.0
  {
    if allocation == 0.0 then 0.0 else (balance / allocation) * 100.0
  }

  /** The percentage's sign follows the balance for a positive allocation: full is 100, empty 0, overdrawn below 0. */
  lemma ProgressMeaning(balance: real, allocation: real)
    requires allocation > 0.0
    ensures CalculateProgress(balance, allocation) < 0.0 <==> balance < 0.0
    ensures CalculateProgress(balance, allocation) == 0.0 <==> balance == 0.0
    ensures CalculateProgress(balance, allocation) == 100.0 <==> balance == allocation
    ensures CalculateProgress(balance, allocation) > 100.0 <==> balance > allocation
  {
    var r := CalculateProgress(balance, allocation);
    assert r * allocation == balance * 100.0;
    ScaleCompare(r, 0.0, allocation);
    ScaleCompare(r, 100.0, allocation);
  }

  /** Multiplying both sides by a positive factor keeps their order. */
  lemma ScaleCompare(x: real, c: real, a: real)
    requires a > 0.0
    ensures x < c <==> x * a < c * a
    ensures x > c <==> x * a > c * a
  {
    if x < c {
      assert c * a - x * a == (c - x) * a;
    } else if x > c {
      assert x * a - c * a == (x - c) * a;
    }
  }

  /** The concrete cases: 100/100 is 100, 50/100 is 50, 0/100 is 0, -25/100 is -25, anything over 0 is 0. */
  lemma ProgressExamples()
    ensures CalculateProgress(100.0, 100.0) == 100.0
    ensures CalculateProgress(50.0, 100.0) == 50.0
    ensures CalculateProgress(0.0, 100.0) == 0.0
    ensures CalculateProgress(-25.0, 100.0) == -25.0
    ensures CalculateProgress(50.0, 0.0) == 0.0
  {
  }

  // ----- the progress bar -----

  const DefaultBarLength: nat := 10

  /** The exact number of cells the clamped progress fills: `(clamped / 100.0) * length`. */
  function FilledShare(progress: real, length: nat): (x: real)
    ensures 0.0 <= x <= length as real
  {
    var c := Clamp(progress, 0.0, 100.0) / 100.0;
    ScaleWithin(c, length as real);
    c * length as real
  }

  lemma ScaleWithin(c: real, l: real)
    requires 0.0 <= c <= 1.0 && l >= 0.0
    ensures 0.0 <= c * l <= l
  {
    assert c * l <= 1.0 * l;
  }

  /**
   * The cell counts of format_progress_bar: the progress clamped to
   * [0, 100], `filled` the nearest whole number of the bar's cells, and
   * `empty` the rest (`saturating_sub`).
   */
  function BarCounts(progress: real, barLength: Option<nat>): (r: (nat, nat))
    ensures var length := barLength.UnwrapOr(DefaultBarLength);
      && r.0 + r.1 == length
      && r.0 as real - 0.5 <= FilledShare(progress, length) < r.0 as real + 0.5
  {
    var length := barLength.UnwrapOr(DefaultBarLength);
    var filled := RoundHalfAway(FilledShare(progress, length));
    (filled, if length >= filled then length - filled else 0)
  }

  /** A bar is empty at or below 0 and full at or above 100, whatever its length. */
  lemma BarCountsEnds(progress: real, barLength: Option<nat>)
    ensures progress <= 0.0 ==> BarCounts(progress, barLength).0 == 0
    ensures progress >= 100.0 ==> BarCounts(progress, barLength).1 == 0
  {
    var length := barLength.UnwrapOr(DefaultBarLength);
    if progress >= 100.0 {
      assert FilledShare(progress, length) == 1.0 * length as real;
      RoundHalfAwayUnique(FilledShare(progress, length), length);
    }
  }

  /** More progress never fills fewer cells. */
  lemma BarCountsMonotonic(p: real, q: real, barLength: Option<nat>)
    requires p <= q
    ensures BarCounts(p, barLength).0 <= BarCounts(q, barLength).0
  {
    var length := barLength.UnwrapOr(DefaultBarLength);
    FilledShareMonotonic(p, q, length);
    RoundHalfAwayMonotonic(FilledShare(p, length), FilledShare(q, length));
  }

  lemma FilledShareMonotonic(p: real, q: real, length: nat)
    requires p <= q
    ensures FilledShare(p, length) <= FilledShare(q, length)
  {
    var a, b, l := Clamp(p, 0.0, 100.0) / 100.0, Clamp(q, 0.0, 100.0) / 100.0, length as real;
    assert FilledShare(p, length) == a * l && FilledShare(q, length) == b * l;
    assert 0.0 <= b - a && 0.0 <= l;
    assert 0.0 <= (b - a) * l;
    assert b * l - a * l == (b - a) * l;
  }

  function Cells(c: char, n: nat): (r: string)
    ensures |r| == n && forall i :: 0 <= i < n ==> r[i] == c
  {
    if n == 0 then [] else [c] + Cells(c, n - 1)
  }

  /** The bar part of format_progress_bar, between brackets: the filled cells, then the empty ones. */
  function ProgressBar(progress: real, barLength: Option<nat>): (r: string)
    ensures var (filled, empty) := BarCounts(progress, barLength);
      && |r| == barLength.UnwrapOr(DefaultBarLength) + 2
      && r[0] == '[' && r[|r| - 1] == ']'
      && (forall i :: 1 <= i <= filled ==> r[i] == '█')
      && (forall i :: filled < i < |r| - 1 ==> r[i] == '░')
  {
    var (filled, empty) := BarCounts(progress, barLength);
    "[" + Cells('█', filled) + Cells('░', empty) + "]"
  }

  /** The bars of the tests: 100 is all filled, 50 is half, 0 and -25 are all empty. */
  lemma ProgressBarExamples()
    ensures ProgressBar(100.0, Some(10)) == "[██████████]"
    ensures ProgressBar(50.0, Some(10)) == "[█████░░░░░]"
    ensures ProgressBar(0.0, Some(10)) == "[░░░░░░░░░░]"
    ensures ProgressBar(-25.0, Some(10)) == "[░░░░░░░░░░]"
  {
    RoundHalfAwayUnique(FilledShare(100.0, 10), 10);
    RoundHalfAwayUnique(FilledShare(50.0, 10), 5);
    RoundHalfAwayUnique(FilledShare(0.0, 10), 0);
    RoundHalfAwayUnique(FilledShare(-25.0, 10), 0);
  }

  // ----- signed amounts -----

  /**
   * format_transaction_amount, up to the number's digits: the sign it
   * prints and the magnitude it prints after `$`.
   */
  function SignedAmount(amount: real): (r: (char, real))
    ensures r.1 >= 0.0
    ensures r.0 == '+' <==> amount >= 0.0
    ensures r.0 == '-' <==> amount < 0.0
    ensures (if r.0 == '+' then r.1 else -r.1) == amount
  {
    if amount >= 0.0 then ('+', amount) else ('-', -amount)
  }

  // ----- the report -----

  /** `EnvelopeReport` */
  datatype EnvelopeReport = EnvelopeReport(
    envelope: Envelope,
    balance: real,
    allocation: real,
    progressPercent: real,
    recentTransactions: seq<Transaction>,
    amountSpent: real,
    amountRemaining: real)

  const DefaultTransactionLimit: nat := 10

  /**
   * generate_envelope_report: the envelope by id (soft-deleted ones too),
   * at most `limit` (default 10) of its transactions, newest first, and the
   * spending figures; an unknown id gives `EnvelopeNotFound`.
   */
  function GenerateEnvelopeReport(envelopes: seq<Envelope>, log: seq<Transaction>, envelopeId: nat, limit: Option<nat>)
    : (r: Result<EnvelopeReport, Error>)
    ensures r.Err? <==> ById(envelopes, envelopeId).None?
    ensures r.Err? ==> r.error == EnvelopeNotFound(IdText(envelopeId))
    ensures r.Ok? ==>
      var rep := r.value;
      && rep.envelope == ById(envelopes, envelopeId).value
      && rep.balance == rep.envelope.balance && rep.allocation == rep.envelope.allocation
      && rep.amountRemaining == rep.balance
      && rep.amountSpent + rep.amountRemaining == rep.allocation
      && rep.progressPercent == CalculateProgress(rep.balance, rep.allocation)
      && |rep.recentTransactions| == Min(limit.UnwrapOr(DefaultTransactionLimit), Count(log, ForEnvelope(envelopeId)))
      && (forall t :: t in rep.recentTransactions ==> t in log && t.envelopeId == envelopeId)
      && SortedBy(rep.recentTransactions, NewerFirst)
      && rep.recentTransactions <= TransactionsFor(log, envelopeId)
  {
    match ById(envelopes, envelopeId)
    case None => Err(EnvelopeNotFound(IdText(envelopeId)))
    case Some(e) =>
      var recent := RecentTransactions(log, envelopeId, limit.UnwrapOr(DefaultTransactionLimit));
      Ok(EnvelopeReport(e, e.balance, e.allocation, CalculateProgress(e.balance, e.allocation),
                        recent, e.allocation - e.balance, e.balance))
  }

  /** The first `limit` rows of the envelope's newest-first listing. */
  function RecentTransactions(log: seq<Transaction>, envelopeId: nat, limit: nat): (rs: seq<Transaction>)
    ensures |rs| == Min(limit, Count(log, ForEnvelope(envelopeId)))
    ensures rs <= TransactionsFor(log, envelopeId)
    ensures forall t :: t in rs ==> t in log && t.envelopeId == envelopeId
    ensures SortedBy(rs, NewerFirst)
  {
    var all := TransactionsFor(log, envelopeId);
    var n := Min(limit, |all|);
    ForEnvelopeCount(log, envelopeId);
    SortedPrefix(all, n, NewerFirst);
    all[..n]
  }

  /** A prefix of a sorted sequence is sorted and holds only its elements. */
  lemma SortedPrefix<T>(s: seq<T>, n: nat, le: (T, T) -> bool)
    requires SortedBy(s, le) && n <= |s|
    ensures SortedBy(s[..n], le)
    ensures forall x :: x in s[..n] ==> x in s
  {
    assert forall i :: 0 <= i < n ==> s[..n][i] == s[i];
  }

  function Min(a: nat, b: nat): nat
  {
    if a <= b then a else b
  }

  /** The listing holds every transaction of the envelope. */
  lemma ForEnvelopeCount(log: seq<Transaction>, envelopeId: nat)
    ensures |TransactionsFor(log, envelopeId)| == Count(log, ForEnvelope(envelopeId))
  {
    var all := TransactionsFor(log, envelopeId);
    FilterCount(log, ForEnvelope(envelopeId));
    assert |all| == |multiset(all)| == |multiset(Filter(log, ForEnvelope(envelopeId)))|;
  }

  /** The test's figures: allocation 100 and balance 75 report 75 percent, 25 spent and 75 remaining. */
  lemma ReportExample(e: Envelope, log: seq<Transaction>)
    requires e.allocation == 100.0 && e.balance == 75.0
    ensures var r := GenerateEnvelopeReport([e], log, e.id, Some(5));
      && r.Ok? && r.value.progressPercent == 75.0 && r.value.amountSpent == 25.0 && r.value.amountRemaining == 75.0
  {
    var f := FirstIndex([e], (x: Envelope) => x.id == e.id);
    assert f == Some(0);
  }
}
