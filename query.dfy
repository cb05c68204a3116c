/**
 * `build_query`: the Spark SQL text that adds the derived columns to the
 * table — a one-hot encoding of the pickup hour and of the pickup day of
 * week, the ride duration in seconds, and whether the ride started or ended
 * inside a bounding box around JFK airport. Only the text is modelled.
 */
module Query {
  import opened Text
  import opened Digits
  import Buffers

  /** The separator written after every one-hot clause but the last. */
  const SEP: string := ",\n"

  const HOUR_FUNC: string := "HOUR"
  const HOUR_ALIAS: string := "Pickup_hour_is_"
  const NUM_HOURS: nat := 24

  const DOW_FUNC: string := "DAYOFWEEK"
  const DOW_ALIAS: string := "Pickup_dow_is_"
  const NUM_DAYS: nat := 7

  /** The text before the clause's number: the test of `func` applied to the pickup time. */
  function ClauseHead(func: string): string {
    "CASE WHEN " + func + "(lpep_pickup_datetime) = "
  }

  /** The text after the clause's tested number: the two outcomes and the alias `alias` + k. */
  function ClauseTail(alias: string, k: nat): string {
    " THEN 1 ELSE 0 END AS " + alias + NatToString(k)
  }

  /** The one-hot clause for value k: 1 when `func` of the pickup time is k, aliased `alias` + k. */
  function Clause(func: string, alias: string, k: nat): string {
    ClauseHead(func) + NatToString(k) + ClauseTail(alias, k)
  }

  /** The clauses for 0, 1, ..., count - 1, in this order. */
  function Clauses(func: string, alias: string, count: nat): (cs: seq<string>)
    ensures |cs| == count
    ensures forall k | 0 <= k < count :: cs[k] == Clause(func, alias, k)
  {
    seq(count, k requires 0 <= k < count => Clause(func, alias, k))
  }

  /** The clauses joined by SEP, with no separator after the last. */
  function Fragment(func: string, alias: string, count: nat): string {
    Join(Clauses(func, alias, count), SEP)
  }

  /**
   * The loop that fills one `StringIO`: for each value in turn, its clause,
   * then SEP unless it is the last value.
   */
  method OneHot(func: string, alias: string, count: nat) returns (text: string)
    ensures text == Fragment(func, alias, count)
  {
    var buf := new Buffers.Buffer();
    ghost var cs := Clauses(func, alias, count);
    for k := 0 to count
      invariant k == 0 ==> buf.contents == ""
      invariant 0 < k ==> buf.contents == Join(cs[..k], SEP) + (if k < count then SEP else "")
    {
      buf.Write(Clause(func, alias, k));
      if k == 0 {
        assert cs[..1] == [cs[0]];
      } else {
        assert cs[..k + 1] == cs[..k] + [cs[k]];
        JoinSnoc(cs[..k], cs[k], SEP);
      }
      if k < count - 1 {
        buf.Write(SEP);
      }
    }
    text := buf.contents;
    assert count > 0 ==> cs[..count] == cs;
  }

  // ---------------------------------------------------------------------------
  // Properties of the one-hot fragments

  lemma DigitsHaveNoNewline(s: string)
    requires IsDigits(s)
    ensures '\n' !in s
  {
  }

  lemma ClauseHeadHasNoNewline(func: string)
    requires '\n' !in func
    ensures '\n' !in ClauseHead(func)
  {
  }

  lemma ClauseTailHasNoNewline(alias: string, k: nat)
    requires '\n' !in alias
    ensures '\n' !in ClauseTail(alias, k)
  {
    DigitsHaveNoNewline(NatToString(k));
  }

  lemma ClauseTailStart(alias: string, k: nat)
    ensures ClauseTail(alias, k) != [] && !IsDigit(ClauseTail(alias, k)[0])
  {
  }

  /** A clause spans one line when `func` and `alias` do. */
  lemma ClauseHasNoNewline(func: string, alias: string, k: nat)
    requires '\n' !in func && '\n' !in alias
    ensures Clause(func, alias, k) != [] && '\n' !in Clause(func, alias, k)
  {
    ClauseHeadHasNoNewline(func);
    ClauseTailHasNoNewline(alias, k);
    DigitsHaveNoNewline(NatToString(k));
  }

  /** The length of the run of digits that starts s. */
  function DigitRun(s: string): nat {
    if s == [] || !IsDigit(s[0]) then 0 else 1 + DigitRun(s[1..])
  }

  lemma {:induction false} DigitRunOf(x: string, r: string)
    requires IsDigits(x) && r != [] && !IsDigit(r[0])
    ensures DigitRun(x + r) == |x|
  {
    if x != [] {
      assert (x + r)[1..] == x[1..] + r;
      DigitRunOf(x[1..], r);
    } else {
      assert x + r == r;
    }
  }

  /** Of two digit strings each followed by a non-digit, the same text holds only one. */
  lemma DigitRunUnique(x: string, r: string, y: string, t: string)
    requires IsDigits(x) && IsDigits(y)
    requires r != [] && t != [] && !IsDigit(r[0]) && !IsDigit(t[0])
    requires x + r == y + t
    ensures x == y
  {
    DigitRunOf(x, r);
    DigitRunOf(y, t);
    assert x == (x + r)[..|x|];
    assert y == (y + t)[..|y|];
  }

  lemma SliceAfter(h: string, u: string)
    ensures (h + u)[|h|..] == u
  {
  }

  /** Distinct values get distinct clauses: each clause names its value. */
  lemma ClauseInjective(func: string, alias: string, j: nat, k: nat)
    requires Clause(func, alias, j) == Clause(func, alias, k)
    ensures j == k
  {
    var h := ClauseHead(func);
    var sj, sk := NatToString(j), NatToString(k);
    var tj, tk := ClauseTail(alias, j), ClauseTail(alias, k);
    assert Clause(func, alias, j) == h + (sj + tj);
    assert Clause(func, alias, k) == h + (sk + tk);
    SliceAfter(h, sj + tj);
    SliceAfter(h, sk + tk);
    ClauseTailStart(alias, j);
    ClauseTailStart(alias, k);
    DigitRunUnique(sj, tj, sk, tk);
    NatToStringInjective(j, k);
  }

  lemma ClausesHaveNoNewline(func: string, alias: string, count: nat)
    requires '\n' !in func && '\n' !in alias
    ensures forall k | 0 <= k < count :: Clauses(func, alias, count)[k] != [] && '\n' !in Clauses(func, alias, count)[k]
  {
    forall k | 0 <= k < count
      ensures Clauses(func, alias, count)[k] != [] && '\n' !in Clauses(func, alias, count)[k]
    {
      ClauseHasNoNewline(func, alias, k);
    }
  }

  /**
   * A fragment of count >= 1 clauses reads, line by line, as the clauses for
   * 0 .. count - 1 in ascending order, each but the last followed by SEP; it
   * holds exactly count - 1 line ends, one per separator, and none trailing.
   */
  lemma FragmentLines(func: string, alias: string, count: nat)
    requires count >= 1 && '\n' !in func && '\n' !in alias
    ensures |Lines(Fragment(func, alias, count))| == count
    ensures forall k | 0 <= k < count - 1 :: Lines(Fragment(func, alias, count))[k] == Clause(func, alias, k) + SEP
    ensures Lines(Fragment(func, alias, count))[count - 1] == Clause(func, alias, count - 1)
    ensures Count(Fragment(func, alias, count), '\n') == count - 1
  {
    var cs := Clauses(func, alias, count);
    ClausesHaveNoNewline(func, alias, count);
    LinesOfJoin(cs);
    NewlinesOfJoin(cs);
  }

  /** The hour fragment: 24 clauses for hours 0 to 23, in order, with 23 separators. */
  lemma HourFragmentShape()
    ensures |Lines(Fragment(HOUR_FUNC, HOUR_ALIAS, NUM_HOURS))| == 24
    ensures forall k | 0 <= k < 23 ::
      Lines(Fragment(HOUR_FUNC, HOUR_ALIAS, NUM_HOURS))[k] == Clause(HOUR_FUNC, HOUR_ALIAS, k) + SEP
    ensures Lines(Fragment(HOUR_FUNC, HOUR_ALIAS, NUM_HOURS))[23] == Clause(HOUR_FUNC, HOUR_ALIAS, 23)
    ensures Count(Fragment(HOUR_FUNC, HOUR_ALIAS, NUM_HOURS), '\n') == 23
  {
    FragmentLines(HOUR_FUNC, HOUR_ALIAS, NUM_HOURS);
  }

  /** The day-of-week fragment: 7 clauses for days 0 to 6, in order, with 6 separators. */
  lemma DowFragmentShape()
    ensures |Lines(Fragment(DOW_FUNC, DOW_ALIAS, NUM_DAYS))| == 7
    ensures forall k | 0 <= k < 6 ::
      Lines(Fragment(DOW_FUNC, DOW_ALIAS, NUM_DAYS))[k] == Clause(DOW_FUNC, DOW_ALIAS, k) + SEP
    ensures Lines(Fragment(DOW_FUNC, DOW_ALIAS, NUM_DAYS))[6] == Clause(DOW_FUNC, DOW_ALIAS, 6)
    ensures Count(Fragment(DOW_FUNC, DOW_ALIAS, NUM_DAYS), '\n') == 6
  {
    FragmentLines(DOW_FUNC, DOW_ALIAS, NUM_DAYS);
  }

  // ---------------------------------------------------------------------------
  // Fixed fragments

  /** The ride duration: the dropoff time minus the pickup time, both as epoch seconds. */
  const DURATION: string :=
    "CAST(lpep_dropoff_datetime AS LONG) - CAST(lpep_pickup_datetime AS LONG) AS Duration_seconds"

  /** The JFK bounding box, as the text Python writes for the four float literals. */
  const LON_MIN: string := "-73.794694"
  const LON_MAX: string := "-73.776283"
  const LAT_MIN: string := "40.640668"
  const LAT_MAX: string := "40.651381"

  /** The test that the `side` coordinates (Pickup or Dropoff) lie inside the box. */
  function InBox(side: string): string {
    side + "_longitude BETWEEN " + LON_MIN + " AND " + LON_MAX + " AND "
      + side + "_latitude BETWEEN " + LAT_MIN + " AND " + LAT_MAX
  }

  /** 1 when the pickup or the dropoff lies inside the box: both tests use the same four bounds. */
  function Jfk(): string {
    "CASE WHEN (" + InBox("Pickup") + ") OR (" + InBox("Dropoff") + ") THEN 1 ELSE 0 END AS Pickup_or_dropoff_at_JFK"
  }

  // ---------------------------------------------------------------------------
  // The template

  /** The dedented template with its five fields filled in; the alias is inserted verbatim. */
  function Template(oneHotHour: string, oneHotDow: string, duration: string, jfk: string, tableAlias: string): string {
    "SELECT\n*,\n" + oneHotHour + ",\n" + oneHotDow + ",\n" + duration + ",\n" + jfk + "\nFROM\n" + tableAlias
  }

  /** The text `build_query` returns for `tableAlias`. */
  function QueryText(tableAlias: string): string {
    Template(Fragment(HOUR_FUNC, HOUR_ALIAS, NUM_HOURS), Fragment(DOW_FUNC, DOW_ALIAS, NUM_DAYS),
             DURATION, Jfk(), tableAlias)
  }

  /** `build_query`: the two one-hot loops, then the template fill. */
  method BuildQuery(tableAlias: string) returns (query: string)
    ensures query == QueryText(tableAlias)
  {
    var oneHotHour := OneHot(HOUR_FUNC, HOUR_ALIAS, NUM_HOURS);
    var oneHotDow := OneHot(DOW_FUNC, DOW_ALIAS, NUM_DAYS);
    query := Template(oneHotHour, oneHotDow, DURATION, Jfk(), tableAlias);
  }

  /**
   * The filled template is the fields in order, separated by ",\n" and with
   * "\nFROM\n" before the alias, which ends the text unescaped.
   */
  lemma TemplateLayout(oneHotHour: string, oneHotDow: string, duration: string, jfk: string, tableAlias: string)
    ensures var q := Template(oneHotHour, oneHotDow, duration, jfk, tableAlias);
      && q == Template(oneHotHour, oneHotDow, duration, jfk, "") + tableAlias
      && q[..10] == "SELECT\n*,\n"
      && q[10..10 + |oneHotHour|] == oneHotHour
  {
  }
}
