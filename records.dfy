/**
 * The record normalizer of the green-taxi reader: checks the header line,
 * skips the blank lines that follow it, and writes the first 20 fields of
 * every data line, each followed by LF, into a sink, dropping any extra
 * trailing fields.
 */
module Records {
  import opened Wrappers
  import opened Text
  import Config
  import Buffers

  /** The number of fields every data record must have and keeps: one per header name. */
  const FieldCount: nat := 20

  lemma FieldCountIsHeaderLength()
    ensures FieldCount == |Config.HEADER| == |Config.SCHEMA|
  {
  }

  // ---------------------------------------------------------------------------
  // The data-line pattern: \A((?:[^,]*,){19}[^,\r\n]*)

  /** The bytes that end the last kept field: comma, CR and LF. */
  predicate IsStop(c: char) {
    c == ',' || c == '\r' || c == '\n'
  }

  /** Length of the longest prefix of s free of comma, CR and LF (`[^,\r\n]*`). */
  function TailLength(s: string): (n: nat)
    ensures n <= |s|
    ensures n < |s| ==> IsStop(s[n])
  {
    if s == [] || IsStop(s[0]) then 0 else 1 + TailLength(s[1..])
  }

  /** No comma, CR or LF occurs before TailLength(s). */
  lemma {:induction false} TailLengthFirst(s: string)
    ensures forall i | 0 <= i < TailLength(s) :: !IsStop(s[i])
    decreases |s|
  {
    if s != [] && !IsStop(s[0]) {
      TailLengthFirst(s[1..]);
    }
  }

  /**
   * The length of the prefix of s made of n comma-terminated fields
   * (`(?:[^,]*,){n}`), scanned one byte at a time, or None when s has fewer
   * than n commas.
   */
  function SkipFields(s: string, n: nat): (r: Option<nat>)
    ensures r.Some? ==> r.value <= |s|
    ensures r.Some? && n > 0 ==> r.value >= 1 && s[r.value - 1] == ','
    decreases |s|
  {
    if n == 0 then Some(0)
    else if s == [] then None
    else
      match SkipFields(s[1..], if s[0] == ',' then n - 1 else n)
      case None => None
      case Some(k) => Some(1 + k)
  }

  /**
   * `PATTERN_DATA.match(line).group(1)`: everything through the 19th comma,
   * then the longest following run without comma, CR or LF.
   */
  function Extract(line: string): (r: Option<string>)
    ensures r.Some? ==> r.value <= line && r.value != []
    ensures r.Some? ==> r.value[|r.value| - 1] != '\n' && r.value[|r.value| - 1] != '\r'
  {
    match SkipFields(line, FieldCount - 1)
    case None => None
    case Some(q) =>
      MatchEndsBeforeLineEnd(line, q);
      Some(line[..q + TailLength(line[q..])])
  }

  /** A match that ends after a comma and a run of non-stop bytes does not end in CR or LF. */
  lemma MatchEndsBeforeLineEnd(line: string, q: nat)
    requires 1 <= q <= |line| && line[q - 1] == ','
    ensures var m := q + TailLength(line[q..]);
      m <= |line| && line[m - 1] != '\n' && line[m - 1] != '\r'
  {
    var t := TailLength(line[q..]);
    if t > 0 {
      TailLengthFirst(line[q..]);
      assert line[q + t - 1] == line[q..][t - 1];
    }
  }

  /** The prefix of a field before its first CR or LF. */
  function CutAtLineEnd(field: string): string {
    field[..TailLength(field)]
  }

  /** Each field followed by a comma. */
  function Terminated(fields: seq<string>): string {
    if fields == [] then "" else fields[0] + "," + Terminated(fields[1..])
  }

  lemma {:induction false} JoinTerminated(fields: seq<string>, last: string)
    ensures Join(fields + [last], ",") == Terminated(fields) + last
  {
    if fields != [] {
      assert (fields + [last])[1..] == fields[1..] + [last];
      JoinTerminated(fields[1..], last);
    } else {
      assert fields + [last] == [last];
    }
  }

  /** TailLength(s) is the only length with no stop byte before it and a stop byte or the end at it. */
  lemma {:induction false} TailLengthUnique(s: string, t: nat)
    requires t <= |s|
    requires forall i | 0 <= i < t :: !IsStop(s[i])
    requires t == |s| || IsStop(s[t])
    ensures TailLength(s) == t
    decreases |s|
  {
    if t > 0 {
      TailLengthUnique(s[1..], t - 1);
    }
  }

  /** One step of `split` at the first comma j: the text before it, then the fields after it. */
  lemma SplitStep(s: string, j: nat)
    requires j == IndexOf(s, ',') && j < |s|
    ensures Split(s, ',') == [s[..j]] + Split(s[j + 1..], ',')
  {
  }

  /** The pattern passes over a byte that is not a comma without counting it. */
  lemma SkipFieldsNonComma(s: string, n: nat, t: string)
    requires n > 0 && s != [] && s[0] != ',' && t == s[1..]
    ensures SkipFields(s, n) ==
      if SkipFields(t, n).None? then None else Some(1 + SkipFields(t, n).value)
  {
  }

  /** A comma as the first byte ends the first field. */
  lemma SkipFieldsComma(s: string, n: nat, t: string)
    requires n > 0 && s != [] && s[0] == ',' && t == s[1..]
    ensures SkipFields(s, n) ==
      if SkipFields(t, n - 1).None? then None else Some(1 + SkipFields(t, n - 1).value)
  {
  }

  /** The first comma of s is one byte later than that of s[1..] when s does not start with one. */
  lemma IndexOfNonComma(s: string, j: nat, t: string)
    requires j == IndexOf(s, ',') && s != [] && s[0] != ',' && t == s[1..]
    ensures j - 1 == IndexOf(t, ',')
  {
  }

  /** One step of the pattern at the first comma j: that field, its comma, then n - 1 more fields in r. */
  lemma {:induction false} SkipFieldsStep(s: string, n: nat, j: nat, r: string)
    requires n > 0 && j == IndexOf(s, ',') && j < |s| && r == s[j + 1..]
    ensures SkipFields(s, n) ==
      if SkipFields(r, n - 1).None? then None
      else Some(j + 1 + SkipFields(r, n - 1).value)
    decreases |s|
  {
    if s[0] == ',' {
      SkipFieldsComma(s, n, r);
    } else {
      var t := s[1..];
      IndexOfNonComma(s, j, t);
      assert t[j..] == r;
      SkipFieldsStep(t, n, j - 1, r);
      SkipFieldsNonComma(s, n, t);
    }
  }

  /** Terminated of a non-empty sequence. */
  lemma TerminatedCons(f: string, rest: seq<string>)
    ensures Terminated([f] + rest) == f + "," + Terminated(rest)
  {
    assert ([f] + rest)[1..] == rest;
  }

  /** The string-level step of SkipFieldsSplit: prefixing one field and its comma. */
  lemma PrefixField(s: string, j: nat, k: nat, fields: seq<string>, rest: seq<string>, n: nat)
    requires j < |s| && s[j] == ',' && j + 1 + k <= |s|
    requires fields == [s[..j]] + rest
    requires 0 < n <= |rest|
    requires s[j + 1..][..k] == Terminated(rest[..n - 1]) && s[j + 1..][k..] == Join(rest[n - 1..], ",")
    ensures s[..j + 1 + k] == Terminated(fields[..n]) && s[j + 1 + k..] == Join(fields[n..], ",")
  {
    assert fields[..n] == [s[..j]] + rest[..n - 1];
    assert fields[n..] == rest[n - 1..];
    TerminatedCons(s[..j], rest[..n - 1]);
    assert s[..j + 1 + k] == s[..j] + "," + s[j + 1..][..k];
  }

  /**
   * SkipFields(s, n) succeeds exactly when s has more than n fields, and then
   * splits s into its first n fields, each with its comma, and the rest
   * joined back with commas.
   */
  predicate SkipMatchesSplit(s: string, n: nat) {
    && (SkipFields(s, n).Some? <==> n < |Split(s, ',')|)
    && (SkipFields(s, n).Some? ==>
          var q := SkipFields(s, n).value;
          s[..q] == Terminated(Split(s, ',')[..n]) && s[q..] == Join(Split(s, ',')[n..], ","))
  }

  lemma SkipMatchesSplitZero(s: string)
    ensures SkipMatchesSplit(s, 0)
  {
    var fields := Split(s, ',');
    assert SkipFields(s, 0) == Some(0);
    JoinSplit(s, ',');
    assert fields[0..] == fields;
    assert Terminated(fields[..0]) == [] by { assert fields[..0] == []; }
  }

  lemma SkipMatchesSplitEnd(s: string, n: nat)
    requires n > 0 && IndexOf(s, ',') == |s|
    ensures SkipMatchesSplit(s, n)
  {
    assert Split(s, ',') == [s];
    assert SkipFields(s, n) == None;
  }

  lemma SkipMatchesSplitNone(s: string, n: nat, j: nat, s': string)
    requires n > 0 && j == IndexOf(s, ',') && j < |s| && s' == s[j + 1..]
    requires SkipMatchesSplit(s', n - 1) && SkipFields(s', n - 1).None?
    ensures SkipMatchesSplit(s, n)
  {
    SplitStep(s, j);
    SkipFieldsStep(s, n, j, s');
  }

  lemma SkipMatchesSplitSome(s: string, n: nat, j: nat, s': string)
    requires n > 0 && j == IndexOf(s, ',') && j < |s| && s' == s[j + 1..]
    requires SkipMatchesSplit(s', n - 1) && SkipFields(s', n - 1).Some?
    ensures SkipMatchesSplit(s, n)
  {
    SplitStep(s, j);
    SkipFieldsStep(s, n, j, s');
    PrefixField(s, j, SkipFields(s', n - 1).value, Split(s, ','), Split(s', ','), n);
  }

  /** Skipping n fields takes exactly the first n fields that `split(',')` yields. */
  lemma {:induction false} SkipFieldsSplit(s: string, n: nat)
    ensures SkipMatchesSplit(s, n)
    decreases n
  {
    if n == 0 {
      SkipMatchesSplitZero(s);
    } else {
      var j := IndexOf(s, ',');
      if j < |s| {
        var s' := s[j + 1..];
        SkipFieldsSplit(s', n - 1);
        if SkipFields(s', n - 1).Some? {
          SkipMatchesSplitSome(s, n, j, s');
        } else {
          SkipMatchesSplitNone(s, n, j, s');
        }
      } else {
        SkipMatchesSplitEnd(s, n);
      }
    }
  }

  /** The pattern's match depends only on the part of the line it covers. */
  lemma {:induction false} SkipFieldsLocal(s: string, s': string, n: nat)
    requires SkipFields(s, n).Some?
    requires SkipFields(s, n).value <= |s'|
    requires s[..SkipFields(s, n).value] == s'[..SkipFields(s, n).value]
    ensures SkipFields(s', n) == SkipFields(s, n)
    decreases |s|
  {
    if n > 0 {
      var q := SkipFields(s, n).value;
      var m := if s[0] == ',' then n - 1 else n;
      assert s'[0] == s[..q][0];
      assert SkipFields(s[1..], m).value == q - 1;
      assert s[1..][..q - 1] == s'[1..][..q - 1] by {
        assert s[1..][..q - 1] == s[..q][1..];
        assert s'[1..][..q - 1] == s'[..q][1..];
      }
      SkipFieldsLocal(s[1..], s'[1..], m);
    }
  }

  /** The stop-free run at the start of a comma-join is that of its first, comma-free element. */
  lemma TailOfJoin(xs: seq<string>)
    requires |xs| >= 1 && ',' !in xs[0]
    ensures TailLength(Join(xs, ",")) == TailLength(xs[0])
    ensures Join(xs, ",")[..TailLength(xs[0])] == CutAtLineEnd(xs[0])
  {
    var r := Join(xs, ",");
    var f := xs[0];
    var t := TailLength(f);
    if |xs| == 1 {
      assert r == f;
    } else {
      assert r == f + ("," + Join(xs[1..], ","));
    }
    assert forall i | 0 <= i <= t && i < |f| :: r[i] == f[i];
    assert r[..t] == f[..t];
    TailLengthFirst(f);
    TailLengthUnique(r, t);
  }

  lemma SliceConcat(s: string, q: nat, t: nat)
    requires q + t <= |s|
    ensures s[..q + t] == s[..q] + s[q..][..t]
  {
  }

  /**
   * The pattern keeps the first 19 fields of `line.split(',')` verbatim and
   * the 20th up to its first CR or LF, and fails when there are fewer than 20.
   */
  lemma ExtractByFields(line: string)
    ensures var fields := Split(line, ',');
      Extract(line) ==
        if |fields| >= FieldCount
        then Some(Join(fields[..FieldCount - 1] + [CutAtLineEnd(fields[FieldCount - 1])], ","))
        else None
  {
    var fields := Split(line, ',');
    var n := FieldCount - 1;
    SkipFieldsSplit(line, n);
    if |fields| >= FieldCount {
      var q := SkipFields(line, n).value;
      var f := fields[n];
      SplitFieldsSepFree(line, ',');
      assert fields[n..][0] == f;
      TailOfJoin(fields[n..]);
      var t := TailLength(f);
      SliceConcat(line, q, t);
      JoinTerminated(fields[..n], CutAtLineEnd(f));
    }
  }

  /** A data line yields a record exactly when it holds at least 19 commas. */
  lemma ExtractSucceedsIff(line: string)
    ensures Extract(line).Some? <==> Count(line, ',') >= FieldCount - 1
  {
    SkipFieldsSplit(line, FieldCount - 1);
    SplitLength(line, ',');
  }

  /**
   * A cleaned record has exactly 20 fields, the first 19 of them those of the
   * line, and so exactly 19 commas; it contains no LF when the line has none
   * before its end.
   */
  lemma CleanedRecordShape(line: string)
    requires Extract(line).Some?
    ensures var record := Extract(line).value;
      var fields := Split(line, ',');
      && |fields| >= FieldCount
      && Split(record, ',') == fields[..FieldCount - 1] + [CutAtLineEnd(fields[FieldCount - 1])]
      && |Split(record, ',')| == FieldCount
      && Count(record, ',') == FieldCount - 1
      && (IsLine(line) ==> '\n' !in record)
  {
    var record := Extract(line).value;
    var fields := Split(line, ',');
    ExtractByFields(line);
    SplitFieldsSepFree(line, ',');
    var kept := fields[..FieldCount - 1] + [CutAtLineEnd(fields[FieldCount - 1])];
    assert forall k | 0 <= k < |kept| :: ',' !in kept[k] by {
      forall k | 0 <= k < |kept| ensures ',' !in kept[k] {
        if k == FieldCount - 1 {
          assert kept[k] <= fields[FieldCount - 1];
        } else {
          assert kept[k] == fields[k];
        }
      }
    }
    SplitJoin(kept, ',');
    SplitLength(record, ',');
    if IsLine(line) {
      assert forall i | 0 <= i < |record| :: record[i] != '\n' by {
        forall i | 0 <= i < |record| ensures record[i] != '\n' {
          if i < |record| - 1 { assert record[i] == line[i]; }
        }
      }
    }
  }

  /**
   * Extraction is idempotent: matching a cleaned record again, alone or
   * followed by anything that starts with a comma, CR or LF, yields it unchanged.
   */
  lemma ExtractIdempotent(line: string, rest: string)
    requires Extract(line).Some?
    requires rest == [] || IsStop(rest[0])
    ensures Extract(Extract(line).value + rest) == Extract(line)
  {
    var record := Extract(line).value;
    var q := SkipFields(line, FieldCount - 1).value;
    var u := line[q..];
    var t := TailLength(u);
    var s' := record + rest;
    CutSplit(line, q, rest);
    SkipFieldsLocal(line, s', FieldCount - 1);
    TailLengthOfCut(u, rest);
  }

  /** A run of non-stop bytes followed by nothing or a stop byte is its own tail. */
  lemma TailLengthOfCut(u: string, rest: string)
    requires rest == [] || IsStop(rest[0])
    ensures TailLength(u[..TailLength(u)] + rest) == TailLength(u)
  {
    var t := TailLength(u);
    var v := u[..t] + rest;
    TailLengthFirst(u);
    assert forall i | 0 <= i < t :: v[i] == u[i];
    TailLengthUnique(v, t);
  }

  /** The slices of a cut line followed by more text. */
  lemma CutSplit(line: string, q: nat, rest: string)
    requires q <= |line|
    ensures var m := q + TailLength(line[q..]);
      var s' := line[..m] + rest;
      && s'[..q] == line[..q]
      && s'[q..] == line[q..][..TailLength(line[q..])] + rest
      && s'[..m] == line[..m]
  {
  }

  /** A whitespace-only line holds no comma, so it never matches the pattern. */
  lemma BlankLineRejected(line: string)
    requires RStrip(line) == []
    ensures Extract(line) == None
  {
    assert ',' !in line by {
      forall i | 0 <= i < |line| ensures line[i] != ',' {
        assert IsSpace(line[i]);
      }
    }
    ExtractSucceedsIff(line);
  }

  // ---------------------------------------------------------------------------
  // The whole stream

  /** How a run ends: normally, or with the exception the reader raises, carrying the raw line. */
  datatype Outcome = Ok | InvalidHeader(line: string) | InvalidData(line: string)

  /** What a run writes into the sink, and how it ends. */
  datatype Normalized = Normalized(written: string, outcome: Outcome)

  /** The header check: `line.rstrip().split(',') == HEADER`. */
  predicate HeaderMatches(line: string) {
    Split(RStrip(line), ',') == Config.HEADER
  }

  /** `line.rstrip()` is empty. */
  predicate IsBlank(line: string) {
    RStrip(line) == []
  }

  /** The index of the first non-blank line at or after i, or |lines|. */
  function SkipBlank(lines: seq<string>, i: nat): (k: nat)
    requires i <= |lines|
    ensures i <= k <= |lines|
    ensures forall j | i <= j < k :: IsBlank(lines[j])
    ensures k < |lines| ==> !IsBlank(lines[k])
    decreases |lines| - i
  {
    if i < |lines| && IsBlank(lines[i]) then SkipBlank(lines, i + 1) else i
  }

  /**
   * The data loop: each line in turn is matched and its record written with
   * LF; the first line that does not match ends the run.
   */
  function CleanData(lines: seq<string>): (r: Normalized)
    ensures r.outcome.Ok? || r.outcome.InvalidData?
    ensures r.written == [] || r.written[|r.written| - 1] == '\n'
  {
    if lines == [] then Normalized("", Ok)
    else
      var prior := CleanData(lines[..|lines| - 1]);
      var line := lines[|lines| - 1];
      if !prior.outcome.Ok? then prior
      else match Extract(line)
        case None => Normalized(prior.written, InvalidData(line))
        case Some(record) => Normalized(prior.written + record + "\n", Ok)
  }

  /** The effect of `read_green_taxi_csv` on a stream holding `data`. */
  function Normalize(data: string): Normalized {
    var lines := Lines(data);
    var header := if lines == [] then "" else lines[0];
    if !HeaderMatches(header) then Normalized("", InvalidHeader(header))
    else CleanData(lines[SkipBlank(lines, 1)..])
  }

  /** The header is accepted exactly when, stripped, it is the header names joined by commas. */
  lemma HeaderAcceptedIff(line: string)
    ensures HeaderMatches(line) <==> RStrip(line) == Join(Config.HEADER, ",")
  {
    Config.HeaderNamesCommaFree();
    JoinSplit(RStrip(line), ',');
    if RStrip(line) == Join(Config.HEADER, ",") {
      SplitJoin(Config.HEADER, ',');
    }
  }

  /** A header spelled with the schema's names (lower-case dropoff) is rejected. */
  lemma SchemaNamesRejectedAsHeader(line: string)
    requires RStrip(line) == Join(Config.Names(Config.SCHEMA), ",")
    ensures !HeaderMatches(line)
  {
    Config.SchemaMatchesHeader();
    var names := Config.Names(Config.SCHEMA);
    assert forall k | 0 <= k < |names| :: ',' !in names[k] by {
      Config.HeaderNamesCommaFree();
      forall k | 0 <= k < |names| ensures ',' !in names[k] {
        if k != 2 { assert names[k] == Config.HEADER[k]; }
      }
    }
    SplitJoin(names, ',');
  }

  /**
   * A wrong header ends the run with InvalidHeader carrying the raw first line,
   * before anything is written; an empty stream is such a case.
   */
  lemma HeaderRejection(data: string)
    ensures var lines := Lines(data);
      var header := if lines == [] then "" else lines[0];
      (Normalize(data).outcome.InvalidHeader? <==> !HeaderMatches(header))
      && (Normalize(data).outcome.InvalidHeader? ==>
            Normalize(data) == Normalized("", InvalidHeader(header)))
    ensures Normalize("") == Normalized("", InvalidHeader(""))
  {
  }

  /** Reaching end of stream while skipping blank lines ends the run normally with nothing written. */
  lemma OnlyBlankLinesAfterHeader(data: string)
    requires Lines(data) != [] && HeaderMatches(Lines(data)[0])
    requires forall j | 1 <= j < |Lines(data)| :: IsBlank(Lines(data)[j])
    ensures Normalize(data) == Normalized("", Ok)
  {
    var lines := Lines(data);
    assert SkipBlank(lines, 1) == |lines|;
    assert lines[|lines|..] == [];
  }

  /** CleanData of one more line, in terms of CleanData of the lines before it. */
  lemma CleanDataSnoc(init: seq<string>, line: string)
    ensures var prior := CleanData(init);
      CleanData(init + [line]) ==
        if !prior.outcome.Ok? then prior
        else if Extract(line).None? then Normalized(prior.written, InvalidData(line))
        else Normalized(prior.written + Extract(line).value + "\n", Ok)
  {
    assert (init + [line])[..|init|] == init;
  }

  /** Once a line has failed, later lines change neither the output nor the outcome. */
  lemma {:induction false} CleanDataStops(lines: seq<string>, later: seq<string>)
    requires !CleanData(lines).outcome.Ok?
    ensures CleanData(lines + later) == CleanData(lines)
    decreases |later|
  {
    if later == [] {
      assert lines + later == lines;
    } else {
      var init := later[..|later| - 1];
      CleanDataStops(lines, init);
      assert (lines + later)[..|lines + later| - 1] == lines + init;
    }
  }

  /** The data loop ends normally exactly when every data line matches. */
  lemma {:induction false} CleanDataOkIff(lines: seq<string>)
    ensures CleanData(lines).outcome.Ok? <==> forall i | 0 <= i < |lines| :: Extract(lines[i]).Some?
  {
    if lines != [] {
      var init := lines[..|lines| - 1];
      CleanDataOkIff(init);
      assert forall i | 0 <= i < |init| :: init[i] == lines[i];
    }
  }

  /**
   * At the first line that does not match, the run ends with InvalidData
   * carrying that line, and the sink holds exactly the records of the lines
   * before it; later lines are not looked at.
   */
  lemma FirstFailure(lines: seq<string>, j: nat)
    requires j < |lines| && Extract(lines[j]).None?
    requires forall i | 0 <= i < j :: Extract(lines[i]).Some?
    ensures CleanData(lines[..j]).outcome.Ok?
    ensures CleanData(lines) == Normalized(CleanData(lines[..j]).written, InvalidData(lines[j]))
  {
    CleanDataPrefixOk(lines, j);
    assert lines[0..j] == lines[..j];
    CleanDataExtendFail(lines, 0, j);
    CleanDataFailAt(lines, 0, j);
    assert lines[0..] == lines;
  }

  lemma CleanDataPrefixOk(lines: seq<string>, j: nat)
    requires j <= |lines|
    requires forall i | 0 <= i < j :: Extract(lines[i]).Some?
    ensures CleanData(lines[..j]).outcome.Ok?
  {
    CleanDataOkIff(lines[..j]);
    assert forall i | 0 <= i < j :: lines[..j][i] == lines[i];
  }

  lemma RecordLines(written: string, record: string)
    requires written == [] || written[|written| - 1] == '\n'
    requires '\n' !in record
    ensures Lines(written + record + "\n") == Lines(written) + [record + "\n"]
  {
    assert written + record + "\n" == written + (record + "\n");
    LinesAppend(written, record + "\n");
    LinesOfTerminated(record);
  }

  /** out holds, position by position, the match of each line followed by LF. */
  predicate RecordsOf(out: seq<string>, lines: seq<string>) {
    && |out| == |lines|
    && forall i | 0 <= i < |lines| :: Extract(lines[i]).Some? && out[i] == Extract(lines[i]).value + "\n"
  }

  lemma RecordsOfSnoc(out: seq<string>, lines: seq<string>, line: string)
    requires RecordsOf(out, lines) && Extract(line).Some?
    ensures RecordsOf(out + [Extract(line).value + "\n"], lines + [line])
  {
    var out' := out + [Extract(line).value + "\n"];
    var lines' := lines + [line];
    forall i | 0 <= i < |lines'|
      ensures Extract(lines'[i]).Some? && out'[i] == Extract(lines'[i]).value + "\n"
    {
      if i < |lines| {
        assert lines'[i] == lines[i] && out'[i] == out[i];
      }
    }
  }

  lemma AllLinesPrefix(lines: seq<string>, j: nat)
    requires j <= |lines|
    requires forall i | 0 <= i < |lines| :: IsLine(lines[i])
    ensures forall i | 0 <= i < j :: IsLine(lines[..j][i])
  {
    assert forall i | 0 <= i < j :: lines[..j][i] == lines[i];
  }

  /**
   * On normal completion the output, read back line by line, is one record per
   * data line, in input order, each the line's match followed by LF.
   */
  lemma {:induction false} CleanDataRecords(lines: seq<string>)
    requires forall i | 0 <= i < |lines| :: IsLine(lines[i])
    requires CleanData(lines).outcome.Ok?
    ensures RecordsOf(Lines(CleanData(lines).written), lines)
  {
    if lines != [] {
      var init := lines[..|lines| - 1];
      var last := lines[|lines| - 1];
      assert lines == init + [last];
      CleanDataSnoc(init, last);
      AllLinesPrefix(lines, |lines| - 1);
      CleanDataRecords(init);
      CleanedRecordShape(last);
      RecordLines(CleanData(init).written, Extract(last).value);
      RecordsOfSnoc(Lines(CleanData(init).written), init, last);
    } else {
      assert Lines("") == [];
    }
  }

  /** Cleaning one more cleaned record, LF-terminated, appends it unchanged. */
  lemma CleanAgainSnoc(w: string, record: string)
    requires CleanData(Lines(w)) == Normalized(w, Ok)
    requires '\n' !in record && Extract(record + "\n") == Some(record)
    ensures CleanData(Lines(w + record + "\n")) == Normalized(w + record + "\n", Ok)
  {
    RecordLines(w, record);
    CleanDataSnoc(Lines(w), record + "\n");
  }

  /** Cleaning the cleaned records again writes them unchanged and ends normally. */
  lemma {:induction false} CleanDataIdempotent(lines: seq<string>)
    requires forall i | 0 <= i < |lines| :: IsLine(lines[i])
    requires CleanData(lines).outcome.Ok?
    ensures CleanData(Lines(CleanData(lines).written)) == CleanData(lines)
  {
    if lines == [] {
      assert Lines("") == [];
    } else {
      var init := lines[..|lines| - 1];
      var last := lines[|lines| - 1];
      assert lines == init + [last];
      CleanDataSnoc(init, last);
      AllLinesPrefix(lines, |lines| - 1);
      CleanDataIdempotent(init);
      CleanedRecordShape(last);
      ExtractIdempotent(last, "\n");
      CleanAgainSnoc(CleanData(init).written, Extract(last).value);
    }
  }

  /** A line holding a comma is not blank. */
  lemma CommaNotBlank(line: string)
    requires ',' in line
    ensures !IsBlank(line)
  {
    var i :| 0 <= i < |line| && line[i] == ',';
    assert !IsSpace(line[i]);
  }

  /** An empty first line (end of stream) is not the header. */
  lemma EmptyHeaderRejected()
    ensures !HeaderMatches("")
  {
    assert Split(RStrip(""), ',') == [""];
  }

  /** A successful run read a matching header and cleaned the lines after the blank ones. */
  lemma NormalizeOk(data: string)
    requires Normalize(data).outcome.Ok?
    ensures Lines(data) != [] && HeaderMatches(Lines(data)[0])
    ensures Normalize(data) == CleanData(Lines(data)[SkipBlank(Lines(data), 1)..])
  {
    EmptyHeaderRejected();
  }

  /** Every element of a suffix of Lines(data) is a line. */
  lemma LinesSuffix(data: string, k: nat)
    requires k <= |Lines(data)|
    ensures forall i | 0 <= i < |Lines(data)[k..]| :: IsLine(Lines(data)[k..][i])
  {
    var lines := Lines(data);
    LinesShape(data);
    assert forall i | 0 <= i < |lines[k..]| :: lines[k..][i] == lines[k + i];
  }

  /** The output of a successful run is empty or starts with a record, which is not blank. */
  lemma FirstRecordNotBlank(body: seq<string>)
    requires forall i | 0 <= i < |body| :: IsLine(body[i])
    requires CleanData(body).outcome.Ok? && CleanData(body).written != []
    ensures Lines(CleanData(body).written) != []
    ensures !IsBlank(Lines(CleanData(body).written)[0])
  {
    var w := CleanData(body).written;
    CleanDataRecords(body);
    assert body != [];
    var first := Extract(body[0]).value;
    CleanedRecordShape(body[0]);
    assert Lines(w)[0] == first + "\n";
    assert ',' in first + "\n" by {
      assert (first + "\n")[..|first|] == first;
    }
    CommaNotBlank(first + "\n");
  }

  /** The lines of a header line followed by more text. */
  lemma LinesAfterHeader(header: string, w: string)
    requires IsLine(header) && header[|header| - 1] == '\n'
    ensures Lines(header + w) == [header] + Lines(w)
  {
    var h := header[..|header| - 1];
    assert header == h + "\n";
    LinesOfTerminated(h);
    LinesAppend(header, w);
  }

  /**
   * A valid header line followed by text that is empty or starts with a
   * non-blank line normalizes as that text's lines cleaned.
   */
  lemma NormalizeHeaderThen(header: string, w: string)
    requires IsLine(header) && header[|header| - 1] == '\n' && HeaderMatches(header)
    requires w == [] || (Lines(w) != [] && !IsBlank(Lines(w)[0]))
    ensures Normalize(header + w) == CleanData(Lines(w))
  {
    var lines := Lines(header + w);
    LinesAfterHeader(header, w);
    if w == [] {
      assert Lines(w) == [];
    }
    assert SkipBlank(lines, 1) == 1;
    assert lines[1..] == Lines(w);
  }

  /**
   * Normalizing the output of a successful run, under a valid header line, is
   * a no-op: the same records are written and the run ends normally.
   */
  lemma NormalizeIdempotent(header: string, data: string)
    requires IsLine(header) && header[|header| - 1] == '\n' && HeaderMatches(header)
    requires Normalize(data).outcome.Ok?
    ensures Normalize(header + Normalize(data).written) == Normalize(data)
  {
    var lines := Lines(data);
    NormalizeOk(data);
    LinesSuffix(data, SkipBlank(lines, 1));
    var body := lines[SkipBlank(lines, 1)..];
    var w := CleanData(body).written;
    if w != [] {
      FirstRecordNotBlank(body);
    }
    NormalizeHeaderThen(header, w);
    CleanDataIdempotent(body);
  }

  // ---------------------------------------------------------------------------
  // The reader

  /** A wrong first line ends the run before anything is written. */
  lemma NormalizeBadHeader(data: string)
    requires !HeaderMatches(if Lines(data) == [] then "" else Lines(data)[0])
    ensures Normalize(data) == Normalized("", InvalidHeader(if Lines(data) == [] then "" else Lines(data)[0]))
  {
  }

  /** `readline` returns the empty string only at end of stream. */
  lemma EmptyOnlyAtEnd(data: string, i: nat)
    requires i <= |Lines(data)|
    ensures (if i < |Lines(data)| then Lines(data)[i] else "") == [] ==> i == |Lines(data)|
  {
    LinesShape(data);
  }

  /** After a matching header, the run is the cleaning of the lines from the first non-blank one on. */
  lemma NormalizeAt(data: string, start: nat)
    requires Lines(data) != [] && HeaderMatches(Lines(data)[0])
    requires start == SkipBlank(Lines(data), 1)
    ensures Normalize(data) == CleanData(Lines(data)[start..])
  {
  }

  lemma SkipBlankStep(lines: seq<string>, i: nat)
    requires i < |lines| && IsBlank(lines[i])
    ensures SkipBlank(lines, i) == SkipBlank(lines, i + 1)
  {
  }

  /** The data loop's step on a line that matches: its record and LF are appended. */
  lemma CleanDataExtendOk(lines: seq<string>, start: nat, i: nat)
    requires start <= i < |lines| && CleanData(lines[start..i]).outcome.Ok?
    requires Extract(lines[i]).Some?
    ensures CleanData(lines[start..i + 1]).outcome.Ok?
    ensures CleanData(lines[start..i + 1]).written
      == CleanData(lines[start..i]).written + Extract(lines[i]).value + "\n"
  {
    assert lines[start..i + 1] == lines[start..i] + [lines[i]];
    CleanDataSnoc(lines[start..i], lines[i]);
  }

  /** The data loop's step on a line that does not match: the run ends with that line. */
  lemma CleanDataExtendFail(lines: seq<string>, start: nat, i: nat)
    requires start <= i < |lines| && CleanData(lines[start..i]).outcome.Ok?
    requires Extract(lines[i]).None?
    ensures CleanData(lines[start..i + 1]) == Normalized(CleanData(lines[start..i]).written, InvalidData(lines[i]))
  {
    assert lines[start..i + 1] == lines[start..i] + [lines[i]];
    CleanDataSnoc(lines[start..i], lines[i]);
  }

  /** Writing a record and LF after the output so far, regrouped. */
  lemma AppendRecord(prefix: string, w: string, record: string)
    ensures prefix + w + record + "\n" == prefix + (w + record + "\n")
  {
  }

  /** Once the run has failed at line i, the lines after it do not matter. */
  lemma CleanDataFailAt(lines: seq<string>, start: nat, i: nat)
    requires start <= i < |lines| && !CleanData(lines[start..i + 1]).outcome.Ok?
    ensures CleanData(lines[start..]) == CleanData(lines[start..i + 1])
  {
    assert lines[start..] == lines[start..i + 1] + lines[i + 1..];
    CleanDataStops(lines[start..i + 1], lines[i + 1..]);
  }

  /**
   * `read_green_taxi_csv`: reads the stream holding `data` line by line and
   * writes the cleaned records into `sink`; the exception it would raise is
   * returned as the outcome.
   */
  method ReadGreenTaxiCsv(data: string, sink: Buffers.Buffer) returns (outcome: Outcome)
    modifies sink
    ensures outcome == Normalize(data).outcome
    ensures sink.contents == old(sink.contents) + Normalize(data).written
  {
    var lines := Lines(data);
    // The first line must be the header.
    var line := if lines == [] then "" else lines[0];
    if !HeaderMatches(line) {
      NormalizeBadHeader(data);
      return InvalidHeader(line);
    }
    var start := SkipBlankLines(data, lines);
    NormalizeAt(data, start);
    outcome := CopyRecords(lines, start, sink);
  }

  /**
   * The loop after the header: reads lines until one is not whitespace-only,
   * and returns its index, or the end of the stream.
   */
  method SkipBlankLines(data: string, lines: seq<string>) returns (i: nat)
    requires lines == Lines(data) && lines != []
    ensures i == SkipBlank(lines, 1)
  {
    i := 1;
    while true
      invariant 1 <= i <= |lines|
      invariant SkipBlank(lines, i) == SkipBlank(lines, 1)
      decreases |lines| - i
    {
      var line := if i < |lines| then lines[i] else "";
      if !IsBlank(line) {
        return;
      }
      if line == [] {
        EmptyOnlyAtEnd(data, i);
        return;
      }
      SkipBlankStep(lines, i);
      i := i + 1;
    }
  }

  /**
   * The data loop: writes the record of each line from `start` on, each
   * followed by LF, and stops at the first line that does not match.
   */
  method CopyRecords(lines: seq<string>, start: nat, sink: Buffers.Buffer) returns (outcome: Outcome)
    requires start <= |lines|
    modifies sink
    ensures outcome == CleanData(lines[start..]).outcome
    ensures sink.contents == old(sink.contents) + CleanData(lines[start..]).written
  {
    var i := start;
    assert lines[start..i] == [];
    assert CleanData(lines[start..i]) == Normalized("", Ok);
    assert sink.contents == old(sink.contents) + "";
    while i < |lines|
      invariant start <= i <= |lines|
      invariant CleanData(lines[start..i]).outcome.Ok?
      invariant sink.contents == old(sink.contents) + CleanData(lines[start..i]).written
    {
      ghost var w := CleanData(lines[start..i]).written;
      var m := Extract(lines[i]);
      if m.None? {
        CleanDataExtendFail(lines, start, i);
        CleanDataFailAt(lines, start, i);
        return InvalidData(lines[i]);
      }
      sink.Write(m.value);
      sink.Write("\n");
      CleanDataExtendOk(lines, start, i);
      AppendRecord(old(sink.contents), w, m.value);
      i := i + 1;
    }
    assert lines[start..i] == lines[start..];
    return Ok;
  }
}
