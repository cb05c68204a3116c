/**
 * Byte-string helpers shared by the normalizer, the cell decoder and the
 * query builder: Python's `rstrip`, `split`, `join` and the line splitting
 * that `readline` performs on a binary stream. Bytes are modelled as `char`
 * (the data is ASCII).
 */
module Text {

  /** The bytes `bytes.rstrip()` removes: space, tab, LF, VT, FF and CR. */
  predicate IsSpace(c: char) {
    c == ' ' || '\t' <= c <= '\r'
  }

  /** `s.rstrip()`: the longest prefix of s that does not end in whitespace. */
  function RStrip(s: string): (r: string)
    ensures r <= s
    ensures r == [] || !IsSpace(r[|r| - 1])
    ensures forall i | |r| <= i < |s| :: IsSpace(s[i])
  {
    if s != [] && IsSpace(s[|s| - 1]) then RStrip(s[..|s| - 1]) else s
  }

  /** Number of occurrences of c in s. */
  function Count(s: string, c: char): (n: nat)
    ensures n <= |s|
    ensures n == 0 <==> c !in s
  {
    if s == [] then 0 else (if s[0] == c then 1 else 0) + Count(s[1..], c)
  }

  /** Index of the first c in s, or |s| when there is none. */
  function IndexOf(s: string, c: char): (i: nat)
    ensures i <= |s|
    ensures i < |s| ==> s[i] == c
  {
    if s == [] || s[0] == c then 0 else 1 + IndexOf(s[1..], c)
  }

  /** `s.split(sep)`: the maximal sep-free runs of s, always at least one. */
  function Split(s: string, sep: char): (fields: seq<string>)
    ensures |fields| >= 1
    decreases |s|
  {
    var i := IndexOf(s, sep);
    if i == |s| then [s] else [s[..i]] + Split(s[i + 1..], sep)
  }

  /** `sep.join(xs)`. */
  function Join(xs: seq<string>, sep: string): string {
    if |xs| == 0 then "" else if |xs| == 1 then xs[0] else xs[0] + sep + Join(xs[1..], sep)
  }

  /** The concatenation of xs. */
  function Concat(xs: seq<string>): string {
    if xs == [] then "" else xs[0] + Concat(xs[1..])
  }

  /** Length of the line `readline` returns from s: through the first LF, or all of s. */
  function LineLength(s: string): (k: nat)
    requires s != []
    ensures 1 <= k <= |s|
    ensures k < |s| ==> s[k - 1] == '\n'
  {
    var i := IndexOf(s, '\n');
    if i == |s| then |s| else i + 1
  }

  /** The successive results of `readline` on a stream holding s, up to end of stream. */
  function Lines(s: string): seq<string>
    decreases |s|
  {
    if s == [] then [] else var k := LineLength(s); [s[..k]] + Lines(s[k..])
  }

  /** What `readline` can return before end of stream: non-empty, LF only at the end. */
  predicate IsLine(line: string) {
    line != [] && forall i | 0 <= i < |line| - 1 :: line[i] != '\n'
  }

  // ---------------------------------------------------------------------------
  // First occurrences

  /** No c occurs before IndexOf(s, c). */
  lemma {:induction false} IndexOfFirst(s: string, c: char)
    ensures forall k | 0 <= k < IndexOf(s, c) :: s[k] != c
    decreases |s|
  {
    if s != [] && s[0] != c {
      IndexOfFirst(s[1..], c);
    }
  }

  /** IndexOf(s, c) is the only index that is c or the end, with no c before it. */
  lemma {:induction false} IndexOfUnique(s: string, c: char, i: nat)
    requires i <= |s|
    requires forall k | 0 <= k < i :: s[k] != c
    requires i == |s| || s[i] == c
    ensures IndexOf(s, c) == i
    decreases |s|
  {
    if i > 0 {
      IndexOfUnique(s[1..], c, i - 1);
    }
  }

  /** The line `readline` returns holds an LF only at its end, and ends in LF whenever s holds one. */
  lemma LineLengthFirst(s: string)
    requires s != []
    ensures forall i | 0 <= i < LineLength(s) - 1 :: s[i] != '\n'
    ensures '\n' in s ==> s[LineLength(s) - 1] == '\n'
  {
    IndexOfFirst(s, '\n');
  }

  // ---------------------------------------------------------------------------
  // Counting and splitting

  lemma {:induction false} CountAppend(a: string, b: string, c: char)
    ensures Count(a + b, c) == Count(a, c) + Count(b, c)
    decreases |a|
  {
    if a != [] {
      assert a + b != [] && (a + b)[0] == a[0];
      assert (a + b)[1..] == a[1..] + b;
      CountAppend(a[1..], b, c);
      assert Count(a + b, c) == (if a[0] == c then 1 else 0) + Count(a[1..] + b, c);
    } else {
      assert a + b == b;
    }
  }

  /** The number of fields `split` yields is one more than the number of separators. */
  lemma {:induction false} SplitLength(s: string, sep: char)
    ensures |Split(s, sep)| == Count(s, sep) + 1
    decreases |s|
  {
    var i := IndexOf(s, sep);
    assert s == s[..i] + s[i..];
    CountAppend(s[..i], s[i..], sep);
    IndexOfFirst(s, sep);
    assert sep !in s[..i];
    if i < |s| {
      assert s[i..] == [sep] + s[i + 1..];
      CountAppend([sep], s[i + 1..], sep);
      SplitLength(s[i + 1..], sep);
    }
  }

  /** No field `split` yields contains the separator. */
  lemma {:induction false} SplitFieldsSepFree(s: string, sep: char)
    ensures forall k | 0 <= k < |Split(s, sep)| :: sep !in Split(s, sep)[k]
    decreases |s|
  {
    var i := IndexOf(s, sep);
    IndexOfFirst(s, sep);
    assert sep !in s[..i];
    if i < |s| {
      SplitFieldsSepFree(s[i + 1..], sep);
      assert Split(s, sep) == [s[..i]] + Split(s[i + 1..], sep);
    }
  }

  /** Joining the fields back with the separator restores the string. */
  lemma {:induction false} JoinSplit(s: string, sep: char)
    ensures Join(Split(s, sep), [sep]) == s
    decreases |s|
  {
    var i := IndexOf(s, sep);
    if i < |s| {
      var rest := Split(s[i + 1..], sep);
      JoinSplit(s[i + 1..], sep);
      assert Split(s, sep) == [s[..i]] + rest;
      assert ([s[..i]] + rest)[1..] == rest;
      assert s == s[..i] + [sep] + s[i + 1..];
    }
  }

  /** Splitting a join of separator-free fields gives the fields back. */
  lemma {:induction false} SplitJoin(xs: seq<string>, sep: char)
    requires |xs| >= 1
    requires forall k | 0 <= k < |xs| :: sep !in xs[k]
    ensures Split(Join(xs, [sep]), sep) == xs
  {
    var s := Join(xs, [sep]);
    var i := IndexOf(s, sep);
    if |xs| == 1 {
      assert s == xs[0];
    } else {
      var rest := Join(xs[1..], [sep]);
      assert s == xs[0] + [sep] + rest;
      assert s[|xs[0]|] == sep;
      IndexOfUnique(s, sep, |xs[0]|);
      assert s[..i] == xs[0];
      assert s[i + 1..] == rest;
      SplitJoin(xs[1..], sep);
      assert xs == [xs[0]] + xs[1..];
    }
  }

  /** Appending one more element adds one separator and that element. */
  lemma {:induction false} JoinSnoc(xs: seq<string>, x: string, sep: string)
    requires |xs| >= 1
    ensures Join(xs + [x], sep) == Join(xs, sep) + sep + x
  {
    if |xs| == 1 {
      assert (xs + [x])[1..] == [x];
    } else {
      assert (xs + [x])[1..] == xs[1..] + [x];
      JoinSnoc(xs[1..], x, sep);
    }
  }

  // ---------------------------------------------------------------------------
  // Lines

  /** Every element of Lines(s) is a line, and all but the last end in LF. */
  lemma {:induction false} LinesShape(s: string)
    ensures forall k | 0 <= k < |Lines(s)| ::
      IsLine(Lines(s)[k]) && (k < |Lines(s)| - 1 ==> Lines(s)[k][|Lines(s)[k]| - 1] == '\n')
    decreases |s|
  {
    if s != [] {
      var k := LineLength(s);
      LineLengthFirst(s);
      LinesShape(s[k..]);
      assert Lines(s) == [s[..k]] + Lines(s[k..]);
    }
  }

  /** Reading the stream line by line loses and adds nothing. */
  lemma {:induction false} LinesConcat(s: string)
    ensures Concat(Lines(s)) == s
    decreases |s|
  {
    if s != [] {
      var k := LineLength(s);
      LinesConcat(s[k..]);
      assert Lines(s) == [s[..k]] + Lines(s[k..]);
      assert s == s[..k] + s[k..];
    }
  }

  /** The first line of a stream is unchanged by what follows a line end. */
  lemma LineLengthAppend(a: string, b: string)
    requires a != [] && a[|a| - 1] == '\n'
    ensures LineLength(a + b) == LineLength(a)
    ensures (a + b)[..LineLength(a)] == a[..LineLength(a)]
  {
    var k := LineLength(a);
    LineLengthFirst(a);
    assert a[k - 1] == '\n';
    var ab := a + b;
    assert forall i | 0 <= i < k - 1 :: ab[i] != '\n' by {
      forall i | 0 <= i < k - 1 ensures ab[i] != '\n' {
        assert ab[i] == a[i];
      }
    }
    IndexOfUnique(ab, '\n', k - 1);
  }

  /** A stream whose first part ends at a line boundary reads as the lines of each part. */
  lemma {:induction false} LinesAppend(a: string, b: string)
    requires a == [] || a[|a| - 1] == '\n'
    ensures Lines(a + b) == Lines(a) + Lines(b)
    decreases |a|
  {
    if a != [] {
      var k := LineLength(a);
      var ab := a + b;
      LineLengthAppend(a, b);
      assert ab[..k] == a[..k];
      assert ab[k..] == a[k..] + b;
      assert Lines(ab) == [a[..k]] + Lines(a[k..] + b);
      assert Lines(a) == [a[..k]] + Lines(a[k..]);
      LinesAppend(a[k..], b);
      assert [a[..k]] + (Lines(a[k..]) + Lines(b)) == ([a[..k]] + Lines(a[k..])) + Lines(b);
    } else {
      assert a + b == b;
    }
  }

  /** A string with no LF, followed by one LF, is read as that single line. */
  lemma LinesOfTerminated(r: string)
    requires '\n' !in r
    ensures Lines(r + "\n") == [r + "\n"]
  {
    var s := r + "\n";
    var i := IndexOf(s, '\n');
    assert s[|r|] == '\n';
    IndexOfUnique(s, '\n', |r|);
    assert s[..|s|] == s && s[|s|..] == [];
    assert Lines(s) == [s] + Lines([]);
  }

  /** A non-empty string with no LF is read as that single line. */
  lemma LinesOfUnterminated(r: string)
    requires r != [] && '\n' !in r
    ensures Lines(r) == [r]
  {
    IndexOfUnique(r, '\n', |r|);
    assert r[..|r|] == r && r[|r|..] == [];
    assert Lines(r) == [r] + Lines([]);
  }

  /** The first line of a ",\n"-join of two or more LF-free pieces is the first piece and its separator. */
  lemma LinesOfJoinStep(xs: seq<string>)
    requires |xs| > 1 && '\n' !in xs[0]
    ensures Lines(Join(xs, ",\n")) == [xs[0] + ",\n"] + Lines(Join(xs[1..], ",\n"))
  {
    var head := xs[0] + ",";
    assert '\n' !in head;
    assert Join(xs, ",\n") == (head + "\n") + Join(xs[1..], ",\n");
    LinesAppend(head + "\n", Join(xs[1..], ",\n"));
    LinesOfTerminated(head);
    assert head + "\n" == xs[0] + ",\n";
  }

  /**
   * Joining LF-free non-empty pieces with ",\n" reads back, line by line, as
   * each piece followed by ",\n", except the last piece, which has no separator.
   */
  lemma {:induction false} LinesOfJoin(xs: seq<string>)
    requires |xs| >= 1
    requires forall k | 0 <= k < |xs| :: xs[k] != [] && '\n' !in xs[k]
    ensures |Lines(Join(xs, ",\n"))| == |xs|
    ensures forall k | 0 <= k < |xs| - 1 :: Lines(Join(xs, ",\n"))[k] == xs[k] + ",\n"
    ensures Lines(Join(xs, ",\n"))[|xs| - 1] == xs[|xs| - 1]
  {
    if |xs| == 1 {
      LinesOfUnterminated(xs[0]);
    } else {
      var tail := xs[1..];
      LinesOfJoin(tail);
      LinesOfJoinStep(xs);
      var out := Lines(Join(xs, ",\n"));
      var rest := Lines(Join(tail, ",\n"));
      assert out == [xs[0] + ",\n"] + rest;
      forall k | 0 <= k < |xs| - 1
        ensures out[k] == xs[k] + ",\n"
      {
        if k > 0 {
          assert out[k] == rest[k - 1] && tail[k - 1] == xs[k];
        }
      }
      assert out[|xs| - 1] == rest[|tail| - 1];
    }
  }

  /** A ",\n"-join of LF-free pieces holds exactly one LF per separator. */
  lemma {:induction false} NewlinesOfJoin(xs: seq<string>)
    requires |xs| >= 1
    requires forall k | 0 <= k < |xs| :: '\n' !in xs[k]
    ensures Count(Join(xs, ",\n"), '\n') == |xs| - 1
  {
    if |xs| > 1 {
      NewlinesOfJoin(xs[1..]);
      CountAppend(xs[0] + ",\n", Join(xs[1..], ",\n"), '\n');
      CountAppend(xs[0], ",\n", '\n');
      assert Count(",\n", '\n') == 1 by {
        assert ",\n"[1..] == "\n";
        assert "\n"[1..] == "";
      }
    }
  }
}
