/**
 * The benchmark driver scripts/aggregate_benchmarks.py: it runs `./benchmark`
 * once per configuration in `CASES` (after skipping a number of them given on
 * the command line), reads one tab-separated line per iteration from its
 * standard output, and reports, for each of the four measured columns, the
 * average, the sample standard deviation, the minimum and the maximum.
 *
 * Python floats are modelled as exact reals, the benchmark process as a
 * function from a case to its standard output (`None` when it exits with an
 * error), and `float(text)` as a function parameter. The standard deviation is
 * modelled up to its square root: `Variance` is the value under `sqrt`.
 */
module Benchmarks {
  import opened Bits

  /** The Python exceptions the script can raise. */
  datatype Failure = IndexError | ValueError | ZeroDivisionError | CalledProcessError

  datatype Result<T> = Ok(value: T) | Err(error: Failure)
  {
    predicate IsFailure() { Err? }
    function PropagateFailure<U>(): Result<U>
      requires Err?
    {
      Err(error)
    }
    function Extract(): T
      requires Ok?
    {
      value
    }
  }

  /**
   * One configuration: the arguments given to `./benchmark`, in order
   * (labeled, input bits, sender set size, receiver set size, polynomial
   * modulus degree, partition count, window size, iterations).
   */
  datatype Case = Case(labeled: nat, inputBits: nat, senderSize: nat, receiverSize: nat,
                       polyModulusDegree: nat, partitionCount: nat, windowSize: nat,
                       iterations: nat)

  const ITER_COUNT: nat := 10
  const INPUT_BITS: nat := 32

  /** Six parameter sets, each run unlabeled and then labeled. */
  const CASES: seq<Case> := [
    Case(0, INPUT_BITS, 0x1_0000, 5535, 8192, 8, 3, ITER_COUNT),
    Case(1, INPUT_BITS, 0x1_0000, 5535, 8192, 8, 3, ITER_COUNT),
    Case(0, INPUT_BITS, 0x1_0000, 11041, 16384, 8, 2, ITER_COUNT),
    Case(1, INPUT_BITS, 0x1_0000, 11041, 16384, 8, 2, ITER_COUNT),
    Case(0, INPUT_BITS, 0x10_0000, 5535, 8192, 64, 2, ITER_COUNT),
    Case(1, INPUT_BITS, 0x10_0000, 5535, 8192, 64, 2, ITER_COUNT),
    Case(0, INPUT_BITS, 0x10_0000, 11041, 16384, 32, 3, ITER_COUNT),
    Case(1, INPUT_BITS, 0x10_0000, 11041, 16384, 32, 3, ITER_COUNT),
    Case(0, INPUT_BITS, 0x100_0000, 5535, 8192, 256, 1, ITER_COUNT),
    Case(1, INPUT_BITS, 0x100_0000, 5535, 8192, 256, 1, ITER_COUNT),
    Case(0, INPUT_BITS, 0x100_0000, 11041, 16384, 128, 2, ITER_COUNT),
    Case(1, INPUT_BITS, 0x100_0000, 11041, 16384, 128, 2, ITER_COUNT)
  ]

  /**
   * The table has twelve entries in pairs that differ only in `labeled`, 0
   * then 1; every entry uses 32-bit items and ten iterations, and no receiver
   * set is empty (so the match ratio never divides by zero).
   */
  lemma CasesPaired()
    ensures |CASES| == 12
    ensures forall i :: 0 <= i < 12 && i % 2 == 0 ==> CASES[i].labeled == 0
    ensures forall i :: 0 <= i < 12 && i % 2 == 1 ==> CASES[i] == CASES[i - 1].(labeled := 1)
    ensures forall c :: c in CASES ==> c.inputBits == INPUT_BITS && c.iterations == ITER_COUNT && c.receiverSize > 0
  {
  }

  /* ---------------------------------------------------------------------- */
  /* Text                                                                     */
  /* ---------------------------------------------------------------------- */

  /**
   * The whitespace `int` strips around ASCII text: tab, line feed, vertical
   * tab, form feed, carriage return and space. The separators 0x1c to 0x1f,
   * although `str.isspace` accepts them, are not stripped but rejected.
   */
  predicate IsSpace(c: char)
  {
    c == ' ' || '\t' <= c <= '\r'
  }

  predicate IsDigit(c: char)
  {
    '0' <= c <= '9'
  }

  predicate AllDigits(s: string)
  {
    forall i :: 0 <= i < |s| ==> IsDigit(s[i])
  }

  /** Leading whitespace removed: what is dropped is all space, what is left starts with none. */
  function TrimStart(s: string): (r: string)
    ensures |r| <= |s| && r == s[|s| - |r|..]
    ensures forall i :: 0 <= i < |s| - |r| ==> IsSpace(s[i])
    ensures r == [] || !IsSpace(r[0])
  {
    if s != [] && IsSpace(s[0]) then
      var r := TrimStart(s[1..]);
      assert forall i :: 1 <= i < |s| - |r| ==> s[i] == s[1..][i - 1];
      r
    else s
  }

  /** Trailing whitespace removed: what is dropped is all space, what is left ends with none. */
  function TrimEnd(s: string): (r: string)
    ensures |r| <= |s| && r == s[..|r|]
    ensures forall i :: |r| <= i < |s| ==> IsSpace(s[i])
    ensures r == [] || !IsSpace(r[|r| - 1])
  {
    if s != [] && IsSpace(s[|s| - 1]) then
      var r := TrimEnd(s[..|s| - 1]);
      assert forall i :: |r| <= i < |s| - 1 ==> s[i] == s[..|s| - 1][i];
      r
    else s
  }

  /** The number a string of decimal digits denotes, most significant first. */
  function DigitsValue(ds: string): nat
    requires AllDigits(ds)
  {
    if ds == [] then 0 else 10 * DigitsValue(ds[..|ds| - 1]) + (ds[|ds| - 1] as int - '0' as int)
  }

  /**
   * Python's `int(text)` in base 10: optional surrounding whitespace, an
   * optional sign, then at least one decimal digit; anything else is a
   * `ValueError`.
   */
  function ParseInt(text: string): Result<int>
  {
    Signed(TrimEnd(TrimStart(text)))
  }

  /** The number a text without surrounding whitespace denotes: an optional sign, then digits. */
  function Signed(t: string): Result<int>
  {
    var digits := if t != [] && (t[0] == '-' || t[0] == '+') then t[1..] else t;
    if digits == [] || !AllDigits(digits) then Err(ValueError)
    else if t[0] == '-' then Ok(-(DigitsValue(digits) as int))
    else Ok(DigitsValue(digits))
  }

  /** The file separator 0x1c is not whitespace to `int`: "\x1c7" is a `ValueError`. */
  lemma SeparatorNotStripped()
    ensures ParseInt("\U{1C}7") == Err(ValueError)
  {
    assert TrimStart("\U{1C}7") == "\U{1C}7";
    assert TrimEnd("\U{1C}7") == "\U{1C}7";
  }

  /** A text with no digit in it, the empty text included, is not a number. */
  lemma ParseIntNoDigit(text: string)
    requires forall i :: 0 <= i < |text| ==> !IsDigit(text[i])
    ensures ParseInt(text) == Err(ValueError)
  {
    var a := TrimStart(text);
    var t := TrimEnd(a);
    if t != [] {
      var k := if t[0] == '-' || t[0] == '+' then 1 else 0;
      var digits := t[k..];
      if digits != [] {
        assert digits[0] == a[k] == text[|text| - |a| + k];
      }
    }
  }

  function DigitChar(d: nat): (c: char)
    requires d < 10
    ensures IsDigit(c) && c as int - '0' as int == d
  {
    ('0' as int + d) as char
  }

  /** Python's `str(n)` for a natural number: its decimal digits. */
  function Decimal(n: nat): (r: string)
    ensures r != [] && AllDigits(r)
    ensures IsDigit(r[0])
  {
    if n < 10 then [DigitChar(n)] else Decimal(n / 10) + [DigitChar(n % 10)]
  }

  /** Python's `str(n)` for an integer. */
  function Show(n: int): (r: string)
    ensures r != [] && IsDigit(r[|r| - 1])
  {
    if n < 0 then "-" + Decimal(-n) else Decimal(n)
  }

  lemma {:induction false} DecimalValue(n: nat)
    ensures DigitsValue(Decimal(n)) == n
  {
    if n >= 10 {
      DecimalValue(n / 10);
      var ds := Decimal(n);
      assert ds[..|ds| - 1] == Decimal(n / 10);
    }
  }

  /** A string that neither starts nor ends with a space is left as it is by trimming. */
  lemma TrimPlain(s: string)
    requires s != [] && !IsSpace(s[0]) && !IsSpace(s[|s| - 1])
    ensures TrimEnd(TrimStart(s)) == s
  {
  }

  /** `int` reads back what `str` writes, for every integer. */
  lemma ParseShow(n: int)
    ensures ParseInt(Show(n)) == Ok(n)
  {
    var s := Show(n);
    ShowPlain(n);
    TrimPlain(s);
    assert ParseInt(s) == Signed(s);
    if n < 0 {
      SignedNegative(-n);
    } else {
      SignedDecimal(n);
    }
  }

  lemma ShowPlain(n: int)
    ensures var s := Show(n); !IsSpace(s[0]) && !IsSpace(s[|s| - 1])
  {
  }

  lemma SignedDecimal(n: nat)
    ensures Signed(Decimal(n)) == Ok(n)
  {
    var d := Decimal(n);
    assert d[0] != '-' && d[0] != '+';
    DecimalValue(n);
  }

  lemma SignedNegative(n: nat)
    ensures Signed("-" + Decimal(n)) == Ok(-(n as int))
  {
    var d := Decimal(n);
    var s := "-" + d;
    assert s[0] == '-' && s[1..] == d;
    DecimalValue(n);
  }

  /**
   * Python's `text.split(sep)` for a one-character separator: the pieces
   * between separators, always at least one, none containing the separator.
   */
  function Split(text: string, sep: char): (r: seq<string>)
    ensures |r| >= 1
    ensures forall i :: 0 <= i < |r| ==> sep !in r[i]
  {
    if text == [] then [[]]
    else
      var rest := Split(text[1..], sep);
      if text[0] == sep then [[]] + rest
      else [[text[0]] + rest[0]] + rest[1..]
  }

  /** Python's `sep.join(parts)`. */
  function Join(parts: seq<string>, sep: char): string
    requires |parts| >= 1
  {
    if |parts| == 1 then parts[0] else parts[0] + [sep] + Join(parts[1..], sep)
  }

  /** Joining the pieces again gives the text back. */
  lemma {:induction false} JoinSplit(text: string, sep: char)
    ensures Join(Split(text, sep), sep) == text
  {
    if text != [] {
      var rest := Split(text[1..], sep);
      JoinSplit(text[1..], sep);
      if text[0] == sep {
        assert text == [sep] + text[1..];
      } else {
        var r := Split(text, sep);
        assert r[1..] == rest[1..];
        if |rest| == 1 {
          assert text == [text[0]] + rest[0];
        } else {
          assert Join(rest, sep) == rest[0] + [sep] + Join(rest[1..], sep);
          assert text == [text[0]] + Join(rest, sep);
        }
      }
    }
  }

  /** Splitting parts that hold no separator, once joined, gives the parts back. */
  lemma {:induction false} SplitJoin(parts: seq<string>, sep: char)
    requires |parts| >= 1
    requires forall i :: 0 <= i < |parts| ==> sep !in parts[i]
    ensures Split(Join(parts, sep), sep) == parts
    decreases |parts|
  {
    if |parts| == 1 {
      SplitFree(parts[0], sep);
    } else {
      SplitJoin(parts[1..], sep);
      assert parts[0] + [sep] + Join(parts[1..], sep) == parts[0] + ([sep] + Join(parts[1..], sep));
      var b := [sep] + Join(parts[1..], sep);
      SplitPrefix(parts[0], b, sep);
      assert b[1..] == Join(parts[1..], sep);
      assert Split(b, sep) == [[]] + parts[1..];
      assert parts[0] + [] == parts[0];
      assert [parts[0]] + parts[1..] == parts;
    }
  }

  /** A text without the separator is one piece. */
  lemma {:induction false} SplitFree(text: string, sep: char)
    requires sep !in text
    ensures Split(text, sep) == [text]
  {
    if text != [] {
      SplitFree(text[1..], sep);
      assert text == [text[0]] + text[1..];
    }
  }

  /** A separator-free prefix glues onto the first piece of what follows it. */
  lemma {:induction false} SplitPrefix(a: string, b: string, sep: char)
    requires sep !in a
    ensures var r := Split(a + b, sep); var rb := Split(b, sep);
      r == [a + rb[0]] + rb[1..]
  {
    if a == [] {
      var rb := Split(b, sep);
      assert a + b == b && a + rb[0] == rb[0];
      assert [rb[0]] + rb[1..] == rb;
    } else {
      assert a[0] in a && (a + b)[0] == a[0];
      assert (a + b)[1..] == a[1..] + b;
      SplitPrefix(a[1..], b, sep);
      var rb := Split(b, sep);
      assert [a[0]] + (a[1..] + rb[0]) == a + rb[0];
    }
  }

  /** The non-empty strings of `pieces`, in order. */
  function NonEmpty(pieces: seq<string>): (r: seq<string>)
    ensures |r| <= |pieces|
    ensures forall i :: 0 <= i < |r| ==> r[i] != [] && r[i] in pieces
  {
    if pieces == [] then []
    else if pieces[0] == [] then NonEmpty(pieces[1..])
    else [pieces[0]] + NonEmpty(pieces[1..])
  }

  lemma {:induction false} NonEmptyAppend(a: seq<string>, b: seq<string>)
    ensures NonEmpty(a + b) == NonEmpty(a) + NonEmpty(b)
  {
    if a == [] {
      assert a + b == b;
    } else {
      assert (a + b)[0] == a[0];
      assert (a + b)[1..] == a[1..] + b;
      NonEmptyAppend(a[1..], b);
    }
  }

  /** Strings that are all non-empty are all kept. */
  lemma {:induction false} NonEmptyKeepsAll(pieces: seq<string>)
    requires forall i :: 0 <= i < |pieces| ==> pieces[i] != []
    ensures NonEmpty(pieces) == pieces
  {
    if pieces != [] {
      NonEmptyKeepsAll(pieces[1..]);
    }
  }

  /** `[x for x in stdout.split('\n') if len(x) > 0]`: the non-empty lines, in order. */
  function Lines(stdout: string): (r: seq<string>)
    ensures forall i :: 0 <= i < |r| ==> r[i] != [] && '\n' !in r[i]
  {
    NonEmpty(Split(stdout, '\n'))
  }

  /** The output of a program that writes each line followed by a newline (as `endl` does). */
  function Terminated(lines: seq<string>): string
  {
    if lines == [] then [] else lines[0] + ['\n'] + Terminated(lines[1..])
  }

  lemma {:induction false} TerminatedJoin(lines: seq<string>)
    ensures Terminated(lines) == Join(lines + [[]], '\n')
  {
    if lines != [] {
      TerminatedJoin(lines[1..]);
      assert (lines + [[]])[1..] == lines[1..] + [[]];
    }
  }

  /** The lines read back from such an output are exactly the lines written. */
  lemma LinesOfOutput(lines: seq<string>)
    requires forall i :: 0 <= i < |lines| ==> lines[i] != [] && '\n' !in lines[i]
    ensures Lines(Terminated(lines)) == lines
  {
    TerminatedJoin(lines);
    SplitJoin(lines + [[]], '\n');
    NonEmptyAppend(lines, [[]]);
    NonEmptyKeepsAll(lines);
  }

  /* ---------------------------------------------------------------------- */
  /* Runs                                                                     */
  /* ---------------------------------------------------------------------- */

  /**
   * One iteration's measurements: the sender's time, the receiver's
   * encryption and decryption times, and the matches found as a fraction of
   * the receiver's set.
   */
  datatype Run = Run(sender: real, receiverEnc: real, receiverDec: real, matches: real)

  /** `float(x[i])`: an `IndexError` past the last field, a `ValueError` if it is no number. */
  function Float(x: seq<string>, i: nat, parseFloat: string -> Option<real>): (r: Result<real>)
    ensures r.Ok? <==> i < |x| && parseFloat(x[i]).Some?
    ensures r.Ok? ==> r.value == parseFloat(x[i]).value
    ensures i >= |x| ==> r == Err(IndexError)
  {
    if |x| <= i then Err(IndexError)
    else if parseFloat(x[i]).None? then Err(ValueError)
    else Ok(parseFloat(x[i]).value)
  }

  /**
   * One line as `run_case` reads it: the tab-separated fields, three times
   * and then the match count, which is divided by the receiver's set size.
   * Fields after the fourth are ignored.
   */
  function ParseRun(c: Case, line: string, parseFloat: string -> Option<real>): (r: Result<Run>)
    ensures var x := Split(line, '\t');
      r.Ok? <==> |x| >= 4 && parseFloat(x[0]).Some? && parseFloat(x[1]).Some? &&
                 parseFloat(x[2]).Some? && ParseInt(x[3]).Ok? && c.receiverSize > 0
    ensures var x := Split(line, '\t');
      r.Ok? ==> r.value.sender == parseFloat(x[0]).value && r.value.receiverEnc == parseFloat(x[1]).value &&
                r.value.receiverDec == parseFloat(x[2]).value &&
                Divide(ParseInt(x[3]).value, c.receiverSize) == Ok(r.value.matches)
  {
    var x := Split(line, '\t');
    var sender :- Float(x, 0, parseFloat);
    var enc :- Float(x, 1, parseFloat);
    var dec :- Float(x, 2, parseFloat);
    var count :- if |x| < 4 then Err(IndexError) else ParseInt(x[3]);
    var matches :- Divide(count, c.receiverSize);
    Ok(Run(sender, enc, dec, matches))
  }

  /** Python's true division `count / size` of two integers: a float, or `ZeroDivisionError`. */
  function Divide(count: int, size: nat): (r: Result<real>)
    ensures r.Ok? <==> size > 0
    ensures r.Err? ==> r.error == ZeroDivisionError
    ensures r.Ok? ==> r.value * size as real == count as real
  {
    if size == 0 then Err(ZeroDivisionError)
    else
      RatioTimes(count as real, size as real);
      Ok(count as real / size as real)
  }

  lemma RatioTimes(n: real, d: real)
    requires d != 0.0
    ensures (n / d) * d == n
  {
  }

  /** A line with fewer than four fields is an error whatever its contents. */
  lemma ShortLineFails(c: Case, line: string, parseFloat: string -> Option<real>)
    requires |Split(line, '\t')| < 4
    ensures ParseRun(c, line, parseFloat).Err?
  {
  }

  /**
   * `f` applied to each of `xs` in order, the results appended to `done`;
   * the first failure stops it, as an exception ends a Python loop or list
   * comprehension.
   */
  function Each<S, T>(done: seq<T>, xs: seq<S>, f: S -> Result<T>): (r: Result<seq<T>>)
    ensures r.Ok? <==> forall i :: 0 <= i < |xs| ==> f(xs[i]).Ok?
    ensures r.Ok? ==>
      |r.value| == |done| + |xs| && r.value[..|done|] == done &&
      (forall i :: 0 <= i < |xs| ==> f(xs[i]) == Ok(r.value[|done| + i]))
    decreases |xs|
  {
    if xs == [] then Ok(done)
    else
      var first :- f(xs[0]);
      var rest := Each(done + [first], xs[1..], f);
      assert rest.Ok? ==> rest.value[|done|] == first by {
        if rest.Ok? {
          assert rest.value[..|done| + 1][|done|] == first;
        }
      }
      assert forall i :: 1 <= i < |xs| ==> xs[i] == xs[1..][i - 1];
      rest
  }

  /** The list of runs, one per line, in order; the first bad line aborts. */
  function ParseRuns(c: Case, lines: seq<string>, parseFloat: string -> Option<real>): Result<seq<Run>>
  {
    Each([], lines, line => ParseRun(c, line, parseFloat))
  }

  /**
   * The four columns `run_case` reports, by their position in a run: it
   * prints them as sender, receiver_enc, receiver_dec and matches.
   */
  const COLUMNS: seq<nat> := [0, 1, 2, 3]

  function Column(run: Run, index: nat): real
  {
    match index
    case 0 => run.sender
    case 1 => run.receiverEnc
    case 2 => run.receiverDec
    case _ => run.matches
  }

  /** `[x[index] for x in runs]`. */
  function Values(runs: seq<Run>, index: nat): (r: seq<real>)
    ensures |r| == |runs|
  {
    seq(|runs|, i requires 0 <= i < |runs| => Column(runs[i], index))
  }

  /* ---------------------------------------------------------------------- */
  /* Statistics                                                               */
  /* ---------------------------------------------------------------------- */

  /** `sum(values)`, adding from the left. */
  function Sum(xs: seq<real>): real
  {
    if xs == [] then 0.0 else Sum(xs[..|xs| - 1]) + xs[|xs| - 1]
  }

  /** `min(values)`: the first least element. */
  function Min(xs: seq<real>): (r: real)
    requires xs != []
    ensures r in xs && forall i :: 0 <= i < |xs| ==> r <= xs[i]
  {
    if |xs| == 1 then xs[0]
    else
      var m := Min(xs[..|xs| - 1]);
      assert m in xs[..|xs| - 1];
      if xs[|xs| - 1] < m then xs[|xs| - 1] else m
  }

  /** `max(values)`: the first greatest element. */
  function Max(xs: seq<real>): (r: real)
    requires xs != []
    ensures r in xs && forall i :: 0 <= i < |xs| ==> xs[i] <= r
  {
    if |xs| == 1 then xs[0]
    else
      var m := Max(xs[..|xs| - 1]);
      assert m in xs[..|xs| - 1];
      if xs[|xs| - 1] > m then xs[|xs| - 1] else m
  }

  /** `avg(values)`: the sum over the count; dividing by zero for no values. */
  function Avg(xs: seq<real>): (r: Result<real>)
    ensures r.Ok? <==> xs != []
    ensures r.Err? ==> r.error == ZeroDivisionError
  {
    if |xs| == 0 then Err(ZeroDivisionError) else Ok(Sum(xs) / |xs| as real)
  }

  /** The sum of squared deviations from `mean`. */
  function Deviation(xs: seq<real>, mean: real): (r: real)
    ensures r >= 0.0
  {
    if xs == [] then 0.0
    else
      Square(xs[|xs| - 1] - mean);
      Deviation(xs[..|xs| - 1], mean) + (xs[|xs| - 1] - mean) * (xs[|xs| - 1] - mean)
  }

  lemma Square(d: real)
    ensures d * d >= 0.0
  {
    if d < 0.0 {
      assert d * d == (-d) * (-d);
    }
  }

  /**
   * `stddev(values)` before the square root: the sample variance, the squared
   * deviations divided by len - 1, so a single value divides by zero.
   */
  function Variance(xs: seq<real>): (r: Result<real>)
    ensures r.Ok? <==> |xs| >= 2
    ensures r.Err? ==> r.error == ZeroDivisionError
    ensures r.Ok? ==> r.value >= 0.0
  {
    var mean :- Avg(xs);
    if |xs| - 1 == 0 then Err(ZeroDivisionError)
    else Ok(Deviation(xs, mean) / (|xs| - 1) as real)
  }

  /** The sum lies between count * min and count * max. */
  lemma {:induction false} SumBounds(xs: seq<real>, lo: real, hi: real)
    requires forall i :: 0 <= i < |xs| ==> lo <= xs[i] <= hi
    ensures |xs| as real * lo <= Sum(xs) <= |xs| as real * hi
  {
    if xs != [] {
      SumBounds(xs[..|xs| - 1], lo, hi);
    }
  }

  /** The average lies between the least and the greatest value. */
  lemma AvgBetween(xs: seq<real>)
    requires xs != []
    ensures Min(xs) <= Avg(xs).value <= Max(xs)
  {
    var n := |xs| as real;
    SumBounds(xs, Min(xs), Max(xs));
    DivideBounds(Sum(xs), n, Min(xs), Max(xs));
  }

  lemma DivideBounds(s: real, n: real, lo: real, hi: real)
    requires n > 0.0 && n * lo <= s <= n * hi
    ensures lo <= s / n <= hi
  {
  }

  /** The four figures `run_case` prints for one column. */
  datatype Stats = Stats(avg: real, variance: real, min: real, max: real)

  /**
   * `avg`, `stddev`, `min`, `max` of one column, in the order the format
   * call evaluates them: at least two values are needed, and then the
   * average lies between the minimum and the maximum.
   */
  function Summarize(xs: seq<real>): (r: Result<Stats>)
    ensures r.Ok? <==> |xs| >= 2
    ensures r.Err? ==> r.error == ZeroDivisionError
    ensures r.Ok? ==> r.value.min <= r.value.avg <= r.value.max && r.value.variance >= 0.0
    ensures r.Ok? ==>
      r.value.min in xs && r.value.max in xs &&
      (forall i :: 0 <= i < |xs| ==> r.value.min <= xs[i] <= r.value.max)
  {
    var mean :- Avg(xs);
    var variance :- Variance(xs);
    AvgBetween(xs);
    Ok(Stats(mean, variance, Min(xs), Max(xs)))
  }

  /* ---------------------------------------------------------------------- */
  /* Cases                                                                    */
  /* ---------------------------------------------------------------------- */

  /**
   * What `run_case` reports for one case given the benchmark's standard
   * output: the statistics of the four columns, or the first exception.
   */
  function Report(c: Case, stdout: string, parseFloat: string -> Option<real>): Result<seq<Stats>>
  {
    var runs :- ParseRuns(c, Lines(stdout), parseFloat);
    Summaries([], COLUMNS, runs)
  }

  /** A report exists exactly when every line parses and there are at least two of them. */
  lemma ReportOk(c: Case, stdout: string, parseFloat: string -> Option<real>)
    ensures Report(c, stdout, parseFloat).Ok? <==> ParseRuns(c, Lines(stdout), parseFloat).Ok? && |Lines(stdout)| >= 2
  {
    var runs := ParseRuns(c, Lines(stdout), parseFloat);
    if runs.Ok? {
      var rs := runs.value;
      assert |rs| == |Lines(stdout)|;
      if |rs| < 2 {
        assert COLUMNS[0] == 0 && Summarize(Values(rs, 0)).Err?;
      } else {
        assert forall i :: 0 <= i < 4 ==> |Values(rs, COLUMNS[i])| == |rs|;
      }
    }
  }

  /** A report holds the statistics of the four columns, in order. */
  lemma ReportColumns(c: Case, stdout: string, parseFloat: string -> Option<real>)
    requires Report(c, stdout, parseFloat).Ok?
    ensures var r := Report(c, stdout, parseFloat).value;
      |r| == 4 &&
      forall i :: 0 <= i < 4 ==> Summarize(Values(ParseRuns(c, Lines(stdout), parseFloat).value, i)) == Ok(r[i])
  {
    var runs := ParseRuns(c, Lines(stdout), parseFloat).value;
    var r := Report(c, stdout, parseFloat).value;
    SummariesColumns(runs, r);
  }

  lemma SummariesColumns(runs: seq<Run>, r: seq<Stats>)
    requires Summaries([], COLUMNS, runs) == Ok(r)
    ensures |r| == 4 && forall i :: 0 <= i < 4 ==> Summarize(Values(runs, i)) == Ok(r[i])
  {
    EachColumn(SummarizeColumn(runs), r);
  }

  /** Over the four columns, `Each` puts the result for column i at position i. */
  lemma EachColumn<T>(f: nat -> Result<T>, r: seq<T>)
    requires Each([], COLUMNS, f) == Ok(r)
    ensures |r| == 4 && forall i :: 0 <= i < 4 ==> f(i) == Ok(r[i])
  {
    assert COLUMNS[0] == 0 && COLUMNS[1] == 1 && COLUMNS[2] == 2 && COLUMNS[3] == 3;
  }

  /** The statistics of the columns `indices` of `runs`, after those `done`, in order. */
  function Summaries(done: seq<Stats>, indices: seq<nat>, runs: seq<Run>): Result<seq<Stats>>
  {
    Each(done, indices, SummarizeColumn(runs))
  }

  function SummarizeColumn(runs: seq<Run>): nat -> Result<Stats>
  {
    (index: nat) => Summarize(Values(runs, index))
  }

  /**
   * Every line's match count, divided by the receiver's set size, lies
   * between the minimum and the maximum of the report's match column.
   */
  lemma ReportMatches(c: Case, stdout: string, parseFloat: string -> Option<real>, j: nat)
    requires Report(c, stdout, parseFloat).Ok? && j < |Lines(stdout)|
    ensures var x := Split(Lines(stdout)[j], '\t');
      |x| >= 4 && ParseInt(x[3]).Ok? && c.receiverSize > 0 &&
      var ratio := ParseInt(x[3]).value as real / c.receiverSize as real;
      Report(c, stdout, parseFloat).value[3].min <= ratio <= Report(c, stdout, parseFloat).value[3].max
  {
    ReportOk(c, stdout, parseFloat);
    ReportColumns(c, stdout, parseFloat);
    var lines := Lines(stdout);
    var runs := ParseRuns(c, lines, parseFloat).value;
    var stats := Report(c, stdout, parseFloat).value[3];
    var xs := Values(runs, 3);
    assert Summarize(xs) == Ok(stats);
    assert xs[j] == runs[j].matches;
    assert ParseRun(c, lines[j], parseFloat) == Ok(runs[j]);
    var x := Split(lines[j], '\t');
    assert Divide(ParseInt(x[3]).value, c.receiverSize) == Ok(runs[j].matches);
  }

  /**
   * `run_case` after the benchmark has run: the loop over the four columns,
   * each summarised in turn.
   */
  method RunCase(c: Case, stdout: string, parseFloat: string -> Option<real>) returns (r: Result<seq<Stats>>)
    ensures r == Report(c, stdout, parseFloat)
  {
    var runs :- ParseRuns(c, Lines(stdout), parseFloat);
    var stats: seq<Stats> := [];
    for index := 0 to |COLUMNS|
      invariant Summaries(stats, COLUMNS[index..], runs) == Summaries([], COLUMNS, runs)
    {
      assert COLUMNS[index..][1..] == COLUMNS[index + 1..];
      var summary :- Summarize(Values(runs, COLUMNS[index]));
      stats := stats + [summary];
    }
    assert COLUMNS[|COLUMNS|..] == [];
    return Ok(stats);
  }

  /* ---------------------------------------------------------------------- */
  /* main                                                                     */
  /* ---------------------------------------------------------------------- */

  /**
   * Python's `xs[start:]`: a negative start counts from the end, and a start
   * beyond either end is clamped. The result is the suffix of that length.
   */
  function SuffixFrom<T>(xs: seq<T>, start: int): (r: seq<T>)
    ensures start >= 0 ==> |r| == if start <= |xs| then |xs| - start else 0
    ensures start < 0 ==> |r| == if -start <= |xs| then -start else |xs|
    ensures r == xs[|xs| - |r|..]
  {
    var from :=
      if start >= 0 then (if start <= |xs| then start else |xs|)
      else (if -start <= |xs| then |xs| + start else 0);
    xs[from..]
  }

  /**
   * The cases `main` runs: `CASES[skipped_cases:]`, where `skipped_cases` is
   * the one command-line argument if there is exactly one, and 0 otherwise.
   * `args` are the arguments after the script's name.
   */
  function Selected(args: seq<string>): (r: Result<seq<Case>>)
    ensures |args| != 1 ==> r == Ok(CASES)
    ensures r.Err? ==> |args| == 1 && r.error == ValueError
  {
    var skipped :- if |args| == 1 then ParseInt(args[0]) else Ok(0);
    Ok(SuffixFrom(CASES, skipped))
  }

  /** Skipping n cases written as a number runs the cases from index n on. */
  lemma SelectedSkip(n: nat)
    ensures Selected([Show(n)]) == Ok(CASES[if n <= |CASES| then n else |CASES|..])
  {
    ParseShow(n);
    SelectedArgument([Show(n)], n);
  }

  /** With exactly one argument, it is read as an integer and the cases run are `CASES` from there on. */
  lemma SelectedArgument(args: seq<string>, skipped: int)
    requires |args| == 1 && ParseInt(args[0]) == Ok(skipped)
    ensures Selected(args) == Ok(SuffixFrom(CASES, skipped))
  {
  }

  /** A start of -n, for n from 1 up to the length, takes the last n elements. */
  lemma SuffixFromEnd<T>(xs: seq<T>, n: nat)
    requires 0 < n <= |xs|
    ensures SuffixFrom(xs, -(n as int)) == xs[|xs| - n..]
  {
  }

  /** One case: the benchmark process (`check=True` turns a failure into an exception), then its report. */
  function CaseReport(c: Case, benchmark: Case -> Option<string>, parseFloat: string -> Option<real>): (r: Result<seq<Stats>>)
    ensures benchmark(c).None? ==> r == Err(CalledProcessError)
    ensures benchmark(c).Some? ==> r == Report(c, benchmark(c).value, parseFloat)
  {
    if benchmark(c).None? then Err(CalledProcessError) else Report(c, benchmark(c).value, parseFloat)
  }

  /**
   * The reports of `cases` in order, after those `done`; the first case that
   * fails stops the run.
   */
  function Reports(done: seq<seq<Stats>>, cases: seq<Case>, benchmark: Case -> Option<string>,
                   parseFloat: string -> Option<real>): Result<seq<seq<Stats>>>
  {
    Each(done, cases, c => CaseReport(c, benchmark, parseFloat))
  }

  /**
   * `main`: every selected case, in order, and the report of each; a bad
   * argument, a failing benchmark or a bad output ends the run with the
   * exception.
   */
  method RunAll(args: seq<string>, benchmark: Case -> Option<string>, parseFloat: string -> Option<real>)
    returns (r: Result<seq<seq<Stats>>>)
    ensures Selected(args).Err? ==> r == Err(ValueError)
    ensures Selected(args).Ok? ==> r == Reports([], Selected(args).value, benchmark, parseFloat)
  {
    var cases :- Selected(args);
    var reports: seq<seq<Stats>> := [];
    for i := 0 to |cases|
      invariant Reports(reports, cases[i..], benchmark, parseFloat) == Reports([], cases, benchmark, parseFloat)
    {
      assert cases[i..][1..] == cases[i + 1..];
      var stdout := benchmark(cases[i]);
      if stdout.None? {
        return Err(CalledProcessError);
      }
      var report := RunCase(cases[i], stdout.value, parseFloat);
      if report.Err? {
        return Err(report.error);
      }
      reports := reports + [report.value];
    }
    assert cases[|cases|..] == [];
    return Ok(reports);
  }
}
