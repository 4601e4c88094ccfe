/**
 * The names given to the solver's variables and the loop that reads the
 * assignment back from them.  Assignment variables are named "x <row>-<col>"
 * (row = facility, col = customer), opening variables "y<i>"; the decoder
 * skips every name containing 'y', takes the digit runs of the rest and
 * writes `solution[col] = row` for every variable whose value is positive.
 * The solver itself is not modelled: a solved variable is a name and whether
 * its value is positive.
 */
module MipNames {
  import opened Wrappers
  import opened Decimal

  /** Name of the assignment variable of facility `row` and customer `col`. */
  function XName(row: nat, col: nat): (name: string)
    ensures |name| > 2 && name[..2] == "x " && 'y' !in name
  {
    "x " + NatToString(row) + "-" + NatToString(col)
  }

  /** Name of the opening variable of facility `i`. */
  function YName(i: nat): (name: string)
    ensures |name| > 1 && name[0] == 'y' && AllDigits(name[1..])
  {
    "y" + NatToString(i)
  }

  /** Number of digits at the start of `s`. */
  function LeadingDigits(s: string): (n: nat)
    ensures n <= |s| && AllDigits(s[..n])
    ensures n < |s| ==> !IsDigit(s[n])
  {
    if |s| > 0 && IsDigit(s[0]) then 1 + LeadingDigits(s[1..]) else 0
  }

  /** `re.findall("\d+", s)`: the maximal runs of digits, left to right. */
  function DigitRuns(s: string): (runs: seq<string>)
    ensures forall i :: 0 <= i < |runs| ==> |runs[i]| > 0 && AllDigits(runs[i])
    decreases |s|
  {
    if |s| == 0 then []
    else if !IsDigit(s[0]) then DigitRuns(s[1..])
    else
      var n := LeadingDigits(s);
      [s[..n]] + DigitRuns(s[n..])
  }

  /** A solved variable: its name, and whether the solver gave it a value above 0. */
  datatype Var = Var(name: string, positive: bool)

  /** What the decoder does with one variable. */
  datatype Action =
    | Skip                                  // value not positive, or an opening variable
    | Write(customer: nat, facility: nat)   // solution[customer] = facility
    | TooFewNumbers                         // fewer than two digit runs: IndexError

  function ActionOf(v: Var): (a: Action)
    ensures a.Skip? <==> !v.positive || 'y' in v.name
    ensures a.TooFewNumbers? <==> v.positive && 'y' !in v.name && |DigitRuns(v.name)| < 2
    ensures a.Write? ==> a.facility == ParseNat(DigitRuns(v.name)[0]) && a.customer == ParseNat(DigitRuns(v.name)[1])
  {
    if !v.positive || 'y' in v.name then Skip
    else
      var runs := DigitRuns(v.name);
      if |runs| < 2 then TooFewNumbers else Write(ParseNat(runs[1]), ParseNat(runs[0]))
  }

  datatype DecodeError =
    | MissingNumbers(at: nat)      // variable `at` has fewer than two digit runs
    | CustomerOutOfRange(at: nat)  // variable `at` names a customer past the end of the solution

  /** Variable `v` makes the decoder raise an IndexError on a solution of length `count`. */
  predicate Faulty(v: Var, count: nat) {
    match ActionOf(v)
    case TooFewNumbers => true
    case Write(c, _) => c >= count
    case Skip => false
  }

  /** The value `solution[c]` holds once the decoder has gone through `vars`: the last write wins, -1 if none. */
  function DecodedAt(vars: seq<Var>, c: nat): int
  {
    if |vars| == 0 then -1
    else
      match ActionOf(vars[|vars| - 1])
      case Write(c', f) => if c' == c then f else DecodedAt(vars[..|vars| - 1], c)
      case _ => DecodedAt(vars[..|vars| - 1], c)
  }

  /**
   * The decode loop: `solution = [-1]*count`, then for every positive variable
   * whose name has no 'y', `solution[runs[1]] = runs[0]`.  It stops at the
   * first variable that raises IndexError.
   */
  method Decode(vars: seq<Var>, count: nat) returns (r: Result<seq<int>, DecodeError>)
    ensures r.Success? ==> |r.value| == count
    ensures r.Success? ==> forall c :: 0 <= c < count ==> r.value[c] == DecodedAt(vars, c)
    ensures r.Success? <==> forall j :: 0 <= j < |vars| ==> !Faulty(vars[j], count)
    ensures r.Failure? ==> r.error.at < |vars| && Faulty(vars[r.error.at], count)
    ensures r.Failure? ==> forall j :: 0 <= j < r.error.at ==> !Faulty(vars[j], count)
    ensures r.Failure? ==> (r.error.MissingNumbers? <==> ActionOf(vars[r.error.at]).TooFewNumbers?)
  {
    var solution := new int[count](_ => -1);
    var i := 0;
    while i < |vars|
      invariant 0 <= i <= |vars|
      invariant forall j :: 0 <= j < i ==> !Faulty(vars[j], count)
      invariant forall c :: 0 <= c < count ==> solution[c] == DecodedAt(vars[..i], c)
    {
      assert vars[..i + 1][..i] == vars[..i];
      var action := ActionOf(vars[i]);
      if action.TooFewNumbers? {
        return Failure(MissingNumbers(i));
      } else if action.Write? {
        if action.customer >= count {
          return Failure(CustomerOutOfRange(i));
        }
        solution[action.customer] := action.facility;
      }
      i := i + 1;
    }
    assert vars[..i] == vars;
    return Success(solution[..]);
  }

  lemma {:induction false} LeadingDigitsOf(a: string, b: string)
    requires AllDigits(a)
    requires |b| == 0 || !IsDigit(b[0])
    ensures LeadingDigits(a + b) == |a|
  {
    if |a| > 0 {
      LeadingDigitsOf(a[1..], b);
      assert (a + b)[1..] == a[1..] + b;
    } else {
      assert a + b == b;
    }
  }

  /** A run of digits followed by a non-digit (or the end) is the next digit run. */
  lemma DigitRunsCons(a: string, b: string)
    requires |a| > 0 && AllDigits(a)
    requires |b| == 0 || !IsDigit(b[0])
    ensures DigitRuns(a + b) == [a] + DigitRuns(b)
  {
    LeadingDigitsOf(a, b);
    assert (a + b)[..|a|] == a;
    assert (a + b)[|a|..] == b;
  }

  lemma DigitRunsSkip(ch: char, b: string)
    requires !IsDigit(ch)
    ensures DigitRuns([ch] + b) == DigitRuns(b)
  {
  }

  /** The digit runs of "x r-c" are exactly the numerals of r and c. */
  lemma DigitRunsOfXName(row: nat, col: nat)
    ensures DigitRuns(XName(row, col)) == [NatToString(row), NatToString(col)]
  {
    var r, c := NatToString(row), NatToString(col);
    var tail := ['-'] + c;
    var mid := r + tail;
    assert XName(row, col) == ['x'] + ([' '] + mid);
    calc {
      DigitRuns(XName(row, col));
      { DigitRunsSkip('x', [' '] + mid); }
      DigitRuns([' '] + mid);
      { DigitRunsSkip(' ', mid); }
      DigitRuns(mid);
      { DigitRunsCons(r, tail); }
      [r] + DigitRuns(tail);
      { DigitRunsSkip('-', c); }
      [r] + DigitRuns(c);
      { DigitRunsCons(c, []); assert c + [] == c; }
      [r] + ([c] + DigitRuns([]));
    }
  }

  /**
   * A positive assignment variable is decoded as a write of its row into its
   * column; every opening variable and every variable that is not positive
   * is skipped.
   */
  lemma ActionOfNames(row: nat, col: nat, i: nat, positive: bool)
    ensures 'y' !in XName(row, col) && 'y' in YName(i)
    ensures ActionOf(Var(XName(row, col), positive)) == if positive then Write(col, row) else Skip
    ensures ActionOf(Var(YName(i), positive)) == Skip
  {
    assert YName(i)[0] == 'y';
    var name := XName(row, col);
    assert forall k :: 0 <= k < |name| ==> name[k] in {'x', ' ', '-'} || IsDigit(name[k]);
    if positive {
      DigitRunsOfXName(row, col);
      ParseNatToString(row);
      ParseNatToString(col);
    }
  }

  /** Variable `vars[i]` writes customer `c`. */
  predicate WritesTo(v: Var, c: nat) {
    ActionOf(v).Write? && ActionOf(v).customer == c
  }

  lemma {:induction false} DecodedAtAppend(a: seq<Var>, b: seq<Var>, c: nat)
    ensures (forall j :: 0 <= j < |b| ==> !WritesTo(b[j], c)) ==> DecodedAt(a + b, c) == DecodedAt(a, c)
    ensures (exists j :: 0 <= j < |b| && WritesTo(b[j], c)) ==> DecodedAt(a + b, c) == DecodedAt(b, c)
    decreases |b|
  {
    if |b| == 0 {
      assert a + b == a;
    } else {
      var n := |b| - 1;
      assert (a + b)[..|a + b| - 1] == a + b[..n];
      assert (a + b)[|a + b| - 1] == b[n];
      DecodedAtAppend(a, b[..n], c);
      if !WritesTo(b[n], c) {
        if exists j :: 0 <= j < |b| && WritesTo(b[j], c) {
          var j :| 0 <= j < |b| && WritesTo(b[j], c);
          assert b[..n][j] == b[j];
        }
      }
    }
  }

  /** A customer that no positive variable names keeps -1. */
  lemma {:induction false} DecodedAtNoWriter(vars: seq<Var>, c: nat)
    requires forall j :: 0 <= j < |vars| ==> !WritesTo(vars[j], c)
    ensures DecodedAt(vars, c) == -1
    decreases |vars|
  {
    if |vars| > 0 {
      var n := |vars| - 1;
      assert forall j :: 0 <= j < n ==> vars[..n][j] == vars[j];
      DecodedAtNoWriter(vars[..n], c);
    }
  }

  /**
   * The decoder keeps the facility of the last positive variable naming a
   * customer; in particular, with exactly one such variable the customer gets
   * that variable's facility.
   */
  lemma {:induction false} DecodedAtLastWriter(vars: seq<Var>, c: nat, i: nat)
    requires i < |vars| && WritesTo(vars[i], c)
    requires forall j :: i < j < |vars| ==> !WritesTo(vars[j], c)
    ensures DecodedAt(vars, c) == ActionOf(vars[i]).facility
    decreases |vars|
  {
    var n := |vars| - 1;
    if i < n {
      assert vars[..n][i] == vars[i];
      assert forall j :: i < j < n ==> vars[..n][j] == vars[j];
      DecodedAtLastWriter(vars[..n], c, i);
    }
  }

  /** The assignment variables of facility `row`, one per customer: "x row-0", "x row-1", ... */
  function RowVars(row: nat, values: seq<bool>): (vs: seq<Var>)
    ensures |vs| == |values|
    ensures forall c :: 0 <= c < |vs| ==> vs[c].positive == values[c] && 'y' !in vs[c].name
  {
    seq(|values|, c requires 0 <= c < |values| => Var(XName(row, c), values[c]))
  }

  /** All assignment variables in the order they are created: facility by facility, customer by customer. */
  function XVars(x: seq<seq<bool>>): (vs: seq<Var>)
    ensures |x| > 0 ==> |vs| >= |x[|x| - 1]|
    ensures forall j :: 0 <= j < |vs| ==> 'y' !in vs[j].name
  {
    if |x| == 0 then [] else XVars(x[..|x| - 1]) + RowVars(|x| - 1, x[|x| - 1])
  }

  /** The opening variables "y0", "y1", ... */
  function YVars(y: seq<bool>): (vs: seq<Var>)
    ensures |vs| == |y|
    ensures forall i :: 0 <= i < |vs| ==> vs[i].positive == y[i] && ActionOf(vs[i]) == Skip
  {
    seq(|y|, i requires 0 <= i < |y| => Var(YName(i), y[i]))
  }

  /**
   * The solved variables in creation order, as the solver lists them: x[f][c]
   * says whether the variable of facility f and customer c came out positive,
   * y[f] the same for the opening variable of f.
   */
  function ModelVariables(x: seq<seq<bool>>, y: seq<bool>): (vs: seq<Var>)
    ensures |vs| == |XVars(x)| + |y|
    ensures forall j :: 0 <= j < |XVars(x)| ==> 'y' !in vs[j].name
    ensures forall j :: |XVars(x)| <= j < |vs| ==> ActionOf(vs[j]) == Skip
  {
    XVars(x) + YVars(y)
  }

  /** The last facility whose assignment variable for customer `c` is positive, -1 if none is. */
  function LastPositiveRow(x: seq<seq<bool>>, c: nat): (r: int)
    requires forall f :: 0 <= f < |x| ==> c < |x[f]|
    ensures -1 <= r < |x|
    ensures r >= 0 ==> x[r][c] && forall f :: r < f < |x| ==> !x[f][c]
    ensures r == -1 ==> forall f :: 0 <= f < |x| ==> !x[f][c]
  {
    if |x| == 0 then -1
    else if x[|x| - 1][c] then |x| - 1
    else LastPositiveRow(x[..|x| - 1], c)
  }

  lemma RowVarsWrites(row: nat, values: seq<bool>, c: nat)
    ensures forall j :: 0 <= j < |values| ==> ActionOf(RowVars(row, values)[j]) == if values[j] then Write(j, row) else Skip
    ensures c < |values| && values[c] ==> DecodedAt(RowVars(row, values), c) == row
    ensures (c >= |values| || !values[c]) ==> forall j :: 0 <= j < |values| ==> !WritesTo(RowVars(row, values)[j], c)
  {
    var vs := RowVars(row, values);
    forall j | 0 <= j < |values|
      ensures ActionOf(vs[j]) == if values[j] then Write(j, row) else Skip
    {
      ActionOfNames(row, j, 0, values[j]);
    }
    if c < |values| && values[c] {
      DecodedAtLastWriter(vs, c, c);
    }
  }

  lemma {:induction false} XVarsInRange(x: seq<seq<bool>>, cc: nat)
    requires forall f :: 0 <= f < |x| ==> |x[f]| == cc
    ensures forall j :: 0 <= j < |XVars(x)| ==> ActionOf(XVars(x)[j]).Skip? || (ActionOf(XVars(x)[j]).Write? && ActionOf(XVars(x)[j]).customer < cc)
  {
    if |x| > 0 {
      var n := |x| - 1;
      XVarsInRange(x[..n], cc);
      var a, b := XVars(x[..n]), RowVars(n, x[n]);
      RowVarsWrites(n, x[n], 0);
      assert forall j :: |a| <= j < |a + b| ==> (a + b)[j] == b[j - |a|];
    }
  }

  lemma {:induction false} XVarsDecode(x: seq<seq<bool>>, cc: nat, c: nat)
    requires forall f :: 0 <= f < |x| ==> |x[f]| == cc
    requires c < cc
    ensures DecodedAt(XVars(x), c) == LastPositiveRow(x, c)
  {
    if |x| > 0 {
      var n := |x| - 1;
      XVarsDecode(x[..n], cc, c);
      var a, b := XVars(x[..n]), RowVars(n, x[n]);
      RowVarsWrites(n, x[n], c);
      DecodedAtAppend(a, b, c);
      assert forall j :: |a| <= j < |a + b| ==> (a + b)[j] == b[j - |a|];
      if x[n][c] {
        assert WritesTo(b[c], c);
      }
    }
  }

  /**
   * Decoding the solver's variables: no variable makes the decoder fail, a
   * customer whose assignment variable is positive for exactly one facility
   * gets that facility, and a customer with no positive assignment variable
   * keeps -1.
   */
  lemma DecodeModelVariables(x: seq<seq<bool>>, y: seq<bool>, cc: nat)
    requires forall f :: 0 <= f < |x| ==> |x[f]| == cc
    ensures forall j :: 0 <= j < |ModelVariables(x, y)| ==> !Faulty(ModelVariables(x, y)[j], cc)
    ensures forall c, f :: 0 <= c < cc && 0 <= f < |x| && x[f][c] && (forall g :: 0 <= g < |x| && x[g][c] ==> g == f)
              ==> DecodedAt(ModelVariables(x, y), c) == f
    ensures forall c :: 0 <= c < cc && (forall g :: 0 <= g < |x| ==> !x[g][c]) ==> DecodedAt(ModelVariables(x, y), c) == -1
  {
    var a, b := XVars(x), YVars(y);
    forall j | 0 <= j < |b|
      ensures ActionOf(b[j]) == Skip
    {
      ActionOfNames(0, 0, j, y[j]);
    }
    assert forall j :: |a| <= j < |a + b| ==> (a + b)[j] == b[j - |a|];
    XVarsInRange(x, cc);
    forall c | 0 <= c < cc
      ensures DecodedAt(a + b, c) == LastPositiveRow(x, c)
    {
      XVarsDecode(x, cc, c);
      DecodedAtAppend(a, b, c);
    }
  }
}
