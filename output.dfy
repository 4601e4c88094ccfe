/**
 * The result formatter `output(obj, solution)`: a first line holding the
 * objective and the constant flag 0, and a second line holding the facility
 * of every customer, separated by single spaces.
 */
module Output {
  import opened Wrappers
  import opened Decimal

  /** `sep.join(tokens)` with a one-character separator. */
  function Join(tokens: seq<string>, sep: char): (s: string)
    ensures forall ch :: ch in s ==> ch == sep || exists i :: 0 <= i < |tokens| && ch in tokens[i]
    ensures |tokens| > 0 ==> |s| >= |tokens[0]| && s[..|tokens[0]|] == tokens[0]
    ensures |tokens| > 1 ==> |s| > |tokens[0]| && s[|tokens[0]|] == sep
  {
    if |tokens| == 0 then ""
    else if |tokens| == 1 then tokens[0]
    else tokens[0] + [sep] + Join(tokens[1..], sep)
  }

  /** `s.split(sep)` with a one-character separator: every separator cuts, so there is always one more part than separators. */
  function Split(s: string, sep: char): (parts: seq<string>)
    ensures |parts| >= 1
    ensures forall i :: 0 <= i < |parts| ==> sep !in parts[i]
    ensures sep !in s ==> parts == [s]
  {
    if |s| == 0 then [""]
    else if s[0] == sep then [""] + Split(s[1..], sep)
    else
      var rest := Split(s[1..], sep);
      assert [s[0]] + s[1..] == s;
      [[s[0]] + rest[0]] + rest[1..]
  }

  /** `map(str, solution)`. */
  function Tokens(solution: seq<int>): (ts: seq<string>)
    ensures |ts| == |solution|
  {
    seq(|solution|, i requires 0 <= i < |solution| => IntToString(solution[i]))
  }

  /** The second output line. */
  function AssignmentLine(solution: seq<int>): (line: string)
    ensures line == [] <==> |solution| == 0
    ensures forall ch :: ch in line ==> ch == ' ' || ch == '-' || IsDigit(ch)
  {
    var tokens := Tokens(solution);
    forall i, ch | 0 <= i < |tokens| && ch in tokens[i]
      ensures ch == '-' || IsDigit(ch)
    {
      var t := tokens[i];
      var k :| 0 <= k < |t| && t[k] == ch;
      if k > 0 && solution[i] < 0 {
        assert t[1..][k - 1] == ch;
      }
    }
    Join(tokens, ' ')
  }

  /**
   * `output(obj, solution)`; `objective` is the text `'%.2f' % obj`, whose
   * rounding of a float is not modelled.
   */
  function Format(objective: string, solution: seq<int>): (out: string)
    ensures |out| == |objective| + 3 + |AssignmentLine(solution)|
    ensures out[..|objective|] == objective
    ensures out[|objective|..|objective| + 3] == " 0\n"
    ensures out[|objective| + 3..] == AssignmentLine(solution)
  {
    objective + " " + IntToString(0) + "\n" + AssignmentLine(solution)
  }

  lemma {:induction false} SplitAtSeparator(t: string, sep: char, u: string)
    requires sep !in t
    ensures Split(t + [sep] + u, sep) == [t] + Split(u, sep)
  {
    if |t| == 0 {
      assert t + [sep] + u == [sep] + u;
      assert ([sep] + u)[1..] == u;
    } else {
      SplitAtSeparator(t[1..], sep, u);
      assert (t + [sep] + u)[1..] == t[1..] + [sep] + u;
      assert [t[0]] + t[1..] == t;
    }
  }

  lemma {:induction false} SplitJoin(tokens: seq<string>, sep: char)
    requires |tokens| >= 1
    requires forall i :: 0 <= i < |tokens| ==> sep !in tokens[i]
    ensures Split(Join(tokens, sep), sep) == tokens
  {
    if |tokens| > 1 {
      SplitJoin(tokens[1..], sep);
      SplitAtSeparator(tokens[0], sep, Join(tokens[1..], sep));
      assert [tokens[0]] + tokens[1..] == tokens;
    }
  }

  /**
   * The assignment line holds one decimal token per customer, in customer
   * order; splitting it on single spaces and reading each token with `int`
   * gives the assignment back.  With no customers the line is empty.
   */
  lemma AssignmentLineRoundTrip(solution: seq<int>)
    ensures |solution| == 0 ==> AssignmentLine(solution) == ""
    ensures |solution| > 0 ==> Split(AssignmentLine(solution), ' ') == Tokens(solution)
    ensures forall i :: 0 <= i < |solution| ==> ParseInt(Tokens(solution)[i]) == Some(solution[i])
  {
    var ts := Tokens(solution);
    forall i | 0 <= i < |ts|
      ensures ' ' !in ts[i] && ParseInt(ts[i]) == Some(solution[i])
    {
      ParseIntToString(solution[i]);
    }
    if |solution| > 0 {
      SplitJoin(ts, ' ');
    }
  }

  /**
   * Splitting the whole output on newlines gives exactly two lines: the
   * objective text followed by the flag token "0", and the assignment line.
   */
  lemma FormatLines(objective: string, solution: seq<int>)
    requires '\n' !in objective
    ensures Split(Format(objective, solution), '\n') == [objective + " 0", AssignmentLine(solution)]
  {
    var ts := Tokens(solution);
    forall i | 0 <= i < |ts|
      ensures '\n' !in ts[i]
    {
    }
    assert Format(objective, solution) == (objective + " 0") + ['\n'] + AssignmentLine(solution);
    SplitAtSeparator(objective + " 0", '\n', AssignmentLine(solution));
  }
}
