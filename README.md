# Capacitated facility location: a Dafny model of the solver's bookkeeping

This project models the integer and string bookkeeping in `solver.py`, a
solver for the Capacitated Facility Location Problem. Customers with an
integer demand are assigned to facilities that have an integer capacity
and a setup cost. The model covers four pieces:

- **The greedy assigner** (`greedy`). It walks the customers in order with
  one facility pointer and keeps the remaining capacity of every facility in
  a list that it updates in place. When the current facility is too small,
  it moves the pointer one facility on and asserts that the next facility
  holds the customer. Then it marks the used facilities and sums their
  setup costs. `Greedy.Greedy` is a method over arrays. Its contract ties the
  result to the greedy rule (`Greedy.Next`, `Greedy.IsGreedyRun`), and
  lemmas prove what the rule guarantees: every customer gets a facility in
  range, the pointer moves forward by at most one facility per customer, no
  used facility goes over capacity, the run is deterministic, and failure
  happens exactly in the assert and index-error cases.
- **Solver variable names and the decode loop** (`gurobi`). Assignment
  variables are named `"x <facility>-<customer>"` and opening variables
  `"y<i>"`. The decoder skips names that contain `y`, takes the digit runs
  of the other names, and writes `solution[customer] = facility` for every
  variable with a positive value. `MipNames.Decode` is that loop over an
  array. Its result is tied to `MipNames.DecodedAt` (the last write wins),
  and it fails exactly at the first variable that raises an IndexError.
  `MipNames.DecodeModelVariables` proves that decoding the solver's own
  variable list gives each customer the single facility whose variable is
  positive, and -1 when there is none.
- **The output formatter** (`output`). It writes the objective text and the
  constant flag `0` on the first line, then the assignment joined by single
  spaces. Splitting the output gives back the two lines, and splitting the
  second line and reading each token with `int` gives back the assignment.
- **Reading the instance** (`solve_it`). The header gives the two counts.
  Facility records come from lines 1..facility_count and customer records
  from the lines after them. Both receive the dense indices 0, 1, 2, ... in
  input order. `Problem.ReadInstance` is the reading loop over
  pre-tokenised lines. `float` is a parameter `toReal` (None is its
  ValueError). Python's reading of a negative list index from the end is
  modelled, because a negative count in the header makes the code index
  lines that way.

Python integers are unbounded, and so are Dafny's `int`, so no wrap-around
is involved. Setup costs and coordinates are `real`.

Three behaviours one might expect of such a solver are not what the code
does, and the model follows the code:

- One might expect a facility or customer count of 0 to be rejected as a
  malformed instance. The reader accepts it. With no facilities, the greedy
  run stops with an index error at the first customer.
- One might expect the decoder to pick any facility whose variable is
  positive for a customer. It writes every such facility in turn, so the
  last one in variable order wins.
- One might expect the greedy run to report a failure as a result. It
  crashes instead, on a failed `assert` or an `IndexError`. The model names
  these two crashes `AssertionFailed` and `IndexOutOfRange`.

## Model

| member | source | states |
|---|---|---|
| `Decimal.NatToString` | solver.py:57 | `%i` / `str` of a non-negative integer is a non-empty digit string without a leading zero |
| `Decimal.ParseNatToString` | solver.py:82 | `int` applied to the numeral written by `%i` gives the number back |
| `Decimal.ParseNat` | solver.py:82 | `int` of a string of `k` decimal digits is a natural number below 10^k |
| `Decimal.IntToString` | solver.py:15 | `str` of an integer starts with a minus sign exactly when the integer is negative; the rest is a non-empty digit string without a leading zero (the -1 sentinel can reach the output) |
| `Decimal.ParseInt` | solver.py:97-98 | `int(token)` succeeds exactly on a non-empty digit string, optionally after one sign |
| `Decimal.ParseIntToString` | solver.py:15 | reading `str(n)` with `int` gives `n` back, for negative `n` too |
| `Output.Join` | solver.py:15 | `' '.join`: the text holds only separators and characters of the tokens, starts with the first token, and a separator follows it when there is more than one token |
| `Output.Split` | solver.py:15 | `str.split` on one separator: at least one part, no part contains the separator, and text without a separator is its own single part |
| `Output.Format` | solver.py:13-16 | `output`: the objective text, then exactly " 0" and a newline, then the assignment line, and nothing else |
| `Output.Tokens` | solver.py:15 | `map(str, solution)` has one token per customer |
| `Output.AssignmentLine` | solver.py:15 | `' '.join(map(str, solution))` is empty exactly when there are no customers, and holds only spaces, minus signs and digits, so it stays on one line |
| `Output.SplitJoin` | solver.py:15 | splitting a separator-joined list of separator-free tokens gives the tokens back |
| `Output.AssignmentLineRoundTrip` | solver.py:15 | the second line holds one decimal token per customer, in customer order; splitting it on spaces and reading each token gives the assignment back; with no customers it is empty |
| `Output.FormatLines` | solver.py:13-16 | the output is exactly two lines: the objective text followed by the flag `0`, then the assignment line |
| `MipNames.XName` | solver.py:57 | an assignment variable's name starts with "x " and contains no `y` |
| `MipNames.YName` | solver.py:60 | an opening variable's name is `y` followed by a non-empty digit string |
| `MipNames.ActionOf` | solver.py:80-82 | a variable is skipped exactly when it is not positive or its name contains `y`; otherwise the decoder fails exactly when the name has fewer than two digit runs, and writes the first run as the facility of the customer given by the second run |
| `MipNames.LeadingDigits` | solver.py:81 | the count of leading digits is bounded by the length, covers only digits, and stops before a non-digit |
| `MipNames.DigitRuns` | solver.py:81-82 | every run `findall("\d+")` returns is a non-empty digit string |
| `MipNames.DigitRunsCons` | solver.py:81-82 | a digit run ended by a non-digit is the next run found |
| `MipNames.DigitRunsOfXName` | solver.py:57 | the digit runs of `"x r-c"` are exactly the numerals of `r` and `c` |
| `MipNames.ActionOfNames` | solver.py:57-60 | no `"x r-c"` name contains `y` and every `"y<i>"` name does; a positive `"x r-c"` decodes as writing facility `r` for customer `c`; opening variables and non-positive variables are skipped |
| `MipNames.Decode` | solver.py:78-82 | starting from `[-1]*count`, the solution holds for every customer the value of the last positive variable naming it; the loop fails exactly at the first variable with fewer than two numbers or a customer index past the end |
| `MipNames.DecodedAtNoWriter` | solver.py:78 | a customer named by no positive variable keeps -1 |
| `MipNames.DecodedAtLastWriter` | solver.py:79-82 | a customer gets the facility of the last positive variable naming it, so with exactly one such variable it gets that facility |
| `MipNames.DecodedAtAppend` | solver.py:79-82 | variables that do not name a customer leave its entry unchanged; later writes override earlier ones |
| `MipNames.LastPositiveRow` | solver.py:55-57 | the last facility whose assignment variable for a customer is positive, or -1 when none is |
| `MipNames.RowVarsWrites` | solver.py:56-57 | the variables of one facility write that facility exactly for the customers whose value is positive |
| `MipNames.RowVars` | solver.py:55-57 | one facility's assignment variables: one per customer, positive exactly where that customer's value is, none with a `y` in its name |
| `MipNames.XVars` | solver.py:55-57 | all assignment variables, facility by facility: at least as many as the last facility has customers, and none with a `y` in its name, so the decode loop never skips one for its name |
| `MipNames.YVars` | solver.py:60 | the opening variables: one per facility, positive exactly where that facility's value is, and every one skipped by the decode loop |
| `MipNames.ModelVariables` | solver.py:79 | `m.getVars()`: the assignment variables followed by the opening variables; the former have no `y` in their names, and the decode loop skips every one of the latter |
| `MipNames.XVarsInRange` | solver.py:55-57 | every assignment variable names a customer below the customer count |
| `MipNames.XVarsDecode` | solver.py:55-57 | decoding the assignment variables gives each customer the last facility whose variable is positive |
| `MipNames.DecodeModelVariables` | solver.py:55-82 | decoding the solver's variables in creation order never fails; a customer with exactly one positive assignment variable gets that facility, and one with none keeps -1 |
| `Problem.PyIndex` | solver.py:102 | `lines[i]` with Python's negative indices: defined exactly for `-len <= i < len`; the element itself for `0 <= i < len`, and the element `len + i` for a negative `i` |
| `Problem.Line` | solver.py:95-107 | `lines[i]`: defined exactly for `-len <= i < len`, giving the line Python's indexing picks; otherwise the error names the missing line `i` |
| `Problem.IntField` | solver.py:97-107 | `int(parts[k])`: succeeds exactly when token `k` exists and is an integer numeral, and gives its value; otherwise a missing field if there are at most `k` tokens, or else a bad number, naming the line and `k` |
| `Problem.RealField` | solver.py:103-107 | `float(parts[k])`: succeeds exactly when token `k` exists and the float conversion accepts it; otherwise a missing field if there are at most `k` tokens, or else a bad number, naming the line and `k` |
| `Problem.Header` | solver.py:96-98 | the header reads exactly when there is a first line whose first two tokens are integers, and gives those two integers; its errors name line 0, and the error is a missing line exactly when there are no lines |
| `Problem.FacilityRecord` | solver.py:102-103 | reading `lines[i]` succeeds exactly when the line exists, has at least four tokens, and tokens 0, 2, 3 convert with `float` and token 1 with `int`; the facility then has index `i - 1` and takes setup cost, capacity, x and y from those tokens; its errors name line `i`, and the error is a missing line exactly when `lines[i]` does not exist |
| `Problem.CustomerRecord` | solver.py:106-107 | reading `lines[i]` succeeds exactly when the line exists, has at least three tokens, and token 0 converts with `int` and tokens 1, 2 with `float`; the customer then has index `i - 1 - facility_count` and takes demand, x and y from those tokens; its errors name line `i`, and the error is a missing line exactly when `lines[i]` does not exist |
| `Problem.ReadInstance` | solver.py:95-107 | facility `k` comes from line `k+1` and customer `k` from line `facility_count+1+k`, each with index `k`, in input order and as many as the header says; on failure the error is that of the header, else the first unreadable facility line, else the first unreadable customer line; no error when every line reads |
| `Greedy.Greedy` | solver.py:18-37 | on success: one facility per customer, all in range, chosen by the greedy rule; no used facility over capacity; `used[f]` is 1 exactly for facilities with a customer; the setup sum is the setup cost of exactly those; on failure: the stopping customer, reached by the same rule |
| `Greedy.Next` | solver.py:24-31 | one step of the loop: a chosen facility is in range, is the current facility or the next one, and has room for the customer's demand; the pointer moves on only when the current facility lacks that room |
| `Greedy.Load` | solver.py:20-31 | the demand already placed on facility `f` (`capacity_remaining` subtracted from the capacity): zero when no customer so far is on `f`, and non-negative when the demands are |
| `Greedy.Pointer` | solver.py:20-31 | `facility_index` after the customers in `run`: 0 before any customer, otherwise one of the facilities the run used |
| `Greedy.SetupSum` | solver.py:37 | `sum(f.setup_cost * used[f.index])`: zero when no facility is flagged, never negative when setup costs and flags are not |
| `Greedy.RunExtend` | solver.py:23-31 | one more step of the rule extends a run, moves the pointer to the chosen facility and adds the demand to its load only |
| `Greedy.GreedyRunInRange` | solver.py:19-31 | every entry of the assignment is a facility index in `[0, len(facilities))`, so no -1 is left |
| `Greedy.GreedyRunMonotone` | solver.py:22-31 | the first customer goes to facility 0 or 1, each next customer to the same or the next facility, so the assignment is non-decreasing |
| `Greedy.GreedyRunPrefix` | solver.py:23 | a prefix of a run is a run |
| `Greedy.LoadBeyondPointer` | solver.py:20 | a facility past the pointer has no customer yet, so its remaining capacity is its full capacity |
| `Greedy.GreedyRunCapacity` | solver.py:24-31 | for every facility that receives a customer, the assigned demand is at most its capacity (remaining capacity never goes negative) |
| `Greedy.StopConditions` | solver.py:24-29 | the assert fails exactly when the current facility is too small and the next one's whole capacity is below the demand; the index error happens exactly when there are no facilities, or the current facility is too small and is the last one |
| `Greedy.GreedyRunDeterministic` | solver.py:18-31 | two runs over the same input agree: the greedy assignment is unique |
| `Greedy.SetupSumOpened` | solver.py:32-37 | the flag-weighted sum of setup costs equals the setup cost of exactly the facilities that received a customer |
| `Greedy.StopExcludesCompleteRun` | solver.py:23-31 | a run that stops at some customer rules out a complete run over the same input, so success and failure never both apply |
| `Greedy.SingleFacilityScenario` | solver.py:18-37 | one facility of capacity 10 and customers of demand 3 and 4: the run `[0, 0]` exists, every greedy run of length 2 on that instance equals `[0, 0]`, and the setup part of `[0, 0]` is 5 |
| `Greedy.OversizedDemandScenario` | solver.py:28-29 | two facilities of capacity 5 and a customer of demand 10: the run stops on the assert |

## Left out

- Greedy.Greedy: the distance part of the objective (solver.py:38-39) and the final `output(obj, solution)` call are not modelled. `length` uses floating-point `sqrt`. The method returns the assignment, the used flags and the setup part of the objective. The assignment line that `output` would print is `Output.AssignmentLine` of the returned assignment.
- `length` (solver.py:89-90): floating-point square root; not modelled.
- Output.Format: the objective is passed in as already-formatted text. The `'%.2f'` rounding of a float (solver.py:14) is not modelled.
- Problem.ReadInstance: `float(...)` is the parameter `toReal`. The cutting of the input text into lines and tokens (`split("\n")`, `split()`) is done before the model sees it.
- Decimal.ParseInt: Python's `int` also accepts underscores between digits and non-ASCII digits; these are not modelled.
- Decimal.ParseInt: CPython 3.11 and later refuse `int` and `str` on numerals longer than 4300 digits, so "exactly" holds only for numerals below that limit; the model has no such limit.
- Greedy.SetupSum: setup costs are exact `real` numbers. The float sum at solver.py:37 rounds, and a setup cost of `float('inf')` times a 0 flag gives `nan`; float rounding, `inf` and `nan` are not modelled.
- Greedy.Greedy: the model assumes `assert` statements run. Under `python -O` the assert at solver.py:29 is removed, and the next facility is then filled even when it is too small; that behaviour is not modelled.
- MipNames.DigitRuns: `\d` also matches non-ASCII digits in Python; only ASCII digits are modelled (the generated names hold no others).
- Building and solving the MIP (solver.py:46-77, 83): these are calls into the external solver library. The solver's answer is modelled only as the list of variables with a name and a flag for a positive value, in creation order (`MipNames.ModelVariables`). The objective the solver reports is not modelled.
- The `GurobiError` and `AttributeError` handlers (solver.py:84-87) only print and return None; not modelled.
- The choice of method in `solve_it` (solver.py:108-115) is a constant switch with prints. The reading part is modelled; the dispatch is not.
- File reading, command-line arguments and printing (solver.py:117-127): I/O, not modelled.
