/**
 * The problem data (the records Point, Facility and Customer) and the part of
 * `solve_it` that builds them from the instance text.  The text arrives
 * already cut into lines and each line into whitespace-separated tokens
 * (`input_data.split("\n")`, then `line.split()`); `float(token)` is the
 * parameter `toReal`, None standing for its ValueError.
 */
module Problem {
  import opened Wrappers
  import opened Decimal

  datatype Point = Point(x: real, y: real)

  datatype Facility = Facility(index: int, setupCost: real, capacity: int, location: Point)

  datatype Customer = Customer(index: int, demand: int, location: Point)

  datatype Instance = Instance(facilityCount: int, customerCount: int, facilities: seq<Facility>, customers: seq<Customer>)

  /** The exceptions reading can raise, with the list index of the line (as the code computes it) and the token position. */
  datatype ReadError =
    | MissingLine(line: int)               // lines[line]: IndexError
    | MissingField(line: int, field: nat)  // parts[field]: IndexError
    | BadNumber(line: int, field: nat)     // int(...) or float(...): ValueError

  /** `xs[i]` with Python's reading of a negative index as counted from the end; None is the IndexError. */
  function PyIndex<T>(xs: seq<T>, i: int): (r: Option<T>)
    ensures 0 <= i < |xs| ==> r == Some(xs[i])
    ensures -|xs| <= i < 0 ==> r == Some(xs[|xs| + i])
    ensures r.None? <==> i >= |xs| || i < -|xs|
  {
    if 0 <= i < |xs| then Some(xs[i])
    else if -|xs| <= i < 0 then Some(xs[|xs| + i])
    else None
  }

  function Line(lines: seq<seq<string>>, i: int): (r: Result<seq<string>, ReadError>)
    ensures r.Success? <==> (-|lines| <= i < |lines|)
    ensures r.Success? ==> r.value == lines[if i < 0 then i + |lines| else i]
    ensures r.Failure? ==> r.error == MissingLine(i)
  {
    match PyIndex(lines, i)
    case Some(parts) => Success(parts)
    case None => Failure(MissingLine(i))
  }

  /** `int(parts[k])` on line `line`. */
  function IntField(line: int, parts: seq<string>, k: nat): (r: Result<int, ReadError>)
    ensures r.Success? <==> k < |parts| && ParseInt(parts[k]).Some?
    ensures r.Success? ==> r.value == ParseInt(parts[k]).value
    ensures r.Failure? ==> r.error == (if k < |parts| then BadNumber(line, k) else MissingField(line, k))
  {
    if k >= |parts| then Failure(MissingField(line, k))
    else match ParseInt(parts[k])
      case Some(v) => Success(v)
      case None => Failure(BadNumber(line, k))
  }

  /** `float(parts[k])` on line `line`. */
  function RealField(line: int, parts: seq<string>, k: nat, toReal: string -> Option<real>): (r: Result<real, ReadError>)
    ensures r.Success? <==> k < |parts| && toReal(parts[k]).Some?
    ensures r.Success? ==> r.value == toReal(parts[k]).value
    ensures r.Failure? ==> r.error == (if k < |parts| then BadNumber(line, k) else MissingField(line, k))
  {
    if k >= |parts| then Failure(MissingField(line, k))
    else match toReal(parts[k])
      case Some(v) => Success(v)
      case None => Failure(BadNumber(line, k))
  }

  /** The first line: facility_count and customer_count. */
  function Header(lines: seq<seq<string>>): (r: Result<(int, int), ReadError>)
    ensures r.Success? <==> |lines| > 0 && |lines[0]| >= 2 && ParseInt(lines[0][0]).Some? && ParseInt(lines[0][1]).Some?
    ensures r.Success? ==> r.value == (ParseInt(lines[0][0]).value, ParseInt(lines[0][1]).value)
    ensures r.Failure? ==> r.error.line == 0
    ensures r.Failure? ==> (r.error.MissingLine? <==> |lines| == 0)
  {
    var parts :- Line(lines, 0);
    var facilityCount :- IntField(0, parts, 0);
    var customerCount :- IntField(0, parts, 1);
    Success((facilityCount, customerCount))
  }

  /** The facility read from `lines[i]`: setup cost, capacity, x, y; its index is i - 1. Fields are converted left to right. */
  function FacilityRecord(lines: seq<seq<string>>, i: int, toReal: string -> Option<real>): (r: Result<Facility, ReadError>)
    ensures r.Success? <==> (PyIndex(lines, i).Some? && |PyIndex(lines, i).value| >= 4
              && toReal(PyIndex(lines, i).value[0]).Some? && ParseInt(PyIndex(lines, i).value[1]).Some?
              && toReal(PyIndex(lines, i).value[2]).Some? && toReal(PyIndex(lines, i).value[3]).Some?)
    ensures r.Failure? ==> r.error.line == i
    ensures r.Failure? ==> (r.error.MissingLine? <==> PyIndex(lines, i).None?)
    ensures r.Success? ==> r.value.index == i - 1
    ensures r.Success? ==> PyIndex(lines, i).Some? && |PyIndex(lines, i).value| >= 4
    ensures r.Success? ==> var parts := PyIndex(lines, i).value;
              toReal(parts[0]) == Some(r.value.setupCost) && ParseInt(parts[1]) == Some(r.value.capacity)
              && toReal(parts[2]) == Some(r.value.location.x) && toReal(parts[3]) == Some(r.value.location.y)
  {
    var parts :- Line(lines, i);
    var setupCost :- RealField(i, parts, 0, toReal);
    var capacity :- IntField(i, parts, 1);
    var x :- RealField(i, parts, 2, toReal);
    var y :- RealField(i, parts, 3, toReal);
    Success(Facility(i - 1, setupCost, capacity, Point(x, y)))
  }

  /** The customer read from `lines[i]`: demand, x, y; its index is i - 1 - facilityCount. */
  function CustomerRecord(lines: seq<seq<string>>, i: int, facilityCount: int, toReal: string -> Option<real>): (r: Result<Customer, ReadError>)
    ensures r.Success? <==> (PyIndex(lines, i).Some? && |PyIndex(lines, i).value| >= 3
              && ParseInt(PyIndex(lines, i).value[0]).Some?
              && toReal(PyIndex(lines, i).value[1]).Some? && toReal(PyIndex(lines, i).value[2]).Some?)
    ensures r.Failure? ==> r.error.line == i
    ensures r.Failure? ==> (r.error.MissingLine? <==> PyIndex(lines, i).None?)
    ensures r.Success? ==> r.value.index == i - 1 - facilityCount
    ensures r.Success? ==> PyIndex(lines, i).Some? && |PyIndex(lines, i).value| >= 3
    ensures r.Success? ==> var parts := PyIndex(lines, i).value;
              ParseInt(parts[0]) == Some(r.value.demand)
              && toReal(parts[1]) == Some(r.value.location.x) && toReal(parts[2]) == Some(r.value.location.y)
  {
    var parts :- Line(lines, i);
    var demand :- IntField(i, parts, 0);
    var x :- RealField(i, parts, 1, toReal);
    var y :- RealField(i, parts, 2, toReal);
    Success(Customer(i - 1 - facilityCount, demand, Point(x, y)))
  }

  function Count(n: int): nat {
    if n < 0 then 0 else n
  }

  /** Facility records 0..k-1 read without error from lines 1..k. */
  ghost predicate FacilitiesReadable(lines: seq<seq<string>>, k: nat, toReal: string -> Option<real>) {
    forall i :: 1 <= i <= k ==> FacilityRecord(lines, i, toReal).Success?
  }

  /** Customer records 0..k-1 read without error from the k lines after the facility lines. */
  ghost predicate CustomersReadable(lines: seq<seq<string>>, facilityCount: int, k: nat, toReal: string -> Option<real>) {
    forall i :: facilityCount + 1 <= i < facilityCount + 1 + k ==> CustomerRecord(lines, i, facilityCount, toReal).Success?
  }

  /**
   * The reading part of `solve_it`.  On success: one facility per line
   * 1..facility_count and one customer per line facility_count+1 ..
   * facility_count+customer_count, in input order, with the dense indices
   * 0, 1, 2, ... in that order.  On failure: the exception raised by the
   * header, else by the first unreadable facility line, else by the first
   * unreadable customer line.
   */
  method ReadInstance(lines: seq<seq<string>>, toReal: string -> Option<real>) returns (r: Result<Instance, ReadError>)
    ensures r.Success? ==> Header(lines) == Success((r.value.facilityCount, r.value.customerCount))
    ensures r.Success? ==> |r.value.facilities| == Count(r.value.facilityCount)
    ensures r.Success? ==> forall k :: 0 <= k < |r.value.facilities| ==>
              r.value.facilities[k].index == k && FacilityRecord(lines, k + 1, toReal) == Success(r.value.facilities[k])
    ensures r.Success? ==> |r.value.customers| == Count(r.value.customerCount)
    ensures r.Success? ==> forall k :: 0 <= k < |r.value.customers| ==>
              r.value.customers[k].index == k
              && CustomerRecord(lines, r.value.facilityCount + 1 + k, r.value.facilityCount, toReal) == Success(r.value.customers[k])
    ensures r.Failure? && Header(lines).Failure? ==> r.error == Header(lines).error
    ensures r.Failure? && Header(lines).Success? ==>
              var (facilityCount, customerCount) := Header(lines).value;
              if !FacilitiesReadable(lines, Count(facilityCount), toReal) then
                exists i :: 1 <= i <= facilityCount && FacilitiesReadable(lines, i - 1, toReal)
                  && FacilityRecord(lines, i, toReal) == Failure(r.error)
              else
                exists i :: facilityCount + 1 <= i < facilityCount + 1 + customerCount
                  && CustomersReadable(lines, facilityCount, i - 1 - facilityCount, toReal)
                  && CustomerRecord(lines, i, facilityCount, toReal) == Failure(r.error)
    ensures (Header(lines).Success? && FacilitiesReadable(lines, Count(Header(lines).value.0), toReal)
              && CustomersReadable(lines, Header(lines).value.0, Count(Header(lines).value.1), toReal)) ==> r.Success?
  {
    var header := Header(lines);
    if header.Failure? {
      return Failure(header.error);
    }
    var (facilityCount, customerCount) := header.value;

    var facilities: seq<Facility> := [];
    var i := 1;
    while i < facilityCount + 1
      invariant 1 <= i <= Count(facilityCount) + 1
      invariant |facilities| == i - 1
      invariant FacilitiesReadable(lines, i - 1, toReal)
      invariant forall k :: 0 <= k < |facilities| ==> facilities[k].index == k && FacilityRecord(lines, k + 1, toReal) == Success(facilities[k])
    {
      var record := FacilityRecord(lines, i, toReal);
      if record.Failure? {
        return Failure(record.error);
      }
      facilities := facilities + [record.value];
      i := i + 1;
    }

    var customers: seq<Customer> := [];
    i := facilityCount + 1;
    while i < facilityCount + 1 + customerCount
      invariant facilityCount + 1 <= i
      invariant i <= facilityCount + 1 + Count(customerCount)
      invariant |customers| == i - 1 - facilityCount
      invariant CustomersReadable(lines, facilityCount, |customers|, toReal)
      invariant forall k :: 0 <= k < |customers| ==>
                  customers[k].index == k && CustomerRecord(lines, facilityCount + 1 + k, facilityCount, toReal) == Success(customers[k])
    {
      var record := CustomerRecord(lines, i, facilityCount, toReal);
      if record.Failure? {
        return Failure(record.error);
      }
      customers := customers + [record.value];
      i := i + 1;
    }
    return Success(Instance(facilityCount, customerCount, facilities, customers));
  }
}
