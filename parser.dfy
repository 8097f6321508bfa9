/** Reading the data file: the `mapVehicle` function that turns one comma-separated line into a
    vehicle, and the loader that skips the header line and maps every other line in order. */
module Parser {
  import opened Wrappers
  import opened Numerals
  import opened Decimals
  import opened Text
  import opened Vehicles

  /** `DEFAULT_SEPARATOR` */
  const SEPARATOR: char := ','

  /** The values a row hands to the `Vehicle` constructor. */
  datatype Row = Row(year: int, make: string, model: string, msrp: Decimal)

  /** What a vehicle's getters return. */
  function Fields(v: Vehicle): Row
  {
    Row(v.year, v.make, v.model, v.msrp)
  }

  /** The row for the fields of one line, or `Failure(i)` when reading field `i` runs past the end
      of the array (an ArrayIndexOutOfBoundsException, which nothing in `mapVehicle` catches).
      Fields 1 and 2 are read first and unconditionally; field 3 only when field 0 is not empty,
      because `||` stops at an empty field 0. Year and price start at -1 and keep it unless both
      fields 0 and 3 are non-empty; a NumberFormatException from `Integer.parseInt` leaves both
      at -1, one from `new BigDecimal` keeps the year already assigned. */
  function MapFields(attrs: seq<string>): (r: Result<Row, nat>)
    ensures r.Failure? <==> |attrs| < 3 || (|attrs| == 3 && attrs[0] != "")
    ensures r.Failure? ==> 1 <= r.error <= 3 && r.error >= |attrs|
    ensures r.Success? ==> r.value.make == attrs[1] && r.value.model == attrs[2]
    ensures r.Success? ==> IsInt32(r.value.year)
  {
    if |attrs| <= 1 then Failure(1)
    else if |attrs| == 2 then Failure(2)
    else if attrs[0] == "" then Success(Row(-1, attrs[1], attrs[2], MINUS_ONE))
    else if |attrs| == 3 then Failure(3)
    else if attrs[3] == "" then Success(Row(-1, attrs[1], attrs[2], MINUS_ONE))
    else
      match ParseInt(attrs[0])
      case None => Success(Row(-1, attrs[1], attrs[2], MINUS_ONE))
      case Some(year) =>
        match Parse(attrs[3])
        case None => Success(Row(year, attrs[1], attrs[2], MINUS_ONE))
        case Some(msrp) => Success(Row(year, attrs[1], attrs[2], msrp))
  }

  /** The pure part of `mapVehicle`: `line.split(",", -1)`, then the fields. */
  function ParseRow(line: string): Result<Row, nat>
  {
    MapFields(Split(line, SEPARATOR))
  }

  /** An empty year field or an empty price field gives year -1 and price -1, whatever the
      other fields hold. An empty year field is enough on a line of three fields, because `||`
      then never reads field 3. */
  lemma EmptyFieldGivesSentinels(attrs: seq<string>)
    requires |attrs| >= 3 && (attrs[0] == "" || (|attrs| >= 4 && attrs[3] == ""))
    ensures MapFields(attrs).Success?
    ensures MapFields(attrs).value.year == -1 && MapFields(attrs).value.msrp == MINUS_ONE
  {
  }

  /** The fallback runs in statement order: a year that does not parse leaves both numbers at
      -1; a year that parses followed by a price that does not keeps the year; when both parse
      the row holds both. */
  lemma SequentialFallback(attrs: seq<string>)
    requires |attrs| >= 4 && attrs[0] != "" && attrs[3] != ""
    ensures MapFields(attrs).Success?
    ensures ParseInt(attrs[0]).None? ==>
      MapFields(attrs).value.year == -1 && MapFields(attrs).value.msrp == MINUS_ONE
    ensures ParseInt(attrs[0]).Some? ==> MapFields(attrs).value.year == ParseInt(attrs[0]).value
    ensures ParseInt(attrs[0]).Some? && Parse(attrs[3]).None? ==> MapFields(attrs).value.msrp == MINUS_ONE
    ensures ParseInt(attrs[0]).Some? && Parse(attrs[3]).Some? ==> MapFields(attrs).value.msrp == Parse(attrs[3]).value
  {
  }

  lemma ExampleSplit()
    ensures Split("2020,Toyota,Camry,25000", SEPARATOR) == ["2020", "Toyota", "Camry", "25000"]
  {
    var fields := ["2020", "Toyota", "Camry", "25000"];
    assert Join(fields[3..], SEPARATOR) == "25000";
    assert Join(fields[2..], SEPARATOR) == "Camry,25000";
    assert Join(fields[1..], SEPARATOR) == "Toyota,Camry,25000";
    assert Join(fields, SEPARATOR) == "2020,Toyota,Camry,25000";
    SplitJoin(fields, SEPARATOR);
  }

  lemma ExampleNumbers()
    ensures ParseInt("2020") == Some(2020)
    ensures Parse("25000") == Some(Decimal(25000, 0))
  {
    assert DigitsValue("2020") == 2020 by {
      assert "2020"[..3] == "202" && "202"[..2] == "20" && "20"[..1] == "2" && "2"[..0] == "";
    }
    assert DigitsValue("25000") == 25000 by {
      assert "25000"[..4] == "2500" && "2500"[..3] == "250";
      assert "250"[..2] == "25" && "25"[..1] == "2" && "2"[..0] == "";
    }
    ParseWholeNumber("25000");
  }

  /** A line written from a year, a make and a model without commas, and a price with two
      fraction digits reads back as exactly those values. */
  lemma RowRoundTrip(year: int, make: string, model: string, msrp: Decimal)
    requires IsInt32(year) && msrp.scale == 2 && SEPARATOR !in make && SEPARATOR !in model
    ensures ParseRow(Join([IntToString(year), make, model, ToString(msrp)], SEPARATOR))
      == Success(Row(year, make, model, msrp))
  {
    var fields := [IntToString(year), make, model, ToString(msrp)];
    IntTextHasNoSeparator(year);
    PriceTextHasNoSeparator(msrp);
    assert forall i :: 0 <= i < |fields| ==> SEPARATOR !in fields[i];
    SplitJoin(fields, SEPARATOR);
    ParseIntToString(year);
    ParseToString(msrp);
    SequentialFallback(fields);
  }

  /** The text of an `int` is a sign and digits, so it holds no separator. */
  lemma IntTextHasNoSeparator(n: int)
    ensures SEPARATOR !in IntToString(n)
  {
    var r := IntToString(n);
    var digits := NatToDigits(if n < 0 then -n else n);
    forall j | 0 <= j < |r| ensures r[j] != SEPARATOR {
      if n < 0 {
        assert r == "-" + digits;
        if j > 0 {
          assert r[j] == digits[j - 1];
        }
      } else {
        assert r[j] == digits[j];
      }
    }
  }

  /** The text of a price at scale 2 is a sign, digits, a point and digits: no separator. */
  lemma PriceTextHasNoSeparator(d: Decimal)
    requires d.scale == 2
    ensures SEPARATOR !in ToString(d)
  {
    var r := ToString(d);
    var start := if d.unscaled < 0 then 1 else 0;
    forall j | 0 <= j < |r| ensures r[j] != SEPARATOR {
      if j < start {
        assert r[j] == '-';
      } else if j < |r| - 3 {
        assert r[j] == r[start..|r| - 3][j - start];
      } else if j > |r| - 3 {
        assert r[j] == r[|r| - 2..][j - (|r| - 2)];
      }
    }
  }

  /** The first line of the sample data file. */
  lemma ExampleRow()
    ensures ParseRow("2020,Toyota,Camry,25000") == Success(Row(2020, "Toyota", "Camry", Decimal(25000, 0)))
  {
    var attrs := Split("2020,Toyota,Camry,25000", SEPARATOR);
    ExampleSplit();
    ExampleNumbers();
    assert attrs[0] == "2020" && attrs[1] == "Toyota" && attrs[2] == "Camry" && attrs[3] == "25000";
    SequentialFallback(attrs);
  }

  /** `mapVehicle`: parses the line and constructs the vehicle, which takes the next id. When
      the line is too short the index error propagates and no vehicle is constructed. */
  method MapVehicle(line: string, counter: IdCounter) returns (r: Result<Vehicle, nat>)
    modifies counter
    ensures match ParseRow(line)
      case Success(row) =>
        r.Success? && fresh(r.value) && Fields(r.value) == row
        && r.value.id == old(counter.next) && counter.next == old(counter.next) + 1
      case Failure(i) => r == Failure(i) && counter.next == old(counter.next)
  {
    match ParseRow(line)
    case Failure(i) =>
      r := Failure(i);
    case Success(row) =>
      var v := new Vehicle(row.year, row.make, row.model, row.msrp, counter);
      r := Success(v);
  }

  /** `lines().skip(1)`: every line but the header. */
  function SkipHeader(lines: seq<string>): (rows: seq<string>)
    ensures |rows| == if lines == [] then 0 else |lines| - 1
    ensures forall i :: 0 <= i < |rows| ==> rows[i] == lines[i + 1]
  {
    if lines == [] then [] else lines[1..]
  }

  /** The rows of every line when each of them parses, in order; `None` when one throws. */
  function LoadRows(rows: seq<string>): (r: Option<seq<Row>>)
    ensures r.Some? <==> forall i :: 0 <= i < |rows| ==> ParseRow(rows[i]).Success?
    ensures r.Some? ==> |r.value| == |rows|
    ensures r.Some? ==> forall i :: 0 <= i < |rows| ==> ParseRow(rows[i]) == Success(r.value[i])
  {
    if rows == [] then Some([])
    else
      match ParseRow(rows[0])
      case Failure(_) => None
      case Success(row) =>
        match LoadRows(rows[1..])
        case None => None
        case Some(rest) => Some([row] + rest)
  }

  /** How many rows parse before the first one that throws (all of them when none does): the
      number of vehicles the sequential stream constructs before the exception. */
  function Constructed(rows: seq<string>): (k: nat)
    ensures k <= |rows|
    ensures forall i :: 0 <= i < k ==> ParseRow(rows[i]).Success?
    ensures k < |rows| ==> ParseRow(rows[k]).Failure?
  {
    if rows == [] then 0
    else if ParseRow(rows[0]).Failure? then 0
    else 1 + Constructed(rows[1..])
  }

  /** `parseData` over the lines of the file: skip the header, map each other line in order,
      collect. One line that throws makes the whole result empty, while the vehicles built
      before it have already taken their ids. */
  method ParseData(lines: seq<string>, counter: IdCounter) returns (vs: seq<Vehicle>)
    modifies counter
    ensures match LoadRows(SkipHeader(lines))
      case Some(rows) =>
        |vs| == |rows|
        && (forall i :: 0 <= i < |vs| ==> Fields(vs[i]) == rows[i])
        && (forall i :: 0 <= i < |vs| ==> vs[i].id == old(counter.next) + i)
      case None => vs == []
    ensures counter.next == old(counter.next) + Constructed(SkipHeader(lines))
  {
    var rows := SkipHeader(lines);
    vs := [];
    var i := 0;
    while i < |rows|
      invariant 0 <= i <= |rows| && |vs| == i
      invariant forall j :: 0 <= j < i ==> ParseRow(rows[j]) == Success(Fields(vs[j]))
      invariant forall j :: 0 <= j < i ==> vs[j].id == old(counter.next) + j
      invariant counter.next == old(counter.next) + i
    {
      var r := MapVehicle(rows[i], counter);
      if r.Failure? {
        assert Constructed(rows) == i by { ConstructedAt(rows, i); }
        vs := [];
        return;
      }
      vs := vs + [r.value];
      i := i + 1;
    }
    ConstructedAt(rows, i);
  }

  /** `Constructed` is the index of the first row that does not parse. */
  lemma {:induction false} ConstructedAt(rows: seq<string>, k: nat)
    requires k <= |rows|
    requires forall i :: 0 <= i < k ==> ParseRow(rows[i]).Success?
    requires k < |rows| ==> ParseRow(rows[k]).Failure?
    ensures Constructed(rows) == k
  {
    if k > 0 {
      ConstructedAt(rows[1..], k - 1);
    }
  }
}
