/**
 * load_countries: reads the rows of the country query and appends to the
 * global `countries` vector every row whose country code and GeoJSON text
 * are both non-empty.
 *
 * The embedded database is not modelled: what it answers is an input. A row
 * carries the three text cells as the engine renders them and the area cell
 * as `None` when its conversion to double fails. The area is kept opaque.
 */
module Countries {
  import opened Wrappers

  /** struct Country. */
  datatype Country = Country(cca2: string, name: string, geojson: string, area: real)

  /** One row of the query result: code, name, GeoJSON text and the area if it converts. */
  datatype Row = Row(cca2: string, name: string, geojson: string, area: Option<real>)

  /** The area a country keeps when its area cell does not convert. */
  const DefaultArea: real := 0.0

  /** What the engine answers to the steps of load_countries. */
  datatype Engine = Engine(
    opens: bool,                 // the database file opens without throwing
    installOk: bool,             // INSTALL spatial reports no error
    loadOk: bool,                // LOAD spatial reports no error
    query: Option<seq<Row>>)     // the rows of the country query, None if it reports an error

  /** The test a row must pass to be appended. */
  predicate Accepted(row: Row) {
    row.cca2 != [] && row.geojson != []
  }

  /** The Country built from an accepted row. */
  function ToCountry(row: Row): Country {
    Country(row.cca2, row.name, row.geojson, match row.area case Some(a) => a case None => DefaultArea)
  }

  /** The specification of the row loop: the countries appended, in row order. */
  function Appended(rows: seq<Row>): seq<Country>
  {
    if rows == [] then []
    else
      var last := rows[|rows| - 1];
      Appended(rows[..|rows| - 1]) + (if Accepted(last) then [ToCountry(last)] else [])
  }

  /** The number of accepted rows. */
  function AcceptedCount(rows: seq<Row>): nat
  {
    if rows == [] then 0 else AcceptedCount(rows[..|rows| - 1]) + (if Accepted(rows[|rows| - 1]) then 1 else 0)
  }

  /** The positions of the accepted rows, in increasing order. */
  function AcceptedIndices(rows: seq<Row>): seq<nat>
  {
    if rows == [] then []
    else AcceptedIndices(rows[..|rows| - 1]) + (if Accepted(rows[|rows| - 1]) then [|rows| - 1] else [])
  }

  /** The global `std::vector<Country> countries`. */
  class CountryTable {
    var countries: seq<Country>

    constructor ()
      ensures countries == []
    {
      countries := [];
    }

    /** The row loop: existing entries are kept, accepted rows are appended in order. */
    method AppendRows(rows: seq<Row>)
      modifies this
      ensures countries == old(countries) + Appended(rows)
    {
      var idx := 0;
      while idx < |rows|
        invariant 0 <= idx <= |rows|
        invariant countries == old(countries) + Appended(rows[..idx])
      {
        var row := rows[idx];
        var area := DefaultArea;
        match row.area {
          case Some(a) => area := a;
          case None =>
        }
        assert rows[..idx + 1][..idx] == rows[..idx];
        if row.cca2 != [] && row.geojson != [] {
          countries := countries + [Country(row.cca2, row.name, row.geojson, area)];
        }
        idx := idx + 1;
      }
      assert rows[..idx] == rows;
    }

    /**
     * load_countries: -1 when the database cannot be opened, when LOAD spatial
     * fails or when the query fails, and then nothing is appended; otherwise 1.
     * The result of INSTALL spatial is not looked at.
     */
    method LoadCountries(engine: Engine) returns (status: int)
      modifies this
      ensures status == 1 || status == -1
      ensures status == 1 <==> engine.opens && engine.loadOk && engine.query.Some?
      ensures countries == if status == 1 then old(countries) + Appended(engine.query.value) else old(countries)
    {
      if !engine.opens {
        return -1;
      }
      if !engine.loadOk {
        return -1;
      }
      match engine.query {
        case None => return -1;
        case Some(rows) =>
          AppendRows(rows);
          return 1;
      }
    }
  }

  /** Loading rows in two batches appends the same as loading them at once. */
  lemma {:induction false} AppendedConcat(a: seq<Row>, b: seq<Row>)
    ensures Appended(a + b) == Appended(a) + Appended(b)
    decreases |b|
  {
    if b == [] {
      assert a + b == a;
    } else {
      var ab := a + b;
      assert ab[..|ab| - 1] == a + b[..|b| - 1];
      assert ab[|ab| - 1] == b[|b| - 1];
      AppendedConcat(a, b[..|b| - 1]);
    }
  }

  /** As many countries are appended as rows are accepted, so never more than there are rows. */
  lemma {:induction false} AppendedLength(rows: seq<Row>)
    ensures |Appended(rows)| == AcceptedCount(rows) <= |rows|
    ensures |Appended(rows)| == |rows| <==> forall i :: 0 <= i < |rows| ==> Accepted(rows[i])
  {
    if rows != [] {
      var init := rows[..|rows| - 1];
      AppendedLength(init);
      assert forall i :: 0 <= i < |init| ==> init[i] == rows[i];
    }
  }

  /**
   * The appended countries are exactly the accepted rows, converted, in row
   * order: the k-th appended country comes from the k-th accepted row, and
   * every accepted row is among them.
   */
  lemma {:induction false} AppendedIndexed(rows: seq<Row>)
    ensures |AcceptedIndices(rows)| == |Appended(rows)|
    ensures forall k :: 0 <= k < |AcceptedIndices(rows)| ==>
      AcceptedIndices(rows)[k] < |rows| && Accepted(rows[AcceptedIndices(rows)[k]]) &&
      Appended(rows)[k] == ToCountry(rows[AcceptedIndices(rows)[k]])
    ensures forall k, l :: 0 <= k < l < |AcceptedIndices(rows)| ==> AcceptedIndices(rows)[k] < AcceptedIndices(rows)[l]
    ensures forall i :: 0 <= i < |rows| && Accepted(rows[i]) ==> i in AcceptedIndices(rows)
  {
    if rows != [] {
      var init := rows[..|rows| - 1];
      AppendedIndexed(init);
      assert forall i :: 0 <= i < |init| ==> init[i] == rows[i];
    }
  }

  /** A country is appended iff some row with non-empty code and GeoJSON produces it. */
  lemma AppendedMembership(rows: seq<Row>, c: Country)
    ensures c in Appended(rows) <==> exists i :: 0 <= i < |rows| && Accepted(rows[i]) && ToCountry(rows[i]) == c
  {
    AppendedIndexed(rows);
    var idx := AcceptedIndices(rows);
    if c in Appended(rows) {
      var k :| 0 <= k < |Appended(rows)| && Appended(rows)[k] == c;
      assert Accepted(rows[idx[k]]) && ToCountry(rows[idx[k]]) == c;
    }
    if exists i :: 0 <= i < |rows| && Accepted(rows[i]) && ToCountry(rows[i]) == c {
      var i :| 0 <= i < |rows| && Accepted(rows[i]) && ToCountry(rows[i]) == c;
      var k :| 0 <= k < |idx| && idx[k] == i;
      assert Appended(rows)[k] == c;
    }
  }

  /** A row whose area does not convert is still appended, with area 0.0. */
  lemma AreaFailureKeepsRow(rows: seq<Row>, i: nat)
    requires i < |rows| && Accepted(rows[i]) && rows[i].area == None
    ensures Country(rows[i].cca2, rows[i].name, rows[i].geojson, 0.0) in Appended(rows)
  {
    AppendedMembership(rows, ToCountry(rows[i]));
  }
}
