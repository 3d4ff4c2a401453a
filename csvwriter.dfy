/**
 * `DoctorPetScraper.save_to_csv` (scraper.py:471-524): the decisions it takes
 * and the table it writes. A file is one row of cells per line: the header
 * row of the five column names, then one row per product with its fields in
 * column order.
 *
 * The clock reading behind the default file name is the parameter
 * `timestamp` (already formatted as `%Y%m%d_%H%M%S`), and whether the file
 * can be opened for writing is the parameter `opens`.
 */
module CsvWriter {
  import opened Wrappers
  import opened Extractor

  /** The column order of the file (`fieldnames`). */
  const Columns: seq<string> := ["nombre", "precio", "disponibilidad", "enlace", "imagen"]

  const DefaultPrefix: string := "doctorpet_alimentos_"
  const DefaultSuffix: string := ".csv"

  /** What `save_to_csv` comes to: the string it returns, or the exception it re-raises. */
  datatype SaveResult = Returned(name: string) | Raised

  /** `writer.writerow(product)`: the product's fields in column order. */
  function Row(p: Product): seq<string>
  {
    [p.nombre, p.precio, p.disponibilidad, p.enlace, p.imagen]
  }

  /** The whole file: `writeheader()`, then one `writerow` per product, in order. */
  function Table(products: seq<Product>): seq<seq<string>>
  {
    [Columns] + seq(|products|, j requires 0 <= j < |products| => Row(products[j]))
  }

  /** Python truthiness of the `filename` argument: `None` and "" both count as missing. */
  predicate NameGiven(filename: Option<string>)
  {
    filename.Some? && filename.value != ""
  }

  /** The file written to: the given name, or `doctorpet_alimentos_<timestamp>.csv`. */
  function FileName(filename: Option<string>, timestamp: string): (r: string)
    ensures r != ""
  {
    if NameGiven(filename) then filename.value else DefaultPrefix + timestamp + DefaultSuffix
  }

  /**
   * `save_to_csv(products, filename)`. An empty list writes nothing and returns
   * ""; otherwise the table goes to `FileName(filename, timestamp)`, whose name
   * is returned, unless the file cannot be opened, which re-raises.
   */
  method SaveToCsv(products: seq<Product>, filename: Option<string>, timestamp: string, opens: bool)
    returns (result: SaveResult, written: seq<seq<string>>)
    ensures products == [] ==> result == Returned("") && written == []
    ensures products != [] && !opens ==> result == Raised && written == []
    ensures products != [] && opens ==>
      result == Returned(FileName(filename, timestamp)) && written == Table(products)
  {
    if |products| == 0 {
      return Returned(""), [];
    }
    var name := FileName(filename, timestamp);
    if !opens {
      return Raised, [];
    }
    written := [Columns];
    for i := 0 to |products|
      invariant |written| == i + 1 && written[0] == Columns
      invariant forall j :: 0 <= j < i ==> written[j + 1] == Row(products[j])
    {
      written := written + [Row(products[i])];
    }
    assert written == Table(products);
    return Returned(name), written;
  }

  // ---------------------------------------------------------------------------
  // Reading a file back
  // ---------------------------------------------------------------------------

  /** A row read back as a product: exactly five cells, in column order. */
  function ReadRow(row: seq<string>): Option<Product>
  {
    if |row| == |Columns| then Some(Product(row[0], row[1], row[2], row[3], row[4])) else None
  }

  /** The data rows read back, or `None` when one of them is malformed. */
  function ReadRows(rows: seq<seq<string>>): Option<seq<Product>>
  {
    if rows == [] then Some([])
    else match ReadRow(rows[0])
      case None => None
      case Some(p) =>
        match ReadRows(rows[1..])
        case None => None
        case Some(ps) => Some([p] + ps)
  }

  /** A file read back: the header must be the column names, then the data rows. */
  function ReadTable(t: seq<seq<string>>): Option<seq<Product>>
  {
    if t == [] || t[0] != Columns then None else ReadRows(t[1..])
  }

  // ---------------------------------------------------------------------------
  // What saving promises
  // ---------------------------------------------------------------------------

  /** Every product row has one cell per column, and reads back as the product. */
  lemma RowRoundTrip(p: Product)
    ensures |Row(p)| == |Columns|
    ensures ReadRow(Row(p)) == Some(p)
  {
  }

  lemma {:induction false} ReadRowsOfProducts(products: seq<Product>)
    ensures ReadRows(Table(products)[1..]) == Some(products)
    decreases |products|
  {
    if products != [] {
      var rest := products[1..];
      ReadRowsOfProducts(rest);
      assert Table(products)[1..][1..] == Table(rest)[1..];
      RowRoundTrip(products[0]);
      assert [products[0]] + rest == products;
    }
  }

  /** The written file starts with the header and reads back as exactly the products, in order. */
  lemma TableRoundTrip(products: seq<Product>)
    ensures Table(products)[0] == Columns
    ensures |Table(products)| == |products| + 1
    ensures ReadTable(Table(products)) == Some(products)
  {
    ReadRowsOfProducts(products);
  }

  /**
   * A given non-empty name is used as it is; otherwise the name is
   * `doctorpet_alimentos_`, the timestamp and `.csv`.
   */
  lemma FileNameChoice(filename: Option<string>, timestamp: string)
    ensures NameGiven(filename) ==> FileName(filename, timestamp) == filename.value
    ensures !NameGiven(filename) ==>
      FileName(filename, timestamp)[..|DefaultPrefix|] == DefaultPrefix &&
      FileName(filename, timestamp)[|DefaultPrefix| .. |DefaultPrefix| + |timestamp|] == timestamp &&
      FileName(filename, timestamp)[|DefaultPrefix| + |timestamp| ..] == DefaultSuffix
  {
  }
}
