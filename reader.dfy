/** The row normaliser that both scripts carry (`_has_data`,
    `_has_right_column_number`, `_format_data`, `_clean_data`, `readfile`):
    it validates the shape of the tokenised CSV, zips the header with every
    data line and coerces three columns. */
module SchemaReader {
  import opened Wrappers
  import opened Records

  /** A CSV file after tokenisation: its lines, each a list of cells. */
  type Csv = seq<seq<string>>

  /** The rows one read produces. */
  type Snapshot = seq<Record>

  /** ECS_CSV_COLUMN_COUNT */
  const ColumnCount: nat := 9

  const Indexed: string := "Indexed"
  const Normalization: string := "Normalization"
  const Example: string := "Example"

  /** The header of the published ECS CSV, in file order. */
  const EcsColumns: seq<string> :=
    ["ECS_Version", "Indexed", "Field_Set", "Field", "Type", "Level", "Normalization", "Example", "Description"]

  /** `_has_data`: a header and at least one data line. */
  predicate HasData(raw: Csv)
  {
    |raw| > 1
  }

  /** `_has_right_column_number`: the header has nine names. */
  predicate HasRightColumnNumber(raw: Csv)
    requires |raw| > 0
  {
    |raw[0]| == ColumnCount
  }

  /** `_format_data`: one row per line after the header. */
  function FormatData(raw: Csv): seq<Record>
    requires |raw| > 0
  {
    seq(|raw| - 1, i requires 0 <= i < |raw| - 1 => ZipRecord(raw[0], raw[i + 1]))
  }

  /** The body of `_clean_data`'s loop for one row. */
  function CleanRecord(d: Record): Result<Record>
  {
    match Find(d, Indexed)
    case None => Err(KeyError(Indexed))
    case Some(ix) =>
      var d1 := Put(d, Indexed, Flag(Truthy(ix)));
      match Find(d1, Normalization)
      case None => Err(KeyError(Normalization))
      case Some(n) =>
        var d2 := if n == Text("") then Put(d1, Normalization, Absent) else d1;
        match Find(d2, Example)
        case None => Err(KeyError(Example))
        case Some(e) => Ok(if e == Text("") then Put(d2, Example, Absent) else d2)
  }

  lemma CoercedKeysDistinct()
    ensures Indexed != Normalization && Indexed != Example && Normalization != Example
  {
    assert Indexed[0] == 'I' && Normalization[0] == 'N' && Example[0] == 'E';
  }

  /** A row lacking one of the three coerced keys raises `KeyError` for the
      first of them, in the order `Indexed`, `Normalization`, `Example`. */
  lemma CleanRecordRaises(d: Record)
    ensures CleanRecord(d).Err? <==> Find(d, Indexed).None? || Find(d, Normalization).None? || Find(d, Example).None?
    ensures CleanRecord(d).Err? ==> CleanRecord(d).error == KeyError(
      if Find(d, Indexed).None? then Indexed
      else if Find(d, Normalization).None? then Normalization
      else Example)
  {
    CoercedKeysDistinct();
    if ix :| Find(d, Indexed) == Some(ix) {
      var d1 := Put(d, Indexed, Flag(Truthy(ix)));
      PutFind(d, Indexed, Flag(Truthy(ix)));
      if n :| Find(d1, Normalization) == Some(n) {
        PutFind(d1, Normalization, Absent);
      }
    }
  }

  /** What cleaning does to a row that has the three keys: `Indexed` becomes
      the truthiness of its text, `Normalization` and `Example` become absent
      exactly when they are empty text, every other key keeps its value, and
      no key moves. */
  lemma CleanRecordCoerces(d: Record)
    requires CleanRecord(d).Ok?
    ensures Find(CleanRecord(d).value, Indexed) == Some(Flag(Truthy(Find(d, Indexed).value)))
    ensures Find(CleanRecord(d).value, Normalization)
         == if Find(d, Normalization) == Some(Text("")) then Some(Absent) else Find(d, Normalization)
    ensures Find(CleanRecord(d).value, Example)
         == if Find(d, Example) == Some(Text("")) then Some(Absent) else Find(d, Example)
    ensures forall k :: k != Indexed && k != Normalization && k != Example ==>
      Find(CleanRecord(d).value, k) == Find(d, k)
    ensures |CleanRecord(d).value| == |d| && forall i :: 0 <= i < |d| ==> CleanRecord(d).value[i].key == d[i].key
    ensures UniqueKeys(d) ==> UniqueKeys(CleanRecord(d).value)
  {
    CoercedKeysDistinct();
    var ix := Find(d, Indexed).value;
    var d1 := Put(d, Indexed, Flag(Truthy(ix)));
    PutFind(d, Indexed, Flag(Truthy(ix)));
    var n := Find(d1, Normalization).value;
    var d2 := if n == Text("") then Put(d1, Normalization, Absent) else d1;
    PutFind(d1, Normalization, Absent);
    var e := Find(d2, Example).value;
    var d3 := if e == Text("") then Put(d2, Example, Absent) else d2;
    PutFind(d2, Example, Absent);
    assert CleanRecord(d) == Ok(d3);
    assert |d3| == |d| && forall i :: 0 <= i < |d| ==> d3[i].key == d[i].key by {
      PutShape(d, Indexed, Flag(Truthy(ix)));
      PutShape(d1, Normalization, Absent);
      PutShape(d2, Example, Absent);
    }
    assert UniqueKeys(d) ==> UniqueKeys(d3) by {
      if UniqueKeys(d) {
        PutUnique(d, Indexed, Flag(Truthy(ix)));
        PutUnique(d1, Normalization, Absent);
        PutUnique(d2, Example, Absent);
      }
    }
  }

  /** `_clean_data` over a list of rows: the first row that lacks one of the
      three coerced columns raises. */
  function CleanAll(ds: seq<Record>): Result<seq<Record>>
  {
    Collect(CleanRecord, ds)
  }

  /** `_clean_data`: every row is cleaned in place, in order. */
  method CleanData(data: array<Record>) returns (o: Outcome)
    modifies data
    ensures CleanAll(old(data[..])).Ok? ==> o == Pass && data[..] == CleanAll(old(data[..])).value
    ensures CleanAll(old(data[..])).Err? ==> o == Fail(CleanAll(old(data[..])).error)
  {
    ghost var rows := data[..];
    var i := 0;
    while i < data.Length
      invariant 0 <= i <= data.Length
      invariant CleanAll(rows[..i]) == Ok(data[..i])
      invariant data[i..] == rows[i..]
    {
      assert data[i] == rows[i];
      var c := CleanRecord(data[i]);
      ghost var done := data[..i];
      if c.Err? {
        CollectFail(CleanRecord, rows, i, done, c.error);
        return Fail(c.error);
      }
      CollectSnoc(CleanRecord, rows, i, done, c.value);
      data[i] := c.value;
      assert data[..i + 1] == done + [c.value];
      i := i + 1;
    }
    assert rows[..i] == rows && data[..i] == data[..];
    o := Pass;
  }

  /** `readfile` on the lines of a CSV file: empty for a file of at most one
      line or a header that is not nine names wide, otherwise one cleaned row
      per data line. */
  function Read(raw: Csv): Result<Snapshot>
  {
    if !HasData(raw) then Ok([])
    else if !HasRightColumnNumber(raw) then Ok([])
    else CleanAll(FormatData(raw))
  }

  /** A read yields nothing exactly when the file has no data line or a
      header not nine names wide; otherwise one cleaned row per data line,
      or the exception that some data line raises. */
  lemma ReadSpec(raw: Csv)
    ensures Read(raw) == Ok([]) <==> |raw| <= 1 || |raw[0]| != ColumnCount
    ensures Read(raw).Err? ==> |raw| > 1 && |raw[0]| == ColumnCount
    ensures Read(raw).Ok? && |raw| > 1 && |raw[0]| == ColumnCount ==>
              |Read(raw).value| == |raw| - 1
              && forall i :: 0 <= i < |raw| - 1 ==> CleanRecord(ZipRecord(raw[0], raw[i + 1])) == Ok(Read(raw).value[i])
    ensures Read(raw).Err? ==> exists i :: 0 < i < |raw| && CleanRecord(ZipRecord(raw[0], raw[i])) == Err(Read(raw).error)
                                           && forall j :: 0 < j < i ==> CleanRecord(ZipRecord(raw[0], raw[j])).Ok?
  {
    if HasData(raw) && HasRightColumnNumber(raw) {
      var rows := FormatData(raw);
      var r := CleanAll(rows);
      CollectSpec(CleanRecord, rows);
      if r.Ok? {
        forall i | 0 <= i < |raw| - 1 ensures CleanRecord(ZipRecord(raw[0], raw[i + 1])) == Ok(r.value[i]) {
          assert rows[i] == ZipRecord(raw[0], raw[i + 1]);
        }
      } else {
        var i :| 0 <= i < |rows| && CleanRecord(rows[i]) == Err(r.error) && forall j :: 0 <= j < i ==> CleanRecord(rows[j]).Ok?;
        assert rows[i] == ZipRecord(raw[0], raw[i + 1]);
        forall j | 0 < j < i + 1 ensures CleanRecord(ZipRecord(raw[0], raw[j])).Ok? {
          assert rows[j - 1] == ZipRecord(raw[0], raw[j]);
        }
      }
    }
  }

  /** `readfile`, after the file's lines have been read. */
  method ReadFile(raw: Csv) returns (r: Result<Snapshot>)
    ensures r == Read(raw)
  {
    if !HasData(raw) {
      return Ok([]);
    }
    if !HasRightColumnNumber(raw) {
      return Ok([]);
    }
    var rows := FormatData(raw);
    var data := new Record[|rows|](i requires 0 <= i < |rows| => rows[i]);
    assert data[..] == rows;
    var o := CleanData(data);
    if o.Fail? {
      return Err(o.error);
    }
    return Ok(data[..]);
  }
}
