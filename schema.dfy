/**
 * The fixed 15-column schema of the Adult data set, rows and data sets.
 * A row is a sequence of optional strings, one per column; a data set is a
 * sequence of rows whose position is the row's original index.
 */
module Schema {
  import opened Wrappers

  const NumColumns: nat := 15

  /** A column of the schema, by its position in the header. */
  type Column = c: nat | c < NumColumns

  const Age: Column := 0
  const Workclass: Column := 1
  const Fnlwgt: Column := 2
  const Education: Column := 3
  const EducationNum: Column := 4
  const MaritalStatus: Column := 5
  const Occupation: Column := 6
  const Relationship: Column := 7
  const Race: Column := 8
  const Sex: Column := 9
  const CapitalGain: Column := 10
  const CapitalLoss: Column := 11
  const HoursPerWeek: Column := 12
  const NativeCountry: Column := 13
  const Income: Column := 14

  /** The column being imputed. */
  const Target: Column := NativeCountry

  /** A cell: a trimmed string, or `None` where the file held `?`. */
  type Cell = Option<string>

  /** A row conforms to the schema: one cell per column. */
  type Row = r: seq<Cell> | |r| == NumColumns witness seq(NumColumns, _ => None)

  type Dataset = seq<Row>

  /** The header name of each column. */
  function ColumnName(c: Column): string
  {
    match c
    case 0 => "age"
    case 1 => "workclass"
    case 2 => "fnlwgt"
    case 3 => "education"
    case 4 => "education-num"
    case 5 => "marital-status"
    case 6 => "occupation"
    case 7 => "relationship"
    case 8 => "race"
    case 9 => "sex"
    case 10 => "capital-gain"
    case 11 => "capital-loss"
    case 12 => "hours-per-week"
    case 13 => "native-country"
    case _ => "income"
  }

  /** The target column of a data set, as compared between passes. */
  function TargetColumn(df: Dataset): seq<Cell>
  {
    seq(|df|, i requires 0 <= i < |df| => df[i][Target])
  }
}
