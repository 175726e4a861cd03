/** The corpus table as both stages see it after `pandas.read_csv`: the header
    (the column names) and the rows. A missing cell (NaN) is `None`. */
module Tables {

  datatype Option<+T> = None | Some(value: T) {
    /** The value, or `default` when absent (`fillna(default)` on one cell). */
    function GetOr(default: T): T {
      match this
      case Some(v) => v
      case None => default
    }
  }

  datatype Result<+R, +E> = Success(value: R) | Failure(error: E)

  /** One row of the corpus table. */
  datatype Row = Row(
    url: Option<string>,
    contentType: Option<string>,
    topic: Option<string>,
    subTopic: Option<string>,
    content: Option<string>)

  datatype Column = Url | ContentType | Topic | SubTopic | Content

  /** The header each column has in the CSV file. */
  function Name(c: Column): string {
    match c
    case Url => "URL"
    case ContentType => "Content Type"
    case Topic => "Topic"
    case SubTopic => "Sub Topic"
    case Content => "Content"
  }

  /** The five columns both stages require, in the order the chunker lists
      them. */
  const RequiredNames: seq<string> := ["URL", "Content Type", "Topic", "Sub Topic", "Content"]

  datatype Table = Table(columns: seq<string>, rows: seq<Row>)

  predicate HasColumn(t: Table, c: Column) {
    Name(c) in t.columns
  }

  predicate HasAllColumns(t: Table) {
    forall c: Column :: HasColumn(t, c)
  }

  /** `row[name]`. */
  function Get(r: Row, c: Column): Option<string> {
    match c
    case Url => r.url
    case ContentType => r.contentType
    case Topic => r.topic
    case SubTopic => r.subTopic
    case Content => r.content
  }

  /** The row with the cell of column `c` replaced by `v`. */
  function Set(r: Row, c: Column, v: Option<string>): (r': Row)
    ensures Get(r', c) == v
    ensures forall d: Column | d != c :: Get(r', d) == Get(r, d)
  {
    match c
    case Url => r.(url := v)
    case ContentType => r.(contentType := v)
    case Topic => r.(topic := v)
    case SubTopic => r.(subTopic := v)
    case Content => r.(content := v)
  }

  /** A table has every required column exactly when every required name is
      among its headers. */
  lemma RequiredNamesAreTheColumns(t: Table)
    ensures HasAllColumns(t) <==> forall n | n in RequiredNames :: n in t.columns
  {
    if forall n | n in RequiredNames :: n in t.columns {
      forall c: Column ensures HasColumn(t, c) {
        assert Name(c) in RequiredNames;
      }
    }
    if HasAllColumns(t) {
      assert HasColumn(t, Url) && HasColumn(t, ContentType) && HasColumn(t, Topic);
      assert HasColumn(t, SubTopic) && HasColumn(t, Content);
    }
  }
}
