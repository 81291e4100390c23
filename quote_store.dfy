/** The quote store: the dataset of semicolon-delimited rows and the parser
    that turns it into an ordered sequence of (quote, author, genre) records.
    A row that does not hold exactly three fields makes the whole load fail;
    no partial store is ever produced. */
module QuoteStore {

  /** One record of the dataset. */
  datatype Quote = Quote(text: string, author: string, genre: string)

  /** Why a load failed: the row (counted from 0) that did not unpack into
      three fields, and how many fields it had. */
  datatype ParseError = FieldCount(row: nat, fields: nat)

  /** The outcome of a load: the whole store, or the first error. */
  datatype ParseResult = Ok(quotes: seq<Quote>) | Err(error: ParseError)

  /** A row the loader accepts. */
  predicate IsRecordRow(row: seq<string>) {
    |row| == 3
  }

  /** The record a three-field row unpacks into, fields taken in position order. */
  function Unpack(row: seq<string>): Quote
    requires IsRecordRow(row)
  {
    Quote(row[0], row[1], row[2])
  }

  /** The meaning of a load over rows already split into fields: every row
      unpacks, in order, or the load fails at the first row that does not. */
  function Parse(rows: seq<seq<string>>): (r: ParseResult)
    ensures r.Ok? <==> forall i :: 0 <= i < |rows| ==> IsRecordRow(rows[i])
    ensures r.Ok? ==> |r.quotes| == |rows|
    ensures r.Ok? ==> forall i :: 0 <= i < |rows| ==> IsRecordRow(rows[i]) && r.quotes[i] == Unpack(rows[i])
    ensures r.Err? ==> r.error.row < |rows| && r.error.fields == |rows[r.error.row]| != 3
    ensures r.Err? ==> forall j :: 0 <= j < r.error.row ==> IsRecordRow(rows[j])
    decreases |rows|
  {
    if rows == [] then Ok([])
    else if !IsRecordRow(rows[0]) then Err(FieldCount(0, |rows[0]|))
    else
      match Parse(rows[1..])
      case Ok(rest) => Ok([Unpack(rows[0])] + rest)
      case Err(e) => Err(FieldCount(e.row + 1, e.fields))
  }

  /** The loader's loop: unpack each row into a record and append it to the
      list built so far; a row of the wrong width ends the load with an error,
      and the list is handed back only once every row has been read. */
  method ParseQuotes(rows: seq<seq<string>>) returns (r: ParseResult)
    ensures r == Parse(rows)
  {
    var quotes: seq<Quote> := [];
    var i := 0;
    while i < |rows|
      invariant 0 <= i <= |rows|
      invariant forall j :: 0 <= j < i ==> IsRecordRow(rows[j])
      invariant |quotes| == i
      invariant forall j :: 0 <= j < i ==> quotes[j] == Unpack(rows[j])
    {
      var row := rows[i];
      if |row| != 3 {
        ghost var expected := Parse(rows);
        assert !IsRecordRow(rows[i]);
        assert expected.error.row == i by {
          assert expected.error.row <= i;
          assert !IsRecordRow(rows[expected.error.row]);
        }
        return Err(FieldCount(i, |row|));
      }
      quotes := quotes + [Quote(row[0], row[1], row[2])];
      i := i + 1;
    }
    assert Parse(rows).quotes == quotes;
    r := Ok(quotes);
  }

  // ---------------------------------------------------------------------
  // The dataset's line format: fields separated by ';', no escaping.

  const Delimiter: char := ';'

  /** The number of delimiters in a line. */
  function DelimiterCount(s: string): nat
    decreases |s|
  {
    if s == [] then 0
    else (if s[0] == Delimiter then 1 else 0) + DelimiterCount(s[1..])
  }

  /** A plain split of a line on every delimiter; there is always at least one
      field, and no field holds the delimiter. */
  function Fields(s: string): (r: seq<string>)
    ensures |r| >= 1
    ensures forall i :: 0 <= i < |r| ==> Delimiter !in r[i]
    decreases |s|
  {
    if s == [] then [""]
    else
      var rest := Fields(s[1..]);
      if s[0] == Delimiter then [""] + rest
      else [[s[0]] + rest[0]] + rest[1..]
  }

  /** The row a line reads as: a blank line has no fields at all, any other
      line is split on every delimiter. */
  function CsvRow(line: string): (r: seq<string>)
    ensures r == [] <==> line == ""
    ensures |r| == if line == "" then 0 else DelimiterCount(line) + 1
    ensures r != [] ==> Join(r) == line
  {
    if line == "" then []
    else
      FieldsCount(line);
      JoinFields(line);
      Fields(line)
  }

  /** The line a row is written as: its fields with a delimiter between each two. */
  function Join(fields: seq<string>): string
    decreases |fields|
  {
    if |fields| == 0 then ""
    else if |fields| == 1 then fields[0]
    else fields[0] + [Delimiter] + Join(fields[1..])
  }

  /** The line a record is written as in the dataset. */
  function Encode(q: Quote): string {
    Join([q.text, q.author, q.genre])
  }

  /** No field of the record holds the delimiter (the dataset has no escaping). */
  predicate Writable(q: Quote) {
    Delimiter !in q.text && Delimiter !in q.author && Delimiter !in q.genre
  }

  /** The rows a sequence of lines reads as. */
  function Rows(lines: seq<string>): (rows: seq<seq<string>>)
    ensures |rows| == |lines|
    ensures forall i :: 0 <= i < |lines| ==> rows[i] == CsvRow(lines[i])
  {
    seq(|lines|, i requires 0 <= i < |lines| => CsvRow(lines[i]))
  }

  /** A load of the dataset given as its lines: one record per line on
      success, otherwise the first line that does not read as three fields. */
  function ParseLines(lines: seq<string>): (r: ParseResult)
    ensures r.Ok? ==> |r.quotes| == |lines|
    ensures r.Ok? ==> forall i :: 0 <= i < |lines| ==>
                        IsRecordRow(CsvRow(lines[i])) && r.quotes[i] == Unpack(CsvRow(lines[i]))
    ensures r.Err? ==> r.error.row < |lines| && r.error.fields == |CsvRow(lines[r.error.row])| != 3
    ensures r.Err? ==> forall j :: 0 <= j < r.error.row ==> IsRecordRow(CsvRow(lines[j]))
  {
    Parse(Rows(lines))
  }

  /** Splitting a line on the delimiter gives one field more than it has delimiters. */
  lemma {:induction false} FieldsCount(s: string)
    ensures |Fields(s)| == DelimiterCount(s) + 1
    decreases |s|
  {
    if s != [] {
      FieldsCount(s[1..]);
    }
  }

  /** Joining the fields of a line gives back the line. */
  lemma {:induction false} JoinFields(s: string)
    ensures Join(Fields(s)) == s
    decreases |s|
  {
    if s != [] {
      var rest := Fields(s[1..]);
      JoinFields(s[1..]);
      if s[0] == Delimiter {
        assert ([""] + rest)[1..] == rest;
      } else if |rest| > 1 {
        var fs := [[s[0]] + rest[0]] + rest[1..];
        assert fs[1..] == rest[1..];
        assert Join(rest) == rest[0] + [Delimiter] + Join(rest[1..]);
        assert s == [s[0]] + s[1..];
      } else {
        assert s == [s[0]] + s[1..];
      }
    }
  }

  /** Splitting a field that holds no delimiter, followed by more text, puts the
      field in front of the first field of that text. */
  lemma {:induction false} FieldsPrefix(w: string, t: string)
    requires Delimiter !in w
    ensures Fields(w + t) == [w + Fields(t)[0]] + Fields(t)[1..]
    decreases |w|
  {
    if w == [] {
      assert w + t == t;
      assert w + Fields(t)[0] == Fields(t)[0];
      assert Fields(t) == [Fields(t)[0]] + Fields(t)[1..];
    } else {
      assert (w + t)[1..] == w[1..] + t;
      FieldsPrefix(w[1..], t);
      assert [w[0]] + (w[1..] + Fields(t)[0]) == w + Fields(t)[0];
    }
  }

  /** Splitting a joined row gives back the row, when no field holds the delimiter. */
  lemma {:induction false} FieldsJoin(fields: seq<string>)
    requires |fields| >= 1
    requires forall i :: 0 <= i < |fields| ==> Delimiter !in fields[i]
    ensures Fields(Join(fields)) == fields
    decreases |fields|
  {
    if |fields| == 1 {
      FieldsPrefix(fields[0], "");
      assert fields[0] + "" == fields[0];
    } else {
      var tail := [Delimiter] + Join(fields[1..]);
      assert Join(fields) == fields[0] + tail;
      FieldsPrefix(fields[0], tail);
      FieldsJoin(fields[1..]);
      assert tail[1..] == Join(fields[1..]);
      assert Fields(tail) == [""] + fields[1..];
      assert fields[0] + "" == fields[0];
    }
  }

  /** A line reads as a record row exactly when it holds two delimiters. */
  lemma CsvRowIsRecord(line: string)
    ensures IsRecordRow(CsvRow(line)) <==> DelimiterCount(line) == 2
  {
  }

  /** A load of lines succeeds exactly when every line holds two delimiters, and
      then the i-th record is the i-th line's three fields. */
  lemma ParseLinesOk(lines: seq<string>)
    ensures ParseLines(lines).Ok? <==> forall i :: 0 <= i < |lines| ==> DelimiterCount(lines[i]) == 2
    ensures ParseLines(lines).Ok? ==>
      forall i :: 0 <= i < |lines| ==> ParseLines(lines).quotes[i] == Unpack(Fields(lines[i]))
  {
  }

  /** Writing a store out and loading it back gives the same store, provided no
      field holds the delimiter. */
  lemma EncodeParse(store: seq<Quote>)
    requires forall i :: 0 <= i < |store| ==> Writable(store[i])
    ensures ParseLines(seq(|store|, i requires 0 <= i < |store| => Encode(store[i]))) == Ok(store)
  {
    var lines := seq(|store|, i requires 0 <= i < |store| => Encode(store[i]));
    forall i | 0 <= i < |store|
      ensures CsvRow(lines[i]) == [store[i].text, store[i].author, store[i].genre]
    {
      var q := store[i];
      var fs := [q.text, q.author, q.genre];
      FieldsJoin(fs);
      assert Join(fs) == q.text + [Delimiter] + Join(fs[1..]);
    }
    var r := ParseLines(lines);
    assert r.Ok?;
    assert r.quotes == store;
  }
}
