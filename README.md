# Quote store and random-quote query

A model of the logic in chatgpt-quotes' `server/main.py`. That file is a small HTTP
plugin that serves random quotes. It has two pieces of logic of its own.

- **Loading the quote store** (`parse_quotes`). The dataset is a text file of lines
  `QUOTE;AUTHOR;GENRE`. Each row must unpack into exactly three fields. The rows become
  an ordered list of `(quote, author, genre)` records. A row of any other width raises
  an error, and the whole load fails.
- **The query** (`random_quote`). An optional author filters the store. The match is
  exact equality after lower-casing both names, and store order is kept. A missing or
  empty author leaves the store unfiltered. One candidate is drawn at random and its
  quote and stored author are returned. When there is no candidate, the answer is an
  explicit "no match", which is an ordinary answer and not an error.

Files:

- `quote_store.dfy`, module `QuoteStore`.
  - `Quote` is one record. `ParseResult` is `Ok(quotes)` or `Err(FieldCount(row, fields))`.
  - `Parse` is the meaning of a load over rows that are already split into fields.
  - `ParseQuotes` is the loader's loop, written imperatively and proved equal to `Parse`.
  - `Fields`, `CsvRow` and `Join` model the line format: a plain split on `;`, and its
    inverse. `ParseLines` loads a dataset given as lines.
- `quote_query.dfy`, module `QuoteQuery`.
  - `Lower` is ASCII lower-casing.
  - `ByAuthor` is the filter, and `Candidates` picks the filtered or the whole store.
  - `RandomQuote` is the query. The random draw is a nondeterministic choice of a
    candidate index (`:|`).
  - `Response` is `Found(quote, author) | NotFound`, in place of the source's nullable
    fields.
  - `Example` is a client. On a two-record store, it shows that the contracts alone fix
    both answers.

The store is passed to the query as an immutable `seq<Quote>`. The source keeps it in a
global `QUOTES` set at startup. Because the store is a value here, "the query does not
change the store" holds by construction.

The response carries only the quote and the author. The genre is dropped at
server/main.py:129-130. A blank line in the dataset also fails the load: `csv.reader`
reads it as a row with no fields, so the unpack at server/main.py:45 fails.
`CsvRow("")` is `[]` to match.

## Model

| member | source | states |
|---|---|---|
| QuoteStore.Parse | server/main.py:43-47 | A load succeeds exactly when every row has three fields. On success it holds one record per row, in row order, with field 0 as the quote, 1 as the author and 2 as the genre. On failure it names the first row of the wrong width and that row's field count, and returns no partial list. |
| QuoteStore.ParseQuotes | server/main.py:34-47 | The append loop, which stops at the first bad row, returns exactly `Parse(rows)`. |
| QuoteStore.Fields | server/main.py:42 | The plain `;` split of a non-blank line, as `csv.reader(f, delimiter=';')` reads it. It yields at least one field, and no field holds `;`. |
| QuoteStore.CsvRow | server/main.py:42-45 | The row a line reads as. A line is blank exactly when its row has no fields, and such a row then fails the unpack. Otherwise the row has one field more than the line has delimiters, and joining it with `;` gives back the line. |
| QuoteStore.ParseLines | server/main.py:41-47 | A load over the dataset's lines. On success there is one record per line, and record i is line i's three fields in position order. On failure it names the first line that does not read as three fields, with that line's field count. |
| QuoteStore.FieldsCount | server/main.py:42 | Splitting a line on `;` gives one more field than the line has delimiters. |
| QuoteStore.JoinFields | server/main.py:38-42 | Joining a line's fields with `;` gives back the line, so the split loses nothing. |
| QuoteStore.FieldsJoin | server/main.py:38-42 | Under the plain split, splitting a joined non-empty row gives back the row, provided no field holds `;` (the format has no escaping). |
| QuoteStore.CsvRowIsRecord | server/main.py:42-45 | A line reads as a three-field row exactly when it holds two delimiters. This includes the blank line, which has none. |
| QuoteStore.ParseLinesOk | server/main.py:41-47 | Loading lines succeeds exactly when every line holds two delimiters. Record i is then line i's three fields. |
| QuoteStore.EncodeParse | server/main.py:38-47 | Under the plain split, writing a store in the `QUOTE;AUTHOR;GENRE` format and loading it back gives the same store, provided no field holds `;`. |
| QuoteQuery.LowerChar | server/main.py:124 | The ASCII model of `str.lower` on one character. The result is never upper-case and is the same letter as the input: a capital becomes its own lower-case letter, and every other character is unchanged. |
| QuoteQuery.Lower | server/main.py:124 | The ASCII model of `str.lower` on a string. It keeps the length, and each position holds the same letter, never upper-case. |
| QuoteQuery.LowerCharSame | server/main.py:124 | Two characters lower-case alike exactly when they are the same letter ignoring ASCII case. |
| QuoteQuery.LowerSame | server/main.py:124 | Two strings lower-case alike exactly when they have the same length and agree letter by letter, ignoring case. |
| QuoteQuery.Requested | server/main.py:123 | Definition of `if author:` on `str \| None`: true exactly for a present, non-empty string. |
| QuoteQuery.SameAuthor | server/main.py:124 | The comparison `q[1].lower() == author.lower()`. A record always matches its own stored spelling, and a match always has the same length as the request. |
| QuoteQuery.SameAuthorLetters | server/main.py:124 | A record matches the requested author exactly when its stored author and the request have the same length and agree letter by letter, ignoring case. This is the filter's case-insensitive exact equality. |
| QuoteQuery.ByAuthor | server/main.py:124 | Every record kept by the filter is by the requested author, case-insensitively, and the filter never grows the store. |
| QuoteQuery.ByAuthorCounts | server/main.py:124 | The filter keeps each record by the author as many times as the store holds it, and no other record. So a record is kept exactly when the store holds it and its lower-cased author equals the lower-cased request. |
| QuoteQuery.ByAuthorAppend | server/main.py:124 | Filtering two stores one after the other equals filtering each and concatenating the results, so the filter keeps store order. |
| QuoteQuery.ByAuthorCaseInsensitive | server/main.py:124 | Two requests that lower-case alike select the same records in the same order. |
| QuoteQuery.ByAuthorKeepsAll | server/main.py:124 | When every record is by the requested author, the filter returns the store unchanged. |
| QuoteQuery.Candidates | server/main.py:123-126 | With a present, non-empty author, the candidates are exactly the store's records by that author. With a missing or empty author, they are the whole store. |
| QuoteQuery.RandomQuote | server/main.py:115-132 | The answer is "no match" exactly when there are no candidates. Otherwise it is the quote and the stored author of some candidate, and hence of some store record. With an author requested, the answer's author lower-cases to the request. "No match" means, with an author, that no store record is by that author, and, without one, that the store is empty. |

## Left out

- Reading `pyproject.toml` (server/main.py:23-31): file I/O and TOML parsing.
- Building the FastAPI app, CORS middleware and the static mount (server/main.py:51-67): framework configuration with no logic of its own.
- Serving `ai-plugin.json` (server/main.py:70-84): a file read and one call to the standard library's template substitution.
- Serving `openapi.yaml` (server/main.py:86-100): the schema is generated by the framework and dumped as YAML. The only local step is one dictionary assignment.
- The startup hook and the global `QUOTES` (server/main.py:102-108). The store is an explicit immutable value passed to the query.
- Opening the dataset file and cutting it into lines (server/main.py:41). The model starts from the lines.
- `csv.reader` dialect details (server/main.py:42): quote characters, escapes and line-ending handling. A non-blank line is split on every `;`.
- QuoteQuery.LowerChar: only ASCII `A`-`Z` are lower-cased. Python's full Unicode `str.lower` is not modelled.
- QuoteQuery.Lower: same ASCII-only limit as LowerChar. Unicode case mappings, including ones that change a string's length, are not modelled.
- QuoteQuery.RandomQuote: proves only that the drawn record is one of the candidates. The uniform distribution of `random.choice` (server/main.py:129) is not modelled.
- QuoteStore.Parse: the error carries the bad row's index and field count. Python's exception type and message text are not modelled.
- `async` handlers, the pydantic response class and `uvicorn.run` (server/main.py:14-19, 134-138): server plumbing.
