# CoreBankingXMLDataExtractor ETL core, in Dafny

This project models the extract-transform-load core of CoreBankingXMLDataExtractor. The tool copies T24 core-banking tables from SQL Server into flat target tables. For each configured table it does the following:

- It reads the SQL definition of the table's view and finds the column mapping in it. An XML table has one `(cN tag, alias)` per `XMLRECORD.value(...)` call. A delimited table has one `(position, alias, kind)` per `tafjfield(...)` or `extractValueJS(...)` call.
- It rebuilds each source row into a record. An XML record is a map from tag to text, with repeated tags joined by the value mark U+F8FD. A delimited record is the RECID split on `*` and the XMLRECORD split on the field mark U+F8FE.
- It filters the rows against the stored incremental watermark and computes the new watermark.
- It shapes the output rows: the RECID, one value per alias, then the row count.
- It drops and recreates the target table with one `NVARCHAR(MAX)` column per header entry.
- It inserts the rows in fixed-size chunks.
- It writes the new watermark back to the table's configuration.

Modules:

- `Base`: `Option`, `Result`, filtering and flattening of sequences.
- `Text`: the parts of Python's `str` the code relies on. These are `isspace`/`strip`, ASCII `lower`, the built-in order `<`, `join`, `split` with a separator, and `int()` of a digit string.
- `Matching`: the left-to-right, non-overlapping search that `re.findall` and `re.finditer` perform.
- `ViewMapping`: the two view-definition parsers of `data_loader/processing.py`. Each regular expression is a matcher over a fixed grammar.
- `ViewCase`: `re.IGNORECASE`. Both parsers give the same mapping, up to case, for view definitions that differ only in the case of ASCII letters.
- `Records`: the two record reconstructors of `data_loader/processing.py`.
- `Loader`: `data_loader/loader.py`. It covers the DDL text, the insert statement and the chunking. A `TargetConnection` object records the statements sent on it.
- `Orchestrator`: the per-table body of `main()` in `data_loader/main.py`. A `TableConfig` object holds one table's configuration entry; its watermark field is updated in place.

The delimiter constants at `data_loader/processing.py:9-11` are the private-use characters U+F8FD and U+F8FE (UTF-8 bytes EF A3 BD and EF A3 BE). They can look empty in an editor, but they are not the empty string. So `split` never raises, and the delimited reconstructor is total.

A row whose incremental value equals the stored watermark is kept, because `data_loader/main.py:113` drops only rows strictly below it (`Orchestrator.KeepRule`).

## Model

| member | source | states |
|---|---|---|
| ViewMapping.ParseViewMappingXml | data_loader/processing.py:13-24 | every entry found has a tag of the form `c` followed by digits and a non-empty alias without `"` |
| ViewMapping.ParseViewMappingXmlRendered | data_loader/processing.py:20-21 | a view definition that lists well-formed XML calls, with any separator free of `a` and `d` between them, parses back to exactly those `(tag, alias)` pairs, in the order written |
| ViewMapping.ParseViewMappingXmlEmpty | data_loader/processing.py:21-24 | the XML parser returns an empty list exactly when the pattern matches at no position of the view definition |
| ViewMapping.MatchXmlCallRendered | data_loader/processing.py:20 | the XML pattern recognises the text of a well-formed call, whatever follows it, and captures exactly its tag and alias |
| ViewMapping.ParseViewMappingNonXml | data_loader/processing.py:26-55 | the `finditer` loop appends one entry per match, in text order, equal to the mapping of the view definition |
| ViewMapping.ParseViewMappingNonXmlRendered | data_loader/processing.py:34-52 | a view definition that lists `tafjfield` and `extractValueJS` calls in any interleaving, with any separator free of `a` and `d` between them, parses back to one entry per call, in order; each entry has its call's kind and `int()` of its position digits |
| ViewMapping.DelimitedMappingEmpty | data_loader/processing.py:42-55 | the delimited parser returns an empty list exactly when neither alternative matches at any position |
| ViewMapping.MatchDelimitedCallRendered | data_loader/processing.py:34-40 | the delimited pattern recognises a well-formed call of either kind, whatever follows it, and fills exactly the position and alias groups of that call's alternative, leaving the other alternative's groups empty |
| ViewMapping.TafCallArguments | data_loader/processing.py:36 | every text the `tafjfield` alternative matches contains the delimiter argument `'*'` and, after it, the sentinel `'-2147483648'`, both within the match |
| ViewMapping.SeparatorNeverMatches | data_loader/processing.py:20-40 | neither pattern can start inside a separator that holds no `a` or `d` in either case, since both begin with one of those letters |
| ViewMapping.EntriesOfLength | data_loader/processing.py:42-52 | each match contributes exactly one mapping entry |
| ViewCase.ParseViewMappingXmlIgnoresCase | data_loader/processing.py:21 | view definitions equal up to ASCII case give as many XML entries, each equal up to case to its counterpart |
| ViewCase.ParseViewMappingNonXmlIgnoresCase | data_loader/processing.py:42 | view definitions equal up to ASCII case give as many delimited entries, with the same positions and kinds and aliases equal up to case |
| Matching.ScanSound | data_loader/processing.py:21-42 | every reported match is a real match at its start; the matches come in text order and do not overlap |
| Matching.ScanComplete | data_loader/processing.py:21-42 | every position where the pattern matches lies inside one of the reported matches |
| Matching.ScanEmpty | data_loader/processing.py:21-42 | the search finds nothing exactly when the pattern matches nowhere |
| Records.ParseExtractedXmlRecord | data_loader/processing.py:57-76 | the RECID comes back unchanged; a payload the parser rejects gives an empty record; otherwise the record maps every tag that occurs to the texts of all its elements in document order, joined by the value mark, with a missing text read as `""` |
| Records.JoinedSnoc | data_loader/processing.py:66-71 | one more child stores a new tag with its text, or appends the value mark and the text to a repeated tag |
| Records.SingleOccurrence | data_loader/processing.py:67-71 | a tag that occurs once is stored with exactly its text, or `""` when the element has none |
| Records.JoinedSplits | data_loader/processing.py:9-69 | when no text holds the value mark, splitting a stored value on it gives back that tag's texts in document order |
| Records.TagsHaveTexts | data_loader/processing.py:65-71 | a tag is a key of the record exactly when at least one element carries it |
| Records.ParseDelimitedRecord | data_loader/processing.py:78-86 | the RECID comes back unchanged; each field list has one more field than its text has separators; no field holds its separator; joining a list with its separator restores the text |
| Orchestrator.ResolveIncrementalColumn | data_loader/main.py:82-97 | the alias loop with `break` resolves the column exactly as the first-match function does: none for a blank configured column, `RECID` for a delimited table, the tag of the first alias equal up to case for an XML table |
| Orchestrator.FirstTagWithAliasIsFirst | data_loader/main.py:88-93 | the resolved tag belongs to an entry whose alias matches, and no earlier alias matches; there is no result exactly when no alias matches |
| Orchestrator.FilterRows | data_loader/main.py:99-119 | the kept rows are the input filtered by the drop rule, in order; the final maximum is the largest of the stored watermark and every kept non-empty value |
| Orchestrator.KeepRule | data_loader/main.py:111-114 | a row without a value is kept; a row equal to the watermark is kept; a kept row's value is never below a non-empty watermark |
| Orchestrator.NoIncrementalColumnKeepsAll | data_loader/main.py:104-119 | with no incremental column every row is kept, in order, and the watermark does not move |
| Orchestrator.KeptValuesMembers | data_loader/main.py:111-117 | a value feeds the running maximum exactly when some kept row carries it as its non-empty incremental value |
| Orchestrator.NewWatermark | data_loader/main.py:101-117 | the new maximum is never below the stored watermark and never below a kept value; it is the stored watermark or some kept row's value |
| Orchestrator.CompletionOrderIrrelevant | data_loader/main.py:103-119 | `process_rows` hands rows over in completion order (data_loader/extraction.py:47-48); for any reordering of them, the same rows are kept, each as often, and the new maximum is the same |
| Orchestrator.RunningMaxStep | data_loader/main.py:116-117 | the update `if new_max == "" or cur >= new_max` yields the larger of the two strings |
| Orchestrator.WatermarkAdvances | data_loader/main.py:156-158 | a watermark that is written back is strictly greater than the stored one |
| Orchestrator.FieldAtPosition | data_loader/main.py:137-141 | a position in range reads field `pos - 1`; a position past the end reads `""`; position 0 reads the last field |
| Orchestrator.ShapeRows | data_loader/main.py:131-152 | each output row is the RECID, then the value of each mapping entry in mapping order, then the number of rows |
| Orchestrator.ColumnsLineUp | data_loader/main.py:124-152 | every row is as long as the header, and the cell under each alias is the value of the mapping entry that alias came from |
| Orchestrator.KeptRowsFit | data_loader/main.py:119-135 | filtering keeps every record in the shape its table kind expects |
| Orchestrator.RunTable | data_loader/main.py:31-170 | a disabled table, a missing view definition or an empty mapping is skipped with the watermark untouched; otherwise the table is loaded as `LoadMapped` states |
| Orchestrator.LoadMapped | data_loader/main.py:82-170 | the outcome holds the header, the shaped rows, the DROP/CREATE/commit statements and the chunked load; the watermark becomes the new maximum exactly when filtering is on and the maximum is non-empty and differs from the stored one |
| Loader.TargetConnection.CreateTargetTable | data_loader/loader.py:7-22 | sends DROP, then CREATE with one `[col] NVARCHAR(MAX)` per header entry, then commit, after what was sent before |
| Loader.ColumnLines | data_loader/loader.py:17-18 | when no column name holds a line break, the column definition has one line per header entry, in order, each ending with a comma except the last |
| Loader.InsertLists | data_loader/loader.py:32-35 | when no column name holds a comma, the column list splits back into the bracketed header, and the placeholder list holds exactly `len(header)` question marks |
| Loader.ChunkRows | data_loader/loader.py:50-52 | the chunk list fails exactly when the chunk size is zero |
| Loader.ChunksCover | data_loader/loader.py:50-52 | with a positive size there are `ceil(len(rows) / size)` chunks, and concatenating them restores the rows in order |
| Loader.ChunkSizes | data_loader/loader.py:51-52 | no rows give no chunks; every chunk but the last holds exactly `size` rows, and the last holds between one and `size` |
| Loader.NegativeChunkSize | data_loader/loader.py:51-52 | a negative chunk size gives no chunks and loads nothing |
| Loader.LoadDataToTargetMulti | data_loader/loader.py:45-60 | loading fails exactly when the chunk size is zero |
| Loader.LoadBatches | data_loader/loader.py:24-55 | one insert call per chunk, each running the same `INSERT` statement for the target table and header; together the calls submit every row once, in order |
| Loader.InsertedChunk | data_loader/loader.py:29-60 | an accepted chunk's rows reach the table whatever happens to the other chunks |
| Loader.LoadedRows | data_loader/loader.py:45-60 | the table receives only rows it was given; when every insert is accepted it receives all of them, each as often as it occurs |

## Left out

- Logging (`logger.*`) is left out: it has no effect on the data.
- `ET.fromstring` is not modelled. The XML payload arrives as the root's children, or as `Malformed` for any exception the parser raises.
- The database is not modelled: connections, cursors, `execute`, `executemany` and commits. Whether the database accepts one chunk's insert is a parameter, and a `TargetConnection` only records the statements sent on it.
- The thread pools are not modelled. Submitting chunks and collecting futures in completion order are out; row-processing order is covered by `Orchestrator.CompletionOrderIrrelevant`, and chunk independence by `Loader.InsertedChunk`.
- Reading and saving the configuration file, the loop over all tables and `save_config` (data_loader/main.py:175) are not modelled; `RunTable` is one iteration of the loop.
- The source query, `get_view_definition` and `process_rows` (data_loader/extraction.py) are not modelled: their results are parameters. A NULL `XMLRECORD` is not modelled.
- Orchestrator.LoadMapped: returns a zero batch size as `Failure("ZeroDivisionError")` in the outcome and goes on. In the source, that error, or an exception from DROP/CREATE, escapes `main()` and aborts every later table and `save_config`.
- Orchestrator.ResolveIncrementalColumn: compares with ASCII-only lower-casing. Python's `str.lower()` at data_loader/main.py:89 also folds non-ASCII letters, so an alias `ÉTAT` configured as `état` resolves in the source but not in the model.
- ViewMapping.ParseViewMappingXml: `\d` in `c\d+` accepts ASCII digits only, where Python accepts any Unicode decimal digit. The ASCII-only case folding loses nothing here: the pattern has no `i`, `s` or `k`, the only letters with non-ASCII case partners.
- ViewMapping.ParseViewMappingNonXml: `re.IGNORECASE` is ASCII-only and `\d` accepts ASCII digits only. Spellings such as `dbo.tafjfıeld` or `dbo.extractValueJſ`, and non-ASCII decimal digits in the position arguments, match in Python but not in the model.
- Python's `math.ceil` of a float quotient is modelled as exact integer ceiling; rounding of very large row counts is not modelled.
- The `value = ""` branch at data_loader/main.py:142-143 is not modelled: the parser only produces the two known kinds.
