# SqliteFetcher in Dafny

A model of `sf::Data` and `sf::Fetcher` from `src/SqliteFetcher.cpp`.
The library is a small C++ wrapper over SQLite. Its two classes are:

- `Data`: one typed cell. A type tag, the declared SQL type text, a set of
  key flags, and the value as a byte buffer.
- `Fetcher`: a connection. It runs statements, caches the schema
  (`sqlite_master` plus `PRAGMA table_info`), rewrites `SELECT` queries
  so BLOB columns come back hex-quoted, decodes the answers into `Data`
  cells, and generates `CREATE`, `INSERT` and `UPDATE` text.

Modules, from the bottom up:

| module | file | what it holds |
|---|---|---|
| `Wrappers` | wrappers.dfy | `Option`, `Result` and the `Error` outcomes: a thrown parse error, an `err_msg` text, or undefined behaviour |
| `Bytes` | bytes.dfy | the fixed-width byte image of a number and two's-complement wrap-around |
| `Strings` | strings.dfy | whitespace words, `find`, `erase`, joining with a separator, `std::to_string`, `std::stoi`/`stoll`/`stoull`, the `%02x` hex text |
| `OrderedMap` | ordered_map.dfy | `std::map<std::string, V>` as a sorted association list |
| `Values` | values.dfy | `Data` as a value: type resolution, assignment, reading, `str()` and `typeStr()` |
| `Defaults` | defaults.dfy | `Data::set(Type_t, std::string)`: a value from its SQL literal, as written and corrected |
| `DataObj` | data.dfy | `class Data`: the in-place methods with their byte loops, each proved against `Values`/`Defaults` |
| `Generate` | generate.dfy | the `genQueryCreate`/`genQueryInsert`/`genQueryUpdate` text, as functions and as the loops that build it |
| `Select` | select.dfy | `fetchColumn`'s rewrite of a `SELECT`, and the decoding of its answer |
| `Session` | session.dfy | the connection state and what each `Fetcher` operation does to it, as functions |
| `FetcherObj` | fetcher.dfy | `class Fetcher`: the fields the operations update in place, each method proved against `Session` |

The SQLite engine is a parameter, `Engine`. It is a function from the
statements already sent and the new statement to the reply rows and an
optional error text. Every statement the object sends is recorded in
`executed`. The lemmas can therefore say which statements are sent and in
what order: for example, one refresh of the catalog after a
`genQueryCreate`, and none before the next one.

Undefined behaviour in the source is an explicit outcome,
`Err(Undefined(..))`. Examples: `front()` of an empty list, a
dereferenced end iterator, a reference into a map the call itself
replaces. A thrown `std::invalid_argument`/`std::out_of_range` is
`Err(ParseError)`, and a missing key under `at()` is
`Err(MissingField(key))`. Where the source reports through its
`err_msg` out-parameter, the model returns the text, or
`MalformedQuery`/`UnknownTable`/`EngineError`.

## Model

| member | source | states |
|---|---|---|
| Bytes.Pow256Widths | src/SqliteFetcher.cpp:157-164 | the 4- and 8-byte images span 2^32 and 2^64 values |
| Bytes.DecodeEncodeLE | src/SqliteFetcher.cpp:144-164 | reading back the n-byte image of any value below 256^n gives that value |
| Bytes.EncodeDecodeLE | src/SqliteFetcher.cpp:144-164 | every byte buffer is the image of the number it reads as |
| Bytes.ToUnsigned | src/SqliteFetcher.cpp:548-552 | the cast to an n-byte unsigned integer lands in range, keeps in-range values and adds 256^n to small negatives |
| Bytes.ToSigned | src/SqliteFetcher.cpp:524-547 | the cast to an n-byte signed integer lands in range, keeps values already in range and wraps the upper half below zero |
| Bytes.ModRange | src/SqliteFetcher.cpp:524-552 | the remainder modulo the width lies in [0, p) and moves a value from [-p, 0) up by p |
| Bytes.SignedRoundTrip | src/SqliteFetcher.cpp:524-547 | signed to unsigned and back is the identity on the signed range |
| Strings.WordLength | src/SqliteFetcher.cpp:54 | the first word is a maximal run of non-space characters |
| Strings.Words | src/SqliteFetcher.cpp:752-766 | the words read by `>>` are non-empty |
| Strings.Find | src/SqliteFetcher.cpp:57-60 | the first occurrence of a character, or none when it does not occur |
| Strings.TruncateAt | src/SqliteFetcher.cpp:57-60 | the prefix before the first '(' contains no '(' and is the whole word when there is none |
| Strings.EraseFirst | src/SqliteFetcher.cpp:757-764 | erasing the first occurrence shortens by one exactly when the character occurs |
| Strings.Digits | src/SqliteFetcher.cpp:436-483 | the decimal text of a number is non-empty and all digits |
| Strings.DigitRun | src/SqliteFetcher.cpp:520-550 | stoi's digit run is the maximal prefix of digits of the base |
| Strings.StoI | src/SqliteFetcher.cpp:520-550 | stoi succeeds only with a value in the 32-bit signed range |
| Strings.StoLL | src/SqliteFetcher.cpp:542-547 | stoll succeeds only with a value in the 64-bit signed range |
| Strings.StoULL | src/SqliteFetcher.cpp:548-553 | stoull succeeds only with a value below 2^64 |
| Strings.HexText | src/SqliteFetcher.cpp:494-498 | two hex digits per byte |
| Strings.CharsOf | src/SqliteFetcher.cpp:214-225 | bytes read back as characters: same length, every character a byte |
| Strings.DigitsParse | src/SqliteFetcher.cpp:436-483 | parsing the digits of n reads all of them and yields n |
| Strings.DecimalParses | src/SqliteFetcher.cpp:436-483 | strtol of std::to_string(v) is v, for every integer |
| Strings.DecimalStoI | src/SqliteFetcher.cpp:520-540 | stoi of std::to_string(v) is v for every v in the 32-bit range |
| Strings.DecimalStoIOutOfRange | src/SqliteFetcher.cpp:542-552 | stoi of std::to_string(v) fails for every v outside the 32-bit range |
| Strings.DecimalStoLL | src/SqliteFetcher.cpp:542-547 | stoll of std::to_string(v) is v on the 64-bit signed range |
| Strings.DecimalStoULL | src/SqliteFetcher.cpp:548-553 | stoull of std::to_string(n) is n below 2^64 |
| Strings.HexPairParses | src/SqliteFetcher.cpp:494-499 | the `%02x` text of a byte parses back with stoi base 16 to that byte (with lines 572-578) |
| Strings.HexTextAt | src/SqliteFetcher.cpp:494-498 | characters 2k and 2k+1 of the hex text are the two digits of byte k |
| OrderedMap.LessIrreflexive | src/SqliteFetcher.cpp:903 | the key order of std::map is irreflexive |
| OrderedMap.LessTransitive | src/SqliteFetcher.cpp:903 | the key order is transitive |
| OrderedMap.LessTotal | src/SqliteFetcher.cpp:903 | distinct keys are ordered one way or the other |
| OrderedMap.Lookup | src/SqliteFetcher.cpp:783-787 | `find` succeeds exactly for a present key and returns that key's value |
| OrderedMap.PutKeys | src/SqliteFetcher.cpp:903 | `m[k] = v` adds k to the keys and nothing else |
| OrderedMap.KeySetMember | src/SqliteFetcher.cpp:783 | a present key sits at some position |
| OrderedMap.KeySetHas | src/SqliteFetcher.cpp:783 | every stored key is present |
| OrderedMap.PutSorted | src/SqliteFetcher.cpp:903 | `m[k] = v` keeps the keys in ascending order |
| OrderedMap.LookupPut | src/SqliteFetcher.cpp:903 | after `m[k] = v`, k finds v and every other key finds what it found before |
| Values.Encode | src/SqliteFetcher.cpp:252-290 | a fixed-width value is stored in exactly its width of bytes |
| Values.Decode | src/SqliteFetcher.cpp:178-211 | reading bytes as a tag gives a representable value of that tag |
| Values.StringBytesRoundTrip | src/SqliteFetcher.cpp:214-225 | text stored byte by byte reads back unchanged (with lines 293-299) |
| Values.DecodeEncode | src/SqliteFetcher.cpp:178-290 | every representable value reads back from its own image |
| Values.Assign | src/SqliteFetcher.cpp:252-310 | set(v) leaves the type text and flags alone and yields a well-formed cell |
| Values.Overlay | src/SqliteFetcher.cpp:144-154 | the caller's image keeps its size, its first bytes are the stored ones and the rest is left as it was |
| Values.ReadAfterAssign | src/SqliteFetcher.cpp:144-249 | after set(v), get of the same type yields v and get of any other type fails and leaves the target alone |
| Values.ReadUnset | src/SqliteFetcher.cpp:144-154 | get on a typed cell with no bytes succeeds and leaves the target as it was |
| Values.FromDeclared | src/SqliteFetcher.cpp:42-68 | a primary key becomes INTEGER/INT64; otherwise the tag is the type map's entry for the first word before '(' (BLOB if absent), and the declared text is kept (with lines 22-26) |
| Values.FromTag | src/SqliteFetcher.cpp:70-111 | a primary key becomes INTEGER/INT64; otherwise the tag is kept and the type text is its canonical name (with lines 29-32) |
| Values.WordLengthAppend | src/SqliteFetcher.cpp:51-54 | the first word of a word followed by more text starts with that word |
| Values.FirstWordAppend | src/SqliteFetcher.cpp:51-54 | the word read from `w + rest` is w extended by the start of rest |
| Values.TruncateAppend | src/SqliteFetcher.cpp:57-60 | cutting at '(' removes exactly what follows the word |
| Values.DeclaredTagOfWord | src/SqliteFetcher.cpp:50-67 | the tag depends only on the first word of the declared type |
| Values.Zero | src/SqliteFetcher.cpp:430-483 | the value of an empty buffer has the cell's tag |
| Values.Current | src/SqliteFetcher.cpp:430-483 | the value str() prints has the cell's tag |
| Values.CurrentZeroExtends | src/SqliteFetcher.cpp:430-483 | a fixed-width buffer no wider than its tag is read into str()'s zeroed variable zero-extended |
| Values.WidenedInt8Literal | src/SqliteFetcher.cpp:461-466 | an INT8 -1 retyped as BIGINT prints 255 |
| Bytes.DecodeZeroPadded | src/SqliteFetcher.cpp:144-149 | zero bytes after an image do not change the number it reads as |
| Values.LiteralAfterAssign | src/SqliteFetcher.cpp:430-506 | str() after set(v) is the literal of v |
| Values.BlobText | src/SqliteFetcher.cpp:491-500 | a BLOB literal is X'..' with two characters per byte |
| Values.AppendSelectedIsSuffix | src/SqliteFetcher.cpp:117-133 | appending the selected clauses one by one appends their concatenation |
| Values.TypeStrClauses | src/SqliteFetcher.cpp:114-136 | typeStr without flags is the type text; with flags, the text followed by PRIMARY KEY, UNIQUE, AUTO INCREMENT, NOT NULL, DEFAULT in that order, each only when its flag is set |
| Defaults.PairCountIsLoopBound | src/SqliteFetcher.cpp:572 | the pair count is exactly the number of passes of the BLOB loop's condition |
| Defaults.DecodedPairs | src/SqliteFetcher.cpp:572-579 | k passes of the BLOB loop yield k bytes |
| Defaults.DecodedPairsErrorStays | src/SqliteFetcher.cpp:572-579 | once a pair fails to parse, the loop throws that error |
| Defaults.Narrow | src/SqliteFetcher.cpp:518-553 | the static_cast of the parsed int yields a representable value of the target tag |
| Defaults.ParseAsWritten | src/SqliteFetcher.cpp:513-584 | as written, a parsed value has the requested tag |
| Defaults.ParseDefault | src/SqliteFetcher.cpp:513-584 | corrected, a parsed value has the requested tag |
| Defaults.SetFromText | src/SqliteFetcher.cpp:513-584 | corrected parse (INT64/UINT64 text read with stoll/stoull, see Findings): set(type, text) keeps the type text and flags |
| Defaults.FromText | src/SqliteFetcher.cpp:34-39 | corrected parse (INT64/UINT64 text read with stoll/stoull, see Findings): the parsing constructor keeps the flags and resolves the tag as the declaring constructor does |
| Defaults.BlobTextAt | src/SqliteFetcher.cpp:494-499 | positions 2k+2 and 2k+3 of the BLOB literal are byte k's digits |
| Defaults.DecodedPairsAll | src/SqliteFetcher.cpp:572-579 | the loop over a text whose pairs all parse yields those bytes |
| Defaults.BlobPairParses | src/SqliteFetcher.cpp:494-499 | each pair of a BLOB literal parses back to its byte (with lines 572-578) |
| Defaults.PairStep | src/SqliteFetcher.cpp:572-579 | one more pass of the loop appends the parsed byte |
| Defaults.BlobRoundTrip | src/SqliteFetcher.cpp:491-500 | the bytes of the literal str() prints for a BLOB are read back exactly (with lines 570-581) |
| Defaults.LiteralRoundTrip | src/SqliteFetcher.cpp:430-584 | set(type, str()) restores the value for every integral or BLOB value (corrected parser) |
| Defaults.NativeRoundTrip | src/SqliteFetcher.cpp:430-584 | the corrected parser reads every integral or BLOB literal back to its value |
| Defaults.NarrowRoundTrip | src/SqliteFetcher.cpp:517-540 | the decimal text of a BOOL, INT8, INT16 or INT32 value parses back to that value |
| Defaults.BigIntLiteralRejected | src/SqliteFetcher.cpp:542-547 | as written, an INT64 cell holding 2^31 prints 2147483648, and set(INT64, "2147483648") throws |
| Defaults.ParseAsWrittenOutOfRange | src/SqliteFetcher.cpp:518-553 | as written, every integral type rejects the decimal text of any value outside the 32-bit range |
| DataObj.Data.Declared | src/SqliteFetcher.cpp:22-26 | the object holds the value the declared type and flags determine |
| DataObj.Data.OfTag | src/SqliteFetcher.cpp:29-32 | the object holds the value the tag and flags determine |
| DataObj.Data.Parsed | src/SqliteFetcher.cpp:34-39 | corrected parse (INT64/UINT64 text read with stoll/stoull, see Findings): the parsing constructor fails exactly when the text does not parse, and otherwise yields a fresh object holding the parsed value |
| DataObj.Data.SetTypeByName | src/SqliteFetcher.cpp:42-68 | primary key: INTEGER/INT64; otherwise the tag from the first word, the text, flags and bytes untouched |
| DataObj.Data.SetTypeByTag | src/SqliteFetcher.cpp:70-111 | primary key: INTEGER/INT64; otherwise the canonical name of the tag, tag, flags and bytes untouched |
| DataObj.Data.Set | src/SqliteFetcher.cpp:252-310 | the object afterwards holds Assign of its old value (with lines 157-164) |
| DataObj.Data.CopyImage | src/SqliteFetcher.cpp:157-162 | the resize-and-copy loop yields the image |
| DataObj.Data.PushChars | src/SqliteFetcher.cpp:293-298 | the push_back loop stores the text's bytes |
| DataObj.Data.Change | src/SqliteFetcher.cpp:312-426 | succeeds exactly when the tag matches; then as Set, otherwise nothing changes (with lines 167-176) |
| DataObj.Data.Get | src/SqliteFetcher.cpp:178-249 | on a tag mismatch false and the variable unchanged; on a match a buffer that fits is copied over the variable, as Read says (with lines 144-154); a buffer wider than the variable, which setType(type text) can leave, is undefined |
| DataObj.Data.PullChars | src/SqliteFetcher.cpp:214-221 | the push_back loop reads the bytes as characters |
| DataObj.Data.OverlayImage | src/SqliteFetcher.cpp:144-149 | the copy loop overlays the stored bytes on the target's image |
| DataObj.Data.Str | src/SqliteFetcher.cpp:430-506 | the SQL literal of the current value, also for a retagged cell whose buffer is narrower than its tag; undefined exactly where get overruns |
| DataObj.Data.TypeStr | src/SqliteFetcher.cpp:114-136 | the typeStr of the current value for any buffer unless DEFAULT is printed; with DEFAULT printed, undefined exactly where str() is |
| DataObj.Data.AppendIf | src/SqliteFetcher.cpp:117-128 | one flag test appends its keyword exactly when the flag is set |
| DataObj.Data.DecodeBlob | src/SqliteFetcher.cpp:570-579 | the pair loop yields the bytes of the BLOB literal, or the first parse error |
| DataObj.Data.SetFromText | src/SqliteFetcher.cpp:513-584 | corrected parse (INT64/UINT64 text read with stoll/stoull, see Findings): stores the parsed value, or reports the parse error and changes nothing |
| Generate.JoinSnoc | src/SqliteFetcher.cpp:959-968 | joining one more item adds the separator and the item |
| Generate.DefinitionKeepsTag | src/SqliteFetcher.cpp:967 | the type part of a column's CREATE definition resolves, as a declared type, to the tag of the column's type word, so the table is recreated with the column's tag |
| Generate.CreateQuery | src/SqliteFetcher.cpp:948-973 | the loops build one CREATE TABLE statement per table, in key order |
| Generate.CreateTableStatement | src/SqliteFetcher.cpp:957-969 | the inner loop builds `CREATE TABLE name(defs); ` |
| Generate.CreateSingle | src/SqliteFetcher.cpp:1019-1021 | the text for a one-table schema is that table's statement |
| Generate.LiteralsReadBack | src/SqliteFetcher.cpp:1045-1053 | corrected parse (see Findings): each integral or BLOB literal in VALUES parses, by the cell's tag, back to the value the cell holds |
| Generate.AppendJoined | src/SqliteFetcher.cpp:1033-1053 | the is_first loop appends the items joined by ", " |
| Generate.InsertQuery | src/SqliteFetcher.cpp:1028-1056 | `INSERT INTO name(keys) VALUES(literals); ` with keys and literals in the same order |
| Generate.InsertListQuery | src/SqliteFetcher.cpp:1060-1073 | one INSERT per row, in list order |
| Generate.CreateTableQuery | src/SqliteFetcher.cpp:977-999 | per table, the CREATE of its first row and the INSERTs of all rows; a table with no rows is undefined |
| Generate.CreateTableStep | src/SqliteFetcher.cpp:982-996 | one more table appends its CREATE and INSERT text |
| Generate.ErrorStays | src/SqliteFetcher.cpp:984 | a table with no rows anywhere makes the whole call undefined |
| Generate.FirstErrorIsUndefined | src/SqliteFetcher.cpp:984 | the only way this call fails is front() of an empty row list |
| Generate.NonKeys | src/SqliteFetcher.cpp:1091-1099 | the SET list holds no primary-key column |
| Generate.NonKeysContents | src/SqliteFetcher.cpp:1085-1100 | the SET list holds exactly the columns without the primary-key flag |
| Generate.LastKey | src/SqliteFetcher.cpp:1086-1090 | the WHERE clause uses the last primary-key column, and there is none exactly when no column has the flag |
| Generate.UpdateStep | src/SqliteFetcher.cpp:1085-1100 | one more column either replaces the key or extends the SET list |
| Generate.AssignmentsSnoc | src/SqliteFetcher.cpp:1098 | one more non-key column appends `name = literal` |
| Generate.UpdateQuery | src/SqliteFetcher.cpp:1077-1107 | the loop builds `UPDATE name SET assignments` plus the WHERE of the last key |
| Generate.UpdateKeyStep | src/SqliteFetcher.cpp:1085-1089 | a key column leaves the SET list alone and its WHERE clause replaces the previous one |
| Generate.UpdateSetStep | src/SqliteFetcher.cpp:1091-1099 | a non-key column is appended to the SET list after a comma unless it is the first; the WHERE clause stays |
| Generate.AppendAssignment | src/SqliteFetcher.cpp:1092-1098 | the is_first comma logic appends one assignment to the SET list |
| Generate.WhereIffKey | src/SqliteFetcher.cpp:1102-1104 | the WHERE clause is empty exactly when no column is a primary key |
| Generate.SetListExcludesKeys | src/SqliteFetcher.cpp:1086-1099 | a column is assigned in SET exactly when it is not a primary key |
| Select.Tokens | src/SqliteFetcher.cpp:752-766 | one token per whitespace word |
| Select.Cleaned | src/SqliteFetcher.cpp:755-766 | one cleaned word per word read |
| Select.CleanedAt | src/SqliteFetcher.cpp:757-765 | token i is word i with its first ',' and then its first ';' erased |
| Select.Clean | src/SqliteFetcher.cpp:757-764 | the two erase calls give the cleaned word |
| Select.IndexOf | src/SqliteFetcher.cpp:769-781 | the first word equal to either spelling, or none when no word is |
| Select.Keywords | src/SqliteFetcher.cpp:769-787 | when both keywords are found and a word follows FROM, their positions differ and FROM is not the last word |
| Select.KeywordsFound | src/SqliteFetcher.cpp:769-787 | the keywords are found exactly when SELECT and FROM occur with a word after FROM, and then at their first occurrences |
| Select.FindKeywords | src/SqliteFetcher.cpp:769-781 | the two find_if searches give the keyword positions or the error |
| Select.Selection | src/SqliteFetcher.cpp:819-840 | every selected column is a column of the table's schema |
| Select.Expressions | src/SqliteFetcher.cpp:804-832 | one select expression per column |
| Select.DecodeRow | src/SqliteFetcher.cpp:860-879 | corrected parse (INT64/UINT64 text read with stoll/stoull, see Findings): a decoded row is a well-formed column |
| Select.PutValid | src/SqliteFetcher.cpp:876 | storing a well-formed cell keeps the row well formed |
| Select.DecodeRows | src/SqliteFetcher.cpp:859-880 | corrected parse (INT64/UINT64 text read with stoll/stoull, see Findings): one decoded row per answer row, all well formed |
| Select.Tokenize | src/SqliteFetcher.cpp:752-766 | the `>>` loop yields the tokens |
| Select.FindWord | src/SqliteFetcher.cpp:769-781 | the find_if loop yields the first match |
| Select.IndexOfFirst | src/SqliteFetcher.cpp:769-770 | a match with none before it is the one found |
| Select.IndexOfNone | src/SqliteFetcher.cpp:771-774 | with no match, nothing is found |
| Select.SpacedWords | src/SqliteFetcher.cpp:797-799 | the loop writes each word up to SELECT followed by a space |
| Select.PrefixedWords | src/SqliteFetcher.cpp:846-850 | the loop writes a space before each word from FROM on |
| Select.SelectColumns | src/SqliteFetcher.cpp:820-839 | the loop yields the schema entries of the selected words, or undefined at the first missing one |
| Select.SelectionErrorStays | src/SqliteFetcher.cpp:835-838 | a selected word missing from the schema makes the rewrite undefined |
| Select.ListExpressions | src/SqliteFetcher.cpp:801-817 | the loop writes the expressions joined by ", " and notes whether any column is a BLOB |
| Select.RewriteQuery | src/SqliteFetcher.cpp:751-852 | the rewrite of the query against the cached schema, with each error path |
| Select.LocateQuery | src/SqliteFetcher.cpp:783-793 | the table after FROM is looked up; an unknown table is reported, and a FROM before SELECT is undefined |
| Select.RestateQuery | src/SqliteFetcher.cpp:791-852 | the selected columns and the text to send for a located table |
| Select.DecodeCells | src/SqliteFetcher.cpp:861-878 | corrected parse (INT64/UINT64 text read with stoll/stoull, see Findings): the inner loop decodes the row's cells |
| Select.DecodeRowErrorStays | src/SqliteFetcher.cpp:872-877 | a cell whose key is not in the schema makes the row undefined |
| Select.DecodeAnswer | src/SqliteFetcher.cpp:859-880 | corrected parse (INT64/UINT64 text read with stoll/stoull, see Findings): the outer loop decodes the rows in order |
| Select.DanglingRows | src/SqliteFetcher.cpp:859-880 | with a dangling schema reference, a successful decoding has one empty column per row |
| Select.DanglingRowsFail | src/SqliteFetcher.cpp:862-876 | with a dangling schema reference, decoding fails exactly when some row has a cell, and then as undefined behaviour |
| Select.DecodeRowsWithoutCells | src/SqliteFetcher.cpp:859-880 | an answer without cells decodes to the same empty columns whatever the schema |
| Select.DecodeDangling | src/SqliteFetcher.cpp:859-880 | the outer loop run with a dangling schema reference yields DanglingRows |
| Select.DanglingErrorStays | src/SqliteFetcher.cpp:862-876 | once a row with a cell is met, the whole answer is undefined |
| Select.DecodeRowsErrorStays | src/SqliteFetcher.cpp:859-880 | an undefined row makes the whole answer undefined |
| Select.QuoteRoundTrip | src/SqliteFetcher.cpp:806 | the result key of `quote(name)` is name again (with lines 866-868) |
| Select.PlainKey | src/SqliteFetcher.cpp:869-871 | a key without `quote(` is kept |
| Select.ExpressionKeys | src/SqliteFetcher.cpp:804-832 | each select expression comes back as its column's own name (with lines 864-871) |
| Select.RewriteShape | src/SqliteFetcher.cpp:783-852 | the plan's schema is the table's cached one, its columns come from it, without a BLOB the text is the query plus ';', and each BLOB column is wrapped in quote() |
| Select.RestateShape | src/SqliteFetcher.cpp:791-852 | once the table is located, the plan names it, its columns come from its schema, and BLOB columns are quoted |
| Select.RewriteRejects | src/SqliteFetcher.cpp:769-787 | no SELECT, no FROM, or no known table after FROM: the rewrite fails |
| Values.TypeStrKeepsTag | src/SqliteFetcher.cpp:876-877 | a cell decoded with its column's typeStr() resolves to the column's tag |
| Values.SelectedStartsWithSpace | src/SqliteFetcher.cpp:117-133 | every typeStr suffix starts with a space |
| Session.ColumnEntry | src/SqliteFetcher.cpp:922-941 | corrected parse (INT64/UINT64 text read with stoll/stoull, see Findings): a PRAGMA row gives a well-formed cell without the DEFAULT flag (flags, tag and name in Session.ColumnEntryFields) |
| Session.ColumnEntryFields | src/SqliteFetcher.cpp:922-941 | the entry is named by the row's name; PRIMARY KEY exactly when pk is "1" (then INTEGER/INT64), NOT NULL exactly when notnull is "1", no other flag; tag and type text from the declared type; without a default nothing is stored and the entry exists; a missing field is an error |
| Session.TableColumns | src/SqliteFetcher.cpp:921-942 | corrected parse (INT64/UINT64 text read with stoll/stoull, see Findings): the PRAGMA rows give a well-formed column map |
| Session.Exec | src/SqliteFetcher.cpp:650-667 | corrected exec and parse (see Findings): the statement is sent first, the cache is clean afterwards, and the result returned is the statement's own |
| Session.GetTableInfo | src/SqliteFetcher.cpp:887-908 | corrected exec and parse (see Findings): the catalog query is the first one sent, the result is well formed, and the cache is clean afterwards |
| Session.Tables | src/SqliteFetcher.cpp:894-906 | corrected exec and parse (see Findings): the loop over the catalog rows only appends statements and yields a well-formed schema |
| Session.TablesStep | src/SqliteFetcher.cpp:894-906 | corrected exec and parse (see Findings): one catalog row either stops the loop with its error, is skipped when it is not a table, or adds the table's columns before the rest |
| Session.Columns | src/SqliteFetcher.cpp:911-944 | corrected exec and parse (see Findings): PRAGMA table_info is sent, and the result is a well-formed column map |
| Session.PutInfoValid | src/SqliteFetcher.cpp:903 | adding a well-formed table keeps the schema well formed |
| Session.RefreshLeavesCatalogResult | src/SqliteFetcher.cpp:889-898 | after a refresh the last result belongs to a catalog query |
| Session.TablesLeaveCatalogResult | src/SqliteFetcher.cpp:895-906 | the per-table loop leaves a catalog query's result as the last one |
| Session.ExecResultClobbered | src/SqliteFetcher.cpp:650-667 | as written, exec after a genQueryCreate returns a catalog result and not the statement's; corrected, it returns the statement's |
| Session.CleanExecDoesNotRefresh | src/SqliteFetcher.cpp:650-667 | with the flag clear, exec sends only the statement and keeps the cache |
| Session.RefreshExactlyOnce | src/SqliteFetcher.cpp:660-663 | genQueryCreate sets the flag; the next exec sends its statement then the catalog query and clears it; the exec after sends only its statement (with line 971) |
| Session.CreateOverloadsAgree | src/SqliteFetcher.cpp:1003-1024 | the one-row table and the single-column overloads give the same text and state |
| Session.FetchColumn | src/SqliteFetcher.cpp:747-883 | corrected exec and parse (see Findings): the cache stays well formed |
| Session.FetchAfterRefresh | src/SqliteFetcher.cpp:854-880 | corrected exec (see Findings): after genQueryCreate, fetchColumn is undefined exactly when the answer has a cell, since the schema reference dangles; otherwise it returns one empty column per row |
| Session.FetchAfterRefreshAsWritten | src/SqliteFetcher.cpp:854-880 | as written, the rows the loop walks after a refresh are those of the last catalog statement, and the walk is undefined exactly when one of them has a cell |
| Session.InfoLookupValid | src/SqliteFetcher.cpp:789 | a table found in a well-formed schema is well formed |
| Session.FetchRejectsWithoutExec | src/SqliteFetcher.cpp:769-787 | a query the rewrite rejects sends nothing and changes nothing (with lines 835-838) |
| Session.FetchSendsRewrite | src/SqliteFetcher.cpp:842-883 | with a clean cache, exactly the rewritten query is sent and, without an error, the answer is its decoded rows |
| Session.Split | src/SqliteFetcher.cpp:676-690 | corrected: the statements contain no ';' |
| Session.SplitAsWrittenDropsLastChar | src/SqliteFetcher.cpp:677-681 | as written, a text with no ';' loses its last character |
| Session.SplitAsWrittenExample | src/SqliteFetcher.cpp:677-681 | as written, `SELECT 1` is sent as `SELECT ` |
| Session.SplitTerminated | src/SqliteFetcher.cpp:676-690 | corrected: statements joined with ';' terminators split back into themselves |
| Session.SplitFront | src/SqliteFetcher.cpp:676-689 | corrected: the first statement runs to the next ';' or to the end, and the rest is split after it |
| Session.FindAfterPrefix | src/SqliteFetcher.cpp:677 | the ';' found is the one after the first statement |
| Session.TerminatedSplit | src/SqliteFetcher.cpp:676-690 | corrected: the statements, each terminated, rebuild the text with a final ';' added when missing |
| Session.RunStatements | src/SqliteFetcher.cpp:676-690 | corrected exec and parse (see Findings): without an error, one result per statement |
| Session.Open | src/SqliteFetcher.cpp:594-619 | corrected exec and parse (see Findings): the state stays well formed |
| FetcherObj.Fetcher.constructor | src/SqliteFetcher.cpp:590 | nothing sent, no cached schema, flag clear |
| FetcherObj.Fetcher.Open | src/SqliteFetcher.cpp:607-619 | corrected exec and parse (see Findings): a failure records its text; otherwise the schema is loaded; the state is Session.Open's |
| FetcherObj.Fetcher.Exec | src/SqliteFetcher.cpp:650-667 | corrected exec and parse (see Findings): the fields and result are Session.Exec's |
| FetcherObj.Fetcher.GetTableInfo | src/SqliteFetcher.cpp:887-908 | corrected exec and parse (see Findings): the fields and result are Session.GetTableInfo's |
| FetcherObj.Fetcher.ScanTables | src/SqliteFetcher.cpp:894-906 | corrected exec and parse (see Findings): the loop over the catalog rows leaves the fields and result of Session.Tables |
| FetcherObj.Fetcher.ColumnsOf | src/SqliteFetcher.cpp:911-944 | corrected exec and parse (see Findings): the fields and result are Session.Columns's |
| FetcherObj.Fetcher.ColumnsFromRows | src/SqliteFetcher.cpp:918-943 | corrected parse (INT64/UINT64 text read with stoll/stoull, see Findings): the PRAGMA row loop yields Session.TableColumns |
| FetcherObj.Fetcher.FetchColumn | src/SqliteFetcher.cpp:747-883 | corrected exec and parse (see Findings): the fields and result are Session.FetchColumn's |
| FetcherObj.Fetcher.ExecSeparate | src/SqliteFetcher.cpp:671-692 | corrected split, exec and parse (see Findings): the fields and result are those of Session.ExecSeparate |
| FetcherObj.Fetcher.GenQueryCreate | src/SqliteFetcher.cpp:948-973 | the CREATE text, with the refresh flag set |
| FetcherObj.Fetcher.GenQueryCreateTable | src/SqliteFetcher.cpp:977-999 | the fields and text are Session.GenQueryCreateTable's |
| FetcherObj.Fetcher.GenQueryCreateList | src/SqliteFetcher.cpp:1003-1010 | the one-table case of GenQueryCreateTable |
| FetcherObj.Fetcher.GenQueryCreateColumn | src/SqliteFetcher.cpp:1015-1024 | the fields and text are Session.GenQueryCreateColumn's |

## Left out

- The SQLite C API (`sqlite3_open_v2`, `sqlite3_exec`, `sqlite3_close`) is not modelled. The engine is the `Engine` parameter, and an opening failure is the `failure` argument of `Open`.
- `execCallback` is not modelled. Its rows, with NULL shown as "", are part of the engine's reply.
- `close`, the `is_opened_` flag and the flags and VFS arguments of `open` are not modelled. Nothing in the core reads them.
- `dump` is not modelled. It is display formatting only.
- The `TypeDef` table and the default of `typeStr`'s argument live in the header. SqliteFetcher.hpp is not part of this model, so both are fields of `Dialect`.
- The text of a float or double, and stof/stod, are parameters of `Dialect`. Floating point is not modelled.
- The stored bytes use a little-endian layout. The source copies the native layout of the machine.
- `Values.Valid` (a fixed-width buffer is empty or exactly its tag's width) holds for every cell the constructors, `set` and the parsers build, and the schema and row functions require it. `setType(type text)` can break it by retagging a filled cell. `DataObj.Data.Get`, `Str` and `TypeStr` accept such a cell: a narrower buffer is read zero-extended, and a wider one is `Err(Overrun)`.
- A BOOL cell whose byte is neither 0 nor 1, such as a retagged INT8, reads as true. In C++ such a bool has no defined value.
- The cache insert at the top of `genQueryCreate(TableInfo_t)` compares with the end of the argument map, not of the cache, so it does not fire. It is modelled as no insert.
- `Session.FetchColumn` does not say which `err_msg` text goes with each failure. A failed exec, a missing `FROM` and an unknown table are kept apart as `EngineError`, `MalformedQuery` and `UnknownTable`. An `err_msg` alongside a returned empty list and a thrown exception are both an `Err`.
- `Session.ColumnEntry` looks up the keys of a PRAGMA row in the order dflt_value, pk, notnull, type, name, and reports the first missing key. In the source, `type` and `name` are looked up in one statement, where C++ leaves the order unspecified.
- `Session.Open` states only that the state stays well formed. `FetcherObj.Fetcher.Open` and the lemmas on `GetTableInfo` give the rest.
- `Session.FetchColumn` states only that the state stays well formed. `Session.FetchSendsRewrite` and `Session.FetchRejectsWithoutExec` state what is sent and returned.
- The integral `set`/`get`/`change` templates are one `Native` datatype with one constructor per C++ type, so each template specialisation is a case and not a separate member.
- SetFromText (`Defaults.SetFromText`) reads INT64 and UINT64 text with stoll/stoull (second Findings row). As written, `std::stoi` throws `std::out_of_range` for text outside the 32-bit range; `Defaults.ParseAsWritten` models that.
- SetFromText (`DataObj.Data.SetFromText`) is proved equal to `Defaults.SetFromText`, so it parses with the corrected stoll/stoull as well.
- FromText (`Defaults.FromText`) parses with the corrected `Defaults.SetFromText`. `Data("2147483648", "BIGINT", ..)` succeeds where the source throws.
- Parsed (`DataObj.Data.Parsed`) fails exactly when the corrected parse fails, not when the source's stoi throws.
- DecodeRow (`Select.DecodeRow`) decodes each cell through the corrected `FromText`. A BIGINT cell outside the 32-bit range decodes where the source throws.
- DecodeRows (`Select.DecodeRows`) inherits the corrected parse of `Select.DecodeRow`.
- DecodeCells (`Select.DecodeCells`) is proved equal to `Select.DecodeRow`, corrected parse included.
- DecodeAnswer (`Select.DecodeAnswer`) is proved equal to `Select.DecodeRows`, corrected parse included.
- ColumnEntry (`Session.ColumnEntry`) parses a non-empty dflt_value with the corrected `FromText`. A BIGINT default of 3000000000 gives a cell where the source throws.
- TableColumns (`Session.TableColumns`) inherits the corrected parse of `Session.ColumnEntry`.
- Columns (`Session.Columns`) decodes the PRAGMA rows with the corrected parse, and its exec is the corrected one.
- TablesStep (`Session.TablesStep`) states one step of the corrected `Session.Tables`.
- Tables (`Session.Tables`) runs on the corrected `Session.Columns` and exec.
- GetTableInfo (`Session.GetTableInfo`) uses the corrected exec. As written, entered with the flag set (after genQueryCreate), the catalog query's result is overwritten by the nested refresh's last PRAGMA result, so the loop finds no table rows and returns an almost empty schema; the model returns the full schema. The parse is the corrected one too.
- Exec (`Session.Exec`) is the corrected half of the first Findings row. It returns the statement's own result; `Session.ExecAsWritten` returns the refresh's last result, as the source does.
- Open (`Session.Open`) loads the schema through the corrected exec and parse. As written, an open entered with the flag set stores the almost empty schema described for `Session.GetTableInfo`.
- RunStatements (`Session.RunStatements`) runs each statement through the corrected exec and parse.
- FetchAfterRefresh (`Session.FetchAfterRefresh`) describes the corrected exec. As written, the loop walks the refresh's last PRAGMA rows, so the call is undefined whenever one of them has a cell; `Session.FetchAfterRefreshAsWritten` states this.
- LiteralsReadBack (`Generate.LiteralsReadBack`) reads INT64 and UINT64 literals with the corrected stoll/stoull. As written, stoi rejects those outside 32 bits.
- FetchColumn (`Session.FetchColumn`) runs the corrected exec and decodes with the corrected parse.
- Exec (`FetcherObj.Fetcher.Exec`) is proved equal to the corrected `Session.Exec`.
- Open (`FetcherObj.Fetcher.Open`) is proved equal to `Session.Open`, with the corrected exec and parse.
- ScanTables (`FetcherObj.Fetcher.ScanTables`) is proved equal to `Session.Tables`, with the corrected exec and parse.
- GetTableInfo (`FetcherObj.Fetcher.GetTableInfo`) is proved equal to `Session.GetTableInfo`, with the corrected exec and parse.
- ColumnsOf (`FetcherObj.Fetcher.ColumnsOf`) is proved equal to `Session.Columns`, with the corrected exec and parse.
- ColumnsFromRows (`FetcherObj.Fetcher.ColumnsFromRows`) is proved equal to `Session.TableColumns`, with the corrected parse.
- FetchColumn (`FetcherObj.Fetcher.FetchColumn`) is proved equal to `Session.FetchColumn`, with the corrected exec and parse.
- ExecSeparate (`FetcherObj.Fetcher.ExecSeparate`) uses the corrected split, and each statement runs through the corrected exec and parse.

## Findings

| source | as written | input that shows it | evidently intended | confidence | as-written member | corrected member |
|---|---|---|---|---|---|---|
| src/SqliteFetcher.cpp:660-666 | when the refresh flag is set, `exec` refreshes the schema cache into `last_exec_result_` before returning it, so it returns the last catalog result | `genQueryCreate(..)`, then `exec("CREATE TABLE t(x INTEGER); ")` | the statement's own result | not executed | Session.ExecResultClobbered | Session.Exec |
| src/SqliteFetcher.cpp:542-553 | INT64 and UINT64 defaults are parsed with `std::stoi`, which throws outside the 32-bit range | an INT64 cell holding 2147483648: `str()` prints `2147483648`, `set(INT64, "2147483648")` throws | stoll/stoull, so every stored value's literal reads back | not executed | Defaults.BigIntLiteralRejected | Defaults.LiteralRoundTrip |
| src/SqliteFetcher.cpp:678-681 | with no ';' after the last statement, the cut point is the last character, which `substr` leaves out | `execSeparate("SELECT 1")` sends `SELECT ` | cut at the end of the text | not executed | Session.SplitAsWrittenExample | Session.SplitTerminated |
