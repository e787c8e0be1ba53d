# RembranDB front end in Dafny

RembranDB is a small teaching column store whose queries are compiled to
LLVM. Its front end exists twice, as the C headers `parser.h` and `table.h`
and as their C++ twins `parser.hpp` and `table.hpp`. This project models
that front end as pure functions over strings, with a `Dialect` parameter
wherever the two versions differ:

- the tokenizer `_ParseToken` and its `PeekToken` / `ParseToken` wrappers
  (`Chars`, `Operators`, `Lexer`);
- the precedence-climbing expression parser `ParsePrimary`, `ParseRHS`,
  `ParseOperation` and `ParseOperationList` (`ExprParser`), and what it
  guarantees about the trees it builds (`ExprProps`, `Precedence`);
- the clause loop of `ParseQuery`, which accepts
  `SELECT list [FROM table [WHERE operation]]`, and the column
  resolution after it (`QueryParser`, `QueryProps`), with that grammar
  read straight through as a reference for the loop (`ClauseGrammar`);
- column-reference collection `_GetColumns` / `GetColumns`, with
  `ColumnInList`, `Tail`, `UnionColumns`, `GetColCount`, `InvertList`,
  `InvertColumnList` and `SelectStarFromTable` (`ColumnLists`);
- the catalog: column types, `GetColumn` and `GetTable` (`Catalog`);
- the descriptor reader: both `split` functions and `create_substring`
  (`Splitting`), `atoll` and `std::stoll` of the row count (`Numbers`), and
  the per-line logic of `ReadTable`, `InitializeTable`, `RegisterTable`
  and `ReadTables` (`Descriptor`);
- the text layout of the table printer: `PrintPaddedString` / `PadString`,
  the type and column widths, and the widths of the printed rows
  (`Layout`).

An outcome other than a value is a `Failure`:

- `Rejected` is a NULL result;
- `Undefined` is undefined behaviour, such as reading the uninitialised
  `table` of `ParseQuery` or dereferencing a NULL operation;
- `Aborted` is `assert(0)` or an uncaught C++ exception.

The index the source threads through a pointer or reference is returned
next to each token or tree. Parse functions return it even when they fail,
because `ParseOperationList` goes on after a NULL operation. `PeekToken`
is `Lexer.Peek`: it returns only the token, so the caller's index is left
as it was. The file system is a parameter of the reader: the descriptor
files are given as their lines, and the openable column files as a set of
paths.

Where the two versions behave differently, the model follows each one's
code:

- C ends a query at the first `'\0'` and C++ at `size()`.
- C keeps only the first SELECT expression and treats `SELECT *`
  specially. C++ keeps every expression, each with its own column list.
- C's `_GetColumns` skips a NULL operation and C++'s dereferences it.
- C splits a descriptor line at single spaces, keeping the newline on the
  last field. C++ takes whitespace-separated words of the line without its
  newline.
- C reads the count with `atoll` and C++ with `std::stoll`.

The descriptor lines the readers parse are the ones the table generator
writes, `name type count` with a newline (gentbl.py:37).
`Descriptor.LineRoundTrip` shows that both readers read such a line back.
The C reader loads each column's data as soon as it reads the column
(table.h:164), and the C++ reader leaves the data unloaded. The model
records which one happened in `Column.loaded`.

## Model

| member | source | states |
|---|---|---|
| Chars.Span | parser.h:209-211 | a scanning loop stops at the first character outside its class and never runs past the end of the query |
| Chars.SpanRun | parser.h:219-221 | every character a scanning loop passes over belongs to the class it scans |
| Operators.IsOperatorExactly | parser.h:161-205 | IsOperator holds exactly on the fifteen recognised spellings, which are exactly the strings OperatorType does not map to -1, so the two tables fail on the same strings |
| Operators.PrecedenceFollowsType | parser.hpp:154-194 | two spellings with the same operator code bind equally tightly (`!=`/`<>`, `&&`/`AND`, `\|\|`/`OR`) |
| Operators.PrecedenceLevels | parser.h:182-201 | `*` `/` bind tighter than `+` `-`, which bind tighter than comparisons, then equality, then AND, then OR |
| Lexer.Lex | parser.h:207-281 | a read that starts beyond the terminator is an overrun, and only such a read; otherwise end of input is returned exactly when the first non-blank is the terminator or `;`, and it consumes only the blanks; every other token starts inside the query and moves the index forward; an operator token is a recognised operator |
| Lexer.Punctuation | parser.h:266-280 | `(`, `)` and `,` are one-character tokens and anything else there is one invalid character; this tail never yields an operator or end of input |
| Lexer.WordClasses | parser.h:225-241 | keywords are case-sensitive whole words: only the exact spellings are SELECT, FROM and WHERE, only AND and OR are operators, and every other word is an identifier |
| Lexer.LexWord | parser.h:216-242 | a word starting with a letter is the maximal alphanumeric run, and its token is decided by that whole run |
| Lexer.LexNumber | parser.hpp:235-245 | a numeric constant is the maximal run of digits and `.` starting at a digit or `.` |
| Lexer.LexOperatorRun | parser.h:254-279 | a maximal run of operator characters is an operator token exactly when the whole run is a recognised operator; otherwise lexing continues with the punctuation checks after the run |
| LexExamples.KeywordsAreWholeWords | parser.h:216-242 | `SELECTx` and `select` lex as identifiers and `SELECT` as the keyword |
| LexExamples.UnknownOperatorRunIsSkipped | parser.h:254-279 | `>>(` and `>>,` lex as `(` and `,`, and `=a` as an invalid token that also consumes the `a` |
| LexExamples.OperatorRuns | parser.h:254-264 | `<=` and `<>` are each taken whole as one operator token |
| LexExamples.RunAtEndOverruns | parser.h:266-280 | an unknown operator run at the end makes the terminator the invalid token, and the next read starts beyond the query |
| LexExamples.NumbersTakeEveryDot | parser.h:243-252 | `1.2.3` lexes as a single constant |
| LexExamples.EndOfQuery | parser.h:209-214 | `;` after blanks ends the query in both dialects, consuming only the blanks; an embedded NUL ends it only in C |
| ExprParser.ParsePrimary | parser.hpp:286-307 | a primary succeeds only on a constant, an identifier or `(`; after `(` it succeeds exactly when the inner operation parsed and the next token is `)`, giving the inner tree and consuming the `)` token (or whatever stands there); it always consumes a token, and a successful tree carries correctly coded operators |
| ExprParser.ParseOperationList | parser.hpp:354-381 | the list is never empty, its first entry is the first operation, and it stops at a token that is not a comma |
| ExprProps.ListTrace | parser.h:365-390 | when every entry parsed, the list consumed the entries' tokens one after another separated by commas: without parentheses its reading is the entries' readings joined by commas, with one comma fewer than entries |
| ExprProps.ReadingsCommas | parser.h:382-388 | the reading of `n` trees joined by commas has exactly `n - 1` commas, since a tree's reading has none |
| ExprProps.PrimaryTrace | parser.h:296-317 | a successful primary consumed tokens whose reading, without parentheses, is the primary's tree |
| ExprProps.OperandTrace | parser.h:336-349 | a successful right operand consumed tokens whose reading, without parentheses, is the operand's tree |
| ExprProps.RHSTrace | parser.h:319-353 | the right-hand side appends to the left operand's reading exactly the tokens it consumed, without parentheses |
| ExprProps.OperationTrace | parser.h:355-362 | the in-order reading of a parsed operation is the token sequence consumed, without parentheses, so operands and operators keep the query's order |
| Precedence.PrimaryAtom | parser.h:296-317 | without parentheses a successful primary is a constant or a column |
| Precedence.OperandOrdered | parser.h:336-349 | the right operand of an operator binds strictly tighter than that operator and stops before any operator that does not |
| Precedence.RHSOrdered | parser.h:319-353 | the tree built by ParseRHS has tighter operators below looser ones and equal ones grouped to the left, and it stops before an operator looser than its bound |
| Precedence.OperationOrdered | parser.h:355-362 | a parenthesis-free operation is ordered by precedence and groups equal precedence to the left, and it takes in every operator that follows it |
| ParseExamples.ProductBindsTighter | parser.h:336-349 | `a+b*c` parses as `a+(b*c)` |
| ParseExamples.SubtractionGroupsLeft | parser.h:319-353 | `a-b-c` parses as `(a-b)-c` |
| Catalog.TypeNames | table.h:138-150 | `int`, `lng`, `flt` and `dbl` each name exactly one type, with code and element size (1,4), (2,8), (3,4), (4,8) |
| Catalog.FindColumn | table.h:45-53 | the index found is the first column carrying the name; none is found exactly when no column carries it |
| Catalog.GetColumnFirstMatch | table.hpp:46-54 | GetColumn answers NULL exactly when no column has the name, and otherwise the first column of the table with that name |
| Catalog.FindTable | table.h:55-62 | the slot found is the first non-NULL slot whose table has the name; none is found exactly when no slot does |
| Catalog.GetTableFirstMatch | table.hpp:56-63 | GetTable answers NULL exactly when no registered table has the name, and otherwise the table of the first slot registered under that name |
| ColumnLists.ExtendContents | parser.h:594-610 | the union keeps `a` as a prefix, holds exactly the elements of `a` and `b`, and adds no duplicates to a duplicate-free `a` |
| ColumnLists.ExtendIsAppendWithout | parser.h:594-610 | when `b` is duplicate-free, the union is `a` followed by the elements of `b` not in `a`, in `b`'s order |
| ColumnLists.UnionColumns | parser.h:594-610 | two NULL lists abort; one NULL list gives the other; otherwise `a` is extended by the elements of `b` not yet present |
| ColumnLists.ColumnInList | parser.h:576-585 | true exactly when the column is in the list |
| ColumnLists.Tail | parser.h:587-592 | the last node of a non-empty list |
| ColumnLists.CollectLift | parser.h:537-565 | the walk fails exactly when a referenced name is unknown, and otherwise extends the list by the referenced columns in first-occurrence order |
| ColumnLists.GetColumnsSpec | parser.h:567-574 | GetColumns is NULL exactly when some referenced name is unknown; otherwise it gives the distinct referenced columns in first-occurrence order, without duplicates |
| ColumnLists.GetColumnsMembers | parser.hpp:464-498 | a column is in the list exactly when a referenced name resolves to it, and the NULL sentinel remains exactly when the tree references no column |
| ColumnLists.GetColCount | parser.h:612-620 | the count is the number of leading nodes that hold a column |
| ColumnLists.ColCountOfLift | parser.hpp:500-508 | on a list GetColumns built, GetColCount is the number of distinct columns collected |
| ColumnLists.SentinelHidesColumns | parser.h:594-620 | the union of the sentinel list [NULL] with a column list keeps NULL first, so GetColCount counts 0 |
| ColumnLists.Invert | parser.h:394-418 | inverting a list gives its reverse, element by element |
| ColumnLists.ReverseTwice | parser.h:408-418 | inverting twice gives back the original order |
| ColumnLists.SelectStarFromTable | parser.h:420-432 | one column operation per table column, in the table's column order |
| QueryParser.Scan | parser.h:445-517 | the clause loop fails only with NULL or, when a list reads past the terminator, undefined behaviour; in an accepted result the table is a registered one, a SELECT list is non-empty with a non-NULL first entry in C, `SELECT *` occurs only in C, a WHERE comes with a FROM and a FROM with a SELECT, and the SELECT list never changes after SELECT |
| ClauseGrammar.ScanIsGrammar | parser.h:445-517 | the clause loop gives exactly the outcome of reading `SELECT list [FROM table [WHERE operation]]` straight through: the same clauses when accepted, NULL for a second SELECT, a FROM not after the SELECT list, a FROM without a registered table name, a WHERE not after FROM, a WHERE list with a comma, or any trailing token, and undefined behaviour for a list that reads past the end |
| ClauseGrammar.ScanAfterSelect | parser.hpp:407-446 | after the SELECT part the loop accepts only the end or `FROM table` followed by the WHERE part |
| ClauseGrammar.ScanAfterFrom | parser.hpp:425-446 | after the FROM part the loop accepts only the end or one WHERE operation followed by the end |
| QueryParser.ParseQueryC | parser.h:434-535 | an accepted C query names a registered table and carries a non-empty duplicate-free column list; a failure other than NULL is undefined behaviour |
| QueryParser.Attach | parser.hpp:455-460 | every SELECT entry, in order, gets its own GetColumns list; the loop fails exactly when an entry is NULL or names an unknown column |
| QueryParser.ParseQueryCpp | parser.hpp:383-462 | an accepted C++ query names a registered table whenever it has a table, and has a WHERE only after a FROM; a failure other than NULL is undefined behaviour |
| QueryProps.FirstTokenMustBeSelect | parser.h:445-511 | any first token other than SELECT or end of input makes ParseQuery return NULL in both dialects |
| QueryProps.EmptyQuery | parser.hpp:450-462 | a query without tokens is undefined behaviour in C and an empty query in C++ |
| QueryProps.SelectWithoutFrom | parser.h:518-533 | a SELECT part followed by the end of input is undefined behaviour in both dialects, because the never-set `table` is read |
| QueryProps.SelectListOverrun | parser.h:462 | a SELECT list that reads past the terminator is undefined behaviour in both dialects, before C looks at its first entry |
| QueryProps.WhereListOverrun | parser.hpp:433 | a WHERE list that reads past the terminator is undefined behaviour in both dialects |
| QueryProps.SelectRunAtEnd | parser.h:382 | `SELECT >>` is undefined behaviour in both dialects: the list peeks beyond the query |
| QueryProps.CKeepsFirstSelect | parser.h:462 | an accepted C query selects the first expression of the SELECT list |
| QueryProps.CppKeepsEverySelect | parser.hpp:455-460 | an accepted C++ query keeps every SELECT expression in order, each with the column list GetColumns computes for it |
| QueryProps.CSelectStar | parser.h:518-521 | C's `SELECT *` selects only the first column of the FROM table |
| QueryProps.QueryColumnsC | parser.h:522-533 | the columns of an accepted C query are exactly the table columns that a name in the select or WHERE operation resolves to |
| Layout.Pad | table.hpp:137-148 | the string is unchanged when it is at least `width` long; otherwise the result is exactly `width` long, with the string as a contiguous infix after `(width-len)/2` padding characters and padding everywhere else |
| Layout.PadBalanced | table.h:184-194 | the right padding equals the left padding or exceeds it by one |
| Layout.PadIdempotent | table.hpp:137-148 | padding a padded string again to the same width changes nothing |
| Layout.PrintPaddedString | table.h:178-195 | the characters written are exactly the padded string |
| Layout.TypeWidth | table.h:197-211 | the five type codes have widths between 10 and 30, and any other code gives `(size_t)-1` |
| Layout.TypeWidths | table.hpp:150-164 | the widths of int, lng, flt, dbl and str are 10, 20, 20, 30 and 20 |
| Layout.ColumnWidth | table.h:217-219 | a column's width is the larger of its type's width and its name's length |
| Layout.HeaderRowFits | table.h:243-265 | the header row is as long as the width sum of the columns, so it matches the dashed lines whenever that sum does not wrap |
| Layout.TablesWidth | table.h:221-227 | PrintTables' width is the widest registered name plus four, and is reached by some table |
| Layout.TablesRowsFit | table.hpp:170-186 | each table line of PrintTables is exactly as wide as the dashed lines |
| Splitting.CreateSubstring | table.h:68-71 | the copy is exactly the characters from `start` to `end` |
| Splitting.PiecesCount | table.h:73-81 | split returns one more piece than the string has delimiters |
| Splitting.PiecesPlain | table.h:82-91 | no piece contains the delimiter |
| Splitting.JoinPieces | table.h:73-92 | joining the pieces with the delimiter gives back the string |
| Splitting.PiecesOfJoin | table.h:73-92 | splitting delimiter-free pieces joined by the delimiter gives the pieces back |
| Splitting.CountPieces | table.h:76-81 | the first loop counts one piece plus one per delimiter |
| Splitting.CutPieces | table.h:82-90 | the second loop cuts exactly the pieces between the delimiters |
| Splitting.Split | table.h:73-92 | split returns the pieces, and their number is the delimiter count plus one |
| Splitting.WordsSound | table.hpp:69-81 | every word is non-empty and whitespace-free, and the words together are the string with its whitespace removed |
| Splitting.WordsOfJoinSpace | table.hpp:69-81 | words joined by single spaces split back into the same words |
| Splitting.SplitWords | table.hpp:69-81 | the C++ split returns the maximal non-whitespace runs in order |
| Numbers.DecimalRoundTrip | gentbl.py:37 | reading back the digits `%d` writes gives the number |
| Numbers.Atoll | table.h:152 | atoll gives a `long long` value, and only an out-of-range value is undefined behaviour |
| Numbers.Stoll | table.hpp:110 | stoll gives a `long long` value or aborts the program |
| Numbers.AtollStoll | table.hpp:110 | atoll and stoll agree wherever stoll succeeds; where stoll throws, atoll gives 0 or is undefined |
| Numbers.ReadDecimal | table.h:152 | both readers read back a `%d`-written count followed by a non-digit |
| Descriptor.Truncate | table.h:153-154 | the snprintf buffer keeps a prefix of at most 499 characters, and the whole string when it fits |
| Descriptor.ReadLine | table.h:128-163 | an accepted line has at least three fields, its name and count come from them, its type is set exactly when the type word names it, and its data path is `Tables/<table>/<column>.col`; fewer than three fields is NULL in C and undefined in C++ |
| Descriptor.LineRoundTrip | gentbl.py:37 | both readers turn the line gentbl.py writes back into the column's name, type, count and data path |
| Descriptor.FieldsC | table.h:129 | C splits a generated line into name, type and count, the last with the newline |
| Descriptor.FieldsCpp | table.hpp:91-92 | C++ splits a generated line into name, type and count |
| Descriptor.ReadTable | table.hpp:84-127 | a descriptor that cannot be opened gives NULL, and an accepted table carries the requested name |
| Descriptor.ReadLinesReversed | table.h:127-165 | the columns are the lines' columns in reverse line order; a failure is that of the first failing line |
| Descriptor.LoadTable | table.h:170-175 | a non-NULL slot holds the table with the requested name |
| Descriptor.Register | table.h:64-66 | registering appends one slot, and is undefined past the hundredth |
| Descriptor.RegisterAll | table.hpp:130-134 | registration never grows the array beyond its hundred slots |
| Descriptor.RegisterAllInOrder | table.hpp:130-134 | the registry keeps the existing slots, followed by the new ones in order |
| Descriptor.ReadTablesInOrder | table.hpp:130-134 | ReadTables adds one slot per name, in the given order, each the table read under that name or NULL |

## Left out

- LLVM code generation, the JIT and `ExecuteQuery` are not modelled. They
  are foreign library calls over double-precision arithmetic.
- The REPL, flag handling and printing in `database.c` are not modelled.
- `gentbl.py` and `checktbl.c` are modelled only through the line format
  at gentbl.py:37.
- File I/O (`fopen`, `getline`, `fread`) is not modelled; file contents
  are parameters. `ReadColumnData` is left out; `Column.loaded` records
  only that C calls it.
- Numeric constants keep their lexeme; the `strtod` conversion to
  `numval` is not modelled.
- The global `strval` and `numval`, `malloc`/`free`, allocation failure
  and pointer identity are not modelled. `GetColumn` is first-match, so a
  name identifies its column.
- PrintTable's data rows (the loop from table.h:268) are not modelled.
  The model has only the header and dashed-line widths.
- Chars.IsSpace and the other classes: follow the "C" locale for ASCII;
  `ctype` on characters outside `unsigned char` is not modelled.
- Lexer.Lex: a C query's embedded `'\0'` ends it. At index `size()`
  both readers see the terminator, modelled by `At`. A read that starts
  beyond it gives the `Overrun` token instead of whatever memory holds.
  The expression functions carry it along as a failed parse. The clause
  loop turns an operation list that ended beyond the terminator into
  undefined behaviour.
- Layout.ColumnWidth: models C++'s `fmax` as an exact integer maximum.
  It does not model the rounding of `(size_t)-1` to a double and back.
- Layout.TypeByte: the type byte of a column with an unknown type word
  is never written, so `unset` is a parameter.
- Layout.TableWidth: the C `size_t` sum wraps modulo 2^64; HeaderRowFits
  states the length match only when the sum does not wrap.
- Descriptor.RegisterAll and Descriptor.ReadTables: require the registry
  to hold at most its hundred slots. `Register` models the out-of-bounds
  write past it as undefined behaviour.
- Descriptor.ReadLine: descriptor lines with an embedded `'\0'` are not
  distinguished in C, where `split` would stop at it.
- Catalog.GetColumn and Catalog.GetTable: their own `ensures` state only
  that an answer carries the name. The first-match and NULL cases are in
  `FindColumn`, `FindTable` and the two `FirstMatch` lemmas.
- QueryParser.ParseQueryCpp: keeps the WHERE list's single entry, not the
  list node the source stores.
- The write of each resolved column pointer back into its column-reference
  node (parser.h:550, parser.hpp:474) is not modelled. The trees stay
  immutable, and the column a name resolves to is `GetColumn` of the
  table, which the column lists already carry.
