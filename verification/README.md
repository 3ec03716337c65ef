# Espalier: verified models of the query, cache, pool and migration core

Espalier is an object-relational mapper for TypeScript. This project models the
parts of it that are algorithms or closed state machines, and proves what they
promise. Each module carries the operations of one source file, or of one
concern of it, and the theorems about it.

- **Relay cursor pagination** (`RelayCursor`, `RelaySeek`, `SeekReading`,
  `RelayPages`, `RelayRuns`, `CursorMapping`): the seek condition is built as
  text and rewritten twice, as in the code; its characters, read as SQL, mean
  strict lexicographic order in SQL's three-valued logic (section 8.12 of
  ISO/IEC 9075:1992). On top of that stand theorems
  about whole runs of pages, in the sense of sections 4.3, 4.4 and 5.1 of the
  GraphQL Cursor Connections Specification: stability under changes, exact
  enumeration, and backward paging that undoes forward paging; and which tables
  and which entity mappings can be paged at all.
- **Derived queries** (`Words`, `DerivedQueryParser`, `OperatorNames`,
  `ParserRoundTrip`, `UnprintedNames`, `DerivedQuery`, `QueryCompiler`,
  `QueryTemplate`, `CompiledQuery`, `BindingNames`, `PlaceholderInName`,
  `DerivedExecutor`, `DerivedEquivalence`, `RouteAgreement`,
  `CompiledStatement`): method names are parsed; the compiled route (template,
  then binding) and the direct route (criteria tree) to SQL agree on every row;
  the statement, read as SQL, asks for what the method name says; and exactly
  when binding gives the intended text.
- **Criteria and SQL text** (`SqlText`, `SqlCondition`, `Criteria`,
  `SqlUtils`, `ThreeValued`): text is kept as pieces beside the characters, so
  that numbering is a theorem about the text the code really produces.
- **Reading SQL** (`SqlReader`, `StatementReader`): a reader of the language
  the library writes, from characters to conditions and statements, which
  shares nothing with the code that writes them; what is written is read back
  (`ReadBack`, `ReadChains`). Meaning is always that of the characters read.
- **Caches** (`Recency`, `EntryList`, `EntryMap`, `QueryCache`,
  `QueryCacheRuns`, `EntityCache`, `EntityCacheRuns`): linked lists on the heap,
  refined to recency-ordered sequences, and whole histories of these.
- **Query batcher and proxy data source** (`BatchChunk`, `QueryBatcher`,
  `ProxyDataSource`): every stretch between two awaits is one method of a class
  that also holds what the runtime holds; what every method keeps holds under
  every interleaving.
- **Plugins** (`DependencyOrder`, `PluginManager`, `PluginRemoval`),
  **migrations** (`Migrations`, `MigrationRunner`), **bulk statements**
  (`BulkOperations`, `BulkUpdates`) and **query statistics**
  (`QueryStatistics`).
- **Schema diff** (`SqlTypes`, `TypeSpellings`, `DdlGenerator`, `SchemaDiff`; `SchemaChange`,
  `SchemaMigration` and `SchemaDown` for tables and columns; `SchemaLinks`,
  `SchemaReferences` and `SchemaRestore` for databases with the references
  between their tables; `SchemaRuns`, `SchemaExamples`): a database holds what
  its column types denote, however they are spelled, and refuses statements
  that would leave a reference without its column or its target.

Loops that update variables are methods with loops, proved against functions;
objects that update their fields are classes. The theorems are lemmas about
those functions.

Some promises turned out to hold only under a condition. For these the model
keeps the code as it is, and a lemma states the exact condition or a concrete
failing input:

- `?` drivers bind the seek condition wrongly from three key columns on
  (`RelaySeek.PositionalExactly`, `RelaySeek.ThirdQuestionMark`).
- A cursor with fewer values than key columns leaves unresolved marks, which the
  database refuses (`SeekReading.RunnableExactly`).
- An empty list leaves the column name in front of `(1=0)`, which the database
  refuses (`DerivedEquivalence.WhereExactly`, `RouteAgreement.WhereRead`), and a later placeholder inside a quoted
  name misleads the slow binding path (`CompiledQuery.PassExactly`,
  `BindingNames.NamesExactly`, `PlaceholderInName.WrongStatement`).
- A sort column mapped to a field of another name is not read into the cursor:
  a first one leaves the second page empty (`CursorMapping.PagesExactly`,
  `CursorMapping.UnreadColumnEndsRun`). A NULL in a sort column that no earlier
  one decides hides rows (`RelayRuns.EnumerableExactly`).
- A property whose name ends with an operator's name is read as that operator
  (`ParserRoundTrip.BareExactly`).
- `rollback` with `steps` zero takes back everything (`Migrations.StepsExactly`),
  and a migration below an applied version breaks the fold in version order
  (`Migrations.StaysIncreasing`, `MigrationRunner.OutOfOrder`).
- The schema diff compares with other types than it creates: inferred and
  embedded types and join columns of a new table are undone by the next diff
  (`SchemaMigration.Converges`, `SchemaRuns.CreatedIsAltered`,
  `SchemaExamples.BooleanFieldAndRelation`), and a type that the database reports
  as another one is altered by every migration (`SchemaRuns.NeverSettles`).
- The up statements create tables in the order of the entities, wherever these
  refer to, and name no schema in references (`SchemaReferences.UpRuns`,
  `SchemaExamples.UsersFirst`). The down statements drop them in the same
  order, which fails when one refers to another (`SchemaRestore.DownRuns`,
  `SchemaRestore.BackwardsRuns`, `SchemaExamples.TeamsFirst`); they name no
  schema and restore only some databases (`SchemaRestore.Restores`,
  `SchemaRestore.DownMissesSchema`).
- The CASE update takes the first of several rows with one id
  (`BulkUpdates.BulkEqualsExactly`, `BulkUpdates.DuplicateIds`), and has more
  placeholders than parameters, so `?` drivers cannot bind it
  (`BulkOperations.UpdateNeverPositional`).
- A second close of a connection wrapper puts its connection into two places
  (`ProxyDataSource.SecondCloseDuplicates`).
- After `removePlugin`, destroy can fail or run in another order
  (`PluginManager.RemovalLeavesGap`, `PluginRemoval.OrderKeptExactly`,
  `PluginManager.RemovalChangesOrder`).
- A sample limited to one duration loses the maximum, one limited to none loses
  all (`QueryStatistics.KeepsEndsExactly`).

`dafny verify dfyconfig.toml` checks the whole project.

## Model

| member | source | states |
|---|---|---|
| SeekReading.SeekIsLexicographic | packages/data/src/pagination/relay-cursor-strategy.ts:145-213 | for any sort columns and mixed directions, cursor values, offset and row (NULLs included): the text the builder gets from both rewrites, read character by character as SQL - names, operators, AND, OR, parentheses, parameter numbers - and evaluated in three-valued logic with the emitted parameters, is true exactly of the rows strictly after the cursor in the sort order, or strictly before it when backward |
| SeekReading.SeekReads | packages/data/src/pagination/relay-cursor-strategy.ts:159-213 | the characters of the condition are read as the disjunction of the parts, each the conjunction of its comparisons |
| RelaySeek.PlaceholdersResolve | packages/data/src/pagination/relay-cursor-strategy.ts:188-212 | exactly n(n+1)/2 parameters are emitted for n key columns, and every placeholder resolves to its own column's cursor value |
| SeekReading.RunnableExactly | packages/data/src/pagination/relay-cursor-strategy.ts:151-198 | the text is a condition with all its parameters bound exactly when the cursor carries a value for every key column; else an unresolved mark makes the database refuse it |
| RelaySeek.PositionalExactly | packages/data/src/pagination/relay-cursor-strategy.ts:191-198 | the placeholders stand in the text in numeric order, as drivers that bind `?` by position need, exactly when there are at most two key columns |
| RelaySeek.ThirdQuestionMark | packages/data/src/pagination/relay-cursor-strategy.ts:161-198 | with three or more key columns the third `?` compares the second column but receives the first column's value |
| RelayCursor.SeekText | packages/data/src/pagination/relay-cursor-strategy.ts:159-186 | the nested loops over depth and earlier columns write the parts in order, each with equalities before one strict comparison; what these characters say is SeekReading.SeekIsLexicographic |
| RelayCursor.RewriteCursorMarks | packages/data/src/pagination/relay-cursor-strategy.ts:188-198 | the first textual rewrite turns every value's mark into fresh final marks and collects one parameter for each; `$__cursor_1__` is never taken inside `$__cursor_10__` |
| RelayCursor.ToSql | packages/data/src/pagination/relay-cursor-strategy.ts:202-213 | the second textual rewrite numbers the final marks from any offset, without gap |
| RelayCursor.ApplyCursorCondition | packages/data/src/pagination/relay-cursor-strategy.ts:137-213 | the raw criteria the builder receives: rewritten text and collected parameters, also for cursors with too few or too many values; numbered, the text means what SeekReading.SeekIsLexicographic says |
| RelayCursor.BaseTotal | packages/data/src/pagination/relay-cursor-strategy.ts:188-198 | the number of collected parameters is n(n+1)/2 |
| RelayCursor.CollectedAt | packages/data/src/pagination/relay-cursor-strategy.ts:191-198 | the parameter in the slot of part d and column j is column j's cursor value |
| RelayPages.ApplyToQuery | packages/data/src/pagination/relay-cursor-strategy.ts:66-91 | condition, effective directions, tie-breaking id and limit + 1 that the builder is given, or the builder's refusal of a negative limit; without a size the page has ten rows |
| RelayPages.NumberedCondition | packages/data/src/pagination/relay-cursor-strategy.ts:202-213 | the text and parameters the builder gets from the condition: the text that SeekReading.SeekIsLexicographic reads |
| RelayPages.BuildResult | packages/data/src/pagination/relay-cursor-strategy.ts:93-135 | the edges are the fetched rows without the surplus one, in forward order, ten without a size; the flags, cursors and total of the page; a page that was not cut is reversed in the caller's array |
| RelayPages.ReverseInPlace | packages/data/src/pagination/relay-cursor-strategy.ts:105-107 | the array afterwards is the reverse of what it was |
| RelayRuns.ForwardPage | packages/data/src/pagination/relay-cursor-strategy.ts:66-135 | a forward page is the next `limit` rows of the ranking and hasNextPage says whether rows remain |
| RelayRuns.BackwardPage | packages/data/src/pagination/relay-cursor-strategy.ts:66-135 | a backward page is the `limit` rows just before the cursor in forward order; hasPreviousPage says whether earlier rows remain |
| RelayRuns.RunInvariant | packages/data/src/pagination/relay-cursor-strategy.ts:66-135 | in every forward run over tables that change arbitrarily between fetches the returned rows strictly ascend, and every key present throughout was returned or lies ahead of the end cursor |
| RelayRuns.RunIsStable | packages/data/src/pagination/relay-cursor-strategy.ts:40-41 | no key is returned twice, and a run that ended with hasNextPage false has returned every key present throughout |
| RelayRuns.RunEnumerates | packages/data/src/pagination/relay-cursor-strategy.ts:66-135 | on an unchanging table every finished run of any page sizes has returned the table in sort order, each row once, and no run has more pages than the table has rows, plus one |
| RelayRuns.RunFinishes | packages/data/src/pagination/relay-cursor-strategy.ts:66-135 | from any run so far, asking on with endCursor while hasNextPage holds comes to an end and then has enumerated the table |
| RelayRuns.EnumerableExactly | packages/data/src/pagination/relay-cursor-strategy.ts:66-181 | where cursors carry the keys, NULLs included, the rows of a table can be had one by one exactly when the first key column that tells any two of them apart is NULL in neither; the theorems about runs ask for no more |
| RelayRuns.BackwardFromPage | packages/data/src/pagination/relay-cursor-strategy.ts:67-126 | `last: k, before: startCursor` of any page gives exactly the k rows just before it, fewer at the start, and hasPreviousPage tells which |
| RelayRuns.BackwardUndoesForward | packages/data/src/pagination/relay-cursor-strategy.ts:67-126 | going back from the following page with the same size returns the page itself, edge for edge |
| CursorMapping.ReadsExactly | packages/data/src/pagination/relay-cursor-strategy.ts:216-230 | for every row the cursor read off the mapped entity is the row's key exactly when each sort column is mapped to the field of its own name, or else to that of its camel-case form, and the id to its field |
| CursorMapping.MappedIsSound | packages/data/src/pagination/relay-cursor-strategy.ts:216-230 | tables whose entities come from such a mapping meet what the theorems about runs ask exactly when any two rows are told apart by the key, as they are by unique ids without NULL in a key column |
| CursorMapping.NullDecidesNothing | packages/data/src/pagination/relay-cursor-strategy.ts:159-181 | a cursor without a value for one key column selects only rows that an earlier column already puts behind it |
| CursorMapping.UnreadColumnEndsRun | packages/data/src/pagination/relay-cursor-strategy.ts:216-230 | if the first sort column is mapped to a field of another name, no row of any table follows the cursor of any row: the second page is empty |
| CursorMapping.PagesExactly | packages/data/src/pagination/relay-cursor-strategy.ts:137-230 | for any mapping: after every row exactly the later of all rows with other ids are selected, if and only if the fields of all key columns up to the id hold the columns that are meant |
| CursorMapping.AnotherName | packages/data/src/pagination/relay-cursor-strategy.ts:228-230 | such a mapping: a column without underscores that a field of another name holds |
| CursorMapping.CamelUndoesSnake | packages/data/src/pagination/relay-cursor-strategy.ts:228-230 | a column named by the snake case of a field is looked for under the field's own name |
| Criteria.NumberedLeftToRight | packages/data/src/query/criteria.ts:28-134 | for every criteria tree and offset k the placeholders read left to right are $k ... $(k+n-1), n the number of parameters |
| Criteria.TextOfCriteria | packages/data/src/query/criteria.ts:28-134 | the concatenated text of a tree is the text of the condition the tree denotes |
| Criteria.MeaningOfCriteria | packages/data/src/query/criteria.ts:28-134 | bound at any offset among any other parameters, the condition the text renders has the three-valued meaning of the tree |
| Criteria.TextMeansCriteria | packages/data/src/query/criteria.ts:28-134 | the printed characters, read as SQL with the parameters bound from the offset on, have the three-valued truth of the tree on every row, whatever the database's comparisons |
| Criteria.QuestionMarksInOrder | packages/data/src/query/criteria.ts:28-134 | for column names without quotes, `$` or `?`: printed from 1 and converted for `?` drivers there are n question marks, the i-th for the i-th parameter, and nothing else changed |
| SqlUtils.ConvertPositionalParams | packages/jdbc/src/sql-utils.ts:38-74 | the character loop with its two inner loops computes the two-state reading of the text |
| SqlUtils.ConvertsSegments | packages/jdbc/src/sql-utils.ts:38-74 | parameters become question marks; string literals, doubled quotes included, and all other text are unchanged |
| SqlUtils.QuotingAddsNothing | packages/jdbc/src/sql-utils.ts:11-20 | quoting a qualified identifier introduces neither `$` nor a single quote |
| SqlUtils.CallExactly | packages/jdbc/src/sql-utils.ts:15-16 | a name is taken for a call, and passed through, exactly when it begins with capitals or underscores, white space if any, and a parenthesis |
| SqlUtils.UnquotedExactly | packages/jdbc/src/sql-utils.ts:12-16 | a part of a name is left without quotes exactly when it is *, 1, 1 = 0 or begins like a call; else it is written between double quotes |
| ReadBack.NameReadsExactly | packages/jdbc/src/sql-utils.ts:11-31 | quoting a name and reading the quoted text as SQL gives the name back exactly when no part of it is passed through |
| ReadBack.ReadsPrim | packages/data/src/query/criteria.ts:28-134 | every condition that the library writes is read back from its characters, whatever follows it but a digit |
| ReadChains.TextMeans | packages/data/src/query/compiled-query.ts:53-136 | conditions joined by AND, or by OR, are read as what they mean together, AND closer than OR, from the left |
| ReadChains.RefusedJoined | packages/data/src/query/compiled-query.ts:91-112 | a list of conditions of which one cannot be read is refused as a whole |
| RouteAgreement.RoutesAgree | packages/data/src/query/compiled-query.ts:53-136 | for every descriptor without SimilarTo, argument list, row and database comparison: read character by character as SQL, the criteria tree's WHERE clause has the truth of the predicates, and the compiled and bound WHERE clause has the same truth exactly when no list is empty |
| RouteAgreement.WhereRead | packages/data/src/query/compiled-query.ts:53-136 | the bound WHERE clause, read as SQL, has the truth of the predicates when every list has elements, and is refused otherwise |
| RouteAgreement.CompiledMeans | packages/data/src/query/query-compiler.ts:149-209 | the bound conditions joined by the connector mean the predicates |
| RouteAgreement.DirectRouteMeans | packages/data/src/query/derived-query-executor.ts:97-151 | the criteria tree combined from the left means the predicates |
| RouteAgreement.DirectRouteBuilds | packages/data/src/query/derived-query-executor.ts:34-95 | the direct route fails on no predicate when all arguments are present and list operators get lists |
| DerivedEquivalence.BoundStatement | packages/data/src/query/compiled-query.ts:75-136 | the compiled statement fits its bindings; its holes filled, it is the statement with exactly the bound conditions, numbered from 1 without gap, if and only if every list operator is given a list with elements; where no name has a `$` before a digit nothing can be taken for a hole |
| DerivedEquivalence.WhereExactly | packages/data/src/query/compiled-query.ts:91-112 | the bound WHERE clause is that of the bound conditions exactly when every In and NotIn is given a list with elements, and as long in any case |
| DerivedEquivalence.PredBound | packages/data/src/query/compiled-query.ts:91-112 | the same for one predicate of any operator |
| CompiledStatement.CompileAndBind | packages/data/src/query/query-compiler.ts:149-209 | compile followed by bind, for all names and arguments: the parameters, the unknown property, and a text that is the filled template exactly when every placeholder is found in its place or written back unchanged; then its characters, read as SQL, are the statement the method name asks for - action, DISTINCT, columns, table, condition, order, limit - if every list has elements, and no statement otherwise |
| CompiledStatement.StatementRead | packages/data/src/query/query-compiler.ts:197-271 | the intended statement of every action, read as SQL, asks for what the method name says: rows, count, existence or deletion, DISTINCT, the mapped columns, the table, the condition, the order with its directions, the limit |
| CompiledStatement.StatementKeeps | packages/data/src/query/query-compiler.ts:197-271 | the statement is about exactly the rows on which the predicates are true, all without predicates |
| DerivedEquivalence.EmptyListLeavesColumn | packages/data/src/query/compiled-query.ts:95-103 | with an empty list the column name stays in front of (1=0), for In and NotIn, which is not the empty list's text |
| PlaceholderInName.WrongStatement | packages/data/src/query/compiled-query.ts:114-127 | countByStatusInAndAmount over a column named amount$2: the bound statement is the intended one exactly for lists of one element |
| PlaceholderInName.Misbound | packages/data/src/query/compiled-query.ts:114-127 | its text for every list: the column's name is renumbered and the scalar keeps its old number |
| CompiledQuery.BindSlow | packages/data/src/query/compiled-query.ts:75-136 | one pass with template index, output index and last position computes, for any template, what searching from the end of each last match gives; a scalar whose placeholder is missing is still pushed and counted, a list is not |
| CompiledQuery.PassExactly | packages/data/src/query/compiled-query.ts:75-136 | for every template, names and arguments, from any position on: all parameters are pushed in order, and the text is the template with its holes filled if and only if each search stops at its hole or at an equal text that it writes back unchanged |
| CompiledQuery.TemplateExactly | packages/data/src/query/compiled-query.ts:75-136 | the same for a whole template; it holds whenever no text in front of a hole holds the hole's placeholder, and always without lists, where the text does not change |
| CompiledQuery.NextFound | packages/data/src/query/compiled-query.ts:88-128 | searched from the end of the last hole, a placeholder is found in its place exactly when the fixed text between does not hold it |
| CompiledQuery.TameIsClear | packages/data/src/query/compiled-query.ts:88-128 | fixed text without a `$` in front of a digit holds no placeholder |
| BindingNames.NamesExactly | packages/data/src/query/compiled-query.ts:75-136 | for any names: binding writes the intended statement for all arguments whose lists have elements if and only if in the template, from the first list on, every search stops at its own hole |
| BindingNames.FindingStops | packages/data/src/query/compiled-query.ts:88-128 | lists of two elements are the strictest: where the holes are found for them the searches stop, whatever the names |
| CompiledQuery.BindCompiledQuery | packages/data/src/query/compiled-query.ts:53-136 | the fast path, taken when nothing is spread, gives the text and the parameters that the slow path would |
| QueryCompiler.CompileWhere | packages/data/src/query/query-compiler.ts:150-192 | the running parameter and argument indices after every predicate, the where parts and the bindings |
| QueryCompiler.Compile | packages/data/src/query/query-compiler.ts:149-271 | the statement of all four actions as a template whose holes match the bindings; an error names a property without column; what the characters ask for is CompiledStatement.StatementRead |
| QueryTemplate.FindsExactly | packages/data/src/query/compiled-query.ts:89-121 | the search for `$n` not followed by a digit, or for `IN ($n)`, stops at the hole exactly when no earlier place of the text in front holds the same |
| DerivedExecutor.BuildWhere | packages/data/src/query/derived-query-executor.ts:108-151 | one criteria per predicate with its argument offset, combined; the first failing predicate's error |
| DerivedExecutor.CombineCriteria | packages/data/src/query/derived-query-executor.ts:97-106 | the criteria are nested from the left with one connector |
| DerivedQuery.StartingWithIsPrefix | packages/data/src/query/derived-query-executor.ts:14-16 | the escaped value followed by % matches exactly the texts that start with the value |
| DerivedQuery.ContainingIsSubstring | packages/data/src/query/derived-query-executor.ts:14-16 | matches exactly the texts in which the value occurs |
| DerivedQuery.EndingWithIsSuffix | packages/data/src/query/derived-query-executor.ts:14-16 | matches exactly the texts that end with the value |
| DerivedQuery.SearchedFor | packages/data/src/query/derived-query-executor.ts:14-16 | what is searched for when the argument is no text: a number's numeral, true or false, null, undefined, or a list's elements joined by commas |
| DerivedQuery.ResolvesExactly | packages/data/src/query/query-compiler.ts:9-22 | a property is the column of the first field of its name, and none exactly when no field has it |
| ParserRoundTrip.ParseUndoesPrint | packages/data/src/query/derived-query-parser.ts:73-349 | every printable descriptor (prefix, First-N limit, predicates, connector, OrderBy list) is what its method name, printed from the documented words, parses to |
| ParserRoundTrip.BareExactly | packages/data/src/query/derived-query-parser.ts:219-244 | a bare property is read as a comparison with itself exactly when no operator's name ends it |
| ParserRoundTrip.PartParses | packages/data/src/query/derived-query-parser.ts:219-244 | property and operator come back from the printed part, the longest operator first |
| ParserRoundTrip.OrdersParse | packages/data/src/query/derived-query-parser.ts:160-216 | the order list comes back, each direction found at its boundary |
| ParserRoundTrip.PrefixParses | packages/data/src/query/derived-query-parser.ts:73-142 | action, distinct and limit come back from the prefix |
| UnprintedNames.RemoveIsDelete | packages/data/src/query/derived-query-parser.ts:117-129 | for every rest, removeBy parses as deleteBy |
| UnprintedNames.FindAllIsFind | packages/data/src/query/derived-query-parser.ts:96-107 | for every rest, findAllBy parses as findBy |
| UnprintedNames.TopIsFirst | packages/data/src/query/derived-query-parser.ts:84-93 | findTop, whatever follows it, parses as findFirst |
| UnprintedNames.FirstDigits | packages/data/src/query/derived-query-parser.ts:84-93 | the digits in front of By are the limit, leading zeros included; a rest with a line terminator is not accepted |
| UnprintedNames.FirstIsOne | packages/data/src/query/derived-query-parser.ts:84-93 | without digits the limit is one |
| UnprintedNames.DistinctNeedsBy | packages/data/src/query/derived-query-parser.ts:74-82 | findDistinct asks for distinct rows if By follows, and is an error otherwise |
| UnprintedNames.OthersUnknown | packages/data/src/query/derived-query-parser.ts:73-142 | a name that begins with none of the documented words is refused |
| UnprintedNames.Unfinished | packages/data/src/query/derived-query-parser.ts:312-349 | the empty name, a prefix alone, and orders without properties are each refused with their own error |
| UnprintedNames.OmittedDirection | packages/data/src/query/derived-query-parser.ts:168-214 | a property to order by without a direction is ascending |
| UnprintedNames.FirstDirection | packages/data/src/query/derived-query-parser.ts:174-214 | a property to order by ends in front of the first Asc or Desc, behind its first character, that stands before a capital or the end |
| Words.SplitJoined | packages/data/src/query/derived-query-parser.ts:246-310 | splitting at the found positions undoes joining with the connector |
| Words.JoinedHasNone | packages/data/src/query/derived-query-parser.ts:252-264 | parts joined by Or hold no And at a boundary, so the connector is recognised |
| Words.FindConnectorPositions | packages/data/src/query/derived-query-parser.ts:271-297 | the search loop finds exactly the boundary occurrences in order |
| Words.PositionsExactly | packages/data/src/query/derived-query-parser.ts:271-297 | a place is found exactly when the connector's characters stand there behind a small letter or the start and before a capital or the end |
| Words.SplitAtPositions | packages/data/src/query/derived-query-parser.ts:299-310 | the loop over positions yields the non-empty parts between them |
| DerivedQueryParser.FindDirection | packages/data/src/query/derived-query-parser.ts:174-191 | the first occurrence of a direction behind at least one character that stands at a boundary |
| DerivedQueryParser.ParseOrders | packages/data/src/query/derived-query-parser.ts:168-214 | the loop over the remaining text gives the list of properties and directions |
| DerivedQueryParser.ExtractOrderBy | packages/data/src/query/derived-query-parser.ts:144-217 | predicate part and order list, or the error for an empty OrderBy |
| DerivedQueryParser.ParseDerivedQueryMethod | packages/data/src/query/derived-query-parser.ts:312-349 | the whole parse with every error case in the order of the code; what it says of printed names is ParserRoundTrip, of others UnprintedNames |
| QueryCache.QueryCache.Get | packages/data/src/cache/query-cache.ts:111-141 | a hit moves to the front, an expired entry is dropped, counters follow; list, map and class index stay in agreement |
| QueryCache.QueryCache.Put | packages/data/src/cache/query-cache.ts:143-188 | refuses an over-large result, refreshes and re-indexes an existing key, else adds and evicts the least recent over the limit |
| QueryCache.QueryCache.Invalidate | packages/data/src/cache/query-cache.ts:190-202 | exactly the entries of the class are gone, in whatever order its index set is walked |
| QueryCache.QueryCache.InvalidateAll | packages/data/src/cache/query-cache.ts:204-211 | the cache is empty and every entry counted as invalidated |
| QueryCache.QueryCache.Clear | packages/data/src/cache/query-cache.ts:213-218 | the cache is empty, counters unchanged |
| QueryCache.QueryCache.Size | packages/data/src/cache/query-cache.ts:220-222 | the size is the length of the recency list, at most maxSize |
| QueryCacheRuns.GetReturnsLastPut | packages/data/src/cache/query-cache.ts:111-188 | after any history a lookup answers with the last accepted put's results exactly when the key is held and unexpired |
| QueryCacheRuns.HoldsLastPut | packages/data/src/cache/query-cache.ts:111-211 | a key is held exactly when it was put and no expired lookup, invalidation of its class or eviction followed |
| QueryCacheRuns.OrderedByLastUse | packages/data/src/cache/query-cache.ts:236-274 | in every reachable state the entries stand in order of their last use |
| QueryCacheRuns.EvictsLeastRecent | packages/data/src/cache/query-cache.ts:168-188 | an overflowing put evicts the entry whose last use lies furthest back, and only when the cache is full |
| EntryList.EntryList.AddToHead | packages/data/src/cache/query-cache.ts:236-246 | the entry is first in the doubly linked list, all links consistent in both directions |
| EntryList.EntryList.RemoveNode | packages/data/src/cache/query-cache.ts:248-261 | the list is the old one without the entry, whose links are cleared |
| EntryList.EntryList.MoveToHead | packages/data/src/cache/query-cache.ts:263-267 | the entry is first, the others keep their order |
| EntryList.EntryList.RemoveTail | packages/data/src/cache/query-cache.ts:269-274 | the last entry is taken out, nothing when empty |
| EntityCache.LruMap.Put | packages/data/src/cache/entity-cache.ts:49-70 | the refreshed or new entry is first; the least recent falls out over maxSize and is counted |
| EntityCache.LruMap.Get | packages/data/src/cache/entity-cache.ts:42-47 | the value, with the entry moved to the front: in every history the front is the last used (EntityCacheRuns.OrderedByLastUse) |
| EntityCache.LruMap.EvictTail | packages/data/src/cache/entity-cache.ts:72-80 | the least recent entry is gone from list and map, if there is one |
| EntityCache.LruMap.Delete | packages/data/src/cache/entity-cache.ts:82-88 | the key is gone from list and map |
| EntityCache.EntityCache.Put | packages/data/src/cache/entity-cache.ts:226-238 | all classes after the put and the global limit as a function of those before; new keys = size + evictions + removals is kept |
| EntityCache.EntityCache.Get | packages/data/src/cache/entity-cache.ts:186-224 | the value of the class and its entry first; hit and miss counters; nothing when disabled; in every history the value is the last put (EntityCacheRuns.FindsLastPut) |
| EntityCache.EntityCache.Evict | packages/data/src/cache/entity-cache.ts:256-261 | the key is gone from its class, other classes untouched, counted as a removal |
| EntityCache.EntityCache.EvictAll | packages/data/src/cache/entity-cache.ts:263-268 | the class is empty but known |
| EntityCache.EntityCache.Clear | packages/data/src/cache/entity-cache.ts:270-272 | no class is known |
| EntityCache.EntityCache.ClassSize | packages/data/src/cache/entity-cache.ts:274-278 | the size of one class, at most maxSize |
| EntityCache.EntityCache.TotalSize | packages/data/src/cache/entity-cache.ts:279-284 | the sum over all classes |
| EntityCache.EntityCache.FindLargest | packages/data/src/cache/entity-cache.ts:243-250 | the first of the largest non-empty classes |
| EntityCache.EntityCache.EnforceGlobalLimit | packages/data/src/cache/entity-cache.ts:240-254 | the loop ends with the total within maxTotalSize, and evictions plus size is unchanged |
| EntityCache.EnforcedFits | packages/data/src/cache/entity-cache.ts:240-254 | only what is too much is evicted, and each class keeps a most recent part of its list |
| EntityCache.LargestIsLargest | packages/data/src/cache/entity-cache.ts:243-250 | no class is larger than the one chosen, and those added before it are smaller |
| EntityCache.EntityCache.OneRound | packages/data/src/cache/entity-cache.ts:241-253 | while the total is too large there is a largest class, and one round takes one entry off |
| EntityCacheRuns.OrderedByLastUse | packages/data/src/cache/entity-cache.ts:42-70 | after any history of lookups, puts and evictions over all classes the entries of each class stand in order of their last use, the most recent first; last use is read off the history |
| EntityCacheRuns.TakesLeastRecent | packages/data/src/cache/entity-cache.ts:61-69 | what a limit takes from a class, its own or that of all classes together, was used less recently than all it leaves there |
| EntityCacheRuns.FindsLastPut | packages/data/src/cache/entity-cache.ts:186-272 | after any history a lookup finds nothing but the value last put under the key of the class, not removed since; and it finds that unless some put since found its class or all classes together full |
| QueryBatcher.QueryBatcher.Load | packages/data/src/query/query-batcher.ts:54-67 | the request is appended to pending and exactly one batch task is queued |
| QueryBatcher.QueryBatcher.StartBatch | packages/data/src/query/query-batcher.ts:69-75 | all that is pending becomes one active batch |
| QueryBatcher.QueryBatcher.FinishChunk | packages/data/src/query/query-batcher.ts:76-162 | the first chunk of any running batch is answered, each request once: a text id with the last row that has it as its key, a number with the last row that has its numeral, or the error |
| QueryBatcher.QueryBatcher.ExactlyOnePlace | packages/data/src/query/query-batcher.ts:54-162 | in every reachable state each request is in exactly one of pending, one active batch, or settled, and there once |
| QueryBatcher.QueryBatcher.Drain | packages/data/src/query/query-batcher.ts:54-162 | under any choice of steps, with loads arriving and the table changing between queries, the queue drains; every request issued has then been settled exactly once, with the last row whose key is its text or numeral in one of the table's states, with nothing if there is none, or with the error |
| BatchChunk.ExecuteChunk | packages/data/src/query/query-batcher.ts:83-162 | one query, every request of the chunk answered once: a text id with the last row that has it as its key, a number with the last row that has its numeral |
| BatchChunk.ShareExactly | packages/data/src/query/query-batcher.ts:87-99 | two ids share a query parameter and an answer exactly when they are the same text, the same number, or a number and its numeral |
| BatchChunk.GroupedIsAll | packages/data/src/query/query-batcher.ts:88-97 | grouping by key loses and repeats no request |
| BatchChunk.LastOfMatching | packages/data/src/query/query-batcher.ts:133-157 | asking for many keys at once finds for each what asking for it alone would |
| BatchChunk.ResultMap | packages/data/src/query/query-batcher.ts:133-138 | the map holds the last row of every key |
| ProxyDataSource.ProxyDataSource.GetConnection | packages/proxy/src/proxy-data-source.ts:79-122 | refused exactly when closed; else the search goes on to its first await, with the connection it picks, the pool it leaves and every connection in one place |
| ProxyDataSource.ProxyDataSource.Search | packages/proxy/src/proxy-data-source.ts:84-121 | dead connections are skipped; the most recently returned live one is lent, validated first if so configured, but dropped if it was idle too long; a new one is asked for only when there is no live one |
| ProxyDataSource.TrimmedIsLongest | packages/proxy/src/proxy-data-source.ts:85-91 | exactly the dead connections at the end of the pool are skipped |
| ProxyDataSource.ProxyDataSource.ValidationEnds | packages/proxy/src/proxy-data-source.ts:100-111 | the validated connection is lent, an invalid one given up |
| ProxyDataSource.ProxyDataSource.DropEnds | packages/proxy/src/proxy-data-source.ts:93-97 | after the awaited close the search resumes with the pool as it is then, also when it was closed meanwhile |
| ProxyDataSource.ProxyDataSource.CreationEnds | packages/proxy/src/proxy-data-source.ts:114-121 | a new connection is counted and lent, a failure changes nothing |
| ProxyDataSource.ProxyDataSource.Return | packages/proxy/src/proxy-data-source.ts:180-203 | back to the pool, or given up when closed, dead or full |
| ProxyDataSource.ProxyDataSource.EvictIdle | packages/proxy/src/proxy-data-source.ts:240-259 | the splicing loop leaves exactly the fresh connections, in order |
| ProxyDataSource.ProxyDataSource.Close | packages/proxy/src/proxy-data-source.ts:128-143 | the pool is empty and stays closed; its connections are given up, those on loan stay out |
| ProxyDataSource.ProxyDataSource.LentAlone | packages/proxy/src/proxy-data-source.ts:79-207 | in every reachable state, between any two loans of one connection it was given back: no two callers hold it at once |
| ProxyDataSource.SecondCloseDuplicates | packages/proxy/src/proxy-data-source.ts:180-203 | a further close of one wrapper, wherever its connection is by then, leaves the connection in one place exactly when the pool is closed or full or the connection dead; else it is twice in the pool, or pooled while lent, validated or given up |
| ProxyDataSource.ProxyDataSource.CloseAgain | packages/proxy/src/proxy-data-source.ts:180-203 | the invariant of the data source survives a further close exactly then; and then a live connection is closed, whoever holds it |
| DependencyOrder.ResolvedExactly | packages/data/src/plugin/plugin-manager.ts:180-215 | the order holds every plugin once with dependencies first, and there is one exactly when no dependency is unregistered and there is no cycle; a failure names a true cause |
| DependencyOrder.TopologicalMeansNeither | packages/data/src/plugin/plugin-manager.ts:180-215 | an order with dependencies first excludes missing dependencies and cycles |
| PluginManager.DependencyWalk.Visit | packages/data/src/plugin/plugin-manager.ts:185-208 | the recursive walk over visited, visiting and ordered, with its termination measure, computes the specified outcome |
| PluginManager.PluginManager.ResolveDependencyOrder | packages/data/src/plugin/plugin-manager.ts:180-215 | the loop over all names gives the resolved order or the first failure |
| PluginManager.PluginManager.Register | packages/data/src/plugin/plugin-manager.ts:26-34 | refused after initialisation and for a name already registered |
| PluginManager.PluginManager.Init | packages/data/src/plugin/plugin-manager.ts:39-53 | plugins are initialised in the resolved order up to the first that throws |
| PluginManager.PluginManager.Destroy | packages/data/src/plugin/plugin-manager.ts:58-73 | fails exactly when a dependency is missing; else destroys in reverse of the resolved order, up to the first plugin that throws, after which the manager stays initialised with all its plugins |
| PluginManager.PluginManager.RemovePlugin | packages/data/src/plugin/plugin-manager.ts:126-135 | the plugin is destroyed and forgotten, whoever depends on it |
| PluginManager.RemovalLeavesGap | packages/data/src/plugin/plugin-manager.ts:126-135 | destroy can no longer resolve the order exactly when a remaining plugin depends on the removed one |
| PluginRemoval.OrderKeptExactly | packages/data/src/plugin/plugin-manager.ts:180-215 | after the removal of a plugin nobody depends on, the others are resolved in the order they had exactly when what its own visit ordered in front of it is what the remaining ones would be ordered by anyway, in that order |
| PluginRemoval.NeedsWereOrdered | packages/data/src/plugin/plugin-manager.ts:180-215 | in particular when all its dependencies were ordered before its own visit |
| PluginRemoval.LastRegistered | packages/data/src/plugin/plugin-manager.ts:180-215 | the plugin registered last can always be removed without changing the order |
| PluginManager.RemovalChangesOrder | packages/data/src/plugin/plugin-manager.ts:58-66 | a removal that changes the order |
| MigrationRunner.MigrationRunner.Run | packages/jdbc-pg/src/pg-migration-runner.ts:80-117 | with any statement failing at any point the schema stays the fold of up() over the recorded versions; success records exactly what was pending; a second run changes nothing; checksum mismatch stops before any change |
| MigrationRunner.MigrationRunner.Rollback | packages/jdbc-pg/src/pg-migration-runner.ts:119-146 | on any table and for any number of steps, negative included: the migrations after the slice start in version order are taken back, the highest first, up to the first failure, whose error is given; where version order is the order of application and down() undoes up(), what remains is a prefix of the history and the schema its fold |
| MigrationRunner.MigrationRunner.RollbackTo | packages/jdbc-pg/src/pg-migration-runner.ts:148-175 | on any table: the migrations after the target are taken back, the highest first; where version order is the order of application the schema is that of the recorded versions up to the target |
| Migrations.VersionOrderExactly | packages/jdbc-pg/src/pg-migration-runner.ts:119-124 | ORDER BY version gives the table in the order of application exactly when no version is out of its place |
| Migrations.UndoneIsPrefix | packages/jdbc-pg/src/pg-migration-runner.ts:119-146 | any number of reversible migrations taken back from the end of the history leaves the fold of the rest |
| MigrationRunner.MigrationRunner.ApplyMigration | packages/jdbc-pg/src/pg-migration-runner.ts:212-244 | all of up(), the data step and the record, or nothing |
| MigrationRunner.MigrationRunner.RevertMigration | packages/jdbc-pg/src/pg-migration-runner.ts:183-210 | all of down() and the record's removal, or nothing |
| MigrationRunner.MigrationRunner.ValidateChecksums | packages/jdbc-pg/src/pg-migration-runner.ts:87-100 | fails exactly when a recorded migration was modified |
| MigrationRunner.OutOfOrder | packages/jdbc-pg/src/pg-migration-runner.ts:102-115 | a late lower version is applied after a higher one: the schema is then not the fold in version order |
| Migrations.PendingExactly | packages/jdbc-pg/src/pg-migration-runner.ts:177-181 | pending is exactly the unrecorded migrations in version order |
| Migrations.StaysIncreasing | packages/jdbc-pg/src/pg-migration-runner.ts:102-105 | recording all that is pending keeps version order and application order the same exactly when no pending version is too low or doubled |
| Migrations.StepsExactly | packages/jdbc-pg/src/pg-migration-runner.ts:123-124 | as many migrations as asked for are taken back exactly when steps is positive or nothing is applied; zero takes back all |
| Migrations.UpToIsPrefix | packages/jdbc-pg/src/pg-migration-runner.ts:150-152 | the versions after the target are a suffix of the table |
| Migrations.LastUndone | packages/jdbc-pg/src/pg-migration-runner.ts:183-210 | down() of the last recorded migration leads to the schema before it |
| SchemaMigration.Converges | packages/data/src/migration/schema-diff.ts:87-242 | after up() the next diff against the same entities is empty exactly when every type set in an existing table is reported back as an equal one, no created table has a join column, and each field's created type is reported back as the one the diff compares with |
| SchemaReferences.UpRuns | packages/data/src/migration/schema-diff.ts:108-242 | on any database whose references are whole, up() runs exactly when every new table names no column twice and finds, in the order of the entities, what its REFERENCES look up in the default schema, and every table and column is taken away only after whatever refers to it; then each table is as the comparison says, and the references are the old and the new ones without those taken away |
| SchemaMigration.UpCells | packages/data/src/migration/schema-diff.ts:109-199 | every entity has its table and no other table is left: a new one with the columns of its CREATE TABLE, an old one with every matching type kept and every other column as wanted |
| SchemaMigration.CreatedCompared | packages/data/src/migration/schema-diff.ts:128-199 | what the next diff does to a created table, column by column |
| SchemaMigration.TablesExactly | packages/data/src/migration/schema-diff.ts:109-199 | the generated table changes are exactly those the comparison asks for, in both directions |
| SchemaRuns.CreatedIsAltered | packages/data/src/migration/schema-diff.ts:108-189 | the diff after up() alters every created column whose inferred or embedded type differs from the compared one, and drops every join column |
| SchemaExamples.BooleanFieldAndRelation | packages/data/src/migration/schema-diff.ts:108-189 | an entity with a boolean initial value and a relation: created as BOOLEAN with a join column, and altered to TEXT without it by the next diff |
| SchemaExamples.UsersFirst | packages/data/src/schema/ddl-generator.ts:149-167 | created before the table it refers to, a table is refused: up() fails |
| SchemaExamples.TeamsFirst | packages/data/src/migration/schema-diff.ts:208-213 | created after it, both are there, and down() fails, because it drops the table referred to first |
| SchemaRuns.TwoMigrationsSettle | packages/data/src/migration/schema-diff.ts:87-242 | in every run of migrations, where wanted types are read back as equal ones, every diff after the second migration is empty |
| SchemaRuns.NormalReportsConverge | packages/data/src/migration/schema-diff.ts:43-70 | where types are reported by their normal forms, the diff after the first migration is empty exactly when every created table has no join column and equal created and compared types; later ones always are |
| SchemaRuns.NeverSettles | packages/data/src/migration/schema-diff.ts:128-189 | a column whose wanted type is reported as another one is altered again, from the reported to the wanted type, by every migration after one that set it |
| SchemaRuns.TimestampNeverConverges | packages/data/src/migration/schema-diff.ts:43-70 | so is every timestamp column that the database reports by its full name, in every run |
| SchemaRestore.Restores | packages/data/src/migration/schema-diff.ts:204-242 | down() after up() restores the database with its references, in the default schema exactly when no new table refers to another new one, no table was removed, every dropped column had the type of a TEXT and referred to nothing, and every changed type is denoted by what is reported of it; in another schema exactly when up() changed nothing there and down() finds nothing to change in the default schema |
| SchemaRestore.OnlyNothingIsRestored | packages/data/src/migration/schema-diff.ts:204-242 | in another schema, where applied types are reported back as equal ones, down() restores exactly when there was nothing to do |
| SchemaRestore.DownMissesSchema | packages/data/src/migration/schema-diff.ts:209-238 | down() names no schema: what up() did in another one stays, and down() runs exactly when the default schema's tables allow its changes and everything there is let go in time; then it makes the changes there |
| SchemaRestore.DownRunsExactly | packages/data/src/migration/schema-diff.ts:204-242 | on any database down() runs exactly when every table it names in the default schema allows its change and nothing is taken away before what refers to it; then each table has its change, and the references are those not taken away |
| SchemaRestore.DownRuns | packages/data/src/migration/schema-diff.ts:204-242 | after up() in the default schema down() runs exactly when no new table refers to another new one; then it changes each table as the comparison says |
| SchemaRestore.BackwardsRuns | packages/data/src/migration/schema-diff.ts:208-213 | with the new tables dropped in the opposite order down() would always run, and lead to the same tables |
| SchemaRestore.LetsGoExactly | packages/data/src/migration/schema-diff.ts:208-213 | in whatever order the new tables are dropped, everything is let go in time exactly when none is dropped before one that refers to it |
| DdlGenerator.GenerateCreateTable | packages/data/src/schema/ddl-generator.ts:79-193 | the columns of CREATE TABLE: fields in order with types given, by length, or inferred from the initial value, embedded ones from their embeddable, then the join columns of mapped and owned relations with the tables and keys they refer to |
| DdlGenerator.CreatedTypes | packages/data/src/schema/ddl-generator.ts:109-189 | in a table of differently named columns each field has its created type, and a join column is an INTEGER beside them |
| DdlGenerator.RefersExactly | packages/data/src/schema/ddl-generator.ts:149-189 | a created table refers to a key exactly through the join column of a many-to-one relation, or of an owning one-to-one relation that names one, whose class has a table and an id |
| TypeSpellings.InferredTypes | packages/data/src/schema/ddl-generator.ts:54-76 | a field without type and length gets a type equal to integer for a number, boolean, timestamptz for a date, bytea for bytes, and text otherwise |
| TypeSpellings.GivenTypes | packages/data/src/schema/ddl-generator.ts:54-64 | a given type comes first, then a length, which makes the field a varchar whatever its initial value |
| TypeSpellings.ComparedTypes | packages/data/src/migration/schema-diff.ts:78-148 | what the diff compares a field with: its given type or a varchar of its length, else TEXT, whatever the initial value, and TEXT for every embedded field |
| SchemaReferences.CreatesExactly | packages/data/src/schema/ddl-generator.ts:149-189 | the new tables can be created in the order of the entities exactly when each names no column twice and refers to columns that are in the default schema or, where it goes there itself, belong to itself or an earlier new table |
| SchemaReferences.SameOrder | packages/data/src/migration/schema-diff.ts:208-213 | up() first creates the new entities' tables and down() first drops them, both in the order of the entities |
| SchemaReferences.GoneByName | packages/data/src/migration/schema-diff.ts:162-232 | the columns that up() and down() take away are exactly those without a field or an entity, and exactly those that up() added |
| SchemaLinks.ExecutesExactly | packages/data/src/schema/ddl-generator.ts:149-191 | a statement runs exactly when tables and columns allow it and: a new table finds what it refers to, no other table refers to a dropped one, no other column to a dropped one |
| SchemaLinks.RemovesExactly | packages/data/src/migration/schema-diff.ts:215-239 | statements that create nothing run exactly when tables and columns allow them and every target is taken away no earlier than what refers to it |
| SchemaDiff.UpChangesExactly | packages/data/src/migration/schema-diff.ts:155-189 | the generated column changes are exactly those the two types ask for |
| SchemaDiff.Diff | packages/data/src/migration/schema-diff.ts:87-202 | the loops compute added tables with the columns of their DDL, removed and modified tables |
| SchemaDiff.CompareTable | packages/data/src/migration/schema-diff.ts:134-198 | the loops compute added, removed and retyped columns of one table |
| SchemaDiff.GenerateMigration | packages/data/src/migration/schema-diff.ts:204-242 | the statements up and down in the order of the code, down without schema |
| SchemaChange.ChangesHold | packages/data/src/migration/schema-diff.ts:216-232 | changes of different columns each have their effect in any database where they fit |
| SchemaChange.TablesHold | packages/data/src/migration/schema-diff.ts:208-239 | changes of different tables each have their effect, other tables stay |
| SchemaChange.ReshapesExactly | packages/data/src/migration/schema-diff.ts:208-239 | tables and columns allow the statements for different tables exactly when each table's change applies to it |
| SqlTypes.NormalizeTwice | packages/data/src/migration/schema-diff.ts:43-70 | normal forms are fixed: comparing does not depend on the alias one starts from |
| TypeSpellings.SameTypeExactly | packages/data/src/migration/schema-diff.ts:43-70 | two lower-case type names without length compare as equal exactly when they are the same or both among the names of one type: int, int4, serial and integer; int8, bigserial and bigint; and so on |
| TypeSpellings.CaseIgnored | packages/data/src/migration/schema-diff.ts:43-70 | letter case plays no part |
| TypeSpellings.LengthIgnored | packages/data/src/migration/schema-diff.ts:43-70 | a length behind a name or inside it plays no part |
| SqlTypes.TimestampDiffers | packages/data/src/migration/schema-diff.ts:43-70 | `timestamp` and `timestamp without time zone` compare as different types |
| BulkUpdates.ChunkEqualsRowByRow | packages/data/src/query/bulk-operation-builder.ts:171-208 | one CASE update equals the updates row by row on every table exactly when the first and last row of each id agree |
| BulkUpdates.BulkEqualsExactly | packages/data/src/query/bulk-operation-builder.ts:99-114 | all chunks in sequence equal updating row by row, on every table, exactly when in the last chunk with an id the first and the last row with it carry the same values |
| BulkUpdates.BulkEqualsRowByRow | packages/data/src/query/bulk-operation-builder.ts:99-114 | in particular when no chunk has an id twice |
| BulkUpdates.DuplicateIds | packages/data/src/query/bulk-operation-builder.ts:189-199 | for any chunk and table row whose id some rows give: the CASE takes the first of them, row by row the last one stays, and the two come to the same exactly when these carry the same values |
| BulkUpdates.OthersUntouched | packages/data/src/query/bulk-operation-builder.ts:201-202 | rows whose id is not given are untouched |
| BulkUpdates.Chunk | packages/data/src/query/bulk-operation-builder.ts:210-217 | the chunks concatenate to the rows, none empty, none over the size |
| BulkUpdates.BuildBulkUpdate | packages/data/src/query/bulk-operation-builder.ts:99-114 | validation errors in the order of the code, else one query for each chunk |
| BulkOperations.BuildUpdateChunk | packages/data/src/query/bulk-operation-builder.ts:171-208 | r(c+1) parameters for r rows and c columns, every placeholder in range and standing for its own row's id or value; ids are numbered first, then the values column by column |
| BulkOperations.UpdateNeverPositional | packages/data/src/query/bulk-operation-builder.ts:189-202 | the text holds r times c placeholders more than there are parameters, because every column repeats the ids: bound by position it is wrong for every chunk |
| BulkOperations.InsertPositional | packages/data/src/query/bulk-operation-builder.ts:116-137 | an INSERT can be bound by position |
| BulkOperations.BuildInsertChunk | packages/data/src/query/bulk-operation-builder.ts:116-137 | placeholders count from one without gap, each for the value in its place |
| QueryStatistics.QueryStatisticsCollector.Record | packages/jdbc/src/query-statistics.ts:91-119 | count, total, extremes and last access of the recorded pattern after one more execution; all others stay, except that a new pattern for which there is no room pushes out the first of those least recently accessed |
| QueryStatistics.QueryStatisticsCollector.EvictLru | packages/jdbc/src/query-statistics.ts:121-133 | the pattern least recently accessed, the first added of several, is gone |
| QueryStatistics.QueryStatisticsCollector.Updated | packages/jdbc/src/query-statistics.ts:104-118 | one execution: new extremes, total, sample; all kept below the limit |
| QueryStatistics.BinarySearchInsert | packages/jdbc/src/query-statistics.ts:170-179 | the first position whose value is not below the given one |
| QueryStatistics.CappedKeepsEnds | packages/jdbc/src/query-statistics.ts:113-118 | removing the middle of at least three keeps both ends |
| QueryStatistics.KeepsEndsExactly | packages/jdbc/src/query-statistics.ts:113-118 | every sample with at most one duration too many keeps its shortest and its longest exactly when the limit is at least two |
| QueryStatistics.OneIsTooFew | packages/jdbc/src/query-statistics.ts:113-118 | with room for one duration the longer of any two is lost |
| QueryStatistics.PercentilesInOrder | packages/jdbc/src/query-statistics.ts:67-71 | minTime <= p95 <= p99 <= maxTime, and the average lies between the extremes |
| QueryStatistics.RankIsShare | packages/jdbc/src/query-statistics.ts:67-71 | the rank is the smallest whose share of the sample is at least p percent |

## Left out

Restrictions of single members:

- RelayRuns.RunIsStable: cursors read back to their own key, which CursorMapping states exactly for the mapping; tables are those that EnumerableExactly shows can be paged; page sizes are at least one.
- SeekReading.SeekIsLexicographic: key columns are quoted names, none passed through by quoteIdentifier as an expression, whose text is not read; the theorems about runs and mappings ask for the same.
- RelayCursor.RewriteCursorMarks: column names hold no `$`, which the regular expressions and textual replacements could take for a mark.
- RouteAgreement.RoutesAgree: SimilarTo is not modelled, because the two routes order by different operators; columns are quoted names, none passed through by quoteIdentifier as an expression, whose text is not read.
- CompiledStatement.CompileAndBind: what the database makes of ORDER BY, DISTINCT and LIMIT is not modelled beyond their being asked for.
- ParserRoundTrip.ParseUndoesPrint: letters are ASCII for the change of case; `parseInt` is exact, so limits beyond 2^53 are not rounded; the other spellings of the prefixes are in UnprintedNames.
- EntityCache.EntityCache.Put: the five mutating helpers reason about one class at a time; keys are given as the string that `idKey` builds.
- QueryCache.QueryCache.Put: the caller passes the time of expiry, the clock, time to live and jitter already added up.
- QueryBatcher.QueryBatcher.Drain: `clear()` is not called, `maxBatchSize` is at least one, and the database matches ids by their string form.
- ProxyDataSource.ProxyDataSource.Return: only the first close of a wrapper; a further one is CloseAgain. Whether an awaited close of a given-up connection succeeds is not modelled.
- PluginManager.PluginManager.Init: hook and middleware collections are not modelled.
- MigrationRunner.MigrationRunner.Rollback: what the schema means afterwards is stated where the definitions given are those recorded and their down() undoes their up(), because rollback does not compare checksums; versions are integers with one order, where the code mixes `localeCompare`, `>` and SQL `ORDER BY`.
- SchemaReferences.UpRuns: a statement fails only because a table, a column or a referred-to column is missing or already there, or because something still refers to what it takes away; that a referred-to column is a key of a matching type, conversions that ALTER TYPE refuses, NOT NULL, UNIQUE, defaults and the check of default values are not modelled.
- SchemaRestore.Restores: tables, columns, types and references only; the data of a dropped column or table is lost in any case.
- SchemaDiff.Diff: table and column names are taken in lower case and distinct, so entities and tables that differ only in letter case are not captured; views are filtered before; statements are data, not text.
- BulkUpdates.BulkEqualsRowByRow: ids are compared as values, without the database's conversions; the RETURNING clause and the upsert suffixes are not modelled.
- QueryStatistics.PercentilesInOrder: the rank is computed exactly, without floating-point rounding; durations are not negative.
- QueryStatistics.QueryStatisticsCollector.Record: a pattern's statistics are a value in the collector's map, replaced as a whole, where the code updates an object in place.

What the repository does and the model does not:

- Drivers, connections, statements and result sets: the database is a table, a schema, or a step that may fail.
- Command line, studio, playground, environment detection, logging, tracing and framework glue.
- Decorators and metadata registration: metadata is a list of fields and columns.
- `SelectBuilder` and `DdlGenerator` text: modelled as the rows that pass the condition in order and limit, and as the columns and references of a table; join tables, indexes, views and closure tables are not generated by the diff.
- The byte encoding of cursors: a cursor is its payload.
- The regular expressions that normalise SQL for the statistics: a pattern is an opaque key.
- The four linked-list helpers, which both caches carry as identical copies, are modelled once in `EntryList`.
- `StatementCache`, `PreparedStatementPool`, `KeysetPaginationStrategy` and the MySQL and SQLite migration runners repeat what is here.
- Raw criteria, and the vector order expression.
