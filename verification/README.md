# A verified model of filtrx

filtrx compiles filters, ordering and paging arguments into SQL for Postgres, MySQL and SQLite. This
project models that path in Dafny, from a filter value down to statement text and bound arguments, and
proves what the statements do when an abstract database executes them.

The database is modelled by its meaning. It is a map from FROM texts to tables, and a statement that
names no table of it fails. A table is a finite sequence of rows; a row maps column names to values or
NULL; values compare through an arbitrary sort key (a collation), so that different values may tie.
WHERE keeps the rows on which an expression is true in the three-valued logic of section 6.34 of ISO/IEC
9075-2:2003, with IN as in section 8.4 and null ordering as in section 10.10. Statement text is a
sequence of tokens. `Database`, `Grouping` and `Mutations` parse it, with AND binding tighter than OR,
look the arguments up by placeholder, and execute it, so that the theorems about `List`, `Seek`,
`Count`, `Delete` and `Update` go through the text that the code writes. `Engines` says what each of the
three databases accepts (placeholders, identifier quotes, NULLS FIRST/LAST, ISNULL, rank expressions,
OFFSET without LIMIT, negative LIMIT), apart from the library's own table of dialects, so text that is
illegal for its database fails.

What is proved, area by area:

- **Conditions** (`Conditions`, `Parser`): the builder's text and arguments, one numbering on every
  dialect, the shift law for rendering at an offset, and print/parse: the text reads back as the tree if
  and only if no child that renders as nothing stands next to a connective.
- **Ordering and seeking** (`Orders`, `Keyset`, `Views`): the seek predicate is true exactly on the rows
  strictly past the boundary; MySQL's emulated null placement and the reversed order of backward pages
  order all rows as they should.
- **Cursors** (`Cursors`): canonical round trip of every key, exact over the 64-bit ranges.
- **Keyset pages and runs** (`Slices`, `Seek`, `Pages`, `Tiling`): what one fetch leaves in `dest`, and
  that runs of fetches tile the data, also while other rows come and go.
- **Connections** (`Connections`): where a page stands among the filtered rows and when the Relay flags
  are exact.
- **Offset pages** (`Paginating`, `Listing`): `Paginate` against the pagination algorithm of section 4.4
  of the GraphQL Cursor Connections Specification, restated over offsets, and everything `List` reports.
- **Statements** (`Queries`, `Fluent`, `Grouping`, `Database`, `Mutations`): assembly clause by clause,
  scope, which calls are refused with which error, and the effect of executing each statement on the table
  it names. COUNT and the window total agree, also on grouped queries.
- **The filter compiler** (`Plans`), the whole path from a filter value to the rows that a statement
  reaches (`Filters`), and **quoting** (`Quoting`).

Several promises hold only under a condition, which is then proved to be the exact one or is shown to be
needed by a concrete input:

- `And()` survives inside a larger tree and leaves a dangling connective, although the comment at
  `cond.go:8-12` calls nesting always exact (`Parser.ReadsBack`, `Parser.EmptyGroupBreaksText`).
- `Last` combined with `Before` departs from the specification when Before leaves more than Last records
  after the start (`Paginating.PaginateMeans`, with two concrete misses).
- `List` trims `dest` from its start, so rows already in `dest` are lost unless the window reaches the end
  of the filtered rows (`Listing.TrimCountsFromStart`, `Witness.TrimLosesRows`). The keyset path keeps them.
- The page flag against the paging direction is a convention: it is exact if and only if some filtered
  row does not lie past the cursor (`Connections.FlagsMean`). That is so for every cursor whose row is still
  there (`Connections.EdgeSeeks`, `Connections.FlagsExactWhileRowStays`), and fails for a stale one
  (`Witness.StaleCursorFlag`).
- Keyset columns need a declared null placement to hold NULL: `Keyset.SeekCondExact` says which rows are
  selected without it, and `Keyset.UndeclaredNullIsMissed` shows one that is missed. No page goes back to
  its cursor or before it (`Keyset.SeekCondSound`, `Pages.PageSound`).
- A group whose element type has no plan is dropped: `Plans.UnplannedMeans` says what is left of any value.

The keyset theorems assume the documented contract (`keyset.go:31-33`): keys of the filtered rows are
unique, and a column without a declared null placement is not NULL. They also assume that the connection
hands statements to the abstract database unchanged (`Seek.Executes`), that a scanned key binds to a value
that compares as the column does, and that the standard library's text forms of times, byte strings and
floats undo themselves on the values they can hold (`Seek.Faithful`). `Witness` meets all of these premises
with a concrete query and database. The theorems about `List` on MySQL assume at most 18446744073709551615
filtered rows, the number its unbounded OFFSET query asks for (`Engines.Countable`).

`dafny verify dfyconfig.toml` checks the whole project.

## Model

| member | source | states |
|---|---|---|
| Conditions.Compact | cond.go:266-277 | the loop keeps exactly the non-nil children, each once, in order, for any number of them |
| Conditions.PresentKeeps | cond.go:266-277 | an increasing list of positions, covering all non-nil children, says which child each kept one is |
| Conditions.AndMeans | cond.go:209-212 | And of any list of children is true exactly when every non-nil child is |
| Conditions.OrMeans | cond.go:214-215 | Or of any list of children is true exactly when some non-nil child is |
| Conditions.Builder.Bind | cond.go:27-31 | binding appends the argument, counts it, and yields the marker of its position |
| Conditions.Builder.WriteList | cond.go:147-159 | a list gets one marker and one argument per element, in element order |
| Conditions.Builder.WriteLeaf | cond.go:105-136 | a leaf's text and arguments, including `1=0`/`1=1` for an empty IN/NOT IN and the operand-free NULL tests |
| Conditions.Builder.WriteGroup | cond.go:167-187 | nothing for an empty group, the bare child for a single one, otherwise the joined children in parentheses |
| Conditions.Builder.WriteRaw | cond.go:197-207 | a fragment is re-rendered piece by piece; surplus markers and surplus values are dropped |
| Conditions.Builder.Write | exists.go:73-86 | one pass over any tree, EXISTS and full-text included, appends exactly its text and arguments and advances the counter by their number |
| Conditions.BuildAt | cond.go:43-50 | nil renders as nothing; otherwise text and arguments of the tree at the given offset |
| Conditions.BlankIffVacuous | cond.go:167-171 | a tree renders as the empty text exactly when it is a nest of empty groups or a blank fragment, and then binds nothing |
| Conditions.CondRenders | cond.go:27-50 | at any offset k the text of a tree uses markers k+1..k+n once each in text order for its n arguments, and the i-th `?` stands where `$i` stands |
| Conditions.OffsetShifts | cond.go:40-50 | rendering j arguments later moves every `$` number up by j and changes nothing else; `?` text does not change at all |
| Conditions.AllOfTrue | cond.go:212-212 | an AND group is true exactly when all children are true in three-valued logic |
| Conditions.AnyOfTrue | cond.go:215-215 | an OR group is true exactly when some child is true |
| Conditions.SingleChild | cond.go:171-174 | dropping the parentheses around a single child changes neither meaning nor arguments |
| Conditions.InMeans | cond.go:147-159 | IN over a slice is true exactly when some element compares equal, NOT IN exactly when all compare different; a byte slice counts as its numbers, any other value as one element |
| Conditions.RawMeans | cond.go:187-207 | a fragment binds its values in order, as many as it has markers; with enough values it reads, each put back as a marker, exactly as written |
| Parser.ReadsBack | cond.go:105-187 | with NOT over AND over OR, the text of any tree that is not blank reads back as the tree with single-child groups collapsed if no blank child stands next to a connective, and is a syntax error otherwise |
| Parser.TreeMeans | exists.go:68-86 | the tree read back, with the arguments bound at its offset, has the three-valued meaning of the condition on every row, correlated subqueries and their negation included |
| Parser.TextReadsAsTree | cond.go:33-50 | what the driver passes on for a built condition parses if and only if the tree is clean, on every dialect |
| Parser.TextMeansTree | cond.go:8-12 | the rendered text and arguments of a clean tree mean on every row what the tree means |
| Parser.EmptyGroupBreaksText | cond.go:167-170 | a concrete failure: And() next to another condition leaves a dangling connective |
| Orders.ReversedIsConverse | keyset.go:146-151 | reversing direction and null placement of every term gives exactly the converse order, on every dialect |
| Orders.BeforeTrichotomy | query.go:145-150 | the order of the terms is total: before, equal or after, exclusively |
| Orders.BeforeTransitive | query.go:145-150 | the order of the terms is transitive |
| Orders.TermsRender | query.go:550-573 | the markers of ORDER BY are those of its relevance queries, in order, after the earlier arguments |
| Orders.KeysOrderAsTerms | dialect.go:101-124 | the emitted keys, MySQL's ISNULL emulation under its nulls-lowest default included, order any two rows and tie them exactly as the declared terms do |
| Orders.TermsReadBack | dialect.go:101-124 | the ORDER BY text is legal for its database (no NULLS FIRST/LAST on MySQL, no ISNULL elsewhere, no rank on SQLite) and parses back into those keys |
| Keyset.KeysetCond | keyset.go:263-283 | the nested loops build the OR of AND-prefixes, skipping positions with nothing after the boundary, and `1=0` when none is left |
| Keyset.AfterCompareMeans | keyset.go:298-324 | the comparison at one term is true exactly on values strictly past the boundary there, for each direction and null placement |
| Keyset.SeekCondExact | keyset.go:263-324 | what the predicate selects whether or not the contract is kept: the rows past the boundary whose deciding column has no undeclared NULL on either side |
| Keyset.SeekCondSound | keyset.go:244-263 | without any contract, only rows strictly past the boundary are ever selected |
| Keyset.SeekCondMeans | keyset.go:244-283 | for any number of columns, mixed directions, declared null placements and both paging directions, the predicate is true on a row exactly when the row lies strictly past the boundary in the ORDER BY order |
| Keyset.SeekCondClean | keyset.go:278-283 | the predicate is well-formed SQL, also in the empty case |
| Keyset.UndeclaredNullIsMissed | keyset.go:31-33 | why the contract is needed: without a declared placement a NULL that sorts after the boundary is not selected |
| Cursors.EncodeCursor | keyset.go:354-368 | the two loops produce the token, or fail if any key cannot be converted or marshalled |
| Cursors.DecodeCursor | keyset.go:417-437 | decoding stops at the first bad element and otherwise yields one value per element |
| Cursors.DecodeExactly | keyset.go:417-508 | decoding succeeds exactly on a token all of whose elements have a known tag and a value of its kind and range |
| Cursors.DecimalExact | keyset.go:449-465 | every integer prints to text that parses back to it exactly when it lies in the signed, respectively unsigned, 64-bit range |
| Cursors.WiredIffEncodable | keyset.go:370-412 | a key has a cursor element exactly when no Valuer on the way fails and its kind is supported and finite |
| Cursors.ElemRoundTrip | keyset.go:370-508 | a key comes back with kind and value preserved, pointers and Valuers unwrapped, nil for every null form |
| Cursors.CanonicalBinds | keyset.go:380-398 | the canonical form binds the same SQL value as the key and is itself no pointer or Valuer |
| Cursors.CursorRoundTrip | keyset.go:354-437 | encoding succeeds exactly on encodable keys and decoding returns all keys in canonical form |
| Queries.ScopeApplies | query.go:289-301 | the effective filter keeps exactly the rows that satisfy the filter and the soft-delete scope, and is well formed |
| Queries.WellFormedExactly | query.go:289-301 | what that asks of the filter is exactly that the effective filter is clean |
| Queries.SelectNumbered | query.go:575-613 | List's statement: WHERE, HAVING, relevance ordering and LIMIT/OFFSET share one numbering, and `?` dialects bind the same argument at the same place |
| Queries.KeysetNumbered | keyset.go:232-247 | the same for Seek's statement |
| Queries.CountNumbered | query.go:405-430 | the same for COUNT, plain or wrapped around a grouped SELECT |
| Queries.DeleteNumbered | mutate.go:51-57 | the same for DELETE |
| Queries.UpdateNumbered | mutate.go:89-110 | the same for UPDATE, whose WHERE follows the assignments |
| Sql.RendersMeans | dialect.go:12-14 | what one numbering means: exactly `$1..$n` in text order, or n bare `?` that the driver reads as those |
| Fluent.Query.From | query.go:85-88 | a new query selects everything from its table on Postgres |
| Fluent.Query.SoftDelete | query.go:256-260 | sets the column and resets the scope to live rows |
| Fluent.Query.WithDeleted | query.go:264-267 | afterwards the scope admits every row |
| Fluent.Query.OnlyDeleted | query.go:271-274 | afterwards the scope admits exactly the soft-deleted rows |
| Fluent.Query.Filter | query.go:140-143 | sets the condition and nothing else |
| Fluent.Query.OrderBy | query.go:147-150 | appends an ascending term |
| Fluent.Query.OrderByDesc | query.go:153-156 | appends a descending term |
| Fluent.Query.OrderByNulls | query.go:163-170 | appends a term with the given null placement |
| Fluent.Query.OrderByRelevance | query.go:179-182 | appends a descending relevance term, never with a null placement |
| Fluent.Query.GroupBy | query.go:224-227 | appends the grouping columns |
| Fluent.Query.Having | query.go:234-237 | replaces the HAVING condition |
| Fluent.Query.Page | query.go:240-243 | replaces the paging arguments |
| Fluent.Query.On | query.go:246-249 | replaces the dialect |
| Fluent.Query.Unfiltered | mutate.go:26-29 | sets the authorisation and nothing else |
| Fluent.Query.Seek | keyset.go:53-66 | both cursors at once is a deferred error; otherwise Before pages backward, After forward |
| Fluent.Query.WriteProjection | query.go:494-512 | the chosen columns, else the base table's when aliased, else all |
| Fluent.Query.WriteGroupHaving | query.go:518-538 | GROUP BY and HAVING are written independently, HAVING numbered after the WHERE arguments |
| Fluent.Query.WriteOrder | query.go:550-573 | writes the clause in a loop and returns the relevance queries it bound |
| Fluent.Query.BuildSelect | query.go:575-613 | assembles List's statement and argument list |
| Fluent.Query.BuildKeysetSelect | keyset.go:232-247 | assembles Seek's statement: no OFFSET, LIMIT bound last |
| Fluent.Query.BuildCount | query.go:405-424 | assembles COUNT, wrapped when the query groups (`Database.CountMeans` says what that counts) |
| Fluent.Query.Delete | mutate.go:37-57 | errors in the code's order, then the statement |
| Fluent.Query.Update | mutate.go:67-111 | errors in the code's order, then the sorted assignments and the WHERE rendered again behind them |
| Fluent.SameEmptiness | mutate.go:78-81 | the guard's verdict on the first rendering holds for the second |
| Views.SortInOrder | query.go:145-150 | the reference ORDER BY sorts |
| Views.SortMembers | query.go:145-150 | and neither loses nor invents a row |
| Views.ArrangementUnique | keyset.go:31-33 | with unique keys there is one sorted arrangement, so it does not matter how the database sorts |
| Views.CutSplits | keyset.go:130-132 | a boundary cuts a sorted view into the rows past it and the rest |
| Database.WhereClauseReadsBack | query.go:586-589 | a WHERE clause inside a statement reads back as the filter's tree |
| Grouping.GroupByReadsBack | query.go:518-527 | the GROUP BY clause reads back as the grouping columns, in order |
| Grouping.HavingReadsBack | query.go:528-538 | the HAVING clause reads back as the tree of its condition, numbered behind the WHERE arguments |
| Grouping.GroupedByText | query.go:518-538 | with the arguments bound there, it passes exactly the groups that the condition passes |
| Grouping.OnePerGroup | query.go:402-404 | without HAVING a grouped query has one row per distinct key among the filtered rows |
| Database.PreparedReads | dialect.go:54-86 | every database gets the placeholders it takes, and reads them as the numbered text |
| Database.SelectMeans | query.go:575-613 | executing List's text on each database reads the table that the query names and yields the filtered rows, or one row per group that HAVING passes, sorted as the terms say, cut at OFFSET, one more than the limit or all of them, showing the selected columns, and with their full number on every row exactly if the window total is selected |
| Database.KeysetMeans | keyset.go:232-247 | executing Seek's text yields the first `limit` such rows of the named table in the given order |
| Database.CountMeans | query.go:402-430 | executing COUNT's text, wrapped or not, yields the number of filtered rows of the named table, or of their groups that HAVING passes: the same number the window total shows |
| Slices.Slice.Append | keyset.go:191-192 | appending may move the backing array and never changes earlier elements |
| Slices.Slice.Truncate | keyset.go:199-202 | truncating keeps the first n elements |
| Slices.Slice.ReverseFrom | keyset.go:336-340 | swapping from both ends reverses the part from `start` on and leaves the rest |
| Seek.ReverseTerms | keyset.go:146-151 | the loop over the terms reverses each of them |
| Seek.CheckSeek | keyset.go:100-125 | the checks before any SQL, loop by loop |
| Seek.RefusalExact | keyset.go:100-125 | a query is admitted exactly when it has an order, a positive size, no relevance term and a field for every order column; otherwise the error names the first that is missing, and of the columns the first |
| Seek.FetchRefuses | keyset.go:100-141 | a fetch fails with exactly that error, or with that of a cursor that does not decode to one value per term, before any statement is sent |
| Seek.BuildSeekFilter | keyset.go:127-141 | the base filter, AND-ed with the seek predicate of the decoded cursor; bad cursors and wrong arity are errors |
| Seek.SelectPage | keyset.go:141-154 | runs the page's SELECT for size+1 rows, with reversed terms for a backward page |
| Seek.ScanRows | keyset.go:166-193 | rows and keys are appended in step, behind what `dest` held |
| Seek.Collect | keyset.go:166-207 | after trim and reversal `dest` gained exactly the page, and the keys match its rows |
| Seek.EncodeKeys | keyset.go:209-216 | one cursor per returned row |
| Seek.RunKeyset | keyset.go:99-227 | the whole fetch on a Go slice: result, errors and the new contents of `dest`, whose earlier rows stay |
| Pages.SeekFilterKeeps | keyset.go:127-140 | filter AND seek predicate keep exactly the filtered rows past the cursor |
| Pages.ForwardView | keyset.go:143-153 | selecting past the boundary and sorting gives the part of the full sorted view behind it |
| Pages.BackwardView | keyset.go:143-153 | selecting before the boundary under reversed terms gives the part in front of it, in opposite order |
| Pages.PageMeans | keyset.go:99-207 | a page is exactly the nearest `size` filtered rows past the cursor in natural order (the last ones before it when backward), truncated exactly when there are more |
| Pages.PageSound | keyset.go:127-207 | even on data that breaks the contract a page holds only filtered rows strictly past its cursor: it never repeats the row it seeks from |
| Pages.CursorOfRow | keyset.go:187-190 | a row's cursor exists exactly when its key is encodable, and decodes to the row's own place in the order |
| Pages.FetchMeans | keyset.go:99-227 | page, a cursor per row that marks it, truncation and total; it fails exactly when some key on the page cannot be encoded |
| Pages.KeptInScope | query.go:286-301 | the rows any statement reaches satisfy both filter and soft-delete scope, and all those rows are reached |
| Tiling.RunIncreases | keyset.go:23-27 | in any run of fetches that each seek on from the page before, over arbitrarily changing tables, delivered rows are strictly increasing and past the first cursor |
| Tiling.DeliveredOnce | keyset.go:99-227 | when the last fetch is not truncated, every key that stayed in the filtered table throughout was delivered exactly once |
| Tiling.RunSound | keyset.go:99-227 | every delivered row was a filtered row when its page was fetched |
| Tiling.FixedRun | keyset.go:195-202 | on unchanged data a run delivers exactly the rows past its first cursor when it finishes, and finishes after exactly the number of fetches they need |
| Tiling.AllPages | keyset.go:28-33 | from the first page on that is the whole sorted filtered table |
| Tiling.FetchesForIsCeiling | keyset.go:153-153 | that number is the rows divided by the page size rounded up, and at least one |
| Tiling.ReadAll | keyset.go:99-227 | following the edge cursors terminates with everything delivered, if the keys are encodable |
| Witness.PremisesMeet | keyset.go:28-33 | the premises of the keyset theorems can be met together: a concrete host, query ordered by two columns, and database, whose run exists and delivers one row per page in order |
| Witness.PremisesMeetFromCursor | keyset.go:127-153 | they can be met from a cursor under an order of two columns: a concrete run from the first row's cursor delivers the other row |
| Connections.Assemble | connection.go:57-80 | one edge per row with its cursor, start and end cursors, flags by direction, total or -1 |
| Connections.ListConnection | connection.go:42-81 | deferred error, missing Seek and fetch errors are passed on; otherwise the assembled connection |
| Connections.PagePlace | connection.go:50-67 | a page is a stretch of the sorted filtered rows next to the cursor, each cursor marking its row |
| Connections.FlagsMean | connection.go:68-77 | hasNextPage and hasPreviousPage are both exact on a first page, and from a cursor exactly when some filtered row does not lie past it; the flag in the paging direction always is |
| Connections.EdgeSeeks | connection.go:60-77 | fetching after edge i's cursor returns the following row first, fetching before it returns the preceding row last, and all flags of both connections are exact |
| Connections.FlagsExactWhileRowStays | connection.go:68-77 | the flags stay exact while others change the data, as long as the row the cursor was taken from is still there |
| Witness.StaleCursorFlag | connection.go:68-77 | a concrete miss: the cursor's row and all before it were deleted, and hasPreviousPage is still true |
| Connections.Neighbour | keyset.go:25-29 | the page after EndCursor starts where this one ends; the page before StartCursor ends where it starts |
| Connections.ThereAndBack | keyset.go:25-29 | seeking before the StartCursor of the following page returns the page before it, row for row |
| Paginating.Paginate | paginate.go:63-112 | the sequence of branches over the two captured variables computes the resolved window, and panics exactly when First and Last are both given or one is negative |
| Paginating.CountIsDifference | paginate.go:25-29 | the records between After and Before form an interval |
| Paginating.WantedMeans | paginate.go:25-29 | the specification's algorithm, stated by counting records, as an interval |
| Paginating.PaginateMeans | paginate.go:63-112 | the window holds exactly the wanted records if and only if Last and Before are not combined, or Before leaves at most Last records after the start, or the total happens to lie right |
| Paginating.SafeForEveryTotal | paginate.go:63-112 | it does so for every total exactly under the part of that condition that needs no total |
| Paginating.NothingMeans | paginate.go:49-52 | there is no paginator exactly when no record can be wanted for any total |
| Paginating.TotalNeeded | paginate.go:54-57 | the total is needed first exactly when the window depends on it, which is Last without Before |
| Paginating.FrontInsteadOfEnd | paginate.go:91-98 | a concrete miss: After 0, Before 5, Last 2 of 10 |
| Paginating.MeasuredFromBefore | paginate.go:93-95 | a concrete miss: Before 5, Last 2 of 3 |
| Listing.ListKeyset | keyset.go:80-94 | the page info of a keyset listing |
| Listing.SelectRows | query.go:435-490 | appends the rows read and sees the window total only on a row |
| Listing.ReadPage | query.go:348-379 | trim, truncation flag and the three sources of the total |
| Listing.List | query.go:310-380 | deferred error, keyset mode, unsupported relevance, panic, empty paginator, pre-count and page, with `dest` in every case |
| Listing.Count | query.go:385-391 | the deferred error, or the result of COUNT for filter and scope |
| Listing.OffsetsRefuse | query.go:317-323 | offset mode refuses exactly a relevance term on a database without relevance, and next exactly contradictory paging arguments, before any statement is sent |
| Listing.CountedMeans | query.go:382-391 | COUNT for a query returns the number of its records, grouped or not |
| Listing.SortedMembers | query.go:286-288 | the records of a query that groups nothing are the rows of its table in filter and scope, in order |
| Listing.SelectedMeans | query.go:352-354 | the statement run for a page, which carries a total exactly if the window total was asked for |
| Listing.ListMeans | query.go:310-380 | for every query with a well-formed filter, grouped or not, and paging arguments that do not contradict each other, List succeeds: an empty `dest` receives exactly the wanted records, Truncated is set exactly when records lie past a bounded window, and Total is exact on every path that was asked for it |
| Listing.TrimCountsFromStart | query.go:362-365 | a `dest` that already held rows keeps them in front of the page if and only if the window reaches the end of the filtered rows (or is unbounded, or empty for good) |
| Witness.TrimLosesRows | query.go:362-365 | a concrete miss: First 1 over two rows, into a `dest` of two, drops the page and one of the old rows |
| Mutations.DeleteAdmitted | mutate.go:37-47 | Delete sends a statement exactly when there is no deferred error, no alias and no join, and a filter that renders as something or the authorisation; otherwise the first of these that is missing is the error |
| Mutations.UpdateAdmitted | mutate.go:67-81 | the same for Update, which also needs something to set, checked before the filter |
| Mutations.DeleteMeans | mutate.go:37-57 | then the executed DELETE removes from the table the query names exactly the rows in filter and scope |
| Mutations.OutOfScopeSurvives | query.go:251-255 | no DELETE touches a row outside the current scope |
| Mutations.DeleteGuard | mutate.go:45-47 | a filter that renders as nothing is refused without Unfiltered; a statement that is sent has no WHERE exactly for such a filter, and then it reaches every row |
| Mutations.UpdateGuard | mutate.go:79-81 | the same guard for UPDATE |
| Mutations.UpdateMeans | mutate.go:67-111 | then the executed UPDATE gives exactly the rows of the named table in filter and scope the assigned values and leaves the others alone |
| Mutations.UpdateDeterministic | mutate.go:83-109 | the statement is the same for every map enumeration, columns strictly sorted, argument i the value of column i, the WHERE arguments behind |
| Text.SortForgetsOrder | mutate.go:83-87 | sorting distinct strings forgets the order they came in |
| Plans.Build | plan.go:222-275 | one pass over the steps compiles a filter value, skipping what is not set and children without a plan |
| Plans.BuildMembers | plan.go:242-247 | the children of a group are the conditions of the members that have one |
| Plans.HolderMeans | holders.go:34-109 | the conditions of Range, Match, Text and FullText mean what the set operators say about the column |
| Plans.HolderConds | holders.go:16-19 | a holder contributes conditions exactly when something is set in it |
| Plans.CompileSolid | plan.go:268-274 | there is a condition exactly when the value imposes something, and it is well formed at every level |
| Plans.CompileMeans | plan.go:222-275 | the compiled condition has the three-valued meaning of the direct reading on every row, groups and correlated EXISTS included; nil says nothing |
| Plans.UnplannedMeans | plan.go:237-241 | whether or not all child types have plans, the compiled condition means the value with its unplanned groups cleared, and is nil exactly when that imposes nothing |
| Plans.FilterLost | plan.go:237-241 | a filter that imposes something is lost entirely exactly when all of it sits in unplanned groups |
| Plans.UnplannedGroupDropped | plan.go:237-241 | the smallest case: one group of an unplanned type is dropped whatever it says |
| Filters.CompiledHolds | plan.go:42-58 | a compiled filter is well formed next to any scope and keeps exactly the rows on which its direct reading is true |
| Filters.SelectFiltered | query.go:310-354 | for a compiled filter value the executed SELECT returns, and COUNT counts, exactly the rows the value says that are in scope |
| Filters.DeleteFiltered | mutate.go:37-57 | the executed DELETE leaves exactly the other rows |
| Filters.UpdateFiltered | mutate.go:67-111 | the executed UPDATE rewrites exactly those rows in place |
| Quoting.Quote | dialect.go:150-161 | the loop doubles every quote character between two quotes |
| Quoting.QuoteName | dialect.go:129-144 | segments of a dotted name are quoted in place, wildcards and empty ones left alone |
| Quoting.QuotedReadsBack | dialect.go:146-149 | lexing the quoted name recovers exactly the name if and only if the text behind does not begin with the quote character |
| Quoting.NameReadsBack | dialect.go:126-144 | lexing a quoted name recovers its dot-separated segments and which of them were left bare |
| Quoting.DialectReadsBack | dialect.go:54-86 | every database reads the identifiers its dialect writes: backticks on MySQL, double quotes elsewhere |
| Quoting.QuotingInjective | dialect.go:126-161 | different names have different quoted forms |

## Left out

- Fluent.Query.WriteProjection: writes the projection as one token; the database says which columns it shows (`Database.Shows`) but the rows of an answer are whole, so a `Select` that omits an order column, whose key field would then stay zero, is not modelled.
- Struct tags, reflection, `buildPlan`, `classifyField`, `parseTable`, `parseJoin`, `snake`, the plan cache's concurrency, and `compileFilter`'s handling of pointers and non-structs: plans are given as values.
- Custom `Predicate` implementations: only the four holders of the repository are modelled.
- `source.go`: the FROM text, joins included, is one token that names a table of the database; mutations only look at the alias and the number of joins.
- Raw fragments and the `on` text of EXISTS are atomic: text that itself contains AND or OR without brackets is outside the model.
- Grouped keyset pages: `Database.KeysetMeans` covers their statement, the page theorems ask for a query without grouping. The row of columns and aggregates that stands for a group is whatever the database makes of its rows (`summary`); that the selected columns are legal next to GROUP BY is not checked.
- Relevance and full-text match are uninterpreted scores and predicates of the database, with the search string bound as their argument.
- The database's own choice among rows that tie under the ORDER BY of `List`: the model sorts deterministically. For keyset pages keys are unique and the choice does not arise.
- Base64 framing, JSON string escaping and invalid UTF-8, RFC 3339 and float formatting: a token is its list of elements, and each text form is a codec that undoes itself where it can.
- Qualified order columns: the row is indexed by the column as written, so `unqualify` is not modelled.
- Database errors while scanning, contexts, drivers, and the affected-row count of `exec`.
- Machine integer overflow of offsets and limits, and aliasing of Go argument slices by `append`; `dest` and the key slice are modelled with their backing arrays.
- `Query.Sort`, `For`, `Where` and `Select`: request parsing and plain setters.
- `bind.go`, `opt.go`, `TruncateAt`, error wrapping and the per-dialect spelling of full-text expressions.
- Operators that a database lacks: ILIKE and the JSON/array operators are emitted alike for every dialect and passed to the database as uninterpreted tests.
