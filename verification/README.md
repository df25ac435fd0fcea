# Verified model of the MySQL MCP server's decision logic

The server lets MCP clients query MySQL under a policy. This project models the parts of it that decide something
(which schema names are allowed, where SQL text has comments, which statements may run, how much of a result is
returned, when pools are closed, where the `latest` image tag points) and proves what those decisions promise.

`dafny verify dfyconfig.toml` checks everything.

| file | models |
|---|---|
| `Results.dfy`, `Text.dfy` | optional values and results; splitting, cutting and joining text, decimal numbers |
| `Utf8.dfy` | Go's UTF-8 decoding (section 3 of RFC 3629), with its error rune for malformed bytes |
| `Glob.dfy`, `SchemaFilter.dfy` | the glob language, the one-star matcher, the allow-list |
| `SqlLike.dfy`, `SchemaListing.dfy` | the glob as a `LIKE` pattern over bytes; the schema listing tool from WHERE clause to truncation flag |
| `Lexer.dfy`, `Regions.dfy`, `AmbiguousCalls.dfy` | the two SQL scanners and their agreement |
| `FunctionStatement.dfy` | identifier quoting and the one statement the server generates |
| `SqlAst.dfy`, `SchemaPolicy.dfy`, `SchemaScope.dfy`, `StatementPolicy.dfy`, `ExpressionPolicy.dfy` | a small Vitess-like tree, schema authorization with CTE scopes, and the read and command walks |
| `QueryScan.dfy`, `QueryWire.dfy` | the bounded result scan with int64 arithmetic, its JSON size, caller row bounds |
| `Functions.dfy`, `Config.dfy` | stored-function policies and configuration validation |
| `Pools.dfy`, `Registry.dfy`, `Limiter.dfy` | pools and data sources with injected failures; the execution limiter under all interleavings |
| `Versions.dfy`, `Promotion.dfy` | version comparison and the `latest` reconciliation over all sequences of runs |

Text is bytes, as in Go. Where the code calls into Go's Unicode tables (`strings.ToLower`, `strings.EqualFold`,
`strings.TrimSpace`), the model takes a function as a parameter, so the results hold for any such function; the tables
of function names are parameters in the same way. `EqualFold` is equality after an arbitrary folding function.

Code and comments disagree in three places, and the model follows the code:

- The comment above `ValidateAllowedSchemas` says that a restriction without a default database rejects unqualified
  tables. It does so exactly when no valid pattern consists of stars alone and the empty name is not listed
  (`SchemaScope.EmptyDefaultRejectsUnqualified`, `SchemaScope.StarPatternAdmitsUnqualified`).
- The comment on the query byte budget promises a combined wire budget. The promise holds exactly when the budget
  covers the envelope (92 bytes and the digits of the elapsed time) and, besides, the result has a column or the
  budget is below 128 bytes, where no row is read (`QueryWire.PromiseHoldsExactly`).
- The comment in `validatePhysicalTable` says that DML targets named dual stay physical. Every aliased table may be
  virtual DUAL, and the targets of UPDATE and DELETE are aliased tables, so only targets that a command itself names
  are physical whatever they are called (`StatementPolicy.DmlOnDualPasses`).

## Model

| member | source | states |
|---|---|---|
| Utf8.RunesOfEncode | internal/schemafilter/schemafilter.go:40-41 | decoding an encoded rune sequence is valid and gives it back |
| Utf8.ValidIffRoundTrips | internal/schemafilter/schemafilter.go:36-41 | a string is valid exactly when encoding undoes its decoding |
| Glob.MatchesMeansPieces | internal/schemafilter/schemafilter.go:40-70 | matching means that the name can be cut into one piece per pattern character, anything for an asterisk and else the character itself |
| Glob.LatestStarSuffices | internal/schemafilter/schemafilter.go:47-52 | once the text after a star has matched up to a second star, growing the first star can never help |
| Glob.GrowStar | internal/schemafilter/schemafilter.go:56-59 | after a mismatch the star has to take at least one more symbol |
| Glob.SubjectExhausted | internal/schemafilter/schemafilter.go:65-69 | at the end of the name only stars may be left |
| SchemaFilter.Match | internal/schemafilter/schemafilter.go:35-70 | the backtracking loop terminates and answers exactly the recursive glob definition over runes, false on invalid patterns or names |
| SchemaFilter.Allows | internal/schemafilter/schemafilter.go:75-90 | empty lists allow all; otherwise exact names and patterns form one list |
| SchemaFilter.ValidMeans | internal/schemafilter/schemafilter.go:14-31 | valid are exactly the encodings of 1 to 64 characters other than NUL |
| SchemaFilter.PermittedMeans | internal/schemafilter/schemafilter.go:33-96 | what an allow-list allows, down to the characters of names and patterns |
| SchemaFilter.EmptyNamePermitted | internal/schemafilter/schemafilter.go:45-90 | under a restriction the empty name passes exactly by an empty exact entry or a valid all-star pattern |
| SqlLike.ToSQLLike | internal/schemafilter/schemafilter.go:101-116 | the builder loop yields the rune-by-rune translation, for malformed patterns too |
| SqlLike.ConvertByBytes | internal/schemafilter/schemafilter.go:101-116 | which characters become wildcards and which are escaped by which byte |
| SqlLike.LikeWildcards | internal/database/metadata.go:189-195 | what the wildcards and the escape of LIKE stand for |
| SqlLike.ConvertIsBytewise | internal/schemafilter/schemafilter.go:101-116 | translating characters equals translating bytes |
| SqlLike.LikeOfConverted | internal/schemafilter/schemafilter.go:98-116 | byte-level LIKE on the translated pattern accepts exactly what the glob accepted |
| SqlLike.StarFinishesCharacter | internal/schemafilter/schemafilter.go:40-69 | a star that ends inside a character can always swallow the rest of it (UTF-8 self-synchronization) |
| SqlLike.GlobOnBytesIsGlobOnRunes | internal/schemafilter/schemafilter.go:40-69 | on valid UTF-8, matching bytes and matching runes agree |
| SqlLike.LikeAgreesWithMatch | internal/database/metadata.go:189-195 | for every valid pattern and name, `LIKE BINARY ... ESCAPE '='` accepts exactly what `Match` accepts |
| SqlLike.InvalidNameDisagrees | internal/schemafilter/schemafilter.go:36-38 | a name that is not UTF-8 shows the restriction is needed |
| SchemaListing.BuildClauses | internal/database/metadata.go:176-195 | fails exactly on an invalid entry, else gives one IN clause and one LIKE clause per pattern |
| SchemaListing.SqlSelectsAllowed | internal/database/metadata.go:176-199 | the WHERE clause selects exactly the catalogue rows the allow-list permits, in order |
| SchemaListing.ListSchemas | internal/database/metadata.go:201-229 | the bounded read returns the first rows up to the bound |
| SchemaListing.ListSchemasAllowed | internal/database/metadata.go:167-199 | the first permitted rows up to the bound: the filter comes before the bound |
| SchemaListing.SchemasTool | internal/mcpserver/metadata_tools.go:52-75 | nothing outside the allow-list is returned; the rows are the first MaxRows permitted ones and the flag is true exactly when more exist, for any catalogue a slice can hold |
| Lexer.ScanUnsafeComment | internal/policy/scanner.go:20-116 | the loop takes the machine's steps and reports its first unsafe comment in the SQL state, by kind |
| Lexer.FindUnsafeComment | internal/policy/scanner.go:10-18 | both backslash modes, the escaping one first |
| Lexer.LineEnd | internal/policy/scanner.go:212-217 | a line comment ends at the first line break |
| Lexer.BlockEnd | internal/policy/scanner.go:219-227 | a block comment ends just past the first close |
| Lexer.SkipQuotedString | internal/policy/scanner.go:229-245 | ends just past the one lone quote that closes the contents, or at the end of the text when nothing closes them |
| Lexer.QuotedEndExactly | internal/policy/scanner.go:229-245 | the scan agrees with the grammar of contents: doubled quotes, escaped bytes (by mode) and other bytes |
| Lexer.ReadBacktickIdentifier | internal/policy/scanner.go:247-262 | reads the undoubled identifier, or reports it unclosed |
| Lexer.SkipTrivia | internal/policy/scanner.go:189-210 | stops at the first byte that starts no whitespace or comment; separated is true exactly when it moved |
| Lexer.UnitKinds | internal/policy/scanner.go:138-184 | which bytes start whitespace, either comment, a string, a quoted identifier and a word |
| Lexer.UnitEnds | internal/policy/scanner.go:171-227 | where comments and words end, byte by byte |
| Regions.UnitRun | internal/policy/scanner.go:30-113 | the machine crosses each unit of the other scanner from SQL state to SQL state under one label |
| Regions.ScannersAgree | internal/policy/scanner.go:20-262 | in each mode both scanners label all bytes alike up to the first unit that opens an unsafe comment, which is where the machine stops |
| Regions.NothingFoundMeansSameRegions | internal/policy/policy.go:155-160 | after a clean comment check both scanners agree on the whole text in both modes |
| Regions.ScanFindsExactly | internal/policy/scanner.go:20-116 | one mode finds nothing exactly if no block comment has an exclamation mark or a plus sign as its third byte, and otherwise reports the first one that has, as an executable comment or an optimizer hint by that byte |
| Regions.FindUnsafeExactly | internal/policy/scanner.go:10-18 | a text passes exactly if neither mode has such a comment; the escaping mode's report goes first |
| AmbiguousCalls.ScanAmbiguousBuiltinCall | internal/policy/scanner.go:138-184 | the scan reports the first unit that is a sensitive name before a call |
| AmbiguousCalls.FindAmbiguousBuiltinCall | internal/policy/scanner.go:131-136 | both modes, the escaping one first |
| AmbiguousCalls.TriviaIsUnits | internal/policy/scanner.go:186-210 | skipping trivia byte by byte is skipping the whitespace and comment units |
| AmbiguousCalls.ScanReportsFirstAmbiguousUnit | internal/policy/scanner.go:118-184 | nothing is reported exactly when no unit is a sensitive name that is backticked, or separated by at least one trivia unit, before a parenthesis; otherwise the first such unit's lowered name |
| AmbiguousCalls.PassesBothModes | internal/policy/scanner.go:131-136 | a text passes exactly when neither mode has such a unit |
| FunctionStatement.ReadBack | internal/database/metadata.go:485-490 | the scanner's reader undoes the printer at any position, before anything but another backtick |
| FunctionStatement.QuotedReadsBack | internal/policy/scanner.go:247-262 | the same for the printed identifier between any prefix and continuation |
| FunctionStatement.BacktickContinuationRunsOn | internal/policy/scanner.go:254-258 | before another backtick it does not |
| FunctionStatement.GeneratedCallLexes | internal/database/function.go:260-269 | for all identifiers and argument counts, in both modes, the generated text lexes to SELECT, the two names, n placeholders and the alias |
| FunctionStatement.BuildCallIsTheCall | internal/database/function.go:260-269 | it is built exactly for two valid identifiers |
| FunctionStatement.GeneratedCallIsSafe | internal/database/function.go:268-269 | the comment scanner finds nothing in it, in either mode |
| FunctionStatement.GeneratedCallInjective | internal/database/function.go:260-269 | different calls have different texts |
| SchemaPolicy.ValidatePhysicalTable | internal/policy/policy.go:733-752 | allowed exactly when DUAL or a visible CTE resolves it, or its schema (the default for unqualified names) is allowed |
| SchemaPolicy.ValidateSchemaScope | internal/policy/policy.go:597-684 | the mutual recursion terminates and reports the first refused reference in checking order |
| SchemaPolicy.WalkScope | internal/policy/policy.go:619-683 | the walk callback: skip the root once, hand nested scopes back, stop at nodes that name tables |
| SchemaScope.ScopeIsLexical | internal/policy/policy.go:515-517 | a name is in scope exactly if inherited or declared by an ancestor on the path; siblings never leak |
| SchemaScope.ScopeAcceptsExactly | internal/policy/policy.go:597-684 | a tree of any depth is accepted exactly when every reference on every path is allowed in its own lexical scope |
| SchemaScope.ScopeAcceptsByKind | internal/policy/policy.go:619-683 | the same kind by kind: foreign keys, exchanged partitions, sequences and table options need an allowed schema; an aliased table may also be dual or a common table expression of an ancestor |
| SchemaScope.AllowedDefaultMakesScopeFlat | internal/policy/policy.go:605-617 | with an allowed default the verdict is the flat check of qualified references, so over-approximated CTE visibility is harmless |
| SchemaScope.EmptyDefaultRejectsUnqualified | internal/policy/policy.go:509-517 | without a default, unqualified physical references pass exactly when the empty name is listed or some valid pattern is all stars |
| SchemaScope.StarPatternAdmitsUnqualified | internal/policy/policy.go:511-513 | a concrete restriction that admits an unqualified table without a default |
| StatementPolicy.ValidateDirectCommandSchemas | internal/policy/policy.go:686-731 | the command's own targets, in order; commands that hide their schemas are undetermined |
| StatementPolicy.ValidateAllowedSchemas | internal/policy/policy.go:518-540 | unrestricted, missing, partial, direct and scope checks in that order |
| StatementPolicy.StatementAcceptedExactly | internal/policy/policy.go:518-752 | under a restriction, accepted exactly when fully parsed, exposing its targets, and every target and reference is allowed |
| StatementPolicy.StatementAcceptedByKind | internal/policy/policy.go:518-752 | the same for whole statements, by command and node kind |
| StatementPolicy.RejectionSaysWhy | internal/policy/policy.go:518-540 | invalid means missing or not fully parsed, a reported schema is not allowed, and undetermined are exactly the commands that hide their targets |
| StatementPolicy.AllowedDefaultMakesVerdictFlat | internal/policy/policy.go:518-540 | with an allowed default the verdict on a statement is the flat check of the schemas it spells out, as targets or references |
| StatementPolicy.EmptyDefaultVerdict | internal/policy/policy.go:509-540 | without a default, what a statement leaves to it, targets included, is rejected exactly when the empty name is not listed and no valid pattern is all stars |
| StatementPolicy.DmlOnDualPasses | internal/policy/policy.go:644-652 | an UPDATE or DELETE of an unqualified table called dual passes under every restriction, an ANALYZE of one only with an allowed default |
| StatementPolicy.WiderListsAcceptMore | internal/policy/policy.go:511-513 | widening a restriction never rejects an accepted statement |
| ExpressionPolicy.Walk | internal/policy/policy.go:351-375 | a walk that never prunes reports the first problem in preorder |
| ExpressionPolicy.WalkAcceptsExactly | internal/policy/policy.go:453-476 | it accepts exactly the trees without a problem node on any path |
| ExpressionPolicy.ValidateReadAst | internal/policy/policy.go:453-476 | reports the first forbidden node in preorder |
| ExpressionPolicy.ValidateCommandAst | internal/policy/policy.go:324-376 | root checks first, with the class of the statement's type, then the first forbidden node in preorder |
| ExpressionPolicy.ReadAcceptsExactly | internal/policy/policy.go:453-507 | the read policy accepts exactly the trees whose every node is read-only for that server version |
| ExpressionPolicy.CommandAcceptsExactly | internal/policy/policy.go:216-442 | the command policy accepts exactly permanent, fully parsed INSERT, REPLACE, UPDATE, DELETE and DDL statements whose every node is safe and confined to InnoDB without outside resources |
| ExpressionPolicy.RejectionSaysWhy | internal/policy/policy.go:324-507 | every rejection code is deserved, by a node of the tree or by the statement itself |
| ExpressionPolicy.TooNewIsRefused | internal/policy/functions.go:163-264 | a built-in or window call that is newer than the server is refused by both policies wherever it stands, and for nothing else alone |
| ExpressionPolicy.NewerServersAllowMore | internal/policy/functions.go:163-264 | acceptance is monotone in the server version; the version-zero profile is the strictest |
| ExpressionPolicy.CommandChecksIncludeReadChecks | internal/policy/policy.go:351-375 | whatever passes as a command passes the read walk |
| QueryScan.WrapIsNoticed | internal/database/query.go:206-211 | the wrapped int64 test of a cell decides as unbounded arithmetic would |
| QueryScan.ColumnWrapIsNoticed | internal/database/query.go:149-157 | likewise for a column |
| QueryScan.EnvelopeIsNeededAgainstWrapping | internal/database/query.go:20-24 | without the base overhead in the budget a wrap could pass unnoticed |
| QueryScan.CostsInNumbers | internal/database/query.go:15-24 | the allowances in numbers, per column, row and cell |
| QueryScan.ScanRow | internal/database/query.go:188-214 | a row is whole and charged its exact cost, or stops for the first cell that is too large in itself or overruns the budget, or fails for one that cannot be encoded |
| QueryScan.TakenMeansFits | internal/database/query.go:190-217 | the cell-by-cell checks take a row exactly when all its cells and its total cost fit |
| QueryScan.ScanColumns | internal/database/query.go:135-159 | the longest prefix of columns that fits |
| QueryScan.ScanRows | internal/database/query.go:109-230 | always within all limits and the longest prefix of whole rows; exactly the first failure the scan runs into is reported; without one, or when only closing fails, flag and reason are exact |
| QueryScan.ReasonSaysWhy | internal/database/types.go:100-130 | what each reason says about the source: the cap on rows or columns that was met, the oversized cell, or the column or cell that overran the budget |
| QueryWire.WireSizeWithinBudget | internal/database/query.go:16-24 | with a column and a budget of at least 128, a result within the limits never exceeds the budget as JSON |
| QueryWire.Query | internal/database/query.go:68-105 | what a query returns, beside an error too, fits the budget as JSON; without an error it is the exact scan |
| QueryWire.PromiseHoldsExactly | internal/database/query.go:16-24 | for an elapsed time of n digits, the promise holds for every source and every outcome exactly when 92 + n fits the budget and there is a column or the budget is below 128 |
| QueryWire.PromiseHoldsAlways | internal/database/query.go:68-73 | for every elapsed time a duration can have, exactly when the budget is at least 105 and there is a column or it is below 128 |
| QueryWire.TruncatedIsExact | internal/database/types.go:114-130 | the flag is false exactly when all columns and rows were returned, and the one corner where it is not |
| QueryWire.ScanIsUnique | internal/database/query.go:109-230 | columns, rows and flag are determined |
| QueryWire.TrimmingIsScanningLess | internal/mcpserver/query_tools.go:156-165 | scanning with a smaller bound equals scanning fully and trimming, up to the reason |
| QueryWire.QueryWithMaxRows | internal/database/query.go:56-66 | rejects non-positive and excessive bounds, else answers with the bounded scan or its error, within the budget on the wire |
| QueryWire.QueryTool | internal/mcpserver/query_tools.go:36-54 | once the statement is accepted, a request out of range gets its own error, and every other is answered with the full scan trimmed to its limit, or the scan's error |
| Functions.KeyIsPair | internal/database/function.go:398-403 | keys coincide exactly when schema and folded name do |
| Functions.ValidateFunctions | internal/config/validate.go:297-326 | accepts exactly qualified, valid, distinct entries whose write effects are enabled; a reported problem is real |
| Functions.ValidEntryIsARoutine | internal/config/validate.go:297-326 | a valid entry is one identifier, a dot and another, with a read effect or an enabled write effect |
| Functions.NewFunctionService | internal/database/function.go:81-120 | succeeds exactly on usable, distinct policies, with a writer for every write effect, and indexes exactly those; a refusal is for a real reason |
| Functions.ValidatedPoliciesAreUsable | internal/datasource/registry.go:239-259 | every accepted configuration yields policies the service accepts |
| Functions.LookupFindsConfigured | internal/database/function.go:384-396 | a call finds a policy exactly when a configured routine has its schema and folded name |
| Functions.CallFindsItsEntry | internal/datasource/registry.go:239-259 | a call is judged by the effect and the definer switch of the entry that names its routine, and only such calls find a policy |
| Text.CutIsSplit | internal/datasource/registry.go:244 | the registry's cut finds the two parts that validation split |
| Config.ValidateDatasource | internal/config/validate.go:121-223 | accepts exactly the data sources that meet the listed invariants |
| Config.Validate | internal/config/validate.go:22-64 | accepts exactly valid servers with valid, distinctly named data sources |
| Config.OneMoreExactName | internal/config/validate.go:143-186 | a valid list stays valid exactly for a new identifier that, as the first restriction, keeps the default database |
| Config.OneMorePattern | internal/config/validate.go:158-186 | likewise for a new valid pattern with a star |
| Config.CallableSchemasAreAllowed | internal/config/validate.go:214-221 | every routine that can be called on a validated source lies in an allowed schema |
| Config.AnswerValidated | internal/mcpserver/query_tools.go:36-54 | under a validated server every request from zero to the configured rows is answered with its exact scan |
| Config.FreeSourceServes | internal/datasource/registry.go:62-73 | a validated source with no slot held serves any waiting request |
| Config.ListValidated | internal/mcpserver/metadata_tools.go:52-75 | on a validated source the schema tool cannot fail on its lists and answers with the permitted rows and an exact flag |
| Config.ValidatedDefaultIsFlat | internal/config/validate.go:175-186 | with a default database, a validated source judges a statement by the schemas it spells out alone |
| Config.ValidatedEmptyDefault | internal/config/validate.go:143-174 | without one, what a statement leaves to the default is rejected exactly when no pattern is all stars |
| Pools.Source.Close | internal/datasource/registry.go:84-99 | the first call closes each distinct pool once, later calls none, even when the monitor shares the read pool |
| Pools.Source.Initialize | internal/datasource/registry.go:185-286 | for a validated source, fails exactly when an outside step fails; wires exactly the entitled services |
| Pools.OpenSource | internal/datasource/registry.go:159-287 | a failed source has closed each of its pools once; a complete one took every opening step, and has a write pool, command and admin service and function writer exactly as the server's and its own read-only flags and the features say; without write permission all policies read |
| Registry.Registry.Close | internal/datasource/registry.go:323-332 | after any number of calls every owned pool has been closed exactly once |
| Registry.OpenRegistry | internal/datasource/registry.go:117-157 | fails exactly on an invalid configuration or a failing step, having closed every pool once; else owns all pools, open |
| Registry.LostExactlyIfOverwritten | internal/datasource/registry.go:152-153 | an opened pool is out of the registry's reach exactly when a later source was registered under the same name |
| Registry.CloseWhatIsReached | internal/datasource/registry.go:323-332 | closing the registry closes the pools of sources that kept their names once and does not touch those of overwritten ones |
| Registry.AllReachedIffDistinct | internal/config/validate.go:58-62 | all opened pools can be reached exactly when the names are distinct, as validation demands |
| Limiter.StepKeepsInv | internal/datasource/registry.go:62-73 | every acquire, cancellation and release keeps slots equal to held slots |
| Limiter.LimiterIsExact | internal/mcpserver/server.go:45-59 | in every interleaving occupancy equals held slots, at most capacity handlers run, a release never blocks, a slot can be had exactly when one is free, and waiting can always be given up |
| Limiter.SlotComesBack | internal/datasource/registry.go:66-72 | the first release of a running request gets through and frees exactly its slot |
| Limiter.ReleasedOnce | internal/datasource/registry.go:68-69 | however often it is called, a release gives back one slot |
| Limiter.OnceIsNeeded | internal/datasource/registry.go:68-69 | if a release received twice from a full channel, one handler too many would get in, and in every continuation the last release would block |
| Versions.PartIsNumeric | scripts/promote-docker-latest.sh:53-72 | length-first text comparison of canonical numbers is numeric comparison, for any number of digits |
| Versions.StableMeansPrinted | scripts/promote-docker-latest.sh:19 | the stable tags are exactly the printed versions, and reading undoes printing |
| Versions.BelowIsNumeric | scripts/promote-docker-latest.sh:46-74 | precedence is the order of numbers with the parts as digits in any large enough base |
| Versions.CompareStableVersions | scripts/promote-docker-latest.sh:46-74 | the comparison is SemVer precedence (section 11 of SemVer 2.0.0) and ties only equal tags |
| Versions.HighestTag | scripts/promote-docker-latest.sh:117-125 | the fold keeps the stable tags and finds the highest |
| Versions.HighestIsUnique | scripts/promote-docker-latest.sh:122-124 | a list has only one highest tag, whatever its order |
| Promotion.ListReleases | scripts/promote-docker-latest.sh:88-109 | the first of three listings that shows the release |
| Promotion.ReleaseRowsExactly | scripts/promote-docker-latest.sh:88-109 | told by positions: the first listing that shows the release |
| Promotion.FirstSeenExactly | scripts/promote-docker-latest.sh:129-149 | told by positions: the first attempt that shows a manifest |
| Promotion.DigestsAndRevisions | scripts/promote-docker-latest.sh:20-21 | the two patterns, character by character |
| Promotion.InspectOptionalLatest | scripts/promote-docker-latest.sh:153-191 | absence is believed only after three explicit not-found answers |
| Promotion.ValidateExactRelease | scripts/promote-docker-latest.sh:215-242 | both aliases valid, for Git's revision and this release, with one digest |
| Promotion.NewerBranchUnreachable | scripts/promote-docker-latest.sh:269-274 | the branch for a latest newer than the highest release cannot be taken |
| Promotion.Registry.Reconcile | scripts/promote-docker-latest.sh:88-294 | the whole script computes the run function and changes nothing but the tag |
| Promotion.StepIsMonotone | scripts/promote-docker-latest.sh:244-294 | a run never moves latest back, even if the registry wrongly denies it exists; a change sets the validated image of the highest release, and only over nothing or an older official release |
| Promotion.RunExactly | scripts/promote-docker-latest.sh:244-294 | progress and its limits: a run confirms the image of the highest release, moves a tag that is absent or shows an older official release, and otherwise leaves the tag alone for the stated reason |
| Promotion.NothingToGoBy | scripts/promote-docker-latest.sh:103-242 | without a list, a stable release or its images a run fails as such and changes nothing |
| Promotion.EndsWellExactly | scripts/promote-docker-latest.sh:88-294 | exactly when a run ends well |
| Promotion.SuccessIsTheHighestRelease | scripts/promote-docker-latest.sh:286-294 | a run that ends well leaves latest at the image that Git and both aliases vouch for as the highest stable release, in a list that shows the completed one; only the final look at the tag has to be truthful, not the create |
| Promotion.HonestRegistryNeedsNoGrowth | scripts/promote-docker-latest.sh:262-281 | if the registry does not deny an existing latest, a run moves it only strictly upwards, whatever the release list |
| Promotion.RepeatCreatesNothing | scripts/promote-docker-latest.sh:262-294 | after a run that confirmed the tag, or whose create took effect however the run ended, a run for the same highest release leaves the tag alone; with the list and the images at hand it creates exactly when the registry denies the tag, and confirms exactly when the registry shows it |
| Promotion.LatestNeverMovesBack | scripts/promote-docker-latest.sh:1-9 | over every sequence of serialized runs with growing release lists the version of latest never decreases |

## Left out

- Vitess parsing, statement splitting and panic recovery: the policy starts from a tree, with the root's kind and targets as data.
- Children of nodes that name tables: the schema walk stops at such nodes in the code too, so references below, say, an EXCHANGE PARTITION clause are not looked at.
- The names that rejections report for diagnostics: no bearing on the verdict.
- The driver, TLS, pings, MySQL execution and the contents of INFORMATION_SCHEMA: rows arrive as data, steps may fail.
- The choice of cell type and the escaping of JSON strings (`encodeCell`, `json.Marshal`): a cell is its source size and encoded text.
- `Limits.WithDefaults` and timeouts: limits are positive once validated, defaults only fill zeros.
- Sorted order of registry names, close errors, and the ordered list behind function listings: they affect presentation only.
- Metadata gates and the transaction of a stored-function call (`Call` beyond the statement it builds).
- The other metadata tools: they use the same bound and trimming as the schema tool.
- Nil contexts, receivers and row handles, and the SQL length and argument checks before a query.
- HTTP routing, SDK registration, logging, and the shell tooling, sleeps and messages of the promotion script.
- Config.ValidateDatasource: the checks of network address, credentials, TLS, pool sizes and the monitoring section are one flag, because no other module depends on what they check.
- Config.Validate: likewise for the version, transport, HTTP and timeout checks of the server section.
- Promotion.LatestNeverMovesBack: assumes that images never change and that a manifest which is shown is the real one; a false "not found" is allowed.
