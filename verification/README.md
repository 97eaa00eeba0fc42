# A verified model of the ClickHouse console

A Dafny model of the logic of a web console for ClickHouse, with proofs about it. `dafny verify dfyconfig.toml` checks
all of it.

* **SQL text** (`SqlText`, `SqlBytes`, `SqlLexer`, `SqlGrammar`, `SqlSplit`, `SqlConstructs`, `SqlStability`,
  `SqlResplit`, `SqlJoin`, `SqlClassify`, `SqlKinds`, `SqlWords`, `SqlTrivia`, `SqlRewrite`, `SqlExecute`,
  `SqlQuoting`, `SchemaExport`, `QueryBatch`). The statement splitter is a one-pass scanner; its loop is proved equal
  to a lexer, and the lexer to a declarative token grammar. On that stand the results that the rest of the console
  relies on without saying so: text that was split splits again into itself, a second scanner for the same comments
  agrees with the first, rewriting a statement keeps it one statement of the same kind, printed names read back, an
  exported schema splits back, and a batch never sends what was not authorized. `SqlConstructs` and `SqlWords` say
  what the scanner and the classification do with every byte and every word written out.
* **Alerts** (`AlertRules`, `AlertEvents`, `AlertHistory`, `AlertRepository`, `AlertScheduler`, `AlertInterleaving`).
  A rule is a state machine over evaluations and edits. The documented meaning of `for` is a statement about whole
  runs, with exact bounds; events pair up over every run; pruning the history cannot be seen by a reader; no rule is
  evaluated twice at a time under any interleaving, and the events of a rule alternate exactly when no evaluation is
  claimed on a stale state.
* **Clusters and sessions** (`CaseFold`, `ClusterStore`, `Registry`, `RegistryAnswers`, `ClusterServer`). A record list changed in place
  and rolled back when a save fails, and above it an alias map, an alias slice and a session table that must agree
  with it and with the disk after every request.
* **Table exports** (`ResultExport`) and **users and audit** (`UserStore`).

Code that works step by step is modelled by methods with loops, on classes whose fields are assigned and on arrays
changed in place; each is proved equal to a function on values, and the theorems are about those functions. Clocks,
random ids, the disk, the cipher, the URL parser and the ClickHouse server are parameters (`World`, `Cluster`,
`Outcome`): they may answer anything, and fail at any call.

## What turned out to be false, and when exactly it is true

Each of these comes with the exact condition under which the property holds, and with an input on which it fails.

* A form feed or a vertical tab counts as code but is trimmed away, so `"\f"` splits into one empty statement, which
  splits into nothing (`SqlResplit.FormFeedSplitsToBlank`). An output splits into itself, and a list of outputs
  survives joining and splitting, exactly when code survives the trimming (`SqlResplit.SplitAgain`,
  `SqlResplit.SplitJoinSplit`). The two scanners agree exactly when the first code byte is not a form feed
  (`SqlClassify.TriviaAgrees`; they part on `SqlClassify.FormFeedHidesCode`). A comment in front of a text changes its
  class exactly when the text begins with blanks that hold a vertical tab and is one statement whose body begins with
  a letter (`SqlTrivia.TriviaInFrontIsExact`; it does so in `SqlTrivia.VerticalTabUnderTrivia`).
* A semicolon alone does not separate statements safely: splitting undoes it exactly when no statement but the last
  ends inside a line comment (`SqlJoin.SemicolonJoin`; `SqlJoin.SemicolonJoinFails` has two statements that it does
  not separate). A line feed and a semicolon always do (`SqlResplit.SplitUndoesJoin`). For the same reason an exported
  schema splits back exactly when no definition ends inside a line comment (`SchemaExport.ExportSplitsBack`,
  `SchemaExport.ExportLosesSemicolon`), and the appended `FORMAT JSON` takes effect exactly when the query does not
  end inside a line comment or with `#` (`SqlRewrite.FormatIsCode`, `SqlRewrite.FormatIsSwallowed`).
* `Execute` takes one semicolon off the end of a query before it appends `FORMAT JSON`. For a text that was not split
  before, such as the query of an alert rule, what is sent is one query exactly when the text behind its last
  separator, a final one not counted, bears code or ends inside a line comment (`SqlExecute.RawQueryIsExact`);
  `SHOW;;` is sent as two statements (`SqlExecute.SecondSeparatorStays`). A text that is sent as it is keeps its class
  exactly when trimming does not leave a bare `#` as the only code behind its last separator
  (`SqlExecute.RawTextIsExact`, `SqlExecute.CommentBecomesCode`). Outputs of the splitter are always sent as one
  statement (`SqlRewrite.ExecuteKeepsStatement`).
* A quoted identifier reads back exactly when it has no backslash (`SqlQuoting.QuoteIdentifierReadsBack`,
  `SqlQuoting.BackslashMisreads`), and is one quoted token exactly when none of its backslashes escapes a backtick or
  its end (`SqlQuoting.QuoteIdentifierIsToken`). The statement that asks for a database definition is one query
  exactly when the quote closes and what follows the close bears no code behind a separator
  (`SqlQuoting.CreateDatabaseIsQuery`, `SqlQuoting.CreateDatabaseFails`).
* `docs/alerting.md` says that a rule fires after it has been true for the whole of `for`. The code keeps instants in
  milliseconds, rounded down, so on the real clock a firing event comes early exactly when the stored window is `for`
  to the millisecond and the clock stood later in its millisecond at the start of the window than now, and then by
  less than a millisecond (`AlertRules.FiringRealTime`). Whether that can happen is known when the window begins:
  exactly when `for` is at least one interval and the window does not begin at a whole millisecond
  (`AlertRules.FiresEarlyExactly`; `AlertRules.FiresEarly` is such a run). On the stored instants the window is kept
  exactly.
* The loop reads the rules, and claims them one by one later. When an evaluation ends in between, the loop claims a
  stale rule, which can emit a second firing event (`AlertInterleaving.FiresTwice`). The events of a rule alternate,
  with its state telling which is next, exactly when each evaluation was claimed on a rule that agreed with the stored
  row, at the claim, on whether it is firing (`AlertInterleaving.AlternatesExactly`).
* A cluster update that fails to encrypt new credentials has already changed the URL and the database of the record in
  memory and leaves them so. Memory, disk and live clusters agree after every request exactly when that does not
  happen (`ClusterStore.AllOrNothing`, `Registry.RequestKeepsRegistry`, `Registry.RunKeepsRegistry`); it happens in
  `ClusterStore.FailedSealLeaks` and `Registry.FailedSealDisagrees`. This is an error path that the source writes down
  and that its runtime does not take: `encrypt` fails only when marshalling a map of strings or reading random bytes
  returns an error, and from Go 1.24, which `go.mod` asks for, `crypto/rand.Read` never does.
  `ClusterStore.RunIsDurable` and, with `NoneHalfDone`, `Registry.RunKeepsRegistry` cover the runs that occur.
* The cluster store compares the alias as typed and stores it trimmed, so on its own it keeps aliases unique exactly
  when the trimmed alias is free (`ClusterStore.CreateKeepsAliases`, `ClusterStore.PaddedAliasPasses`). The server in
  front of it compares the trimmed alias and closes the gap (`Registry.RunKeepsRegistry`).
* CSV and TSV exports read back exactly when there is at least one column, so no table without columns does
  (`ResultExport.CsvReadsBack`, `ResultExport.TsvReadsBack`).

## Model

| member | source | states |
|---|---|---|
| SqlText.TrimAround | internal/clickhouse/client.go:210 | trimming is determined by what it takes off: blanks around a middle that has none at its ends |
| SqlText.TrimSpells | internal/clickhouse/client.go:210 | what trimming takes off, byte by byte: spaces, tabs, line feeds, vertical tabs, form feeds and carriage returns at the ends, and nothing else |
| SqlGrammar.FirstIsGrammar | internal/clickhouse/client.go:132-220 | the scanner reads a token at the head of a text exactly when the grammar has that token there: quotes with escapes and doubling, heredocs closed only by their own tag, nested comments, four line-comment openers |
| SqlGrammar.LexIsGrammar | internal/clickhouse/client.go:125-234 | lexing a text succeeds with a token list exactly when the grammar cuts the text into that list |
| SqlGrammar.HeredocEndSpec | internal/clickhouse/client.go:134-143 | a heredoc ends at the first occurrence of its delimiter, and does not end when there is none |
| SqlGrammar.BlockEndSound | internal/clickhouse/client.go:151-163 | what the depth counter accepts is a properly nested comment body |
| SqlGrammar.BlockEndComplete | internal/clickhouse/client.go:151-163 | the depth counter accepts every properly nested comment body and stops right behind it |
| SqlLexer.LexText | internal/clickhouse/client.go:127-216 | the tokens put together are the text |
| SqlSplit.LexErrorIsEndsInside | internal/clickhouse/client.go:221-229 | each of the three errors is reported exactly when the text ends inside a quote, a heredoc or a block comment |
| SqlSplit.SplitIsCodePieces | internal/clickhouse/client.go:208-233 | the result is the trimmed pieces between top-level semicolons that bear code, in order |
| SqlSplit.SplitLosesNothing | internal/clickhouse/client.go:208-233 | the pieces joined with semicolons are the input, byte for byte |
| SqlSplit.HeredocDelimiterAt | internal/clickhouse/client.go:236-249 | the loop finds the `$word$` delimiter at an offset or none |
| SqlSplit.ScanInside | internal/clickhouse/client.go:134-182 | one turn of the loop inside a heredoc, a comment or a quote leaves the end of the construct where the lexer has it |
| SqlSplit.ScanTopLevel | internal/clickhouse/client.go:183-219 | one turn of the loop at top level opens the token that the lexer has there, and counts as code what the lexer calls code |
| SqlSplit.ScanOne | internal/clickhouse/client.go:132-219 | every turn keeps the builder equal to the source since the last top-level semicolon, and the result still to come unchanged |
| SqlSplit.SplitStatements | internal/clickhouse/client.go:125-234 | the loop returns what the lexer-based specification returns, on every text |
| SqlConstructs.QuoteIsOne | internal/clickhouse/client.go:164-182 | a text in single quotes, double quotes or backticks, with that mark doubled inside, is part of the statement it stands in, whatever semicolons and comment openers it holds |
| SqlConstructs.QuoteUnclosed | internal/clickhouse/client.go:221-223 | without its last mark it is an error |
| SqlConstructs.EscapeIsOne | internal/clickhouse/client.go:166-172 | inside a quote a backslash takes the byte behind it, whatever that is |
| SqlConstructs.HeredocIsOne | internal/clickhouse/client.go:134-143 | a heredoc is part of the statement it stands in up to the first repetition of its delimiter, whose name holds letters, digits and underscores |
| SqlConstructs.HeredocUnclosed | internal/clickhouse/client.go:224-226 | a heredoc whose delimiter does not come again is an error |
| SqlConstructs.LineCommentIsOne | internal/clickhouse/client.go:144-150 | behind `--`, `//`, `#!`, `#` and a space, or `#` and a tab, everything up to the end of the line separates nothing |
| SqlConstructs.BlockCommentIsOne | internal/clickhouse/client.go:151-163 | a block comment, with others nested in it or not, takes in everything up to its own close |
| SqlConstructs.BlockCommentUnclosed | internal/clickhouse/client.go:227-229 | a block comment without a close is an error |
| SqlConstructs.SemicolonSeparates | internal/clickhouse/client.go:208-215 | a semicolon at top level separates two statements |
| SqlConstructs.SpaceIsNothing | internal/clickhouse/client.go:216-219 | white space alone is no statement |
| SqlConstructs.EmptyPieceIsNothing | internal/clickhouse/client.go:208-215 | a separator with nothing but white space in front of it adds no statement |
| SqlStability.SealedToken | internal/clickhouse/client.go:183-219 | heredocs, block comments, ended line comments, white space, semicolons and every code byte but `-`, `/`, `#` and `$` stay tokens whatever text follows |
| SqlStability.LexAppend | internal/clickhouse/client.go:183-219 | when a text does not end inside a line comment, and no lookahead crosses the seam, lexing distributes over appending |
| SqlStability.LexAppendOpen | internal/clickhouse/client.go:144-150 | an open line comment takes in the rest of its line and nothing else |
| SqlResplit.SplitToItself | internal/clickhouse/client.go:125-234 | a text splits into just itself exactly when it is trimmed, bears code, and has no top-level semicolon |
| SqlResplit.TrimPiece | internal/clickhouse/client.go:210 | trimming a statement never changes how the rest of it lexes, though it may cut a comment opener down to `#` |
| SqlResplit.SplitAgain | internal/clickhouse/client.go:125-234 | every output is trimmed and splits again into itself, or into nothing exactly when trimming took its only code |
| SqlResplit.SplitIsStable | internal/clickhouse/client.go:125-234 | without form feeds and vertical tabs every output is a fixed point of splitting |
| SqlResplit.FormFeedSplitsToBlank | internal/clickhouse/client.go:210-219 | the input on which stability fails |
| SqlResplit.SplitUndoesJoin | internal/clickhouse/client.go:125-234 | splitting undoes joining any statements with a line feed and a semicolon |
| SqlResplit.SplitJoinSplit | internal/clickhouse/client.go:125-234 | splitting, joining with a line feed and a semicolon, and splitting again gives the same list exactly when every statement of it bears code |
| SqlJoin.SemicolonJoin | internal/clickhouse/client.go:125-234 | splitting undoes joining with a semicolon alone exactly when no statement but the last ends inside a line comment |
| SqlJoin.SemicolonJoinFails | internal/clickhouse/client.go:144-150 | two statements that a semicolon between them does not separate |
| SqlClassify.SkipBlock | internal/clickhouse/client.go:278-290 | the inner loop over a block comment ends where the nesting count of the lexer ends, or at the end of the text |
| SqlClassify.LineFeedAt | internal/clickhouse/client.go:269-272 | the inner loop over a line comment stops at the line feed that ends the comment for the lexer |
| SqlClassify.LeadingTriviaLength | internal/clickhouse/client.go:261-293 | the second scanner computes its specification, and its nested loops end |
| SqlClassify.TriviaAgrees | internal/clickhouse/client.go:261-293 | on every text that lexes it stops at the first code byte of the split lexer, except exactly when that byte is a form feed |
| SqlClassify.FormFeedHidesCode | internal/clickhouse/client.go:261-268 | the input on which the two scanners part |
| SqlClassify.TriviaAgreesOnOutput | internal/clickhouse/client.go:99-100 | on every output of a text without form feeds and vertical tabs it stops at the first code byte, which exists |
| SqlKinds.BodyIsSuffix | internal/clickhouse/client.go:100 | the left trim behind the trivia scanner never takes anything off |
| SqlKinds.BodyBehindTrivia | internal/clickhouse/client.go:100 | trivia in front of a trimmed statement leaves its body alone |
| SqlWords.ClassWords | internal/clickhouse/client.go:88-123 | a text is a query, dml, ddl or a grant exactly when it is one statement and its first word, whatever its case, is one of the words of that class, each written out; ALTER is dml or ddl |
| SqlWords.AlterIsMutation | internal/clickhouse/client.go:78 | ALTER is dml exactly when white space, the word TABLE and, somewhere behind it, the word UPDATE or DELETE follow |
| SqlWords.ExplainTells | internal/clickhouse/client.go:365-372 | a dry run asks for a query tree for SELECT and WITH, and for a syntax tree otherwise |
| SqlTrivia.TriviaInFrontIsExact | internal/clickhouse/client.go:88-123 | white space and complete comments in front of any text change its class exactly when there is a comment among them, the text begins with blanks that hold a vertical tab, and it is one statement whose body begins with a letter |
| SqlTrivia.PrependTrivia | internal/clickhouse/client.go:88-123 | without vertical tabs they never change its class, whatever the class or the error |
| SqlTrivia.VerticalTabUnderTrivia | internal/clickhouse/client.go:88-123 | an input whose class they change |
| SqlTrivia.TriviaHasNoClass | internal/clickhouse/client.go:99-104 | comments alone cannot be classified, even when trimming leaves a bare `#` of one |
| SqlRewrite.SentKeepsStatement | internal/clickhouse/client.go:298-308 | what is sent for a text that the splitter leaves as it is, is one statement of the same kind, with or without the appended clause |
| SqlRewrite.SentTells | internal/clickhouse/client.go:304-308 | what is sent: the trimmed text, or for a query without a FORMAT clause that text without one final semicolon and with ` FORMAT JSON` behind it |
| SqlRewrite.ExecuteKeepsStatement | internal/clickhouse/client.go:298-308 | the same for every output of the splitter that classifies |
| SqlRewrite.FormatIsCode | internal/clickhouse/client.go:306-308 | the appended clause is lexed as code exactly when the query ends at top level and not with `#` |
| SqlRewrite.FormatIsSwallowed | internal/clickhouse/client.go:306-308 | a query whose appended clause is taken in by the comment at its end |
| SqlRewrite.DryRunKeepsStatement | internal/clickhouse/client.go:353-372 | what a dry run sends is one query, for every output of the splitter that classifies |
| SqlExecute.WordStays | internal/clickhouse/client.go:99-108 | a text is known to be a query by its bytes up to the end of its first word: any text that begins with them, and goes on without a letter, is one |
| SqlExecute.CutTail | internal/clickhouse/client.go:304-307 | taking a semicolon and blanks off the end of a text cuts it behind a token, or inside a line comment, of which an open line comment or a bare `#` is left |
| SqlExecute.RawQueryIsExact | internal/clickhouse/client.go:298-308 | for every text that classifies as a query, what is sent classifies as one query exactly when the text behind its last separator, a final one not counted, bears code or ends inside a line comment |
| SqlExecute.RawTextIsExact | internal/clickhouse/client.go:298-308 | every text that is sent as it is, but for the blanks around it, keeps its class exactly when trimming does not leave a bare `#` as the only code behind its last separator |
| SqlExecute.SecondSeparatorStays | internal/server/alerting.go:20-36 | a query that is sent as two statements |
| SqlExecute.CommentBecomesCode | internal/clickhouse/client.go:304 | a text that trimming turns from one statement into two |
| SqlQuoting.QuoteStringReadsBack | internal/clickhouse/client.go:503-506 | for every value, and before any text that does not begin with a quote, one quoted token that stands for the value |
| SqlQuoting.QuoteIdentifierReadsBack | internal/clickhouse/client.go:499-501 | one quoted token that stands for the value exactly when the value has no backslash |
| SqlQuoting.QuoteIdentifierIsToken | internal/clickhouse/client.go:499-501 | one quoted token exactly when none of the backslashes of the value escapes a backtick or its end |
| SqlQuoting.BackslashMisreads | internal/clickhouse/client.go:499-501 | the name that does not read back |
| SqlQuoting.PrintedQuery | internal/clickhouse/client.go:425-435 | a query word followed by plain text, quoted values and quoted names is one query, whatever the values |
| SqlQuoting.CreateDatabaseIsQuery | internal/clickhouse/client.go:425 | for every name, the statement that asks for a database definition is one query exactly when the quote around the name closes and nothing bears code behind a separator in what follows the close; it is that statement as it stands exactly when no separator follows; nothing follows the close exactly when no backslash of the name escapes a backtick or its end |
| SqlQuoting.CreateDatabaseFails | internal/clickhouse/client.go:425 | the name for which that statement is no query |
| SqlQuoting.ObjectsIsQuery | internal/clickhouse/client.go:433-435 | the statement that lists the objects of a database is one query for every name |
| SqlQuoting.CreateDatabaseTells | internal/clickhouse/client.go:425 | the text of the statement that asks for a database definition |
| SqlQuoting.ObjectsQueryTells | internal/clickhouse/client.go:433-435 | the text of the statement that lists the objects, together with the next four |
| SqlQuoting.ArraysTell | internal/clickhouse/client.go:433 | what it selects |
| SqlQuoting.TablesTell | internal/clickhouse/client.go:434 | where it selects it from |
| SqlQuoting.EnginesTell | internal/clickhouse/client.go:435 | in which order |
| SqlQuoting.RankTells | internal/clickhouse/client.go:435 | how the engines are ranked for it |
| SchemaExport.RenderDatabaseSchema | internal/server/server.go:409-429 | the builder ends up holding header, database definition and object definitions in order |
| SchemaExport.HeaderTells | internal/server/server.go:411-414 | the header names cluster, database and time, in this order, each on one line with its line ends turned into spaces |
| SchemaExport.ObjectLineTells | internal/server/server.go:425 | the line in front of an object names its engine and then itself |
| SchemaExport.DdlTells | internal/server/server.go:415-422 | a definition is trimmed and ends with one semicolon, whether it brought one or not, and a blank line |
| SchemaExport.HeaderIsTrivia | internal/server/server.go:411-414 | the header is white space and complete comments, whatever the cluster and database are called |
| SchemaExport.BlocksSplit | internal/server/server.go:415-427 | definitions printed one behind the other split back, in order, exactly when none ends inside a line comment |
| SchemaExport.ExportSplitsBack | internal/server/server.go:409-433 | the exported file splits into one statement for the database and one for each object, in order, exactly when no definition ends inside a line comment, for any cluster, database, engine and object names |
| SchemaExport.ExportLosesSemicolon | internal/server/server.go:409-433 | a schema whose export does not split back |
| SchemaExport.ExpectedBody | internal/server/server.go:415-427 | each of those statements is the trimmed definition once the trivia in front is removed |
| QueryBatch.AllowedKinds | internal/server/server.go:301-318 | what each role may run, both ways |
| QueryBatch.RefusalReasons | internal/server/server.go:301-318 | for which reason a role is refused which kind |
| QueryBatch.Preflight | internal/server/server.go:248-259 | passes exactly when every statement classifies and is allowed; otherwise refuses at the first that is not, with its number and reason |
| QueryBatch.Execute | internal/clickhouse/client.go:298-308 | sends nothing for a text that does not classify, and one text for one that does |
| QueryBatch.Run | internal/server/server.go:273-285 | sends the statements in order up to the first failure, and reports as many as succeeded with their kinds |
| QueryBatch.HandleQuery | internal/server/server.go:227-299 | nothing is sent unless the whole batch was classified and authorized; what is sent is a prefix of the split list, each statement as it is or with ` FORMAT JSON` in place of a final semicolon; a viewer's texts begin with one of the eight query words and an editor's with one of those or a dml word; the reported counts are the numbers that succeeded |
| QueryBatch.WireIsAuthorized | internal/clickhouse/client.go:298-308 | each text on the wire splits into itself and has exactly the kind that was authorized, and so does the statement it came from |
| QueryBatch.WireWords | internal/server/server.go:301-318 | the first words of what reaches the cluster, by role, with every word written out |
| QueryBatch.ViewerOnlyQueries | internal/server/server.go:311-313 | only queries reach the cluster for a viewer |
| QueryBatch.DryRunAgrees | internal/server/server.go:359-361 | the split inside a dry run sees the one statement of the batch, and sends one query |
| AlertRules.PendingWindow | internal/alerting/service.go:158-195 | in every run a pending rule was true at every evaluation since its ActiveSince, with no gap over two intervals |
| AlertRules.FiringHonoursWindow | internal/alerting/service.go:177-195 | when a firing event is emitted, every evaluation since ActiveSince succeeded and was true, gaps were at most two intervals, and the stored window is at least `for` |
| AlertRules.FiringRealTime | internal/alerting/sql_repository.go:112-113 | at a firing event the real window is more than `for` less one millisecond, and shorter than `for` exactly when the stored window is `for` to the millisecond and rounding took more off its start than off its end |
| AlertRules.FiresEarlyExactly | internal/alerting/sql_repository.go:112-113 | some run of true results evaluated on time from a given start fires before `for` has passed exactly when `for` is at least one interval and the start is not a whole millisecond |
| AlertRules.FiresEarly | internal/alerting/sql_repository.go:112-113 | a rule whose `for` is one interval fires 999999 nanoseconds early when its window begins at the end of a millisecond |
| AlertRules.PendingRestarts | internal/alerting/service.go:168-188 | an error, a false result or a long gap ends the pending window, and nothing fires in that evaluation unless `for` is zero |
| AlertRules.FiringStays | internal/alerting/service.go:168-200 | only a successful false result takes a firing rule out of firing, with one resolved event |
| AlertRules.PacedRun | internal/alerting/service.go:133-195 | after n true evaluations the rule is firing exactly when the stored window has reached `for` |
| AlertRules.FiringLatency | internal/alerting/service.go:133-195 | under unbroken true results a rule fires at an evaluation between ceil(for / 2I) and ceil(for / I), counted from the one that made it pending |
| AlertRules.LatencyIsTight | internal/alerting/service.go:133-195 | both bounds are reached |
| AlertRules.EmitsKinds | internal/alerting/service.go:189-232 | an evaluation or edit emits nothing, or the firing event of the window it completes, or the resolved event of the window that was firing |
| AlertRules.EventsPairUp | internal/alerting/service.go:189-232 | in every run of evaluations and edits each resolved event comes right behind the firing event of the same window, with the same start |
| AlertRules.EventsAlternate | internal/alerting/service.go:189-206 | without edits the events strictly alternate, beginning with firing, and the state tells which comes next |
| AlertRules.EventsAlternateBetweenEdits | internal/alerting/sql_repository.go:191-200 | the same between any two edits |
| AlertRules.RunSplits | internal/alerting/service.go:150-206 | a run is its first part followed by its second |
| AlertEvents.EventTells | internal/alerting/service.go:189-232 | every event of a run comes from one evaluation of it, a successful one: true for a firing event, false for a resolved one, with its value; a resolved event ends in the millisecond of that evaluation |
| AlertEvents.EventsInOrder | internal/alerting/service.go:189-232 | under a clock that does not go back, no event ends before it begins, and none begins before an earlier one of the rule begins or ends |
| AlertEvents.LastEditRules | internal/alerting/sql_repository.go:180-200 | in every run the row says what the last edit said, or the creation when there was none |
| AlertEvents.EditTells | internal/alerting/sql_repository.go:191-200 | an edit puts every field of its input into the row, puts the rule to rest, and keeps what the last evaluation found |
| AlertEvents.CreationTells | internal/alerting/sql_repository.go:180-189 | a new rule has its input's fields, rests, and was never evaluated |
| AlertEvents.EvaluationStores | internal/alerting/service.go:157-166 | an evaluation stores its millisecond, its value and its error cut to a thousand bytes |
| AlertEvents.StateAfter | internal/alerting/service.go:158-200 | after an evaluation a rule fires, waits or rests exactly as the written-out conditions on gap, window and outcome say |
| AlertEvents.SinceAfter | internal/alerting/service.go:158-200 | a window that goes on keeps its beginning, and a new one begins now |
| AlertEvents.StoringTells | internal/alerting/sql_repository.go:213-216 | what a stored state changes in the row, instants to the millisecond, and that it changes nothing else |
| AlertHistory.PrunedIsTail | internal/alerting/sql_repository.go:366-386 | cutting off at the id found at an offset keeps exactly the newest rows |
| AlertHistory.PruneTwice | internal/alerting/sql_repository.go:366-386 | pruning twice is pruning once with the smaller limit |
| AlertHistory.EmittingIsTail | internal/alerting/service.go:226-231 | after any number of emits the table is the end of the log of everything ever inserted |
| AlertHistory.PruningIsInvisible | internal/alerting/service.go:356-369 | for any requested limit the answer over the pruned table is the answer over the log that was never pruned |
| AlertHistory.ReadNewest | internal/alerting/sql_repository.go:309-331 | the scan loop returns the newest rows, newest first |
| AlertRepository.TablePrune | internal/alerting/sql_repository.go:366-386 | a pruned table is still the end of its log |
| AlertRepository.EventsOfRows | internal/alerting/sql_repository.go:300-307 | inserting an event extends the history of its own rule and of no other |
| AlertRepository.ReachedIsGood | internal/alerting/sql_repository.go:180-216 | after any creations, edits, deletions and evaluations every rule and its events are what its own history makes of them |
| AlertRepository.ReachedPairs | internal/alerting/sql_repository.go:180-216 | in every reachable repository the events of every rule, present or deleted, pair up |
| AlertRepository.ReachedPending | internal/alerting/sql_repository.go:180-216 | in every reachable repository a pending rule was true without a break since its ActiveSince |
| AlertRepository.Repository.CreateRule | internal/alerting/sql_repository.go:180-189 | adds a rule that follows its input, inactive and never evaluated, under a new id, and changes no other |
| AlertRepository.Repository.UpdateRule | internal/alerting/sql_repository.go:191-200 | the row follows the input, inactive, and keeps the time of the last evaluation; reports a missing rule; changes no other |
| AlertRepository.Repository.DeleteRule | internal/alerting/sql_repository.go:202-211 | removes the rule, keeps its events, never gives its id out again |
| AlertRepository.Repository.UpdateRuleState | internal/alerting/sql_repository.go:213-216 | stores instants rounded down to milliseconds, and nothing for a rule that is gone |
| AlertRepository.Repository.CreateEvent | internal/alerting/sql_repository.go:300-307 | appends with the next id, and the table stays the end of its log |
| AlertRepository.Repository.CreateDelivery | internal/alerting/sql_repository.go:333-340 | the same for deliveries |
| AlertRepository.Repository.Prune | internal/alerting/sql_repository.go:366-386 | prunes both tables to the newest rows and leaves both the ends of their logs |
| AlertRepository.Repository.Events | internal/alerting/sql_repository.go:309-331 | the newest events, newest first, and no more than asked for |
| AlertRepository.Repository.Deliveries | internal/alerting/sql_repository.go:342-364 | the same for deliveries |
| AlertRepository.Emit | internal/alerting/service.go:208-232 | one event, at most one delivery for it, both tables pruned; under one limit both tables stay the newest rows of everything ever inserted |
| AlertRepository.Deliver | internal/alerting/service.go:234-273 | one delivery row, with the event, the rule, the webhook and the answer, for a webhook that is stored, and none for one that is gone |
| AlertRepository.Decide | internal/alerting/service.go:166-200 | the step-by-step changes to the local state end in the specified state and event, and the event tells what the evaluation found and when it ended |
| AlertRepository.Evaluate | internal/alerting/service.go:150-206 | an evaluation of a stored rule is one step of its history; events and deliveries grow by what the step emits, with its value and its end, and are pruned, and stay the newest rows of their logs; without an executor nothing changes |
| AlertRepository.ReadEvents | internal/alerting/service.go:356-362 | for every requested limit the answer is the one that the log of everything ever inserted would give |
| AlertRepository.ReadDeliveries | internal/alerting/service.go:363-369 | the same for deliveries |
| AlertScheduler.RunIsSound | internal/alerting/service.go:116-148 | under every interleaving of ticks, evaluations ending, and repositories swapped or taken away, `running` is exactly the set of rules in flight, at most one evaluation for each, and the history limit stays positive |
| AlertScheduler.OneAtATime | internal/alerting/service.go:136-147 | in every run an evaluation of a rule has ended before the next of that rule starts |
| AlertScheduler.PassStartsDueRules | internal/alerting/service.go:129-147 | an undisturbed pass starts each rule that is switched on and whose interval has passed, and that was not running, once, for the repository it was read from, and nothing else |
| AlertScheduler.Service.Schedule | internal/alerting/service.go:116-148 | the loop over the rules is that pass |
| AlertScheduler.Service.Configure | internal/alerting/service.go:42-60 | swaps the repository and replaces a limit below one by 300 |
| AlertScheduler.Service.Disable | internal/alerting/service.go:61-69 | takes the repository away and leaves the evaluations in flight |
| AlertScheduler.Service.GiveBack | internal/alerting/service.go:144-145 | the deferred end of an evaluation gives exactly its own claim back |
| AlertInterleaving.StaleStep | internal/alerting/service.go:150-206 | an evaluation of a stale rule keeps the events alternating, with the state telling which is next, exactly when the rule it saw and the stored rule agree on whether it is firing |
| AlertInterleaving.RunIsHeld | internal/alerting/service.go:121-148 | under every interleaving the row of a rule in flight is the row that was stored when it was claimed |
| AlertInterleaving.AlternatesExactly | internal/alerting/service.go:121-206 | under every interleaving the events of a rule alternate throughout, with the state telling which is next, exactly when each evaluation was claimed on a rule that agreed at the claim with the stored row on whether it is firing |
| AlertInterleaving.StaleNeedsEnd | internal/alerting/service.go:121-142 | a rule that the loop has read becomes stale only if an evaluation of that rule ends before the loop claims it |
| AlertInterleaving.FiresTwice | internal/alerting/service.go:121-148 | a run in which the loop claims a stale rule and the rule emits two firing events in a row |
| ClusterStore.AllOrNothing | internal/clusterconfig/store.go:111-195 | memory equals the last durable image after an operation exactly when it is not an update that fails to encrypt after changing the record; a failed operation never changes the disk |
| ClusterStore.FailedSealLeaks | internal/clusterconfig/store.go:149-161 | an update after which memory has the new URL and the disk the old one |
| ClusterStore.SuccessSaves | internal/clusterconfig/store.go:248-258 | a success writes all of memory |
| ClusterStore.RunIsDurable | internal/clusterconfig/store.go:111-195 | from any file that was opened, over every run in which encryption works, memory is the last durable image and every record opens, whichever saves fail |
| ClusterStore.CreatedOpens | internal/clusterconfig/store.go:111-138 | a created record opens to the trimmed user and the password as given, under the trimmed, accepted alias |
| ClusterStore.UpdateKeeps | internal/clusterconfig/store.go:140-177 | an update keeps place, id, alias, creation time, and the credentials unless new ones come, and leaves the other records alone |
| ClusterStore.CreateAnswers | internal/clusterconfig/store.go:111-138 | when a creation is answered with what, with every bound and byte class of the validation written out |
| ClusterStore.CreatedRecord | internal/clusterconfig/store.go:131-138 | the record that a creation stores, field by field |
| ClusterStore.FoundAnswers | internal/clusterconfig/store.go:140-177 | when an update of a record is answered with what |
| ClusterStore.UpdateAnswers | internal/clusterconfig/store.go:140-177 | when an update is refused, or finds no record |
| ClusterStore.UpdatedRecord | internal/clusterconfig/store.go:153-176 | the record that an update leaves, field by field |
| ClusterStore.LeakedRecord | internal/clusterconfig/store.go:153-170 | what an update leaves in memory that fails after it has begun |
| ClusterStore.DeleteAnswers | internal/clusterconfig/store.go:179-195 | when a deletion is answered with what, and that it takes the first record with the id away and no other |
| ClusterStore.ConfigTells | internal/clusterconfig/store.go:97-109 | what a caller gets of a record: every field, and the credentials opened |
| ClusterStore.CreateKeepsAliases | internal/clusterconfig/store.go:117-131 | aliases stay unique ignoring case exactly when the trimmed alias is free |
| ClusterStore.PaddedAliasPasses | internal/clusterconfig/store.go:117-131 | two records with one alias, by way of a leading blank |
| CaseFold.EqualFoldIsSameLetters | internal/clusterconfig/store.go:117-121 | texts are equal ignoring case exactly when they are, letter by letter |
| ClusterStore.Store.Create | internal/clusterconfig/store.go:111-138 | memory, disk and answer for every failure and for success; the appended slot is taken back when the save fails |
| ClusterStore.Store.Overwrite | internal/clusterconfig/store.go:149-174 | the record is changed field by field, restored when the save fails, and left changed when encryption fails |
| ClusterStore.Store.Update | internal/clusterconfig/store.go:140-177 | memory, disk and answer for every failure and for success |
| ClusterStore.Store.CloseGap | internal/clusterconfig/store.go:184 | the append over the gap moves every later record down by one |
| ClusterStore.Store.ShiftUp | internal/clusterconfig/store.go:187 | the copy moves every record from the gap on up by one |
| ClusterStore.Store.Reopen | internal/clusterconfig/store.go:186-188 | one more slot, the shift and the item put the record back at its index |
| ClusterStore.Store.Delete | internal/clusterconfig/store.go:179-195 | removes exactly the first record with the id, and after a failed save restores the exact sequence |
| ClusterStore.Store.Configs | internal/clusterconfig/store.go:97-109 | every record in order, decrypted, or an error exactly when one does not open |
| Registry.TargetIsRecord | internal/server/server.go:558-564 | the search by id over the map finds exactly the cluster of the record with that id, in whatever order the map is walked |
| Registry.AddedIsConsistent | internal/server/server.go:519-533 | a created cluster keeps the registry consistent and in agreement with the store |
| Registry.EditedIsConsistent | internal/server/server.go:557-574 | an edit keeps it consistent, and in agreement exactly when it does not stop half-way |
| Registry.DroppedIsConsistent | internal/server/server.go:583-617 | a deletion keeps it consistent and in agreement, and never takes a cluster from under a session |
| Registry.RequestKeepsRegistry | internal/server/server.go:144-226 | one request of any kind, answered in any way, keeps the registry consistent; live clusters, records and disk agree afterwards exactly when no edit stopped half-way |
| Registry.FailedSealDisagrees | internal/server/server.go:557-574 | an edit after which the stored record, the disk and the live cluster disagree |
| Registry.RunKeepsRegistry | internal/server/server.go:508-620 | over every run `aliases` is the environment's aliases followed by the records' aliases in order, unique ignoring case, exactly the keys of `clusters`; platform entries match records in id, alias, URL, database and password, and in user up to trimming, and memory matches the disk, after every request exactly when they do at the start and no edit stops half-way |
| Registry.RunServesSessions | internal/server/server.go:155-159 | in every run new sessions start on the same environment cluster, and the cluster of every session is there |
| Registry.BootedIsConsistent | cmd/console/main.go:102-120 | start-up builds a consistent registry from distinct aliases |
| Registry.RestartRebuilds | cmd/console/main.go:102-120 | a restart rebuilds the live registry from the disk: same aliases in the same order, same clusters but for blanks around user names |
| RegistryAnswers.SwitchAnswers | internal/server/server.go:194-226 | when a switch is answered with 200, 400, 401 or 404 |
| RegistryAnswers.SwitchMoves | internal/server/server.go:214-219 | a switch answered with 200 puts that session, and no other, on the confirmed cluster and keeps its user; any other answer changes nothing |
| RegistryAnswers.LoginOpens | internal/server/server.go:144-165 | an authentic login opens a session of its user on the first cluster |
| RegistryAnswers.LogoutCloses | internal/server/server.go:166-175 | a logout takes that session away and nothing else |
| RegistryAnswers.SessionsAreLogins | internal/server/server.go:144-175 | in every run a session is there exactly when a login has opened it and no logout has closed it since |
| RegistryAnswers.SessionStory | internal/server/server.go:144-226 | in every run the user of a session is that of the login that opened it, and its cluster that of its last successful switch since then, or the first one if there was none |
| RegistryAnswers.AddAnswers | internal/server/server.go:508-540 | when a creation is answered with 201 and when with 400 |
| RegistryAnswers.AddAdds | internal/server/server.go:519-540 | a creation answered with 201 adds the record, its live cluster field by field and its alias at the end; any other answer changes nothing |
| RegistryAnswers.EditAnswers | internal/server/server.go:542-581 | when an edit is answered with 200, 400 or 404 |
| RegistryAnswers.EditAsks | internal/server/server.go:557-566 | what the store is asked to change |
| RegistryAnswers.EditChanges | internal/server/server.go:566-574 | an edit answered with 200 changes one record and its live cluster, field by field, and nothing else |
| RegistryAnswers.DropAnswers | internal/server/server.go:583-620 | when a deletion is answered with 204, 400, 404 or 409 |
| RegistryAnswers.DropRemoves | internal/server/server.go:596-617 | a deletion answered with 204 takes the live cluster, its alias and its record away, and nothing else |
| ClusterServer.GatherStored | cmd/console/main.go:113-120 | the loop with the set of lower-case aliases stops exactly when two aliases differ in case only |
| ClusterServer.Gather | cmd/console/main.go:102-120 | start-up gets a list exactly when every record opens and all aliases are distinct, and it is the environment's clusters followed by the stored ones |
| ClusterServer.Server.constructor | internal/server/server.go:76-92 | the map and the slice built by the loop are the registry that start-up should build |
| ClusterServer.Server.Login | internal/server/server.go:144-165 | 200 and a session of the user on the environment's first cluster, or 401 and nothing |
| ClusterServer.Server.Logout | internal/server/server.go:166-175 | removes the session |
| ClusterServer.Server.SwitchCluster | internal/server/server.go:194-226 | the four answers; 200 exactly when confirmed, known and logged in, and then the session keeps its user and is on the confirmed cluster, and every other session is as it was |
| ClusterServer.Server.CreateCluster | internal/server/server.go:508-540 | status and whole new state for every failure and for success |
| ClusterServer.Server.UpdateCluster | internal/server/server.go:542-581 | status and whole new state for every failure and for success |
| ClusterServer.Server.DeleteCluster | internal/server/server.go:583-620 | status and whole new state: not found, in use by a session, not saved, or gone from map, slice and store |
| ClusterServer.Server.FindPlatform | internal/server/server.go:585-595 | the search over the map gives the same answer in every order |
| ResultExport.EscapedIsOnePass | internal/server/web/result-export.js:25-29 | the chain of six replacements is one pass over the text |
| ResultExport.TsvCellReadsBack | internal/server/web/result-export.js:25-29 | a cell reads back; NULL, the empty text and a literal `\N` stay apart |
| ResultExport.TsvReadsBack | internal/server/web/result-export.js:41-43 | exactly when there is a column, a reader gets the names in the first record and, in each record below, under each name what the row has there, NULL where it has nothing |
| ResultExport.CsvCellReadsBack | internal/server/web/result-export.js:19-23 | a cell reads back with what follows it left over |
| ResultExport.CsvReadsBack | internal/server/web/result-export.js:38-40 | exactly when there is a column, a reader after section 2 of RFC 4180, with LF between records, gets the names in the first record and, in each record below, under each name what the row has there, NULL where it has nothing |
| ResultExport.SafeNameIsSafe | internal/server/web/result-export.js:51-53 | never empty, only safe characters, no underscore at the ends; left alone exactly when already so |
| ResultExport.SafeNameTwice | internal/server/web/result-export.js:51-53 | doing it twice changes nothing more |
| ResultExport.PaddingGoes | internal/server/web/result-export.js:51-53 | unsafe characters and underscores around a safe name go away |
| ResultExport.RunIsUnderscore | internal/server/web/result-export.js:51-53 | a run of unsafe characters between safe names becomes one underscore |
| ResultExport.PaddingIsCluster | internal/server/web/result-export.js:51-53 | a name without anything safe in it becomes `cluster` |
| UserStore.GuardIsExact | internal/store/store.go:144-146 | the guard refuses exactly the changes that would leave no active administrator |
| UserStore.UpdateChangesOnlyWhatItNames | internal/store/store.go:136-167 | an update touches at most one user and only what the request names; a refusal leaves at most the new role behind, and that only for a rejected password |
| UserStore.CreateAnswers | internal/store/store.go:111-135 | when a creation is answered with what, with every bound and role written out |
| UserStore.CreatedUser | internal/store/store.go:130-135 | the user that a creation adds, field by field |
| UserStore.UpdateAnswers | internal/store/store.go:136-167 | when an update is answered with what |
| UserStore.UpdatedUser | internal/store/store.go:149-166 | what an accepted update makes of the user, and what a rejected password leaves |
| UserStore.UnknownUser | internal/store/store.go:136-167 | an update of a user that is not there changes nothing |
| UserStore.SomeAdmin | internal/store/store.go:168-176 | an administrator is counted exactly when some user has the role admin and is not disabled |
| UserStore.TwoAdmins | internal/store/store.go:168-176 | two are counted exactly when there are two |
| UserStore.RunKeepsGood | internal/store/store.go:111-167 | over every run of creations and updates, also those applied by half, an active administrator is left and usernames are unique ignoring case |
| UserStore.CapIsLast | internal/store/store.go:177-187 | the capped log stays the last 5000 entries of the whole log |
| UserStore.Store.CreateUser | internal/store/store.go:111-135 | users and answer for every refusal, for success and for a failed save |
| UserStore.Store.CountActiveAdmins | internal/store/store.go:168-176 | the loop counts the active administrators |
| UserStore.Store.Patch | internal/store/store.go:149-164 | a rejected password leaves the change of role behind; a rejected role leaves nothing |
| UserStore.Store.UpdateUser | internal/store/store.go:136-167 | users and answer for every refusal, for success and for a failed save |
| UserStore.Store.AddAudit | internal/store/store.go:177-187 | the log grows by the entry, and the capped list stays its end |
| UserStore.Store.Audits | internal/store/store.go:188-203 | the newest entries first, as the whole log would answer, for every limit |
| UserStore.ReverseInPlace | internal/store/store.go:199-201 | swapping from both ends reverses the slice |

## Left out

- Bytes above 127, and Unicode in trimming and case folding: a character of the model is one ASCII byte. Accepted cluster aliases are ASCII.
- HTTP transport, URL building, JSON, response sizes, monitoring, health checks, cookies, session expiry and CSRF tokens: I/O or plumbing.
- Cryptography and random ids: encryption and decryption are an inverse pair that may fail to encrypt; a random id is new and not empty.
- URL parsing: what the parser finds in the trimmed URL is an input of the store operations.
- The regular expression that looks for a FORMAT clause at the end of a query: whether it matches is an arbitrary function of the text. The one for ALTER mutations is modelled as a search for words.
- SQL engines, migrations, dialects, rule names and creation times in alert rows: a table is a sequence of rows with increasing ids.
- Validation of alert rules and webhooks, and the requests to webhooks: a delivery succeeds or fails with any status.
- Stores that fail under alerting: the alert database is taken to store what it is given.
- Edits and deletions of a rule, and swaps of the repository, while an evaluation is in flight: `AlertInterleaving` has new rules, the loop, and evaluations that store their event and their state in one step (the loop reads states only, so a read between the two sees what a read before them would).
- The loop of the dry-run handler: its preflight is the one of the query handler, and each statement is covered by `QueryBatch.DryRunAgrees`.
- Authentication and password hashing: a login is authentic or not, a hash is an input.
- Saving of users and audits to disk: a failed save is an answer; the user store does not roll back.
- `JSONEachRow` and `JSON` exports.
- ClusterServer.Server.Login: reads the alias list and stores the session in one step; `Registry.RunServesSessions` shows that the alias it reads never changes.
- AlertScheduler.Service.Configure: pruning under the new limit (`AlertRepository.Repository.Prune`) is left to the caller; closing the old repository and waking the loop are not modelled.
- AlertScheduler.Service.Disable: closing the old repository is not modelled.
- AlertRepository.ReadEvents: the answer of the whole log is stated for a constant limit; after a larger limit is configured a reader sees only what the smaller one has left.
