# Real-estate platform: verified models

Dafny models of the parts of the backend whose behaviour spans several steps, tables or runs, with
proofs of what they promise.  `dafny verify dfyconfig.toml` checks everything.

- **Property-agent assignments** (`AssignmentTable`, `AssignmentAdapter`, `AssignmentConcurrency`,
  `AssignmentOrder`, `AssignmentPages`, `AssignmentWalks`, `AgentCapacity`, `AgentAnswers`, `CapacityRace`).
  A transaction is specified by what it writes and logs given the rows it finds.  The adapter's methods refine that
  specification statement by statement.  A step machine runs any number of transactions at once, with the property read, the row lock, private writes,
  commit, refusal, lost connections and soft deletes.  On top are paging and the capacity gate, sequential and raced.
- **Semantic seed expander** (`SeedTargets`, `SeedExpansion`, `SeedFixpoint`, `SeedConflicts`, `SeedTwins`,
  `SeedForecast`, `SeedIntegrity`, `SeedContents`, `SeedRunner`, `SeedVerifier`).
  The passes over all tables are a function of the database.  The object with the source's loops computes that function, and the fixed point, completeness and integrity results are about it.
- **Baseline seed expander** (`BaselineExpansion`, `BaselineOrigins`, `BaselineContents`, `BaselineUniqueness`,
  `BaselineCollision`): cloning rows against a register of occupied keys.
- **Automation** (`CanonicalJson`, `JsonNumbers`, `JsonReader`, `JsonRoundTrip`, `Retry`, `Notifications`): the
  canonical text of a JSON value, read back by a reader that knows nothing of the printer, retry
  decisions driving the action and execution states, and marking all notifications as read.
- **Request checking and export** (`ObjectGraph`, `CsvExport`, `OperationIds`, `Slug`, `AuditRedaction`).
- `Wrappers`, `Strings` and `Decimals` are shared helpers.

Code that updates objects or runs loops is modelled as classes and methods whose postconditions equate the new
state with a specification function.  The properties are lemmas about those functions.

## What the proofs found

- The property of an assignment is read before its row is locked.  A property soft deleted in between is still
  assigned to (`StaleCommitHappens`).  Lock order then does not answer whole transactions (`LockOrderIffNoneStale`),
  but another order always does (`WholeTransactionsSerializable`).
- The capacity gate runs outside the transaction: k operations between gate and commit can exceed a limit by k - 1,
  and by no more (`OvershootBound`, `OvershootReached`).
- `reassign` conserves the number of active assignments only when it names another agent that is active on the
  property; otherwise it adds one (`ReassignConserves`).
- The CSV header is not escaped, so the export reads back exactly when all column names are plain
  (`ReadsBackIffPlainHeader`).
- `canonicalize` depends on entry order exactly when the locale comparison ties two different keys
  (`OrderIndependentIffNoTies`).
- `ensureUniqueIndexes` settles one index after the other, so it can undo an earlier index exactly when a column
  shared by two can change (`SettlesSafelyIff`); provinces are such a table (`ProvincesCollide`).
- A slug cut at 240 characters can end in a hyphen, which the lookup then removes.  Duplicating an article with a slug
  of 239 characters stores such a slug, and its lookup asks for the original's (`CopyAnswersForOriginal`).
- A table with a required foreign key into a table that is not expanded is never filled (`OutsideKeyKeepsRows`), and one
  without a primary key that wants two rows or more is given none (`NoPrimaryKeyNoRows`).
- A table with an index made of foreign keys alone stops as soon as the keys of its variants repeat, because no attempt
  changes them (`PlanIff`).
- Copies of an article whose slug has 240 characters get the original's slug, and from 234 characters on all copies get
  the same one, although slugs are unique (`CopyDiffersIff`, `CopiesCollideIff`).
- The semantic expander does not see database defaults of index columns while a table is empty
  (`DefaultedIndexRepeats`).

## Assumptions

- A read after the row lock sees all committed rows; the code sets no isolation level.
- `SeedIntegrity` asks that foreign key columns exist, have no database default and belong to one key each, and that the
  auto-increment counter never repeats a stored value.  It says nothing about an index with a defaulted column of a
  table that started empty.
- `SeedContents` and `BaselineContents` ask that the columns of a table have different names and that a foreign key
  column belongs to one key, as the map the code keeps them in has it.
- `SeedConflicts` and `SeedForecast` ask that starting texts do not contain the unit separator that joins the columns of
  a key, and that for the tables that start short the generator makes none from texts that have none.
- `SeedForecast` asks that keys of tables that start short, into others that do, refer to a unique column that counts up
  or always gets a value.  `SeedingFillsEveryTable` asks that each tracked index of a table that starts short is made of
  foreign keys alone or has a column with different texts for different variants, and that the number of the latter times
  the target is at most a hundred.
- `EveryTableFullIff` asks for ranks of the tables that start short, along their required keys into the list.
- `BaselineUniqueness` asks that varying a text gives a text that is not empty and leaves null alone, and that
  referenced columns hold such texts.
- The comparator of `CanonicalJson` is a total preorder, and a number is any text of the grammar in section 6 of
  RFC 8259.  `JsonReader` follows that standard; of numbers it keeps the text.  The CSV reader
  follows the quoting rules of section 2 of RFC 4180 with LF between records.
- Clock readings, random uuids, generated values, the text folding of slugs, and the trimming and lower-casing of
  audit names are parameters.

## Model

| member | source | states |
|---|---|---|
| `AssignmentTable.WriteAndLogAgrees` | src/modules/property/property-agent-assignment.adapter.ts:46-78 | One row write with its history entry keeps, for every property and agent, an alternating history whose last entry says whether the row is active and primary |
| `AssignmentTable.WriteAndLogCounts` | src/modules/property/property-agent-assignment.adapter.ts:286-290 | An opening entry adds one to the agent's count of current assignments, an UNASSIGN takes one away, and other agents' counts stay |
| `AssignmentTable.BodyInTwoWrites` | src/modules/property/property-agent-assignment.adapter.ts:151-227 | The effect of any successful transaction is at most two such writes: closing the source, then the target, each legal where it happens |
| `AssignmentTable.BodyKeepsLog` | src/modules/property/property-agent-assignment.adapter.ts:39-227 | Every transaction, refused or not, keeps the history of every pair alternating and in agreement with the row |
| `AssignmentTable.BodyCounts` | src/modules/property/property-agent-assignment.adapter.ts:151-227 | By how much a successful transaction changes each agent's count: one more for the target, one less for a closed source |
| `AssignmentTable.BodyKeepsCount` | src/modules/property/property-agent-assignment.adapter.ts:286-290 | For every agent the count of current assignments stays the number of openings minus the number of UNASSIGN entries |
| `AssignmentTable.RunMeaning` | src/modules/property/property-agent-assignment.adapter.ts:29-231 | Which assignments are in force after a whole transaction, exactly when it is refused, and that a refusal (also after the source was closed) changes nothing and no row loses its uuid |
| `AssignmentTable.OpeningStores` | src/modules/property/property-agent-assignment.adapter.ts:46-67 | After a successful assign or reassign the target row, which is also the answer, has the requested name and time, is active and primary, and is new with the drawn uuid and the actor as creator, or keeps its uuid and creator and gets the actor as updater |
| `AssignmentTable.UnassigningStores` | src/modules/property/property-agent-assignment.adapter.ts:110-118 | After a successful unassign the row keeps uuid, name, time and creator, and is closed with the given time and actor |
| `AssignmentTable.OtherRowsStored` | src/modules/property/property-agent-assignment.adapter.ts:151-182 | A reassignment closes the row of a named source in the same way and touches no third row |
| `AssignmentTable.EntriesStored` | src/modules/property/property-agent-assignment.adapter.ts:68-78 | Exactly the entries with the drawn uuids, the property, agent, actor and action are appended, the closed source's first |
| `AssignmentAdapter.Adapter.Assign` | src/modules/property/property-agent-assignment.adapter.ts:23-82 | The statements of assign, run one by one, change the tables and answer as the transaction's specification says |
| `AssignmentAdapter.Adapter.Unassign` | src/modules/property/property-agent-assignment.adapter.ts:84-132 | The statements of unassign, run one by one, change the tables and answer as the transaction's specification says |
| `AssignmentAdapter.Adapter.Reassign` | src/modules/property/property-agent-assignment.adapter.ts:134-231 | The statements of reassign, with the roll back when the target is already active, change the tables and answer as the transaction's specification says |
| `AssignmentConcurrency.FaithfulFrame` | src/modules/property/property-agent-assignment.adapter.ts:35-37 | A transaction that holds a property's lock does not notice commits on other properties |
| `AssignmentConcurrency.SourceHalfFaithful` | src/modules/property/property-agent-assignment.adapter.ts:151-182 | Each statement of the source half leaves the transaction with exactly the private writes and entries its specification has at that point |
| `AssignmentConcurrency.TargetHalfFaithful` | src/modules/property/property-agent-assignment.adapter.ts:184-227 | The same for the read, write and history entry of the target |
| `AssignmentConcurrency.LockKeeps` | src/modules/property/property-agent-assignment.adapter.ts:35-37 | Taking the row lock, or waiting for it, keeps the invariant of the whole system |
| `AssignmentConcurrency.CommitKeeps` | src/modules/property/property-agent-assignment.adapter.ts:29-82 | Publishing the private writes keeps the invariant |
| `AssignmentConcurrency.RefuseKeeps` | src/modules/property/property-agent-assignment.adapter.ts:190-194 | Refusing and rolling back keeps the invariant |
| `AssignmentConcurrency.FlagKeeps` | src/modules/property/infrastructure/persistence/prisma-property-master.store.ts:892-931 | A soft delete or restore of a property, which needs the same row lock, keeps the invariant |
| `AssignmentConcurrency.NextKeeps` | src/modules/property/property-agent-assignment.adapter.ts:29-231 | Every step of every transaction, a lost connection and a soft delete all keep the invariant |
| `AssignmentConcurrency.ExecuteKeeps` | src/modules/property/property-agent-assignment.adapter.ts:29-231 | The invariant holds after every interleaving of any number of transactions |
| `AssignmentConcurrency.Serializable` | src/modules/property/property-agent-assignment.adapter.ts:29-231 | In every interleaving the committed tables and all answers are those of running the locked parts one at a time, and on each property that order is the order in which the lock was granted |
| `AssignmentConcurrency.AbortsLeaveNoTrace` | src/modules/property/property-agent-assignment.adapter.ts:190-194 | Leaving refused, missing and lost transactions out of the run gives the same tables and the same answers |
| `AssignmentConcurrency.SerialIffNoneStale` | src/modules/property/property-agent-assignment.adapter.ts:30-37 | A recorded run is answered as whole transactions are in the recorded order, in which locks were granted, if and only if every property was live when its lock was granted |
| `AssignmentConcurrency.LockOrderIffNoneStale` | src/modules/property/property-agent-assignment.adapter.ts:30-37 | The same for every interleaving of the step machine: the property is read before its lock, so lock order answers whole transactions exactly when none of those reads went stale |
| `AssignmentOrder.ExecuteSighted` | src/modules/property/property-agent-assignment.adapter.ts:30-33 | In every reachable state, each property that a transaction found or ended on was live at some earlier time |
| `AssignmentOrder.ReorderedSameOrder` | src/modules/property/property-agent-assignment.adapter.ts:29-231 | Moving a deletion and the failed lookups after it behind a commit keeps all events, the order of all ends and the order of the flag changes of each property |
| `AssignmentOrder.ReorderedAnswers` | src/modules/property/property-agent-assignment.adapter.ts:29-231 | In that order every whole transaction, lookup included, gives the recorded answer, and the tables end the same |
| `AssignmentOrder.WholeTransactionsSerializable` | src/modules/property/property-agent-assignment.adapter.ts:29-231 | Every run of the step machine is serializable as whole transactions: there is an order, with all ends in lock order, that gives all answers and the same tables |
| `AssignmentConcurrency.StaleCommitHappens` | src/modules/property/property-agent-assignment.adapter.ts:30-37 | For every assign request there is a run in which it commits on a property that was deleted between the read and the lock, and which lock order therefore answers differently |
| `AssignmentConcurrency.ReplayAgrees` | src/modules/property/property-agent-assignment.adapter.ts:39-227 | Agreement of history and table, and of counts, is kept by every serial run |
| `AssignmentConcurrency.HistoryTellsTheTable` | src/modules/property/property-agent-assignment.adapter.ts:39-78 | In every reachable state, from empty tables and for every pair: the history alternates, the row is active and primary exactly when the last entry is an opening one, and the count equals openings minus UNASSIGN entries |
| `AssignmentConcurrency.ReplayKeepsUuids` | src/modules/property/property-agent-assignment.adapter.ts:46-67 | Over every run no assignment row disappears or changes its uuid, so the cursor of a page walk stays meaningful |
| `AssignmentConcurrency.NoDeadlock` | src/modules/property/property-agent-assignment.adapter.ts:35-37 | In every reachable state each unfinished transaction can move, or the one holding the lock it waits for can |
| `AssignmentPages.PageMeaning` | src/modules/property/property-agent-assignment.adapter.ts:253-262 | A page is ascending, beyond the cursor, at most as long as the limit, which is brought into 1 to 100, and skips nothing between its elements |
| `AssignmentPages.WalkNeverRepeats` | src/modules/property/property-agent-assignment.adapter.ts:248-264 | However the table changes between calls, a walk lists no assignment twice |
| `AssignmentPages.WalkMissesNothing` | src/modules/property/property-agent-assignment.adapter.ts:248-264 | A completed walk lists every uuid that was current at each of its calls |
| `AssignmentPages.StayingAssignmentIsListed` | src/modules/property/property-agent-assignment.adapter.ts:248-264 | An assignment that stays active throughout a completed walk is listed |
| `AssignmentWalks.RunningWalkListsStaying` | src/modules/property/property-agent-assignment.adapter.ts:248-264 | The same when the calls see the tables at any points of one run of concurrent transactions |
| `AssignmentPages.WalkListsOnlyActive` | src/modules/property/property-agent-assignment.adapter.ts:253-262 | Everything listed was current at one of the calls made |
| `AssignmentPages.UnchangingWalkLength` | src/modules/agent-management/application/agent-management.service.ts:161-172 | With n assignments, limit L and no changes, the walk completes and makes floor(n / L) + 1 calls |
| `AgentCapacity.Service.Perform` | src/modules/agent-management/application/agent-management.service.ts:374-443 | The gate followed by the adapter's transaction, run step by step, has the specified new tables and answer for all three operations and every error |
| `AgentAnswers.MayTakeIff` | src/modules/agent-management/domain/agent-eligibility.policy.ts:12-32 | When an agent may take one more assignment: a live, active user with access and no blocked status, an active and available profile, and fewer assignments, leads, opportunities and deals than the limit |
| `AgentAnswers.AssignAnswers` | src/modules/agent-management/application/agent-management.service.ts:374-395 | Each answer of an assign if and only if its condition holds, in the order they are checked: profile, permission, capacity, live property, pair not in force |
| `AgentAnswers.ReassignAnswers` | src/modules/agent-management/application/agent-management.service.ts:397-422 | The same for a reassign: permission, target profile, capacity, source profile, live property, target not in force |
| `AgentAnswers.UnassignAnswers` | src/modules/agent-management/application/agent-management.service.ts:424-443 | The same for an unassign: permission, profile, live property, pair in force |
| `AgentAnswers.FailureChangesNothing` | src/modules/agent-management/application/agent-management.service.ts:374-443 | An operation that fails changes nothing |
| `AgentAnswers.SuccessChanges` | src/modules/agent-management/application/agent-management.service.ts:374-443 | A success changes exactly the pair of the property and the agent's user, and closes the pair of a named other source that was in force |
| `AgentAnswers.SuccessIsLogged` | src/modules/agent-management/application/agent-management.service.ts:374-443 | Its history entries name the property, the agent's user, the caller and what was done |
| `AgentAnswers.SuccessAnswersRow` | src/modules/agent-management/application/agent-management.service.ts:374-443 | It answers the stored row of that pair, with the agent's display name or, without one, the user |
| `AgentCapacity.TargetStaysWithinCapacity` | src/modules/agent-management/application/agent-management.service.ts:655-677 | A successful assign or reassign gives its target exactly one more assignment and leaves it within its limit |
| `AgentCapacity.CapacityStep` | src/modules/agent-management/domain/agent-eligibility.policy.ts:24-32 | No operation raises any agent's count beyond its limit |
| `AgentCapacity.CapacityOverRuns` | src/modules/agent-management/application/agent-management.service.ts:374-443 | Over every sequential run each agent ends within its limit or with no more assignments than it started with |
| `CapacityRace.OvershootBound` | src/modules/agent-management/application/agent-management.service.ts:374-422 | With at most k operations for an agent between gate and commit, in any interleaving, its load exceeds the limit by at most k - 1, or by no more than it did at the start |
| `CapacityRace.OvershootReached` | src/modules/agent-management/application/agent-management.service.ts:374-395 | For every limit and every k there is a run that reaches that bound exactly |
| `AgentCapacity.AllActiveAfter` | src/modules/property/property-agent-assignment.adapter.ts:151-216 | The set of active assignments after a successful reassign |
| `AgentCapacity.ReassignConserves` | src/modules/agent-management/application/agent-management.service.ts:397-422 | A successful reassign conserves the number of active assignments if and only if it named another agent that was active on the property |
| `SeedFixpoint.ExpandStep` | prisma/seeds/semantic-expansion.ts:369-445 | One table visit keeps the accounting: a table has at most one insert, which takes it to exactly its target with its old rows in front, and everything else is untouched |
| `SeedFixpoint.PassKeeps` | prisma/seeds/semantic-expansion.ts:457-463 | A pass keeps that accounting and inserts into at least one table whenever it reports progress |
| `SeedFixpoint.QuietWholePass` | prisma/seeds/semantic-expansion.ts:459-462 | A pass without progress changed nothing and no table has rows to insert |
| `SeedFixpoint.PassesSettle` | prisma/seeds/semantic-expansion.ts:457-463 | After any number of passes either the run has settled or at least one table was inserted into per pass |
| `SeedFixpoint.BoundSuffices` | prisma/seeds/semantic-expansion.ts:447-464 | As many passes as there are tables always suffice: afterwards no table visit would insert anything |
| `SeedFixpoint.SeedingTwiceIsSeedingOnce` | prisma/seeds/semantic-expansion.ts:447-464 | Seeding the seeded database again inserts nothing |
| `SeedFixpoint.SeedCoverageVisits` | prisma/seeds/semantic-expansion.ts:457-463 | The whole run is a sequence of single table visits |
| `SeedFixpoint.ApplyKeysFails` | prisma/seeds/semantic-expansion.ts:350-367 | Foreign keys cannot be filled exactly when some required key has no parent rows |
| `SeedFixpoint.PlanStops` | prisma/seeds/semantic-expansion.ts:374-431 | When a table visit stops for having enough rows and when for lacking a required parent, both exactly |
| `SeedContents.MissingParentIff` | prisma/seeds/semantic-expansion.ts:350-367 | A visit stops for a missing parent if and only if the table is short and a foreign key whose column is not nullable and has no default refers to a table without rows |
| `SeedFixpoint.GivenUpIff` | prisma/seeds/semantic-expansion.ts:411-422 | A unique conflict is given up exactly when the row and all its 100 variations conflict |
| `SeedFixpoint.NoPrimaryKeyNoRows` | prisma/seeds/semantic-expansion.ts:337-348 | A table without a primary key that wants two rows or more never gets any, because all rows share the empty key |
| `SeedFixpoint.ShortIffStopped` | prisma/seeds/semantic-expansion.ts:374-431 | At the fixed point a table is short if and only if it has an unresolved conflict, no insertable column, or a required key into an empty or missing parent |
| `SeedFixpoint.FollowChain` | prisma/seeds/semantic-expansion.ts:350-367 | From a short table, chains of required keys through empty tables can be followed to a root cause without repeating a table |
| `SeedFixpoint.ShortTableHasRootCause` | prisma/seeds/semantic-expansion.ts:350-431 | After the run every short table has such a chain, ending in a conflict, a table without columns, a parent outside the list, or a cycle |
| `SeedFixpoint.OutsideKeyKeepsRows` | prisma/seeds/semantic-expansion.ts:350-367 | A table with a required key that leads outside the list ends with exactly the rows it started with |
| `SeedFixpoint.EveryTableFullIff` | prisma/seeds/semantic-expansion.ts:447-464 | When the required keys of the tables that start short form no cycle, all tables reach their targets if and only if none is stopped by its own conflict or lack of columns and none that starts short has a required key outside the list |
| `SeedConflicts.FewRowsCannotBlock` | prisma/seeds/semantic-expansion.ts:411-422 | When every tracked index is made of foreign keys alone or has a column whose texts differ for different variants, fewer than a hundred pairs of a varying index and a row cannot block all hundred attempts |
| `SeedConflicts.GivenUpIffRigid` | prisma/seeds/semantic-expansion.ts:411-422 | A unique conflict is then given up if and only if there is one on an index made of foreign keys alone |
| `SeedConflicts.PlanIff` | prisma/seeds/semantic-expansion.ts:374-431 | A short table is filled if and only if its required keys lead to tables with rows and no variant takes keys, row (v - 1) mod n of each parent, that an existing row or an earlier variant has on an index made of foreign keys alone |
| `SeedConflicts.NeverUnresolved` | prisma/seeds/semantic-expansion.ts:386-424 | A table without an index made of foreign keys alone is never given up for a unique conflict |
| `SeedConflicts.NeverWithoutColumns` | prisma/seeds/semantic-expansion.ts:400-431 | A table with a required column, foreign key or not, always has a column to insert |
| `SeedTwins.PlanIgnoresIds` | prisma/seeds/semantic-expansion.ts:337-431 | Whether and why a table is filled does not depend on the values of its keys, only on which referenced values are null or equal to each other and to those of existing rows |
| `SeedForecast.SeedingFollowsForecast` | prisma/seeds/semantic-expansion.ts:447-464 | For every generator and counter the run fills exactly the tables forecast from the starting rows, with stand-ins for rows still to be inserted, and leaves the others as they were |
| `SeedForecast.SeedingFillsEveryTable` | prisma/seeds/semantic-expansion.ts:447-464 | Known before the run, from the starting rows, the targets and the keys alone: every table reaches its target if and only if each that starts short comes, in one of the passes, to have rows in its required parents and no repeated keys |
| `SeedForecast.SeedingFillsUnlessCutOff` | prisma/seeds/semantic-expansion.ts:447-464 | If no table that starts short has an index made of foreign keys alone and their required keys form no cycle, every table is filled if and only if none that starts short has a required key outside the list |
| `SeedIntegrity.SameTupleSameKey` | prisma/seeds/semantic-expansion.ts:337-341 | Rows equal on an index have the same key text, so a database duplicate is always seen as a conflict |
| `SeedIntegrity.NewRowsApart` | prisma/seeds/semantic-expansion.ts:386-424 | Every new row differs in key from every earlier row, old or new, on every tracked index |
| `SeedIntegrity.NewRowsHold` | prisma/seeds/semantic-expansion.ts:386-407 | New rows of a table that started with complete rows hold every column that is no foreign key and does not count up, so no database default applies to them |
| `SeedIntegrity.StoredPairApart` | prisma/seeds/semantic-expansion.ts:428-440 | That difference survives the insert on every index the expander can see, with auto-increment columns filled by the database |
| `SeedIntegrity.TableStaysUnique` | prisma/seeds/semantic-expansion.ts:381-440 | A table insert keeps every primary and unique index free of duplicates whose columns count up, have no default, or are copied from rows the table started with |
| `SeedIntegrity.DefaultedIndexRepeats` | prisma/seeds/semantic-expansion.ts:337-341 | An empty table whose unique column has a database default is planned with rows that all get that default, for every target of at least two |
| `SeedIntegrity.NewRowsOrigin` | prisma/seeds/semantic-expansion.ts:350-424 | Every foreign key column of a new row is null or holds a value of a parent row, also after unique conflicts were varied away |
| `SeedIntegrity.StoredRowsRefer` | prisma/seeds/semantic-expansion.ts:350-440 | Stored foreign keys point at rows of the parent table |
| `SeedIntegrity.ExpandSound` | prisma/seeds/semantic-expansion.ts:369-445 | One table visit keeps all these indexes and all foreign keys of the whole schema valid, keys into the grown table included |
| `SeedIntegrity.SeedingKeepsIntegrity` | prisma/seeds/semantic-expansion.ts:447-464 | From a valid database the whole run ends in a valid database, for every value generator |
| `SeedRunner.Seeder.BuildRow` | prisma/seeds/semantic-expansion.ts:387-407 | The column loop computes the specified base row |
| `SeedContents.PlannedRow` | prisma/seeds/semantic-expansion.ts:386-424 | Row v of every plan, column by column: it starts from the stamp of v, the value generated for v from row (v - 1) mod n, nothing, or the key of parent row (v - 1) mod m, and is varied for the first number of rounds, at most 100, that leaves no conflict with the rows before it |
| `SeedContents.RoundsByColumn` | prisma/seeds/semantic-expansion.ts:411-419 | The nested loops over rounds, indexes and columns change each column for itself: round k makes its value from the one before with variant v + k, once for each place it has in an index |
| `SeedContents.UntrackedColumn` | prisma/seeds/semantic-expansion.ts:390-407 | A column in no foreign key and no tracked index holds the stamp of v, the value generated for v from what row (v - 1) mod n holds there, or is left out |
| `SeedContents.StoredColumn` | prisma/seeds/semantic-expansion.ts:428-440 | What is stored for a column of an inserted row: the counter's value, the row's, null where only other new rows hold the column, else the default |
| `SeedContents.SeededRow` | prisma/seeds/semantic-expansion.ts:447-464 | Row v of a table the run filled is stored from a plan made from the table's starting rows and tables each in its starting or final state |
| `SeedContents.SeededPlainColumn` | prisma/seeds/semantic-expansion.ts:386-443 | After the run a column in no key and no tracked index of row v has its stamp, the value generated for v from starting row (v - 1) mod n, or the default or null |
| `SeedRunner.Seeder.ApplyForeignKeys` | prisma/seeds/semantic-expansion.ts:350-367 | The key loop, with its early exit, fills the row or fails as specified |
| `SeedRunner.Seeder.VaryRow` | prisma/seeds/semantic-expansion.ts:412-418 | The nested loops over tracked indexes compute the specified variation |
| `SeedRunner.Seeder.ResolveConflicts` | prisma/seeds/semantic-expansion.ts:411-420 | The retry loop with its inner break gives the specified row |
| `SeedRunner.Seeder.BuildRows` | prisma/seeds/semantic-expansion.ts:386-424 | The variant loop gives all rows or the first reason for none |
| `SeedRunner.Seeder.ExpandTable` | prisma/seeds/semantic-expansion.ts:369-445 | One table visit in place: new tables, the expander's copy and the progress flag are the specified ones |
| `SeedRunner.Seeder.SeedSemanticCoverage` | prisma/seeds/semantic-expansion.ts:447-464 | The loading loop and the bounded passes with their early end reach the state about which the results above are proved |
| `SeedVerifier.TablesUnderMinimum` | prisma/seeds/semantic-verification.ts:136-141 | The loop lists exactly the included tables with fewer rows than their target |
| `SeedVerifier.CountOrphans` | prisma/seeds/semantic-verification.ts:153-157 | The orphan count is zero exactly when every non-null key has a parent |
| `SeedVerifier.OrphanedKeys` | prisma/seeds/semantic-verification.ts:150-161 | The loop lists exactly the checked foreign keys with an orphan |
| `SeedVerifier.VerifyCoverage` | prisma/seeds/semantic-verification.ts:130-166 | The verifier passes exactly when no included table is short and no checked key dangles, and otherwise names exactly the offenders |
| `SeedVerifier.TargetsAgree` | prisma/seeds/config.ts:9-15 | With a configured minimum of at least ten the expander's target is never below the verifier's |
| `SeedVerifier.SeededDatabasePasses` | prisma/seeds/semantic-verification.ts:118-166 | Over a sound schema whose required keys form no cycle among the tables that start short, a seeded database in which no table stopped itself or was cut off passes the verifier |
| `SeedVerifier.SeededDatabasePassesIff` | prisma/seeds/semantic-verification.ts:118-166 | With the default minimum and every listed table checked, it passes if and only if no table stopped itself or was cut off |
| `SeedVerifier.ShortForVerifierIffStopped` | prisma/seeds/semantic-verification.ts:136-141 | With the default minimum, the verifier finds a table short after seeding exactly when one of the causes above stopped it |
| `BaselineExpansion.KeyRegister.AddOccupiedUniqueKeys` | prisma/seeds/expansion.ts:252-265 | The register afterwards holds the old keys and the row's |
| `BaselineExpansion.KeyRegister.ResolveIndex` | prisma/seeds/expansion.ts:283-305 | The attempt loop with its break ends with the specified row and flag |
| `BaselineExpansion.KeyRegister.EnsureUniqueIndexes` | prisma/seeds/expansion.ts:267-317 | Settles the indexes in order and registers the row, or reports the error and registers nothing |
| `BaselineExpansion.KeyRegister.ExpandModel` | prisma/seeds/expansion.ts:319-370 | The clones added to a table, or the error, are the specified ones |
| `BaselineContents.PreparedColumn` | prisma/seeds/expansion.ts:342-366 | What each column of a clone starts from: a parent in turn or a variation in a primary key of several columns, the linked value for a foreign key, else the source's |
| `BaselineContents.SettledColumn` | prisma/seeds/expansion.ts:283-305 | Settling changes only columns of settled indexes that are not null, to parent row v + a or the variation v + a + 1 of the source's value for some attempt a below four times the minimum |
| `BaselineContents.ColumnChangesIff` | prisma/seeds/expansion.ts:286-294 | An attempt changes a column exactly when it exists, is not null, and is no key into a table without known rows |
| `BaselineContents.FirstFreeingChange` | prisma/seeds/expansion.ts:279-314 | A taken index is settled by the first change, attempt after attempt and column after column, that frees the key, and is given up if and only if none of four times the minimum attempts has one |
| `BaselineContents.CloneContents` | prisma/seeds/expansion.ts:342-369 | Clone i of every expansion is made from row i mod n: each of its columns is so prepared from that row and then so settled |
| `BaselineContents.PlainColumnCopied` | prisma/seeds/expansion.ts:343-344 | A column in no foreign key and no settled index is held exactly as in row i mod n |
| `BaselineContents.KeyColumnLinked` | prisma/seeds/expansion.ts:346-362 | A foreign key in no settled index leads to the clone of its row if there is one, else to row i mod m of a parent table that has the minimum, else where row i mod n does |
| `BaselineOrigins.PreparedKey` | prisma/seeds/expansion.ts:344-366 | Before settling, a key column of a clone holds the source's value, the key of the matching clone, a value of a parent row, or, with an empty parent table, a variation |
| `BaselineOrigins.SettledKey` | prisma/seeds/expansion.ts:267-305 | Settling the unique indexes keeps that, because it only takes other parent values |
| `BaselineOrigins.ClonesRefer` | prisma/seeds/expansion.ts:342-370 | If the foreign keys of the existing rows point at stored rows of the parent table, read already or not, so do those of every clone, except for an unread parent of a composite primary key |
| `BaselineOrigins.UnreadPrimaryKeyIsVaried` | prisma/seeds/expansion.ts:221-244 | In that case the key is varied like any text |
| `BaselineUniqueness.SettleFrees` | prisma/seeds/expansion.ts:277-314 | If no column shared by two tracked indexes can change its text, a settled row's key is unoccupied on every tracked index at once |
| `BaselineUniqueness.FreeRowIsKept` | prisma/seeds/expansion.ts:277-281 | A row that conflicts with nothing is left as it is |
| `BaselineUniqueness.SharedColumnUndoes` | prisma/seeds/expansion.ts:277-314 | For the generator and parent rows given, a shared column that can change, key columns included, has a source, a row made from it and occupied keys with which settling ends on a key in use |
| `BaselineUniqueness.SettlesSafelyIff` | prisma/seeds/expansion.ts:267-317 | For a given generator and parent rows, settling is safe for all rows and occupied keys if and only if no column shared by two tracked indexes can change its text |
| `BaselineCollision.ProvincesCollide` | prisma/seeds/expansion.ts:319-370 | Ten countries and four provinces, unique by country and code and by country and slug, whose first clone repeats the country and code of the fourth |
| `BaselineUniqueness.OccupyMeaning` | prisma/seeds/expansion.ts:252-265 | Registering a row loses no key and records the row's key on every index it takes part in |
| `BaselineUniqueness.ExpansionMeaning` | prisma/seeds/expansion.ts:319-370 | An expansion without error brings the table to the minimum, and if no column shared by two tracked indexes can change, no new row repeats a key of an earlier row on any of them |
| `JsonRoundTrip.CanonicalIsJson` | src/modules/automation/domain/automation.types.ts:227-238 | The text of every value is JSON: the reader of RFC 8259 reads it as the value with undefined fields dropped, null for what has no JSON form, strings for dates, and the entries of each object in key order |
| `JsonRoundTrip.ReadsBack` | src/modules/automation/domain/automation.types.ts:227-238 | The same for every comparator and for a text followed by anything that could not continue a number |
| `JsonRoundTrip.StringReadBack` | src/modules/automation/domain/automation.types.ts:234-237 | A printed string is read back as the string |
| `JsonRoundTrip.EscapeSpelling` | src/modules/automation/domain/automation.types.ts:237 | A character is escaped only if it is a quotation mark, a backslash or a control, in the short form where there is one and in lower-case hexadecimal otherwise |
| `JsonRoundTrip.PlainStringIsItself` | src/modules/automation/domain/automation.types.ts:234-237 | A string without such characters is printed as it is |
| `JsonRoundTrip.NoBlankBetween` | src/modules/automation/domain/automation.types.ts:228-235 | The text has no blanks but those of its strings |
| `CanonicalJson.EscapeReads` | src/modules/automation/domain/automation.types.ts:234-237 | An escaped string is read back uniquely, with whatever follows its closing quote |
| `CanonicalJson.Reads` | src/modules/automation/domain/automation.types.ts:227-238 | A printed value at the start of a text determines the value and the rest of the text |
| `CanonicalJson.TextDeterminesValue` | src/modules/automation/domain/automation.types.ts:227-238 | Values with the same text are equal up to entry order and undefined fields, whatever the comparator |
| `CanonicalJson.EquivalentSameText` | src/modules/automation/domain/automation.types.ts:231-235 | With a comparator that ties no two keys, equal values have the same text |
| `CanonicalJson.SameTextIffEquivalent` | src/modules/automation/domain/automation.types.ts:227-238 | Two values have the same text if and only if they are equal up to entry order and undefined fields |
| `CanonicalJson.TiedKeysKeepTheirOrder` | src/modules/automation/domain/automation.types.ts:233 | Two different keys that compare equal give two equal values with different texts |
| `CanonicalJson.OrderIndependentIffNoTies` | src/modules/automation/domain/automation.types.ts:231-235 | The text ignores entry order for all values if and only if no two keys compare equal |
| `Retry.Execution.Transition` | src/modules/automation/domain/automation.types.ts:285-298 | Moves exactly along the allowed execution transitions and otherwise leaves the state |
| `Retry.Action.Transition` | src/modules/automation/domain/automation.types.ts:313-325 | Moves exactly along the allowed action transitions and otherwise leaves the state |
| `Retry.ReachedFrom` | src/modules/automation/domain/automation.types.ts:285-325 | From which states each state of both machines is reached |
| `Retry.Drive` | src/modules/automation/domain/automation.types.ts:273-350 | An action driven by the decisions asks only for legal transitions and ends at its first last attempt in SUCCEEDED, FAILED or DEAD_LETTER accordingly; if it always fails for now it has all its attempts, ends in DEAD_LETTER, and waits no longer than either bound on the sum |
| `Retry.AlwaysFailingAttempts` | src/modules/automation/domain/automation.types.ts:341-346 | An action that always fails for now gets exactly the maximum number of attempts, and at least one |
| `Retry.DelaysGrowToCap` | src/modules/automation/domain/automation.types.ts:347-348 | Delays never decrease and never exceed the cap |
| `Retry.DelaysDouble` | src/modules/automation/domain/automation.types.ts:347-348 | The first delay is the base and each later one twice the one before, all up to the cap |
| `Retry.TotalDelayBound` | src/modules/automation/domain/automation.types.ts:347-348 | The delays add up to at most base * (2^k - 1) and at most k caps, for k delays |
| `Notifications.Store.MarkRead` | src/modules/automation/infrastructure/persistence/prisma-automation.repository.ts:384-398 | Found exactly when the user has a notification with the uuid; that one is no longer unread afterwards, and every other row is as it was |
| `Notifications.MarkFirst` | src/modules/automation/infrastructure/persistence/prisma-automation.repository.ts:384-398 | Marking the first unread notification takes exactly it from the user's unread ones |
| `Notifications.UnreadJoin` | src/modules/automation/infrastructure/persistence/prisma-automation.repository.ts:360-382 | The unread notifications of a user are exactly the rows of that user with that status, in the order of the table |
| `Notifications.Store.MarkAllRead` | src/modules/automation/automation.module.ts:148-169 | With n unread, min(n, 10000) are marked, newest first, the rest stay unread, and nothing else changes |
| `ObjectGraph.Visitor.Visit` | src/common/pipes/secure-validation.pipe.ts:13-32 | The recursion terminates on every finite graph, what it adds is safe and closed under references, and a failure has a reachable culprit |
| `ObjectGraph.ClosedHoldsReachable` | src/common/pipes/secure-validation.pipe.ts:13-32 | A visited set closed under references holds everything reachable from its members |
| `ObjectGraph.AssertSafeObjectGraph` | src/common/pipes/secure-validation.pipe.ts:6-35 | Returns normally if and only if no object reachable from the value has a forbidden key |
| `CsvExport.ColumnsMeaning` | src/modules/analytics/application/analytics.service.ts:471 | Every key of every row is a column exactly once, and there are no other columns |
| `CsvExport.ColumnsInOrder` | src/modules/analytics/application/analytics.service.ts:471 | More rows only add columns behind those there are |
| `CsvExport.KeysInOrder` | src/modules/analytics/application/analytics.service.ts:471 | A row's new keys become columns in its own order |
| `CsvExport.RowsOfReport` | src/modules/analytics/application/analytics.service.ts:599-612 | Which rows a report gives: those of its parts in order, each record of a list, nothing for other items, and name and value of a single metric |
| `CsvExport.ExportIsCut` | src/modules/analytics/application/analytics.service.ts:463 | The export holds the first 10000 rows |
| `CsvExport.TextOfCell` | src/modules/analytics/application/analytics.service.ts:614-627 | A cell is empty for null or a missing key, else the scalar's text or the JSON text |
| `CsvExport.CellReads` | src/modules/analytics/application/analytics.service.ts:614-629 | An encoded cell followed by a separator or the end is read as the cell's text |
| `CsvExport.LinesRead` | src/modules/analytics/application/analytics.service.ts:472-477 | Encoded lines are read back record by record |
| `CsvExport.ScanBound` | src/modules/analytics/application/analytics.service.ts:614-629 | No text is read as a table that would take more text than there is, each quote in a field counted twice |
| `CsvExport.HeaderMustBePlain` | src/modules/analytics/application/analytics.service.ts:471-477 | If the export reads back as its table, no column name has a quote, comma or line feed |
| `CsvExport.ReadsBackIffPlainHeader` | src/modules/analytics/application/analytics.service.ts:471-477 | Reading the text back gives the header and every cell in order if and only if there is a column and every column name is plain |
| `CsvExport.ExportReadsBack` | src/modules/analytics/application/analytics.service.ts:464-481 | The same for the export of every report with rows |
| `OperationIds.Search` | src/common/swagger/openapi-contract.ts:519-521 | The search for a free name ends on every finite set of used ids, and the name found is not used |
| `OperationIds.PickId` | src/common/swagger/openapi-contract.ts:519-521 | The loop finds that name |
| `OperationIds.AddOperationIds` | src/common/swagger/openapi-contract.ts:509-526 | The loop over the operations gives each the specified id |
| `OperationIds.IdsDistinct` | src/common/swagger/openapi-contract.ts:509-526 | Ids are pairwise distinct for every list of names |
| `OperationIds.IdIsFirstFreeVariant` | src/common/swagger/openapi-contract.ts:516-523 | Each id is its base or the base with a number k of at least 2, and then the base and all smaller numbers are ids of earlier operations |
| `OperationIds.KeptIffDistinct` | src/common/swagger/openapi-contract.ts:516-523 | All names are kept if and only if they are distinct already |
| `OperationIds.SecondRunChangesNothing` | src/common/swagger/openapi-contract.ts:509-526 | Naming the operations again changes nothing |
| `Slug.WordsAreHyphenated` | src/modules/content/application/content.service.ts:41-50 | The slug of a text with words is the words in order with one hyphen for each run of other characters between them and nothing for those around them, cut at 240 |
| `Slug.NoWordNoSlug` | src/modules/content/application/content.service.ts:51-54 | A text without a word has no slug |
| `Slug.NormalizedShape` | src/modules/content/application/content.service.ts:41-55 | A slug has 1 to 240 characters over a-z, 0-9 and hyphen, no leading and no doubled hyphen |
| `Slug.NormalizingAgain` | src/modules/content/application/content.service.ts:41-55 | A slug is a fixed point if and only if it does not end in a hyphen, which only the cut can leave; a second normalization then removes just that hyphen |
| `Slug.UncutSlugIsFound` | src/modules/content/application/content.service.ts:572-574 | The public lookup uses an uncut stored slug unchanged |
| `Slug.CopyIsFoundIff` | src/modules/content/application/content.service.ts:287-293 | The slug of a duplicated article is looked up unchanged if and only if the original's slug, without a last hyphen, is not 234 or 239 characters long |
| `Slug.CopyDiffersIff` | src/modules/content/application/content.service.ts:287-293 | A copy's slug differs from its original's, and so can be stored, if and only if that is shorter than 240 characters |
| `Slug.CopiesCollideIff` | src/modules/content/application/content.service.ts:287-293 | Two copies of an article get the same slug if and only if the cut leaves the same digits of their times |
| `Slug.CopyAnswersForOriginal` | src/modules/content/application/content.service.ts:287-293 | For every slug of 239 characters the copy is stored with a trailing hyphen and looked up under the original's slug |
| `AuditRedaction.NoSensitiveFieldSurvives` | src/common/audit/audit-redaction.ts:268-293 | No field name that comes out is sensitive or longer than 100, even after it was cut |
| `AuditRedaction.OneChange` | src/common/audit/audit-redaction.ts:260-293 | A change is dropped exactly when its field is empty, sensitive or off a list that is not empty; else its name is cut at 100, texts at 512, flags and numbers stay, and other values become null, old and new each |
| `AuditRedaction.SanitizeJoins` | src/common/audit/audit-redaction.ts:275-292 | Changes are sanitized one by one, in order |
| `AuditRedaction.TwoPassesAreOne` | src/common/audit/audit-redaction.ts:268-293 | A pass under one list followed by a pass under another equals the second pass alone when the first list lets through all the second does |
| `AuditRedaction.TwoPassesAreOneIff` | src/common/audit/audit-redaction.ts:268-293 | That holds for all changes if and only if the lists are compatible in that sense |
| `AuditRedaction.SameListAfterNormalizing` | src/common/audit/audit-redaction.ts:235-258 | A type with an allowlist normalizes to one with the same allowlist, or is refused |
| `AuditRedaction.StoredAsInOnePass` | src/infrastructure/audit/prisma-security-audit.repository.ts:57-93 | For every entity type the repository accepts, the service pass and the repository pass store what one pass under the normalized type would |

## Left out

- Prisma and SQL execution: tables are maps and sequences, and an insert is atomic.
- INFORMATION_SCHEMA queries and identifier quoting: table descriptions are inputs.
- An insert the database rejects (length, collation, type): the seed run then ends with an exception.
- The order of tables by number of foreign keys: the seed results hold for every order.
- The value generators `scalarValue` and `varyScalar`: any deterministic function; null and undefined values of a row are one.
- Value comparison by collation: values are equal when their texts are.
- BaselineUniqueness.SettlesSafelyIff: the occupied keys are any sets of texts; BaselineCollision.ProvincesCollide has a run in which they are the keys of rows.
- BaselineUniqueness.SharedColumnUndoes: the same holds of its occupied keys.
- SeedForecast.SeedingFillsEveryTable: an index of a foreign key with a version number, an enum or a date is of neither kind; SeedForecast.SeedingFollowsForecast covers tables that have one.
- AssignmentOrder.WholeTransactionsSerializable: the order keeps the order of commits, and so the history, but not always real time; a commit on another property that began after a deletion and ended before the stale commit rules out both.
- BaselineUniqueness.ExpansionMeaning: a key that is null or the empty text takes part in no index, as in the code.
- BaselineExpansion.KeyRegister.ExpandModel: the insert, the keys generated for the clones, which are a parameter, and the order of models are not modelled; the rows are what is inserted.
- SeedIntegrity.TableStaysUnique: an index with a defaulted column of a table that started empty is left out, because the plan can repeat a key there.
- AssignmentConcurrency.HistoryTellsTheTable: covers the adapter's three transactions; `assignAgent` and its sibling in `src/modules/property/listing/infrastructure/listing.repository.ts` write assignment rows without history or lock and would break it.
- AssignmentConcurrency.NoDeadlock: about the property row lock only, not other locks of the database.
- History timestamps, `updatedAt` and the returned record's fields that only copy a row.
- AssignmentPages.UnchangingWalkLength: the walk stops at the first short page, as the profile listing of the same service does; the service itself reads one page of assignments.
- AssignmentAdapter.Adapter.Assign: a method is one uninterrupted transaction; AssignmentConcurrency has the interleavings.
- AgentCapacity.CapacityOverRuns: sequential runs only; CapacityRace.OvershootBound has the concurrent ones.
- CapacityRace.OvershootBound: the gate's reads are one step, the transaction another; profiles, limits and workloads are fixed.
- AgentCapacity.Service.Perform: permissions, user lookup and availability are inputs; audit records are not modelled.
- AssignmentAdapter.Adapter.Unassign: the same holds of it as of Assign.
- AssignmentAdapter.Adapter.Reassign: the same holds of it as of Assign.
- `listHistory`, `isAssigned` and candidate search: field copies and filters.
- CanonicalJson.SameTextIffEquivalent: a number is its ECMAScript text, of which only is used that it is a JSON number; an undefined item, null and a non-finite number count as equal, as do a date and its ISO string, because they print alike; array holes, invalid dates, bigint and values with a `toJSON` are not modelled.
- Text is a sequence of Unicode scalar values: lone surrogates and slicing inside a surrogate pair are not modelled.
- Retry.Drive: the driver is a composition of the domain decision with the two state machines; the application service writes FAILED for an execution whatever the decision's terminal state is.
- Retry.TotalDelayBound: whole numbers, no floating-point overflow of the power.
- `WorkflowAggregate` and the definition guards: small tables without a property across steps.
- Notifications.Store.MarkAllRead: no concurrent writers, and every item has a uuid.
- OperationIds.AddOperationIds: the operation objects of a document are distinct, and the generated base name is a constant of each.
- ObjectGraph.AssertSafeObjectGraph: objects do not change during the check, and getters that compute values are not modelled.
- CsvExport.ExportReadsBack: building the report, the file name, and cells whose JSON text is undefined; a carriage return is an ordinary character, as it is for the writer.
- AuditRedaction.StoredAsInOnePass: reason, address, user agent and the action check are not part of the model; nor are resource types named like a member every object inherits.
- Dates, HTML sanitizing, credentials, outbound requests, controllers, guards and fixture data: no property across steps, or foreign calls.
