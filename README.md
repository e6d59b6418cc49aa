# BetterBJ job tables and table registry, in Dafny

BetterBJ is a Ruby background-job library built on ActiveRecord. This
project models the two parts of it that are plain logic rather than
process plumbing:

- **The job schema** (`lib/better_bj/job.rb`). This covers several things:
  - the abstract `Job` class, the concrete `ActiveJob` with its four
    single-table-inheritance variants, and the concrete `ExecutedJob`;
  - the column defaults a new record starts with;
  - the presence, integer and state validations a record must pass;
  - `submitted_at`, and `ExecutedJob#state`.

  It is pure code: datatypes, functions and lemmas in module `Jobs`
  (`jobs.dfy`). The model relies on ActiveRecord's presence and integer
  checks, which are modelled in `Attributes` (`attributes.dfy`).
- **The table registry** (`lib/better_bj/table.rb`). The `inherited` hook
  that every table class passes through does three things:
  - it appends the class to `Table.list`;
  - it removes repetitions in place (`uniq!`);
  - it defines a class-level accessor named after the class.

  `each` and `reverse_each` walk the list. This file is imperative: class
  `Tables.Table` holds the list as a `seq` and the accessors as a `map`,
  and its methods update them (`tables.dfy`). `uniq!` and `reverse` are in
  `Sequences` (`sequences.dfy`). The accessor name (the last `::`
  segment, snake-cased) is in `Naming` (`naming.dfy`). The ASCII
  character classes that the naming and the integer check both use are
  in `Chars` (`chars.dfy`).
- **Loading `job.rb`** (`loading.dfy`, module `JobTables`). This runs the
  file's seven class definitions, in file order, through the registry,
  taking the `field` declarations in their bodies as defined (see
  "Left out"). It proves that `Table.list` ends up with the seven job
  classes, parents first. It also proves that `Table` answers `job`, `active_job`,
  `active_code_job`, `active_ruby_script_job`, `active_rake_task_job`,
  `active_shell_command_job` and `executed_job`, each with its own class.

Values assigned to integer columns are kept as they were assigned
(`Attributes.Raw`: `nil`, an integer, or a string), so that `"junk"` and
`"3.14"` can be shown to fail the integer check. That check is
ActiveRecord's `:only_integer` rule: `to_s` must match `\A[+-]?\d+\Z`.
Because `\Z` also matches before one final newline, `"42\n"` passes too.

## Model

| member | source | states |
|---|---|---|
| Jobs.New | lib/better_bj/job.rb:13-37 | Building a record fails exactly for the abstract `Job`. A concrete record has priority, retries and attempts 0 and timeout 10 * 60. It has no code, submitter pid, run time or creation time. An active one has state `"Pending"`, the first of `STATES`. |
| Jobs.JobHierarchy | lib/better_bj/job.rb:11 | Every job class inherits from `Job`. `Job` alone is abstract. The active classes are exactly `ActiveJob` and its descendants. Exactly the concrete classes can be built. |
| Jobs.SubmittedAt | lib/better_bj/job.rb:53-55 | `submitted_at` is the record's `created_at`. |
| Jobs.State | lib/better_bj/job.rb:108-110 | An executed job's state is `"Executed"`. Any other job's state is its `state` column. |
| Jobs.ExecutedStateIsFixed | lib/better_bj/job.rb:108-110 | Two executed jobs report the same state whatever their rows hold, and that state is none of `STATES`. |
| Jobs.StatesAreNotBlank | lib/better_bj/job.rb:63 | None of `STATES` is blank, so the default state passes the presence check. |
| Jobs.Superclass | lib/better_bj/job.rb:6-97 | The superclass each class is declared with: `Job < Table`, `ActiveJob < Job`, `ExecutedJob < Job`, and the four STI classes `< ActiveJob`. |
| Jobs.IsAbstract | lib/better_bj/job.rb:11 | `Job` alone sets `self.abstract_class = true`. |
| Jobs.IsActive | lib/better_bj/job.rb:58-95 | The classes `ActiveJob`'s `state` column and state validations apply to: `ActiveJob` and the four classes declared under it. |
| Jobs.InheritsFrom | lib/better_bj/job.rb:6-97 | Ruby's `k <= ancestor`: `k` is `ancestor` or its superclass inherits from `ancestor`. |
| Jobs.ClassOf | lib/better_bj/job.rb:5-97 | The class object of each job class, with the `name` `BetterBJ::<constant>`. It is numbered by its place in the file. |
| Jobs.IsPresent | lib/better_bj/job.rb:43-44 | `validates_presence_of` for one attribute: code and state must be non-blank strings, run time must be set, and an integer attribute's raw value must be present. |
| Jobs.PresenceErrors | lib/better_bj/job.rb:43-44 | One "can't be blank" error for each listed attribute that is not present, in the order the attributes are listed. |
| Jobs.NumericalityErrors | lib/better_bj/job.rb:45-47 | One "is not a number" error for each listed integer attribute whose value fails the integer check, in list order. |
| Jobs.StateErrors | lib/better_bj/job.rb:77-78 | Only for an active record: a "can't be blank" error when the state is blank, then an "is not included in the list" error when it is not one of `STATES`. |
| Jobs.Errors | lib/better_bj/job.rb:43-78 | Every error, in validation order: presence, then integer, then (for active records) state. |
| Jobs.Valid | lib/better_bj/job.rb:43-78 | `valid?`: the validations report no error. |
| Jobs.MeetsSchema | lib/better_bj/job.rb:43-78 | The rule field by field: non-blank code, integral counters and submitter pid, a run time, and for an active record a state in `STATES`. |
| Attributes.IsSpace | lib/better_bj/job.rb:43-44 | The white-space characters `\s` matches, which `blank?` treats as empty. |
| Attributes.IsBlank | lib/better_bj/job.rb:43-44 | `String#blank?`: every character is white space. |
| Attributes.Present | lib/better_bj/job.rb:43-44 | A raw value is present unless it is `nil` or a blank string. |
| Attributes.ToS | lib/better_bj/job.rb:45-47 | `to_s` of a raw value: `""` for `nil`, the decimal form with a leading `-` for a negative integer, the string itself for a string. |
| Attributes.Digits | lib/better_bj/job.rb:45-47 | The decimal digits of a natural number: never empty, and only digits. |
| Attributes.IntegerLiteral | lib/better_bj/job.rb:45-47 | `s =~ /\A[+-]?\d+\Z/`: an optional sign and at least one digit, optionally followed by one newline. |
| Attributes.Integral | lib/better_bj/job.rb:45-47 | The `:only_integer` check by kind of value: `nil` fails, an integer passes, a string passes exactly when it is an integer literal. |
| Chars.IsUpper | lib/better_bj/table.rb:11 | `[A-Z]`, the capitals `underscore` splits words at. |
| Naming.Downcase | lib/better_bj/table.rb:11 | The `downcase` step of `underscore` on one character: a capital becomes its lower-case letter, anything else is kept. |
| Naming.DowncaseAll | lib/better_bj/table.rb:11 | `downcase` of a whole name: same length, each character down-cased. |
| Naming.WordBoundary | lib/better_bj/table.rb:11 | Where `underscore` puts an `_`: before a capital that follows a lower-case letter or digit, or before the last capital of a run of capitals when a lower-case letter follows. |
| Naming.SnakePrefix | lib/better_bj/table.rb:11 | The snake_case form of a name's first `n` characters: each character down-cased, with an `_` before each word boundary. |
| Naming.AccessorName | lib/better_bj/table.rb:11 | `table.name[/[^:]+\z/].underscore`: the snake-cased last segment, or none when the name yields no segment. |
| Naming.UnderscoreAcronymBeforeWord | lib/better_bj/table.rb:11 | A run of capitals followed by a word splits before its last capital: `HTTPServer` gives `http_server`. |
| Naming.UnderscoreAcronymAtEnd | lib/better_bj/table.rb:11 | A run of capitals at the end stays one word: `ShellAPI` gives `shell_api`. |
| Sequences.Uniq | lib/better_bj/table.rb:9 | `uniq`: the list with every later occurrence of an element dropped. |
| Sequences.Reverse | lib/better_bj/table.rb:31-33 | The list from last element to first. |
| Tables.Registered | lib/better_bj/table.rb:6-16 | The registry's invariant: no class listed twice, and every accessor answers a listed class. |
| Tables.Consistent | lib/better_bj/table.rb:9-14 | The invariant, plus: every accessor is the one its class's name gives. |
| Tables.Table.Valid | lib/better_bj/table.rb:6-24 | The class invariant of `Table`: its list and accessors are `Tables.Registered`. |
| Jobs.PresenceErrorsSpec | lib/better_bj/job.rb:43-44 | The presence validation reports an attribute, with reason "can't be blank", exactly when that attribute is listed and blank. |
| Jobs.PresenceErrorsEmpty | lib/better_bj/job.rb:43-44 | The presence validation reports nothing exactly when every listed attribute is present. |
| Jobs.NumericalityErrorsSpec | lib/better_bj/job.rb:45-47 | The integer validation reports an attribute, with reason "is not a number", exactly when that attribute is listed and its value fails the integer check. |
| Jobs.NumericalityErrorsEmpty | lib/better_bj/job.rb:45-47 | The integer validation reports nothing exactly when every listed value passes the integer check. |
| Jobs.MeetsSchemaIsValid | lib/better_bj/job.rb:43-78 | A record that has code, priority, retries, attempts, timeout, submitter pid and run time, has integral counters and pid, and (if active) a state in `STATES`, is valid. |
| Jobs.MissingAttributeInvalid | lib/better_bj/job.rb:43-44 | A record missing any of the seven required attributes is invalid and reports that attribute as blank. |
| Jobs.NonIntegralAttributeInvalid | lib/better_bj/job.rb:45-47 | A record whose priority, retries, attempts, timeout or submitter pid fails the integer check is invalid and reports that attribute. |
| Jobs.UnlistedStateInvalid | lib/better_bj/job.rb:77-78 | An active record whose state is missing or not in `STATES` is invalid and reports that state as not included. |
| Jobs.BrokenSchemaIsInvalid | lib/better_bj/job.rb:43-78 | A record that breaks any part of the rule is invalid. |
| Jobs.ValidIffMeetsSchema | lib/better_bj/job.rb:43-78 | A record is valid if and only if it meets the rule field by field. |
| Jobs.RejectedIntegerValues | lib/better_bj/job.rb:45-47 | Assigning `nil`, `"junk"` or `"3.14"` to any integer attribute makes a record invalid. |
| Jobs.IntegerValuesAccepted | lib/better_bj/job.rb:45-47 | Assigning any integer to an integer attribute of a valid record keeps it valid. |
| Jobs.StateMustBeListed | lib/better_bj/job.rb:77-78 | On a valid active record, a new state keeps it valid if and only if the state is one of `STATES`. |
| Jobs.JunkStateInvalid | lib/better_bj/job.rb:77-78 | An active record with state `"junk"`, or with no state, is invalid. |
| Jobs.ValidActiveJobHasListedState | lib/better_bj/job.rb:63-78 | A valid active record is in one of `Pending`, `Starting` or `Running`. |
| Jobs.FreshJobErrors | lib/better_bj/job.rb:13-47 | A freshly built concrete record reports exactly four errors, in validation order: code, submitter pid and run time blank, and submitter pid not a number. |
| Jobs.SubmittedJobIsValid | lib/better_bj/job.rb:13-78 | Supplying non-blank code, a submitter pid and a run time makes a fresh concrete record valid. |
| Jobs.SelectorOfInjective | lib/better_bj/table.rb:11 | No two job classes get the same accessor name. |
| Jobs.ClassAccessorName | lib/better_bj/table.rb:11 | The hook names each job class's accessor after the class's constant: `BetterBJ::ActiveRubyScriptJob` gives `active_ruby_script_job`, and so on for all seven. |
| Attributes.IntegralIsLiteralToS | lib/better_bj/job.rb:45-47 | Case by case, the integer check is `v.to_s =~ /\A[+-]?\d+\Z/`: `nil` fails, every integer passes, and a string passes exactly when it is written as an integer. |
| Attributes.IntegerToSIsLiteral | lib/better_bj/job.rb:45-47 | `to_s` of every integer, negative ones included, passes the integer pattern. |
| Attributes.IntegralIsPresent | lib/better_bj/job.rb:43-47 | A value that passes the integer check also passes the presence check. |
| Attributes.IntegerCheckExamples | lib/better_bj/job.rb:45-47 | The check rejects `"junk"` and `"3.14"` and accepts `"42"`, `"-7"` and `"+0"`. |
| Attributes.DigitsRoundTrip | lib/better_bj/job.rb:45-47 | Reading back the decimal digits `to_s` writes for a natural number gives that number. |
| Naming.LastSegment | lib/better_bj/table.rb:11 | `name[/[^:]+\z/]` is `nil` exactly when the name is empty or ends in a colon. Otherwise it is a non-empty, colon-free suffix that starts right after a colon or at the start of the name. |
| Naming.QualifiedAccessorName | lib/better_bj/table.rb:11 | A class nested in a namespace gets the accessor of its last segment alone. |
| Naming.Underscore | lib/better_bj/table.rb:11 | `underscore` yields no upper-case letter and is never shorter than its argument. |
| Naming.UnderscoreOnlyInsertsSeparators | lib/better_bj/table.rb:11 | Removing the underscores from `underscore`'s result of an underscore-free name gives back the down-cased name. |
| Naming.UnderscoreWord | lib/better_bj/table.rb:11 | A single capitalised word is only down-cased (`Job` gives `job`). |
| Naming.UnderscoreAppendWord | lib/better_bj/table.rb:11 | Each further capitalised word is joined on with one underscore (`ActiveJob` gives `active_job`). |
| Sequences.UniqHasNoDuplicates | lib/better_bj/table.rb:9 | `uniq` leaves no element twice. |
| Sequences.UniqSameElements | lib/better_bj/table.rb:9 | `uniq` keeps exactly the elements it was given. |
| Sequences.UniqOfDistinct | lib/better_bj/table.rb:9 | `uniq` changes nothing in a list without repetitions. |
| Sequences.UniqIdempotent | lib/better_bj/table.rb:9 | Applying `uniq` twice is the same as applying it once. |
| Sequences.UniqPrefix | lib/better_bj/table.rb:9 | `uniq` keeps first occurrences: appending to a list only extends its de-duplicated form. |
| Sequences.UniqAppend | lib/better_bj/table.rb:9 | On a list without repetitions, `(list << x).uniq` is the list itself when `x` is in it, and the list followed by `x` otherwise. |
| Sequences.ReverseInvolutive | lib/better_bj/table.rb:31-33 | Reversing twice gives back the original list. |
| Tables.ListAfter | lib/better_bj/table.rb:9 | `(list << table).uniq!` on a list without repetitions leaves no repetition. It holds the table and exactly the earlier members, keeps the earlier members as a prefix in their order, and grows by at most one. |
| Tables.AccessorsAfter | lib/better_bj/table.rb:10-14 | When the class name yields an accessor name, the hook defines (or redefines) that accessor to answer the class. An anonymous class, or a name that yields none, leaves the accessors unchanged. |
| Tables.HookKeepsRegistered | lib/better_bj/table.rb:6-16 | The hook keeps the registry's invariant: no repeated class, and every accessor answers a listed class. |
| Tables.HookKeepsConsistent | lib/better_bj/table.rb:9-14 | The hook keeps every accessor named after the class it answers. |
| Tables.HookIdempotent | lib/better_bj/table.rb:9-14 | Running the hook a second time for the same class changes neither the list nor the accessors. |
| Tables.TableHandle | lib/better_bj/table.rb:36-39 | `BetterBJ.table` is the class named `BetterBJ::Table`. |
| Tables.Table.constructor | lib/better_bj/table.rb:22-24 | The registry starts with an empty list and no accessors. |
| Tables.Table.List | lib/better_bj/table.rb:22-24 | `Table.list` holds no class twice, as long as only the hook changes it. |
| Tables.Table.Accessor | lib/better_bj/table.rb:10-14 | `Table.send(selector)` answers a class exactly when that accessor has been defined, and that class is listed. |
| Tables.Table.Each | lib/better_bj/table.rb:26-28 | `each` yields the list's classes in list order, one per entry. |
| Tables.Table.ReverseEach | lib/better_bj/table.rb:31-33 | `reverse_each` yields the list's entries from last to first, one per entry. |
| Tables.Table.ReverseEachUndoesEach | lib/better_bj/table.rb:26-33 | `reverse_each` visits the same classes as `each`, as often, in the opposite order. |
| Sequences.ReversePreservesMultiset | lib/better_bj/table.rb:31-33 | Reversing a list keeps every element as often as before. |
| Tables.Table.Inherited | lib/better_bj/table.rb:6-16 | The hook keeps the invariant. Its new list is `Tables.ListAfter`: unchanged for a listed class, with an unlisted one appended at the end, whether or not the parent hook raises (the `ensure` clause). It installs the class's accessor. It ends with `NoMethodError` when the name yields no accessor name, otherwise with the parent's exception if that raised, otherwise normally. |
| Tables.Table.DefineSubclass | lib/better_bj/table.rb:6-18 | `class child < parent` runs the hook, once, exactly when the parent descends from `Table`, that is, when it is `Table` or a registered class. The new class is then appended, gets its accessor, and the definition ends as the hook does. Otherwise nothing changes, and the definition ends as the parent's own hook does. |
| JobTables.LoadOrderIsComplete | lib/better_bj/job.rb:6-97 | The file defines every job class. |
| JobTables.LoadOrderDefinesParentsFirst | lib/better_bj/job.rb:6-97 | The file defines each class once, after its superclass. |
| JobTables.ClassListed | lib/better_bj/job.rb:6-97 | A job class's class object is among those of some classes exactly when the class is among them. |
| JobTables.AccessorsOfSpec | lib/better_bj/table.rb:10-14 | Once some job classes are defined, `Table` has exactly their accessors, and each answers its own class. |
| JobTables.Declare | lib/better_bj/job.rb:6-97 | Running the next class definition keeps the invariant. The list becomes the classes defined so far, in order, and the accessors become theirs. |
| JobTables.LoadJobTables | lib/better_bj/job.rb:6-97 | Loading the file leaves a fresh, valid registry whose list is the job classes in file order and whose accessors are theirs. |
| JobTables.LoadedList | lib/better_bj/table.rb:26-28 | After loading, `each` yields `Job`, `ActiveJob`, `ActiveCodeJob`, `ActiveRubyScriptJob`, `ActiveRakeTaskJob`, `ActiveShellCommandJob` and `ExecutedJob`, in that order. |
| JobTables.LoadedAccessors | lib/better_bj/table.rb:10-14 | After loading, each job class's accessor answers that class, and every defined accessor belongs to some job class. |

## Left out

- `lib/better_bj/code_executor.rb`, `lib/better_bj/runner.rb` and `lib/better_bj/util.rb` are left out. They are `fork`, pipes, threads, `eval`, `Marshal` and database connection handling, so there is no sequential logic to state without faking the operating system.
- Running, retrying and archiving a job, and `ExecutedJob::JOB_TYPES`, are left out. The tests describe them (test/test_job.rb:116-211), but `lib/better_bj/job.rb` does not implement them.
- JobTables.LoadJobTables: the `field` method is taken as defined. No file of this model defines it, so as written, loading `lib/better_bj/job.rb` would register `Job` and then stop with `NoMethodError` at the first `field` (lib/better_bj/job.rb:13). The model loads the seven classes that the tests expect to find registered (test/test_table.rb:22-25).
- The `field` schema declarations are modelled only through the defaults and columns they declare. The `field` method, migrations, indexes and `each(:skip_abstracts_and_stis)` are not part of this model. The tests use them (test/test_table.rb:41-192), but `lib/better_bj/table.rb` does not define them.
- Persistence is left out: storing rows, the `:null => false` database constraints, timestamps, and the serialization of `result` and `error`.
- The `NOW()` default of `run_at` is left out. ActiveRecord does not apply it (test/test_job.rb:99), so a fresh record has no run time.
- `type`, the single-table-inheritance column, is modelled as the record's job class (`kind`). It is not a separate attribute to validate.
- Typecasting is left out: strings assigned to `run_at` are not converted into times. A Ruby `Float` or `BigDecimal` assigned to an integer column is not modelled either; `Raw` covers `nil`, integers and strings.
- Jobs.Errors: the order of the errors is the order in which the validations run. The model does not capture how ActiveRecord groups errors by attribute.
- Naming.Underscore: only ActiveSupport's two CamelCase rules are modelled, with ASCII down-casing. The `::`-to-`/` rule does nothing here, because the segment holds no colon. The `-`-to-`_` rule is not modelled: it matters only for a name holding `-`, and no Ruby constant name does. So `Naming.Underscore("Foo-Bar")` gives `foo-bar` where ActiveSupport gives `foo_bar`. Acronym inflections are configured outside this code.
- Tables.Table.Inherited: whether the parent's `inherited` hook raises is a parameter, because that hook is ActiveRecord code.
- Tables.Table.Accessor: the method the hook defines returns the constant `table.name`. The model returns the class itself, assuming that name resolves to the class. The model also does not check whether the accessor name is a valid Ruby method name, or whether it overrides an existing method of `Table`.
- Tables.Table.Valid: the class invariant only says that the list has no repetitions and that every accessor answers a listed class. That every accessor is named after its class is a separate invariant (`Tables.Consistent`, kept by `Tables.HookKeepsConsistent`).
- Tables.Table.List: `Table.list` hands out the live `@list` array, and a caller can change it without going through the hook, for example with `<<` or `shift` (test/test_table.rb:29 takes a `dup` before shifting for this reason). The model does not capture that aliasing. Its list changes only through the hook, so "no class twice" is promised only while the hook is the only thing that changes the list.
- The rest of `Enumerable`, which `Table` extends, is left out; only `each` and `reverse_each` are modelled.
- The block passed to `each` and `reverse_each` is left out. They are modelled as the sequence of classes they yield, in order.
- `table.extend(Listed)` (lib/better_bj/table.rb:15) is not modelled, because it changes nothing. `Listed` already sits in every table's singleton-class chain through `extend Listed` on `Table` (lib/better_bj/table.rb:18), so Ruby skips the repeated `extend`, and the hook runs exactly once for each new subclass of any depth. `Tables.Table.DefineSubclass` states this: a subclass is registered exactly when its parent descends from `Table`, which, since every descendant is registered when defined, is when the parent is `Table` or a registered class.
