# Timesheet walker

A Dafny model of `TimesheetWalker`, the class in the timekeeper extension that
turns the syntax tree of a timesheet file into domain values. A timesheet file
is parsed by a Hoa LL(k) grammar. The tree's root holds `#date` nodes. A date
holds a `date` leaf and `#entry` nodes. An entry holds `time` and `text` leaves,
`#category` nodes (with a `name` leaf) and `#tag` nodes (with a `tag` leaf).
The walker visits each node once, left to right, and feeds the values to three
builders (`TimesheetBuilder`, `DateBuilder`, `EntryBuilder`). A category or tag
without its name leaf throws a `DefectException`, which aborts the whole walk.

Files:

- `wrappers.dfy`: `Option` and `Result`. A thrown exception is a `Failure`.
- `php_strings.dfy`: the PHP string functions the walker calls. `explode` with
  a one-character delimiter, its inverse `implode`, and `trim`, `ltrim` and
  `rtrim`. Each function carries a short contract. The lemmas beside it
  characterise it fully (`ExplodePieces`, `ExplodeAtFirst`, `TrimExact`,
  `LTrimDropsOnly`, `RTrimDropsOnly`).
- `syntax_tree.dfy`: the tree as the walker sees it. A node has an id, an
  optional token (name and value) and children. It also defines the first-match
  search over children and an order-keeping filter (`Select`).
- `domain.dfy`: `Timesheet`, `Date` and `Entry`, the `Defect` kinds, and the
  three builders as classes whose methods update their fields.
- `walker.dfy`: the constants, and one specification function per rule
  (`TimesheetOf`, `DateOf`, `EntryOf`, `WalkCategory`, `WalkTag`). It also has
  the imperative `Walk`, `WalkDate` and `WalkEntry`. Each of these loops over
  the children with a mutable builder, like the source, and is proved to return
  exactly its specification function.
- `walker_properties.dfy`: what the walk promises. It covers which children
  land where and in which order, which branch takes a child, and exactly when
  the walk fails.
- `walker_examples.dfy`: worked trees. They cover the stand-up and billing
  entries, a category without a name, and `@@urgent`.

Each rule is specified in two stages:

1. The first stage maps every child to the builder call it causes. The step
   datatypes name those calls: `EntryStep`, `DateStep`, and `Option<Date>` for
   the root. The stage stops at the first child that fails (`Collect`).
2. The second stage replays the calls on an empty value (`EntryBuilt`,
   `DateBuilt`, `DatesAdded`).

The loops carry both stages as invariants, with the calls made so far as a
ghost sequence.

## Model

| member | source | states |
|---|---|---|
| Walker.Walk | lib/Adapter/Hoa/TimesheetWalker.php:26-39 | `walk` returns exactly `TimesheetOf(root)`: a builder fed one date per `#date` child, or the first defect met |
| Walker.WalkDate | lib/Adapter/Hoa/TimesheetWalker.php:41-61 | `walkDate` returns exactly `DateOf(node)`: a `date` leaf sets the date and goes on to the next child; an `#entry` child adds its entry; the first defect aborts |
| Walker.WalkEntry | lib/Adapter/Hoa/TimesheetWalker.php:63-93 | `walkEntry` returns exactly `EntryOf(node)`: the builder after one call per child, or the first defect |
| Walker.TakeEntryChild | lib/Adapter/Hoa/TimesheetWalker.php:67-90 | one pass of the entry loop: fails exactly when the child's branch throws, leaving the builder as it was; else makes exactly that branch's builder call |
| Walker.TakeTime | lib/Adapter/Hoa/TimesheetWalker.php:70-74 | the `time` branch: fails iff the token has no `:`, leaving the builder as it was, else sets hour and minute as `explode` splits them |
| Walker.TakeText | lib/Adapter/Hoa/TimesheetWalker.php:76-79 | the `text` branch: never fails, and sets the trimmed text as the comment |
| Walker.TakeCategory | lib/Adapter/Hoa/TimesheetWalker.php:81-84 | the `#category` branch: fails exactly as `walkCategory` does, leaving the builder as it was, else sets its name |
| Walker.TakeTag | lib/Adapter/Hoa/TimesheetWalker.php:86-89 | the `#tag` branch: fails exactly as `walkTag` does, leaving the builder as it was, else appends its name |
| Walker.CollectMeaning | lib/Adapter/Hoa/TimesheetWalker.php:46-58 | a loop whose body may throw succeeds iff every child succeeds, keeping their values in order; otherwise it fails with the first failing child's defect |
| Walker.CollectStopsAt | lib/Adapter/Hoa/TimesheetWalker.php:54-56 | once a child throws after successful children, the children after it do not matter |
| Walker.WalkCategory | lib/Adapter/Hoa/TimesheetWalker.php:95-106 | `walkCategory` can fail only with "Category has no name" |
| Walker.WalkTag | lib/Adapter/Hoa/TimesheetWalker.php:108-119 | `walkTag` can fail only with "Tag has no name" |
| Walker.DateChild | lib/Adapter/Hoa/TimesheetWalker.php:49-57 | one pass of the `walkDate` loop: only a `date` leaf sets the date, only an `#entry` child that is not a `date` leaf adds an entry, and only those two kinds of child can throw |
| Walker.RootChild | lib/Adapter/Hoa/TimesheetWalker.php:33-35 | one pass of the `walk` loop: a child that is not `#date` adds nothing; a `#date` child adds its walked date, or throws exactly the defect `walkDate` throws |
| Walker.WalkCategoryMeaning | lib/Adapter/Hoa/TimesheetWalker.php:95-106 | `walkCategory` returns the first `name` leaf's text; it fails with "Category has no name" iff no child is a `name` leaf |
| Walker.WalkTagMeaning | lib/Adapter/Hoa/TimesheetWalker.php:108-119 | `walkTag` returns the first `tag` leaf's text minus every leading `@`, so never a tag starting with `@`; it fails with "Tag has no name" iff no child is a `tag` leaf |
| Walker.SplitTime | lib/Adapter/Hoa/TimesheetWalker.php:71 | splitting a time token fails iff it has no `:`; hour and minute never contain `:` |
| WalkerProperties.SplitTimeFields | lib/Adapter/Hoa/TimesheetWalker.php:71 | the hour is the text before the first `:`, the minute the text up to a second `:`; anything after that is dropped |
| WalkerProperties.SplitTimeLayout | lib/Adapter/Hoa/TimesheetWalker.php:71 | every accepted time token reads hour, `:`, minute, then nothing or a second `:` and more |
| WalkerProperties.WalkKeepsDateChildren | lib/Adapter/Hoa/TimesheetWalker.php:30-36 | the timesheet has one date per `#date` child, in order; it fails iff some `#date` child fails, and then with the first failing `#date` child's defect, unchanged; no `#date` child gives an empty timesheet |
| WalkerProperties.WalkIgnoresOtherChildren | lib/Adapter/Hoa/TimesheetWalker.php:33 | inserting a non-`#date` child anywhere under the root leaves the result unchanged |
| WalkerProperties.CollectAddsSelected | lib/Adapter/Hoa/TimesheetWalker.php:30-36 | for any per-child rule: adding a value only for the selected children equals collecting over those children alone |
| WalkerProperties.DateFields | lib/Adapter/Hoa/TimesheetWalker.php:46-58 | a walked date has the entries of its `#entry` children in order (a `date` leaf is never one); the date is absent iff there is no `date` leaf, else it is the last leaf's parse |
| WalkerProperties.DateStepKind | lib/Adapter/Hoa/TimesheetWalker.php:49-57 | a date is set only by a `date` leaf and an entry added only by an `#entry` child that is not a `date` leaf, each carrying its rule's result |
| WalkerProperties.DateEntriesBuild | lib/Adapter/Hoa/TimesheetWalker.php:54-57 | for any entry rule: the replayed `addEntry` calls give one entry per entry child, in order |
| WalkerProperties.DateDateBuild | lib/Adapter/Hoa/TimesheetWalker.php:49-52 | the replayed `date` calls give the last `date` leaf's parse, or none |
| WalkerProperties.DateStepsSnoc | lib/Adapter/Hoa/TimesheetWalker.php:46-58 | the loop over a date's children is the loop over all but the last, then one more call |
| WalkerProperties.EntryStepsSnoc | lib/Adapter/Hoa/TimesheetWalker.php:67-90 | the loop over an entry's children is the loop over all but the last, then one more call |
| WalkerProperties.DateFailsIff | lib/Adapter/Hoa/TimesheetWalker.php:49-57 | `walkDate` fails iff some `date` leaf does not parse or some entry child fails, and then with the first such child's defect, unchanged |
| WalkerProperties.EntryFields | lib/Adapter/Hoa/TimesheetWalker.php:67-90 | a walked entry has the last time, trimmed text and category, each absent iff no child of that kind, and one tag per tag node in order; the comment is trimmed at both ends and no tag starts with `@` |
| WalkerProperties.EntryStepKind | lib/Adapter/Hoa/TimesheetWalker.php:70-89 | branch priority time, text, category, tag: each builder call comes from exactly one kind of child and carries that branch's result |
| WalkerProperties.EntryTagsBuild | lib/Adapter/Hoa/TimesheetWalker.php:86-89 | the replayed `addTag` calls give one tag per tag node, in order |
| WalkerProperties.EntryTimeBuild | lib/Adapter/Hoa/TimesheetWalker.php:70-74 | the replayed `time` calls give the last `time` leaf's split, or none |
| WalkerProperties.EntryCommentBuild | lib/Adapter/Hoa/TimesheetWalker.php:76-79 | the replayed `comment` calls give the last `text` leaf's trimmed text, or none |
| WalkerProperties.EntryCategoryBuild | lib/Adapter/Hoa/TimesheetWalker.php:81-84 | the replayed `category` calls give the last category node's name, or none |
| WalkerProperties.WalkEntryShape | lib/Adapter/Hoa/TimesheetWalker.php:70-89 | the entry loop's per-child outcome has the four-branch shape, with `explode`, `trim`, `walkCategory` and `walkTag` behind it |
| WalkerProperties.EntryChildFailsIff | lib/Adapter/Hoa/TimesheetWalker.php:70-89 | a child of an entry throws iff it is a time leaf without `:`, a category node without a `name` leaf, or a tag node without a `tag` leaf |
| WalkerProperties.EntryFailsIff | lib/Adapter/Hoa/TimesheetWalker.php:67-90 | `walkEntry` fails iff some child is defective, and then with the first defective child's defect |
| WalkerProperties.NestedDefectAborts | lib/Adapter/Hoa/TimesheetWalker.php:34 | a defective child of an entry inside a `#date` child of the root aborts the whole walk |
| WalkerProperties.CollectAll | lib/Adapter/Hoa/TimesheetWalker.php:30-36 | children that all succeed are collected to exactly their values |
| WalkerProperties.SelectSkips | lib/Adapter/Hoa/TimesheetWalker.php:33 | a child the filter rejects leaves the filtered children unchanged, wherever it is inserted |
| WalkerExamples.TagStripsEveryLeadingAt | lib/Adapter/Hoa/TimesheetWalker.php:114 | `@@urgent` is walked to `urgent` |
| WalkerExamples.WalkTagIdempotent | lib/Adapter/Hoa/TimesheetWalker.php:114 | walking a tag that was already walked gives it back unchanged |
| WalkerExamples.CategoryWithoutNameAborts | lib/Adapter/Hoa/TimesheetWalker.php:105 | an entry whose category node has no `name` leaf fails with "Category has no name" |
| WalkerExamples.BillingEntry | lib/Adapter/Hoa/TimesheetWalker.php:63-93 | time `09:30`, category `billing` and tags `@client`, `@urgent` give category `billing` and tags `client`, `urgent` |
| WalkerExamples.StandUpTimesheet | lib/Adapter/Hoa/TimesheetWalker.php:26-39 | one date `2024-01-01` with time `09:30` and text ` stand-up ` gives one date with one entry, comment `stand-up` |
| WalkerExamples.StandUpEntry | lib/Adapter/Hoa/TimesheetWalker.php:63-93 | time `09:30` and text ` stand-up ` give hour `09`, minute `30` and comment `stand-up` |
| WalkerExamples.TimeLeaf | lib/Adapter/Hoa/TimesheetWalker.php:70-74 | a time leaf `hour:minute` sets exactly that hour and minute |
| WalkerExamples.TrimmedText | lib/Adapter/Hoa/TimesheetWalker.php:76-79 | a text leaf sets its text with exactly the surrounding whitespace removed |
| WalkerExamples.TagWithOneAt | lib/Adapter/Hoa/TimesheetWalker.php:86-89 | a tag node whose `tag` leaf is `@name` adds `name` |
| WalkerExamples.DateWithOneEntry | lib/Adapter/Hoa/TimesheetWalker.php:46-58 | a `date` leaf followed by one entry gives that date with that entry |
| WalkerExamples.TimesheetWithOneDate | lib/Adapter/Hoa/TimesheetWalker.php:30-36 | a root with one `#date` child gives a timesheet of that one date |
| PhpStrings.Explode | lib/Adapter/Hoa/TimesheetWalker.php:71 | `explode` gives at least one piece, and exactly one piece iff the delimiter is absent |
| PhpStrings.ExplodePieces | lib/Adapter/Hoa/TimesheetWalker.php:71 | no piece of an `explode` contains the delimiter |
| PhpStrings.ExplodeAtFirst | lib/Adapter/Hoa/TimesheetWalker.php:71 | the first piece is all text before the first delimiter |
| PhpStrings.ImplodeExplode | lib/Adapter/Hoa/TimesheetWalker.php:71 | joining the pieces gives back the exploded string |
| PhpStrings.ExplodeImplode | lib/Adapter/Hoa/TimesheetWalker.php:71 | exploding pieces that contain no delimiter, once joined, gives them back |
| PhpStrings.Trim | lib/Adapter/Hoa/TimesheetWalker.php:77 | a trimmed text neither begins nor ends with whitespace |
| PhpStrings.TrimExact | lib/Adapter/Hoa/TimesheetWalker.php:77 | trimming removes exactly the surrounding whitespace and nothing inside |
| PhpStrings.TrimIdempotent | lib/Adapter/Hoa/TimesheetWalker.php:77 | trimming twice is trimming once |
| PhpStrings.LTrim | lib/Adapter/Hoa/TimesheetWalker.php:114 | `ltrim` keeps a suffix of its input, and the result does not start with a listed character |
| PhpStrings.LTrimDropsOnly | lib/Adapter/Hoa/TimesheetWalker.php:114 | `ltrim` drops nothing but characters of the given list |
| PhpStrings.RTrim | lib/Adapter/Hoa/TimesheetWalker.php:77 | `rtrim` keeps a prefix and the result does not end with a listed character |
| PhpStrings.RTrimDropsOnly | lib/Adapter/Hoa/TimesheetWalker.php:77 | `rtrim` drops nothing but characters of the given list |
| PhpStrings.LTrimDrops | lib/Adapter/Hoa/TimesheetWalker.php:114 | `ltrim` of a run of the characters followed by a text not starting with one gives that text |
| PhpStrings.LTrimIdempotent | lib/Adapter/Hoa/TimesheetWalker.php:114 | `ltrim` twice is `ltrim` once |
| SyntaxTree.FirstWithToken | lib/Adapter/Hoa/TimesheetWalker.php:97-103 | the search finds the first child with the token, and finds none iff no child has it |
| SyntaxTree.FirstIsUnique | lib/Adapter/Hoa/TimesheetWalker.php:97-103 | the first child with the token is the one the search returns |
| Domain.TimesheetBuilder.AddDate | lib/Adapter/Hoa/TimesheetWalker.php:34 | `addDate` appends the date and keeps the ones before |
| Domain.DateBuilder.SetDate | lib/Adapter/Hoa/TimesheetWalker.php:50 | `date` overwrites the date and keeps the entries |
| Domain.DateBuilder.AddEntry | lib/Adapter/Hoa/TimesheetWalker.php:55 | `addEntry` appends the entry and keeps the date |
| Domain.EntryBuilder.SetTime | lib/Adapter/Hoa/TimesheetWalker.php:72 | `time` overwrites the time and changes nothing else |
| Domain.EntryBuilder.SetComment | lib/Adapter/Hoa/TimesheetWalker.php:77 | `comment` overwrites the comment and changes nothing else |
| Domain.EntryBuilder.SetCategory | lib/Adapter/Hoa/TimesheetWalker.php:82 | `category` overwrites the category and changes nothing else |
| Domain.EntryBuilder.AddTag | lib/Adapter/Hoa/TimesheetWalker.php:87 | `addTag` appends the tag and changes nothing else |

Where the code and the format's description differ, the model follows the code:

- `walkTag` uses `ltrim($value, '@')`, which removes the whole leading run of
  `@`, not a single one. So `@@urgent` becomes `urgent`, not `@urgent`.
- A time token with two or more `:` is not rejected. `explode` keeps the first
  two pieces, and whatever follows the second `:` is dropped.
- The walker itself requires neither a date nor a time. A date or entry
  without one is built with that field absent (`None`).

## Left out

- The Hoa grammar and parser are not part of this model. The tree is an input.
- `new DateTimeImmutable(...)` is the parameter `parse`, a pure function of the
  token text. The clock and the default timezone that PHP's constructor also
  reads (for `today`, `now`, `+1 day` and the like) are not modelled. A parser
  is meant to reject a bad token with `MalformedDate`, but the model passes on
  whatever `Defect` it returns.
- The builders' `build()` validation, including the required date and time, is
  not modelled. The builder classes are not part of the source shown, so the
  model's builders are plain accumulators with no claims about `build()`.
- Hour and minute stay the text pieces handed to `EntryBuilder::time`. Their
  conversion to integers happens inside the builder.
- Walker.SplitTime: a time token without `:` is a `MalformedTime` defect. In
  PHP the destructuring of a one-piece `explode` gives a warning and a null
  minute, which is then handed to the builder.
- The `assert(... instanceof TreeNode)` guards are not modelled. Every child is
  a `Node` by type.
- `$date = $node->getValue()` is not modelled, because the value is never used.
- `NODE_ENTRY_LINE` is not modelled, because it is never used.
- The loose `==` of the entry-id test (line 54) is string equality. The ids are
  strings, so it agrees with `===`.
- Walker.WalkCategory and Walker.WalkTag: the functions' own contracts give only
  the failure message. The full characterisation is stated in
  `WalkCategoryMeaning` and `WalkTagMeaning`.
- The walker carries no state between calls. Walking the same tree twice with
  the same `parse` function gives equal results. The methods'
  `ensures r == TimesheetOf(root, parse)` gives this directly; no separate
  lemma states it. This holds only because `parse` is a pure function here. In
  PHP, a relative date read at two different times can differ.
