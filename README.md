# preserve-last-mod-epoch-filename, modelled in Dafny

The program takes one directory and walks the tree below it. It renames every entry that is not a
directory (the ones `walkFileTree` hands to `visitFile`) to `<prefix><original name>` in the same
directory. The prefix is the file's last-modified instant,
written in UTC with the `SimpleDateFormat` pattern `yyyy-MM-dd_HH-mm-ss`, followed by the literal
`_UTC__`. A file last modified at 2021-03-15T14:30:00Z named `report.txt` becomes
`2021-03-15_14-30-00_UTC__report.txt`.

The model has three layers.

- **The prefix**, as pure functions:
  - `decimal.dfy` holds decimal numerals with zero padding, as a numeric pattern field prints them;
  - `civil.dfy` converts epoch seconds to and from proleptic Gregorian UTC fields;
  - `prefix.dfy` holds `getUTCPrefix`, and a parser that reads a prefix back;
  - `order.dfy` states the property the prefix exists for: sorting names in first-difference order
    (the first position where two names differ decides) orders files by modification time, for instants before year 10000.
- **The target name**, in `paths.dfy`: `resolveSibling` and the target path of `visitFile`.
- **The walk**, in `walk.dfy`:
  - the file tree is a map from paths to entries;
  - the callbacks of the anonymous `FileVisitor` are one-step functions;
  - `Walk` is the specification of a walk over an enumeration order;
  - the class `FileTree` changes its `entries` field in place, one `Files.move` at a time, in a loop
    proved against `Walk`;
  - `Run` is `main`: the argument guard, the walk, and `System.exit(0)`.

What the model follows:

- Inputs the program gets from the operating system become parameters:
  - the enumeration order of `Files.walkFileTree` is a sequence of paths;
  - a timestamp that cannot be read is `File(None)`;
  - an entry `walkFileTree` cannot read is `Inaccessible`;
  - the files whose move the file system refuses for a reason other than an existing target form the
    set `refused`.
- A move onto a path that holds another entry fails, because `Files.move` is called without
  `REPLACE_EXISTING`.
- `Date.from` throws for an instant whose millisecond count exceeds `Long.MAX_VALUE`; the model has
  this as the failure `DateOutOfRange`, checked before the target is formed.
- Nothing in the visitor or in `main` catches the exceptions `visitFile` throws (Main.java lines 33
  and 64-78). The first failure therefore ends the walk and `main` before the completion log and
  `System.exit(0)`. `Walk` stops at the first failing callback, and `Run` returns
  `Uncaught(failure)`.

## Model

| member | source | states |
|---|---|---|
| Prefix.UtcPrefixExample | src/main/java/com/rodneybeede/software/preservelastmodepochfilename/Main.java:111-121 | 1615818600000 ms after the epoch (2021-03-15T14:30:00.000Z) gives exactly `2021-03-15_14-30-00_UTC__` |
| Prefix.ExampleFields | src/main/java/com/rodneybeede/software/preservelastmodepochfilename/Main.java:112-114 | the instant 1615818600 s after the epoch has the UTC fields 2021-03-15 14:30:00 |
| Prefix.FormatExample | src/main/java/com/rodneybeede/software/preservelastmodepochfilename/Main.java:112 | the pattern `yyyy-MM-dd_HH-mm-ss` lays out 2021-03-15 14:30:00 as `2021-03-15_14-30-00` |
| Prefix.ParseUtcPrefix | src/main/java/com/rodneybeede/software/preservelastmodepochfilename/Main.java:111-121 | the prefix reads back as the UTC fields of the instant's whole second: the year field is everything before the last 21 characters, and those 21 are `-MM-dd_HH-mm-ss_UTC__` with two-digit fields, so every field and separator is where the pattern puts it |
| Prefix.UtcPrefixInjective | src/main/java/com/rodneybeede/software/preservelastmodepochfilename/Main.java:112-119 | two instants give the same prefix exactly when they fall in the same second, so milliseconds are dropped and nothing else is |
| Prefix.UtcPrefixLength | src/main/java/com/rodneybeede/software/preservelastmodepochfilename/Main.java:112-119 | the prefix is never shorter than 25 characters; it is exactly 25 if and only if the instant is before year 10000 |
| Prefix.PrefixUnambiguous | src/main/java/com/rodneybeede/software/preservelastmodepochfilename/Main.java:111-121 | a prefix followed by a name can be split only one way: equal results mean equal prefixes and equal names |
| Prefix.YearDigitRun | src/main/java/com/rodneybeede/software/preservelastmodepochfilename/Main.java:112 | the year field is a run of digits ending where the 21-character tail begins with '-' |
| Prefix.PrefixLayout | src/main/java/com/rodneybeede/software/preservelastmodepochfilename/Main.java:112-119 | the prefix is a year field of at least four characters followed by 21 characters of fixed layout |
| Civil.FromEpochSeconds | src/main/java/com/rodneybeede/software/preservelastmodepochfilename/Main.java:114-119 | the fields are valid UTC calendar fields (month 1-12, day within the month under Gregorian leap years, hour below 24, minute and second below 60), and they name exactly the given second |
| Civil.FromEpochSecondsOfFields | src/main/java/com/rodneybeede/software/preservelastmodepochfilename/Main.java:114-119 | converting valid fields to seconds and back gives the same fields |
| Civil.EpochSecondsInjective | src/main/java/com/rodneybeede/software/preservelastmodepochfilename/Main.java:114-119 | different valid fields name different seconds |
| Civil.YearBelow10000 | src/main/java/com/rodneybeede/software/preservelastmodepochfilename/Main.java:112 | the year has at most four digits exactly for instants before 253402300800 s after the epoch |
| Civil.DaysBeforeYearClosedForm | src/main/java/com/rodneybeede/software/preservelastmodepochfilename/Main.java:114 | counting days year by year agrees with the closed form 365 n plus the leap days of the Gregorian rule |
| Civil.SplitYear | src/main/java/com/rodneybeede/software/preservelastmodepochfilename/Main.java:114-119 | a day count splits into a year and a day of that year that add back up to the count |
| Civil.SplitMonth | src/main/java/com/rodneybeede/software/preservelastmodepochfilename/Main.java:114-119 | a day of the year splits into a month and a day of that month that add back up to it |
| Civil.EarlierSecondEarlierFields | src/main/java/com/rodneybeede/software/preservelastmodepochfilename/Main.java:114-119 | an earlier second has fields that compare earlier from the year down |
| Civil.EarlierDateEarlierDay | src/main/java/com/rodneybeede/software/preservelastmodepochfilename/Main.java:114-119 | an earlier date has a smaller day number |
| Decimal.ValueOfPadded | src/main/java/com/rodneybeede/software/preservelastmodepochfilename/Main.java:112 | reading a zero-padded field back gives its value |
| Decimal.PaddedWidth | src/main/java/com/rodneybeede/software/preservelastmodepochfilename/Main.java:112 | a padded field has exactly the pattern's width if and only if its value is below 10 to that width |
| Decimal.NumeralLength | src/main/java/com/rodneybeede/software/preservelastmodepochfilename/Main.java:112 | the shortest numeral of n has at most k digits if and only if n < 10^k |
| Decimal.Padded | src/main/java/com/rodneybeede/software/preservelastmodepochfilename/Main.java:112 | a padded field is all digits, and as long as the pattern's width or the numeral, whichever is longer |
| Decimal.Numeral | src/main/java/com/rodneybeede/software/preservelastmodepochfilename/Main.java:112 | the numeral is a non-empty run of digits with no leading zero above 9 |
| Ordering.NameOrderFollowsTime | src/main/java/com/rodneybeede/software/preservelastmodepochfilename/Main.java:111-121 | before year 10000, for instants in different seconds, one renamed name sorts before another exactly when its instant is earlier, whatever the original names |
| Ordering.EarlierPrefixSortsFirst | src/main/java/com/rodneybeede/software/preservelastmodepochfilename/Main.java:111-121 | before year 10000, the renamed name of an earlier second sorts first |
| Ordering.SameSecondNameDecides | src/main/java/com/rodneybeede/software/preservelastmodepochfilename/Main.java:111-121 | within one second the prefixes are equal, and the renamed names sort as the original names do |
| Ordering.WiderYearSortsFirst | src/main/java/com/rodneybeede/software/preservelastmodepochfilename/Main.java:112 | from year 10000 on, a name whose year field is `10000` sorts before one whose field is `9999`, so name order stops following time |
| Ordering.LaidOutOrder | src/main/java/com/rodneybeede/software/preservelastmodepochfilename/Main.java:112 | fields laid out with the pattern compare as the calendar fields do |
| Ordering.PrefixFields | src/main/java/com/rodneybeede/software/preservelastmodepochfilename/Main.java:112-119 | before year 10000, each field of the prefix and each separator sits at its fixed position |
| Ordering.DigitsOrder | src/main/java/com/rodneybeede/software/preservelastmodepochfilename/Main.java:112 | among digit strings of one length, the smaller number sorts first |
| Ordering.ValueInjective | src/main/java/com/rodneybeede/software/preservelastmodepochfilename/Main.java:112 | digit strings of one length with the same value are equal |
| Paths.TargetRecoversName | src/main/java/com/rodneybeede/software/preservelastmodepochfilename/Main.java:71 | before year 10000, the target keeps the directory, its name is 25 characters longer, the first 25 characters are the prefix, and the rest is the original name |
| Paths.TargetInjective | src/main/java/com/rodneybeede/software/preservelastmodepochfilename/Main.java:71 | two files never share a target, whatever their timestamps |
| Paths.SameStampTargetsDistinct | src/main/java/com/rodneybeede/software/preservelastmodepochfilename/Main.java:71 | for one timestamp, two files in one directory get the same target exactly when their names are equal |
| Paths.TargetDiffers | src/main/java/com/rodneybeede/software/preservelastmodepochfilename/Main.java:71-75 | the target is never the file itself |
| Paths.TargetStacks | src/main/java/com/rodneybeede/software/preservelastmodepochfilename/Main.java:64-77 | the target of a target carries the new prefix in front of the old one, and is a different path again |
| Paths.TargetExample | src/main/java/com/rodneybeede/software/preservelastmodepochfilename/Main.java:71 | `report.txt` last modified at 2021-03-15T14:30:00Z goes to `2021-03-15_14-30-00_UTC__report.txt` in the same directory |
| Renamer.Move | src/main/java/com/rodneybeede/software/preservelastmodepochfilename/Main.java:75 | after the move, the entry is at the new path, the old path is gone, and every other path keeps its entry |
| Renamer.RenameStacksPrefix | src/main/java/com/rodneybeede/software/preservelastmodepochfilename/Main.java:64-77 | a file whose name already has a prefix, whose timestamp is in range and whose move succeeds is renamed with a second prefix in front of the first |
| Renamer.VisitKeepsNonFiles | src/main/java/com/rodneybeede/software/preservelastmodepochfilename/Main.java:53-85 | a callback that returns normally leaves every directory and unreadable entry in place, and the number of entries unchanged |
| Renamer.WalkKeepsNonFiles | src/main/java/com/rodneybeede/software/preservelastmodepochfilename/Main.java:51-87 | a walk, completed or aborted, never moves, creates or drops a directory or unreadable entry, and keeps the number of entries |
| Renamer.SkippedEntriesChangeNothing | src/main/java/com/rodneybeede/software/preservelastmodepochfilename/Main.java:53-85 | over directories, unreadable entries and vanished paths alone, the walk completes and changes nothing |
| Renamer.AbortIsFinal | src/main/java/com/rodneybeede/software/preservelastmodepochfilename/Main.java:67-75 | once a callback has thrown, later paths change neither the state nor the outcome |
| Renamer.PrefixCompleted | src/main/java/com/rodneybeede/software/preservelastmodepochfilename/Main.java:51-87 | a walk that completed completed on every prefix of its order |
| Renamer.AbortedAtFirstFailure | src/main/java/com/rodneybeede/software/preservelastmodepochfilename/Main.java:51-87 | when a walk aborts at position k, the state is what the paths before k made, and the callback at k throws that exception |
| Renamer.CompletesIffNoFailure | src/main/java/com/rodneybeede/software/preservelastmodepochfilename/Main.java:51-87 | the walk completes if and only if no callback throws on the state the paths before it made |
| Renamer.CompletedRunRenamesAll | src/main/java/com/rodneybeede/software/preservelastmodepochfilename/Main.java:51-87 | when every listed path exists in the starting tree and every listed file has a readable timestamp within `Long.MAX_VALUE` milliseconds, a target absent from the starting tree and an accepted move, the walk completes; every listed file is then at its target with its entry, every other entry keeps its place, and there is nothing else |
| Renamer.RenameStep | src/main/java/com/rodneybeede/software/preservelastmodepochfilename/Main.java:64-77 | one callback on such a path extends that renamed state by the path |
| Renamer.FailureStopsWalk | src/main/java/com/rodneybeede/software/preservelastmodepochfilename/Main.java:51-96 | when the paths before p can be renamed and visitFile throws for p, the walk aborts at p with the exception visitFile raises for p on the original tree; the paths before p are renamed, and nothing after p is touched |
| Renamer.RenameAgrees | src/main/java/com/rodneybeede/software/preservelastmodepochfilename/Main.java:71-75 | the earlier renames do not change which exception visitFile raises for a file they did not move |
| Renamer.FileTree.VisitFile | src/main/java/com/rodneybeede/software/preservelastmodepochfilename/Main.java:64-78 | reads the timestamp and moves the file to its target, changing `entries` exactly as `Rename` says, or leaves `entries` unchanged and returns the exception: an unreadable timestamp, a timestamp past `Long.MAX_VALUE` milliseconds, an occupied target or a refused move |
| Renamer.FileTree.WalkFileTree | src/main/java/com/rodneybeede/software/preservelastmodepochfilename/Main.java:51-87 | the loop leaves `entries` and the outcome exactly as `Walk` over the order says |
| Renamer.FileTree.Run | src/main/java/com/rodneybeede/software/preservelastmodepochfilename/Main.java:34-96 | with an argument count other than one, the exit status is 255 and nothing is touched; otherwise the tree is what `Walk` makes, and the exit status is 0 only when the walk completed, while a failure leaves `main` uncaught |

## Left out

- Logging through log4j, and the usage text with its code-source lookup (Main.java lines 31, 35-36, 65, 69, 73, 82, 91, 94, 100-108): presentation only.
- `toRealPath` (line 46) and its failure for a missing root: a foreign file-system call. The tree is given relative to an already canonical root, and the root is assumed to be a directory: a root that is a regular file would be handed to `visitFile` itself and renamed in its parent directory, which a path below the root cannot express.
- The real enumeration order of `Files.walkFileTree`: the order is a parameter. If the tree changes during the walk, a renamed file may be enumerated again. The model does not predict that; an order that lists a target models it.
- `Files.move` atomicity, content and timestamp preservation, and cross-device moves. A move carries the whole `Entry` to its target; any other refusal of the move is the input set `refused`.
- Symbolic links, and when exactly a metadata read fails: both are inputs (`File(None)`, `Inaccessible`).
- Hard links and other file identity: an `Entry` carries no file key. `Files.move` returns without
  doing anything when the target is the same file as the source, while the model aborts with
  `TargetExists` whenever the target path is occupied.
- The default locale: the model assumes one whose `SimpleDateFormat` uses the Gregorian calendar and
  ASCII digits. Locales that select another calendar (th_TH the Buddhist one, ja_JP_JP the Japanese
  Imperial one) or other digits (th_TH_TH Thai digits) give other prefixes, and are not modelled.
- `String.compareTo` order: `Ordering.LexBefore` decides at the first differing position only. It says
  nothing about a name that is a proper prefix of another, and compares characters, not UTF-16 code
  units.
- The `null` date branch (lines 116-117): `Date.from` never returns null, so `visitFile` never reaches it, and it reads the wall clock.
- `null` argument arrays (line 34): a Dafny sequence is never null.
- Instants before 1970: timestamps are natural numbers of milliseconds. Before 1582-10-15 `SimpleDateFormat` also switches to Julian dates, which the model does not have.
- Years above 9999 are formatted in full, up to `Long.MAX_VALUE` milliseconds after the epoch; the 25-character length is claimed only below year 10000, and so is name order following time: from year 10000 on the wider year field sorts first (`10000-01-01_…` before `9999-12-31_…`, since '1' < '9'), as `Ordering.WiderYearSortsFirst` shows. A larger timestamp is the failure `DateOutOfRange`; `FileTime.toInstant` saturating at its own limit is not modelled.
- Precision below the millisecond: `Date.from` truncates the `FileTime` to milliseconds before formatting. The model takes milliseconds as input.
- The exit status of an uncaught exception belongs to the Java launcher: `Run` returns `Uncaught(failure)` with no number.
- The doc comment that names RFC 4180 (line 25): the program writes no CSV.
- Renamer.CompletedRunRenamesAll: stated only for orders whose listed paths all exist in the starting tree and whose listed files' targets are absent from it. An order in which an earlier move frees a later file's target (such as `[Target(x, m), x]`) completes, and no lemma describes it.
- Renamer.FailureStopsWalk: likewise leaves out a failing file whose target is the path of a file listed and renamed earlier, since that earlier move freed the target.
