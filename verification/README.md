# Configuration, array lists and buffer jumps of WhoreIRC, in Dafny

This project models four parts of the client's core and proves what they promise.

* **Options and their file** (`src/core/wee-config-file.c`). `OptionValue` gives the meaning of a text for
  each type of option. `Config` has the files, sections and options as objects: the options of a section are a
  doubly linked list edited in place, and `Valid()` says that it is acyclic, that its links mirror each other,
  that both ends are right, and that it is strictly sorted by folded name. `ConfigBuild` and `ConfigNames`
  create, free, look up and rename options and keep every list of the whole store valid. `LineFormat` is the
  printer and the line parser as functions, with the exact conditions under which one undoes the other;
  `LineBuffer` is the parser as it works, cutting an array of characters in place, proved against those
  functions. `LineMeaning` says what lines written by hand and by the program look like, `FileText` how `fgets` cuts a
  file into pieces, `LineLimit` which lines survive that; `Reload`, `ReloadMeaning`, `ReloadStable` and `SaveReload` say
  what a file text does to the options. `ConfigReload` and `ConfigWrite` are the loops over buffers and linked lists,
  proved against them.
* **The array list** (`src/core/wee-arraylist.c`). `ArraylistSpec` gives each operation as a function on
  contents, allocated size and cost; `Arraylist` is the class with its array, proved against it method by method;
  `ArraylistRuns`, `ArraylistMinimum`, `ArraylistOrder` and `ArraylistStable` prove what holds over every run.
* **Commands over these structures** (`src/core/wee-command.c`). `Buffers` and `BufferRing`: the relative
  jumps. `BufferClose`: the ranges and names of `/buffer close`, collected with the array list.
  `ConfigUnset`: `/unset -mask`, which frees options of the list it walks.
* **Two parts of** `src/core/wee-config.c`. `Layout` and `LayoutFile`: the tree of windows written parents first and read
  back. `Debug`: the section whose options are mirrored into the core and the plugins.

Where a claim one would expect is false of the code, the code is kept, a lemma gives an input where it fails (most of
them are in `FailingInputs`), and another says exactly when it holds:

* A removal from a sorted list does not always take the oldest of equal elements: it does when a search gives the
  index (`ArraylistOrder.SortedQueues`), not at any index (`FailingInputs.NotTheOldest`). At any index, the list is the
  stable sort of what is left (`ArraylistStable.EveryRunStable`).
* The allocated size of an array list can fall below its minimum: `ArraylistMinimum.FallsBelow` is a run that does it,
  `AllocBelowMin` says exactly for which lists there is one. It never falls below half of it (`ArraylistRuns.RunInv`).
* `++N` and `--N` check one bound only (`OptionValue.NegativeAmountEscapes`, `LargeAmountEscapes` for amounts
  that wrap around, `NullStartEscapes`); `IntegerRangeExact` gives the exact condition for one action
  and `RunInRangeExact` for whole runs.
* The full name of an option resolves to that option if and only if neither the name of its file nor the name of its
  section has a dot (`ConfigNames.FullNameResolves`); `FailingInputs.DottedFile` builds a store with a file "a.b".
* A saved line is read back if and only if name and value are printable (`Restore.PrintedLineExact`;
  `FailingInputs.NameLost` for the name "a =b"), and the text read gives the value back if and only if that value
  is restorable (`Restore.RestoreExact`): a number that left its range and a word hidden behind an equal one
  are not (`FailingInputs.NumberLost`, `WordLost`). A line that does not fit in the buffer of the reader is cut, and its
  value lost (`FailingInputs.LongLineLost`); `LineLimit.LineLimitExact` is the exact limit, with its one exception,
  `LineLimit.HeaderReadExact` the one of headers (`FailingInputs.HeaderLost` for the section "a]b") and
  `LayoutFile.LineReadBack` the one of the lines of a layout (`FailingInputs.NodeLost` for the buffer "a;b").
* A reload is not idempotent for values that refer to the current one (`FailingInputs.ToggleReloadedTwice`, with the
  line `o = toggle`): `ReloadStable.ReloadIdempotentExact` says exactly which files are harmless.
* Two layouts can write the same lines (`FailingInputs.SameLines`): they do if and only if they are equal but for
  names that give the same text (`Layout.SameLinesExact`).
* `/buffer -N` undoes `/buffer +N` if and only if the starting number has a visible buffer
  (`BufferRing.ThereAndBack`); `FailingInputs.HiddenStart` starts from a hidden one.

Two places where the code does more or less than its comments and documentation say: a line with an invalid
value keeps the old value but marks the option as loaded, so that the reset at the end of a reload skips it; and option
lines below an unknown section header are looked up in the whole file. The model follows the code.

Conventions: an address is a `nat` with 0 for NULL where only equality and order matter (array lists, buffers to
close); a C string has no NUL character; `int` and `long` are unbounded integers with the conversions written
out (`Text.ToInt`, the saturation of `strtol` in `Text.ParseLong`).

Verify with `dafny verify dfyconfig.toml`.

## Model

| member | source | states |
|---|---|---|
| Text.StrCaseCmpZero | src/core/wee-string.c:284-302 | the comparison is 0 exactly when the two folded keys are equal |
| Text.EqFoldExact | src/core/wee-string.c:284-302 | two names are equal if and only if they have the same length and differ at most in the case of the letters A to Z |
| Text.StrCaseCmpExact | src/core/wee-string.c:284-302 | a name comes first if and only if, after the same letters, it ends or has a smaller lower-case character |
| Text.StrCaseCmpSwap | src/core/wee-string.c:284-302 | swapping the arguments negates the result |
| Text.StrCaseCmpTransitive | src/core/wee-string.c:284-302 | the order on names is transitive, and strictly so when one step is strict |
| Text.ParsePrinted | src/core/wee-config-file.c:2253-2264 | any `long` printed with `%d` is read back by `strtol` |
| Text.ParseNumber | src/core/wee-config-file.c:1338-1392 | blanks, a sign or none and digits, of any size, are the number in decimal, brought into the range of `long` |
| Text.ParseLongExact | src/core/wee-config-file.c:1338-1392 | nothing else is accepted as a number, but the empty text, which is 0 |
| ArraylistRuns.RunInv | src/core/wee-arraylist.c:67-694 | over every run: size <= allocated, twice the allocated size >= the minimum, sorted lists are sorted, lists without duplicates have none |
| ArraylistMinimum.AllocBelowMin | src/core/wee-arraylist.c:151-228 | some run takes the allocated size below the minimum if and only if the minimum is 3 or more and the list can hold one element more than it |
| ArraylistMinimum.ShrinkBelowExact | src/core/wee-arraylist.c:191-228 | one removal does so if and only if the list had grown past the minimum, half of that is less than the minimum, and the elements left leave a slot of it free |
| ArraylistMinimum.FallsBelow | src/core/wee-arraylist.c:492-612 | the run itself: one insertion more than the minimum, then removals; with minimum 32 it ends with 24 slots |
| ArraylistMinimum.SmallMinimumKept | src/core/wee-arraylist.c:191-228 | over every run a minimum of 2 or less is kept |
| ArraylistMinimum.NeverGrows | src/core/wee-arraylist.c:151-185 | over every run a list without duplicates, with no more classes than its minimum, keeps its allocation |
| ArraylistRuns.Conservation | src/core/wee-arraylist.c:492-694 | over every run the multiset of pointers inserted equals those held plus those released |
| ArraylistRuns.FreeReleasesAll | src/core/wee-arraylist.c:674-694 | over every run, what has been released before and by the final free is, as a multiset, everything ever inserted |
| ArraylistRuns.BudgetBound | src/core/wee-arraylist.c:151-228 | copying so far plus the potential of the list never exceeds 6 a change plus 4 initial sizes |
| ArraylistRuns.AmortisedCopying | src/core/wee-arraylist.c:151-228 | total slots copied by reallocation is at most 6 for each insertion or removal plus 4 times the initial size, once more for each clear |
| ArraylistRuns.RemoveAllFilters | src/core/wee-arraylist.c:516-533 | removing equal elements one by one, shrinking meanwhile, is filtering |
| ArraylistRuns.RemoveRunOnce | src/core/wee-arraylist.c:501-515 | the removal of a duplicate found in a list without duplicates removes that element and no other |
| ArraylistRuns.InsertStateItems | src/core/wee-arraylist.c:492-560 | an insertion replaces the equal element in place (sorted, no duplicates), inserts after all equal ones (sorted), filters then inserts (unsorted, no duplicates) or only inserts |
| ArraylistOrder.OrderedMap | src/core/wee-arraylist.c:492-612 | over every run of adds and of removals of what a search found, a sorted list without duplicates is strictly sorted and finds for each class exactly the pointer last added and not removed |
| ArraylistOrder.OrderedMapAnyRun | src/core/wee-arraylist.c:492-666 | the same over every run of insertions, removals at any index and clears |
| ArraylistStable.EveryRunDated | src/core/wee-arraylist.c:492-666 | over every run of insertions, removals at any index and clears, each insertion is that of exactly one element held or released; equal elements held are in the order of their insertions, unless the list is unsorted with duplicates |
| ArraylistStable.EveryRunStable | src/core/wee-arraylist.c:492-666 | over every such run, a sorted list is the stable sort of what was inserted and not released, in the order of insertion |
| ArraylistOrder.SortedQueues | src/core/wee-arraylist.c:455-612 | over every run of adds and of removals of the first element that a search found, a sorted list with duplicates holds for each class its elements in the order of addition, each removal taking the oldest |
| FailingInputs.NotTheOldest | src/core/wee-arraylist.c:582-612 | of two equal elements the second can be removed by its index, where a search removes the first |
| ArraylistOrder.StableSortUnique | src/core/wee-arraylist.c:492-560 | at most one sequence is the stable sort of a given one |
| ArraylistOrder.AddsSortStably | src/core/wee-arraylist.c:567-570 | after any adds a sorted list with duplicates is the stable sort of what was added |
| ArraylistOrder.AddsKeepLastMentions | src/core/wee-arraylist.c:567-570 | after any adds an unsorted list without duplicates holds each pointer once, in the order of last addition |
| ArraylistClass.Arraylist.constructor | src/core/wee-arraylist.c:77-110 | a new list is empty, valid, with the initial size allocated and the default comparison when none is given |
| ArraylistClass.Arraylist.Create | src/core/wee-arraylist.c:67-110 | NULL for a negative initial size, otherwise the new list above |
| ArraylistClass.Arraylist.Size | src/core/wee-arraylist.c:119-125 | the number of elements |
| ArraylistClass.Arraylist.GrowData | src/core/wee-arraylist.c:151-185 | keeps the allocation when there is a free slot, otherwise takes it to 2, or from n to 3n / 2; keeps the contents, new slots are NULL |
| ArraylistClass.Arraylist.ShrinkData | src/core/wee-arraylist.c:191-228 | halves the allocation, rounded up, when it is above the minimum and the elements left leave a slot free, 1 giving 0; keeps the contents |
| ArraylistClass.Arraylist.Locate | src/core/wee-arraylist.c:255-350 | the fast paths and the halving loop stay in bounds, end, and find an equal element or its place |
| ArraylistClass.Arraylist.Widen | src/core/wee-arraylist.c:351-396 | from any equal element to the first one and to the end of the equal ones |
| ArraylistClass.Arraylist.BinarySearch | src/core/wee-arraylist.c:244-402 | same index and pointer as linear search on every reachable non-empty sorted list; the insertion point, -1 meaning the end, comes after all equal elements |
| ArraylistClass.Arraylist.StandardSearch | src/core/wee-arraylist.c:412-440 | linear search finds the first match |
| ArraylistClass.Arraylist.Search | src/core/wee-arraylist.c:455-481 | both searches give the first match, whichever is used |
| ArraylistClass.Arraylist.InsertElement | src/core/wee-arraylist.c:492-560 | new contents, allocation, released pointers and index are those of the specification; the index returned holds the pointer, and without order or duplicates to care for it is the one asked for, or the end |
| ArraylistClass.Arraylist.Add | src/core/wee-arraylist.c:567-570 | insertion at the end or at the sorted place |
| ArraylistClass.Arraylist.RemoveElement | src/core/wee-arraylist.c:582-612 | the contents lose the element at that index and no other; it is given to the free callback, the last slot is cleared, the list shrinks; outside the list nothing happens and -1 is returned |
| ArraylistClass.Arraylist.ClearElements | src/core/wee-arraylist.c:623-666 | releases every element and goes back to the minimum allocation |
| ArraylistClass.Arraylist.Free | src/core/wee-arraylist.c:674-694 | every element still held is given to the free callback, in order, after those released before |
| OptionValue.NewValuesWellFormed | src/core/wee-config-file.c:597-751 | the default and value of a new option are typed, in range, and not null when null is not allowed; creation fails only when both are missing |
| OptionValue.NewValuesExact | src/core/wee-config-file.c:597-751 | each of the two values comes from its own text, and from the other one only when it has none and may not be null: a number brought into the range, the first word of that name, on for the words for true; a text that is no value gives 0 brought into the range, the first word, off |
| OptionValue.RunWellFormed | src/core/wee-config-file.c:1055-1550 | any run of set, set_null and reset keeps an option typed, and not null when null is not allowed |
| OptionValue.IntegerRangeExact | src/core/wee-config-file.c:1335-1392 | an accepted text takes an integer out of its range if and only if it is relative and passes the bound that is not checked |
| OptionValue.SafeAmounts | src/core/wee-config-file.c:1338-1359 | non-negative amounts without overflow at the value they are applied to, from a value in range, keep the range |
| OptionValue.RunInRange | src/core/wee-config-file.c:1055-1550 | integers, nullable or not, stay in [min, max] or null over every run whose relative amounts are not negative, meet a value, and do not overflow it |
| OptionValue.RunInRangeExact | src/core/wee-config-file.c:1055-1550 | any run keeps an integer in range at every step if and only if no accepted action passes the unchecked bound from the value it meets |
| OptionValue.NegativeAmountEscapes | src/core/wee-config-file.c:1338-1359 | from every value of every range whose minimum is not that of `int`, a text `++` with a negative amount leads to min - 1 |
| OptionValue.LargeAmountEscapes | src/core/wee-config-file.c:1338-1348 | a text `++` with a large positive amount wraps around and passes the check on the maximum |
| OptionValue.NullStartEscapes | src/core/wee-config-file.c:1338-1348 | `++0` on a null value gives 0 although the minimum is greater |
| OptionValue.CodesExact | src/core/wee-config-file.c:1055-1550 | CHANGED if and only if the value differs afterwards, null counted; otherwise the value is kept |
| OptionValue.ResetTwice | src/core/wee-config-file.c:1055-1177 | a reset fails only without a default where null is not allowed, and keeps the value then; otherwise the value is the default, null included, and a second reset is SAME_VALUE |
| OptionValue.ChangedExact | src/core/wee-config-file.c:1934-1967 | an option has changed from its default if and only if resetting it is CHANGED |
| OptionValue.SetExact | src/core/wee-config-file.c:1189-1496 | a set is an error exactly when the check callback or the type refuses the text, and keeps the value then; SAME_VALUE exactly when a text accepted leaves the value as it is |
| OptionValue.SetNullExact | src/core/wee-config-file.c:1508-1550 | the same for set_null |
| OptionValue.BooleanTextsExact | src/core/wee-config-file.c:1210-1269 | `toggle`, the six words for true and the six for false, in any case, and no other text |
| OptionValue.IncrementTextExact | src/core/wee-config-file.c:1338-1348 | `++` and a printed number adds it as a C `int` and checks the maximum only |
| OptionValue.DecrementTextExact | src/core/wee-config-file.c:1349-1359 | `--` and a printed number subtracts it and checks the minimum only |
| OptionValue.NumberTextExact | src/core/wee-config-file.c:1360-1392 | a printed number is taken exactly when it is in the range |
| OptionValue.StepForward | src/core/wee-config-file.c:1281-1291 | `++a` on a word is addition modulo the number of words |
| OptionValue.StepBack | src/core/wee-config-file.c:1292-1302 | `--a` on a word is subtraction modulo the number of words, never out of range despite C's remainder |
| OptionValue.StepThenStep | src/core/wee-config-file.c:1281-1291 | `++a` then `++b` is `++(a+b)` |
| OptionValue.StepThenBack | src/core/wee-config-file.c:1281-1302 | `--a` undoes `++a` |
| Config.ConfigOption.Set | src/core/wee-config-file.c:1189-1496 | the value written in place and the return code are those of the specification |
| Config.ConfigOption.SetBoolean | src/core/wee-config-file.c:1210-1269 | boolean texts and `toggle`, on null and non-null values |
| Config.ConfigOption.SetInteger | src/core/wee-config-file.c:1335-1392 | absolute and relative numbers; a rejected text on a null value leaves null |
| Config.ConfigOption.SetWord | src/core/wee-config-file.c:1278-1334 | words and relative steps among them |
| Config.ConfigOption.SetToNull | src/core/wee-config-file.c:1508-1550 | null if allowed, error otherwise |
| Config.ConfigOption.Reset | src/core/wee-config-file.c:1055-1177 | back to the default, or to null when there is none |
| Config.ConfigSection.Search | src/core/wee-config-file.c:829-860 | the option of that name, case ignored, or none, by walking the list |
| Config.ConfigSection.FindPos | src/core/wee-config-file.c:413-428 | the first option with a greater name |
| Config.ConfigSection.InsertInSection | src/core/wee-config-file.c:436-475 | a fresh name is linked in at its sorted place; the list stays well formed |
| Config.SplitParentExact | src/core/wee-config-file.c:558-573 | the name of an option ends before the first ` << `, and what follows it is the name of the parent |
| Config.ConfigSection.NewOption | src/core/wee-config-file.c:527-816 | refused for a name already there or without any value; otherwise the list gains exactly the new option with its parent name and the two values that its texts mean |
| Config.ConfigSection.RenameInSection | src/core/wee-config-file.c:1647-1669 | taken out, renamed, linked in again at the place of its new name |
| Config.ConfigSection.Unlink | src/core/wee-config-file.c:1650-1658 | removal from the list, at either end or in the middle |
| Config.ConfigSection.FreeOption | src/core/wee-config-file.c:2890-2931 | the list loses exactly that option and stays well formed and sorted |
| Config.SortedInsert | src/core/wee-config-file.c:413-475 | inserting a free name at its place keeps names strictly sorted |
| ConfigBuild.NewFile | src/core/wee-config-file.c:116-176 | refused for a name in use; otherwise one file more, every list of the store still valid |
| ConfigBuild.NewSection | src/core/wee-config-file.c:211-299 | refused for a name in use; otherwise one empty section more, with its callbacks and its name |
| ConfigBuild.NewOptionInStore | src/core/wee-config-file.c:527-816 | creation keeps every list of the store valid; refused exactly for a taken name or a missing value; otherwise the option has the type, the parent name and the two values that its texts mean |
| ConfigBuild.FreeInStore | src/core/wee-config-file.c:2890-2931 | freeing keeps every list of the store valid and removes that option only |
| ConfigNames.SearchWithString | src/core/wee-config-file.c:920-986 | cuts the name at its first two dots and gives what was found of file, section and option, and the option part of the name |
| ConfigNames.SplitNameExact | src/core/wee-config-file.c:920-960 | the three parts are those around the first two dots |
| ConfigNames.ResolveExact | src/core/wee-config-file.c:920-986 | such a name resolves to an option if and only if the option is in the store and the three parts are the names of its file, of its section and its own, case ignored |
| ConfigNames.ResolvePartsExact | src/core/wee-config-file.c:920-986 | the same for the file and the section found on the way |
| ConfigNames.FullNameResolves | src/core/wee-config-file.c:332-353 | a full name resolves to its own option if and only if file and section names have no dot |
| ConfigNames.RenameParents | src/core/wee-config-file.c:1676-1695 | every parent name equal to the old full name becomes the new one, all others are unchanged |
| ConfigNames.RenameOption | src/core/wee-config-file.c:1632-1703 | renamed exactly when the new name is not empty and not taken; no option is gained or lost, the store stays valid, the new full name resolves to the option, every parent name that was the old full name is the new one and resolves to the option, and all others are kept |
| LineFormat.BareTextExact | src/core/wee-config-file.c:2666-2694 | a text written without quotes is read back if and only if it is not empty, not `null`, and neither trimmed nor unquoted |
| LineLimit.HeaderReadExact | src/core/wee-config-file.c:2590-2628 | the first thing read from the line of a section header is that section if and only if its name has no `]`, no `=` and no end of line, and the line has at most 16382 characters; carriage returns are kept |
| LineFormat.ReadPrintedValue | src/core/wee-config-file.c:2232-2290 | what is read from a printed line with a value: exact conditions on name and text |
| LineFormat.ReadPrintedAlone | src/core/wee-config-file.c:2232-2290 | what is read from the line of a null value: exact conditions on the name |
| LineMeaning.NullValue | src/core/wee-config-file.c:2666-2694 | nothing, or the word null in any case with nothing after it, is null |
| LineMeaning.QuotedValue | src/core/wee-config-file.c:2666-2694 | a text in quotes of either kind, with spaces around, is that text |
| LineMeaning.PlainValue | src/core/wee-config-file.c:2666-2694 | so is a text without quotes |
| LineMeaning.NameRead | src/core/wee-config-file.c:2652-2664 | the name is what comes before the first ` =`, without the spaces at its end and without a backslash in front |
| LineMeaning.HeaderLine | src/core/wee-config-file.c:2612-2628 | a header may have spaces in front and anything without `=` behind |
| LineMeaning.BracketLine | src/core/wee-config-file.c:2612-2640 | a line that starts with `[` is an error exactly when it has neither `=` nor `]`, and an option when it has a `=` |
| LineMeaning.IgnoredLine | src/core/wee-config-file.c:2601-2611 | a line is ignored exactly when its first character other than a space is `#` or an end of line |
| LineMeaning.DosEnd | src/core/wee-config-file.c:2652-2698 | both ends of line are the same |
| LineMeaning.UsualLine | src/core/wee-config-file.c:2601-2698 | a line `name = "value"` gives that value to that name, with quotes of either kind |
| LineMeaning.WrittenLine | src/core/wee-config-file.c:2232-2290 | an option is written as its name, then ` = ` and the text of its value unless that is null |
| LineMeaning.WrittenValues | src/core/wee-config-file.c:2232-2290 | `on` and `off`, decimal numbers, the words themselves, strings in double quotes |
| LineMeaning.EscapedName | src/core/wee-config-file.c:2218-2231 | a name that starts like a comment or a header is written after a backslash |
| LineBuffer.TrimSpaces | src/core/wee-config-file.c:2658-2664 | the trimming loop leaves exactly the trimmed string in the buffer |
| LineBuffer.StripQuotes | src/core/wee-config-file.c:2685-2693 | matching quotes are dropped, the quote alone included |
| LineBuffer.ParseValue | src/core/wee-config-file.c:2666-2696 | the value cut out of the buffer is the one of the specification, characters before it are untouched |
| LineBuffer.ParseOption | src/core/wee-config-file.c:2652-2698 | name and value of an option line |
| LineBuffer.ParseHeader | src/core/wee-config-file.c:2614-2628 | the section name between the brackets |
| LineBuffer.ParseLine | src/core/wee-config-file.c:2601-2698 | a whole line: the in-place parser computes the function `LineFormat.ReadLine` |
| Restore.PrintedLineExact | src/core/wee-config-file.c:2232-2290 | a printed option is read back with its name and text if and only if both are printable |
| Restore.RestoreExact | src/core/wee-config-file.c:1189-1496 | from any current value the saved text gives the saved value if and only if that value is restorable |
| Restore.EnumRestores | src/core/wee-config-file.c:1278-1334 | a saved word gives its index back, exactly for words not hidden by an equal one and not read as a step |
| Restore.IntegerRestores | src/core/wee-config-file.c:1335-1392 | a saved integer is given back exactly when it is in range |
| Reload.ApplyLinesCell | src/core/wee-config-file.c:2590-2740 | each option ends with the value made by the texts addressed to it, in order, whatever the other lines are |
| Reload.ReloadCell | src/core/wee-config-file.c:2812-2853 | value and loaded mark of an option after a reload |
| Reload.UnnamedIsReset | src/core/wee-config-file.c:2840-2853 | an option of a plain section named by no line ends at its default |
| ReloadMeaning.AddressedExact | src/core/wee-config-file.c:2590-2740 | the texts for an option are those of the lines that name it: below the header of its section, unless that has a read callback, as the first option of that name there; above all headers or below an unknown one, as the first of that name in the file |
| ReloadMeaning.UnknownHeader | src/core/wee-config-file.c:2612-2740 | below the header of a section that the file does not have, wherever the reader was before, a line is for the first option of that name in the whole file |
| ReloadMeaning.KnownHeader | src/core/wee-config-file.c:2612-2740 | below the header of a section, a line is for the first option of that name there |
| ReloadMeaning.UnknownHeaderReloaded | src/core/wee-config-file.c:2590-2853 | so the reload gives that option the value of such a line |
| ReloadMeaning.ReloadExact | src/core/wee-config-file.c:2812-2853 | value and loaded mark of every option after a reload, in terms of the lines that are for it |
| ReloadMeaning.RefusedKeeps | src/core/wee-config-file.c:2700-2853 | a text that is refused keeps the old value, and the option is not reset |
| Reload.ReloadIdempotent | src/core/wee-config-file.c:2590-2853 | reloading twice is reloading once, for any text whose values are absolute or that gives each relative option a value outright |
| ReloadStable.BooleanStableExact | src/core/wee-config-file.c:1210-1269 | for a boolean, null or not: its lines applied twice are its lines applied once, if and only if one gives a value outright or the toggles are even in number |
| ReloadStable.WordStableExact | src/core/wee-config-file.c:1278-1334 | the same for a word, null or not, without a `++` of a negative amount: if and only if a line gives a word outright or the signed steps add up to a multiple of the number of words |
| ReloadStable.StepsStableExact | src/core/wee-config-file.c:1278-1392 | for an integer or a word, null or not, whatever the texts: if and only if one gives a value outright, or the steps that the second time does not refuse add up to a multiple of 2^32, or of the number of words |
| ReloadStable.UnrefusedStableExact | src/core/wee-config-file.c:1278-1392 | when the second time refuses none: if and only if one gives a value outright, or all the steps add up to such a multiple |
| ReloadStable.OneRelativeExact | src/core/wee-config-file.c:1278-1392 | for a single step of an integer or a word, of any amount, from any value, null included: if and only if its amount is such a multiple, or the first or the second application is refused |
| ReloadStable.ReloadIdempotentExact | src/core/wee-config-file.c:2590-2853 | any file is reloaded twice as once if and only if for each option a value is given outright, or the toggles are even in number, or the steps come to nothing as above |
| FileText.ParseJoined | src/core/wee-config-file.c:2590-2594 | `fgets` returns the lines written one after the other, of any length: a line that fits in one piece, its end on its own when it just fits, a longer one in pieces of 16382 characters |
| FileText.NulHides | src/core/wee-config-file.c:2590-2611 | a NUL in a line hides the rest of that line |
| LineLimit.LineLimitExact | src/core/wee-config-file.c:2590-2723 | the first thing read from the line of an option is that option with its text if and only if the line has at most 16382 characters, or 16384 and the value is one double quote |
| LineLimit.CutLine | src/core/wee-config-file.c:2652-2698 | a printed line cut anywhere is not read as its option and text, but for that one quote |
| LineLimit.PiecesOfOption | src/core/wee-config-file.c:2590-2723 | what the reader makes of the whole line in these cases: the option, then nothing, or the end of the line, or the two quotes that were cut off |
| FailingInputs.LongLineLost | src/core/wee-config-file.c:2341-2853 | a string option whose line has 16383 characters, nothing else being against it, comes back from its own file with another value |
| FailingInputs.ToggleReloadedTwice | src/core/wee-config-file.c:2590-2853 | the file `[s]`, `o = toggle`, reloaded twice, gives a boolean, null or not, another value than reloaded once |
| FailingInputs.NumberLost | src/core/wee-config-file.c:1338-1392 | in every range whose minimum is not that of `int`, `++-1` on the minimum is accepted, and the text saved for the result does not give it back |
| FailingInputs.WordLost | src/core/wee-config-file.c:1303-1334 | of the words "a" and "A" the second is saved as "A" and read back as the first |
| FailingInputs.NameLost | src/core/wee-config-file.c:2652-2664 | the line of a boolean named "a =b" is not read as that option |
| FailingInputs.HeaderLost | src/core/wee-config-file.c:2612-2628 | the header of a section "a]b" is not read as that section |
| FailingInputs.NodeLost | src/core/wee-config.c:2061-2077 | the line of a node with the buffer "a;b" is not read as that node |
| FailingInputs.SameLines | src/core/wee-config.c:2061-2093 | a node with the plugin "a;b" and the buffer "c" writes the line of one with "a" and "b;c" |
| FailingInputs.DottedFile | src/core/wee-config-file.c:332-353 | an option created in a file "a.b" is not what its own full name resolves to |
| FailingInputs.HiddenStart | src/core/wee-command.c:1206-1316 | from a hidden buffer 1, `+1` leads to buffer 2, and `-1` does not lead back |
| SaveReload.SaveThenReload | src/core/wee-config-file.c:2341-2853 | after a save and any changes, a reload gives every option of a plain section its saved value, whatever the length of the other lines, sections with callbacks in between included |
| SaveReload.ShortBannerOk | src/core/wee-config-file.c:2405-2421 | comments that fit in the buffer address no option |
| SaveReload.AlwaysRestoredExact | src/core/wee-config-file.c:2590-2853 | for any text: it gives an option this value whatever all options were changed to, if and only if the texts that it addresses to the option do, or there is none, the section has no read callback, and the option has this value as its default, or has none and may be null |
| ConfigReload.FindOptionInFile | src/core/wee-config-file.c:829-860 | looks in the current section, or in the first section of the file that has the name |
| ConfigReload.FGets | src/core/wee-config-file.c:2592 | one chunk of the text, NUL-terminated, in the buffer |
| ConfigReload.HandleLine | src/core/wee-config-file.c:2612-2740 | the objects follow the specification of one line: section switched, option set and marked, or nothing |
| ConfigReload.ReadText | src/core/wee-config-file.c:2590-2773 | the reading loop ends and the objects follow the specification of the whole text |
| ConfigReload.ReloadFile | src/core/wee-config-file.c:2812-2853 | loaded marks cleared, file read, unloaded options reset: the objects show exactly `Reload.ReloadCells` |
| ConfigWrite.WriteOption | src/core/wee-config-file.c:2232-2290 | one line for an option, by type and nullness |
| SaveReload.SectionForm | src/core/wee-config-file.c:2423-2460 | the lines of a section are those of its write callback, or an empty line, its header and one line for each option in order |
| ConfigWrite.WriteFile | src/core/wee-config-file.c:2341-2470 | the text written from the linked lists is the one `SaveReload.SaveThenReload` is about; nothing changes |
| ConfigWrite.ReloadSaved | src/core/wee-config-file.c:2341-2853 | on the objects: reloading a saved file after any changes leaves every option of every plain section with the value it was saved with, marked as loaded |
| ConfigUnset.DeleteMatching | src/core/wee-command.c:6095-6120 | freeing during the walk: each option is visited once, exactly the matching ones go, the count is exact |
| ConfigUnset.ResetMatching | src/core/wee-command.c:6095-6120 | where options may not be deleted, matching ones are reset in place; the number returned is that of the options whose value is another one afterwards |
| ConfigUnset.UnsetByReset | src/core/wee-config-file.c:1600-1622 | the reset branch of unset |
| ConfigUnset.CollectSections | src/core/wee-command.c:6089-6094 | the nested loops visit each section of the store once |
| ConfigUnset.UnsetAll | src/core/wee-command.c:6086-6123 | all sections walked, counters are the sums over the sections |
| ConfigUnset.UnsetOutcome | src/core/wee-command.c:6086-6123 | no match left where options may be deleted; elsewhere matches are at their default and nothing is lost; everything else is untouched |
| ConfigUnset.CountsExact | src/core/wee-command.c:6086-6123 | after the walk the two counters are the number of options whose value is not the one before, and of those no longer in their section |
| ConfigUnset.UnsetMask | src/core/wee-command.c:6071-6123 | refused for the mask `*`, otherwise the outcome above on the whole store, which stays valid; the numbers displayed are those of the options whose value changed and of the options that are gone |
| Buffers.SeekLands | src/core/wee-command.c:1287-1306 | counting discovered numbers finds the N-th of the list of discovered numbers |
| Buffers.JumpForward | src/core/wee-command.c:1276-1316 | `/buffer +N` ends and lands on the N-th number discovered, or stays; a text that is no number, or a number below 1, is reported as invalid |
| Buffers.JumpBackward | src/core/wee-command.c:1206-1246 | the same for `/buffer -N` |
| BufferRing.RingExists | src/core/wee-command.c:1276-1316 | the distinct visible numbers and the current one form an ascending ring |
| BufferRing.NthAhead | src/core/wee-command.c:1276-1316 | on a sorted list `+N` moves N places ahead on the ring, modulo its size, and does nothing when N reaches its size |
| BufferRing.NthBehind | src/core/wee-command.c:1206-1246 | `-N` moves N places back |
| BufferRing.ThereAndBack | src/core/wee-command.c:1206-1316 | `-N` after `+N` returns to the starting number if and only if that number has a visible buffer |
| BufferClose.AddRange | src/core/wee-command.c:1022-1034 | the walk that stops at the end of the range adds the buffers in it, and no other |
| BufferClose.RangeText | src/core/wee-command.c:980-1021 | a text `a-b` is the range from a to b |
| BufferClose.ArgumentExact | src/core/wee-command.c:980-1021 | a text that starts with a digit is invalid exactly when what is before its first `-`, or after it, is no number |
| BufferClose.NameText | src/core/wee-command.c:980-1046 | any other text is a name |
| BufferClose.AddArgument | src/core/wee-command.c:980-1046 | a number, a range or a name; an invalid number is an error |
| BufferClose.BuffersToClose | src/core/wee-command.c:970-1048 | the list collected holds each mention once, in the order of last mention; nothing is collected after an error; without an argument it is the current buffer, and for `a-b` the buffers whose number is one of a to b |
| BufferClose.CollectedOnce | src/core/wee-arraylist.c:516-533 | last mentions: same members, no repetition, ordered by last position |
| BufferClose.ClosesWhatIsCovered | src/core/wee-command.c:978-1048 | a buffer is collected if and only if a range contains its number or a name finds it |
| Layout.ValueReadBack | src/core/wee-config.c:2000-2037 | the value of a node's line is read back if and only if both names are absent, or both are present, non-empty, without `;`, and the plugin is not `-` |
| Layout.LinesAreRecords | src/core/wee-config.c:2061-2093 | the lines written are the texts of the records, in order |
| Layout.ParentsFirst | src/core/wee-config.c:2061-2093 | each parent identifier is that of the root's parent or has been written before |
| Layout.ReadSubtree | src/gui/gui-layout.c:446-521 | reading the lines of a subtree attaches it whole to its parent |
| Layout.TreeOfRecords | src/core/wee-config.c:2000-2093 | the records of a tree with distinct identifiers and no lone second child, whatever its names and numbers, rebuild it |
| Layout.RecordsDetermineTree | src/core/wee-config.c:2061-2093 | two such trees with the same records are equal |
| Layout.LayoutRestored | src/core/wee-config.c:2000-2093 | reading the values written for such a tree rebuilds it when its names can be read back |
| Layout.StrayNode | src/gui/gui-layout.c:470-521 | a node whose parent is not there becomes the root |
| Layout.ThirdChild | src/gui/gui-layout.c:470-521 | a third child is dropped |
| Layout.MalformedValue | src/core/wee-config.c:2000-2037 | a value with fewer than six fields, or a number that is none, changes nothing |
| Layout.SameLinesExact | src/core/wee-config.c:2061-2093 | two such trees, with any names, write the same lines if and only if they have the same nodes and the two names of each, joined by `;` and absent ones written `-`, give the same text |
| Layout.LinesDetermineTree | src/core/wee-config.c:2061-2093 | two such trees that write the same lines are equal when no plugin name holds `;` or is `-`, and absent names cannot be taken for `-`; empty names, and buffer names with `;`, which cannot be read back, are included |
| LayoutFile.LineReadBack | src/core/wee-config.c:2061-2077 | the first thing read from a node's line is that node if and only if its value is read back, no name has an end of line, the name of the option can be read back, and the line has at most 16382 characters |
| LayoutFile.FileRestored | src/core/wee-config.c:2100-2145 | reading the text written for the windows of a layout, by the line parser and the read callback, rebuilds the tree |
| LayoutFile.TextDeterminesTree | src/core/wee-config.c:2100-2145 | two such trees with the same text are equal |
| Debug.DebugLevels.SetAll | src/core/wee-config.c:1507-1523 | afterwards the core and each plugin have the level of the option with their name, or 0 |
| Debug.DebugLevels.LevelGiven | src/core/wee-config.c:1546-1599 | for a number from 0 to 32 and a name without ` << `: the level of that name, and of no other, becomes that number, with an option or without; CHANGED exactly for an option that had another level |
| Debug.DebugLevels.NoLevelGiven | src/core/wee-config.c:1546-1599 | a text that is no number changes no level |
| Debug.DebugLevels.NewLevel | src/core/wee-config.c:1578-1590 | a name without an option gets any number, brought into 0 to 32 |
| Debug.DebugLevels.TakenName | src/core/wee-config.c:1578-1590 | a name whose part before ` << ` has an option is refused, and no level changes |
| Debug.DebugLevels.CreateOption | src/core/wee-config.c:1546-1599 | the level of that name becomes the number asked for, levels of other names do not change, the return code is exact, all levels are mirrored |
| Debug.DebugLevels.SetOption | src/core/wee-config.c:1530-1539 | setting an option mirrors all levels |
| Debug.DebugLevels.ResetOption | src/core/wee-config.c:1530-1539 | resetting an option mirrors all levels |
| Debug.DebugLevels.DeleteOption | src/core/wee-config.c:1606-1622 | deleting an option mirrors all levels |
| Debug.DebugLevels.CommandSet | src/core/wee-command.c:1887-1917 | `/debug set`: level 0 removes the option, any other text sets it; a number from 0 to 32 is afterwards the level of that name, and of the core or the plugin of that name; all levels are mirrored |

## Left out

- File system effects of save and load (temporary file, rename, permissions, links): the file is a text.
- Allocation failures and `strdup` returning null.
- Colour options, and an unknown type in `config_file_new_option`.
- What the read, write and create callbacks of sections do: what a write callback writes is a parameter, the options
  of a section with a read callback are not touched by a reload. `SaveReload.CustomOk` says what such sections may put
  in the file.
- Delete callbacks are assumed to free their own option only.
- Hooks, charset conversion, translations, messages, hdata, infolists and logs.
- The lists of files and of sections are sequences, not linked lists; only the lists of options are.
- `string_match` and the searches of buffers by full and partial name are parameters.
- `/buffer +` and `/buffer -` without a number, and what closing the collected buffers does.
- Overflow of `long` in the sum of a value and a relative amount near the limits of `long` is undefined in C; the
  model adds without bound and then converts to `int`.
- The sections `buffer` and `current` of a layout, and the splitting of the option name in front of a layout line.
- `config_file_option_rename` runs no change callback, so renaming an option of the section "debug" is not among
  the operations of `Debug`.
- Reload.ReloadIdempotent: the condition is sufficient for every type. It is exact in `ReloadStable.ReloadIdempotentExact`;
  where several steps can be refused, the steps refused the second time are those at the value first reached.
- Layout.LinesDetermineTree: the condition on names is sufficient; `Layout.SameLinesExact` is exact for every pair of trees.
- SaveReload.SaveThenReload: its conditions are sufficient. An option that does not meet them can still be restored by
  chance, for instance when its line is lost and it had its default value; `SaveReload.AlwaysRestoredExact` says
  exactly when a text restores an option.
- Layout.LayoutRestored: asks for distinct identifiers, although some trees with equal identifiers are restored too.
- ConfigUnset.UnsetMask: the free callback and the mask are pure; a callback that frees other options is excluded.
- Completion callbacks, the definitions of the options, and help texts: data or display.
