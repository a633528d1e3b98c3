# AlarmManager, modelled in Dafny

`AlarmManager` keeps an ordered list of cron-like alarm patterns such as
`"0 9 1-5 * ?"` and answers one question: does any pattern fire at the current
time? Each pattern holds space-separated tokens for minute, hour, day, month,
weekday and an optional year.

The list lives in a small byte-addressed non-volatile store (EEPROM). It is
laid out as:
- a table delimiter;
- the records, separated by a record delimiter;
- a closing table delimiter.

Every byte goes through a write-if-changed helper, so a cell wears only when
its contents change.

The project models the core in six modules:

| file | module | what it holds |
|---|---|---|
| `fields.dfy` | `Fields` | the field enumeration and the table of field ranges; Arduino's `constrain`; the clock reading `Now`, with `valueFor` as a selector over it |
| `strings.dfy` | `Strings` | bytes and texts; `indexOf`; the stream read `readStringUntil`; `toInt` (C's `atol`); a reference `Split` |
| `matcher.dfy` | `Matcher` | `matchElement` as a function of token, field and current value, and the match rules proved about it |
| `schedule.dfy` | `Schedule` | the field loop of `check` for one alarm, as a function, and its meaning over the alarm's tokens |
| `codec.dfy` | `Codec` | the image `save` writes, `length`, the scan `load` performs, the round trip, and the effect of write-if-changed on the store and on each cell's wear |
| `alarms.dfy` | `Alarms` | the class `AlarmManager`: the store as an `array`, the list as a field, and `write`, `save`, `load`, `length`, `check`, `add`, `remove` and `clear` as methods with loops |

`matchElement` is pure code (recursion through comma lists and a step loop
that is bounded for a positive interval), so it is a family of functions. The list operations change the object
and the store step by step, so they are methods of a class. Each method is
proved against a specification function from `Codec` or `Schedule`, and the
lemmas state what the source promises about that function.

The store holds `Byte`s, the 8-bit characters an Arduino `char` holds. The
delimiters and `maxLength` come from a header that is not part of this model.
They are constructor arguments here:
- the two delimiters are distinct;
- `2 <= maxLength <= store.Length`.

A ghost sequence `wear` counts the physical writes of every cell.

The code is followed where it differs from classic cron semantics:
- `"?"` on a field other than day or weekday is not rejected. It falls through to the number rule, where it reads as 0 and is clamped (`Matcher.SpecialTokens`).
- A comma list is not read past its first empty part. A leading or doubled comma ends the scan (`Matcher.CommaRule`, `Matcher.LeadingComma`).
- The capacity test of `add` reserves one delimiter byte. The first record of an empty list needs no delimiter, so that byte is never used (`Codec.AddLength`).
- The clamped start of a step token is never used; stepping begins at 0 (`Matcher.StepRule`). A step token can therefore match 0 on a field whose range starts at 1: `0/5` matches day 0. And `*/2` on the month field fires in the even months.

One place departs from the code on purpose. A step token whose interval reads as 0 makes the source loop run without end unless the current value is 0 (see "## Findings"). A negative interval leaves the outcome to signed overflow. The model gives such a token no match (`Matcher.MalformedStep`), and the rest of the model uses that rule.

## Model

| member | source | states |
|---|---|---|
| Fields.Field.Ordinal | AlarmManager/AlarmManager.cpp:5-13 | each field's ordinal indexes its own row of the range table (below LAST, and mapping back to the same field) |
| Fields.Lo | AlarmManager/AlarmManager.cpp:70 | no field's range starts below 0, so a clamped value is never negative |
| Fields.Constrain | AlarmManager/AlarmManager.cpp:70 | `constrain` returns a value inside `[low, high]` |
| Fields.Clamp | AlarmManager/AlarmManager.cpp:83-84 | a value clamped into a field's range lies in that range and is unchanged when it already did |
| Fields.ClampNearest | AlarmManager/AlarmManager.cpp:83-84 | clamping picks the value of the range nearest to the input; below the range it is the minimum, above it the maximum |
| Fields.ValueFor | AlarmManager/AlarmManager.cpp:31-41 | seconds read -1; every other field reads a value inside its range when the clock does |
| Strings.IndexOf | AlarmManager/AlarmManager.cpp:66-67 | `indexOf` is -1 exactly when the character is absent, and otherwise the position of its first occurrence |
| Strings.ReadUntil | AlarmManager/AlarmManager.cpp:56-60 | a read returns the text before the first terminator and leaves the rest after it; with no terminator it takes everything |
| Strings.TakeNonEmpty | AlarmManager/AlarmManager.cpp:58 | the parts kept are a prefix, all non-empty, and stop exactly at the first empty part |
| Strings.SplitReadUntil | AlarmManager/AlarmManager.cpp:55-60 | successive stream reads yield the parts of the split one by one |
| Strings.ReadUntilUnique | AlarmManager/AlarmManager.cpp:67-68 | a read stops at the first separator whatever follows, and `indexOf` finds it there |
| Strings.ReadUntilEmpty | AlarmManager/AlarmManager.cpp:56-60 | a read from an empty stream, or one that starts with the terminator, yields the empty text that ends the comma loop |
| Strings.ToInt | AlarmManager/AlarmManager.cpp:67-68 | `toInt` reads a negative number only from a text that holds a minus sign |
| Strings.ToIntDecimal | AlarmManager/AlarmManager.cpp:91 | `toInt` reads the decimal rendering of n back as n |
| Strings.ToIntNoNumber | AlarmManager/AlarmManager.cpp:91 | a text that starts with neither space, sign nor digit reads as 0 |
| Matcher.MatchElement | AlarmManager/AlarmManager.cpp:43-92 | a non-empty token free of `*` and `?` matches only a current value between 0 and the field's maximum |
| Matcher.MatchList | AlarmManager/AlarmManager.cpp:54-64 | a comma list free of `*` and `?` matches only a current value between 0 and the field's maximum |
| Matcher.AnyPartMatches | AlarmManager/AlarmManager.cpp:55-63 | when the comma loop finds a matching part (none holding `*` or `?`), the current value lies between 0 and the field's maximum |
| Matcher.MatchNumber | AlarmManager/AlarmManager.cpp:66-91 | the step, range and number rules match only a current value between 0 and the field's maximum (0 itself through the step loop, which starts at 0) |
| Matcher.StepReaches | AlarmManager/AlarmManager.cpp:72-74 | the step loop with a positive interval only reaches values between its start and the field maximum |
| Matcher.StepLoop | AlarmManager/AlarmManager.cpp:72-74 | the loop as written, run for a bounded number of turns: it reports a match only for a current value up to the field maximum |
| Matcher.StepLoopHangs | AlarmManager/AlarmManager.cpp:72-74 | with an interval of 0 or less, a counter that starts at or below the maximum and below current never ends the loop, however many turns it runs |
| Matcher.StepLoopAgrees | AlarmManager/AlarmManager.cpp:72-74 | with a positive interval the loop as written ends within `hi - i + 1` turns, and its answer is the step rule's |
| Matcher.SpecialTokens | AlarmManager/AlarmManager.cpp:44-50 | the empty token matches only the year; `*` matches always; `?` matches day and weekday, and elsewhere only the clamped 0 |
| Matcher.AnyPartMatchesSplit | AlarmManager/AlarmManager.cpp:55-63 | the comma loop succeeds iff some part before the first empty one matches |
| Matcher.CommaRule | AlarmManager/AlarmManager.cpp:54-64 | a token with a comma matches iff one of its parts before the first empty part matches |
| Matcher.CommaPair | AlarmManager/AlarmManager.cpp:54-64 | `a,b` matches iff `a` or `b` matches |
| Matcher.LeadingComma | AlarmManager/AlarmManager.cpp:56-63 | a list that starts with a comma never matches |
| Matcher.StepReachesIff | AlarmManager/AlarmManager.cpp:72-74 | the step loop from i reaches current iff `i <= current <= hi` and n divides `current - i` |
| Matcher.StepNumber | AlarmManager/AlarmManager.cpp:66-77 | once the interval n > 0 is read, the step rule matches exactly the multiples of n from 0 up to the field maximum |
| Matcher.MalformedStep | AlarmManager/AlarmManager.cpp:66-77 | a step token matches only with an interval above 0: one whose interval reads as 0 or less matches nothing |
| Matcher.StepRule | AlarmManager/AlarmManager.cpp:66-77 | `a/n` with n > 0 matches iff current is a multiple of n in `0..max`, whatever the start a |
| Matcher.RangeRule | AlarmManager/AlarmManager.cpp:79-89 | `a-b` matches iff `clamp(a) <= current <= clamp(b)`; there is no wrap-around |
| Matcher.NegativeLiteral | AlarmManager/AlarmManager.cpp:79-89 | `-b` is read as the range from the clamped 0 to the clamped b |
| Matcher.LiteralRule | AlarmManager/AlarmManager.cpp:91 | a number matches iff its clamped value equals current |
| Matcher.MalformedLiteral | AlarmManager/AlarmManager.cpp:91 | a token that is no number is not rejected: it matches iff the clamped 0 equals current |
| Schedule.AlarmMatches | AlarmManager/AlarmManager.cpp:146-154 | an alarm with fewer than five tokens never fires, since the empty token matches only the year |
| Schedule.Tokens | AlarmManager/AlarmManager.cpp:146-149 | an alarm has six tokens: its space-separated parts, padded with empty tokens, and those past the sixth ignored |
| Schedule.ReadsFill | AlarmManager/AlarmManager.cpp:146-149 | reading the stream token by token yields the padded parts of the alarm |
| Schedule.AllFromEvery | AlarmManager/AlarmManager.cpp:148-152 | checking the tokens one after another is the same as every token matching its field |
| Schedule.AlarmTokens | AlarmManager/AlarmManager.cpp:148-154 | reading six tokens one by one from the alarm's stream and matching each against its field succeeds iff all six tokens match minute, hour, day, month, weekday and year |
| Schedule.MissingYearMatches | AlarmManager/AlarmManager.cpp:148-154 | an alarm of five tokens fires iff those five match: the missing year counts as a match |
| Codec.Join | AlarmManager/AlarmManager.cpp:130-138 | the records written one after another take their lengths plus one record delimiter between each two |
| Codec.Length | AlarmManager/AlarmManager.cpp:207-220 | `length()` counts the joined records plus the two table delimiters, whatever the record delimiter |
| Codec.Image | AlarmManager/AlarmManager.cpp:126-141 | the bytes `save` writes number exactly `length()` |
| Codec.EmptyImage | AlarmManager/AlarmManager.cpp:97-99 | the empty table is two table delimiters |
| Codec.ImageShape | AlarmManager/AlarmManager.cpp:126-141 | the image has a table delimiter at address 0 and at `length() - 1`, and the joined records between them |
| Codec.ImageStep | AlarmManager/AlarmManager.cpp:130-138 | `save` writes record i after a record delimiter (unless i is 0), and the closing delimiter is still to come |
| Codec.AddLength | AlarmManager/AlarmManager.cpp:161 | appending v adds the length of v plus one delimiter byte to a non-empty table, and only the length of v to an empty one |
| Codec.LengthRemove | AlarmManager/AlarmManager.cpp:188-190 | removing a record never makes the table longer |
| Codec.ScanTable | AlarmManager/AlarmManager.cpp:104-123 | the scan of the cells from i up to the capacity finds at most one record per cell, plus the one it was collecting |
| Codec.ScanRecord | AlarmManager/AlarmManager.cpp:116-119 | the bytes of a record free of delimiters are collected one by one |
| Codec.JoinLaid | AlarmManager/AlarmManager.cpp:130-140 | where `save` stored the joined records and the closing delimiter, each record lies in the store followed by its delimiter |
| Codec.ScanJoin | AlarmManager/AlarmManager.cpp:104-121 | scanning storable records laid out that way yields exactly those records, in order, and finds the end of the table |
| Codec.RoundTrip | AlarmManager/AlarmManager.cpp:94-141 | a store that begins with the image of storable records that fit has the table delimiter at 0, and the scan returns the same records in the same order |
| Codec.ScanTerminated | AlarmManager/AlarmManager.cpp:104-123 | the scan reports the end of the table iff a table delimiter lies in the cells it reads |
| Codec.ScanCost | AlarmManager/AlarmManager.cpp:104-121 | the records found, with one delimiter each, take no more bytes than the cells scanned |
| Codec.ScanFits | AlarmManager/AlarmManager.cpp:104-121 | the records `load` reads fit the capacity they were read from |
| Codec.ScanStorable | AlarmManager/AlarmManager.cpp:107-117 | every record `load` reads is non-empty and free of both delimiters |
| Codec.LoadedRecords | AlarmManager/AlarmManager.cpp:108-113 | appending what `load` reads keeps a list storable, and a list loaded from empty fits |
| Codec.EmptyRecordLost | AlarmManager/AlarmManager.cpp:107-113 | an empty record is written as a bare delimiter and does not come back |
| Codec.Overlay | AlarmManager/AlarmManager.cpp:126-141 | writing a prefix leaves the store its size, holds the bytes written at the front, and changes no cell past them |
| Codec.Worn | AlarmManager/AlarmManager.cpp:27-29 | each write-if-changed wears a cell by at most one, and cells past the written prefix not at all |
| Codec.SaveWear | AlarmManager/AlarmManager.cpp:126-141 | one `save` adds at most as many physical writes as the image has bytes, and takes none away |
| Codec.RewriteNoWear | AlarmManager/AlarmManager.cpp:27-29 | writing the same image twice changes nothing and wears no cell the second time |
| Alarms.RemoveNoDuplicates | AlarmManager/AlarmManager.cpp:188-190 | removing an entry keeps the list free of duplicates, and the value is gone |
| Alarms.AlarmFires | AlarmManager/AlarmManager.cpp:146-154 | the field loop, which breaks at the first mismatch, answers exactly whether the alarm fires |
| Alarms.AlarmManager.constructor | AlarmManager/AlarmManager.cpp:15-17 | a new manager has an empty list over the given store and constants |
| Alarms.AlarmManager.Write | AlarmManager/AlarmManager.cpp:27-29 | `write` stores the byte, and the cell wears only when its contents change |
| Alarms.AlarmManager.Put | AlarmManager/AlarmManager.cpp:133-140 | one `write(++index, b)` extends what `save` has written by b |
| Alarms.AlarmManager.WriteRecord | AlarmManager/AlarmManager.cpp:135-137 | the inner loop writes the bytes of one record after what was written |
| Alarms.AlarmManager.SaveRecord | AlarmManager/AlarmManager.cpp:130-138 | one turn of the record loop of `save` writes a record delimiter (unless it is the first record) and the record, extending the written image by exactly that |
| Alarms.AlarmManager.Save | AlarmManager/AlarmManager.cpp:126-141 | the store becomes the image over its old contents, and exactly the cells whose byte changed wear by one |
| Alarms.AlarmManager.Load | AlarmManager/AlarmManager.cpp:94-124 | without a table delimiter at 0 the store gets an empty table and true; otherwise the scanned records are appended and the result says whether the table was closed |
| Alarms.AlarmManager.Format | AlarmManager/AlarmManager.cpp:97-100 | a table delimiter is written at addresses 0 and 1 |
| Alarms.AlarmManager.ReadRecords | AlarmManager/AlarmManager.cpp:103-123 | the loop appends the scanned records and returns whether the table delimiter was met |
| Alarms.AlarmManager.TableLength | AlarmManager/AlarmManager.cpp:207-220 | `length()` is the size of the image `save` writes |
| Alarms.AlarmManager.Check | AlarmManager/AlarmManager.cpp:143-158 | true iff some alarm in the list fires at `now` |
| Alarms.AlarmManager.Add | AlarmManager/AlarmManager.cpp:160-173 | it succeeds iff the value is new and `length()` plus the length of the value plus one is at most `maxLength`; on success the value is appended, the list fits and is saved; otherwise nothing changes; no duplicates are introduced |
| Alarms.AlarmManager.Remove | AlarmManager/AlarmManager.cpp:175-196 | it succeeds iff the value is in the list; on success its first occurrence is deleted and the list is saved; otherwise nothing changes |
| Alarms.AlarmManager.Clear | AlarmManager/AlarmManager.cpp:198-205 | it succeeds iff the list was not empty; on success the list is empty and saved; otherwise nothing changes |

## Findings

| source | as written | input that shows it | evidently intended | confidence | as-written member | corrected member |
|---|---|---|---|---|---|---|
| AlarmManager/AlarmManager.cpp:72-74 | the step loop adds the interval read from the token without checking it; with interval 0 the counter stays at 0 and the loop never ends unless current is 0 | the token `*/0` (or `*/`, or `*/x`, which read as 0), e.g. in the alarm `"*/0 * * * *"` checked at minute 5 | a malformed interval gives no match and `check` goes on | not executed | Matcher.StepLoopHangs | Matcher.MalformedStep |

## Left out

- `printTo` is not modelled: it only formats text through Arduino's `Print`.
- The clock (`Time.minute()` and the rest) is a `Now` value passed to `check`.
- The EEPROM hardware is a fixed `array` of bytes: reads are array reads, and physical writes are counted in a ghost `wear` sequence.
- `LinkedList` is a sequence field and `StringStream` is the text the stream still holds. The library code behind them is not modelled.
- The destructor and the heap management of the constructor are not modelled.
- `AlarmManager.h`, which defines the delimiters, `maxLength` and the field enumeration, is not part of this model. Its values are constructor arguments and the ordinals `SECOND = 0 … YEAR = 6`, `LAST = 7`.
- Matcher.MatchNumber: a step token whose interval reads as 0 or less is given no match, which is not what the source does (see "## Findings"). With interval 0 the source loop returns true at once when current is 0 and otherwise never ends. With a negative interval the counter falls until it overflows, which is undefined behaviour in C++. Under two's-complement wrap-around the outcome depends on the interval. Whatever the interval, the first turn tests the counter 0, so current 0 returns true at once. Otherwise, for a small magnitude, the counter wraps to a large positive value and the loop ends. An interval of -2147483648 alternates between 0 and -2147483648 forever when current is not 0. An interval of -2147483647 wraps back to 2, 4, … and so matches even values.
- Matcher.StepLoop: counts with unbounded integers, so it does not model the 32-bit wrap-around above; for a negative interval and a current value above 0 it never ends (`Matcher.StepLoopHangs`); with current 0 it returns true at once, like the source.
- The clock is read once per `check`, as one `Now` value. The source calls `valueFor` anew in every `matchElement` call (AlarmManager/AlarmManager.cpp:52), including each recursive call for a comma part. A `check` that runs across a minute or hour boundary can compare its fields at different instants; the model does not capture that. `StringStream.h` is not part of this model. If its `readStringUntil` is the Arduino `Stream` one, it may wait for the stream timeout (one second by default) each time it reaches the end of the text. That happens on the sixth read of a five-token alarm and on the last read of every comma list. Such waits would make a boundary crossing within one `check` much more likely.
- Strings.ToInt: does not model the 32-bit overflow of `atol` for very long digit strings.
- Strings.ToInt: does not model a NUL byte ending the text early.
- Alarms.AlarmManager.Save: requires that the list fits `maxLength`. The store is an array of that capacity or more, whereas the source would write past `maxLength` into whatever cells follow.
- Alarms.AlarmManager.Remove: requires that the list fits, because it calls `save`. `add` keeps this property, and `load` establishes it on the empty list it starts from.
- Alarms.AlarmManager.Add: does not check that a value is non-empty and free of delimiters, and neither does the source. `Codec.EmptyRecordLost` shows what happens to an empty value on reload.
