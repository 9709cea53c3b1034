# Caption clean-up passes of the subtitle converter

This project is a Dafny model of the caption clean-up in `utoolkit/subtitles.py`. The converter runs these passes over a subtitle file's events after it loads a WebVTT file and before it saves the file as SSA:

- **`fix_weird_chars`** un-escapes `&amp;` to `&` in every event's text, in place.
- **`RegularText`** normalises a caption:
  - it replaces the cue markers `<c>` and `</c>` and timestamp tags `<dd:dd:dd.ddd>` by a space;
  - it collapses runs of U+0020 into one;
  - its *tight form* (`noamp`) drops all whitespace.

  Its fuzzy equality compares tight forms exactly when either is shorter than 5 characters; otherwise one must be a prefix of the other.
- **`merge_duplicates`** walks the events in order and groups runs of consecutive fuzzy-equal captions into *pools*. When the next event closes a pool, the pool's first shortest member becomes its representative. It takes that member's normalised text and the pool's time span. When the last pooled text holds a newline, there is a timing correction: both the arriving event's start and the representative's end become the last member's start. The trailing pool contributes its first event unchanged.
- **`remove_short_events`** keeps, in order, the events lasting at least a threshold.

The model has four modules:

- `Events` (`events.dfy`):
  - an `Event` class whose `start`, `end` and `text` fields are updated in place;
  - the `SubtitleFile` class holding the event list;
  - `Snapshot`, the field values of a list of events;
  - `Pick`, the selection of events at given positions.
- `Text` (`text.dfy`): the three regular-expression substitutions, written as left-to-right scans. Each scan is proved against a reference definition or an invariant.
- `RegularTexts` (`regular.dfy`): `Normalize` (the constructor) and `FuzzyEq` (`__eq__`).
- `Subtitles` (`subtitles.dfy`):
  - the three passes, each an imperative method over the file's event objects;
  - the pure functions they are proved against: `UnescapeAll`, `KeptIndices` and `MergeSpec`;
  - lemmas stating what those functions promise.

`MergeSpec` describes the merge pool by pool:

- `PoolEnd` finds where a pool ends.
- `Shortest` is the minimum search with its sentinel.
- `Flush` gives the field values after one interior pool is closed. It is stated in closed form. `FlushWrites` replays the source's writes one after another, and `FlushWritesIsFlush` proves the two agree.
- An `Aborted` result stands for the failing assertion at line 74.

The methods keep object identity. Pool members are the very event objects of the file. The flush writes through them, and the representatives placed in the new list are those objects (`Pick`).

Normalisation is not idempotent. The text `<00:00:00  000>`, with two spaces, holds no tag. Collapsing its spaces forms the timestamp tag `<00:00:00 000>`, and a second normalisation turns that into a single space (`RegularTexts.NormalizeNotIdempotent`).

## Model

| member | source | states |
|---|---|---|
| Events.Event.constructor | utoolkit/subtitles.py:19-22 | an event is created with the given start, end and text, the three fields every pass reads and writes in place |
| Events.SubtitleFile.constructor | utoolkit/subtitles.py:25-31 | a file holds its event list, each event object occurring once |
| Text.Unescape | utoolkit/subtitles.py:21 | the single left-to-right replacement of `&amp;` by `&` never lengthens the text |
| Text.SubTags | utoolkit/subtitles.py:40 | the tag substitution, one space per non-overlapping left-to-right match, never lengthens the text |
| Text.CollapseSpaces | utoolkit/subtitles.py:41 | the collapse of each U+0020 run into one never lengthens the text |
| Text.RemoveWhitespace | utoolkit/subtitles.py:42 | removing the `\s` characters never lengthens the text |
| RegularTexts.Normalize | utoolkit/subtitles.py:39-43 | the constructed text, tight form and `len` agree: `len` is the tight form's length |
| RegularTexts.FuzzyEq | utoolkit/subtitles.py:45-52 | equal tight forms are equal texts; equal texts have tight forms one of which is a prefix of the other, and identical tight forms when either is shorter than 5 |
| Subtitles.UnescapeAll | utoolkit/subtitles.py:19-22 | un-escaping the events' values keeps their number |
| Subtitles.KeptIndices | utoolkit/subtitles.py:26-29 | the filter keeps at most as many positions as there are events |
| Subtitles.Shortest | utoolkit/subtitles.py:70-73 | the search's length never exceeds the sentinel 100000000, and below it the position lies inside the pool |
| Subtitles.PoolEndFrom | utoolkit/subtitles.py:61-69 | the first position from `i` on that breaks the match with its predecessor lies between `i` and the end of the list |
| Subtitles.PoolEnd | utoolkit/subtitles.py:61-69 | every pool holds at least its first event and ends within the list |
| Subtitles.Flushed | utoolkit/subtitles.py:75-81 | after a flush, events other than the representative and the arriving one are unchanged; the representative has the pool's first start and the given text; the arriving event keeps its end and text |
| Subtitles.Flush | utoolkit/subtitles.py:75-81 | the flush keeps the number of events |
| Subtitles.FlushWrites | utoolkit/subtitles.py:75-81 | the source's writes in order keep the number of events |
| Subtitles.MergeFrom | utoolkit/subtitles.py:59-86 | the merge from a pool on keeps the number of event values |
| Subtitles.MergePool | utoolkit/subtitles.py:61-86 | handling one pool and the rest keeps the number of event values |
| Subtitles.MergeSpec | utoolkit/subtitles.py:55-88 | the whole merge keeps the number of event values, and an empty list merges to an empty output |
| Text.UnescapeWithoutAmp | utoolkit/subtitles.py:21 | a text with no occurrence of `&amp;` is left unchanged by the replacement |
| Text.UnescapeEscape | utoolkit/subtitles.py:21 | the replacement inverts HTML escaping of `&`: un-escaping an escaped text gives the text back |
| Text.UnescapeSinglePass | utoolkit/subtitles.py:21 | the replacement is a single non-overlapping left-to-right pass: `&amp;amp;` becomes `&amp;`, not `&` |
| Subtitles.UnescapeAllKeepsEvents | utoolkit/subtitles.py:19-22 | un-escaping every event keeps their number, order, start and end, and leaves an event whose text has no `&amp;` as it was |
| Subtitles.FixWeirdChars | utoolkit/subtitles.py:19-22 | after the pass every event object holds its own text un-escaped, with unchanged times; the list itself is not replaced |
| Subtitles.KeptIndicesExact | utoolkit/subtitles.py:26-29 | the kept positions are strictly increasing, in range, and a position is kept if and only if its event lasts at least `duration` |
| Subtitles.KeptIndicesLength | utoolkit/subtitles.py:26-29 | filtering never adds events, and keeps all of them exactly when none is shorter than `duration` |
| Subtitles.RemoveShortEvents | utoolkit/subtitles.py:25-31 | the file's new list is the original event objects at the kept positions, in order; no event object is written (only the file is in the frame) |
| Text.SubTagsRemovesCueTags | utoolkit/subtitles.py:40 | after the tag substitution no `<c>` or `</c>` remains anywhere in the text |
| Text.CollapseIsSquash | utoolkit/subtitles.py:41 | the run-collapsing scan equals the reference definition that drops every U+0020 followed by another |
| Text.SquashNoDoubleSpace | utoolkit/subtitles.py:41 | the collapsed text never holds two U+0020 in a row |
| Text.SquashFixedPoint | utoolkit/subtitles.py:41 | collapsing leaves a text unchanged if and only if it has no two U+0020 in a row |
| Text.SquashKeepsCueFree | utoolkit/subtitles.py:40-41 | collapsing spaces cannot create a `<c>` or `</c>` in a text that had none |
| Text.RemoveWhitespaceClean | utoolkit/subtitles.py:42 | the tight form holds no whitespace character |
| Text.SubTagsWithoutAngle | utoolkit/subtitles.py:40 | a text without `<` is unchanged by the tag substitution |
| RegularTexts.NormalizeClean | utoolkit/subtitles.py:39-43 | the normalised text has no double space and no cue marker; the tight form has no whitespace and equals the tag-substituted input without whitespace; its length is `len` |
| RegularTexts.NoSpecialChars | utoolkit/subtitles.py:39-43 | a text with no `<` and no whitespace is its own tight form |
| RegularTexts.NormalizeNotIdempotent | utoolkit/subtitles.py:39-43 | normalising the normalised text of `<00:00:00  000>` changes it again (to a single space) |
| RegularTexts.FuzzyEqMeaning | utoolkit/subtitles.py:45-52 | for constructed texts, equality is exact tight equality when either length is below 5, and otherwise that either tight form is a prefix of the other |
| RegularTexts.FuzzyEqSameLength | utoolkit/subtitles.py:49-52 | on tight forms of equal length the prefix test is plain equality |
| RegularTexts.FuzzyEqReflexive | utoolkit/subtitles.py:45-52 | every text equals itself |
| RegularTexts.FuzzyEqSymmetric | utoolkit/subtitles.py:45-52 | for constructed texts the relation is symmetric |
| RegularTexts.FuzzyEqNotTransitive | utoolkit/subtitles.py:45-52 | the relation is not transitive: two different one-character extensions of a long caption both equal it but not each other |
| Subtitles.ShortestIs | utoolkit/subtitles.py:70-74 | the search returns the first position of minimal tight length when some length is below 100000000, and otherwise reports the sentinel with position 0 |
| Subtitles.FindShortest | utoolkit/subtitles.py:70-73 | the scanning loop computes exactly that search result |
| Subtitles.PoolEndChained | utoolkit/subtitles.py:61-69 | within a pool every event fuzzy-equals the one before it, and the event after the pool does not |
| Subtitles.PoolEndIs | utoolkit/subtitles.py:61-69 | conversely, any matching run ended by a mismatch or by the end of the list is exactly the pool |
| Subtitles.FlushWritesIsFlush | utoolkit/subtitles.py:75-81 | the source's writes, made one after another, leave the closed-form flush: the representative gets its normalised text, the first member's start and the last member's end; on a newline the arriving event's start and the representative's end become the last member's start as it reads after the start write; nothing else changes |
| Subtitles.MergeAbort | utoolkit/subtitles.py:70-74 | a pool whose search finds no length below the sentinel aborts the whole merge with the values at that moment |
| Subtitles.MergeFlush | utoolkit/subtitles.py:70-84 | for a maximal matching run closed by a mismatch, and its first member of minimal tight length below 100000000, the merge emits that member, applies the flush onto it and goes on from the event that closed the run |
| Subtitles.MergeLast | utoolkit/subtitles.py:85-86 | the trailing pool emits its first event and rewrites nothing |
| Subtitles.PoolCountBound | utoolkit/subtitles.py:59-69 | every pool holds at least one event: there are at most as many pools as events, and none exactly when there are no events |
| Subtitles.MergeCount | utoolkit/subtitles.py:82-86 | a completed merge emits one representative per pool, after those already emitted |
| Subtitles.MergeOrdered | utoolkit/subtitles.py:82-86 | the emitted positions are strictly increasing and in range |
| Subtitles.MergeCompletes | utoolkit/subtitles.py:70-74 | when every tight length is below 100000000 the merge never aborts |
| Subtitles.MergeShrinks | utoolkit/subtitles.py:55-88 | empty input gives empty output; a completed merge emits exactly one event per pool, never more events than the input and at least one for a non-empty input, in input order |
| Subtitles.MergeDuplicates | utoolkit/subtitles.py:55-88 | `ok` says whether the merge completes; the event objects end with the merge's field values; on success the file's list is the representatives' objects in order, on abort it is unchanged |
| Subtitles.MergeEvents | utoolkit/subtitles.py:56-86 | the loop over the events reaches the merge's result: its field values, its abort flag and the representatives as distinct objects |
| Subtitles.MergeStep | utoolkit/subtitles.py:59-84 | one turn of the loop either extends the open pool or closes it and starts a new one, and keeps the merge heading to the same result; it stops only when the merge aborts |
| Subtitles.ReadEvent | utoolkit/subtitles.py:60-65 | reading event `i` yields its object and the normalisation of its current text |
| Subtitles.ClosePool | utoolkit/subtitles.py:70-84 | closing a pool appends the representative's object to the output, applies the flush to the event values, and starts the next pool at the arriving event |
| Subtitles.FlushPool | utoolkit/subtitles.py:75-81 | the writes on the pool's objects change the event values exactly as the closed-form flush says and return the representative's object |

## Left out

- `VTTConvertor` (utoolkit/subtitles.py:91-123) is left out. It covers file-system checks, loading and saving through pysubs2, exception translation, and the pipeline that runs the passes in turn. All of this is I/O and foreign library code.
- pysubs2's `plaintext` accessor and `duration` property are left out because they are library code. The model treats `plaintext` as the event's `text` field, without the `\N`/`\n` conversion or override-tag stripping, and treats `duration` as `end - start`.
- `utoolkit/cover.py` is left out: image loading and resizing, with floating-point ratios. `utoolkit/log.py` is left out: logging set-up and colours. `utoolkit/script.py`, `cosmotoolkit/script.py` and `setup.py` are left out: command-line wiring and packaging.
- Regular-expression classes: `\d` is modelled as the ASCII digits, not every Unicode decimal digit. `\s` is modelled as the characters Python's `str.isspace` accepts.
- Event aliasing across list entries is not modelled. The passes require every event object to occur once in the list (`SubtitleFile.Valid`). An event list loaded from a file has this property; with a repeated object the source would apply the same write twice.
- The failing `assert` at line 74 is modelled as the result `ok == false` (or `Aborted`), not as a raised exception. The event objects keep the writes made before the failure, and the file's list is not replaced.
- `Subtitles.MergeEvents`, `Subtitles.MergeStep`, `Subtitles.ReadEvent`, `Subtitles.ClosePool` and `Subtitles.FlushPool` together make up the single loop of lines 59-84. They are split into methods so that each proof stays small.
- Each pass returns the same file object it was given. The model's methods change the file they are given instead. `Subtitles.MergeDuplicates` also returns `ok`, the abort flag described above; the other passes return nothing.
