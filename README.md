# pyseq sequence engine in Dafny

pyseq groups file names that differ only in one frame number into
*sequences*. It prints a sequence compactly, as `file.1-3.jpg` or
`file.%04d.jpg [1-3, 6]`, and it reads such a compressed string back into
the list of file names. This project models the engine behind that,
from `lib/pyseq/seq.py`, together with the natural-order sort keys of
`lib/pyseq/util.py`. Properties of the model are proved with Dafny.

The model has one module per concern:

| file | module | what it models |
|---|---|---|
| `outcomes.dfy` | `Outcomes` | `Option`, and `Result` with the Python exceptions the engine raises |
| `text.dfy` | `Text` | `str()` and `int()` of decimal numbers, fill to a width, `join` and `split`, `strip`, basename and dirname |
| `tokenizer.dfy` | `Tokenizer` | `Item.number_matches`, `Item.digits` and `Item.parts`: the `\d+` runs of a name and the text between them |
| `printf.dfy` | `Printf` | the part of `%` formatting the model covers: the zero flag, width, `%d`, `%s`, and applying a padding string such as `%04d` (the rest is listed under "Left out") |
| `sorting.dfy` | `Sorting` | a stable insertion sort under any total preorder; Python's lexicographic `str` order |
| `natural.dfy` | `NaturalSort` | `_natural_key`, `_ext_key` and `natural_sort` |
| `items.dfy` | `Items` | `diff`, `padsize`, and class `Item` with `is_sibling`, which updates both items in place |
| `ranges.dfy` | `Ranges` | `frames`, `start`, `end`, `_get_missing`, `_get_framerange` and `_get_padding` |
| `sequences.dfy` | `Sequences` | class `Sequence`: its constructor, `includes`, `contains`, `append`, `insert`, `extend` and `__setitem__` |
| `aggregation.dfy` | `Aggregation` | `get_sequences` on a list, and the grouping loop of `iget_sequences` |
| `formatting.dfy` | `Formatting` | `Sequence.format`: the directive scan, the attribute values, and rendering |
| `uncompress.dfy` | `Uncompress` | `uncompress`: the template as a regular expression, the captured groups, the synthesized names and the resulting `Sequence` |

Where the source updates state, the model does too:

- Class `Item` has mutable `frame`, `pad`, `head` and `tail` fields, changed by `IsSibling`.
- Class `Sequence` holds its members as a `seq` that its methods reassign.
- `get_sequences`, `iget_sequences`, `diff`, `_get_framerange`, `Sequence.format` and the parsing loops of `uncompress` are methods with loops. Each is proved equal to a specification function, and the properties are proved about those functions.

Two process-wide settings of the library are explicit parameters. They are
`strict` (the `strict_pad` switch, `lib/pyseq/seq.py:54`) and `join` (the
`range_join` separator, `lib/pyseq/seq.py:66`).

Where the code and its documentation disagree, the model follows the code:

- `padsize` parses as `(item.pad or len(frame)) if frame.startswith("0") else 0`.
- `_get_padding` catches `IndexError`, but `min([])` raises `ValueError`, so an empty sequence is a `ValueError`.
- `frames()` and `missing()` never use their cache, because the name-mangled attribute never satisfies `hasattr`. Both are recomputed from the members.

Where the code is evidently wrong (see "## Findings"), the operation is
modelled as written, and that is the version the classes and methods use:
`Items.Sibling` and `Item.IsSibling`, hence every `Sequence` method and both
aggregators; `Formatting.FormatAsWritten` and `FormatSequence`; and
`Uncompress.SynthesizeAsWritten` and the `Uncompress` method. Beside each
stands a corrected definition with the intended property proved about it:
`Items.SiblingCorrected`, `Formatting.Format` and `Uncompress.Synthesize`.
The invariant the classes keep is the one the code as written keeps:
`Items.Anchored` (a head that is a prefix of the name ending where the
frame's number begins, and a tail that is a suffix of the name), not the
full `head + frame + tail == name` decomposition, which the corrected update
keeps and the code loses when two sibling numbers differ in width.

## Model

| member | source | states |
|---|---|---|
| `Text.StrValue` | lib/pyseq/seq.py:330-338 | `int(str(n)) == n`: the decimal text of a number reads back as that number |
| `Text.ValueStr` | lib/pyseq/seq.py:330-338 | a digit text without a leading zero is `str()` of its own value |
| `Text.ZeroPadRoundTrip` | lib/pyseq/seq.py:1043-1050 | zero-filling `int(t)` to the width of `t` gives `t` back, so a frame rendered with its own pad keeps its digits |
| `Text.DigitsValueInjective` | lib/pyseq/seq.py:894-905 | two digit texts of equal width with equal values are equal texts |
| `Text.JoinSplit` | lib/pyseq/seq.py:990-994 | joining the pieces of `s.split(sep)` with `sep` gives `s` back |
| `Text.BasenameOfJoin` | lib/pyseq/seq.py:1040-1050 | the basename of `os.path.join(dir, name)` is `name` when `name` holds no '/' |
| `Tokenizer.RunsSpec` | lib/pyseq/seq.py:256-264 | `number_matches` lists exactly the maximal digit runs of the name, left to right, and covers every digit |
| `Tokenizer.PartsAndDigits` | lib/pyseq/seq.py:247-273 | `parts` has one more entry than `digits`, no entry of `parts` holds a digit, and interleaving the two rebuilds the name |
| `Tokenizer.OneNumber` | lib/pyseq/seq.py:247-273 | a name `head + digits + tail` with digit-free head and tail has one run at offset `len(head)`, and its parts are `[head, tail]` |
| `Tokenizer.RunsExample` | lib/pyseq/seq.py:876-878 | the runs of `file01_004?.rgb` are `01` at 4-6 and the four-digit frame at 7-11 |
| `Printf.ParseSpec` | lib/pyseq/seq.py:1004-1005 | the digits after `%` set the zero flag exactly when they start with '0' |
| `Printf.FormatInt` | lib/pyseq/seq.py:1043-1044 | `%0Nd` or `%Nd` of `n` is as long as the wider of `str(n)` and `N` |
| `Printf.ParseSpecOfWidth` | lib/pyseq/seq.py:1004-1005 | `0N` reads as zero fill with width `N`; `N` reads as space fill with width `N` |
| `Sorting.SortBy` | lib/pyseq/seq.py:1100 | the sorted list is a permutation of the input |
| `Sorting.SortBySorted` | lib/pyseq/seq.py:1100 | under a total preorder the result is ordered |
| `Sorting.StrLeTotalPreorder` | lib/pyseq/seq.py:1100 | Python's `str` comparison is a total preorder |
| `Sorting.SortStrings` | lib/pyseq/seq.py:1100 | `sorted(source, key=str)`: a permutation of the names, in `str` order |
| `NaturalSort.NaturalKeyShape` | lib/pyseq/util.py:55-61 | the key has `2·runs + 1` entries: words at even positions, numbers at odd ones |
| `NaturalSort.KindsAgree` | lib/pyseq/util.py:61 | two keys hold the same kind at every common position, so comparing them never mixes int and str |
| `NaturalSort.OneNumberKey` | lib/pyseq/util.py:61 | the key of `head + digits + tail` is `[lower(head), int(digits), lower(tail)]` |
| `NaturalSort.NumbersCompareByValue` | lib/pyseq/util.py:61 | with the same head and tail, a smaller number sorts strictly first (`2` before `10`) |
| `NaturalSort.NaturalLeTotalPreorder` | lib/pyseq/util.py:55-61 | key order is a total preorder on names |
| `NaturalSort.NaturalSorted` | lib/pyseq/util.py:87-95 | `natural_sort` returns a permutation of its input, ordered by `_natural_key` |
| `NaturalSort.SplitExt` | lib/pyseq/util.py:83 | `root + ext` is the path; `ext` is non-empty exactly when the file name holds a '.' after some other character, and then it is the suffix from the last '.', holding no other '.' and no '/', and `root` keeps at least one character of the file name |
| `NaturalSort.ExtensionFirst` | lib/pyseq/util.py:64-84 | a smaller extension sorts first whatever the stems are; with equal extensions the stems' natural keys decide |
| `NaturalSort.ExtLeTotalPreorder` | lib/pyseq/util.py:64-84 | `_ext_key` order is a total preorder |
| `NaturalSort.ExtSortedGroupsExtensions` | lib/pyseq/util.py:64-84 | in a list sorted by `_ext_key`, extensions never decrease |
| `NaturalSort.ExtSorted` | lib/pyseq/seq.py:1187 | `sorted(items, key=_ext_key)`: a permutation, ordered by the extension key |
| `Items.Diff` | lib/pyseq/seq.py:872-907 | the loop over paired number matches computes `DiffSpec` |
| `Items.DiffLocated` | lib/pyseq/seq.py:894-905 | every entry sits at the same offset in both names: the first name holds `first` at `start..end`, the second holds `second` at `start`, and the two differ; under strict padding they have equal width |
| `Items.DiffSymmetric` | lib/pyseq/seq.py:894-905 | `diff(b, a)` has the entries of `diff(a, b)` with the two numbers swapped |
| `Items.DiffSelf` | lib/pyseq/seq.py:894-905 | a name has no difference with itself |
| `Items.OneNumberDiff` | lib/pyseq/seq.py:894-905 | two names that differ only in one number give one entry for that number (none when equal, or of unequal width under strict padding), and their parts are equal |
| `Items.DiffExample` | lib/pyseq/seq.py:876-878 | `diff('file01_0040.rgb', 'file01_0041.rgb')` is one entry with start 7, end 11 and frames `0040`, `0041`, with or without strict padding |
| `Items.PadSizeExamples` | lib/pyseq/seq.py:85-86 | the number of `item.001.exr` has pad size 3 and that of `test.001001.exr` pad size 6, strict or not |
| `Items.PadSizeRenders` | lib/pyseq/seq.py:81-102 | for any digit frame and an unset item pad, zero-filling the frame's value to `padsize` gives the frame's own digits back, strict or not |
| `Items.Sibling` | lib/pyseq/seq.py:314-342 | `is_sibling` as written: siblings exactly when `diff` has one entry and the parts agree; otherwise nothing changes |
| `Items.SiblingAnchored` | lib/pyseq/seq.py:330-340 | on success the asking item is decomposed (`head + frame digits + tail == name`) and both items are anchored: the head is a prefix of the name ending where the frame's number begins, and the tail is a suffix of the name; siblinghood is symmetric |
| `Items.OneNumberSiblings` | lib/pyseq/seq.py:330-340 | names `h + d1 + t` and `h + d2 + t` are siblings exactly when not strict or equal width; then both get head `h`, their own frame and the same pad; the first gets tail `t`, the second its name cut `len(h + d1)` characters in: `t` for equal widths, and `t` led by the surplus digits of `d2` when `d1` is shorter |
| `Items.EqualWidthSiblingsDecompose` | lib/pyseq/seq.py:330-340 | when the two numbers have the same width, and so always under strict padding, both items come out decomposed |
| `Items.SiblingCorrected` | lib/pyseq/seq.py:336-340 | the corrected update, which cuts the other item's tail at the end of its own number: the same verdict as `is_sibling`, paths unchanged |
| `Items.SiblingDecomposes` | lib/pyseq/seq.py:330-340 | with the corrected update both items are decomposed, and siblinghood is symmetric |
| `Items.StrictSiblingsDiffer` | lib/pyseq/seq.py:894-905 | under strict padding, siblings get different frames |
| `Items.SiblingAgrees` | lib/pyseq/seq.py:330-340 | the code as written and the corrected version agree when the two numbers have the same width, hence always under strict padding |
| `Items.TailAsWrittenCounterexample` | lib/pyseq/seq.py:340 | as written, `file.10.jpg` claiming `file.9.jpg` (not strict) gives the latter tail `jpg`, and that item is not decomposed; the corrected cut gives `.jpg` |
| `Items.NineTenAsWritten` | lib/pyseq/seq.py:340 | as written, `file.9.jpg` claiming `file.10.jpg` (not strict) succeeds and gives the latter tail `0.jpg` |
| `Items.Item.constructor` | lib/pyseq/seq.py:110-130 | a new Item has no frame or pad, its whole name as head and an empty tail |
| `Items.Item.IsSibling` | lib/pyseq/seq.py:314-342 | updates both items as `Sibling` (as written) describes, the other item's tail cut where this item's number ends; on success this item is decomposed and both are anchored; on failure both are untouched |
| `Ranges.SortedFrames` | lib/pyseq/seq.py:584-589 | `frames()` is the sorted list of the members' frames that are set |
| `Ranges.StartEndBound` | lib/pyseq/seq.py:591-603 | every frame lies between `start()` and `end()`, and both are frames when there are any |
| `Ranges.MissingSpec` | lib/pyseq/seq.py:843-869 | a frame is reported missing exactly when there are frames, it lies between start and end, and it is not a frame |
| `Ranges.MissingListedAscending` | lib/pyseq/seq.py:860-865 | a span of at most 100000 gives the missing frames in increasing order |
| `Ranges.GapsCover` | lib/pyseq/seq.py:866-868 | the list of `range(f + 1, next)` covers exactly the absent numbers strictly between the first and the last frame |
| `Ranges.MissingAgrees` | lib/pyseq/seq.py:855-858 | the code as written and the corrected version differ only for a single frame |
| `Ranges.ExpandRuns` | lib/pyseq/seq.py:816-836 | expanding the runs the loop builds gives the frame list back, each run ascending |
| `Ranges.RunsMaximal` | lib/pyseq/seq.py:821-827 | no run starts at the previous run's end plus one: the runs are maximal |
| `Ranges.ImpliedRange` | lib/pyseq/seq.py:807-811 | `missing=False` gives "" exactly when there are no frames, and otherwise `str(first frame) + "-" + str(last frame)` |
| `Ranges.FrameListRange` | lib/pyseq/seq.py:813-837 | the loop over a frame list, with its `start`/`end` state, computes the bracketed run text |
| `Ranges.GapListRange` | lib/pyseq/seq.py:816-819 | the loop over a range list computes `a-b` entries plus a trailing empty entry, and `IndexError` for an empty range |
| `Ranges.FrameRange` | lib/pyseq/seq.py:796-837 | dispatches `_get_framerange(missing=True)` on frames or ranges and equals `FrameRangeSpec` |
| `Ranges.MinPad` | lib/pyseq/seq.py:786-787 | `min()` of the member pads: `ValueError` when empty, `TypeError` when a pad is `None` beside others; otherwise a member pad no larger than any other |
| `Ranges.PadSpecRenders` | lib/pyseq/seq.py:784-794 | the corrected padding string renders `n` as `str(n)` below 2, else zero-filled to the pad width |
| `Ranges.PaddingAgreesBelowTen` | lib/pyseq/seq.py:792 | for pads below 10 the string as written and the corrected one are the same |
| `Sequences.FramesOfMembers` | lib/pyseq/seq.py:839-841 | a number is a frame of the sequence exactly when some member has it as its frame |
| `Sequences.IncludesSpec` | lib/pyseq/seq.py:642-655 | `includes`, with `is_sibling` as written, never changes the member paths or the item's path, and changes nothing when it answers no |
| `Sequences.IncludesKeepsAnchored` | lib/pyseq/seq.py:642-655 | the members and the item stay anchored through `includes` |
| `Sequences.AppendSpec` | lib/pyseq/seq.py:682-700 | success appends exactly the path; rejection only under the membership check, with the `SequenceError` message and the list unchanged; success exactly when unchecked or included |
| `Sequences.InsertSpec` | lib/pyseq/seq.py:702-720 | success inserts the path at Python's clamped list position; rejection only under the membership check, with the list unchanged |
| `Sequences.ExtendAll` | lib/pyseq/seq.py:722-732 | a successful extend appends all the paths in order; unchecked, it always succeeds |
| `Sequences.ExtendStops` | lib/pyseq/seq.py:722-732 | a failed extend keeps the paths before the first rejected one and reports that one |
| `Sequences.SetItemSpec` | lib/pyseq/seq.py:422-438 | success exactly when included and the index is in range, and then only that position changes; `SequenceError` with the list unchanged when not included; `IndexError` for an index out of range |
| `Sequences.ListIndex` | lib/pyseq/seq.py:434 | Python's index rules: valid exactly for `-n <= i < n`, with negative indices counted from the end |
| `Sequences.InsertPosition` | lib/pyseq/seq.py:715-718 | `list.insert` clamps the position to `0..n` and counts negative indices from the end |
| `Sequences.BuildOneNumber` | lib/pyseq/seq.py:366-389 | the constructor keeps every name of a one-number series whose neighbours differ (and, strict, have equal width) |
| `Sequences.Sequence.constructor` | lib/pyseq/seq.py:366-389 | the members are the first item, then each later item that `append` accepts; every member is anchored |
| `Sequences.Sequence.Includes` | lib/pyseq/seq.py:624-655 | computes `IncludesSpec` on the members in place |
| `Sequences.Sequence.Contains` | lib/pyseq/seq.py:657-680 | `False` when empty or not included; otherwise `start() <= frame <= end()`, and `TypeError` when the item got no frame |
| `Sequences.Sequence.Append` | lib/pyseq/seq.py:682-700 | changes the members as `AppendSpec` says |
| `Sequences.Sequence.Insert` | lib/pyseq/seq.py:702-720 | changes the members as `InsertSpec` says |
| `Sequences.Sequence.Extend` | lib/pyseq/seq.py:722-732 | the loop of appends changes the members as `ExtendSpec` says |
| `Sequences.Sequence.SetItem` | lib/pyseq/seq.py:422-438 | changes the members as `SetItemSpec` says |
| `Sequences.NewSequence` | lib/pyseq/seq.py:375-376 | `Sequence([])` is an `IndexError`; otherwise a fresh and valid Sequence |
| `Aggregation.Takes` | lib/pyseq/seq.py:1115-1120 | one answer per sequence of the list, in order: the k-th says whether the k-th sequence includes the item |
| `Aggregation.NewestIncludes` | lib/pyseq/seq.py:1115-1120 | the chosen sequence is the most recent one that includes the item; no later one does, nor any at all when none is chosen |
| `Aggregation.GetSequencesExample` | lib/pyseq/seq.py:1087-1092 | `get_sequences(['fileA.1.rgb', 'fileA.2.rgb', 'fileB.1.rgb'])` gives two sequences, the first with the two fileA names and the second with fileB.1.rgb, strict or not |
| `Aggregation.GetSequencesPartition` | lib/pyseq/seq.py:1097-1126 | every input name lands in exactly one output sequence |
| `Aggregation.GetSequencesWellGrouped` | lib/pyseq/seq.py:1097-1126 | every sequence built is non-empty, its members are anchored, and all share the first member's parts |
| `Aggregation.GetSequences` | lib/pyseq/seq.py:1097-1126 | the loop over the sorted deque builds fresh, distinct, valid Sequences whose members are `GetSequencesSpec` |
| `Aggregation.ISequencesPartition` | lib/pyseq/seq.py:1187-1201 | the generator's sequences, concatenated, are the input in `_ext_key` order |
| `Aggregation.ISequencesWellGrouped` | lib/pyseq/seq.py:1187-1201 | every sequence it yields is well grouped |
| `Aggregation.ISequences` | lib/pyseq/seq.py:1187-1201 | the loop with a current sequence builds fresh, valid Sequences whose members are `ISequencesSpec` |
| `Formatting.MatchAt` | lib/pyseq/seq.py:63 | `format_re` at a '%': a match is exactly `%` + pad digits + a word, and there is none exactly when no word character follows |
| `Formatting.ScanRoundTrip` | lib/pyseq/seq.py:532-534 | the directive scan loses nothing: its pieces spell the template |
| `Formatting.Scan` | lib/pyseq/seq.py:532-534 | every directive has digit pads and a non-empty word name |
| `Formatting.CharType` | lib/pyseq/seq.py:514-529 | a type exists exactly for the one-letter directives of `format_char_types`, and it is `i` exactly for `s`, `e` and `l` |
| `Formatting.Attr` | lib/pyseq/seq.py:391-407 | `s`, `e` and `l` give ints, the string directives give strings, and any other letter is an error |
| `Formatting.AttrAsWrittenOneFrame` | lib/pyseq/seq.py:786-794 | for one member with frame 5 and pad 10, `%m` as written is `[5]` and `%p` is `%10d`; corrected, `[]` and `%010d` |
| `Formatting.FormatSequence` | lib/pyseq/seq.py:531-548 | the loop of `str.replace` rewrites, followed by `%`, computes `FormatAsWritten`, with `%m`, `%M` and `%p` from `_get_missing` and `_get_padding` as written |
| `Formatting.FormatDefault` | lib/pyseq/seq.py:410-411 | `str(seq)` is head + `start-end` + tail |
| `Formatting.FormatDefaultAsWritten` | lib/pyseq/seq.py:531-548 | for the default `%h%r%t`, the code as written and the piece-wise rendering agree |
| `Formatting.BadDirective` | lib/pyseq/seq.py:536-539 | an unknown directive name is `FormatError("Bad directive: %x")`, both as written and piece-wise |
| `Formatting.FormatStartZeroFilled` | lib/pyseq/seq.py:531-548 | `%0Ns` renders `start()` zero-filled to N places, for every N ≥ 1, both as written and piece-wise |
| `Formatting.FormatStartSpaceFilled` | lib/pyseq/seq.py:531-548 | `%Ns` renders `start()` space-filled to N places, for every N ≥ 1, both as written and piece-wise |
| `Formatting.StrWidthAsWritten` | lib/pyseq/seq.py:539-548 | as written, `%<pad>s` is rewritten to `%(s)<pad>i` and `%` renders `start()` with the flags and width of the pad digits |
| `Formatting.FormatPiecesConcat` | lib/pyseq/seq.py:531-548 | rendering two piece lists one after the other renders their concatenation |
| `Uncompress.MatchFromSound` | lib/pyseq/seq.py:970-971 | a match spells a prefix of the text, one piece per element: literals as written, and group texts that fit their class |
| `Uncompress.RangeListRoundTrip` | lib/pyseq/seq.py:986-1005 | parsing the `%R` text `_get_framerange` writes, for any non-empty frame list and a non-empty separator free of digits and '-', gives the frame list back |
| `Uncompress.RangeListStops` | lib/pyseq/seq.py:993-1001 | the first `%R` entry that `int()` refuses makes the whole parse a `ValueError` |
| `Uncompress.NamesStop` | lib/pyseq/seq.py:1043-1050 | the first frame the padding string cannot render stops the synthesis with that error |
| `Uncompress.ParseRangeList` | lib/pyseq/seq.py:986-1005 | the loop over `%R` entries, with `pad_len`, computes `RangeListSpec` |
| `Uncompress.RangeListWidest` | lib/pyseq/seq.py:988-1001 | `pad_len` is the width of the widest entry (the longer end of `a-b`, else the entry): no entry is wider and one is that wide; 0 for no entries |
| `Uncompress.PadFromWidest` | lib/pyseq/seq.py:982-1003 | without `%p` the padding is `"%0" + str(pad_len) + "d"`, `pad_len` the widest entry of the `%R` group, or `%d` when that width is 0 |
| `Uncompress.ZeroPaddedRangeRoundTrip` | lib/pyseq/seq.py:982-1003 | a zero-padded `[x-y]` with ends of one width reads back to `%0<width>d` and the span of the two values, and that padding writes both ends as they were |
| `Uncompress.RangeListExample` | lib/pyseq/seq.py:920-924 | from the groups of `a.%03d.tga [1-3, 10, 12-14]`, the `%R` list gives frames 1, 2, 3, 10, 12, 13, 14 and width 2, the given `%03d` is kept, and the seven names run from `a.001.tga` to `a.014.tga` |
| `Uncompress.StrictDropsWideFrame` | tests/test_pyseq.py:480-498 | `%03d` writes 10 as `010` and 100000 as `100000`; with strict padding those names are not siblings, so frame 100000 stays out of the sequence of 1..10, and without strict padding they are siblings |
| `Uncompress.NamesAll` | lib/pyseq/seq.py:1043-1050 | when the padding renders every frame, there is one path per frame, in order: the directory joined to head, rendered frame and tail |
| `Uncompress.PadFrames` | lib/pyseq/seq.py:981-1016 | the padding and frame branches (`%p`, `%R`, `%r`, `%s`/`%e`, `IndexError`) compute `PadAndFrames` |
| `Uncompress.SynthesizeNames` | lib/pyseq/seq.py:1043-1050 | the loop of `pad % i` names computes `NamesSpec` |
| `Uncompress.HeadRangeTailTemplate` | lib/pyseq/seq.py:946-970 | `%h%r%t` compiles to head group, `\d+-\d+` group, tail group, and no directive text is rewritten inside another |
| `Uncompress.HeadRangeTailRoundTrip` | lib/pyseq/seq.py:910-1050 | with the intended head (`Synthesize`), `head + str(a) + "-" + str(b) + tail` read with `%h%r%t` names `head + str(f) + tail` for each f from a to b |
| `Uncompress.FramedMember` | lib/pyseq/seq.py:1043-1050 | `head + str(f) + tail` is synthesized exactly when a ≤ f ≤ b |
| `Uncompress.FormatThenSynthesize` | lib/pyseq/seq.py:410-411 | the intended round trip: `str(seq)` read back with `%h%r%t` by `Synthesize` names every frame from `start()` to `end()` with the sequence's head and tail |
| `Uncompress.LettersNoShadows` | lib/pyseq/seq.py:965-970 | templates whose directives are single letters without pad, like those of the remap table, never have one directive's text rewritten inside another's |
| `Uncompress.ShadowedTemplate` | lib/pyseq/seq.py:965-970 | with `%r %rx`, replacing `%r` also rewrites inside `%rx`, the group `r` is defined twice, and `re.compile` fails: a `PatternError` for any name |
| `Uncompress.Uncompress` | lib/pyseq/seq.py:910-1055 | `uncompress` as written (`SynthesizeAsWritten`): an error from the synthesis is propagated; no match gives `None`; no sequences formed gives the empty list; otherwise the result is a fresh valid Sequence holding the first group `get_sequences` forms |
| `Uncompress.AsWrittenHeadRangeTail` | lib/pyseq/seq.py:949-971 | with the head as written, the `(\S+)?` group takes all but the last digit of the range's first number, so the frames start at that last digit |
| `Uncompress.AsWrittenOneDigitStart` | lib/pyseq/seq.py:949-1050 | as written, a range whose first number has one digit reads back whole: `head + str(f) + tail` for each f from a to b |
| `Uncompress.AsWrittenHeadTakesDigits` | lib/pyseq/seq.py:949-971 | as written, `file.10-20.jpg` with `%h%r%t` gives head `file.1` and frames 0..20, and so it names `file.120.jpg` |
| `Uncompress.CorrectedHeadKeepsDigits` | lib/pyseq/seq.py:949-971 | with a head that ends at a number boundary, the same input gives `file.10.jpg` … `file.20.jpg` and not `file.120.jpg` |

## Left out

- File-system access is not modelled: `Item.exists`, `size`, `mtime` and `stat`; `Sequence.size`, `mtime`, `human` and `path`; the `%d` and `%H` values; `reIndex`; and `walk`. The `%D` value, `directory()`, is modelled as the first member's dirname followed by '/', taking '/' as `os.sep`.
- The directory and glob sources of `get_sequences` and `iget_sequences` are left out. The model takes the explicit list of names.
- `iget_sequences` is a generator. It is modelled as the list of the sequences it yields.
- `natural_sort` is wrapped in `functools.lru_cache`, which needs a hashable argument. The model sorts any sequence and does not model the cache.
- Attribute forwarding (`__getattr__`), path-like inputs, `KeyboardInterrupt` handling, `__setslice__`, `__add__`/`__iadd__` and the comparison operators of `Item` are not modelled.
- The slice form of `Sequence.__setitem__` is not modelled. Only an integer index is.
- `Sequence.__contains__` has no `return`, so it always gives `None`. It is not modelled.
- Item objects shared between a caller and a Sequence are not modelled. A Sequence holds its members' attribute values, so an `Item` later changed through another reference does not change the Sequence.
- Python's regular-expression engine is not modelled in general. Each template directive is one element: a literal, or a group of its class from the remap table. Matching tries the longest fitting text for each group first, as the backtracking engine does, and is anchored at the start of the name only, like `re.match`.
- `Sequence.format` is modelled twice: as written (`FormatAsWritten`: `str.replace`, then `%`, with `_get_missing` and `_get_padding` as written) and as intended (`Format`: piece by piece, with the corrected missing frames and padding).
- `Formatting.Conversion`: the `%` step covers only `%%` and `%(key)` conversions with an optional `0` flag, a width, and the types `s`, `i`, `d` and `u`. Several cases where Python gives a text or a different error are returned as `Unsupported` instead:
  - a conversion without a mapping key, which Python renders from `str()` of the whole mapping;
  - a key naming an attribute the scan did not evaluate, which Python renders as the bound method, or rejects with `TypeError` for `i`;
  - the flags `-`, `+`, space and `#`, and a `*` width;
  - a precision;
  - the conversion types other than `s`, `i`, `d` and `u`.
- `Formatting.Format`: any `%` left in the literal text of the template is returned as `Unsupported`. Python would read it as a conversion of its own.
- `Uncompress.SynthesizeWith`: a directive text that is a proper prefix of a later one's is modelled (`Shadows`, a `PatternError`). A literal text of the template that holds a directive's text is not: `str.replace` would rewrite inside that literal too, and the model keeps the literal as it is.
- `re.escape` of the template is treated as the identity on the literal text, which is compared character for character.
- In `uncompress`, the `eval()` of `%f` and `%m` captures is not modelled. A template with either yields an `Unsupported` error, so the `missing` branch of the name loop is never reached.
- `\d`, `\s`, `\w`, `str.isdigit` and `str.lower` are ASCII here. Unicode digits, spaces and case folding are not modelled.
- `int()` accepts surrounding white space but not a sign or '_' separators, which Python also accepts.
- `os.path.basename` and `dirname` are modelled as the text after and before the last '/'. Trailing slashes and other separators are not modelled.
- `human` is left out because it uses floating point.
- `pyseq.py` and the command-line wrappers are not part of this model.
- `Sorting.SortBy`: `sorted()` is modelled as a stable insertion sort. Only its result (a permutation, ordered) is stated, not stability.
- The length-`0` `range` objects `_get_missing` can return are modelled as `Gap` records. `_get_framerange` over them gives `IndexError`, like `frame[0]` of an empty range.

## Findings

| source | as written | input that shows it | evidently intended | confidence | as-written member | corrected member |
|---|---|---|---|---|---|---|
| lib/pyseq/seq.py:855-858 | `_get_missing` returns `frames` itself when there is one frame | a sequence with the single frame 5: `missing()` gives `[5]` | nothing is missing from a one-frame sequence | not executed | `Ranges.MissingAsWrittenReportsPresentFrame` | `Ranges.MissingSpec` |
| lib/pyseq/seq.py:792 | `"%%%02dd" % pad` turns a pad of 10 or more into `%10d`, which fills with spaces | a minimum pad of 10: the padding string is `%10d`, and frame 7 prints as `         7` | `%010d`, zero-filled like every smaller pad | not executed | `Ranges.PadSpecAsWrittenDiffers` | `Ranges.PadSpecRenders` |
| lib/pyseq/seq.py:340 | `is_sibling` cuts the other item's tail at the end of this item's number | not strict, `file.10.jpg` and `file.9.jpg`: the second item gets tail `jpg`; the other way round, `file.9.jpg` claiming `file.10.jpg` gives it tail `0.jpg` | the tail after its own number, `.jpg` | not executed | `Items.TailAsWrittenCounterexample` | `Items.SiblingDecomposes` |
| lib/pyseq/seq.py:949-971 | the head group `(\S+)?` backtracks into the range's first number | `uncompress("file.10-20.jpg", "%h%r%t")`: head `file.1`, frames 0..20, names such as `file.120.jpg` | a head that ends before the number: `file.10.jpg` … `file.20.jpg` | not executed | `Uncompress.AsWrittenHeadTakesDigits` | `Uncompress.HeadRangeTailRoundTrip` |
| lib/pyseq/seq.py:539-548 | a later `str.replace` rewrites inside an earlier directive's `(h)s`, so the key or the conversion letter breaks | `format("%h %s")` becomes `%(h)(s)i %(s)i`, a `ValueError` | head, a space, then the start frame | not executed | `Formatting.FormatHeadStartAsWritten` | `Formatting.FormatHeadStart` |
| lib/pyseq/seq.py:539-548 | a repeated directive is rewritten inside its own replacement | `format("%h%h")` becomes `%((h)s)s%((h)s)s`, a `KeyError` | the head twice | not executed | `Formatting.FormatRepeatedAsWritten` | `Formatting.FormatRepeated` |
