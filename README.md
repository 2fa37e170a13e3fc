# FIX tag=value decoder — a Dafny model

This project models the decoder at the heart of `FIX_Benchmark`. A FIX
message in tag=value encoding is a string of `tag=value` fields, each ended
by the SOH character (0x01). The decoder splits the message into a top-level
field map plus an ordered list of repeating-group maps. Every tag 83
(RptSeq) opens a new group. Tag 10 (CheckSum) always stays at the top level.
Any other field goes to the most recently opened group, or to the top level
while no group is open. A typed accessor layer reads strings, Int32 and
Int64 integers and FIX booleans (`Y`/`N`) from one container.

The repository holds two variants of the decoder, and both are modelled:

- `FixDictionary.cs` (module `FixDictionary`).
  - `FixDictionaryBase.Parse` is an imperative loop over a class whose
    `dict` field is updated in place.
  - It is proved against `Run`, a pure fold over the SOH-terminated
    segments. `Run` is in turn proved equal to `Build`, the left fold of
    `Route` over the fields (module `FixMessage`). `BuildFollowsOwnership`
    proves that fold equal to an independent positional rule, `Owner` and
    `LastWrite`: each container holds the last value written to it, with
    ownership decided by position.
  - `Convert.ToInt32(null)` is 0, so `GetInt` and `GetLong` read an absent
    tag as 0.
- `FixDictionary_3.cs` (module `FixDictionary3`).
  - `FixDictionaryBase_3.Parse` is the same scan with `currentGroup != null`
    routing. It is described one loop pass at a time by `Step`.
  - A segment without `=` reaches `continue` before anything is consumed.
    That pass leaves the loop state unchanged, so the loop runs forever.
    The model reports this as the outcome `Spins`, and the method returns
    `Hangs`.
  - `VariantsCompared` proves that this is the only difference between the
    two decoders.
  - The accessors use `TryParse`: an absent tag or bad text makes `GetInt`
    throw `InvalidCastException`, and makes `GetNullableInt` return null.
  - `FixDictionary_3` itself derives from `FixDictionaryBase`, so its
    constructor runs the first decoder and uses the first family of
    accessors. `FixDictionary3.Create` models exactly that.

Shared pieces:

- `FixMessage` holds the constants, segmentation, field splitting, routing,
  the reference semantics and an encoder used for round trips.
- `DotNet` holds stand-ins for the .NET calls:
  - `IndexOf`;
  - integer parsing as an optional sign plus decimal digits, range-checked
    against Int32 or Int64;
  - the exception kinds.

Exceptions are modelled as `Result`/`Option` values. C# inheritance is
modelled by composition: a `root` container field. A constructor that can
throw becomes a static `Create` returning a `Result`.

Three behaviours of the code are worth stating plainly, because a reader
might expect otherwise:

- `GetInt` and `GetLong` in `FixDictionary.cs` read an absent tag as 0:
  `Convert.ToInt32(null)` is 0. The same accessors in `FixDictionary_3.cs`
  throw `InvalidCastException` there (`FixDictionary.GetInt`,
  `FixDictionary3.AbsentTagCompared`).
- `int.Parse` accepts a leading sign, so a tag may be negative (`-5=x`
  decodes to tag -5).
- The constructors turn a null text into an empty span (the implicit
  conversion in `FixDictionary.cs`, `AsSpan()` in `FixDictionary_3.cs`), so
  `new FixDictionary(null)` succeeds with no fields and `GetFixString`
  returns null. `Create` takes the text as an `Option` for this reason.

## Model

| member | source | states |
|---|---|---|
| DotNet.IndexOf | FIX_Benchmark/FixDictionary.cs:78 | the result is the first position of the character, or -1 exactly when it does not occur |
| DotNet.ParseInteger | FIX_Benchmark/FixDictionary.cs:90 | the text is rejected as badly formed exactly when it is not sign-plus-digits; it parses exactly when its value lies in the width's range, and then to that value; otherwise it is out of range |
| DotNet.ParseInt32 | FIX_Benchmark/FixDictionary.cs:90 | `int.Parse` on sign-plus-digits text gives its value when it fits Int32, overflows when it does not, and rejects any other text as badly formed |
| DotNet.ParseInt64 | FIX_Benchmark/FixDictionary.cs:22 | as `ParseInt32`, in the Int64 width (`long.Parse`) |
| DotNet.ParseOrThrow | FIX_Benchmark/FixDictionary.cs:90 | the call returns exactly when the text parses, and then returns the parsed number; it throws `FormatException` on bad text and `OverflowException` out of range |
| DotNet.ParseFormatInt | FIX_Benchmark/FixDictionary.cs:90 | parsing the canonical text of n gives n back when n fits the width, and overflows otherwise |
| FixMessage.GetTag | FIX_Benchmark/FixDictionary.cs:55 | `GetValueOrDefault`: null exactly when the tag is absent, else the stored text |
| FixMessage.Segments | FIX_Benchmark/FixDictionary.cs:78-113 | the pieces cut out by the SOH scan contain no SOH |
| FixMessage.SegmentsCoverInput | FIX_Benchmark/FixDictionary.cs:78-113 | the input is exactly its SOH-terminated segments followed by SOH-free trailing text |
| FixMessage.SegmentsOfTerminated | FIX_Benchmark/FixDictionary.cs:78-113 | re-splitting terminated segments followed by SOH-free text gives back the segments and the text |
| FixMessage.SplitField | FIX_Benchmark/FixDictionary.cs:84-93 | a segment fails with `ArgumentOutOfRange` exactly when it has no `=`; otherwise the tag is `int.Parse` of the text before the first `=` (failing with its `Format`/`Overflow`), and the value is all the text after that `=` |
| FixMessage.SplitFormatField | FIX_Benchmark/FixDictionary.cs:87-93 | splitting at the first `=` inverts formatting, even when the value contains `=` |
| FixMessage.ParseFields | FIX_Benchmark/FixDictionary.cs:87-90 | when every segment splits, the field list has one field per segment, in order |
| FixMessage.FirstFailure | FIX_Benchmark/FixDictionary.cs:87-90 | names a segment that fails to split, with every earlier segment splitting |
| FixMessage.ParseFieldsFailsAtFirstFailure | FIX_Benchmark/FixDictionary.cs:87-90 | splitting fails exactly when some segment fails, and with the first failing segment's exception |
| FixMessage.Route | FIX_Benchmark/FixDictionary.cs:96-109 | tag 83 adds exactly one empty group, other tags none; the checksum, and any field while no group exists, is written to the top level with the groups unchanged; any other field is written to the last group, leaving the top level and the earlier groups unchanged |
| FixMessage.ReplayAppend | FIX_Benchmark/FixDictionary.cs:81-114 | routing fields one by one is a left fold: one more field is one more routing step |
| FixMessage.BuildFollowsOwnership | FIX_Benchmark/FixDictionary.cs:96-109 | the routing rule agrees with the positional rule: one group per tag 83, and every container holds, for every tag, the last value written to it (last write wins) |
| FixMessage.ChecksumWrites | FIX_Benchmark/FixDictionary.cs:107-109 | the last tag-10 write of the top level is the last tag-10 field; no group receives tag 10 |
| FixMessage.ChecksumStaysTopLevel | FIX_Benchmark/FixDictionary.cs:107-109 | no group container ever holds tag 10; the top level holds the last tag-10 value |
| FixMessage.TriggerWrites | FIX_Benchmark/FixDictionary.cs:96-101 | the k-th tag-83 field is the last tag-83 write to group k |
| FixMessage.GroupsFollowTriggers | FIX_Benchmark/FixDictionary.cs:96-101 | there is one group per tag 83, in input order, and each group holds the value of the tag 83 that opened it |
| FixMessage.ParseFormattedFields | FIX_Benchmark/FixDictionary.cs:87-93 | splitting the formatted fields gives the fields back |
| FixMessage.SegmentsOfEncode | FIX_Benchmark/FixDictionary.cs:78-113 | the segments of an encoded list, followed by any SOH-free text, are the formatted fields, and they split back into the list |
| FixMessage.YesNo | FIX_Benchmark/FixDictionary.cs:34-39 | the `switch`: true exactly for `Y`, false exactly for `N`; null or any other text throws `InvalidCastException` |
| FixMessage.YesNoInvertsFormat | FIX_Benchmark/FixDictionary.cs:34-39 | the boolean switch inverts the FIX boolean format and throws `InvalidCastException` on any other text |
| FixMessage.FirstDelimiter | FIX_Benchmark/FixDictionary.cs:78 | the first SOH after an SOH-free segment is the one that ends it |
| FixDictionary.RunIsReplay | FIX_Benchmark/FixDictionary.cs:81-114 | `Run`, the loop as a fold, succeeds exactly when every segment splits, and then it is the replay of the fields; otherwise it fails with the splitting error and leaves no partial message |
| FixDictionary.RunFirstSegment | FIX_Benchmark/FixDictionary.cs:81-113 | one loop iteration: the first segment either aborts the fold with its exception or is routed, and the fold goes on after the SOH |
| FixDictionary.Decode | FIX_Benchmark/FixDictionary.cs:122-127 | what the constructor decodes: success exactly when every SOH-terminated segment splits; the message is then `Build` of the fields, and otherwise the error is the first malformed segment's |
| FixDictionary.DecodeEmpty | FIX_Benchmark/FixDictionary.cs:125 | the empty text, and so a null one, decodes to the empty message |
| FixDictionary.TrailingTextIgnored | FIX_Benchmark/FixDictionary.cs:78-113 | text after the last SOH (the whole input if there is none) changes nothing |
| FixDictionary.DecodeEncode | FIX_Benchmark/FixDictionary.cs:57-115 | an encoded field list, followed by any SOH-free text, decodes to `Build` of the list |
| FixDictionary.FixDictionaryBase.constructor | FIX_Benchmark/FixDictionary.cs:11-14 | a new container is empty |
| FixDictionary.FixDictionaryBase.Put | FIX_Benchmark/FixDictionary.cs:109 | the indexer adds the entry or overwrites the old value, and nothing else changes |
| FixDictionary.FixDictionaryBase.ReadField | FIX_Benchmark/FixDictionary.cs:84-93 | the slicing and `int.Parse` of one segment compute `SplitField` |
| FixDictionary.FixDictionaryBase.Store | FIX_Benchmark/FixDictionary.cs:96-109 | tag 83 appends exactly one fresh group and makes it current; the containers then hold `Route` of the message; the groups stay distinct |
| FixDictionary.FixDictionaryBase.Pass | FIX_Benchmark/FixDictionary.cs:83-113 | one loop iteration: when it throws, the fold fails with the same exception; otherwise the segment splits, `rest` is exactly the input after its SOH, the message becomes `Route` of the split field, the fold from the new state is the fold from the old one, at most one fresh group is appended, and the containers hold the routed message |
| FixDictionary.FixDictionaryBase.Parse | FIX_Benchmark/FixDictionary.cs:57-115 | the loop throws exactly when the fold over the segments fails, and with the same exception; otherwise this container and the returned groups hold the folded message; the groups are freshly allocated and distinct |
| FixDictionary.FixDictionary.Create | FIX_Benchmark/FixDictionary.cs:122-131 | construction succeeds exactly when `Decode` does (a null text decodes as empty), keeps the text (`GetFixString`, null included); the root container and the fresh, distinct `Groups` hold the decoded message |
| FixDictionary.GetString | FIX_Benchmark/FixDictionary.cs:16 | null exactly when the tag is absent, else the stored text |
| FixDictionary.ToInt32 | FIX_Benchmark/FixDictionary.cs:18 | `Convert.ToInt32`: null converts to 0; text converts to its value exactly when it parses as Int32, else `Overflow` for integer text and `Format` otherwise |
| FixDictionary.ToInt64 | FIX_Benchmark/FixDictionary.cs:22 | as `ToInt32`, in the Int64 width |
| FixDictionary.GetInt | FIX_Benchmark/FixDictionary.cs:18 | an absent tag reads as 0; present text succeeds exactly when it parses as Int32, with the parsed number, else `Overflow` for integer text and `Format` otherwise |
| FixDictionary.GetNullableInt | FIX_Benchmark/FixDictionary.cs:20 | null exactly when the tag is absent; present text converts, or throws, as `GetInt` does |
| FixDictionary.GetLong | FIX_Benchmark/FixDictionary.cs:22 | as `GetInt`, in the Int64 width |
| FixDictionary.GetNullableLong | FIX_Benchmark/FixDictionary.cs:24 | as `GetNullableInt`, in the Int64 width |
| FixDictionary.GetBoolean | FIX_Benchmark/FixDictionary.cs:34-39 | true exactly for `Y`, false exactly for `N`; anything else, an absent tag included, throws `InvalidCastException` |
| FixDictionary.GetNullableBoolean | FIX_Benchmark/FixDictionary.cs:41-53 | null exactly when the tag is absent; `Y`/`N` convert; other present text throws `InvalidCastException` |
| FixDictionary.IntAccessorsRoundTrip | FIX_Benchmark/FixDictionary.cs:18-24 | the canonical text of an Int32 reads back unchanged through every integer accessor |
| FixDictionary.LongBeyondInt32Overflows | FIX_Benchmark/FixDictionary.cs:18-22 | an Int64 outside Int32 reads back through `GetLong` but overflows `GetInt` and `GetNullableInt` |
| FixDictionary.GetLongExtendsGetInt | FIX_Benchmark/FixDictionary.cs:18-22 | `GetLong` reads the same number wherever `GetInt` reads one, and `GetInt` agrees with `GetLong` on every Int32 value; both reject the same badly formed text |
| FixDictionary.BooleanAccessorsRoundTrip | FIX_Benchmark/FixDictionary.cs:34-53 | both boolean accessors invert the FIX boolean format |
| FixDictionary.DecodedStrings | FIX_Benchmark/FixDictionary.cs:16 | in a decoded message `GetString` on any container returns the last value routed to it for the tag, null if none |
| FixDictionary3.StepFacts | FIX_Benchmark/FixDictionary_3.cs:81-104 | `Step`, one pass: it leaves the loop exactly when no SOH remains; it returns the state it started from exactly on a segment without `=`; otherwise its next state is the input after the first SOH with the split field routed into the message; it never throws `ArgumentOutOfRange` |
| FixDictionary3.Run3Facts | FIX_Benchmark/FixDictionary_3.cs:81-105 | `Run3`, the whole loop: it never throws `ArgumentOutOfRange`, and completes with the message it started from when no SOH is left |
| FixDictionary3.Run3FirstSegment | FIX_Benchmark/FixDictionary_3.cs:81-104 | one pass of `Run3`: no SOH completes the loop; a segment without `=` spins; a bad tag throws; otherwise the field is routed and the loop goes on after the SOH |
| FixDictionary3.VariantsCompared | FIX_Benchmark/FixDictionary_3.cs:71-106 | the second decoder returns the first decoder's message wherever that one succeeds, and throws its exception wherever it throws something other than `ArgumentOutOfRange`; it spins exactly where the first throws `ArgumentOutOfRange` |
| FixDictionary3.SameMessages | FIX_Benchmark/FixDictionary_3.cs:71-106 | a message the first decoder accepts is decoded identically by the second |
| FixDictionary3.FixDictionaryBase3.constructor | FIX_Benchmark/FixDictionary_3.cs:11-14 | a new container is empty |
| FixDictionary3.FixDictionaryBase3.Put | FIX_Benchmark/FixDictionary_3.cs:102 | the indexer adds or overwrites one entry |
| FixDictionary3.FixDictionaryBase3.ReadTagged | FIX_Benchmark/FixDictionary_3.cs:90-92 | the tag parse and value slice of a segment holding `=` compute `SplitField`, never `ArgumentOutOfRange` |
| FixDictionary3.FixDictionaryBase3.Store | FIX_Benchmark/FixDictionary_3.cs:94-102 | tag 83 appends one fresh current group; `currentGroup != null` routing makes the containers hold `Route` of the message |
| FixDictionary3.FixDictionaryBase3.Pass | FIX_Benchmark/FixDictionary_3.cs:83-104 | one pass: when it breaks, `Run3` completes with the message so far; when it stops, `Run3` spins; when it throws, `Run3` throws the same exception; otherwise the segment before the first SOH splits, the new cursor is exactly the input after that SOH, the message becomes `Route` of the split field, `Run3` is unchanged from the new state, at most one fresh group appended, and the containers holding the routed message |
| FixDictionary3.FixDictionaryBase3.Parse | FIX_Benchmark/FixDictionary_3.cs:71-106 | the method returns exactly when `Run3` completes, throws exactly when `Run3` throws and with its exception, and stops (`Hangs`) exactly when `Run3` spins; on return the containers hold `Run3`'s message; the groups are freshly allocated and distinct |
| FixDictionary3.FixDictionary3.Create | FIX_Benchmark/FixDictionary_3.cs:109-122 | construction runs the first decoder on `AsSpan()` of the text (null decodes as empty): it succeeds exactly when `Decode` does, keeps the text, and the containers, with fresh distinct groups, hold the decoded message |
| FixDictionary3.TryParseIntOut | FIX_Benchmark/FixDictionary_3.cs:59 | true exactly for non-null Int32 text, with the parsed value; false with 0 otherwise |
| FixDictionary3.TryParseInt | FIX_Benchmark/FixDictionary_3.cs:58 | the parsed value when `TryParse` succeeds, otherwise `InvalidCastException` |
| FixDictionary3.TryParseLongOut | FIX_Benchmark/FixDictionary_3.cs:62 | as `TryParseIntOut`, in the Int64 width |
| FixDictionary3.TryParseLong | FIX_Benchmark/FixDictionary_3.cs:61 | as `TryParseInt`, in the Int64 width |
| FixDictionary3.GetInt | FIX_Benchmark/FixDictionary_3.cs:18 | succeeds exactly when the tag is present and the first family's `GetInt` succeeds, with the same value; every failure, an absent tag included, is `InvalidCastException` |
| FixDictionary3.GetNullableInt | FIX_Benchmark/FixDictionary_3.cs:20 | never throws; a number exactly when the first family's `GetNullableInt` returns one, the same number |
| FixDictionary3.GetLong | FIX_Benchmark/FixDictionary_3.cs:22 | as `GetInt`, in the Int64 width |
| FixDictionary3.GetNullableLong | FIX_Benchmark/FixDictionary_3.cs:24 | as `GetNullableInt`, in the Int64 width |
| FixDictionary3.IntAccessorsRoundTrip | FIX_Benchmark/FixDictionary_3.cs:18-24 | the canonical text of an Int32 reads back unchanged through this family's integer accessors |
| FixDictionary3.AbsentTagCompared | FIX_Benchmark/FixDictionary_3.cs:18-24 | on an absent tag the first family reads 0 and the second throws `InvalidCastException`; both nullable forms return null |

The second variant's `GetString`, `GetTag`, `GetBoolean` and
`GetNullableBoolean` (FIX_Benchmark/FixDictionary_3.cs:16, 34-55) are the
same lookups and switches as the first variant's. They are modelled once,
by `FixMessage.GetTag`, `FixDictionary.GetString`,
`FixDictionary.GetBoolean` and `FixDictionary.GetNullableBoolean`.

## Left out

- `GetDecimal`, `GetDouble` and their nullable forms, and `TryParseDecimal`/`TryParseDouble`: these are floating-point, culture-dependent library parsing.
- The exact .NET grammar of `int.Parse`, `Convert.ToInt32` and `int.TryParse`. The model accepts an optional `+` or `-` followed by one or more ASCII digits, range-checked against the width. Leading and trailing whitespace, culture-specific signs and other number styles are not modelled.
- `ReadOnlySpan`, allocation and `ToString()` copies: spans are modelled as sequence slices.
- The loop body of both `Parse` methods is a helper method, `Pass`, which in turn calls `ReadField`/`ReadTagged` for the segment split and `Store` for the group opening and the write. The statements are the source's, in the source's order.
- The state left behind when `Parse` throws part-way through (fields already written before the bad segment) is not described; the constructor lets the exception escape and no object results.
- FixDictionary3.FixDictionaryBase3.Parse: the endless loop on a segment without `=` cannot be run in a method that must terminate. The method returns `Hangs` on that pass instead, and `StepFacts` proves that the pass returns the loop state unchanged.
- Inheritance (`FixDictionary : FixDictionaryBase`) is modelled by composition, through the `root` field; `GetFixString` is the `fixString` field.
- Checksum validation and FIX session semantics: the code never computes or checks the tag-10 value.
- The benchmark harness and concurrency: these files hold neither.
