# tryashtar utility library: the YAML codec and its helpers, in Dafny

This project models the core of a small C# utility library.

Its centre is `YamlParser`, a reflection-driven codec between a YAML node tree and objects:

- a node is a scalar with possibly-null text, a sequence of nodes, or a mapping of key nodes to value nodes;
- `Serialize` writes an object as a node;
- `Parse` reads a node back as a value of a requested type.

Reflection becomes closed descriptors:

- a `Type` datatype: string, enum, integer kind, nullable, dictionary, list, array, node, or a class;
- a `Class` with its fields and properties in declaration order, each with name, type, visibility, setter and `[Root]`/`[Serializer]` marks;
- methods and constructors with `[Serializer]`/`[Parser]` marks;
- the class's `[OptionalFields]` setting;
- a `Value` datatype for the runtime objects.

Both directions follow the source's first-match dispatch and loops:

- the dictionary, list and member loops are methods with invariants, each proved equal to a fold;
- the folds are proved to mean what the codec promises: one entry per key, items in order, every key consumed, members keyed by their snake-case name, and so on.

Around the codec sit the library's other modules:

- `StringUtils`: the Pascal/snake name converter the codec uses for keys and enum names, ordinal `FastReplace`, `DeOrphan`, `Pluralize`;
- `YamlHelper`: node navigation and conversion;
- `ListUtils`: an in-place Fisher–Yates shuffle, counting predicates, 64-bit ranges, a dictionary copy, 2-D array walks;
- `DataUtils`: endian conversions between integers and byte arrays;
- `Failable<T>`: a failure-aggregation tree with flattening and deduplicated rendering.

Modules:

| file | module | models |
|---|---|---|
| wrappers.dfy | Wrappers | `Option`, `Result` and the exceptions the code throws |
| framework.dfy | Framework | the .NET pieces the code calls: ASCII case mapping, `char.IsWhiteSpace` and trimming, integer kinds, `int.Parse`, the integer `TypeConverter` with its hex prefixes, `String.Join`/`IndexOf`, `Enum.Parse` with comma lists, `Enum.ToString` |
| assoc.dfy | Assoc | dictionaries as insertion-ordered pair lists; `Dictionary.Add`, `ToDictionary` |
| yaml_nodes.dfy | YamlNodes | the node tree |
| yaml_types.dfy | YamlTypes | type descriptors, values, GetVal/SetVal, attribute lookup |
| yaml_serialize.dfy | YamlSerialize | `SerializeObject` |
| yaml_parse.dfy | YamlParse | `Parse` |
| yaml_roundtrip.dfy | YamlRoundTrip | the scalar and `[Root]` cases of both directions together |
| string_utils.dfy | StringUtils | StringUtils.cs |
| yaml_helper.dfy | YamlHelper | YamlHelper.cs |
| list_utils.dfy | ListUtils | ListUtils.cs |
| data_utils.dfy | DataUtils | DataUtils.cs |
| failable.dfy | Failables | Failable.cs |

Things outside the model are parameters:

- host byte order is `hostLittle`;
- `Random.Next` answers are a supplied sequence `ks`;
- `Environment.NewLine` is `newline`;
- `Exception.ToString()` is `describe`;
- `AggregateException`'s own message text is `aggregateMessage`;
- the bodies of `[Serializer]`/`[Parser]` hooks are the `Hooks` functions;
- user callbacks (getters, parsers, `Map2D`'s `func`, `Cast`'s conversion) return the value or the exception they throw.

## Model

| member | source | states |
|---|---|---|
| StringUtils.PluralizeReadsBack | StringUtils.cs:14-20 | the text is the decimal amount, which reads back, then one space, then the singular exactly when the amount is 1, else the plural |
| StringUtils.DeOrphan | StringUtils.cs:23-31 | null gives ""; text without a space is unchanged; otherwise only the last space becomes U+00A0 and the length is kept |
| StringUtils.ReplacedAtFirstOccurrence | StringUtils.cs:44-62 | replacing from a position keeps the text up to the first occurrence, puts the replacement there and resumes after the occurrence (non-overlapping, left to right); with no occurrence the rest is kept |
| StringUtils.ReplacedWithoutOccurrence | StringUtils.cs:44-62 | text where `find` never occurs is unchanged |
| StringUtils.ReplacedBySelf | StringUtils.cs:44-62 | replacing `find` by itself changes nothing |
| StringUtils.FastReplace | StringUtils.cs:33-63 | null `str` throws; empty `str` is returned before `find` is checked; null or empty `find` throws; otherwise every non-overlapping occurrence is replaced, and a null replacement deletes them |
| StringUtils.ReplaceOccurrences | StringUtils.cs:44-62 | the StringBuilder search loop builds exactly the left-to-right replacement |
| StringUtils.PascalToSnake | StringUtils.cs:99-117 | the StringBuilder loop builds the key form: short text unchanged, otherwise the first char lower-cased and each later upper-case letter becomes '_' plus its lower case |
| StringUtils.ToSnakeLength | StringUtils.cs:103-116 | for two or more chars the output is longer by the number of upper-case letters after index 0, and starts with the lower-cased first char |
| StringUtils.ToSnakeShort | StringUtils.cs:101-102 | text shorter than two chars comes back unchanged |
| StringUtils.ToSnakeHasNoUpper | StringUtils.cs:104-111 | for two or more chars the output has no upper-case letter |
| StringUtils.TitleCase | StringUtils.cs:121-123 | title-casing keeps the length and changes each char only by upper-casing a lower-case letter |
| StringUtils.SnakeToPascal | StringUtils.cs:119-124 | the output contains no '_' and no ' ' |
| StringUtils.SnakeToPascalOfToSnake | StringUtils.cs:99-124 | a Pascal-case identifier converted to its key form and back is itself |
| StringUtils.IntegerTextUnchanged | StringUtils.cs:99-124 | decimal integer text is unchanged by both conversions |
| StringUtils.ParseUnderscoredEnumOfName | StringUtils.cs:94-97 | an enum value written in key form parses back to the value, whether named or not, for an enum with distinct Pascal-case names |
| YamlHelper.String | YamlHelper.cs:117-122 | a scalar's value (possibly null) for a scalar, null for any other node or a null node |
| YamlHelper.Int | YamlHelper.cs:124-129 | null for a non-scalar; a null value throws ArgumentNullException; otherwise text that is not white-space-padded signed decimal throws FormatException, a value outside the int range OverflowException, and anything else gives that value |
| YamlHelper.IntOfPaddedText | YamlHelper.cs:124-129 | any int written in decimal, with spaces, tabs or line breaks around it, reads back as itself |
| YamlHelper.IntOfText | YamlHelper.cs:124-129 | any int written as decimal text reads back as itself |
| YamlHelper.TryGet | YamlHelper.cs:144-149 | non-null exactly when the node is a mapping with that scalar key, and then it is the bound value |
| YamlHelper.Go | YamlHelper.cs:131-142 | the loop over the path computes the hop-by-hop walk |
| YamlHelper.GoEmpty | YamlHelper.cs:131-142 | the empty path returns the node |
| YamlHelper.GoConcat | YamlHelper.cs:131-142 | walking `p + q` is walking `p`, then `q` |
| YamlHelper.GoMiss | YamlHelper.cs:136-139 | once a hop misses, the whole walk is null |
| YamlHelper.GoNull | YamlHelper.cs:131-142 | from a null node every walk is null |
| YamlHelper.ToListOfMapping | YamlHelper.cs:39-44 | null for null; a non-mapping fails the cast; a mapping succeeds exactly when the getter returns for every entry, giving one getter result per entry in order; otherwise the exception of the first entry whose getter throws |
| YamlHelper.ToListOfSequence | YamlHelper.cs:46-51 | null for null; a non-sequence fails the cast; a sequence succeeds exactly when the getter returns for every child, giving one getter result per child in order; otherwise the exception of the first child whose getter throws |
| YamlHelper.ToStringListOfSequence | YamlHelper.cs:53-61 | a sequence gives every child's String(), in order |
| YamlHelper.AddEntries | YamlHelper.cs:73-80 | the ToDictionary loop succeeds exactly when every key getter returns a non-null key, every value getter returns, and no key repeats one already bound or another entry's; it then extends the dictionary by one pair per entry from the getters, and otherwise throws the first blocked entry's key-getter, value-getter, null-key or duplicate-key exception |
| YamlHelper.ToDictionary | YamlHelper.cs:73-80 | null for null; a non-mapping fails the cast; a mapping succeeds exactly when every key getter returns a non-null key, every value getter returns and the keys are pairwise distinct, giving one pair per entry in order; otherwise the first blocked entry's exception |
| YamlHelper.ToDictionaryRejectsDuplicates | YamlHelper.cs:73-80 | two entries whose keys give the same key make ToDictionary throw |
| YamlHelper.ToStringDictionaryNeedsScalarKeys | YamlHelper.cs:63-66 | a non-scalar key has a null String(), which the string dictionary rejects |
| YamlHelper.NullableParse | YamlHelper.cs:82-94 | null for a null node, otherwise the parser's value or exception |
| YamlHelper.Parse | YamlHelper.cs:96-101 | a null node throws ArgumentNullException, otherwise the parser's result |
| YamlHelper.ToEnumOr | YamlHelper.cs:103-108 | a null node gives the default, otherwise the node's text parsed as an underscored enum |
| YamlHelper.ToEnum | YamlHelper.cs:110-115 | a null node gives null; a node whose String() is null (a non-scalar, or a scalar without a value) throws NullReferenceException; any other node gives `Enum.Parse` of the Pascal form of its text, as a value or as the exception it throws |
| YamlHelper.ToEnumOfKey | YamlHelper.cs:103-115 | a scalar holding an enum value's key form reads back as that value |
| YamlTypes.DefaultObject | YamlParser.cs:213-214 | default construction gives an object of the class with one value per member |
| YamlTypes.DefaultOf | YamlParser.cs:206-211 | Activator.CreateInstance: fails for string, array, node and classes without a parameterless constructor; null for Nullable<T> |
| YamlTypes.SetVal | YamlParser.cs:101-109 | a property without a setter throws; otherwise only that member changes, to the value coerced to its type |
| YamlTypes.FirstWith | YamlParser.cs:280-290 | the first member carrying the attribute, or none when no member does |
| YamlTypes.WithAttribute | YamlParser.cs:280-290 | the foreach loop returns exactly the first member carrying the attribute |
| YamlTypes.FirstWithIsFirst | YamlParser.cs:280-290 | the found member carries the attribute and none before it does |
| YamlTypes.FirstWithNone | YamlParser.cs:280-290 | nothing is found exactly when no member carries the attribute |
| YamlTypes.FindRoot | YamlParser.cs:122-133 | the first [Root] field, public or not, else the first [Root] property, else none; nothing marked earlier is skipped |
| YamlTypes.FindSerializer | YamlParser.cs:135-150 | the first [Serializer] field, then property, then method, in that precedence |
| YamlTypes.FindParser | YamlParser.cs:152-163 | the first [Parser] constructor, else the first [Parser] method |
| YamlSerialize.BuildMapping | YamlParser.cs:37-43 | the mapping built by Add: on success one entry per pair, in order, keys distinct |
| YamlSerialize.BuildMappingOk | YamlParser.cs:37-43 | building succeeds exactly when every key and value serialized and no two keys are equal |
| YamlSerialize.SerializeObject | YamlParser.cs:24-84 | the dispatch as written, with its loops, computes exactly the first-match serialization |
| YamlSerialize.SerializeDictionary | YamlParser.cs:35-45 | the foreach over a dictionary builds the mapping of its serialized keys and values |
| YamlSerialize.SerializeSequence | YamlParser.cs:48-58 | the foreach over a list or array builds the sequence of its serialized items |
| YamlSerialize.SerializeMembers | YamlParser.cs:74-83 | the member loop builds the mapping of the emitted members |
| YamlSerialize.SerializeDictEntries | YamlParser.cs:35-45 | a dictionary serializes exactly when all its keys and values do and their nodes are distinct, to one entry per pair in iteration order |
| YamlSerialize.SerializeListItems | YamlParser.cs:48-58 | a list or array serializes exactly when each item does, to a sequence of their nodes in order |
| YamlSerialize.MemberEntriesSound | YamlParser.cs:74-83 | every emitted entry comes from a public member whose value is not null, keyed by its snake-case name |
| YamlSerialize.MemberEntriesComplete | YamlParser.cs:74-83 | every public member with a non-null value is emitted |
| YamlSerialize.MemberEntriesCount | YamlParser.cs:74-83 | the loop adds one entry per public member whose value is not null |
| YamlSerialize.MemberEntriesOrdered | YamlParser.cs:74-83 | of two emitted members, the earlier one (fields before properties, then declaration order) has the earlier entry |
| YamlSerialize.MemberEntriesKeysDistinct | YamlParser.cs:74-83 | members with distinct snake-case names give entries with distinct keys |
| YamlSerialize.SerializeMemberWise | YamlParser.cs:74-83 | a class with no root or serializer serializes exactly when its emitted members do and their names are distinct, to a mapping keyed by PascalToSnake of the names, with nulls omitted; it has one entry per emitted member, and the keys come in member order: public fields, then public properties, each in declaration order |
| YamlSerialize.SerializeValid | YamlParser.cs:24-84 | whatever serializes, given valid stored nodes and hooks, is a valid tree: every mapping has distinct keys |
| YamlRoundTrip.ScalarRoundTrip | YamlParser.cs:171-183 | a string, enum or integer serializes (lines 27-33) to a non-null scalar (the string itself for a string), which parses back as its own type to the same value |
| YamlRoundTrip.ParseScalarNode | YamlParser.cs:171-183 | for string, enum and integer types: non-scalars are an invalid cast; a null scalar is null; text is itself as a string; an enum is `Enum.Parse` of the Pascal form, with its value, or-ed name list or exception; an integer is the kind's converter result, in the kind's range, and any failure is an ArgumentException |
| Framework.ConvertFromDecimal | YamlParser.cs:182 | decimal text of an integer, with white space around it, converts to the integer when the kind holds it and throws ArgumentException otherwise |
| Framework.ConvertFromHex | YamlParser.cs:182 | hex digits after "0x" convert to their value when it fits the kind's width, read as two's complement for a signed kind, and throw ArgumentException when it does not fit |
| Framework.EnumParseOfName | YamlParser.cs:176 | a declared name, with white space before it and white space without a comma after it, parses to its value when no earlier name is the same |
| Framework.EnumParseOfPair | YamlParser.cs:176 | two declared names joined by ", " parse to their values or-ed together |
| Framework.EnumParseOfInteger | YamlParser.cs:176 | integer text parses as an enum to that integer, or throws OverflowException outside the int range |
| Framework.EnumParseFits | YamlParser.cs:176 | every value Enum.Parse returns is in the int range, named values or-ed together included |
| Framework.ParseIntegerStyleOfPadded | YamlHelper.cs:128 | decimal text with white space around it reads as its integer |
| YamlRoundTrip.SerializeRoot | YamlParser.cs:61-63 | a [Root] class serializes exactly as its root member's value |
| YamlParse.ListLoop | YamlParser.cs:239-247 | on success the list holds one parsed value per item, in order, none of them null for a value-type element |
| YamlParse.DictLoop | YamlParser.cs:220-230 | on success the dictionary has no null key and at most one entry per node entry, and its keys are distinct when the key type is compared by value (string, enum, integer) |
| YamlParse.MemberStep | YamlParser.cs:253-272 | after a turn the instance still has the class's shape |
| YamlParse.ParseAs | YamlParser.cs:14-17 | the typed entry point returns what Parse returns, except that a null for a non-nullable value type throws |
| YamlParse.ParseNode | YamlParser.cs:165-278 | Parse as written, with its loops and the unused-key set, computes exactly the first-match parse |
| YamlParse.ParseObject | YamlParser.cs:186-277 | the class branches, with the member loop, compute the class parse |
| YamlParse.ParseCollection | YamlParser.cs:234-249 | the list branch computes the list/array parse: a non-sequence fails the cast, otherwise the loop's items as a list or an array |
| YamlParse.CollectItems | YamlParser.cs:239-247 | the list-building loop computes the fold of the items' parses |
| YamlParse.ParseDictionary | YamlParser.cs:220-231 | the dictionary-building loop computes the dictionary parse |
| YamlParse.ParseMembers | YamlParser.cs:252-277 | the member loop and the unused-key check compute the member-wise parse |
| YamlParse.ListLoopOk | YamlParser.cs:239-247 | the list loop succeeds exactly when every item parses, to non-null for a value-type element |
| YamlParse.ParseListItems | YamlParser.cs:234-249 | a sequence parses as a list or array exactly when each child does, to the parsed children in order with the same length and element type |
| YamlParse.DictLoopOk | YamlParser.cs:220-230 | the dictionary loop succeeds exactly when every entry parses and, for a key type compared by value, no two non-null keys are equal; it then binds exactly the non-null keys to their values, in order |
| YamlParse.ParseDictEntries | YamlParser.cs:220-231 | a mapping parses as a dictionary exactly when every entry parses and, for string, enum and integer keys, no two non-null keys coincide (keys of other types are fresh objects and never clash); null keys are skipped, every other key is bound to its parsed value and nothing else is present |
| YamlParse.MemberStepFacts | YamlParser.cs:253-272 | a turn throws only for a missing key of a Nullable member without [OptionalFields] (or a failing parse/default); a found key is stored and marked used; [OptionalFields(true)] stores a default; otherwise nothing changes; other members are untouched |
| YamlParse.MemberLoopFacts | YamlParser.cs:253-272 | the member loop throws exactly when some turn would; otherwise each visited member holds its parsed or default value |
| YamlParse.UnusedEmpty | YamlParser.cs:271-276 | no key is left unused exactly when every key names a public field or a public property with a setter |
| YamlParse.MemberWiseFacts | YamlParser.cs:252-277 | the member-wise branch succeeds exactly when no turn throws and every key is consumed |
| YamlParse.ParseMemberWise | YamlParser.cs:252-277 | a class with no parser or root parses only from a mapping, exactly when no member's turn throws and no key is unused, to an object of the class whose members hold their parsed, defaulted or initial values |
| YamlParse.ParseNullableIsNull | YamlParser.cs:206-211 | every node parses to null as a Nullable<T> |
| YamlParse.ParseRootMember | YamlParser.cs:212-217 | a [Root] class parses the whole node as the root member's type and stores it, coerced, into a default instance, leaving every other member at its default; a failure propagates and a root property without a setter throws |
| ListUtils.ShuffledPermutes | ListUtils.cs:12-23 | a shuffle keeps the length and the multiset of elements |
| ListUtils.ShuffledKeepsPlaced | ListUtils.cs:14-22 | positions at or past the unplaced prefix are never written again |
| ListUtils.Shuffle | ListUtils.cs:12-23 | the in-place loop leaves the array as the draw-driven shuffle of its old contents, a permutation of them |
| ListUtils.ExactlyOne | ListUtils.cs:25-28 | true exactly when there is one element |
| ListUtils.CountGreaterThan | ListUtils.cs:30-33 | true exactly when the length exceeds max(count, 0) |
| ListUtils.CreateRange | ListUtils.cs:36-44 | start, start+1, … up to the wrapped 64-bit limit, exclusive: count values when start+count fits; nothing for count ≤ 0 or when start+count overflows |
| ListUtils.Copy | ListUtils.cs:46-49 | a copy holds exactly the same pairs in the same order |
| ListUtils.Flatten | ListUtils.cs:66-75 | width·height elements, with `arr[x, y]` at index `y * width + x` |
| ListUtils.Map2D | ListUtils.cs:77-88 | succeeds exactly when `func` returns for every element, with a fresh array of the same dimensions holding `func` of each element in place; otherwise the exception of the first element, row by row, for which `func` throws |
| DataUtils.FromLittleEndianOf | DataUtils.cs:59-76 | decoding the byte encoding of a number gives the number |
| DataUtils.LittleEndianOf | DataUtils.cs:59-76 | encoding the value of bytes gives the bytes |
| DataUtils.Reverse | DataUtils.cs:63 | Array.Reverse leaves the array reversed |
| DataUtils.SignedOfUnsigned | DataUtils.cs:78-130 | two's-complement reinterpretation of a fitting value is invertible |
| DataUtils.ConverterToInt32 | DataUtils.cs:72-75 | BitConverter.ToInt32 succeeds exactly when four bytes remain at the start index |
| DataUtils.ConverterRoundTrip | DataUtils.cs:78-130 | BitConverter reads back what it wrote, on either host order |
| DataUtils.GetBytes | DataUtils.cs:59-65 | four bytes, big-endian by default and little-endian on request, on either host |
| DataUtils.ToInt32 | DataUtils.cs:67-76 | fails exactly on fewer than four bytes; otherwise the first four bytes read big-endian, whatever the host |
| DataUtils.ToInt32OfGetBytes | DataUtils.cs:59-76 | ToInt32 of the default GetBytes(v) is v, with any trailing bytes ignored |
| DataUtils.EncodedLength | DataUtils.cs:78-97 | the byte array is element count times element size long |
| DataUtils.EncodedWord | DataUtils.cs:78-97 | element i occupies bytes [i·size, i·size + size) in host order |
| DataUtils.ToByteArray | DataUtils.cs:78-97 | the block copy gives a fresh array of count·size bytes holding each element's bytes in turn |
| DataUtils.Words | DataUtils.cs:99-130 | as many words as whole blocks of bytes |
| DataUtils.ToWordArray | DataUtils.cs:99-130 | the loop fills a fresh array with the word decoded from each block |
| DataUtils.WordsIgnoreTrailing | DataUtils.cs:99-130 | trailing bytes short of a block do not matter |
| DataUtils.WordOfEncoded | DataUtils.cs:110-119 | the word read at i·size of the byte image of a list is its i-th element |
| DataUtils.WordsOfEncoded | DataUtils.cs:85-119 | decoding the byte array of a list of words gives the same words, for short, int and long |
| Failables.ExceptionMessageOfChain | Failable.cs:17-35 | a non-aggregate exception's message is its message then, after each newline, the chain of inner messages |
| Failables.Chain | Failable.cs:31-32 | the chain starts with the exception's own message |
| Failables.Failable.Result | Failable.cs:42-54 | reading Result throws exactly when the failable failed, with its exception; otherwise it returns the stored value |
| Failables.Run | Failable.cs:56-70 | running an operation fails exactly when it throws; it is not an aggregate and keeps its description |
| Failables.Failure | Failable.cs:72-75 | a failure is failed exactly when it has an exception, is not an aggregate, and keeps its description |
| Failables.FlattenedAppend | Failable.cs:90-95 | flattening distributes over concatenation |
| Failables.FlattenedOfSingles | Failable.cs:90-95 | a list without aggregates flattens to itself |
| Failables.FlattenedOfFlat | Failable.cs:82-95 | flattening items whose nested items are not aggregates leaves no aggregate |
| Failables.Aggregate | Failable.cs:82-88 | succeeds exactly when every flattened item has failed, and is then always failed with no result |
| Failables.AggregateIsFlat | Failable.cs:82-95 | the nested list is the in-order concatenation of each input's nested items if it is an aggregate, else the input; the description is the joined descriptions; it is an aggregate exactly when that list is non-empty |
| Failables.AggregateOfNothing | Failable.cs:82-88 | aggregating nothing is failed but not an aggregate |
| Failables.AggregateIdempotent | Failable.cs:82-95 | aggregating one aggregate gives it back |
| Failables.AggregateConcat | Failable.cs:82-95 | the nested list of an aggregate of a + b is the nested lists of the two aggregates, concatenated |
| Failables.AggregateFailure | Failable.cs:77-80 | fails on a null exception; otherwise one plain failure per exception, in order |
| Failables.Cast | Failable.cs:105-108 | the cast succeeds exactly when the result and every nested cast convert, and then keeps exception, description and tree shape with the result and every nested item converted; a failure is the result's conversion error, else the first failing nested item's |
| Failables.CastIdentity | Failable.cs:105-108 | casting to the same type changes nothing |
| Failables.MessagesUpToHas | Failable.cs:114-121 | the HashSet holds exactly the messages seen so far |
| Failables.SimpleLoopCounts | Failable.cs:112-121 | the loop records each distinct message once: as many summaries as distinct messages |
| Failables.SimpleLoopFirsts | Failable.cs:112-121 | the k-th summary belongs to the k-th first occurrence of a message, in order |
| Failables.ToStringSimple | Failable.cs:110-130 | the recursive loop over the nested items computes the simple rendering |
| Failables.SucceededRendering | Failable.cs:125-141 | a successful non-aggregate renders "{Description}: Operation succeeded" both ways |
| Failables.DetailedOfSameShape | Failable.cs:105-143 | the detailed rendering depends only on the tree's exceptions and descriptions, so a cast renders alike |

## Left out

- Reflection (`GetFields`, `GetProperties`, attributes, `Activator`, `dynamic`, `TypeDescriptor`) is replaced by the closed `Type`/`Class`/`Value` descriptors.
- Static members, structs other than integers and enums, inheritance and recursive class types are not modelled: a class lists its own members.
- Hooks: the bodies of `[Serializer]` methods and `[Parser]` constructors and methods are the `Hooks` functions; only their precedence and argument passing are modelled.
- YamlSerialize.Serialize: a `[Serializer]` method whose result is not a node, and a `YamlNode` member met outside a `[Serializer]` slot, give `NotModelled` rather than whatever the runtime would do.
- Primitives other than the integer kinds (double, float, char, bool, decimal) are left out, as is culture-specific formatting.
- YamlParse.Parse: a parameterless `[Parser]` method and a null node argument are not modelled, and a write-only property is not modelled.
- YamlParse.ParseNullableIsNull: every node parses to null as `Nullable<T>`, because `Activator.CreateInstance` of a nullable value type gives null. The model follows the code here, not the intent that a Nullable member reads its inner type.
- `YamlHelper.ParseFile`/`SaveToFile` are left out: file I/O and the YamlDotNet text loader and writer.
- IOUtils.cs is not part of this model: it is filesystem traversal.
- Comparers.cs is not part of this model: a P/Invoke comparer and a delegating one.
- `DataUtils.ParseDouble`/`ParseFloat`/`DoubleToString`/`FloatToString` are left out: floating point.
- `StringUtils.TimeSpan`/`MediaTimeSpan`/`SplitLines` are left out: .NET time formats and `StringReader`.
- Case mapping is ASCII with ordinal comparison; culture-aware title-casing of non-ASCII letters is not modelled. White space is the full `char.IsWhiteSpace` set.
- Number parsing uses the invariant culture: '-' and '+' are the only signs, and no thousands separators or currency symbols are accepted (NumberStyles.Integer takes none).
- EnumType: an enum is its declared names numbered 0, 1, … over `int`; explicit values, other underlying types and `[Flags]` are not modelled, so `Enum.ToString` at YamlParser.cs:31 is always a single name or the decimal value, never a comma list of flags.
- YamlParse.DictLoop: only string, enum and integer keys are compared, as .NET compares them by value. Parsed list, array, dictionary and class keys are fresh objects that `Dictionary` compares by reference, so they never clash. No user class overrides `Equals`. A `YamlNode` key type never gets that far, because parsing a node as `YamlNode` throws.
- `ListUtils.BinarySearch` is left out: a wrapper over `Array.BinarySearch`.
- The `Random` generator is left out; its answers are the supplied draws.
- ListUtils.CreateRange: the C# iterator is lazy; the model returns the whole sequence.
- ListUtils.Flatten: the C# iterator is lazy and reads `arr` while it is enumerated; the model reads the array once, so later writes to it are not seen.
- Node tags, anchors and styles are not modelled: keys compare by content only. YamlDotNet also compares tags, so for a key with an explicit tag the model can differ in `YamlHelper.TryGet`, in removing the used keys during member-wise parsing, and in the duplicate-key check of `node.Add`.
- ListUtils.Copy: `IReadOnlyDictionary` is an insertion-ordered distinct-key pair list.
- DataUtils.ToWordArray: `ToShortArray` and `ToLongArray` share one model returning `array<int>` with values in the element's range, not `short[]`/`long[]`.
- Host endianness is the `hostLittle` parameter.
- The `Failable` constructor catching any exception from `Func<T>` is modelled as an `Outcome` value.
- `ExceptionMessage`'s `WebException` branch is left out: it reads the HTTP response stream.
- `Exception.ToString()` in `ToStringDetailed` is the `describe` parameter.
- `AggregateException`'s message is the `aggregateMessage` parameter.
- `Environment.NewLine` is the `newline` parameter.
- Failables.Cast: the runtime conversion `(U)(object)result` is the `convert` parameter.
