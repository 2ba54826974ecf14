# borsh-rs: a verified model

Borsh is a binary format for structured data: fixed-width little-endian
integers, one-byte tags, 32-bit lengths, and maps and sets in key order. The
Rust library encodes and decodes values of any type built from a fixed set of
constructors, can describe a type by a *schema*, and analyses schemas: how long
an encoding can get, whether it is empty, whether the schema is well formed.

This project models three layers over one universe of types and proves what
they promise, separately and together.

**The analyses of a schema.** A schema is a map from declarations to
definitions, possibly cyclic and possibly with gaps. Module `Wire` says which
byte strings a declaration describes, without reference to any algorithm.
`Extents` gives every declaration with a finite unfolding its size in unbounded
arithmetic, and with `Attainment` shows that this size is the least upper bound of
the described lengths; `Charging` shows what is lost when enums are charged once.
`MaxSize`, `ZeroSize` and `Validate` model the three walks as they are written, with
a shared stack (`Schema.DeclStack`), checked 64-bit arithmetic and early exits, and
prove each exact against such an independent definition, errors included: `SizeErrors`
says on every schema which error the size walk gives.

**The codec.** `Codec` is the encoding and decoding of every type as functions on
bytes, over an environment of named structs and enums which may be recursive.
`RoundTrip` proves that they undo each other, in both directions, and
`Prefixes` what happens to an input that is cut off or goes on. `WireFormat` states the
bytes of every kind of value and the error of every malformed one without the codec's
own helpers, and `Collecting` which of several entries with one key is kept. `Serialize`
and `Deserialize` are the imperative forms: they write to a sink and read from a
stream (`Reader`) that may do short writes and reads, be interrupted or fail,
with the byte fast paths, and they are proved to do what the functions say;
`Reads` lists what the decoder asks of its reader, which depends on the bytes alone, and
`Writes` what the encoder hands to its sink and when a sink makes it fail.
`Hashing` shows that hash collections encode deterministically, `ArrayGuard`
that a partly decoded array neither loses an element nor releases one twice.
`Json`, `JsonFormat` and `JsonStreams` do all this for the hand-written codec of JSON trees.

**Schema generation.** `Collection` is the depth-first collection of definitions
into a mutable map, with the recursion guard of derived structs and the late
insertion of derived enums; `Generate` instantiates it with the library's own
declarations and definitions, which `BuiltIns` spells out. `Conformance` connects all three layers: the
schema generated for a type describes the bytes of every value of it. `Names` shows
when declarations tell types apart. `ContainerCodec` writes schemas themselves, by
way of the types the derive gives them, and `SchemaPrefix` puts a type's generated
schema in front of its values.

Some results are about behaviour that a reader of the library's documentation
would not expect. Each comes with inputs that show it and a condition that says
exactly when it happens:

- `max_serialized_size` is documented as the largest possible size. Its enum arm
  ignores how many copies it was asked for, so a vector of optional `u64` gets 13
  bytes although two present items take 22 (`Conformance.EncodedSizeExceedsMaximum`).
  `Charging.Undercharged` says by the structure of a declaration where the loss
  reaches its size, and on inhabited declarations the returned number is a bound if
  and only if it does not (`MaxSize.BoundIffNotUndercharged`). With an arm
  that multiplies it always is (`MaxSize.EveryCopyBounds`).
- The zero-size walk is documented to fail only on recursive types. It returns
  early from empty arrays without taking the array off its stack, so a pair of two
  equal empty arrays is called recursive, whatever follows it
  (`ZeroSize.PairOfEmptyArraysIsCalledRecursive`, `ZeroSize.PairThenAnything`), and
  validation then accepts a vector of such pairs although sequences of empty items
  are forbidden (`Validate.VecOfEmptyPairsPasses`). `ZeroSize.ZeroSizeExact` says for
  every schema and declaration what the walk answers and which error it gives.
- The zero-size walk and validation count the lengths that an untagged sequence
  permits. For the range from zero to the largest word the count does not fit a
  word and the standard library panics. Both walks have this outcome in the model
  (`ZeroSize.FullRangePanics`, `ZeroSize.ZeroSizeExact`, `Validate.PanicsExactly`).
- The bulk read of byte vectors passes an interrupted read on to its caller, where
  the exact read used everywhere else retries it. Every non-empty byte vector can
  be interrupted so that its bytes decode and the stream does not
  (`Deserialize.InterruptedVector`). An input is immune to interruptions if and only
  if no bulk read is in reach among the requests its decoding makes
  (`Reads.ImmuneIffNoBulk`); types without strings and collections of bytes always
  are (`Reads.NoBulkIsImmune`), and an encoded JSON tree is exactly when it holds no
  string and no key but empty ones (`JsonStreams.TreeImmuneIffNoText`).
- The derive names the inner struct of a variant by the enum's and the variant's
  names, one right after the other, so two enums with different names can collide,
  and schema generation then panics (`Names.FooBarBazCollides`); so it does on two
  enums of one name whose own definitions agree (`Names.TwinsCollide`). As long as
  structs with one name and one definition hold the same types, it panics wherever
  below the root such enums are (`Names.ConcatenationsCollide`), and altogether if and
  only if two types that the root leads to have one declaration and different
  definitions (`Generate.PanicsIffConflict`). Otherwise a conflict can stay hidden, and the
  schema may fail to describe values of its own type
  (`Conformance.NamesakesMisdescribed`). Whatever the types are, a conflict below the
  root is exactly what makes generation panic or leave some type below without its
  own definition (`Generate.PanicsOrHides`), and without one the schema describes
  every value (`Conformance.SchemaDescribesTheWire`). Types whose own names, inner
  structs included, are single words and pairwise different never collide
  (`Names.PlainIsCoherent`).
- The derive writes an implicit discriminant as the previous expression and `+ 1`
  without parentheses. After `1 << 2` that is 8 where the compiler assigns 5, and
  after `1 | 2` it is the same tag again (`Discriminants.ShiftGoesWrong`,
  `Discriminants.UnionRepeats`). It is the compiler's value whatever the operators
  mean exactly when the last explicit discriminant holds no operator looser than an
  addition (`Discriminants.DerivedIsAssigned`). With the language's own operators it
  may also fit by their values, as after `4 | 1`: for the first implicit variant after
  an expression whose last applied operator has nothing loose to its right,
  `Discriminants.NextDiscriminant` says exactly when.

The program around the codec enters as the parameters of `Types.Env`: the named
types, told apart by their paths, which types occupy no memory, which byte strings
are UTF-8, and the key order of each type. The order is assumed lawful: total, and
equal keys are the same value. `Environments` gives one environment that meets all
assumptions. Words have 64 bits. Collections are equal when their contents are.

Verify everything with `dafny verify dfyconfig.toml`.

## Model

| member | source | states |
|---|---|---|
| Extents.ExtentBounds | borsh/src/schema/container_ext/max_size.rs:13-24 | no byte string that a finite declaration describes is longer than its size in unbounded arithmetic |
| Attainment.ExtentAttained | borsh/src/schema/container_ext/max_size.rs:102-149 | on a finite inhabited declaration (every contributing sequence has a non-empty length range whose end fits the length prefix, every enum a variant) some described byte string has exactly that size |
| Charging.EnumOnceIsExact | borsh/src/schema/container_ext/max_size.rs:126-136 | charging an enum once per sequence, as the walk does, is exact when no sequence of several items has a non-empty enum as its elements |
| Charging.EnumRowFallsShort | borsh/src/schema/container_ext/max_size.rs:126-136 | and falls strictly short at every sequence that does |
| Charging.UnderchargedIffLess | borsh/src/schema/container_ext/max_size.rs:126-136 | charging an enum once per sequence gives less than the full size exactly where the structure says so: at a sequence of two or more non-empty enums, or where a part falls short and, inside an enum, the full size of that variant exceeds what is charged for every variant |
| MaxSize.MaxSerializedSizeImpl | borsh/src/schema/container_ext/max_size.rs:63-153 | terminates on every cyclic schema, returns what the specified walk returns, and on success leaves the stack as it found it |
| MaxSize.TupleSize | borsh/src/schema/container_ext/max_size.rs:84-95 | the checked sum of the members' sizes, multiplied with a check by the number of copies; on success the stack is as before |
| MaxSize.MaxSerializedSizeOf | borsh/src/schema/container_ext/max_size.rs:37-40 | the walk of the root declaration, for one copy, on an empty stack |
| MaxSize.WalkIsExtent | borsh/src/schema/container_ext/max_size.rs:63-153 | on a finite declaration, for any number of copies, any stack of others and either way of charging enums, the walk gives the unbounded total when it fits a word and an overflow otherwise: no intermediate check rejects a total that fits |
| MaxSize.OkIsFinite | borsh/src/schema/container_ext/max_size.rs:97-100 | a walk that succeeds has met neither a cycle nor a gap |
| MaxSize.MaxSizeExact | borsh/src/schema/container_ext/max_size.rs:63-153 | the result is n exactly when the declaration has a finite unfolding whose size in unbounded arithmetic, enums charged once, is n; a finite declaration never gives anything but its size or an overflow |
| MaxSize.MissingIsReachable | borsh/src/schema/container_ext/max_size.rs:148 | a declaration reported as missing is undefined and reachable through contributing members |
| MaxSize.RecursionIsLoop | borsh/src/schema/container_ext/max_size.rs:97-100 | a reported recursion comes from a contributing cycle or leads back to the given stack |
| MaxSize.FiniteHasNoLoop | borsh/src/schema/container_ext/max_size.rs:51-54 | a declaration with a finite unfolding is on no contributing cycle |
| MaxSize.FiniteIffAcyclic | borsh/src/schema/container_ext/max_size.rs:51-59 | a declaration unfolds finitely if and only if it meets no contributing cycle and nothing reachable is missing; the number of definitions is then height enough |
| MaxSize.AcyclicSize | borsh/src/schema/container_ext/max_size.rs:45-60 | on an acyclic and complete declaration the walk returns the total size, and reports overflow exactly when that total exceeds a word |
| MaxSize.Verdict | borsh/src/schema/container_ext/max_size.rs:45-60 | success means that no cycle is met and nothing reachable is missing, a recursion error that a cycle is met, a missing-definition error that the named declaration is reachable and undefined |
| SizeErrors.BreakingMember | borsh/src/schema/container_ext/max_size.rs:84-95 | the member at which a row breaks: all before it are finite and with the running sum within a word, and it is not finite or takes the sum over a word; or the end of the row |
| SizeErrors.ErrorIsFirstObstacle | borsh/src/schema/container_ext/max_size.rs:63-153 | for any count, either way of charging and any stack that is clear of finite declarations: the walk fails with an error if and only if that is the first obstacle: an ancestor, a gap, a total over a word, or whatever stops the breaking member, in the order of declaration |
| SizeErrors.MaxSizeErrorExact | borsh/src/schema/container_ext/max_size.rs:37-60 | on every schema and for each error, the computed maximum is that error if and only if it is the first obstacle from the root |
| SizeErrors.FirstGapIsReported | borsh/src/schema/container_ext/max_size.rs:91-93 | of two missing members of a tuple the first is reported |
| SizeErrors.WhicheverComesFirst | borsh/src/schema/container_ext/max_size.rs:84-100 | a recursive row with a member that alone exceeds a word overflows if that member comes first and is recursive if it comes second |
| Schema.MentionedInOrder | borsh/src/schema/container_ext/validate.rs:112-134 | members, variants and fields are gone through in the order in which they are written, each once |
| Schema.CountPanicsExactly | borsh/src/schema/container_ext/max_size.rs:222 | the count of lengths panics for exactly one range, from zero to the largest word, and only where there is no tag |
| MaxSize.BoundIffNotUndercharged | borsh/src/schema/container_ext/max_size.rs:13-40 | on inhabited declarations the returned number bounds every described byte string if and only if it does not undercount the declaration |
| MaxSize.UpperBound | borsh/src/schema/container_ext/max_size.rs:13-40 | a size that does not undercount the declaration bounds every described byte string, inhabited or not |
| MaxSize.Tight | borsh/src/schema/container_ext/max_size.rs:110-146 | and on an inhabited declaration some described byte string is exactly as long |
| MaxSize.EveryCopyBounds | borsh/src/schema/container_ext/max_size.rs:126-136 | with an enum arm that multiplies by its count, as the other arms do, the result always bounds the described byte strings, and is attained on inhabited declarations |
| MaxSize.UnderchargeHasEnumRow | borsh/src/schema/container_ext/max_size.rs:126-136 | undercounting takes a sequence of two or more non-empty enums somewhere below |
| MaxSize.BoundsIffNoEnumRow | borsh/src/schema/container_ext/max_size.rs:126-136 | on an inhabited schema the walk accepts, the results for the declaration and for everything it contains are all upper bounds if and only if it contains no sequence of two or more non-empty enums |
| MaxSize.EnumRowBreaksBound | borsh/src/schema/container_ext/max_size.rs:126-136 | on an inhabited schema the walk accepts, the result at each such sequence is too small: a longer byte string is described |
| MaxSize.WideChoiceIsBounded | borsh/src/schema/container_ext/max_size.rs:126-136 | a schema that contains such a sequence and whose result, 201, is nevertheless a bound |
| MaxSize.VecOptionU64Size | borsh/src/schema/container_ext/max_size.rs:110-136 | the result for a vector of optional 64-bit integers is 13 |
| MaxSize.VecOptionU64Longer | borsh/src/schema/container_ext/max_size.rs:126-136 | for every n that schema describes a byte string of 4 + 9n bytes, which breaks the bound from n = 2 on |
| ZeroSize.IsZeroSizeImpl | borsh/src/schema/container_ext/max_size.rs:188-261 | on every schema ends in the outcome, panic included, and with the very stack, leaked entries included, of the specified walk |
| ZeroSize.All | borsh/src/schema/container_ext/max_size.rs:193-206 | asks the members in turn until one is not empty or fails, passing the stack along |
| ZeroSize.HoldsNothingExactly | borsh/src/schema/container_ext/max_size.rs:220-224 | the early return for arrays is taken for exactly the range that holds zero alone |
| ZeroSize.YesIsEmpty | borsh/src/schema/container_ext/max_size.rs:188-261 | a positive answer is right on any stack: the declaration unfolds to nothing, finitely |
| ZeroSize.NoIsNotEmpty | borsh/src/schema/container_ext/max_size.rs:188-261 | a negative answer is right on any stack |
| ZeroSize.YesMeansNoBytes | borsh/src/schema/container_ext/max_size.rs:156-164 | after a positive answer every described byte string is empty and the size walk returns zero |
| ZeroSize.AnswerIsExact | borsh/src/schema/container_ext/max_size.rs:156-171 | on finite inhabited declarations an answer is positive if and only if every described byte string is empty |
| ZeroSize.GapIsReachable | borsh/src/schema/container_ext/max_size.rs:255-257 | a declaration reported as missing is undefined and reachable |
| ZeroSize.PanicIsReachable | borsh/src/schema/container_ext/max_size.rs:222 | a panic comes from a reachable untagged sequence that permits every length from zero to the largest word |
| ZeroSize.FullRangePanics | borsh/src/schema/container_ext/max_size.rs:222 | at such a sequence the walk panics |
| ZeroSize.AnswerIsDecision | borsh/src/schema/container_ext/max_size.rs:188-261 | on every schema, declaration and stack, cyclic, incomplete or leaking: the walk tells correctly whether the declaration is empty if it meets no obstacle, and otherwise fails as the first obstacle says: a recursion error for a declaration on the stack, among its own ancestors or among the entries an empty sibling left behind, a missing definition, or a panic for an uncountable range; what an empty declaration leaves on the stack is exactly its residue |
| ZeroSize.ZeroSizeExact | borsh/src/schema/container_ext/max_size.rs:165-186 | from an empty stack each outcome, either answer and each kind of error, is given exactly when the first obstacle and emptiness say so, on every schema |
| ZeroSize.PairOfEmptyArraysIsCalledRecursive | borsh/src/schema/container_ext/max_size.rs:220-227 | a pair of two equal empty arrays is empty and acyclic and yet reported as recursive, while the size walk gives zero |
| ZeroSize.PairThenAnything | borsh/src/schema/container_ext/max_size.rs:220-227 | two equal empty arrays hide whatever comes after them, a missing definition included: the row is reported as recursive |
| ZeroSize.PairThenByte | borsh/src/schema/container_ext/max_size.rs:220-227 | two equal empty arrays and then a byte are not empty and not recursive and yet reported as recursive |
| Validate.ValidateImpl | borsh/src/schema/container_ext/validate.rs:57-138 | on every schema ends in the outcome of the specified walk, panic included, and on success leaves the stack as it found it |
| Validate.LengthWidthMeaning | borsh/src/schema/container_ext/validate.rs:44-53 | a length width passes if and only if it is 0, 1, 2, 4 or 8 bytes and the largest length fits it |
| Validate.IsArrayExactly | borsh/src/schema/container_ext/validate.rs:75-81 | exempt from the rules for sequences are exactly the untagged ones of a single length; other untagged ranges are not |
| Validate.CheckIsBreak | borsh/src/schema/container_ext/validate.rs:57-138 | a declaration's own checks give an error if and only if it breaks that very rule, stated by its definition and by the first obstacle and emptiness of its items, with the precedence among the rules |
| Validate.EmptyItemsRefused | borsh/src/schema/container_ext/validate.rs:84-105 | an untagged sequence of more than one length whose items are plainly empty is refused |
| Validate.FailureIsLocal | borsh/src/schema/container_ext/validate.rs:57-138 | every failure is that of one reachable declaration, which is undefined or fails its own checks in just this way |
| Validate.ErrorIsJustified | borsh/src/schema/container_ext/validate.rs:22-42 | every error names a reachable declaration that breaks the very rule the error stands for, and a panic means that an untagged sequence permitting every length is reachable |
| Validate.ReportedExactly | borsh/src/schema/container_ext/validate.rs:57-138 | on every schema and for every error, the panic included: validation reports it if and only if it is the first in the depth-first order of visits, which are to exactly the reachable declarations |
| Validate.PanicsExactly | borsh/src/schema/container_ext/validate.rs:75-81 | on every schema, validation panics if and only if the checks of some reachable declaration do, because it permits every length untagged or because the zero-size walk of its elements first meets a sequence that does, and everything visited before it is in order |
| Validate.PanicsAlone | borsh/src/schema/container_ext/validate.rs:75-81 | in particular, where no other check fails, if and only if an untagged sequence that permits every length is reachable |
| Validate.AcceptedAlong | borsh/src/schema/container_ext/validate.rs:68-71 | though the walk stops at declarations on its stack, after success the end of every path clear of the stack is acceptable |
| Validate.AcceptsGood | borsh/src/schema/container_ext/validate.rs:57-138 | the walk succeeds whenever everything reachable is acceptable |
| Validate.ValidateExact | borsh/src/schema/container_ext/validate.rs:17-20 | validation succeeds if and only if every reachable declaration is defined, meets the rules for its kind and makes no count panic |
| Validate.ZeroSizedRuleExact | borsh/src/schema/container_ext/validate.rs:84-105 | for a sequence that meets the other rules, on any schema: rejected exactly when the zero-size walk meets no obstacle in its items and they are empty, accepted when it calls them recursive, and otherwise failing with the walk's missing definition or panic |
| Validate.VecOfEmptyPairsPasses | borsh/src/schema/container_ext/validate.rs:84-105 | a vector whose items are empty passes validation, because its item type is called recursive |
| Validate.ValidatedSizeIsExact | borsh/src/schema/container_ext/validate.rs:17-20 | on a validated schema whose enums have variants the size is a bound and attained unless it undercounts the declaration, and then it is not a bound |
| Validate.ValidatedHasNoGap | borsh/src/schema/container_ext/validate.rs:28-41 | the size walk never reports a missing definition on a validated schema |
| Bytes.LittleEndianDigit | borsh/src/ser/mod.rs:77-87 | the byte at each position of a written word is its base-256 digit of that weight |
| Bytes.LittleEndianRoundTrip | borsh/src/de/mod.rs:197-211 | reading the little-endian bytes of a word that fits its width gives the word |
| Bytes.LittleEndianCanonical | borsh/src/ser/mod.rs:77-87 | writing the word read from any bytes gives the same bytes |
| Types.WordRoundTrip | borsh/src/ser/mod.rs:77-87 | what is taken for the word of an integer leads back to it, at every width and signedness; which word it is, is the subject of `WireFormat.IntegerBytes` |
| Types.WordCanonical | borsh/src/de/mod.rs:197-211 | every word is the word of the integer it reads as, which is in range and is zero only for the zero word |
| Types.CollectAscending | borsh/src/de/mod.rs:610-677 | collecting items with ascending keys changes nothing |
| Types.CollectKeepsOrder | borsh/src/de/mod.rs:610-677 | whatever is collected has ascending keys and comes from the input; which of the entries with one key, is the subject of `Collecting.CollectKeepsLast` |
| Collecting.CollectKeepsLast | borsh/src/de/mod.rs:640-677 | collecting keeps exactly the items that no later one has the key of, in ascending order |
| Collecting.KeysAreKept | borsh/src/de/mod.rs:640-677 | and of every key that occurs one item is kept |
| Collecting.LenientKeepsLast | borsh/src/de/mod.rs:541-677 | without the order check a set or map, ordered or hashed, decodes from any items to those that are the last with their key |
| Collecting.SecondEntryWins | borsh/src/de/mod.rs:675 | of two entries with one key the second is kept |
| Collecting.ObjectKeepsLast | borsh/examples/serde_json_value.rs:194-216 | a JSON object keeps the last tree of each key |
| WireFormat.IntegerBytes | borsh/src/ser/mod.rs:77-87 | an integer is written as its digits to base 256 with division rounding down, least significant first, so a negative one in two's complement; as many as its type is wide; every integer in the range of the type can be |
| WireFormat.IntegerIsRead | borsh/src/de/mod.rs:197-232 | an integer is read if and only if the next bytes are its digits and it is in range, and not zero where zero is excluded |
| WireFormat.IntegerErrors | borsh/src/de/mod.rs:197-232 | too few bytes are too short whatever they are, and otherwise only the zero of a non-zero type is refused |
| WireFormat.SmallIntegers | borsh/src/ser/mod.rs:77-87 | the bytes of -1, -2 and 258 |
| WireFormat.NaNExactly | borsh/src/ser/mod.rs:141 | the patterns that count as not a number are exactly those with all ones in the exponent and a fraction that is not zero |
| WireFormat.FloatBytes | borsh/src/ser/mod.rs:136-151 | a float is written as the digits of its pattern, infinities included, and refused if it is not a number |
| WireFormat.FloatIsRead | borsh/src/de/mod.rs:275-298 | and read from them in the same way |
| WireFormat.BoolBytes | borsh/src/de/mod.rs:300-314 | true is the byte 1, false the byte 0, and any other byte is refused by name |
| WireFormat.FlagsAreRead | borsh/src/de/mod.rs:316-359 | options and results: what each flag announces is read behind it, and other flags are refused by name |
| WireFormat.TagsAreRead | borsh-derive/src/internals/deserialize/enums/mod.rs:34-58 | the tag of an enum picks the one variant that has it; without one the tag is refused by name |
| WireFormat.KeysAscend | borsh/src/ser/mod.rs:468-507 | the items of a set ascend in the order of its members, those of a map in the order of its keys, every earlier one below every later one |
| WireFormat.RowInTurn | borsh/src/ser/mod.rs:601-622 | the members of tuples and structs are written in turn, and the first error is reported |
| WireFormat.CollectionBytes | borsh/src/ser/mod.rs:243-265 | a string, vector, set or map is its length in four bytes and then its items; too many items are refused whatever they are |
| WireFormat.ZeroSizedFirst | borsh/src/ser/mod.rs:284-295 | items that take no memory are refused before anything else, in both directions |
| WireFormat.CollectionErrors | borsh/src/de/mod.rs:361-422 | an error of the items comes first; then bytes that are no string and, in strict mode, keys out of order are refused as such; nothing else is |
| WireFormat.FirstErrorOfRow | borsh/src/ser/mod.rs:601-622 | writing a row fails with an error if and only if some member has it and all members before can be written |
| WireFormat.ItemsAreFields | borsh/src/ser/mod.rs:243-252 | the items of an array or a collection are written as the members of a row |
| WireFormat.FirstErrorRead | borsh/src/de/mod.rs:886-899 | reading a row fails with an error if and only if some member fails with it on what the members before it leave |
| WireFormat.ItemsAreRow | borsh/src/de/mod.rs:400-422 | the items of an array or a collection are read as the members of a row |
| WireFormat.FirstErrorOfItems | borsh/src/de/mod.rs:400-422 | a collection without a whole length is too short, and otherwise fails as the first of as many items as the length says |
| Codec.FindTag | borsh-derive/src/internals/deserialize/enums/mod.rs:17-24 | the first variant with the tag, or the number of variants when there is none |
| RoundTrip.DecodeEncode | borsh/src/de/mod.rs:300-422 | decoding an encoded value followed by anything gives the value and leaves exactly what follows, for every type, with and without the strict order check |
| RoundTrip.FromSliceOfEncode | borsh/src/de/mod.rs:1033-1043 | decoding a whole encoding gives the value |
| RoundTrip.PrefixFree | borsh/src/ser/mod.rs:160-265 | an encoding that is a prefix of another of the same type is the same value's |
| RoundTrip.EncodeDecode | borsh/src/de/mod.rs:300-677 | a decoded value has the type and can be encoded; in strict mode the bytes consumed are exactly its encoding |
| Prefixes.DecodeStable | borsh/src/de/mod.rs:138-422 | with more input a successful decode gives the same value and only a longer rest, and any error but a premature end stays the same |
| Prefixes.CutShort | borsh/src/de/mod.rs:1033-1043 | every proper prefix of an encoding is refused as too short |
| Prefixes.Continued | borsh/src/de/mod.rs:1033-1043 | an encoding with anything after it is refused as not fully read |
| RoundTrip.StrictIsLenient | borsh/src/de/mod.rs:541-677 | what the strict decoder accepts the lenient one decodes to the same value and rest |
| RoundTrip.LenientReencodes | borsh/src/de/mod.rs:541-677 | any leniently decoded value can be encoded again, and the strict decoder takes those bytes back to it |
| RoundTrip.StrictAcceptsExactlyEncodings | borsh/src/de/mod.rs:1033-1043 | in strict mode a byte string decodes to a value if and only if it is the encoding of that value, so each value has one accepted form |
| Hashing.OrderIrrelevant | borsh/src/ser/mod.rs:424-465 | sorting the entries by key gives the same sequence from every iteration order |
| Hashing.AscendingUnique | borsh/src/ser/mod.rs:424-507 | two collections with the same contents have the same entry sequence |
| Reader.Stream.Read | borsh/src/nostd_io.rs:978-995 | one read copies a prefix of the data into the buffer's unfilled part, removes it from the stream and touches nothing else; how many bytes it delivers is told by the room, the bytes left and the next event |
| Reader.Stream.ReadExact | borsh/src/nostd_io.rs:944-964 | fills the buffer with exactly the next bytes however the reads are split, retries interruptions, and reports the end of input only when too few bytes were left; its outcome and the events it leaves are those of the retrying `Fill` |
| Reader.FillEnds | borsh/src/nostd_io.rs:944-964 | filling succeeds only with enough bytes left and ends early only without; retrying, it never reports an interruption; without failures in the script it reports none |
| Reader.FillUses | borsh/src/nostd_io.rs:944-964 | filling uses a first part of the script; a failure, or an interruption that is not retried, ends it at once with its own error, and if the part holds none it succeeds or the stream has ended |
| Reader.OneReadPerDoubling | borsh/src/de/mod.rs:166-170 | with enough to read, a full buffer takes one read for each doubling up to the length |
| Reader.Resize | borsh/src/de/mod.rs:168-170 | the larger buffer holds the old one's contents and then zeros |
| Reader.VecFromReader | borsh/src/de/mod.rs:158-184 | takes exactly the next `len` bytes; whether it succeeds, ends early or passes on an interruption or failure is told by `len`, the bytes left and the script, as is what it leaves of the script; the buffer never exceeds `len`, nor the larger of a mebibyte and twice the bytes received |
| Reads.InterruptibleIffBulk | borsh/src/de/mod.rs:171-182 | some script without failures interrupts a list of requests if and only if a non-empty bulk request comes before any request that too few bytes are left for |
| Reads.StreamIsSlice | borsh/src/de/mod.rs:55-62 | for every script: decoding a whole stream gives what decoding its bytes gives if and only if no request is interrupted or fails and no failure meets the read at the end; otherwise it gives the interruption or the failure of the request, or reports bytes left over |
| Reads.NoFailureIsSlice | borsh/src/de/mod.rs:55-62 | if no read fails, the outcome is the reported interruption when a request is interrupted, and otherwise that of the bytes, errors included |
| Reads.ImmuneIffNoBulk | borsh/src/de/mod.rs:158-184 | interruptions cannot change what given bytes decode to, wherever they land and however the reads are split, if and only if no bulk read is in reach among their requests |
| Reads.NoBulkIsImmune | borsh/src/de/mod.rs:64-78 | for types that lead to no string and no collection of bytes, reads may be split and interrupted at will |
| Reads.SplittingIsHarmless | borsh/src/de/mod.rs:55-62 | however the reads are split, the outcome is that of the bytes, for every type |
| Reads.DecodeIsPure | borsh/src/de/mod.rs:197-422 | the bytes alone never give an error of the reader |
| Deserialize.BulkBytes | borsh/src/de/mod.rs:188-194 | decoding bytes one by one is taking them in bulk |
| Deserialize.ReadWord | borsh/src/de/mod.rs:138-144 | a word read from the stream is the decoded word of its next bytes, interruptions being retried; an early end is reported as a wrong length; a failed read is passed on |
| Deserialize.DeserializeReader | borsh/src/de/mod.rs:197-422 | the result is determined by the type, the bytes and the script: it is the interruption or failure that stops one of the decoding's requests, if any, and otherwise the decoding of the bytes, errors included, with the stream and its script left at the rest |
| Deserialize.CheckOrder | borsh/src/de/mod.rs:622-637 | the pass over adjacent pairs succeeds if and only if the keys are strictly ascending |
| Deserialize.DeserializeVariant | borsh-derive/src/internals/deserialize/enums/mod.rs:34-58 | the chain of tag comparisons decodes the variant that has the tag, and rejects any other tag |
| Deserialize.DeserializeVec | borsh/src/de/mod.rs:400-422 | a vector read with the bulk path for bytes or item by item is the decoded vector |
| Deserialize.DeserializeArray | borsh/src/de/mod.rs:774-828 | so is an array, with its own bulk path |
| Deserialize.ReadWhole | borsh/src/de/mod.rs:1067-1074 | decoding a whole stream has the specified outcome, a function of the type, the bytes and the script |
| Deserialize.InterruptedVector | borsh/src/de/mod.rs:171-182 | every non-empty vector of bytes whose stream is interrupted right after its length: the bytes decode to the vector and the stream gives the interruption |
| Deserialize.InterruptedBytes | borsh/src/de/mod.rs:158-184 | the same interruption shows for strings and for every collection of bytes |
| Serialize.Sink.Write | borsh/src/nostd_io.rs:678-695 | one write takes as many bytes as the next event accepts and appends them, or fails as the event does and appends nothing |
| Serialize.Sink.WriteAll | borsh/src/nostd_io.rs:504-519 | result, bytes appended and events left are those of `Push` for the length of the buffer: a failure or a write of nothing before the buffer is out ends it |
| Writes.PushExactly | borsh/src/nostd_io.rs:504-519 | writing a buffer fails if and only if a failure, or a write that accepts nothing, comes before the buffer is out; the error is that event's and exactly the bytes accepted before it are written; interruptions are retried |
| Writes.PushUses | borsh/src/nostd_io.rs:504-519 | and no event after the one that takes the last byte is used |
| Writes.PlanIsEncoding | borsh/src/ser/mod.rs:77-265 | what an encoding hands to its sink are the bytes of the encoding, or the bytes before the error it ends in |
| Writes.RefusedUnwritten | borsh/src/ser/mod.rs:284-295 | a collection refused for its items or its length is refused before any byte of it is written, and any other has its length written first |
| Writes.RowPlanInTurn | borsh/src/ser/mod.rs:601-622 | the members of a row are handed over in turn, up to the first error |
| Writes.WillingTakesAll | borsh/src/nostd_io.rs:504-519 | a sink that keeps making progress takes everything, interruptions included, and leaves the error to the encoding |
| Serialize.BulkBytes | borsh/src/ser/mod.rs:65-75 | the encoding of bytes one by one is the bytes themselves |
| Serialize.TwoSlices | borsh/src/ser/mod.rs:372-387 | handing over two slices in turn is handing over their concatenation, errors included |
| Serialize.SerializeValue | borsh/src/ser/mod.rs:77-265 | hands the sink exactly the bytes of the encoding, up to its error if it has one: either every byte is handed over and no bad event was used, or the first bad event ends it, with its own error and a proper first part of the bytes |
| Serialize.SerializeNamed | borsh-derive/src/internals/serialize/enums/mod.rs:22-61 | so for a named struct or enum: fields in order, or tag and then the variant's fields |
| Serialize.SerializeCollection | borsh/src/ser/mod.rs:372-507 | and for vectors, deques in two slices, ordered collections and sorted hash collections |
| Serialize.SerializeSlice | borsh/src/ser/mod.rs:243-252 | the single write for bytes and the item loop hand over the same bytes and fail alike |
| Serialize.SortItems | borsh/src/ser/mod.rs:430-436 | sorting item by item gives the collected sequence |
| Serialize.SerializeRow | borsh/src/ser/mod.rs:601-622 | the members of a tuple or struct in order, up to the first error of a member or of the sink |
| Serialize.ToVec | borsh/src/ser/helpers.rs:13-20 | encoding into a fresh vector gives the encoding, or its error |
| ArrayGuard.ArrayDropGuard.FillBuffer | borsh/src/de/mod.rs:805-813 | however filling ends, the counted slots are initialised and hold exactly what was produced, in order, and no slot after them is initialised |
| ArrayGuard.ArrayDropGuard.TransmuteToArray | borsh/src/de/mod.rs:796-804 | hands out all elements and leaves the guard holding none |
| ArrayGuard.DeserializeArray | borsh/src/de/mod.rs:780-828 | on success, error and panic alike every element produced is handed out or released, exactly once |
| Collection.AddCloses | borsh/src/schema.rs:246-276 | after adding a type, every definition that was added refers only to defined declarations |
| Collection.AddReaches | borsh-derive/src/internals/schema/structs/mod.rs:61-72 | every definition that was added is reachable from the type's declaration |
| Collection.CollectedExact | borsh/src/schema.rs:173-177 | from an empty map, the keys are exactly the declarations reachable from the root, and the set is closed |
| Collection.AddSucceeds | borsh/src/schema.rs:246-265 | without conflicting definitions the collection succeeds on top of whatever was collected before, and each definition is its own type's |
| Collection.PanicIsConflict | borsh/src/schema.rs:246-265 | on top of any map drawn from a closed set of types, a panic takes two types of the set with one declaration and different definitions, and it names that declaration |
| Collection.AddInTurn | borsh/src/schema.rs:246-276 | the types of a row are added in turn, up to the first panic |
| Collection.PanicIffConflict | borsh/src/schema.rs:246-265 | a collection panics if and only if two of the types its type leads to have one declaration and different definitions, given that a guarded type below refers to the same types as any other below with its declaration and definition |
| Collection.PanicOrHidden | borsh/src/schema.rs:246-265 | with nothing assumed: two of the types a type leads to have one declaration and different definitions if and only if the collection panics or leaves some type below without its own definition |
| Collection.ConflictStaysHidden | borsh-derive/src/internals/schema/structs/mod.rs:61-72 | two guarded types with one declaration and one definition that refer to different types: the second finds its definition present, so a conflict below it does not show |
| Generate.ReferencesAreRefs | borsh/src/schema.rs:573-846 | a definition mentions exactly the declarations of the types whose definitions are added along with it, in the same order but for options |
| Generate.FirstPanic | borsh-derive/src/internals/schema/enums/mod.rs:64-74 | an enum panics over what it refers to before it panics over itself; every other type is found to conflict first |
| BuiltIns.NumberNames | borsh/src/schema.rs:436-437 | the declarations of integers and floats, spelled out |
| BuiltIns.NonZeroNames | borsh/src/schema.rs:446-450 | of unsigned non-zero integers |
| BuiltIns.SignedNonZeroNames | borsh/src/schema.rs:441-445 | and of signed ones |
| BuiltIns.SimpleNames | borsh/src/schema.rs:573-591 | of flags, units, strings and arrays, the length in decimal |
| BuiltIns.ChoiceNames | borsh/src/schema.rs:593-636 | of options and results |
| BuiltIns.SequenceNames | borsh/src/schema.rs:638-663 | of vectors, deques and lists |
| BuiltIns.SetNames | borsh/src/schema.rs:723-781 | of ordered and hashed sets |
| BuiltIns.MapNames | borsh/src/schema.rs:703-761 | and of ordered and hashed maps |
| BuiltIns.TupleNames | borsh/src/schema.rs:794-821 | of tuples: a single member is followed by a comma, more are separated by commas |
| BuiltIns.PrimitiveDefinitions | borsh/src/schema.rs:436-454 | the sizes of numbers, flags and units |
| BuiltIns.ChoiceDefinitions | borsh/src/schema.rs:593-636 | the tags and the names of the variants of options and results, and the members of tuples |
| BuiltIns.SequenceDefinitions | borsh/src/schema.rs:573-663 | arrays have no length prefix and one length, collections a prefix of four bytes and any length that fits it |
| BuiltIns.ItemDefinitions | borsh/src/schema.rs:467-761 | strings are collections of bytes and maps of pairs |
| BuiltIns.StructDefinition | borsh-derive/src/internals/schema/structs/mod.rs:86-133 | a derived struct's definition keeps the fields' names, if they have any, their order and their declarations |
| BuiltIns.EnumDefinition | borsh-derive/src/internals/schema/enums/mod.rs:64-74 | a derived enum's definition has tags of one byte and its variants in order, each with its tag, its name and its inner struct's declaration |
| Generate.TableIsSound | borsh-derive/src/internals/schema/enums/mod.rs:64-74 | types that are not guarded structs refer to smaller types only, which is why the collection terminates on recursive types |
| Generate.DefinitionMap.AddOne | borsh/src/schema.rs:246-265 | inserts the definition unless a different one is there; then it fails and the map is unchanged |
| Generate.DefinitionMap.AddRecursively | borsh-derive/src/internals/schema/structs/mod.rs:61-72 | guarded, late and plain types alike terminate and leave the map as the specified collection |
| Generate.DefinitionMap.AddEach | borsh/src/schema.rs:794-846 | the members in turn, as specified |
| Generate.GeneratedExact | borsh/src/schema.rs:173-177 | the keys of a generated schema are exactly the declarations reachable from its root, and none is missing |
| Generate.GenerationSucceeds | borsh/src/schema.rs:173-177 | when no two types share a declaration with different definitions, generation succeeds and gives each declaration its own type's definition |
| Generate.PanicsIffConflict | borsh/src/schema.rs:173-177 | generating the schema of a type panics if and only if two of the types it leads to have one declaration and different definitions, given that structs below with one name and one definition hold the same types |
| Generate.PanicsOrHides | borsh/src/schema.rs:173-177 | with nothing assumed: there is such a conflict if and only if generation panics or its schema lacks the own definition of some type below |
| Generate.DirectlyRecursiveSchema | borsh-derive/src/internals/schema/structs/mod.rs:61-72 | a struct that holds only itself, as through a box: the guard ends the recursion and the schema is its one definition |
| Names.DeclInjective | borsh/src/schema.rs:400-846 | types built from the built-in ones and names that are single words, not built-in and pairwise different have different declarations |
| Names.PlainIsCoherent | borsh/src/schema.rs:246-265 | universes of such types are coherent, so schema generation succeeds on them |
| Names.ConcatenationsCollide | borsh-derive/src/internals/schema/enums/mod.rs:111-141 | a type that leads, anywhere, to two enums with variants whose concatenated names agree while their fields differ makes schema generation panic, given that structs below with one name and one definition hold the same types |
| Names.FooBarBazCollides | borsh-derive/src/internals/schema/enums/mod.rs:111-141 | a well-formed environment where that happens: `Foo` with a variant `BarBaz` next to `FooBar` with a variant `Baz` |
| Names.TwinsCollide | borsh-derive/src/internals/schema/enums/mod.rs:111-141 | generation panics on a pair of enums with one name and one definition, with one variant each, whose inner structs hold a byte and two bytes |
| Names.TwinsExist | borsh-derive/src/internals/schema/enums/mod.rs:111-141 | a well-formed environment with such enums, once in a path `a` and once in `b` |
| Conformance.EncodingConforms | borsh/src/schema.rs:47-122 | over any closed schema with the types' own definitions, the bytes of a value are among those its declaration describes |
| Conformance.SchemaDescribesTheWire | borsh/src/schema.rs:173-177 | when no two types below a type have one declaration and different definitions, the schema generated for it describes the encoding of every value of it, recursive types included |
| Conformance.NamesakesMisdescribed | borsh-derive/src/internals/schema/structs/mod.rs:61-72 | for two structs of one name in different modules, each holding a struct of one further name, generation succeeds although these have different definitions, and the schema does not describe the encoding of a value of the pair |
| Conformance.NamesakesExist | borsh-derive/src/internals/schema/structs/mod.rs:61-72 | an environment with such structs |
| Conformance.GeneratedHasNoGap | borsh/src/schema.rs:173-177 | no analysis of a generated schema meets a missing definition |
| Conformance.GeneratedValidates | borsh/src/schema/container_ext/validate.rs:17-20 | on a coherent universe a generated schema passes validation if and only if no sequence in it has items that the zero-size walk calls empty; nothing panics |
| Conformance.ItemsTakeBytes | borsh/src/schema/container_ext/validate.rs:17-20 | the schema of a type passes validation if the items of every vector, string, set and map in it have a value that takes bytes |
| Conformance.EncodedSizeIsBounded | borsh/src/schema_helpers.rs:49-53 | without such a conflict no value encodes to more bytes than the maximum computed from its type, unless that maximum undercounts the type |
| Conformance.MaximumIsExact | borsh/src/schema_helpers.rs:49-53 | on a coherent universe whose enums have variants, the maximum computed from a type bounds the byte strings its schema describes if and only if it does not undercount the type, and then it is attained |
| Conformance.NoRepeatedEnumIsBounded | borsh/src/schema_helpers.rs:49-53 | where no vector, set or array of more than one element is directly over an enum, no value encodes to more bytes than the maximum computed from its type |
| Conformance.DirectlyRecursiveSize | borsh/src/schema/container_ext/max_size.rs:97-100 | a struct that holds only itself has a schema, and its maximum is a recursion error |
| Conformance.VecOptionU64Schema | borsh/src/schema.rs:593-663 | the schema generated for a vector of optional 64-bit integers |
| Conformance.EncodedSizeExceedsMaximum | borsh/src/schema_helpers.rs:40-53 | for that type the computed maximum is 13 bytes and a value of it encodes to 22 |
| Discriminants.New | borsh-derive/src/internals/enum_discriminant.rs:12-27 | each variant gets its explicit expression, or the previous variant's followed by `+ 1`, from zero |
| Discriminants.DerivedIsAssigned | borsh-derive/src/internals/enum_discriminant.rs:10-22 | what the derive writes for a variant is the value the compiler assigns, whatever the operators mean, if and only if the discriminant is explicit or the last explicit one holds no operator that binds looser than an addition |
| Discriminants.ParsePlusOne | borsh-derive/src/internals/enum_discriminant.rs:22 | the tokens `+ 1` behind an expression add to the whole of it if nothing in it is looser than an addition, and otherwise to the right operand of the operator that is applied last |
| Discriminants.NextDiscriminant | borsh-derive/src/internals/enum_discriminant.rs:22 | with the language's own operators, on numbers that are not negative and without wrap-around, and for an expression whose last applied operator is loose and has nothing loose to its right: the derive's next value is one more if and only if the operator is a left shift of one by zero, or a bitwise one whose left operand has, in the lowest bits that counting the right operand up changes, only ones (and) or only zeros (or, xor) |
| Discriminants.UnionFits | borsh-derive/src/internals/enum_discriminant.rs:22 | after a bitwise union of 4 and 1 both are 6 |
| Discriminants.ShiftGoesWrong | borsh-derive/src/internals/enum_discriminant.rs:22 | after `1 << 2` the derive writes 8 and the compiler assigns 5 |
| Discriminants.UnionRepeats | borsh-derive/src/internals/enum_discriminant.rs:22 | after a bitwise union of 1 and 2 the derive writes the same tag again |
| Discriminants.PositionTags | borsh-derive/src/internals/enum_discriminant.rs:29-49 | positions as tags are pairwise different, and without explicit discriminants both choices of tag agree |
| Discriminants.PositionTag | borsh-derive/src/internals/enum_discriminant.rs:29-49 | under every meaning of the operators the tag by position is worth the position, and there is none beyond 255 |
| Discriminants.TwoOperators | borsh-derive/src/internals/enum_discriminant.rs:22 | of two operators the first is applied last if and only if it binds looser, by the language's levels: products, sums, shifts, and, exclusive or, or |
| Text.Utf8Injective | borsh/src/ser/mod.rs:203-208 | different strings have different bytes |
| Text.CharIsCode | borsh/src/ser/mod.rs:196-208 | a character takes one to four bytes, the fewest that hold it, and they hold the bits of its code point |
| Text.AsciiIsItself | borsh/src/ser/mod.rs:196-208 | a string of ASCII characters is written as their codes |
| Text.InTurn | borsh/src/ser/mod.rs:196-208 | the characters of a string are written in turn |
| ContainerCodec.ContainerTyped | borsh/src/schema.rs:218-230 | every container is a value of the container's derived type |
| ContainerCodec.EntriesExact | borsh/src/schema.rs:223-229 | the definitions are written as exactly the entries of the map, each once, in strictly ascending order of their keys |
| ContainerCodec.ContainerInjective | borsh/src/schema.rs:218-243 | different containers are different values |
| ContainerCodec.ContainerWrites | borsh/src/schema.rs:218-230 | a container can be written if and only if its strings and lists fit 32-bit lengths |
| ContainerCodec.TextBytes | borsh/src/ser/mod.rs:196-208 | a declaration is the number of its bytes, in four, and its bytes |
| ContainerCodec.FirstBytes | borsh/src/schema.rs:47-122 | the first byte of a definition is 0 to 4 by its kind, and the second of a struct 0 to 2 by the kind of its fields |
| ContainerCodec.PrimitiveBytes | borsh/src/schema.rs:49 | a primitive definition is the byte 0 and its size |
| ContainerCodec.SequenceBytes | borsh/src/schema.rs:51-85 | a sequence is the byte 1, the width of its length, the two ends of its range in eight bytes each, and its items |
| SchemaPrefix.BehindSchema | borsh/src/schema_helpers.rs:10-19 | whatever follows a container is decoded as the value, and accepted if and only if the container is the expected one |
| SchemaPrefix.OwnSchemaRoundTrip | borsh/src/schema_helpers.rs:10-30 | on a coherent universe every value written behind its type's generated schema is read back |
| SchemaPrefix.PrefixedWrites | borsh/src/schema_helpers.rs:23-30 | a value can be written behind a schema if and only if the value can be written and the schema's strings and lists fit 32-bit lengths |
| SchemaPrefix.OtherSchema | borsh/src/schema_helpers.rs:10-30 | bytes written behind any schema and read as any type with any expected schema: when they decode they are refused if and only if the two schemas differ, otherwise the error is that of the value |
| SchemaPrefix.OtherPlainTypeRefused | borsh/src/schema_helpers.rs:10-19 | in a universe of plain types, bytes written for one type behind its generated schema are always refused as any other type |
| SchemaPrefix.PrefixedIsPair | borsh/src/schema_helpers.rs:23-30 | the container's bytes followed by the value's are the encoding of the pair of both |
| SchemaPrefix.SchemaPrefixCanonical | borsh/src/schema_helpers.rs:10-19 | in strict mode exactly the prefixed encodings are accepted |
| Environments.SmallestIsReady | borsh/src/schema.rs:218-243 | an environment with the schema's own derived types and a lawful order on all values meets everything the codec and the schema prefix ask for |
| Orders.LessIsLawful | borsh/src/ser/mod.rs:424-465 | a strict total order on all values exists |
| Json.JsonBack | borsh/examples/serde_json_value.rs:114-216 | decoding an encoded tree followed by anything gives the tree and leaves exactly what follows |
| Json.DecodeJson | borsh/examples/serde_json_value.rs:114-147 | every decoded tree has consumed at least one byte, which is why the mutual recursion terminates |
| Json.JsonReencodes | borsh/examples/serde_json_value.rs:16-216 | whatever decodes is a tree that encodes again, to bytes that decode to it |
| Json.CanonicalIffPlain | borsh/examples/serde_json_value.rs:149-216 | the bytes consumed are the encoding of the tree if and only if they hold no non-negative number in the form for negative ones and no object with keys out of order |
| Json.SecondForm | borsh/examples/serde_json_value.rs:44-61 | every non-negative number up to the largest signed one is also accepted in the signed form, which is never written |
| JsonFormat.ConstantBytes | borsh/examples/serde_json_value.rs:16-42 | the bytes of null, false and true |
| JsonFormat.NumberBytes | borsh/examples/serde_json_value.rs:42-69 | a number is the byte 2, the byte of its form, and its digits or its pattern in eight bytes |
| JsonFormat.TreeBytes | borsh/examples/serde_json_value.rs:16-99 | a text is the byte 3 and its string, an array the byte 4 and an object the byte 5, each with its count and its contents; too many are refused whatever they are |
| JsonFormat.ContentsInTurn | borsh/examples/serde_json_value.rs:72-99 | contents are written in turn, and the first error is reported |
| JsonFormat.ContentBytes | borsh/examples/serde_json_value.rs:84-99 | a content is a tree, behind its key if it has one |
| JsonFormat.TreeErrors | borsh/examples/serde_json_value.rs:114-180 | unknown kinds and forms are refused by name |
| JsonFormat.FloatErrors | borsh/examples/serde_json_value.rs:149-180 | an infinite float is refused as such and what is not a number as that, and any other is read |
| JsonFormat.FirstErrorOfContents | borsh/examples/serde_json_value.rs:182-216 | reading the contents fails with an error if and only if some content fails with it on what those before it leave |
| JsonStreams.SerializeJson | borsh/examples/serde_json_value.rs:16-42 | writing a tree hands the sink exactly the bytes of its encoding, up to its error if it has one: either every byte is handed over and no bad event was used, or the first bad event ends it, with its own error and a proper first part of the bytes |
| JsonStreams.SerializeJsons | borsh/examples/serde_json_value.rs:70-99 | and so do the loops over arrays and objects |
| JsonStreams.JsonPlanIsEncoding | borsh/examples/serde_json_value.rs:16-99 | what is handed over for a tree are the bytes of its encoding, or the bytes before the error it ends in |
| JsonStreams.DeserializeJson | borsh/examples/serde_json_value.rs:114-147 | however the reads are split, the result is the decoded tree and the stream is left at its rest, or the interruption or failure that stops one of the tree's requests |
| JsonStreams.DeserializeJsons | borsh/examples/serde_json_value.rs:183-216 | the loops over arrays and objects read the decoded contents |
| JsonStreams.JsonImmuneIffNoBulk | borsh/examples/serde_json_value.rs:114-147 | interruptions cannot change what the bytes of a tree decode to if and only if no bulk read is in reach among their requests |
| JsonStreams.TreeImmuneIffNoText | borsh/examples/serde_json_value.rs:114-147 | the encoding of a tree is read back whatever the interruptions if and only if the tree has no string and no key but empty ones |

## Left out

- MaxSize.UpperBound: holds under the condition that the size does not undercount the declaration, which is exact on inhabited declarations (`MaxSize.BoundIffNotUndercharged`).
- ZeroSize.AnswerIsExact: only for finite inhabited declarations, because an uninhabited one describes no byte string at all; when there is an answer is the subject of `ZeroSize.ZeroSizeExact`.
- Collection.PanicIffConflict: assumes of guarded types that one declaration with one definition refers to the same types; without that a conflict may stay hidden (`Collection.ConflictStaysHidden`), and `Collection.PanicOrHidden` is what remains exact.
- Generate.PanicsIffConflict: under the same assumption.
- Names.ConcatenationsCollide: under the same assumption.
- Discriminants.NextDiscriminant: leaves out expressions with a loose operator to the right of the one applied last, later implicit variants, negative operands and wrap-around.
- Conformance.EncodedSizeIsBounded: carries the condition of `MaxSize.UpperBound`; `Conformance.NoRepeatedEnumIsBounded` gives one on the types.
- Serialize.HashOrder: the hash table's iteration order is any enumeration of the contents; hashing itself is not part of this model.
- The 32-bit branch of the size walk (max_size.rs:119-120): words have 64 bits here.
- Decoding and encoding round trips for recursive types that read no byte before they recur, such as a struct that holds only a box of itself: `Types.WellFormed` demands a rank on structs, because their decoder has no finite run. Schema generation and the schema analyses cover them.
- Memory layout, the test for UTF-8 and the order of keys are parameters; float values are bit patterns.
- Generic parameters in declarations of derived types: named types are taken without parameters.
- The stack after a failed size walk or validation, and the stream after a failed read.
- `object_length` and the writer for `&mut [u8]`: they count or cut off the bytes that `Serialize` appends.
- Capacity hints, error texts, `write_fmt`.
- `skip`, `init`, `serialize_with` and `deserialize_with` fields; generated bounds and token streams.
- `IndexMap`, `IndexSet`, socket addresses, ranges, cells, `Rc`, `Arc`, `Cow`, `Box`, `bytes`, `bson` and `ascii`: foreign types, or wrappers that add nothing to what is encoded.
