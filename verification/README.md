# Partition allocator over a shared JSON text

A model of two parts of the repository, and proofs about them.

**The JSON engine** (`lib/parson.c`). A recursive-descent parser moves a pointer over NUL-terminated bytes; a serializer
is executed twice, once to count and once to write; containers grow by doubling and remove by moving the last element.

- `CText`, `Numbers`, `Values`: buffers, decimal text and the contract asked of `strtod` and `"%f"`, value trees.
- `Utf8`, `StringCodec`, `Spelling`: the UTF-8 check, the two string scanners, the escaper; and every spelling of a
  string.
- `Tables`, `Containers`: objects as member lists, and as the allocated arrays that refine them.
- `Printer`, `Parser`, `ParserCode`: the text of a value and its dry and real production; the parser as a specification
  and as pointer-moving code.
- `Layout`, `Grammar`, `Suffix`: the text from the tokens alone; the documents that the parser accepts, and nothing
  else; parsing does not look back, so a byte-order mark changes nothing.
- `Tokens`, `RoundTrip`, `Texts`, `Brackets`: any spacing of a value's tokens, and so any printed text, is parsed back;
  accepted text is balanced, with one comma between two elements.
- `Comments`, `CommentGaps`, `LineComments`: comment removal leaves printed text alone, and comments in the gaps between
  tokens change nothing, with the exact condition on line comments.
- `Equality`, `Schema`, `SchemaMeaning`: recursive comparison and validation, against meanings and against a decidable
  condition.
- `DotPaths`, `HeapTrees`, `DotPathsCode`, `DeepCopy`: dotted paths as laws, and in-place update and copying of trees in
  the heap, with every node accounted for.

**The allocator** (`producer.c`, `include/algorithms.c`). Threads take a semaphore, read the whole memory state from a
shared text, debit a partition, write the text back, sleep, and later undo it.

- `FitPolicies`: best, first and worst fit.
- `Machine`: the threads as a step machine, independent of what the memory cell holds.
- `Allocator`, `Service`, `Saturation`: the machine on a list of partitions; conservation and the policy's promise over
  all runs, what becomes of each thread, and the exact partition size up to which entries can be relied on.
- `MemoryValue`, `MemoryText`, `SharedText`, `Producer`, `ProducerTree`: the machine on the shared JSON text refines it,
  byte for byte from the shipped schema on; the critical sections as code, on the text and in place on the parsed tree.

Numbers are reals in the tree. The library routines are a record `Lib` with a contract: `strtod` reads a printed integer
exactly and the text of `"%f"` as the rounded number that text denotes, stops inside the buffer and before any quote,
comma, colon, bracket or brace, consumes something at a digit, and at a minus sign exactly when a digit, a point and a
digit, or the words "inf" or "nan" follow; `"%f"` writes a plain decimal of fewer than 1100 bytes. `Numbers.LibExists`
shows that the contract can be met. The two results of `Suffix` also ask that `strtod` does not look at what stands
before its argument.
Every result holds for all routines that meet it; results that need exact numbers are stated for trees whose numbers
are integers of C's int or unsigned int.

Where the code and its comments differ, the model follows the code: the object limit of 960 (lib/parson.c:44) holds for
objects grown from empty, while an object trimmed by the parser with more than 480 members takes no further one
(`Tables.TrimmedTableGrowth`, `Tables.Limits`), which is why 481 appears in the allocator's results. Line comments are
removed by a second pass, after one that does not know them, so a quote or an opening inside a line comment can spoil
what follows it (`LineComments.LineCommentExactly`).

## Model

| member | source | states |
|---|---|---|
| CText.SkipSpaces | lib/parson.c:50 | SKIP_WHITESPACES stops on the first byte that is not white space, before or at the terminator. |
| Numbers.IsDecimal | lib/parson.c:250-263 | The backward scan accepts exactly the texts with no needless leading zero (after an optional minus) and no byte that strchr finds in "xX", the terminator included. |
| Numbers.LibExists | lib/parson.c:775-785 | The contract asked of strtod and of sprintf with "%f" can be met, together with the clause that strtod does not look back. |
| Numbers.DecimalInjective | producer.c:90-92 | Different thread ids are printed as different names, so they are different keys of "processes". |
| Values.FitsByHeight | lib/parson.c:632-635 | A well-formed tree stays within the parser's nesting cap at a given level exactly when level plus height is at most 2048. |
| Utf8.VerifiedIsEncoded | lib/parson.c:196-236 | Whatever verify_utf8_sequence accepts at a position is the RFC 3629 encoding of the scalar value it yields, and it reports that encoding's length. |
| Utf8.EncodedIsVerified | lib/parson.c:196-236 | The encoding of every scalar value, whatever follows it, is accepted with its length and code point. |
| Utf8.IsValidUtf8 | lib/parson.c:238-248 | The checking loop decides exactly whether the bytes are a sequence of accepted encodings. |
| Utf8.ValidUtf8IsEncodedScalars | lib/parson.c:181-248 | A byte string passes the check if and only if it is the concatenation of encodings of some sequence of scalar values. |
| StringCodec.JoinSurrogatesInverts | lib/parson.c:538-548 | Joining a lead and a trail surrogate gives a supplementary code point whose surrogate pair, by section 2.1 of RFC 2781, is that lead and trail. |
| StringCodec.StoredIsEncoded | lib/parson.c:529-552 | The bytes stored for the code point of an accepted escape are its RFC 3629 encoding. |
| StringCodec.SkipBodyUtf16 | lib/parson.c:499-517 | The quote scanner passes over a whole `\u` escape or surrogate pair, never stopping inside it. |
| StringCodec.ScannersAgree | lib/parson.c:565-617 | When skip_quotes delimits a string and process_string accepts it, process_string stops exactly at the closing quote and its output is no longer than the input it consumed. |
| StringCodec.ProcessKeepsUtf8 | lib/parson.c:565-617 | If the bytes between the quotes are valid UTF-8, so is what process_string stores, through all escapes and surrogate pairs. |
| StringCodec.EscapeByteRoundTrip | lib/parson.c:949-1008 | Both scanners undo the escape that json_serialize_string writes for any one non-NUL byte. |
| StringCodec.StringRoundTrip | lib/parson.c:621-630 | The escaped form of any NUL-free string, found anywhere in a buffer and followed by a quote, is delimited at that quote and processed back to the string. |
| Spelling.HexRead | lib/parson.c:165-179 | Four hexadecimal digits of a number, the highest first, each letter in either case, are read as that number. |
| Spelling.UnicodeRead | lib/parson.c:519-560 | The `\u` escape of any scalar value below 0x10000, and the two escapes of the surrogate pair of any other, are read as that value, up to the last digit. |
| Spelling.UnicodeWritten | lib/parson.c:519-560 | Whatever parse_utf16 accepts is the escape text, in some choice of cases, of the scalar value it yields: a lone surrogate is refused, and so is a pair in the wrong order. |
| Spelling.SpellingIsRead | lib/parson.c:565-617 | A string spelled in any mixture of raw bytes, short escapes and `\u` escapes is delimited at its closing quote and stored as the bytes, and the UTF-8 encodings, that were meant. |
| Spelling.ReadIsSpelled | lib/parson.c:565-617 | Whatever both scanners accept is such a spelling, and what is stored is what it means. |
| Spelling.QuotedExactly | lib/parson.c:621-630 | A quoted string is accepted, up to an end, with a value, if and only if a spelling of that value stands there between two quotes: no control byte, no unknown escape, no lone surrogate. |
| Spelling.PrintedSpelling | lib/parson.c:949-1008 | A byte that has a short escape is printed as that, the slash included, any other control byte as four lower-case digits, the rest as itself. |
| Tables.AddRefinesMap | lib/parson.c:347-373 | json_object_add succeeds exactly when the name is absent and there is room, keeps names distinct, and adds one binding to the finite map the object stands for. |
| Tables.PutRefinesMap | lib/parson.c:1688-1707 | json_object_set_value (value without parent) succeeds exactly when the name is present or there is room, and updates the finite map at that name only. |
| Tables.PutKeepsOrder | lib/parson.c:1688-1707 | A new name comes last; a name that is present keeps its place. |
| Tables.RemoveMoves | lib/parson.c:1805-1824 | Removal by moving the last member into the gap leaves exactly the members with other names. |
| Tables.RemoveRefinesMap | lib/parson.c:1805-1824 | json_object_remove succeeds exactly on a present name and removes that binding from the finite map. |
| DotPathsCode.RemoveIsWithout | lib/parson.c:1805-1824 | The last member takes the place of the removed one, and all others stay where they were. |
| Tables.ApplyRefinesMap | lib/parson.c:347-417 | One add, set or remove, on an object of any count and capacity, is accepted exactly when the same call on a finite map of at most `Limit` names is, and leaves the same contents; that limit, which the capacity determines, never changes. |
| Tables.RunRefinesMap | lib/parson.c:347-417 | Over every sequence of add, set and remove, on an object of any count and capacity, the object refines that bounded finite map: the same calls succeed, the contents agree after all of them, names stay distinct and the count within the capacity. |
| Tables.Limits | lib/parson.c:353-357 | The limit is 960 for every capacity grown from empty, the capacity itself above 480, and 496 for an object trimmed to 31 members. |
| Tables.TrimmedTableGrowth | lib/parson.c:699-700 | An object trimmed by the parser takes a new name exactly when it holds at most 480, although the limit is 960. |
| Containers.JsonObject.constructor | lib/parson.c:334-345 | A new object is the empty table with capacity zero. |
| Containers.JsonObject.Resize | lib/parson.c:375-403 | Reallocation changes the capacity only; it fails exactly for capacity zero. |
| Containers.JsonObject.Get | lib/parson.c:1079-1084 | The linear scan returns the value under the first equal name, or nothing. |
| Containers.JsonObject.Add | lib/parson.c:347-373 | On allocated arrays: same outcome and same new members and capacity as the specification, other state unchanged on failure. |
| Containers.JsonObject.Put | lib/parson.c:1688-1707 | On allocated arrays: overwrite in place or append, as the specification. |
| Containers.JsonObject.Remove | lib/parson.c:1805-1824 | On allocated arrays: the last name and value move into the freed slot. |
| Containers.JsonArray.constructor | lib/parson.c:431-441 | A new array is empty with capacity zero. |
| Containers.JsonArray.Resize | lib/parson.c:459-475 | Reallocation keeps the items; it fails exactly for capacity zero. |
| Containers.JsonArray.Add | lib/parson.c:443-457 | Appends the item and doubles the capacity when full; fails exactly when doubling would pass 122880, changing nothing. |
| Containers.GrowthReachesLimit | lib/parson.c:42-44 | Grown from empty by doubling from 15, a container takes a new element exactly while its count is below 960 (object) or 122880 (array). |
| Printer.Sink.Append | lib/parson.c:1019-1024 | sprintf("%s") writes the text and a terminator and nothing else; the dry form writes nothing and advances by the same count. |
| Printer.AppendIndent | lib/parson.c:1010-1017 | Writes four spaces a level. |
| Printer.SerializeString | lib/parson.c:949-1008 | Writes the quoted, escaped string; dry and real execution advance alike. |
| Printer.SerializeValue | lib/parson.c:807-947 | Both executions, with and without a buffer, produce exactly the text of the value at that level and layout, inside the buffer, terminator of every sprintf included. |
| Layout.CompactText | lib/parson.c:807-947 | The compact text is the tokens of the value, run together. |
| Layout.PrettyText | lib/parson.c:807-947 | The pretty text is the same tokens, set by a walk that sees two neighbouring tokens and the depth: a line break after an opening that is not closed at once, after a comma and before a closing, four blanks a level at a line's start, one blank after a colon. |
| Layout.TextLayout | lib/parson.c:1461-1497 | Both serializations of a whole value, byte for byte, in those terms. |
| Layout.NumbersInText | lib/parson.c:919-938 | Integers of C's int and unsigned int are printed in decimal, every other number by "%f". |
| Printer.SerializeArray | lib/parson.c:818-849 | The array loop produces the array's text, commas and indentation included. |
| Printer.SerializeObject | lib/parson.c:850-897 | The object loop produces the object's text, looking each value up by its name. |
| Printer.NumberFitsScratch | lib/parson.c:919-938 | The text of any number fits the 1100-byte scratch buffer of the dry execution. |
| Printer.SerializationSize | lib/parson.c:1420-1424 | The dry execution returns exactly the length of the text plus one. |
| Printer.SerializeToBuffer | lib/parson.c:1426-1437 | The real execution succeeds exactly when the buffer has that many bytes, and then fills them with the text and a terminator, leaving the rest of the buffer alone. |
| Printer.SerializeToString | lib/parson.c:1461-1478 | The allocated buffer is exactly the text followed by a terminator, in both layouts. |
| ParserCode.Cursor.SkipWhitespace | lib/parson.c:50 | The pointer moves to the first byte that is not white space. |
| ParserCode.Cursor.SkipQuotes | lib/parson.c:499-517 | The pointer moves past the closing quote exactly when there is one before the terminator, and never beyond the terminator. |
| ParserCode.StoreUtf16 | lib/parson.c:519-560 | Stores exactly the specified bytes, within the buffer, and leaves the input pointer on the last hexadecimal digit. |
| ParserCode.ProcessString | lib/parson.c:565-617 | The loop computes the specified text; the buffer of delimited length plus one is never exceeded. |
| ParserCode.GetQuotedString | lib/parson.c:621-630 | A quoted string is returned as specified, cut at a stored NUL, with the pointer after the closing quote. |
| ParserCode.ParseLiteral | lib/parson.c:762-773 | A literal is accepted exactly where its bytes stand, and the pointer moves past it. |
| ParserCode.ParseNumber | lib/parson.c:775-785 | A number is accepted exactly when strtod sets no error and the consumed text is decimal. |
| ParserCode.ParseValue | lib/parson.c:632-655 | On every NUL-terminated input the recursive parser terminates, agrees with the specification on outcome, value and end, never moves back, and stays before or at the terminator. |
| ParserCode.ParseItem | lib/parson.c:720-737 | One round of the array loop: failure, end of the list, or a further round, and then the pointer has just passed a comma and the blank space after it. |
| ParserCode.ParseArray | lib/parson.c:708-746 | The array loop yields the specified array, trimmed to its count, and advances on success. |
| ParserCode.ParseMember | lib/parson.c:670-697 | One round of the object loop: name, colon, value, insertion refused for a repeated name, and a further round only just after a comma and its blank space. |
| ParserCode.ParseObject | lib/parson.c:657-706 | The object loop yields the specified object with distinct names, trimmed to its count. |
| ParserCode.ParseString | lib/parson.c:1052-1060 | The entry point skips a byte-order mark and returns the value of the specification. |
| Tokens.RereadIntegers | lib/parson.c:919-938 | On trees whose numbers are integers of C's int or unsigned int, what is read back differs from the original only in spare capacity. |
| Tokens.QuotedRoundTrip | lib/parson.c:621-630 | A printed string anywhere in a buffer is parsed back, ending right after its closing quote. |
| Tokens.NumberParsed | lib/parson.c:775-785 | A printed number followed by the end of a value is parsed back: integers exactly, others as rounded by "%f". |
| RoundTrip.ValueRoundTrip | lib/parson.c:632-794 | The text of any well-formed value, at any level and layout, anywhere in a buffer and followed by NUL, white space, `,`, `]` or `}`, is parsed back to that value, member order included, ending exactly at the continuation, if depth and counts are within the caps; otherwise parsing fails. |
| Tokens.TokensRoundTrip | lib/parson.c:632-794 | Any text that reads as the tokens of a well-formed value, whatever blank space lies between them, anywhere in a buffer, is parsed to that value, ending after its last token, if depth and counts are within the caps; otherwise parsing fails. |
| Tokens.ArrayRoundTrip | lib/parson.c:708-746 | The same for arrays, with the exact condition under which the caps refuse. |
| Tokens.ObjectRoundTrip | lib/parson.c:657-706 | The same for objects. |
| RoundTrip.PrintReads | lib/parson.c:807-947 | The text of any value, at any level and layout, reads as exactly the tokens of the value, and ends after the last. |
| Texts.PrintNulFree | lib/parson.c:807-947 | No text of a well-formed value contains a NUL byte, so the text is a C string of its full length. |
| Grammar.DocParsed | lib/parson.c:632-794 | A document, in any spelling and spacing, that stands in the buffer is parsed to what it denotes, up to its last token, if depth is at most 2048, arrays have at most 122880 items and objects at most 960 members with distinct names; otherwise parsing fails. |
| Grammar.ParsedIsDoc | lib/parson.c:632-794 | Whatever the parser accepts is the sequence of tokens of some document. |
| Grammar.ParserAcceptsExactly | lib/parson.c:632-794 | A value is parsed at a position, up to an end, if and only if a document that denotes it stands there within those limits: the parser accepts its grammar and nothing else. |
| Grammar.AcceptedNumber | lib/parson.c:250-263 | An accepted number starts with a minus sign or a digit and has no needless leading zero and no x. |
| Grammar.AcceptedString | lib/parson.c:595 | An accepted string has no raw byte below 0x20 between its quotes. |
| Suffix.ParsedFromSuffix | lib/parson.c:632-655 | Outcome and value depend only on the bytes from the position on, and the end moves with them. |
| Suffix.MarkIsSkipped | lib/parson.c:1056-1058 | A text after one byte-order mark is parsed to the outcome and value of the text alone, three bytes on. |
| Texts.TextRoundTrip | lib/parson.c:1461-1497 | Printing at any level in either layout and parsing the result gives the value back exactly when its height is at most 2048. |
| Texts.IntegerTextRoundTrip | lib/parson.c:1052-1060 | For integer trees the value comes back unchanged apart from spare capacity. |
| Texts.LayoutIndependence | lib/parson.c:822-848 | For every value, the texts of any two layouts and starting levels parse with the same outcome and to the same value. |
| Texts.SpacedTextRoundTrip | lib/parson.c:1052-1060 | A whole text with the tokens of a value, spaced in any way, parses to the value exactly when its height is at most 2048. |
| Texts.SpacingIndependence | lib/parson.c:50 | Any two texts with the tokens of one value parse with the same outcome and to the same value, however they are spaced. |
| Texts.ParsedIsSound | lib/parson.c:632-746 | Whatever the input, a parsed value has distinct names, C strings, counts and depth within the caps, and no spare capacity. |
| Texts.QuotedStringKeepsUtf8 | lib/parson.c:621-630 | A string whose quoted bytes are valid UTF-8 is stored as valid UTF-8, also when a stored NUL cuts it short. |
| Texts.ReparseIsIdentity | lib/parson.c:1052-1060 | Printing a parsed integer tree and parsing it again gives the identical value. |
| Brackets.WalkValue | lib/parson.c:632-794 | Read by a walk that only counts brackets and tracks strings, every value the parser accepts is balanced: the walk leaves it at the depth, and with the top-level commas, that it had before. |
| Brackets.ItemsPaidByCommas | lib/parson.c:720-737 | A parsed array that is not empty has exactly one item more than commas directly between its brackets, nested and quoted commas not counted. |
| Brackets.MembersPaidByCommas | lib/parson.c:670-697 | A parsed object that is not empty has exactly one member more than commas directly between its braces, nested and quoted commas not counted. |
| Texts.SuccessAdvances | lib/parson.c:632-655 | A successful parse never ends before its first byte that is not white space, and advances past it if and only if that byte is not a minus sign or something that strtod converts follows the sign. |
| Texts.LoneMinusIsZero | lib/parson.c:775-785 | A lone minus sign is accepted as zero without consuming it: success does not always advance. |
| Comments.RemoveComments | lib/parson.c:298-331 | In place, the buffer becomes the specified stripped text, of the same length, still terminated; nothing is written past it. |
| Comments.PrintNeutral | lib/parson.c:949-1008 | Scanned from outside a string, no printed text ever shows a comment token outside a string, and the scan ends outside a string. |
| Comments.StripKeepsPrinted | lib/parson.c:298-331 | Both passes leave the text of every value unchanged, whatever its strings contain. |
| Comments.CommentIsBlanked | lib/parson.c:298-331 | A comment met outside strings is overwritten with as many blanks, up to its first closing token, and the text after it is stripped on its own. |
| Comments.UnclosedComment | lib/parson.c:314-321 | Of a comment that is never closed only the opening is overwritten; nothing after it is changed or looked at. |
| CommentGaps.CommentsIgnored | lib/parson.c:1062-1075 | Block comments, line comments and white space in any gap before, between and after the tokens of a value leave outcome and value as they are, if the line comments are harmless: the first pass sees no open string or block comment at the end of the line, and no star after the two slashes. |
| LineComments.LineCommentExactly | lib/parson.c:1070-1071 | That condition on a line comment is exact: a one-line comment leaves every value it may stand in or beside as it is if and only if it is harmless. |
| Comments.ParseStringWithComments | lib/parson.c:1062-1075 | The entry point parses the text left by the two passes. |
| Comments.CommentsRoundTrip | lib/parson.c:1062-1075 | The comment-tolerant parser returns every printed value as the plain one does. |
| Equality.ValueEquals | lib/parson.c:1916-1978 | The recursive comparison with its two loops decides the specified relation. |
| Equality.EqualsMeansClose | lib/parson.c:1916-1978 | On all trees with distinct names, one-directional lookup with equal counts decides whether the values are close with objects read as unordered maps. |
| Equality.NumbersEqualExactly | lib/parson.c:1970 | Two numbers are equal if and only if a million times their difference lies strictly between -1 and 1. |
| Equality.EqualsDecidesMeaning | lib/parson.c:1916-1978 | On trees whose numbers have at most six decimals, integer trees among them, it is true exactly when the two denote the same value with objects read as unordered maps. |
| Equality.EqualsSymmetric | lib/parson.c:1941-1956 | Symmetric on all trees with distinct names. |
| Equality.EqualsReflexive | lib/parson.c:1916-1978 | Reflexive on all trees with distinct names. |
| Equality.EqualInTwoSteps | lib/parson.c:1916-1978 | Two trees have some tree equal to both between them if and only if they are equal within twice the tolerance. |
| Equality.TransitiveExactly | lib/parson.c:1916-1978 | From a to c, equality is transitive over all trees between them if and only if a and c, when within twice the tolerance, are equal. |
| Equality.EqualsTransitive | lib/parson.c:1916-1978 | Transitive from one integer tree to another, over any tree between them. |
| Equality.DecimalsTransitive | lib/parson.c:1916-1978 | Transitive among trees whose numbers have at most six decimals. |
| Equality.FractionsNotTransitive | lib/parson.c:1968-1969 | With fractions it is not transitive, because of the tolerance. |
| Schema.Validate | lib/parson.c:1856-1914 | The recursive check with its two loops decides the specified relation. |
| SchemaMeaning.ValidatesExactly | lib/parson.c:1856-1914 | A value passes if and only if it meets every demand of the schema: at each path through first items and members of the schema, whatever lies on that path in the value, through every item, is there and of the kind; counting members refuses nothing else. |
| SchemaMeaning.ArraysSplit | lib/parson.c:1879-1887 | A concatenation of arrays passes an array schema exactly when both parts do. |
| SchemaMeaning.OneItem | lib/parson.c:1870-1878 | An array of one item passes exactly when the schema array is empty or the item passes its first item; the empty array always passes. |
| SchemaMeaning.OneMoreMember | lib/parson.c:1888-1908 | One more member in an object schema is exactly one more demand: the name is there and its value passes. |
| Schema.CompositionExactly | lib/parson.c:1856-1914 | For schemas s and t: every value valid for t is valid for s if and only if s covers t, a condition decided on the schemas alone. |
| Schema.ValidIsCovered | lib/parson.h:94-103 | A schema without empty arrays that is itself valid for s is covered by s. |
| Schema.ValidationComposes | lib/parson.h:94-103 | If t is valid for s, has no empty array, and v is valid for t, then v is valid for s. |
| Schema.EmptyArrayBreaksComposition | lib/parson.c:1874-1879 | With an empty schema array composition fails: a concrete case. |
| DotPaths.SetThenGet | lib/parson.c:1725-1755 | After a successful dotset, the path gives the value, a path below it reads inside the value, a path above it is an object, and every other path reads as before. |
| DotPaths.SetKeepsOthers | lib/parson.c:1725-1755 | Whatever the outcome, paths that are neither prefixes nor extensions of the set path, component by component, read as before. |
| DotPaths.FailedSetChangesNothing | lib/parson.c:1725-1755 | A failing dotset of a value without parent changes nothing at all. |
| DotPaths.SetSucceedsExactly | lib/parson.c:1725-1755 | A value without parent is set exactly when, in the deepest object that exists along the path, the last component is present or there is room for it, or the next one is absent and there is room: a free slot, or a capacity of at most 480. |
| DotPaths.AttachedIsRefusedLate | lib/parson.c:1691-1693 | A value that has a parent is always refused; the objects created on the way stay behind, and exactly when some object was missing and could be created. |
| DotPaths.RemoveThenGet | lib/parson.c:1826-1841 | dotremove succeeds exactly on a present path, makes it and its extensions absent, and leaves unrelated paths as before; a failing call changes nothing. |
| DotPaths.SetThenRemove | lib/parson.c:1826-1841 | dotset followed by dotremove: exactly that path and its extensions become absent, and unrelated paths are as before both calls. |
| HeapTrees.NewScalar | lib/parson.c:1309-1339 | A new scalar value is a newly allocated node of its own. |
| HeapTrees.AddHere | lib/parson.c:347-373 | In the heap: adding a tree to an object of a disjoint tree gives a tree that stands for the specified value, or leaves it alone. |
| HeapTrees.AddItem | lib/parson.c:443-457 | The same for an array. |
| DotPathsCode.SetHere | lib/parson.c:1688-1707 | In the heap: json_object_set_value on the object at the root of a tree does what the specification says, and the result is again a tree. |
| DotPathsCode.RemoveHere | lib/parson.c:1805-1824 | In the heap: json_object_remove, likewise, without new nodes. |
| DotPathsCode.ReachObject | lib/parson.c:1738-1752 | The object under the first component is found, or created and found again. |
| DotPathsCode.SetPath | lib/parson.c:1725-1755 | In the heap: changing the nested object in place gives a tree that stands for exactly the specified value; its new nodes are newly allocated or come from the value set. |
| DotPathsCode.RemovePath | lib/parson.c:1826-1841 | In the heap: the nested removal gives a tree that stands for the specified value, from the nodes it had. |
| DeepCopy.Copy | lib/parson.c:1341-1418 | With allocation assumed, copying any tree succeeds and gives a tree of newly allocated nodes only, its scalars and strings included, disjoint from the source, standing for the same value. |
| DeepCopy.CopyArray | lib/parson.c:1350-1369 | No json_array_add of the loop fails, and the items are copied in order. |
| DeepCopy.CopyObject | lib/parson.c:1370-1391 | No json_object_add of the loop fails, and the members are copied in order. |
| DeepCopy.RegrownIsSame | lib/parson.c:1341-1418 | The copied value differs from the original in capacities only. |
| DeepCopy.GrownExactly | lib/parson.c:353-357 | Grown from empty to n elements, a container has the least capacity of 15, 30, 60 and so on that holds them. |
| FitPolicies.SearchIndex | include/algorithms.c:38-83 | The loop with its early exit returns the index that the policy promises: the least that fits, the least among those of least adequate space, or the least among those of most space; -1 exactly when none fits. |
| FitPolicies.Search | include/algorithms.c:45-82 | The specification function meets that promise for every list of free spaces. |
| FitPolicies.TruncatesTowardsZero | include/algorithms.c:48 | The free space read as an int is the number with its fraction dropped, towards zero. |
| FitPolicies.ChosenIsUnique | include/algorithms.c:52-77 | The promise determines the index. |
| FitPolicies.AdmissionIgnoresPolicy | include/algorithms.c:38-83 | Whether a process is admitted to a given memory does not depend on the policy. |
| Machine.StepKeepsMutex | producer.c:108-172 | Every step keeps semaphore value plus holders equal to one. |
| Machine.OneHolder | producer.c:108-172 | No two threads are between sem_wait and sem_post. |
| Machine.StepKeepsCurrent | producer.c:118-147 | What a thread has read is still what the memory holds when it decides and writes. |
| Machine.StepKeepsIds | producer.c:90-92 | Live threads keep different ids. |
| Machine.NoDeadlock | producer.c:108-172 | While some thread is unfinished, some thread can step. |
| Machine.StuckIsFinished | producer.c:84-176 | If no thread can step, every thread has finished. |
| Machine.RunsEnd | producer.c:84-176 | With n threads created, a run makes at most 8n other steps, beyond those the threads present at its start still have. |
| Allocator.StepKeepsPlaced | producer.c:121-134 | A decided index always has the space it was chosen for, and remembered indices are partitions. |
| Allocator.StepKeepsBalanced | producer.c:131-161 | Every step keeps 0 <= free <= size and free plus residents' sizes equal to size, in every partition. |
| Allocator.StepKeepsFitting | producer.c:121 | Every step keeps each decided index the one that the policy promises for the thread's size in the memory as it is. |
| Allocator.AdmittedExactly | producer.c:121-150 | A thread that has decided leaves without a partition if and only if every partition has less free space than its size; otherwise it debits the promised one. |
| Allocator.EntriesBounded | producer.c:94-143 | A partition has no more entries than the space taken in it. |
| Allocator.ListedEntry | producer.c:135-143 | Allocation lists the thread, and no other, in the partition it moves into. |
| Allocator.ListedExit | producer.c:163-167 | The return removes exactly the thread's own entry. |
| Allocator.StepKeepsBacked | producer.c:131-167 | Every step keeps every entry that of a thread holding space in that partition, names distinct, and at most 481 of them. |
| Allocator.RunsAreSafe | producer.c:84-176 | For any memory, number of threads, interleaving and policy: mutual exclusion, conservation, unchanged partition sizes, every decision the promised one, and no entry without its thread between allocation and return; with partitions of size up to 481, entries and such threads correspond one to one. |
| Allocator.QuiescentIsInitial | producer.c:131-170 | Whenever no thread occupies a partition, the memory is exactly the initial one, whatever the partition sizes. |
| Service.EveryPhaseIsEarned | producer.c:84-176 | Over every run, each thread has behind it what its phase takes: a remembered partition was decided on when it was the promised one, and from the first sleep on it was slept in. |
| Service.LeaversWereServed | producer.c:121-172 | A thread that has left was, at some moment of the run, refused because no partition had its size free, or it decided on the promised partition and slept there. |
| Service.ResidentsWereChosen | producer.c:121-155 | A thread that holds space in a partition decided on that partition at a moment when it was the promised one. |
| Saturation.ArrivalRuns | producer.c:108-150 | While the semaphore is free, any valid job with a new id can run through the first critical section: into the partition that the search gives, or out if it gives none. |
| Saturation.DepartureRuns | producer.c:152-172 | While the semaphore is free, a sleeping thread can run to its end, and its partition is credited. |
| Saturation.Fill | producer.c:84-150 | From any settled state, unit-size threads can fill the memory completely. |
| Saturation.EntriesAreResidentsExactly | producer.c:143 | Entries are the residents in all runs if and only if no partition is larger than 481: beyond that, set_value fails unnoticed and a resident goes unlisted. |
| MemoryValue.DebitedIsAllocate | producer.c:131-143 | The changes made to the parsed value on allocation are the allocation step on the partition list, spare capacity apart. |
| MemoryValue.CreditedIsRelease | producer.c:158-167 | The changes made on return are the release step on the partition list. |
| MemoryValue.ProcessPath | producer.c:163-167 | The path "processes." plus the printed id has exactly those two components. |
| MemoryValue.FreeSpacesEncode | include/algorithms.c:47-48 | The numbers that the search reads from the value are the free spaces of the partition list. |
| MemoryText.ReadIsEncode | producer.c:214-217 | Parsing the stored text, pretty-printing it and parsing that gives the memory value back. |
| MemoryText.ReadIsTwice | producer.c:214-217 | Of any stored value the reader gets what two prints and two parses make of it, or nothing if its height is above 2048. |
| MemoryText.PrintTrimmed | lib/parson.c:807-947 | Spare capacity is not printed. |
| MemoryText.SearchRefines | producer.c:118-121 | Searching the stored text gives the index that searching the partition list gives. |
| MemoryText.AllocateRefines | producer.c:118-147 | Read, debit, enter, serialize and store gives the text of the allocated partition list. |
| MemoryText.ReleaseRefines | producer.c:155-170 | Read, credit, remove, serialize and store gives the text of the released partition list. |
| MemoryText.StepKeepsEncodable | producer.c:118-170 | Every step keeps the memory printable: numbers within int, names distinct and counts within the caps. |
| MemoryText.TextRunsRefine | producer.c:84-176 | The machine on the shared text and the machine on partitions make the same runs and correspond after each; so the text always denotes a balanced partition list without an entry whose thread is not there, every decision is the promised one for the free spaces in the text, and, with partitions of size up to 481, the text lists all residents. |
| MemoryText.QuiescentTextIsInitial | producer.c:84-176 | Whenever no thread occupies a partition, the shared text is byte for byte the initial one, whatever the partition sizes. |
| MemoryText.SchemaIsStorable | schema.json:1-36 | The shipped partitions meet the conditions of these results. |
| SharedText.TextIsJson | producer.c:143-147 | The shared text of every memory, byte for byte: an array of objects with "size", "free_space" and "processes", the latter with "size" and "delay" under each printed id. |
| SharedText.EncodeInjective | producer.c:131-147 | Different memories have different values. |
| SharedText.TextInjective | producer.c:131-147 | Different memories have different texts. |
| SharedText.FileIsParsed | schema.json:1-36 | A file in the layout of the schema, with any sizes, is parsed to the memory value of free partitions of those sizes, to its last byte. |
| SharedText.SchemaFileIsSchema | schema.json:1-36 | The shipped file is parsed to the seven shipped partitions, and the first shared text is their text. |
| Producer.Cell.constructor | initializer.c:40-42 | The file starts as the compact text of the schema value. |
| Producer.Cell.Read | producer.c:214-217 | The imperative parser and printer compute the specified reading of the file. |
| Producer.Cell.Write | producer.c:235-298 | The file becomes the compact text of the value. |
| Producer.Cell.Enter | producer.c:118-147 | The first critical section leaves the file as the machine's allocation step says, or untouched when nothing fits. |
| Producer.Cell.Leave | producer.c:155-170 | The second critical section leaves the file as the machine's release step says. |
| Producer.EnterIsSteps | producer.c:118-147 | Index and file of the first section are those of the machine's steps from the entered phase to the decided or recorded one. |
| Producer.LeaveIsSteps | producer.c:155-170 | The file of the second section is that of the machine's two steps from the second wait to the return. |
| ProducerTree.ObjectAt | lib/parson.c:1191-1193 | The object at an index, or nothing if the index is outside the array or no object stands there. |
| ProducerTree.DebitHere | producer.c:132-143 | In the heap: one partition pays for the job and takes its entry, in place, and stays a tree; its new nodes are newly allocated. |
| ProducerTree.CreditHere | producer.c:159-167 | In the heap: one partition gets the space back and loses the entry, in place. |
| ProducerTree.Debit | producer.c:131-143 | In the heap: these statements turn a tree that stands for the parsed memory into a tree that stands for the debited one, whatever the parsed value is. |
| ProducerTree.Credit | producer.c:158-167 | The same on the return: the tree then stands for the credited memory. |

## Left out

- Allocation failure, freeing and leaks: every allocation succeeds, and freed nodes are simply no longer reachable.
- Parent pointers: whether a value has a parent is a parameter of the dotted-path calls, not a field.
- Rounding of doubles, infinities and NaN: numbers are reals, and "%f" is known only through the contract of `Lib`.
- Overflow of the int `written_total` for texts of 2 GB and more.
- `isspace` on bytes of 128 and above: the C locale is assumed.
- Conversion of a double outside int to int in the free-space reads, which C leaves undefined.
- Printer.SerializeObject: requires distinct names, as every object built through the engine has.
- StringCodec.StringRoundTrip: strings with an embedded NUL are out, since the engine prints C strings; such a string is
  cut at its first NUL when parsed (`ParserCode.GetQuotedString`).
- Texts.IntegerTextRoundTrip: fractional numbers come back rounded as "%f" rounds them, which `Texts.TextRoundTrip`
  states.
- Grammar.ParserAcceptsExactly: a numeral is what `strtod` consumes; which texts it converts, and to which numbers, is
  left to the contract of `Lib`.
- ParserCode.ParseValue: the finished containers are read off as values; ownership of their nodes is followed in
  `HeapTrees` only.
- Producer.Cell.Enter: the changes to the parsed value are made on a value; the same statements in the heap are
  `ProducerTree.Debit` and `ProducerTree.Credit`, whose trees are not those the parser builds.
- DeepCopy.Copy: in the heap a scalar is one node, a string's bytes included, and a container is one node with its
  allocated arrays: the json_value_t around it is not a node of its own.
- CommentGaps.CommentsIgnored: a line comment ends with its line; one that the end of the text cuts off keeps all but
  its two slashes, which the engine then reads as trailing text.
- Producer.Cell.Write: the file, its stretching and its mapping are one cell of text that is replaced.
- The waiting-list file: it is updated outside the semaphore, so there is no whole-run property to state of it; spy.c
  also reads without the semaphore.
- Process creation delays, sleeping times, random draws, logging, menus, signals and shared-memory bookkeeping: size and
  delay of a thread are arbitrary ints, the size at least one.
- The branch of `search_index` for an unknown algorithm, which only prints a message.
- Typed getters and setters, array replace, append and clear functions, and file reading in `lib/parson.c`: thin
  wrappers.
- `binnacle.c`, `main.c`, `killer.c` and `examples/`: no further logic of this kind.
