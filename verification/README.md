# PS4 Northstar's portable code, modelled and proved

PS4 Northstar's launcher keeps its format readers, converters and merge rules in portable headers under
`launcher/include/northstar_ps4`, with a few allocators and tables in `launcher/src/runtime.cpp`. This project models
that code in Dafny and proves what it is for. `dafny verify dfyconfig.toml` checks everything.

Code that changes things step by step is a method or a class here, proved against a specification function; what the
source promises is then proved of that function.

| part | modules | main results |
|---|---|---|
| DEFLATE | Bits, Crc32, CrcRemainder, Canonical, Deflate, DeflateExact, DeflateTables, Inflater, Substrings | decoding succeeds exactly on legal encodings, with their LZ77 expansion, length and CRC; the tables leave no length or distance out; the CRC is the remainder of a division of polynomials |
| RPak textures | RpakTextures, RpakMips, RpakPages, RpakBytes, RpakImage, RpakLayout, RpakSpecs, RpakRelocate, RpakConvert, RpakMoves, RpakKept, RpakTidy, RpakSizes, RpakStreams, RpakAgain, RpakLast, RpakSettled, RpakTwins, RpakGate, RpakConverter, RpakResult, RpakBlocks, RpakSingle, RpakRecords, RpakMarks | references keep their meaning, bytes survive, every block of every mip stands where its row and column say for the bytes of its header, mips read back, slab totals hold, and exactly when a second conversion is the identity and which outputs the runtime accepts |
| KeyValues | KeyValues, KeyValuesTokens, KeyValuesGrammar, KeyValuesRoundTrip, KeyValuesMerge, KeyValuesLanding, KeyValuesLoss | exactly which texts parse to a list, comments included; an exact round trip, a merge the lists alone determine, idempotent merges, and exactly when the loss check passes |
| Regex | Regex, RegexCost | the matcher agrees with a declarative meaning of patterns, takes exactly the steps its cost function says, and is bounded without nested repetition |
| Manifest and files | Manifest, ModIndex | the script list is the declarative grouping; the index agrees with the backwards walk |
| Heap arena | Arena, ArenaRuns | the allocator in bytes, and its invariants over every interleaving of threads |
| LZSS | Lzss | decoding an encoder's output is exact, and exactly which buffers are safe |
| JSON and settings | JsonText, JsonTree, JsonEscape, JsonLenient, JsonAgree, JsonComments, JsonStable, JsonFields, Settings, SettingsKept, SettingsComments | the accepted documents are exactly the texts of value trees; the two readers agree on every one; with comments or without, setting an entry and reading entries back agree |
| Persistence definitions | PdefText, PdefDefinition, PdefSize, PdefApply, PdefChanges, PdefEnums | definitions and changes read as they are meant; the memoised size is the plain recursive one, with an exact failure condition; what a change does to the rest |

Arithmetic and Options hold shared facts and the option type.

## How the source's terms appear

- A NUL-terminated pointer is a text with a position in methods, and the text left to read in specification functions;
  reading past the end gives NUL.
- `std::vector` and `std::string` values that are edited in place are `seq` variables; a reference parameter is an input
  and an output.
- A DEFLATE source is its input bytes; a sink is what it has taken and a predicate saying which of its writes it accepts.
- The regex matcher's continuations are a list of frames, one for each lambda in the source.
- The arena's lock is part of the state: flags change one page at a time under it, and zeroing is one step a page
  after it is released, so that every interleaving is a sequence of these steps.

## Where the code and its claims part

- KeyValues: the comment above the loss check says a merge only ever changes the first copy of a key and appends, so
  the n-th copy stays the n-th, and that a failed check means the merge lost data. A wholesale replacement that changes
  an entry's condition shifts the count. `KeyValuesLoss.KeepsExactly` says exactly when the check passes, entry by entry
  of the patch: appended, merged block into block, replaced under the same condition, or a change of condition under
  which the shifted copies and the first entry of the key still match. `KeyValuesLoss.ShiftedCopiesRefused` is a merge
  that loses nothing and is refused.
- RPak: converting what was converted changes nothing exactly when the last write that lands on each texture's platform
  byte leaves 8 (`RpakSettled.SecondExactly`, `RpakResult.ConvertingAgain`). Headers that overlap break it:
  `RpakTwins.TwinArchive` is an archive, for any 32 bytes of pixels, that the converter accepts and that a second
  conversion changes or refuses.
- RPak: the converter does not limit the size of an archive's tables, the runtime's inspection does (16 MiB).
  `RpakResult.OutputPasses` has that condition.
- LZSS: the 32-bit total wraps for buffers of 2^32 - 16 bytes or more. `Lzss.FullBufferOverflows` is a stream that is
  then written past the end of the buffer, and `Lzss.SafeExactly` says that none is exactly for smaller buffers.
- The lenient JSON reader allows comments anywhere, but behind a number or a word it runs to the next delimiter even inside
  a comment: `JsonComments.ScalarGapExactly`. Setting an entry keeps to what it can read back where
  `SettingsComments.PutCommented` says.
- Persistence definitions: reading allows any blanks behind `$ENUM_START`, a change finds an enumeration only with exactly
  one (`PdefEnums.EndExactly`).
- Two branches of the converter cannot be reached: the overflow of a texture's total size (`RpakSpecs.TotalSize`) and
  the slab underflow (`RpakSizes.SlabGrowth`).

## Model

| member | source | states |
|---|---|---|
| `Crc32.EightSteps` | launcher/include/northstar_ps4/mod_archive.h:26-33 | A byte folded through the table entry equals the eight polynomial steps it stands for |
| `Crc32.CrcConcat` | launcher/include/northstar_ps4/mod_archive.h:32-34 | Updating the CRC chunk by chunk gives the CRC of the whole string |
| `Crc32.Table.Update` | launcher/include/northstar_ps4/mod_archive.h:19-35 | The table-driven update of any running CRC equals the bitwise CRC-32 continued over the data |
| `CrcRemainder.ConstantIs` | launcher/include/northstar_ps4/mod_archive.h:27-27 | The table's constant is the polynomial with the fifteen exponents 32, 26, 23, 22, 16, 12, 11, 10, 8, 7, 5, 4, 2, 1 and 0, less x^32 |
| `CrcRemainder.RegisterIsRemainder` | launcher/include/northstar_ps4/mod_archive.h:26-33 | From any start value the register is what is left of it and the message, as polynomials, on division by that one |
| `CrcRemainder.OneRemainder` | launcher/include/northstar_ps4/mod_archive.h:26-33 | There is one such remainder of degree below 32 |
| `CrcRemainder.CrcIsRemainder` | launcher/include/northstar_ps4/mod_archive.h:19-35 | The CRC of a byte string is a number exactly when its polynomial, every term turned over, is the remainder of the message times x^32 with 32 ones in front (RFC 1952, section 8) |
| `Canonical.LeftIsKraft` | launcher/include/northstar_ps4/mod_archive.h:90-95 | The running count of free codes ends at 2^15 times one minus the Kraft sum |
| `Canonical.CodeFits` | launcher/include/northstar_ps4/mod_archive.h:104-117 | When the Kraft sum is at most 1, every used symbol's canonical code number fits in its length |
| `Canonical.CodeAtUnique` | launcher/include/northstar_ps4/mod_archive.h:104-117 | No two used symbols' codes can both stand at one bit position: the code is prefix-free |
| `Canonical.CodeAtIsCode` | launcher/include/northstar_ps4/mod_archive.h:104-117 | The walk's test for a symbol holds at a bit position exactly when the symbol's canonical code (RFC 1951, section 3.2.2) stands there |
| `Canonical.SlotsDiffer` | launcher/include/northstar_ps4/mod_archive.h:96-100 | Two used symbols never share a slot of the symbol table |
| `Canonical.Huffman.Build` | launcher/include/northstar_ps4/mod_archive.h:86-102 | Succeeds exactly when the code lengths' Kraft sum is at most 1, and then holds the counts and every used symbol in its slot of the canonical code |
| `Inflater.Inflater.Bits` | launcher/include/northstar_ps4/mod_archive.h:71-82 | Takes the next bits of the input, low bit first, or marks the input as ended exactly when there are too few |
| `Inflater.Inflater.Decode` | launcher/include/northstar_ps4/mod_archive.h:104-117 | Returns the one symbol whose canonical code comes next after exactly its length in bits, -1 when the input ends inside it and -2 for an unassigned code |
| `Inflater.RingPut` | launcher/include/northstar_ps4/mod_archive.h:119-125 | Writing at the window position keeps the ring equal to the last min(total, 32768) output bytes |
| `Inflater.RingBack` | launcher/include/northstar_ps4/mod_archive.h:178-178 | The byte read `distance` back in the ring is the output byte that far back |
| `Inflater.Inflater.Put` | launcher/include/northstar_ps4/mod_archive.h:119-125 | Appends one byte to the output, keeping ring, chunk, total and the sink's accepted prefix consistent |
| `Inflater.Inflater.Flush` | launcher/include/northstar_ps4/mod_archive.h:127-133 | Hands the chunk to the sink and the CRC, and reports the sink's refusal |
| `Inflater.Inflater.Stored` | launcher/include/northstar_ps4/mod_archive.h:135-152 | A stored block ends, fails or copies exactly as reading its length, complement and bytes says (RFC 1951, section 3.2.4) |
| `Inflater.Inflater.Codes` | launcher/include/northstar_ps4/mod_archive.h:154-182 | The symbol loop ends exactly as reading literals and copies of the block's codes to the end-of-block code does |
| `Inflater.Inflater.Fixed` | launcher/include/northstar_ps4/mod_archive.h:184-198 | The fixed tables are built once and decode section 3.2.6's codes |
| `Inflater.Inflater.Dynamic` | launcher/include/northstar_ps4/mod_archive.h:200-239 | Reads the code-length code, the repeated lengths and both tables as section 3.2.7 gives them, refusing what cannot be legal |
| `Inflater.Inflater.Run` | launcher/include/northstar_ps4/mod_archive.h:47-60 | Block by block, the final status is the one reading the input means, and on success the output is its expansion |
| `Inflater.Decompress` | launcher/include/northstar_ps4/mod_archive.h:43-64 | Fails to write exactly when the sink refuses a write the outcome takes, after handing over the chunks before it; else the status is the one the reading ends with, which is success exactly when the input begins with a legal encoding: then the writes joined are its LZ77 expansion, Written() its length and Crc() its CRC-32 |
| `Deflate.CopyIsPeriodic` | launcher/include/northstar_ps4/mod_archive.h:177-180 | An overlapping copy repeats the last `distance` bytes |
| `DeflateExact.CodesComplete` | launcher/include/northstar_ps4/mod_archive.h:159-181 | Reading the encoded tokens of a block gives their expansion |
| `DeflateExact.CodesSound` | launcher/include/northstar_ps4/mod_archive.h:159-181 | Whatever reads without failure is the encoding of some token list |
| `DeflateExact.HeaderComplete` | launcher/include/northstar_ps4/mod_archive.h:200-237 | A legal dynamic header reads back as its code lengths |
| `DeflateExact.HeaderSound` | launcher/include/northstar_ps4/mod_archive.h:200-237 | Only legal dynamic headers are accepted |
| `DeflateExact.BlocksComplete` | launcher/include/northstar_ps4/mod_archive.h:47-60 | Any list of stored, fixed and dynamic blocks reads back as its expansion |
| `DeflateExact.InflateExact` | launcher/include/northstar_ps4/mod_archive.h:47-60 | Inflating succeeds with an output if and only if the input begins with an encoding of that output (RFC 1951, sections 3.2.3 to 3.2.7) |
| `DeflateExact.SpelledOnce` | launcher/include/northstar_ps4/mod_archive.h:47-60 | An input spells at most one output |
| `DeflateTables.LengthRanges` | launcher/include/northstar_ps4/mod_archive.h:155-156 | The ranges of the length symbols start at 3 and follow one on the other without a gap up to 257, with i / 4 - 1 extra bits from symbol 261 on and none before, and the last symbol is 258 |
| `DeflateTables.DistanceRanges` | launcher/include/northstar_ps4/mod_archive.h:157-158 | The ranges of the distance symbols start at 1 and follow one on the other without a gap up to 32768, with d / 2 - 1 extra bits from distance symbol 2 on |
| `DeflateTables.EveryCopy` | launcher/include/northstar_ps4/mod_archive.h:155-174 | Every length from 3 to 258 with every distance from 1 to 32768 has a token |
| `DeflateTables.CopyOrder` | launcher/include/northstar_ps4/mod_archive.h:155-174 | Symbols and extra bits follow the length and the distance in order, and only 258 can be written in two ways |
| `DeflateTables.OrderOf` | launcher/include/northstar_ps4/mod_archive.h:201-208 | The code lengths come in the order 16, 17, 18, 0, then 8, 7, 9, 6 and so on outwards to 15 |
| `DeflateTables.FixedCodes` | launcher/include/northstar_ps4/mod_archive.h:184-198 | The fixed code's lengths and code numbers are those of the table in section 3.2.6 of RFC 1951 |
| `DeflateTables.TwelveLetters` | launcher/include/northstar_ps4/mod_archive.h:43-182 | The four bytes 4b 44 02 00 inflate to twelve times the letter a |
| `Regex.SequenceStep` | launcher/include/northstar_ps4/regex_lite.h:218-222 | Matching the rest of a sequence from a position succeeds exactly when its first element can take some stretch from which what follows succeeds |
| `Regex.DropEmpty` | launcher/include/northstar_ps4/regex_lite.h:227-229 | Occurrences that span nothing can be dropped from a repetition without losing a match, once the minimum is met |
| `Regex.RepeatStep` | launcher/include/northstar_ps4/regex_lite.h:224-234 | The greedy step, with empty optional iterations refused, succeeds exactly when some allowed number of occurrences leads on |
| `Regex.GroupStep` | launcher/include/northstar_ps4/regex_lite.h:249-252 | A group succeeds exactly when one of its alternatives does |
| `Regex.Regex.Search` | launcher/include/northstar_ps4/regex_lite.h:41-49 | While the steps the search needs, counted by SearchCost over the starts it tries, stay within the cap, the answer is true exactly when some part of the text matches declaratively, and the counter ends at exactly that number; past the cap a true answer is still right |
| `Regex.Regex.MatchSequence` | launcher/include/northstar_ps4/regex_lite.h:218-222 | Under any continuation the cap is reached exactly when the steps so far and the cost of the attempt exceed it; otherwise the answer is exact and the counter has grown by exactly that cost |
| `Regex.Regex.MatchRepeat` | launcher/include/northstar_ps4/regex_lite.h:224-234 | The same for a repetition with its count so far |
| `Regex.Regex.MatchOne` | launcher/include/northstar_ps4/regex_lite.h:236-256 | The same for one element of any kind |
| `RegexCost.SearchBounded` | launcher/include/northstar_ps4/regex_lite.h:41-49 | A search needs at most as many steps as a function of the pattern and the text's length alone says |
| `RegexCost.FlatSearch` | launcher/include/northstar_ps4/regex_lite.h:41-49 | Without nested repetition that number is a polynomial in the length, its degree the number of repeated elements of a sequence: within it, the search is exact |
| `RegexCost.WordSearch` | launcher/include/northstar_ps4/regex_lite.h:41-49 | A plain word takes at most two steps for each of its characters at each start |
| `KeyValues.ScanToken` | launcher/include/northstar_ps4/keyvalues.h:49-93 | Returns the token the text has next: blanks and line comments skipped, escapes kept, conditions and braces recognised |
| `KeyValues.ParseKeyValues` | launcher/include/northstar_ps4/keyvalues.h:95-154 | The parser's list or error is the one the grammar gives, with conditions on either side of a value and nesting refused past 32 |
| `KeyValues.Serialise` | launcher/include/northstar_ps4/keyvalues.h:201-249 | Indented or compact, the appended text is the list's text |
| `KeyValuesTokens.TokensExactly` | launcher/include/northstar_ps4/keyvalues.h:49-93 | A text's tokens are a given list exactly when it spells them: any blanks and line comments before each token, each written in one of the ways its kind allows |
| `KeyValuesGrammar.ParsedExactly` | launcher/include/northstar_ps4/keyvalues.h:95-154 | A text parses to a list exactly when it spells the tokens of some tree of entries, conditions before or after the value, at most 32 deep, that means the list |
| `KeyValuesGrammar.FillAnywhere` | launcher/include/northstar_ps4/keyvalues.h:49-57 | Blanks and comments put in before any token change nothing, but that a blank has to part a bare word from a comment |
| `KeyValuesGrammar.LeadingNote` | launcher/include/northstar_ps4/keyvalues.h:53-56 | A comment line put in front of a text changes nothing |
| `KeyValuesGrammar.EitherSide` | launcher/include/northstar_ps4/keyvalues.h:113-139 | A top-level entry's condition may stand before its value or after it: the list is the same |
| `KeyValuesRoundTrip.ListBack` | launcher/include/northstar_ps4/keyvalues.h:95-154 | Only well-formed lists come back from the text of their own serialised form |
| `KeyValuesRoundTrip.ListExact` | launcher/include/northstar_ps4/keyvalues.h:95-154 | The serialised text of a well-formed list at any depth and indentation parses back to it |
| `KeyValuesRoundTrip.RoundTrip` | launcher/include/northstar_ps4/keyvalues.h:49-249 | Parsing the serialised form, indented or compact, gives back the same list exactly when no text holds an unescaped quote or ends in an unpaired backslash, # keys are bare-safe, conditions have no ], and nesting is at most 32 |
| `KeyValuesMerge.MergeKeyValues` | launcher/include/northstar_ps4/keyvalues.h:160-196 | The in-place loop computes the recursive ordered merge |
| `KeyValuesLanding.MergedExactly` | launcher/include/northstar_ps4/keyvalues.h:156-196 | For all lists: an incoming entry lands on the first one with its own condition or, without such a one, on the first of its key with at most one condition between the two, and stands at the end if there is none; of two blocks the older takes the children in, else the incoming one stays; and nothing else changes |
| `KeyValuesMerge.MergeTwice` | launcher/include/northstar_ps4/keyvalues.h:160-196 | For a patch with distinct keys at every level, merging it twice equals merging it once, conditionals included |
| `KeyValuesMerge.PatchWins` | launcher/include/northstar_ps4/keyvalues.h:156-160 | For lists without conditions and a patch with distinct keys: where the patch gives a value for a path, the merged list gives that value |
| `KeyValuesMerge.MergedLookup` | launcher/include/northstar_ps4/keyvalues.h:160-196 | Under the same hypotheses, a path lookup in the result gives the patch's value where it has one, and the base's wherever the patch keeps the ancestors' shapes |
| `KeyValuesMerge.CheckKeys` | launcher/include/northstar_ps4/keyvalues.h:265-282 | The counting loops decide the check: each original entry has its n-th copy, or else the first of its key, in the result, recursively |
| `KeyValuesMerge.EmbeddedKeepsKeys` | launcher/include/northstar_ps4/keyvalues.h:258-282 | A list embedded position by position passes the check |
| `KeyValuesMerge.MergedKeepsKeys` | launcher/include/northstar_ps4/keyvalues.h:160-282 | After any sequence of patches whose wholesale replacements are value for value under the same condition, the check accepts the result |
| `KeyValuesLoss.KeepsExactly` | launcher/include/northstar_ps4/keyvalues.h:160-282 | For every base and every patch with distinct keys, the check accepts the merge exactly when each patch entry is harmless: appended, merged block into block with harmless entries, replaced under its own condition, or a change of condition under which the shifted copies of the old head, the new head and the first of the key still match |
| `KeyValuesLoss.HeadsKeptExactly` | launcher/include/northstar_ps4/keyvalues.h:258-264 | For a patch with no key twice, the merge leaves every (key, condition) copy in its place exactly when no entry replaces one of another condition wholesale |
| `KeyValuesLoss.ShiftedCopiesRefused` | launcher/include/northstar_ps4/keyvalues.h:258-282 | A merge that loses nothing but replaces a conditional entry by an unconditional one is refused: the comment above the check does not hold of it |
| `KeyValuesLoss.LoneValuePasses` | launcher/include/northstar_ps4/keyvalues.h:258-282 | A change of condition alone need not be refused: the first-of-key fallback can still match |
| `KeyValuesLoss.RepeatedKeyLoses` | launcher/include/northstar_ps4/keyvalues.h:160-282 | With a key twice in the patch, two harmless entries can lose data: distinct keys are needed |
| `KeyValuesMerge.MergeKeyValuesFile` | launcher/include/northstar_ps4/keyvalues.h:295-307 | Patch roots without a namesake merge into the only root block, the rest into the file |
| `KeyValuesMerge.MergedFileKeepsKeys` | launcher/include/northstar_ps4/keyvalues.h:290-307 | A whole-file merge under the same hypotheses passes the check |
| `RpakTextures.TilingNeverShrinks` | launcher/include/northstar_ps4/rpak_texture_converter.h:69-87 | The tiled size of a mip is at least its linear size padded to 16 bytes |
| `RpakTextures.MortonInverse` | launcher/include/northstar_ps4/rpak_texture_converter.h:89-95 | The Morton numbering of an 8 by 8 tile is a bijection on 0 to 63 |
| `RpakTextures.SlotRoundTrip` | launcher/include/northstar_ps4/rpak_texture_converter.h:97-124 | Every block inside the mip has its own slot, and the slot's tile and Morton position give its coordinates back |
| `RpakTextures.SlotBack` | launcher/include/northstar_ps4/rpak_texture_converter.h:97-124 | Every slot that falls inside the mip is the slot of its coordinates |
| `RpakTextures.Unswizzles` | launcher/include/northstar_ps4/rpak_texture_converter.h:97-124 | For every width, height and format, unswizzling the output gives the linear source |
| `RpakTextures.PaddingIsZero` | launcher/include/northstar_ps4/rpak_texture_converter.h:97-124 | Every slot outside the mip is zero |
| `RpakTextures.SwizzleMip` | launcher/include/northstar_ps4/rpak_texture_converter.h:97-124 | Accepts exactly the sources that are long enough and writes the swizzled mip |
| `RpakBlocks.BlockPlaced` | launcher/include/northstar_ps4/rpak_texture_converter.h:51-124 | For every width, height, format and mip: block (x, y) of the source, counted row by row, stands in its tile at the bits of x and y in turn, for the format's bytes and side by the table |
| `RpakMips.ConvertMipGroup` | launcher/include/northstar_ps4/rpak_texture_converter.h:144-183 | Accepts exactly the groups whose aligned linear sizes are available, consumes their sum and puts the largest mip first |
| `RpakMips.ConvertingNeverShrinks` | launcher/include/northstar_ps4/rpak_texture_converter.h:144-183 | A group's tiled sizes add up to at least its aligned linear sizes |
| `RpakMips.MipRecovered` | launcher/include/northstar_ps4/rpak_texture_converter.h:177-183 | Each mip of a converted group, unswizzled, is the mip's linear bytes of the source |
| `RpakPages.FindOffset` | launcher/include/northstar_ps4/rpak_texture_converter.h:389-402 | The loop computes the offset map: nothing strictly inside a replaced range, elsewhere the offset plus the growth before it |
| `RpakPages.MapDefined` | launcher/include/northstar_ps4/rpak_texture_converter.h:389-402 | When replacements grow, the map is defined exactly for offsets of the page not strictly inside a replaced range |
| `RpakPages.MapIncreases` | launcher/include/northstar_ps4/rpak_texture_converter.h:389-402 | The map keeps order and distances never shrink |
| `RpakPages.Survives` | launcher/include/northstar_ps4/rpak_texture_converter.h:404-419 | Every byte outside the replaced ranges stands at its mapped offset of the rebuilt page |
| `RpakPages.DataStands` | launcher/include/northstar_ps4/rpak_texture_converter.h:404-419 | Replacement data stands at the mapped start of what it replaces |
| `RpakPages.PageGrows` | launcher/include/northstar_ps4/rpak_texture_converter.h:404-419 | A rebuilt page is as much larger as its replacements say, never smaller, and the old end maps to the new end |
| `RpakPages.RebuildPage` | launcher/include/northstar_ps4/rpak_texture_converter.h:404-419 | The copy loop builds the page with its ranges replaced |
| `RpakPages.CheckOrdered` | launcher/include/northstar_ps4/rpak_texture_converter.h:374-387 | The scan over sorted replacements accepts exactly those that are apart and inside their page |
| `RpakRelocate.AllLead` | launcher/include/northstar_ps4/rpak_texture_converter.h:421-462 | Of any references moved one after another, one that no other overlaps leads to where its own old target went |
| `RpakRelocate.AllMovable` | launcher/include/northstar_ps4/rpak_texture_converter.h:421-462 | When no references overlap, moving them fails exactly if some target lies inside a replaced range or outside its page |
| `RpakLayout.Advance` | launcher/include/northstar_ps4/mod_rpaks.h:299-305 | Accepts exactly the counts that fit |
| `RpakLayout.ReadLayout` | launcher/include/northstar_ps4/rpak_texture_converter.h:216-236 | Accepts exactly the archives whose tables lie in the file |
| `RpakLayout.ReadPages` | launcher/include/northstar_ps4/rpak_texture_converter.h:238-248 | Accepts exactly the archives whose pages fill the rest of the file, and returns them |
| `RpakLayout.OpenedFile` | launcher/include/northstar_ps4/rpak_texture_converter.h:216-248 | Opening the file of a well-formed image gives the image back |
| `RpakLayout.FileOpened` | launcher/include/northstar_ps4/rpak_texture_converter.h:493-494 | Writing an opened archive out again gives the same file |
| `RpakRecords.TablesRead` | launcher/include/northstar_ps4/rpak_texture_converter.h:216-236 | Tables written record by record, path bytes, slabs, pages, pointers, assets, uses and dependents in this order, are found where the header's counts say, and fill the bytes |
| `RpakRecords.SlabRead` | launcher/include/northstar_ps4/rpak_texture_converter.h:482-491 | A slab's total is read as it was written |
| `RpakRecords.PageRead` | launcher/include/northstar_ps4/rpak_texture_converter.h:238-248 | So are a page's slab and size |
| `RpakRecords.PointerRead` | launcher/include/northstar_ps4/rpak_texture_converter.h:421-432 | So are a pointer's page and offset |
| `RpakRecords.AssetRead` | launcher/include/northstar_ps4/rpak_texture_converter.h:251-264 | So are an asset's header and data places, its stream, its header's size and its kind |
| `RpakRecords.UseRead` | launcher/include/northstar_ps4/rpak_texture_converter.h:443-450 | So are a use's page and offset |
| `RpakRecords.DirectoryRead` | launcher/include/northstar_ps4/rpak_texture_converter.h:355-366 | A STARPak's directory, written entry by entry behind its blocks, gives the size of the first entry with an offset, or 0 |
| `RpakMarks.AssetKinds` | launcher/include/northstar_ps4/mod_rpaks.h:262-266 | Asset kinds are the letters txtr, matl and dtbl |
| `RpakMarks.ArchiveMark` | launcher/include/northstar_ps4/rpak_texture_converter.h:205-212 | An archive that is taken starts with the letters RPak and version 7 |
| `RpakMarks.AbsentPage` | launcher/include/northstar_ps4/rpak_texture_converter.h:452-462 | A pointer to nothing has four bytes of ones for its page |
| `RpakMarks.AbsentStream` | launcher/include/northstar_ps4/rpak_texture_converter.h:325-325 | A texture without a stream has eight bytes of ones for it |
| `RpakSpecs.CollectConversions` | launcher/include/northstar_ps4/rpak_texture_converter.h:250-305 | The asset loop collects exactly the textures to convert, or refuses |
| `RpakSpecs.ConversionGrows` | launcher/include/northstar_ps4/rpak_texture_converter.h:299-304 | A texture's replacement is never empty and never smaller than the range it replaces |
| `RpakSpecs.TotalSize` | launcher/include/northstar_ps4/rpak_texture_converter.h:288-298 | The tiled sizes of all mips are added up; the overflow error is unreachable |
| `RpakMoves.StillApart` | launcher/include/northstar_ps4/rpak_texture_converter.h:389-419 | Two stretches that no replaced range touches and that share no byte still share none after the move |
| `RpakKept.PointerKept` | launcher/include/northstar_ps4/rpak_texture_converter.h:423-432 | After a conversion, every pointer descriptor leads to the image of its old target |
| `RpakKept.UseKept` | launcher/include/northstar_ps4/rpak_texture_converter.h:443-450 | So does every asset use |
| `RpakKept.AssetKept` | launcher/include/northstar_ps4/rpak_texture_converter.h:452-462 | So does every asset's header and data pointer; absent ones stay as they are |
| `RpakTidy.FieldKept` | launcher/include/northstar_ps4/rpak_texture_converter.h:433-440 | A stored PagePtr that overlaps no other field, header mark or replaced range reads, at its new place, the image of its old target |
| `RpakTidy.StretchKept` | launcher/include/northstar_ps4/rpak_texture_converter.h:404-475 | Any stretch of page bytes that no replaced range, moved offset or header mark touches is unchanged at its mapped offset |
| `RpakTidy.HeadKept` | launcher/include/northstar_ps4/rpak_texture_converter.h:464-475 | A converted header that no replaced range cuts and no later header's mark touches holds the low 32 bits of the new total size, the PS4 platform and the swizzle flag at its new place |
| `RpakTidy.DataKept` | launcher/include/northstar_ps4/rpak_texture_converter.h:374-419 | A texture's converted mips, when no moved offset or mark is written over them, stand in full where its data pointer leads |
| `RpakSizes.StaysWellFormed` | launcher/include/northstar_ps4/rpak_texture_converter.h:477-481 | The output's page table gives its pages' sizes, and no page has shrunk |
| `RpakSizes.SlabGrowth` | launcher/include/northstar_ps4/rpak_texture_converter.h:482-491 | What a slab's total is raised by is what its pages grew, never negative: the underflow error is unreachable |
| `RpakSizes.SlabTotalKept` | launcher/include/northstar_ps4/rpak_texture_converter.h:482-491 | A slab total that was the sum of its pages' sizes still is |
| `RpakSizes.FileSizeWritten` | launcher/include/northstar_ps4/rpak_texture_converter.h:493-496 | Both size fields of the header give the size of the output |
| `RpakAgain.ConvertedTwice` | launcher/include/northstar_ps4/rpak_texture_converter.h:250-307 | With headers apart from each other, from the relocated offsets and from the replaced ranges, converting an already converted image is the identity |
| `RpakSettled.FixedExactly` | launcher/include/northstar_ps4/rpak_texture_converter.h:250-307 | A well-formed image without the module flag is its own conversion exactly when every texture in it is kept as it is |
| `RpakSettled.LastByte` | launcher/include/northstar_ps4/rpak_texture_converter.h:421-475 | A byte of the output's pages is 8 exactly when the last mark on it leaves 8, or, without one, the last moved offset written over it does, or, without either, the rebuilt page has it |
| `RpakSettled.SecondExactly` | launcher/include/northstar_ps4/rpak_texture_converter.h:250-307 | For every archive that converts, converting the output is the identity exactly when the last write on every texture's platform byte leaves 8 |
| `RpakTwins.ShadowedChanges` | launcher/include/northstar_ps4/rpak_texture_converter.h:464-475 | Whenever a header lies four bytes behind another and no later mark repairs it, converting the output changes it |
| `RpakTwins.TwinsChange` | launcher/include/northstar_ps4/rpak_texture_converter.h:250-491 | Every archive of one page with two such headers in front of their textures' data, and no pointers or uses, is accepted, and converting the output changes it |
| `RpakTwins.TwinArchive` | launcher/include/northstar_ps4/rpak_texture_converter.h:191-498 | Such an archive, byte by byte, for any 32 bytes of pixels and any STARPaks: it converts, and its output does not convert to itself |
| `RpakStreams.OutsideKept` | launcher/include/northstar_ps4/rpak_texture_converter.h:347-372 | Bytes of a STARPak outside the rewritten blocks are unchanged |
| `RpakStreams.DirectoryKept` | launcher/include/northstar_ps4/rpak_texture_converter.h:347-372 | Rewriting never touches a STARPak's size or directory |
| `RpakStreams.BlockStands` | launcher/include/northstar_ps4/rpak_texture_converter.h:369-370 | A requested block that no later request's block overlaps holds its converted mips, then zeros to the end of its allocation |
| `RpakStreams.CollectRequests` | launcher/include/northstar_ps4/rpak_texture_converter.h:324-344 | Requests are collected in order of file and offset; two for one block must agree |
| `RpakStreams.RewriteBlock` | launcher/include/northstar_ps4/rpak_texture_converter.h:350-371 | Accepts exactly the blocks that are listed, large enough and before the directory, and rewrites only them |
| `RpakConverter.MakePlans` | launcher/include/northstar_ps4/rpak_texture_converter.h:308-387 | Groups and sorts the replacements of each page and accepts exactly those that are apart and inside it |
| `RpakConverter.MovePointers` | launcher/include/northstar_ps4/rpak_texture_converter.h:421-441 | The loop moves each descriptor and the field it names, and fails only if a field has no place or a target no image |
| `RpakConverter.MarkHeads` | launcher/include/northstar_ps4/rpak_texture_converter.h:464-475 | The loop marks each header at its new place, and fails exactly if one has none |
| `RpakConverter.WriteSlabs` | launcher/include/northstar_ps4/rpak_texture_converter.h:482-491 | The nested loops write each slab's grown total |
| `RpakConverter.Convert` | launcher/include/northstar_ps4/rpak_texture_converter.h:191-498 | The whole conversion, refusals included, of an archive and its STARPaks |
| `RpakSingle.SingleArchive` | launcher/include/northstar_ps4/rpak_texture_converter.h:191-498 | For every width, height, format, number of permanent mips and pixels: the archive of that one texture, its header's bytes spelled out, converts to one whose data is, block by block, the source block of its row and column |
| `RpakSingle.FileBlocks` | launcher/include/northstar_ps4/rpak_texture_converter.h:250-305 | For every archive that converts and every texture in it whose header bytes say a width, a height, a format and mips, and whose data nothing else is written over: block (x, y) of each permanent mip in the output is the source's block at y times the row's blocks plus x |
| `RpakSingle.FileStreamBlocks` | launcher/include/northstar_ps4/rpak_texture_converter.h:309-372 | The same of every streamed mip in the output's STARPaks |
| `RpakConvert.OddIs` | launcher/include/northstar_ps4/rpak_texture_converter.h:464-475 | Of the flags byte only the lowest bit is set |
| `RpakResult.ConvertingAgain` | launcher/include/northstar_ps4/rpak_texture_converter.h:250-307 | File to file, for every conversion that succeeds: converting the output, with its STARPaks, gives the output back unchanged exactly when the last write on every texture's platform byte was 8 |
| `RpakResult.TidyArchive` | launcher/include/northstar_ps4/rpak_texture_converter.h:250-307 | It was, if no range cuts a field or a header and headers are apart from each other and from the relocated offsets |
| `RpakResult.MipReadBack` | launcher/include/northstar_ps4/rpak_texture_converter.h:301-303 | On images: every permanent mip of a converted texture whose data nothing else is written over can be read back, linear, from the output at the place of its data |
| `RpakResult.FileMipReadBack` | launcher/include/northstar_ps4/rpak_texture_converter.h:301-303 | File to file: reading the output where its own descriptor of such a texture points gives every permanent mip of the input back |
| `RpakResult.StreamedMipReadBack` | launcher/include/northstar_ps4/rpak_texture_converter.h:334-336 | On requests: every streamed mip can be read back from a requested block that no later one overlaps |
| `RpakResult.FileStreamedReadBack` | launcher/include/northstar_ps4/rpak_texture_converter.h:324-372 | File to file: when no other requested block starts inside a texture's own, every streamed mip can be read back from the output's STARPak at its stream address |
| `RpakResult.OutputPasses` | launcher/include/northstar_ps4/mod_rpaks.h:274-397 | The runtime's inspection accepts the output exactly when its tables are at most 16 MiB, it holds a texture, a material or a datatable, and the last write on every texture's platform byte was 8 |
| `RpakGate.Inspect` | launcher/include/northstar_ps4/mod_rpaks.h:318-397 | The inspection's cursors and counters compute the counts of each kind, or refuse |
| `RpakGate.PassesExactly` | launcher/include/northstar_ps4/mod_rpaks.h:268-397 | A well-formed archive of the right version passes exactly when its tables are at most 16 MiB, it holds a texture, a material or a datatable, and every texture has its header in its page with the PS4 platform |
| `Manifest.StepGroups` | launcher/src/runtime.cpp:1338-1356 | Inserting, overwriting or erasing for one more declaration turns the grouping of the declarations so far into the grouping with it |
| `Manifest.ListedExactly` | launcher/src/runtime.cpp:1276-1297 | A declaration is listed exactly when no later mod declares its path |
| `Manifest.AddScript` | launcher/src/runtime.cpp:1338-1356 | The vector operations for one declaration |
| `Manifest.BuildScriptList` | launcher/src/runtime.cpp:1298-1361 | For any mods and script lists: paths in order of first declaration, each with exactly the last declaring mod's entries, together and in that mod's order |
| `ModIndex.BuildIndex` | launcher/src/runtime.cpp:968-979 | The sorted, deduplicated index has one entry for every path any root ships, in the highest root that ships it |
| `ModIndex.SameKey` | launcher/src/runtime.cpp:932-937 | Two paths have one key exactly when they differ only in the case of letters A to Z |
| `ModIndex.LowerBound` | launcher/src/runtime.cpp:990-991 | The halving search finds the first entry not before the key |
| `ModIndex.FindModFileEntry` | launcher/src/runtime.cpp:985-993 | Returns an entry of the highest root shipping the lower-cased path, and none exactly when no root ships it |
| `ModIndex.WalkIs` | launcher/src/runtime.cpp:985-1007 | The backwards walk over the roots finds the highest root with an entry for the path, if any |
| `ModIndex.FindModFileRoot` | launcher/src/runtime.cpp:995-1010 | The indexed answer is the backwards walk's |
| `Arena.PassesFit` | launcher/src/runtime.cpp:117-132 | The two counting passes are first fit: the first free run from the hint, else from the start, else there is none |
| `Arena.PagesHold` | launcher/src/runtime.cpp:116-116 | A nonzero length takes the fewest pages that hold it, and none within a page of 2^64, where the sum wraps |
| `Arena.RunOfBytes` | launcher/src/runtime.cpp:116-131 | A run of pages is free exactly when the bytes it is for are inside the arena and free |
| `Arena.Heap.Allocate` | launcher/src/runtime.cpp:115-152 | Gives a page from which `length` bytes were free, and nothing exactly when the arena is not mapped, the length is 0 or no free bytes are long enough; then exactly the pages that hold some of those bytes are marked, and hint and count follow |
| `Arena.Heap.Release` | launcher/src/runtime.cpp:154-163 | Clears exactly the flags of the pages that hold some of the block's bytes, as far as they lie in the arena, and lowers the hint; the count stays the number of flags |
| `ArenaRuns.StepKeeps` | launcher/src/runtime.cpp:115-163 | Every step of any thread keeps blocks in range and disjoint, flags and count in agreement with them, and at most the lock's holder inside a critical section |
| `ArenaRuns.FlagsAreTheBlocks` | launcher/src/runtime.cpp:115-163 | Over every interleaving, blocks are disjoint, and whenever the lock is free the flags are exactly their union and the count their number |
| `ArenaRuns.BytesApart` | launcher/src/runtime.cpp:115-163 | Over every interleaving, the bytes of live blocks are inside the arena and no byte belongs to two |
| `ArenaRuns.RefusedExactly` | launcher/src/runtime.cpp:115-133 | In every reachable state with the lock free, the two passes refuse a nonzero length exactly when nowhere in the arena so many bytes are free, and otherwise find a place that can be taken |
| `ArenaRuns.OthersUntouched` | launcher/src/runtime.cpp:149-151 | A step for one block, the zeroing after the lock is released included, leaves every other block and its pages alone |
| `ArenaRuns.HandedOutZeroed` | launcher/src/runtime.cpp:149-151 | A block is handed out with every page zeroed |
| `ArenaRuns.LiveIsPrivate` | launcher/src/runtime.cpp:149-151 | A live block's page changes only when its own thread writes it |
| `ArenaRuns.AllocationIsOneChange` | launcher/src/runtime.cpp:119-148 | Whatever other threads do meanwhile, an allocation changes flags, hint and count as one step |
| `ArenaRuns.ReleaseIsOneChange` | launcher/src/runtime.cpp:157-163 | So does a release |
| `Lzss.DecodesExactly` | launcher/include/northstar_ps4/lzss.h:21-53 | An encoded token list gives its expansion exactly when every reference is within the output, the header's identifier and size match and the size is nonzero and fits; otherwise it is refused, but for buffers of 2^32 - 16 bytes or more, where the total can hide an overflow |
| `RpakMarks.StreamMark` | launcher/include/northstar_ps4/lzss.h:15-26 | A stream that is taken starts with the letters LZSS |
| `Lzss.SafeUncompress` | launcher/include/northstar_ps4/lzss.h:21-53 | For any buffer, on every stream that stays in bounds, the pointer loop returns the decoded size with the output written, or 0; bytes past the buffer are untouched |
| `Lzss.FullBufferOverflows` | launcher/include/northstar_ps4/lzss.h:41-46 | For buffers of 2^32 - 16 bytes or more, literals that fill the buffer and one reference pass the 32-bit guard and are written past the end |
| `Lzss.SafeExactly` | launcher/include/northstar_ps4/lzss.h:21-53 | No stream at all is written past the end of the buffer exactly for buffers of less than 2^32 - 16 bytes |
| `JsonText.ParseValueAt` | launcher/include/northstar_ps4/json_text.h:122-214 | The recursive descent's position code accepts, at every position and depth, what the grammar function accepts, and ends where it ends |
| `JsonText.ReadStringAt` | launcher/include/northstar_ps4/json_text.h:74-112 | Escapes and surrogate pairs decode to the literal's UTF-8 text |
| `JsonText.Parse` | launcher/include/northstar_ps4/json_text.h:216-226 | A document is accepted exactly when one value of the grammar fills it |
| `JsonTree.ValueSound` | launcher/include/northstar_ps4/json_text.h:74-214 | What the grammar takes from a text is the text of a value tree, with blanks between its parts, nested no deeper than is left of 32 |
| `JsonTree.ValueComplete` | launcher/include/northstar_ps4/json_text.h:74-214 | Every such tree's text is taken whole, wherever it stands |
| `JsonTree.AcceptsExactly` | launcher/include/northstar_ps4/json_text.h:74-226 | The parser accepts exactly the texts of value trees at most 32 deep: literals without \u0000, numbers without needless zeros, and any blanks |
| `JsonTree.Characters` | launcher/include/northstar_ps4/json_text.h:36-112 | Blanks, digits and escapes are those of RFC 8259, character by character |
| `JsonTree.HexCharacters` | launcher/include/northstar_ps4/json_text.h:59-71 | Hexadecimal digits are the ten digits and the letters a to f in either case |
| `JsonTree.HexPlace` | launcher/include/northstar_ps4/json_text.h:59-71 | A hexadecimal digit's value is its place among the sixteen |
| `JsonTree.Surrogates` | launcher/include/northstar_ps4/json_text.h:98-102 | A pair is decoded together exactly when it is the two halves of a code point past 2^16 (RFC 2781) |
| `JsonTree.Utf8Back` | launcher/include/northstar_ps4/json_text.h:41-57 | The bytes written for a code point decode to it (RFC 3629, section 3) |
| `JsonTree.LiteralMeaning` | launcher/include/northstar_ps4/json_text.h:74-112 | A literal reads as its glyphs' meanings: characters, escapes by number, four digits as a code point and surrogate pairs as one |
| `JsonEscape.LiteralBack` | launcher/include/northstar_ps4/json_text.h:228-251 | Every byte string, written as a literal, reads back as itself, and is refused exactly when it holds a NUL |
| `JsonEscape.EscapeInto` | launcher/include/northstar_ps4/json_text.h:228-251 | The writer appends the escaped literal |
| `JsonLenient.SkipValueAt` | launcher/include/northstar_ps4/mod_catalog.h:43-80 | The lenient skip's loops compute where it lands |
| `JsonLenient.FindMemberAt` | launcher/include/northstar_ps4/mod_catalog.h:82-111 | The member search's loops compute its answer |
| `JsonAgree.ValueAgree` | launcher/include/northstar_ps4/mod_catalog.h:43-80 | On a strictly valid value the lenient skip lands exactly behind an object, array or string, and at the next delimiter behind anything else |
| `JsonAgree.MemberFound` | launcher/include/northstar_ps4/mod_catalog.h:82-111 | On a strictly valid value the lookup returns the first member whose key is written the same, and nothing if there is none or no object |
| `JsonAgree.DocumentAgrees` | launcher/include/northstar_ps4/mod_catalog.h:43-111 | On every accepted document both hold of every value, however deep |
| `JsonComments.GapPassed` | launcher/include/northstar_ps4/mod_catalog.h:15-27 | White space, line comments and comments between marks, in any order, are passed over |
| `JsonComments.ValuePassed` | launcher/include/northstar_ps4/mod_catalog.h:43-80 | In a document with comments the skip lands behind a string, an array or an object, and behind a number or a word at the next delimiter |
| `JsonComments.ScalarGapExactly` | launcher/include/northstar_ps4/mod_catalog.h:78-79 | From a number or a word it comes to the delimiter behind the gap exactly when no comment in the gap has a delimiter |
| `JsonComments.MemberIsNamed` | launcher/include/northstar_ps4/mod_catalog.h:82-111 | In a document with comments the lookup finds the first member written with the key, and nothing if there is none or no object |
| `JsonStable.ValueStable` | launcher/include/northstar_ps4/json_text.h:122-214 | A value's parse does not depend on what follows it |
| `JsonStable.ValueCut` | launcher/include/northstar_ps4/json_text.h:122-214 | Nor on anything behind its end: its own text parses alone |
| `JsonFields.DocSplit` | launcher/include/northstar_ps4/json_text.h:127-147 | The text of every accepted object is its members' text |
| `JsonFields.DocParses` | launcher/include/northstar_ps4/json_text.h:127-147 | Members' text makes an accepted object whose members are those |
| `Settings.ReplacedIs` | launcher/include/northstar_ps4/mod_settings.h:14-31 | Replacing or inserting on an object's text sets exactly that member |
| `SettingsKept.IsEnabledExactly` | launcher/include/northstar_ps4/mod_catalog.h:338-346 | On every accepted document the answer is what the strict reading of the entries says |
| `SettingsKept.SetThenGet` | launcher/include/northstar_ps4/mod_settings.h:32-44 | After setting: that name and version read as set, every other name but "Version" reads as before, the mod's other versions do exactly when its old entry was not a bare value other than true, and the result is an accepted object |
| `SettingsKept.SetExactly` | launcher/include/northstar_ps4/mod_settings.h:32-44 | On an accepted document setting fails exactly for unusable names, the name "Version", or a document that is no object |
| `SettingsComments.SupportedExactly` | launcher/include/northstar_ps4/mod_settings.h:5-13 | A name can be set exactly when its bytes between quotes are a literal that reads back as the name |
| `SettingsComments.EnabledOnTree` | launcher/include/northstar_ps4/mod_catalog.h:338-346 | With any comments: the answer is the one of the tree of values the document spells |
| `SettingsComments.SetOnTree` | launcher/include/northstar_ps4/mod_settings.h:32-44 | With comments: setting in the text is setting in the tree, every gap but the one behind a replaced number or word as it was, where there is room for the new values |
| `SettingsComments.PutCommented` | launcher/include/northstar_ps4/mod_settings.h:14-31 | There is room exactly where the text with the new value is again that of a tree: a number or a word does not take the place of another value in front of a comment with a delimiter |
| `SettingsComments.SetKeeps` | launcher/include/northstar_ps4/mod_settings.h:32-44 | In the tree the version is as set, "Version" is 1, and the mod's other versions and every other name have the values they had |
| `SettingsComments.SetThenGet` | launcher/include/northstar_ps4/mod_settings.h:32-44 | So with comments too: that name and version read as set and every other name but "Version" reads as before |
| `SettingsKept.ReplaceSettingsMember` | launcher/include/northstar_ps4/mod_settings.h:14-31 | The in-place replace and insert |
| `SettingsKept.SetEnabledSetting` | launcher/include/northstar_ps4/mod_settings.h:32-44 | All three replacements or none: on failure the settings are unchanged |
| `SettingsKept.IsModEnabled` | launcher/include/northstar_ps4/mod_catalog.h:338-346 | The pointer code's answer |
| `PdefText.ReadDefinition` | launcher/include/northstar_ps4/pdef_diff.h:142-169 | The line loop with its current blocks reads the definition |
| `PdefDefinition.DefinitionRead` | launcher/include/northstar_ps4/pdef_diff.h:142-169 | A definition written part by part, with any blanks, comments and empty lines and either end of line, reads as its parts mean: an enumeration counts its members, a structure has its fields, the last block of a name holds |
| `PdefDefinition.NameExactly` | launcher/include/northstar_ps4/pdef_diff.h:36-41 | Names are letters, digits and underscores, a digit not first |
| `PdefEnums.BlockDimension` | launcher/include/northstar_ps4/pdef_diff.h:147-164 | A block of n member lines makes a dimension of n, and changes nothing else |
| `PdefEnums.NumberDimension` | launcher/include/northstar_ps4/pdef_diff.h:199-222 | A decimal number in brackets is so many |
| `PdefEnums.PlainDimension` | launcher/include/northstar_ps4/pdef_diff.h:199-222 | A name alone is one field |
| `PdefEnums.DeclarationRead` | launcher/include/northstar_ps4/pdef_diff.h:165-168 | A type, a blank or a tabulator, and a name declare a field of that type and name |
| `PdefEnums.BuiltIn` | launcher/include/northstar_ps4/pdef_diff.h:175-177 | Numbers take four bytes, truth values and enumerations one |
| `PdefEnums.StringSize` | launcher/include/northstar_ps4/pdef_diff.h:178-182 | A string type takes the bytes the number in its braces says |
| `PdefSize.Sizer.TypeSizeOf` | launcher/include/northstar_ps4/pdef_diff.h:175-198 | With a cache and an active set, the answer is the plain recursive one; terminates on the structures not yet active |
| `PdefSize.SameSize` | launcher/include/northstar_ps4/pdef_diff.h:183-186 | A measured type's size does not depend on which structures were active, so caching it is right |
| `PdefSize.StructExactly` | launcher/include/northstar_ps4/pdef_diff.h:175-222 | A structure has no size exactly when some path from it reaches a faulty field, an overflow or a structure it has been through |
| `PdefSize.SizeExactly` | launcher/include/northstar_ps4/pdef_diff.h:223-233 | The size is the unlimited layout sum; there is none exactly for a bad top field or an overflow |
| `PdefApply.PersistenceDefinitionSize` | launcher/include/northstar_ps4/pdef_diff.h:142-234 | From text to size |
| `PdefApply.ApplyPdiff` | launcher/include/northstar_ps4/pdef_diff.h:119-138 | The insertions and appends; on failure the definition is unchanged |
| `PdefChanges.ChangeRead` | launcher/include/northstar_ps4/pdef_diff.h:58-97 | A change written addition by addition, with any blanks, comments and empty lines, reads as its additions and properties |
| `PdefEnums.EndExactly` | launcher/include/northstar_ps4/pdef_diff.h:99-117 | An addition finds its place exactly when some line starts the enumeration, one blank before its name, and a later one ends one |
| `PdefEnums.EnumAdded` | launcher/include/northstar_ps4/pdef_diff.h:124-130 | An addition of n lines: the named enumeration has n more members unless the text starts it anew later, and everything else reads as before |
| `PdefEnums.UninterruptedReceives` | launcher/include/northstar_ps4/pdef_diff.h:99-117 | It is for the enumeration it names when no directive comes between that one's start and its end |
| `PdefApply.PropertyLines` | launcher/include/northstar_ps4/pdef_diff.h:131-135 | The lines of a definition with properties appended are its own lines, an empty one, the lines of the comment with the mod's name and the properties |
| `PdefApply.PropertiesGrow` | launcher/include/northstar_ps4/pdef_diff.h:119-234 | For any mod name: if all blocks are closed where the properties come, a properties-only change of declarations adds exactly the added fields' sizes; a name without a line feed adds nothing before them |
| `PdefApply.NameSilent` | launcher/include/northstar_ps4/pdef_diff.h:131-135 | A mod name without a line feed adds nothing to what is read before the properties |

## Left out

- Lzss.SafeUncompress: streams that end before their end marker and streams that overrun the buffer are excluded, because there the source reads or writes out of bounds; which buffers no stream overruns is `Lzss.SafeExactly`.
- RpakAgain.ConvertedTwice: a sufficient condition, headers apart from each other, from the relocated offsets and from the replaced ranges; the exact one is `RpakSettled.SecondExactly`.
- RpakTidy.FieldKept: for a field that no replaced range, other field or header mark touches, on archives whose fields and headers no range cuts; descriptors, uses and asset pointers (`RpakKept`) need no such hypothesis.
- RpakTidy.DataKept: for data that no moved offset and no mark is written over; `RpakTidy.UncutApart` gives that for archives whose fields and headers no replaced range cuts.
- RpakTidy.HeadKept: for a header that no replaced range cuts and no later header's mark touches; which headers keep their platform without that is `RpakSettled.SecondExactly`.
- RpakStreams.BlockStands: for a block that no later request's block overlaps, since rewriting a later one can clear it.
- KeyValuesMerge.MergedLookup: for lists without conditions and patches with distinct keys, since with conditions a key alone does not name an entry.
- KeyValuesMerge.PatchWins: the same.
- KeyValuesLoss.KeepsExactly: for patches with distinct keys; with a key twice, harmless entries can lose data one after the other (`KeyValuesLoss.RepeatedKeyLoses`).
- PdefApply.PropertiesGrow: for changes that only add properties, all of them declarations; what an addition to an enumeration does is `PdefEnums.EnumAdded`, and directives among properties are read (`PdefText.Read`) but have no such law.
- PdefEnums.EnumAdded: for an enumeration that is being read where its addition goes; `PdefEnums.UninterruptedReceives` gives that when no directive comes in between.
- KeyValuesGrammar.FillAnywhere: in front of a token; behind the last one the text may end in any fillers (`KeyValuesTokens.TokensExactly`).
- RegexCost.FlatSearch: for alternatives without groups; `RegexCost.SearchBounded` bounds every pattern, by a number that nested repetition makes exponential.
- SettingsComments.SetThenGet: for documents without a delimiter in a comment behind a number or a word or between empty brackets, where the reader goes astray.
- RpakSingle.FileBlocks: for a texture whose data no moved offset, mark or other range is written over, as in `RpakTidy.DataKept`.
- RpakSingle.FileStreamBlocks: for a block no other requested block starts in.
- Inflater.Inflater.Run: the 64-bit output counter is unbounded here.
- Regex.Regex.Search: the 32-bit step counter is unbounded here, which a cap of 200000 keeps it from showing; past the cap only a true answer is promised.
- The regex parser (`Compile` and the Parse functions): patterns are given as their node trees.
- Sizes near the 64-bit limit in the mip size functions' additions: texture sides have 16 bits.
- The converter's report and error texts, and its state after a refusal.
- Zip archives: the central directory and the path helpers of mod_archive.h.
- The order std::sort gives equal elements: equal replacement starts are refused, and any order of equal index entries is shown to do.
- The manifest's text output, its InitScript blocks and the validity checks on a script entry: `Manifest` starts from each mod's valid entries.
- Listing directories and opening files: `ModIndex` starts from each root's list of paths.
- JSON visitors: parsing is modelled with a visitor that accepts everything, and number conversion is not modelled.
- The JSON writer for numbers, chat text, HTTP, the token helper, build scripts and everything that hooks or patches the game.
- The arena's page contents are one value a page.
- The arena's log lines and the fallback to the system's mmap.
