# A verified model of the résumé theme helpers and the résumé configuration builder

This project models two pieces of a JSON Resume toolchain in Dafny and proves properties about them.

**The template helpers of the turnipcaffeine theme** (`jsonresume-theme-turnipcaffeine/index.js`). These are the Handlebars helpers:

- `removeProtocol`, which globally strips everything up to and including each `://`;
- `concat`, which joins the string forms of its non-object arguments;
- `ifEquals`, which picks a block by JavaScript loose equality;
- `orIfNull`, a truthiness fallback;
- `nYears` and `yearsAgo`, which pluralise a number of years;
- `authorString`, "First author: …; Co-authors: …";
- `subset`, an optional-bounds `slice`;
- the data URI the `imagedata` helper builds from an image file name and the file's bytes.

The helpers run over a small model of JavaScript values (`JsValues`): undefined, null, booleans, integers, strings, arrays and plain objects. Arrays and objects carry a reference, so identity is visible to `==`. The model includes the ECMA-262 conversions the helpers rely on:

- `typeof`;
- ToBoolean;
- ToString;
- ToPrimitive;
- StringToNumber on integer literals;
- IsLooselyEqual (section 7.2 of ECMA-262).

The image payload is Base64 as in section 4 of RFC 4648, inside a `data:` URI as in section 2 of RFC 2397 (`Base64`). Encoding and decoding are proved inverse in both directions.

**The configuration builder `buildcv.py`.** It has three parts:

- `merge_dicts`: the in-place deep merge of one parsed TOML document into a dict (`TomlMerge.MergeDicts`). It is proved against the merge function `TomlMerge.MergeOk` and the TypeError condition `TomlMerge.Clash`.
- `read_tomls`: merges the documents in order and raises a RuntimeError on an empty result (`TomlMerge.ReadTomls`).
- `apply_config`: shallow-copies the source record, then applies each configuration entry in order (`ApplyConfig.ApplyConfig`). A table entry updates the dict under that key; a list entry selects items by ID; any other value overrides the field.

The dicts directly under the source record are heap objects (`TomlData.Dict`), so the shallow copy shares them. An update through the copy is therefore an update of the source record. `ApplyConfig.Run` describes the copy that is built and the contents of those shared dicts; the method is proved against it.

Three behaviours of the code a reader may not expect, all modelled as the code has them:

- `removeProtocol` removes every `://` together with the text before it on the same line, not only the first one; the regular expression carries the `g` flag.
- `authorString([])` is `"First author: undefined"`, not `""`, because an empty array is truthy.
- The image type `imagedata` writes is the second `.`-separated field of the file name. It is not the whole text after the first dot: `a.b.png` gives `b`, and a name without a dot gives `undefined`.

## Model

| member | source | states |
|---|---|---|
| JsValues.LooselyEqual | jsonresume-theme-turnipcaffeine/index.js:47 | IsLooselyEqual of section 7.2 of ECMA-262 over the modelled values; its properties are stated by LooselyEqualSymmetric, LooselyEqualsNull, IntStringLooselyEqual and LooselyEqualInts |
| JsValues.Truthy | jsonresume-theme-turnipcaffeine/index.js:51 | ToBoolean: false exactly for undefined, null, false, 0 and ""; used by OrIfNull and AuthorStringOf |
| JsValues.ToString | jsonresume-theme-turnipcaffeine/index.js:26 | the string form `+` and `String` give a value; an array joins its elements with "," and prints null and undefined elements as "" |
| JsValues.StringToNumber | jsonresume-theme-turnipcaffeine/index.js:67 | blank text is 0, trimmed integer text its value, anything else NaN; IntStringLooselyEqual and IfEqualsNumberAndText state what it means for `==` |
| JsValues.ToNumber | jsonresume-theme-turnipcaffeine/index.js:58 | the Number a value converts to for `-` and `==`: undefined and plain objects are NaN, null 0, booleans 0 or 1, a string and an array's text read by StringToNumber; YearsAgoOfNumber, YearsAgoOfNaN and IntStringLooselyEqual state its use |
| JsValues.TypeOf | jsonresume-theme-turnipcaffeine/index.js:25 | `typeof` is "object" exactly for null, arrays and plain objects |
| JsValues.ToPrimitive | jsonresume-theme-turnipcaffeine/index.js:26 | converting for `+` and `==` yields a primitive, and leaves primitives as they are |
| JsValues.LooselyEqualSymmetric | jsonresume-theme-turnipcaffeine/index.js:47 | `==` does not depend on the order of its operands |
| JsValues.LooselyEqualsNull | jsonresume-theme-turnipcaffeine/index.js:96 | `v == null` holds exactly for undefined and null |
| JsValues.IntLooselyEqualsItsDecimal | jsonresume-theme-turnipcaffeine/index.js:47 | a number is `==` to its decimal text in either order (`2020 == "2020"`) |
| JsValues.IntStringLooselyEqual | jsonresume-theme-turnipcaffeine/index.js:67 | a number and a string are `==` exactly when the string reads as that number |
| JsValues.LooselyEqualInts | jsonresume-theme-turnipcaffeine/index.js:59 | two numbers are `==` exactly when they are equal |
| JsValues.LooselyEqualNotTransitive | jsonresume-theme-turnipcaffeine/index.js:47 | an example rather than a property the helpers rely on: `==` is not transitive, since `"" == 0` and `0 == "0"` but not `"" == "0"` |
| ThemeHelpers.LazyMatch | jsonresume-theme-turnipcaffeine/index.js:18 | the lazy match of `.*?://` at a position ends just after the first "://" reachable without crossing a line terminator, and there is none when every "://" lies beyond one |
| ThemeHelpers.RemoveProtocol | jsonresume-theme-turnipcaffeine/index.js:17-19 | the result is never longer than the URL |
| ThemeHelpers.RemoveProtocolWithoutSep | jsonresume-theme-turnipcaffeine/index.js:17-19 | a URL without "://" is returned unchanged |
| ThemeHelpers.RemoveProtocolSingleLine | jsonresume-theme-turnipcaffeine/index.js:17-19 | on one line, the result is a suffix of the URL, and when the URL contains "://" that suffix starts right after one |
| ThemeHelpers.KeptCharStartsNoSep | jsonresume-theme-turnipcaffeine/index.js:18 | a character no match removes never starts a "://" in the result |
| ThemeHelpers.RemoveProtocolAfterLastSep | jsonresume-theme-turnipcaffeine/index.js:17-19 | on one line with a "://", the result is exactly the text after the last "://" of the URL |
| ThemeHelpers.RemoveProtocolLeavesNoSep | jsonresume-theme-turnipcaffeine/index.js:17-19 | for every input, multi-line included, the result contains no "://" |
| ThemeHelpers.NonObjects | jsonresume-theme-turnipcaffeine/index.js:25 | the arguments kept are arguments whose typeof is not "object" |
| ThemeHelpers.Concatenation | jsonresume-theme-turnipcaffeine/index.js:21-31 | concat's result over the argument list; ConcatenationOfNonObjects states it is the string forms of the non-object arguments joined in order, and Concat computes it |
| ThemeHelpers.ConcatenationAppend | jsonresume-theme-turnipcaffeine/index.js:24-28 | one more argument appends exactly its own piece |
| ThemeHelpers.ConcatenationOfNonObjects | jsonresume-theme-turnipcaffeine/index.js:21-31 | concat is the string forms of exactly the non-object arguments, in argument order |
| ThemeHelpers.ConcatenationIgnoresObjects | jsonresume-theme-turnipcaffeine/index.js:25 | null, an array or the trailing options hash adds nothing |
| ThemeHelpers.Concat | jsonresume-theme-turnipcaffeine/index.js:21-31 | the loop over the arguments computes Concatenation |
| ThemeHelpers.IfEquals | jsonresume-theme-turnipcaffeine/index.js:46-48 | the main block is rendered iff `arg1 == arg2`, the inverse block otherwise |
| ThemeHelpers.IfEqualsSymmetric | jsonresume-theme-turnipcaffeine/index.js:46-48 | swapping the two arguments selects the same block |
| ThemeHelpers.IfEqualsNumberAndItsText | jsonresume-theme-turnipcaffeine/index.js:47 | a number and its decimal text select the main block, in either order |
| ThemeHelpers.IfEqualsNumberAndText | jsonresume-theme-turnipcaffeine/index.js:47 | a number and the text of a number select the main block iff the numbers are equal |
| ThemeHelpers.OrIfNull | jsonresume-theme-turnipcaffeine/index.js:50-55 | the first argument when it is truthy, else the second; the result is truthy iff one of them is |
| ThemeHelpers.NYears | jsonresume-theme-turnipcaffeine/index.js:66-72 | the text is "1 year" iff `years == 1` |
| ThemeHelpers.NYearsOfInt | jsonresume-theme-turnipcaffeine/index.js:66-72 | for a number: "1 year" for 1, else its decimal text followed by " years" |
| ThemeHelpers.YearsAgo | jsonresume-theme-turnipcaffeine/index.js:57-64 | the text is "1 year" exactly when the year converts to the number currentYear - 1 |
| ThemeHelpers.Subtract | jsonresume-theme-turnipcaffeine/index.js:58 | Number subtraction: NaN when either operand is NaN; YearsAgoOfNumber and YearsAgoOfNaN state what it gives `yearsAgo` |
| ThemeHelpers.YearsText | jsonresume-theme-turnipcaffeine/index.js:59-63 | "1 year" exactly for the number 1; every other difference, NaN included, gets its text and " years" |
| ThemeHelpers.YearsAgoOfNumber | jsonresume-theme-turnipcaffeine/index.js:57-64 | for a year that converts to the number y, yearsAgo(year) is nYears(currentYear - y) |
| ThemeHelpers.YearsAgoOfNaN | jsonresume-theme-turnipcaffeine/index.js:57-64 | a year that does not convert to a number gives "NaN years" |
| ThemeHelpers.JoinAppend | jsonresume-theme-turnipcaffeine/index.js:82-85 | appending an author to a non-empty list adds ", " and the author |
| ThemeHelpers.AuthorStringOfEmptyArray | jsonresume-theme-turnipcaffeine/index.js:75-76 | an empty array gives "First author: undefined" |
| ThemeHelpers.AuthorStringOfArray | jsonresume-theme-turnipcaffeine/index.js:74-89 | the result starts with "First author: " and the first author; "; Co-authors: " follows iff there are at least two authors, and is followed by the others joined by ", " in order |
| ThemeHelpers.AuthorStringOf | jsonresume-theme-turnipcaffeine/index.js:74-93 | authorString's result: "" for a falsy argument, the first author and co-authors of an array, "First author: " and the character of a one-character string, TypeError for every other truthy value; stated by AuthorStringOfEmptyArray, AuthorStringOfArray and AuthorStringOfNonArray, and computed by AuthorString |
| ThemeHelpers.AuthorStringOfNonArray | jsonresume-theme-turnipcaffeine/index.js:74-93 | on a value that is not an array: "" when falsy; "First author: " and the character for a one-character string, whose slice(1) is empty; TypeError for every other truthy value (a longer string has no forEach, the others no slice) |
| ThemeHelpers.AppendCoAuthors | jsonresume-theme-turnipcaffeine/index.js:80-87 | the forEach with its `first` flag appends the other authors joined by ", " |
| ThemeHelpers.AuthorString | jsonresume-theme-turnipcaffeine/index.js:74-93 | the method computes AuthorStringOf, including "" for falsy arguments, the one-character string case and the TypeError on the other truthy non-arrays |
| ThemeHelpers.Slice | jsonresume-theme-turnipcaffeine/index.js:100-102 | a slice is never longer than the sequence |
| ThemeHelpers.SliceIsContiguous | jsonresume-theme-turnipcaffeine/index.js:100-102 | a slice is the contiguous run of the sequence that starts at the normalised start |
| ThemeHelpers.SliceOf | jsonresume-theme-turnipcaffeine/index.js:100-102 | `slice` exists exactly on arrays and strings; on an array it returns a new array object, never longer than the argument |
| ThemeHelpers.Subset | jsonresume-theme-turnipcaffeine/index.js:95-103 | a nullish start returns the very argument; otherwise subset raises TypeError exactly when the argument has no `slice`, and an array argument gives a new array |
| ThemeHelpers.SubsetWithoutStart | jsonresume-theme-turnipcaffeine/index.js:96-98 | with start null or undefined, subset returns the very argument |
| ThemeHelpers.SubsetWithoutEnd | jsonresume-theme-turnipcaffeine/index.js:99-101 | with end null or undefined, subset is slice(start) |
| ThemeHelpers.SubsetWithBounds | jsonresume-theme-turnipcaffeine/index.js:102 | with both bounds, subset is slice(start, end) |
| ThemeHelpers.EndIndex | jsonresume-theme-turnipcaffeine/index.js:99-102 | the end bound slice uses: the length when the end is undefined, otherwise the end converted to an integer (NaN as 0); SubsetWithoutEnd and SubsetWithBounds state the two cases of subset |
| ThemeHelpers.SliceWhole | jsonresume-theme-turnipcaffeine/index.js:100 | slice(0) is the whole sequence |
| ThemeHelpers.SliceLast | jsonresume-theme-turnipcaffeine/index.js:100 | slice(-n) is the last n elements |
| ThemeHelpers.SliceAdjacent | jsonresume-theme-turnipcaffeine/index.js:102 | two adjacent slices together are the slice over both ranges |
| ThemeHelpers.Split | jsonresume-theme-turnipcaffeine/index.js:127 | split yields at least one field and no field contains the separator |
| ThemeHelpers.JoinSplit | jsonresume-theme-turnipcaffeine/index.js:127 | joining the fields with the separator gives the name back |
| ThemeHelpers.ImageType | jsonresume-theme-turnipcaffeine/index.js:127 | the image type never contains "."; ImageTypeWithoutDot and ImageTypeIsSecondField say which field it is |
| ThemeHelpers.ImageTypeWithoutDot | jsonresume-theme-turnipcaffeine/index.js:127 | a file name without "." gives the image type "undefined" |
| ThemeHelpers.ImageTypeIsSecondField | jsonresume-theme-turnipcaffeine/index.js:127 | the image type is the field between the first and second "." |
| ThemeHelpers.DataUri | jsonresume-theme-turnipcaffeine/index.js:126-127 | "data:image/", the image type, ";base64," and the Base64 text of the bytes; DataUriPayload states that the payload decodes back to the bytes |
| ThemeHelpers.DataUriPayload | jsonresume-theme-turnipcaffeine/index.js:126-127 | the URI is its header and a payload of 4*ceil(n/3) characters that decodes back to exactly the image bytes |
| Base64.Encode | jsonresume-theme-turnipcaffeine/index.js:126 | the encoding of n bytes has 4*ceil(n/3) characters |
| Base64.Decode | jsonresume-theme-turnipcaffeine/index.js:126 | the inverse of the encoding, for stating what the payload means: a text that decodes has a length divisible by 4 and at most 3 bytes per 4 characters |
| Base64.DecodeEncode | jsonresume-theme-turnipcaffeine/index.js:126 | decoding the encoding gives the bytes back |
| Base64.EncodeDecode | jsonresume-theme-turnipcaffeine/index.js:126 | every string that decodes is the encoding of what it decodes to (the encoding is canonical) |
| Base64.EncodeAlphabet | jsonresume-theme-turnipcaffeine/index.js:126 | every character of an encoding is in the alphabet, except "=" padding in the last two positions |
| TomlMerge.Clash | buildcv.py:25-32 | the condition under which merge_dicts raises TypeError: a non-empty table of src meets a non-dict at the same key path; MergeDicts raises exactly then |
| TomlMerge.MergeOk | buildcv.py:25-32 | the merged dict has the keys of both dicts: the key set only grows |
| TomlMerge.MergeDicts | buildcv.py:25-32 | the loop raises TypeError iff a non-empty table of src meets a non-dict at the same path; otherwise dst becomes MergeOk(src, old dst) |
| TomlMerge.MergeIntoEmpty | buildcv.py:28-30 | merging into a fresh empty dict never raises and builds a copy of src |
| TomlMerge.MergePlacesLeaf | buildcv.py:31-32 | every non-dict value of src sits at the same key path of the merged dict |
| TomlMerge.MergeKeepsAvoided | buildcv.py:25-32 | whatever dst holds at a key path src does not reach is left unchanged |
| TomlMerge.MergeIdempotent | buildcv.py:25-32 | merging the same src a second time raises nothing and changes nothing |
| TomlMerge.Fold | buildcv.py:17-20 | the documents merged in order, or the first TypeError; the merged configuration has every top-level key of every document |
| TomlMerge.ReadTomlsOf | buildcv.py:16-23 | read_tomls' result: Fold, with the RuntimeError when it is empty; ReadTomlsEmpty and FoldRaisesTypeError say when each exception occurs |
| TomlMerge.ReadTomls | buildcv.py:16-23 | the loop computes ReadTomlsOf: the documents merged in order, the first TypeError, or the RuntimeError on an empty result |
| TomlMerge.FoldErrorSticks | buildcv.py:18-20 | once a merge raises, the later documents change nothing |
| TomlMerge.FoldEmpty | buildcv.py:16-21 | the merged configuration is empty exactly when every document is |
| TomlMerge.FoldRaisesTypeError | buildcv.py:18-20 | the merges raise nothing but TypeError |
| TomlMerge.ReadTomlsEmpty | buildcv.py:21-22 | read_tomls raises "No tomls provided to read_tomls" exactly when every document is empty |
| TomlMerge.ReadOneToml | buildcv.py:16-23 | a single document reads back as itself |
| TomlMerge.LaterDocumentWins | buildcv.py:18-20 | a later document's non-dict value wins at its key path unless a still later document reaches that path |
| ApplyConfig.Select | buildcv.py:56-59 | the list has one item per ID, in order and with repetitions, iff every ID is a key; otherwise the error of the first missing ID |
| ApplyConfig.PairsDict | buildcv.py:53 | dict() of a list of two-element lists with string keys, later pairs winning |
| ApplyConfig.DictOf | buildcv.py:53 | dict(src[k]): the contents of a dict object, a table's entries, PairsDict of a list, the empty dict for the empty string; NotAMapping otherwise |
| ApplyConfig.Step | buildcv.py:45-65 | one pass of the loop body, by the type of the configuration value; its cases are stated, for any state the earlier entries leave, by UpdateSharedDict, ReplaceWithDict, DictBranchMissingKey, SelectItems, SelectMissingId, ListBranchMissingKey and OverrideScalar; RunSnoc ties them to Run |
| ApplyConfig.Run | buildcv.py:40-66 | the shallow copy followed by the loop over the entries in order; stated by RunKeys, RunKeepsUnconfigured, RunSharesOnlySourceDicts, RunHeapFrame and RunFailureSticks |
| ApplyConfig.RunSnoc | buildcv.py:44-65 | an entry appended to the configuration is one Step from the state the earlier entries leave: applied when that step succeeds, its exception reported and the state kept when it raises, and nothing done once an earlier entry has raised |
| ApplyConfig.RunKeys | buildcv.py:40-65 | the copy keeps every key of the source and gains only keys the configuration names |
| ApplyConfig.RunFailureSticks | buildcv.py:44-65 | once an entry raises, the later entries are not applied |
| ApplyConfig.ApplyConfig | buildcv.py:34-66 | for a source record whose dicts are dict objects, the source record's keys are unchanged; the result, the exception and the new contents of the shared dicts are those of Run |
| ApplyConfig.ApplyEntry | buildcv.py:45-65 | one configuration entry leaves the source's fields alone and changes the copy and the shared dicts as one step of Run does, or changes nothing and reports that step's exception |
| ApplyConfig.RunKeepsUnconfigured | buildcv.py:40-44 | a key the configuration does not name maps in the copy to the identical value of the source, the same dict object included |
| ApplyConfig.RunSharesOnlySourceDicts | buildcv.py:40 | every dict object in the copy is the source's, under the same key |
| ApplyConfig.RunHeapFrame | buildcv.py:45-48 | a shared dict changes only through a table entry whose key holds that dict in the source |
| ApplyConfig.UpdateSharedDict | buildcv.py:46-48 | at any state, a table entry on a key holding a dict of the source keeps the same object in the copy, now holding its current entries overlaid with the configuration's; no other dict and no key of the copy changes |
| ApplyConfig.ReplaceWithDict | buildcv.py:49-51 | at any state, a table entry on a key whose value is not a dict gives the copy a new dict with the configuration's entries; no dict object changes |
| ApplyConfig.DictBranchMissingKey | buildcv.py:46 | at any state, a table entry for a key the copy lacks raises KeyError(k) |
| ApplyConfig.SelectItems | buildcv.py:52-59 | at any state, a list entry reads dict(src[k]) with the current contents of the shared dicts, and puts, in order and with repetitions, the item of every ID into the copy; no other key and no dict object changes |
| ApplyConfig.SelectMissingId | buildcv.py:60-62 | at any state, the first ID that is not a key of dict(src[k]) raises KeyError("no '<id>' in '<k>'") |
| ApplyConfig.ListBranchMissingKey | buildcv.py:53 | at any state, a list entry for a key the source lacks raises KeyError(k) |
| ApplyConfig.OverrideScalar | buildcv.py:63-65 | at any state, any other value overrides the field of the copy directly |
| ApplyConfig.LaterConfigSeesUpdate | buildcv.py:38-48 | a later configuration applied to the same source sees the entries an earlier one wrote into a shared dict |

## Left out

- `render`, the partial discovery and registration, `formatDate` and `formatAddress` are left out. They are file reads and the Handlebars, moment and address-format libraries, whose code is not part of this model.
- The Swag and Filter helper registration and `pdfRenderOptions` are library calls and static data.
- The file read of `imagedata` is left out; the image bytes are a parameter of `ThemeHelpers.DataUri`.
- `new Date().getFullYear()` in `yearsAgo` is a clock read; the current year is a parameter of `ThemeHelpers.YearsAgo`.
- JavaScript numbers are modelled as integers and NaN only. Fractions, exponents, hexadecimal, binary (0b) and octal (0o) literals, Infinity and -0 are not modelled; strings that spell them read as NaN here.
- JavaScript numbers are doubles, but the model's integers are unbounded. So beyond 2^53 in magnitude the subtraction in `yearsAgo` and the text in `yearsAgo` and `nYears` are exact here, where JavaScript rounds them. From 1e21 on, JavaScript prints a number in exponent form ("1e+21"), and the model prints every digit.
- Strings are sequences of characters. The UTF-16 code units of astral characters and the Unicode space characters beyond those `JsValues.IsJsSpace` lists are not modelled.
- ThemeHelpers.RemoveProtocol: an argument that is not a string is not modelled. In the code it raises a TypeError, or calls that value's own `replace`.
- ThemeHelpers.AuthorString: holes in sparse arrays, which `forEach` skips, are not modelled, and nor are objects that define their own `slice` or `forEach`.
- `read_toml` (the tomllib parser) is left out; the parsed documents are given to `TomlMerge.ReadTomls`. `main` is left out as argument parsing, file writing and `json.dumps`, as are the `print` diagnostics of `apply_config`, which do not affect its results.
- The key order of Python dicts is not modelled: dicts are maps. The order of the configuration's entries is kept by giving them to `ApplyConfig.ApplyConfig` as a sequence of pairs.
- TomlMerge.MergeDicts: the nested dicts of a configuration are reachable only through one key path. Each is therefore a table value written back to its key, not an object updated in place. When a merge raises, the changes made before the exception are not described; `read_tomls` discards the configuration in that case.
- ApplyConfig.ApplyConfig: it requires that every dict directly under the source record is a dict object (`SourceDictsShared`), as it always is in Python; a `Plain` table stands only for a dict the copy creates. Dicts nested two or more levels below the record are values, not objects. `apply_config` never updates them. A dict the copy creates with `copy.copy(vs)` is a value too, since nothing else references it.
- ApplyConfig.DictOf: `dict()` is modelled for a dict, for a table, for the empty string (an empty iterable gives `{}`), and for a list of two-element lists whose first element is a string. On every other value it reports `NotAMapping`. Python may raise TypeError or ValueError there instead. It also accepts, as a pair, a two-character string, an item with a non-string key, or a dict with exactly two keys (iterating the dict yields its two keys); the model does not.
