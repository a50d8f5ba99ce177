# unicode.fyi in Dafny

unicode.fyi is a web page that breaks a text into words, each word into
grapheme clusters, and each cluster into code points. For every code point it
shows a card with:

- the `U+XXXX` code;
- a slot for the General Category abbreviation, coloured by the category's
  major class, except that Paragraph Separator is green like the letters
  rather than pink like the other separators. It stays empty: the card reads `category_abbr`, but the
  record is serialised with `general_category_abbr`;
- a display form, in which White_Space characters are escaped;
- the Unicode name, or else its first abbreviation alias, or else `<none>`.

The record also carries the Unicode version that introduced the character,
its grapheme cluster break and some flags, which the card does not show.

The repository has three parts:

- a Rust library compiled to WebAssembly, `unicode_info` (`src/lib.rs`);
- a console program built on the same helpers (`src/main.rs`);
- a front end. The live one is a React page (`www/index.tsx`) that keeps the
  text in the URL query and the page title, draws random examples and inserts
  a code point typed in hex. An unfinished yew port (`src/view.rs`) shows each
  code point's UTF-8 and UTF-16 code units.

This project models these four files in Dafny and proves properties of the
model. The modules are:

- `Wrappers`: the `Option` datatype.
- `Numerals`: numerals in a radix, and the facts about them.
- `RustStd`: the parts of Rust's standard library the code relies on:
  - `char::is_whitespace`;
  - `escape_default` and `escape_unicode`;
  - `to_ascii_uppercase`;
  - the `{:04x}` and `{:#0Nx}` format specifications.
- `Encoding`: UTF-8 and UTF-16 encoders and decoders.
- `Unic`: what the code asks of the `unic` crate. It is gathered in
  `CharDatabase`, a value whose fields are the property lookups and the
  segmenters. The 30 General Category values and their abbreviations are
  written out.
- `Lib` (`src/lib.rs`): the record types, the labelling helpers and
  `unicode_info`.
- `Cli` (`src/main.rs`): the program's own copies of the helpers and its
  `CharInfo` record.
- `View` (`src/view.rs`): the yew components. They are classes whose `props`
  field `change` replaces. The code-unit buffers are arrays that
  `encode_utf8`/`encode_utf16` fill in place.
- `EcmaScript`: the ECMA-262 operations the page relies on, over JavaScript
  strings (sequences of UTF-16 code units):
  - `String.prototype.substring` (section 22.1.3.25);
  - `parseInt` with radix 16 (section 19.2.5);
  - `String.fromCodePoint` (section 22.1.2.2);
  - `CodePointAt` (section 11.1.4);
  - `encodeURIComponent` and `decodeURIComponent` (section 19.2.6).
- `Frontend` (`www/index.tsx`):
  - `insertAtCursor` over a `TextArea` class;
  - `randomChoice` and `randomAndDifferentChoice`;
  - `promptForCodePoint`;
  - the URL and title writers;
  - the `App` component as a class with the page's handlers.

## Model

| member | source | states |
|---|---|---|
| Lib.UnicodeInfo | src/lib.rs:16-23 | one `Word` per segment of the word segmenter, in order, each built by `Word::from_str` from that segment |
| Lib.Filter | src/lib.rs:19 | no more segments than the input; a string is kept exactly when it is one of the segments and the predicate accepts it |
| Lib.FilterConcat | src/lib.rs:19 | filtering a concatenation is the concatenation of the filtered parts, so order and repetitions are kept |
| Lib.FilterSingle | src/lib.rs:19 | one segment is kept exactly when the predicate accepts it |
| Lib.FilterKeepingAll | src/lib.rs:19 | the `\|_\| true` filter keeps every segment |
| Lib.UnicodeInfoKeepsContent | src/lib.rs:16-23 | whenever the segmenter partitions the input, the words' contents concatenate back to the input |
| Lib.UnicodeInfoKeepsText | src/lib.rs:16-56 | when both segmenters partition their inputs, the code points of all words and clusters, read in order, spell the input |
| Lib.WordFromStr | src/lib.rs:33-40 | the word keeps its text and has one cluster per grapheme segment, each built by `GraphemeCluster::from_str` |
| Lib.WordFromStrKeepsText | src/lib.rs:33-40 | a word's clusters concatenate back to its content |
| Lib.GraphemeClusterFromStr | src/lib.rs:51-56 | one code point record per `char` of the cluster; the i-th record is `CodePoint::from_char` of the i-th `char` |
| Lib.GraphemeClusterKeepsText | src/lib.rs:51-56 | the records' characters spell the cluster's content |
| Lib.CodePointFromChar | src/lib.rs:78-94 | every field of `CodePoint` comes from its helper or `unic` property for the same character |
| Lib.SerializeCodePoint | src/lib.rs:59-75 | the serialised object's keys are exactly the thirteen Rust field names, `general_category` and `general_category_abbr` among them |
| Lib.CharDisplay | src/lib.rs:97-103 | a non-White_Space character is shown as itself; a White_Space character becomes ASCII, one character long only for the space |
| Lib.CharDisplayOfWhitespace | src/lib.rs:97-103 | each White_Space character has its escaped form: `\t`, `\n`, `\r`, or `\u{…}` with lower-case hex digits, with the space left as itself |
| Lib.CharDisplayInjective | src/lib.rs:97-103 | different characters never share a display form |
| RustStd.EscapeDefault | src/lib.rs:99 | `escape_default` is always ASCII; it is one character, the character itself, exactly for printable ASCII other than the backslash and the quotes; every other form starts with a backslash |
| RustStd.IsWhitespace | src/lib.rs:98 | `is_whitespace` holds exactly for the 25 code points with the White_Space property |
| RustStd.EscapeUnicode | src/lib.rs:99 | `escape_unicode` is ASCII: `\u{`, then lower-case hex digits that parse back to the code point, then `}` |
| RustStd.UnescapeEscapeDefault | src/lib.rs:99 | the `escape_default` form of a character reads back as that character's code point |
| RustStd.EscapeDefaultInjective | src/lib.rs:99 | `escape_default` maps different characters to different strings |
| Lib.CharNameAbbreviations | src/lib.rs:112-114 | the first NameAbbreviations alias exactly when the character has one |
| Lib.CharName | src/lib.rs:105-110 | the Name; otherwise the first abbreviation; otherwise `<none>` |
| Lib.CharAge | src/lib.rs:116-125 | `<none>` for an unassigned character, otherwise the dotted decimal version |
| Lib.CharAgeInjective | src/lib.rs:116-125 | two age strings are equal only when both ages are absent or both are the same version |
| Lib.VersionStringInjective | src/lib.rs:118-121 | the `major.minor.micro` text determines the version |
| Unic.AbbrName | src/lib.rs:86 | each General Category abbreviation is two characters long |
| Unic.MajorClass | src/lib.rs:134-171 | the major class of a category is one of `L`, `M`, `N`, `P`, `S`, `Z`, `C` |
| Lib.CategoryColor | src/lib.rs:131-173 | every General Category value gets one of the palette's colours |
| Lib.CategoryColorByClass | src/lib.rs:134-171 | the colour depends only on the major class (the first letter of the abbreviation), except for Paragraph Separator, which is green although its class is `Z` |
| Lib.CharCategoryColor | src/lib.rs:131-134 | a character's colour is the colour of its General Category |
| Lib.CharCode | src/lib.rs:175-178 | `U+` and the upper-case hex numeral of the value, zero-padded to four digits; the digits after `U+` parse back to the scalar value |
| RustStd.ZeroPaddedHex | src/lib.rs:177 | `{:04x}`: lower-case hex digits, exactly `width` of them when the value fits, that parse back to the value |
| RustStd.ToAsciiUppercase | src/lib.rs:177 | the same length; each character upper-cased by the ASCII rule, the rest kept; no lower-case ASCII letter is left |
| RustStd.UppercaseHex | src/lib.rs:177 | upper-casing the lower-case hex numeral of a value gives its upper-case numeral |
| Lib.CharCodeLength | src/lib.rs:175-178 | the code is 6 characters long below U+10000, 7 below U+100000 and 8 otherwise |
| Lib.CharCodeOfMan | src/lib.rs:184-187 | the code of U+1F468 is `U+1F468`, as the crate's unit test expects |
| Cli.CharInfoFromChar | src/main.rs:26-39 | each field of the program's record comes from its helper or `unic` property for the same character |
| Cli.CharDisplay | src/main.rs:59-65 | the program's display form: unchanged outside White_Space, ASCII inside it, one character long only for the space |
| Cli.CharName | src/main.rs:67-72 | the program's name: Name, else first abbreviation, else `<none>` |
| Cli.CharNameAbbreviations | src/main.rs:74-76 | the program's first abbreviation alias, present exactly when the character has one |
| Cli.CharAge | src/main.rs:78-87 | the program's age text: `<none>` or the dotted decimal version |
| Cli.HelpersAgreeWithLibrary | src/main.rs:59-87 | the program's copies of `char_display`, `char_name`, `char_name_abbreviations` and `char_age` compute what the library's compute |
| Cli.CharInfoAgreesWithCodePoint | src/main.rs:26-39 | a `CharInfo` has the same labels and flags as the library's `CodePoint` for the same character |
| Cli.CharInfoDisplayInjective | src/main.rs:30 | two records with the same display form describe the same character |
| View.FormatU8 | src/view.rs:143-147 | `{:#04x}` of a byte is `0x` followed by exactly two lower-case hex digits that parse back to the byte |
| View.FormatU16 | src/view.rs:149-153 | `{:#06x}` of a code unit is `0x` followed by exactly four lower-case hex digits that parse back to the unit |
| RustStd.AlternateHex | src/view.rs:145 | `{:#0Nx}`: `0x` and zero-padded lower-case digits, exactly N characters in all when the value fits, that parse back to the value |
| View.FormatU8Injective | src/view.rs:145 | different bytes get different cells |
| View.FormatU16Injective | src/view.rs:151 | different code units get different cells |
| View.EncodeUtf8Into | src/view.rs:71-72 | `encode_utf8` writes the UTF-8 form of the character into the first `len_utf8` cells and leaves the others untouched |
| View.EncodeUtf16Into | src/view.rs:73-74 | `encode_utf16` writes the UTF-16 form into the first `len_utf16` cells and leaves the others untouched |
| View.CodePointBuffers | src/view.rs:71-74 | the two buffers have the lengths `len_utf8` and `len_utf16`, hold the encodings, and decode back to the character |
| Encoding.Utf8Length | src/view.rs:71 | `len_utf8` is between 1 and 4 |
| Encoding.Utf8LengthIsShortest | src/view.rs:71 | `len_utf8` is the fewest bytes whose value bits hold the code point: 7 bits in one byte, then 11, 16 and 21 |
| Encoding.Utf16Length | src/view.rs:73 | `len_utf16` is 1 or 2, never more than `len_utf8`, and 2 exactly when `len_utf8` is 4 |
| Encoding.DecodeUtf8 | src/view.rs:71-72 | a decoded value is a scalar value, and the bytes it came from are `len_utf8` of it in number |
| Encoding.DecodeUtf16 | src/view.rs:73-74 | a decoded value is a code point, and the units it came from are `len_utf16` of it in number |
| Encoding.EncodeUtf8 | src/view.rs:71-72 | a scalar value encodes to 1 to 4 bytes: a correct lead byte followed by continuation bytes |
| Encoding.Utf8RoundTrip | src/view.rs:71-72 | decoding the UTF-8 encoding of a scalar value gives it back |
| Encoding.Utf8Canonical | src/view.rs:71-72 | any byte sequence that decodes to a value is that value's encoding, so the encoding is the only one |
| Encoding.EncodeUtf16 | src/view.rs:73-74 | one code unit below U+10000; otherwise a high surrogate followed by a low surrogate |
| Encoding.Utf16RoundTrip | src/view.rs:73-74 | decoding the UTF-16 encoding of a scalar value gives it back |
| Encoding.Utf16Canonical | src/view.rs:73-74 | any unit sequence that decodes to a value is that value's encoding |
| View.ClusterRows | src/view.rs:65-83 | one row per `char` of the cluster |
| View.ClusterRowsDecode | src/view.rs:65-83 | each row's bytes and units decode to the character at that position |
| View.ClusterRowsInjective | src/view.rs:65-83 | different clusters give different rows |
| View.GraphemeClusterComponent.constructor | src/view.rs:48-50 | `create` keeps the props |
| View.GraphemeClusterComponent.Update | src/view.rs:52-54 | `update` never re-renders |
| View.GraphemeClusterComponent.Change | src/view.rs:56-63 | `change` re-renders exactly when the props differ, and the component ends up holding the new props |
| View.ChangeTwice | src/view.rs:56-63 | a second `change` with the same props does not re-render |
| View.GraphemeClusterComponent.View | src/view.rs:65-92 | the loop over `chars()` yields the cluster's text and, for each code point, a row whose buffers decode back to it |
| View.BytesComponent.constructor | src/view.rs:107-109 | `create` keeps the props |
| View.BytesComponent.Update | src/view.rs:111-113 | `update` never re-renders |
| View.BytesComponent.Change | src/view.rs:115-122 | `change` re-renders exactly when the bytes differ, and the component ends up holding the new bytes |
| View.BytesComponent.View | src/view.rs:124-136 | one cell per byte, in order, each the byte's `formatted()` |
| View.Utf8CellsReadBack | src/view.rs:124-130 | each UTF-8 cell of a byte component is 4 characters long and parses back to its byte |
| View.Utf16CellsInjective | src/view.rs:124-130 | two UTF-16 byte components showing the same cells hold the same units |
| View.App.Update | src/view.rs:11-13 | the root's `update` never re-renders |
| View.App.Change | src/view.rs:15-17 | the root's `change` never re-renders |
| View.RootView | src/view.rs:19-31 | the root has one child per grapheme segment of the fixed sample, holding that segment, in order |
| View.RootViewShowsSample | src/view.rs:19-31 | whenever the segmenter partitions the sample, the children's clusters concatenate back to `Denmark 🇩🇰` |
| EcmaScript.Substring | www/index.tsx:288-290 | never longer than the string; for positions in order inside the string, exactly the units between them, so `substring(0, k)` is the prefix and `substring(k, length)` the suffix |
| EcmaScript.SubstringClamped | www/index.tsx:288-290 | a position before the start or past the end acts as the start or the end |
| EcmaScript.SubstringSwap | www/index.tsx:288-290 | swapping the two positions gives the same result, never longer than the string |
| Frontend.InsertedValue | www/index.tsx:284-295 | with no `selectionStart`, the old text followed by the insertion; with one, the old text up to the clamped start, then the insertion |
| Frontend.InsertReplacesSelection | www/index.tsx:285-291 | with a selection inside the text, the result keeps what comes before it, puts the inserted text in its place, and keeps what comes after it |
| Frontend.InsertAtCaret | www/index.tsx:285-291 | with a caret and no selection, the text is inserted at the caret |
| Frontend.InsertWithoutSelection | www/index.tsx:292-294 | with no `selectionStart`, the text is appended |
| Frontend.InsertAtStart | www/index.tsx:285 | a caret at 0 counts as present, so the text is prepended |
| Frontend.TextArea.constructor | www/index.tsx:68 | a textarea holds its value and selection as given |
| Frontend.TextArea.SetValue | www/index.tsx:288-293 | writing `value` stores it; when it changes, the caret moves to the end |
| Frontend.TextArea.InsertAtCursor | www/index.tsx:284-295 | the new value is the insertion rule applied to the old value and selection |
| Frontend.RandomIndex | www/index.tsx:372 | `Math.floor(Math.random() * n)` lands in `[0, n)` when `n > 0` |
| Frontend.RandomChoice | www/index.tsx:371-373 | an entry of the list, or `undefined` for an empty list |
| Frontend.EveryEntryCanBeDrawn | www/index.tsx:371-373 | every entry is returned for some value of `Math.random()` |
| Frontend.FirstAccepted | www/index.tsx:363-369 | a returned choice is an entry exactly when the list is non-empty; the draws run out only when there were none or the list has two or more entries |
| Frontend.RandomAndDifferentChoice | www/index.tsx:363-369 | the `do … while` loop returns what the rejection rule gives for the draws: the first draw is taken from a list of at most one entry, otherwise the first draw different from the current text |
| Frontend.FirstAcceptedIsDifferent | www/index.tsx:363-369 | with two or more entries, the result differs from the current text and is an entry of the list |
| Frontend.SingleDrawSuffices | www/index.tsx:367 | with at most one entry, the first draw is returned at once |
| Frontend.StopsAtDifferentDraw | www/index.tsx:365-367 | a draw whose entry differs from the current text ends the loop, whatever draws follow |
| Frontend.PromptForCodePoint | www/index.tsx:375-391 | a cancelled or empty reply gives `null`; any string returned is one code point, one or two UTF-16 units that decode |
| EcmaScript.TrimStart | www/index.tsx:382 | parseInt's trimming drops exactly the leading run of white space: the result is a suffix, everything dropped is white space, and the result does not start with white space |
| EcmaScript.ParseIntHex | www/index.tsx:382 | a number needs something left after the white space, and a negative number needs a `-` there |
| EcmaScript.ParseIntHexSpaced | www/index.tsx:382 | white space in front of the reply does not change what parseInt reads |
| EcmaScript.ParseIntHexForm | www/index.tsx:382-383 | for white space, an optional sign, an optional `0x`/`0X` and a rest: NaN exactly when the rest does not start with a hex digit, otherwise the value of its leading hex digits, negated after `-` |
| EcmaScript.ParseIntOfNumeral | www/index.tsx:382 | `parseInt(_, 16)` reads a hex numeral in either case back to its value, and a `-` before it negates it |
| EcmaScript.ParseIntOfDigits | www/index.tsx:382 | a run of hex digits parses to the value it denotes |
| EcmaScript.ParseIntOfNegatedDigits | www/index.tsx:382 | a `-` before a run of hex digits negates the value |
| EcmaScript.ParseIntNoDigit | www/index.tsx:382-383 | a reply that starts with something other than white space, a sign or a hex digit is NaN |
| EcmaScript.FromCodePoint | www/index.tsx:387-390 | `String.fromCodePoint` throws exactly outside 0..0x10FFFF; otherwise it gives the value's UTF-16 units |
| Frontend.PromptAcceptsNumeral | www/index.tsx:382-387 | a hex numeral of a code point yields that code point's string |
| Frontend.PromptRejectsAboveRange | www/index.tsx:386-390 | a numeral above 0x10FFFF yields `null` |
| Frontend.PromptRejectsNegative | www/index.tsx:386-390 | a negated non-zero numeral yields `null` |
| Frontend.PromptAccepts2764 | www/index.tsx:377 | the reply `2764` inserts ❤ |
| Frontend.PromptRejectsCharCode | www/index.tsx:377-384 | a reply `U+…` is not hex, so it yields `null` |
| Frontend.PromptRejectsNoDigits | www/index.tsx:377-384 | any reply in which parseInt finds no digit after the white space, the sign and the `0x` yields `null` |
| Frontend.PromptRejectsUPlus2764 | www/index.tsx:377 | the reply `U+2764`, which the prompt suggests, yields `null` |
| EcmaScript.CodePointAt | www/index.tsx:350 | the code point at a position, its unit count, and whether it is a lone surrogate |
| EcmaScript.ToJsWellFormed | www/index.tsx:35 | a Rust string converts to a well-formed JavaScript string |
| EcmaScript.EncodeURIComponent | www/index.tsx:350 | the output has only unreserved units and `%XX` triples |
| EcmaScript.EncodeDefinedIffWellFormed | www/index.tsx:350 | `encodeURIComponent` throws exactly when the text has a lone surrogate |
| EcmaScript.EncodeUnreserved | www/index.tsx:350 | text made only of unreserved units is left unchanged |
| EcmaScript.DecodeURIComponent | www/index.tsx:350 | the inverse used to read back what `encodeURIComponent` wrote: never longer than the encoded text, and a text without `%` is its own decoding |
| EcmaScript.DecodeEncode | www/index.tsx:350 | decoding the encoding gives the text back |
| EcmaScript.EncodeInjective | www/index.tsx:350 | different well-formed texts get different encodings |
| Frontend.UrlFor | www/index.tsx:349-351 | the URL is `?q=` followed by the encoded text, and exists exactly when the text is well formed |
| Frontend.UrlCarriesText | www/index.tsx:349-354 | the text can be read back from the query of the URL written for it |
| Frontend.UrlInjective | www/index.tsx:350 | different texts are written to different URLs |
| Frontend.TitlePrefixSpelling | www/index.tsx:359 | the title's fixed part is 14 units: `unicode.fyi`, a space, the en dash U+2013 and the no-break space U+00A0 |
| Frontend.TitleFor | www/index.tsx:356-361 | the title is that fixed part followed by the text |
| Frontend.TextAreaValueProp | www/index.tsx:231 | the textarea is given a `value` exactly when `forceInput` is set, and that value is the text (its `defaultValue`, set to `inputValue` at line 119) |
| Frontend.ToRustString | www/index.tsx:35 | the Rust string has no more characters than the JavaScript string has units, and is empty exactly when it is |
| Frontend.ToRustStringOfToJs | www/index.tsx:35 | a Rust string survives the trip to JavaScript and back |
| Frontend.ToJsOfToRustString | www/index.tsx:35 | a well-formed JavaScript string survives the trip to Rust and back |
| Frontend.ExploreSection | www/index.tsx:172-185 | the section is left out exactly when the text is empty |
| Frontend.ExploreSectionShowsText | www/index.tsx:172-185 | for well-formed text and partitioning segmenters, the words shown spell the text |
| Frontend.InterfaceFieldMismatch | www/index.tsx:18-32 | the TypeScript `CodePoint` interface names `category` and `category_abbr`, but the serialised object carries neither |
| Frontend.InterfaceSharedFields | www/index.tsx:18-32 | every other name the interface declares is a key of the serialised object |
| Frontend.App.constructor | www/index.tsx:44-51 | the text starts as the `q` parameter, or empty; nothing is forced; the title follows the text; it takes a non-empty catalog, as `examples` is (www/examples.ts:1-55) |
| Frontend.App.SetInputValueInUrl | www/index.tsx:349-351 | the URL becomes `?q=` plus the encoded text, or the call throws on a lone surrogate and nothing changes |
| Frontend.App.SetInputValueInTitle | www/index.tsx:356-361 | the title is written when the page has a title element; otherwise nothing changes |
| Frontend.App.OnInput | www/index.tsx:54-58 | URL, title and text follow the typed value and the textarea stops being forced; a lone surrogate makes the first step throw, so nothing changes |
| Frontend.App.OnShuffleClick | www/index.tsx:60-65 | the chosen example is the one the rejection rule gives, always an entry of the catalog; it becomes the text, and URL, title and forced display follow it |
| Frontend.App.OnAddClick | www/index.tsx:67-80 | returns early without a textarea or without a character; otherwise inserts the character at the caret, and URL, title and text follow the textarea, with `forceInput` unchanged; the caret stays where it was when the value is unchanged and moves to the end of a changed value |
| Frontend.ShuffleThenType | www/index.tsx:54-65 | after a shuffle the textarea is forced to show the example; after the next input it is not forced |

## Left out

- `main`'s line loop (src/main.rs:42-57): reading standard input and the
  `Debug` printing are I/O. The record it prints is modelled.
- The `unic` tables and segmenters are not modelled as data. They are fields of
  `CharDatabase`; UAX #29 segmentation is only assumed to partition its input,
  as the `Partitions` requirement of the lemmas that need it.
- `set_panic_hook`, `wee_alloc`, the `#[wasm_bindgen]` glue and the
  serde/`JsValue` JSON text are not modelled. `SerializeCodePoint` models the
  key set and the value of each key.
- React and yew markup, CSS classes, `Header`, `ExploreKey`, `Button`,
  `onSourceClick` and the TypeScript card components only lay out data that is
  already modelled.
- The `examples` catalog stands as a field of `App`. The browser objects
  (`window.history`, `location`, `prompt`, `document`) become fields and
  parameters. `inputValueFromUrl` is the constructor's `query` parameter.
- Frontend.UrlCarriesText: reads the query back with `decodeURIComponent`,
  not with `URLSearchParams`' form decoding. The two differ for `+`, and for
  malformed escapes (`%` without two hex digits, escapes of invalid UTF-8).
  `encodeURIComponent` never emits either, so on the URLs the page writes they agree.
- EcmaScript.DecodeURIComponent: this is the read-back that
  `Frontend.UrlCarriesText` uses, not the page's own reader (www/index.tsx:353-354).
  `URLSearchParams` turns `+` into a space, keeps a `%` not followed by two hex
  digits, replaces invalid UTF-8 with U+FFFD and never throws. This member keeps
  `+` and fails on those escapes. So for a query typed by hand (`?q=a+b`) the
  page's text is not modelled.
- Frontend.RandomIndex: `Math.random() * n` is computed on exact reals; the
  rounding of double multiplication is not modelled.
- Frontend.RandomAndDifferentChoice: the draws are a finite sequence
  standing for `Math.random()`. When it runs out, the result is `OutOfDraws`.
  The real loop does not terminate when every entry equals the current text.
- EcmaScript.ParseIntHex: the value is kept as an exact integer, with no
  rounding to a double. Every value that would round is far above 0x10FFFF,
  so `promptForCodePoint` behaves the same. `-0` is read as `0`, which
  `String.fromCodePoint` also accepts.
- Frontend.App.constructor: requires a non-empty catalog, as the literal in
  www/examples.ts is. The `undefined` that `randomChoice` would return from an
  empty catalog, and the `setState` with it, are not modelled for the page.
- Lib.CharNameAbbreviations, Cli.CharNameAbbreviations: the alias lists are
  of type `Unic.AliasList`, never empty, so there is always an `abbrs[0]`. For
  an empty list the indexing at src/lib.rs:112-114 and src/main.rs:74-76 would
  panic; that panic is not modelled.
- Frontend.TextArea.SetValue: the textarea's line-break normalisation of the
  value is not modelled.
- React's `setState` is modelled as an immediate assignment. Its batching and
  re-rendering are not modelled.
- The `Byte` trait is modelled as the `formatted` function passed to
  `BytesComponent.View`, which is `FormatU8` or `FormatU16`.
- The conversion of a JavaScript string into a Rust string for the wasm call
  (`Frontend.ToRustString`) follows wasm-bindgen: a lone surrogate becomes
  U+FFFD.

## Behaviour followed as the code has it

- The prompt suggests entering `U+2764`. `parseInt("U+2764", 16)` is NaN, so
  that reply inserts nothing (`Frontend.PromptRejectsUPlus2764` in the model,
  www/index.tsx:377-384).
- The TypeScript interface expects `category` and `category_abbr`. The Rust
  record serialises `general_category` and `general_category_abbr`
  (`Frontend.InterfaceFieldMismatch`).
- `forceInput` is set by a shuffle and cleared only by the next `onInput`. A
  click on "add" leaves it set.
