# node-svg2img: the root-tag rewriter and input dispatch, in Dafny

`svg2img(svg, options, callback)` turns an SVG document into a PNG or JPEG
buffer. Before rendering, it does three things:

- It finds out what `svg` is: an inline base64 data URI, SVG markup, an
  HTTP(S) URL or a local path.
- It fills in default options.
- When a width or a height is requested, it rewrites the document's root
  `<svg ...>` tag with `scale`.

This project models those three steps and proves what they guarantee.

- `wrappers.dfy` (`Wrappers`): the `Option` type. It stands for a JavaScript
  value that may be `undefined`, `null` or `NaN`.
- `jsstring.dfy` (`JsString`): the string built-ins that `scale` calls,
  written out with JavaScript's edge cases:
  - `indexOf` returns -1 when nothing is found;
  - `substring` clamps and swaps its arguments;
  - `split` keeps empty pieces;
  - `trim`, and the `\s` class of regular expressions, cover the full
    ECMAScript whitespace and line-terminator set;
  - `replace` with a one-character string removes only the first
    occurrence;
  - `parseInt(_, 10)` and the decimal text of an integer.
- `attributes.dfy` (`Attributes`): the `props` object, an insertion-ordered
  table of attribute names and values. The class `AttrMap` updates it in
  place.
- `aspect.dfy` (`AspectRatio`): how the new `preserveAspectRatio` value is
  chosen. The regular-expression lookups are written as a scanner.
- `rewriter.dfy` (`Rewriter`):
  - each step of `scale` as a function: locate the tag, tokenise it,
    override the attributes, patch the style, serialise and splice;
  - the same steps as methods with the source's loops and its mutable
    `props` object, each proved to compute its function.
- `roundtrip.dfy` (`TagRoundTrip`): the tokenizer reads back what the
  serialiser writes, for attribute values that splitting on spaces and on
  `=` cannot misread.
- `properties.dfy` (`ScaleProperties`): what `scale` guarantees.
  - The text around the root tag is kept.
  - Sizes, viewBox, `preserveAspectRatio` and style are written as stated.
  - Every other attribute keeps its value.
  - Attribute order is kept, and new names are only appended.
  - The style patch is idempotent.
  - The output's root tag parses back to the rewritten table.
- `loader.dfy` (`Loader`): the dispatch of `loadSVGContent` and the choice
  between `http` and `https` in `loadRemoteImage`.
- `svg2img.dfy` (`Svg2Img`): option defaults, when the document is rescaled,
  the canvas size and the encoder.

Where the source does something surprising, the model does the same thing,
with strings taken as sequences of Unicode code points (see "Left out").
Three examples:

- With only a height requested, a width declaration in `style` becomes
  `width : undefinedpx`.
- A missing size leaves a gap in the viewBox: `"0 0  50"`.
- The base64 payload is taken from offset 26 of the argument, wherever the
  data URI prefix occurs in it.

## Model

| member | source | states |
|---|---|---|
| JsString.IndexOfFrom | index.js:81 | returns -1, with no occurrence anywhere, or the first position where the pattern occurs |
| JsString.Substring | index.js:168 | on in-range arguments it is the slice; otherwise both ends are clamped into the string, the smaller is taken as the start, and arguments spanning the whole string give it back |
| JsString.SubstringSwap | index.js:168 | swapping the two arguments gives the same text |
| JsString.Split | index.js:111 | returns at least one piece; no piece holds the separator, and every character of a piece comes from the input |
| JsString.JoinSplit | index.js:159 | joining the pieces of a split gives back the original string |
| JsString.SplitJoin | index.js:144 | splitting a join of separator-free pieces gives back the pieces |
| JsString.RemoveFirst | index.js:127 | `replace('"', '')` deletes only the first quote: putting it back where it was gives the original, and without a quote nothing changes |
| JsString.ParseInt | index.js:127-128 | `NaN` exactly when no digit follows the leading whitespace and an optional sign; a negative result comes from a leading `-` |
| JsString.ParseIntSkipsSpaces | index.js:127-128 | leading whitespace does not change what `parseInt` reads |
| JsString.TrimOf | index.js:104 | `trim` of a text between whitespace runs, starting and ending with a non-space, is that text |
| JsString.ParseIntToString | index.js:127-128 | `parseInt` reads back the decimal text of any integer, whatever non-digit text follows it |
| Attributes.Lookup | index.js:119 | a name is found exactly when it is in the key order, together with its stored value |
| Attributes.Put | index.js:123 | after `props[k] = v` the pair `k=v` is in the table; `LookupPut` and `KeysPut` give the rest |
| Attributes.LookupPut | index.js:123 | after `props[k] = v`, `k` reads `v` and every other name reads as before |
| Attributes.KeysPut | index.js:164 | assigning keeps the enumeration order, or appends a name that is new |
| Attributes.PutDistinct | index.js:110-126 | the table never holds a name twice |
| Attributes.PutExisting | index.js:159 | writing back the value a name already has leaves the table unchanged |
| Attributes.AttrMap.Get | index.js:127 | reading `props[key]` gives the table lookup |
| Attributes.AttrMap.Set | index.js:123 | the object keeps distinct names, and its new contents are the in-place update, or the append |
| AspectRatio.SkipSpaces | index.js:99 | `\s*` stops at the first non-whitespace character |
| AspectRatio.MentionsAttribute | index.js:98 | a mention needs text beyond the needle |
| AspectRatio.MentionAt | index.js:98 | the needle followed by any non-word character, anywhere in the document, is a mention |
| AspectRatio.QuoteAt | index.js:99 | a match at a position is the needle, then whitespace, one `=` and whitespace, then a single or double quote, which is returned with the position after it |
| AspectRatio.QuoteAtMatch | index.js:99 | conversely, the needle, any whitespace runs around `=` and either quote match there, with that quote |
| AspectRatio.TakeUntil | index.js:102 | the capture is the text from the start up to the first closing quote, or to the end when there is none |
| AspectRatio.AspectValueCases | index.js:93-109 | a non-empty string option is quoted; a missing, false or empty option gives `"none"`; a truthy non-string option gives `"none"` when the document never mentions the attribute or the tag has no quoted value |
| AspectRatio.FinalAspect | index.js:93-109 | a result is never empty; an absent or false option gives none; with a non-string option, a result needs a mention in the document and a match in the tag |
| AspectRatio.Rewrap | index.js:104 | the result is the value unchanged or its trimmed text in double quotes, and a value that trims to fewer than two characters is unchanged |
| AspectRatio.ExistingValueKept | index.js:98-104 | with a truthy non-string option and the tag's first needle followed by `\s*=\s*`, a quote `q`, a value `v` without `q` and `q`, the result is `v` rewrapped, or none for an empty `v` |
| AspectRatio.TakeUntilClosing | index.js:102 | `([^q]*)` captures exactly a value without `q` that a `q` closes |
| AspectRatio.FinalAspectFound | index.js:99-106 | with a mention and a first match, the result is the rewrapped capture, none when it is empty |
| AspectRatio.RewrapMatch | index.js:104 | whitespace, a text of two or more characters without line terminators that starts and ends with a non-space, and whitespace become that text in double quotes |
| AspectRatio.RewrapOneChar | index.js:104 | a single non-space character with whitespace around it is left as it is, unquoted |
| AspectRatio.RewrapLineBreak | index.js:104 | a line terminator inside the trimmed text leaves the value as it is |
| AspectRatio.RewrapNonEmpty | index.js:104 | a non-empty lookup result stays non-empty after the regex, so `"none"` never replaces it |
| AspectRatio.FirstQuoteOfNeedle | index.js:99 | when no earlier ` preserveAspectRatio` occurs, the lookup finds the quote that follows `\s*=\s*` after the first one |
| AspectRatio.FirstQuoteSkips | index.js:99 | the leftmost-match search passes over the positions where the expression fails |
| Rewriter.ScanTag | index.js:81-91 | the character loop yields the span from the first `<svg` to the first `>` after it, or to the end with `endIndex` left at `index` |
| Rewriter.ParseAttributes | index.js:110-126 | the tokenizer loop fills a fresh table without duplicate names, equal to the table the tokenizer function `ParseProps` defines |
| Rewriter.TokenStep | index.js:115-124 | one piece updates the table and the last key exactly as the tokenizer step `Step` does: an empty piece changes nothing, a piece without `=` extends the last key's value after a space, a piece with `=` sets its name and becomes the last key; names stay distinct |
| Rewriter.ApplyOverrides | index.js:127-138 | the writes replace the object's contents with the override table, and names stay distinct |
| Rewriter.PatchDeclarations | index.js:145-157 | every declaration is patched in place, and `styleUpdated` holds exactly when some declaration sets a width or a height |
| Rewriter.PatchOne | index.js:146-155 | a declaration is replaced exactly when it splits on `:` into two parts whose trimmed name is `width` or `height`, and is returned unchanged otherwise |
| Rewriter.PatchStyleAttr | index.js:141-161 | the style attribute is rewritten as the style patch prescribes, and names stay distinct |
| Rewriter.Serialize | index.js:163-167 | the tag text is `<svg`, each `name=value` in enumeration order, and `>`, joined by spaces |
| Rewriter.Scale | index.js:80-169 | the method returns the rewritten document |
| TagRoundTrip.ContinuationTokens | index.js:118-119 | pieces without `=` extend the value of the name set last, one space apart |
| TagRoundTrip.PairTokens | index.js:121-123 | the pieces of one serialised `name=value` set exactly that pair |
| TagRoundTrip.RenderedTokens | index.js:163-166 | tokenising the serialised pairs of a readable table rebuilds the table, and leaves its last name as the one later pieces extend |
| TagRoundTrip.ParseSerialize | index.js:110-167 | for a readable table, parsing the serialised tag gives back the same table |
| TagRoundTrip.TokensDistinct | index.js:110-126 | whatever the pieces, the tokenizer builds a table with distinct names |
| ScaleProperties.RootSpan | index.js:81-91 | for a closed root tag, the span runs from the first `<svg` to the first `>` after it |
| ScaleProperties.SpliceOutsideTag | index.js:168 | for a closed root tag, the splice keeps the text before the tag and the text after its `>`, character for character |
| ScaleProperties.ScaledIsSplice | index.js:168 | the output of `scale` is the text before the root tag, the serialised rewritten table and the text after the tag |
| ScaleProperties.UnclosedRootTag | index.js:83 | with no `>` after `<svg`, the tag runs to the end, and only the `<` is cut from what follows |
| ScaleProperties.NoRootTag | index.js:81 | without `<svg`, the new tag replaces everything up to the first `>`, or is put in front of the whole document |
| ScaleProperties.SpliceKeepsIndex | index.js:81 | after splicing in a tag that starts with `<svg`, the first `<svg` is at the same place |
| ScaleProperties.ReparseSplice | index.js:163-168 | the spliced document's root tag is the serialised table, and parsing it gives the table back |
| ScaleProperties.ScaledReparse | index.js:80-169 | when the rewritten table is readable, the output's root tag parses to exactly that table |
| ScaleProperties.SerializedShape | index.js:163-167 | a serialised tag starts with `<svg`, ends with its only `>` and has no line break |
| Rewriter.CleanTag | index.js:92 | the normalised tag holds no line feed and no carriage return, and only characters of the tag or spaces |
| ScaleProperties.CleanTagAppend | index.js:92 | the normalisation distributes over concatenation, so each character is rewritten in place and the order is kept |
| ScaleProperties.CleanTagChar | index.js:92 | a line feed becomes one space, a carriage return is dropped, and any other character is kept |
| ScaleProperties.CleanTagLineBreak | index.js:92 | a line break in the tag leaves the normalised text on both sides joined by exactly one space |
| JsString.ReplaceAllAppend | index.js:92 | the global replace distributes over concatenation |
| JsString.RemoveAllAppend | index.js:92 | the global removal distributes over concatenation, keeping the order of what stays |
| ScaleProperties.CleanTagIdentity | index.js:92 | line-break normalisation leaves a tag without line breaks unchanged |
| ScaleProperties.OverridesLookup | index.js:127-138 | what each name reads after the writes: the truthy size options, the viewBox rule, the computed `preserveAspectRatio`, and every other name unchanged |
| ScaleProperties.OverridesKeys | index.js:129-138 | the names after the writes are the original names in order, followed by exactly the new ones among width (when given), height (when given), viewBox and `preserveAspectRatio`, in that order; no name twice, `preserveAspectRatio` always present |
| ScaleProperties.OverridesOrder | index.js:129-138 | the names after the writes are the original names followed by the new written names in the order of the writes |
| ScaleProperties.PatchStyleEffect | index.js:141-161 | only the value of `style` can change, and it changes exactly when it is longer than two characters and sets a size |
| ScaleProperties.SizeDeclParts | index.js:146-148 | a declaration `name : valuepx` splits on `:` into exactly two parts, and the first trims to `name` |
| ScaleProperties.PatchedDeclsAreSizes | index.js:149-154 | each declaration the patch writes sets the size it names, so the patch recognises it again |
| ScaleProperties.PatchDeclIdempotent | index.js:145-157 | patching a declaration twice gives the same result as patching it once |
| ScaleProperties.PatchDeclsFacts | index.js:145-157 | patched declarations hold no `;`, patching twice equals patching once, and a size declaration stays one |
| ScaleProperties.StyleReparse | index.js:143-159 | reading the written style value back gives the patched declarations |
| ScaleProperties.PatchStyleIdempotent | index.js:141-161 | running the style patch on its own output changes nothing more |
| ScaleProperties.RewrittenKeys | index.js:110-167 | the serialised names are the original names in order followed by exactly the new ones among width (when given), height (when given), viewBox and `preserveAspectRatio`, in that order; no duplicates, `preserveAspectRatio` always present |
| ScaleProperties.SizeWritten | index.js:129-134 | a truthy width or height is written as its decimal text in quotes; otherwise the original value stays |
| ScaleProperties.QuotedSizeReadsBack | index.js:127-128 | a size stored as a quoted integer reads back as that integer |
| ScaleProperties.SizeReadsBack | index.js:127-134 | the written size reads back as the requested one |
| ScaleProperties.ViewBoxWritten | index.js:135-137 | a non-empty viewBox is kept; otherwise it is `"0 0 x y"`, with the original sizes when they parse to non-zero numbers and the options otherwise |
| ScaleProperties.AspectRatioWritten | index.js:138 | `preserveAspectRatio` is always present, with the computed value or `"none"` |
| ScaleProperties.OtherAttributesKept | index.js:110-168 | every other attribute keeps its original value |
| ScaleProperties.StyleWritten | index.js:141-161 | the style value is the patched declarations when one sets a size; otherwise it is the original |
| ScaleProperties.TokenWithEquals | index.js:121-123 | a piece with `=`: the text before the first `=` is the name, the text up to a second `=` is the value, and the name becomes the one later pieces extend |
| ScaleProperties.TokenWithoutEquals | index.js:118-119 | a piece without `=` is appended after a space to the value of the last name; before any name, both the name and the old value are `undefined` |
| Loader.SchemeOf | index.js:196-200 | HTTPS exactly when `https://` occurs anywhere in the URL |
| Loader.Classify | index.js:171-192 | precedence is data URI, then markup containing `<svg`, then a URL, then a file path, each test being an if-and-only-if; where the payload starts |
| Loader.Load | index.js:171-192 | markup is handed on as it is; a data URI is decoded; a URL is fetched with the chosen client; a path is read |
| Loader.DataUriPayload | index.js:175-176 | a document that starts with the prefix has the rest of its text as the payload |
| Loader.DataUriPayloadOffset | index.js:176 | with text before the prefix, the payload still starts at offset 26 |
| Loader.MarkupBeforeUrl | index.js:177-178 | markup that mentions a URL is still passed on unchanged |
| Loader.HttpsAnywhere | index.js:196-200 | a URL with `https://` anywhere, even after `http://`, is fetched over HTTPS |
| Svg2Img.Normalize | index.js:19-25 | the callback in the options position, or no options, leaves every option `undefined` |
| Svg2Img.FormatName | index.js:33-36 | a non-empty `format` is kept; otherwise it is `png` |
| Svg2Img.EncoderFor | index.js:45-53 | JPEG exactly for `jpg` or `jpeg`, with the quality option; otherwise PNG with the compression level |
| Svg2Img.SizeOr100 | index.js:69 | a truthy size is kept; otherwise it is 100 |
| Svg2Img.PrepareContent | index.js:30-32 | the document is rescaled exactly when a width or height is truthy, and is otherwise unchanged |
| Svg2Img.Svg2ImgPlan | index.js:26-69 | an error exactly when loading failed; the canvas sizes are never 0; without sizes the content is the loaded document |
| Svg2Img.PlanFacts | index.js:26-66 | a load error is passed on; otherwise it gives the rescaled-or-unchanged content, the canvas size and the encoder |
| Svg2Img.NoOptionsPlan | index.js:19-69 | without options, the document is rendered as loaded, as PNG on a 100 by 100 canvas |

## Left out

- Reading files, HTTP(S) requests and the stream events: `Loader.Load` takes the reader and the fetcher as parameters, and these include the UTF-8 decoding of what they return.
- `atob` is a parameter of `Loader.Load`.
- A `Buffer` passed as `svg` is decoded from UTF-8. The model starts from the decoded text.
- Rendering with canvg and jsdom, the canvas and the PNG/JPEG encoders are not modelled. `Svg2Img.Svg2ImgPlan` stops at what would be handed to them.
- Callbacks and asynchrony are not modelled. This includes the two callback calls that can happen when `convert` fails and rendering still goes on.
- `isFunction` is not modelled. The callback-as-options case is the `CallbackAsOptions` argument.
- The options are limited to integer sizes or none, a boolean or string `preserveAspectRatio`, and a string format. Non-integer numbers, numeric strings and objects as option values are not modelled.
- The model does not apply JavaScript's number limits: integers are unbounded, so sizes beyond 2^53 print exactly.
- Enumeration order is modelled as insertion order. JavaScript lists integer-like property names first, so an attribute named, for example, `1` would come out in a different place. The special `__proto__` name is not modelled either.
- The regex engine is not modelled. The four regular expressions of index.js:98, 99, 102 and 104 are written as explicit scanners. `AspectRatio.MentionsAttribute` is stated as a predicate over match positions.
- ScaleProperties.ScaledReparse: proved only for rewritten tables whose names and values the tokenizer cannot misread. Values that hold spaces in a row, a trailing space, `=` or `>` do not round-trip through `scale`'s own tokenizer. Names and values holding a line feed or a carriage return are excluded too, since the normalisation of index.js:92 rewrites them when the output is read again; a string `preserveAspectRatio` option can supply one.
- Strings are sequences of Unicode code points, not of UTF-16 code units as in JavaScript. The two differ only for characters outside the Basic Multilingual Plane, in four places: `\S.*\S` at index.js:104 sees such a character as two units and quotes it where `AspectRatio.Rewrap` leaves it bare; the `length > 2` test at index.js:141 counts it twice; the `length - 1` cuts at index.js:111 and 143 can leave a lone surrogate, which the model cannot represent; and `substring(26)` at index.js:176 cuts at the 26th code unit where `Loader.Classify` and `Loader.DataUriPayloadOffset` cut at the 26th code point, so such a character before the data-URI prefix shifts the payload that JavaScript decodes.
