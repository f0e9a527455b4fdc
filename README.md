# Checkout banner: inline markup, countdown and settings

This project models the logic of the inline checkout banner of a Shopify
checkout UI extension (`extensions/banner-inline/src/Checkout.tsx`). The
banner shows one or two merchant-configured text blocks and a countdown. The
model covers three parts of it:

- **The inline-markup parser** (`parseTextWithTagsPreact` and its inner
  `parse`). It turns a text block holding `<i>`, `<strong>` and `<span>`
  markers into a tree of plain segments and styled wrappers: emphasis, strong
  and the critical tone. Markers are matched without regard to the case of
  ASCII letters. A closer of any name ends the current level. Each opener
  starts a nested level.
  - `MarkupTags` (`tags.dfy`) holds the output tree and the recognition of the
    six marker tokens. It also holds the search for the next marker.
  - `Markup` (`markup.dfy`) holds the parser as the code is written. `Scan` is
    the specification of one level: one `Step` per loop iteration.
    `Parse` is the loop itself, a method with a `while` loop and one recursive
    call per opener, proved equal to `Scan`. `ParseText` is the top-level
    answer: nothing, one node unwrapped, or a list.
  - `MarkupFixed` (`markup_fixed.dfy`) holds the same parser with the tail
    handling corrected (see Findings).
- **The countdown** (`countdown.dfy`). A class holds the remaining seconds and
  whether the one-second interval is scheduled. `Tick` stands for one firing
  of the interval callback and `Teardown` for the effect's cleanup.
- **Settings resolution** (`settings.dfy`). It decides which texts to show
  and the countdown's starting value. The shop's translations of the two
  default texts are parameters. JavaScript's `trim` is modelled with the
  white space set it removes.

`wrappers.dfy` holds the `Option` type, which stands for `undefined` and for
"no match".

As written, a level that runs out of markers reports the start of its
marker-free tail instead of the end of the input. So every enclosing level
renders that tail again: `<i>abc` shows `abc` twice, and `<i><strong>abc`
shows it three times. The main model follows the code. The intended
behaviour is modelled beside it: an unclosed marker styles everything to the
end of the input.

## Model

| member | source | states |
|---|---|---|
| `MarkupTags.Token` | extensions/banner-inline/src/Checkout.tsx:29 | a marker token is 3 to 9 characters long: the brackets, an optional slash and one of the names `i`, `strong`, `span` |
| `MarkupTags.WidthOfToken` | extensions/banner-inline/src/Checkout.tsx:34 | the width the model advances by is the length of the matched token (`tagLength`) |
| `MarkupTags.LowerChar` | extensions/banner-inline/src/Checkout.tsx:29 | the case folding of a case-insensitive pattern: the result has no upper-case ASCII letter, only ASCII letters change, and `<` and `>` are untouched |
| `MarkupTags.MatchPart` | extensions/banner-inline/src/Checkout.tsx:29 | the marker pattern read part by part (the `<`, an optional `/`, then a name and `>`); a match fits in the input, and a closer is exactly a match whose slash part was present |
| `MarkupTags.MatchTag` | extensions/banner-inline/src/Checkout.tsx:29-34 | the marker anchored at an index; when there is one, it lies inside the input |
| `MarkupTags.MatchTagSpells` | extensions/banner-inline/src/Checkout.tsx:29 | a recognised marker is spelled at its index, up to letter case |
| `MarkupTags.MatchTagExact` | extensions/banner-inline/src/Checkout.tsx:29-34 | a marker is recognised at an index if and only if its token is spelled there, up to letter case; opener or closer and the name are read off correctly |
| `MarkupTags.FindTag` | extensions/banner-inline/src/Checkout.tsx:61 | the `search` offset of the next marker; a reported offset lies inside the input |
| `MarkupTags.FindTagFound` | extensions/banner-inline/src/Checkout.tsx:61 | the reported offset is where a marker starts |
| `MarkupTags.FindTagFirst` | extensions/banner-inline/src/Checkout.tsx:61 | no marker starts before the reported offset, and none at all when the search reports none |
| `MarkupTags.FindTagFinds` | extensions/banner-inline/src/Checkout.tsx:61 | conversely, after a marker-free stretch the search reports the next marker, and nothing after a marker-free rest |
| `MarkupTags.MatchTagIgnoresCase` | extensions/banner-inline/src/Checkout.tsx:29 | lower-casing the input changes no marker at any index |
| `MarkupTags.FindTagIgnoresCase` | extensions/banner-inline/src/Checkout.tsx:61 | lower-casing the input does not change the search result |
| `MarkupTags.MatchTagInSlice` | extensions/banner-inline/src/Checkout.tsx:61-70 | a marker inside a substring is the same marker in the whole input |
| `MarkupTags.TagEnds` | extensions/banner-inline/src/Checkout.tsx:29 | a recognised marker begins with `<` and ends with `>` |
| `Markup.Next` | extensions/banner-inline/src/Checkout.tsx:29-73 | the move one iteration makes: a marker at the index is handled first, then the search decides; every move stays inside the input, and every move except the tail advances the index; the tail move ends the level where it stands |
| `Markup.Substring` | extensions/banner-inline/src/Checkout.tsx:65-70 | `substring(a, b)` has `b - a` characters |
| `Markup.SubstringIsSlice` | extensions/banner-inline/src/Checkout.tsx:65-70 | `substring(a, b)` is the input's characters from `a` up to `b` |
| `Markup.Scan` | extensions/banner-inline/src/Checkout.tsx:24-78 | one level from index `i`; the returned position lies between `i` and the end of the input |
| `Markup.Step` | extensions/banner-inline/src/Checkout.tsx:28-77 | one iteration then the rest of the level; the returned position lies between `i` and the end of the input |
| `Markup.CloseMove` | extensions/banner-inline/src/Checkout.tsx:36-37 | when the loop finds a closer at `i`, the level returns `i` plus the closer's length and the nodes pushed so far |
| `Markup.OpenMove` | extensions/banner-inline/src/Checkout.tsx:39-58 | when the loop finds an opener, it pushes one node of the opener's style holding the nested level's nodes and continues where the nested level stopped |
| `Markup.TextMove` | extensions/banner-inline/src/Checkout.tsx:61-73 | with no marker at `i` and one later, the loop pushes the non-empty text before that marker and continues at the marker |
| `Markup.TailMove` | extensions/banner-inline/src/Checkout.tsx:63-67 | as written, with no marker at or after `i`, the loop pushes the rest and the level reports `i`, the start of that rest |
| `Markup.Parse` | extensions/banner-inline/src/Checkout.tsx:24-78 | the loop and its recursion return exactly the position and nodes of the level's specification `Scan` |
| `Markup.ParseText` | extensions/banner-inline/src/Checkout.tsx:21-82 | empty input and only empty input gives nothing; a list answer never has exactly one element; otherwise the answer's nodes are the top level's nodes |
| `Markup.ParseTextWithTags` | extensions/banner-inline/src/Checkout.tsx:21-82 | the method computing the top-level answer agrees with `ParseText` |
| `Markup.ScanKeepsPushed` | extensions/banner-inline/src/Checkout.tsx:25-70 | what a level has pushed is kept, in front of everything it pushes later |
| `Markup.SliceTagFree` | extensions/banner-inline/src/Checkout.tsx:70 | a substring in which no marker starts contains no marker at any index |
| `Markup.TextTagFree` | extensions/banner-inline/src/Checkout.tsx:61-73 | the text an iteration takes, before the next marker or as the rest, is non-empty and contains no marker |
| `Markup.ScanWellFormed` | extensions/banner-inline/src/Checkout.tsx:61-73 | at every depth, every plain segment the parser emits is non-empty and contains no marker |
| `Markup.ScanStops` | extensions/banner-inline/src/Checkout.tsx:36-77 | a level stops only at the end of the input, just after a closer it consumed, or at the start of the marker-free tail it emitted last |
| `Markup.NextIgnoresCase` | extensions/banner-inline/src/Checkout.tsx:29-61 | lower-casing the input leaves every move unchanged |
| `Markup.ScanIgnoresCase` | extensions/banner-inline/src/Checkout.tsx:29-61 | lower-casing the input gives the same tree and stop position, with only the plain text lower-cased |
| `Markup.OpenerNests` | extensions/banner-inline/src/Checkout.tsx:39-58 | an opener spelled in any case pushes exactly one node of its style, after the nodes already pushed; its children are the nested level just after the opener, and the scan resumes where that level stopped |
| `Markup.CloserEnds` | extensions/banner-inline/src/Checkout.tsx:36-37 | a closer of any name ends the level at exactly its index plus its length, and adds nothing |
| `Markup.NoTagIsOnePlain` | extensions/banner-inline/src/Checkout.tsx:61-81 | a non-empty input with no marker gives one plain node equal to the whole input |
| `Markup.StrayCloserDropsRest` | extensions/banner-inline/src/Checkout.tsx:36-81 | a closer met at top level ends the parse and only the marker-free text before it is kept: one plain node, or an empty list when the closer is the first thing in the input |
| `Markup.BoldStaysText` | extensions/banner-inline/src/Checkout.tsx:29 | `<b>` is not a marker and stays literal text |
| `Markup.AttributeStaysText` | extensions/banner-inline/src/Checkout.tsx:29 | `<i class=x>` is not a marker and stays literal text |
| `Markup.UnterminatedTailDuplicated` | extensions/banner-inline/src/Checkout.tsx:63-77 | as written, an unclosed opener followed only by text yields the styled text and then the same text again |
| `Markup.UnterminatedExample` | extensions/banner-inline/src/Checkout.tsx:63-77 | as written, `<i>abc` gives emphasised `abc` followed by a plain `abc` |
| `MarkupFixed.ScanFixed` | extensions/banner-inline/src/Checkout.tsx:24-78 | the corrected level; the returned position lies between the start and the end of the input |
| `MarkupFixed.StepFixed` | extensions/banner-inline/src/Checkout.tsx:28-77 | one corrected iteration then the rest of the level, within the same bounds |
| `MarkupFixed.TailMoveFixed` | extensions/banner-inline/src/Checkout.tsx:63-67 | with the correction, the rest is pushed and the level reports the end of the input |
| `MarkupFixed.ParseFixed` | extensions/banner-inline/src/Checkout.tsx:24-78 | the corrected loop returns exactly the position and nodes of `ScanFixed` |
| `MarkupFixed.ParseTextFixed` | extensions/banner-inline/src/Checkout.tsx:21-82 | the corrected top level: nothing only for empty input, a list never of one element |
| `MarkupFixed.NoCloserRunsToEnd` | extensions/banner-inline/src/Checkout.tsx:28-77 | with the correction, a level after which no closer starts anywhere in the input consumes the input to its end |
| `MarkupFixed.ScanStopsFixed` | extensions/banner-inline/src/Checkout.tsx:28-77 | with the correction, a level stops only at the end of the input or just after a closer it consumed, so a nested level that is never closed runs to the end of the input even when it contains closed levels |
| `MarkupFixed.UnterminatedWrapsTail` | extensions/banner-inline/src/Checkout.tsx:63-77 | with the correction, an unclosed opener followed only by text gives one styled node wrapping that text |
| `MarkupFixed.UnterminatedExampleFixed` | extensions/banner-inline/src/Checkout.tsx:63-77 | with the correction, `<i>abc` gives emphasised `abc` alone |
| `Countdown.TickValue` | extensions/banner-inline/src/Checkout.tsx:143 | a tick never gives a negative value, never increases a non-negative one, drops a positive value by exactly one, and gives zero exactly from values up to one |
| `Countdown.Ticks` | extensions/banner-inline/src/Checkout.tsx:142-144 | after at least one tick the value is not negative; from a non-negative start it never exceeds the start |
| `Countdown.TicksCountDown` | extensions/banner-inline/src/Checkout.tsx:142-144 | from a non-negative start, `k` ticks take `k` seconds off, down to zero and no further |
| `Countdown.ZeroIsFinal` | extensions/banner-inline/src/Checkout.tsx:143 | once the value reaches zero, later ticks leave it at zero |
| `Countdown.TicksNeverIncrease` | extensions/banner-inline/src/Checkout.tsx:143 | more ticks never leave more seconds |
| `Countdown.Countdown.constructor` | extensions/banner-inline/src/Checkout.tsx:139-141 | the value starts at the duration, and the interval is scheduled if and only if the duration is positive |
| `Countdown.Countdown.Tick` | extensions/banner-inline/src/Checkout.tsx:142-144 | while scheduled, one firing sets the value to `max(v - 1, 0)`; without an interval nothing changes; the value always equals the duration after the number of firings |
| `Countdown.Countdown.Teardown` | extensions/banner-inline/src/Checkout.tsx:145 | cleanup clears the interval and leaves the value as it was |
| `Settings.TrimStart` | extensions/banner-inline/src/Checkout.tsx:120-121 | the result is a suffix of the input; the removed prefix is white space and the result does not start with white space |
| `Settings.TrimEnd` | extensions/banner-inline/src/Checkout.tsx:120-121 | the result is a prefix of the input; the removed suffix is white space and the result does not end with white space |
| `Settings.Trim` | extensions/banner-inline/src/Checkout.tsx:120-121 | the trimmed text is no longer than the input and neither starts nor ends with white space |
| `Settings.TrimEmptyIffAllWhitespace` | extensions/banner-inline/src/Checkout.tsx:120-121 | a string trims to nothing if and only if every character of it is white space |
| `Settings.BlankIffAllWhitespace` | extensions/banner-inline/src/Checkout.tsx:119-121 | the source's emptiness test holds if and only if the block is unset or white space only |
| `Settings.OrEmpty` | extensions/banner-inline/src/Checkout.tsx:123-124 | the block or else the empty string: the result is empty exactly when the block is unset or empty, and a non-empty result is the configured block itself |
| `Settings.TimerTime` | extensions/banner-inline/src/Checkout.tsx:125 | the duration is 900 when unset or 0 and otherwise the configured value; it is never 0 |
| `Settings.Resolve` | extensions/banner-inline/src/Checkout.tsx:119-125 | both defaults are shown when both blocks are blank; otherwise each block is shown as configured; the timer is `TimerTime` of the setting |
| `Settings.DefaultsIffBothWhitespace` | extensions/banner-inline/src/Checkout.tsx:119-124 | the translations replace both blocks if both are unset or white space only, and otherwise each block is its setting or the empty string |
| `Settings.ResolveIdempotent` | extensions/banner-inline/src/Checkout.tsx:119-125 | resolving the resolved values again, with the same defaults, shows the same banner |
| `Settings.TimerStartsUnlessNegative` | extensions/banner-inline/src/Checkout.tsx:125-141 | the countdown starts if and only if the duration setting is unset or not negative |

## Left out

- Rendering: the `s-text`, `s-stack` and `s-grid` elements, and the one-line or two-line layout chosen by `hasTextBlock2`. The parser's output is the abstract `Node` tree.
- `formatTime` and `normalizeImageSize`. They come from `lib/utils`, which is not part of this model.
- Timing: `setInterval`, `clearInterval` and the `useEffect` lifecycle are abstracted as explicit `Tick` and `Teardown` calls.
- The host globals: `shopify.settings` becomes a `Config` value, and `shopify.i18n.translate` becomes the two default texts passed in.
- `Settings.TimerTime`: `parseInt(String(...))` is modelled for integer settings only. A fractional or exponent-formatted number, which `parseInt` would truncate, is not modelled.
- Layout and appearance settings: alignment, colours, borders, padding and icon.
- `parsedText2` is only computed for a non-empty second block. This is the same answer as parsing the empty string, which gives nothing, so it is not modelled separately.
- `Markup.ScanWellFormed`: it states that every plain segment is non-empty and marker-free. It does not state separately that the segment is a substring of the input; that holds by construction, since every segment is built with `Substring`.
- `Markup.ScanStops`: the third way a level can stop is the as-written behaviour described under Findings. The corrected `MarkupFixed.ScanStopsFixed` drops it: a level then stops only at the end of the input or just after a closer.
- Characters are Unicode scalar values rather than UTF-16 code units. Case folding touches ASCII letters only, as a case-insensitive pattern without the Unicode flag does for these tokens.

## Findings

| source | as written | input that shows it | evidently intended | confidence | as-written member | corrected member |
|---|---|---|---|---|---|---|
| extensions/banner-inline/src/Checkout.tsx:63-67 | when no marker follows, the loop pushes the rest of the input and breaks without advancing `i`, so a nested level reports the start of that rest as its position and each enclosing level reads the rest again | `<i>abc` gives emphasised `abc` followed by a plain `abc` | an unterminated opener runs to the end of the input: `<i>abc` gives emphasised `abc` alone | not executed | `Markup.UnterminatedTailDuplicated` | `MarkupFixed.UnterminatedWrapsTail` |
