# Scrollspy helpers, modelled in Dafny

This project models the computational helpers of the vanilla-JavaScript
scrollspy used by the landing page (`source/javascripts/scrollspy.js`). The
scrollspy highlights the navigation link whose section is nearest the scroll
position, and scrolls smoothly to a link's target. Four helpers do the work
that is not DOM or timer glue:

- `escapeCharacters` turns a fragment identifier into a string to put after
  `#` in a `querySelector` selector. It follows CSS.escape, the "serialize an
  identifier" algorithm of CSSOM, section 2.1 "Common Serializing Idioms".
  It works code unit by code unit. U+0000 throws: the code means to throw
  `InvalidCharacterError`, but scrollspy.js never declares that name, so what
  is thrown is a `ReferenceError`. Control characters, a leading
  digit, and a digit after a leading `-` become `\`, lower-case hex and a space.
  Name characters are copied. Anything else gets a backslash in front.
- `findClosest` scans the anchors and keeps the first one at the least distance
  from the scroll position.
- `extend` merges the user's options over the default settings.
- `getEndLocation` adds up `offsetTop` along the `offsetParent` chain, takes off
  a header height and an offset, and clamps at 0.

Each helper is a loop that updates local variables, so each is a Dafny
`method` with a loop and invariants, proved against a specification:

- `css_escape.dfy` (module `CssEscape`). Code units are integers below 0x10000.
  `EscapeCharacters` is proved equal to the function `Escape`: one segment per
  code unit. The lemmas give:
  - the position of each code unit's segment in the output;
  - an if-and-only-if for when the output equals the input;
  - that the output is never shorter than the input;
  - that the output has no control characters and never starts with a digit
    or `-` and a digit;
  - that the output starts an identifier exactly when the input is neither
    empty nor `-`;
  - that hex codes read back as the code unit and have no leading zero;
  - a round trip. `Unescape` reads a name as a CSS tokenizer does, and it
    reads the escaped output back as the identifier. Whatever follows the
    output, reading does not stop inside it, and it carries on into what
    follows.
- `active_link.dfy` (module `ActiveLink`). `FindClosest` returns `None` exactly
  for an empty list. Otherwise it returns the anchor at the first index that is
  nearest the position: anchors before it are strictly farther, and no anchor is
  nearer. Offsets are integers, because `findAnchors` floors them.
- `settings.dfy` (module `Settings`). A JavaScript object is the list of its own
  properties in insertion order, with distinct keys. Keys that are array
  indices and the key `__proto__` are outside the model (see "Left out"). `Assign` models
  `o[k] = v`. `Extend` is proved to return the union of the two dictionaries
  with the options winning. It is also proved to keep the keys in order: the
  defaults' keys, then the options' new keys.
- `end_location.dfy` (module `EndLocation`). The chain is the list of
  `offsetTop` values: the target first, then its ancestors. An empty chain
  means the selector matched nothing.
- `wrappers.dfy` (module `Wrappers`). `Option` stands for `null`. `Result`
  stands for a value returned or an exception thrown.

The `forEach` helper (scrollspy.js:46-58) is not a separate member. Its
object branch is the two loops of `Extend` and its array branch is the loop of
`FindClosest`. Inherited properties, which it skips with `hasOwnProperty`, do
not exist in the model.

## Model

| member | source | states |
|---|---|---|
| `CssEscape.EscapeCharacters` | source/javascripts/scrollspy.js:85-148 | fails (with the `ReferenceError` that `new InvalidCharacterError` raises, the name being undeclared) exactly when some code unit is U+0000; otherwise returns the segments of the code units concatenated in input order (`Escape`) |
| `CssEscape.ToHex` | source/javascripts/scrollspy.js:121 | `codeUnit.toString(16)` has at least one digit |
| `CssEscape.ToHexDigits` | source/javascripts/scrollspy.js:121 | `codeUnit.toString(16)` writes only hexadecimal digits, all in lower case |
| `CssEscape.HexValueToHex` | source/javascripts/scrollspy.js:121 | the hex code written for a code unit denotes exactly that code unit |
| `CssEscape.ToHexNoPadding` | source/javascripts/scrollspy.js:121 | the hex code of a non-zero code unit has no leading zero |
| `CssEscape.ToHexShort` | source/javascripts/scrollspy.js:105-121 | code units below U+0080, the only ones escaped as code points, take at most two hex digits |
| `CssEscape.EscapeAt` | source/javascripts/scrollspy.js:92-146 | without U+0000, code unit `i` contributes exactly its segment (hex escape, copy or backslash escape), after the segments of the code units before it and before those of the code units after it |
| `CssEscape.SegmentLength` | source/javascripts/scrollspy.js:105-144 | a segment is one code unit long exactly when the code unit is copied, and longer otherwise |
| `CssEscape.EscapedLength` | source/javascripts/scrollspy.js:92-146 | the output is at least as long as the input, and exactly as long iff every code unit is copied as it is |
| `CssEscape.EscapeIdentity` | source/javascripts/scrollspy.js:129-139 | the output is never shorter than the input, and equals it iff all code units are name code units (U+0080 and up, `-`, `_`, digits, letters) and the input starts neither with a digit nor with `-` and a digit |
| `CssEscape.SegmentHasNoControl` | source/javascripts/scrollspy.js:105-123 | no segment holds a control character or U+0000 |
| `CssEscape.EscapeHasNoControl` | source/javascripts/scrollspy.js:105-123 | no control character and no U+0000 survives into the output |
| `CssEscape.EscapeIdentifierStart` | source/javascripts/scrollspy.js:109-118 | the output starts neither with a digit nor with `-` followed by a digit |
| `CssEscape.EscapeStartsIdentifier` | source/javascripts/scrollspy.js:105-144 | the output starts an identifier (a name-start code unit or valid escape, possibly after one `-`) exactly when the input is neither empty nor a lone `-` |
| `CssEscape.UnescapeHexEscape` | source/javascripts/scrollspy.js:121 | a backslash, at most six hex digits and a space read back as the code point the digits denote, whatever follows |
| `CssEscape.UnescapeCopied` | source/javascripts/scrollspy.js:138 | a copied (name) code unit reads back as itself and does not end the name |
| `CssEscape.UnescapeCharEscape` | source/javascripts/scrollspy.js:144 | a backslash before a code unit that is neither a hex digit nor a newline reads back as that code unit |
| `CssEscape.UnescapeSegment` | source/javascripts/scrollspy.js:105-144 | each segment reads back as the code unit it was made from, whatever follows it |
| `CssEscape.UnescapeSegments` | source/javascripts/scrollspy.js:92-146 | the segments from any index on read back as the code units from that index on, and reading then carries on into whatever follows them |
| `CssEscape.UnescapeEscape` | source/javascripts/scrollspy.js:85-148 | round trip: for input without U+0000 and any text after it, a CSS tokenizer reads the escaped output followed by that text as the input followed by what the text reads as. So the name never ends inside the output, and an escape never takes in code units that follow it |
| `CssEscape.SelectorFor` | source/javascripts/scrollspy.js:233 | `'#' + escapeCharacters(hash.substr(1))` fails exactly when the id after `#` holds U+0000; otherwise it is `#` followed by exactly the escaped id (`Escape`), the rest reads back as that id, and the rest starts an identifier (as an ID selector needs) exactly when the id is neither empty nor `-` |
| `ActiveLink.FindClosest` | source/javascripts/scrollspy.js:335-345 | `null` exactly for no anchors; otherwise an anchor of the list whose distance to the position is least, with every earlier anchor strictly farther (ties go to the first, by the strict `<`) |
| `ActiveLink.FirstNearestUnique` | source/javascripts/scrollspy.js:339 | only one index can be the first nearest, so the anchors and the position determine the result |
| `Settings.Assign` | source/javascripts/scrollspy.js:70-73 | `extended[prop] = value` keeps an existing key in place, appends a new key at the end, and keeps keys distinct |
| `Settings.AssignToMap` | source/javascripts/scrollspy.js:70-73 | as a dictionary, the assigned object is the old one updated at that key only |
| `Settings.Extend` | source/javascripts/scrollspy.js:67-76 | the result has distinct keys; as a dictionary it is the defaults overridden by the options; its keys are the defaults' keys in order, then the options' new keys in order |
| `Settings.NewKeys` | source/javascripts/scrollspy.js:72-74 | the keys the second loop appends are option keys that the defaults lack |
| `Settings.MergeLookup` | source/javascripts/scrollspy.js:67-76 | in the merged dictionary every option key reads as the option's value, and every default key no option has reads as the default |
| `Settings.ToMapKeys` | source/javascripts/scrollspy.js:46-52 | an object's dictionary has exactly the object's own keys |
| `Settings.ToMapAt` | source/javascripts/scrollspy.js:46-52 | each own property of an object is found in its dictionary with its value |
| `EndLocation.GetEndLocation` | source/javascripts/scrollspy.js:182-192 | throws `TypeError` exactly for a missing target. Otherwise the result is never negative. It equals the page top minus header height and offset when that is at least 0, and is 0 otherwise. The page top is the sum of `offsetTop` over the target and all its offset parents, or 0 when the target has no offset parent |
| `EndLocation.SumCons` | source/javascripts/scrollspy.js:185-188 | the sum the walk accumulates is the target's own `offsetTop` plus the sum over its offset-parent chain |
| `EndLocation.PageTopParent` | source/javascripts/scrollspy.js:182-188 | when the offset parent itself has an offset parent, the target's page top is its own `offsetTop` plus its offset parent's page top |

## Left out

- `easingPattern` (scrollspy.js:157-172) and the percentage and position arithmetic of `loopAnimateScroll` (265-272) are left out: they are floating-point numerics.
- `animateScroll` (229-293) is left out apart from the selector it builds at line 233 (`SelectorFor`). Its `setInterval` tick loop, its reads of `pageYOffset`, its `scrollTo` calls and its stop conditions are timer-driven browser I/O.
- `updateUrl` (213-219) and `getDocumentHeight` (199-205) are left out: they call the history API and read DOM geometry.
- `findAnchors` (312-333) is left out: it queries the DOM and calls `getBoundingClientRect`. When the container exists, its result enters the model as the `Anchor` list, with offsets already floored to integers.
- `scrollHandler`, `clickHandler`, `init`, `destroy` and `refresh` (295-310, 351-388) are left out: they attach event listeners and change `classList` on live DOM nodes. `refresh` also reads an undeclared `links` at line 363.
- The module-export wrapper (13-21) is left out, and so is `lander.js`, which sniffs the user agent and calls the external parallax library.
- The default settings literal (29-37) is data, not an operation. `Extend` is generic in the type of setting values, so callbacks and selectors are not modelled.
- `ActiveLink.FindClosest`: the scroll position is an integer here, while a browser's `pageYOffset` can be fractional.
- `ActiveLink.FindClosest` takes a list, so it does not model the call with `undefined`. When the container is missing, `findAnchors` returns the value of `console.error(…)` at line 319, which is `undefined`. `init` still calls `scrollHandler(false)` at line 387, and `findClosest(undefined, y)` then throws a `TypeError` when `forEach` reads `collection.length` at line 54. The script does not go quiet when there is no container; it throws.
- `Settings.Extend` leaves out array-index keys such as `"0"` and the key `"__proto__"`. JavaScript enumerates array-index keys first, in ascending order, so the stated key order does not hold for them. An own `"__proto__"` option key goes through the setter at line 73, which changes the prototype and adds no property, so the stated dictionary union does not hold for it. The defaults (29-37) and the options `lander.js` passes use plain identifiers only.
- `Settings.Assign` leaves out the same keys: an array-index key is not placed at the end, and assigning `"__proto__"` adds no property.
- `Settings.AssignToMap` leaves out the key `"__proto__"`, whose assignment leaves the own properties unchanged rather than updating the dictionary at that key.
- `EndLocation.GetEndLocation`: offsets are integers. A `NaN` from `parseInt(settings.offset, 10)` at line 237 is not modelled.
- `CssEscape.EscapeCharacters` works on UTF-16 code units, as the source does. Surrogate pairs are not treated specially.
- `CssEscape.SelectorFor` does not promise that the selector finds the element. An empty id gives `#`, and the id `-` gives `#-`. Neither is a valid ID selector, so `querySelector` at line 237 throws a `SyntaxError`. `StartsIdentifier` states exactly this case. A lone surrogate is copied as it is (line 138), and CSS preprocessing turns it into U+FFFD, so it cannot match the id. Preprocessing is not modelled. Later versions of CSSOM also escape an identifier that is a lone `-`. This code does not, so `-` escapes to itself, and the model follows the code.
- `CssEscape.Unescape` reads a name the way a CSS tokenizer does (CSS Syntax Module Level 3, sections 4.3.7 and 4.3.11), on text before preprocessing. Turning CR LF pairs into one newline is not modelled, and neither is replacing surrogates and U+0000 with U+FFFD. The escaped output has no CR, FF or U+0000.
