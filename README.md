# Identifier-case helpers of the template context

`templates/input.ts` builds the context that a Mustache template is rendered with.
The context holds a provider name, an ordered list of resource names and an owner.
It also holds three lambda helpers that re-case identifiers:

- `capitalize` upper-cases the character at every word start (`\b(\w)`).
- `camel` works in five steps:
  - it trims the text;
  - it turns every run of `_`/`-` into a space;
  - it splits on whitespace runs;
  - it lower-cases the first piece, and gives every later piece an upper-case first character and a lower-cased rest;
  - it joins the pieces.
- `snake` works in four steps:
  - it trims the text;
  - it inserts `_` inside every `[a-z0-9][A-Z]` pair;
  - it turns every run of whitespace/`-` into `_`;
  - it lower-cases the result.

The helpers are written for the `(text, render)` lambda protocol: each one renders the section text first and then re-cases the result. An error from `render` is not caught.

This project models these pieces as pure Dafny functions over `string`, with lemmas about them:

- `chars.dfy`: character classes and ASCII case mapping.
- `text.dfy`: the JavaScript string primitives the helpers chain together: `trim`, a global replace of character-class runs, `split(/\s+/)` and `toLowerCase`.
- `case_helpers.dfy`: the three transforms and their general properties.
- `known_cases.dfy`: concrete inputs and outputs.
- `lambdas.dfy`: the render-then-transform protocol and the context data.

Two reference definitions are proved equal to what the regular-expression engine does. The global replaces are modelled as the engine's left-to-right scan:

- `CapitalizeAfter` for `capitalize`.
- `BreakHumps` for the `[a-z0-9][A-Z]` replace, where a match consumes both of its characters.

`Capitalize` is proved equal to its scan. The hump scan is proved equal to a per-position reading (`HumpsAt`). The matches cannot overlap, because the second character of a match is a capital and so cannot start another match.

The model follows the code, including where it differs from what the helpers' names suggest:

- `camel` trims before it turns `_`/`-` into spaces. So `"_foo"` keeps its leading separator, splits into an empty first piece and `"foo"`, and becomes `"Foo"`.
- `camel` splits only at whitespace, `_` and `-`. A PascalCase name is therefore only lower-cased: `camel("InboundRoute") == "inboundroute"`.
- `camel` is not idempotent. Its output has no separators, so a second application lower-cases everything.
- `snake` keeps existing underscores and does not merge runs of them (`"a__b"` stays `"a__b"`).

## Model

| member | source | states |
|---|---|---|
| `Chars.ToUpper` | templates/input.ts:22 | `toUpperCase` on ASCII: a lower-case letter becomes its capital (code point minus 32); every other character is unchanged |
| `Chars.ToLower` | templates/input.ts:45 | `toLowerCase` on ASCII: a capital becomes its lower-case letter (code point plus 32); every other character is unchanged |
| `Chars.CaseKeepsClasses` | templates/input.ts:22 | re-casing never moves a character into or out of `\w`, whitespace, `_` or `-`; lower-casing leaves no capital; both maps are idempotent |
| `Text.Trim` | templates/input.ts:26 | the trimmed text neither starts nor ends with whitespace |
| `Text.TrimRemovesOnlyOuterSpace` | templates/input.ts:26 | the input is some whitespace, then the trimmed text, then some whitespace: `trim` removes nothing else |
| `Text.TrimIdentity` | templates/input.ts:40 | text that neither starts nor ends with whitespace is left unchanged by `trim` |
| `Text.TrimPadded` | templates/input.ts:26 | whitespace around a string that neither starts nor ends with whitespace is exactly what `trim` removes |
| `Text.TrimIdempotent` | templates/input.ts:40 | trimming twice is trimming once |
| `Text.Collapse` | templates/input.ts:29 | a global replace (also the one at line 44) of every maximal run of a character class by one character, scanning left to right; its properties are stated by the `Collapse…` lemmas below |
| `Text.CollapseAppend` | templates/input.ts:44 | the replace works run by run: cut the text where the second part starts outside the class, and the result is the two parts' results concatenated |
| `Text.CollapseLeavesNoRun` | templates/input.ts:44 | after a global replace of the class's runs by a character outside the class, no character of the class is left |
| `Text.CollapseIdentity` | templates/input.ts:29 | text with no character of the class is unchanged by the replace |
| `Text.CollapseRun` | templates/input.ts:29 | a whole run, up to a character outside the class, becomes one replacement character |
| `Text.CollapsePrefix` | templates/input.ts:44 | a prefix with no character of the class passes through the replace unchanged |
| `Text.SplitWs` | templates/input.ts:30 | `split(/\s+/)` gives at least one piece; no piece holds whitespace; only the first and last piece can be empty; the first is non-empty when the text does not start with whitespace |
| `Text.SplitJoin` | templates/input.ts:30 | joining the pieces with one space gives the text with every whitespace run collapsed to one space |
| `Text.SplitKeepsAbsence` | templates/input.ts:30 | every piece of the split avoids any class the text avoids |
| `Text.SplitNoSpace` | templates/input.ts:30 | text without whitespace splits into itself alone |
| `Text.SplitPrefix` | templates/input.ts:30 | a whitespace-free prefix is glued onto the first piece |
| `Text.LowerStr` | templates/input.ts:45 | `toLowerCase` keeps the length and lower-cases each character in place |
| `Text.LowerStrAppend` | templates/input.ts:45 | lower-casing distributes over concatenation |
| `Text.LowerStrIdentity` | templates/input.ts:45 | text with no capital is its own lower-casing |
| `Text.LowerStrNoUpper` | templates/input.ts:45 | lower-cased text holds no capital |
| `CaseHelpers.Capitalize` | templates/input.ts:20-23 | `capitalize` keeps the length; position `i` is upper-cased when a word starts there (a `\w` character with no `\w` before it) and kept otherwise |
| `CaseHelpers.CapitalizeAfter` | templates/input.ts:22 | the engine's left-to-right scan of the replace keeps the length; which characters it upper-cases is stated by `CapitalizeAfterAt` |
| `CaseHelpers.CapitalizeAfterAt` | templates/input.ts:22 | the engine's left-to-right scan upper-cases the character at `i` exactly when it is `\w` and the character before it (or, at 0, the context before the text) is not |
| `CaseHelpers.CapitalizeScan` | templates/input.ts:22 | the global replace as the engine performs it equals upper-casing every word start; all other characters are kept and the length is unchanged |
| `CaseHelpers.CapitalizeAfterAppend` | templates/input.ts:22 | the scan over `a + c` is the scan over `a`, then the scan over `c` started after `a`'s last character |
| `CaseHelpers.CapitalizeWordRun` | templates/input.ts:22 | in a run of `\w` characters only the first can change, and it changes only when the run starts a word |
| `CaseHelpers.CapitalizeWord` | templates/input.ts:22 | a single word gets only its first character upper-cased |
| `CaseHelpers.CapitalizeTwoWords` | templates/input.ts:21-22 | two words around a non-word character each get an upper-case first character; the separator is kept |
| `CaseHelpers.CapitalizeIdempotent` | templates/input.ts:22 | capitalizing twice is capitalizing once |
| `CaseHelpers.CapitalizeOnlyRecases` | templates/input.ts:22 | ignoring case, the output is the input |
| `CaseHelpers.UpperFirst` | templates/input.ts:33-34 | a later piece keeps its length; the `UpperFirst…` lemmas state that it keeps separators out |
| `CaseHelpers.CamelJoin` | templates/input.ts:31-36 | the map-and-join stage: first piece lower-cased, later pieces by `UpperFirst`, concatenated; stated through `CamelJoinKeepsAbsence` and `CamelJoinLeadingEmpty` |
| `CaseHelpers.CamelCase` | templates/input.ts:25-37 | `camel` as trim, replace of `_`/`-` runs by a space, whitespace split, map-and-join; its behaviour is stated by `CamelOfWords`, `CamelHasNoSeparator`, `CamelOfUnseparated`, `CamelTwice` and `CamelLeadingSeparator` |
| `CaseHelpers.UpperFirstKeepsAbsence` | templates/input.ts:33-34 | re-casing a piece keeps it free of separators |
| `CaseHelpers.CamelJoinKeepsAbsence` | templates/input.ts:31-36 | mapping and joining separator-free pieces gives separator-free text |
| `CaseHelpers.UpperFirstAllKeepsAbsence` | templates/input.ts:31-36 | the later pieces, re-cased and joined, hold no separator |
| `CaseHelpers.CamelHasNoSeparator` | templates/input.ts:26-36 | the output of `camel` holds no whitespace, `_` or `-` |
| `CaseHelpers.CamelOfUnseparated` | templates/input.ts:26-36 | on text with no whitespace, `_` or `-`, `camel` is lower-casing |
| `CaseHelpers.CamelTwice` | templates/input.ts:26-36 | a second `camel` lower-cases the first one's output |
| `CaseHelpers.CamelIgnoresOuterSpace` | templates/input.ts:26 | `camel` sees the text only through its trimmed form |
| `CaseHelpers.SplitWordThenSpace` | templates/input.ts:30 | a word, a non-empty whitespace run, then text that starts outside whitespace: the word is the first piece and the text's pieces follow |
| `CaseHelpers.SplitLeadingSpace` | templates/input.ts:30 | a leading whitespace run gives an empty first piece, then the pieces of the rest |
| `CaseHelpers.CamelOfWords` | templates/input.ts:26-36 | words separated by non-empty runs that mix whitespace, `_` and `-` freely: the first is lower-cased; each later one gets an upper-case first character and a lower-cased rest; all are concatenated |
| `CaseHelpers.CamelTwoWords` | templates/input.ts:26-36 | two words around one separator: the first lower-cased, then the second capitalised |
| `CaseHelpers.CollapseInterleave` | templates/input.ts:29 | words free of the class, with any text between them: the replace acts on the text between the words only, each stretch on its own |
| `CaseHelpers.SeparatorsToSpaces` | templates/input.ts:29-30 | a non-empty run of whitespace, `_` and `-` becomes a non-empty run of whitespace once `_`/`-` runs are replaced by spaces |
| `CaseHelpers.SplitInterleaved` | templates/input.ts:30 | words with non-empty whitespace runs between them split back into exactly those words |
| `CaseHelpers.TrimLeadingSeparator` | templates/input.ts:26 | a leading `_`/`-` is not whitespace and survives the trim |
| `CaseHelpers.CollapseLeadingSeparator` | templates/input.ts:29 | a leading `_`/`-` becomes a leading space |
| `CaseHelpers.SplitLeadingEmpty` | templates/input.ts:30 | a leading space then a word splits into an empty piece and the word |
| `CaseHelpers.CamelJoinLeadingEmpty` | templates/input.ts:31-36 | an empty first piece makes the next piece come out capitalised |
| `CaseHelpers.CamelLeadingSeparator` | templates/input.ts:26-36 | a word after a leading `_`/`-` comes out capitalised, not lower-cased |
| `CaseHelpers.BreakHumps` | templates/input.ts:42 | the pair replace never shortens the text and keeps its first character; where it inserts `_` is stated by `BreakHumpsPerPosition` |
| `CaseHelpers.HumpsAt` | templates/input.ts:42 | the position-by-position reading of the pair replace; `BreakHumpsPerPosition` proves it equal to the engine's scan |
| `CaseHelpers.HumpFreeAt` | templates/input.ts:42 | `HumpFree` holds exactly when no position starts an `[a-z0-9][A-Z]` pair |
| `CaseHelpers.NoLaterCapitalHumpFree` | templates/input.ts:42 | text whose only capital is its first character holds no such pair |
| `CaseHelpers.HumpFreeCons` | templates/input.ts:42 | a character in front of pair-free text keeps it pair-free unless the two form a pair |
| `CaseHelpers.HumpFreeTail` | templates/input.ts:42 | pair-free text neither starts with a pair nor has one in its rest |
| `CaseHelpers.BreakHumpsPerPosition` | templates/input.ts:42 | the engine's scan, which consumes both characters of a match, inserts `_` after exactly the positions where a pair starts |
| `CaseHelpers.BreakHumpsLeavesNoHump` | templates/input.ts:42 | after the replace no `[a-z0-9][A-Z]` pair is left |
| `CaseHelpers.BreakHumpsIdentity` | templates/input.ts:42 | text without capitals is unchanged by the replace |
| `CaseHelpers.HumpsAtIdentity` | templates/input.ts:42 | pair-free text gets no underscore |
| `CaseHelpers.HumpsAtAppend` | templates/input.ts:42 | on `a + b`: the underscores of `a`, one `_` if the seam is a pair, then those of `b` |
| `CaseHelpers.HumpsAtAppendNoSeam` | templates/input.ts:42 | when the seam is no pair, nothing is inserted there |
| `CaseHelpers.HumpsAtAppendSeam` | templates/input.ts:42 | when `a` ends in `[a-z0-9]` and `b` starts with `[A-Z]`, exactly one `_` is inserted at the seam |
| `CaseHelpers.InterleaveHumpsAt` | templates/input.ts:42 | pair-free words with runs of whitespace and `-` between them get no underscore |
| `CaseHelpers.ConcatHumpsAt` | templates/input.ts:42 | words glued at pairs get exactly one `_` at each seam |
| `CaseHelpers.SnakeCase` | templates/input.ts:39-46 | `snake` as trim, pair replace, replace of whitespace/`-` runs by `_`, lower-case; its behaviour is stated by `SnakeOfWords`, `SnakeOfHumpWords`, `SnakeIsClean`, `SnakeFixedPoints` and `SnakeIdempotent` |
| `CaseHelpers.CollapseInterleaveRuns` | templates/input.ts:44 | words free of the class with a non-empty run of the class between each two: every run becomes one replacement character |
| `CaseHelpers.SnakeIsClean` | templates/input.ts:42-45 | the output of `snake` holds no capital, no whitespace and no `-` |
| `CaseHelpers.SnakeFixedPoints` | templates/input.ts:40-45 | `snake` leaves a string unchanged exactly when it holds no capital, whitespace or `-`; underscores, even in runs, are kept |
| `CaseHelpers.SnakeIdempotent` | templates/input.ts:40-45 | applying `snake` twice is applying it once |
| `CaseHelpers.SnakeIgnoresOuterSpace` | templates/input.ts:40 | `snake` sees the text only through its trimmed form |
| `CaseHelpers.SnakeOfWords` | templates/input.ts:40-45 | pair-free words separated by non-empty runs that mix whitespace and `-` freely come out lower-cased and joined by one `_` per run |
| `CaseHelpers.SnakeOfHumpWords` | templates/input.ts:40-45 | camelCase and PascalCase words come out lower-cased and joined by `_` |
| `CaseHelpers.SnakeTwoWords` | templates/input.ts:40-45 | two pair-free words around whitespace or `-`: lower-cased and joined by `_` |
| `CaseHelpers.LowerAroundUnderscore` | templates/input.ts:45 | lower-casing `a + "_" + b` lower-cases `a` and `b` and keeps the `_` |
| `CaseHelpers.SnakeHump` | templates/input.ts:40-45 | two pair-free words glued at a pair: an `_` between them, everything lower-cased |
| `KnownCases.CapitalizeEmpty` | templates/input.ts:22 | `capitalize("") == ""` |
| `KnownCases.CapitalizeDomain` | templates/input.ts:22 | `capitalize("domain") == "Domain"` |
| `KnownCases.CapitalizeAddyMail` | templates/input.ts:22 | `capitalize("addy mail") == "Addy Mail"` |
| `KnownCases.CapitalizeKeepsSpace` | templates/input.ts:22 | `capitalize(" a") == " A"`: no trimming |
| `KnownCases.CapitalizeMailAlias` | templates/input.ts:22 | `capitalize("mail_alias") == "Mail_alias"`: `_` is a word character |
| `KnownCases.CapitalizeOutboundRoute` | templates/input.ts:22 | `capitalize("outbound-route") == "Outbound-Route"` |
| `KnownCases.CapitalizeHelloWorld` | templates/input.ts:22 | `capitalize("hello world") == "Hello World"` |
| `KnownCases.CapitalizeInboundRoute` | templates/input.ts:22 | capitals inside a word are kept: `"InboundRoute"` is unchanged |
| `KnownCases.CamelEmpty` | templates/input.ts:26-36 | `camel("") == ""` |
| `KnownCases.CamelMailAlias` | templates/input.ts:26-36 | `camel("mail_alias") == "mailAlias"` |
| `KnownCases.CamelOutboundRoute` | templates/input.ts:26-36 | `camel("outbound-route") == "outboundRoute"` |
| `KnownCases.CamelInboundUnderscoreRoute` | templates/input.ts:26-36 | `camel("Inbound_Route") == "inboundRoute"` |
| `KnownCases.CamelPaddedWords` | templates/input.ts:26-36 | `camel("  mail alias ") == "mailAlias"` |
| `KnownCases.CamelLeadingUnderscore` | templates/input.ts:26-36 | `camel("_foo") == "Foo"`: the trim runs before `_` becomes a space |
| `KnownCases.CamelInboundRoute` | templates/input.ts:26-36 | `camel("InboundRoute") == "inboundroute"` |
| `KnownCases.CamelDomain` | templates/input.ts:26-36 | `camel("domain") == "domain"` |
| `KnownCases.CamelOfAUnderscoreB` | templates/input.ts:26-36 | `camel("a_b") == "aB"` |
| `KnownCases.CamelOfAB` | templates/input.ts:26-36 | `camel("aB") == "ab"`: a capital with no separator before it is lower-cased |
| `KnownCases.CamelNotIdempotent` | templates/input.ts:26-36 | `camel(camel("a_b")) != camel("a_b")` |
| `KnownCases.SnakeInboundRoute` | templates/input.ts:40-45 | `snake("InboundRoute") == "inbound_route"` |
| `KnownCases.SnakeOutboundSpaceRoute` | templates/input.ts:40-45 | `snake("Outbound Route") == "outbound_route"` |
| `KnownCases.SnakeOutboundRoute` | templates/input.ts:40-45 | `snake("outbound-route") == "outbound_route"` |
| `KnownCases.SnakeLowerThenCapitals` | templates/input.ts:42 | `snake("aBC") == "a_bc"`: only a lower/digit-then-capital pair is split |
| `KnownCases.SnakeDomain` | templates/input.ts:40-45 | `snake("domain") == "domain"` |
| `KnownCases.SnakeMailAlias` | templates/input.ts:40-45 | `snake("mail_alias") == "mail_alias"` |
| `KnownCases.SnakeAlreadySnake` | templates/input.ts:40-45 | snake-case input is unchanged |
| `KnownCases.SnakeKeepsUnderscoreRun` | templates/input.ts:44 | `snake("a__b") == "a__b"`: runs of `_` are not merged |
| `KnownCases.SnakeAcmeCorp` | templates/input.ts:40-45 | `snake("AcmeCorp") == "acme_corp"` |
| `KnownCases.CamelAddyMail` | templates/input.ts:26-36 | `camel("addy mail") == "addyMail"` |
| `KnownCases.CamelMailRunAlias` | templates/input.ts:26-36 | `camel("mail - alias") == "mailAlias"`: a mixed separator run acts as one separator |
| `KnownCases.SnakeMailRunAlias` | templates/input.ts:40-45 | `snake("mail - alias") == "mail_alias"`: a mixed separator run becomes one `_` |
| `Lambdas.Transform` | templates/input.ts:20-46 | which re-casing each of the three helpers applies to the rendered string: `capitalize`, `camel` or `snake` |
| `Lambdas.Invoke` | templates/input.ts:20-46 | a helper fails exactly when `render(text)` fails, and then returns that same error |
| `Lambdas.InvokeOnlyThroughRender` | templates/input.ts:21 | the answer depends on the section text only through `render(text)` |
| `Lambdas.TrimmingHelpersIgnoreOuterSpace` | templates/input.ts:25-46 | for `camel` and `snake`, renderings that trim to the same text give the same answer |
| `Lambdas.CapitalizeSeesOuterSpace` | templates/input.ts:20-23 | `capitalize` does not trim: `" a"` and `"a"` trim alike but give different answers |
| `Lambdas.InvokeOutcome` | templates/input.ts:20-46 | on a successful render: `capitalize` keeps the length and changes only case; `camel` leaves no separator; `snake` leaves no capital, whitespace or `-` and is a fixed point of itself |
| `Lambdas.CapitalizeResources` | templates/input.ts:13-19 | `capitalize` maps the context's resources to `Domain`, `Mail_alias`, `InboundRoute`, `Outbound-Route` |
| `Lambdas.CamelResources` | templates/input.ts:13-19 | `camel` maps them to `domain`, `mailAlias`, `inboundroute`, `outboundRoute` |
| `Lambdas.SnakeResources` | templates/input.ts:13-19 | `snake` maps them to `domain`, `mail_alias`, `inbound_route`, `outbound_route` |
| `Lambdas.ContextNames` | templates/input.ts:13-19 | provider name through `capitalize` is `Addy Mail`, through `camel` `addyMail`; owner through `snake` is `acme_corp` |

## Left out

- Unicode. Case mapping, `\w`, `\b` and `\s` are modelled on ASCII only. JavaScript's full Unicode case mapping can change the length of a string, and its `\s` and `trim` also remove non-ASCII spaces.
- The template engine. `Mustache.render`, reading `template.mustache` with `readFileSync`, and `console.log` (templates/input.ts:49-54) are I/O and an external library. The renderer appears only as the `render` parameter of `Lambdas.Invoke`. A thrown exception is modelled as an `Err` value that is passed on.
- How often `render` is called. `Lambdas.Invoke` evaluates `render(text)` once, but a pure model cannot observe call counts. Only what follows from it is stated: the answer depends on `render(text)` alone, and an error passes through.
- The `resource` object and its `greet` function (templates/input.ts:3-10). They are example data that never reaches the renderer.
- agents/foo-bar/main.py is not part of this model. It wires an agent to an external chat-model library.
- docs/examples/schemas/datasource.ts is not part of this model. It is a schema declaration with no behaviour.
- The template file itself, and which section texts the helpers receive. The resource lemmas apply each helper to each resource name directly.
