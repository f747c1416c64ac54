# Identifier colorizer of the console logger

The logger of this bot prints one line per call: a timestamp, a level name and a
message. When decoration is on (any environment other than production), two
parts of that line get terminal colours:

- the level name, from a fixed table of six level colours;
- a short identifier in brackets at the start of the message, such as a request
  id. Each identifier gets a colour from a six-entry palette. The colour is
  handed out round robin the first time the identifier is seen, and it is
  remembered in a registry for 30 minutes.

This project models the identifier colorizer and the level-name renderer:

- `wrappers.dfy`: module `Wrappers`. It holds the `Option` type.
- `tables.dfy`: module `Tables`. It holds the level enumeration, the level names
  and colours, the identifier palette and `ColoredLevelName`.
- `idpattern.dfy`: module `IdPattern`. It holds the string side of the
  colorizer:
  - the test against `^\[.{4,8}\]`;
  - `indexOf("]")`;
  - the extracted identifier;
  - the rebuilt message;
  - `StripColor`, the inverse of the rebuilt message.
- `colorizer.dfy`: module `Colorizer`. It holds:
  - the registry (`colorMap` plus the counter `nextColor`) as the value
    `Registry`;
  - one call as the function `Step`;
  - the timer's deletion as the function `Expired`;
  - a class `Logger` that owns this state as mutable fields. Its methods
    `ColorMessage` and `Expire` are proved to perform `Step` and `Expired`.

`Registry.Valid()` is the invariant: the counter and every stored index are
below the palette size. `Step`, `Expired`, `Assign` and both methods keep it.
That is why the palette lookup `availableColors[col]` is always in bounds.
Without expiry a second invariant, `Counted`, holds too: the counter is the
number of stored identifiers mod 6. Expiry removes a key without moving the
counter back, so `Counted` is not claimed once `Expired` has been applied.

The pattern test is modelled exactly as the regular expression behaves. It
holds when, for some `n` from 4 to 8, the message has `[` at index 0 and `]` at
index `n + 1`, and no line terminator (`\n`, `\r`, U+2028, U+2029) lies
between them. Because `.` also matches `]`, the identifier (the text before the
FIRST `]`) can be shorter than four characters, even empty: `"[]abcd]x"`
matches with the identifier `""`. The pattern's `{4,8}` suggests identifiers of
4 to 8 characters, but the code keeps only the text before the first `]`. The
model follows the code and proves only what the code gives: at most 8 characters, no `]`, no line terminator (`ExtractId`,
`EmptyIdExample`).

The decoration flag is the constructor argument of `Logger`, and it is a
parameter of `Step` and `ColoredLevelName`. It is not read from the
environment.

## Model

| member | source | states |
|---|---|---|
| `Tables.LogLevel.Ordinal` | src/logger.ts:3-20 | every level's ordinal indexes both six-entry tables, the level names and the level colours |
| `Tables.LevelName` | src/logger.ts:70 | the plain name of a level is one of the six level names, non-empty, with no escape character |
| `Tables.ColoredLevelName` | src/logger.ts:68-74 | without decoration, the plain level name. With decoration, the level's opening code, then exactly the plain name, then the level's closing code |
| `Tables.PaletteOpenHasNoBracket` | src/logger.ts:24-31 | no opening code of the palette holds a `]`, so the first `]` of an output is the identifier's |
| `IdPattern.MatchesIdPattern` | src/logger.ts:22 | a matching message has at least 6 characters, starts with `[` and holds a `]` after it |
| `IdPattern.IndexOf` | src/logger.ts:78 | the result is -1 exactly when the character is absent. Otherwise it is the position of the character, with no occurrence before it |
| `IdPattern.IndexOfAfterPrefix` | src/logger.ts:78 | if `p` has no `ch`, the first `ch` of `p + [ch] + q` comes right after `p` |
| `IdPattern.BracketIndex` | src/logger.ts:78 | in a matching message the first `]` is at position 1 to 9, and no line terminator comes before it |
| `IdPattern.ExtractId` | src/logger.ts:78-79 | the identifier has at most 8 characters, no `]` and no line terminator, and the message starts with `"[" + id + "]"` |
| `IdPattern.ExtractIdUnique` | src/logger.ts:78-79 | if a matching message starts with `[id]` and `id` has no `]`, then `id` is the extracted identifier |
| `IdPattern.Remainder` | src/logger.ts:91 | the message is `"[" + id + "]"` followed by the remainder |
| `IdPattern.BracketedMessage` | src/logger.ts:76-91 | `"[" + id + "]" + rest` matches when `id` has 4 to 8 characters and no `]` or line terminator. Its identifier is `id`, and it is rebuilt as `open + "[" + id + "]" + close + rest` |
| `IdPattern.Render` | src/logger.ts:91 | the output is the message with the opening code in front and the closing code inserted right after the identifier's `]`, so it is longer by exactly the two codes. `StripRender` proves `StripColor` its inverse |
| `IdPattern.StripColor` | src/logger.ts:91 | when stripping succeeds, it removes exactly the lengths of the two codes |
| `IdPattern.StripColored` | src/logger.ts:91 | removing the opening code and the closing code after the first `]` turns `open + "[" + id + "]" + close + rest` back into `"[" + id + "]" + rest` |
| `IdPattern.StripRender` | src/logger.ts:91 | stripping the colour codes from any rebuilt message gives back the original message |
| `IdPattern.EmptyIdExample` | src/logger.ts:22-79 | `"[]abcd]x"` matches, its identifier is empty and its remainder is `"abcd]x"` |
| `IdPattern.NoBracketNoMatch` | src/logger.ts:22 | a message that does not start with `[` never matches |
| `Colorizer.Advance` | src/logger.ts:85-88 | the counter moves to `(col + 1) mod 6` and stays below 6 |
| `Colorizer.Assign` | src/logger.ts:80-89 | after the lookup, the identifier is a key holding the returned index. The keys are the old keys plus the identifier, and no old key changes its index. The invariant is kept |
| `Colorizer.Step` | src/logger.ts:76-94 | one call keeps the registry invariant |
| `Colorizer.Expired` | src/logger.ts:84 | only the expired key is removed, the other entries keep their indices, and the counter is not reset |
| `Colorizer.PassThrough` | src/logger.ts:77-93 | without decoration or without a match, the output is the message and the registry is unchanged |
| `Colorizer.FirstSighting` | src/logger.ts:80-91 | for a new identifier, the output is in the counter's colour. The registry becomes the old map plus `id -> nextColor`, and the counter becomes `(nextColor + 1) mod 6` |
| `Colorizer.RepeatSighting` | src/logger.ts:80-91 | for a known identifier, the output is in its stored colour and the registry is unchanged |
| `Colorizer.StableColor` | src/logger.ts:80-91 | a second message with the same identifier gets the same colour and changes nothing |
| `Colorizer.OutputStripsToMessage` | src/logger.ts:77-93 | stripping the colour codes from any output gives back the input message, and unmatched messages pass through as they are |
| `Colorizer.ExpireThenResight` | src/logger.ts:84-89 | after expiry, the identifier is new again. It gets the current counter value, and the counter then advances |
| `Colorizer.Run` | src/logger.ts:76-94 | a sequence of calls keeps the registry invariant |
| `Colorizer.AssignAll` | src/logger.ts:80-89 | a sequence of lookups keeps the registry invariant |
| `Colorizer.IdsOf` | src/logger.ts:78-79 | the identifiers of a sequence of matching messages, position by position |
| `Colorizer.RunLooksUpIds` | src/logger.ts:76-94 | with decoration on, a run of matching messages does exactly the lookups of their identifiers, in order |
| `Colorizer.AssignAllKeepsEntries` | src/logger.ts:80-89 | without expiry, an entry is never dropped or changed |
| `Colorizer.AdvanceShifts` | src/logger.ts:85-88 | advancing the counter once moves the round robin on by one identifier |
| `Colorizer.RoundRobinPeriodic` | src/logger.ts:85-88 | the round robin repeats after 6 identifiers |
| `Colorizer.RoundRobin` | src/logger.ts:80-89 | new, distinct identifiers get `(nextColor + i) mod 6` in order, and the counter ends at `(nextColor + count) mod 6` |
| `Colorizer.PaletteWraps` | src/logger.ts:85-88 | among new, distinct identifiers, identifier `k` and identifier `k + 6` share a colour |
| `Colorizer.FromStart` | src/logger.ts:23-33 | from process start, when every message matches and the identifiers are pairwise distinct, the i-th message's identifier gets index `i mod 6` |
| `Colorizer.StepCounted` | src/logger.ts:76-94 | with decoration on and no expiry, any call (matching or not, new identifier or repeat) keeps the counter equal to the number of stored identifiers mod 6 |
| `Colorizer.RunCounted` | src/logger.ts:76-94 | a run of calls keeps the counter equal to the number of stored identifiers mod 6 |
| `Colorizer.CountFromStart` | src/logger.ts:76-94 | from process start, for any mixture of new identifiers, repeats and unmatched messages, the counter is the number of distinct identifiers seen mod 6 |
| `Colorizer.StepBracketed` | src/logger.ts:76-91 | a message `[id]rest` is rebuilt in the palette colour that the lookup of `id` yields |
| `Colorizer.Session` | src/logger.ts:76-94 | from process start: `[a]` gets 0 and keeps it, then `[b]` gets 1, then an unmatched message passes through and the registry is exactly `{a: 0, b: 1}` |
| `Colorizer.Logger.constructor` | src/logger.ts:23-33 | the registry starts empty with the counter at 0 |
| `Colorizer.Logger.ColorMessage` | src/logger.ts:76-94 | the output and the new registry are those of `Step` on the old registry, and the invariant is kept |
| `Colorizer.Logger.Expire` | src/logger.ts:84 | the new registry is `Expired` of the old one |
| `Colorizer.ExampleSession` | src/logger.ts:76-94 | a `Logger` driven through the session returns the four outputs listed, and its map is `{a: 0, b: 1}` |
| `Colorizer.ExampleStrings` | src/logger.ts:22 | `"abcd"` and `"wxyz"` are accepted identifiers, and `"no brackets here"` does not match |

## Left out

- `Logger.log`, the line format with the timestamp and the rendering of the error
  (src/logger.ts:62-66). These are console output and clock access.
- The `process.exit(1)` of `wtf` (src/logger.ts:57-60). It is a process-boundary
  effect.
- The public one-line wrappers `verbose`, `debug`, `info`, `warn`, `error` and
  `wtf` (src/logger.ts:37-60). They only forward to `log`.
- The `setTimeout(...).unref()` scheduling and its 30-minute delay
  (src/logger.ts:84). These belong to the runtime's timers. Only their effect is
  modelled, as the explicit operation `Expire`/`Expired`, which any caller may
  apply at any time.
- Reading `NODE_ENV` (src/logger.ts:1). The decoration flag is an input.
- Strings are sequences of Unicode scalar values. JavaScript strings and its
  regular-expression `.` work on UTF-16 code units, so a character outside the
  Basic Multilingual Plane counts as one character here and as two in the
  source.
