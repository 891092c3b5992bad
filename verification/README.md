# nodeGame installer: decision logic in Dafny

This project models the decision logic of `nodegame-installer.js`, the
command-line script that downloads a nodeGame release with npm and lays it
out in a `nodegame-v<version>` folder. Four pieces of that script decide
things, and each is modelled and proved here:

- **Version argument** (`version_arg.dfy`, module `VersionArg`). The optional
  argument `process.argv[2]` is absent or empty (install the installer's own
  version 4.0.4), `dev` (4.0.4 as a development build), or `@<version>` with a
  version of one to five UTF-16 code units. Anything else is refused, which
  in the script is an error message followed by an early `return`. From the
  accepted request come the display version `VERSION` and the folder name
  `NODEGAME_AND_VERSION`.
- **Node.js gate** (`node_gate.dfy`, module `NodeGate`). The first
  dot-separated component of the Node.js version is read with
  `parseInt(_, 10)`. The script stops when that number is below 4. A NaN
  compares false and is let through.
- **Confirm answer** (`confirm.dfy`, module `Confirm`). The prompt's answer is
  matched against `/^y|yes|ok|true$/i`. The regular expression's search is
  modelled as "some branch matches at some position". This is proved equal to
  the plain reading: the line starts with `y`, contains `yes`, contains `ok`,
  or ends with `true`, ignoring ASCII case.
- **Spinner** (`spinner.dfy`, module `Spin`). A class with the script's
  fields. `Tick` is one run of the interval callback. The closed-over counter
  `current` is a field, and a ghost tick count ties it to the frame shown:
  tick n (from 0) shows frame n modulo the number of frames.

`js_text.dfy` (module `JsText`) states the JavaScript string built-ins these
pieces use: `indexOf`, `replace` with a string pattern, `.length` in UTF-16
code units, and the case folding of a regular expression's `i` flag.

The wider nodeGame design (stages, steps, rounds, game rooms) is implemented
in library modules that are not part of this model. The peer-review game
client (`examples/pr/PeerReviewGame-client.js`) and the facerank room script
(`games/facerank/server/game.room.js`) only call into those libraries. This
model follows the installer's code.

## Model

| member | source | states |
|---|---|---|
| `VersionArg.ParseArg` | nodegame-installer.js:36-60 | Every accepted request is well formed: `requestedVersion == "@" + version`, the version is 1 to 5 UTF-16 code units long, and a development build has version 4.0.4. `isDev` holds exactly for the argument `dev`. A given non-`dev` argument is handed on unchanged as the requested version. Only a given argument other than `dev` can be refused. |
| `VersionArg.DisplayVersion` | nodegame-installer.js:63 | `VERSION` is `v` followed by the version, then `-dev` for the development build; it is one or five characters longer than the version. |
| `VersionArg.FolderName` | nodegame-installer.js:65 | `NODEGAME_AND_VERSION` starts with `nodegame-v`, and after `nodegame-` comes exactly `VERSION`. |
| `VersionArg.DefaultRequest` | nodegame-installer.js:38-65 | With no argument, an empty one, or `dev`, the version is `4.0.4` and the requested version `@4.0.4`. Only `dev` sets the development flag. The folder is `nodegame-v4.0.4-dev` for `dev` and `nodegame-v4.0.4` otherwise. |
| `VersionArg.RejectsWithoutAtSign` | nodegame-installer.js:45-49 | Any given argument other than `dev` that does not start with `@` is refused with the missing-`@` error. |
| `VersionArg.AtSignForm` | nodegame-installer.js:50-54 | `@v` is accepted iff `v` is 1 to 5 code units long (so `@` alone and long versions are refused with the bad-length error). On acceptance the version is exactly `v`, the requested version is `@v`, and it is not a development build. |
| `VersionArg.RequestedVersionRoundTrip` | nodegame-installer.js:36-60 | The requested version of any well-formed request is itself an accepted argument. Reading it back gives the same version and requested version, without the development flag. |
| `VersionArg.FolderNameInjective` | nodegame-installer.js:63-65 | Two well-formed requests with the same folder name `nodegame-` + `VERSION` have the same version and the same development flag. The display version is `v` + version, with `-dev` for the development build. |
| `VersionArg.FolderNameShape` | nodegame-installer.js:63-65 | The folder name of every well-formed request starts with `nodegame-v` and is 11 to 19 characters long. |
| `NodeGate.FirstComponent` | nodegame-installer.js:119 | `split('.')[0]` is a prefix of the version without a `.`, and it is either the whole string or followed by a `.`. |
| `NodeGate.TrimStart` | nodegame-installer.js:120 | `parseInt` skips exactly the leading ECMAScript white space. |
| `NodeGate.LeadingDigits` | nodegame-installer.js:120 | The digits `parseInt` reads are the longest prefix made of decimal digits. |
| `NodeGate.ParseIntDecimal` | nodegame-installer.js:120 | `parseInt(_, 10)` is NaN iff no digit follows the white space and optional sign. A negative result needs a leading `-`. |
| `NodeGate.ParseIntDecimalValue` | nodegame-installer.js:120 | The value of `parseInt(_, 10)`: any leading white space, an optional `+` or `-`, any leading zeros, then a numeral of `n` followed by a non-digit or the end read as `n`, or as `-n` after `-`. |
| `NodeGate.ParseAfterWhiteSpace` | nodegame-installer.js:120 | White space in front of what `parseInt` reads never changes the result. |
| `NodeGate.ParseDecimal` | nodegame-installer.js:120 | A decimal numeral followed by a non-digit parses to the number it denotes. |
| `NodeGate.NodeVersionRejected` | nodegame-installer.js:119-126 | The installer can stop only when the first component, after white space, starts with a digit or a sign: a major that is NaN never stops it. |
| `NodeGate.ReleaseVersionGate` | nodegame-installer.js:119-126 | For a version `<major>.<rest>`, the installer stops iff the major is below 4. The comparison is numeric, not textual. |
| `NodeGate.NonNumericMajorPasses` | nodegame-installer.js:119-126 | A version starting with a character that is not a digit, white space or sign parses to NaN and is not refused. |
| `NodeGate.ExampleThreeRefused` | nodegame-installer.js:119-126 | `3.10.0` is refused. |
| `NodeGate.ExampleZeroRefused` | nodegame-installer.js:119-126 | `0.12.18` is refused. |
| `NodeGate.ExampleFourPasses` | nodegame-installer.js:119-126 | `4.0.0` passes. |
| `NodeGate.ExampleTenPasses` | nodegame-installer.js:119-126 | `10.0.0` passes, although it sorts before `4` as text. |
| `NodeGate.ExampleLeadingV` | nodegame-installer.js:119-126 | `v18.17.1` passes, because its major is NaN. |
| `Confirm.AffirmativeIff` | nodegame-installer.js:297 | The pattern's search succeeds iff the case-folded line starts with `y`, contains `yes`, contains `ok`, or ends with `true`. Both directions are proved. |
| `Confirm.MatchesAt` | nodegame-installer.js:297 | A branch matching at position `i` lies inside the line: `i` plus the branch's length is at most the line's length. |
| `Confirm.Test` | nodegame-installer.js:297 | A successful search needs a branch whose word is no longer than the line. |
| `Confirm.IsAffirmative` | nodegame-installer.js:297 | The answer ignores case: the line gives the same answer as its case-folded form. |
| `Confirm.TestIgnoresCase` | nodegame-installer.js:297 | With the `i` flag, folding the line before the search changes no search result, for any pattern of literal branches. |
| `Confirm.NegativeWithoutKeyLetters` | nodegame-installer.js:297 | A line with no `y`, no `k` (in either case), and not ending with `true` is a no. |
| `Confirm.ExampleNoCommaOk` | nodegame-installer.js:297 | `no, ok` counts as yes. |
| `Confirm.ExampleYellow` | nodegame-installer.js:297 | `Yellow` counts as yes (`^y`, ignoring case). |
| `Confirm.ExampleN` | nodegame-installer.js:297 | `n` counts as no. |
| `Confirm.ExampleTrueish` | nodegame-installer.js:297 | `Trueish` counts as no, because `true` must end the line. |
| `JsText.IndexOf` | nodegame-installer.js:357 | `indexOf` gives the least index at which the pattern occurs, or none (-1) iff it occurs nowhere. |
| `JsText.ReplaceFirst` | nodegame-installer.js:358 | `replace('%s', frame)` replaces only the first occurrence. Text before and after it is kept. Without an occurrence the text is unchanged. |
| `JsText.Utf16Length` | nodegame-installer.js:51 | `.length` counts UTF-16 code units: between one and two per character, and zero only for the empty string. |
| `JsText.FoldCaseMatches` | nodegame-installer.js:297 | Under the `i` flag a lower-case ASCII letter of the pattern matches exactly itself and its upper-case form. |
| `JsText.FoldStringIdempotent` | nodegame-installer.js:297 | Case folding keeps the length, and folding a folded line changes nothing. |
| `Spin.TickMessage` | nodegame-installer.js:357-359 | The tick message always contains the frame. |
| `Spin.TickMessageInverse` | nodegame-installer.js:357-359 | If the template has `%s`, putting `%s` back at its first position in the message gives the template, and the frame stands there. Otherwise the message is the frame, a space and the text. |
| `Spin.FrameIndex` | nodegame-installer.js:354-362 | The frame index of any tick is in `[0, chars.length)`. |
| `Spin.ModSucc` | nodegame-installer.js:362 | Advancing the counter by one modulo the frame count keeps it equal to the tick count modulo the frame count. |
| `Spin.EveryFrameShown` | nodegame-installer.js:354-363 | From any state of a valid spinner, every frame index comes up within the next `chars.length` ticks. |
| `Spin.Spinner.constructor` | nodegame-installer.js:340-344 | The text is the given text or `""`. The frames are `spinners[0]` on Windows and `spinners[4]` elsewhere. The delay is 60 ms, there is no handle, and the counter is 0. |
| `Spin.Spinner.Start` | nodegame-installer.js:353-356 | `start` resets the counter to 0 and stores the interval handle. |
| `Spin.Spinner.Tick` | nodegame-installer.js:356-363 | A tick writes the message for frame number (ticks since start) modulo `chars.length`. The counter becomes `(current + 1) % chars.length` and stays in range. |
| `Spin.Spinner.Stop` | nodegame-installer.js:366-370 | After `stop` the handle is undefined. The line is never cleared, because `enabled` is never set. |

## Left out

- The npm child process, the file moves, links and the generator
  configuration file (nodegame-installer.js:131-224, 265-287): file system
  and process I/O.
- The `readline` prompt itself (nodegame-installer.js:289-299): only the
  answer test on line 297 is modelled.
- `process.cwd()` and the `path.resolve` directories
  (nodegame-installer.js:67-84): they depend on the file system.
- All console output, the logo and the final instructions
  (nodegame-installer.js:86-115, 231-262).
- `setInterval`/`clearInterval` timing and terminal line clearing
  (nodegame-installer.js:346-351, 372-375): the interval handle is a
  parameter of `Start`, and each firing of the timer is a call of `Tick`.
- Spinner frame sets other than `spinners[0]` and `spinners[4]`
  (nodegame-installer.js:308-338): the constructor never selects them.
- Spin.Spinner.Start: calling `start` twice leaves the first interval
  running with its own counter. The model keeps one counter and one handle,
  so it does not capture that leak.
- NodeGate.ParseIntDecimal: the value is exact, while JavaScript rounds long
  digit runs to a double. Rounding never moves a number across 4, so the
  gate is unaffected.
- examples/pr/PeerReviewGame-client.js and
  games/facerank/server/game.room.js: widgets and DOM, random autoplay, and
  calls into the nodeGame stager, room and database libraries, which are not
  part of this model.
