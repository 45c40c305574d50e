# badge-input: a verified model of the address-entry state machine

`badge-input` is a browser custom element for entering email addresses. The
user types into a text field. A trigger key (Enter, Tab or comma) tries to
commit the trimmed text as a new address. On success the text is appended to
an ordered list of accepted addresses and the field is reset. On failure an
inline error paragraph tells the user why. Every key-down first clears any
error from the previous key.

This project models the part of `BadgeInput` that holds and changes state:

- `text.dfy`, module `Text`: `String.prototype.trim`, as `TrimStart`,
  `TrimEnd` and `Trim` over ECMAScript's whitespace and line-terminator
  characters.
- `email.dfy`, module `Email`: `isEmail`, written as a scan (`IsEmail`). It is
  proved equal to a reference definition of what the unanchored regular
  expression `[\w\d\.-]+@[\w\d\.-]+\.[\w\d\.-]+` matches (`PatternFoundIn`:
  some slice of the text is `class+ @ class+ . class+`).
- `badge_input.dfy`, module `Badge`:
  - the class `BadgeInput`, whose fields are the component's state: `items`
    (`_items`), `errorText` (the paragraph's `textContent`), `errorHidden` (its
    `hidden` attribute), `inputHasError` (the field's `has-error` class) and
    `inputValue` (the field's text);
  - its methods `Validate` and `HandleKeyDown` and its function `IsInList`;
  - `TriggerKeys` and the two error messages;
  - a pure specification: `ValidationError`, which gives the reported message
    by priority, and `Step`, the effect of one key-down on a `View` of the
    state. `HandleKeyDown` is proved to do exactly `Step`. `Validate` is
    proved to report exactly `ValidationError`, even though its code
    overwrites one message with the other.
  - `Run` folds `Step` over a session of key presses. Each `KeyPress` carries
    the text the field holds when the key goes down, because the browser
    edits the field between key-downs.
- `scenarios.dfy`, module `Scenarios`: example sessions. Each is stated for
  any text with the relevant property and then driven through the class's
  methods. Small lemmas show that some example strings (`a@b.co`, ` a@b.co`,
  `not-an-email`, `<x@y.com>`, three spaces) have those properties.

The list invariant the component keeps (`WellFormedList`: no address twice,
every address passes `isEmail`) is established by the constructor. It is
preserved by every key-down and by every session. Sessions only ever append
to the list.

Three points where the code does less, or something other, than its markup
and names suggest. The model follows the code in each:

- The chip markup that `update()` builds carries a remove button with the
  chip's address (badge-input.js:153), and a click listener `handleDelete` is
  registered. But `handleDelete` is never defined, so there is no remove
  operation. And `update()` assigns that markup to `innerHtml` (not
  `innerHTML`), so no chip is ever displayed.
- Only one message is shown per attempt. When a text is both a duplicate and
  malformed, the format message overwrites the duplicate one
  (`FormatMessageWins`). In a state the element can actually reach, a
  malformed text is never in the list (`MalformedNeverListed`), so this
  overwrite can never be observed.
- The pattern is not anchored. Text around an address does not stop it from
  matching (`IsEmailUnanchored`). The whole trimmed text, surrounding
  characters included, becomes the entry. For example, `<x@y.com>` is a valid
  address (`SampleBracketedAccepted`), so `FirstAddressAccepted` adds it
  with its brackets.

## Model

| member | source | states |
|---|---|---|
| Badge.TriggerKeys | badge-input.js:4 | no contract of its own (a constant): the keys Enter, Tab and comma; `SampleKeys` states which keys it holds |
| Badge.Initial | badge-input.js:75-87 | no contract of its own (a constant): the starting state; the constructor's contract ties a new element to it |
| Badge.ValidationError | badge-input.js:126-141 | no contract of its own: the message `validate` reports, by priority; its meaning is stated by `ValidationFailsIff` and `FormatMessageWins`, and `Validate` is proved to report it |
| Badge.Step | badge-input.js:106-123 | no contract of its own: the whole effect of one key-down on the state; its meaning is stated by `StepErrorIsFresh`, `NonTriggerKeyOnlyClears`, `BlankTextOnlyClears`, `AcceptAppends`, `RejectKeepsListAndField`, `StepKeepsWellFormed` and `StepAddsTrimmedText`, and `HandleKeyDown` is proved to do it |
| Badge.Run | badge-input.js:106-123 | no contract of its own: a session of key-downs; its meaning is stated by `RunSplits`, `RunKeepsWellFormed`, `RunOnlyAppends` and `RunAddsTrimmedTexts` |
| Badge.BadgeInput.constructor | badge-input.js:81-92 | a new element has an empty list, an empty hidden error paragraph, no error styling and an empty field, and its list is well formed |
| Badge.BadgeInput.IsInList | badge-input.js:159-161 | definitional: true exactly when some index of the accepted list holds that exact string, as `includes` compares strings; `Validate`'s contract is stated through it |
| Badge.BadgeInput.Validate | badge-input.js:125-145 | returns true exactly when `IsInList` is false for the text and it passes the format check; on failure it writes the message that `ValidationError` gives (format message over duplicate message), shows the paragraph and styles the field; on success those three are left as they were; the list and the field are never touched |
| Badge.BadgeInput.HandleKeyDown | badge-input.js:106-123 | the new state is exactly `Step` of the old state and the key; a well-formed list stays well formed |
| Badge.StepErrorIsFresh | badge-input.js:108-121 | after any key-down the error is visible and the field styled together, exactly when a trigger key met a non-empty trimmed text that failed validation, and then the paragraph holds that text's message; otherwise the paragraph text is as before |
| Badge.NonTriggerKeyOnlyClears | badge-input.js:108-111 | a key outside Enter/Tab/comma only hides the error and removes the styling; list and field are unchanged |
| Badge.BlankTextOnlyClears | badge-input.js:114-116 | a trigger key on a field holding only whitespace adds nothing, shows no error and writes no message |
| Badge.AcceptAppends | badge-input.js:116-120 | when the trimmed text validates, the new list is the old list with that text appended at the end, every earlier entry is unchanged, and the field becomes a single space |
| Badge.RejectKeepsListAndField | badge-input.js:116-121 | a trigger key whose trimmed text fails validation changes neither the list nor the field |
| Badge.ValidationFailsIff | badge-input.js:128-141 | validation fails exactly when the text is already listed or is not a valid address |
| Badge.FormatMessageWins | badge-input.js:128-134 | a text that is both listed and malformed gets the "is not a valid email address" message; the "has already been added" message is reported exactly for a well-formed duplicate |
| Badge.MalformedNeverListed | badge-input.js:116-119 | in a well-formed list no malformed text is present, so the duplicate message is never overwritten in reachable states |
| Badge.AppendKeepsWellFormed | badge-input.js:119 | appending a valid address that is not yet listed keeps the list duplicate-free and valid |
| Badge.StepKeepsWellFormed | badge-input.js:116-119 | one key-down keeps the list duplicate-free and every entry valid |
| Badge.StepAddsTrimmedText | badge-input.js:114-119 | one key-down either leaves the list as it was or appends exactly the trimmed field text |
| Badge.RunSplits | badge-input.js:106-123 | a session split in two has the effect of its first part followed by its second |
| Badge.RunKeepsWellFormed | badge-input.js:106-145 | for every session of key presses with any field texts, the list stays duplicate-free and every entry valid |
| Badge.RunOnlyAppends | badge-input.js:119 | over a session the earlier list is a prefix of the later one: order is kept and nothing is removed |
| Badge.RunAddsTrimmedTexts | badge-input.js:114-119 | every address a session adds is the trimmed field text of one of its key presses |
| Email.IsEmail | badge-input.js:163-165 | no contract of its own: `isEmail`, written as a scan; its meaning is stated by `IsEmailIffPatternFound` and `IsEmailUnanchored` |
| Email.DotFollowsFromSound | badge-input.js:164 | when the scan after the '@' succeeds, there is a '.' with a class character after it, reached through class characters only |
| Email.DotFollowsFromComplete | badge-input.js:164 | any such '.' makes the scan after the '@' succeed |
| Email.ScanSound | badge-input.js:164 | an '@' the scan accepts gives a slice of the text that the pattern matches |
| Email.ScanComplete | badge-input.js:164 | any slice that the pattern matches gives an '@' the scan accepts |
| Email.IsEmailIffPatternFound | badge-input.js:163-165 | `IsEmail` holds exactly when some slice of the text is `[A-Za-z0-9_.-]+ @ [A-Za-z0-9_.-]+ . [A-Za-z0-9_.-]+` |
| Email.IsEmailUnanchored | badge-input.js:164 | an accepted text stays accepted with any text added before and after it |
| Text.Trim | badge-input.js:114 | no contract of its own: `trim()`; its meaning is stated by `TrimStripsPadding`, `TrimEmptyIffAllWhitespace` and `TrimIdempotent` |
| Text.TrimStart | badge-input.js:114 | no contract of its own: the leading half of `trim()`; its meaning is stated by `TrimStartStrips` |
| Text.TrimEnd | badge-input.js:114 | no contract of its own: the trailing half of `trim()`; its meaning is stated by `TrimEndStrips` |
| Text.TrimStartStrips | badge-input.js:114 | TrimStart keeps a suffix, drops only whitespace and leaves no leading whitespace |
| Text.TrimEndStrips | badge-input.js:114 | TrimEnd keeps a prefix, drops only whitespace and leaves no trailing whitespace |
| Text.TrimSplits | badge-input.js:114 | stripping a whitespace prefix, then a whitespace suffix, leaves a slice surrounded only by whitespace |
| Text.TrimStripsPadding | badge-input.js:114 | the trimmed text is a slice of the field text with only whitespace around it, and it neither starts nor ends with whitespace |
| Text.TrimEmptyIffAllWhitespace | badge-input.js:114-116 | the trimmed text is empty exactly when the field holds only whitespace |
| Text.TrimIdempotent | badge-input.js:114 | trimming twice is trimming once |
| Scenarios.AcceptedAt | badge-input.js:164 | definitional helper: an '@' with the scan's conditions around it makes the text a valid address, which is `IsEmail` at a given witness |
| Scenarios.TrimKeepsUnpadded | badge-input.js:114 | a text starting and ending with non-whitespace is its own trim |
| Scenarios.SampleAddressAccepted | badge-input.js:164 | `a@b.co` is a valid address |
| Scenarios.SampleBracketedAccepted | badge-input.js:164 | `<x@y.com>` is a valid address, angle brackets included |
| Scenarios.SampleNoAtRejected | badge-input.js:164 | `not-an-email` is not a valid address |
| Scenarios.SampleTrims | badge-input.js:114 | `a@b.co`, `not-an-email` and `<x@y.com>` are their own trims |
| Scenarios.SampleLeadingSpaceTrim | badge-input.js:114 | ` a@b.co` trims to `a@b.co` |
| Scenarios.SampleBlankTrim | badge-input.js:114 | three spaces trim to the empty text |
| Scenarios.SampleKeys | badge-input.js:4 | Enter, Tab and comma are trigger keys and `x` is not |
| Scenarios.FirstAddressAccepted | badge-input.js:114-120 | a valid, unpadded address committed on a new element becomes its only entry, with no error and the field reset to a space |
| Scenarios.SecondAttemptRejected | badge-input.js:128-141 | re-entering the listed address, with any padding, shows the duplicate message, styles the field and keeps list and field |
| Scenarios.DuplicateSession | badge-input.js:106-145 | entering an address and then entering it again gives one entry and the "has already been added" message |
| Scenarios.MalformedSession | badge-input.js:128-141 | a malformed, non-empty text gives the "is not a valid email address" message, styles the field and adds nothing |
| Scenarios.BlankSession | badge-input.js:114-116 | a trigger key on a whitespace-only field leaves the new element's state as it was |
| Scenarios.NextKeyClearsErrorSession | badge-input.js:108-111 | after a rejected text, the next ordinary key hides the error and removes the styling, and the list and the field stay as they were |
| Scenarios.DuplicateRejected | badge-input.js:106-145 | driving the element's methods through the duplicate session reports the duplicate message, shows it and keeps one entry |
| Scenarios.MalformedRejected | badge-input.js:125-145 | driving the element's methods with a malformed text reports the format message, shows it, styles the field and adds nothing |
| Scenarios.BlankIgnored | badge-input.js:114-116 | driving the element's methods with a blank text shows nothing, adds nothing and leaves the field as typed |
| Scenarios.NextKeyClearsError | badge-input.js:106-111 | driving the element's methods, an error shown by one key is gone after the next ordinary key, and nothing was added |

## Left out

- The HTML template, the CSS, the shadow root and `customElements.define`
  (badge-input.js:6-77, 84-91, 168): these are presentation and platform
  registration, not state.
- Listener registration in `connectedCallback` and `disconnectedCallback`
  (badge-input.js:94-104): this is DOM event wiring. The model calls
  `HandleKeyDown` directly, as the registered listener would.
- `handlePaste` and `handleDelete`: the source references them but never
  defines them, so there is no paste transformation and no remove operation
  to model.
- `update()` (badge-input.js:147-157): it only assigns an HTML string to the
  misspelled property `innerHtml`. No modelled state changes, so it is not
  called in the model.
- `evt.preventDefault()` (badge-input.js:112): a browser side effect with no
  modelled state.
- General regular-expression semantics: only the one pattern the component
  uses is modelled, as `IsEmail` and its reference `PatternFoundIn`.
- The field's text is a field of the element, `inputValue`. This assumes the
  event's target is the component's own input, which is the only element the
  listener is registered on. The browser's editing of the field is not
  modelled as an operation: callers assign the field, and `Run` takes each
  key press's field text as given.
- `Text.IsWhitespace`: this is the whitespace set of ECMAScript `trim` with
  the space separators of current Unicode. A future Unicode version that adds
  space separators would not be covered.
- JavaScript truthiness: `if(error)` and `value && …` are modelled as "a
  message was set" and "the trimmed text is non-empty". Both error messages
  are always non-empty, so the two readings agree.
- The example sessions are proved for any text with the needed properties.
  The example strings are shown to have those properties by the `Sample…`
  lemmas. The sessions are not restated as lemmas about the literal strings.
- The browser's value sanitization for `<input type="email">`
  (badge-input.js:75): setting the value strips line breaks and leading and
  trailing ASCII whitespace, so after `evt.target.value = " "` (badge-input.js:117)
  the field reads back as "". The model keeps `ResetValue`, the " " the code
  writes. The list and the error are not affected, because " " and "" both
  trim to "".
- UTF-16: JavaScript strings are sequences of UTF-16 code units, and a Dafny
  `string` is a sequence of Unicode scalar values, so a lone surrogate cannot
  be represented. Nothing modelled depends on it: every character `trim`
  strips is in the Basic Multilingual Plane, the pattern's class is ASCII, and
  `includes` compares strings exactly.
