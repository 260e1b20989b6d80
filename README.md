# SmsForwarder destination list, in Dafny

A model of the one piece of logic in the SmsForwarder React Native app: the
list of e-mail addresses that incoming SMS messages are meant to be forwarded
to, kept as state of the `App` component in `App.js`.

- `EmailFormat` (email_format.dfy): `validateEmail`, the regular expression
  `^[^\s@]+@[^\s@]+\.[^\s@]+$`, as the executable predicate `ValidEmail`,
  proved equal to "the string is `L '@' D '.' T` with `L`, `D`, `T` non-empty
  and free of white space and `@`"; and `String.prototype.trim` as `Trim`,
  proved to be the unique way of cutting white space off both ends. JavaScript's
  `\s` and the characters `trim` removes are the same set, `IsSpace`.
- `EmailList` (email_list.dfy): what `addEmail` does to the list and the input
  box (`Add`, with its four outcomes, one per alert), and the `filter` of the
  confirmed delete (`Without`), with their properties: rejections change
  nothing, success appends the trimmed address at the end and clears the box,
  the list never holds a duplicate or a rejected entry, delete removes every
  occurrence and keeps the order of the rest, delete undoes add.
- `Sms` (sms.dfy): the record `handleIncomingSms` builds (`'Unknown'` for a
  missing or empty sender, `''` for a missing body) and the rule that it is
  built only while the list is non-empty.
- `SmsForwarderApp` (app.dfy): the component's state as the class `App`, with
  one field per `useState` hook (`emails`, `newEmail`, `smsCount`) plus
  `saved`, the lists handed to `saveEmails` in order. Its methods are the
  handlers; each states its new state through the functions above, and the
  invariant `Valid()` (no duplicates, every entry valid) is preserved.

App.js compares addresses exactly, case included, with `includes` (App.js:126);
it deletes with a silent `filter`, so removing an address that is not listed
changes nothing (App.js:151); and on receipt of a message it only logs the
record it builds (App.js:82-83). The model does the same.

## Model

| member | source | states |
|---|---|---|
| `EmailFormat.IsSpace` | App.js:109-114 | the characters JavaScript's `\s` matches and `trim` removes (ECMAScript WhiteSpace and LineTerminator); neither `@` nor `.` is among them |
| `EmailFormat.TrimStart` | App.js:114 | the result is a suffix of the input, what was cut is all white space, and the result does not start with white space |
| `EmailFormat.TrimEnd` | App.js:114 | the result is a prefix of the input, what was cut is all white space, and the result does not end with white space |
| `EmailFormat.Trim` | App.js:114 | the trimmed string is no longer than the input and neither starts nor ends with white space |
| `EmailFormat.TrimIsTrimOf` | App.js:114 | `trim` cuts only white space, only from the two ends, and leaves no white space at either end |
| `EmailFormat.TrimOfUnique` | App.js:114 | there is exactly one such trimmed form, so `Trim` is the trim |
| `EmailFormat.TrimIdempotent` | App.js:114 | trimming an already trimmed string changes nothing |
| `EmailFormat.TrimEmptyIffBlank` | App.js:114-116 | the trimmed input is empty (falsy) exactly when the input is only white space |
| `EmailFormat.TrimKeepsUnpadded` | App.js:114 | a string without white space at its ends is its own trim |
| `EmailFormat.AtomPrefix` | App.js:109 | the greedy `[^\s@]*` prefix: all of it is in the class and the next character is not |
| `EmailFormat.ValidEmail` | App.js:108-111 | `validateEmail`: the greedy atom, then `@`, then a domain of atom characters with an inner `.`; an accepted string has at least five characters, among them an `@` and a `.` |
| `EmailFormat.ValidEmailIffShape` | App.js:108-111 | the regex accepts a string exactly when it splits as `L '@' D '.' T` with non-empty `L`, `D`, `T` free of white space and `@` (both directions) |
| `EmailFormat.DecomposeValid` | App.js:108-111 | every accepted string is `l + "@" + d + "." + t` for three such parts |
| `EmailFormat.ComposeValid` | App.js:108-111 | every `l + "@" + d + "." + t` built from three such parts is accepted |
| `EmailFormat.ValidEmailFacts` | App.js:108-111 | an accepted string has exactly one `@`, no white space, and a `.` after the `@` that is neither right after it nor last |
| `EmailFormat.ValidEmailIsTrimmed` | App.js:108-114 | an accepted address is unchanged by `trim` |
| `EmailFormat.ValidEmailExample` | __tests__/App.test.js:58-65 | `test@example.com` is accepted |
| `EmailFormat.InvalidEmailExample` | __tests__/App.test.js:75-80 | `invalid-email` is refused |
| `EmailList.Add` | App.js:113-136 | whatever the input, the old entries keep their places; the list grows by one exactly on success, where the added entry is valid and the box is cleared; on a refusal list and box are unchanged |
| `EmailList.AddRejectsBlank` | App.js:114-119 | blank input is refused as empty, and list and input box stay as they were |
| `EmailList.AddRejectsMalformed` | App.js:121-124 | non-blank input whose trim fails `validateEmail` is refused as invalid, exactly then, with nothing changed |
| `EmailList.AddRejectsListed` | App.js:126-129 | a valid trimmed address already in the list (exact, case-sensitive match) is refused as a duplicate, exactly then, with nothing changed |
| `EmailList.AddAppends` | App.js:131-134 | success happens exactly for non-blank, valid, unlisted input; the list grows by one, the old entries keep their places, the trimmed address is last, the box is cleared |
| `EmailList.AddAcceptsNew` | App.js:113-136 | any valid address not yet listed is accepted and appended |
| `EmailList.AddedEntryIsClean` | App.js:114-131 | the entry `addEmail` inserts is trimmed and passes `validateEmail` |
| `EmailList.AddPreservesWellFormed` | App.js:113-136 | `addEmail` keeps the list free of duplicates and of entries failing `validateEmail` |
| `EmailList.AppendKeepsWellFormed` | App.js:126-131 | appending a valid address that is not yet listed keeps the list free of duplicates and invalid entries |
| `EmailList.AddIgnoresPadding` | App.js:114 | white space around the input does not change the outcome or the list |
| `EmailList.SameTrimSameAdd` | App.js:114-131 | `addEmail` looks at the input only through its trim: two inputs with the same trim give the same outcome and the same list |
| `EmailList.AddTwiceRefused` | App.js:126-131 | typing an address again right after adding it is refused as a duplicate |
| `EmailList.AddExampleValid` | __tests__/App.test.js:52-66 | adding `test@example.com` to the empty list gives `['test@example.com']` and clears the box |
| `EmailList.AddExampleInvalid` | __tests__/App.test.js:69-81 | adding `invalid-email` is refused and changes nothing |
| `EmailList.Without` | App.js:151 | the filtered list holds every entry other than the deleted address as often as before, and that address not at all |
| `EmailList.WithoutAppend` | App.js:151 | filtering works piece by piece, so the remaining entries keep their relative order |
| `EmailList.WithoutAbsent` | App.js:151 | deleting an address that is not listed leaves the list unchanged |
| `EmailList.WithoutKeepsNoDuplicates` | App.js:151 | filtering a list without duplicates leaves a list without duplicates |
| `EmailList.WithoutPreservesWellFormed` | App.js:150-155 | the confirmed delete keeps the list free of duplicates and of invalid entries |
| `EmailList.DeleteUndoesAdd` | App.js:131-151 | deleting an address right after a successful add gives back the previous list |
| `EmailList.WithoutUndoesAppend` | App.js:151 | filtering out an element just appended to a list that lacked it gives back that list |
| `Sms.OrElse` | App.js:77-78 | the JavaScript default for a falsy optional string: the value when present and non-empty, otherwise the fallback; the result is empty only if the fallback is |
| `Sms.DetailsOf` | App.js:76-80 | `from` is the sender, or `'Unknown'` when it is missing or empty (never empty); `body` is the body or `''`; `timestamp` is the clock's text |
| `Sms.Forwarding` | App.js:75-84 | a record is built exactly when the list is non-empty, addressed to the whole list |
| `SmsForwarderApp.App.constructor` | App.js:21-23 | the component starts with an empty list, an empty box and a zero count |
| `SmsForwarderApp.App.ChangeText` | App.js:192 | typing sets the text of the box |
| `SmsForwarderApp.App.AddEmail` | App.js:113-136 | the new list, box and outcome are those of `Add`; a refusal changes and saves nothing; a success appends the trimmed address, saves the new list once and clears the box; the invariant is kept |
| `SmsForwarderApp.App.DeleteEmail` | App.js:150-155 | the new list is the old one filtered; the address is gone; an absent address changes nothing; the new list is saved once; the invariant is kept |
| `SmsForwarderApp.App.ReceiveSms` | App.js:71-85 | the count goes up by exactly one whatever the list; the record to forward is that of `Forwarding` |

## Left out

- Rendering and styles (App.js lines 161-370): user interface only. The text box's `onChangeText` is kept as `ChangeText`.
- `loadEmails` and `saveEmails` (App.js lines 87-106): asynchronous storage and JSON encoding. The model records each list handed to `saveEmails` in `saved`; it does not model whether the write succeeds. `loadEmails` installs whatever was stored without validating it, so in the running app the `Valid()` invariant is guaranteed only for entries added through `addEmail`; the model starts from the component's initial empty state.
- Permission requests and the SMS listener subscription, including its re-subscription whenever `emails` changes (App.js lines 25-69): platform callbacks and effect life-cycle. `ReceiveSms` reads the current `emails` field, which is what the re-subscription on `emails` achieves in App.js:30-44.
- The `Alert.alert` dialogs (App.js lines 117-154): user interface. `AddEmail` returns which alert is raised; of the delete dialog only the confirmed Delete branch is modelled.
- `new Date().toISOString()` (App.js line 79): the clock; the timestamp is a parameter of `ReceiveSms`.
- The `console.log` calls (App.js lines 72, 82-83): logging only; nothing is sent.
- Strings are sequences of Unicode characters rather than UTF-16 code units; every character JavaScript counts as white space is a single code unit, so `\s` and `trim` behave the same on both.
- `Sms.Message` models a missing sender or body as `None` and any present value as a string; other falsy values the platform could deliver are not modelled.
