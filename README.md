# Contact form and navigation of the ajloadandgo site, in Dafny

The site's main script, `script.js`, wires up a small business page. It has:

- a light/dark theme switch kept in local storage;
- a mobile navigation menu whose open state is mirrored into classes, ARIA attributes and a backdrop;
- a contact form. The form takes up to three photos, checks its fields, has a hidden honeypot field, and posts everything to a form endpoint.

This project models the parts of that script that decide something:

- `Text`: the JavaScript string primitives the script relies on.
  - `trim` and the `\s` class, which use the ECMAScript white-space set;
  - `join`;
  - the decimal rendering of an index inside a template literal;
  - a first-occurrence search, `IndexOf`, which the model's address check uses to find the `@`.
- `Validators`: `validatePhone` and `validateEmail`.
  - The regular expression `^[^\s@]+@[^\s@]+\.[^\s@]+$` is given as a language, `MatchesEmailPattern`.
  - It is proved equal to the index-based check the model computes.
  - The blur handlers' red-border test is also here.
- `Uploads`: the photo filter of `handleFiles`.
  - A file passes on an `image/` type or a `.heic` name, and then on a size of at most 5 MiB.
  - Each refused file has its own status message.
  - `splice(index, 1)` is modelled with its full index semantics.
- `Submission`: the pure parts of the submit handler.
  - the order of the checks on the trimmed fields;
  - the silent honeypot;
  - the status each outcome sets;
  - the text shown for a refused or failed request;
  - the `photo-N` names under which the selected files join the request.
- `ContactForm`: the mutable state of the form, as a class.
  - The state is the selected photos, the status line and the send button.
  - `HandleFiles`, `RemovePhoto` and `Submit` are methods that change it.
  - `Valid()` keeps the selection at no more than three photos.
- `Navigation`: the menu, in two forms.
  - A transition function `Step` on the open state, with lemmas about event sequences.
  - A class `Menu` whose fields are the mirrored attributes and whose methods are `openMenu`, `closeMenu`, `toggleMenu` and the listeners.
- `Theme`: the theme attribute and its stored copy, as a class.

Every operation that only computes is a function. Every operation that changes page state is a method of a class, and its `ensures` relates the new state to the old one.

Three behaviours of the code worth knowing:

- The stored theme does not always equal the applied one. At load with nothing stored, "light" is applied and nothing is stored until the first click. `StoredMatchesApplied` proves that the two agree after at least one click.
- A stored theme other than "light", such as "blue", is applied as is at load. The first click then turns it into "light", not "dark" (`Flip`).
- A 6 MiB `photo.png` is refused as too large only when its MIME type is an image type. Otherwise the type test, which runs first, refuses it as not an image (`OversizeExample`).

## Model

| member | source | states |
|---|---|---|
| Text.TrimStartCuts | script.js:277-280 | `trim`'s front cut is a suffix of the input; everything it removes is white space; what it keeps does not start with white space |
| Text.TrimEndCuts | script.js:277-280 | `trim`'s back cut is a prefix of the input; everything it removes is white space; what it keeps does not end with white space |
| Text.TrimCutsOnlySpace | script.js:277-280 | a trimmed field is the infix after its leading white space; only white space is cut at either end; the result neither starts nor ends with white space |
| Text.TrimEmptyIff | script.js:283 | a field trims to the empty string exactly when it is all white space, so such a field counts as missing |
| Text.Trim | script.js:277-280 | `trim` never lengthens a field; what it cuts and keeps is stated by the three lemmas below |
| Text.IndexOf | script.js:261-265 | the search that finds the `@` for `WellFormedAddress`: the first position of a character, or -1 exactly when the character does not occur |
| Text.Join | script.js:334 | joining no parts gives ""; otherwise the length is the parts' total plus one separator between each two parts, and the result starts with the first part |
| Text.JoinEmptyIff | script.js:334 | with the separator ", ", the join is empty exactly for no messages or for one empty message; these are the cases where `||` picks the fallback |
| Text.Decimal | script.js:316 | the rendering of a number is non-empty and all digits; it has a leading '0' only for 0 and one digit only below 10 |
| Text.DecimalRoundTrip | script.js:316 | reading the rendering of `n` back gives `n` |
| Text.DecimalInjective | script.js:316 | different numbers render differently |
| Validators.DigitsOnly | script.js:268 | `replace(/\D/g, '')` keeps only ASCII digits and never lengthens the input |
| Validators.DigitsOnlyKeepsDigits | script.js:268 | every digit of the input survives the cleaning, as often as it occurs |
| Validators.DigitsOnlyConcat | script.js:268 | the cleaning distributes over concatenation, so digits keep their order |
| Validators.ValidatePhoneCountsDigits | script.js:267-270 | `validatePhone` holds exactly when the input has at least ten characters in '0'..'9', counted with repetition |
| Validators.ValidatePhone | script.js:267-270 | `validatePhone`: at least ten characters survive the digit cleaning; an accepted number is therefore at least ten characters long |
| Validators.PhoneIgnoresNonDigit | script.js:267-270 | inserting a non-digit anywhere never changes the verdict |
| Validators.PhoneExtend | script.js:267-270 | appending characters never makes an accepted number invalid |
| Validators.DigitsOnlyAroundSpace | script.js:277-290 | trimming the phone field before the check does not change its digits |
| Validators.PhoneExampleValid | script.js:267-270 | "(555) 123-4567" has ten digits and is accepted |
| Validators.PhoneExampleInvalid | script.js:267-270 | "555-12" has five digits and is refused |
| Validators.WellFormedAddress | script.js:261-265 | the address test on a non-empty string: the first `@` is not at the front, the parts before and after it hold no white space or `@`, and the part after it has a `.` strictly inside; its meaning is proved in the two lemmas below |
| Validators.ValidateEmail | script.js:261-265 | `validateEmail`: the empty string, or a well-formed address |
| Validators.ValidateEmailMatchesPattern | script.js:261-265 | `validateEmail` accepts exactly the empty string and the strings that `^[^\s@]+@[^\s@]+\.[^\s@]+$` matches |
| Validators.ValidateEmailSplit | script.js:261-265 | `local@domain` is accepted exactly when `local` is a non-empty run without white space or '@' and `domain` is such a run with a '.' that is neither its first nor its last character |
| Validators.ValidEmailShape | script.js:261-265 | an accepted non-empty address holds no white space and exactly one '@' |
| Validators.EmailExampleNoDot | script.js:261-265 | "a@b" is refused |
| Validators.EmailExampleValid | script.js:261-265 | "a@b.com" is accepted |
| Validators.PhoneFieldFlagged | script.js:353-360 | the phone blur handler's red-border test on the untrimmed value: non-empty and refused by `validatePhone` |
| Validators.EmailFieldFlagged | script.js:363-369 | the e-mail blur handler's red-border test on the untrimmed value: non-empty and refused by `validateEmail` |
| Validators.PhoneBlurAgreesWithSubmit | script.js:353-360 | for a field that is not blank, the blur handler turns the phone field red exactly when submit's phone check (script.js:288) refuses the trimmed value; submit reaches that check only once name, phone and message are filled in |
| Validators.EmailBlurAtLeastAsStrict | script.js:363-369 | every non-blank e-mail value that submit's e-mail check (script.js:293) refuses after trimming also turns red on blur |
| Validators.EmailBlurStricterThanSubmit | script.js:363-369 | " a@b.com" turns red on blur, though submit accepts it after trimming |
| Uploads.LowerAscii | script.js:185 | lower-casing keeps the length and lowers each character on its own |
| Uploads.IsImage | script.js:185 | the type test: an `image/` MIME type, or a name whose lower-cased form ends in `.heic` |
| Uploads.Screen | script.js:184-197 | a file is admitted exactly when it is an image (an `image/` type or a `.heic` name in any case) of at most 5 MiB; a non-image is refused as such whatever its size; an image that is too large is refused for its size |
| Uploads.RejectionStatus | script.js:188-195 | a refused file's status is an error that starts with the file's name |
| Uploads.CapacityStatus | script.js:200-203 | the capacity error reads "You can only upload up to 3 photos." |
| Uploads.ValidFiles | script.js:184-197 | the filter never lengthens the batch |
| Uploads.ValidFilesAdmitsExactly | script.js:184-197 | the filtered batch holds only admitted files; a file is in it exactly when it is in the batch and admitted |
| Uploads.ValidFilesConcat | script.js:184-197 | filtering a concatenation filters each part, so admitted files keep their input order |
| Uploads.ValidFilesAllAccepted | script.js:184-197 | a batch of admissible files passes whole and unchanged |
| Uploads.LastRejection | script.js:188-195 | the status the filter leaves, if any, is an error |
| Uploads.LastRejectionNone | script.js:184-197 | the filter leaves no status exactly when it refuses no file |
| Uploads.LastRejectionIsLast | script.js:188-195 | when files are refused, the status left is that of the last refused file |
| Uploads.OversizeExample | script.js:184-197 | a 6 MiB `photo.png` is refused; with an image type, it is refused as too large |
| Uploads.PdfExample | script.js:184-197 | `doc.pdf` of type `application/pdf` is no image, whatever its size |
| Uploads.HeicExample | script.js:185 | a 1 MiB `a.heic` or `A.HEIC` is admitted, whatever its type |
| Uploads.SpliceStart | script.js:243 | `splice`'s start lies within the list; an index in range is kept; a negative index counts from the end and is clamped at 0; a large index is clamped at the length |
| Uploads.RemoveAt | script.js:243 | `splice(index, 1)`: never lengthens the selection and never adds an entry to it |
| Uploads.RemoveAtInRange | script.js:242-243 | removing at an index in range drops exactly that entry: the length drops by one, the entries before and after keep their order, and the multiset loses only that entry |
| Uploads.RemoveAtFromEnd | script.js:243 | a negative index `-k` removes the `k`-th entry from the end |
| Uploads.RemoveAtPastEnd | script.js:243 | an index at or past the end removes nothing |
| Uploads.RemoveAtShrinks | script.js:243 | a removal never lengthens the list; it shortens it by one exactly when the list is non-empty and the index is below its length |
| Submission.HoneypotFilled | script.js:299 | the honeypot counts when the `gotcha` control exists and holds any text, untrimmed |
| Submission.Decide | script.js:277-301 | the submit decision on the raw fields, trimmed first; its meaning is proved in DecideReportsFirstFailure |
| Submission.DecideReportsFirstFailure | script.js:277-301 | on the trimmed fields, submit reports a failure exactly when some check fails, and then the earliest failed check in the order required fields, phone, e-mail; the honeypot aborts silently exactly when every check passes and it is filled; the message is sent exactly when every check passes and the honeypot is empty or absent |
| Submission.SendMeansValid | script.js:277-301 | a message is sent only when the name and message are not blank, the phone has at least ten digits, the e-mail is blank or matches the pattern, and the honeypot is empty |
| Submission.BlankRequiredFieldRejected | script.js:283-286 | a white-space-only name, phone or message gives the required-fields error, whatever else is filled in |
| Submission.BlankEmailIsOptional | script.js:293-296 | a white-space-only e-mail field is handled exactly like an empty one |
| Submission.HoneypotIgnoredWhenInvalid | script.js:283-301 | when a check fails, the honeypot's value does not change the outcome |
| Submission.OutcomeStatus | script.js:283-308 | the honeypot abort sets no status; each failed check sets an error status; a send sets "Sending your message..." with the ok tone |
| Submission.MessageTexts | script.js:334 | `errors.map(e => e.message)`: one text per server error, in order; the `k`-th is that error's message, or "" when it has none |
| Submission.ResponseStatus | script.js:327-340 | the settled status has the ok tone exactly when the endpoint accepted the message, and its text is never empty |
| Submission.RefusalText | script.js:333-335 | a refusal with an error list shows its messages joined by ", ", or the fallback text when there are none or only one empty one |
| Submission.RefusalExample | script.js:333-335 | a refusal whose single message is "Bad phone" shows "Bad phone"; a refusal with an empty list shows the fallback text |
| Submission.PhotoEntries | script.js:313-317 | one entry per selected file, in selection order |
| Submission.PhotoFieldNames | script.js:315-317 | the `i`-th entry's name is "photo-" followed by digits that read back as `i + 1`, so no two entries share a name |
| ContactForm.ContactForm.constructor | script.js:149 | the page starts with no photo selected, no status and an enabled "Send" button |
| ContactForm.ContactForm.HandleFiles | script.js:182-208 | a batch that would take the selection past three photos leaves it unchanged and sets the capacity error; otherwise the admitted files are appended in input order, and the status is that of the last refused file, or unchanged if none was refused; the selection never exceeds three |
| ContactForm.ContactForm.RemovePhoto | script.js:239-246 | the selection becomes the old one with the entry at the tile's index spliced out, and it stays within three |
| ContactForm.ContactForm.Submit | script.js:273-346 | a failed check shows its one error and changes nothing else; the honeypot changes nothing; a send shows "Sending your message..." and then the settled status, carries the photos as `photo-1`, `photo-2` and so on, empties the selection only on acceptance, and leaves the button enabled and labelled "Send" |
| ContactForm.SelectionStaysBounded | script.js:149-330 | after any interleaving of picked batches, tile removals and submits, starting from a fresh page, at most three photos are selected |
| Navigation.Closes | script.js:88-126 | the events that close the menu from any state: a click on a link of the list, Escape, a backdrop click, a resize above 920, a found anchor target |
| Navigation.Step | script.js:83-126 | one event's effect on the open state: only the hamburger can open the menu, and every closing event leaves it closed |
| Navigation.Run | script.js:83-126 | the open state after a sequence of events, one `Step` at a time |
| Navigation.OnlyHamburgerOpens | script.js:83-111 | a closed menu is open after a sequence of events only if the hamburger was clicked among them |
| Navigation.ClosedUntilHamburger | script.js:88-126 | after a link click, Escape, a backdrop click, a resize above 920 or a found anchor target, the menu stays closed until the next hamburger click |
| Navigation.MenuLinkClickCloses | script.js:88-126 | a click on an in-page link of the menu closes it, whether or not the target exists |
| Navigation.ToggleTwice | script.js:75-81 | two hamburger clicks leave the menu as it was |
| Navigation.Menu.constructor | script.js:47-49 | the menu starts closed, with every mirror in the closed state |
| Navigation.Menu.Open | script.js:51-61 | the menu is open; `aria-expanded` is "true" and `aria-label` is "Close menu"; the backdrop is shown when there is one |
| Navigation.Menu.Close | script.js:63-73 | from any state, the menu is closed; `aria-expanded` is "false" and `aria-label` is "Open menu"; the backdrop is hidden when there is one |
| Navigation.Menu.Toggle | script.js:75-81 | the open state flips and all mirrors follow |
| Navigation.Menu.Handle | script.js:83-126 | each event moves the open state as the transition table says; afterwards `aria-expanded` is "true" and `aria-label` is "Close menu" exactly when the menu is open |
| Navigation.EscapeThenCloseStaysClosed | script.js:63-99 | after any events, Escape leaves the menu closed, and closing it again keeps it closed |
| Theme.InitialTheme | script.js:7-9 | the applied theme at load is never empty; it is the stored one when something non-empty is stored |
| Theme.Flip | script.js:13-14 | a click yields "light" or "dark", always different from the current theme |
| Theme.FlipTwice | script.js:13-14 | from "light" or "dark", two clicks return to the start |
| Theme.ThemeController.constructor | script.js:7-9 | at load, the applied theme is the stored one or "light", and storage is untouched |
| Theme.ThemeController.Toggle | script.js:12-17 | a click flips the applied theme and stores the new one |
| Theme.StoredMatchesApplied | script.js:12-17 | after at least one click, the stored theme equals the applied one, and it is "light" or "dark" |

## Left out

- The request itself is outside the model: `FormData`, `fetch` and `response.json()`. The endpoint's answer is a parameter of `Submit`, a `Response`: accepted, refused with an `ErrorBody`, or no answer at all. The form's other payload fields (name, phone and so on) are not modelled; only the photo entries are.
- `ContactForm.ContactForm.Submit` runs to completion in one step. Events that could arrive while the request is awaited do not interleave with it.
- `form.reset()` on success is not modelled. Only the cleared selection is.
- `console.error` on a failed request is not modelled.
- Photo previews are not modelled: `displayPhotos`, `FileReader` and the tile markup. A tile's index is taken as the `index` argument of `RemovePhoto`. `parseInt` returning `NaN` (splice treats it as 0) is not modelled.
- Opening the file picker and the drag-and-drop listeners are not modelled. Both only pass a batch of files to `handleFiles`, which is `HandleFiles`.
- Status timing is not modelled: the five-second auto-hide of the status, the 300 ms delays, and the rotation of the theme button. The status is a value and is never hidden.
- A page that lacks an element the script looks up is not modelled. The model assumes that all of these exist: the hamburger button, the navigation list, the contact form and its `name`, `phone`, `email` and `message` fields, the status element, the send button, the photo area and the theme button. Only the menu backdrop (`Menu.hasBackdrop`) and the honeypot control (`Fields.honeypot`) may be missing. Without the hamburger, for example, `closeMenu` would throw at script.js:65 on the first click of an in-page link whose target exists.
- `Navigation.Menu.constructor` assumes the page starts with the menu closed. The script never sets the initial state.
- Smooth scrolling to an anchor's target is not modelled; it is floating-point layout data from the browser. Only the menu's closing is modelled (`AnchorClick`).
- `stopPropagation` is not modelled. A click is delivered to the listeners listed in `MenuEvent` and to no document-level listener, since the script has none.
- The scroll-reveal `IntersectionObserver` is not modelled.
- Local storage failures, and values written by other pages, are outside the model. Storage holds any optional string.
- The model uses Unicode scalar values, not UTF-16 code units, so strings outside the Basic Multilingual Plane have different lengths. No check of the script depends on length except the digit count, which only counts ASCII digits.
- Uploads.LowerAscii: lowers only the letters A to Z, while `toLowerCase` also lowers other scripts. The only non-ASCII characters whose lower case holds an ASCII letter are U+212A, which lowers to "k", and U+0130, which lowers to "i" followed by U+0307. "k" is not in ".heic", and U+0307 separates that "i" from anything after it, so the `.heic` test is unaffected.
- A server error whose `message` is not a string is not modelled. A message is present or absent (`Option<string>`). An `errors` value that cannot be mapped, or a null entry, makes the handler throw. That is the `ThrowingErrorList` case, which shows the network error text.
- A second, simpler variant of the page script is not part of this model.
