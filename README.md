# Nail Art Studio: page script and stylesheet repair, in Dafny

This project models the decision logic of the Nail Art Studio site's page script
(`assets/js/main.js`) and its one-off stylesheet repair script (`fix_css.js`), and
proves what that logic promises.

- **Form validation** (`FormValidation`). The rule chain of `validateField` is tried
  in a fixed order: required-and-empty, email pattern, telephone pattern, minimum
  length. The email and telephone patterns are written out character by character,
  and the email reading is proved equal to the regular expression. A `.form-control`
  field is a class with a value, an error class and a parent whose children hold the
  error messages. The `blur` and `input` handlers and `validateForm` are methods on
  these objects.
- **Page controls** (`PageControls`). The light/dark theme (document attribute, local
  storage, toggle icons), the mobile navigation drawer with its scroll lock, the
  highlighting of the current page's navigation link, and the gallery filter.
- **Booking and dashboard widgets** (`Booking`). The hard-coded time-slot
  availability, exclusive selection of a time slot or a sidebar link, the price table
  and the appointment-status badge colours.
- **Stylesheet repair** (`CssRepair`). The script is a function of the file's content:
  1. split the content into lines;
  2. find the first corrupted line at index 1850 or later;
  3. keep the lines before it;
  4. strip NUL characters from the rest;
  5. collapse the spaced-out text when the rest looks spaced out.

  A method mirrors the script's loop and reassignments and is proved equal to that
  function.

Shared pieces:

- `JsText` holds the JavaScript string primitives: the `\s` class, `trim`, `includes`,
  and number-to-decimal rendering.
- `Dom` holds the document element: a class list, attributes, inline style and
  content. It also holds the "only one of a group carries a class" update.
- `Wrappers` holds `Option`. `None` plays the part of a missing attribute, `null` or
  `-1`.

## Model

| member | source | states |
|---|---|---|
| JsText.TrimStartMeaning | assets/js/main.js:277 | the leading part `trim` drops is all white space, and what remains is a suffix that does not start with white space |
| JsText.TrimEndMeaning | assets/js/main.js:277 | the trailing part `trim` drops is all white space, and what remains is a prefix that does not end with white space |
| JsText.TrimMeaning | assets/js/main.js:277 | the trimmed value is empty exactly when the raw value is all white space; otherwise it starts and ends with something else |
| JsText.TrimIdempotent | assets/js/main.js:277 | trimming a trimmed value changes nothing |
| JsText.Contains | fix_css.js:18 | `includes` is true exactly when the needle occurs at some index of the text |
| JsText.NatToString | assets/js/main.js:475 | the template-literal rendering of a number is a non-empty run of digits, with a leading zero only for zero |
| JsText.NatToStringRoundTrip | assets/js/main.js:475 | reading the rendered digits back gives the number |
| JsText.NatToStringInjective | assets/js/main.js:301 | different numbers render differently |
| Dom.Element.constructor | assets/js/main.js:4-10 | an element starts with the given classes, attributes and content, and no inline style |
| Dom.Element.Attr | assets/js/main.js:171 | `getAttribute` yields the attribute's value exactly when the element has it, and null otherwise |
| Dom.WithClass | assets/js/main.js:168-175 | after remove-then-maybe-add, the class is present exactly when it should be and every other class is untouched |
| Dom.WithClassIdempotent | assets/js/main.js:168-175 | setting a class to the same state twice is setting it once |
| Dom.SelectOnly | assets/js/main.js:432-433 | after removing the class from every member and adding it to the chosen one, the chosen member is the only one that has it; no other class, style or content changes |
| FormValidation.IndexOf | assets/js/main.js:320 | the index found holds the character and no earlier index does; none exactly when the character is absent |
| FormValidation.IndexOfFirst | assets/js/main.js:320 | every index before the one found holds another character |
| FormValidation.IsValidEmailMatchesPattern | assets/js/main.js:319-322 | the character-by-character reading of `isValidEmail` accepts exactly the strings the regular expression matches |
| FormValidation.ValidEmailMatchesPattern | assets/js/main.js:320 | an accepted address splits, at its first `@` and at an inner dot of the domain, into three runs the pattern accepts |
| FormValidation.SplitEmailIsValid | assets/js/main.js:320 | every split the pattern finds is at the only `@` and leaves a domain with an inner dot |
| FormValidation.DottedAddressValid | assets/js/main.js:319-322 | any `local@host.tld` made of non-empty runs without white space or `@` is accepted |
| FormValidation.UndottedAddressInvalid | assets/js/main.js:319-322 | an address with no dot after its `@` is refused, whatever comes before |
| FormValidation.EmailExamples | assets/js/main.js:319-322 | `a@b` is refused and `a@b.com` accepted |
| FormValidation.DigitsBounds | assets/js/main.js:326 | `replace(/\D/g, '')` keeps only digits and never lengthens the text |
| FormValidation.DigitsAppend | assets/js/main.js:326 | removing the non-digits distributes over concatenation |
| FormValidation.DigitsKeepsDigits | assets/js/main.js:326 | a string of digits keeps all of them, and a string without digits keeps none |
| FormValidation.AllPhoneCharsAppend | assets/js/main.js:325 | two runs of allowed telephone characters concatenate to one |
| FormValidation.AllDigitsArePhoneChars | assets/js/main.js:325 | digits are allowed telephone characters |
| FormValidation.ValidPhoneLength | assets/js/main.js:324-327 | an accepted telephone number has at least ten characters |
| FormValidation.FormattedNumberValid | assets/js/main.js:324-327 | every number written `(ddd) ddd-dddd` is accepted |
| FormValidation.ShortNumberInvalid | assets/js/main.js:324-327 | no text shorter than ten characters is accepted |
| FormValidation.PhoneExamples | assets/js/main.js:324-327 | `(555) 123-4567` is accepted and `123` refused |
| FormValidation.FirstFailingRule | assets/js/main.js:290-302 | a reported rule is one the trimmed value fails |
| FormValidation.FirstFailingRuleIsFirst | assets/js/main.js:290-302 | the first failing rule wins: no earlier-ranked rule fails, and nothing is reported exactly when no rule fails |
| FormValidation.MessageIdentifiesRule | assets/js/main.js:292-301 | two rules with the same message are the same rule, minimum included |
| FormValidation.MessageHead | assets/js/main.js:292-301 | the first letter of each rule's message: T for required, P for email and telephone, M for minimum length |
| FormValidation.FieldError | assets/js/main.js:290-302 | there is no message exactly when no rule fails, and any message is the text of a failing rule |
| FormValidation.RequiredBlank | assets/js/main.js:277-292 | a required field holding only white space reports "This field is required", whatever its type |
| FormValidation.EmptyOptionalTooShort | assets/js/main.js:293-302 | an empty optional field skips the email and telephone rules but not the minimum length, so with a minimum n of at least 1 it reports "Minimum n characters required" |
| FormValidation.FieldErrorEmailWithoutDot | assets/js/main.js:293-295 | an optional email field holding `a@b` reports an invalid email address |
| FormValidation.FieldErrorEmailValid | assets/js/main.js:290-295 | a required email field holding `a@b.com` passes |
| FormValidation.FieldErrorPhoneTooFewDigits | assets/js/main.js:296-298 | an optional telephone field holding `123` reports an invalid phone number |
| FormValidation.FieldErrorPhoneValid | assets/js/main.js:290-298 | a required telephone field holding `(555) 123-4567` passes |
| FormValidation.MessagesAppend | assets/js/main.js:313 | the error messages of a concatenation are those of each part, in order |
| FormValidation.RemoveFirstMessageDropsOne | assets/js/main.js:283-287 | removing the first `.error-message` drops exactly that message and keeps any later one |
| FormValidation.ChildrenAfterMessages | assets/js/main.js:283-314 | with at most one message before validation, there is exactly one after when the field is invalid, carrying the failing rule's text, and none when it is valid |
| FormValidation.Group.constructor | assets/js/main.js:283 | a parent element holds the given children |
| FormValidation.Field.constructor | assets/js/main.js:247 | a field starts with the given value, markup and parent, carrying only the `form-control` class it was selected by |
| FormValidation.Field.Validate | assets/js/main.js:276-317 | returns true exactly when the trimmed value fails no rule; the field has `error` exactly when invalid, its other classes kept; the parent's children lose their first message and, when invalid, gain the failing rule's message |
| FormValidation.Field.Blur | assets/js/main.js:250-252 | a blur always revalidates: `error` is present exactly when a rule fails, the other classes are kept, and the parent's messages are replaced as `validateField` does |
| FormValidation.Field.Input | assets/js/main.js:254-258 | typing stores the value; a field already in error is revalidated (error class set from the outcome, other classes kept, messages replaced); a field not in error keeps its classes and its parent's children |
| FormValidation.ValidateForm | assets/js/main.js:263-274 | every field is revalidated, with no short cut at the first failure, its other classes kept; the result (which decides whether the form is sent) is true exactly when every field passes; each parent ends up with the children that validating its fields in document order leaves |
| FormValidation.ValidateNext | assets/js/main.js:266-270 | one turn of the loop validates the next field, folds its outcome into the result, and extends the record of parents and outcomes by that field's, every other element unchanged |
| FormValidation.ValidatedAll | assets/js/main.js:263-274 | once the loop has passed every field, the result, the classes and the children are those of the fields' own outcomes in order |
| FormValidation.StepsMeaning | assets/js/main.js:266-270 | the record of a whole-form validation has one entry per field, naming that field's parent and outcome |
| FormValidation.ChildrenAfterAllUntouched | assets/js/main.js:283-314 | validating fields of other elements leaves an element's children alone |
| FormValidation.ChildrenAfterAllSingle | assets/js/main.js:283-314 | an element holding a single field of the form ends up as that field's validation alone leaves it |
| FormValidation.FormChildrenDistinctParents | assets/js/main.js:263-314 | after `validateForm`, an element holding one field and at most one message before shows that field's message when it fails and none when it passes |
| PageControls.IconFor | assets/js/main.js:83-85 | a toggle shows the sun exactly when the theme is `dark` |
| PageControls.InitialTheme | assets/js/main.js:53 | the stored theme is used when it is non-empty, whatever it says; otherwise `light` |
| PageControls.NextTheme | assets/js/main.js:63-64 | a click gives `light` exactly from `dark`, and `dark` from anything else, a missing attribute included |
| PageControls.NextThemeTwice | assets/js/main.js:63-64 | two clicks come back to the start exactly when the start is `dark` or `light` |
| PageControls.ThemeToggle.constructor | assets/js/main.js:57 | a toggle starts with the given icon, with or without an svg |
| PageControls.ThemeState.constructor | assets/js/main.js:53 | a page starts with no theme attribute, the given storage and the given toggles |
| PageControls.ThemeState.StoredTheme | assets/js/main.js:53 | `getItem('theme')` yields a value exactly when the key is stored, and then the stored value |
| PageControls.ThemeState.UpdateToggles | assets/js/main.js:79-94 | every toggle with an svg shows the theme's icon; the others are untouched |
| PageControls.ThemeState.SetupDarkMode | assets/js/main.js:51-61 | at load, the document attribute and the icon of every toggle with an svg follow the stored theme, or `light`; toggles without an svg are untouched |
| PageControls.ThemeState.ToggleTheme | assets/js/main.js:62-71 | a click switches the theme, stores it under `theme` (other keys untouched) and redraws every toggle with an svg, leaving the others untouched; afterwards the attribute, the stored value and the icons agree |
| PageControls.MobileMenu.constructor | assets/js/main.js:122-125 | the drawer controls are three distinct elements, found closed at load (no marker classes, scroll not locked), so the drawer, the button and the scroll lock agree from the start |
| PageControls.MobileMenu.ClickToggle | assets/js/main.js:128-139 | a click on the menu button flips the drawer and the button, and scroll is locked exactly when the drawer is now open; the drawer is open iff the button is active iff scroll is locked, before and after |
| PageControls.MobileMenu.Close | assets/js/main.js:152-157 | a click on a navigation link closes the drawer, deactivates the button and releases scroll, other classes untouched |
| PageControls.MobileMenu.ClickDocument | assets/js/main.js:142-148 | a click outside the header removes `mobile-active` from the drawer and `active` from the button, other classes kept, and releases scroll; a click inside changes nothing; the open/active/locked agreement is kept |
| PageControls.LastSegmentMeaning | assets/js/main.js:165 | `split('/').pop()` gives a `/`-free suffix of the path that is all of it or follows a `/` |
| PageControls.CurrentPage | assets/js/main.js:165 | the current page identifier is never empty |
| PageControls.CurrentPageOfFile | assets/js/main.js:165 | a path ending in `/name` identifies the page `name`, whatever the directory |
| PageControls.LastSegmentOfFile | assets/js/main.js:165 | the last segment of `dir/name` is `name` |
| PageControls.LinkMatchesIsEquality | assets/js/main.js:172-174 | for a non-empty current page, the three-way test is plain equality of the href and the page |
| PageControls.MarkLink | assets/js/main.js:168-176 | one link ends with `active` exactly when its href is the current page, its other classes kept |
| PageControls.SetupNavigation | assets/js/main.js:163-178 | every navigation link is active exactly when its href is the last path segment (or `index.html` for an empty one), other classes kept: links sharing that href are all active, and with no match none is |
| PageControls.ShownIff | assets/js/main.js:193 | with `all` every item is shown; otherwise an item is shown exactly when its category equals the filter |
| PageControls.SettledStyleMeaning | assets/js/main.js:193-205 | a shown item settles on `display: block`, a hidden one on `display: none`; only display, opacity and transform change |
| PageControls.SettledStyleIdempotent | assets/js/main.js:193-205 | filtering again with the same filter changes no style |
| PageControls.Settle | assets/js/main.js:193-205 | one item settles shown or hidden by its category |
| PageControls.SettleAll | assets/js/main.js:192-206 | every item settles shown or hidden by its category |
| PageControls.ClickFilter | assets/js/main.js:182-207 | with buttons and items present, the clicked button is the only active one, other classes untouched, and every item settles on display exactly when the filter is `all` or its category; with no items no class changes; no button outside the items changes style and no element's content changes |
| Booking.SlotStyleMeaning | assets/js/main.js:452-460 | an available slot is clickable and opaque, an unavailable one unclickable and half transparent; no other style property changes |
| Booking.IncludesIsMembership | assets/js/main.js:452 | `includes` on the list of slots is membership |
| Booking.SlotStyleIdempotent | assets/js/main.js:450-461 | refreshing a slot twice styles it as once |
| Booking.RefreshSlot | assets/js/main.js:451-460 | a slot is `disabled` exactly when its trimmed text is not an available time, other classes kept, and styled to match |
| Booking.LoadAvailableTimeSlots | assets/js/main.js:445-462 | every slot is `disabled` exactly when its trimmed text is not one of the seven available times, whatever the date; its text and other classes are kept |
| Booking.ClickTimeSlot | assets/js/main.js:430-435 | the clicked slot becomes the only selected one, other classes untouched, and no slot's style or content changes |
| Booking.PriceLabel | assets/js/main.js:465-475 | a label exists exactly for a service in the table, and it is `$` followed by digits |
| Booking.PriceLabelReadsBack | assets/js/main.js:465-475 | the digits of a label read back as the table's price |
| Booking.PriceExamples | assets/js/main.js:465-475 | gel nails show `$65`; an unlisted service (`waxing`) shows nothing |
| Booking.UpdatePricingDisplay | assets/js/main.js:473-476 | when the price element exists and the service is listed, it shows the service's label; otherwise it keeps its text; its classes and style never change |
| Booking.ClickSidebarLink | assets/js/main.js:490-510 | the clicked sidebar link becomes the only active one, other classes untouched, no link's style changes and no other link's content; the main region, when present, shows the loading spinner with its classes (when not a link) and style kept |
| Booking.StatusColour | assets/js/main.js:574-586 | confirmed is green, pending orange, cancelled red |
| Booking.StatusColourDistinguishes | assets/js/main.js:574-586 | a colour other than grey is given exactly to the three known statuses, and each to a different one |
| Booking.UpdateAppointmentStatus | assets/js/main.js:567-586 | the badge's classes become exactly `status-badge` and `status-<status>`, and its background the status colour |
| CssRepair.SplitLines | fix_css.js:10 | a split always yields at least one line |
| CssRepair.SplitLinesHaveNoLineFeed | fix_css.js:10 | no line holds a line feed |
| CssRepair.JoinPrepend | fix_css.js:31-32 | a character put before the first part comes before the joined text |
| CssRepair.JoinEmptyFirst | fix_css.js:31-32 | an empty first part leaves just the separator in front |
| CssRepair.JoinSplitLines | fix_css.js:10-32 | splitting into lines and joining with line feeds turns each CRLF into LF and changes nothing else |
| CssRepair.JoinSplitAt | fix_css.js:31-58 | the join of the parts before k, a separator, and the join of the rest is the join of all parts |
| CssRepair.WithoutMeaning | fix_css.js:35 | removing every NUL leaves none, adds nothing, never lengthens, and leaves a NUL-free text unchanged |
| CssRepair.WithoutAppend | fix_css.js:35 | removing a character distributes over concatenation |
| CssRepair.CollapseSpaceOut | fix_css.js:38-47 | on text without line terminators, collapsing the text with a space after every character gives the text back |
| CssRepair.SpacedOutLineBreak | fix_css.js:47 | a spaced-out line break is not undone: `a\nb` spaced out collapses to `a\n b` |
| CssRepair.CollapseKeepsNonSpaces | fix_css.js:47 | the collapse removes only spaces: every other character stays, in order |
| CssRepair.LineTerminatorsWithoutSpaces | fix_css.js:47 | removing spaces keeps the line terminators, in order |
| CssRepair.CollapseKeepsLineTerminators | fix_css.js:47 | the collapse keeps every line terminator, in order |
| CssRepair.CollapseShrinks | fix_css.js:47 | the collapse never lengthens the text and brings in no new character |
| CssRepair.CollapseDoubleSpace | fix_css.js:47-51 | a double space becomes a single one: `a  b` becomes `a b` |
| CssRepair.FirstCorrupted | fix_css.js:15-22 | the line found is the first from the start index on that holds a NUL or `/ *`; there is none exactly when no such line exists |
| CssRepair.FindCorruption | fix_css.js:15-22 | the loop with `break` yields the smallest corrupted index of at least 1850, or -1 when there is none |
| CssRepair.Repair | fix_css.js:9-58 | the script, step by step, computes what the repair function says: nothing when no corruption is found, otherwise the good prefix, a line feed and the cleaned tail |
| CssRepair.RepairedWhenCorrupted | fix_css.js:15-27 | the file is rewritten exactly when some line at index 1850 or later is corrupted, so a file of at most 1850 lines is never rewritten |
| CssRepair.CleanTailHasNoNul | fix_css.js:35-48 | the cleaned tail holds no NUL character, collapsed or not |
| CssRepair.RepairedShape | fix_css.js:31-58 | the output is the lines before the first corrupted one joined by line feeds, one line feed, then a NUL-free tail |
| CssRepair.RepairOfCleanTail | fix_css.js:10-58 | when the tail holds no NUL and does not look spaced out, the only change is CRLF to LF |

## Left out

- File I/O and process control in `fix_css.js` are not modelled: the `.bak` copy, reading and writing the file, `process.exit`, the log lines and the `catch`. `Repair` returns `None` where the script exits, which happens after the backup has already been written.
- Timers and scheduling are not modelled:
  - the notification lifecycle;
  - the simulated submit delay and the body of `submitForm`;
  - the dashboard loading delay and its log line;
  - `debounce` and `throttle`.
- PageControls.Settled: the gallery's fade timers are merged into one settled state per item. A hide timer still pending from an earlier click can set `display: none` on an item a later click showed; the model covers only runs where every timer has fired before the next click.
- Browser geometry and observers are not modelled: the header shadow and the scroll-up button (both thresholds on `window.scrollY`), the `IntersectionObserver` reveal and smooth-scroll offsets.
- Presentation is not modelled:
  - the SVG markup is reduced to a sun/moon icon;
  - the colour of `mobile-header-toggle` icons;
  - injected CSS;
  - the inline style of the error message;
  - row hover effects.
- `setupTabletFixes`, `setupDataCharts`, `setupUserManagement`, `showNotification` and the `min` of the date input (which reads the clock) are not modelled.
- Booking.LoadAvailableTimeSlots: the date parameter is ignored, as in the source; slots are the elements passed in rather than a fresh `querySelectorAll`.
- Booking.ClickSidebarLink: the `data-page` attribute only feeds the log line after the delay, so it is left out.
- FormValidation.FieldSpec: `minlength` is the number `parseInt` reads, with `None` when it reads none. A negative or zero minimum never fails, so it behaves like `None`. The message renders that number in decimal, whereas the source repeats the attribute's raw text, so `minlength="05"` shows `Minimum 05` there and `Minimum 5` here.
- FormValidation.Fails: the minimum length counts Unicode scalar values where JavaScript counts UTF-16 code units; they differ only for characters outside the Basic Multilingual Plane.
- FormValidation.ValidateForm: it requires the fields to be distinct and their parents to be among `groups`. This holds for the list `querySelectorAll('.form-control[required]')` returns. The selection of required fields is made by the caller, and so is the submit call that follows a `true` result.
- FormValidation.Field.Validate: `error-message` children are reduced to their text; the message element's inline style is not modelled.
- Booking.PriceLabel: the price table is a closed map. In the source, a service id naming an inherited object property (such as `constructor`) finds a truthy value and prints it; here it shows nothing.
- Booking.UpdateAppointmentStatus: a card without a `.status-badge` makes the source throw. The model takes the badge as given, and the class list is a set of class names rather than the raw `className` text.
- PageControls.ThemeState: the toggles are fixed when the state is built; the source queries `.theme-toggle` again on each click (assets/js/main.js:71), so toggles added to the page later are not modelled.
- PageControls.MobileMenu.ClickDocument: whether the target lies inside the header is a parameter. A page without a header makes the source throw on every click; that is not modelled.
- PageControls.ClickFilter: the button and item lists are the ones queried when the script loads. Page set-up with no buttons registers no handler; with buttons but no items it also registers none, which the model expresses as a click that changes nothing.
- CssRepair.Collapse: the round trip holds for single lines only. A spaced-out line break leaves a space at the start of the next line, as `SpacedOutLineBreak` shows. `CollapseSpaceOut` is therefore stated for text without line terminators.
