# Events list view: filter, paginator and field validator

This project models the client-side controller of the event registration
system's events page (`static/js/dynamic-features.js`) and proves properties
of it. Three parts are modelled.

- **Filter engine.** The search box and the category drop-down decide which rows of
  `#eventsTable` are displayed. The search term is lower-cased once and then
  compared, as a substring, with the lower-cased event name and location. The
  category selection is compared, as it is, with the row's `data-category`.
- **Paginator.** The page count is `ceil(n / 10)`. The pagination container holds a
  strip of Previous / page / Next links. A click on a link shows the rows of
  one page of the whole table and moves the `active` mark.
- **Field validator.** When a form field loses focus, an ordered chain of rules runs on its
  trimmed value: required, email pattern `^[^\s@]+@[^\s@]+\.[^\s@]+$`, then a
  date in the future. The result is the field's `is-valid`/`is-invalid` classes,
  its feedback element and a verdict.

Modules:

- `Basics` holds `Option` and the count of `true` flags.
- `Text` holds the JavaScript white-space set used by `trim` and `\s`, lower-casing,
  `includes` and `trim`.
- `Filter` holds the per-row decision and the visibility of the table.
- `Paginator` holds the page count, the strip, the page window and re-highlighting.
- `ListView` holds the stateful controller. `Controller` is a class. Its fields are
  the script's module-level variables, one display flag per row (an
  array, written in place) and the links of the pagination container.
- `Validator` holds the rule chain.

Some behaviours of the script are reproduced as written and proved as lemmas or
contracts:

- A click shows a page window of the *whole* table, ignoring the filter.
- Filtering never slices to a page, so more than ten rows may be shown.
- The strip is only ever drawn for page 1, because both handlers set the page to 1
  before repaginating. So Previous (`data-page` 0) is always ignored, and Next
  always leads to page 2.
- A click on Next lights two links.
- When one page or fewer remains, the old strip stays in the container.
- A required field that is emptied after failing the email rule shows the
  email message again.

## Model

| member | source | states |
|---|---|---|
| Text.ToLower | event-registration-system/target/classes/static/js/dynamic-features.js:82 | lower-casing keeps the length, turns each letter A to Z into its lower-case form, keeps every other character, and leaves no upper-case letter |
| Text.ToLowerIdempotent | event-registration-system/target/classes/static/js/dynamic-features.js:82 | lower-casing an already lower-cased term changes nothing |
| Text.Includes | event-registration-system/target/classes/static/js/dynamic-features.js:102 | `s.includes(t)` holds exactly when `t` occurs in `s` at some position |
| Text.EmptyIsIncluded | event-registration-system/target/classes/static/js/dynamic-features.js:102 | every string includes the empty search term |
| Text.Trim | event-registration-system/target/classes/static/js/dynamic-features.js:221 | the trimmed value is the value with only white space removed before and after it; it starts and ends with non-white-space and is empty exactly when the value is all white space |
| Filter.RowMatches | event-registration-system/target/classes/static/js/dynamic-features.js:100-105 | a row is kept exactly when the term occurs in its lower-cased name or location and the selection is "all" or equals its category |
| Filter.EmptyTermKeepsCategory | event-registration-system/target/classes/static/js/dynamic-features.js:102-103 | with an empty search term only the category decides |
| Filter.UncategorisedRowNeedsAll | event-registration-system/target/classes/static/js/dynamic-features.js:103 | a row without `data-category` is kept only under "all" |
| Filter.Visibility | event-registration-system/target/classes/static/js/dynamic-features.js:99-111 | the display flag of every row is the row's filter decision |
| Filter.EverythingShownByDefault | event-registration-system/target/classes/static/js/dynamic-features.js:6-7 | with the initial term and selection every row is shown |
| Filter.HallScenario | event-registration-system/target/classes/static/js/dynamic-features.js:99-111 | searching "hall" keeps both hall events; adding category "art" keeps one |
| Paginator.TotalPages | event-registration-system/target/classes/static/js/dynamic-features.js:152 | the page count is the fewest pages of 10 rows that hold the rows |
| Paginator.StripNeededIff | event-registration-system/target/classes/static/js/dynamic-features.js:152-155 | more than one page exactly when more than 10 rows |
| Paginator.Strip | event-registration-system/target/classes/static/js/dynamic-features.js:156-173 | Previous with page current-1, disabled exactly on page 1; pages 1..total, active exactly at current; Next with page current+1, disabled exactly on the last page |
| Paginator.RenderStrip | event-registration-system/target/classes/static/js/dynamic-features.js:158-173 | the links built by appending Previous, each page and Next are exactly the strip |
| Paginator.ExactlyOneActive | event-registration-system/target/classes/static/js/dynamic-features.js:165 | with the current page among the pages, exactly one freshly drawn link is active |
| Paginator.PageWindow | event-registration-system/target/classes/static/js/dynamic-features.js:136-145 | a row is shown exactly when its index lies in [(page-1)*10, page*10) |
| Paginator.WindowCount | event-registration-system/target/classes/static/js/dynamic-features.js:136-145 | the rows shown are the part of the page's range inside the table, at most 10 |
| Paginator.PagePastEndShowsNothing | event-registration-system/target/classes/static/js/dynamic-features.js:136-145 | a page starting past the table's end shows no row |
| Paginator.Activate | event-registration-system/target/classes/static/js/dynamic-features.js:181-188 | a link is active exactly when its page equals the active page; kind, page and disabled state are unchanged |
| Paginator.NextClickMarksTwoLinks | event-registration-system/target/classes/static/js/dynamic-features.js:181-188 | after clicking Next, both the next page's link and Next itself are active |
| Paginator.ActivateKeepsDrawing | event-registration-system/target/classes/static/js/dynamic-features.js:181-188 | moving the active mark keeps a strip drawn for page 1 as drawn |
| Paginator.FirstPageStripPages | event-registration-system/target/classes/static/js/dynamic-features.js:159-173 | in a strip drawn for page 1, Previous alone carries 0, Next carries 2, and every page lies between 0 and the page count |
| Paginator.BoundaryLinks | event-registration-system/target/classes/static/js/dynamic-features.js:159-172 | Previous on page 1 carries 0 and is disabled; Next on the last page carries one past it and is disabled |
| ListView.Repaginated | event-registration-system/target/classes/static/js/dynamic-features.js:151-177 | with a container and more than 10 rows the container holds the strip for the current page; in every other case it is kept as it was |
| ListView.ApplyFilter | event-registration-system/target/classes/static/js/dynamic-features.js:96-111 | after the loop every row's flag is its filter decision, and the count is the number of rows shown |
| ListView.Controller.constructor | event-registration-system/target/classes/static/js/dynamic-features.js:4-7 | initial state: every row shown, empty term, "all", page 1, empty container |
| ListView.Controller.HandleSearch | event-registration-system/target/classes/static/js/dynamic-features.js:81-85 | stores the lower-cased input (which lower-casing leaves unchanged), resets to page 1, shows the filtered rows and repaginates with their count; the selection is kept |
| ListView.Controller.HandleCategoryFilter | event-registration-system/target/classes/static/js/dynamic-features.js:88-92 | stores the selection, resets to page 1, keeps the stored term lower-cased, shows the filtered rows and repaginates with their count; the term is kept |
| ListView.Controller.FilterAndDisplayEvents | event-registration-system/target/classes/static/js/dynamic-features.js:95-114 | shows exactly the rows the filter keeps, returns their number and repaginates with it |
| ListView.Controller.UpdatePagination | event-registration-system/target/classes/static/js/dynamic-features.js:151-178 | with a container and more than one page the container holds the strip for the current page; otherwise it is unchanged |
| ListView.Controller.DisplayPage | event-registration-system/target/classes/static/js/dynamic-features.js:134-148 | shows exactly the page window of the whole table (at most 10 rows), then re-highlights the strip |
| ListView.Controller.UpdatePaginationButtons | event-registration-system/target/classes/static/js/dynamic-features.js:181-189 | the container's links become the re-highlighted strip; the invariant is kept |
| ListView.Controller.ClickPageLink | event-registration-system/target/classes/static/js/dynamic-features.js:120-129 | page 0 changes nothing; any other page becomes current and is displayed; Previous is ignored and Next leads to page 2 |
| ListView.TwoPageWalk | event-registration-system/target/classes/static/js/dynamic-features.js:81-189 | walk-through: with fifteen matching rows, Previous keeps page 1, Next goes to page 2 and shows five rows, and Next on page 2 stays on page 2 |
| Validator.MatchesEmail | event-registration-system/target/classes/static/js/dynamic-features.js:235-236 | `emailRegex.test(value)`, decided by a scan from the first "@"; that it accepts exactly the regular expression's strings is Validator.MatchesEmailCorrect |
| Validator.IndexOf | event-registration-system/target/classes/static/js/dynamic-features.js:235 | the position of the first occurrence, or the length when absent |
| Validator.MatchesEmailCorrect | event-registration-system/target/classes/static/js/dynamic-features.js:235 | the direct test accepts exactly the strings of the pattern `^[^\s@]+@[^\s@]+\.[^\s@]+$` |
| Validator.MatchesEmailSound | event-registration-system/target/classes/static/js/dynamic-features.js:235 | every accepted string has the pattern's shape |
| Validator.MatchesEmailComplete | event-registration-system/target/classes/static/js/dynamic-features.js:235 | every string of the pattern's shape is accepted |
| Validator.NoAtRejected | event-registration-system/target/classes/static/js/dynamic-features.js:235 | a string without "@" is rejected |
| Validator.NoAtExampleRejected | event-registration-system/target/classes/static/js/dynamic-features.js:235 | "bad-email" is rejected |
| Validator.ShortAddressAccepted | event-registration-system/target/classes/static/js/dynamic-features.js:235 | "a@b.co" is accepted |
| Validator.IsPast | event-registration-system/target/classes/static/js/dynamic-features.js:246-248 | `selectedDate < now`: an invalid date is never in the past; a valid one is exactly when it is before now |
| Validator.CheckRules | event-registration-system/target/classes/static/js/dynamic-features.js:227-254 | each failure verdict is returned exactly when its rule fires (the rules are checked in order) |
| Validator.ValidateField | event-registration-system/target/classes/static/js/dynamic-features.js:220-261 | valid exactly when no rule fires; is-invalid exactly when invalid; is-valid exactly when valid with a non-blank value; other classes kept; feedback shown on failure and hidden otherwise, with the email or date message for those rules and the old text otherwise |
| Validator.RulesExclusive | event-registration-system/target/classes/static/js/dynamic-features.js:227-254 | no two rules fire together |
| Validator.ValidateTwice | event-registration-system/target/classes/static/js/dynamic-features.js:220-261 | validating an unchanged field again changes nothing |
| Validator.UnparsableDateIsAccepted | event-registration-system/target/classes/static/js/dynamic-features.js:245-258 | a date-time value that does not parse is accepted and marked valid |
| Validator.EmptiedEmailKeepsEmailMessage | event-registration-system/target/classes/static/js/dynamic-features.js:227-239 | a required email field that fails the email rule and is then emptied shows the email message again |

## Left out

- As shipped, `dynamic-features.js` does not parse: in `showNotification` a stray `}, 5000);` (:413) closes the `if` block and then starts a statement with a comma, which is a syntax error, so none of the file's code is defined or registered. The model describes the functions as written, that is, as they behave once that line is repaired.
- The Spring Boot server, its templates and `script.js` are not part of this model. Neither are the statistics panel, loading overlays, tooltips, modals, export and notifications in `dynamic-features.js`. They are outside the list view's filter, paginator and validator.
- The 300 ms debounce on the search box is left out: it delays `handleSearch` and drops every call of a burst but the last, so the model's `HandleSearch` stands for the call that survives. The 30-second timer is left out too: it runs `updateLiveStats`, a colour change on the statistics cards that touches no state of the list view.
- Date parsing (`new Date(value)`) and the clock (`new Date()`) are parameters of the validator: `parseDate` returns `None` for an invalid date, and `now` is a number.
- Text.ToLower: lower-cases only the ASCII letters A to Z; the full Unicode case mapping of `toLowerCase` is not modelled.
- Filter.Row: every table row is assumed to have at least three cells. On a row with fewer (an empty-table placeholder, say) the source reads `textContent` of a missing cell and throws partway through the loop: earlier rows have their new display, later rows keep the old one, `updatePagination` is skipped, and the term or selection and the page number have already been overwritten. That failure path is not modelled.
- Strings are sequences of characters; UTF-16 surrogate pairs are not modelled.
- The container's initial, server-rendered content is assumed to be empty. The `.pagination` query in `updatePaginationButtons` is taken to find exactly the container's links.
- The `blur` re-formatting of `datetime-local` inputs is left out. That listener is registered before the validating one, so `validateField` sees the value rewritten as `toISOString().slice(0, 16)`, a UTC rendering that `new Date(value)` reads back as local time. The model's field value stands for that rewritten value; the time-zone shift it causes is not modelled.
- ListView.Controller.FilterAndDisplayEvents: modelled only with the current page equal to 1, as both of its callers set it.
- ListView.Controller.UpdatePagination: modelled only with the current page equal to 1, as its only caller reaches it.
- ListView.Controller.ClickPageLink: a click is modelled as a click on an existing link of the strip; clicks elsewhere in the container are ignored by the handler and not modelled.
