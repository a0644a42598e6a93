# Pet Heaven page logic in Dafny

Pet Heaven is a single-page site for a pet-adoption charity. All of its logic
sits in one React component file, `src/App.js`. This project models the
logic under the markup and proves properties of it:

- **Pet listing filter** (module `Pets`). The six pets are held for the whole
  session. The listing page keeps the pets whose lower-cased type equals the
  category facet (or the facet is `all`) and whose lower-cased name, breed or
  description contains the lower-cased query.
- **Form validators** (module `Validation`). There is one `validateForm` for
  each of the register, release, adopt and contact forms. Each checks every
  field and maps each failing field to its message. The shared rules are:
  - trimmed presence;
  - the unanchored e-mail pattern `\S+@\S+\.\S+`;
  - the phone rule: remove white space and `-`, then require `^\d{8,}$`;
  - the surrendered pet's age rule;
  - the adoption form's pet selection.
- **Form state** (module `Forms`). A `FormState` class holds `formData` and
  `errors`.
  - `Submit` is `handleSubmit`. It either replaces the messages and keeps the
    values, or returns the form's confirmation text and resets both.
  - `Change` is `handleChange`.
  - The adoption confirmation names the chosen pet through
    `pets.find(p => p.id === parseInt(petId))`, falling back to "a pet".
- **Hero rotator** (module `Hero`). The home page banner's index steps by
  `(i + 1) % 3` on each timer tick.
- **Page router** (module `Router`). `renderPage` maps page ids to pages,
  and any other id falls back to the home page.

Supporting modules:

- `Text` models `trim`, ASCII `toLowerCase`, `includes` and the `\s` / `\d`
  classes.
- `Numbers` models decimal reading and writing. It stands in for the
  string-to-number conversion that `formData.age <= 0` makes, for
  `parseInt(...)`, and for the number-to-string conversion of the selector's
  option values.
- `Wrappers` holds `Option`.

Form data is a `map<Field, string>` over one `Field` enumeration that covers
the keys of all four forms' state objects. A `None` error means the field
passes.

The four forms' `handleSubmit` and `handleChange` are the same code apart
from the alert text and the reset values: src/App.js:279-297 (register),
377-395 (release), 509-528 (adopt) and 649-667 (contact). `FormState.Submit`
and `FormState.Change` model all four through the form's kind. The alert
texts are in `Confirmation`, and the reset values are `InitialData`.

## Model

| member | source | states |
|---|---|---|
| Pets.FilterPets | src/App.js:166-172 | the listing is a subsequence of the pets in list order; a pet occurs in it exactly when it is in the category and found by the query, as many times as in the list |
| Pets.FilterAllEmptyIsIdentity | src/App.js:163-172 | with the facet on `all` and an empty query the listing is the whole list, unchanged |
| Pets.FilterFacetAfterSearch | src/App.js:166-172 | the facet and the search are independent: searching under `all` and then applying the facet with an empty query gives the same listing |
| Pets.DogsFetch | src/App.js:8-15 | over the six pets, the dogs found by "fetch" are exactly Charlie |
| Pets.FilterSingle | src/App.js:166-172 | when exactly one position passes, the listing is that one pet |
| Pets.FindPet | src/App.js:517 | `find` by id: `None` exactly when no pet carries the id; otherwise the first pet that carries it |
| Text.LowerChar | src/App.js:167-170 | ASCII lower-casing: maps `A`-`Z` 32 code points up, to `a`-`z`, and leaves every other character alone |
| Text.Lower | src/App.js:167-170 | `toLowerCase` character by character, length kept |
| Text.LowerIdempotent | src/App.js:167-170 | lower-casing twice is lower-casing once |
| Text.Contains | src/App.js:168-170 | `includes` holds exactly when the needle occurs at some position |
| Text.ContainsEmpty | src/App.js:168 | the empty query is contained in every text |
| Text.ContainsInfix | src/App.js:168-170 | a needle placed inside any text is found there |
| Text.Trim | src/App.js:256 | `trim()` never lengthens the text, and the result neither begins nor ends with white space |
| Text.TrimStart | src/App.js:256 | what is left after dropping a blank prefix, starting with a non-white-space character |
| Text.TrimEnd | src/App.js:256 | what is left after dropping a blank suffix, ending with a non-white-space character |
| Text.TrimIsMiddle | src/App.js:256 | `trim()` is the middle of the text between a blank prefix and a blank suffix |
| Text.TrimEmptyIffBlank | src/App.js:256 | `!v.trim()` holds exactly for the texts made only of white space |
| Validation.Required | src/App.js:256-258 | the presence rule fails, with the given message, exactly on blank text |
| Validation.Selected | src/App.js:502 | the untrimmed selector check fails exactly on the empty string |
| Validation.EmailPatternMatches | src/App.js:262 | `/\S+@\S+\.\S+/.test`: a match needs at least five characters, among them an `@` and a `.` |
| Validation.EmailPatternMatchesIffShape | src/App.js:262 | the shortest-match reading of `\S+@\S+\.\S+` holds exactly when some substring has that shape |
| Validation.EmailPatternUnanchored | src/App.js:262 | text before and after a match does not undo it |
| Validation.NoAtNoMatch | src/App.js:262 | without an `@` nothing matches |
| Validation.SampleEmails | src/App.js:262 | "user@example.com" matches; "not-an-email" does not |
| Validation.EmailRule | src/App.js:260-264 | blank gives "Email is required"; otherwise "Email is invalid" exactly when no substring has the e-mail shape; no error exactly when non-blank and shaped |
| Validation.StripSeparators | src/App.js:268 | `replace(/[\s-]/g, '')` leaves no separator and never lengthens the text |
| Validation.PhonePatternMatches | src/App.js:268 | `/^\d{8,}$/.test`, anchored at both ends: the text has at least eight characters and every one is a digit |
| Validation.StripSeparatorsConcat | src/App.js:268 | removing separators distributes over concatenation |
| Validation.StripSeparatorsOfPhoneText | src/App.js:268 | the stripped text is all digits exactly when the input has only digits and separators, and then its length is the digit count |
| Validation.PhoneRule | src/App.js:266-270 | blank gives "Phone number is required"; no error exactly when the text has only digits, white space and `-` and at least eight digits; otherwise "Phone number must be at least 8 digits" |
| Validation.SevenDigitsRejected | src/App.js:268-269 | "1234567" is too short |
| Validation.EightDigitsAccepted | src/App.js:268 | "12345678" passes |
| Validation.DashedPhoneAccepted | src/App.js:268 | two digit groups joined by `-` (such as 1234-5678) with eight digits in all pass |
| Validation.NumberValue | src/App.js:371 | the number `formData.age <= 0` compares: blank text is 0; other text has a value exactly when, trimmed, it reads `[+-]?digits` (otherwise `NaN`) |
| Validation.NumberValueOfInteger | src/App.js:371 | a whole number written out reads back as that number |
| Validation.AgeRule | src/App.js:371 | an age error is always "Valid age is required", and blank text always fails |
| Validation.AgeRuleOnIntegers | src/App.js:371 | an age typed as a whole number fails exactly when it is zero or negative |
| Validation.CheckOfTable | src/App.js:253-277 | the check table of the four validators: the e-mail rule on every form, the phone rule on all but contact, the age rule only on release, the pet choice only on adoption (with "Please select a pet"), and "Name is required" for every name field |
| Validation.ContactValidator | src/App.js:634-647 | the contact form's validator reports only name, e-mail, subject and message: it has no phone rule |
| Validation.Collect | src/App.js:254-276 | the checks of a list of fields, each made in turn: the keys are exactly the failing fields, each with its rule's message |
| Validation.Validate | src/App.js:253-277 | `validateForm`: the keys are among the form's fields, and a field is a key exactly when its rule fails, with that rule's message; no check is skipped after a failure |
| Validation.ValidateIsLocal | src/App.js:355-375 | changing one field's value changes no other field's error |
| Validation.OnlyFailure | src/App.js:487-507 | when every other field passes, the errors are that one field's message or nothing |
| Numbers.ParseDecimalRoundTrip | src/App.js:371 | reading the decimal text of any integer gives the integer back |
| Numbers.IntToString | src/App.js:572 | a pet id written as an option value: all digits when the id is not negative, otherwise `-` and then digits |
| Numbers.ParseIntPrefix | src/App.js:517 | `parseInt` is `NaN` exactly when no digit follows the leading white space and the optional sign |
| Numbers.ParseIntPrefixReadsLeading | src/App.js:517 | `parseInt` of an integer's decimal text, followed by anything that is not a digit, gives the integer |
| Forms.InitialData | src/App.js:245-250 | a form starts with one empty value per field, except the release form's pet type, which starts on "dog" |
| Forms.AdoptedPetName | src/App.js:517-518 | the confirmation's pet name is never empty |
| Forms.AdoptedPetNameOfChoice | src/App.js:517-518 | choosing a pet in the selector, whose values are the pets' ids, names that pet when no earlier pet shares its id and its name is not empty |
| Forms.AdoptedPetNameOfUnknownId | src/App.js:517-518 | an id that no pet carries gives "a pet" |
| Forms.AdoptedPetNameOfNoNumber | src/App.js:517-518 | text that does not start with a number gives "a pet" |
| Forms.Confirmation | src/App.js:509-520 | the confirmation text of each form (register, release, contact verbatim); the adoption form's wraps the adopted pet's name |
| Forms.EveryFieldButPetTypeChecked | src/App.js:355-375 | every field of every form except the release form's pet type has a rule |
| Forms.EmptyFailsEveryCheck | src/App.js:253-277 | every rule rejects the empty string |
| Forms.InitialDataFailsEverywhere | src/App.js:279-290 | submitting a fresh form, or one just after a successful submit, reports every field except the pet type |
| Forms.EmptyRegisterForm | src/App.js:253-277 | an untouched registration form reports exactly name, email, phone and address |
| Forms.FormState.constructor | src/App.js:245-251 | a new form holds its initial values and no messages |
| Forms.FormState.Submit | src/App.js:279-290 | with errors, `formData` is unchanged, `errors` is exactly the new map and nothing is confirmed; with none, the form's confirmation is returned and `formData` and `errors` go back to their initial values; confirmed exactly when every field passes |
| Forms.FormState.Change | src/App.js:292-297 | the field takes the value and no other field changes; its message is blanked only when one is showing; no other message changes |
| Hero.NextIndex | src/App.js:99 | the next index is below three, one more than the last unless it was the last position, which wraps to zero |
| Hero.TicksAreRotation | src/App.js:97-102 | k ticks from a valid index move it k places round the circle of three images |
| Hero.FullCycle | src/App.js:97-102 | three ticks bring the banner back to where it began, and fewer do not (0, 1, 2, 0) |
| Hero.HeroRotator.constructor | src/App.js:95 | the banner starts on the first image |
| Hero.HeroRotator.CurrentImage | src/App.js:109 | the image on show is one of the three |
| Hero.HeroRotator.Tick | src/App.js:99 | one tick moves the index to the next position, and it stays valid |
| Router.RenderPage | src/App.js:17-34 | a known id shows its own page; any page other than home was selected by its own id |
| Router.RenderPageOfId | src/App.js:17-34 | selecting a page's id shows that very page |
| Router.UnknownIdShowsHome | src/App.js:31-32 | any id outside the six shows the home page |
| Router.KnownIds | src/App.js:19-30 | the known ids are exactly home, pets, register, release, adopt and contact |

## Left out

- Markup, styling, icons and the presentational components. These are the navigation bar, footer, cards, filter buttons and form inputs.
- `alert(...)`. The model returns the confirmation text instead.
- The hero timer's `setInterval` / `clearInterval` lifecycle. The model keeps only the index step, one `Tick` per timer firing.
- React's `useState` batching and re-rendering. State is plain class fields.
- Unicode-aware `toLowerCase`. Lower-casing covers ASCII letters only. White space is still the full ECMAScript set used by `trim()` and `\s`.
- The regular-expression engine. The e-mail and phone patterns are written directly as predicates over characters.
- Validation.AgeRule: follows the code on text that is blank or that reads `[+-]?digits` once trimmed. Blank text fails, and such a whole number fails when it is zero or below. The page's conversion is the implicit string-to-number step of `formData.age <= 0`, and it reads more notations than the model: decimal fractions, exponents, `Infinity` and `-Infinity`, and the `0x`, `0o` and `0b` literals. The model reads them all as `NaN`, which passes. So any number text other than `[+-]?digits` whose value is at most zero passes here but is rejected by the source, for example "-0.5", "0.0", "-1e3", "-Infinity", "0x0", "0o0" and "0b0". The age input is typed `number` in the markup, and that typing is outside this model.
- Validation.NumberValue: reads only `[+-]?digits` after trimming, as the `Validation.AgeRule` line above says.
- Forms.AdoptedPetName: `parseInt` is modelled as leading white space, an optional sign and a run of decimal digits. The `0x` prefix, and `-0` as distinct from `0`, are not modelled. Ids and parsed values are unbounded integers, while the page holds them as double-precision numbers. So this member, `Forms.AdoptedPetNameOfChoice` and `Numbers.ParseIntPrefixReadsLeading` hold for the page only for ids of magnitude below 2^53. The six pets have ids 1 to 6.
- Numbers.IntToString: writes plain decimal for every integer. The page's `String(n)` switches to exponent notation from 10^21 on (`String(1e21)` is "1e+21", which `parseInt` reads as 1).
- Numbers.ParseIntPrefix: reads every digit run exactly. The page rounds a run worth 2^53 or more to the nearest double.
- Validation.StripSeparators: states that no separator is left and the length does not grow. It does not state that the kept characters are exactly the non-separators in order, though the concatenation and digit-count lemmas cover what the phone rule needs.
- The `Change` handler accepts any field of the shared enumeration. A field name outside it cannot be written, so the spread of an arbitrary key is not modelled.
