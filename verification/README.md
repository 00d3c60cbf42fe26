# Login form credential validation, in Dafny

This project models the login form of the Annotate-Me front end: the checks
it runs on the "email or username" field and the password field, and the
small piece of form state those checks feed (the two field values, a
per-field error message, and the show-password flag).

- `text.dfy` (module `Text`): the JavaScript string primitives the form
  relies on. `IsWs` is the ECMAScript WhiteSpace and LineTerminator set,
  used both for `trim()` and for the regular-expression class `\s`.
  `TrimStart`, `TrimEnd` and `Trim` model `trim()`. `Utf16Length` models
  `length` in UTF-16 code units. `Contains` and `All` model "some character
  is in the class" and "every character is in the class".
- `credentials.dfy` (module `Credentials`): `isValidEmail`,
  `isValidUsername`, `validatePassword` and `validateEmailOrUsername`. The
  validators return a `Message` value. `Valid` stands for the empty string,
  and `MessageText` gives every other message's exact text, which is what
  the form stores. Each regular expression appears twice. A ghost
  predicate states the language it matches (`MatchesEmailRegex`,
  `MatchesUsernameRegex`, `Occurs`), with the regex's split points left
  existential. An executable test is then proved equal to it on every string.
- `login_form.dfy` (module `LoginForm`): the form state as an immutable
  record. It holds `togglePasswordVisibility`, `handleInputChange` and
  `handleSubmit` as pure state transformations with frame ("nothing else
  changes") postconditions.
- `scenarios.dfy` (module `Scenarios`): concrete inputs worked through the
  model. They cover rule order, the untrimmed length, UTF-16 length, the
  leading-space email, and two complete submits.

Strings are `seq<char>`, where a `char` is a Unicode scalar value.
JavaScript strings are UTF-16 code units, and a character outside the Basic
Multilingual Plane is two of them. A surrogate code unit is never
whitespace, `@`, an ASCII letter or digit, or a special character, and it is
in `[^\s@]` just as the character it encodes is `IsPlain`. So the class tests
and `trim()` give the same answer on both views. Only `password.length` differs, and the
model counts it with `Utf16Length`.

## Model

| member | source | states |
|---|---|---|
| `Text.TrimStart` | src/pages/Login/Login.jsx:34 | what `trim()` keeps at the front: a suffix of the input, everything dropped is whitespace, and it does not start with whitespace |
| `Text.TrimEnd` | src/pages/Login/Login.jsx:34 | what `trim()` keeps at the back: a prefix, everything dropped is whitespace, and it does not end with whitespace |
| `Text.TrimEmptyIffBlank` | src/pages/Login/Login.jsx:34 | `!s.trim()` holds exactly when every character is ECMAScript whitespace or a line terminator |
| `Text.Utf16Length` | src/pages/Login/Login.jsx:39 | JavaScript `length` lies between the character count and twice it, and equals the character count exactly when every character is in the Basic Multilingual Plane |
| `Text.Utf16LengthAppend` | src/pages/Login/Login.jsx:39 | `length` of a concatenation is the sum of the lengths |
| `Text.Contains` | src/pages/Login/Login.jsx:44-59 | an unanchored one-class test like `/[A-Z]/.test(p)` succeeds exactly when some character is in the class |
| `Text.All` | src/pages/Login/Login.jsx:29 | the anchored class run `^[...]+$` (minus the non-empty part) holds exactly when every character is in the class |
| `Text.EveryConcat` | src/pages/Login/Login.jsx:23 | a concatenation is all in a class exactly when both pieces are |
| `Text.FirstIndexOf` | src/pages/Login/Login.jsx:23 | the position of the first occurrence of a character: nothing before it is that character, and it is that character unless the search ran off the end |
| `Credentials.MessageText` | src/pages/Login/Login.jsx:35-79 | the text of each validator message, exactly as the form shows it, is empty exactly for `Valid` |
| `Credentials.IsValidEmail` | src/pages/Login/Login.jsx:22-25 | `isValidEmail(s)` holds exactly when `/^[^\s@]+@[^\s@]+\.[^\s@]+$/` matches `s` for some choice of its `@` and `\.` positions |
| `Credentials.RegexSplitsAtFirstAt` | src/pages/Login/Login.jsx:23 | whatever split the email regex picks, its `@` is the string's first `@`, so a match is the same as valid halves around the first `@` |
| `Credentials.RegexMatchSplitsAtFirstAt` | src/pages/Login/Login.jsx:23 | a regex match gives a non-empty plain local part before the first `@` and a plain domain with an inner dot after it |
| `Credentials.RegexDomain` | src/pages/Login/Login.jsx:23 | the text after the regex's `@` is plain and has a dot with a character on each side |
| `Credentials.OnlyAtIsFirst` | src/pages/Login/Login.jsx:23 | an `@` preceded only by `[^\s@]` characters is the first `@` |
| `Credentials.FirstAtSplitMatchesRegex` | src/pages/Login/Login.jsx:23 | valid halves around an `@` give a regex match |
| `Credentials.EmailShape` | src/pages/Login/Login.jsx:22-25 | `isValidEmail(L + "@" + D)` holds exactly when `L` is non-empty, neither part has whitespace or `@`, and `D` has a `.` that is neither its first nor its last character |
| `Credentials.ValidEmailHasOneAt` | src/pages/Login/Login.jsx:23 | a valid email contains exactly one `@` |
| `Credentials.IsValidUsername` | src/pages/Login/Login.jsx:27-31 | `isValidUsername(s)` holds exactly when `s` is non-empty and all in `[A-Za-z0-9_-]`, so the extra `!includes(' ')` never changes the result |
| `Credentials.ValidatePassword` | src/pages/Login/Login.jsx:33-64 | the result is `Valid` (the empty string) exactly when the password is not all whitespace, has length at least 8, and has an uppercase, a lowercase, a digit and a special character |
| `Credentials.PasswordFirstFailureWins` | src/pages/Login/Login.jsx:34-61 | the result is a rule's message exactly when the password fails that rule and passes every rule checked before it (blank, length, upper, lower, digit, special) |
| `Credentials.FirstFailure` | src/pages/Login/Login.jsx:34-61 | a rejected password's message belongs to a rule it fails, and it passes every earlier rule |
| `Credentials.BlankPasswordIsRequired` | src/pages/Login/Login.jsx:34-36 | a whitespace-only password of any length gets "Password is required" |
| `Credentials.ValidateEmailOrUsername` | src/pages/Login/Login.jsx:66-83 | the result is the "required" message exactly when the input is blank. It is the email message exactly when the input is non-blank, contains `@` and fails the email regex. It is the username message exactly when the input is non-blank, has no `@` and fails the username regex. Otherwise it is `Valid` (the empty string) |
| `Credentials.EmailShapedIdentifierAccepted` | src/pages/Login/Login.jsx:66-82 | every value of the form `L + "@" + D` with valid halves is an acceptable identifier |
| `LoginForm.InitialShowsNothing` | src/pages/Login/Login.jsx:9-14 | the mounted form has empty fields, no errors and the password hidden |
| `LoginForm.TogglePasswordVisibility` | src/pages/Login/Login.jsx:17-19 | negates `showPassword` and leaves values and errors alone |
| `LoginForm.ToggleTwiceIsIdentity` | src/pages/Login/Login.jsx:17-19 | toggling twice gives back the original form |
| `LoginForm.HandleInputChange` | src/pages/Login/Login.jsx:85-99 | sets the named field to the typed value and leaves that field without an error. The other value, the other error, the set of error keys and `showPassword` are unchanged, and errors are untouched when the field had none |
| `LoginForm.InputChangeIdempotent` | src/pages/Login/Login.jsx:85-99 | typing the same value twice leaves the form as typing it once |
| `LoginForm.InputChangesCommute` | src/pages/Login/Login.jsx:85-99 | edits to the two different fields can be applied in either order |
| `LoginForm.HandleSubmit` | src/pages/Login/Login.jsx:101-121 | stores an entry for both fields, and login proceeds exactly when both fields are acceptable. Values and `showPassword` are unchanged |
| `LoginForm.SubmitStoresBothMessages` | src/pages/Login/Login.jsx:104-115 | the stored errors are exactly the texts of the two validators' messages, whatever errors were stored before |
| `LoginForm.SubmitShowsErrorIffUnacceptable` | src/pages/Login/Login.jsx:110-118 | after a submit each field shows an error exactly when its value is unacceptable, and login proceeds exactly when neither field shows one |
| `LoginForm.SubmitFieldsIndependent` | src/pages/Login/Login.jsx:104-113 | each stored message depends only on its own field's value, and never on the other field or on earlier errors |
| `LoginForm.SubmitIdempotent` | src/pages/Login/Login.jsx:101-121 | submitting again without an edit gives the same outcome |
| `LoginForm.EditClearsOnlyItsError` | src/pages/Login/Login.jsx:92-98 | after a submit, rejected or not, editing a field clears its error before any new validation, and the other field's error stays |
| `Scenarios.SpecialClassExclusions` | src/pages/Login/Login.jsx:59 | backtick, `~` and space are not special characters, while `!`, `\`, `"` and `-` are |
| `Scenarios.MissingUppercaseOnly` | src/pages/Login/Login.jsx:44-46 | `"aaaaaaa1!"` gets the uppercase message and not any later one |
| `Scenarios.AllRulesMet` | src/pages/Login/Login.jsx:63 | `"Abcdef1!"` is accepted |
| `Scenarios.LengthIsUntrimmed` | src/pages/Login/Login.jsx:39 | `"  Ab1!  "` passes the length rule because its padding counts |
| `Scenarios.AstralCharactersCountTwice` | src/pages/Login/Login.jsx:39 | six characters, two of them outside the Basic Multilingual Plane, have JavaScript length 8 |
| `Scenarios.SixCharacterPasswordAccepted` | src/pages/Login/Login.jsx:39-63 | that six-character password meets the length rule and every other rule |
| `Scenarios.LeadingSpaceEmailRejected` | src/pages/Login/Login.jsx:67-75 | `" a@b.c"` gets the email message, because only the blank check trims |
| `Scenarios.ExampleEmailParts` | src/pages/Login/Login.jsx:23 | `john` and `example.com` are valid email halves |
| `Scenarios.EmailAccepted` | src/pages/Login/Login.jsx:72-82 | `"john@example.com"` is an acceptable identifier |
| `Scenarios.PasswordAccepted` | src/pages/Login/Login.jsx:33-64 | `"Passw0rd!"` is an acceptable password |
| `Scenarios.ValidLoginProceeds` | src/pages/Login/Login.jsx:117-121 | submitting `john@example.com` / `Passw0rd!` proceeds |
| `Scenarios.UsernameWithSpaceRejected` | src/pages/Login/Login.jsx:76-80 | `"john doe"` gets the username message |
| `Scenarios.ShortPasswordRejected` | src/pages/Login/Login.jsx:39-41 | `"short"` gets the length message |
| `Scenarios.InvalidLoginShowsBothErrors` | src/pages/Login/Login.jsx:104-115 | submitting `john doe` / `short` stores the username message and the length message, and does not proceed |

## Left out

- The JSX view, react-bootstrap layout, icons, CSS and error display (src/pages/Login/Login.jsx:123-226): presentation only.
- The `console.log` on success (src/pages/Login/Login.jsx:119): output only. It is modelled as the `proceeds` flag of `HandleSubmit`.
- `e.preventDefault()` (src/pages/Login/Login.jsx:102): a browser event call with no effect on the form state.
- The "Remember me" checkbox (src/pages/Login/Login.jsx:217): uncontrolled, so it is not part of the form state.
- React `useState` batching and stale closures: each handler is one record update applied after the previous one.
- `LoginForm.HandleInputChange`: the input `name` is a `Field` value, not an arbitrary string. Only the two inputs of the form call the handler, and their names are `emailOrUsername` and `password`.
- Strings holding an unpaired surrogate (U+D800 to U+DFFF) cannot be written as `seq<char>`, whose elements are Unicode scalar values. In JavaScript such a unit behaves like a plain Basic Multilingual Plane character of length 1.
- src/App.jsx (routing only) and src/pages/Landing/Landing.jsx (DOM animation driven by `Math.random`, and static copy) are not part of this model.
