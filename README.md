# Form validation engine — a Dafny model

`js/validacao.js` validates the fields of a registration form. It is called
through `valida(input)` on each field. That function runs the field's own
validator:

- the birth date must be at least eighteen years ago;
- the CPF (Brazilian taxpayer number) must pass the modulo-11 check-digit
  scheme;
- the CEP (postal code) is looked up at the ViaCEP service, which fills in the
  street, city and state fields.

Then it marks the field's container invalid or not, and writes the error
message chosen from a catalogue keyed by field type and validity flag.

The model has five modules:

- `JsValues` (`js_values.dfy`) holds the JavaScript behaviour the engine
  relies on:
  - `replace(/\D/g, '')`;
  - `charAt` past the end;
  - the truncating `%`;
  - NaN arising from `undefined * n`;
  - the loose comparison `'' == 0`.
- `Cpf` (`cpf.dfy`) holds the CPF validator. The methods follow the source's
  loops and recursion. They are proved against the predicate `CpfAccepted`, and
  the scheme's properties are proved about that predicate.
- `Age` (`age.dfy`) holds the minimum-age rule. It works on calendar dates,
  including the `Date` constructor's roll-over of 29 February.
- `Messages` (`messages.dfy`) holds:
  - the error catalogue `mensagensDeErro`;
  - the flag order `tiposDeErro`;
  - the message selection `mostraMensagemDeErro`;
  - the validator table `validadores`.
- `Form` (`form.dfy`) holds the form fields as a `Field` class and the entry
  point `valida`. It also holds the CEP steps:
  - the synchronous guard of `recuperarCEP`;
  - the handling of the service's answer;
  - `preencheCamposComCEP` and `limpaCamposComCEP`.

Several things that the code receives from the browser are parameters of the
model:

- the validity flags the browser computes from a field's value and attributes;
- the value parsed as a date;
- today's date;
- the service's answer.

The model follows the code, including where the code departs from the usual
reading of the rules it implements:

- **CPF length.** A CPF is meant to have eleven digits. The code also accepts:
  - ten digits, when the missing second check digit would be 0 (`''` loosely
    equals `0`);
  - more than eleven digits, when the first eleven pass.

  `Cpf.TenDigitsAccepted`, `Cpf.TwelveZerosAccepted` and
  `Cpf.LongInputFirstElevenDecide` state this.
- **Message order.** The message shown is that of the **last** active flag in
  `valueMissing, typeMismatch, patternMismatch, customError`, not the first.
  `Messages.LastActive` and `Messages.LastFlagWins` state this.
- **Empty fields.** The validator runs before the message is chosen, and the
  custom error comes last in the flag order. So an empty CPF field shows "CPF
  not valid", and an empty birth date shows the age message, instead of their
  "cannot be empty" messages (`Form.EmptyFieldShowsValidatorMessage`).
- **CEP answers.** Nothing discards a stale CEP answer. The answer that arrives
  last decides (`Form.LastResponseWins`), and the CEP field is not validated
  again when it arrives.

## Model

| member | source | states |
|---|---|---|
| `JsValues.JsRemainder` | js/validacao.js:161 | JavaScript's truncating `%`: for a dividend that is not negative it is the remainder in 0..b-1, for a negative one it lies in -(b-1)..0 |
| `JsValues.StripNonDigits` | js/validacao.js:100 | the result is digits only, no longer than the input, and a digit string is left as it is |
| `JsValues.StripConcat` | js/validacao.js:100 | stripping distributes over concatenation, so the digits keep their order |
| `JsValues.StripKeepsDigits` | js/validacao.js:100 | every digit occurs in the result as often as in the input, every non-digit not at all |
| `JsValues.StripIdempotent` | js/validacao.js:100 | stripping twice is stripping once |
| `JsValues.CharAt` | js/validacao.js:146 | `charAt` gives the character at an index inside the string and '' outside it |
| `JsValues.LooseEquals` | js/validacao.js:153 | definition: a string of at most one digit loosely equals a number when the number is not NaN and equals the digit, '' counting as 0 |
| `Cpf.ConfirmaDigito` | js/validacao.js:160-164 | NaN in gives NaN out; for a sum that is not negative the digit is in 0..9, is 0 exactly when the sum is 0 or 1 modulo 11, and otherwise brings the sum to a multiple of 11 |
| `Cpf.WeightedSum` | js/validacao.js:148-151 | definition: the sum of digit i times the weight `w - i` over the first n digits |
| `Cpf.ExpectedDigit` | js/validacao.js:148-153 | the check digit of a digit prefix, weights n+1 down to 2, is a digit |
| `Cpf.WeightedSumNonNegative` | js/validacao.js:148-151 | the weighted sum of digits with positive weights is not negative |
| `Cpf.WeightedSumPrefix` | js/validacao.js:145-151 | the sum reads only the first `multiplicador - 1` digits |
| `Cpf.WeightedSumChangeOne` | js/validacao.js:148-151 | changing one digit moves the sum by the change times that digit's weight |
| `Cpf.ChecaCpfRepetido` | js/validacao.js:110-131 | the loop over the ten listed strings yields false exactly when the input is one of them, that is, when it is eleven copies of one digit |
| `Cpf.RepeatedIffUniform` | js/validacao.js:111-122 | the ten listed strings are exactly the uniform eleven-digit strings |
| `Cpf.StructureAccepted` | js/validacao.js:133-158 | definition: at least ten digits; the 10th is the check digit of the first nine; the 11th is the check digit of the first ten, or, with exactly ten digits, that check digit is 0 |
| `Cpf.CpfAccepted` | js/validacao.js:99-108 | definition: the stripped value is not uniform and is structurally accepted |
| `Cpf.SomaPonderada` | js/validacao.js:143-151 | the loop computes the weighted sum of the first `multiplicador - 1` digits, or NaN when the string is shorter than that |
| `Cpf.ChecaDigitoVerificador` | js/validacao.js:138-158 | the recursion accepts exactly when every check position from `multiplicador` to 11 matches, a missing digit comparing as 0 |
| `Cpf.ChecaEstruturaCpf` | js/validacao.js:133-136 | accepts exactly the strings with at least ten digits whose 10th digit, and 11th digit (or 0 when it is missing), are the scheme's check digits |
| `Cpf.CpfValido` | js/validacao.js:100-105 | the validator's condition holds exactly when the stripped value is not uniform and passes the structure check |
| `Cpf.KnownValidCpf` | js/validacao.js:99-108 | "52998224725" is accepted |
| `Cpf.MaskedCpfStrips` | js/validacao.js:100 | a CPF typed as "ddd.ddd.ddd-dd" strips to its eleven digits |
| `Cpf.UniformRejected` | js/validacao.js:103 | every uniform string is rejected |
| `Cpf.ZerosPassChecksum` | js/validacao.js:133-158 | "00000000000" passes the checksum, so only the uniform test rejects it |
| `Cpf.ShortRejected` | js/validacao.js:145-153 | fewer than ten digits are always rejected |
| `Cpf.LongInputFirstElevenDecide` | js/validacao.js:145-146 | with twelve or more digits, acceptance depends on the first eleven alone |
| `Cpf.TwelveZerosAccepted` | js/validacao.js:110-131 | twelve zeros are accepted, because the uniform test compares whole strings |
| `Cpf.TenDigitsAccepted` | js/validacao.js:146-153 | the ten-digit "1000000028" is accepted |
| `Cpf.SameNonzeroDigitSameRemainder` | js/validacao.js:160-164 | two sums with the same nonzero check digit are congruent modulo 11 |
| `Cpf.CheckDigitsDetermined` | js/validacao.js:138-158 | two accepted eleven-digit CPFs with the same first nine digits are equal |
| `Cpf.BodyChangeDetected` | js/validacao.js:143-153 | changing one of the first nine digits changes a nonzero first check digit |
| `Cpf.SingleDigitChangeDetected` | js/validacao.js:133-164 | changing any one digit of an accepted CPF whose 10th digit is not 0 gives a rejected one |
| `Cpf.SingleDigitChangeUndetected` | js/validacao.js:133-164 | without that condition detection fails: "10000000108" and "20000000108" are both accepted |
| `Age.DaysInMonth` | js/validacao.js:94 | month lengths of the Gregorian calendar, 28..31 |
| `Age.Normalize` | js/validacao.js:94 | the `Date` constructor keeps a day that exists in its month and moves an overflowing day past the date it names |
| `Age.MaiorQue18` | js/validacao.js:92-97 | definition: an unparseable date is rejected; otherwise the birth date eighteen years on, normalised by the `Date` constructor, must be on or before today |
| `Age.EighteenYearsLater` | js/validacao.js:94 | adding eighteen years overflows only for 29 February, which becomes 1 March of a common year |
| `Age.MaiorQue18IffEighteen` | js/validacao.js:92-97 | a birth date is accepted exactly when the completed years of age on today are at least 18 |
| `Age.EighteenthBirthdayAccepted` | js/validacao.js:92-97 | the eighteenth birthday itself is accepted |
| `Age.DayBeforeRejected` | js/validacao.js:92-97 | every day before the eighteenth birthday is rejected, across month and year boundaries too |
| `Age.AcceptedStaysAccepted` | js/validacao.js:96 | an accepted birth date stays accepted on every later day |
| `Age.UnparseableRejected` | js/validacao.js:82-96 | a value that is not a date is rejected (NaN comparisons are false) |
| `Age.BoundaryExamples` | js/validacao.js:92-97 | born 2000-01-01: rejected on 2017-12-31, accepted on 2018-01-01; born 2000-02-29: rejected on 2018-02-28, accepted on 2018-03-01 |
| `Messages.Rank` | js/validacao.js:17-22 | each flag's position in `tiposDeErro` |
| `Messages.LastActive` | js/validacao.js:63-73 | the selected flag is active and comes last in `tiposDeErro` among the active ones; there is none exactly when no flag is active |
| `Messages.LastActiveAmongAll` | js/validacao.js:66-70 | walking the whole of `tiposDeErro` and remembering the latest hit finds that flag |
| `Messages.MensagensDeErro` | js/validacao.js:24-61 | definition: the catalogue, giving the message of each (type, flag) pair the source lists and none for the others |
| `Messages.Selected` | js/validacao.js:63-73 | definition: '' when no flag is active; otherwise the catalogue entry of the last active flag, or a TypeError when the type has no catalogue |
| `Messages.MostraMensagemDeErro` | js/validacao.js:63-73 | the loop returns the catalogue entry of the last active flag ('' when none is active, `undefined` when the catalogue lacks it), or throws when the type has no catalogue |
| `Messages.EmptyIffNoActiveFlag` | js/validacao.js:63-73 | for a type with a catalogue the selection is '' exactly when no flag is active, and it never throws |
| `Messages.UntypedThrowsIffActive` | js/validacao.js:68 | for a type without a catalogue the lookup throws exactly when some flag is active |
| `Messages.LastFlagWins` | js/validacao.js:66-70 | a CEP field that still holds its "not found" error shows that error when it is also empty or malformed; without the custom error it shows the "empty" or "not valid" message |
| `Messages.MissingEntryUndefined` | js/validacao.js:68 | a flag the type's catalogue does not list selects `undefined` |
| `Messages.Validadores` | js/validacao.js:75-79 | only birth date, CPF and CEP fields have a validator, each its own |
| `Messages.CustomMessagesInCatalogue` | js/validacao.js:36-47 | the validators' messages equal the catalogue's `customError` entries, and only types with a validator list a `customError` |
| `Messages.CustomErrorShown` | js/validacao.js:63-73 | a custom error on a field with a validator is shown as the catalogue's custom-error message, whatever other flags are raised |
| `Form.Field.SetCustomValidity` | js/validacao.js:89 | only the field's custom message changes |
| `Form.ValidaCpf` | js/validacao.js:99-108 | the CPF field's custom error becomes the CPF message exactly when its digits are not an accepted CPF, '' otherwise; nothing else changes |
| `Form.ValidaDataNascimento` | js/validacao.js:81-90 | the birth-date field's custom error becomes the age message exactly when the age rule fails, '' otherwise; nothing else changes |
| `Form.LimpaCamposComCep` | js/validacao.js:210-229 | each dependent field becomes empty and enabled, and no longer shows as invalid or with a message; its custom error is untouched |
| `Form.PreencheCamposComCep` | js/validacao.js:197-208 | each dependent field takes the answer's value and is disabled; its error display is untouched |
| `Form.RecuperarCep` | js/validacao.js:166-195 | a value neither missing nor malformed issues the lookup of `https://viacep.com.br/ws/<digits>/json/` and changes nothing; otherwise nothing is issued and the dependents are cleared |
| `Form.ReceiveCepResponse` | js/validacao.js:178-191 | the answer sets ("not found") or clears the CEP's custom error and clears or fills the dependents, as `AfterResponse` describes |
| `Form.AfterResponse` | js/validacao.js:178-191 | definition: "not found" sets the CEP's custom error and clears the three dependents; an address clears it and fills and disables them |
| `Form.LookupUrl` | js/validacao.js:167-168 | definition: `https://viacep.com.br/ws/` followed by the value's digits and `/json/` |
| `Form.CustomAfterValidator` | js/validacao.js:4-6 | definition: the custom message after the type's validator, from `validadores`: the age rule, the CPF rule, or unchanged for every other type, including CEP |
| `Form.Valida` | js/validacao.js:1-15 | the field's validator runs, and other types keep their custom error. The container is invalid exactly when the validity is not valid. The message is '' when valid and the selected one otherwise; when the lookup throws it is left as it was. A CEP field issues the lookup and leaves the dependents untouched, or issues none and clears them |
| `Form.ResponseDecidesCepError` | js/validacao.js:182-189 | after "not found" the CEP field is invalid and would show the "not found" message whatever its flags; after an address its custom error is gone |
| `Form.EmptyFieldShowsValidatorMessage` | js/validacao.js:1-15 | an empty CPF field shows "CPF not valid" and an empty or unparseable birth date shows the age message, never their "cannot be empty" messages |
| `Form.ResponseFrame` | js/validacao.js:178-229 | the answer changes only the CEP's custom error and the three dependents. An address puts its street, city and state into them and disables them, leaving their error display as it was; "not found" empties, enables and un-marks all three |
| `Form.ResponseIdempotent` | js/validacao.js:178-191 | receiving the same answer twice is receiving it once |
| `Form.LastResponseWins` | js/validacao.js:178-191 | whichever answer is received last decides the CEP's custom error and the dependents' values and enabled state |
| `Form.LookupUrlInjective` | js/validacao.js:167-168 | two values give the same lookup address exactly when they have the same digits |
| `Form.MaskedCepSameUrl` | js/validacao.js:167-168 | a CEP typed with its "-" mask gives the same address as its bare digits |

## Left out

- The network call, JSON decoding and the ViaCEP service (js/validacao.js:169-191) are input and output. The issued lookup is a result of the model and the parsed answer is a parameter. A request that fails, or an answer missing its fields, is not modelled, and the code has no `.catch`.
- Asynchrony is not modelled. The answer is handled by a separate step, `Form.ReceiveCepResponse`, that may run any number of times in any order after `Form.Valida`.
- DOM mechanics are not modelled. `querySelector` is replaced by the `Dependents` record, which names the street, city and state fields, and the code's case where such a field is absent is not covered. `classList` and `innerHTML` become the `containerInvalid` and `message` fields.
- How the browser computes `valueMissing`, `typeMismatch`, `patternMismatch` and the other validity flags is not modelled. They are a parameter of `Form.Valida` and `Form.RecuperarCep`, taken as computed for the field's value at the time of the call.
- Parsing the field's value with `new Date(...)` and reading its UTC date are not modelled. Neither are the clock, time zones, the time of day, and the `Date` constructor's mapping of years 0-99 to 1900-1999. The parsed date, or `None`, and today's date are parameters.
- The wording of the messages is kept as text in `Messages.Wording`, but selections carry the message's identifier. An `undefined` message is written to the page as the text "undefined"; the model keeps it as `Undefined`.
- `data-tipo` values other than the ten catalogued types are all `Untyped`. The model does not cover names inherited from `Object.prototype` (such as "constructor"), which the code would treat differently.
