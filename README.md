# Falha de Segurança — a verified model

This project models the solution to the "Falha de Segurança" problem of the
2021 Brazilian Informatics Olympiad, Phase 3. A login system has a flaw: it
accepts any typed password that holds the right password as a contiguous
substring. The program counts the incidents: the ordered pairs of distinct
users (i, j) such that typing user i's password opens user j's account.
Before it counts, it validates the input in a fixed order. The order is: one
user only, more than 20000 users, a declared count that differs from the
number of passwords, and passwords outside the format `^[a-z][a-z0-9]{0,9}$`.

The model has five modules, one per part of `desafioFalhaSeguranca.js`:

- `PasswordFormat` (`password_format.dfy`): the regular expression test as a
  greedy matcher, `PatternTest`. It is proved equal to the rule stated
  character by character, `IsValidPassword`.
- `PasswordList` (`password_list.dfy`): `verificarSenhasDigitadas` as a
  left fold with `&&` (`ReduceAnd`, `AllPasswordsValid`), and
  `verificarLinhasSenhasForaPadrao` as a method with a loop,
  `CollectInvalidLines`. That method is proved equal to a filter over the
  line numbers, `InvalidLines`.
- `Incidents` (`incidents.dfy`): `String.prototype.includes` as `Includes`.
  It is proved equal to the existence of a start position, `IsSubstring`.
  `retornaNumeroIncidentes` is the method `CountIncidents`, with the
  source's two nested loops. It is proved to return the size of the set
  `IncidentPairs`.
- `SecurityCheck` (`security_check.dfy`): the constant `MaxEntries`, the
  result datatype `Outcome`, and `verificarFalhasSeguranca` as the method
  `CheckSecurityFlaws`. Its contract is the decision table. `Samples` is a
  client that derives the answers for sample inputs from that contract.
- `Messages` (`messages.dfy`): the Portuguese text for each `Outcome`, as
  `Render`. Numbers are interpolated as JavaScript does it: a decimal, or
  the decimals joined by commas. The proofs show that the message
  determines the outcome, and that the singular wording appears exactly
  when one line is at fault.

The source function `verificarFalhasSeguranca(n, ps)` returns the string
`Render(CheckSecurityFlaws(n, ps))`.

The success message is `Saída: <count>`. `verificarFalhasSeguranca` does not
reject a count below 1: with `n = 0` and an empty list the result is
`Output(0)`, and a negative `n` gives `CountMismatch`. Only the interactive
prompt, which is not modelled, keeps the count at 1 or more.

The constant `SecurityCheck.MaxEntries` is `maxEntradas` (line 11), 20000.
It enters the contract of `CheckSecurityFlaws` and the too-many message.

## Model

| member | source | states |
|---|---|---|
| PasswordFormat.TailMatches | desafioFalhaSeguranca.js:12 | `[a-z0-9]{0,k}$`, matched greedily, accepts exactly the rests of at most k characters that are all letters or digits |
| PasswordFormat.PatternTest | desafioFalhaSeguranca.js:19-21 | the anchored pattern accepts a password iff it has 1 to 10 characters, a lowercase letter first and lowercase letters or digits after; the empty string and any string with an uppercase letter are rejected |
| PasswordList.ReduceAnd | desafioFalhaSeguranca.js:25-27 | folding `a && test(b)` from seed `acc` gives true iff `acc` holds and every entry has the format |
| PasswordList.AllPasswordsValid | desafioFalhaSeguranca.js:24-28 | true iff every entry has the format; true for an empty list |
| PasswordList.InvalidLinesUpTo | desafioFalhaSeguranca.js:34-38 | the line numbers collected from the first m entries are exactly the k in 1..m whose entry fails the format, strictly increasing |
| PasswordList.InvalidLines | desafioFalhaSeguranca.js:31-41 | the collected lines are exactly the 1-based numbers of the entries that fail the format, in strictly increasing order |
| PasswordList.CollectInvalidLines | desafioFalhaSeguranca.js:31-41 | the loop that pushes `index + 1` for each rejected entry returns the filtered line list |
| PasswordList.InvalidLinesEmptyIffAllValid | desafioFalhaSeguranca.js:24-41 | the line list is empty iff the all-valid check passes, so when that check fails at least one line is reported |
| Incidents.Includes | desafioFalhaSeguranca.js:50 | `text.includes(pat)` is true iff `pat` occurs in `text` at some start position |
| Incidents.SelfSubstring | desafioFalhaSeguranca.js:50 | every string includes itself |
| Incidents.CountIncidents | desafioFalhaSeguranca.js:44-57 | the double loop returns the number of ordered pairs (i, j), i ≠ j, with `ps[j]` a substring of `ps[i]`; after outer step i it has counted the pairs of rows below i |
| Incidents.IncidentCountBounds | desafioFalhaSeguranca.js:48-54 | the count is at most n·(n−1), and there are no incidents with fewer than two users |
| Incidents.RelabelInvariant | desafioFalhaSeguranca.js:44-57 | moving the passwords to new positions by any permutation p (the new list's entry k is the old entry p[k]) leaves the number of incidents unchanged |
| Incidents.DuplicatesCountTwice | desafioFalhaSeguranca.js:48-53 | two equal passwords at distinct indices give an incident in each direction |
| SecurityCheck.CheckSecurityFlaws | desafioFalhaSeguranca.js:60-78 | checks in order, first failure decides: n = 1 gives the single-user outcome; else n > 20000 too many; else a length mismatch; else the format error with the invalid lines (at least one); else the incident count. A counted result means n in 0..20000 with n ≠ 1, n passwords all in format, and a count of at most n·(n−1) |
| SecurityCheck.NestedPasswordsExample | desafioFalhaSeguranca.js:44-57 | for "a", "ab", "abc" the incidents are (1,0), (2,0), (2,1): three |
| SecurityCheck.ReversedPairExample | desafioFalhaSeguranca.js:44-57 | "ab" and "ba" give no incident |
| SecurityCheck.UppercaseLineExample | desafioFalhaSeguranca.js:31-41 | for "A1", "b2" only line 1 is at fault |
| Messages.DecimalString | desafioFalhaSeguranca.js:76 | `${count}`: at least one character, all decimal digits, no leading zero |
| Messages.DecimalRoundTrip | desafioFalhaSeguranca.js:76 | reading back the decimal digits interpolated for a count gives the count |
| Messages.JoinWithCommas | desafioFalhaSeguranca.js:71-73 | `${array}`, the line numbers joined with commas: empty iff the list is empty, and made only of digits and commas |
| Messages.JoinRoundTrip | desafioFalhaSeguranca.js:71-73 | splitting the comma-joined line list at the commas and reading each decimal gives back the list |
| Messages.Render | desafioFalhaSeguranca.js:62-76 | the text returned for each outcome; a success message is `Saída: ` followed by digits that read back as the count, and a format-error message is its wording, then text that reads back as the list of lines, then the pattern rule |
| Messages.TooManyCitesMaximum | desafioFalhaSeguranca.js:63-64 | the too-many message ends with the maximum, 20000 |
| Messages.FormatErrorWording | desafioFalhaSeguranca.js:70-74 | the format-error message uses the singular wording iff exactly one line is at fault, and the plural wording otherwise |
| Messages.RenderInjective | desafioFalhaSeguranca.js:60-78 | two outcomes with the same message are equal: the text tells which check failed, which lines were at fault and how many incidents were counted |

## Left out

- Interactive input and output are not modelled: `createReadLineInterface`, `promptSingleLine`, `promptMultiLine`, `promptEntradas`, `promptSenhas` and `app` (lines 81-241). They are readline plumbing, promises and a console loop that re-runs the check. The model takes `n` and the password list as parameters and returns the outcome.
- `chalk` colouring and the welcome banner are console output from a foreign library.
- `restringirNumeroEntradas` (lines 136-139) parses text with `Number()` into a double and tests `Number.isInteger`. That is floating-point parsing, so the model takes `n` as an integer.
- The globals `numeroEntradas` and `arraySenhasDigitadas` and `reiniciarVariaveisGlobais` (lines 15-16, 190-193) only carry values between prompts. The model passes those values as parameters.
- Messages.DecimalRoundTrip: `DecimalString` writes every integer in plain decimal. JavaScript switches to exponent notation from 10^21 on, far above any count of at most 20000·19999.
- Incidents.Includes: Dafny characters are Unicode scalar values, while JavaScript compares UTF-16 code units. For well-formed strings the two substring relations agree, and validated passwords are ASCII anyway.
