# Contact form: e-mail check and form state

This project models the logic of the contact form in `src/App.js`: the
`App` component holds three text fields (`name`, `email`, `message`) and two
flags that an effect recomputes whenever the form changes. `formIsValid`
holds when the e-mail passes the `emailValidation` regular expression and
name and message are non-empty. `canClear` holds when any field is non-empty.
Three handlers act on the form: `formHandler` replaces one field,
`clearForm` empties all three, and `sendForm` logs the triple and then clears.

The files:

- `wrappers.dfy`: `Option`, for the open upper bound of a repetition.
- `split.dfy`: splitting a string on one character, and its inverse `Join`.
- `regex.dfy`: a small fragment of JavaScript regular expressions with a
  language semantics. It has character classes, concatenation, alternation
  and `{min,max}` repetition. `Matches(r, s)` holds when the whole of `s` is
  in the language of `r`. For an anchored pattern with no back-references or
  look-around, this is exactly when `RegExp.prototype.test` succeeds.
  Characters are code points, as under the `u` flag.
- `email.dfy`: the e-mail check as a structural predicate, `IsEmail`. The
  string splits on `@` into exactly two pieces. The local part is either
  Latin or Cyrillic. The domain splits on `.` into two or three labels.
- `email_pattern.dfy`: `EmailRegex` transcribes the pattern of line 5 into
  the regex fragment. `IsEmailMatchesRegex` proves that it and `IsEmail`
  accept the same strings.
- `email_examples.dfy`: concrete addresses that are accepted or rejected.
- `form.dfy`: the form, the flags, the handlers, and runs of events.

Three details of the code that are easy to misread:

- The Latin inner class `[-0-9A-z\.]` uses the code-point range `A-z`, which
  also admits `[ \ ] ^ _` and the backtick.
- `А-Яа-я` is U+0410..U+044F, which leaves out Ё and ё.
- `sendForm` has no validity check: it logs and clears an invalid form too.

## Model

| member | source | states |
|---|---|---|
| Email.IsEmail | src/App.js:5 | the structural form of the e-mail check: exactly one `@`, a Latin or Cyrillic local part, two or three domain labels; pinned to the source pattern by `EmailPattern.IsEmailMatchesRegex` |
| EmailPattern.EmailRegex | src/App.js:5 | the pattern of line 5 transcribed class by class and quantifier by quantifier; shown equal to `Email.IsEmail` by `EmailPattern.IsEmailMatchesRegex` |
| Regex.OnceMatches | src/App.js:5 | the `{1}` quantifier on a class matches exactly what the class matches |
| Regex.AtLeastClassMatches | src/App.js:5 | `[…]{n,}` matches exactly the strings of at least n characters that are all in the class |
| Regex.OnceOrTwiceSplit | src/App.js:5 | a match of the `{1,2}` group is one match of the group, or two in a row |
| Regex.OnceOrTwiceIntro | src/App.js:5 | one match of the group, or two in a row, is a match of the `{1,2}` group |
| EmailPattern.IsEmailMatchesRegex | src/App.js:5 | for every string, the structural predicate accepts it exactly when the source's anchored regular expression matches it |
| EmailPattern.LocalMatches | src/App.js:5 | the two local-part alternatives match exactly the Latin or Cyrillic local parts: at least 3 characters, alphanumerics of one script at both ends, script-specific inner characters |
| EmailPattern.DomainRegexSound | src/App.js:5 | every string the domain part of the pattern matches is a domain |
| EmailPattern.DomainRegexComplete | src/App.js:5 | the domain part of the pattern matches every domain |
| EmailPattern.EmailRegexSound | src/App.js:5 | every string the whole pattern matches is accepted by the structural predicate |
| EmailPattern.EmailRegexComplete | src/App.js:5 | the whole pattern matches every string the structural predicate accepts |
| EmailPattern.DomainMatches | src/App.js:5 | `([-A-Za-z]{1,}\.){1,2}[-A-Za-z]{2,}` matches exactly the strings that split on `.` into 2 or 3 non-empty `[-A-Za-z]` labels, the last of length at least 2 |
| Email.LabelsDomain | src/App.js:5 | dot-joined dot-free pieces form a domain if and only if there are 2 or 3, all labels, the last one at least 2 long |
| Email.PartsOfEmail | src/App.js:5 | with no other `@`, `l@d` is accepted if and only if `l` is a local part and `d` a domain |
| Email.EmailOfParts | src/App.js:5 | any local part, `@` and domain together form an accepted address |
| Email.OneAt | src/App.js:5 | an accepted address contains exactly one `@` |
| Email.ShortLocalRejected | src/App.js:5 | an `@`-free local part shorter than 3 characters is rejected, whatever follows the `@` |
| Email.NoMixedScripts | src/App.js:5 | no accepted local part holds both a Latin and a Cyrillic letter, at any two positions |
| Email.MixedEndsRejected | src/App.js:5 | a local part with a Latin letter at one end and a Cyrillic letter at the other is rejected |
| Email.DomainIsLatin | src/App.js:5 | a domain holds no Cyrillic letter and no digit |
| Email.CyrillicDomainRejected | src/App.js:5 | a string containing a Cyrillic letter is not a domain |
| Email.DomainAlphabet | src/App.js:5 | every character of a domain is a dot, a hyphen or a Latin letter |
| EmailExamples.AcceptAddress | src/App.js:5 | a valid local part, `@`, and two or three labels with a final label of length at least 2 form an accepted address |
| EmailExamples.AddressOfPieces | src/App.js:5 | an address given as local part and domain pieces is accepted exactly when the local part is valid and the pieces form a domain |
| EmailExamples.AcceptsDottedLocal | src/App.js:5 | `a.b@example.com` is accepted |
| EmailExamples.AcceptsUnderscore | src/App.js:5 | `a_b@example.com` is accepted, because `_` is in the range `A-z` |
| EmailExamples.AcceptsSubdomain | src/App.js:5 | `user@sub.example.com` is accepted |
| EmailExamples.AcceptsCyrillicLocal | src/App.js:5 | a Cyrillic local part with a Latin domain is accepted |
| EmailExamples.RejectsShortLocal | src/App.js:5 | `ab@example.com` is rejected |
| EmailExamples.RejectsSingleLabel | src/App.js:5 | `user@example` is rejected |
| EmailExamples.RejectsEmptyLabel | src/App.js:5 | `user@.com` is rejected |
| EmailExamples.RejectsDigitInDomain | src/App.js:5 | `user@mail1.com` is rejected |
| EmailExamples.RejectsThreeSubdomains | src/App.js:5 | `user@a.b.c.com` is rejected |
| EmailExamples.RejectsCyrillicDomain | src/App.js:5 | a Cyrillic domain is rejected even after a Cyrillic local part |
| EmailExamples.RejectsMixedScripts | src/App.js:5 | a Latin first and Cyrillic last character in the local part is rejected |
| EmailExamples.RejectsCyrillicInside | src/App.js:5 | `aбc@example.com` is rejected: a Cyrillic letter inside a Latin-framed local part |
| EmailExamples.RejectsYo | src/App.js:5 | a local part starting with ё is rejected |
| ContactForm.Mount | src/App.js:6-12 | the initial state is the empty form with both flags false, and the flags already agree with the form |
| ContactForm.Effect | src/App.js:14-31 | the recomputed `formIsValid` holds exactly when the source regex matches the e-mail and name and message are non-empty; `canClear` is false exactly for the empty triple; valid implies clearable |
| ContactForm.IsValid | src/App.js:16-20 | the condition `formIsValid` is set from: the e-mail passes the check and name and message are non-empty; `ContactForm.Effect` states it against the source pattern |
| ContactForm.CanClear | src/App.js:26 | the condition `canClear` is set from: some field is non-empty; `ContactForm.Effect` and `ContactForm.CannotClearIffEmpty` state it is false exactly for the empty form |
| ContactForm.Settled | src/App.js:14-31 | the state after the effect has run: both stored flags equal their derived values; `ContactForm.Effect`, `Mount`, `FormHandler`, `ClearForm` and `Run` establish it |
| ContactForm.EmptyFieldInvalid | src/App.js:16-24 | a form with any one field empty is invalid |
| ContactForm.CannotClearIffEmpty | src/App.js:26-30 | `canClear` is false exactly when all three fields are empty |
| ContactForm.SetField | src/App.js:35 | the named field takes the new value and the other two keep theirs |
| ContactForm.SetFieldSameValue | src/App.js:35 | writing a field's own value back leaves the form unchanged |
| ContactForm.SetFieldOverwrite | src/App.js:35 | a second write to the same field overrides the first |
| ContactForm.SetFieldCommute | src/App.js:35 | writes to different fields commute |
| ContactForm.FormHandler | src/App.js:34-36 | after a change event the field holds the value, the other fields are unchanged, and the flags agree with the new form |
| ContactForm.ClearForm | src/App.js:38-44 | from any state, all fields become empty and both flags become false |
| ContactForm.ClearIdempotent | src/App.js:38-44 | clearing twice is the same as clearing once, and clearing the settled empty form changes nothing |
| ContactForm.SendForm | src/App.js:46-50 | the logged value is exactly the triple before the call, and the next state is the empty form with both flags false, valid or not |
| ContactForm.FillInMakesValid | src/App.js:14-36 | typing a non-empty name, an accepted address and a non-empty message from any state gives a valid form holding those values |
| ContactForm.Run | src/App.js:14-50 | after any run of change, clear and submit events the flags agree with the form; one form is logged per submit; a run ending in a submit ends with the empty form |
| ContactForm.ReachableSettled | src/App.js:6-31 | every state reachable from mount has flags that agree with its form |

## Left out

- Rendering (the JSX and the styled-components CSS, src/App.js:52-253) is presentational and not modelled.
- `console.log` in `sendForm` is not modelled as I/O. `SendForm` returns the logged triple as a value instead.
- React scheduling is not modelled. Between `setForm` and the effect there is a render in which the stored flags are stale. The model shows only the state after the effect has run.
- The browser's `required` and `type="email"` checks and the disabled-button gating are browser behaviour. The model does not show them, and `sendForm` itself has no guard.
- `event.preventDefault` is not modelled. `event.target.name` becomes the three-valued `Field`.
- Length is counted in code points, not UTF-16 code units. Only emptiness of `name` and `message` matters, and the `u` flag makes the regex work on code points. Lone surrogates cannot be written as a Dafny `char` and are not covered.
