# NativeKiln: secrets, logins, sessions, credentials and lifecycles

A model of the parts of NativeKiln that carry guarantees, and proofs of those guarantees for all
inputs, runs and interleavings. `dafny verify dfyconfig.toml` checks the whole project.

**The secret redactor** (`Scan`, `OwnPass`, `ByLength`, `Tokens`, `Survival`, `Pattern`, `Utf8`, `Base64`,
`Hex`, `Redaction`, `RedactionTheorems`, `Straddling`, `StraddlingInputs`, `RedactionInputs`,
`Ordering`). Strings are sequences of 16-bit code units. A secret gives rise to itself, its base64,
base64url and percent-encoded forms; forms shorter than six are dropped, the rest sorted longest first,
and each is replaced globally by `[REDACTED]`, every pass working on the output of the one before,
markers included. The passes are loops proved against `Replace`, the leftmost non-overlapping scan of
section 22.2.6.11 of ECMA-262. The key idea is in `Tokens`: the same passes
are run on tokens, where a cut-out piece is a hole that remembers it. As long as no kept value can
overlap a marker (`MarkerSafe`, a finite check on the values), text and tokens stay in step, and on
tokens a hole is a barrier. Everything else follows: conservation, nothing survives, idempotence,
order independence, the longest match, the size bound.

Two promises hold with exceptions, which the description at the head of the source file does not
mention; the model follows the code, and each exception is given as an input of `redactSecrets`.

* *Known values are redacted.* A value that cannot overlap a marker never survives, whatever the other
  secrets are. A value that is a piece of the marker does survive (the secret `REDACT` shows in its own
  marker). For secrets without square brackets there is nothing in between, and the condition is exact.
  With brackets a value can straddle a marker's edge. For all secrets it then survives only if it
  `CanSurvive`, a finite check: it meets a marker at an offset, the value whose marker that is, itself or
  one that is looked for later, can be found there, and no value that is sure to be gone by then is needed
  in the text that this offset dictates. It does survive if that text is not spoilt at all (`Visible`,
  again finite). When a single value straddles, and no later value overlaps it, the two agree, and nothing
  survives on any text if and only if it is not visible; for a single secret nothing more is needed, and
  idempotence has the same condition. So `]abcde` survives and seven opening brackets do not; with
  `eabcde` given before it `]abcde` does not, with `xxxxxx` as a second secret the brackets do after all,
  and with `[[[[[[xxxxxx` as a third they do not.
* *Overlapping values redact the largest match.* Between values of one length the order of the secrets
  decides: `abcdef` and `defghi` given the other way round redact `abcdefghi` differently. Two lists of
  the same secrets agree on every text if no two kept values overlap that change places from one list to
  the other, and only if, unless other kept values hide every text in which they overlap.

**The login rate limiter** (`RateLimit`, `RateLimitTheorems`). INCR, EXPIRE and DEL are separate
atomic steps, interleaved over any number of calls, with time passing, keys expiring and calls
crashing between their two steps. Every attempt is dated at its INCR, whose result decides it; a
response may be delivered arbitrarily later, so no bound holds for the times of responses. In any
interval of L ms with c clears at most `5 * (ceil(L/P) + c) + 4` attempts of one identifier are let
through, where P is the window and one millisecond, and 4 fewer when L leaves remainder 1 on division
by P. This is exact: for every L and c a run reaches it. Without a clear it is nine in any fifteen
minutes; the code's comment calls the window "sliding fixed", but it is fixed. The bound needs no
assumption about crashes. The absence of stuck counters does: a counter is stuck if and only if a step
of the run crashed the last call that owed it a deadline and it was not cleared since. It then counts
up, for ever, until it is cleared; after the clear the identifier is healthy again, and stays so as
long as none of its own calls crashes.

**Sessions** (`Sessions`, `SessionTheorems`). The table with lazy deletion and best-effort updates is
proved equivalent to a specification over the history of creations and revocations, for every
interleaving of the separate database steps. Token hashes are assumed to be different for the tokens
in play, and tokens and ids never to be drawn twice; `ReuseIsObservable` shows that the freshness
assumption is needed. The clock never goes backwards.

**Logging in** (`Auth`). The order of limiter, password check, reset and session creation, and the
identifiers that keep the counters apart. That they do needs e-mails without a colon, and the e-mail
format that the login schema demands (auth.controller.ts:14) admits no colon.

**Credentials** (`Credentials`, `Utf8`, `Base64`, `Hex`). Versioned keys over an abstract authenticated cipher of
which only open-after-seal is assumed, with hexadecimal, base64 and UTF-8 written out. `safeEquals` is
string equality on strings without lone surrogates; the exact condition is proved.

**Lifecycles** (`PathMachine`, `BuildStates`, `SubmissionStates`). The loops that build the transition
map, for any path and abort list, and the exact languages of accepted runs.

What the encodings, limits, times, keys and tables of moves are is stated in literals or in closed form,
independently of the functions and constants that compute them.

Times are milliseconds. Randomness, clocks and the outcome of the password check are parameters.
Redis keeps a key up to and including the millisecond of its deadline. Base64 decoding follows
`Buffer.from`: both alphabets, other characters skipped, stop at the first padding character.

## Model

| member | source | states |
|---|---|---|
| Pattern.EscapingIsExact | packages/shared/src/redaction.ts:9-11 | for every value, the escaped pattern read by the ECMA-262 pattern grammar is exactly that value's characters as literals: nothing is left special and nothing is lost |
| Pattern.EscapingIsInjective | packages/shared/src/redaction.ts:9-11 | different values never compile to the same pattern |
| Pattern.EscapeFront | packages/shared/src/redaction.ts:9-11 | a backslash goes in front of exactly the fourteen characters of the class, spelt out, and nothing else changes |
| Redaction.EncodedVariants | packages/shared/src/redaction.ts:14-29 | the variants are exactly the secret, its base64, base64url and (if it has no lone surrogate) percent-encoded form, of length six or more, each once, in order of insertion |
| Hex.PercentRoundTrip | packages/shared/src/redaction.ts:23 | percent encoding stands for exactly the UTF-8 octets of the secret |
| Hex.EncodeUriFront | packages/shared/src/redaction.ts:22-26 | character by character: a lone surrogate makes the encoding fail, unreserved characters stay, of all others every UTF-8 byte becomes a percent sign and two upper-case digits |
| Hex.UnreservedIs | packages/shared/src/redaction.ts:23 | the unreserved characters are the letters, the digits and nine marks, spelt out |
| Hex.PercentKeepsIff | packages/shared/src/redaction.ts:23 | percent encoding leaves exactly the texts of unreserved characters as they are |
| Base64.RoundTrip | packages/shared/src/redaction.ts:17-18 | base64 and base64url both decode to the bytes that were encoded |
| Base64.EncodeShape | packages/shared/src/redaction.ts:17-18 | each encoding keeps to its own alphabet, only base64 is padded, and the length of both |
| Base64.EncodeAt | packages/shared/src/redaction.ts:17-18 | every character in closed form: the letter of the RFC 4648 table, spelt out, for the six bits from bit 6i on, with zeros after the last byte, and `=` exactly behind the last one |
| Base64.LeftOverIsZero | packages/shared/src/redaction.ts:17-18 | the left-over bits of the last character are zero |
| Base64.EncodeIsOnly | packages/shared/src/redaction.ts:17-18 | no other text of the alphabet with zero left-over bits and that padding decodes to the same bytes |
| Redaction.KeptValuesAre | packages/shared/src/redaction.ts:34-44 | a value is looked for iff it is a long enough variant of a non-empty secret; each once; never a shorter before a longer one |
| Redaction.KeptIff | packages/shared/src/redaction.ts:14-39 | the same in full: six or more characters, and a non-empty secret, its base64, base64url or percent-encoded form |
| Redaction.MarkerIs | packages/shared/src/redaction.ts:7 | the marker reads `[REDACTED]` |
| ByLength.SortKeepsPlaces | packages/shared/src/redaction.ts:41-42 | of two values of one length the one added first is looked for first |
| ByLength.SortKeepsAll | packages/shared/src/redaction.ts:41-42 | sorting loses and duplicates nothing |
| Redaction.CollectValues | packages/shared/src/redaction.ts:35-39 | the nested loops collect the values of all secrets, skipping empty ones, without duplicates and in insertion order |
| Redaction.Compile | packages/shared/src/redaction.ts:41-43 | every pattern matches its own value literally, in the sorted order |
| Redaction.GlobalReplace | packages/shared/src/redaction.ts:48 | the scan by `lastIndex` replaces exactly the leftmost non-overlapping matches |
| Redaction.Redactor.constructor | packages/shared/src/redaction.ts:34-44 | the redactor's patterns stand for the kept values of the secrets, longest first |
| Redaction.Redactor.Redact | packages/shared/src/redaction.ts:46-50 | the loop makes one pass per value in that order, each on the last one's output |
| Redaction.RedactSecrets | packages/shared/src/redaction.ts:54-56 | the one-off form gives the text to which all theorems below apply |
| RedactionTheorems.Conservation | packages/shared/src/redaction.ts:46-50 | the input is pieces of text and kept values in turn; the output has a marker for each of those values and is otherwise the same; no kept value is left between the cuts |
| RedactionTheorems.KeptValueGone | packages/shared/src/redaction.ts:40-50 | a kept value that cannot overlap a marker does not occur in the output, whatever the other secrets are |
| RedactionTheorems.NothingSurvives | packages/shared/src/redaction.ts:40-50 | if no kept value can overlap a marker none occurs in the output, not even across an inserted marker or re-created by a later pass |
| RedactionTheorems.NoVariantSurvives | packages/shared/src/redaction.ts:1-5 | no secret and none of its encodings that cannot overlap a marker occurs in the output, unless shorter than six |
| RedactionTheorems.NeverSurvivesIff | packages/shared/src/redaction.ts:46-50 | a kept value that does not straddle a marker's edge never survives iff it is not a piece of the marker, whatever the other secrets are |
| RedactionTheorems.CleanOnlyIf | packages/shared/src/redaction.ts:46-50 | for all secrets: nothing survives on every text only if no kept value is a piece of the marker |
| RedactionTheorems.NothingSurvivesIff | packages/shared/src/redaction.ts:46-50 | when no kept value straddles the marker's edge: nothing survives on any text iff no kept value is a piece of the marker |
| RedactionTheorems.BracketFreeStraddlesNot | packages/shared/src/redaction.ts:7-29 | secrets without square brackets meet that condition, with all their encodings |
| RedactionTheorems.PieceOfMarkerSurvives | packages/shared/src/redaction.ts:46-50 | the counterexample: a kept value inside the marker's text survives its own redaction, whatever the other secrets |
| Straddling.SurvivesOnlyIf | packages/shared/src/redaction.ts:40-50 | for all secrets: a value survives only if the marker of its own pass or of a later one can complete it, in a text that needs no value which is gone by then, and no value that is gone in the end lies inside it |
| Straddling.ValueIff | packages/shared/src/redaction.ts:40-50 | for all secrets: a value never survives iff no text dictated by an offset shows it, if it can survive only when one does |
| Straddling.StraddlerIff | packages/shared/src/redaction.ts:40-50 | if one value can overlap a marker, wherever it stands, and no later one overlaps it: nothing survives on any text iff none of its texts shows it |
| Straddling.LaterApart | packages/shared/src/redaction.ts:40-50 | later values that cannot overlap it meet that condition |
| Straddling.OneStraddlerDecided | packages/shared/src/redaction.ts:40-50 | such lists are among those of ManyStraddlersIff |
| Straddling.LastForeignIff | packages/shared/src/redaction.ts:40-50 | the simpler condition for the value looked for last: if all others have a character it lacks, a text shows it iff its own pass can leave it |
| Straddling.EarlierForeignIff | packages/shared/src/redaction.ts:40-50 | the simpler condition for an earlier value: if the last one and all others have characters it lacks, a text shows it iff it can overlap a marker |
| Straddling.ManyStraddlersIff | packages/shared/src/redaction.ts:40-50 | with any number of values that straddle a marker's edge: nothing survives on any text iff no kept value can, if a text shows some survivor in case one can |
| Straddling.ForeignStraddlersIff | packages/shared/src/redaction.ts:40-50 | a condition on characters that makes all of this visible: then nothing survives iff the last value cannot be left by its own pass and no other overlaps a marker |
| Straddling.EarlierForeign | packages/shared/src/redaction.ts:40-50 | which text shows that an earlier value survives, when the last value and all others have characters that it lacks |
| Straddling.EncodingApart | packages/shared/src/redaction.ts:14-29 | no base64, base64url or percent-encoded form of a secret of six or more characters can overlap a marker, unless it is the secret itself |
| Straddling.OneStraddlerIff | packages/shared/src/redaction.ts:40-50 | if only the value looked for last can overlap a marker: nothing survives on any text iff none of its texts shows it |
| Straddling.OneSecretIff | packages/shared/src/redaction.ts:46-56 | for every single secret of six or more characters: nothing survives on any text iff none of its texts shows it, which takes that its own pass can leave it |
| Straddling.BracketFreeVisible | packages/shared/src/redaction.ts:46-56 | for a single secret without brackets that is: iff it is not a piece of the marker, or iff its own pass cannot leave it |
| Straddling.StraddlerIdempotentIff | packages/shared/src/redaction.ts:46-50 | in the case of StraddlerIff redaction is idempotent iff the value is the marker itself or none of its texts shows it |
| Straddling.LastIdempotentIff | packages/shared/src/redaction.ts:46-50 | if only the last value can overlap a marker, the same |
| Straddling.OneSecretIdempotentIff | packages/shared/src/redaction.ts:46-56 | for every single secret of six or more characters, brackets or not, the same |
| StraddlingInputs.RedactSurvives | packages/shared/src/redaction.ts:46-56 | the counterexample: the single secret `REDACT` survives its own redaction |
| StraddlingInputs.StraddlingSurvives | packages/shared/src/redaction.ts:46-56 | the counterexample with a bracket: for the single secret `]abcde`, no piece of the marker, a marker and the text after it spell the secret again |
| StraddlingInputs.FirstSecretHides | packages/shared/src/redaction.ts:34-56 | with `eabcde` given before it `]abcde` never survives, though its own pass can leave it |
| StraddlingInputs.HarmlessOverlap | packages/shared/src/redaction.ts:46-56 | overlapping the marker need not be harmful: for the single secret of seven opening brackets nothing ever survives |
| StraddlingInputs.SecondSecretHarms | packages/shared/src/redaction.ts:46-56 | but with the secret `xxxxxx` beside it the brackets survive: the later pass puts a marker behind six of them |
| StraddlingInputs.PairForeign | packages/shared/src/redaction.ts:46-56 | those two secrets meet the condition of ForeignStraddlersIff |
| StraddlingInputs.ThirdSecretHelps | packages/shared/src/redaction.ts:46-56 | and with `[[[[[[xxxxxx` as a third secret nothing survives on any text, though the brackets still overlap the marker |
| StraddlingInputs.MarkerAsSecret | packages/shared/src/redaction.ts:46-56 | with the marker itself as the secret, a piece of the marker, redaction is idempotent all the same |
| OwnPass.PassFixedIff | packages/shared/src/redaction.ts:48 | a global replace leaves a text as it is iff the value does not occur in it or is replaced by itself |
| OwnPass.Made | packages/shared/src/redaction.ts:48 | a global replace produces a value that was not there, or leaves its own, only where the value meets the replacement; the text had there the value's left part, what is replaced, and something from which the pass makes the right part |
| OwnPass.NeverLeftIff | packages/shared/src/redaction.ts:48 | exactly when a global replace leaves, on every text, no occurrence of the value that it replaces, for any value and replacement |
| RedactionTheorems.CleanTextUnchanged | packages/shared/src/redaction.ts:46-50 | text without kept values comes back unchanged, for any secrets |
| RedactionTheorems.UnchangedIff | packages/shared/src/redaction.ts:46-50 | for secrets that are marker-safe, or that have no brackets, the output equals the input iff there was nothing to redact |
| RedactionTheorems.Idempotent | packages/shared/src/redaction.ts:46-50 | redacting the output again changes nothing |
| RedactionTheorems.IdempotentIff | packages/shared/src/redaction.ts:46-50 | for secrets without brackets redaction is idempotent on all texts iff no kept value is a piece of the marker |
| RedactionTheorems.MarkerSafeIff | packages/shared/src/redaction.ts:7 | when no kept value straddles the marker's edge the no-overlap hypothesis is just that no kept value is a piece of the marker |
| Ordering.OrderIndependent | packages/shared/src/redaction.ts:34-50 | order and repetition of the secrets do not matter when kept values that stand in opposite order in the two lists cannot overlap |
| Ordering.OrderIndependentByLength | packages/shared/src/redaction.ts:34-50 | the plain promise: two lists of the same marker-safe secrets agree on all texts if no two kept values of one length overlap |
| Ordering.OrderIndependentIff | packages/shared/src/redaction.ts:34-50 | that condition is exact, for lists of any length, if some text in which such values overlap holds no other kept value |
| Ordering.OrderShows | packages/shared/src/redaction.ts:40-56 | any two secrets of one length that overlap in a text without other kept values are redacted differently there when given the other way round |
| Ordering.OrderMatters | packages/shared/src/redaction.ts:40-56 | the input: `abcdefghi` with `abcdef` and `defghi` in the two orders |
| Ordering.PassesCommuteIff | packages/shared/src/redaction.ts:46-49 | two passes alone, for values of one length that cannot overlap a marker, agree in both orders on all texts iff the values cannot overlap |
| RedactionTheorems.LongestMatchWins | packages/shared/src/redaction.ts:40-48 | an occurrence that no other occurrence of an equally long or longer value touches is redacted whole, and both sides as if they stood alone, whatever shorter values overlap it |
| RedactionInputs.LongestAlone | packages/shared/src/redaction.ts:40-56 | a kept value that is longer than all others becomes a marker when it stands alone, for marker-safe secrets |
| RedactionInputs.LowerSafe | packages/shared/src/redaction.ts:7-29 | every secret of six or more small letters and digits is marker-safe |
| RedactionInputs.HunterRedacted | packages/shared/src/redaction.ts:14-56 | end to end: with the secret `hunter2` the text `aHVudGVyMg==` becomes `[REDACTED]` |
| RedactionTheorems.SizeBound | packages/shared/src/redaction.ts:28-48 | the output is at most five thirds of the input |
| RedactionTheorems.SizeBoundAlways | packages/shared/src/redaction.ts:28-48 | without hypothesis, n kept values lengthen a text by at most (10/6)^n |
| Scan.ApartIff | packages/shared/src/redaction.ts:40 | the finite overlap check on two values says exactly that their occurrences never share a position in any text |
| Scan.Commute | packages/shared/src/redaction.ts:46-49 | two global replacements commute when their values cannot overlap |
| Survival.BehindPass | packages/shared/src/redaction.ts:48 | what occurs once a pass has been made behind some text occurred before, if it cannot overlap the replacement |
| Survival.PassesRemove | packages/shared/src/redaction.ts:46-49 | over any series of passes a value that cannot overlap the replacement is gone after its own pass and never comes back |
| Scan.NoneLeft | packages/shared/src/redaction.ts:48 | one pass leaves no occurrence of its own value, when the replacement is a fresh mark |
| Scan.ReflectContains | packages/shared/src/redaction.ts:48 | one pass creates no occurrence of any other value, when the replacement is a fresh mark |
| Tokens.PassSimulates | packages/shared/src/redaction.ts:46-49 | a pass over text with markers does what it would do over text with barriers, if the value cannot overlap the marker |
| Tokens.OrderIrrelevant | packages/shared/src/redaction.ts:41-49 | two lists of the same values cut out the same pieces if values that change places cannot overlap |
| Tokens.EqualLengthsSuffice | packages/shared/src/redaction.ts:40-42 | in longest-first lists it is enough that values of one length cannot overlap |
| Tokens.LongestWins | packages/shared/src/redaction.ts:40-48 | the longest-match property, for a text in which passes have already cut holes |
| RateLimit.Redis.Incr | apps/api/src/auth/rate-limit.service.ts:15 | a live counter goes up by one and keeps its deadline, a missing or expired one starts at one with none; the new count is returned |
| RateLimit.Redis.Expire | apps/api/src/auth/rate-limit.service.ts:17 | a live counter expires fifteen minutes from now; a missing key is left missing |
| RateLimit.Redis.Del | apps/api/src/auth/rate-limit.service.ts:25 | the counter is gone, all others are untouched |
| RateLimit.RateLimitService.AssertLoginAllowed | apps/api/src/auth/rate-limit.service.ts:13-22 | one attempt is counted, the window opens with the first, and the call is refused iff the count is over five |
| RateLimit.RateLimitService.Clear | apps/api/src/auth/rate-limit.service.ts:24-26 | clearing removes that identifier's counter only |
| RateLimitTheorems.RunKeepsInv | apps/api/src/auth/rate-limit.service.ts:13-26 | over every run, with crashes: a counter's value is the number of attempts since its first and since the last clear; its deadline is at least a window after its first attempt, not before its last, and at most a window from now |
| RateLimitTheorems.RateBound | apps/api/src/auth/rate-limit.service.ts:5-22 | at most 5 * (ceil(L/P) + c) + 4 attempts of one identifier in any L ms with c clears, P being fifteen minutes and 1 ms, and 4 fewer if L leaves remainder 1; over every interleaving, even with crashes |
| RateLimitTheorems.NineInAWindow | apps/api/src/auth/rate-limit.service.ts:5-8 | at most nine in any fifteen minutes without a clear |
| RateLimitTheorems.BoundIsMet | apps/api/src/auth/rate-limit.service.ts:8-22 | for every L and every c a run from the start that reaches that bound |
| RateLimitTheorems.RefusedAfterFive | apps/api/src/auth/rate-limit.service.ts:19-21 | a refused attempt comes after exactly five that were let through since its counter started, with no clear in between |
| RateLimitTheorems.StepMakesStuckIff | apps/api/src/auth/rate-limit.service.ts:15-18 | a step of any kind makes a healthy identifier stuck iff it crashes the last call that owes its counter a deadline |
| RateLimitTheorems.StuckIff | apps/api/src/auth/rate-limit.service.ts:13-26 | over every run: a counter is stuck iff some step was such a crash and the identifier has not been cleared since |
| RateLimitTheorems.NeverStuck | apps/api/src/auth/rate-limit.service.ts:13-26 | from any state in which an identifier is not stuck, as after a clear, it does not become so unless one of its own calls crashes |
| RateLimitTheorems.QuietHasDeadlines | apps/api/src/auth/rate-limit.service.ts:13-22 | if in addition all its calls have finished, its counter has a deadline at most fifteen minutes away |
| RateLimitTheorems.FreeAfterWindowIff | apps/api/src/auth/rate-limit.service.ts:13-22 | when no call of an identifier is under way, an attempt more than fifteen minutes later counts as the first iff the identifier is not stuck |
| RateLimitTheorems.CrashSticks | apps/api/src/auth/rate-limit.service.ts:15-18 | one crash between INCR and EXPIRE of a first attempt leaves a stuck counter |
| RateLimitTheorems.StuckUntilClear | apps/api/src/auth/rate-limit.service.ts:15-21 | a stuck counter stays stuck over every run without a clear, however much time passes, and counts every further attempt |
| RateLimitTheorems.Independence | apps/api/src/auth/rate-limit.service.ts:14-18 | any run, seen from one identifier, is the run of that identifier's own steps |
| Auth.AuthController.Login | apps/api/src/auth/auth.controller.ts:33-69 | refused iff the count for `<address or unknown>:<e-mail>` is over five; otherwise unauthorized iff the check fails, and the attempt stays counted; otherwise the counter is cleared, and the login succeeds with one new session of twelve hours iff token hash and id are free; in every error case the session table is untouched |
| Auth.AuthController.Logout | apps/api/src/auth/auth.controller.ts:71-81 | a non-empty cookie's session is removed, anything else removes nothing |
| Auth.IdentifierUnique | apps/api/src/auth/auth.controller.ts:38-42 | the identifier determines address and e-mail, IPv6 addresses included, when the e-mail has no colon, as the login schema ensures |
| Auth.PairsApart | apps/api/src/auth/auth.controller.ts:38-42 | no step for one pair of address and e-mail changes anything that concerns another pair |
| Auth.LockedOutIff | apps/api/src/auth/auth.controller.ts:39-42 | after n failures within fifteen minutes of the first the next login reaches the password check iff n is below five or more than fifteen minutes have passed since the first |
| Auth.FailuresRun | apps/api/src/auth/auth.controller.ts:39-42 | such a series of calls is a run of the limiter's protocol with the same store |
| Sessions.SessionService.Create | apps/api/src/auth/session.service.ts:26-43 | one row is added, expiring twelve hours after the clock; a duplicate token hash or id is refused and changes nothing |
| Sessions.SessionService.Validate | apps/api/src/auth/session.service.ts:46-67 | succeeds iff there is a row and the clock is before its expiry; an expired row is deleted, a live one only gets a new last-seen time |
| Sessions.SessionService.Revoke | apps/api/src/auth/session.service.ts:69-73 | the token's row is removed and no other |
| Sessions.ValidateIsRun | apps/api/src/auth/session.service.ts:46-67 | an uninterrupted validation is the run of its separate database steps |
| SessionTheorems.RunKeepsInv | apps/api/src/auth/session.service.ts:26-73 | over every interleaving: a row belongs to a session created and not revoked, with its id, user and expiry unchanged; a session without a row has expired; what each call read and answered agrees with the history |
| SessionTheorems.ValidateAnswers | apps/api/src/auth/session.service.ts:46-67 | over every interleaving a validation's answer is that of the history at its read and the clock at its check: lazy deletes and late updates are unobservable |
| SessionTheorems.ValidateNow | apps/api/src/auth/session.service.ts:26-67 | uninterrupted, a token's row is there and live iff some creation of the token read its clock less than twelve hours ago and nothing happened to the token since |
| SessionTheorems.CurrentMeans | apps/api/src/auth/session.service.ts:26-73 | the history's session of a token is its creation with no event of the token after it |
| SessionTheorems.ExpiryIsCreation | apps/api/src/auth/session.service.ts:31-39 | every session's expiry is twelve hours after the clock that its creation read |
| SessionTheorems.FreshCreateSucceeds | apps/api/src/auth/session.service.ts:30-42 | a creation with a fresh token and id is never refused |
| SessionTheorems.RevocationIsFinal | apps/api/src/auth/session.service.ts:69-73 | after a revocation the row never comes back, and every validation that reads later answers null |
| SessionTheorems.DeletesOnlyExpired | apps/api/src/auth/session.service.ts:52-54 | a delete decided on earlier and sent late removes nothing but an expired row |
| SessionTheorems.NoRowFromNowhere | apps/api/src/auth/session.service.ts:46-73 | from any state and over any run, a row that the run did not create was there before, with the same id, user and expiry |
| SessionTheorems.ReuseIsObservable | apps/api/src/auth/session.service.ts:30-42 | lazy deletion can be observed by an insert iff it draws a used token whose row has expired |
| Credentials.ParseKeyIff | packages/credentials/src/index.ts:32-41 | a key is accepted iff it is 64 hexadecimal digits, and is then the 32 bytes that the digits spell in pairs; the length check after decoding never fails |
| Hex.DigitIs | packages/credentials/src/index.ts:33 | digits of both cases are read, spelt out, and nothing else |
| Hex.DecodeAt | packages/credentials/src/index.ts:36 | byte i is read off digits 2i and 2i + 1 |
| Credentials.ParseKeyReads | packages/credentials/src/index.ts:32-41 | every 32-byte key is read back from its hexadecimal form |
| Credentials.NewCipher | packages/credentials/src/index.ts:49-72 | the constructor fails iff the master key or some previous key is malformed; the cipher it makes finds the master key under the current version, for every other version the key of its last entry, and for no other version any |
| Credentials.KeyMapIff | packages/credentials/src/index.ts:57-59 | previous keys are accepted iff all of them are well formed |
| Credentials.LastKeyCounts | packages/credentials/src/index.ts:57-59 | a version's key is that of its last entry |
| Credentials.EncryptStores | packages/credentials/src/index.ts:74-86 | what is stored is the current version and, in standard base64, the nonce that was drawn and the ciphertext and tag made under it of the bytes of the string or buffer |
| Credentials.RecordsKeep | packages/credentials/src/index.ts:7-10 | over every run there is one record for each encryption, in order, with its own nonce |
| Credentials.NoncesStayApart | packages/credentials/src/index.ts:7-10 | over every run, encryptions with different nonces are stored with different nonces |
| Credentials.DecryptsStored | packages/credentials/src/index.ts:88-104 | for any stored value, as bytes and as a string: no key for the version, then a tag that is not 16 bytes, then a failed authentication, in this order, and otherwise the opened plaintext; no failure is answered with a plaintext |
| Base64.ValueIs | packages/credentials/src/index.ts:90-96 | decoding reads both alphabets, spelt out |
| Base64.DecodeSkips | packages/credentials/src/index.ts:90-96 | characters of neither alphabet are passed over |
| Base64.DecodeStops | packages/credentials/src/index.ts:90-96 | the first padding character ends the text |
| Base64.UnpackAt | packages/credentials/src/index.ts:90-96 | every decoded byte in closed form; left-over bits are dropped |
| Credentials.RoundTrip | packages/credentials/src/index.ts:74-100 | a value is decrypted to its plaintext by any cipher that finds its key under its version |
| Credentials.RotationKeepsKeys | packages/credentials/src/index.ts:57-72 | rotation with all earlier keys kept leaves the key of every version but the new one as it was; the new version has the new key, so one that is used again loses its old key |
| Credentials.EverythingStillDecrypts | packages/credentials/src/index.ts:7-10 | over every history of encryptions and rotations to new versions every record still decrypts to its plaintext; a string comes back as itself iff it has no lone surrogate |
| Credentials.UnknownVersionRefused | packages/credentials/src/index.ts:62-104 | decryption, to bytes or to a string, reports a missing key iff the version was never used |
| Credentials.SafeEqualsIff | packages/credentials/src/index.ts:108-113 | true iff both strings spell the same scalars; on strings without lone surrogates, iff they are equal |
| Credentials.SafeEqualsIsEqualityIff | packages/credentials/src/index.ts:108-113 | comparing with a given string is string equality iff that string has neither a lone surrogate nor U+FFFD |
| Utf8.ScalarsRoundTrip | packages/credentials/src/index.ts:77 | decoding undoes UTF-8 encoding |
| Utf8.EncodeFront | packages/credentials/src/index.ts:77 | code unit by code unit: a surrogate pair is one scalar, a lone surrogate becomes EF BF BD |
| Utf8.EncodeScalarIs | packages/credentials/src/index.ts:77 | the table of RFC 3629: how many bytes, their leads, and the payload bits |
| Utf8.UnitsAre | packages/credentials/src/index.ts:102-104 | a decoded scalar is spelt with one code unit or the surrogate pair that stands for it |
| Utf8.DecodeFrontIs | packages/credentials/src/index.ts:102-104 | what is not the encoding of a scalar reads as U+FFFD, for as many bytes as could still begin one and at least one |
| Utf8.DecodeStep | packages/credentials/src/index.ts:102-104 | a byte string is read so from front to back |
| Utf8.RoundTripIff | packages/credentials/src/index.ts:102-104 | a string comes back from its UTF-8 bytes iff it has no lone surrogate |
| Hex.RoundTrip | packages/credentials/src/index.ts:36 | hexadecimal decoding undoes encoding |
| PathMachine.BuildTransitionMap | packages/shared/src/build-state.ts:48-65 | for any states, path and aborts the loops yield exactly the path's steps and the aborts from states that are not terminal |
| PathMachine.AddAborts | packages/shared/src/build-state.ts:59-62 | the nested loop adds every abort to every state that is not terminal and changes nothing else |
| PathMachine.ChangesMean | packages/shared/src/build-state.ts:69-72 | what a run is, repeats aside: its changes have no repetitions, and the run is they with some of them repeated |
| PathMachine.RunLanguage | packages/shared/src/build-state.ts:48-83 | for any duplicate-free path and disjoint aborts: a run is accepted iff, repeats aside, it is a prefix of the path, or a prefix short of the end and one abort |
| PathMachine.FewChanges | packages/shared/src/build-state.ts:48-83 | an accepted run changes state fewer times than the path has states |
| BuildStates.BuildLanguage | packages/shared/src/build-state.ts:33-83 | the build lifecycle's accepted sequences from QUEUED, exactly; at most nine changes |
| BuildStates.BuildTransitions | packages/shared/src/build-state.ts:33-72 | the map built from the lifecycle's own constants accepts exactly those sequences |
| BuildStates.BuildMoves | packages/shared/src/build-state.ts:67-83 | the table of moves in full, and that every other move is refused naming its two states |
| BuildStates.BuildRuns | packages/shared/src/build-state.ts:33-83 | a build that succeeded went through the nine stages, spelt out, in order; any other run stopped or was aborted after some of them |
| BuildStates.TerminalIff | packages/shared/src/build-state.ts:22-27 | a state is listed as terminal iff no other state can be reached from it |
| SubmissionStates.SubmissionLanguage | packages/shared/src/submission-state.ts:24-50 | the submission lifecycle's accepted sequences from QUEUED, exactly |
| SubmissionStates.SubmissionRuns | packages/shared/src/submission-state.ts:24-50 | at most six changes; a run to APPROVED or REJECTED went through UPLOADING, PROCESSING, READY and SUBMITTED in order, with at most SUBMITTING besides |
| SubmissionStates.SubmissionMoves | packages/shared/src/submission-state.ts:24-50 | the table of moves in full, and that every other move is refused naming its two states |
| SubmissionStates.TerminalIff | packages/shared/src/submission-state.ts:18-22 | a state is listed as terminal iff no other state can be reached from it |

## Left out

- Straddling.ManyStraddlersIff: asks that a survivor, if there can be one, is shown by a text dictated by one offset. That is proved when one value straddles and no later value overlaps it (StraddlerIff), and under a condition on characters for any number (ForeignStraddlersIff). With several straddling values, or a later value that overlaps the straddling one, CanSurvive is necessary and Visible sufficient, but the two may differ.
- RedactionTheorems.IdempotentIff: is an equivalence for secrets without square brackets, and StraddlerIdempotentIff is when one value straddles and no later value overlaps it. With several straddling values `MarkerSafe` is sufficient (Idempotent).
- Ordering.OrderIndependentIff: asks for a text in which the overlap can be seen; a longer value can hide every text that tells two orders apart.
- Auth.AuthController.Login: takes the outcome of the password check as a parameter; cookies, the CSRF token, the user agent and address columns, and the user record joined to a session are not modelled.
- Sessions.SessionService.Validate: sends the last-seen update at once; that it is deferred is in the protocol of the same module.
- Redis and PostgreSQL internals, eviction, failover and connection errors other than a crash between two steps.
- AES-GCM, SHA-256, Argon2 and randomness: parameters, with open-after-seal, distinct hashes and freshness as the only assumptions. No claim about strength or timing is made.
- JavaScript numbers: key versions are unbounded integers, and `Object.entries(previousKeys)` is a sequence of pairs.
- The redactor's Set iteration and array sort are insertion-ordered sequences and a stable insertion sort.
- Configuration, logging, health servers, queue workers, storage, store submission, the web application and the mac runner: no behaviour of the kind proved here.
- The constant prefix of the limiter's Redis keys.
- Identifier and token generation: a short loop over random bytes.
