# Sudoku backend: hint engine, verification codes and game ownership

A Dafny model of the logic in the sudoku-backend service (`main.py`): the
hint engine that advises a player on one cell of a 9x9 board, the
single-use, time-boxed verification codes that gate registration and
password reset, and the ownership and visibility guard on saved games.

- `candidates.dfy` (module `Candidates`): the board shape and the candidate
  digits of a cell. `GetCandidates` shrinks the set {1..9} step by step, row,
  column and then box, as `get_candidates` does, and is proved equal to the
  set of digits absent from all three.
- `hints.dfy` (module `Hints`): `IsIncorrectCell` and the selection loop of
  `get_hint`. Its two phases, `FindIncorrectCell` and `FindFewestCandidates`,
  keep the nested loops, early exits and the strict `<` comparison, and
  `SelectHint`, which runs them in turn, is proved against `HintSpec`, which states the two
  phases declaratively: the row-major-first incorrect cell; otherwise the
  empty cell with the fewest (but at least one) candidates, the first one on
  ties; otherwise no hint. Lemmas show that `HintSpec` determines the hint,
  that an empty board is advised at (0, 0), that a wrong entry at (0, 0) is
  corrected first, and that with a valid solution "no hint" happens exactly
  when the board is solved.
- `explanation.dfy` (module `Explanations`): the three digit lists of the
  explanation. The row list drops every entry equal to the target cell's
  value; the column and box lists drop only the target cell, and only for a
  correction hint. Each list is specified by how many times it holds each
  digit. For a completion hint on a board consistent with a valid solution,
  whose hinted row has exactly nine cells, the suggested digit is proved
  absent from all three lists. (The row list scans the whole stored row, so
  cells beyond the ninth would take part too.)
- `accounts.dfy` (module `Accounts`): users and verification codes as
  sequences in insertion order. A lookup that several records match picks
  the earliest inserted one.
  `ValidateCode` holds the checks that `verify_registration`, `verify_code`
  and `reset_password` share, in the source's order: no match, then expired,
  then no user with that id and email. A code is still valid at exactly its
  expiry instant. The class `AccountStore` has one method per handler. A
  handler that fails leaves the store unchanged. A handler that succeeds
  deletes the matched code, and `SingleUse` proves that, when that code was
  the only stored one with its value and purpose, an identical second call
  then fails as an invalid code.
- `games.dfy` (module `Games`): the game collection as a map from id to
  record (class `GameStore`). Create, list, hint, update and delete refuse a
  caller who is not the owner, and the three id-based operations report an
  unknown id before that. Listing returns only the caller's records that are
  not hidden. An update overwrites the board, the play time and the hidden
  flag and nothing else.
- `wrappers.dfy` (module `Wrappers`): `Option`, `Result` and `Outcome`.

Password hashes, user and game ids, generated codes and the current time are
parameters. Time is a whole number of seconds: a registration code lives 600
seconds, a password-reset code 900.

Behaviour of the source that the model keeps as written:
- `register` stores the address lower-cased, but the duplicate check, the
  confirmation lookup and the forgot-password lookup compare the address as
  the handler receives it. The email parameters of the model are addresses
  after the request schema's email validation, which already lower-cases the
  domain, so what remains are upper-case letters before the `@`.
  `MixedCaseEmailCannotConfirm` proves the consequence: a registration whose
  address, so received, still has an upper-case letter cannot be confirmed
  with that same address.
- `verify_code` deletes the code it accepts, just as the other two checks do.
  The reset that would follow then needs a second code.
- Codes are deleted only when a check succeeds, so codes of registrations
  that were never confirmed stay in the store for good. An older code with
  the same digits and purpose is found first and shadows a fresh one:
  `StaleCodeShadowsFresh` exhibits a fresh registration code reported as
  expired because of an older one.
- Codes are six random digits and need not be unique. Deleting the matched
  code lowers the number of stored codes with that value and purpose by
  exactly one (`ConsumeUsesOneMatch`). An identical second call fails only
  when the deleted code was the only match.
- A new game keeps the hidden flag the request carries. An update accepts any
  play time; nothing in this code keeps the play time from decreasing.

## Model

| member | source | states |
|---|---|---|
| `Candidates.CandidateSet` | main.py:201-217 | candidates are digits 1..9, at most nine of them |
| `Candidates.GetCandidates` | main.py:201-217 | the result holds exactly the digits 1..9 absent from row `row`, column `col` and the 3x3 box starting at (3*(row/3), 3*(col/3)); zeros and the cell's own value play no special part |
| `Hints.IsIncorrectCell` | main.py:220-223 | an empty cell is never incorrect; a filled cell is incorrect exactly when it differs from the solution |
| `Hints.FindIncorrectCell` | main.py:492-500 | the correction phase finds nothing exactly when no cell is incorrect; otherwise it returns the row-major-first incorrect cell with the solution's digit, marked incorrect |
| `Hints.FindFewestCandidates` | main.py:503-512 | the completion phase finds nothing exactly when no empty cell has a candidate; otherwise it returns an empty cell whose candidate count is at least one, minimal, and strictly below that of every earlier such cell, with the solution's digit, not marked incorrect |
| `Hints.SelectHint` | main.py:486-515 | the completion phase runs only when the correction phase finds nothing, so the hint meets `HintSpec`: the row-major-first incorrect cell with the solution's digit and `isIncorrect`; if there is none, an empty cell with at least one candidate whose count is minimal and strictly below that of every earlier such cell, with the solution's digit; if there is none either, no hint |
| `Hints.HintSpecDeterministic` | main.py:492-512 | at most one hint meets `HintSpec` for a board and solution, so the selection is deterministic |
| `Hints.EmptyBoardHintsFirstCell` | main.py:503-512 | on a board with no entries every cell has nine candidates and the hint is (0, 0) with the solution's digit, not a correction |
| `Hints.WrongFirstCellIsCorrected` | main.py:492-500 | a wrong entry at (0, 0) is always the hint, as a correction with the solution's digit |
| `Hints.CorrectCellsAvoidDigit` | main.py:201-217 | with a valid solution and no incorrect entry, an empty cell's solution digit appears nowhere in its row, column or box |
| `Hints.SolutionDigitIsCandidate` | main.py:503-512 | with a valid solution and no incorrect entry, every empty cell has its solution digit among its candidates, so it takes part in the completion phase |
| `Hints.NoHintIffSolved` | main.py:514-515 | with a valid solution and no incorrect entry, "no hint" happens exactly when the board equals the solution |
| `Explanations.RowDigits` | main.py:525 | the row list holds every entry of the row as often as the row does, except zeros and every entry equal to the target cell's value |
| `Explanations.NonZeroExcept` | main.py:529-534 | the list holds every non-zero entry as often as the cells do, less one occurrence for the skipped position, and never 0 |
| `Explanations.Explain` | main.py:518-535 | the row list never shows the target cell's own value; the column and box lists hold every non-zero digit of the column and box, less exactly the target cell's value for a correction hint |
| `Explanations.CompletionExplanationIsTrue` | main.py:522-535 | for a completion hint on a board consistent with a valid solution, whose hinted row has exactly nine cells, the suggested digit is in none of the three lists |
| `Accounts.FirstIndex` | main.py:329-332 | the lookup returns the first position that matches, and none exactly when nothing matches |
| `Accounts.Lower` | main.py:290 | the stored address has the same length, no upper-case letter, each upper-case letter replaced by its lower-case letter and every other character kept; it equals the received address exactly when that has no upper-case letter |
| `Accounts.LowerIdempotent` | main.py:290 | lower-casing a stored address again changes nothing |
| `Accounts.CheckRegistration` | main.py:275-281 | registration is refused for a known email first, then for a known username, and allowed exactly when neither is known |
| `Accounts.ValidateCode` | main.py:329-345 | invalid code exactly when no code has this value and purpose; expired exactly when the first match expired before `now`; user not found exactly when the first match is live and no user has its id and this email; otherwise success on the first match |
| `Accounts.CountMatchesZero` | main.py:329-334 | the match count is zero exactly when no stored code has this value and purpose |
| `Accounts.RemoveMatchCount` | main.py:347 | deleting a matching record lowers the match count by one |
| `Accounts.ConsumeUsesOneMatch` | main.py:329-347 | after a successful check, deleting the matched code leaves one fewer code with this value and purpose |
| `Accounts.SingleUse` | main.py:329-347 | if the matched code was the only one with this value and purpose, repeating the call after success fails as an invalid code, whatever the users, email and time |
| `Accounts.ConfirmAfterRegister` | main.py:287-304 | a code just issued by a registration with a lower-case address confirms it at any time up to its expiry, provided no older registration code in the store has the same digits |
| `Accounts.StaleCodeShadowsFresh` | main.py:329-338 | a fresh, live registration code is reported as expired when an older, expired registration code with the same digits is still stored |
| `Accounts.MixedCaseEmailCannotConfirm` | main.py:287-344 | a registration whose address, as the handler receives it after email validation, still has an upper-case letter cannot be confirmed with that same address |
| `Accounts.DuplicateEmailAfterRegister` | main.py:275-293 | once a lower-case address is registered, a second registration with it is refused as a duplicate email |
| `Accounts.AccountStore.Register` | main.py:272-304 | on a duplicate the store is unchanged and the error is the first duplicate found; otherwise the user is appended with a lower-cased address and a registration code expiring 600 seconds after `now` |
| `Accounts.AccountStore.ForgotPassword` | main.py:397-419 | the call succeeds exactly when the email is known and fails only as an unknown email; an unknown email leaves the store unchanged; otherwise a password-reset code for the first user with that email, expiring 900 seconds after `now`, is appended |
| `Accounts.AccountStore.VerifyRegistration` | main.py:326-349 | the result is that of `ValidateCode` for a registration code; the matched code is deleted on success and nothing changes on failure |
| `Accounts.AccountStore.VerifyCode` | main.py:352-368 | the result is that of `ValidateCode` for a password-reset code; the matched code is deleted on success and nothing changes on failure |
| `Accounts.AccountStore.ResetPassword` | main.py:422-443 | on failure nothing changes; on success only the password hash of the first user with the code's id and this email is replaced, and the matched code is deleted |
| `Games.Authorize` | main.py:477-481 | an unknown id fails as not found, a caller other than the owner fails as forbidden, and the owner of an existing record passes |
| `Games.GameStore.CreateGame` | main.py:445-463 | a caller may create a game only for itself; the record is stored under its new id with exactly the request's fields |
| `Games.GameStore.VisibleGames` | main.py:465-472 | a caller may list only its own games, and the list holds exactly its records that are not hidden, each the one stored under its own id |
| `Games.GameStore.GetHint` | main.py:475-543 | the guard's error if it fails; after the guard, `MalformedGrid` exactly when a grid is smaller than 9x9; otherwise the reply is either a success or "no hint", "no hint" exactly when `HintSpec` selects none, and a success carries the hint meeting `HintSpec` on the stored board and solution with its explanation lists |
| `Games.GameStore.UpdateGame` | main.py:545-556 | after the guard, only the board, play time and hidden flag of that one record change; on failure nothing changes |
| `Games.GameStore.DeleteGame` | main.py:558-566 | after the guard, exactly that record is removed; on failure nothing changes |

## Left out

- HTTP routing, CORS, request and response schemas and the MongoDB layer: the
  stores are a sequence of users, a sequence of codes and a map of games, and
  each handler is one atomic step.
- Email sending and the HTML message: outbound network I/O. The model treats
  every send as successful. In the source, a failed send in `register` raises
  an HTTP 500 after the user and code are already stored, and `register`
  sends twice (once directly, once in the background).
- Password hashing and checking (bcrypt): the hash is a parameter. `login`
  and `/me` are not modelled, since they only add a hash check and token
  handling.
- Session tokens (JWT creation and `get_current_user`): the caller of a game
  operation is given as the user id its token resolved to. The token that
  `register` returns is not modelled.
- Random code generation, uuid generation and `datetime.utcnow()`: codes, ids
  and `now` are parameters. A code is required to be six decimal digits, and
  a new game id is required to be unused, as uuid4 ensures in practice.
- The sentence templates of the hint explanation: only the wrong value and
  the three digit lists are modelled.
- `Accounts.Lower`: lower-cases ASCII letters only, while Python's
  `str.lower` also folds non-ASCII letters.
- `Games.GameStore.GetHint`: a stored board or solution smaller than 9x9
  gives a `MalformedGrid` error up front. The source indexes lazily: it fails
  with an unhandled indexing error (HTTP 500) only at the first index it
  actually reaches, and it answers normally when the cells it reads exist
  (for example 9 rows with a short last row and a wrong entry at (0, 0)).
  The up-front check therefore also replaces some replies the source gives.
- `Games.GameStore.VisibleGames`: returns a set, so the order of the
  database's list is not modelled. While `Valid` holds, each listed record is
  the one stored under its own id, so no two matching records collapse into
  one element.
- Lookup order: `find_one` without a sort returns whichever matching document
  the database yields first, which MongoDB does not promise to be the
  earliest inserted. The model fixes the choice among several matching codes
  or users to the earliest inserted one.
- Email validation by the request schema (`EmailStr`) is not modelled: the
  email parameters are the addresses as the handlers receive them.
- The lemmas that assume a valid solution (`SolutionDigitIsCandidate`,
  `NoHintIffSolved`, `CompletionExplanationIsTrue`) state what holds when the
  stored solution is a real sudoku solution. The source never checks this.
- Concurrency: two requests never interleave in the model. In the service,
  simultaneous updates race (last write wins), and the separate find and
  delete of a code could let two simultaneous confirmations both succeed.
