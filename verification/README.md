# Matricule validation bot — a Dafny model

This project models the decision logic of a chat-platform bot. The bot grants
the role "ACAD B" to an account that types a registered matricule (a student
number) into one validation channel. The model has two parts.

1. **Catalog building** (`load_matricules`). Each data row of the spreadsheet
   is skipped, accepted or rejected. The matricule cell (column G) is
   normalised: a number becomes the decimal string of its value, and text
   keeps only its digits. The programme cell (column I) is trimmed and
   lower-cased, and it must contain both "programmation web" and
   "introduction à l'ia". The section cell (column J) is trimmed and
   upper-cased, and it must be exactly "B". Accepted matricules form the
   catalog. Each rejected row adds one `"<matricule>: <reason>"` entry to a
   diagnostic list.
2. **Claim arbitration** (`on_message`, `load_claims`, `save_claims`). The
   message text becomes a candidate matricule: strip, upper-case, keep the
   alphanumeric characters. The candidate is checked against the catalog and
   against the claim ledger. The ledger maps each matricule to the account
   that claimed it first. A new claim is recorded and saved, then the role is
   granted. A repeat by the same account only grants the role again if the
   account lacks it. A claim by a different account is refused as fraud. A
   matricule outside the catalog revokes the role if the account holds it.

The files:

- `strings.dfy` (module `Strings`): Python's `strip`, `upper`, `lower`,
  `isdigit`, `isalnum`, `isspace`, `str(int)`, substring test and slicing.
  Also the decimal round trip `int(str(n)) == n`.
- `matricules.dfy` (module `Matricules`): cells, rows, the per-row verdict
  `Extract`, the catalog `BuildCatalog` and `LoadMatricules`.
- `claims.dfy` (module `Claims`): the ledger, the claim file, loading and
  saving, and the first-claim-wins arbitration `TryClaim`.
- `validation.dfy` (module `Validation`): the message handler `OnMessage` and
  runs of messages and `on_ready` reloads.

Everything outside the model is a parameter:

- the spreadsheet is a `Workbook` value: unreadable, or a sequence of rows;
- the claim file is a `ClaimFile` value: missing, corrupt, or stored claims;
- how a save turns out is a `SaveResult`;
- whether the guild has the role, whether the author holds it, and how the
  role call turns out are a `Platform` value.

Three behaviours of the code are worth knowing before reading the contracts:

- **A numeric matricule cell keeps its minus sign.** A numeric cell becomes
  `str(int(x))` (main.py:89-91), so a catalog id is not always digits only.
  `Validation.NegativeMatriculeUnclaimable` shows that no message can ever ask
  for such a matricule, because the candidate keeps only alphanumeric
  characters (main.py:235).
- **A failed dump can lose every claim, not just the latest one.** Opening the
  claim file with `"w"` truncates it (main.py:176). If `json.dump` then fails
  (main.py:177), the file no longer parses, and the next `on_ready` loads an
  empty ledger (main.py:167-169, 193). `Validation.FailedDumpLosesClaimsOnRestart`
  states this. If the open itself fails, the old file stays. When that file
  held the ledger before the message, the next `on_ready` drops only the new
  claim (`Validation.FailedOpenLosesNewClaimOnRestart`).
- **Some early exits skip command processing.** After the handler, the
  message goes on to command processing (main.py:310). The early returns skip
  that step: bot authors (main.py:224-225), an empty candidate (237-239), a
  missing role (248-251) and the fraud branch (276).
  `Validation.RoutedUnlessStoppedEarly` states exactly which messages are
  passed on.

## Model

| member | source | states |
|---|---|---|
| Strings.StripPadded | main.py:93 | `strip` removes exactly the whitespace around a string whose two ends are not whitespace |
| Strings.IntToStringRoundTrip | main.py:91 | `str(n)` of an integer parses back to `n` (minus sign included) |
| Strings.IntToStringInjective | main.py:91 | distinct numbers give distinct matricules, because `str(n)` parses back to `n` |
| Strings.FilterAppend | main.py:95 | keeping only some characters distributes over concatenation, so kept characters stay in order |
| Strings.FilterEmptyIff | main.py:97-98 | filtering leaves nothing exactly when no character is kept |
| Matricules.NormalizeMatricule | main.py:88-95 | a text cell gives only digits; a numeric cell gives a decimal string that reads back as the cell's value and has no leading zero (and no zero after a minus sign), so a zero-padded spelling of the number is a different id |
| Matricules.TextMatriculeIsItsDigits | main.py:93-95 | a text matricule is exactly its digit characters, in order; surrounding whitespace plays no part |
| Matricules.NumberAndTextAgree | main.py:89-95 | a non-negative number and the text of its digits give the same matricule |
| Matricules.FalsyCellFailsTests | main.py:101-106 | an absent, empty or zero programme or section cell reads as `""`, which fails both checks |
| Matricules.Extract | main.py:84-137 | the verdict of one row: when the row is not skipped, it is at least ten columns wide and its id is the non-empty normalised matricule; `SkippedIff`, `AcceptedIff`, `SectionReasonWins` and `ProgramReason` characterise each outcome |
| Matricules.SkippedIff | main.py:84-98 | a row is skipped exactly when a column is missing (the `IndexError` path), the matricule cell is absent, or the matricule normalises to `""` |
| Matricules.AcceptedIff | main.py:100-131 | a row is accepted exactly when it is examined, its programme contains both phrases, and its section is "B"; its id is the normalised matricule |
| Matricules.SectionReasonWins | main.py:124-127 | a failed section check rejects the row with the section reason, whatever the programme is |
| Matricules.ProgramReason | main.py:116-122 | with a good section, a failed programme check gives "Programme vide" for an empty programme and "Programme incorrect" otherwise |
| Matricules.BuildCatalog | main.py:78-141 | the catalog is exactly the set of matricules of accepted rows, and the rejection list is no longer than the sheet; `RejectionsInRowOrder` fixes the list itself |
| Matricules.BuildCatalogAppend | main.py:81-141 | building over two parts of the sheet unions the sets and concatenates the rejection lists |
| Matricules.RejectionsInRowOrder | main.py:134-137 | the rejection list holds one `"id: reason"` entry per rejected row, in row order |
| Matricules.OneEntryPerRejectedRow | main.py:134-137 | the rejection list is as long as the set of positions of rejected rows |
| Matricules.SkippedRowAddsNothing | main.py:139-141 | a skipped row anywhere in the sheet adds nothing to the set and nothing to the list |
| Matricules.AcceptedIdsStay | main.py:129-131 | a later row never removes an accepted id, and a duplicate accepted id changes nothing |
| Matricules.LoadMatricules | main.py:52-153 | an unreadable workbook gives the empty catalog; otherwise an id is in the catalog exactly when some data row below the header accepts it |
| Matricules.HeaderRowIgnored | main.py:81 | the header row is never read as data |
| Matricules.CatalogIdsAreMatricules | main.py:84-98 | every catalog id is non-empty, decimal, and is the normalised matricule of an examined data row |
| Claims.LoadClaims | main.py:161-170 | a missing or unparsable claim file gives the empty ledger; otherwise the stored claims |
| Claims.SaveClaims | main.py:173-179 | a written file reads back as the ledger; a failed open leaves the previous file, so it reads back as before; a failed dump leaves a file that is no longer stored claims and reads back as the empty ledger |
| Claims.TryClaim | main.py:253-287 | first claim wins: a new id is inserted with the owner, and an existing id keeps its owner; only the new-claim outcome changes the ledger |
| Claims.ClaimTwiceSameOwner | main.py:255-268 | the same owner claiming twice gets "new" then "already owned", and the ledger does not grow |
| Claims.ClaimThenOtherOwner | main.py:269-276 | a second owner is refused, and the first owner keeps the id |
| Validation.Candidate | main.py:232-235 | the candidate holds only alphanumeric, non-lower-case characters, and is no longer than the message; `CandidateIgnoresStrip` pins it to the alphanumeric characters of the upper-cased message |
| Validation.CandidateIgnoresStrip | main.py:232-235 | the candidate is exactly the alphanumeric characters of the upper-cased message, in order: stripping first changes nothing |
| Validation.CandidateEmptyIff | main.py:235-239 | the candidate is empty exactly when the message has no alphanumeric character |
| Validation.CandidateAppend | main.py:232-235 | the candidate of a message is the concatenation of the candidates of its parts |
| Validation.CandidateOfTypedMatricule | main.py:232-235 | a digit matricule typed with any spaces or separators around it yields exactly that matricule |
| Validation.CandidateExample | main.py:232-235 | `" 123-abc "` yields `"123ABC"`, because letters are kept |
| Validation.CallRole | main.py:283-308 | a successful call sets the role as the call says and shows the case's reply; a refused call (`Forbidden`) leaves the role and shows the permission error; any other failure leaves the role and shows the generic error |
| Validation.OnMessage | main.py:222-310 | the catalog never changes; the ledger only gains the candidate with the author's id, and only when the candidate is in the catalog and unclaimed; the file changes only then |
| Validation.OtherMessagesChangeNothing | main.py:224-230 | bot messages are ignored and other channels are only passed to command processing; nothing changes |
| Validation.EmptyCandidateAsksAgain | main.py:232-239 | a message with nothing alphanumeric asks for a valid matricule, makes no role call and changes nothing |
| Validation.RoleEffectsByCase | main.py:253-308 | new claim: grant, and "validated" on success; own claim without the role: grant, and "role added" on success; own claim with the role: no call and "already validated"; other owner: no call, refusal, not routed; not in catalog: revoke and "role removed" when the author holds the role, otherwise no call and "not recognized"; whenever a call is made and fails, the role is unchanged and the reply is the permission error for a refusal and the generic error otherwise |
| Validation.MissingRoleStops | main.py:245-251 | with no such role in the guild the handler reports it, makes no call, changes nothing and does not route the message |
| Validation.RoutedUnlessStoppedEarly | main.py:224-310 | a message goes on to command processing unless it is from a bot, has an empty candidate, finds no role, or hits another owner's claim |
| Validation.NewClaimGrantsAndPersists | main.py:278-287 | a new claim with a successful save and grant: role held, claim stored, and the file reads back as the ledger |
| Validation.LedgerChangesOnlyOnNewClaim | main.py:248-287 | the ledger changes exactly when a handled message has a non-empty candidate, the guild has the role, and the candidate is in the catalog and not yet claimed |
| Validation.NewClaimSurvivesFailedGrant | main.py:278-308 | the claim is recorded and saved before the grant, so a refused or failed grant leaves it in place; the role is unchanged and the reply is the permission error for a refusal and the generic error otherwise |
| Validation.NegativeMatriculeUnclaimable | main.py:89-91 | a matricule built from a negative number can never be the candidate of any message |
| Validation.Apply | main.py:184-193 | `on_ready` rebuilds the catalog and replaces the ledger with what the claim file reads back, without writing the file: nothing is lost from a mirrored file and everything from a corrupt one; a message keeps the catalog and only adds claims |
| Validation.Run | main.py:184-310 | after any sequence of `on_ready` events and messages the catalog is the one built at the last `on_ready`, or the starting one when there is none; `LedgerOnlyGrows` and `WriteThrough` state what happens to the ledger |
| Validation.LedgerOnlyGrows | main.py:253-301 | over any run of messages no owner is replaced or removed, the catalog stays, and each new key is in the catalog |
| Validation.WriteThrough | main.py:173-193 | while every save succeeds the file mirrors the ledger, so `on_ready` reloads lose nothing and the ledger only grows |
| Validation.FailedDumpLosesClaimsOnRestart | main.py:173-193 | a save that fails after truncating the file leaves the next `on_ready` with an empty ledger |
| Validation.FailedOpenLosesNewClaimOnRestart | main.py:173-193 | when the file held the ledger before the message, a save whose open fails leaves that file, so the next `on_ready` reloads the claims from before the message and the new claim is gone |

## Left out

- The chat-platform SDK, the event loop, message sending and mentions are left out. They are platform I/O. Replies are tags of `Reply`. A send that fails is not modelled; only the role call can fail.
- Logging is left out, including the debug lines for one hard-coded matricule (main.py:108-110, 132-136).
- Workbook parsing (openpyxl) and JSON reading and writing are left out. They become the `Workbook`, `ClaimFile` and `SaveResult` inputs.
- A claim file that parses to something other than an object of strings is not modelled.
- Float cells and the truncation `int(float)` (main.py:91) are not modelled. Numeric cells are integers. Cells of other types, such as dates, are not modelled either.
- Python's Unicode predicates are modelled on Latin-1. `isspace` is exact there. `upper` and `lower` map a–z and À–Þ/à–þ one to one; ß, ÿ and µ stay unchanged, although Python maps them to other characters. `isdigit` accepts 0–9 only, not the superscripts ¹²³. `isalnum` accepts digits and the Latin-1 letters, not ª, º, µ, ¹²³ or ¼½¾.
- Characters above U+00FF count as neither whitespace nor alphanumeric, and they are never case-mapped. Python treats many of them otherwise. Two consequences follow. A section cell `"B\u202F"` is rejected, although Python's `strip()` removes U+202F and accepts the row (main.py:106). A message `"Д"` gives an empty candidate and the request for a matricule, although Python keeps the letter and takes the not-recognized path (main.py:235, 289-301).
- Exceptions other than a missing column (for example from `str()` of an exotic cell) are not modelled. The model's only exception path per row is `IndexError`, which leads to a skip.
- The admin commands `checkcolumns`, `find` and `checkall` (main.py:314-516) are left out. They only build report embeds; `checkcolumns` reads hard-coded rows and columns. `on_command_error` and `on_error` are left out too: they only send or log error messages.
- The unreachable second `except` (main.py:155-157) is left out.
- The configuration block (main.py:10-21) is left out. Only the validation channel id is kept. The role lookup by name is the `roleExists` input.
- The bot presence update in `on_ready` (main.py:199-205) is left out.
- keep_alive.py, an HTTP keep-alive endpoint on a thread, is not part of this model.
- Concurrency is not modelled. Messages are handled one at a time, in the order of the event list.
