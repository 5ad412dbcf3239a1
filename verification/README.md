# SkillSutra core, modelled in Dafny

SkillSutra is a course platform: an Express/Mongoose back end and a React
front end. Most of it is glue around HTTP, the database, email and PDFs.
This project models the parts whose behaviour can be stated exactly, and
proves properties of them.

- **Chat text** (`ChatText`, `ChatHistory`). This is the support bot's reply
  post-processing:
  - `splitIntoMessages` groups paragraphs greedily under a 500-character
    bound.
  - `formatResponse` turns a long reply into one bullet line per sentence.
  - The per-user conversation history is capped at ten entries.
  - A failure is mapped to an error by the first keyword it contains.
- **Instructor applications**. This covers the front-end form and the
  back-end workflow:
  - `RequestForm`: the form's `validateForm`, its email and phone patterns,
    the error clearing and the reset after sending.
  - `Applications`: the schema's setters, required fields, status enum and
    save hook, and the `submit`, `checkStatus` and `confirm` handlers.
    Confirming is the guarded transition `pending → approved | rejected`.
    It promotes the user best-effort and retries the decision email once.
  - `ApplicationFields` holds the eight shared profile fields.
- **Accounts** (`Users`):
  - `register` requires its fields and keeps emails unique.
  - `login` gives one reply for an unknown email and for a wrong password.
  - `updateProfile` keeps the photo and derives its public id.
- **Password resets** (`PasswordResets`):
  - 64-hex-character tokens that expire after one hour and can be used once.
  - The request rolls its record back when the email fails.
- **Certificates** (`Certificates`):
  - The `SKILL-<year>-<5 digits>` number of the save hook.
  - `generateCertificate`'s completion gate and get-or-create, with the file
    name and the printed strings.

`Text` holds the shared string functions:
- ECMAScript `trim` and `\s`;
- ASCII lower-casing;
- decimal and hexadecimal rendering.

`Http` holds the status/success/message triple of a JSON reply.

Each handler is a pure function `(store, input, oracles) → (store', reply)`:
- Stores are sequences in insertion order.
- A Mongoose `findOne` is the first match.
- Users are addressed by their position.

These are inputs to the handlers:
- the clock;
- random bytes and draws;
- bcrypt's hash and comparison;
- EmailJS outcomes;
- the Gemini reply;
- the media host's upload result.

## Model

| member | source | states |
|---|---|---|
| ChatText.SplitIntoMessages | backend/services/chatService.js:9-21 | There is always at least one message. A reply shorter than 500 characters, or one with fewer than two non-blank paragraphs, is returned as the single message `[text]`. |
| ChatText.SplitJoinRoundTrip | backend/services/chatService.js:16 | Splitting on runs of two or more newlines undoes `join("\n\n")` of non-empty pieces that neither start nor end with a newline and contain no blank line. |
| ChatText.NonBlank | backend/services/chatService.js:16 | Every kept piece is non-blank and comes from the input, every non-blank input piece is kept, and nothing is added. Order and multiplicity are stated by `NonBlankAppend` and `NonBlankSingle`. |
| ChatText.NonBlankAppend | backend/services/chatService.js:16 | Filtering a concatenation is the concatenation of the filtered parts, so the filter keeps the order and the multiplicity of the kept pieces. |
| ChatText.NonBlankSingle | backend/services/chatService.js:58 | One piece is dropped if it is blank after trimming and kept as is otherwise. |
| ChatText.GroupingIsGreedy | backend/services/chatService.js:23-45 | The groups partition the paragraphs in order, with nothing dropped or repeated, and none is empty. A paragraph joins a group only if the running total plus its length stays within 500. A group is closed only when the next paragraph would take it over 500. |
| ChatText.GroupBound | backend/services/chatService.js:28-40 | A group of two or more paragraphs totals at most 500 characters. Only a lone paragraph can exceed the bound, and the paragraph count per group is not limited. |
| ChatText.SplitIntoMessagesLong | backend/services/chatService.js:24-47 | For a long reply with two or more paragraphs, the messages are the greedy groups joined by `"\n\n"`. Each message splits back into exactly the paragraphs of its group. |
| ChatText.SentencesCoverText | backend/services/chatService.js:58 | The pieces of the split on `[.!?]+`, concatenated, are the reply with every terminator removed. Nothing else is lost. |
| ChatText.SentencesJoinRoundTrip | backend/services/chatService.js:58 | Splitting on runs of `.`, `!` and `?` undoes joining non-empty, terminator-free sentences with a run of terminators: the cuts fall exactly at the runs. |
| ChatText.FormatResponseOfSentences | backend/services/chatService.js:51-68 | For a long reply built from three or more non-blank, terminator-free sentences joined by a terminator run, the sentences found are exactly those, and the result is one bullet line per sentence, in order. |
| ChatText.FormatResponse | backend/services/chatService.js:51-63 | A reply shorter than 200 characters, or with fewer than three non-blank sentences, is returned unchanged. |
| ChatText.FormatResponseLong | backend/services/chatService.js:66-68 | Otherwise the result is one bullet line per non-blank sentence, in order, joined by newlines. Each line is the bullet, a space and the trimmed sentence, and no `.`, `!` or `?` remains. |
| ChatHistory.GetConversationHistory | backend/services/chatService.js:170-175 | A user seen for the first time gets an empty history, which is stored. Every other user's history is untouched. |
| ChatHistory.AppendExchange | backend/services/chatService.js:229-238 | The new history is the last min(10, n) entries of old history + user message + one model entry per reply message. It ends with the last reply message, and it extends the old history when no cut was needed. |
| ChatHistory.ProcessMessageHistory | backend/services/chatService.js:202-238 | After a reply, the messages are the formatted, split reply text. The user's history is the old one (empty if new) extended and cut. |
| ChatHistory.RecordExchangeAfterGet | backend/services/chatService.js:202-238 | Recording an exchange is the same as fetching the history (created empty when missing), pushing the exchange and trimming, then storing the result. |
| ChatHistory.ProcessMessageOthers | backend/services/chatService.js:202-238 | A reply adds the user to the map if they were missing. No other user's history changes. |
| ChatHistory.FailureKeepsHistory | backend/services/chatService.js:198-202 | A failed call throws and changes no existing history; at most it creates the caller's empty one. A missing API key changes nothing at all. |
| ChatHistory.StepsKeepCap | backend/services/chatService.js:235-238 | Processing a message and clearing a history both keep every stored history at ten entries or fewer. |
| ChatHistory.ClearHistory | backend/services/chatService.js:276-278 | Only that user's entry is removed. |
| ChatHistory.ClassifyErrorSpec | backend/services/chatService.js:258-271 | The first of "API key", "quota", "safety", "404", "permission" found in the failure's message selects its fixed error. If none is found, the error is "Failed to process message: " followed by the message. |
| ChatHistory.FallbackKeepsMessage | backend/services/chatService.js:271 | Without a keyword, the original message can be read back from the thrown one after the fixed prefix. |
| ChatHistory.SameFirstKeywordSameError | backend/services/chatService.js:259-269 | Two failures whose first keyword is the same get the same error, whatever else their messages say. |
| ChatHistory.MissingKeyReportedAsInvalid | backend/services/chatService.js:198-200 | The service's own "key is not configured" failure is reported as an invalid API key, because its message contains "API key". |
| RequestForm.EmailCheckIsPattern | frontend/src/pages/InstructorRequestForm.jsx:54 | The character-level email test holds iff some slice of the string matches the unanchored `/\S+@\S+\.\S+/`. |
| RequestForm.PhoneCheckIsPattern | frontend/src/pages/InstructorRequestForm.jsx:57 | The phone test holds iff the whole string is an optional `+` followed by ten or more digits, whitespace, `-`, `(` or `)`. |
| RequestForm.ValidateForm | frontend/src/pages/InstructorRequestForm.jsx:49-67 | The error map has a key exactly for the fields with an error, and each holds that field's message. The verdict is true iff the map is empty. |
| RequestForm.ValidIffPatterns | frontend/src/pages/InstructorRequestForm.jsx:49-67 | The form passes iff every field is non-blank after trimming, the email matches its pattern and the phone matches its pattern. |
| RequestForm.FieldMessages | frontend/src/pages/InstructorRequestForm.jsx:52-63 | Each blank field gets its own "required" message. A non-blank email or phone is reported invalid iff it fails its pattern. |
| RequestForm.HandleInputChange | frontend/src/pages/InstructorRequestForm.jsx:69-83 | Only the edited field's value changes, and only its error is cleared to "". The set of error keys and every other error stay the same. |
| RequestForm.ResetForm | frontend/src/pages/InstructorRequestForm.jsx:161-171 | After a send, name and email come from the signed-in user (or are empty) and the six other fields are emptied. |
| RequestForm.SubmitBehaviour | frontend/src/pages/InstructorRequestForm.jsx:141-183 | An invalid form sends nothing and keeps its data. A valid one sends exactly its data. Success happens iff the data was valid and the send worked, and then the form is reset; otherwise the data stays. |
| ApplicationFields.Profile.Set | frontend/src/pages/InstructorRequestForm.jsx:71-74 | Setting a field changes that field and no other. |
| ApplicationFields.FieldIndex | backend/controllers/instructorApplication.controller.js:49-52 | Every field has its place in the fixed list of required fields. |
| Applications.StatusNames | backend/models/instructorApplication.model.js:41-45 | Exactly "pending", "approved" and "rejected" pass the enum check, each for its own status. |
| Applications.NormaliseIdempotent | backend/models/instructorApplication.model.js:4-40 | Applying the schema's setters again changes nothing. |
| Applications.NormaliseEmptiness | backend/models/instructorApplication.model.js:4-40 | After the setters, a trimmed field (name, email, phone, expertise area) is empty iff it was blank. Any other field is empty iff it was empty. |
| Applications.NormaliseRequired | backend/models/instructorApplication.model.js:4-40 | Given eight present fields, the setters keep all eight present iff none of the trimmed fields is whitespace only. |
| Applications.SaveNewSpec | backend/models/instructorApplication.model.js:41-60 | A save succeeds iff every field is present after the setters and a requested status passes the enum check. The record is normalised, `pending` by default, and stamped with the save time. |
| Applications.MissingFields | backend/controllers/instructorApplication.controller.js:49-52 | The missing fields are exactly the falsy ones, each once, in the order of the list. None is missing iff all are present. |
| Applications.SubmitMissingFields | backend/controllers/instructorApplication.controller.js:49-58 | With a field missing, the reply is 400 naming every missing field, comma-separated, in list order. Nothing is saved or mailed. |
| Applications.SubmitComplete | backend/controllers/instructorApplication.controller.js:60-127 | For the corrected submit, with all fields present: the reply is 500 iff a trimmed field is whitespace only, and then nothing is saved. Otherwise exactly one pending, normalised record stamped with the current time is appended, with reply 201. |
| Applications.SubmitMailsDirector | backend/controllers/instructorApplication.controller.js:77-108 | A saved application is mailed to the director with links `FRONTEND_URL/instructor-acceptance?action=<accept or decline>&email=<email>&name=<name>`, unencoded. |
| Applications.DirectorOutcomeIgnored | backend/controllers/instructorApplication.controller.js:87-114 | The outcome of the director email does not change the result. |
| Applications.SubmitCreatesPending | backend/models/instructorApplication.model.js:41-45 | Every record the corrected submission creates is pending, whatever the body asks for. |
| Applications.SubmitKeepsWellFormed | backend/models/instructorApplication.model.js:4-60 | Submissions keep every stored record complete and normalised. |
| Applications.CheckStatusSpec | backend/controllers/instructorApplication.controller.js:132-170 | The reply is 400 iff there is no email, and 404 iff no record has the normalised email. Otherwise it gives name, email, status, expertise area and experience of the first such record. The store is not touched. |
| Applications.SubmitThenCheckStatus | backend/controllers/instructorApplication.controller.js:60-162 | With the corrected submit, a first submission for an address is then reported as pending by the status check with the address as typed. |
| Applications.ConfirmRejectsBadInput | backend/controllers/instructorApplication.controller.js:178-190 | A missing action, email or name, or an action other than accept or decline, gives 400 with its message. Applications and users stay unchanged. |
| Applications.DecideTransition | backend/controllers/instructorApplication.controller.js:193-220 | The reply is 404 iff no record for the email is pending, and then nothing changes. Otherwise only the first pending record takes approved or rejected, its timestamps untouched, and the email's pending count drops by one. Users change only on accept, by promotion. |
| Applications.SecondConfirmFails | backend/controllers/instructorApplication.controller.js:193-204 | Once the only pending record for an email is decided, any further confirm for it fails with 404 "Application not found or already processed". |
| Applications.NotifyOutcome | backend/controllers/instructorApplication.controller.js:222-316 | For the corrected notification, after the status change: an incomplete email configuration gives 500 without a send, and the change stays. Otherwise the reply is a success, with one or two posts. `email_sent` is true iff a post got through, and the message names the decision and the email outcome. |
| Applications.SendWithRetry | backend/controllers/instructorApplication.controller.js:257-304 | A retry happens only after a failure. Delivery is reported iff one of the posts succeeded, and otherwise the retry's error message is reported. |
| Applications.ConfirmKeepsWellFormed | backend/controllers/instructorApplication.controller.js:193-197 | Confirming keeps every stored record complete and normalised. |
| Applications.SubmitThenAccept | backend/controllers/instructorApplication.controller.js:60-220 | With the corrected submit, a fresh application, accepted through its own email and name, ends approved, and its applicant, if registered, becomes an instructor. |
| Applications.PendingCountAfterDecision | backend/controllers/instructorApplication.controller.js:193-197 | Deciding a pending record lowers its email's count of pending records by exactly one. |
| Users.FindByEmail | backend/controllers/user.controller.js:15 | The result is the first account with exactly that email, or none iff no account has it. |
| Users.Register | backend/controllers/user.controller.js:6-31 | A missing name, email or password gives 400 "All fields are required.", and a taken email gives 400 "User Already Exists.", both with no change. Non-empty fields with a fresh email give 201 "Account Created Successfully." with one student appended, holding the hash and not the password. The store grows iff the reply is 201. |
| Users.RegisterKeepsEmailsUnique | backend/controllers/user.controller.js:15-27 | Registration keeps emails unique. |
| Users.LoginErrorsUniform | backend/controllers/user.controller.js:41-64 | For a non-empty email and password, login succeeds iff the first account with the email accepts the password, and every other outcome is 400 "Incorrect password or email.". An empty email or password gets "All fields are required." instead, which this lemma excludes. |
| Users.UnknownEmailLikeWrongPassword | backend/controllers/user.controller.js:50-63 | An unknown email and a wrong password for a known one give identical replies. |
| Users.PublicIdOfUrl | backend/controllers/user.controller.js:142 | For `<anything>/<id>.<ext>` or `<anything>/<id>`, the derived public id is `<id>`. |
| Users.LastSegment | backend/controllers/user.controller.js:142 | The result is the suffix after the last `/` and contains no `/`. |
| Users.BeforeDot | backend/controllers/user.controller.js:142 | The result is the prefix before the first `.` and contains no `.`. |
| Users.UpdateProfileEffects | backend/controllers/user.controller.js:122-168 | Only the addressed user changes, and only its name and photo. The name becomes the one given, or stays when none is given. A failed upload throws before the update, so the store is unchanged. Without a file the photo URL is kept and nothing is deleted. With a file, the old photo's public id is handed over for deletion. An unknown user gives 404 with no change. |
| Users.PromoteToInstructor | backend/controllers/instructorApplication.controller.js:207-220 | The first user with the email becomes an instructor and no one else changes. With no such user nothing changes. |
| Users.PromoteKeepsAccounts | backend/controllers/instructorApplication.controller.js:207-220 | Promotion changes roles only. |
| PasswordResets.GenerateToken | backend/controllers/passwordReset.controller.js:8-10 | The token is 64 hexadecimal characters. |
| PasswordResets.TokenDecodes | backend/controllers/passwordReset.controller.js:8-10 | The token decodes back to the 32 random bytes. |
| PasswordResets.FindValid | backend/controllers/passwordReset.controller.js:150-154 | A record is found iff one has the token, is unused and expires strictly after now. |
| PasswordResets.ExpiryIsStrict | backend/controllers/passwordReset.controller.js:150-154 | An unused token is accepted iff now is before its expiry. It is not accepted at the expiry instant. |
| PasswordResets.RequestRefused | backend/controllers/passwordReset.controller.js:61-82 | A missing email gives 400 and an unknown one gives 404. In both cases no record is created and no email is sent. |
| PasswordResets.RequestCreates | backend/controllers/passwordReset.controller.js:84-132 | For a known email, one unused record is added for that user, expiring 3,600,000 ms after now. A failed send removes it again and leaves the store as it was. A missing configuration leaves it in place with 500. The link is `FRONTEND_URL/reset-password/<token>`. |
| PasswordResets.DeleteAppended | backend/controllers/passwordReset.controller.js:119-127 | Deleting a record just added under a fresh id restores the store. |
| PasswordResets.NextId | backend/controllers/passwordReset.controller.js:91-95 | A new record's id differs from every stored one. |
| PasswordResets.VerifyToken | backend/controllers/passwordReset.controller.js:146-174 | Verification succeeds iff some record accepts the token now, and it changes nothing. |
| PasswordResets.ResetEffects | backend/controllers/passwordReset.controller.js:177-219 | A rejected token changes nothing. An accepted one sets only its user's password hash and marks only its own record used. |
| PasswordResets.ResetIsSingleUse | backend/controllers/passwordReset.controller.js:183-206 | With tokens unique, a token that has reset a password is never accepted again, by verification or by reset. |
| PasswordResets.RequestKeepsTokensUnique | backend/controllers/passwordReset.controller.js:84-127 | A request whose fresh token is not already stored keeps tokens unique. |
| Certificates.CertStatusNames | backend/models/certificate.model.js:23-27 | Exactly "generated" and "revoked" pass the enum check. |
| Certificates.PaddedDraw | backend/models/certificate.model.js:34 | The padded draw has exactly five digits and reads back as the draw. |
| Certificates.NumberRoundTrip | backend/models/certificate.model.js:33-35 | A number `SKILL-<year>-<draw>` reads back as its year and draw. |
| Certificates.NumbersDistinct | backend/models/certificate.model.js:33-35 | Distinct years or draws give distinct numbers. |
| Certificates.AssignNumber | backend/models/certificate.model.js:31-38 | The hook always leaves a number. An existing number is never overwritten, and a new one encodes the year and the draw. |
| Certificates.FindCompleted | backend/controllers/certificate.controller.js:14-18 | The result is a completed progress record of that user and course, or none iff there is no such record. |
| Certificates.FindCertificate | backend/controllers/certificate.controller.js:30 | The result is a certificate of that user and course, or none iff there is no such certificate. |
| Certificates.GenerateRequiresCompletion | backend/controllers/certificate.controller.js:14-27 | Without completed progress the reply is 400 "Course not completed yet" and no certificate is created. |
| Certificates.GenerateGetOrCreate | backend/controllers/certificate.controller.js:29-58 | An existing certificate for the pair is reused and nothing is created. Otherwise at most one certificate is appended: for that pair, generated, its number not yet taken. The download shows a stored number of the pair, through the corrected number line. |
| Certificates.GenerateServesCompleted | backend/controllers/certificate.controller.js:14-58 | The reply is 200 with a download iff the course is completed and the pair already holds a certificate or the drawn number is free. A completed pair without a certificate then gets one appended. A number that clashes with the unique index gives 500 "Failed to generate certificate" with no change. |
| Certificates.GenerateIdempotent | backend/controllers/certificate.controller.js:29-37 | Asking again for the same pair, whatever the new draw, gives the same download and creates nothing. |
| Certificates.GenerateKeepsInvariants | backend/models/certificate.model.js:19-22 | Generation keeps one certificate per user and course and keeps numbers unique. |
| Certificates.FilenameReadsBack | backend/controllers/certificate.controller.js:56 | The download name is `certificate-`, then the certificate number, then `.pdf`. The number can be read back from between the two. |
| Certificates.PrintedTitle | backend/controllers/certificate.controller.js:179 | The printed title is never empty. A non-empty course title is printed as is. |
| Certificates.NumberLineDoublesPrefix | backend/controllers/certificate.controller.js:189 | As written, the printed number of a generated certificate reads `SKILL-SKILL-<year>-<draw>`, not the stored number. |
| Certificates.NumberLineReadsBack | backend/controllers/certificate.controller.js:189 | With the prefix printed once, the number line shows the stored number, which reads back as its year and draw. |
| Applications.DeclineMessageMisspelt | backend/controllers/instructorApplication.controller.js:308 | As written, a decline is reported as "declineed", which differs from the correct message. |
| Applications.ConfirmMessageCorrected | backend/controllers/instructorApplication.controller.js:308 | The corrected word is the regular English past tense of the action. For an accept, it agrees with the word as written. |
| Applications.SubmitAsWrittenHonoursStatus | backend/controllers/instructorApplication.controller.js:60 | As written, a complete body that asks for "approved" is saved as approved, with no decision by the director. |
| Applications.Normalise | backend/models/instructorApplication.model.js:4-40 | The schema's setters: name, phone and expertise area trimmed, email trimmed and lower-cased, the rest as given. `NormaliseIdempotent`, `NormaliseEmptiness` and `NormaliseRequired` state its properties. |
| Applications.SaveNew | backend/models/instructorApplication.model.js:41-60 | The validated save, honouring a requested status as the schema does. Its contract is `SaveNewSpec`. |
| Applications.SubmitAsWritten | backend/controllers/instructorApplication.controller.js:44-129 | `submitApplication` as written: the whole body reaches the schema, so a requested status is validated and saved. Its contract is `SubmitAsWrittenComplete`. |
| Applications.Submit | backend/controllers/instructorApplication.controller.js:44-129 | The corrected submit, which ignores a status in the body and always saves pending. It agrees with the handler as written when the body has no status or `pending` (`SubmitAsWrittenAgrees`). |
| Applications.SubmitAsWrittenAgrees | backend/controllers/instructorApplication.controller.js:60 | When the body has no status or asks for `pending`, the handler as written and the corrected one give the same result. |
| Applications.SubmitAsWrittenComplete | backend/controllers/instructorApplication.controller.js:44-129 | As written, with all fields present: the reply is 500 iff a trimmed field is whitespace only or the requested status fails the enum, and then nothing is saved. Otherwise one normalised record with the requested status (pending by default) is appended, with reply 201. |
| Applications.SubmitWithThenCheckStatus | backend/controllers/instructorApplication.controller.js:60-162 | Whatever status is requested, a first saved submission for an address is then reported by the status check with the saved record's view. |
| Applications.SubmitAsWrittenThenCheckStatus | backend/controllers/instructorApplication.controller.js:60-162 | As written, the status check after a first submission reports the status the body asked for, pending by default. |
| Applications.SubmitAsWrittenThenAccept | backend/controllers/instructorApplication.controller.js:60-220 | As written, a fresh submission saved pending is accepted as with the corrected submit. One saved with a decided status can never be confirmed: the accept through its own link gets 404 and changes nothing. |
| Applications.AcceptDecidedAppended | backend/controllers/instructorApplication.controller.js:193-204 | Accepting a record appended with a decided status, when no other record is pending for its email, gives 404 and changes neither applications nor users. |
| Applications.PendingCountAppend | backend/controllers/instructorApplication.controller.js:193-197 | Appending a record adds one to its email's pending count exactly when it is pending for that email. |
| Applications.FindByEmail | backend/controllers/instructorApplication.controller.js:144 | The result is the first record with exactly that email, or none iff no record has it. |
| Applications.CheckStatus | backend/controllers/instructorApplication.controller.js:132-170 | `checkApplicationStatus`. Its contract is `CheckStatusSpec`. |
| Applications.FindPending | backend/controllers/instructorApplication.controller.js:193-197 | The result is the first record pending for the email, or none iff none is pending. |
| Applications.Confirm | backend/controllers/instructorApplication.controller.js:173-325 | `confirmApplication`: the parameter checks, then the decision. `ConfirmRejectsBadInput` and `ConfirmDecides` state it. |
| Applications.Decide | backend/controllers/instructorApplication.controller.js:193-220 | The guarded status change and the best-effort promotion. Its contract is `DecideTransition`. |
| Applications.Notify | backend/controllers/instructorApplication.controller.js:222-316 | The email step, with the decision word spelt correctly. `NotifyOutcome` states it, and `NotifyAsWrittenReply` relates it to the message as written. |
| Applications.NotifyAsWrittenReply | backend/controllers/instructorApplication.controller.js:308 | With a complete email configuration, the reply message agrees with the one as written exactly on an accept. |
| Certificates.FormatNumber | backend/models/certificate.model.js:33-35 | `SKILL-<year>-<draw padded to five digits>`. `NumberRoundTrip` and `NumbersDistinct` state its properties. |
| Certificates.MakeDownload | backend/controllers/certificate.controller.js:179-189 | The downloaded file's name, corrected number line and course title. |
| Certificates.MakeDownloadPrintsNumber | backend/controllers/certificate.controller.js:189 | The download prints the stored number once after the label, so its line is shorter than the one as written by the repeated prefix. |
| Certificates.Generate | backend/controllers/certificate.controller.js:6-58 | `generateCertificate` up to the PDF, printing the corrected number line. `GenerateRequiresCompletion`, `GenerateServesCompleted`, `GenerateGetOrCreate` and `GenerateIdempotent` state it. |
| PasswordResets.RequestReset | backend/controllers/passwordReset.controller.js:61-143 | `requestPasswordReset`. `RequestRefused` and `RequestCreates` state it. |
| PasswordResets.ResetPassword | backend/controllers/passwordReset.controller.js:177-219 | `resetPassword`. `ResetEffects` and `ResetIsSingleUse` state it. |
| PasswordResets.ResetKeepsTokensUnique | backend/controllers/passwordReset.controller.js:177-206 | A reset keeps tokens unique, because it only marks a record used. |
| Users.Login | backend/controllers/user.controller.js:41-72 | `login`. `LoginErrorsUniform` and `UnknownEmailLikeWrongPassword` state it. |
| Users.UpdateProfile | backend/controllers/user.controller.js:122-168 | `updateProfile`. Its contract is `UpdateProfileEffects`. |
| ChatHistory.ProcessMessage | backend/services/chatService.js:192-272 | `processMessage`. `ProcessMessageHistory`, `ProcessMessageOthers`, `FailureKeepsHistory` and `StepsKeepCap` state it. |
| ChatHistory.ClassifyError | backend/services/chatService.js:258-271 | The error thrown for a failure. Its contract is `ClassifyErrorSpec`. |
| RequestForm.HandleSubmit | frontend/src/pages/InstructorRequestForm.jsx:141-183 | The form's submit. Its contract is `SubmitBehaviour`. |
| Text.DecimalRoundTrip | backend/models/certificate.model.js:33-34 | The decimal rendering of a number reads back as that number. |
| Text.HexRoundTrip | backend/controllers/passwordReset.controller.js:9 | Hexadecimal encoding of bytes decodes back to the bytes. |
| Text.LowerTrimIdempotent | backend/models/instructorApplication.model.js:9-14 | Trimming and lower-casing twice is the same as once. |

## Left out

- Gemini's model construction, prompt and `generateContent` call (backend/services/chatService.js:140-221) are not modelled. The reply text or the failure message is an input.
- Timestamps on chat messages are left out. `getWelcomeMessage`'s model call is left out.
- String length and indexing are over Dafny characters (Unicode scalar values), not UTF-16 code units. The two differ for characters outside the Basic Multilingual Plane.
- `toLowerCase` is modelled for ASCII letters only. Other letters keep their case.
- `trim` and the regex `\s` use the ECMAScript whitespace set, written out.
- The PDF drawing of `generateCertificate` (pdfkit geometry, fonts, colours) and its completion date text (`toLocaleDateString`) are not modelled. Only the file name, the number line and the course title are.
- EmailJS posts, bcrypt, `crypto.randomBytes`, `Math.random`, `Date.now`, JWT cookies and the media host are not modelled. Their results are parameters: delivery outcomes, a hash, a comparison function, random bytes, a random draw, the clock's time and year, and the upload result.
- Database persistence is not modelled. Requests run one after another over an in-memory store. The races this allows are not modelled:
  - the double-use window of `resetPassword`;
  - find-then-create in `register` and in `generateCertificate`.
- A database failure inside a `try` is not modelled. Such failures give the handlers' generic 500 replies ("Error creating account", "Failed to login.", …). The 500 replies that follow from modelled causes are modelled: schema validation, a certificate number clash, a missing reset password, an upload failure, a missing email configuration.
- The user, course-progress and password-reset schemas are not part of this model.
  - User emails are compared exactly, as stored.
  - A new account is a student with no photo.
  - Course progress is a list of (user, course, completed, course title) records.
- Users.UpdateProfile: when the body has no `name`, the name is kept. This assumes the update drops `undefined` keys, as current Mongoose does by default.
- Users.Login: the reply models only the success flag and the welcome message. The user object and the JWT that `generateToken` also sends are not modelled.
- Body values are strings. A JSON body with a non-string value for a profile field, or with extra keys besides `status`, is not modelled.
- Applications.CheckStatusSpec: the 200 reply's `success: true` and data are modelled. Its message field is modelled as empty, because the source sends none.
- Applications.Confirm: ObjectIds and the `{ new: true }` projection are not modelled. The email content is reduced to what the reply reports.
- Applications.SubmitComplete: `createdAt` is stamped with the save time. The schema's `Date.now` default and the hook's time are the same clock reading here.
- Applications.Submit: this is the corrected handler, which always saves pending. The program's behaviour is `Applications.SubmitAsWritten`. The two agree when the body has no status or asks for `pending`; a body with another status is modelled only by `SubmitAsWritten` and its lemmas.
- Applications.SubmitComplete: states the corrected submit. As written, a requested status that fails the enum (for example `"bogus"`) also gives 500, and a valid one is saved; `Applications.SubmitAsWrittenComplete` states that.
- Applications.SubmitThenCheckStatus: states the corrected submit. As written, the check reports the requested status (`Applications.SubmitAsWrittenThenCheckStatus`).
- Applications.SubmitThenAccept: states the corrected submit. As written, an application saved with a decided status cannot be accepted (`Applications.SubmitAsWrittenThenAccept`).
- Applications.Notify: replies with the decision word spelt correctly. As written, a decline replies "declineed" (`Applications.NotifyAsWrittenReply`).
- Applications.NotifyOutcome: the message it names is the corrected one, which differs from the one as written on a decline.
- Certificates.MakeDownload: prints the stored number once. As written, the line repeats the `SKILL-` prefix (`Certificates.MakeDownloadPrintsNumber`).
- Certificates.Generate: its download uses the corrected number line of `Certificates.MakeDownload`.
- Certificates.GenerateGetOrCreate: the download it states carries the corrected number line.
- RequestForm.HandleSubmit: the HTTP post is an input. `sendEmail` catches every error of the post and returns it as a result, so every failure reaches the modelled send-failed branch.
- React rendering, hooks, routing, middleware, console logs and the route files are not modelled.

## Findings

| source | as written | input that shows it | evidently intended | confidence | as-written member | corrected member |
|---|---|---|---|---|---|---|
| backend/controllers/instructorApplication.controller.js:308 | The message is `Application ${action}ed successfully…` | action `decline` gives "Application declineed successfully…" | "Application declined successfully…" | high; not executed | Applications.ConfirmMessageAsWritten (shown by Applications.DeclineMessageMisspelt) | Applications.ConfirmMessage (Applications.ConfirmMessageCorrected) |
| backend/controllers/instructorApplication.controller.js:60 | `new InstructorApplication(req.body)` passes the whole body to the schema | a complete body with `"status": "approved"` is saved approved, without a director's decision | new applications are always pending | medium; not executed | Applications.SubmitAsWritten (shown by Applications.SubmitAsWrittenHonoursStatus) | Applications.Submit (Applications.SubmitCreatesPending) |
| backend/controllers/certificate.controller.js:189 | The line is `Certificate Number: SKILL-${certificate.certificateNumber}` | a stored number `SKILL-2025-00042` prints as "Certificate Number: SKILL-SKILL-2025-00042" | the stored number printed once | high; not executed | Certificates.NumberLineAsWritten (shown by Certificates.NumberLineDoublesPrefix) | Certificates.NumberLine (Certificates.NumberLineReadsBack) |
