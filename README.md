# RedLink blood-donation portal — a Dafny model of its record-store rules

This project models the server-side rules of the RedLink blood-donation portal, an Express/Mongoose backend with a React frontend, and proves properties of them. It also models two small pure functions from the frontend.

The backend parts are:

- **Appointments.** The appointment schema with its `pending`/`completed` status enum. The bulk sweep that marks elapsed pending appointments completed (`updateAppointmentStatus`). The booking handler (`bookAppointment`).
- **One-time codes.** The OTP schema with its 120-second expiry, and the handlers that issue a code (an upsert keyed by email) and verify it (match, then delete).
- **Donors.** The user schema: enums, defaults, the unique lower-cased email, the unique phone, the hidden password and the hash-on-modify hook. Registration, the login decision, profile lookup, donor search, the availability toggle and the restricted profile update.
- **Blood banks.** The nested blood-bank schema, insertion under a new name, and the listing sorted by name.
- **Statistics.** The fixed eight-row table of available donors per blood group, and the `/blood-group-stats` aggregation (match, group, project, sort).

The frontend parts are the age computation and the age/password gate of the registration page, and the navigation bar's link table and active-link test.

Each collection the handlers write is a class holding a `seq` of records: `AppointmentCollection`, `UserCollection`, `OtpCollection` and `BankCollection`. Each class has a `Valid()` invariant for what the schema and its indexes guarantee. For appointments that is only that every required path is non-empty, since that schema declares no index. Handlers that change a collection are methods with `modifies` clauses. Each such method's `ensures` gives the reply and the new contents in terms of pure functions of the old state, and lemmas state what those functions promise. Read-only handlers are functions over the stored sequence.

The handlers' inputs from outside are parameters:

- the clock: the sweep's date and time strings, and the OTP's `now`;
- the random draw behind a code;
- whether the mail transport delivers;
- the fresh `_id` of a new document;
- the bcrypt hash, and a predicate standing for `bcrypt.compare`.

Mongoose behaviour is modelled where a rule depends on it, as Mongoose 7 and later (with bson 5 and later) behave:

- setters such as `trim` and `lowercase` apply to query filters as well as to saved documents;
- a filter key whose value is `undefined` is dropped, so `findOne({ email, otp })` without a code is `findOne({ email })`, and `findOne({ name })` without a name is `findOne({})`;
- `undefined` update keys are dropped (the default from Mongoose 7 on; earlier versions do so only with `omitUndefined`);
- paths not in the schema are ignored;
- `runValidators` rejects an invalid update before the document is looked up;
- `findById` throws a cast error on a string that is not exactly 24 hexadecimal digits (bson before version 5 also took any 12-character string as raw bytes).

String comparison (`$lt`, `$sort`) is a lexicographic order on code points, `Strings.LexLess`. It is proved to be a strict total order. For fixed-layout digit strings it is proved to agree with numeric order, which is why `YYYY-MM-DD` dates and `HH:MM` times compare correctly as text (section 5.1 of RFC 3339).

## Model

| member | source | states |
|---|---|---|
| `AppointmentModel.ParseStatus` | backend/model/appointmentModel.js:10 | a status string is accepted exactly when it is `pending` or `completed` |
| `AppointmentModel.StatusNameRoundTrip` | backend/model/appointmentModel.js:10 | the enum and its names convert into each other both ways without loss |
| `AppointmentModel.Validate` | backend/model/appointmentModel.js:3-11 | a draft is stored iff all six required paths are present and non-empty and any given status is in the enum. The stored record carries the given values unchanged, and a missing status becomes `pending` |
| `AppointmentModel.AppointmentCollection.Create` | backend/model/appointmentModel.js:3-13 | `create` returns the validation outcome; the collection gains that record exactly when it was stored |
| `AppointmentStatus.UpdateAppointmentStatus` | backend/utils/appointmentStatus.js:3-28 | the loop leaves the collection equal to the sweep of the old one and returns the number of elapsed pending appointments |
| `AppointmentStatus.IsElapsed` | backend/utils/appointmentStatus.js:10-19 | the filter selects only pending appointments, never one dated after today, and on today's date never one whose time is after now |
| `AppointmentStatus.Sweep` | backend/utils/appointmentStatus.js:10-21 | the sweep changes an appointment iff the filter selects it. The only change is `status := completed`; every other field and every other appointment is untouched |
| `AppointmentStatus.CompletedNeverReverts` | backend/utils/appointmentStatus.js:12 | a completed appointment is left exactly as it was |
| `AppointmentStatus.CountIsMoved` | backend/utils/appointmentStatus.js:21-28 | the returned count equals the number of records the sweep actually modified |
| `AppointmentStatus.NothingLeftElapsed` | backend/utils/appointmentStatus.js:10-21 | after a sweep no record matches the filter any more |
| `AppointmentStatus.SweepIdempotent` | backend/utils/appointmentStatus.js:10-28 | a second sweep with the same date and time changes nothing and would count 0 |
| `AppointmentStatus.SameMinuteStaysPending` | backend/utils/appointmentStatus.js:16-17 | an appointment at exactly today's date and the current minute is not touched, because the comparison is strict |
| `AppointmentStatus.NotYetDueStaysPending` | backend/utils/appointmentStatus.js:13-19 | a later date, or today with a time not before now, is not touched |
| `AppointmentStatus.DateTextOrderIsCalendarOrder` | backend/utils/appointmentStatus.js:6-14 | for `YYYY-MM-DD` strings, text order is calendar order (year, then month, then day) |
| `AppointmentStatus.TimeTextOrderIsClockOrder` | backend/utils/appointmentStatus.js:7-17 | for `HH:MM` strings, text order is clock order (hour, then minute) |
| `AppointmentStatus.ElapsedIffScheduledBefore` | backend/utils/appointmentStatus.js:10-19 | for well-formed dates and times, the filter selects exactly the pending appointments whose scheduled moment is before now |
| `AppointmentStatus.SweepScenario` | backend/utils/appointmentStatus.js:16-17 | a 10:00 appointment today stays pending at 09:00 and is completed at 11:00 |
| `Strings.LexLessIrreflexive` | backend/utils/appointmentStatus.js:14 | no string is less than itself under the server's string order |
| `Strings.LexLessAsymmetric` | backend/utils/appointmentStatus.js:14 | two strings are never each less than the other |
| `Strings.LexLessTransitive` | backend/utils/appointmentStatus.js:14 | the string order is transitive |
| `Strings.LexLessTotal` | backend/utils/appointmentStatus.js:14 | any two distinct strings are ordered one way or the other |
| `Strings.TrimSpec` | backend/model/userModel.js:9 | `trim` removes exactly the leading and trailing white space: the result is trimmed and is a contiguous slice of the input |
| `Strings.TrimIdempotent` | backend/model/bloodBankModel.js:7 | trimming a trimmed value changes nothing |
| `Strings.ToLowerIdempotent` | backend/model/userModel.js:40 | lower-casing leaves a string unchanged iff it is already lower case, and applying it twice is the same as once |
| `Strings.ContainsIffOccurs` | backend/controller/donorController.js:71 | a substring search succeeds iff the pattern occurs at some position of the subject |
| `Strings.DecimalRoundTrip` | backend/controller/otpController.js:16 | `toString` of a natural number reads back as that number |
| `Sorting.SortBySorted` | backend/controller/bloodBankController.js:36 | sorting by a key yields ascending keys |
| `Sorting.SortByPermutes` | backend/controller/bloodBankController.js:36 | sorting keeps exactly the same elements with the same multiplicities |
| `Sorting.SortByStrict` | backend/routes/stats.js:26 | sorting elements with distinct keys yields strictly ascending keys |
| `UserModel.ParseBloodGroup` | backend/model/userModel.js:21-25 | a blood-group string is accepted iff it names one of the eight enum values, and it is mapped to that value |
| `UserModel.BloodGroupEnum` | backend/model/userModel.js:24 | group names round-trip through the parser, and distinct groups have distinct names |
| `UserModel.BloodGroupsListed` | backend/model/userModel.js:24 | the schema's list has eight entries, holds every group and repeats none |
| `UserModel.ParseGender` | backend/model/userModel.js:11-15 | a gender is accepted iff it is Male, Female or Other |
| `UserModel.PublicHidesOnlyPassword` | backend/model/userModel.js:55-59 | two users look the same in query results iff they differ at most in the password |
| `UserModel.FindById` | backend/controller/donorController.js:45-48 | the lookup finds a user iff one has the id, and the found user has it |
| `UserModel.FindByIdUnique` | backend/controller/donorController.js:45 | with unique ids, the lookup returns the one user holding the id |
| `UserModel.BuildUser` | backend/model/userModel.js:4-61 | a form passes the schema iff every path is given, the trimmed name is non-empty and the enums parse. The stored user is well formed, with the trimmed name, the lower-cased email, the parsed enums, the given values and availability true |
| `UserModel.PreSave` | backend/model/userModel.js:64-68 | the password is replaced by its hash iff it was modified; otherwise the document is saved unchanged |
| `UserModel.UserCollection.Insert` | backend/model/userModel.js:31-41 | an insert succeeds iff no stored user has the email or the phone. On success exactly that user is appended, otherwise nothing changes; uniqueness of id, email and phone is preserved |
| `UserModel.UserCollection.Replace` | backend/controller/donorController.js:50-51 | saving a changed user that keeps its id, email and phone replaces that one record and preserves the invariant |
| `UserController.RegisterReply` | backend/controller/userController.js:5-34 | a missing field gives 400. Registration succeeds (201) iff the form passes the schema and no user has the email or the phone. Every other outcome is one of the duplicate 400s or 500 |
| `UserController.RegisterUser` | backend/controller/userController.js:5-34 | the reply is `RegisterReply` of the old store. On success exactly the new user, with the password hashed, is appended; on failure nothing changes; the invariant is kept |
| `UserController.RegisterDuplicateEmail` | backend/controller/userController.js:15-19 | a lower-case email already stored, with no phone clash, gives 400 "Email already registered" |
| `UserController.RegisterDuplicatePhone` | backend/controller/userController.js:15-22 | a phone already stored, with no email clash, gives 400 "Phone number already registered" |
| `UserController.RegisterDuplicateEither` | backend/controller/userController.js:15-22 | when the email and the phone are held by two different users, the reply is still a 400 duplicate message |
| `UserController.RegisterMixedCaseEmail` | backend/controller/userController.js:15-27 | a mixed-case spelling of a stored email matches the lookup but neither equality check, so the save fails with 500 |
| `UserController.LoginReply` | backend/controller/userController.js:36-84 | a missing email or password gives 400, every 401 carries the same message, and a 200 reports the id, name and email of a user with that email whose hash matches |
| `UserController.LoginDecision` | backend/controller/userController.js:47-61 | with unique emails, login succeeds iff some user has the email and a matching hash; every other outcome is the identical 401 |
| `DonorController.GetDonorProfile` | backend/controller/donorController.js:4-18 | 404 "Donor not found" iff no user has the id, otherwise 200 with that user without the password |
| `DonorController.SearchDonors` | backend/controller/donorController.js:61-80 | 400 "Blood group is required" iff no blood group is given, otherwise 200 with at most as many records as there are users |
| `DonorController.SearchSound` | backend/controller/donorController.js:69-74 | every returned donor has the requested group and is available, and its city contains a given location case-insensitively |
| `DonorController.SearchComplete` | backend/controller/donorController.js:69-74 | every stored donor meeting those conditions is returned |
| `DonorController.Toggled` | backend/controller/donorController.js:50 | an unknown id leaves the users as they were. Otherwise the user with the id has its availability negated, no other field of it changes, and every other user is untouched |
| `DonorController.ToggleTwiceRestores` | backend/controller/donorController.js:50-53 | toggling twice restores the original store |
| `DonorController.ToggleAvailability` | backend/controller/donorController.js:43-58 | an unknown id gives 404 with the store unchanged. Otherwise the store becomes the toggled one and the reply carries the new availability |
| `DonorController.ApplyUpdate` | backend/controller/donorController.js:24-30 | each given blood group, city or availability is written to the user |
| `DonorController.UpdateTouchesOnlyThreePaths` | backend/controller/donorController.js:24-30 | the update changes nothing but blood group, city and availability; `name` and `contact` have no effect; an empty update is the identity; well-formedness is kept |
| `DonorController.UpdateDonorProfile` | backend/controller/donorController.js:21-41 | an invalid update gives 500 and an unknown id 404, both with the store unchanged. Otherwise exactly that user is updated and returned without the password |
| `OtpModel.Upsert` | backend/controller/otpController.js:19-23 | issuing stores the new record; the store grows by one exactly when the email had no record before |
| `OtpModel.Match` | backend/controller/otpController.js:67-70 | the lookup finds a record iff one holds the email and, when a code was submitted, exactly that code; without a code any record for the email matches |
| `OtpModel.CodeMatch` | backend/controller/otpController.js:67-74 | the intended lookup finds a record iff a code was submitted and a record holds that email and exactly that code; with a code it agrees with `Match` |
| `OtpModel.MissingCodeMatches` | backend/controller/otpController.js:59-70 | with a code pending for the email, the lookup without a code succeeds while the intended one fails |
| `OtpModel.RemoveAt` | backend/controller/otpController.js:77 | deleting a record removes one entry and keeps every other |
| `OtpModel.UpsertSpec` | backend/controller/otpController.js:19-23 | after issuing, the email has exactly one record, holding the new code and time. Other emails' records are untouched and emails stay unique |
| `OtpModel.IssuedCodeVerifies` | backend/controller/otpController.js:19-72 | right after issuing, a submitted code verifies iff it equals the new code, so an earlier code no longer verifies |
| `OtpModel.IssuedCodeSurvivesReap` | backend/model/otpModel.js:12-15 | a code issued less than 120 seconds ago survives a pass of the expiry monitor and still verifies |
| `OtpModel.ExpiredCodeIsReaped` | backend/model/otpModel.js:12-15 | once 120 seconds have passed, a pass of the expiry monitor leaves no record for the email |
| `OtpModel.VerifyIsSingleUse` | backend/controller/otpController.js:67-77 | after a successful verify the same code no longer matches |
| `OtpModel.OtpCollection.Issue` | backend/controller/otpController.js:19-23 | issuing makes the store the upsert of the old one and keeps one record per email |
| `OtpModel.OtpCollection.Delete` | backend/controller/otpController.js:77 | deleting makes the store the old one without that record and keeps the invariant |
| `OtpModel.OtpCollection.Reap` | backend/model/otpModel.js:15 | the expiry monitor keeps exactly the unexpired records, in order |
| `OtpModel.ReapKeepsValid` | backend/model/otpModel.js:15 | removing expired records keeps one record per email and non-empty fields |
| `OtpController.IssuedCode` | backend/controller/otpController.js:16 | a draw in [100000, 999999] gives a string of exactly six digits that reads back as the draw |
| `OtpController.IssuedCodeInjective` | backend/controller/otpController.js:16 | different draws give different codes |
| `OtpController.GenerateAndSendOtp` | backend/controller/otpController.js:6-54 | an unknown user gives 404 with the store unchanged. Otherwise the code is upserted for the user's email before sending, and the reply is 200 or, if the mail fails, 500 with the code still stored |
| `OtpController.VerifyOtpAsWritten` | backend/controller/otpController.js:57-85 | an unknown user gives 404 and no match 400 "Invalid OTP", both with the store unchanged. A match under the code-dropping lookup is deleted and answered 200 |
| `OtpController.VerifyWithoutCode` | backend/controller/otpController.js:59-79 | a request without a code matches a pending record, which the handler as written then deletes and answers 200; the intended lookup finds nothing |
| `OtpController.VerifyOtp` | backend/controller/otpController.js:57-85 | as written, except that only the submitted code itself verifies: a missing or wrong code gives 400 with the store unchanged, and a 200 implies a record held exactly the submitted code, which is then deleted |
| `BloodBankModel.BuildBank` | backend/model/bloodBankModel.js:3-30 | a bank is stored iff the trimmed name and the seven required nested paths are given. The nested objects hold the flat values unchanged, the optional email is copied as given, and the embedded list starts empty |
| `BloodBankModel.BankCollection.Insert` | backend/controller/bloodBankController.js:19 | saving appends exactly the new bank and keeps names and ids unique |
| `BloodBankController.AddBankReply` | backend/controller/bloodBankController.js:3-32 | a name equal to a stored name after trimming, or no name while any bank is stored, gives 400. Otherwise an incomplete form gives 500, and a complete one 201 with the built bank |
| `BloodBankController.AddBloodBank` | backend/controller/bloodBankController.js:3-32 | the reply is `AddBankReply` of the old store; on success exactly the new bank is appended, otherwise nothing changes; the invariant is kept |
| `BloodBankController.MissingNameReply` | backend/controller/bloodBankController.js:5-10 | a request without a name gives 400 "already exists" once any bank is stored, and 500 on an empty store |
| `BloodBankController.GetBloodBanks` | backend/controller/bloodBankController.js:34-37 | the listing answers 200 with exactly the stored banks, each as often as stored, in ascending name order |
| `BloodBankController.ListingIsStrict` | backend/controller/bloodBankController.js:36 | with unique names the listing ascends strictly |
| `BloodBankController.AddedBankIsListed` | backend/controller/bloodBankController.js:19-36 | a bank just added appears in the next listing |
| `BloodStats.GetBloodGroupStatistics` | backend/controller/getBloodStatsController.js:5-17 | the table has exactly eight rows, one per group in the order A+, A-, B+, B-, O+, O-, AB+, AB- |
| `BloodStats.TableRowCounts` | backend/controller/getBloodStatsController.js:7-15 | every group has a row whose count is its number of available donors, 0 included |
| `BloodStats.GroupCountsAddUp` | backend/controller/getBloodStatsController.js:8-11 | the eight group counts add up to the number of available users |
| `BloodStats.TableSumIsAvailableCount` | backend/controller/getBloodStatsController.js:8-11 | the table's donor column sums to the number of available users, so unavailable users count nowhere |
| `StatsRoute.PresentGroups` | backend/routes/stats.js:9-17 | the grouping yields exactly the groups with at least one available donor, each once |
| `StatsRoute.ProjectedNamesDistinct` | backend/routes/stats.js:13-23 | each present group is grouped and projected once, so no two rows share a name |
| `StatsRoute.BloodGroupStats` | backend/routes/stats.js:8-28 | the result holds exactly the projected rows, strictly ascending by group name |
| `StatsRoute.ProjectedRows` | backend/routes/stats.js:18-24 | a projected row is the row of one of the grouped groups, and each of them has its row |
| `StatsRoute.AggregateRows` | backend/routes/stats.js:8-28 | the result has a row iff it is the row of a group with an available donor. Every count is at least 1, and the names ascend strictly |
| `StatsRoute.AggregateAgreesWithTable` | backend/routes/stats.js:8-28 | the aggregation's rows are exactly the fixed table's rows with a non-zero count |
| `StatsRoute.NameOrderAscends` | backend/routes/stats.js:26 | the names A+, A-, AB+, AB-, B+, B-, O+, O- ascend strictly in string order |
| `StatsRoute.FullRowsAscend` | backend/routes/stats.js:26 | the eight rows listed in that order ascend strictly by name |
| `StatsRoute.FullTableOrder` | backend/routes/stats.js:26 | with every group present, the result has eight rows in the order A+, A-, AB+, AB-, B+, B-, O+, O- |
| `Booking.ObjectIdText` | backend/model/appointmentModel.js:6 | the cast id is lower-case, names the same ObjectId as the given string, keeps a valid id valid, and leaves a lower-case id as it is |
| `Booking.FindBank` | backend/controller/bookAppointmentController.js:22 | the lookup finds a bank iff a stored id names the same ObjectId, hex digits read in either case, and returns the first such bank |
| `Booking.FindBankIgnoresCase` | backend/controller/bookAppointmentController.js:22 | two spellings of an id that differ only in the case of the digits find the same bank |
| `Booking.UpperCaseIdFindsBank` | backend/controller/bookAppointmentController.js:22-26 | a bank stored as `64b7f0c2a1d3e4f5a6b7c8d9` is found under `64B7F0C2A1D3E4F5A6B7C8D9` |
| `Booking.CreateThenNotify` | backend/controller/bookAppointmentController.js:30-99 | a rejected draft gives 500 with nothing stored. A stored one stays stored whatever follows: a missing user gives 404, and a failed mail 500 |
| `Booking.DraftAsWrittenRejected` | backend/controller/bookAppointmentController.js:31-36 | the record the handler creates lacks the required name snapshots, so validation always rejects it |
| `Booking.BookAppointmentAsWritten` | backend/controller/bookAppointmentController.js:7-101 | a missing field gives 400, an id that is not an ObjectId 500, an unknown bank 404, and every other request 500. No request ever stores an appointment |
| `Booking.BookAppointment` | backend/controller/bookAppointmentController.js:7-101 | the same checks, then the user lookup before creation. A valid request appends exactly one pending appointment with the bank id in its cast lower-case form, the given date and time, and both names; a failed mail gives 500 with it still stored |
| `DonorRegister.CalculateAge` | frontend/src/pages/DonorRegister.jsx:48-55 | the computed age is the number of the last birthday reached: that birthday is on or before today and the next is after |
| `DonorRegister.AgeIsUnique` | frontend/src/pages/DonorRegister.jsx:48-55 | no other number has that property |
| `DonorRegister.AgeOnBirthday` | frontend/src/pages/DonorRegister.jsx:51-53 | on the birthday itself the age is the plain difference of the years |
| `DonorRegister.AgeRisesAtBirthday` | frontend/src/pages/DonorRegister.jsx:51-53 | within one year the age rises by exactly one across the birthday |
| `DonorRegister.AgeMonotone` | frontend/src/pages/DonorRegister.jsx:51-53 | the age never decreases as today moves forward |
| `DonorRegister.RegisterGate` | frontend/src/pages/DonorRegister.jsx:62-74 | the form is submitted iff the date does not parse or the age is at least 18, and the password has at least six characters |
| `DonorRegister.AgeCheckedFirst` | frontend/src/pages/DonorRegister.jsx:62-74 | an under-age user gets the age error whatever the password |
| `DonorRegister.EighteenAllowed` | frontend/src/pages/DonorRegister.jsx:63-67 | an age of exactly 18 passes the age check; only a short password can then stop the form |
| `Navbar.IsActiveLink` | frontend/src/components/Navbar.jsx:63-67 | a link is active on its own page, only on paths it prefixes, and the home link only on "/" |
| `Navbar.LinksOutsideAdmin` | frontend/src/components/Navbar.jsx:43-61 | none of the links the bar can show leads into the admin area |
| `Navbar.NavLinks` | frontend/src/components/Navbar.jsx:43-61 | the bar shows zero, one or five links, never an admin link, and none exactly on admin pages other than the login |
| `Navbar.HomeActiveOnlyAtHome` | frontend/src/components/Navbar.jsx:64 | the home link is active iff the path is exactly "/" |
| `Navbar.PrefixLinksActive` | frontend/src/components/Navbar.jsx:65 | any other link is active iff it is a prefix of the path, so "/donor-home" is active on "/donor-homes" |
| `Navbar.AuthPagesShowHomeOnly` | frontend/src/components/Navbar.jsx:38-44 | the two donor auth pages and the admin login show only the home link, signed in or not |
| `Navbar.AdminLoginIsBoth` | frontend/src/components/Navbar.jsx:37-46 | "/admin/login" is an admin page and an auth page, and the auth-page rule decides |
| `Navbar.AdminPagesShowNothing` | frontend/src/components/Navbar.jsx:45-46 | every other path under "/admin" shows no links |
| `Navbar.PublicPagesShowFive` | frontend/src/components/Navbar.jsx:47-61 | everywhere else there are five links: Dashboard first when signed in, Home first otherwise, then the same four |

## Left out

- Sessions and passwords. JWT signing and verification, cookies, the auth middleware, the admin controller and `logoutUser` are not modelled. `bcrypt.hash` is a parameter, and `bcrypt.compare` is a predicate parameter.
- E-mail. Nodemailer delivery is one boolean, whether the send succeeded. For booking, the message also needs a bank address. The message text is not modelled.
- Randomness and the clock. `Math.random` is a draw passed in with its range. The current date and time are passed in as the `YYYY-MM-DD` and `HH:MM` strings. That the source takes the date in UTC and the time in local time is a time-zone matter and is not modelled.
- The TTL monitor. Its timing is not modelled: `OtpModel.OtpCollection.Reap` removes what may be removed at a given instant.
- Concurrency. The read-then-write race in the toggle is not modelled, nor are the check-then-insert races in registration and bank creation.
- `Strings.ToLower`: lower-cases ASCII letters only, while JavaScript's `toLowerCase` behind the `lowercase` setter also lower-cases other letters (`"ÉLODIE@x.com"` is stored as `"élodie@x.com"`). So `UserModel.BuildUser`, `UserController.EmailOrPhoneMatch`, `UserController.RegisterReply`, `UserController.RegisterMixedCaseEmail` and `UserController.LoginReply` follow the source only for e-mail addresses whose letters outside ASCII are already lower case.
- `DonorRegister.CalculateAge`: takes the year, month and day the `Date` getters report. The page builds that `Date` from the `YYYY-MM-DD` text, which JavaScript reads as midnight UTC, while the getters read local time; west of UTC the birth date therefore reads one day early, and a user on the day before an eighteenth birthday passes the age check. That shift, and the date parsing itself, are not modelled.
- `$regex`. `location` is a literal substring matched case-insensitively over ASCII letters; regular-expression metacharacters are not modelled.
- Character encoding. Strings are sequences of code points; MongoDB's byte-wise UTF-8 comparison orders them the same way. JavaScript's UTF-16 `length` in the password check differs from the code-point count only outside the Basic Multilingual Plane.
- Type casting. `dateOfBirth` is kept as the submitted text: the cast to a `Date`, and the 500 it causes when the cast fails, are not modelled. The cast of a non-boolean `availability` in an update is not modelled either. Query parameters given as arrays are not modelled.
- Database failures. The 500 catch-all for connection or driver errors is not modelled; only the failures the rules themselves cause are.
- Timestamps. The `createdAt`/`updatedAt` fields that `timestamps: true` adds are not modelled.
- Wiring. Routes, server set-up, database configuration and the periodic scheduling of the sweep are not modelled. So are the route file's imports of bank-OTP handlers that the OTP controller does not define.
- The rest of the frontend. Only the registration gate and the navigation bar are modelled; the other pages are rendering and HTTP calls. In the navigation bar, the link icons are not modelled.
- `OtpModel.Match`: a submitted code is a string or absent. A JSON body can also carry an object such as `{"$ne": ""}`, which Mongoose reads as a query operator; `Option<string>` cannot express that, so such requests are not modelled.
- `BloodBankModel.NameTaken`: likewise, a name given as an object that Mongoose reads as a query operator is not modelled; the name is a string or absent.
- `UserController.RegisterDuplicateEither`: when the email and the phone belong to two different users, which 400 message comes back depends on which document `findOne` returns first. The lemma states only that it is one of the two duplicate messages.
- `Booking.DraftAsWrittenRejected`: the exact validation message is stated only for a non-empty user id; for an empty one only the rejection is stated.

## Findings

| source | as written | input that shows it | evidently intended | confidence | as-written member | corrected member |
|---|---|---|---|---|---|---|
| backend/controller/bookAppointmentController.js:31-36 | `Appointment.create` is given only `user`, `bloodBank`, `date` and `time`, while the schema requires `userName` and `bloodBankName`, so validation throws and the handler answers 500 | any request with all three fields and the id of a stored bank, e.g. `{bloodBankId: <stored id>, date: "2099-01-01", time: "10:00"}` from a registered donor | look the user up first and store the donor's and the bank's names with the appointment, answering 201 | high; not executed | `Booking.BookAppointmentAsWritten` | `Booking.BookAppointment` |
| backend/controller/otpController.js:59-79 | the code is read from the body and put straight into `findOne({ email, otp })`; when the body has no `otp`, Mongoose drops the `undefined` key and the filter becomes `findOne({ email })` | a signed-in donor with a code pending posts `{}` to the verify route | refuse a request without a code with 400 "Invalid OTP", as a wrong code is refused | high; not executed | `OtpController.VerifyOtpAsWritten` | `OtpController.VerifyOtp` |
