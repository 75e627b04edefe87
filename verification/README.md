# Postman core, modelled in Dafny

Postman is a small tool. It keeps a list of mail subscribers and sends them a daily mail of stock-price charts. This project models the deterministic core of the C# program, plus the Python twin of its hash:

- **`StringHash.SDBMLower`** (`stringhash.dfy`). A lower-casing SDBM hash: a 32-bit wrap-around fold over the UTF-16 code units of a string. It gives every subscriber its primary key.
- **`sdbm_lower`** (`pystringhash.dfy`). The Python port. It lower-cases the whole string first and then folds over code points.
- **`Subscriber`** (`subscriber.dfy`). The two constructors: one derives `Id` from the email, the other takes stored fields as they are.
- **`SubscribeManager`** (`subscribemanager.dfy`). The id-keyed subscriber table.
  - `Subscribe` and `Unsubscribe`, including the argument check that throws.
  - The refresh from the store, used by the constructor and by `GetSubscribers`.
- **`DailyMailBuilder`** (`dailymailbuilder.dfy`).
  - `Build`: substitutes placeholders into the template. This is proved for every template of literals and placeholders, together with the case where a name between two placeholders is captured.
  - `ChartData`: the constructor's null checks and `BuildFunction`, which writes the Google Charts script. The script has one data row per date in the union of the two price maps.
  - A reader for the data rows, used to prove that every row says what it should.
- **`ExtensionMethod.Split`** (`extensionmethod.dfy`). Chunking of a collection.
  - As a value: the list of chunks.
  - As the enumerator-driven loop of `Split` and `NextChunk`, proved to yield the same chunks.
- **`Program`** (`program.dfy`).
  - The `;`-separated address list of the subscribe option.
  - `LoadGmailCredential`: the credential-line selection and the exceptions that are caught or escape.
  - `SendDailyMail`: the "no subscribers, no mail" guard, then the send to every subscriber's address with the loaded credential.

Supporting modules:

- `wrappers.dfy`: `Nullable`, the .NET exceptions the core throws, and `Outcome` (returned or threw).
- `seqs.dfy`: flatten, filter and count over sequences.
- `text.dfy`: the .NET string operations the core uses, each with its algebra. These are `IsNullOrWhiteSpace`, `Trim`, `Replace`, `Split` and `Join`.
- `decimal.dfy`: integer-to-decimal text, with its parser.
- `dates.dfy`: dates as year/month/day, and the ascending ordering of a set of dates.

External services become parameters of the model:

- The database's add operation is a function `Subscriber -> bool`. Select-all is a sequence of rows with distinct ids. Remove is recorded as a call and never fails visibly.
- `EmailValidator.Validate` is a predicate parameter.
- The `MailAddress` parser that `GmailSender` uses for the sender address is a predicate parameter, `addressAccepts`.
- The `ProjectNickname` setting is a parameter of `SendDailyMail`.
- The undefined `Subscriber.Token` is a function parameter.
- The credential file is a parameter: its lines, file-not-found with the outcome of writing the sample file, another read error, or denied access.

Everything is an immutable value. A `Subscriber` never changes once built, and `Build` is a function of the builder, so two calls give the same text.

## Model

| member | source | states |
|---|---|---|
| StringHash.SDBMLower | Postman/StringHash.cs:9-23 | null hashes to 0, and so does the empty string; the result is a signed 32-bit value congruent mod 2^32 to the fold over the UTF-16 units |
| StringHash.StepIsMultiplyAdd | Postman/StringHash.cs:19 | `Step`, the shift-and-subtract step `(h<<6)+(h<<16)-h+c`, with every C# cast and wrap, equals `h*65599 + c` mod 2^32 |
| StringHash.FoldSnoc | Postman/StringHash.cs:17-20 | folding `units + [u]` is one more step, with the lower-cased `u`, on the fold of `units` |
| StringHash.FoldIsPoly | Postman/StringHash.cs:16-22 | `Fold`, the loop from 0 over the code units, is the polynomial in 65599 of the lower-cased code units, mod 2^32 |
| StringHash.AppendChar | Postman/StringHash.cs:17-20 | appending a BMP character to a string applies one multiply-add step to its hash accumulator |
| StringHash.SameUpToCaseSameHash | Postman/StringHash.cs:19 | two strings equal up to ASCII letter case hash to the same value |
| StringHash.HashIgnoresCase | Postman/StringHash.cs:19 | a string, its lower-cased form and its upper-cased form all hash alike |
| StringHash.Utf16Append | Postman/StringHash.cs:17 | the UTF-16 encoding of a concatenation is the concatenation of the encodings |
| StringHash.ToInt32 | Postman/StringHash.cs:22 | the `(int)` reinterpretation is congruent to its input mod 2^32 and keeps values already below 2^31 |
| PyStringHash.SdbmLower | PostmanPython/stringhash.py:4-13 | `None` and `""` hash to 0; the result is in the int32 range |
| PyStringHash.PyStepIsMultiplyAdd | PostmanPython/stringhash.py:11 | `PyStep`, the Python step with its `int32`/`uint32` reductions is `v*65599 + ord(c)` mod 2^32 |
| PyStringHash.PyFoldSnoc | PostmanPython/stringhash.py:10-11 | the loop over `s + [c]` is one step on the loop over `s` |
| PyStringHash.PyFoldIsPoly | PostmanPython/stringhash.py:9-13 | `PyFold`, the `for` loop from 0, is the polynomial in 65599 of the code points, mod 2^32 |
| PyStringHash.LowerFirstSameHash | PostmanPython/stringhash.py:8 | because the string is lower-cased first, `sdbm_lower(s.lower()) == sdbm_lower(s)` |
| PyStringHash.AgreesWithCSharpOnBmp | PostmanPython/stringhash.py:8-13 | on strings with no character above U+FFFF the Python and C# hashes are equal, under the model's ASCII-only lower-casing of both |
| PyStringHash.DisagreesOnSupplementaryChar | PostmanPython/stringhash.py:10-11 | on U+10000 they differ, because Python folds one code point and C# folds two surrogates |
| Subscribers.FromEmail | Postman/Subscriber.cs:13-18 | the id is `SDBMLower` of the email, and the email is stored verbatim with the given timestamp |
| Subscribers.FromRow | Postman/Subscriber.cs:20-25 | id, email and date are stored unchanged, with no hash recomputed |
| Subscribers.SameIdUpToCase | Postman/Subscriber.cs:15 | emails differing only in letter case give subscribers with equal ids |
| SubscribeManager.SubscribeCall | Postman/SubscribeManager.cs:39-44 | throws `ArgumentNullException("email")` exactly when the email is null or blank, and otherwise performs `Subscribe` |
| SubscribeManager.Subscribe | Postman/SubscribeManager.cs:46-67 | succeeds iff the trimmed email is valid, its id is absent and the store accepts the row; on success the table gains exactly that entry; on failure it is unchanged; no existing entry changes; the store is called only when validation and the id check pass; the id invariant is kept |
| SubscribeManager.UnsubscribeCall | Postman/SubscribeManager.cs:70-75 | throws `ArgumentNullException("email")` exactly when the email is null or blank, and otherwise performs `Unsubscribe` |
| SubscribeManager.Unsubscribe | Postman/SubscribeManager.cs:77-94 | succeeds iff the trimmed email is valid and its id is present; on success exactly that key is removed and a store removal is issued; on failure the table is unchanged; the id invariant is kept |
| SubscribeManager.Refreshed | Postman/SubscribeManager.cs:104-116 | an empty store read leaves the table alone; a non-empty read makes the table exactly the rows, keyed by id |
| SubscribeManager.UpdateSubscriberTable | Postman/SubscribeManager.cs:104-116 | the clear-then-add loop computes the refreshed table, which has as many entries as rows |
| SubscribeManager.Create | Postman/SubscribeManager.cs:17-22 | the constructor's first refresh starts from the empty table and yields a table keyed by id |
| SubscribeManager.GetSubscribers | Postman/SubscribeManager.cs:97-102 | refreshes, then returns the table's values: the store rows when there are any, else the previous subscribers |
| SubscribeManager.RefreshedValues | Postman/SubscribeManager.cs:104-116 | after a non-empty refresh the table's values are exactly the rows read |
| SubscribeManager.SubscribeThenUnsubscribe | Postman/SubscribeManager.cs:46-94 | a successful subscribe followed by an unsubscribe of an email equal up to case and surrounding blanks succeeds and restores the original table |
| SubscribeManager.SubscribeTwiceRejected | Postman/SubscribeManager.cs:53-58 | after a successful subscribe, subscribing the same address in any case is rejected without a store call |
| SubscribeManager.RunKeepsKeyedById | Postman/SubscribeManager.cs:39-116 | `Run`, any sequence of subscribe, unsubscribe and refresh calls keeps every key equal to its subscriber's id |
| DailyMailBuilder.NewChartData | Postman/DailyMailBuilder.cs:45-50 | the constructor succeeds iff all three arguments are non-null, and otherwise throws for the first null one, in parameter order |
| DailyMailBuilder.RowDates | Postman/DailyMailBuilder.cs:65 | the row dates are the union of both maps' keys, strictly ascending, with no duplicates |
| DailyMailBuilder.BuildFunctionLayout | Postman/DailyMailBuilder.cs:56-103 | `BuildFunction`: the script starts with `function <name>`, carries the data rows right after the fixed header, and ends with the title, the chart element id and the fixed tail |
| DailyMailBuilder.ChartRowsSpec | Postman/DailyMailBuilder.cs:65-93 | spells out the reference `ChartRows` that `RowsTextReadsBack` compares with: one row per date of the union; each row holds year, `Month - 1`, day, and each cell is that map's price or `null` |
| DailyMailBuilder.ParseCellOfCell | Postman/DailyMailBuilder.cs:75-91 | a price cell reads back as the mapped price when the date is a key, else as `null` |
| DailyMailBuilder.ParseRowOfRow | Postman/DailyMailBuilder.cs:68-92 | one emitted row reads back as its date fields and two cells, leaving the rest of the text |
| DailyMailBuilder.ParseRowsOfRows | Postman/DailyMailBuilder.cs:66-93 | the rows emitted for any date sequence read back as exactly that sequence of row values |
| DailyMailBuilder.RowsTextReadsBack | Postman/DailyMailBuilder.cs:64-94 | the data-row text of a chart reads back as exactly its chart rows, in order |
| DailyMailBuilder.AppendSections | Postman/DailyMailBuilder.cs:27-35 | the loop builds the chart elements, callbacks and functions for indices 0..n-1 in index order |
| DailyMailBuilder.FunctionsSnoc | Postman/DailyMailBuilder.cs:30-35 | one more chart appends exactly its `drawChart{i}` function to the function section |
| DailyMailBuilder.ElementsSnoc | Postman/DailyMailBuilder.cs:32 | one more index appends exactly the `chart{i}` element |
| DailyMailBuilder.CallbacksSnoc | Postman/DailyMailBuilder.cs:33 | one more index appends exactly the `drawChart{i}` callback |
| DailyMailBuilder.Build | Postman/DailyMailBuilder.cs:21-41 | a missing receiver throws a null reference error, and only then |
| DailyMailBuilder.BuildWithoutPlaceholders | Postman/DailyMailBuilder.cs:23-38 | a template without `%` comes back unchanged |
| DailyMailBuilder.BuildFillsPlaceholder | Postman/DailyMailBuilder.cs:23-38 | a template with one placeholder gets exactly that placeholder replaced by its filling and nothing else changed |
| DailyMailBuilder.BuildFillsTemplate | Postman/DailyMailBuilder.cs:21-41 | for every template made of '%'-free literals and placeholders, where no literal between two placeholders is empty or a lower-case word (so no two placeholders are adjacent), and a '%'-free address and token: every `%email%`, `%token%`, `%chart%`, `%callback%` and `%function%` becomes its filling, any other placeholder stays, and the literals are kept in place |
| DailyMailBuilder.StageChain | Postman/DailyMailBuilder.cs:23-38 | the five `Replace` calls, in source order, take such a template through four intermediate texts to the filled text |
| DailyMailBuilder.BuildWithoutCharts | Postman/DailyMailBuilder.cs:27-38 | with no charts, every chart, callback and function placeholder of such a template becomes empty and the address and token are filled in |
| DailyMailBuilder.NameBetweenPlaceholdersCaptured | Postman/DailyMailBuilder.cs:24-38 | in `%c%email%t%` the first `Replace` takes the middle `%email%`, so `%c%` and `%t%` are never filled: why the whole-template property needs its side condition |
| DailyMailBuilder.ChartEmailTokenCaptured | Postman/DailyMailBuilder.cs:24-38 | `%chart%email%token%` builds to `%chart` + address + `token%`: no chart and no token are filled in |
| Dates.Sorted | Postman/DailyMailBuilder.cs:65 | the ordering of a set of dates is strictly ascending and holds exactly the set's members |
| Dates.EarliestExists | Postman/DailyMailBuilder.cs:65 | every non-empty set of dates has an earliest member |
| Decimal.IntToStringRoundTrip | Postman/DailyMailBuilder.cs:69-77 | the decimal text of any integer parses back to it |
| Text.TrimStart | Postman/SubscribeManager.cs:46 | the result is a suffix of the input, the dropped prefix is white space, and the result does not start with white space |
| Text.TrimEnd | Postman/SubscribeManager.cs:46 | the result is a prefix of the input, the dropped suffix is white space, and the result does not end with white space |
| Text.Trim | Postman/SubscribeManager.cs:46 | the result is the input with leading and trailing white space removed, and it is empty iff the input is all white space |
| Text.TrimOfBlankIsEmpty | Postman/SubscribeManager.cs:41-46 | `IsNullOrWhiteSpace` of a string holds iff its trim is empty |
| Text.Split | Postman/Program.cs:115 | `Split` always returns at least one piece, the empty string giving one empty piece |
| Text.ReplaceIsJoinOfSplit | Postman/DailyMailBuilder.cs:24-38 | `ReplaceAll`, replacing every occurrence, equals splitting on the old value and joining with the new one |
| Text.ReplaceAbsent | Postman/DailyMailBuilder.cs:24-38 | replacing a value that does not occur changes nothing |
| Text.ReplaceOnlyOccurrence | Postman/DailyMailBuilder.cs:24 | a single occurrence whose first character appears nowhere else is replaced in place |
| Text.JoinSplit | Postman/Program.cs:115 | joining the pieces of a split with the same separator gives back the string |
| Text.SplitPiecesAvoidSeparator | Postman/Program.cs:192 | no piece of a split contains the separator |
| Text.SplitAroundSeparator | Postman/Program.cs:115 | splitting `a;b` on `;` gives the pieces of `a` followed by the pieces of `b` |
| Text.SplitCharPieceCount | Postman/Program.cs:192-193 | splitting on a character gives one more piece than there are occurrences of it |
| ExtensionMethod.Clamp | Postman/ExtensionMethod.cs:11 | `Math.Clamp` throws an argument error iff min > max, and otherwise returns the nearest value in range |
| ExtensionMethod.ClampOfSplitSize | Postman/ExtensionMethod.cs:11 | the clamp is the identity on sizes of at least 1 and throws below that |
| ExtensionMethod.Chunks | Postman/ExtensionMethod.cs:13-26 | the chunks concatenate to the input; each is non-empty and at most the size; all but the last have exactly the size |
| ExtensionMethod.ChunksCount | Postman/ExtensionMethod.cs:13-17 | n elements make ceil(n / size) chunks, so empty input makes none |
| ExtensionMethod.Split | Postman/ExtensionMethod.cs:9-18 | throws iff the size is below 1, and otherwise has the chunk properties and count |
| ExtensionMethod.NextChunk | Postman/ExtensionMethod.cs:20-27 | the do-while yields the next `splitSize` elements, or the rest, and leaves the cursor on the last element read after a full chunk, or past the end after a short one |
| ExtensionMethod.SplitEnumerated | Postman/ExtensionMethod.cs:9-27 | the enumerator loop with its shared cursor yields exactly the value-level `Split` |
| ExtensionMethod.ChunksSnoc | Postman/ExtensionMethod.cs:13-26 | after whole chunks, one more chunk read is appended to the list as it is |
| Program.EmailList | Postman/Program.cs:115 | every kept piece is non-empty and contains no `;` |
| Program.EmailListConcat | Postman/Program.cs:115 | the list of `a;b` is the list of `a` followed by the list of `b`, so the pieces keep their order |
| Program.EmailListOfOne | Postman/Program.cs:115 | a non-empty argument without `;` is a one-address list |
| Program.BlankPieceKept | Postman/Program.cs:115 | a whitespace-only piece survives the length filter |
| Program.NonBlankIsEmailListWithoutBlanks | Postman/Program.cs:115 | the corrected list is the as-written list with blank pieces removed |
| Program.SubscribeAll | Postman/Program.cs:117-120 | subscribing each address in turn throws `ArgumentNullException("email")` iff some address is blank; otherwise it keeps the id invariant and every existing entry |
| Program.SubscribeAllKeys | Postman/Program.cs:117-120 | without a blank address the keys afterwards are the keys before plus the keys of the addresses that are valid once trimmed and that the store takes |
| Program.SubscribeAllFirstWins | Postman/Program.cs:117-120 | a new key holds the subscriber of the first accepted address with that key; later addresses with the same key are rejected duplicates |
| Program.SubscribeOption | Postman/Program.cs:113-121 | a blank option does nothing; otherwise it is `SubscribeAll` over `EmailList`, any exception is the `email` argument exception, existing entries stay, and on return the keys added are exactly the accepted addresses' keys |
| Program.TrailingBlankThrows | Postman/Program.cs:113-121 | the option `e; ` for one address `e` throws `ArgumentNullException` |
| Program.SubscribeOptionCorrected | Postman/Program.cs:113-121 | with blank pieces skipped, the option never throws, keeps the id invariant and existing entries, and adds exactly the accepted addresses' keys |
| Program.CorrectedAgreesWithoutBlanks | Postman/Program.cs:113-121 | when no piece is blank, the corrected option equals the as-written one |
| Program.AcceptableHasOneSlash | Postman/Program.cs:192-193 | a line splits into exactly two parts iff it has exactly one `/`, so every accepted line has exactly one |
| Program.FirstAcceptableUnique | Postman/Program.cs:190-214 | there is at most one first acceptable line, and there is one as soon as any line is acceptable |
| Program.SelectCredential | Postman/Program.cs:190-214 | the result is null iff no line is acceptable, and otherwise it is the credential of the first acceptable line |
| Program.LoadGmailCredential | Postman/Program.cs:181-227 | a blank path throws `ArgumentNullException("path")`; a denied read throws `UnauthorizedAccessException`, which neither catch handles; a missing file gives null once the sample file is written, and a failure of that write propagates; another I/O error gives null; otherwise the first acceptable line wins, or null |
| Program.NewGmailSender | Postman/GmailSender.cs:17-36 | the sender is built iff account, password and display name are not blank and the account parses as a mail address; a blank argument throws `ArgumentException`, a rejected address `FormatException` |
| Program.SenderOfAcceptable | Postman/GmailSender.cs:19-35 | for the credential of an acceptable line the blank account and password checks cannot fire: only a blank display name or a rejected address stops the sender |
| Program.SendDailyMail | Postman/Program.cs:142-179 | the table is refreshed first; with no subscribers nothing is sent and the file is not read; otherwise each outcome of the credential load decides the result: its exception or no mail; with a credential, a blank project nickname throws `ArgumentException`, an address `MailAddress` rejects throws `FormatException`, and otherwise a mail goes to exactly the subscribers' addresses with the first acceptable line's credential |
| Program.SendWithCredential | Postman/Program.cs:152-175 | with recipients in hand: each outcome of the credential load and of the sender's construction gives its exception, no mail, or a send to those recipients with the first acceptable line's credential |

## Left out

- Database, SMTP, file and console I/O, logging, the command-line parser and the lock-guarded singletons are not modelled. The store, the validator, the token and the file contents are parameters.
- Writing the sample credential file after `FileNotFoundException` is modelled only by its outcome: it returns, or it throws, and that exception propagates. What it writes is not modelled.
- `File.ReadAllLines` failures other than a missing file, another `IOException` and `UnauthorizedAccessException` (`ArgumentException`, `NotSupportedException`, `SecurityException`) are not modelled. The path is an opaque value.
- The clock is left out: `DateTime.Now`, `DateTime.Today` and the subject/body chosen from the seconds. A timestamp is an opaque value, and a chart date is a year/month/day triple without time of day.
- StringHash.SDBMLower: only well-formed UTF-16 strings are modelled. A Dafny `string` holds Unicode scalar values, so a C# string with a lone surrogate cannot be passed to it.
- `char.ToLower` and `str.lower` are modelled for ASCII letters only. Culture-dependent and non-ASCII case mapping is left out.
- PyStringHash.AgreesWithCSharpOnBmp: the agreement holds under the ASCII-only lower-casing. With real Unicode mapping the two ports part on some BMP strings. Python lower-cases a word-final 'Σ' to 'ς' (U+03C2), but C# gives 'σ' (U+03C3). Python turns 'İ' (U+0130) into two code points, 'i' and U+0307, but C# gives one char.
- DailyMailBuilder.BuildFillsTemplate: requires an address and a token without '%'. The later `Replace` calls scan what the earlier ones wrote, so a '%' in them can form a new placeholder. That case is not stated.
- DailyMailBuilder.BuildFillsTemplate: also excludes templates with two adjacent placeholders, such as `%callback%%function%`. An empty literal counts as a lower-case word. The exclusion is needed in general: in `%x%%email%%y%` with the address `chart`, the first step writes `%x%chart%y%` and the chart step then takes `%chart%`. The same exclusion applies to `StageChain` and `BuildWithoutCharts`.
- PyStringHash.PyStep: the unseen `mytype.int32`/`uint32` helpers are taken to reduce modulo 2^32, and the final subtraction is reduced as well. Their source is not part of this model.
- `Int32.ToString` is modelled as plain decimal text with a leading `-`. Culture-specific number formats are left out.
- Prices and date fields are unbounded integers. The model does not enforce the int32 range of the dictionary values.
- SubscribeManager.Refreshed: requires the store's rows to have distinct ids. The store's primary key guarantees this. A duplicate would make `Dictionary.Add` throw, which is not modelled.
- SubscribeManager.Subscribe: requires a non-blank email. The throwing path is modelled separately by `SubscribeCall`.
- SubscribeManager.Unsubscribe: requires a non-blank email. The throwing path is modelled separately by `UnsubscribeCall`.
- The unsubscribe option of `HandleOptions` (Postman/Program.cs:124-133) calls `Unsubscribe(email, token)`, which does not match the one-argument `Unsubscribe` defined in `SubscribeManager`. That loop is not modelled. Its address list is the same `EmailList`.
- Program.NewGmailSender: the rules of the `MailAddress` parser (Postman/GmailSender.cs:35) are the parameter `addressAccepts`; any effect of the display name on parsing is not modelled.
- `mailSender.SendMail` (Postman/Program.cs:175) does not match the shown `IMailSender` definition. The send is modelled as a `Send` decision carrying the recipient set and the credential, with nothing sent per subscriber.
- `Subscriber.Token` is not defined in the shown source. `Build` takes it as a function, and no encoding is invented for it.
- `new Subscriber(null)` is not modelled: emails are non-null strings. The hash itself still handles a null input.
- Program.SubscribeAll: a run that throws returns only the exception. The addresses subscribed before the blank piece stay stored in the database and in the table, but the `Threw` outcome does not carry that table.
- Program.SubscribeAll: uses one timestamp for every address of a run, where the source reads the clock once per address.
- ExtensionMethod.Split: the C# method is lazy. Its argument exception surfaces only when enumeration starts. Chunks share one enumerator, so reading them out of order or partially gives other results. The model covers only the reading where each chunk is read to the end, in order.
- DailyMailBuilder.Build: models a null receiver as a null reference error. A null template or a null chart list is not modelled, since the constructor always sets the list and the template is a value.
- The model follows the code. It has no chart deduplication and no `%predictdate%` placeholder. It sends one mail with every subscriber as a recipient, not one mail per subscriber.

## Findings

| source | as written | input that shows it | evidently intended | confidence | as-written member | corrected member |
|---|---|---|---|---|---|---|
| Postman/Program.cs:115 | the filter `x.Length > 0` keeps whitespace-only pieces, and `Subscribe(" ")` then throws an uncaught `ArgumentNullException`, which ends the whole option run; the addresses before the blank piece were already stored by `Subscribe` and stay stored | the subscribe option `a@b.com; ` (a trailing blank after the last `;`) | skip blank pieces, as the later `IsNullOrWhiteSpace` check suggests | medium, not executed | Program.TrailingBlankThrows | Program.SubscribeOptionCorrected |
