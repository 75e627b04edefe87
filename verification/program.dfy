/** The pure parts of `Program`: the `;`-separated address lists of the
    command line, the choice of a Gmail credential line, and the guard that
    stops the daily mail when nobody is subscribed. Console, file and mail
    I/O are parameters: the file arrives as its lines or as the failure the
    read ended in. */
module Program {
  import opened Wrappers
  import opened Seqs
  import opened Text
  import opened Subscribers
  import opened SubscribeManager

  // Address lists.

  predicate NonEmpty(x: string) {
    |x| > 0
  }

  predicate NotBlank(x: string) {
    !IsNullOrWhiteSpace(NonNull(x))
  }

  /** `arg.Split(';').Where(x => x.Length > 0)`: the pieces between
      semicolons, in order, with only the zero-length ones dropped. */
  function EmailList(arg: string): (r: seq<string>)
    ensures forall k | 0 <= k < |r| :: |r[k]| > 0 && ';' !in r[k]
  {
    var pieces := Split(arg, [';']);
    SplitPiecesAvoidSeparator(arg, [';']);
    forall k | 0 <= k < |pieces| ensures ';' !in pieces[k] {
      CharAbsent(pieces[k], ';');
    }
    var r := Filter(NonEmpty, pieces);
    assert forall k | 0 <= k < |r| :: r[k] in r;
    r
  }

  /** No text, no addresses. */
  lemma EmailListOfEmpty()
    ensures EmailList([]) == []
  {
    assert Split([], [';']) == [[]];
  }

  /** A non-empty text without a semicolon is one address, kept verbatim
      (surrounding spaces included). */
  lemma EmailListOfOne(x: string)
    requires |x| > 0 && ';' !in x
    ensures EmailList(x) == [x]
  {
    SplitWithoutSeparator(x, ';');
  }

  /** The list of `a;b` is the list of `a` followed by the list of `b`: the
      addresses keep their order and nothing is merged or removed across a
      semicolon. */
  lemma EmailListConcat(a: string, b: string)
    ensures EmailList(a + ";" + b) == EmailList(a) + EmailList(b)
  {
    assert a + ";" + b == a + [';'] + b;
    SplitAroundSeparator(a, ';', b);
    FilterAppend(NonEmpty, Split(a, [';']), Split(b, [';']));
  }

  /** Only zero-length pieces are dropped: a piece of spaces is kept. */
  lemma BlankPieceKept(a: string, b: string)
    ensures EmailList(a + "; ;" + b) == EmailList(a) + [" "] + EmailList(b)
  {
    var x := " " + ";" + b;
    assert EmailList(a + "; ;" + b) == EmailList(a + ";" + x) by {
      assert a + "; ;" + b == a + ";" + x;
    }
    assert EmailList(a + ";" + x) == EmailList(a) + EmailList(x) by {
      EmailListConcat(a, x);
    }
    assert EmailList(x) == [" "] + EmailList(b) by {
      EmailListConcat(" ", b);
      EmailListOfOne(" ");
    }
  }

  /** The blank-skipping list the subscribe loop evidently expects: the
      pieces between semicolons that are not all whitespace. */
  function NonBlankEmailList(arg: string): (r: seq<string>)
    ensures forall k | 0 <= k < |r| :: NotBlank(r[k])
  {
    var r := Filter(NotBlank, Split(arg, [';']));
    assert forall k | 0 <= k < |r| :: r[k] in r;
    r
  }

  /** The corrected list is the written one without its whitespace-only pieces. */
  lemma NonBlankIsEmailListWithoutBlanks(arg: string)
    ensures NonBlankEmailList(arg) == Filter(NotBlank, EmailList(arg))
  {
    var pieces := Split(arg, [';']);
    forall x | x in pieces ensures NotBlank(x) ==> NonEmpty(x) {
      if |x| == 0 {
        assert AllWhiteSpace(x);
      }
    }
    FilterFilter(NotBlank, NonEmpty, pieces);
  }

  // The subscribe option of `HandleOptions`.

  /** `Subscribe` on each address in turn, the first exception ending the
      loop. Every subscriber is stamped with the same `now`. */
  function SubscribeAll(table: Table, emails: seq<string>, validate: string -> bool,
                        storeAdd: Subscriber -> bool, now: Timestamp): (r: Outcome<Table>)
    ensures r.Threw? <==> SomeBlank(emails)
    ensures r.Threw? ==> r.error == ArgumentNull("email")
    ensures r.Returned? && KeyedById(table) ==> KeyedById(r.value)
    ensures r.Returned? ==> forall id | id in table :: id in r.value && r.value[id] == table[id]
    decreases |emails|
  {
    if |emails| == 0 then Returned(table)
    else
      var call := SubscribeCall(table, NonNull(emails[0]), validate, storeAdd, now);
      if call.Threw? then
        assert !NotBlank(emails[0]);
        Threw(call.error)
      else
        var next := call.value.table;
        assert KeyedById(table) ==> KeyedById(next);
        assert forall id | id in table :: id in next && next[id] == table[id];
        SomeBlankCons(emails);
        SubscribeAll(next, emails[1..], validate, storeAdd, now)
  }

  /** Without an exception, the keys added are exactly those of the accepted
      addresses. */
  lemma {:induction false} SubscribeAllKeys(table: Table, emails: seq<string>, validate: string -> bool,
                                            storeAdd: Subscriber -> bool, now: Timestamp)
    requires !SomeBlank(emails)
    ensures var r := SubscribeAll(table, emails, validate, storeAdd, now);
      r.Returned? && r.value.Keys == table.Keys + AddedKeys(emails, validate, storeAdd, now)
    decreases |emails|
  {
    if |emails| > 0 {
      var e, rest := emails[0], emails[1..];
      SomeBlankCons(emails);
      var next := SubscribeAllCons(table, emails, validate, storeAdd, now);
      SubscribeAllKeys(next, rest, validate, storeAdd, now);
      AddedKeysCons(emails, validate, storeAdd, now);
      var ok := SubscribeOnceKeys(table, e, validate, storeAdd, now);
      var t := SubscribeAll(next, rest, validate, storeAdd, now).value;
      KeysStep(table.Keys, next.Keys, t.Keys, AddedKeys(rest, validate, storeAdd, now),
               AddedKeys(emails, validate, storeAdd, now), KeyOf(e), Accepted(e, validate, storeAdd, now), ok);
    } else {
      assert AddedKeys(emails, validate, storeAdd, now) == {};
    }
  }

  /** A list that starts with a non-blank address is that address's
      `Subscribe` followed by the rest of the list. */
  lemma SubscribeAllCons(table: Table, emails: seq<string>, validate: string -> bool,
                         storeAdd: Subscriber -> bool, now: Timestamp) returns (next: Table)
    requires |emails| > 0 && NotBlank(emails[0])
    ensures next == Subscribe(table, emails[0], validate, storeAdd, now).table
    ensures SubscribeAll(table, emails, validate, storeAdd, now) == SubscribeAll(next, emails[1..], validate, storeAdd, now)
  {
    next := Subscribe(table, emails[0], validate, storeAdd, now).table;
    assert SubscribeCall(table, NonNull(emails[0]), validate, storeAdd, now).Returned?;
  }

  /** The keys after one `Subscribe`, and how its success relates to acceptance. */
  lemma SubscribeOnceKeys(table: Table, e: string, validate: string -> bool,
                          storeAdd: Subscriber -> bool, now: Timestamp) returns (ok: bool)
    requires NotBlank(e)
    ensures ok == Subscribe(table, e, validate, storeAdd, now).ok
    ensures Subscribe(table, e, validate, storeAdd, now).table.Keys == table.Keys + (if ok then {KeyOf(e)} else {})
    ensures ok ==> Accepted(e, validate, storeAdd, now)
    ensures Accepted(e, validate, storeAdd, now) && !ok ==> KeyOf(e) in table.Keys
  {
    ok := Subscribe(table, e, validate, storeAdd, now).ok;
  }

  /** One address of the loop, as sets: the key it adds, if any, is one the
      accepted keys count, and an accepted key it does not add was there. */
  lemma KeysStep(before: set<int>, next: set<int>, after: set<int>, later: set<int>, added: set<int>,
                 k: int, accepted: bool, ok: bool)
    requires next == before + (if ok then {k} else {})
    requires after == next + later
    requires added == (if accepted then {k} else {}) + later
    requires ok ==> accepted
    requires accepted && !ok ==> k in before
    ensures after == before + added
  {
  }

  /** Without an exception, a new key holds the row of the first address
      accepted under it: a later address with the same key is a duplicate. */
  lemma {:induction false} SubscribeAllFirstWins(table: Table, emails: seq<string>, validate: string -> bool,
                                                 storeAdd: Subscriber -> bool, now: Timestamp)
    requires !SomeBlank(emails)
    ensures var r := SubscribeAll(table, emails, validate, storeAdd, now);
      && r.Returned?
      && forall id, i | id !in table && FirstAccepted(emails, i, id, validate, storeAdd, now) ::
           id in r.value && r.value[id] == FromEmail(Trim(emails[i]), now)
    decreases |emails|
  {
    if |emails| > 0 {
      var e, rest := emails[0], emails[1..];
      SomeBlankCons(emails);
      var reply := Subscribe(table, e, validate, storeAdd, now);
      var next := SubscribeAllCons(table, emails, validate, storeAdd, now);
      SubscribeAllFirstWins(next, rest, validate, storeAdd, now);
      FirstAcceptedCons(emails, validate, storeAdd, now);
      var t := SubscribeAll(next, rest, validate, storeAdd, now).value;
      forall id, i | id !in table && FirstAccepted(emails, i, id, validate, storeAdd, now)
        ensures id in t && t[id] == FromEmail(Trim(emails[i]), now)
      {
        if i == 0 {
          assert reply.ok && next[id] == FromEmail(Trim(e), now);
        } else {
          assert id !in next;
        }
      }
    }
  }

  /** The address gets past `Subscribe`'s checks other than the duplicate one:
      it is valid once trimmed and the store takes its row. */
  predicate Accepted(e: string, validate: string -> bool, storeAdd: Subscriber -> bool, now: Timestamp) {
    validate(Trim(e)) && storeAdd(FromEmail(Trim(e), now))
  }

  /** The keys of the accepted addresses of the list. */
  function AddedKeys(emails: seq<string>, validate: string -> bool, storeAdd: Subscriber -> bool, now: Timestamp): set<int> {
    set k | 0 <= k < |emails| && Accepted(emails[k], validate, storeAdd, now) :: KeyOf(emails[k])
  }

  /** `emails[i]` is the first accepted address whose key is `id`. */
  predicate FirstAccepted(emails: seq<string>, i: int, id: int, validate: string -> bool,
                          storeAdd: Subscriber -> bool, now: Timestamp) {
    && 0 <= i < |emails| && Accepted(emails[i], validate, storeAdd, now) && KeyOf(emails[i]) == id
    && forall k | 0 <= k < i :: !(Accepted(emails[k], validate, storeAdd, now) && KeyOf(emails[k]) == id)
  }

  lemma AddedKeysCons(emails: seq<string>, validate: string -> bool, storeAdd: Subscriber -> bool, now: Timestamp)
    requires |emails| > 0
    ensures AddedKeys(emails, validate, storeAdd, now)
         == (if Accepted(emails[0], validate, storeAdd, now) then {KeyOf(emails[0])} else {})
            + AddedKeys(emails[1..], validate, storeAdd, now)
  {
    var rest := emails[1..];
    assert forall k | 1 <= k < |emails| :: emails[k] == rest[k - 1];
    forall id | id in AddedKeys(rest, validate, storeAdd, now) ensures id in AddedKeys(emails, validate, storeAdd, now) {
      var k :| 0 <= k < |rest| && Accepted(rest[k], validate, storeAdd, now) && KeyOf(rest[k]) == id;
      assert emails[k + 1] == rest[k];
    }
  }

  lemma FirstAcceptedCons(emails: seq<string>, validate: string -> bool, storeAdd: Subscriber -> bool, now: Timestamp)
    requires |emails| > 0
    ensures forall id, i | FirstAccepted(emails, i, id, validate, storeAdd, now) && i > 0 ::
      && FirstAccepted(emails[1..], i - 1, id, validate, storeAdd, now)
      && !(Accepted(emails[0], validate, storeAdd, now) && KeyOf(emails[0]) == id)
    ensures forall id | FirstAccepted(emails, 0, id, validate, storeAdd, now) ::
      Accepted(emails[0], validate, storeAdd, now) && KeyOf(emails[0]) == id
  {
    var rest := emails[1..];
    forall id, i | FirstAccepted(emails, i, id, validate, storeAdd, now) && i > 0
      ensures FirstAccepted(rest, i - 1, id, validate, storeAdd, now)
    {
      assert rest[i - 1] == emails[i];
      forall k | 0 <= k < i - 1 ensures !(Accepted(rest[k], validate, storeAdd, now) && KeyOf(rest[k]) == id) {
        assert rest[k] == emails[k + 1];
      }
    }
  }

  /** Some address of the list is null or white space only. */
  predicate SomeBlank(emails: seq<string>) {
    exists k | 0 <= k < |emails| :: !NotBlank(emails[k])
  }

  lemma SomeBlankCons(emails: seq<string>)
    requires |emails| > 0
    ensures SomeBlank(emails) <==> !NotBlank(emails[0]) || SomeBlank(emails[1..])
  {
    var rest := emails[1..];
    assert forall k | 1 <= k < |emails| :: emails[k] == rest[k - 1];
    if SomeBlank(rest) {
      var k :| 0 <= k < |rest| && !NotBlank(rest[k]);
      assert emails[k + 1] == rest[k];
    }
  }

  /** The subscribe branch as written: skipped for a blank option, otherwise
      every piece of `EmailList` goes to `Subscribe`. */
  function SubscribeOption(table: Table, arg: Nullable<string>, validate: string -> bool,
                           storeAdd: Subscriber -> bool, now: Timestamp): (r: Outcome<Table>)
    ensures IsNullOrWhiteSpace(arg) ==> r == Returned(table)
    ensures !IsNullOrWhiteSpace(arg) ==> r == SubscribeAll(table, EmailList(arg.value), validate, storeAdd, now)
    ensures r.Threw? ==> r.error == ArgumentNull("email")
    ensures r.Returned? ==> forall id | id in table :: id in r.value && r.value[id] == table[id]
    ensures r.Returned? && !IsNullOrWhiteSpace(arg) ==>
      r.value.Keys == table.Keys + AddedKeys(EmailList(arg.value), validate, storeAdd, now)
  {
    if IsNullOrWhiteSpace(arg) then Returned(table)
    else
      var emails := EmailList(arg.value);
      if SomeBlank(emails) then SubscribeAll(table, emails, validate, storeAdd, now)
      else
        SubscribeAllKeys(table, emails, validate, storeAdd, now);
        SubscribeAll(table, emails, validate, storeAdd, now)
  }

  /** As written, an option ending in "; " throws: the piece " " passes the
      length filter and `Subscribe` rejects it, so the command stops there. */
  lemma TrailingBlankThrows(table: Table, e: string, validate: string -> bool,
                            storeAdd: Subscriber -> bool, now: Timestamp)
    requires ';' !in e && NotBlank(e)
    ensures SubscribeOption(table, NonNull(e + "; "), validate, storeAdd, now) == Threw(ArgumentNull("email"))
  {
    var arg := e + "; ";
    TrailingBlankPiece(e);
    assert !AllWhiteSpace(arg) by {
      assert forall i | 0 <= i < |e| :: e[i] == arg[i];
    }
    var emails := EmailList(arg);
    assert !NotBlank(emails[1]);
  }

  lemma TrailingBlankPiece(e: string)
    requires ';' !in e && NotBlank(e)
    ensures EmailList(e + "; ") == [e, " "]
  {
    assert e + "; " == e + ";" + " ";
    assert |e| > 0;
    EmailListConcat(e, " ");
    EmailListOfOne(e);
    EmailListOfOne(" ");
  }

  /** The subscribe branch with blank pieces skipped: it never throws, and
      each non-blank piece is offered to `Subscribe` in order. */
  function SubscribeOptionCorrected(table: Table, arg: Nullable<string>, validate: string -> bool,
                                    storeAdd: Subscriber -> bool, now: Timestamp): (r: Outcome<Table>)
    ensures r.Returned?
    ensures IsNullOrWhiteSpace(arg) ==> r == Returned(table)
    ensures KeyedById(table) ==> KeyedById(r.value)
    ensures forall id | id in table :: id in r.value && r.value[id] == table[id]
    ensures !IsNullOrWhiteSpace(arg) ==>
      r.value.Keys == table.Keys + AddedKeys(NonBlankEmailList(arg.value), validate, storeAdd, now)
  {
    if IsNullOrWhiteSpace(arg) then Returned(table)
    else
      var emails := NonBlankEmailList(arg.value);
      assert !SomeBlank(emails);
      SubscribeAllKeys(table, emails, validate, storeAdd, now);
      SubscribeAll(table, emails, validate, storeAdd, now)
  }

  /** Where the written list has no blank piece, the corrected branch does
      exactly what the written one does. */
  lemma CorrectedAgreesWithoutBlanks(table: Table, arg: string, validate: string -> bool,
                                     storeAdd: Subscriber -> bool, now: Timestamp)
    requires forall k | 0 <= k < |EmailList(arg)| :: NotBlank(EmailList(arg)[k])
    ensures SubscribeOptionCorrected(table, NonNull(arg), validate, storeAdd, now)
         == SubscribeOption(table, NonNull(arg), validate, storeAdd, now)
  {
    NonBlankIsEmailListWithoutBlanks(arg);
    FilterKeepsAll(NotBlank, EmailList(arg));
  }

  lemma {:induction false} FilterKeepsAll<T(!new)>(p: T -> bool, s: seq<T>)
    requires forall k | 0 <= k < |s| :: p(s[k])
    ensures Filter(p, s) == s
    decreases |s|
  {
    if |s| > 0 {
      assert p(s[0]);
      FilterKeepsAll(p, s[1..]);
      assert [s[0]] + s[1..] == s;
    }
  }

  // `LoadGmailCredential`.

  /** `NetworkCredential(id, password)`. */
  datatype Credential = Credential(userName: string, password: string)

  /** What `File.ReadAllLines(path)` did: returned the lines, or threw. A
      missing file carries what the `File.WriteAllText` of the sample line
      then did; another `IOException` is caught; an
      `UnauthorizedAccessException` is not an `IOException` and is not caught. */
  datatype CredentialFile =
    | Lines(lines: seq<string>)
    | FileNotFound(sampleWrite: Outcome<()>)
    | ReadFailed
    | AccessDenied

  /** A line is taken when it splits on '/' into exactly two parts, neither
      blank, and the first is a valid address. */
  predicate Acceptable(line: string, validate: string -> bool) {
    var parts := Split(line, ['/']);
    |parts| == 2 && NotBlank(parts[0]) && NotBlank(parts[1]) && validate(parts[0])
  }

  function CredentialOf(line: string): Credential
    requires |Split(line, ['/'])| == 2
  {
    var parts := Split(line, ['/']);
    Credential(parts[0], parts[1])
  }

  /** Exactly two parts means exactly one '/' in the line. */
  lemma AcceptableHasOneSlash(line: string, validate: string -> bool)
    ensures |Split(line, ['/'])| == 2 <==> Count(line, '/') == 1
    ensures Acceptable(line, validate) ==> Count(line, '/') == 1
  {
    SplitCharPieceCount(line, '/');
  }

  /** `lines[i]` is acceptable and no line before it is. */
  predicate FirstAcceptable(lines: seq<string>, i: int, validate: string -> bool) {
    0 <= i < |lines| && Acceptable(lines[i], validate) && forall k | 0 <= k < i :: !Acceptable(lines[k], validate)
  }

  /** At most one line is the first acceptable one, and there is one as soon
      as any line is acceptable. */
  lemma FirstAcceptableUnique(lines: seq<string>, validate: string -> bool)
    ensures forall i, j | FirstAcceptable(lines, i, validate) && FirstAcceptable(lines, j, validate) :: i == j
    ensures (exists k | 0 <= k < |lines| :: Acceptable(lines[k], validate)) ==>
      exists i :: FirstAcceptable(lines, i, validate)
  {
    if exists k | 0 <= k < |lines| :: Acceptable(lines[k], validate) {
      var k :| 0 <= k < |lines| && Acceptable(lines[k], validate);
      var i := FirstOf(lines, k, validate);
    }
  }

  lemma {:induction false} FirstOf(lines: seq<string>, k: int, validate: string -> bool) returns (i: int)
    requires 0 <= k < |lines| && Acceptable(lines[k], validate)
    ensures FirstAcceptable(lines, i, validate) && i <= k
    decreases k
  {
    if forall j | 0 <= j < k :: !Acceptable(lines[j], validate) {
      i := k;
    } else {
      var j :| 0 <= j < k && Acceptable(lines[j], validate);
      i := FirstOf(lines, j, validate);
    }
  }

  /** The `foreach` over the lines: the first acceptable one wins and the
      rest are not examined; none acceptable gives null. */
  method SelectCredential(lines: seq<string>, validate: string -> bool) returns (r: Nullable<Credential>)
    ensures r.Null? <==> forall k | 0 <= k < |lines| :: !Acceptable(lines[k], validate)
    ensures forall i | FirstAcceptable(lines, i, validate) :: r == NonNull(CredentialOf(lines[i]))
    ensures r.NonNull? ==> exists i | FirstAcceptable(lines, i, validate) :: r.value == CredentialOf(lines[i])
  {
    for i := 0 to |lines|
      invariant forall k | 0 <= k < i :: !Acceptable(lines[k], validate)
    {
      var credential := Split(lines[i], ['/']);
      if |credential| != 2 {
        continue;
      }
      var id, password := credential[0], credential[1];
      if IsNullOrWhiteSpace(NonNull(id)) || IsNullOrWhiteSpace(NonNull(password)) {
        continue;
      }
      if !validate(id) {
        continue;
      }
      assert FirstAcceptable(lines, i, validate);
      FirstAcceptableUnique(lines, validate);
      return NonNull(Credential(id, password));
    }
    return Null;
  }

  /** `LoadGmailCredential(path)`: a blank path throws; a missing file gives
      null once the sample file is written, or the exception writing it threw;
      another I/O failure gives null; a denied read throws; otherwise the first
      acceptable line, or null when there is none. */
  method LoadGmailCredential(path: Nullable<string>, file: CredentialFile, validate: string -> bool)
    returns (r: Outcome<Nullable<Credential>>)
    ensures IsNullOrWhiteSpace(path) ==> r == Threw(ArgumentNull("path"))
    ensures !IsNullOrWhiteSpace(path) && file.AccessDenied? ==> r == Threw(UnauthorizedAccess)
    ensures !IsNullOrWhiteSpace(path) && file.FileNotFound? && file.sampleWrite.Threw? ==> r == Threw(file.sampleWrite.error)
    ensures !IsNullOrWhiteSpace(path) && file.FileNotFound? && file.sampleWrite.Returned? ==> r == Returned(Null)
    ensures !IsNullOrWhiteSpace(path) && file.ReadFailed? ==> r == Returned(Null)
    ensures !IsNullOrWhiteSpace(path) && file.Lines? ==> r.Returned?
    ensures r.Returned? && file.Lines? ==>
      (r.value.Null? <==> forall k | 0 <= k < |file.lines| :: !Acceptable(file.lines[k], validate))
    ensures r.Returned? && file.Lines? ==>
      forall i | FirstAcceptable(file.lines, i, validate) :: r.value == NonNull(CredentialOf(file.lines[i]))
    ensures r.Returned? && file.Lines? && r.value.NonNull? ==>
      exists i | FirstAcceptable(file.lines, i, validate) :: r.value.value == CredentialOf(file.lines[i])
  {
    if IsNullOrWhiteSpace(path) {
      return Threw(ArgumentNull("path"));
    }
    match file
    case AccessDenied => r := Threw(UnauthorizedAccess);
    case FileNotFound(Threw(e)) => r := Threw(e);
    case FileNotFound(Returned(_)) => r := Returned(Null);
    case ReadFailed => r := Returned(Null);
    case Lines(lines) =>
      var credential := SelectCredential(lines, validate);
      r := Returned(credential);
  }

  // `SendDailyMail`.

  /** How `SendDailyMail` ends: nobody to write to, no usable credential, or
      one message to every subscriber's address sent with the credential. */
  datatype Dispatch = NoRecipients | NoCredential | Send(recipients: set<string>, sender: Credential)

  /** The addresses of a table's subscribers. */
  function Addresses(t: Table): set<string> {
    set s | s in t.Values :: s.email
  }

  /** The `GmailSender` constructor: the account, the password and the
      display name must not be blank (`ArgumentException`), and the account
      must then parse as a `MailAddress` (`FormatException`). That parser is
      not part of this model; `addressAccepts` stands for it. */
  function NewGmailSender(account: string, password: string, displayName: Nullable<string>,
                          addressAccepts: string -> bool): (r: Outcome<Credential>)
    ensures r.Returned? <==>
      NotBlank(account) && NotBlank(password) && !IsNullOrWhiteSpace(displayName) && addressAccepts(account)
    ensures r.Returned? ==> r.value == Credential(account, password)
    ensures r.Threw? && (!NotBlank(account) || !NotBlank(password) || IsNullOrWhiteSpace(displayName)) ==>
      r.error == Argument
    ensures r.Threw? && NotBlank(account) && NotBlank(password) && !IsNullOrWhiteSpace(displayName) ==>
      r.error == Format
  {
    if !NotBlank(account) || !NotBlank(password) || IsNullOrWhiteSpace(displayName) then Threw(Argument)
    else if !addressAccepts(account) then Threw(Format)
    else Returned(Credential(account, password))
  }

  /** For the credential of an acceptable line the blank account and blank
      password checks never fire: only the display name and the address
      parser can stop the sender. */
  lemma SenderOfAcceptable(line: string, validate: string -> bool, displayName: Nullable<string>,
                           addressAccepts: string -> bool)
    requires Acceptable(line, validate)
    ensures var c := CredentialOf(line);
      && (IsNullOrWhiteSpace(displayName) ==> NewGmailSender(c.userName, c.password, displayName, addressAccepts) == Threw(Argument))
      && (!IsNullOrWhiteSpace(displayName) && !addressAccepts(c.userName) ==>
            NewGmailSender(c.userName, c.password, displayName, addressAccepts) == Threw(Format))
      && (!IsNullOrWhiteSpace(displayName) && addressAccepts(c.userName) ==>
            NewGmailSender(c.userName, c.password, displayName, addressAccepts) == Returned(c))
  {
  }

  /** `SendDailyMail`: refresh and read the subscribers; with none it stops
      before the credential file is read; otherwise it loads the credential
      and, if there is one, builds the sender with the project nickname as
      display name and sends to every subscriber with it. Subject and body
      depend on the clock and are not modelled. */
  method SendDailyMail(table: Table, rows: seq<Subscriber>, path: Nullable<string>,
                       file: CredentialFile, validate: string -> bool,
                       nickname: Nullable<string>, addressAccepts: string -> bool)
    returns (t: Table, r: Outcome<Dispatch>)
    requires DistinctIds(rows)
    ensures t == Refreshed(table, rows)
    ensures |t.Values| == 0 ==> r == Returned(NoRecipients)
    ensures |t.Values| > 0 && IsNullOrWhiteSpace(path) ==> r == Threw(ArgumentNull("path"))
    ensures |t.Values| > 0 && !IsNullOrWhiteSpace(path) ==>
      && (file.AccessDenied? ==> r == Threw(UnauthorizedAccess))
      && (file.FileNotFound? && file.sampleWrite.Threw? ==> r == Threw(file.sampleWrite.error))
      && (file.FileNotFound? && file.sampleWrite.Returned? ==> r == Returned(NoCredential))
      && (file.ReadFailed? ==> r == Returned(NoCredential))
      && (file.Lines? && (forall k | 0 <= k < |file.lines| :: !Acceptable(file.lines[k], validate)) ==>
            r == Returned(NoCredential))
      && (forall i | file.Lines? && FirstAcceptable(file.lines, i, validate) ::
            && (IsNullOrWhiteSpace(nickname) ==> r == Threw(Argument))
            && (!IsNullOrWhiteSpace(nickname) && !addressAccepts(CredentialOf(file.lines[i]).userName) ==>
                  r == Threw(Format))
            && (!IsNullOrWhiteSpace(nickname) && addressAccepts(CredentialOf(file.lines[i]).userName) ==>
                  r == Returned(Send(Addresses(t), CredentialOf(file.lines[i])))))
    ensures r.Returned? && r.value.Send? ==>
      && file.Lines? && r.value.recipients == Addresses(t)
      && !IsNullOrWhiteSpace(nickname) && addressAccepts(r.value.sender.userName)
  {
    var subscribers;
    t, subscribers := GetSubscribers(table, rows);
    if |subscribers| == 0 {
      return t, Returned(NoRecipients);
    }
    var recipients := set s | s in subscribers :: s.email;
    r := SendWithCredential(recipients, path, file, validate, nickname, addressAccepts);
  }

  /** The second half of `SendDailyMail`, once there are recipients: load the
      credential, build the sender from it, and send. */
  method SendWithCredential(recipients: set<string>, path: Nullable<string>, file: CredentialFile,
                            validate: string -> bool, nickname: Nullable<string>, addressAccepts: string -> bool)
    returns (r: Outcome<Dispatch>)
    ensures IsNullOrWhiteSpace(path) ==> r == Threw(ArgumentNull("path"))
    ensures !IsNullOrWhiteSpace(path) ==>
      && (file.AccessDenied? ==> r == Threw(UnauthorizedAccess))
      && (file.FileNotFound? && file.sampleWrite.Threw? ==> r == Threw(file.sampleWrite.error))
      && (file.FileNotFound? && file.sampleWrite.Returned? ==> r == Returned(NoCredential))
      && (file.ReadFailed? ==> r == Returned(NoCredential))
      && (file.Lines? && (forall k | 0 <= k < |file.lines| :: !Acceptable(file.lines[k], validate)) ==>
            r == Returned(NoCredential))
      && (forall i | file.Lines? && FirstAcceptable(file.lines, i, validate) ::
            && (IsNullOrWhiteSpace(nickname) ==> r == Threw(Argument))
            && (!IsNullOrWhiteSpace(nickname) && !addressAccepts(CredentialOf(file.lines[i]).userName) ==>
                  r == Threw(Format))
            && (!IsNullOrWhiteSpace(nickname) && addressAccepts(CredentialOf(file.lines[i]).userName) ==>
                  r == Returned(Send(recipients, CredentialOf(file.lines[i])))))
    ensures r.Returned? && r.value.Send? ==>
      && file.Lines? && r.value.recipients == recipients
      && !IsNullOrWhiteSpace(nickname) && addressAccepts(r.value.sender.userName)
  {
    var credential := LoadGmailCredential(path, file, validate);
    match credential
    case Threw(e) => r := Threw(e);
    case Returned(Null) => r := Returned(NoCredential);
    case Returned(NonNull(c)) =>
      if file.Lines? {
        SenderAfterLoad(file, validate, c, nickname, addressAccepts);
      }
      var sender := NewGmailSender(c.userName, c.password, nickname, addressAccepts);
      match sender
      case Threw(e) => r := Threw(e);
      case Returned(_) => r := Returned(Send(recipients, c));
  }

  /** The loaded credential is the first acceptable line's, so the sender is
      decided by the nickname and the address parser alone. */
  lemma SenderAfterLoad(file: CredentialFile, validate: string -> bool, c: Credential,
                        nickname: Nullable<string>, addressAccepts: string -> bool)
    requires file.Lines?
    requires forall i | FirstAcceptable(file.lines, i, validate) :: c == CredentialOf(file.lines[i])
    ensures forall i | FirstAcceptable(file.lines, i, validate) ::
      var s := NewGmailSender(c.userName, c.password, nickname, addressAccepts);
      && (IsNullOrWhiteSpace(nickname) ==> s == Threw(Argument))
      && (!IsNullOrWhiteSpace(nickname) && !addressAccepts(c.userName) ==> s == Threw(Format))
      && (!IsNullOrWhiteSpace(nickname) && addressAccepts(c.userName) ==> s == Returned(c))
  {
    forall i | FirstAcceptable(file.lines, i, validate) {
      SenderOfAcceptable(file.lines[i], validate, nickname, addressAccepts);
    }
  }
}
