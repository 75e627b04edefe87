/** `SubscribeManager`: the in-memory table of subscribers, keyed by id, kept
    in step with the store. The singleton, its lock and the logging are left
    out; the table is a value and every operation returns the next one.
    The store is an oracle: `storeAdd` answers whether an insert succeeded,
    `rows` is what a select-all returned (ids unique, the column is the
    primary key), and a delete never reports failure. `validate` stands for
    `EmailValidator.Validate`. */
module SubscribeManager {
  import opened Wrappers
  import opened Text
  import StringHash
  import opened Subscribers

  type Table = map<int, Subscriber>

  /** Every key is the id of the subscriber stored under it. */
  predicate KeyedById(table: Table) {
    forall id | id in table :: table[id].id == id
  }

  /** Ids are unique within a select-all result. */
  predicate DistinctIds(rows: seq<Subscriber>) {
    forall i, j | 0 <= i < j < |rows| :: rows[i].id != rows[j].id
  }

  /** The calls the registry makes on the store; a delete sends only the id. */
  datatype StoreCall = AddSubscriber(row: Subscriber) | RemoveSubscriber(id: int)

  /** The value an operation returns, the table after it, and its store calls. */
  datatype Reply = Reply(ok: bool, table: Table, calls: seq<StoreCall>)

  /** The id a request for `email` addresses: the hash of the trimmed address. */
  function KeyOf(email: string): (id: int)
    ensures forall now :: id == FromEmail(Trim(email), now).id
  {
    StringHash.SDBMLower(NonNull(Trim(email)))
  }

  /** `Subscribe` past its argument check: rejects an invalid address, an id
      already in the table, and a row the store refused; otherwise adds exactly
      the new row. `SubscribeCall` adds the check. */
  function Subscribe(table: Table, email: string, validate: string -> bool,
                     storeAdd: Subscriber -> bool, now: Timestamp): (r: Reply)
    requires !IsNullOrWhiteSpace(NonNull(email))
    ensures KeyedById(table) ==> KeyedById(r.table)
    ensures r.ok <==> validate(Trim(email)) && KeyOf(email) !in table && storeAdd(FromEmail(Trim(email), now))
    ensures r.ok ==> r.table == table[KeyOf(email) := FromEmail(Trim(email), now)]
    ensures !r.ok ==> r.table == table
    ensures forall id | id in table :: r.table[id] == table[id]
    ensures r.calls == if validate(Trim(email)) && KeyOf(email) !in table
                       then [AddSubscriber(FromEmail(Trim(email), now))] else []
  {
    var address := Trim(email);
    if !validate(address) then Reply(false, table, [])
    else
      var subscriber := FromEmail(address, now);
      if subscriber.id in table then Reply(false, table, [])
      else if !storeAdd(subscriber) then Reply(false, table, [AddSubscriber(subscriber)])
      else Reply(true, table[subscriber.id := subscriber], [AddSubscriber(subscriber)])
  }

  /** `Unsubscribe(email)` past its argument check: rejects an invalid address
      and an id not in the table; otherwise asks the store to delete it and,
      whatever the store did, removes exactly that key and succeeds.
      `UnsubscribeCall` adds the check. */
  function Unsubscribe(table: Table, email: string, validate: string -> bool): (r: Reply)
    requires !IsNullOrWhiteSpace(NonNull(email))
    ensures KeyedById(table) ==> KeyedById(r.table)
    ensures r.ok <==> validate(Trim(email)) && KeyOf(email) in table
    ensures r.ok ==> r.table == table - {KeyOf(email)}
    ensures !r.ok ==> r.table == table
    ensures r.table.Keys == table.Keys - (if r.ok then {KeyOf(email)} else {})
    ensures forall id | id in r.table :: r.table[id] == table[id]
    ensures r.calls == if r.ok then [RemoveSubscriber(KeyOf(email))] else []
  {
    var address := Trim(email);
    if !validate(address) then Reply(false, table, [])
    else
      var id := KeyOf(email);
      if id !in table then Reply(false, table, [])
      else Reply(true, table - {id}, [RemoveSubscriber(id)])
  }

  /** The whole `Subscribe(email)` call: a null or blank address throws an
      `ArgumentNullException` naming `email` before anything else happens. */
  function SubscribeCall(table: Table, email: Nullable<string>, validate: string -> bool,
                         storeAdd: Subscriber -> bool, now: Timestamp): (r: Outcome<Reply>)
    ensures r.Threw? <==> IsNullOrWhiteSpace(email)
    ensures r.Threw? ==> r.error == ArgumentNull("email")
    ensures r.Returned? ==> r.value == Subscribe(table, email.value, validate, storeAdd, now)
  {
    if IsNullOrWhiteSpace(email) then Threw(ArgumentNull("email"))
    else Returned(Subscribe(table, email.value, validate, storeAdd, now))
  }

  /** The whole `Unsubscribe(email)` call, with the same argument check. */
  function UnsubscribeCall(table: Table, email: Nullable<string>, validate: string -> bool): (r: Outcome<Reply>)
    ensures r.Threw? <==> IsNullOrWhiteSpace(email)
    ensures r.Threw? ==> r.error == ArgumentNull("email")
    ensures r.Returned? ==> r.value == Unsubscribe(table, email.value, validate)
  {
    if IsNullOrWhiteSpace(email) then Threw(ArgumentNull("email"))
    else Returned(Unsubscribe(table, email.value, validate))
  }

  /** The refresh rule: an empty read keeps the table; a non-empty one
      replaces it by exactly the rows read, keyed by id. */
  function Refreshed(table: Table, rows: seq<Subscriber>): (t: Table)
    requires DistinctIds(rows)
    ensures |rows| == 0 ==> t == table
    ensures |rows| > 0 ==> forall i | 0 <= i < |rows| :: rows[i].id in t && t[rows[i].id] == rows[i]
    ensures |rows| > 0 ==> forall id | id in t :: exists i | 0 <= i < |rows| :: rows[i].id == id
    ensures |rows| > 0 ==> KeyedById(t)
  {
    if |rows| == 0 then table
    else map i | 0 <= i < |rows| :: rows[i].id := rows[i]
  }

  /** `UpdateSubscriberTable`, as the source runs it: clear, then add every
      row under its id. */
  method UpdateSubscriberTable(table: Table, rows: seq<Subscriber>) returns (t: Table)
    requires DistinctIds(rows)
    ensures t == Refreshed(table, rows)
    ensures |rows| > 0 ==> |t| == |rows|
  {
    t := table;
    if |rows| > 0 {
      t := map[];
      for i := 0 to |rows|
        invariant forall k | 0 <= k < i :: rows[k].id in t && t[rows[k].id] == rows[k]
        invariant forall id | id in t :: exists k | 0 <= k < i :: rows[k].id == id
        invariant |t| == i
      {
        assert rows[i].id !in t;
        t := t[rows[i].id := rows[i]];
      }
    }
  }

  /** The constructor: an empty table, then one refresh. */
  method Create(rows: seq<Subscriber>) returns (t: Table)
    requires DistinctIds(rows)
    ensures KeyedById(t)
    ensures |rows| == 0 ==> t == map[]
    ensures |rows| > 0 ==> t == Refreshed(map[], rows)
  {
    t := UpdateSubscriberTable(map[], rows);
  }

  /** `GetSubscribers`: refresh, then the table's values. */
  method GetSubscribers(table: Table, rows: seq<Subscriber>) returns (t: Table, subscribers: set<Subscriber>)
    requires DistinctIds(rows)
    ensures t == Refreshed(table, rows)
    ensures subscribers == t.Values
    ensures |rows| > 0 ==> subscribers == set i | 0 <= i < |rows| :: rows[i]
    ensures |rows| == 0 ==> subscribers == table.Values
  {
    t := UpdateSubscriberTable(table, rows);
    subscribers := t.Values;
    if |rows| > 0 {
      RefreshedValues(table, rows, t);
    }
  }

  /** After a non-empty refresh the table holds exactly the rows read. */
  lemma RefreshedValues(table: Table, rows: seq<Subscriber>, t: Table)
    requires DistinctIds(rows) && |rows| > 0 && t == Refreshed(table, rows)
    ensures t.Values == set i | 0 <= i < |rows| :: rows[i]
  {
    forall s | s in t.Values ensures s in set i | 0 <= i < |rows| :: rows[i] {
      var id :| id in t && t[id] == s;
      var k :| 0 <= k < |rows| && rows[k].id == id;
    }
    forall i | 0 <= i < |rows| ensures rows[i] in t.Values {
      assert t[rows[i].id] == rows[i];
    }
  }

  /** Round trip: with no refresh in between, a successful subscribe of `e`
      followed by an unsubscribe of an address equal to it up to case and
      surrounding whitespace succeeds and restores the table. */
  lemma SubscribeThenUnsubscribe(table: Table, e: string, e': string, validate: string -> bool,
                                 storeAdd: Subscriber -> bool, now: Timestamp)
    requires KeyedById(table)
    requires !IsNullOrWhiteSpace(NonNull(e)) && !IsNullOrWhiteSpace(NonNull(e'))
    requires Subscribe(table, e, validate, storeAdd, now).ok
    requires StringHash.SameUpToCase(Trim(e), Trim(e')) && validate(Trim(e'))
    ensures Unsubscribe(Subscribe(table, e, validate, storeAdd, now).table, e', validate).ok
    ensures Unsubscribe(Subscribe(table, e, validate, storeAdd, now).table, e', validate).table == table
  {
    StringHash.SameUpToCaseSameHash(Trim(e), Trim(e'));
    var key := KeyOf(e);
    assert KeyOf(e') == key;
    var added := Subscribe(table, e, validate, storeAdd, now).table;
    assert key !in table && added == table[key := FromEmail(Trim(e), now)];
    RemoveAfterAdd(table, key, FromEmail(Trim(e), now));
    var removed := Unsubscribe(added, e', validate);
    assert removed.ok && removed.table == added - {key};
  }

  lemma RemoveAfterAdd(table: Table, key: int, v: Subscriber)
    requires key !in table
    ensures key in table[key := v]
    ensures table[key := v] - {key} == table
  {
  }

  /** Subscribing again with the same address, up to case and whitespace,
      fails and makes no store call. */
  lemma SubscribeTwiceRejected(table: Table, e: string, e': string, validate: string -> bool,
                               storeAdd: Subscriber -> bool, now: Timestamp, later: Timestamp)
    requires !IsNullOrWhiteSpace(NonNull(e)) && !IsNullOrWhiteSpace(NonNull(e'))
    requires Subscribe(table, e, validate, storeAdd, now).ok
    requires StringHash.SameUpToCase(Trim(e), Trim(e'))
    ensures !Subscribe(Subscribe(table, e, validate, storeAdd, now).table, e', validate, storeAdd, later).ok
    ensures Subscribe(Subscribe(table, e, validate, storeAdd, now).table, e', validate, storeAdd, later).calls == []
  {
    StringHash.SameUpToCaseSameHash(Trim(e), Trim(e'));
  }

  /** One request against the registry. */
  datatype Request =
    | SubscribeRequest(email: string, now: Timestamp)
    | UnsubscribeRequest(email: string)
    | RefreshRequest(rows: seq<Subscriber>)

  predicate WellFormed(q: Request) {
    match q
    case SubscribeRequest(email, _) => !IsNullOrWhiteSpace(NonNull(email))
    case UnsubscribeRequest(email) => !IsNullOrWhiteSpace(NonNull(email))
    case RefreshRequest(rows) => DistinctIds(rows)
  }

  /** The table after a sequence of requests. */
  function Run(table: Table, requests: seq<Request>, validate: string -> bool,
               storeAdd: Subscriber -> bool): Table
    requires forall i | 0 <= i < |requests| :: WellFormed(requests[i])
    decreases |requests|
  {
    if |requests| == 0 then table
    else
      assert WellFormed(requests[0]);
      var next := match requests[0]
        case SubscribeRequest(email, now) => Subscribe(table, email, validate, storeAdd, now).table
        case UnsubscribeRequest(email) => Unsubscribe(table, email, validate).table
        case RefreshRequest(rows) => Refreshed(table, rows);
      Run(next, requests[1..], validate, storeAdd)
  }

  /** Every key equals its subscriber's id after any sequence of requests. */
  lemma {:induction false} RunKeepsKeyedById(table: Table, requests: seq<Request>,
                                             validate: string -> bool, storeAdd: Subscriber -> bool)
    requires KeyedById(table)
    requires forall i | 0 <= i < |requests| :: WellFormed(requests[i])
    ensures KeyedById(Run(table, requests, validate, storeAdd))
    decreases |requests|
  {
    if |requests| > 0 {
      assert WellFormed(requests[0]);
      var next := match requests[0]
        case SubscribeRequest(email, now) => Subscribe(table, email, validate, storeAdd, now).table
        case UnsubscribeRequest(email) => Unsubscribe(table, email, validate).table
        case RefreshRequest(rows) => Refreshed(table, rows);
      assert forall i | 0 <= i < |requests[1..]| :: WellFormed(requests[1..][i]);
      RunKeepsKeyedById(next, requests[1..], validate, storeAdd);
    }
  }
}
