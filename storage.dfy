/** `FileStorage` of the family-cabin server (`server/fileStorage.ts` in
    `familycabin/index.js`): an in-memory user table, a `Map` from id to user
    plus the counter `userCurrentId`, and the subscriber operations, which it
    hands on to the flat file. */
module Storage {
  import opened JsBuiltins
  import opened JsMap
  import opened SubscriberFile

  /** What the caller supplies to `createUser`. */
  datatype InsertUser = InsertUser(username: string, password: string)

  /** `{ ...insertUser, id }`. */
  datatype User = User(id: int, username: string, password: string)

  /** The user table as `createUser` leaves it: the keys are 1 .. nextId - 1
      in insertion order, and each user is stored under its own id. */
  ghost predicate UserTable(users: OrderedMap<int, User>, nextId: int) {
    && users.Valid()
    && nextId >= 1
    && |users.keys| == nextId - 1
    && (forall i :: 0 <= i < |users.keys| ==> users.keys[i] == i + 1)
    && (forall k :: k in users.entries ==> users.entries[k].id == k)
  }

  /** A fresh table is a user table with next id 1. */
  lemma EmptyUserTable()
    ensures UserTable(Empty<int, User>(), 1)
  {
  }

  /** Storing the user with the next id keeps the table well formed, with the
      counter one higher, and leaves every earlier user in place. */
  lemma {:induction false} AddUserKeepsTable(users: OrderedMap<int, User>, nextId: int, insert: InsertUser)
    requires UserTable(users, nextId)
    ensures var user := User(nextId, insert.username, insert.password);
      var users' := users.Set(nextId, user);
      && UserTable(users', nextId + 1)
      && users'.Get(nextId) == Some(user)
      && users'.Values() == users.Values() + [user]
      && (forall k :: k != nextId ==> users'.Get(k) == users.Get(k))
  {
    var user := User(nextId, insert.username, insert.password);
    assert nextId !in users.entries by {
      forall i | 0 <= i < |users.keys| ensures users.keys[i] != nextId {
      }
    }
    var users' := users.Set(nextId, user);
    assert users'.keys == users.keys + [nextId];
    forall i | 0 <= i < |users'.keys| ensures users'.keys[i] == i + 1 {
      if i < |users.keys| {
        assert users'.keys[i] == users.keys[i];
      }
    }
    SetNewKeyAppends(users, nextId, user);
  }

  /** `user => user.username === username`. */
  function HasUsername(username: string): User -> bool {
    (u: User) => u.username == username
  }

  /** In a user table, `find` over the values by name gives nothing when no
      user has the name, and otherwise the user with the name and the
      smallest id. */
  lemma {:induction false} FindUserByName(users: OrderedMap<int, User>, nextId: int, username: string)
    requires UserTable(users, nextId)
    ensures var r := Find(users.Values(), HasUsername(username));
      && (r.None? <==> forall k :: k in users.entries ==> users.entries[k].username != username)
      && (r.Some? ==> r.value.username == username)
      && (r.Some? ==> r.value.id in users.entries && users.entries[r.value.id] == r.value)
      && (r.Some? ==> forall k :: k in users.entries && users.entries[k].username == username ==> r.value.id <= k)
  {
    var values := users.Values();
    var p := HasUsername(username);
    var r := Find(values, p);
    forall k | k in users.entries ensures 1 <= k <= |values| && values[k - 1] == users.entries[k] {
      var i :| 0 <= i < |users.keys| && users.keys[i] == k;
    }
    if r.Some? {
      var i :| FirstMatch(values, p, i) && values[i] == r.value;
      assert users.keys[i] == i + 1;
      forall k | k in users.entries && users.entries[k].username == username ensures i + 1 <= k {
        assert p(values[k - 1]);
      }
    }
  }

  class FileStorage {
    var users: OrderedMap<int, User>
    var userCurrentId: int
    /** The subscriber file, shared by every storage object. */
    const subscribers: SubscribersFile

    ghost predicate Valid()
      reads this
    {
      UserTable(users, userCurrentId)
    }

    /** `new FileStorage()`: no users, next id 1. */
    constructor(subscribers: SubscribersFile)
      ensures Valid() && users.Values() == [] && userCurrentId == 1
      ensures this.subscribers == subscribers
    {
      users := Empty();
      userCurrentId := 1;
      this.subscribers := subscribers;
    }

    /** `getUser(id)`: a user is found exactly for the ids issued so far, and
        it is the one with that id. */
    function GetUser(id: int): (r: Option<User>)
      reads this
      requires Valid()
      ensures r.Some? <==> 1 <= id < userCurrentId
      ensures r.Some? ==> r.value.id == id && r.value == users.Values()[id - 1]
    {
      assert 1 <= id < userCurrentId ==> users.keys[id - 1] == id;
      users.Get(id)
    }

    /** `getUserByUsername(name)`: nothing when no stored user has that name,
        otherwise the stored user with that name that was created first. */
    function GetUserByUsername(username: string): (r: Option<User>)
      reads this
      requires Valid()
      ensures r.None? <==> forall k :: k in users.entries ==> users.entries[k].username != username
      ensures r.Some? ==> r.value.username == username
      ensures r.Some? ==> r.value.id in users.entries && users.entries[r.value.id] == r.value
      ensures r.Some? ==> forall k :: k in users.entries && users.entries[k].username == username ==> r.value.id <= k
    {
      FindUserByName(users, userCurrentId, username);
      Find(users.Values(), HasUsername(username))
    }

    /** `createUser(insertUser)`: the user gets the current counter as id, the
        counter goes up by one, and the user is added after the others. */
    method CreateUser(insert: InsertUser) returns (user: User)
      requires Valid()
      modifies this
      ensures Valid()
      ensures user == User(old(userCurrentId), insert.username, insert.password)
      ensures userCurrentId == old(userCurrentId) + 1
      ensures users == old(users).Set(user.id, user)
      ensures users.Values() == old(users.Values()) + [user]
      ensures GetUser(user.id) == Some(user)
    {
      var id := userCurrentId;
      userCurrentId := userCurrentId + 1;
      user := User(id, insert.username, insert.password);
      AddUserKeepsTable(users, id, insert);
      users := users.Set(id, user);
    }

    /** `getSubscriber(id)`. */
    method GetSubscriber(id: int, now: Timestamp, read: IoOutcome) returns (found: Option<Subscriber>)
      modifies subscribers
      ensures subscribers.file == Some(Prepared(old(subscribers.file)))
      ensures found == FindById(Listing(Prepared(old(subscribers.file)), now, read), id)
    {
      found := subscribers.GetSubscriberById(id, now, read);
    }

    /** `getSubscriberByEmail(email)`. */
    method GetSubscriberByEmail(email: string, now: Timestamp, read: IoOutcome) returns (found: Option<Subscriber>)
      modifies subscribers
      ensures subscribers.file == Some(Prepared(old(subscribers.file)))
      ensures found == FindByEmail(Listing(Prepared(old(subscribers.file)), now, read), email)
    {
      found := subscribers.GetSubscriberByEmail(email, now, read);
    }

    /** `createSubscriber(subscriber)`. */
    method CreateSubscriber(email: string, now: Timestamp, read: IoOutcome, append: IoOutcome)
      returns (result: SaveResult)
      modifies subscribers
      ensures var (content, r) := Save(Prepared(old(subscribers.file)), email, now, read, append);
        subscribers.file == Some(content) && result == r
    {
      result := subscribers.SaveSubscriber(email, now, read, append);
    }

    /** `getAllSubscribers()`. */
    method GetAllSubscribers(now: Timestamp, read: IoOutcome) returns (all: seq<Subscriber>)
      modifies subscribers
      ensures subscribers.file == Some(Prepared(old(subscribers.file)))
      ensures all == Listing(Prepared(old(subscribers.file)), now, read)
    {
      all := subscribers.GetSubscribers(now, read);
    }
  }
}
