/** The in-memory feedback store of the feedback server (`vgriz/server.js`): a
    `Map` from id to feedback record and the counter `feedbackCurrentId`,
    read and changed by the handlers of the `/feedbacks` routes. The state
    and each handler's effect on it are first given as values and functions;
    the class `FeedbackStore` then keeps the two variables and updates them in
    place. */
module FeedbackServer {
  import opened JsBuiltins
  import opened JsMap

  datatype Feedback = Feedback(id: int, name: string, email: string, category: string, message: string, date: Timestamp)

  /** The four fields of a request body; a field that is absent is `None`. */
  datatype Submission = Submission(name: Option<string>, email: Option<string>, category: Option<string>, message: Option<string>)

  /** What the POST handler answers: the created record (201), or the
      missing-fields rejection (400). */
  datatype Response = Created(feedback: Feedback) | MissingFields

  /** A string field is truthy when it is present and not empty. */
  predicate Truthy(field: Option<string>) {
    field.Some? && field.value != ""
  }

  /** The validation of the POST handler: every field is truthy. */
  predicate Complete(s: Submission) {
    Truthy(s.name) && Truthy(s.email) && Truthy(s.category) && Truthy(s.message)
  }

  /** `feedbackItems` and `feedbackCurrentId`. */
  datatype StoreState = StoreState(items: OrderedMap<int, Feedback>, nextId: int)

  /** What every handler keeps: the keys, in insertion order, are strictly
      increasing ids below the counter, and each record is stored under its
      own id. */
  ghost predicate Invariant(st: StoreState) {
    && st.items.Valid()
    && st.nextId >= 1
    && (forall i, j :: 0 <= i < j < |st.items.keys| ==> st.items.keys[i] < st.items.keys[j])
    && (forall i :: 0 <= i < |st.items.keys| ==> 1 <= st.items.keys[i] < st.nextId)
    && (forall k :: k in st.items.entries ==> st.items.entries[k].id == k)
  }

  /** The ids of `records` are strictly increasing. */
  predicate AscendingIds(records: seq<Feedback>) {
    forall i, j :: 0 <= i < j < |records| ==> records[i].id < records[j].id
  }

  /** `Array.from(feedbackItems.values())`, the GET `/feedbacks` answer: every
      stored record once, in ascending id order. */
  function AllFeedback(st: StoreState): (r: seq<Feedback>)
    requires Invariant(st)
    ensures |r| == |st.items.entries|
    ensures AscendingIds(r)
    ensures forall i :: 0 <= i < |r| ==> r[i].id in st.items.entries && st.items.entries[r[i].id] == r[i]
  {
    var r := st.items.Values();
    assert |st.items.keys| == |st.items.entries| by {
      assert st.items.entries.Keys == set i | 0 <= i < |st.items.keys| :: st.items.keys[i];
      DistinctCard(st.items.keys);
    }
    r
  }

  /** Every stored record is listed. */
  lemma AllFeedbackCoversStore(st: StoreState, k: int)
    requires Invariant(st) && k in st.items.entries
    ensures st.items.entries[k] in AllFeedback(st)
  {
    var i :| 0 <= i < |st.items.keys| && st.items.keys[i] == k;
    assert AllFeedback(st)[i] == st.items.entries[k];
  }

  /** A sequence of distinct ids has as many elements as the set of them. */
  lemma {:induction false} DistinctCard(keys: seq<int>)
    requires forall i, j :: 0 <= i < j < |keys| ==> keys[i] != keys[j]
    ensures |set i | 0 <= i < |keys| :: keys[i]| == |keys|
    decreases |keys|
  {
    if keys != [] {
      var rest := keys[1..];
      DistinctCard(rest);
      var s := set i | 0 <= i < |keys| :: keys[i];
      var s' := set i | 0 <= i < |rest| :: rest[i];
      assert s == s' + {keys[0]} by {
        forall x | x in s ensures x in s' + {keys[0]} {
          var i :| 0 <= i < |keys| && keys[i] == x;
          if i > 0 { assert rest[i - 1] == x; }
        }
      }
      assert keys[0] !in s' by {
        forall i | 0 <= i < |rest| ensures rest[i] != keys[0] {
          assert rest[i] == keys[i + 1];
        }
      }
    }
  }

  /** `feedback => feedback.category === category`. */
  function HasCategory(category: string): Feedback -> bool {
    (f: Feedback) => f.category == category
  }

  /** The records of `category`, the GET `/feedbacks/category/:category`
      answer: list-all filtered by exact match on the category. */
  function FeedbackInCategory(st: StoreState, category: string): (r: seq<Feedback>)
    requires Invariant(st)
    ensures AscendingIds(r)
    ensures forall i :: 0 <= i < |r| ==> r[i].category == category
    ensures forall i :: 0 <= i < |r| ==> r[i].id in st.items.entries && st.items.entries[r[i].id] == r[i]
  {
    var all := AllFeedback(st);
    var r := Filter(all, HasCategory(category));
    FilterMembers(all, HasCategory(category));
    FilterKeepsAscending(all, HasCategory(category));
    r
  }

  /** Every stored record of the category is listed. */
  lemma CategoryCoversStore(st: StoreState, category: string, k: int)
    requires Invariant(st) && k in st.items.entries && st.items.entries[k].category == category
    ensures st.items.entries[k] in FeedbackInCategory(st, category)
  {
    var all := AllFeedback(st);
    AllFeedbackCoversStore(st, k);
    var i :| 0 <= i < |all| && all[i] == st.items.entries[k];
    FilterMembers(all, HasCategory(category));
  }

  /** Filtering records in ascending id order keeps them in that order. */
  lemma {:induction false} FilterKeepsAscending(records: seq<Feedback>, p: Feedback -> bool)
    requires AscendingIds(records)
    ensures AscendingIds(Filter(records, p))
    decreases |records|
  {
    if records != [] {
      var rest := records[1..];
      assert AscendingIds(rest);
      FilterKeepsAscending(rest, p);
      if p(records[0]) {
        HeadBelowFilter(records, p);
        ConsAscending(records[0], Filter(rest, p));
        assert Filter(records, p) == [records[0]] + Filter(rest, p);
      } else {
        assert Filter(records, p) == Filter(rest, p);
      }
    }
  }

  /** In ascending order, the first record's id is below every id kept by
      filtering the rest. */
  lemma HeadBelowFilter(records: seq<Feedback>, p: Feedback -> bool)
    requires AscendingIds(records) && records != []
    ensures forall i :: 0 <= i < |Filter(records[1..], p)| ==> records[0].id < Filter(records[1..], p)[i].id
  {
    var rest := records[1..];
    FilterMembers(rest, p);
    var fr := Filter(rest, p);
    forall i | 0 <= i < |fr| ensures records[0].id < fr[i].id {
      var j :| 0 <= j < |rest| && rest[j] == fr[i];
      assert rest[j] == records[j + 1];
    }
  }

  /** A record below every id of an ascending sequence can go in front. */
  lemma ConsAscending(first: Feedback, records: seq<Feedback>)
    requires AscendingIds(records)
    requires forall i :: 0 <= i < |records| ==> first.id < records[i].id
    ensures AscendingIds([first] + records)
  {
    var r := [first] + records;
    forall i, j | 0 <= i < j < |r| ensures r[i].id < r[j].id {
      assert r[j] == records[j - 1];
      if i > 0 {
        assert r[i] == records[i - 1];
      }
    }
  }

  /** The store at start-up: no records, next id 1. */
  function Initial(): (st: StoreState)
    ensures Invariant(st) && AllFeedback(st) == [] && st.nextId == 1
  {
    StoreState(Empty(), 1)
  }

  /** The POST `/feedbacks` handler: an incomplete submission is rejected and
      changes nothing; a complete one is stored under the current counter,
      which then goes up by one. */
  function PostFeedback(st: StoreState, s: Submission, now: Timestamp): (r: (StoreState, Response))
    requires Invariant(st)
    ensures Invariant(r.0)
    ensures !Complete(s) ==> r == (st, MissingFields)
    ensures Complete(s) ==> r.1 == Created(Feedback(st.nextId, s.name.value, s.email.value, s.category.value, s.message.value, now))
    ensures Complete(s) ==> r.0.nextId == st.nextId + 1 && r.0.items.Get(st.nextId) == Some(r.1.feedback)
    ensures Complete(s) ==> AllFeedback(r.0) == AllFeedback(st) + [r.1.feedback]
    ensures forall k :: k != st.nextId ==> r.0.items.Get(k) == st.items.Get(k)
  {
    if !Complete(s) then (st, MissingFields)
    else
      var feedback := Feedback(st.nextId, s.name.value, s.email.value, s.category.value, s.message.value, now);
      AddKeepsInvariant(st, feedback);
      (StoreState(st.items.Set(st.nextId, feedback), st.nextId + 1), Created(feedback))
  }

  /** Storing a record under the counter and raising the counter keeps the
      invariant and appends the record to list-all. */
  lemma {:induction false} AddKeepsInvariant(st: StoreState, feedback: Feedback)
    requires Invariant(st) && feedback.id == st.nextId
    ensures var st' := StoreState(st.items.Set(st.nextId, feedback), st.nextId + 1);
      Invariant(st') && AllFeedback(st') == AllFeedback(st) + [feedback]
  {
    var st' := StoreState(st.items.Set(st.nextId, feedback), st.nextId + 1);
    assert st.nextId !in st.items.entries by {
      forall i | 0 <= i < |st.items.keys| ensures st.items.keys[i] != st.nextId {
      }
    }
    SetNewKeyAppends(st.items, st.nextId, feedback);
    assert Invariant(st');
  }

  /** The DELETE `/feedbacks` handler: the map is emptied, the counter kept. */
  function DeleteAll(st: StoreState): (st': StoreState)
    requires Invariant(st)
    ensures Invariant(st') && AllFeedback(st') == []
    ensures st'.nextId == st.nextId
  {
    StoreState(Empty(), st.nextId)
  }

  /** One call to the store. */
  datatype Request = Post(submission: Submission, now: Timestamp) | Delete

  /** The store after serving `requests` in order, with the POST responses. */
  function Run(st: StoreState, requests: seq<Request>): (r: (StoreState, seq<Response>))
    requires Invariant(st)
    ensures Invariant(r.0)
    ensures r.0.nextId >= st.nextId
    decreases |requests|
  {
    if requests == [] then (st, [])
    else
      match requests[0]
      case Delete => Run(DeleteAll(st), requests[1..])
      case Post(s, now) =>
        var (st', response) := PostFeedback(st, s, now);
        var (st'', responses) := Run(st', requests[1..]);
        (st'', [response] + responses)
  }

  /** The ids of the records created, in call order. */
  function CreatedIds(responses: seq<Response>): seq<int> {
    if responses == [] then []
    else (if responses[0].Created? then [responses[0].feedback.id] else []) + CreatedIds(responses[1..])
  }

  /** `ids` is `from, from + 1, ...`. */
  predicate CountsFrom(ids: seq<int>, from: int) {
    forall i :: 0 <= i < |ids| ==> ids[i] == from + i
  }

  lemma CountsFromCons(ids: seq<int>, from: int)
    requires CountsFrom(ids, from + 1)
    ensures CountsFrom([from] + ids, from)
  {
  }

  lemma {:induction false} CreatedIdsCons(response: Response, responses: seq<Response>)
    ensures CreatedIds([response] + responses)
         == (if response.Created? then [response.feedback.id] else []) + CreatedIds(responses)
  {
    assert ([response] + responses)[1..] == responses;
  }

  /** Monotonic identity: whatever mix of posts and clears is served, the
      ids created are exactly `nextId, nextId + 1, ...` in call order, and the
      counter ends just past the last of them. From the initial store this
      is 1 .. N, and a clear never makes an id come back. */
  lemma {:induction false} RunIssuesConsecutiveIds(st: StoreState, requests: seq<Request>)
    requires Invariant(st)
    ensures CountsFrom(CreatedIds(Run(st, requests).1), st.nextId)
    ensures Run(st, requests).0.nextId == st.nextId + |CreatedIds(Run(st, requests).1)|
    decreases |requests|
  {
    if requests != [] {
      match requests[0]
      case Delete =>
        RunIssuesConsecutiveIds(DeleteAll(st), requests[1..]);
      case Post(s, now) =>
        var (st', response) := PostFeedback(st, s, now);
        RunIssuesConsecutiveIds(st', requests[1..]);
        var (st'', responses) := Run(st', requests[1..]);
        assert Run(st, requests) == (st'', [response] + responses);
        CreatedIdsCons(response, responses);
        if response.Created? {
          CountsFromCons(CreatedIds(responses), st.nextId);
        } else {
          assert [] + CreatedIds(responses) == CreatedIds(responses);
        }
    }
  }

  /** Clear semantics: after a clear, the next record gets an id greater than
      that of every record stored before the clear. */
  lemma ClearThenPostExceeds(st: StoreState, s: Submission, now: Timestamp)
    requires Invariant(st) && Complete(s)
    ensures var (_, response) := PostFeedback(DeleteAll(st), s, now);
      forall i :: 0 <= i < |AllFeedback(st)| ==> AllFeedback(st)[i].id < response.feedback.id
  {
    var all := AllFeedback(st);
    forall i | 0 <= i < |all| ensures all[i].id < st.nextId {
      var k := all[i].id;
      assert k in st.items.keys;
    }
  }

  /** The validation of the POST handler field by field: a submission is
      rejected, with the store left as it was, exactly when some field is
      absent or empty. */
  lemma MissingFieldRejected(st: StoreState, s: Submission, now: Timestamp)
    requires Invariant(st)
    ensures PostFeedback(st, s, now) == (st, MissingFields)
        <==> (s.name in {None, Some("")} || s.email in {None, Some("")}
              || s.category in {None, Some("")} || s.message in {None, Some("")})
  {
  }

  /** A bug report and an idea, the two submissions of the scenario below. */
  function BugReport(): Submission {
    Submission(Some("A"), Some("a@x.com"), Some("bug"), Some("m"))
  }

  function IdeaReport(): Submission {
    Submission(Some("B"), Some("b@x.com"), Some("idea"), Some("n"))
  }

  /** The bug report posted to the initial store. */
  function FirstPost(now: Timestamp): (StoreState, Response) {
    PostFeedback(Initial(), BugReport(), now)
  }

  /** The idea posted after it. */
  function SecondPost(now: Timestamp): (StoreState, Response) {
    PostFeedback(FirstPost(now).0, IdeaReport(), now)
  }

  /** After the first post, the store lists the bug report with id 1. */
  lemma FirstPostListed(now: Timestamp)
    ensures Invariant(FirstPost(now).0) && FirstPost(now).0.nextId == 2
    ensures FirstPost(now).1 == Created(Feedback(1, "A", "a@x.com", "bug", "m", now))
    ensures AllFeedback(FirstPost(now).0) == [FirstPost(now).1.feedback]
  {
    assert Complete(BugReport());
    assert AllFeedback(Initial()) == [];
  }

  /** After both posts, the store lists both, in that order, with ids 1 and 2. */
  lemma {:induction false} TwoPostsListed(now: Timestamp)
    ensures Invariant(SecondPost(now).0) && SecondPost(now).0.nextId == 3
    ensures SecondPost(now).1 == Created(Feedback(2, "B", "b@x.com", "idea", "n", now))
    ensures AllFeedback(SecondPost(now).0) == [FirstPost(now).1.feedback, SecondPost(now).1.feedback]
  {
    FirstPostListed(now);
    assert Complete(IdeaReport());
  }

  /** After both posts, the "bug" listing is exactly the first record. */
  lemma {:induction false} TwoPostsBugListing(now: Timestamp)
    ensures Invariant(SecondPost(now).0) && FeedbackInCategory(SecondPost(now).0, "bug") == [FirstPost(now).1.feedback]
  {
    FirstPostListed(now);
    TwoPostsListed(now);
    var first := FirstPost(now).1.feedback;
    var second := SecondPost(now).1.feedback;
    assert Filter([second], HasCategory("bug")) == [];
    assert [first, second][1..] == [second];
  }

  /** A post after a clear gets the counter the clear left behind. */
  lemma PostAfterClear(st: StoreState, s: Submission, now: Timestamp)
    requires Invariant(st) && Complete(s)
    ensures PostFeedback(DeleteAll(st), s, now).1.feedback.id == st.nextId
  {
  }

  /** A bug report and an idea, then a clear and the bug report again: the
      "bug" listing before the clear holds exactly the first record, and the
      record posted after the clear gets id 3. */
  lemma BugIdeaScenario(now: Timestamp)
    ensures var (_, r1) := FirstPost(now);
      var (st2, r2) := SecondPost(now);
      && Invariant(st2)
      && r1.Created? && r2.Created? && r1.feedback.id == 1 && r2.feedback.id == 2
      && FeedbackInCategory(st2, "bug") == [r1.feedback]
      && PostFeedback(DeleteAll(st2), BugReport(), now).1 == Created(Feedback(3, "A", "a@x.com", "bug", "m", now))
  {
    FirstPostListed(now);
    TwoPostsListed(now);
    TwoPostsBugListing(now);
    PostAfterClear(SecondPost(now).0, BugReport(), now);
  }

  /** `feedbackItems` and `feedbackCurrentId`, updated in place by the
      handlers. */
  class FeedbackStore {
    var feedbackItems: OrderedMap<int, Feedback>
    var feedbackCurrentId: int

    /** The two variables as a value. */
    function State(): StoreState
      reads this
    {
      StoreState(feedbackItems, feedbackCurrentId)
    }

    ghost predicate Valid()
      reads this
    {
      Invariant(State())
    }

    /** `new Map()` and `feedbackCurrentId = 1`. */
    constructor()
      ensures Valid() && State() == Initial()
    {
      feedbackItems := Empty();
      feedbackCurrentId := 1;
    }

    /** GET `/feedbacks`. */
    function ListAll(): (r: seq<Feedback>)
      reads this
      requires Valid()
      ensures r == AllFeedback(State())
    {
      feedbackItems.Values()
    }

    /** GET `/feedbacks/category/:category`. */
    function ListCategory(category: string): (r: seq<Feedback>)
      reads this
      requires Valid()
      ensures r == FeedbackInCategory(State(), category)
    {
      Filter(feedbackItems.Values(), HasCategory(category))
    }

    /** POST `/feedbacks`. */
    method Submit(s: Submission, now: Timestamp) returns (response: Response)
      requires Valid()
      modifies this
      ensures Valid()
      ensures (State(), response) == PostFeedback(old(State()), s, now)
    {
      ghost var before := State();
      ghost var post := PostFeedback(before, s, now);
      if !Complete(s) {
        assert post == (before, MissingFields);
        return MissingFields;
      }
      var id := feedbackCurrentId;
      var feedback := Feedback(id, s.name.value, s.email.value, s.category.value, s.message.value, now);
      ghost var after := StoreState(before.items.Set(before.nextId, feedback), before.nextId + 1);
      assert post == (after, Created(feedback));
      feedbackItems := feedbackItems.Set(id, feedback);
      feedbackCurrentId := feedbackCurrentId + 1;
      response := Created(feedback);
      assert State() == after;
    }

    /** DELETE `/feedbacks`. */
    method Clear()
      requires Valid()
      modifies this
      ensures Valid()
      ensures State() == DeleteAll(old(State()))
    {
      feedbackItems := Empty();
    }
  }
}
