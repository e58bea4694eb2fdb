/** The flat-file subscriber store of the family-cabin server (the
    `server/fileManager.ts` part of `familycabin/index.js`). The file
    `data/subscribers.txt` holds one `email,timestamp` line per subscriber;
    a subscriber's id is the position of its line among the non-blank lines,
    recomputed on every read. */
module SubscriberFile {
  import opened JsBuiltins

  datatype Subscriber = Subscriber(id: nat, email: string, createdAt: Timestamp)

  /** Whether one file-system call returns or throws. */
  datatype IoOutcome = Succeeds | Throws

  /** What `saveSubscriber` hands its caller: a record, or the rethrown write error. */
  datatype SaveResult = Saved(subscriber: Subscriber) | WriteFailed

  /** The content of the file once `ensureDataDirExists` has run: a missing
      file has been created empty, an existing one is untouched. */
  function Prepared(file: Option<string>): (r: string)
    ensures file == Some(r) || (file == None && r == "")
  {
    match file
    case None => ""
    case Some(content) => content
  }

  /** `line.trim() !== ""`: the line holds a character other than
      whitespace (ContentLineIsTrimTest). */
  predicate IsContentLine(line: string) {
    !IsBlank(line)
  }

  /** The test above is the source's `trim` test. */
  lemma ContentLineIsTrimTest(line: string)
    ensures IsContentLine(line) <==> Trim(line) != ""
  {
    TrimEmptyIffBlank(line);
  }

  /** The lines of `content` that are not blank after trimming, in file order. */
  function NonBlankLines(content: string): seq<string> {
    Filter(Split(content, '\n'), IsContentLine)
  }

  /** The text of `line` before its first comma, or all of it when there is none. */
  function EmailOf(line: string): (email: string)
    ensures ',' !in email
    ensures email == line || email + [','] <= line
  {
    Split(line, ',')[0]
  }

  /** The second comma-separated field of `line`; empty when `line` has no comma. */
  function TimestampOf(line: string): (stamp: Timestamp)
    ensures ',' !in stamp
    ensures ',' !in line ==> stamp == ""
    ensures ',' in line ==> |EmailOf(line)| < |line| && stamp == EmailOf(line[|EmailOf(line)| + 1..])
  {
    var fields := Split(line, ',');
    assert ',' !in line ==> fields == [line] by {
      if ',' !in line {
        SplitWithoutSeparator(line, ',');
      }
    }
    assert ',' in line ==> |EmailOf(line)| < |line| && fields[1] == EmailOf(line[|EmailOf(line)| + 1..]) by {
      if ',' in line {
        var e := EmailOf(line);
        assert e != line;
        var rest := line[|e| + 1..];
        assert line == e + [','] + rest;
        SplitAround(e, rest, ',');
        SplitWithoutSeparator(e, ',');
      }
    }
    if |fields| > 1 then fields[1] else ""
  }

  /** The record a line stands for at position `id`; a missing or empty
      timestamp field reads as `now`. */
  function ParseLine(line: string, id: nat, now: Timestamp): Subscriber {
    var stamp := TimestampOf(line);
    Subscriber(id, EmailOf(line), if stamp != "" then stamp else now)
  }

  /** Parses `lines`, numbering them from `firstId` on. */
  function Number(lines: seq<string>, firstId: nat, now: Timestamp): (r: seq<Subscriber>)
    ensures |r| == |lines|
    ensures forall i :: 0 <= i < |lines| ==> r[i] == ParseLine(lines[i], firstId + i, now)
    decreases |lines|
  {
    if lines == [] then []
    else [ParseLine(lines[0], firstId, now)] + Number(lines[1..], firstId + 1, now)
  }

  /** A blank file has no non-blank line. */
  lemma BlankHasNoLines(content: string)
    requires IsBlank(content)
    ensures NonBlankLines(content) == []
  {
    var parts := Split(content, '\n');
    SplitBlank(content, '\n');
    assert forall i :: 0 <= i < |parts| ==> !IsContentLine(parts[i]);
  }

  /** What `getSubscribers` makes of the file content when the read succeeds:
      a whitespace-only file (`!fileContent.trim()`, see TrimEmptyIffBlank)
      is empty; otherwise the non-blank lines, in file order, become the
      records with ids 1, 2, ... */
  function ParseSubscribers(content: string, now: Timestamp): (r: seq<Subscriber>)
    ensures |r| == |NonBlankLines(content)|
    ensures forall i :: 0 <= i < |r| ==> r[i] == ParseLine(NonBlankLines(content)[i], i + 1, now)
  {
    if IsBlank(content) then
      BlankHasNoLines(content);
      []
    else Number(NonBlankLines(content), 1, now)
  }

  /** What `getSubscribers` returns: the parse of the file, or no subscribers
      at all when the read throws. */
  function Listing(content: string, now: Timestamp, read: IoOutcome): (r: seq<Subscriber>)
    ensures read == Throws ==> r == []
    ensures read == Succeeds ==> r == ParseSubscribers(content, now)
    ensures forall i :: 0 <= i < |r| ==> r[i].id == i + 1
  {
    if read == Throws then [] else ParseSubscribers(content, now)
  }

  /** `getSubscriberByEmail` on a listing: the first record with that email. */
  function FindByEmail(subscribers: seq<Subscriber>, email: string): (r: Option<Subscriber>)
    ensures r.None? <==> forall i :: 0 <= i < |subscribers| ==> subscribers[i].email != email
    ensures r.Some? ==> exists i ::
      (0 <= i < |subscribers| && subscribers[i] == r.value && r.value.email == email
       && forall j :: 0 <= j < i ==> subscribers[j].email != email)
  {
    Find(subscribers, (s: Subscriber) => s.email == email)
  }

  /** `getSubscriberById` on a listing: the first record with that id. */
  function FindById(subscribers: seq<Subscriber>, id: int): (r: Option<Subscriber>)
    ensures r.None? <==> forall i :: 0 <= i < |subscribers| ==> subscribers[i].id != id
    ensures r.Some? ==> exists i ::
      (0 <= i < |subscribers| && subscribers[i] == r.value && r.value.id == id
       && forall j :: 0 <= j < i ==> subscribers[j].id != id)
  {
    Find(subscribers, (s: Subscriber) => s.id == id)
  }

  /** The line `saveSubscriber` appends for a new subscriber: complete, and
      read back with the email as its first field. */
  function RecordLine(email: string, createdAt: Timestamp): (line: string)
    ensures |line| > 0 && line[|line| - 1] == '\n'
    ensures ',' !in email ==> EmailOf(line) == email
  {
    var line := email + "," + createdAt + "\n";
    assert ',' !in email ==> EmailOf(line) == email by {
      if ',' !in email {
        SplitAround(email, createdAt + "\n", ',');
        SplitWithoutSeparator(email, ',');
        assert line == email + [','] + (createdAt + "\n");
      }
    }
    line
  }

  /** `saveSubscriber` once the file exists: the content afterwards and the
      result. A known email returns the record already there and writes
      nothing; a new one is appended with id = count + 1; a failed append is
      rethrown and leaves the file as it was. */
  function Save(content: string, email: string, now: Timestamp, read: IoOutcome, append: IoOutcome)
    : (r: (string, SaveResult))
    ensures r.0 == content || r.0 == content + RecordLine(email, now)
    ensures r.1.Saved? ==> r.1.subscriber.email == email
    ensures r.1.WriteFailed? ==> append == Throws && r.0 == content
    ensures append == Throws ==> r.0 == content
    ensures append == Throws && FindByEmail(Listing(content, now, read), email).None? ==> r == (content, WriteFailed)
  {
    var known := Listing(content, now, read);
    match FindByEmail(known, email)
    case Some(existing) => (content, Saved(existing))
    case None =>
      if append == Throws then (content, WriteFailed)
      else (content + RecordLine(email, now), Saved(Subscriber(|known| + 1, email, now)))
  }

  /** The file is empty or its last line is complete. */
  predicate EndsWithNewline(content: string) {
    content == "" || content[|content| - 1] == '\n'
  }

  /** `s` can stand as one field of a line: it holds no comma and no newline. */
  predicate IsField(s: string) {
    ',' !in s && '\n' !in s
  }

  /** Some line of `lines` carries `email`. */
  predicate HasEmail(lines: seq<string>, email: string) {
    exists i :: 0 <= i < |lines| && EmailOf(lines[i]) == email
  }

  /** No two lines of `lines` carry the same email. */
  predicate EmailsDistinct(lines: seq<string>) {
    forall i, j :: 0 <= i < j < |lines| ==> EmailOf(lines[i]) != EmailOf(lines[j])
  }

  /** Some line of the file carries `email`. */
  predicate Registered(content: string, email: string) {
    HasEmail(NonBlankLines(content), email)
  }

  /** No two lines of the file carry the same email. */
  predicate DistinctEmails(content: string) {
    EmailsDistinct(NonBlankLines(content))
  }

  /** A line with an email not yet present keeps the emails distinct. */
  lemma AddLineKeepsEmailsDistinct(lines: seq<string>, line: string)
    requires EmailsDistinct(lines) && !HasEmail(lines, EmailOf(line))
    ensures EmailsDistinct(lines + [line])
  {
    var lines' := lines + [line];
    assert forall i :: 0 <= i < |lines| ==> lines'[i] == lines[i];
  }

  /** Whether the lookup by email finds something depends only on the file,
      not on the time used to fill in missing timestamps. */
  lemma FindByEmailIffRegistered(content: string, email: string, now: Timestamp)
    ensures FindByEmail(ParseSubscribers(content, now), email).Some? <==> Registered(content, email)
  {
  }

  /** A line made of two fields parses back into those fields. */
  lemma {:induction false} ParseRecordLine(email: string, stamp: Timestamp, id: nat, now: Timestamp)
    requires IsField(email) && IsField(stamp) && stamp != ""
    ensures ParseLine(email + "," + stamp, id, now) == Subscriber(id, email, stamp)
  {
    SplitAround(email, stamp, ',');
    SplitWithoutSeparator(email, ',');
    SplitWithoutSeparator(stamp, ',');
    assert email + "," + stamp == email + [','] + stamp;
  }

  /** A line without a timestamp field, and a line whose timestamp field is
      empty (whatever follows it), read as the email with the current time. */
  lemma {:induction false} ParseLineDefaults(email: string, rest: string, id: nat, now: Timestamp)
    requires ',' !in email
    ensures ParseLine(email, id, now) == Subscriber(id, email, now)
    ensures ParseLine(email + ",", id, now) == Subscriber(id, email, now)
    ensures ParseLine(email + ",," + rest, id, now) == Subscriber(id, email, now)
  {
    SplitWithoutSeparator(email, ',');
    SplitWithoutSeparator("", ',');
    SplitAround(email, "", ',');
    assert email + [','] + "" == email + ",";
    var line := email + ",," + rest;
    SplitAround(email, "," + rest, ',');
    assert line == email + [','] + ("," + rest);
    assert EmailOf(line) == email;
    assert line[|email| + 1..] == "," + rest;
    assert Split("," + rest, ',')[0] == "";
  }

  /** A newline-free line followed by a newline splits into the line and an
      empty tail. */
  lemma {:induction false} SplitTerminatedLine(line: string)
    requires '\n' !in line
    ensures Split(line + "\n", '\n') == [line, ""]
  {
    SplitWithoutSeparator(line, '\n');
    SplitAround(line, "", '\n');
    assert line + ['\n'] + "" == line + "\n";
  }

  /** Of a content line and the empty tail after it, only the line is kept. */
  lemma {:induction false} KeepTerminatedLine(line: string)
    requires IsContentLine(line)
    ensures Filter([line, ""], IsContentLine) == [line]
  {
    assert !IsContentLine("");
    FilterConcat([line], [""], IsContentLine);
    assert [line, ""] == [line] + [""];
  }

  /** The line `saveSubscriber` writes for two fields is one content line. */
  lemma RecordLineIsOneContentLine(email: string, stamp: Timestamp)
    requires IsField(email) && IsField(stamp)
    ensures '\n' !in email + "," + stamp
    ensures IsContentLine(email + "," + stamp)
  {
    var line := email + "," + stamp;
    assert forall c :: c in line ==> c in email || c == ',' || c in stamp;
    assert line[|email|] == ',';
  }

  /** The first line written to an empty file is its only line. */
  lemma {:induction false} FirstLine(line: string)
    requires '\n' !in line && IsContentLine(line)
    ensures NonBlankLines(line + "\n") == [line]
  {
    SplitTerminatedLine(line);
    KeepTerminatedLine(line);
  }

  /** A line written after a complete last line is added after the lines
      already there. */
  lemma {:induction false} NextLine(front: string, line: string)
    requires '\n' !in line && IsContentLine(line)
    ensures NonBlankLines(front + "\n" + (line + "\n")) == NonBlankLines(front + "\n") + [line]
  {
    var parts := Split(front, '\n');
    var kept := Filter(parts, IsContentLine);
    assert Split(front + "\n", '\n') == parts + [""] by {
      SplitAround(front, "", '\n');
      assert front + ['\n'] + "" == front + "\n";
    }
    assert Split(front + "\n" + (line + "\n"), '\n') == parts + [line, ""] by {
      SplitAround(front, line + "\n", '\n');
      assert front + ['\n'] + (line + "\n") == front + "\n" + (line + "\n");
      SplitTerminatedLine(line);
    }
    assert Filter(parts + [""], IsContentLine) == kept by {
      FilterConcat(parts, [""], IsContentLine);
      assert Filter([""], IsContentLine) == [] by { assert !IsContentLine(""); }
      assert kept + [] == kept;
    }
    assert Filter(parts + [line, ""], IsContentLine) == kept + [line] by {
      FilterConcat(parts, [line, ""], IsContentLine);
      KeepTerminatedLine(line);
    }
  }

  /** Appending a record line to a file whose last line is complete adds
      exactly that line to the non-blank lines. */
  lemma {:induction false} AppendAddsOneLine(content: string, email: string, stamp: Timestamp)
    requires EndsWithNewline(content) && IsField(email) && IsField(stamp)
    ensures NonBlankLines(content + RecordLine(email, stamp))
         == NonBlankLines(content) + [email + "," + stamp]
  {
    var line := email + "," + stamp;
    RecordLineIsOneContentLine(email, stamp);
    if content == "" {
      assert content + RecordLine(email, stamp) == line + "\n";
      FirstLine(line);
      BlankHasNoLines(content);
    } else {
      var front := content[..|content| - 1];
      assert content == front + "\n";
      assert content + RecordLine(email, stamp) == front + "\n" + (line + "\n");
      NextLine(front, line);
    }
  }

  /** Numbering one more line extends the numbering by that line's record. */
  lemma {:induction false} NumberAppend(lines: seq<string>, line: string, firstId: nat, now: Timestamp)
    ensures Number(lines + [line], firstId, now)
         == Number(lines, firstId, now) + [ParseLine(line, firstId + |lines|, now)]
  {
    var longer := lines + [line];
    var a := Number(longer, firstId, now);
    var b := Number(lines, firstId, now) + [ParseLine(line, firstId + |lines|, now)];
    forall i | 0 <= i < |a| ensures a[i] == b[i] {
      if i < |lines| {
        assert longer[i] == lines[i];
      } else {
        assert longer[i] == line;
      }
    }
  }

  /** The early return of `getSubscribers` for a whitespace-only file agrees
      with the general path: the parse is always the numbering of the
      non-blank lines. */
  lemma ParseIsNumbering(content: string, now: Timestamp)
    ensures ParseSubscribers(content, now) == Number(NonBlankLines(content), 1, now)
  {
  }

  /** After a record line is appended to a file whose last line is complete,
      a read sees the earlier records unchanged followed by the new one at
      position count + 1. */
  lemma ParseAfterAppend(content: string, email: string, stamp: Timestamp, later: Timestamp)
    requires EndsWithNewline(content) && IsField(email) && IsField(stamp) && stamp != ""
    ensures ParseSubscribers(content + RecordLine(email, stamp), later)
         == ParseSubscribers(content, later) + [Subscriber(|NonBlankLines(content)| + 1, email, stamp)]
  {
    var appended := content + RecordLine(email, stamp);
    var lines := NonBlankLines(content);
    var line := email + "," + stamp;
    AppendAddsOneLine(content, email, stamp);
    ParseIsNumbering(content, later);
    ParseIsNumbering(appended, later);
    NumberAppend(lines, line, 1, later);
    ParseRecordLine(email, stamp, |lines| + 1, later);
  }

  /** Saving a new email appends exactly one line and returns the record with
      id = previous count + 1. */
  lemma SaveNewAppends(content: string, email: string, now: Timestamp)
    requires !Registered(content, email)
    ensures Save(content, email, now, Succeeds, Succeeds)
         == (content + RecordLine(email, now), Saved(Subscriber(|NonBlankLines(content)| + 1, email, now)))
  {
    var known := Listing(content, now, Succeeds);
    assert known == ParseSubscribers(content, now);
    FindByEmailIffRegistered(content, email, now);
    assert FindByEmail(known, email) == None;
  }

  /** Read after write: once a new email is saved (see SaveNewAppends), both
      lookups of a later read find the saved record. */
  lemma SaveThenFind(content: string, email: string, now: Timestamp, later: Timestamp)
    requires EndsWithNewline(content) && IsField(email) && IsField(now) && now != ""
    requires !Registered(content, email)
    ensures var saved := Subscriber(|NonBlankLines(content)| + 1, email, now);
      var listing := ParseSubscribers(content + RecordLine(email, now), later);
      && FindByEmail(listing, email) == Some(saved)
      && FindById(listing, saved.id) == Some(saved)
  {
    ParseAfterAppend(content, email, now, later);
    EarlierRecordsDiffer(content, email, now, later);
    FoundOnlyAtEnd(ParseSubscribers(content, later), Subscriber(|NonBlankLines(content)| + 1, email, now));
  }

  /** The records of a file that does not hold `email` differ from the next
      record for it both in email and in id. */
  lemma EarlierRecordsDiffer(content: string, email: string, now: Timestamp, later: Timestamp)
    requires !Registered(content, email)
    ensures var before := ParseSubscribers(content, later);
      forall i :: 0 <= i < |before| ==> before[i].email != email && before[i].id != |before| + 1
  {
    FindByEmailIffRegistered(content, email, later);
  }

  /** A record after records that share neither its email nor its id is what
      both lookups find. */
  lemma FoundOnlyAtEnd(before: seq<Subscriber>, saved: Subscriber)
    requires forall i :: 0 <= i < |before| ==> before[i].email != saved.email && before[i].id != saved.id
    ensures FindByEmail(before + [saved], saved.email) == Some(saved)
    ensures FindById(before + [saved], saved.id) == Some(saved)
  {
    var after := before + [saved];
    assert forall i :: 0 <= i < |before| ==> after[i] == before[i];
    assert after[|before|] == saved;
  }

  /** Saving an email already in the file returns the record already there
      (same id) and leaves the file content unchanged. */
  lemma SaveKnownEmail(content: string, email: string, now: Timestamp, append: IoOutcome)
    requires Registered(content, email)
    ensures var (c', r) := Save(content, email, now, Succeeds, append);
      var listing := ParseSubscribers(content, now);
      && c' == content
      && r.Saved?
      && exists i ::
        (0 <= i < |listing| && r.subscriber == listing[i] && r.subscriber.id == i + 1
         && r.subscriber.email == email && forall j :: 0 <= j < i ==> listing[j].email != email)
  {
    FindByEmailIffRegistered(content, email, now);
  }

  /** Creating a subscriber is idempotent: saving a new email and then saving
      it again, at any later time, returns the same record (same id) and
      writes no second line. */
  lemma SaveTwiceSameRecord(content: string, email: string, now: Timestamp, later: Timestamp)
    requires EndsWithNewline(content) && IsField(email) && IsField(now) && now != ""
    requires !Registered(content, email)
    ensures var (c1, r1) := Save(content, email, now, Succeeds, Succeeds);
      var (c2, r2) := Save(c1, email, later, Succeeds, Succeeds);
      && r1 == Saved(Subscriber(|NonBlankLines(content)| + 1, email, now))
      && c2 == c1 && r2 == r1
  {
    SaveNewAppends(content, email, now);
    SaveThenFind(content, email, now, later);
  }

  /** A second email saved after the first one's line is appended with id 2. */
  lemma {:induction false} SecondSubscriber(first: string, t1: Timestamp, second: string, t2: Timestamp)
    requires IsField(first) && IsField(t1) && IsField(second) && IsField(t2) && first != second
    ensures Save(RecordLine(first, t1), second, t2, Succeeds, Succeeds)
         == (RecordLine(first, t1) + RecordLine(second, t2), Saved(Subscriber(2, second, t2)))
  {
    var c1 := RecordLine(first, t1);
    OnlyRecordLine(first, t1);
    EmailOfRecordLine(first, t1);
    assert !Registered(c1, second) by {
      var lines := NonBlankLines(c1);
      assert lines == [first + "," + t1];
      assert EmailOf(lines[0]) == first;
    }
    SaveNewAppends(c1, second, t2);
  }

  /** From an empty file: a first email is saved with id 1, saving it again
      returns id 1 and writes nothing, and a second email is then saved with
      id 2; the file holds one line for each. */
  lemma {:induction false} SubscribeSequence(a: string, b: string, t1: Timestamp, t2: Timestamp, t3: Timestamp)
    requires IsField(a) && IsField(b) && a != b
    requires IsField(t1) && t1 != "" && IsField(t3)
    ensures var (c1, r1) := Save("", a, t1, Succeeds, Succeeds);
      var (c2, r2) := Save(c1, a, t2, Succeeds, Succeeds);
      var (c3, r3) := Save(c2, b, t3, Succeeds, Succeeds);
      && r1 == Saved(Subscriber(1, a, t1))
      && r2 == r1 && c2 == c1
      && r3 == Saved(Subscriber(2, b, t3))
      && c3 == RecordLine(a, t1) + RecordLine(b, t3)
  {
    var c1, r1 := RecordLine(a, t1), Saved(Subscriber(1, a, t1));
    assert Save("", a, t1, Succeeds, Succeeds) == (c1, r1) by {
      BlankHasNoLines("");
      SaveNewAppends("", a, t1);
      assert "" + c1 == c1;
    }
    assert Save(c1, a, t2, Succeeds, Succeeds) == (c1, r1) by {
      BlankHasNoLines("");
      SaveTwiceSameRecord("", a, t1, t2);
    }
    SecondSubscriber(a, t1, b, t3);
  }

  /** The sequence above with `a@x.com` and `b@x.com`: ids 1, 1, 2. */
  lemma SubscribeScenario(t1: Timestamp, t2: Timestamp, t3: Timestamp)
    requires IsField(t1) && t1 != "" && IsField(t3)
    ensures var (c1, r1) := Save("", "a@x.com", t1, Succeeds, Succeeds);
      var (c2, r2) := Save(c1, "a@x.com", t2, Succeeds, Succeeds);
      var (c3, r3) := Save(c2, "b@x.com", t3, Succeeds, Succeeds);
      && r1 == Saved(Subscriber(1, "a@x.com", t1))
      && r2 == r1 && c2 == c1
      && r3 == Saved(Subscriber(2, "b@x.com", t3))
  {
    SubscribeSequence("a@x.com", "b@x.com", t1, t2, t3);
  }

  /** The email field of a record line is the email written. */
  lemma {:induction false} EmailOfRecordLine(email: string, stamp: Timestamp)
    requires IsField(email) && IsField(stamp)
    ensures EmailOf(email + "," + stamp) == email
  {
    SplitAround(email, stamp, ',');
    SplitWithoutSeparator(email, ',');
    assert email + "," + stamp == email + [','] + stamp;
  }

  /** A file whose lines are those of `content` plus one line with a new
      email keeps the emails pairwise distinct. */
  lemma LinesAddedKeepEmailsDistinct(content: string, content': string, line: string)
    requires NonBlankLines(content') == NonBlankLines(content) + [line]
    requires DistinctEmails(content) && !Registered(content, EmailOf(line))
    ensures DistinctEmails(content')
  {
    AddLineKeepsEmailsDistinct(NonBlankLines(content), line);
  }

  /** Appending a record line leaves the last line complete. */
  lemma AppendEndsWithNewline(content: string, email: string, stamp: Timestamp)
    ensures EndsWithNewline(content + RecordLine(email, stamp))
  {
    var appended := content + RecordLine(email, stamp);
    assert appended[|appended| - 1] == '\n';
  }

  /** Appending the line of an email the file does not hold keeps the emails
      pairwise distinct. */
  lemma {:induction false} AppendKeepsEmailsDistinct(content: string, email: string, stamp: Timestamp)
    requires EndsWithNewline(content) && DistinctEmails(content)
    requires IsField(email) && IsField(stamp) && !Registered(content, email)
    ensures DistinctEmails(content + RecordLine(email, stamp))
  {
    var line := email + "," + stamp;
    AppendAddsOneLine(content, email, stamp);
    EmailOfRecordLine(email, stamp);
    LinesAddedKeepEmailsDistinct(content, content + RecordLine(email, stamp), line);
  }

  /** Saving through `saveSubscriber` keeps the emails in the file pairwise
      distinct and the last line complete, as long as its reads succeed. */
  lemma SaveKeepsEmailsDistinct(content: string, email: string, now: Timestamp, append: IoOutcome)
    requires EndsWithNewline(content) && DistinctEmails(content)
    requires IsField(email) && IsField(now)
    ensures var c' := Save(content, email, now, Succeeds, append).0;
      EndsWithNewline(c') && DistinctEmails(c')
  {
    var c' := Save(content, email, now, Succeeds, append).0;
    FindByEmailIffRegistered(content, email, now);
    if c' != content {
      AppendKeepsEmailsDistinct(content, email, now);
      AppendEndsWithNewline(content, email, now);
    }
  }

  /** A read that throws inside `saveSubscriber` is swallowed by
      `getSubscribers`: the save then appends whatever the file holds and
      hands back id 1. */
  lemma SaveAfterFailedRead(content: string, email: string, now: Timestamp)
    ensures Save(content, email, now, Throws, Succeeds)
         == (content + RecordLine(email, now), Saved(Subscriber(1, email, now)))
  {
  }

  /** A file holding the same line twice fails distinctness. */
  lemma RepeatedLineNotDistinct(content: string, line: string)
    requires NonBlankLines(content) == [line, line]
    ensures !DistinctEmails(content)
  {
    var two := [line, line];
    assert EmailOf(two[0]) == EmailOf(two[1]);
  }

  /** A file holding the same line twice reads that line back as record 2. */
  lemma RepeatedLineSecondRecord(content: string, line: string, now: Timestamp)
    requires NonBlankLines(content) == [line, line]
    ensures |ParseSubscribers(content, now)| == 2
    ensures ParseSubscribers(content, now)[1] == ParseLine(line, 2, now)
  {
    ParseIsNumbering(content, now);
    assert Number([line, line], 1, now)[1] == ParseLine(line, 2, now);
  }

  /** The record line written to an empty file is its only line. */
  lemma {:induction false} OnlyRecordLine(email: string, now: Timestamp)
    requires IsField(email) && IsField(now)
    ensures NonBlankLines(RecordLine(email, now)) == [email + "," + now]
  {
    AppendAddsOneLine("", email, now);
    assert "" + RecordLine(email, now) == RecordLine(email, now);
    BlankHasNoLines("");
  }

  /** So, as written, a known email can be written a second time: its second
      line reads back as record 2 while the save reported id 1. */
  lemma {:induction false} ReadFailureDuplicatesEmail(email: string, now: Timestamp)
    requires IsField(email) && IsField(now) && now != ""
    ensures var first := RecordLine(email, now);
      && Save(first, email, now, Throws, Succeeds) == (first + first, Saved(Subscriber(1, email, now)))
      && !DistinctEmails(first + first)
      && ParseSubscribers(first + first, now)[1] == Subscriber(2, email, now)
  {
    var first := RecordLine(email, now);
    var line := email + "," + now;
    OnlyRecordLine(email, now);
    AppendEndsWithNewline("", email, now);
    assert "" + first == first;
    AppendAddsOneLine(first, email, now);
    RepeatedLineNotDistinct(first + first, line);
    RepeatedLineSecondRecord(first + first, line, now);
    ParseRecordLine(email, now, 2, now);
    SaveAfterFailedRead(first, email, now);
  }

  /** Creating the missing file twice is creating it once, and an existing
      file keeps its content. */
  lemma PreparedIdempotent(file: Option<string>)
    ensures Prepared(Some(Prepared(file))) == Prepared(file)
    ensures file.Some? ==> Prepared(file) == file.value
  {
  }

  /** Empty or whitespace-only content parses to no records. */
  lemma {:induction false} BlankParsesEmpty(content: string, now: Timestamp)
    requires IsBlank(content)
    ensures ParseSubscribers(content, now) == []
  {
    BlankHasNoLines(content);
  }

  /** In a listing whose ids are the 1-based positions, the lookup by id
      finds record `id` exactly when `1 <= id <= count`. */
  lemma FindByPosition(listing: seq<Subscriber>, id: int)
    requires forall i :: 0 <= i < |listing| ==> listing[i].id == i + 1
    ensures FindById(listing, id) == if 1 <= id <= |listing| then Some(listing[id - 1]) else None
  {
    if 1 <= id <= |listing| {
      var r := FindById(listing, id);
      assert listing[id - 1].id == id;
      var i :| 0 <= i < |listing| && listing[i] == r.value && r.value.id == id;
    }
  }

  /** Ids are positions: the lookup by id finds record `id` exactly when
      `1 <= id <= count`, and it is the record in that position. */
  lemma FindByIdIsPosition(content: string, now: Timestamp, id: int)
    ensures var listing := ParseSubscribers(content, now);
      FindById(listing, id) == if 1 <= id <= |listing| then Some(listing[id - 1]) else None
  {
    FindByPosition(ParseSubscribers(content, now), id);
  }

  /** The file `data/subscribers.txt` as the module-level functions of
      `fileManager.ts` see it: missing (`None`) or holding some text. The
      outcome of each read and append, and the time `new Date()` returns,
      are passed in. */
  class SubscribersFile {
    var file: Option<string>

    /** A file system where the file may or may not exist yet. */
    constructor(initial: Option<string>)
      ensures file == initial
    {
      file := initial;
    }

    /** `ensureDataDirExists`: creates the file empty if it is missing. */
    method EnsureDataDirExists()
      modifies this
      ensures file == Some(Prepared(old(file)))
    {
      if file.None? {
        file := Some("");
      }
    }

    /** `getSubscribers`: the records of the file, or none when the read throws. */
    method GetSubscribers(now: Timestamp, read: IoOutcome) returns (subscribers: seq<Subscriber>)
      modifies this
      ensures file == Some(Prepared(old(file)))
      ensures subscribers == Listing(Prepared(old(file)), now, read)
    {
      EnsureDataDirExists();
      if read == Throws {
        return [];
      }
      var content := file.value;
      if Trim(content) == "" {
        TrimEmptyIffBlank(content);
        BlankHasNoLines(content);
        return [];
      }
      subscribers := Number(NonBlankLines(content), 1, now);
    }

    /** `saveSubscriber`: returns the record already held for `email`, or
        appends a line for it and returns the new record; an append that
        throws is rethrown (`WriteFailed`) and writes nothing. */
    method SaveSubscriber(email: string, now: Timestamp, read: IoOutcome, append: IoOutcome)
      returns (result: SaveResult)
      modifies this
      ensures var (content, r) := Save(Prepared(old(file)), email, now, read, append);
        file == Some(content) && result == r
    {
      EnsureDataDirExists();
      var known := GetSubscribers(now, read);
      var existing := FindByEmail(known, email);
      if existing.Some? {
        return Saved(existing.value);
      }
      if append == Throws {
        return WriteFailed;
      }
      var created := Subscriber(|known| + 1, email, now);
      file := Some(file.value + RecordLine(created.email, created.createdAt));
      return Saved(created);
    }

    /** `getSubscriberByEmail`: the first record with that email. */
    method GetSubscriberByEmail(email: string, now: Timestamp, read: IoOutcome)
      returns (found: Option<Subscriber>)
      modifies this
      ensures file == Some(Prepared(old(file)))
      ensures found == FindByEmail(Listing(Prepared(old(file)), now, read), email)
    {
      var subscribers := GetSubscribers(now, read);
      found := FindByEmail(subscribers, email);
    }

    /** `getSubscriberById`: the first record with that id. */
    method GetSubscriberById(id: int, now: Timestamp, read: IoOutcome)
      returns (found: Option<Subscriber>)
      modifies this
      ensures file == Some(Prepared(old(file)))
      ensures found == FindById(Listing(Prepared(old(file)), now, read), id)
    {
      var subscribers := GetSubscribers(now, read);
      found := FindById(subscribers, id);
    }
  }
}
