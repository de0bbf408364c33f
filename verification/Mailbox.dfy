/**
 The relay's mailbox store: a table of envelopes and a table of delivery receipts.

 A table is a sequence of rows in ascending order of row id. The functions say what each statement does to the tables and
 what each operation answers; `MailboxRepo` carries the operations out in place.
 */
module Mailbox {
  import opened Octets

  type i64 = x: int | -0x8000_0000_0000_0000 <= x < 0x8000_0000_0000_0000

  /** The milliseconds a calendar date can be given for. */
  const FIRST_DATE: int := -8334601228800000
  const LAST_DATE: int := 8210266876799999

  datatype Row = Row(
    id: int,
    queue: Bytes,
    envelope: Bytes,
    payload: Bytes,
    received: i64,
    expires: i64,
    delivered: Option<i64>)

  datatype Receipt = Receipt(queue: Bytes, envelope: Bytes, pulled: i64)

  datatype Store = Store(rows: seq<Row>, receipts: seq<Receipt>)

  /** A row as a puller sees it. */
  datatype Stored = Stored(envelope: Bytes, payload: Bytes, received: i64, expires: i64)

  datatype Config = Config(defaultTtl: i64, maxTtl: i64, maxPayload: nat, maxPull: i64)

  datatype MailError = EmptyPayload | OversizedPayload | RepoFailure

  datatype Reply<+T> = Done(value: T) | Refused(error: MailError)

  /** The store after an operation, and what the operation answered. */
  datatype Change<+T> = Change(store: Store, reply: T)

  // ---------- Conditions on rows ----------

  datatype Test =
    | Live(queue: Bytes, now: int)
    | Waiting(queue: Bytes)
    | Unexpired(now: int)
    | Unacked(queue: Bytes, envelope: Bytes)
    | Among(envelopes: set<Bytes>)
    | Except(envelopes: set<Bytes>)

  predicate Holds(t: Test, r: Row) {
    match t
    case Live(queue, now) => r.queue == queue && r.delivered == None && r.expires > now
    case Waiting(queue) => r.queue == queue && r.delivered == None
    case Unexpired(now) => r.expires > now
    case Unacked(queue, envelope) => r.queue == queue && r.envelope == envelope && r.delivered == None
    case Among(envelopes) => r.envelope in envelopes
    case Except(envelopes) => r.envelope !in envelopes
  }

  /** The rows that meet a condition, in table order. */
  function Where(rows: seq<Row>, t: Test): (kept: seq<Row>)
    ensures |kept| <= |rows|
  {
    if rows == [] then []
    else
      var last := rows[|rows| - 1];
      Where(rows[..|rows| - 1], t) + if Holds(t, last) then [last] else []
  }

  // ---------- Order of delivery ----------

  /** Puts `r` after every row received no later. */
  function InsertByTime(rows: seq<Row>, r: Row): seq<Row> {
    if rows == [] || rows[|rows| - 1].received <= r.received then rows + [r]
    else InsertByTime(rows[..|rows| - 1], r) + [rows[|rows| - 1]]
  }

  /** Rows by time of receipt, rows received at one time in table order. */
  function Ordered(rows: seq<Row>): seq<Row> {
    if rows == [] then [] else InsertByTime(Ordered(rows[..|rows| - 1]), rows[|rows| - 1])
  }

  /** At most `limit` rows; a negative limit is none. */
  function Limited(rows: seq<Row>, limit: int): seq<Row> {
    if limit < 0 || |rows| <= limit then rows else rows[..limit]
  }

  /** The rows a pull selects. */
  function Select(rows: seq<Row>, queue: Bytes, now: int, limit: int): seq<Row> {
    Limited(Ordered(Where(rows, Live(queue, now))), limit)
  }

  predicate Dated(r: Row) {
    FIRST_DATE <= r.received <= LAST_DATE && FIRST_DATE <= r.expires <= LAST_DATE
  }

  function RowToEnvelope(r: Row): Stored {
    Stored(r.envelope, r.payload, r.received, r.expires)
  }

  function Envelopes(rows: seq<Row>): (r: seq<Stored>)
    ensures |r| == |rows| && forall i :: 0 <= i < |rows| ==> r[i] == RowToEnvelope(rows[i])
  {
    seq(|rows|, i requires 0 <= i < |rows| => RowToEnvelope(rows[i]))
  }

  predicate AllDated(rows: seq<Row>) {
    forall i :: 0 <= i < |rows| ==> Dated(rows[i])
  }

  // ---------- Operations ----------

  function Saturated(x: int): i64 {
    if x < -0x8000_0000_0000_0000 then -0x8000_0000_0000_0000
    else if x > 0x7fff_ffff_ffff_ffff then 0x7fff_ffff_ffff_ffff
    else x
  }

  function Expiry(now: i64, ttl: i64): i64 {
    Saturated(now + Saturated(ttl * 1000))
  }

  function ClampTtl(requested: i64, config: Config): i64 {
    if requested <= 0 then config.defaultTtl
    else if requested < config.maxTtl then requested
    else config.maxTtl
  }

  function ClampLimit(limit: i64, config: Config): (r: i64)
    requires config.maxPull >= 1
    ensures 1 <= r <= config.maxPull && (1 <= limit <= config.maxPull ==> r == limit)
  {
    if limit < 1 then 1 else if limit > config.maxPull then config.maxPull else limit
  }

  /** The unique index on queue and envelope. */
  predicate Taken(rows: seq<Row>, queue: Bytes, envelope: Bytes) {
    exists i :: 0 <= i < |rows| && rows[i].queue == queue && rows[i].envelope == envelope
  }

  function NextId(rows: seq<Row>): int {
    if rows == [] then 1 else rows[|rows| - 1].id + 1
  }

  function NewRow(id: int, queue: Bytes, envelope: Bytes, payload: Bytes, ttl: i64, now: i64): Row {
    Row(id, queue, envelope, payload, now, Expiry(now, ttl), None)
  }

  function Insert(s: Store, queue: Bytes, envelope: Bytes, payload: Bytes, ttl: i64, now: i64): Change<Reply<Bytes>> {
    if Taken(s.rows, queue, envelope) then Change(s, Refused(RepoFailure))
    else Change(s.(rows := s.rows + [NewRow(NextId(s.rows), queue, envelope, payload, ttl, now)]), Done(envelope))
  }

  predicate Acceptable(payload: Bytes, config: Config) {
    0 < |payload| <= config.maxPayload
  }

  function Push(s: Store, config: Config, queue: Bytes, envelope: Bytes, payload: Bytes, ttl: i64, now: i64): Change<Reply<Bytes>> {
    if payload == [] then Change(s, Refused(EmptyPayload))
    else if |payload| > config.maxPayload then Change(s, Refused(OversizedPayload))
    else Insert(s, queue, envelope, payload, ClampTtl(ttl, config), now)
  }

  function Pull(s: Store, queue: Bytes, limit: int, now: int): Reply<seq<Stored>> {
    var selected := Select(s.rows, queue, now, limit);
    if AllDated(selected) then Done(Envelopes(selected)) else Refused(RepoFailure)
  }

  function Marked(r: Row, queue: Bytes, envelope: Bytes, at: i64): Row {
    if Holds(Unacked(queue, envelope), r) then r.(delivered := Some(at)) else r
  }

  function Mark(rows: seq<Row>, queue: Bytes, envelope: Bytes, at: i64): (r: seq<Row>)
    ensures |r| == |rows| && forall i :: 0 <= i < |rows| ==> r[i] == Marked(rows[i], queue, envelope, at)
  {
    seq(|rows|, i requires 0 <= i < |rows| => Marked(rows[i], queue, envelope, at))
  }

  function Ack(s: Store, queue: Bytes, envelope: Bytes, at: i64): Change<bool> {
    if Where(s.rows, Unacked(queue, envelope)) == [] then Change(s, false)
    else Change(Store(Mark(s.rows, queue, envelope, at), s.receipts + [Receipt(queue, envelope, at)]), true)
  }

  function Expire(s: Store, now: i64): Change<nat> {
    var kept := Where(s.rows, Unexpired(now));
    Change(s.(rows := kept), |s.rows| - |kept|)
  }

  // ---------- What holds of the table ----------

  ghost predicate SameKey(r: Row, s: Row) {
    r.queue == s.queue && r.envelope == s.envelope
  }

  /** Ids ascend, and the unique index holds. */
  ghost predicate TableValid(rows: seq<Row>) {
    forall i, j :: 0 <= i < j < |rows| ==> rows[i].id < rows[j].id && !SameKey(rows[i], rows[j])
  }

  lemma {:induction false} WhereMember(rows: seq<Row>, t: Test, r: Row)
    ensures r in Where(rows, t) <==> r in rows && Holds(t, r)
  {
    if rows != [] {
      var init, last := rows[..|rows| - 1], rows[|rows| - 1];
      WhereMember(init, t, r);
      assert rows == init + [last];
    }
  }

  lemma {:induction false} WhereValid(rows: seq<Row>, t: Test)
    requires TableValid(rows)
    ensures TableValid(Where(rows, t))
  {
    if rows != [] {
      var init, last := rows[..|rows| - 1], rows[|rows| - 1];
      WhereValid(init, t);
      forall r | r in Where(init, t)
        ensures r.id < last.id && !SameKey(r, last)
      {
        WhereMember(init, t, r);
        var i :| 0 <= i < |init| && init[i] == r;
        assert rows[i] == r;
      }
    }
  }

  lemma InsertValid(s: Store, queue: Bytes, envelope: Bytes, payload: Bytes, ttl: i64, now: i64)
    requires TableValid(s.rows)
    ensures TableValid(Insert(s, queue, envelope, payload, ttl, now).store.rows)
  {
  }

  lemma MarkValid(rows: seq<Row>, queue: Bytes, envelope: Bytes, at: i64)
    requires TableValid(rows)
    ensures TableValid(Mark(rows, queue, envelope, at))
  {
  }

  // ---------- What a pull selects ----------

  /** Pull order: by time of receipt, then by row id. */
  ghost predicate Before(r: Row, s: Row) {
    r.received < s.received || (r.received == s.received && r.id < s.id)
  }

  ghost predicate Sorted(rows: seq<Row>) {
    forall i, j :: 0 <= i < j < |rows| ==> Before(rows[i], rows[j])
  }

  lemma {:induction false} InsertByTimeSame(rows: seq<Row>, r: Row)
    ensures multiset(InsertByTime(rows, r)) == multiset(rows) + multiset{r}
  {
    if rows != [] {
      var init, last := rows[..|rows| - 1], rows[|rows| - 1];
      assert rows == init + [last];
      if last.received > r.received {
        InsertByTimeSame(init, r);
      }
    }
  }

  lemma {:induction false} InsertByTimeSorted(rows: seq<Row>, r: Row)
    requires Sorted(rows) && forall q :: q in rows ==> q.id < r.id
    ensures Sorted(InsertByTime(rows, r))
  {
    if rows != [] {
      var init, last := rows[..|rows| - 1], rows[|rows| - 1];
      if last.received > r.received {
        InsertByTimeSorted(init, r);
        forall q | q in InsertByTime(init, r)
          ensures Before(q, last)
        {
          InsertByTimeSame(init, r);
          assert q in multiset(InsertByTime(init, r));
        }
      } else {
        assert forall q :: q in rows ==> q == last || Before(q, last);
      }
    }
  }

  lemma {:induction false} OrderedSorted(rows: seq<Row>)
    requires TableValid(rows)
    ensures Sorted(Ordered(rows)) && multiset(Ordered(rows)) == multiset(rows)
  {
    if rows != [] {
      var init, last := rows[..|rows| - 1], rows[|rows| - 1];
      assert rows == init + [last];
      OrderedSorted(init);
      forall q | q in Ordered(init)
        ensures q.id < last.id
      {
        assert q in multiset(Ordered(init));
        var i :| 0 <= i < |init| && init[i] == q;
        assert rows[i] == q;
      }
      InsertByTimeSorted(Ordered(init), last);
      InsertByTimeSame(Ordered(init), last);
    }
  }

  lemma OrderedMember(rows: seq<Row>, r: Row)
    requires TableValid(rows)
    ensures r in Ordered(rows) <==> r in rows
  {
    OrderedSorted(rows);
    assert r in Ordered(rows) <==> r in multiset(Ordered(rows));
  }

  /** A pull selects rows of its queue that are neither acknowledged nor expired, oldest first, and as many of them as the
      limit allows: whatever else qualifies comes after all of them. */
  lemma SelectExact(rows: seq<Row>, queue: Bytes, now: int, limit: nat)
    requires TableValid(rows)
    ensures var selected := Select(rows, queue, now, limit);
            && (forall r :: r in selected ==> r in rows && Holds(Live(queue, now), r))
            && Sorted(selected)
            && |selected| <= limit
            && (forall r :: r in rows && Holds(Live(queue, now), r) && r !in selected ==>
                 |selected| == limit && forall q :: q in selected ==> Before(q, r))
  {
    var live := Where(rows, Live(queue, now));
    var ordered := Ordered(live);
    WhereValid(rows, Live(queue, now));
    OrderedSorted(live);
    var selected := Select(rows, queue, now, limit);
    forall r | r in selected
      ensures r in rows && Holds(Live(queue, now), r)
    {
      OrderedMember(live, r);
      WhereMember(rows, Live(queue, now), r);
    }
    forall r | r in rows && Holds(Live(queue, now), r) && r !in selected
      ensures |selected| == limit && forall q :: q in selected ==> Before(q, r)
    {
      WhereMember(rows, Live(queue, now), r);
      OrderedMember(live, r);
      var i :| 0 <= i < |ordered| && ordered[i] == r;
      assert i >= |selected|;
    }
  }

  // ---------- When a pull answers ----------

  /** The live rows of the queue that come before `r`. */
  ghost function Ahead(rows: seq<Row>, queue: Bytes, now: int, r: Row): set<Row> {
    set q | q in rows && Holds(Live(queue, now), q) && Before(q, r)
  }

  /** A live row with a date out of range, in reach of the limit. */
  ghost predicate Blocks(rows: seq<Row>, queue: Bytes, now: int, limit: nat, r: Row) {
    r in rows && Holds(Live(queue, now), r) && !Dated(r) && |Ahead(rows, queue, now, r)| < limit
  }

  ghost predicate Blocked(rows: seq<Row>, queue: Bytes, now: int, limit: nat) {
    exists r :: Blocks(rows, queue, now, limit, r)
  }

  ghost function Predecessors(rows: seq<Row>, r: Row): set<Row> {
    set q | q in rows && Before(q, r)
  }

  lemma SortedBefore(rows: seq<Row>, k: nat, i: nat)
    requires Sorted(rows) && k < |rows| && i < |rows|
    ensures Before(rows[k], rows[i]) <==> k < i
  {
  }

  /** In a sorted sequence exactly `i` rows come before the `i`-th. */
  lemma {:induction false} SortedRank(rows: seq<Row>, i: nat)
    requires Sorted(rows) && i < |rows|
    ensures |Predecessors(rows, rows[i])| == i
  {
    hide Before, Sorted;
    forall q | q in rows
      ensures q in Predecessors(rows, rows[i]) <==>
              i > 0 && (q == rows[i - 1] || q in Predecessors(rows, rows[i - 1]))
    {
      var k :| 0 <= k < |rows| && rows[k] == q;
      SortedBefore(rows, k, i);
      if i > 0 {
        SortedBefore(rows, k, i - 1);
        SortedBefore(rows, i - 1, i);
      }
    }
    if i == 0 {
      assert Predecessors(rows, rows[i]) == {};
    } else {
      SortedRank(rows, i - 1);
      SortedBefore(rows, i - 1, i - 1);
      assert Predecessors(rows, rows[i]) == Predecessors(rows, rows[i - 1]) + {rows[i - 1]};
    }
  }

  lemma LiveRank(rows: seq<Row>, queue: Bytes, now: int, i: nat)
    requires TableValid(rows) && i < |Ordered(Where(rows, Live(queue, now)))|
    ensures var r := Ordered(Where(rows, Live(queue, now)))[i];
            r in rows && Holds(Live(queue, now), r) && |Ahead(rows, queue, now, r)| == i
  {
    hide Where, Ordered, Before;
    var live := Where(rows, Live(queue, now));
    var ordered := Ordered(live);
    WhereValid(rows, Live(queue, now));
    OrderedSorted(live);
    SortedRank(ordered, i);
    forall q
      ensures q in ordered <==> q in rows && Holds(Live(queue, now), q)
    {
      OrderedMember(live, q);
      WhereMember(rows, Live(queue, now), q);
    }
    assert ordered[i] in ordered;
    assert Predecessors(ordered, ordered[i]) == Ahead(rows, queue, now, ordered[i]);
  }

  /** A pull is refused exactly if some live row of the queue has a date out of range and fewer live rows before it than the
      limit; any other pull is answered. */
  lemma PullRefused(s: Store, queue: Bytes, limit: nat, now: int)
    requires TableValid(s.rows)
    ensures Pull(s, queue, limit, now).Refused? <==> Blocked(s.rows, queue, now, limit)
  {
    hide Where, Ordered, Ahead;
    var live := Where(s.rows, Live(queue, now));
    var ordered := Ordered(live);
    if !AllDated(Limited(ordered, limit)) {
      var i :| 0 <= i < |Limited(ordered, limit)| && !Dated(Limited(ordered, limit)[i]);
      LiveRank(s.rows, queue, now, i);
      assert Blocks(s.rows, queue, now, limit, ordered[i]);
    }
    if r :| Blocks(s.rows, queue, now, limit, r) {
      WhereMember(s.rows, Live(queue, now), r);
      WhereValid(s.rows, Live(queue, now));
      OrderedMember(live, r);
      var i :| 0 <= i < |ordered| && ordered[i] == r;
      LiveRank(s.rows, queue, now, i);
      assert Limited(ordered, limit)[i] == r;
    }
  }

  /** Arrival, and arrival plus time to live, lie within the calendar. */
  predicate DatedPush(now: i64, ttl: i64) {
    FIRST_DATE <= now <= LAST_DATE && FIRST_DATE <= now + ttl * 1000 <= LAST_DATE
  }

  /** A push makes a row with a date out of range exactly if it misses that. */
  lemma PushedDated(id: int, queue: Bytes, envelope: Bytes, payload: Bytes, ttl: i64, now: i64)
    ensures Dated(NewRow(id, queue, envelope, payload, ttl, now)) <==> DatedPush(now, ttl)
  {
  }

  /** Rows already in order of receipt stay as they are. */
  lemma {:induction false} OrderedInTime(rows: seq<Row>)
    requires forall i, j :: 0 <= i < j < |rows| ==> rows[i].received <= rows[j].received
    ensures Ordered(rows) == rows
  {
    if rows != [] {
      OrderedInTime(rows[..|rows| - 1]);
      assert rows == rows[..|rows| - 1] + [rows[|rows| - 1]];
    }
  }

  /** A positive request is granted up to the maximum, and any other gets the default. */
  lemma ClampTtlExact(requested: i64, config: Config)
    ensures var ttl := ClampTtl(requested, config);
            if requested <= 0 then ttl == config.defaultTtl
            else ttl <= requested && ttl <= config.maxTtl && (ttl == requested || ttl == config.maxTtl)
  {
  }

  /** Expiry is arrival plus a thousand times the seconds to live, held within 64 bits at both steps. */
  lemma ExpiryExact(now: i64, ttl: i64)
    ensures var product, sum := ttl * 1000, now + ttl * 1000;
            Saturated(product) == product && Saturated(sum) == sum ==> Expiry(now, ttl) == sum
    ensures ttl * 1000 > 0x7fff_ffff_ffff_ffff && now >= 0 ==> Expiry(now, ttl) == 0x7fff_ffff_ffff_ffff
    ensures ttl >= 0 ==> now <= Expiry(now, ttl)
  {
  }

  /** An insert is refused, and changes nothing, exactly if the queue already holds an envelope of that id; otherwise the table
      gains one row at its end, with what was passed in and an id above all others. */
  lemma InsertExact(s: Store, queue: Bytes, envelope: Bytes, payload: Bytes, ttl: i64, now: i64)
    requires TableValid(s.rows)
    ensures var c := Insert(s, queue, envelope, payload, ttl, now);
            && c.store.receipts == s.receipts
            && if exists r :: r in s.rows && r.queue == queue && r.envelope == envelope
               then c.reply == Refused(RepoFailure) && c.store.rows == s.rows
               else
                 && c.reply == Done(envelope)
                 && |c.store.rows| == |s.rows| + 1 && c.store.rows[..|s.rows|] == s.rows
                 && var r := c.store.rows[|s.rows|];
                 && r.queue == queue && r.envelope == envelope && r.payload == payload
                 && r.received == now && r.expires == Expiry(now, ttl) && r.delivered == None
                 && forall q :: q in s.rows ==> q.id < r.id
  {
    hide Expiry;
    if r :| r in s.rows && r.queue == queue && r.envelope == envelope {
      var i :| 0 <= i < |s.rows| && s.rows[i] == r;
      assert Taken(s.rows, queue, envelope);
    } else {
      forall i | 0 <= i < |s.rows|
        ensures !(s.rows[i].queue == queue && s.rows[i].envelope == envelope)
      {
        assert s.rows[i] in s.rows;
      }
    }
  }

  /** A sweep keeps exactly the rows that expire later, in order, and answers the number of the others. */
  lemma ExpireExact(s: Store, now: i64)
    requires TableValid(s.rows)
    ensures var c := Expire(s, now);
            && c.store.receipts == s.receipts
            && (forall r :: r in c.store.rows <==> r in s.rows && r.expires > now)
            && TableValid(c.store.rows)
            && c.reply == |ExpiredRows(s.rows, now)|
  {
    forall r
      ensures r in Where(s.rows, Unexpired(now)) <==> r in s.rows && r.expires > now
    {
      WhereMember(s.rows, Unexpired(now), r);
    }
    WhereValid(s.rows, Unexpired(now));
    CountExpired(s.rows, now);
  }

  ghost function ExpiredRows(rows: seq<Row>, now: int): set<Row> {
    set r | r in rows && r.expires <= now
  }

  lemma ExpiredSnoc(rows: seq<Row>, last: Row, now: int)
    requires last !in rows
    ensures |ExpiredRows(rows + [last], now)| == |ExpiredRows(rows, now)| + if last.expires <= now then 1 else 0
  {
    var gone := ExpiredRows(rows, now);
    assert ExpiredRows(rows + [last], now) == if last.expires <= now then gone + {last} else gone;
  }

  lemma {:induction false} CountExpired(rows: seq<Row>, now: int)
    requires TableValid(rows)
    ensures |rows| - |Where(rows, Unexpired(now))| == |ExpiredRows(rows, now)|
  {
    hide ExpiredRows;
    if rows == [] {
      NoneExpired(now);
    } else {
      var init, last := rows[..|rows| - 1], rows[|rows| - 1];
      assert rows == init + [last];
      CountExpired(init, now);
      LastApart(init, last);
      ExpiredSnoc(init, last, now);
    }
  }

  lemma NoneExpired(now: int)
    ensures ExpiredRows([], now) == {}
  {
  }

  lemma LastApart(rows: seq<Row>, last: Row)
    requires TableValid(rows + [last])
    ensures last !in rows
  {
    var all := rows + [last];
    forall i | 0 <= i < |rows|
      ensures rows[i] != last
    {
      assert all[i].id < all[|rows|].id;
    }
  }

  /** A requested time to live ends up between one second and the maximum exactly when it is positive, or the default it
      is replaced with lies there. */
  lemma ClampTtlRange(requested: i64, config: Config)
    requires config.maxTtl >= 1
    ensures 1 <= ClampTtl(requested, config) <= config.maxTtl <==> requested > 0 || 1 <= config.defaultTtl <= config.maxTtl
  {
  }

  // ---------- The store, in place ----------

  class MailboxRepo {
    var rows: seq<Row>
    var receipts: seq<Receipt>

    ghost predicate Valid()
      reads this
    {
      TableValid(rows)
    }

    ghost function Contents(): Store
      reads this
    {
      Store(rows, receipts)
    }

    constructor ()
      ensures Valid() && Contents() == Store([], [])
    {
      rows, receipts := [], [];
    }

    method PushRow(queue: Bytes, envelope: Bytes, payload: Bytes, ttl: i64, now: i64) returns (r: Reply<Bytes>)
      requires Valid()
      modifies this
      ensures Valid()
      ensures Change(Contents(), r) == Insert(old(Contents()), queue, envelope, payload, ttl, now)
    {
      InsertValid(Contents(), queue, envelope, payload, ttl, now);
      if Taken(rows, queue, envelope) {
        return Refused(RepoFailure);
      }
      var expires := Saturated(now + Saturated(ttl * 1000));
      rows := rows + [Row(NextId(rows), queue, envelope, payload, now, expires, None)];
      return Done(envelope);
    }

    /** Reads the selected rows one by one; a date out of range fails the whole pull. */
    method PullRows(queue: Bytes, limit: int, now: i64) returns (r: Reply<seq<Stored>>)
      ensures r == Pull(Contents(), queue, limit, now)
    {
      var selected := Select(rows, queue, now, limit);
      var out: seq<Stored> := [];
      var i := 0;
      while i < |selected|
        invariant 0 <= i <= |selected| == |Envelopes(selected)|
        invariant out == Envelopes(selected)[..i] && AllDated(selected[..i])
      {
        if !(FIRST_DATE <= selected[i].received <= LAST_DATE && FIRST_DATE <= selected[i].expires <= LAST_DATE) {
          assert !Dated(selected[i]);
          return Refused(RepoFailure);
        }
        out := out + [RowToEnvelope(selected[i])];
        i := i + 1;
      }
      assert selected[..i] == selected && Envelopes(selected)[..i] == Envelopes(selected);
      return Done(out);
    }

    method AckRow(queue: Bytes, envelope: Bytes, at: i64) returns (acked: bool)
      requires Valid()
      modifies this
      ensures Valid()
      ensures Change(Contents(), acked) == Ack(old(Contents()), queue, envelope, at)
    {
      MarkValid(rows, queue, envelope, at);
      var affected := |Where(rows, Unacked(queue, envelope))|;
      if affected == 0 {
        return false;
      }
      rows := Mark(rows, queue, envelope, at);
      receipts := receipts + [Receipt(queue, envelope, at)];
      return true;
    }

    method ExpireRows(now: i64) returns (removed: nat)
      requires Valid()
      modifies this
      ensures Valid()
      ensures Change(Contents(), removed) == Expire(old(Contents()), now)
    {
      WhereValid(rows, Unexpired(now));
      var before := |rows|;
      rows := Where(rows, Unexpired(now));
      return before - |rows|;
    }

    // The relay's own operations: validate or clamp, then go to the tables.

    method PushEnvelope(config: Config, queue: Bytes, envelope: Bytes, payload: Bytes, ttl: i64, now: i64) returns (r: Reply<Bytes>)
      requires Valid()
      modifies this
      ensures Valid()
      ensures Change(Contents(), r) == Push(old(Contents()), config, queue, envelope, payload, ttl, now)
    {
      if payload == [] {
        return Refused(EmptyPayload);
      }
      if |payload| > config.maxPayload {
        return Refused(OversizedPayload);
      }
      var clamped := ClampTtl(ttl, config);
      r := PushRow(queue, envelope, payload, clamped, now);
    }

    method PullEnvelopes(config: Config, queue: Bytes, limit: i64, now: i64) returns (r: Reply<seq<Stored>>)
      requires config.maxPull >= 1
      ensures r == Pull(Contents(), queue, ClampLimit(limit, config), now)
    {
      var clamped := ClampLimit(limit, config);
      r := PullRows(queue, clamped, now);
    }
  }
}
