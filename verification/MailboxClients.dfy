/**
 What those who use a mailbox observe: sweeps never show, and pulling and acknowledging in turn empties a queue.
 */
module MailboxClients {
  import opened Octets
  import opened Mailbox
  import opened MailboxRuns

  /** The clock never runs backwards. */
  ghost predicate Forward(es: seq<Event>) {
    forall i, j :: 0 <= i < j < |es| ==> es[i].now <= es[j].now
  }

  // ---------- Sweeps ----------

  function WithoutSweeps(es: seq<Event>): seq<Event> {
    if es == [] then []
    else WithoutSweeps(es[..|es| - 1]) + if es[|es| - 1].request.SweepReq? then [] else [es[|es| - 1]]
  }

  lemma {:induction false} WithoutSweepsMember(es: seq<Event>, e: Event)
    requires e in WithoutSweeps(es)
    ensures e in es
  {
    var init, last := es[..|es| - 1], es[|es| - 1];
    assert es == init + [last];
    if e in WithoutSweeps(init) {
      WithoutSweepsMember(init, e);
    }
  }

  lemma {:induction false} WithoutSweepsFresh(es: seq<Event>)
    requires FreshIds(es)
    ensures FreshIds(WithoutSweeps(es))
  {
    if es != [] {
      var init, last := es[..|es| - 1], es[|es| - 1];
      WithoutSweepsFresh(init);
      forall e | e in WithoutSweeps(init) && e.request.PushReq? && last.request.PushReq?
        ensures e.request.envelope != last.request.envelope
      {
        WithoutSweepsMember(init, e);
        var i :| 0 <= i < |init| && init[i] == e;
        assert es[i] == e;
      }
    }
  }

  lemma WhereOne(r: Row, t: Test)
    ensures Where([r], t) == if Holds(t, r) then [r] else []
  {
    assert [r][..0] == [];
  }

  lemma WhereNone(t: Test)
    ensures Where([], t) == []
  {
  }

  lemma WhereSnoc(rows: seq<Row>, r: Row, t: Test)
    ensures Where(rows + [r], t) == if Holds(t, r) then Where(rows, t) + [r] else Where(rows, t)
  {
    WhereAppend(rows, [r], t);
    WhereOne(r, t);
  }

  lemma {:induction false} WhereNowhere(rows: seq<Row>, t: Test)
    requires forall r :: r in rows ==> !Holds(t, r)
    ensures Where(rows, t) == []
  {
    if rows != [] {
      WhereNowhere(rows[..|rows| - 1], t);
    }
  }

  /** A stronger condition applied after a weaker one selects the same as alone. */
  lemma {:induction false} WhereImplied(rows: seq<Row>, t: Test, u: Test)
    requires forall r :: Holds(u, r) ==> Holds(t, r)
    ensures Where(Where(rows, t), u) == Where(rows, u)
  {
    if rows != [] {
      var init, last := rows[..|rows| - 1], rows[|rows| - 1];
      WhereImplied(init, t, u);
      if Holds(t, last) {
        WhereAppend(Where(init, t), [last], u);
        WhereOne(last, u);
      } else {
        assert Where(rows, t) == Where(init, t);
      }
    }
  }

  lemma {:induction false} WhereMark(rows: seq<Row>, t: int, queue: Bytes, envelope: Bytes, at: i64)
    ensures Where(Mark(rows, queue, envelope, at), Unexpired(t)) == Mark(Where(rows, Unexpired(t)), queue, envelope, at)
  {
    if rows != [] {
      var init := rows[..|rows| - 1];
      WhereMark(init, t, queue, envelope, at);
      assert Mark(rows, queue, envelope, at)[..|rows| - 1] == Mark(init, queue, envelope, at);
    }
  }

  lemma AgedUnexpired(rows: seq<Row>, e: Event, t: int)
    requires e.now <= t
    ensures Where(Aged(rows, e), Unexpired(t)) ==
            if e.request.SweepReq? then Where(rows, Unexpired(t)) else Aged(Where(rows, Unexpired(t)), e)
  {
    match e.request
    case AckReq(queue, envelope) => WhereMark(rows, t, queue, envelope, e.now);
    case SweepReq => WhereImplied(rows, Unexpired(e.now), Unexpired(t));
    case PushReq(_, _, _, _) =>
    case PullReq(_, _) =>
  }

  /** The unexpired rows after one more event. */
  lemma UnexpiredStep(config: Config, es: seq<Event>, t: int)
    requires config.maxPull >= 1 && FreshIds(es) && es != [] && es[|es| - 1].now <= t
    ensures var e := es[|es| - 1];
            var before := Where(Erase(After(config, es[..|es| - 1]).rows), Unexpired(t));
            Where(Erase(After(config, es).rows), Unexpired(t)) ==
            if e.request.SweepReq? then before
            else Aged(before, e) + Where(if AcceptedPush(config, e) then [PushedRow(config, e)] else [], Unexpired(t))
  {
    hide Serve, Aged, Where, PushedRow, AcceptedPush, Taken;
    var init, e := es[..|es| - 1], es[|es| - 1];
    if e.request.PushReq? {
      NotTaken(config, es);
    }
    ServedTable(After(config, init), config, e);
    var rows := Erase(After(config, init).rows);
    var added := if AcceptedPush(config, e) then [PushedRow(config, e)] else [];
    WhereAppend(Aged(rows, e), added, Unexpired(t));
    AgedUnexpired(rows, e, t);
    if e.request.SweepReq? {
      SweepAdds(config, e, t);
    }
  }

  lemma SweepAdds(config: Config, e: Event, t: int)
    requires e.request.SweepReq?
    ensures !AcceptedPush(config, e) && Where([], Unexpired(t)) == []
  {
  }

  lemma {:induction false} UnexpiredSame(config: Config, es: seq<Event>, t: int)
    requires config.maxPull >= 1 && FreshIds(es) && Forward(es) && (es != [] ==> es[|es| - 1].now <= t)
    ensures Where(Erase(After(config, es).rows), Unexpired(t)) ==
            Where(Erase(After(config, WithoutSweeps(es)).rows), Unexpired(t))
  {
    hide After, Aged, Where, PushedRow, AcceptedPush;
    if es != [] {
      var init, e := es[..|es| - 1], es[|es| - 1];
      UnexpiredSame(config, init, t);
      UnexpiredStep(config, es, t);
      if !e.request.SweepReq? {
        WithoutSweepsFresh(es);
        var bare := WithoutSweeps(es);
        assert bare[..|bare| - 1] == WithoutSweeps(init);
        UnexpiredStep(config, bare, t);
      } else {
        assert WithoutSweeps(es) == WithoutSweeps(init);
      }
    }
  }

  /** Sweeps cannot be observed by pulling: while the clock does not run backwards, a pull answers the same as if every
      sweep before it had been left out. */
  lemma SweepsInvisible(config: Config, es: seq<Event>)
    requires config.maxPull >= 1 && FreshIds(es) && Forward(es) && es != [] && es[|es| - 1].request.PullReq?
    ensures var bare := WithoutSweeps(es);
            bare != [] && AnswerAt(config, es, |es| - 1) == AnswerAt(config, bare, |bare| - 1)
  {
    hide After, Where, Pull, Holds;
    var init, e := es[..|es| - 1], es[|es| - 1];
    var bare := WithoutSweeps(es);
    assert bare[..|bare| - 1] == WithoutSweeps(init);
    var s, z := After(config, init), After(config, WithoutSweeps(init));
    UnexpiredSame(config, init, e.now);
    SameLive(s.rows, z.rows, e.request.queue, e.now);
    PullErased(s, z, e.request.queue, ClampLimit(e.request.limit, config), e.now);
  }

  lemma SameLive(a: seq<Row>, b: seq<Row>, queue: Bytes, now: int)
    requires Where(Erase(a), Unexpired(now)) == Where(Erase(b), Unexpired(now))
    ensures Erase(Where(a, Live(queue, now))) == Erase(Where(b, Live(queue, now)))
  {
    EraseWhere(a, Live(queue, now));
    EraseWhere(b, Live(queue, now));
    WhereImplied(Erase(a), Unexpired(now), Live(queue, now));
    WhereImplied(Erase(b), Unexpired(now), Live(queue, now));
  }

  /** Two runs that differ only in their sweeps answer their last pull alike. */
  lemma SweepsAnywhere(config: Config, es: seq<Event>, fs: seq<Event>)
    requires config.maxPull >= 1 && WithoutSweeps(es) == WithoutSweeps(fs)
    requires FreshIds(es) && Forward(es) && es != [] && es[|es| - 1].request.PullReq?
    requires FreshIds(fs) && Forward(fs) && fs != [] && fs[|fs| - 1].request.PullReq?
    ensures AnswerAt(config, es, |es| - 1) == AnswerAt(config, fs, |fs| - 1)
  {
    hide AnswerAt;
    SweepsInvisible(config, es);
    SweepsInvisible(config, fs);
  }

  // ---------- Draining a queue ----------

  /** Acknowledges every envelope of a pull. */
  function AckAll(s: Store, queue: Bytes, out: seq<Stored>, at: i64): Store
    decreases |out|
  {
    if out == [] then s else AckAll(Ack(s, queue, out[0].envelope, at).store, queue, out[1..], at)
  }

  ghost function Ids(rows: seq<Row>): set<Bytes> {
    set r | r in rows :: r.envelope
  }

  ghost function StoredIds(out: seq<Stored>): set<Bytes> {
    set e | e in out :: e.envelope
  }

  lemma EnvelopesIds(rows: seq<Row>)
    ensures StoredIds(Envelopes(rows)) == Ids(rows)
  {
    forall r | r in rows
      ensures r.envelope in StoredIds(Envelopes(rows))
    {
      SelectedEnvelope(rows, r);
    }
    forall e | e in Envelopes(rows)
      ensures e.envelope in Ids(rows)
    {
      var i :| 0 <= i < |rows| && Envelopes(rows)[i] == e;
      assert rows[i] in rows;
    }
  }

  lemma {:induction false} MarkWaiting(rows: seq<Row>, queue: Bytes, envelope: Bytes, at: i64)
    ensures Where(Mark(rows, queue, envelope, at), Waiting(queue)) == Where(Where(rows, Waiting(queue)), Except({envelope}))
  {
    hide Where;
    if rows == [] {
      WhereNone(Waiting(queue));
      WhereNone(Except({envelope}));
    } else {
      var init, last := rows[..|rows| - 1], rows[|rows| - 1];
      var marked := Marked(last, queue, envelope, at);
      MarkWaiting(init, queue, envelope, at);
      assert rows == init + [last];
      assert Mark(rows, queue, envelope, at) == Mark(init, queue, envelope, at) + [marked];
      WhereSnoc(Mark(init, queue, envelope, at), marked, Waiting(queue));
      WhereSnoc(init, last, Waiting(queue));
      WhereSnoc(Where(init, Waiting(queue)), last, Except({envelope}));
    }
  }

  lemma AckRows(s: Store, queue: Bytes, envelope: Bytes, at: i64)
    requires TableValid(s.rows)
    ensures var rows := Ack(s, queue, envelope, at).store.rows;
            && TableValid(rows)
            && Where(rows, Waiting(queue)) == Where(Where(s.rows, Waiting(queue)), Except({envelope}))
  {
    hide Where;
    MarkValid(s.rows, queue, envelope, at);
    MarkWaiting(s.rows, queue, envelope, at);
    if Where(s.rows, Unacked(queue, envelope)) == [] {
      UnmarkedUnchanged(s.rows, queue, envelope, at);
    }
  }

  lemma {:induction false} WhereExcept(rows: seq<Row>, a: set<Bytes>, b: set<Bytes>)
    ensures Where(Where(rows, Except(a)), Except(b)) == Where(rows, Except(a + b))
  {
    if rows != [] {
      var init, last := rows[..|rows| - 1], rows[|rows| - 1];
      WhereExcept(init, a, b);
      if Holds(Except(a), last) {
        WhereAppend(Where(init, Except(a)), [last], Except(b));
        WhereOne(last, Except(b));
      } else {
        assert Where(rows, Except(a)) == Where(init, Except(a));
      }
    }
  }

  /** Rows on which two conditions agree are selected alike. */
  lemma {:induction false} WhereAgree(rows: seq<Row>, t: Test, u: Test)
    requires forall r :: r in rows ==> (Holds(t, r) <==> Holds(u, r))
    ensures Where(rows, t) == Where(rows, u)
  {
    if rows != [] {
      WhereAgree(rows[..|rows| - 1], t, u);
    }
  }

  /** What still waits after acknowledging a batch. */
  lemma {:induction false} AckAllRows(s: Store, queue: Bytes, out: seq<Stored>, at: i64)
    requires TableValid(s.rows)
    ensures var rows := AckAll(s, queue, out, at).rows;
            && TableValid(rows)
            && Where(rows, Waiting(queue)) == Where(Where(s.rows, Waiting(queue)), Except(StoredIds(out)))
    decreases |out|
  {
    hide Ack, Where;
    var waiting := Where(s.rows, Waiting(queue));
    if out == [] {
      assert StoredIds(out) == {};
      ExceptNone(waiting);
    } else {
      var envelope := out[0].envelope;
      AckRows(s, queue, envelope, at);
      AckAllRows(Ack(s, queue, envelope, at).store, queue, out[1..], at);
      WhereExcept(waiting, {envelope}, StoredIds(out[1..]));
      assert out == [out[0]] + out[1..];
      assert StoredIds(out) == {envelope} + StoredIds(out[1..]);
    }
  }

  lemma {:induction false} ExceptNone(rows: seq<Row>)
    ensures Where(rows, Except({})) == rows
  {
    if rows != [] {
      ExceptNone(rows[..|rows| - 1]);
      assert rows == rows[..|rows| - 1] + [rows[|rows| - 1]];
    }
  }

  /** Rows already in order stay so when some are left out: ordering and selecting commute. */
  lemma {:induction false} InsertWhere(rows: seq<Row>, r: Row, t: Test)
    requires Sorted(rows)
    ensures Where(InsertByTime(rows, r), t) == if Holds(t, r) then InsertByTime(Where(rows, t), r) else Where(rows, t)
  {
    hide Where, Holds;
    if rows == [] || rows[|rows| - 1].received <= r.received {
      WhereSnoc(rows, r, t);
      InsertLatest(rows, r, t);
    } else {
      var init, last := rows[..|rows| - 1], rows[|rows| - 1];
      assert rows == init + [last];
      InsertWhere(init, r, t);
      WhereSnoc(InsertByTime(init, r), last, t);
      WhereSnoc(init, last, t);
      if Holds(t, last) {
        InsertEarlier(Where(init, t), last, r);
      }
    }
  }

  lemma InsertEarlier(rows: seq<Row>, last: Row, r: Row)
    requires last.received > r.received
    ensures InsertByTime(rows + [last], r) == InsertByTime(rows, r) + [last]
  {
    assert (rows + [last])[..|rows|] == rows;
  }

  lemma InsertLatest(rows: seq<Row>, r: Row, t: Test)
    requires Sorted(rows) && (rows != [] ==> rows[|rows| - 1].received <= r.received)
    ensures InsertByTime(Where(rows, t), r) == Where(rows, t) + [r]
  {
    var kept := Where(rows, t);
    if kept != [] {
      WhereMember(rows, t, kept[|kept| - 1]);
    }
  }

  lemma {:induction false} OrderedWhere(rows: seq<Row>, t: Test)
    requires TableValid(rows)
    ensures Ordered(Where(rows, t)) == Where(Ordered(rows), t)
  {
    hide Where, InsertByTime;
    if rows == [] {
      WhereNone(t);
    } else {
      var init, last := rows[..|rows| - 1], rows[|rows| - 1];
      assert rows == init + [last];
      OrderedWhere(init, t);
      OrderedSorted(init);
      WhereSnoc(init, last, t);
      InsertWhere(Ordered(init), last, t);
      if Holds(t, last) {
        OrderedSnoc(Where(init, t), last);
      }
    }
  }

  lemma OrderedSnoc(rows: seq<Row>, r: Row)
    ensures Ordered(rows + [r]) == InsertByTime(Ordered(rows), r)
  {
    assert (rows + [r])[..|rows|] == rows;
  }

  /** What waits in a queue, in the order in which it will be pulled. */
  ghost function Line(s: Store, queue: Bytes): seq<Row> {
    Ordered(Where(s.rows, Waiting(queue)))
  }

  ghost predicate Distinct(rows: seq<Row>) {
    forall i, j :: 0 <= i < j < |rows| ==> rows[i].envelope != rows[j].envelope
  }

  lemma LineDistinct(s: Store, queue: Bytes)
    requires TableValid(s.rows)
    ensures Distinct(Line(s, queue))
  {
    var waiting := Where(s.rows, Waiting(queue));
    WhereValid(s.rows, Waiting(queue));
    forall r | r in waiting
      ensures r.queue == queue
    {
      WhereMember(s.rows, Waiting(queue), r);
    }
    assert Distinct(waiting);
    OrderedSorted(waiting);
    var line := Line(s, queue);
    forall i, j | 0 <= i < j < |line|
      ensures line[i].envelope != line[j].envelope
    {
      OrderedMember(waiting, line[i]);
      OrderedMember(waiting, line[j]);
      assert Before(line[i], line[j]);
    }
  }

  /** A pull takes from the front of the line, past what has expired. */
  lemma SelectLine(s: Store, queue: Bytes, now: int, limit: int)
    requires TableValid(s.rows)
    ensures Select(s.rows, queue, now, limit) == Limited(Where(Line(s, queue), Unexpired(now)), limit)
  {
    hide Where, Ordered;
    WhereValid(s.rows, Waiting(queue));
    OrderedWhere(Where(s.rows, Waiting(queue)), Unexpired(now));
    WaitingUnexpired(s.rows, queue, now);
  }

  lemma {:induction false} WaitingUnexpired(rows: seq<Row>, queue: Bytes, now: int)
    ensures Where(Where(rows, Waiting(queue)), Unexpired(now)) == Where(rows, Live(queue, now))
  {
    hide Where;
    if rows == [] {
      WhereNone(Waiting(queue));
      WhereNone(Unexpired(now));
      WhereNone(Live(queue, now));
    } else {
      var init, last := rows[..|rows| - 1], rows[|rows| - 1];
      assert rows == init + [last];
      WaitingUnexpired(init, queue, now);
      WhereSnoc(init, last, Waiting(queue));
      WhereSnoc(init, last, Live(queue, now));
      WhereSnoc(Where(init, Waiting(queue)), last, Unexpired(now));
    }
  }

  /** After acknowledging what was pulled, the rest of the line waits on. */
  lemma LineAfterAcks(s: Store, queue: Bytes, picked: seq<Row>, at: i64)
    requires TableValid(s.rows)
    ensures var z := AckAll(s, queue, Envelopes(picked), at);
            TableValid(z.rows) && Line(z, queue) == Where(Line(s, queue), Except(Ids(picked)))
  {
    hide Where, Ordered, AckAll;
    AckAllRows(s, queue, Envelopes(picked), at);
    EnvelopesIds(picked);
    WhereValid(s.rows, Waiting(queue));
    OrderedWhere(Where(s.rows, Waiting(queue)), Except(Ids(picked)));
  }

  /** Leaving out rows that are there makes a line shorter. */
  lemma {:induction false} ExceptShorter(rows: seq<Row>, ids: set<Bytes>)
    requires exists r :: r in rows && r.envelope in ids
    ensures |Where(rows, Except(ids))| < |rows|
  {
    var init, last := rows[..|rows| - 1], rows[|rows| - 1];
    assert rows == init + [last];
    if last.envelope !in ids {
      var r :| r in rows && r.envelope in ids;
      assert r in init;
      ExceptShorter(init, ids);
    }
  }

  lemma RoundShrinks(s: Store, queue: Bytes, limit: int, now: int, at: i64)
    requires TableValid(s.rows) && Select(s.rows, queue, now, limit) != []
    ensures var z := AckAll(s, queue, Envelopes(Select(s.rows, queue, now, limit)), at);
            TableValid(z.rows) && |Line(z, queue)| < |Line(s, queue)|
  {
    hide Where, Select, Line, AckAll;
    var picked := Select(s.rows, queue, now, limit);
    SelectLine(s, queue, now, limit);
    WhereMember(Line(s, queue), Unexpired(now), picked[0]);
    LineAfterAcks(s, queue, picked, at);
    ExceptShorter(Line(s, queue), Ids(picked));
  }

  /** Pulls and acknowledges in turn until a pull brings nothing; round `i` happens at `clock(i)`. */
  ghost function Drain(s: Store, queue: Bytes, limit: int, clock: nat -> i64, i: nat): seq<Stored>
    requires TableValid(s.rows)
    decreases |Line(s, queue)|
  {
    match Pull(s, queue, limit, clock(i))
    case Refused(_) => []
    case Done(out) =>
      if out == [] then []
      else
        RoundShrinks(s, queue, limit, clock(i), clock(i));
        out + Drain(AckAll(s, queue, out, clock(i)), queue, limit, clock, i + 1)
  }

  /** One pass over a line as it stands: whatever has expired when it is reached is passed over, and the clock is read again
      after every `limit` envelopes taken. */
  ghost function Scan(line: seq<Row>, limit: nat, clock: nat -> i64, i: nat, taken: nat): seq<Row> {
    if line == [] then []
    else if line[0].expires <= clock(i) then Scan(line[1..], limit, clock, i, taken)
    else if taken + 1 >= limit then [line[0]] + Scan(line[1..], limit, clock, i + 1, 0)
    else [line[0]] + Scan(line[1..], limit, clock, i, taken + 1)
  }

  ghost predicate Advancing(clock: nat -> i64) {
    forall i: nat, j: nat :: i <= j ==> clock(i) <= clock(j)
  }

  lemma WhereHead(rows: seq<Row>, t: Test)
    requires rows != []
    ensures Where(rows, t) == if Holds(t, rows[0]) then [rows[0]] + Where(rows[1..], t) else Where(rows[1..], t)
  {
    assert rows == [rows[0]] + rows[1..];
    WhereAppend([rows[0]], rows[1..], t);
    WhereOne(rows[0], t);
  }

  /** What one round picks from a line. */
  ghost function Picked(line: seq<Row>, now: int, room: nat): seq<Row> {
    Limited(Where(line, Unexpired(now)), room)
  }

  lemma PickedHead(line: seq<Row>, now: int, room: nat)
    requires line != [] && room >= 1
    ensures line[0].expires <= now ==> Picked(line, now, room) == Picked(line[1..], now, room)
    ensures line[0].expires > now ==> Picked(line, now, room) == [line[0]] + Picked(line[1..], now, room - 1)
  {
    hide Where;
    WhereHead(line, Unexpired(now));
  }

  lemma PickedMember(line: seq<Row>, now: int, room: nat, r: Row)
    requires r in Picked(line, now, room)
    ensures r in line
  {
    WhereMember(line, Unexpired(now), r);
  }

  /** Without the head, whose envelope occurs nowhere else in the line. */
  lemma ExceptHead(line: seq<Row>, ids: set<Bytes>)
    requires line != [] && Distinct(line)
    ensures Where(line, Except(ids + {line[0].envelope})) == Where(line[1..], Except(ids))
  {
    hide Where;
    var all := ids + {line[0].envelope};
    WhereHead(line, Except(all));
    WhereAgree(line[1..], Except(all), Except(ids));
  }

  lemma ScanHead(line: seq<Row>, limit: nat, clock: nat -> i64, i: nat, taken: nat)
    requires line != []
    ensures Scan(line, limit, clock, i, taken) ==
            if line[0].expires <= clock(i) then Scan(line[1..], limit, clock, i, taken)
            else [line[0]] + if taken + 1 >= limit then Scan(line[1..], limit, clock, i + 1, 0)
                             else Scan(line[1..], limit, clock, i, taken + 1)
  {
  }

  /** What is left of the line after a round. */
  ghost function Rest(line: seq<Row>, picked: seq<Row>): seq<Row> {
    Where(line, Except(Ids(picked)))
  }

  /** An expired head stays, and no later round takes it. */
  lemma RestExpired(line: seq<Row>, limit: nat, clock: nat -> i64, i: nat, picked: seq<Row>)
    requires line != [] && Distinct(line) && Advancing(clock) && line[0].expires <= clock(i)
    requires forall r :: r in picked ==> r in line[1..]
    ensures Scan(Rest(line, picked), limit, clock, i + 1, 0) == Scan(Rest(line[1..], picked), limit, clock, i + 1, 0)
  {
    hide Where, Scan;
    var head, tail := line[0], line[1..];
    WhereHead(line, Except(Ids(picked)));
    var rest := Rest(line, picked);
    assert rest == [head] + Rest(tail, picked) && rest[1..] == Rest(tail, picked);
    assert clock(i) <= clock(i + 1);
    ScanHead(rest, limit, clock, i + 1, 0);
  }

  lemma RestTaken(line: seq<Row>, others: seq<Row>)
    requires line != [] && Distinct(line)
    ensures Rest(line, [line[0]] + others) == Rest(line[1..], others)
  {
    hide Where;
    assert Ids([line[0]] + others) == Ids(others) + {line[0].envelope};
    ExceptHead(line, Ids(others));
  }

  lemma RestNothing(line: seq<Row>)
    ensures Rest(line, []) == line
  {
    assert Ids([]) == {};
    ExceptNone(line);
  }

  /** A scan takes what the round picks, and goes on with the rest of the line in the next round. */
  lemma {:induction false} ScanRound(line: seq<Row>, limit: nat, clock: nat -> i64, i: nat, taken: nat)
    requires Distinct(line) && Advancing(clock) && taken < limit
    ensures var picked := Picked(line, clock(i), limit - taken);
            Scan(line, limit, clock, i, taken) == picked + Scan(Rest(line, picked), limit, clock, i + 1, 0)
    decreases |line|
  {
    hide Where, Picked, Scan, Rest, Advancing;
    var now, room := clock(i), limit - taken;
    if line == [] {
      PickedNone(now, room);
      RestNothing(line);
      ScanNone(limit, clock, i, taken);
      ScanNone(limit, clock, i + 1, 0);
    } else {
      var tail := line[1..];
      PickedHead(line, now, room);
      ScanHead(line, limit, clock, i, taken);
      if line[0].expires <= now {
        ScanRound(tail, limit, clock, i, taken);
        var picked := Picked(tail, now, room);
        forall r | r in picked
          ensures r in tail
        {
          PickedMember(tail, now, room, r);
        }
        RestExpired(line, limit, clock, i, picked);
      } else {
        RestTaken(line, Picked(tail, now, room - 1));
        if room == 1 {
          PickedZero(tail, now);
          RestNothing(tail);
        } else {
          ScanRound(tail, limit, clock, i, taken + 1);
        }
      }
    }
  }

  lemma ScanNone(limit: nat, clock: nat -> i64, i: nat, taken: nat)
    ensures Scan([], limit, clock, i, taken) == []
  {
  }

  lemma PickedNone(now: int, room: nat)
    ensures Picked([], now, room) == []
  {
  }

  lemma PickedZero(line: seq<Row>, now: int)
    ensures Picked(line, now, 0) == []
  {
  }

  lemma EnvelopesAppend(a: seq<Row>, b: seq<Row>)
    ensures Envelopes(a + b) == Envelopes(a) + Envelopes(b)
  {
  }

  /** Batches of `limit` rows, up to the first that holds a row without a date. */
  ghost function Intact(rows: seq<Row>, limit: nat): seq<Row>
    requires limit >= 1
    decreases |rows|
  {
    var batch := Limited(rows, limit);
    if rows == [] || !AllDated(batch) then [] else batch + Intact(rows[|batch|..], limit)
  }

  lemma IntactBatch(batch: seq<Row>, rest: seq<Row>, limit: nat)
    requires limit >= 1 && 0 < |batch| <= limit && (|batch| < limit ==> rest == [])
    ensures Intact(batch + rest, limit) == if AllDated(batch) then batch + Intact(rest, limit) else []
  {
    assert Limited(batch + rest, limit) == batch;
    assert (batch + rest)[|batch|..] == rest;
  }

  /** A round that does not reach its limit leaves nothing unexpired. */
  lemma RestExhausted(line: seq<Row>, now: int, limit: nat)
    requires |Picked(line, now, limit)| < limit
    ensures Picked(Rest(line, Picked(line, now, limit)), now, limit) == []
  {
    hide Where;
    var picked := Picked(line, now, limit);
    var rest := Rest(line, picked);
    forall r | r in rest
      ensures !Holds(Unexpired(now), r)
    {
      WhereMember(line, Except(Ids(picked)), r);
      WhereMember(line, Unexpired(now), r);
    }
    WhereNowhere(rest, Unexpired(now));
  }

  /** Draining a queue round by round, against a store that changes under it, is one pass over the line that stood at the
      start, cut off before the first batch in which a date is out of range. */
  lemma {:induction false} DrainIsScan(s: Store, queue: Bytes, limit: nat, clock: nat -> i64, i: nat)
    requires TableValid(s.rows) && limit >= 1 && Advancing(clock)
    ensures Drain(s, queue, limit, clock, i) == Envelopes(Intact(Scan(Line(s, queue), limit, clock, i, 0), limit))
    decreases |Line(s, queue)|
  {
    hide Where, Line, Select, AckAll, Scan, Intact, Rest, Picked;
    var line, now := Line(s, queue), clock(i);
    var picked := Picked(line, now, limit);
    PickedSelected(s, queue, now, limit);
    LineDistinct(s, queue);
    ScanRound(line, limit, clock, i, 0);
    var rest := Rest(line, picked);
    var later := Scan(rest, limit, clock, i + 1, 0);
    if picked == [] {
      RestNothing(line);
      ScanNothing(line, limit, clock, i);
      IntactNothing(limit);
    } else {
      if |picked| < limit {
        RestExhausted(line, now, limit);
        ScanNothing(rest, limit, clock, i);
      }
      IntactBatch(picked, later, limit);
      if AllDated(picked) {
        RoundShrinks(s, queue, limit, now, now);
        RestAfterAcks(s, queue, picked, now);
        var z := AckAll(s, queue, Envelopes(picked), now);
        DrainIsScan(z, queue, limit, clock, i + 1);
        EnvelopesAppend(picked, Intact(later, limit));
      } else {
        IntactNothing(limit);
      }
    }
  }

  lemma IntactNothing(limit: nat)
    requires limit >= 1
    ensures Intact([], limit) == [] && Envelopes([]) == []
  {
  }

  lemma PickedSelected(s: Store, queue: Bytes, now: int, limit: nat)
    requires TableValid(s.rows)
    ensures Select(s.rows, queue, now, limit) == Picked(Line(s, queue), now, limit)
    ensures |Picked(Line(s, queue), now, limit)| <= limit
  {
    hide Where, Line, Select;
    SelectLine(s, queue, now, limit);
  }

  lemma RestAfterAcks(s: Store, queue: Bytes, picked: seq<Row>, at: i64)
    requires TableValid(s.rows)
    ensures var z := AckAll(s, queue, Envelopes(picked), at);
            TableValid(z.rows) && Line(z, queue) == Rest(Line(s, queue), picked)
  {
    hide Where, Line, AckAll;
    LineAfterAcks(s, queue, picked, at);
  }

  /** Once a line holds nothing unexpired, a scan takes nothing from it. */
  lemma {:induction false} ScanNothing(line: seq<Row>, limit: nat, clock: nat -> i64, i: nat)
    requires limit >= 1 && Advancing(clock) && Picked(line, clock(i), limit) == []
    ensures Scan(line, limit, clock, i + 1, 0) == []
  {
    hide Picked;
    if line != [] {
      PickedHead(line, clock(i), limit);
      ScanNothing(line[1..], limit, clock, i);
    }
  }

  // ---------- What a drain yields ----------

  lemma {:induction false} ScanMember(line: seq<Row>, limit: nat, clock: nat -> i64, i: nat, taken: nat, r: Row)
    requires r in Scan(line, limit, clock, i, taken)
    ensures r in line
  {
    var tail := line[1..];
    if line[0].expires <= clock(i) {
      ScanMember(tail, limit, clock, i, taken, r);
    } else if r != line[0] {
      if taken + 1 >= limit {
        ScanMember(tail, limit, clock, i + 1, 0, r);
      } else {
        ScanMember(tail, limit, clock, i, taken + 1, r);
      }
    }
  }

  /** A scan yields a selection of the line: each envelope at most once, in the line's order. */
  lemma {:induction false} ScanSelects(line: seq<Row>, limit: nat, clock: nat -> i64, i: nat, taken: nat)
    requires Distinct(line)
    ensures var got := Scan(line, limit, clock, i, taken); got == Where(line, Among(Ids(got)))
  {
    hide Where;
    if line == [] {
      WhereNone(Among(Ids([])));
    } else {
      var head, tail := line[0], line[1..];
      var got := Scan(line, limit, clock, i, taken);
      var (j, n) := if head.expires <= clock(i) then (i, taken) else if taken + 1 >= limit then (i + 1, 0) else (i, taken + 1);
      var later := Scan(tail, limit, clock, j, n);
      ScanSelects(tail, limit, clock, j, n);
      forall r | r in later
        ensures r.envelope != head.envelope
      {
        ScanMember(tail, limit, clock, j, n, r);
      }
      WhereHead(line, Among(Ids(got)));
      WhereAgree(tail, Among(Ids(got)), Among(Ids(later)));
    }
  }

  /** How many full batches `n` envelopes make. */
  function FullBatches(n: nat, limit: nat): nat
    requires limit >= 1
  {
    if n < limit then 0 else 1 + FullBatches(n - limit, limit)
  }

  /** The `m`-th envelope taken was unexpired in its round. */
  lemma {:induction false} ScanUnexpired(line: seq<Row>, limit: nat, clock: nat -> i64, i: nat, taken: nat, m: nat)
    requires taken < limit && m < |Scan(line, limit, clock, i, taken)|
    ensures Scan(line, limit, clock, i, taken)[m].expires > clock(i + FullBatches(taken + m, limit))
  {
    var tail := line[1..];
    if line[0].expires <= clock(i) {
      ScanUnexpired(tail, limit, clock, i, taken, m);
    } else if m > 0 {
      if taken + 1 >= limit {
        ScanUnexpired(tail, limit, clock, i + 1, 0, m - 1);
      } else {
        ScanUnexpired(tail, limit, clock, i, taken + 1, m - 1);
      }
    }
  }

  /** Whatever a scan does not take has expired by its last round. */
  lemma {:induction false} ScanComplete(line: seq<Row>, limit: nat, clock: nat -> i64, i: nat, taken: nat, r: Row)
    requires taken < limit && Advancing(clock) && r in line && r !in Scan(line, limit, clock, i, taken)
    ensures r.expires <= clock(i + FullBatches(taken + |Scan(line, limit, clock, i, taken)|, limit))
  {
    var head, tail := line[0], line[1..];
    var got := Scan(line, limit, clock, i, taken);
    if head.expires <= clock(i) {
      if r in tail {
        ScanComplete(tail, limit, clock, i, taken, r);
      }
    } else if taken + 1 >= limit {
      ScanComplete(tail, limit, clock, i + 1, 0, r);
    } else {
      ScanComplete(tail, limit, clock, i, taken + 1, r);
    }
  }

  /** The beginning of a selection is a selection. */
  lemma {:induction false} SelectionPrefix(line: seq<Row>, t: Test, m: nat)
    requires Distinct(line) && m <= |Where(line, t)|
    ensures Where(line, Among(Ids(Where(line, t)[..m]))) == Where(line, t)[..m]
    decreases |line|
  {
    hide Where;
    if line == [] {
      WhereNone(t);
      WhereNone(Among(Ids([])));
    } else {
      var head, tail := line[0], line[1..];
      var all, later := Where(line, t), Where(tail, t);
      var some := all[..m];
      WhereHead(line, t);
      WhereHead(line, Among(Ids(some)));
      var part := if Holds(t, head) && m > 0 then later[..m - 1] else later[..if Holds(t, head) then 0 else m];
      SelectionPrefix(tail, t, |part|);
      assert some == if Holds(t, head) && m > 0 then [head] + part else part;
      forall r | r in part
        ensures r.envelope != head.envelope
      {
        WhereMember(tail, t, r);
      }
      WhereAgree(tail, Among(Ids(some)), Among(Ids(part)));
    }
  }

  /** What is left out begins with a batch in which a date is out of range. */
  lemma {:induction false} IntactStops(rows: seq<Row>, limit: nat)
    requires limit >= 1
    ensures var got := Intact(rows, limit);
            && |got| <= |rows| && got == rows[..|got|]
            && (got != rows ==> !AllDated(Limited(rows[|got|..], limit)))
    decreases |rows|
  {
    hide AllDated;
    var batch := Limited(rows, limit);
    if rows != [] && AllDated(batch) {
      var rest := rows[|batch|..];
      var later := Intact(rest, limit);
      IntactStops(rest, limit);
      assert rows == batch + rest && Intact(rows, limit) == batch + later;
      assert rows[|batch| + |later|..] == rest[|later|..];
      assert rows[..|batch| + |later|] == batch + rest[..|later|];
    } else {
      assert Intact(rows, limit) == [] && rows[..0] == [] && rows[0..] == rows;
    }
  }

  /** Draining a queue ends, whatever limit is asked for. It yields envelopes of the line that stood at the start, each once
      and in order, each unexpired in the round it was pulled in. It goes on until everything left has expired, or until
      the next batch holds a row with a date out of range. */
  lemma Drained(config: Config, s: Store, queue: Bytes, requested: i64, clock: nat -> i64)
    requires config.maxPull >= 1 && TableValid(s.rows) && Advancing(clock)
    ensures var limit, line := ClampLimit(requested, config), Line(s, queue);
            var reached := Scan(line, limit, clock, 0, 0);
            var got := Intact(reached, limit);
            && Drain(s, queue, limit, clock, 0) == Envelopes(got)
            && got == Where(line, Among(Ids(got)))
            && (forall m: nat :: m < |got| ==> got[m].expires > clock(FullBatches(m, limit)))
            && (if got == reached
                then forall r :: r in line && r !in got ==> r.expires <= clock(FullBatches(|got|, limit))
                else |got| < |reached| && got == reached[..|got|] && !AllDated(Limited(reached[|got|..], limit)))
  {
    hide Drain, Scan, Line, Intact, Where, Limited;
    var limit, line := ClampLimit(requested, config), Line(s, queue);
    var reached := Scan(line, limit, clock, 0, 0);
    var got := Intact(reached, limit);
    DrainIsScan(s, queue, limit, clock, 0);
    LineDistinct(s, queue);
    ScanSelects(line, limit, clock, 0, 0);
    IntactStops(reached, limit);
    SelectionPrefix(line, Among(Ids(reached)), |got|);
    forall m: nat | m < |got|
      ensures got[m].expires > clock(FullBatches(m, limit))
    {
      ScanUnexpired(line, limit, clock, 0, 0, m);
    }
    if got == reached {
      forall r | r in line && r !in got
        ensures r.expires <= clock(FullBatches(|got|, limit))
      {
        ScanComplete(line, limit, clock, 0, 0, r);
      }
    }
  }

  ghost predicate InTime(rows: seq<Row>) {
    forall i, j :: 0 <= i < j < |rows| ==> rows[i].received <= rows[j].received
  }

  lemma {:induction false} WhereInTime(rows: seq<Row>, t: Test)
    requires InTime(rows)
    ensures InTime(Where(rows, t))
  {
    if rows != [] {
      var init, last := rows[..|rows| - 1], rows[|rows| - 1];
      WhereInTime(init, t);
      forall r | r in Where(init, t)
        ensures r.received <= last.received
      {
        WhereMember(init, t, r);
        var i :| 0 <= i < |init| && init[i] == r;
        assert rows[i] == r;
      }
    }
  }

  ghost predicate ReceivedBy(rows: seq<Row>, now: int) {
    forall r :: r in rows ==> r.received <= now
  }

  lemma StepInTime(s: Store, config: Config, e: Event)
    requires config.maxPull >= 1 && InTime(s.rows) && ReceivedBy(s.rows, e.now)
    ensures InTime(Serve(s, config, e).store.rows) && ReceivedBy(Serve(s, config, e).store.rows, e.now)
  {
    hide Pull, Where, Taken;
    if e.request.SweepReq? {
      WhereInTime(s.rows, Unexpired(e.now));
      forall r | r in Where(s.rows, Unexpired(e.now))
        ensures r in s.rows
      {
        WhereMember(s.rows, Unexpired(e.now), r);
      }
    }
  }

  lemma {:induction false} RunInTime(config: Config, es: seq<Event>)
    requires config.maxPull >= 1 && Forward(es)
    ensures InTime(After(config, es).rows)
    ensures es != [] ==> ReceivedBy(After(config, es).rows, es[|es| - 1].now)
  {
    hide Serve, InTime;
    if es == [] {
      NothingInTime();
    } else {
      var init, e := es[..|es| - 1], es[|es| - 1];
      RunInTime(config, init);
      assert init != [] ==> init[|init| - 1] == es[|init| - 1];
      StepInTime(After(config, init), config, e);
    }
  }

  lemma NothingInTime()
    ensures InTime([])
  {
  }

  /** After any run whose clock does not run backwards, the line of a queue is its waiting envelopes in push order. */
  lemma LineInPushOrder(config: Config, es: seq<Event>, queue: Bytes)
    requires config.maxPull >= 1 && Forward(es)
    ensures Line(After(config, es), queue) == Where(After(config, es).rows, Waiting(queue))
  {
    hide After, Where, Ordered;
    RunInTime(config, es);
    var rows := After(config, es).rows;
    WhereInTime(rows, Waiting(queue));
    OrderedInTime(Where(rows, Waiting(queue)));
  }

  // ---------- Acknowledging what has expired ----------

  /** An envelope that expired and was not swept is still acknowledged with success. */
  lemma ExpiredAckSucceeds(config: Config, queue: Bytes, envelope: Bytes, payload: Bytes, ttl: i64, now: i64, late: i64)
    requires config.maxPull >= 1 && Acceptable(payload, config) && Expiry(now, ClampTtl(ttl, config)) <= late
    ensures AnswerAt(config, [Event(PushReq(queue, envelope, payload, ttl), now), Event(AckReq(queue, envelope), late)], 1) == Acked(true)
    ensures AnswerAt(config, [Event(PushReq(queue, envelope, payload, ttl), now), Event(SweepReq, late),
                              Event(AckReq(queue, envelope), late)], 2) == Acked(false)
  {
    var push, sweep, ack := Event(PushReq(queue, envelope, payload, ttl), now), Event(SweepReq, late), Event(AckReq(queue, envelope), late);
    var row := PushedRow(config, push);
    var a, b := [push, ack], [push, sweep, ack];
    AckExact(config, a, 1);
    assert a[..1][0] == push;
    assert OfferedKey(config, a[..1], queue, envelope, 0);
    AckExact(config, b, 2);
    assert b[..2][0] == push && b[..2][1] == sweep;
    assert Sweeps(b[..2][1], row);
    assert forall k: nat :: !OfferedKey(config, b[..2], queue, envelope, k);
  }
}
