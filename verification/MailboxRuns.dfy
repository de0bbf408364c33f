/**
 Whole runs of the mailbox: what becomes of every envelope, and what a puller can observe.
 */
module MailboxRuns {
  import opened Octets
  import opened Mailbox

  datatype Request =
    | PushReq(queue: Bytes, envelope: Bytes, payload: Bytes, ttl: i64)
    | PullReq(queue: Bytes, limit: i64)
    | AckReq(queue: Bytes, envelope: Bytes)
    | SweepReq

  /** A request, and the clock when it is served. */
  datatype Event = Event(request: Request, now: i64)

  datatype Answer = Pushed(push: Reply<Bytes>) | Pulled(pull: Reply<seq<Stored>>) | Acked(ack: bool) | Swept(count: nat)

  function Serve(s: Store, config: Config, e: Event): Change<Answer>
    requires config.maxPull >= 1
  {
    match e.request
    case PushReq(queue, envelope, payload, ttl) =>
      var c := Push(s, config, queue, envelope, payload, ttl, e.now);
      Change(c.store, Pushed(c.reply))
    case PullReq(queue, limit) => Change(s, Pulled(Pull(s, queue, ClampLimit(limit, config), e.now)))
    case AckReq(queue, envelope) =>
      var c := Ack(s, queue, envelope, e.now);
      Change(c.store, Acked(c.reply))
    case SweepReq =>
      var c := Expire(s, e.now);
      Change(c.store, Swept(c.reply))
  }

  /** The store after a run that starts with empty tables. */
  function After(config: Config, es: seq<Event>): Store
    requires config.maxPull >= 1
  {
    if es == [] then Store([], []) else Serve(After(config, es[..|es| - 1]), config, es[|es| - 1]).store
  }

  /** What the `j`-th request of a run is answered. */
  function AnswerAt(config: Config, es: seq<Event>, j: nat): Answer
    requires config.maxPull >= 1 && j < |es|
  {
    Serve(After(config, es[..j]), config, es[j]).reply
  }

  /** Every push carries an envelope id of its own. */
  ghost predicate FreshIds(es: seq<Event>) {
    forall i, j :: 0 <= i < j < |es| && es[i].request.PushReq? && es[j].request.PushReq? ==>
      es[i].request.envelope != es[j].request.envelope
  }

  lemma {:induction false} AfterValid(config: Config, es: seq<Event>)
    requires config.maxPull >= 1
    ensures TableValid(After(config, es).rows)
  {
    if es != [] {
      var s, e := After(config, es[..|es| - 1]), es[|es| - 1];
      AfterValid(config, es[..|es| - 1]);
      match e.request
      case PushReq(queue, envelope, payload, ttl) => InsertValid(s, queue, envelope, payload, ClampTtl(ttl, config), e.now);
      case PullReq(queue, limit) =>
      case AckReq(queue, envelope) => MarkValid(s.rows, queue, envelope, e.now);
      case SweepReq => WhereValid(s.rows, Unexpired(e.now));
    }
  }

  // ---------- Rows up to their ids ----------

  function Erase(rows: seq<Row>): (r: seq<Row>)
    ensures |r| == |rows| && forall i :: 0 <= i < |rows| ==> r[i] == rows[i].(id := 0)
  {
    seq(|rows|, i requires 0 <= i < |rows| => rows[i].(id := 0))
  }

  lemma EraseAppend(rows: seq<Row>, r: Row)
    ensures Erase(rows + [r]) == Erase(rows) + [r.(id := 0)]
  {
  }

  lemma {:induction false} EraseWhere(rows: seq<Row>, t: Test)
    ensures Erase(Where(rows, t)) == Where(Erase(rows), t)
  {
    if rows != [] {
      var init, last := rows[..|rows| - 1], rows[|rows| - 1];
      EraseWhere(init, t);
      assert Erase(rows)[..|rows| - 1] == Erase(init);
      assert Holds(t, last) <==> Holds(t, last.(id := 0));
    }
  }

  lemma EraseMark(rows: seq<Row>, queue: Bytes, envelope: Bytes, at: i64)
    ensures Erase(Mark(rows, queue, envelope, at)) == Mark(Erase(rows), queue, envelope, at)
  {
  }

  lemma {:induction false} EraseInsert(rows: seq<Row>, r: Row)
    ensures Erase(InsertByTime(rows, r)) == InsertByTime(Erase(rows), r.(id := 0))
  {
    if rows != [] && rows[|rows| - 1].received > r.received {
      EraseInsert(rows[..|rows| - 1], r);
      assert Erase(rows)[..|rows| - 1] == Erase(rows[..|rows| - 1]);
      EraseAppend(InsertByTime(rows[..|rows| - 1], r), rows[|rows| - 1]);
    } else {
      EraseAppend(rows, r);
    }
  }

  lemma {:induction false} EraseOrdered(rows: seq<Row>)
    ensures Erase(Ordered(rows)) == Ordered(Erase(rows))
  {
    if rows != [] {
      EraseOrdered(rows[..|rows| - 1]);
      assert Erase(rows)[..|rows| - 1] == Erase(rows[..|rows| - 1]);
      EraseInsert(Ordered(rows[..|rows| - 1]), rows[|rows| - 1]);
    }
  }

  /** What a pull answers does not depend on row ids as such. */
  lemma PullErased(s: Store, z: Store, queue: Bytes, limit: int, now: int)
    requires Erase(Where(s.rows, Live(queue, now))) == Erase(Where(z.rows, Live(queue, now)))
    ensures Pull(s, queue, limit, now) == Pull(z, queue, limit, now)
  {
    hide Where, Ordered, Holds;
    var a, b := Ordered(Where(s.rows, Live(queue, now))), Ordered(Where(z.rows, Live(queue, now)));
    EraseOrdered(Where(s.rows, Live(queue, now)));
    EraseOrdered(Where(z.rows, Live(queue, now)));
    assert |a| == |Erase(a)| == |Erase(b)| == |b|;
    forall i | 0 <= i < |a|
      ensures RowToEnvelope(a[i]) == RowToEnvelope(b[i])
    {
      assert Erase(a)[i] == Erase(b)[i];
    }
    var x, y := Limited(a, limit), Limited(b, limit);
    assert Envelopes(x) == Envelopes(y);
    assert forall i :: 0 <= i < |x| ==> Dated(x[i]) == Dated(y[i]);
  }

  // ---------- The fate of an envelope ----------

  datatype Fate = Undelivered | Delivered(at: i64) | Gone

  ghost predicate AcceptedPush(config: Config, e: Event) {
    e.request.PushReq? && Acceptable(e.request.payload, config)
  }

  /** The seconds an accepted push is given to live: what it asks for up to the maximum, or the default. */
  ghost function Lifetime(config: Config, ttl: int): int {
    if ttl <= 0 then config.defaultTtl else if ttl <= config.maxTtl then ttl else config.maxTtl
  }

  /** The value nearest to `x` that fits in 64 bits. */
  ghost function Nearest(x: int): i64 {
    if x >= 0x8000_0000_0000_0000 then 0x7fff_ffff_ffff_ffff
    else if x < -0x8000_0000_0000_0000 then -0x8000_0000_0000_0000
    else x
  }

  /** What the store is to hold of an accepted push, told by the request alone: its queue, envelope id and payload, the time it
      came, and when its time to live is over. */
  ghost function PushedRow(config: Config, e: Event): Row
    requires AcceptedPush(config, e)
  {
    var q := e.request;
    Row(0, q.queue, q.envelope, q.payload, e.now, Nearest(e.now + Nearest(1000 * Lifetime(config, q.ttl))), None)
  }

  ghost predicate AckOf(e: Event, r: Row) {
    e.request == AckReq(r.queue, r.envelope)
  }

  /** What one event does to one envelope, whatever else is in the store. */
  ghost function Fated(r: Row, fate: Fate, e: Event): Fate {
    if e.request.SweepReq? && r.expires <= e.now then Gone
    else if fate == Undelivered && AckOf(e, r) then Delivered(e.now)
    else fate
  }

  /** The fate, after a run, of the envelope pushed by its `k`-th request. */
  ghost function FateOf(config: Config, es: seq<Event>, k: nat): Fate
    requires k < |es| && AcceptedPush(config, es[k])
  {
    if |es| == k + 1 then Undelivered
    else Fated(PushedRow(config, es[k]), FateOf(config, es[..|es| - 1], k), es[|es| - 1])
  }

  ghost function FatedRow(r: Row, fate: Fate): seq<Row> {
    match fate
    case Undelivered => [r]
    case Delivered(at) => [r.(delivered := Some(at))]
    case Gone => []
  }

  ghost function Survivor(config: Config, es: seq<Event>, k: nat): seq<Row>
    requires k < |es|
  {
    if AcceptedPush(config, es[k]) then FatedRow(PushedRow(config, es[k]), FateOf(config, es, k)) else []
  }

  /** The envelopes of the first `m` requests that a run leaves in the store, in push order. */
  ghost function Survivors(config: Config, es: seq<Event>, m: nat): seq<Row>
    requires m <= |es|
  {
    if m == 0 then [] else Survivors(config, es, m - 1) + Survivor(config, es, m - 1)
  }

  /** What an event does to the rows already present. */
  ghost function Aged(rows: seq<Row>, e: Event): seq<Row> {
    match e.request
    case AckReq(queue, envelope) => Mark(rows, queue, envelope, e.now)
    case SweepReq => Where(rows, Unexpired(e.now))
    case PushReq(_, _, _, _) => rows
    case PullReq(_, _) => rows
  }

  lemma {:induction false} WhereAppend(a: seq<Row>, b: seq<Row>, t: Test)
    ensures Where(a + b, t) == Where(a, t) + Where(b, t)
  {
    if b == [] {
      assert a + b == a;
    } else {
      var init, last := b[..|b| - 1], b[|b| - 1];
      WhereAppend(a, init, t);
      assert (a + b)[..|a + b| - 1] == a + init;
    }
  }

  lemma AgedAppend(a: seq<Row>, b: seq<Row>, e: Event)
    ensures Aged(a + b, e) == Aged(a, e) + Aged(b, e)
  {
    if e.request.SweepReq? {
      WhereAppend(a, b, Unexpired(e.now));
    }
  }

  lemma AgedFate(r: Row, fate: Fate, e: Event)
    requires r.delivered == None
    ensures Aged(FatedRow(r, fate), e) == FatedRow(r, Fated(r, fate, e))
  {
    var rows := FatedRow(r, fate);
    if rows != [] {
      assert rows[..0] == [];
      assert Where(rows[..0], Unexpired(e.now)) == [];
    }
  }

  lemma {:induction false} SurvivorsAge(config: Config, es: seq<Event>, m: nat)
    requires 0 < |es| && m < |es|
    ensures Survivors(config, es, m) == Aged(Survivors(config, es[..|es| - 1], m), es[|es| - 1])
  {
    hide FateOf, Aged, FatedRow, Fated, PushedRow;
    var init, e := es[..|es| - 1], es[|es| - 1];
    if m == 0 {
      AgedEmpty(e);
    } else {
      var k := m - 1;
      assert init[k] == es[k];
      SurvivorsAge(config, es, k);
      AgedAppend(Survivors(config, init, k), Survivor(config, init, k), e);
      AgedEmpty(e);
      if AcceptedPush(config, es[k]) {
        FateOfStep(config, es, k);
        AgedFate(PushedRow(config, es[k]), FateOf(config, init, k), e);
      }
    }
  }

  lemma FateOfStep(config: Config, es: seq<Event>, k: nat)
    requires k + 1 < |es| && AcceptedPush(config, es[k])
    ensures PushedRow(config, es[k]).delivered == None
    ensures FateOf(config, es, k) ==
            Fated(PushedRow(config, es[k]), FateOf(config, es[..|es| - 1], k), es[|es| - 1])
  {
  }

  lemma AgedEmpty(e: Event)
    ensures Aged([], e) == []
  {
  }

  /** Every envelope in the store was pushed. */
  lemma {:induction false} RowsWerePushed(config: Config, es: seq<Event>, r: Row)
    requires config.maxPull >= 1 && r in After(config, es).rows
    ensures exists k :: 0 <= k < |es| && es[k].request.PushReq? && es[k].request.envelope == r.envelope
  {
    hide Push, Ack, Expire, Pull;
    var init, e := es[..|es| - 1], es[|es| - 1];
    var s := After(config, init);
    var q := ServedRow(s, config, e, r);
    if q in s.rows {
      RowsWerePushed(config, init, q);
      var k :| 0 <= k < |init| && init[k].request.PushReq? && init[k].request.envelope == q.envelope;
      assert es[k] == init[k];
    }
  }

  /** A row after an event was there before under the same key, or is the event's own. */
  lemma ServedRow(s: Store, config: Config, e: Event, r: Row) returns (q: Row)
    requires config.maxPull >= 1 && r in Serve(s, config, e).store.rows
    ensures q.envelope == r.envelope && q.queue == r.queue
    ensures q in s.rows || (e.request.PushReq? && e.request.envelope == q.envelope)
  {
    hide Pull;
    q := r;
    match e.request
    case PushReq(queue, envelope, payload, ttl) =>
    case PullReq(queue, limit) =>
    case AckReq(queue, envelope) =>
      var i :| 0 <= i < |Serve(s, config, e).store.rows| && Serve(s, config, e).store.rows[i] == r;
      q := s.rows[i];
    case SweepReq => WhereMember(s.rows, Unexpired(e.now), r);
  }

  lemma NotTaken(config: Config, es: seq<Event>)
    requires config.maxPull >= 1 && es != [] && FreshIds(es) && es[|es| - 1].request.PushReq?
    ensures var request := es[|es| - 1].request;
            !Taken(After(config, es[..|es| - 1]).rows, request.queue, request.envelope)
  {
    hide After;
    var init, e := es[..|es| - 1], es[|es| - 1];
    var rows := After(config, init).rows;
    forall i | 0 <= i < |rows|
      ensures rows[i].envelope != e.request.envelope
    {
      RowsWerePushed(config, init, rows[i]);
      var k :| 0 <= k < |init| && init[k].request.PushReq? && init[k].request.envelope == rows[i].envelope;
      assert es[k] == init[k];
    }
  }

  lemma UnmarkedUnchanged(rows: seq<Row>, queue: Bytes, envelope: Bytes, at: i64)
    requires Where(rows, Unacked(queue, envelope)) == []
    ensures Mark(rows, queue, envelope, at) == rows
  {
    forall i | 0 <= i < |rows|
      ensures !Holds(Unacked(queue, envelope), rows[i])
    {
      WhereMember(rows, Unacked(queue, envelope), rows[i]);
    }
  }

  /** One event's effect on the table: the rows present age, and an accepted push adds its own. */
  lemma ServedTable(s: Store, config: Config, e: Event)
    requires config.maxPull >= 1
    requires e.request.PushReq? ==> !Taken(s.rows, e.request.queue, e.request.envelope)
    ensures Erase(Serve(s, config, e).store.rows) ==
            Aged(Erase(s.rows), e) + if AcceptedPush(config, e) then [PushedRow(config, e)] else []
  {
    hide Pull, Taken, Where;
    match e.request
    case PushReq(queue, envelope, payload, ttl) =>
      if AcceptedPush(config, e) {
        EraseAppend(s.rows, NewRow(NextId(s.rows), queue, envelope, payload, ClampTtl(ttl, config), e.now));
      }
    case PullReq(queue, limit) =>
    case AckReq(queue, envelope) =>
      EraseMark(s.rows, queue, envelope, e.now);
      if Where(s.rows, Unacked(queue, envelope)) == [] {
        UnmarkedUnchanged(s.rows, queue, envelope, e.now);
      }
    case SweepReq => EraseWhere(s.rows, Unexpired(e.now));
  }

  /** Conservation: after any run the table holds, in push order and unaltered, exactly the accepted envelopes that no
      sweep has removed, each marked delivered exactly if it was acknowledged. */
  lemma {:induction false} StoreIsHistory(config: Config, es: seq<Event>)
    requires config.maxPull >= 1 && FreshIds(es)
    ensures Erase(After(config, es).rows) == Survivors(config, es, |es|)
  {
    hide Serve, Aged, Taken, PushedRow;
    if es != [] {
      var init, e := es[..|es| - 1], es[|es| - 1];
      StoreIsHistory(config, init);
      if e.request.PushReq? {
        NotTaken(config, es);
      }
      ServedTable(After(config, init), config, e);
      SurvivorsAge(config, es, |init|);
    }
  }

  // ---------- Answers, in terms of the run alone ----------

  ghost predicate Sweeps(e: Event, r: Row) {
    e.request.SweepReq? && r.expires <= e.now
  }

  /** Row `r` is the envelope pushed by the `k`-th request, and nothing after it has acknowledged or swept it. */
  ghost predicate Offered(config: Config, es: seq<Event>, k: nat, r: Row) {
    && k < |es| && AcceptedPush(config, es[k]) && r == PushedRow(config, es[k])
    && forall j :: k < j < |es| ==> !AckOf(es[j], r) && !Sweeps(es[j], r)
  }

  lemma {:induction false} FateOffered(config: Config, es: seq<Event>, k: nat)
    requires k < |es| && AcceptedPush(config, es[k])
    ensures FateOf(config, es, k) == Undelivered <==> Offered(config, es, k, PushedRow(config, es[k]))
  {
    if |es| > k + 1 {
      var init := es[..|es| - 1];
      FateOffered(config, init, k);
      assert forall j :: k < j < |init| ==> es[j] == init[j];
    }
  }

  /** An envelope is gone exactly if some sweep after its push came at or after its expiry. */
  lemma {:induction false} FateGone(config: Config, es: seq<Event>, k: nat)
    requires k < |es| && AcceptedPush(config, es[k])
    ensures FateOf(config, es, k) == Gone <==> exists j :: k < j < |es| && Sweeps(es[j], PushedRow(config, es[k]))
  {
    if |es| > k + 1 {
      var init, e := es[..|es| - 1], es[|es| - 1];
      FateGone(config, init, k);
      assert forall j :: k < j < |init| ==> es[j] == init[j];
    }
  }

  /** The `j`-th request is the first acknowledgement of the envelope pushed by the `k`-th. */
  ghost predicate FirstAck(config: Config, es: seq<Event>, k: nat, j: nat)
    requires k < |es| && AcceptedPush(config, es[k])
  {
    && k < j < |es| && AckOf(es[j], PushedRow(config, es[k]))
    && forall i :: k < i < j ==> !AckOf(es[i], PushedRow(config, es[k]))
  }

  /** An envelope is delivered at a time exactly if its first acknowledgement was served then, and no sweep after its push
      came at or after its expiry. */
  lemma {:induction false} FateDelivered(config: Config, es: seq<Event>, k: nat, at: i64)
    requires k < |es| && AcceptedPush(config, es[k])
    ensures FateOf(config, es, k) == Delivered(at) <==>
            && (exists j: nat :: FirstAck(config, es, k, j) && es[j].now == at)
            && !(exists j :: k < j < |es| && Sweeps(es[j], PushedRow(config, es[k])))
  {
    hide PushedRow;
    FateGone(config, es, k);
    if |es| > k + 1 {
      var init, e := es[..|es| - 1], es[|es| - 1];
      assert forall j :: 0 <= j < |init| ==> es[j] == init[j];
      FateDelivered(config, init, k, at);
      FateGone(config, init, k);
      FateOffered(config, init, k);
      FirstAckPrefix(config, es, k);
      assert !AckOf(e, PushedRow(config, es[k])) ==> !FirstAck(config, es, k, |init|);
    }
  }

  lemma FirstAckPrefix(config: Config, es: seq<Event>, k: nat)
    requires k + 1 < |es| && AcceptedPush(config, es[k])
    ensures forall j: nat :: j < |es| - 1 ==> (FirstAck(config, es[..|es| - 1], k, j) <==> FirstAck(config, es, k, j))
  {
    assert forall j :: 0 <= j < |es| - 1 ==> es[..|es| - 1][j] == es[j];
  }

  lemma {:induction false} SurvivorsMember(config: Config, es: seq<Event>, m: nat, r: Row)
    requires m <= |es|
    ensures r in Survivors(config, es, m) <==> exists k: nat :: k < m && r in Survivor(config, es, k)
  {
    hide Survivor;
    if m > 0 {
      SurvivorsMember(config, es, m - 1, r);
    }
  }

  /** The undelivered rows of the table are exactly the envelopes on offer. */
  lemma UndeliveredOffered(config: Config, es: seq<Event>, r: Row)
    requires config.maxPull >= 1 && FreshIds(es) && r.delivered == None
    ensures r in Erase(After(config, es).rows) <==> exists k: nat :: Offered(config, es, k, r)
  {
    hide After, FateOf, Survivors;
    StoreIsHistory(config, es);
    SurvivorsMember(config, es, |es|, r);
    if k: nat :| k < |es| && r in Survivor(config, es, k) {
      FateOffered(config, es, k);
    }
    if k: nat :| Offered(config, es, k, r) {
      FateOffered(config, es, k);
      assert r in Survivor(config, es, k);
    }
  }

  lemma ErasedMember(rows: seq<Row>, z: Row)
    ensures z in Erase(rows) <==> exists r :: r in rows && r.(id := 0) == z
  {
    if z in Erase(rows) {
      var i :| 0 <= i < |Erase(rows)| && Erase(rows)[i] == z;
      assert rows[i] in rows;
    }
    if r :| r in rows && r.(id := 0) == z {
      var i :| 0 <= i < |rows| && rows[i] == r;
      assert Erase(rows)[i] == z;
    }
  }

  ghost predicate OfferedKey(config: Config, es: seq<Event>, queue: Bytes, envelope: Bytes, k: nat) {
    k < |es| && AcceptedPush(config, es[k]) && Offered(config, es, k, PushedRow(config, es[k]))
    && es[k].request.queue == queue && es[k].request.envelope == envelope
  }

  /** An acknowledgement succeeds exactly on an envelope of that queue that was pushed before, and neither acknowledged
      nor swept since; whether it has expired does not matter. */
  lemma AckExact(config: Config, es: seq<Event>, j: nat)
    requires config.maxPull >= 1 && FreshIds(es) && j < |es| && es[j].request.AckReq?
    ensures AnswerAt(config, es, j) ==
            Acked(exists k: nat :: OfferedKey(config, es[..j], es[j].request.queue, es[j].request.envelope, k))
  {
    hide After, Offered;
    var run, rows := es[..j], After(config, es[..j]).rows;
    var queue, envelope := es[j].request.queue, es[j].request.envelope;
    var found := Where(rows, Unacked(queue, envelope));
    if found != [] {
      WhereMember(rows, Unacked(queue, envelope), found[0]);
      var z := found[0].(id := 0);
      ErasedMember(rows, z);
      UndeliveredOffered(config, run, z);
      var k: nat :| Offered(config, run, k, z);
      OfferedPush(config, run, k, z);
      assert OfferedKey(config, run, queue, envelope, k);
    }
    if k: nat :| OfferedKey(config, run, queue, envelope, k) {
      var z := PushedRow(config, run[k]);
      UndeliveredOffered(config, run, z);
      ErasedMember(rows, z);
      var r :| r in rows && r.(id := 0) == z;
      WhereMember(rows, Unacked(queue, envelope), r);
    }
  }

  lemma OfferedPush(config: Config, es: seq<Event>, k: nat, r: Row)
    requires Offered(config, es, k, r)
    ensures k < |es| && AcceptedPush(config, es[k]) && r == PushedRow(config, es[k])
  {
  }

  /** Of all acknowledgements of one envelope at most one succeeds. */
  lemma AckOnce(config: Config, es: seq<Event>, i: nat, j: nat)
    requires config.maxPull >= 1 && FreshIds(es) && i < j < |es|
    requires es[i].request.AckReq? && es[j].request == es[i].request && AnswerAt(config, es, i) == Acked(true)
    ensures AnswerAt(config, es, j) == Acked(false)
  {
    hide AnswerAt, Acceptable;
    AckExact(config, es, i);
    AckExact(config, es, j);
    var queue, envelope := es[i].request.queue, es[i].request.envelope;
    var k: nat :| OfferedKey(config, es[..i], queue, envelope, k);
    forall h: nat
      ensures !OfferedKey(config, es[..j], queue, envelope, h)
    {
      assert h < j ==> es[..j][h] == es[h];
      assert es[..i][k] == es[k] && es[..j][i] == es[i];
    }
  }

  /** The `j`-th request is an acknowledgement that succeeds and leaves receipt `r`. */
  ghost predicate Receipted(config: Config, es: seq<Event>, j: nat, r: Receipt)
    requires config.maxPull >= 1
  {
    && j < |es| && es[j] == Event(AckReq(r.queue, r.envelope), r.pulled)
    && AnswerAt(config, es, j) == Acked(true)
  }

  lemma ReceiptedPrefix(config: Config, es: seq<Event>, j: nat, r: Receipt)
    requires config.maxPull >= 1 && j + 1 < |es|
    ensures Receipted(config, es[..|es| - 1], j, r) <==> Receipted(config, es, j, r)
  {
    assert es[..|es| - 1][..j] == es[..j];
  }

  lemma ServeReceipts(s: Store, config: Config, e: Event)
    requires config.maxPull >= 1
    ensures var c := Serve(s, config, e);
            if e.request.AckReq? && c.reply == Acked(true)
            then c.store.receipts == s.receipts + [Receipt(e.request.queue, e.request.envelope, e.now)]
            else c.store.receipts == s.receipts
  {
    hide Where, Pull, Mark, Taken, ClampTtl, NewRow;
  }

  /** The last event adds a receipt exactly if it is an acknowledgement that succeeds. */
  lemma ServedReceipts(config: Config, es: seq<Event>)
    requires config.maxPull >= 1 && es != []
    ensures var e, before, after := es[|es| - 1], After(config, es[..|es| - 1]), After(config, es);
            if e.request.AckReq? && AnswerAt(config, es, |es| - 1) == Acked(true)
            then after.receipts == before.receipts + [Receipt(e.request.queue, e.request.envelope, e.now)]
            else after.receipts == before.receipts
  {
    hide Serve;
    ServeReceipts(After(config, es[..|es| - 1]), config, es[|es| - 1]);
  }

  /** There is one receipt for each acknowledgement that succeeds, and no other. */
  lemma {:induction false} ReceiptsExact(config: Config, es: seq<Event>, r: Receipt)
    requires config.maxPull >= 1
    ensures r in After(config, es).receipts <==> exists j: nat :: Receipted(config, es, j, r)
  {
    hide AnswerAt, After;
    if es == [] {
      AfterNone(config);
    } else {
      var init, n := es[..|es| - 1], |es| - 1;
      ReceiptsExact(config, init, r);
      ServedReceipts(config, es);
      forall j: nat | j < n
        ensures Receipted(config, init, j, r) <==> Receipted(config, es, j, r)
      {
        ReceiptedPrefix(config, es, j, r);
      }
      LastReceipted(config, es, r);
    }
  }

  lemma AfterNone(config: Config)
    requires config.maxPull >= 1
    ensures After(config, []) == Store([], [])
  {
  }

  lemma LastReceipted(config: Config, es: seq<Event>, r: Receipt)
    requires config.maxPull >= 1 && es != []
    ensures Receipted(config, es, |es| - 1, r) <==>
            && var e := es[|es| - 1];
            e.request.AckReq? && AnswerAt(config, es, |es| - 1) == Acked(true) && r == Receipt(e.request.queue, e.request.envelope, e.now)
  {
    hide AnswerAt;
  }

  /** No envelope ever has two receipts. */
  lemma {:induction false} ReceiptsUnique(config: Config, es: seq<Event>, a: nat, b: nat)
    requires config.maxPull >= 1 && FreshIds(es) && a < b < |After(config, es).receipts|
    ensures var rs := After(config, es).receipts; !(rs[a].queue == rs[b].queue && rs[a].envelope == rs[b].envelope)
  {
    hide AnswerAt, Serve;
    var init, n := es[..|es| - 1], |es| - 1;
    ServedReceipts(config, es);
    var earlier := After(config, init).receipts;
    if b < |earlier| {
      ReceiptsUnique(config, init, a, b);
    } else {
      ReceiptsExact(config, init, earlier[a]);
      var j: nat :| Receipted(config, init, j, earlier[a]);
      ReceiptedPrefix(config, es, j, earlier[a]);
      if es[n].request == es[j].request {
        AckOnce(config, es, j, n);
      }
    }
  }

  /** Row `r`, on offer after the run, is of this queue and unexpired. */
  ghost predicate Pullable(config: Config, es: seq<Event>, queue: Bytes, now: int, k: nat, r: Row) {
    Offered(config, es, k, r) && r.queue == queue && r.expires > now
  }

  /** A pull is refused exactly if a row in reach of its limit has a date out of range. Otherwise it answers with envelopes of
      its queue that were pushed before, and are unexpired and neither acknowledged nor swept; any such envelope it
      leaves out is no older than those it returns, and only because the limit is reached. */
  lemma PullExact(config: Config, es: seq<Event>, j: nat)
    requires config.maxPull >= 1 && FreshIds(es) && j < |es| && es[j].request.PullReq?
    ensures var answer, limit := AnswerAt(config, es, j).pull, ClampLimit(es[j].request.limit, config);
            var queue, now := es[j].request.queue, es[j].now;
            && (answer.Refused? <==> Blocked(After(config, es[..j]).rows, queue, now, limit))
            && (answer.Done? ==> Answers(config, es[..j], queue, now, limit, answer.value))
  {
    hide After, Select, Pull, Blocked, Answers;
    var run := es[..j];
    var queue, now, limit := es[j].request.queue, es[j].now, ClampLimit(es[j].request.limit, config);
    AfterValid(config, run);
    PullRefused(After(config, run), queue, limit, now);
    PullSelected(After(config, run), queue, limit, now);
    if AnswerAt(config, es, j).pull.Done? {
      SelectedAnswers(config, run, queue, now, limit);
    }
  }

  lemma PullSelected(s: Store, queue: Bytes, limit: int, now: int)
    ensures Pull(s, queue, limit, now).Done? ==>
              Pull(s, queue, limit, now).value == Envelopes(Select(s.rows, queue, now, limit))
  {
    hide Select;
  }

  /** `out` is a right answer to a pull after the run. */
  ghost predicate Answers(config: Config, run: seq<Event>, queue: Bytes, now: int, limit: int, out: seq<Stored>) {
    && |out| <= limit
    && (forall e :: e in out ==> exists k: nat, r :: Pullable(config, run, queue, now, k, r) && e == RowToEnvelope(r))
    && (forall k: nat, r :: Pullable(config, run, queue, now, k, r) && RowToEnvelope(r) !in out ==>
          |out| == limit && forall e :: e in out ==> e.received <= r.received)
  }

  lemma SelectedAnswers(config: Config, run: seq<Event>, queue: Bytes, now: int, limit: nat)
    requires config.maxPull >= 1 && FreshIds(run)
    ensures Answers(config, run, queue, now, limit, Envelopes(Select(After(config, run).rows, queue, now, limit)))
  {
    hide After, Offered, Where, Ordered;
    var rows := After(config, run).rows;
    var selected := Select(rows, queue, now, limit);
    AfterValid(config, run);
    SelectExact(rows, queue, now, limit);
    var out := Envelopes(selected);
    forall e | e in out
      ensures exists k: nat, r :: Pullable(config, run, queue, now, k, r) && e == RowToEnvelope(r)
    {
      var i :| 0 <= i < |out| && out[i] == e;
      assert selected[i] in selected;
      var z := selected[i].(id := 0);
      ErasedMember(rows, z);
      UndeliveredOffered(config, run, z);
      var k: nat :| Offered(config, run, k, z);
      assert Pullable(config, run, queue, now, k, z);
    }
    forall k: nat, r | Pullable(config, run, queue, now, k, r) && RowToEnvelope(r) !in out
      ensures |out| == limit && forall e :: e in out ==> e.received <= r.received
    {
      OfferedPush(config, run, k, r);
      UndeliveredOffered(config, run, r);
      ErasedMember(rows, r);
      var q :| q in rows && q.(id := 0) == r;
      SelectedEnvelope(selected, q);
      LeftOutNoOlder(selected, q);
    }
  }

  /** Every accepted push of the run arrived, and expires, within the calendar. */
  ghost predicate PushesDated(config: Config, es: seq<Event>) {
    forall k :: 0 <= k < |es| && AcceptedPush(config, es[k]) ==> DatedPush(es[k].now, ClampTtl(es[k].request.ttl, config))
  }

  lemma ServedDated(s: Store, config: Config, e: Event)
    requires config.maxPull >= 1 && AllDated(s.rows)
    requires AcceptedPush(config, e) ==> DatedPush(e.now, ClampTtl(e.request.ttl, config))
    ensures AllDated(Serve(s, config, e).store.rows)
  {
    hide Pull, Where, Taken, Expiry, ClampTtl;
    match e.request
    case PushReq(queue, envelope, payload, ttl) =>
      PushedDated(NextId(s.rows), queue, envelope, payload, ClampTtl(ttl, config), e.now);
    case PullReq(queue, limit) =>
    case AckReq(queue, envelope) =>
    case SweepReq =>
      var kept := Where(s.rows, Unexpired(e.now));
      forall i | 0 <= i < |kept|
        ensures Dated(kept[i])
      {
        WhereMember(s.rows, Unexpired(e.now), kept[i]);
      }
  }

  lemma {:induction false} RunDated(config: Config, es: seq<Event>)
    requires config.maxPull >= 1 && PushesDated(config, es)
    ensures AllDated(After(config, es).rows)
  {
    hide Serve;
    if es != [] {
      RunDated(config, es[..|es| - 1]);
      ServedDated(After(config, es[..|es| - 1]), config, es[|es| - 1]);
    }
  }

  /** While every accepted push arrives and expires within the calendar, every pull is answered. */
  lemma PullAnswered(config: Config, es: seq<Event>, j: nat)
    requires config.maxPull >= 1 && j < |es| && es[j].request.PullReq? && PushesDated(config, es[..j])
    ensures AnswerAt(config, es, j).pull.Done?
  {
    hide After, Where, Ahead;
    var s := After(config, es[..j]);
    AfterValid(config, es[..j]);
    RunDated(config, es[..j]);
    PullRefused(s, es[j].request.queue, ClampLimit(es[j].request.limit, config), es[j].now);
  }

  lemma LeftOutNoOlder(selected: seq<Row>, q: Row)
    requires forall r :: r in selected ==> Before(r, q)
    ensures forall e :: e in Envelopes(selected) ==> e.received <= q.received
  {
    forall e | e in Envelopes(selected)
      ensures e.received <= q.received
    {
      var i :| 0 <= i < |selected| && Envelopes(selected)[i] == e;
      assert selected[i] in selected;
    }
  }

  /** Pulling gives back what was pushed: the envelope id and payload of a push to this queue, received when it came and
      expiring when its time to live is over. */
  lemma PulledAsPushed(config: Config, es: seq<Event>, j: nat, e: Stored)
    requires config.maxPull >= 1 && FreshIds(es) && j < |es| && es[j].request.PullReq?
    requires AnswerAt(config, es, j).pull.Done? && e in AnswerAt(config, es, j).pull.value
    ensures exists k :: 0 <= k < j && PushedAs(config, es[k], es[j].request.queue, e)
  {
    hide After, AnswerAt, Blocked, AcceptedPush;
    PullExact(config, es, j);
    var k: nat, r :| Pullable(config, es[..j], es[j].request.queue, es[j].now, k, r) && e == RowToEnvelope(r);
    OfferedPush(config, es[..j], k, r);
    assert es[..j][k] == es[k];
  }

  ghost predicate PushedAs(config: Config, push: Event, queue: Bytes, e: Stored) {
    && push.request.PushReq? && push.request.queue == queue
    && e.envelope == push.request.envelope && e.payload == push.request.payload
    && e.received == push.now && e.expires == Nearest(push.now + Nearest(1000 * Lifetime(config, push.request.ttl)))
  }

  /** A push is answered with its envelope id exactly if its payload is neither empty nor too large. */
  lemma PushAnswered(config: Config, es: seq<Event>, j: nat)
    requires config.maxPull >= 1 && FreshIds(es) && j < |es| && es[j].request.PushReq?
    ensures var q := es[j].request;
            AnswerAt(config, es, j) == Pushed(
              if |q.payload| == 0 then Refused(EmptyPayload)
              else if |q.payload| > config.maxPayload then Refused(OversizedPayload)
              else Done(q.envelope))
  {
    hide After, Taken;
    var run := es[..j + 1];
    assert run[..|run| - 1] == es[..j] && run[|run| - 1] == es[j];
    NotTaken(config, run);
  }

  /** A sweep is answered with the number of rows it removes. */
  lemma SweepAnswered(config: Config, es: seq<Event>, j: nat)
    requires config.maxPull >= 1 && j < |es| && es[j].request.SweepReq?
    ensures AnswerAt(config, es, j) == Swept(|ExpiredRows(After(config, es[..j]).rows, es[j].now)|)
  {
    hide After, Where;
    AfterValid(config, es[..j]);
    ExpireExact(After(config, es[..j]), es[j].now);
  }

  lemma SelectedEnvelope(selected: seq<Row>, q: Row)
    ensures q in selected ==> RowToEnvelope(q) in Envelopes(selected)
  {
    if q in selected {
      var i :| 0 <= i < |selected| && selected[i] == q;
      assert Envelopes(selected)[i] == RowToEnvelope(q);
    }
  }
}
