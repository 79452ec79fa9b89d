/** Writers of the event log: read the tail, insert at the next `seq`, retry on a lost race.

  Any number of writers interleave between the two statements. A schedule says which
  writer runs its next statement and whether the storage fails it; a run is the fold of
  a schedule, so a lemma about every schedule is a lemma about every interleaving.
*/
module EventWriters {
  import opened Wrappers
  import opened EventLog

  datatype Event = Event(taskId: int, kind: string, raw: string)

  // ---- one statement at a time ----

  /** `SELECT seq, chain_hash ... ORDER BY seq DESC LIMIT 1`: the row with the highest `seq`. */
  function Tail(rows: seq<Row>): (r: Option<Row>)
    ensures r.None? <==> rows == []
    ensures r.Some? ==> r.value in rows && forall x :: x in rows ==> x.seqNo <= r.value.seqNo
  {
    if rows == [] then None
    else
      var n := |rows| - 1;
      var best := Tail(rows[..n]);
      assert rows == rows[..n] + [rows[n]];
      if best.None? || best.value.seqNo < rows[n].seqNo then Some(rows[n]) else best
  }

  /** The unique indexes on `seq` and `chain_hash`. */
  predicate Unique(rows: seq<Row>, row: Row) {
    forall x :: x in rows ==> x.seqNo != row.seqNo && x.hash != row.hash
  }

  /** The row a writer builds from the tail it read. */
  function NextRow(c: Codec, rows: seq<Row>, e: Event): Row
    requires c.canon(e.raw).Some?
  {
    var tail := Tail(rows);
    var payload := c.canon(e.raw).value;
    Row(e.taskId, e.kind, payload,
        (if tail.Some? then tail.value.seqNo else 0) + 1,
        ChainHash(c, if tail.Some? then Some(tail.value.hash) else None, payload))
  }

  lemma IntactTailIsLast(c: Codec, rows: seq<Row>)
    requires IsIntact(c, rows)
    ensures rows != [] ==> Tail(rows) == Some(rows[|rows| - 1])
    ensures rows != [] ==> ChainOf(c, Canonicals(c, rows)) == Some(rows[|rows| - 1].hash)
  {
    if rows != [] {
      var last := |rows| - 1;
      assert AgreesAt(c, rows, last) && rows[last] in rows;
      assert Canonicals(c, rows)[..|rows|] == Canonicals(c, rows);
      var i: nat :| i < |rows| && rows[i] == Tail(rows).value;
      assert AgreesAt(c, rows, i);
      hide Tail, ChainOf, AgreesAt, Canonicals;
    }
  }

  /** The chain row for payload `p` after the first `k` rows. */
  ghost predicate LinksAfter(c: Codec, rows: seq<Row>, k: nat, row: Row) {
    && Readable(c, rows) && k <= |rows|
    && c.canon(row.payload) == Some(row.payload)
    && row.seqNo == k + 1
    && Some(row.hash) == Some(ChainHash(c, ChainOf(c, Canonicals(c, rows)[..k]), row.payload))
  }

  lemma NextRowLinks(c: Codec, rows: seq<Row>, e: Event)
    requires IsIntact(c, rows) && CanonIdempotent(c) && c.canon(e.raw).Some?
    ensures LinksAfter(c, rows, |rows|, NextRow(c, rows, e))
  {
    IntactTailIsLast(c, rows);
    assert Canonicals(c, rows)[..|rows|] == Canonicals(c, rows);
    if rows != [] {
      assert AgreesAt(c, rows, |rows| - 1);
    }
  }

  /** A row that links to the end extends the chain. */
  lemma LinkedRowKeepsIntact(c: Codec, rows: seq<Row>, row: Row)
    requires IsIntact(c, rows) && LinksAfter(c, rows, |rows|, row)
    ensures IsIntact(c, rows + [row])
  {
    var more := rows + [row];
    var n := |rows|;
    assert Canonicals(c, more) == Canonicals(c, rows) + [row.payload];
    forall i: nat | i < |more|
      ensures AgreesAt(c, more, i)
    {
      if i < n {
        assert AgreesAt(c, rows, i);
        assert Canonicals(c, more)[..i + 1] == Canonicals(c, rows)[..i + 1];
      } else {
        assert Canonicals(c, more)[..n + 1][..n] == Canonicals(c, rows)[..n];
      }
    }
  }

  /** Rows appended later do not disturb where an earlier snapshot links. */
  lemma LinksSurviveAppend(c: Codec, rows: seq<Row>, k: nat, row: Row, added: Row)
    requires LinksAfter(c, rows, k, row) && c.canon(added.payload).Some?
    ensures LinksAfter(c, rows + [added], k, row)
  {
    assert Canonicals(c, rows + [added])[..k] == Canonicals(c, rows)[..k];
  }

  /** In an intact log the `seq` index alone decides: a stale snapshot always loses. */
  lemma StaleSnapshotLoses(c: Codec, rows: seq<Row>, k: nat, row: Row)
    requires IsIntact(c, rows) && LinksAfter(c, rows, k, row) && k < |rows|
    ensures !Unique(rows, row)
  {
    assert AgreesAt(c, rows, k) && rows[k] in rows;
  }

  /** The unique index on `chain_hash` never rejects a fresh row unless two hashed strings collide. */
  lemma FreshHashIsUnique(c: Codec, rows: seq<Row>, row: Row)
    requires HexDigests(c) && IsIntact(c, rows) && LinksAfter(c, rows, |rows|, row)
    requires CollisionFree(c, Hashed(c, Canonicals(c, rows) + [row.payload]))
    ensures Unique(rows, row)
  {
    var ps := Canonicals(c, rows) + [row.payload];
    assert ps[..|rows|] == Canonicals(c, rows)[..|rows|];
    assert ChainOf(c, ps) == Some(row.hash);
    forall i: nat | i < |rows|
      ensures rows[i].hash != row.hash && rows[i].seqNo != row.seqNo
    {
      assert AgreesAt(c, rows, i);
      assert ps[..i + 1] == Canonicals(c, rows)[..i + 1];
      HashedGrows(c, ps, i + 1);
      if rows[i].hash == row.hash {
        ChainIsInjective(c, ps[..i + 1], ps);
      }
    }
  }

  // ---- interleaved writers ----

  datatype Phase =
    | Reading
    | Holding(row: Row)
    | Finished(result: Result<(), LogError>)

  datatype Writer = Writer(event: Event, attempt: nat, phase: Phase)

  predicate ReturnedOk(w: Writer) {
    w.phase.Finished? && w.phase.result.Ok?
  }

  /** `authors[k]` is the writer of row `base + k`, the rows present before the run. */
  datatype State = State(base: nat, rows: seq<Row>, authors: seq<nat>, writers: seq<Writer>, tasks: set<int>)

  datatype Choice = Choice(writer: nat, fails: bool)

  function Advance(s: State, w: nat, writer: Writer): State
    requires w < |s.writers|
  {
    s.(writers := s.writers[w := writer])
  }

  function Commit(s: State, w: nat, row: Row): State
    requires w < |s.writers|
  {
    Advance(s, w, s.writers[w].(phase := Finished(Ok(())))).(rows := s.rows + [row], authors := s.authors + [w])
  }

  /** Writer `w` runs its next statement. */
  function Step(c: Codec, s: State, w: nat, fails: bool): State
    requires w < |s.writers|
  {
    var me := s.writers[w];
    match me.phase
    case Finished(_) => s
    case Reading =>
      if c.canon(me.event.raw).None? then Advance(s, w, me.(phase := Finished(Err(InvalidPayload))))
      else if fails then Advance(s, w, me.(phase := Finished(Err(Sql))))
      else Advance(s, w, me.(phase := Holding(NextRow(c, s.rows, me.event))))
    case Holding(row) =>
      if fails then Advance(s, w, me.(phase := Finished(Err(Sql))))
      else if !Unique(s.rows, row) then
        if me.attempt + 1 < MAX_SEQ_RETRIES then Advance(s, w, me.(attempt := me.attempt + 1, phase := Reading))
        else Advance(s, w, me.(phase := Finished(Err(UniqueViolation))))
      else if me.event.taskId !in s.tasks then Advance(s, w, me.(phase := Finished(Err(ForeignKeyViolation))))
      else Commit(s, w, row)
  }

  function Run(c: Codec, s: State, schedule: seq<Choice>): (t: State)
    ensures |t.writers| == |s.writers| && t.base == s.base
  {
    if schedule == [] then s
    else
      var n := |schedule| - 1;
      var t := Run(c, s, schedule[..n]);
      if schedule[n].writer < |t.writers| then Step(c, t, schedule[n].writer, schedule[n].fails) else t
  }

  ghost predicate Initial(c: Codec, s: State) {
    && IsIntact(c, s.rows) && s.base == |s.rows| && s.authors == []
    && forall w :: 0 <= w < |s.writers| ==> s.writers[w].attempt == 0 && s.writers[w].phase == Reading
  }

  /** A pending insert links to some prefix of the log: the snapshot may be stale, never wrong. */
  ghost predicate WriterInv(c: Codec, s: State, w: nat)
    requires w < |s.writers|
  {
    var me := s.writers[w];
    && me.attempt < MAX_SEQ_RETRIES
    && (me.phase.Reading? ==> w !in s.authors)
    && (me.phase.Holding? ==>
          && w !in s.authors
          && c.canon(me.event.raw) == Some(me.phase.row.payload)
          && me.phase.row.taskId == me.event.taskId && me.phase.row.kind == me.event.kind
          && me.phase.row.seqNo >= 1 && LinksAfter(c, s.rows, me.phase.row.seqNo - 1, me.phase.row))
    && (me.phase.Finished? ==> (me.phase.result.Ok? <==> w in s.authors))
  }

  /** Row `base + k` is the event of its author. */
  ghost predicate RowInv(c: Codec, s: State, k: nat)
    requires k < |s.authors| && s.base + k < |s.rows|
  {
    && s.authors[k] < |s.writers|
    && var e, row := s.writers[s.authors[k]].event, s.rows[s.base + k];
       row.taskId == e.taskId && row.kind == e.kind && c.canon(e.raw) == Some(row.payload) && e.taskId in s.tasks
  }

  ghost predicate Inv(c: Codec, s: State) {
    && IsIntact(c, s.rows) && |s.rows| == s.base + |s.authors|
    && (forall w: nat :: w < |s.writers| ==> WriterInv(c, s, w))
    && (forall k: nat :: k < |s.authors| ==> RowInv(c, s, k))
    && (forall j: nat, k: nat :: j < k < |s.authors| ==> s.authors[j] != s.authors[k])
  }

  lemma CommitKeepsWriters(c: Codec, s: State, w: nat, row: Row)
    requires Inv(c, s) && w < |s.writers| && s.writers[w].phase == Holding(row)
    ensures var t := Commit(s, w, row); forall v: nat :: v < |t.writers| ==> WriterInv(c, t, v)
  {
    assert WriterInv(c, s, w) && c.canon(row.payload).Some?;
    hide IsIntact, LinksAfter, RowInv;
    var t := Commit(s, w, row);
    forall v: nat | v < |t.writers|
      ensures WriterInv(c, t, v)
    {
      assert WriterInv(c, s, v);
      if v != w && s.writers[v].phase.Holding? {
        LinksSurviveAppend(c, s.rows, s.writers[v].phase.row.seqNo - 1, s.writers[v].phase.row, row);
      }
    }
  }

  lemma CommitKeepsAuthors(c: Codec, s: State, w: nat, row: Row)
    requires Inv(c, s) && w < |s.writers| && s.writers[w].phase == Holding(row) && s.writers[w].event.taskId in s.tasks
    ensures var t := Commit(s, w, row);
            && |t.rows| == t.base + |t.authors|
            && (forall k: nat :: k < |t.authors| ==> RowInv(c, t, k))
            && (forall j: nat, k: nat :: j < k < |t.authors| ==> t.authors[j] != t.authors[k])
  {
    assert WriterInv(c, s, w);
    hide IsIntact, LinksAfter, WriterInv;
    var t := Commit(s, w, row);
    forall k: nat | k < |t.authors|
      ensures RowInv(c, t, k)
    {
      if k < |s.authors| {
        assert RowInv(c, s, k);
      }
    }
  }

  lemma CommitKeepsInv(c: Codec, s: State, w: nat, row: Row)
    requires Inv(c, s) && w < |s.writers| && s.writers[w].phase == Holding(row)
    requires Unique(s.rows, row) && s.writers[w].event.taskId in s.tasks
    ensures Inv(c, Commit(s, w, row))
  {
    assert WriterInv(c, s, w);
    CommitKeepsWriters(c, s, w, row);
    CommitKeepsAuthors(c, s, w, row);
    hide WriterInv, RowInv;
    if row.seqNo - 1 < |s.rows| {
      StaleSnapshotLoses(c, s.rows, row.seqNo - 1, row);
    }
    LinkedRowKeepsIntact(c, s.rows, row);
  }

  lemma MoveKeepsInv(c: Codec, s: State, w: nat, me: Writer)
    requires Inv(c, s) && w < |s.writers| && me.event == s.writers[w].event
    requires WriterInv(c, Advance(s, w, me), w)
    ensures Inv(c, Advance(s, w, me))
  {
    hide IsIntact, LinksAfter;
    var t := Advance(s, w, me);
    forall v: nat | v < |t.writers|
      ensures WriterInv(c, t, v)
    {
      assert WriterInv(c, s, v);
    }
    forall k: nat | k < |t.authors|
      ensures RowInv(c, t, k)
    {
      assert RowInv(c, s, k);
    }
  }

  lemma StepKeepsInv(c: Codec, s: State, w: nat, fails: bool)
    requires CanonIdempotent(c) && Inv(c, s) && w < |s.writers|
    ensures Inv(c, Step(c, s, w, fails))
  {
    var me := s.writers[w];
    assert WriterInv(c, s, w);
    if me.phase.Reading? && c.canon(me.event.raw).Some? {
      NextRowLinks(c, s.rows, me.event);
    }
    hide IsIntact, LinksAfter, NextRow, Inv, Unique, RowInv;
    var t := Step(c, s, w, fails);
    if me.phase.Holding? && !fails && Unique(s.rows, me.phase.row) && me.event.taskId in s.tasks {
      CommitKeepsInv(c, s, w, me.phase.row);
    } else if !me.phase.Finished? {
      MoveKeepsInv(c, s, w, t.writers[w]);
    }
  }

  lemma {:induction false} RunKeepsInv(c: Codec, s: State, schedule: seq<Choice>)
    requires CanonIdempotent(c) && Initial(c, s)
    ensures Inv(c, Run(c, s, schedule)) && s.rows <= Run(c, s, schedule).rows
  {
    if schedule == [] {
      assert forall w: nat :: w < |s.writers| ==> WriterInv(c, s, w);
    } else {
      var n := |schedule| - 1;
      RunKeepsInv(c, s, schedule[..n]);
      var t := Run(c, s, schedule[..n]);
      if schedule[n].writer < |t.writers| {
        StepKeepsInv(c, t, schedule[n].writer, schedule[n].fails);
      }
    }
  }

  /** However writers interleave, the log stays a chain, and a writer that returned Ok is the author
      of exactly one row, holding its canonical event; every other writer is the author of none. */
  lemma EveryInterleavingKeepsTheChain(c: Codec, s: State, schedule: seq<Choice>)
    requires CanonIdempotent(c) && Initial(c, s)
    ensures var t := Run(c, s, schedule);
            && Verdict(c, t.rows) == Ok(Intact(|t.rows|))
            && s.rows <= t.rows && |t.rows| == |s.rows| + |t.authors|
            && (forall w: nat :: w < |t.writers| ==>
                  multiset(t.authors)[w] == if ReturnedOk(t.writers[w]) then 1 else 0)
            && (forall k: nat :: k < |t.authors| ==> RowInv(c, t, k))
  {
    var t := Run(c, s, schedule);
    RunKeepsInv(c, s, schedule);
    AuditDecidesIntact(c, t.rows);
    hide IsIntact, LinksAfter, RowInv, Verdict, Run, CanonIdempotent;
    forall w: nat | w < |t.writers|
      ensures multiset(t.authors)[w] == if ReturnedOk(t.writers[w]) then 1 else 0
    {
      AuthorsReturnedOk(c, t, w);
    }
  }

  lemma AuthorsReturnedOk(c: Codec, t: State, w: nat)
    requires Inv(c, t) && w < |t.writers|
    ensures multiset(t.authors)[w] == if ReturnedOk(t.writers[w]) then 1 else 0
  {
    hide IsIntact, LinksAfter, RowInv;
    assert WriterInv(c, t, w);
    DistinctMeansOnce(t.authors, w);
  }

  lemma {:induction false} DistinctMeansOnce(xs: seq<nat>, x: nat)
    requires forall j: nat, k: nat :: j < k < |xs| ==> xs[j] != xs[k]
    ensures multiset(xs)[x] == if x in xs then 1 else 0
  {
    if xs != [] {
      var n := |xs| - 1;
      assert xs == xs[..n] + [xs[n]];
      DistinctMeansOnce(xs[..n], x);
    }
  }

  // ---- how many lost races it takes to give up ----

  /** The string writer `w` hashes when it read the log after `k` rows. */
  ghost function Candidate(c: Codec, s: State, k: nat, w: nat): string
    requires Readable(c, s.rows) && k <= |s.rows| && w < |s.writers| && c.canon(s.writers[w].event.raw).Some?
  {
    Preimage(ChainOf(c, Canonicals(c, s.rows)[..k]), c.canon(s.writers[w].event.raw).value)
  }

  /** The strings hashed by the log and by any writer for any snapshot of it. */
  ghost function Strings(c: Codec, s: State): set<string>
    requires Readable(c, s.rows)
  {
    Hashed(c, Canonicals(c, s.rows)) +
    set k: nat, w: nat | k <= |s.rows| && w < |s.writers| && c.canon(s.writers[w].event.raw).Some?
      :: Candidate(c, s, k, w)
  }

  /** Every lost race is a row somebody else committed meanwhile. */
  predicate PacedAt(s: State, w: nat)
    requires w < |s.writers|
  {
    var me := s.writers[w];
    match me.phase
    case Reading => me.attempt <= |s.authors|
    case Holding(row) => me.attempt < row.seqNo - s.base
    case Finished(r) => r == Err(UniqueViolation) ==> MAX_SEQ_RETRIES <= |s.authors|
  }

  ghost predicate Paced(s: State) {
    forall w: nat :: w < |s.writers| ==> PacedAt(s, w)
  }

  lemma StringsGrow(c: Codec, s: State, t: State)
    requires Readable(c, s.rows) && Readable(c, t.rows) && s.rows <= t.rows && |s.writers| == |t.writers|
    requires forall w :: 0 <= w < |s.writers| ==> t.writers[w].event == s.writers[w].event
    ensures Strings(c, s) <= Strings(c, t)
  {
    var a, b := Canonicals(c, s.rows), Canonicals(c, t.rows);
    assert forall i :: 0 <= i < |a| ==> s.rows[i] == t.rows[i];
    assert b[..|a|] == a;
    HashedGrows(c, b, |a|);
    forall x | x in Strings(c, s)
      ensures x in Strings(c, t)
    {
      if x !in Hashed(c, a) {
        var k: nat, w: nat :| k <= |s.rows| && w < |s.writers| && c.canon(s.writers[w].event.raw).Some?
          && x == Candidate(c, s, k, w);
        assert a[..k] == b[..k];
        assert x == Candidate(c, t, k, w);
      }
    }
  }

  /** A held row is rejected only because the log grew past the snapshot. */
  lemma LostRaceMeansGrowth(c: Codec, s: State, w: nat)
    requires HexDigests(c) && Inv(c, s) && w < |s.writers| && s.writers[w].phase.Holding?
    requires CollisionFree(c, Strings(c, s)) && !Unique(s.rows, s.writers[w].phase.row)
    ensures s.writers[w].phase.row.seqNo <= |s.rows|
  {
    assert WriterInv(c, s, w);
    var row := s.writers[w].phase.row;
    if row.seqNo == |s.rows| + 1 {
      var ps := Canonicals(c, s.rows);
      assert ps[..|s.rows|] == ps;
      assert (ps + [row.payload])[..|s.rows|] == ps;
      assert Preimage(ChainOf(c, ps), row.payload) == Candidate(c, s, |s.rows|, w);
      FreshHashIsUnique(c, s.rows, row);
    }
  }

  lemma OthersKeepPace(c: Codec, s: State, w: nat, fails: bool)
    requires w < |s.writers| && Paced(s)
    ensures var t := Step(c, s, w, fails); forall v: nat :: v < |t.writers| && v != w ==> PacedAt(t, v)
  {
    hide Unique, NextRow;
    var t := Step(c, s, w, fails);
    forall v: nat | v < |t.writers| && v != w
      ensures PacedAt(t, v)
    {
      assert PacedAt(s, v);
    }
  }

  lemma StepKeepsPace(c: Codec, s: State, w: nat, fails: bool)
    requires HexDigests(c) && CanonIdempotent(c) && Inv(c, s) && w < |s.writers|
    requires CollisionFree(c, Strings(c, s)) && Paced(s)
    ensures Paced(Step(c, s, w, fails))
  {
    var me := s.writers[w];
    hide IsIntact, Strings, CollisionFree, HexDigests, CanonIdempotent, RowInv, Unique;
    if me.phase.Reading? && c.canon(me.event.raw).Some? {
      NextRowLinks(c, s.rows, me.event) by { assert Inv(c, s); }
      assert NextRow(c, s.rows, me.event).seqNo == |s.rows| + 1;
    } else if me.phase.Holding? && !Unique(s.rows, me.phase.row) {
      LostRaceMeansGrowth(c, s, w);
    }
    assert |s.rows| == s.base + |s.authors|;
    assert PacedAt(s, w);
    hide NextRow, WriterInv, LinksAfter, Inv;
    assert PacedAt(Step(c, s, w, fails), w);
    OthersKeepPace(c, s, w, fails);
  }

  lemma RunKeepsEvents(c: Codec, s: State, w: nat, fails: bool)
    requires w < |s.writers|
    ensures var t := Step(c, s, w, fails);
            s.rows <= t.rows && forall v :: 0 <= v < |s.writers| ==> t.writers[v].event == s.writers[v].event
  {
  }

  lemma {:induction false} RunKeepsPace(c: Codec, s: State, schedule: seq<Choice>)
    requires HexDigests(c) && CanonIdempotent(c) && Initial(c, s)
    requires Readable(c, Run(c, s, schedule).rows) && CollisionFree(c, Strings(c, Run(c, s, schedule)))
    ensures Paced(Run(c, s, schedule))
  {
    if schedule != [] {
      var n := |schedule| - 1;
      var t := Run(c, s, schedule[..n]);
      RunKeepsInv(c, s, schedule[..n]);
      var w, fails := schedule[n].writer, schedule[n].fails;
      if w < |t.writers| {
        RunKeepsEvents(c, t, w, fails);
        StringsGrow(c, t, Step(c, t, w, fails));
        RunKeepsPace(c, s, schedule[..n]);
        StepKeepsPace(c, t, w, fails);
      } else {
        RunKeepsPace(c, s, schedule[..n]);
      }
    }
  }

  // ---- how a writer ends ----

  /** What the end of a writer says of its event and of the storage failures it met. */
  ghost predicate Deserved(c: Codec, s: State, schedule: seq<Choice>, w: nat)
    requires w < |s.writers|
  {
    var me := s.writers[w];
    match me.phase
    case Reading => true
    case Holding(_) => c.canon(me.event.raw).Some?
    case Finished(r) =>
      && (r == Err(InvalidPayload) <==> c.canon(me.event.raw).None?)
      && (r == Err(ForeignKeyViolation) ==> me.event.taskId !in s.tasks)
      && (r == Ok(()) ==> me.event.taskId in s.tasks)
      && (r == Err(Sql) ==> Choice(w, true) in schedule)
  }

  lemma StepIsDeserved(c: Codec, s: State, schedule: seq<Choice>, step: Choice, w: nat)
    requires w < |s.writers| && step.writer < |s.writers| && Deserved(c, s, schedule, w)
    ensures Deserved(c, Step(c, s, step.writer, step.fails), schedule + [step], w)
  {
    hide NextRow, Unique;
    if w == step.writer && step.fails {
      assert step == Choice(w, true) && step in schedule + [step];
    }
  }

  /** In every run a writer ends in InvalidPayload exactly when its event is no valid JSON, in a foreign key error
      only when its task is missing, and in a storage error only when the schedule gave it one. */
  lemma {:induction false} EndsAreDeserved(c: Codec, s: State, schedule: seq<Choice>, w: nat)
    requires Initial(c, s) && w < |s.writers|
    ensures Deserved(c, Run(c, s, schedule), schedule, w)
  {
    if schedule != [] {
      var n := |schedule| - 1;
      EndsAreDeserved(c, s, schedule[..n], w);
      var t := Run(c, s, schedule[..n]);
      assert schedule == schedule[..n] + [schedule[n]];
      hide Deserved, Step;
      if schedule[n].writer < |t.writers| {
        StepIsDeserved(c, t, schedule[..n], schedule[n], w);
      } else {
        LaterScheduleIsDeserved(c, t, schedule[..n], schedule[n], w);
      }
    }
  }

  lemma LaterScheduleIsDeserved(c: Codec, s: State, schedule: seq<Choice>, step: Choice, w: nat)
    requires w < |s.writers| && Deserved(c, s, schedule, w)
    ensures Deserved(c, s, schedule + [step], w)
  {
  }

  /** A storage failure ends the writer it strikes, and nothing is appended. */
  lemma FailureEndsTheWriter(c: Codec, s: State, w: nat)
    requires w < |s.writers| && !s.writers[w].phase.Finished? && c.canon(s.writers[w].event.raw).Some?
    ensures Step(c, s, w, true) == Advance(s, w, s.writers[w].(phase := Finished(Err(Sql))))
  {
  }

  /** A writer whose read and insert run without a rival between them and without a storage failure lands its
      event: from every reachable state, for a valid event of a known task, unless two hashed strings collide. */
  lemma UndisturbedWriterLands(c: Codec, s: State, w: nat)
    requires HexDigests(c) && CanonIdempotent(c) && Inv(c, s) && CollisionFree(c, Strings(c, s)) && w < |s.writers|
    requires var me := s.writers[w];
             me.phase.Reading? && c.canon(me.event.raw).Some? && me.event.taskId in s.tasks
    ensures var t := Step(c, Step(c, s, w, false), w, false);
            && t.writers[w].phase == Finished(Ok(())) && t.authors == s.authors + [w]
            && t.rows == s.rows + [NextRow(c, s.rows, s.writers[w].event)]
  {
    var held := Step(c, s, w, false);
    StepKeepsInv(c, s, w, false);
    NextRowLinks(c, s.rows, s.writers[w].event);
    RunKeepsEvents(c, s, w, false);
    StringsGrow(c, held, s);
    var row := NextRow(c, s.rows, s.writers[w].event);
    hide Strings, NextRow, Inv, LinksAfter, Readable, IsIntact;
    assert held.writers[w].phase == Holding(row);
    assert CollisionFree(c, Strings(c, held));
    if !Unique(held.rows, row) {
      LostRaceMeansGrowth(c, held, w);
    }
  }

  lemma {:induction false} DistinctBelow(xs: seq<nat>, n: nat)
    requires forall k: nat :: k < |xs| ==> xs[k] < n
    requires forall j: nat, k: nat :: j < k < |xs| ==> xs[j] != xs[k]
    ensures |xs| <= n
  {
    if xs != [] {
      assert xs[0] < n;
      if i: nat :| i < |xs| && xs[i] == n - 1 {
        DistinctBelow(xs[..i] + xs[i + 1..], n - 1);
      } else {
        DistinctBelow(xs, n - 1);
      }
    }
  }

  /** A writer exhausts its retries only after as many rivals, each another writer, committed a row:
      with at most five writers nobody ever gives up. */
  lemma GivingUpTakesFiveRivals(c: Codec, s: State, schedule: seq<Choice>, w: nat)
    requires HexDigests(c) && CanonIdempotent(c) && Initial(c, s)
    requires Readable(c, Run(c, s, schedule).rows) && CollisionFree(c, Strings(c, Run(c, s, schedule)))
    requires w < |s.writers| && Run(c, s, schedule).writers[w].phase == Finished(Err(UniqueViolation))
    ensures |Run(c, s, schedule).rows| >= |s.rows| + MAX_SEQ_RETRIES
    ensures |s.writers| > MAX_SEQ_RETRIES
  {
    hide IsIntact, LinksAfter, Strings, Run, Verdict, Unique, CollisionFree, HexDigests, CanonIdempotent, RowInv;
    var t := Run(c, s, schedule);
    RunKeepsInv(c, s, schedule);
    RunKeepsPace(c, s, schedule);
    assert WriterInv(c, t, w) && PacedAt(t, w);
    AuthorsAreOtherWriters(c, t, w);
  }

  lemma AuthorsAreOtherWriters(c: Codec, t: State, w: nat)
    requires Inv(c, t) && w < |t.writers| && w !in t.authors
    ensures |t.authors| < |t.writers|
  {
    hide IsIntact, LinksAfter, WriterInv;
    var all := t.authors + [w];
    forall k: nat | k < |all|
      ensures all[k] < |t.writers|
    {
      if k < |t.authors| {
        assert RowInv(c, t, k);
      }
    }
    DistinctBelow(all, |t.writers|);
  }

  // ---- the loop of `append_event_on` ----

  /** The log after the events that are valid JSON were appended one after another. */
  function AppendAll(c: Codec, rows: seq<Row>, events: seq<Event>): seq<Row> {
    if events == [] then rows
    else
      var n := |events| - 1;
      var before := AppendAll(c, rows, events[..n]);
      if c.canon(events[n].raw).None? then before else before + [NextRow(c, before, events[n])]
  }

  lemma {:induction false} AppendAllKeepsIntact(c: Codec, rows: seq<Row>, events: seq<Event>)
    requires CanonIdempotent(c) && IsIntact(c, rows)
    ensures IsIntact(c, AppendAll(c, rows, events)) && rows <= AppendAll(c, rows, events)
  {
    if events != [] {
      var n := |events| - 1;
      AppendAllKeepsIntact(c, rows, events[..n]);
      var before := AppendAll(c, rows, events[..n]);
      if c.canon(events[n].raw).Some? {
        NextRowLinks(c, before, events[n]);
        LinkedRowKeepsIntact(c, before, NextRow(c, before, events[n]));
      }
    }
  }

  lemma {:induction false} AppendAllSplits(c: Codec, rows: seq<Row>, a: seq<Event>, b: seq<Event>)
    ensures AppendAll(c, rows, a + b) == AppendAll(c, AppendAll(c, rows, a), b)
  {
    if b == [] {
      assert a + b == a;
    } else {
      var n := |b| - 1;
      assert (a + b)[..|a + b| - 1] == a + b[..n];
      AppendAllSplits(c, rows, a, b[..n]);
    }
  }

  lemma AppendNothing(c: Codec, rows: seq<Row>)
    ensures AppendAll(c, rows, []) == rows
  {
  }

  function Flatten(groups: seq<seq<Event>>): seq<Event> {
    if groups == [] then [] else Flatten(groups[..|groups| - 1]) + groups[|groups| - 1]
  }

  /** Some rival commits a row. */
  ghost predicate Contested(c: Codec, rivals: seq<Event>) {
    exists e :: e in rivals && c.canon(e.raw).Some?
  }

  ghost predicate AllContested(c: Codec, rivals: seq<seq<Event>>, n: nat)
    requires n <= |rivals|
  {
    forall k :: 0 <= k < n ==> Contested(c, rivals[k])
  }

  /** The strings hashed by a log and by a writer of `payload` at any earlier point of it. */
  ghost function Tried(c: Codec, rows: seq<Row>, payload: string): set<string>
    requires Readable(c, rows)
  {
    Hashed(c, Canonicals(c, rows)) +
    set k | 0 <= k <= |rows| :: Preimage(ChainOf(c, Canonicals(c, rows)[..k]), payload)
  }

  lemma TriedGrows(c: Codec, a: seq<Row>, b: seq<Row>, payload: string)
    requires Readable(c, a) && Readable(c, b) && a <= b
    ensures Tried(c, a, payload) <= Tried(c, b, payload)
  {
    var ps, qs := Canonicals(c, a), Canonicals(c, b);
    assert forall i :: 0 <= i < |a| ==> a[i] == b[i];
    assert qs[..|a|] == ps;
    HashedGrows(c, qs, |a|);
    forall x | x in Tried(c, a, payload)
      ensures x in Tried(c, b, payload)
    {
      if x !in Hashed(c, ps) {
        var k :| 0 <= k <= |a| && x == Preimage(ChainOf(c, ps[..k]), payload);
        assert ps[..k] == qs[..k];
      }
    }
  }

  ghost predicate NoCollision(c: Codec, rows: seq<Row>, event: Event) {
    && HexDigests(c) && c.canon(event.raw).Some? && Readable(c, rows)
    && CollisionFree(c, Tried(c, rows, c.canon(event.raw).value))
  }

  lemma EarlierHasNoCollision(c: Codec, a: seq<Row>, b: seq<Row>, event: Event)
    requires Readable(c, a) && a <= b && NoCollision(c, b, event)
    ensures NoCollision(c, a, event)
  {
    TriedGrows(c, a, b, c.canon(event.raw).value);
  }

  /** Unless two hashed strings collide, an attempt is lost only to a rival that committed a row meanwhile. */
  lemma LostAttemptIsContested(c: Codec, rows: seq<Row>, rivals: seq<Event>, event: Event)
    requires CanonIdempotent(c) && IsIntact(c, rows) && NoCollision(c, rows, event)
    requires !Unique(AppendAll(c, rows, rivals), NextRow(c, rows, event))
    ensures Contested(c, rivals)
  {
    var row := NextRow(c, rows, event);
    if !Contested(c, rivals) {
      QuietRivals(c, rows, rivals);
      NextRowLinks(c, rows, event);
      var ps := Canonicals(c, rows);
      assert ps[..|rows|] == ps && (ps + [row.payload])[..|rows|] == ps;
      assert Preimage(ChainOf(c, ps), row.payload) in Tried(c, rows, row.payload);
      FreshHashIsUnique(c, rows, row);
    }
  }

  lemma {:induction false} QuietRivals(c: Codec, rows: seq<Row>, rivals: seq<Event>)
    requires !Contested(c, rivals)
    ensures AppendAll(c, rows, rivals) == rows
  {
    if rivals != [] {
      var n := |rivals| - 1;
      assert forall e :: e in rivals[..n] ==> e in rivals;
      assert rivals[n] in rivals;
      QuietRivals(c, rows, rivals[..n]);
    }
  }

  /** What the storage does to one attempt of the append. */
  datatype Fault = Clean | ReadFails | InsertFails

  class EventStore {
    var rows: seq<Row>
    var tasks: set<int>

    constructor (rows: seq<Row>, tasks: set<int>)
      ensures this.rows == rows && this.tasks == tasks
    {
      this.rows := rows;
      this.tasks := tasks;
    }

    /** Appends `event` while other writers commit `rivals[k]` between the read and the insert of
        attempt `k`, which meets the storage error `faults(k)`. The event lands at most once, behind every
        rival seen; the attempt that lands it met no rival row, and the retries run out only when, collisions
        aside, every attempt met one. A storage error ends the loop at once and is never retried. */
    method AppendEventOn(c: Codec, event: Event, rivals: seq<seq<Event>>, faults: nat -> Fault)
      returns (r: Result<(), LogError>, ghost seen: nat)
      requires CanonIdempotent(c) && IsIntact(c, rows) && |rivals| == MAX_SEQ_RETRIES
      modifies this
      ensures tasks == old(tasks) && IsIntact(c, rows) && seen <= MAX_SEQ_RETRIES
      ensures rows == AppendAll(c, old(rows), Flatten(rivals[..seen]) + (if r.Ok? then [event] else []))
      ensures r.Ok? ==> c.canon(event.raw).Some? && event.taskId in tasks
      ensures r.Ok? ==> seen > 0 && forall e :: e in rivals[seen - 1] ==> c.canon(e.raw).None?
      ensures r == Err(InvalidPayload) <==> c.canon(event.raw).None?
      ensures r == Err(UniqueViolation) ==> seen == MAX_SEQ_RETRIES
      ensures r == Err(UniqueViolation) && NoCollision(c, rows, event) ==> AllContested(c, rivals, MAX_SEQ_RETRIES)
      ensures r == Err(ForeignKeyViolation) ==> event.taskId !in tasks
      ensures r == Err(Sql) ==> (seen < MAX_SEQ_RETRIES && faults(seen).ReadFails?) || (seen > 0 && faults(seen - 1).InsertFails?)
      ensures r != Err(Sql) ==> forall k: nat :: k < seen ==> faults(k).Clean?
    {
      hide AppendAll, IsIntact, Unique, NextRow, CanonIdempotent, NoCollision, Contested;
      seen := 0;
      assert AppendAll(c, rows, []) == rows by { AppendNothing(c, rows); }
      assert Flatten(rivals[..0]) + [] == [];
      if c.canon(event.raw).None? {
        return Err(InvalidPayload), 0;
      }
      for attempt := 0 to MAX_SEQ_RETRIES
        invariant tasks == old(tasks) && seen == attempt && IsIntact(c, rows)
        invariant rows == AppendAll(c, old(rows), Flatten(rivals[..attempt]) + [])
        invariant NoCollision(c, rows, event) ==> AllContested(c, rivals, attempt)
        invariant forall k: nat :: k < attempt ==> faults(k).Clean?
      {
        if faults(attempt).ReadFails? {
          return Err(Sql), seen;
        }
        var row := NextRow(c, rows, event);
        ghost var read := rows;
        OneAttempt(c, old(rows), rivals, attempt, rows, event);
        rows := AppendAll(c, rows, rivals[attempt]);
        seen := attempt + 1;
        if faults(attempt).InsertFails? {
          return Err(Sql), seen;
        }
        if NoCollision(c, rows, event) && !Unique(rows, row) {
          AppendAllKeepsIntact(c, read, rivals[attempt]);
          IntactIsReadable(c, read);
          EarlierHasNoCollision(c, read, rows, event);
          LostAttemptIsContested(c, read, rivals[attempt], event);
        }
        if Unique(rows, row) {
          if event.taskId !in tasks {
            return Err(ForeignKeyViolation), seen;
          }
          rows := rows + [row];
          return Ok(()), seen;
        }
        if attempt + 1 == MAX_SEQ_RETRIES {
          return Err(UniqueViolation), seen;
        }
      }
      r := Err(UniqueViolation);
    }
  }

  lemma IntactIsReadable(c: Codec, rows: seq<Row>)
    requires IsIntact(c, rows)
    ensures Readable(c, rows)
  {
  }

  /** One attempt: rivals commit after the read; the held row then fits only if none did. */
  lemma OneAttempt(c: Codec, start: seq<Row>, rivals: seq<seq<Event>>, k: nat, rows: seq<Row>, event: Event)
    requires CanonIdempotent(c) && k < |rivals| && IsIntact(c, rows) && c.canon(event.raw).Some?
    requires rows == AppendAll(c, start, Flatten(rivals[..k]) + [])
    ensures var after := AppendAll(c, rows, rivals[k]);
            var row := NextRow(c, rows, event);
            && IsIntact(c, after) && after == AppendAll(c, start, Flatten(rivals[..k + 1]) + [])
            && (Unique(after, row) ==>
                  && (forall e :: e in rivals[k] ==> c.canon(e.raw).None?)
                  && IsIntact(c, after + [row])
                  && after + [row] == AppendAll(c, start, Flatten(rivals[..k + 1]) + [event]))
  {
    var after := AppendAll(c, rows, rivals[k]);
    var row := NextRow(c, rows, event);
    var seen := Flatten(rivals[..k + 1]);
    assert rivals[..k + 1][..k] == rivals[..k];
    assert Flatten(rivals[..k]) + [] == Flatten(rivals[..k]) && seen + [] == seen;
    AppendAllSplits(c, start, Flatten(rivals[..k]), rivals[k]);
    AppendAllKeepsIntact(c, rows, rivals[k]);
    NextRowLinks(c, rows, event);
    if Unique(after, row) {
      if after != rows {
        LinksSurvive(c, rows, after, row);
        StaleSnapshotLoses(c, after, |rows|, row);
      }
      NothingAppended(c, rows, rivals[k]);
      LinkedRowKeepsIntact(c, rows, row);
      assert (seen + [event])[..|seen|] == seen;
    }
  }

  lemma LinksSurvive(c: Codec, before: seq<Row>, rows: seq<Row>, row: Row)
    requires LinksAfter(c, before, |before|, row) && before <= rows && IsIntact(c, rows)
    ensures LinksAfter(c, rows, |before|, row)
  {
    assert forall i :: 0 <= i < |before| ==> before[i] == rows[i];
    assert Canonicals(c, rows)[..|before|] == Canonicals(c, before)[..|before|];
  }

  /** Only events that are no valid JSON leave the log as it was. */
  lemma {:induction false} NothingAppended(c: Codec, rows: seq<Row>, events: seq<Event>)
    ensures |AppendAll(c, rows, events)| >= |rows|
    ensures AppendAll(c, rows, events) == rows ==> forall e :: e in events ==> c.canon(e.raw).None?
  {
    if events != [] {
      NothingAppended(c, rows, events[..|events| - 1]);
      assert events == events[..|events| - 1] + [events[|events| - 1]];
    }
  }
}
