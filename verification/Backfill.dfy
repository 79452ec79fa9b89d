/** Migration 10: numbering and chaining the event rows written before the chain existed. */
module Backfill {
  import opened Wrappers
  import opened EventLog
  import opened EventWriters

  /** A row while `seq` and `chain_hash` are still nullable; tables list rows in primary-key order. */
  datatype LegacyRow = LegacyRow(taskId: int, kind: string, payload: string, seqNo: Option<int>, hash: Option<string>)

  /** Where the chain stands: the last number given out and its hash. */
  datatype ChainEnd = ChainEnd(seqNo: int, hash: Option<string>)

  /** The row with the highest `seq` among the rows that have one. */
  function TopRow(rows: seq<LegacyRow>): (t: Option<LegacyRow>)
    ensures t.Some? ==> t.value.seqNo.Some?
    ensures forall r :: r in rows && r.seqNo.Some? ==> t.Some? && r.seqNo.value <= t.value.seqNo.value
  {
    if rows == [] then None
    else
      var n := |rows| - 1;
      var t := TopRow(rows[..n]);
      assert rows == rows[..n] + [rows[n]];
      if rows[n].seqNo.Some? && (t.None? || rows[n].seqNo.value > t.value.seqNo.value) then Some(rows[n]) else t
  }

  /** `SELECT seq, chain_hash ... WHERE seq IS NOT NULL ORDER BY seq DESC LIMIT 1`. */
  function EndOf(rows: seq<LegacyRow>): ChainEnd {
    var t := TopRow(rows);
    if t.None? then ChainEnd(0, None) else ChainEnd(t.value.seqNo.value, t.value.hash)
  }

  /** Every row still to be chained can be canonicalised. */
  predicate Fillable(c: Codec, rows: seq<LegacyRow>) {
    forall i :: 0 <= i < |rows| && rows[i].seqNo.None? ==> c.canon(rows[i].payload).Some?
  }

  function Chained(c: Codec, row: LegacyRow, e: ChainEnd): LegacyRow
    requires c.canon(row.payload).Some?
  {
    var p := c.canon(row.payload).value;
    row.(payload := p, seqNo := Some(e.seqNo + 1), hash := Some(ChainHash(c, e.hash, p)))
  }

  /** The rows with every unchained one chained on from `e`, and where that leaves the chain. */
  function Fill(c: Codec, rows: seq<LegacyRow>, e: ChainEnd): (f: (seq<LegacyRow>, ChainEnd))
    requires Fillable(c, rows)
    ensures |f.0| == |rows|
  {
    if rows == [] then ([], e)
    else
      var n := |rows| - 1;
      var (done, at) := Fill(c, rows[..n], e);
      if rows[n].seqNo.Some? then (done + [rows[n]], at)
      else
        var row := Chained(c, rows[n], at);
        (done + [row], ChainEnd(at.seqNo + 1, row.hash))
  }

  class EventTable {
    var rows: seq<LegacyRow>

    /** One transaction: either every unchained row is chained, in key order, or nothing changes. */
    method BackfillWorkflowEventChain(c: Codec) returns (r: Result<(), LogError>)
      modifies this
      ensures r.Ok? <==> Fillable(c, old(rows))
      ensures r.Ok? ==> rows == Fill(c, old(rows), EndOf(old(rows))).0
      ensures r.Err? ==> rows == old(rows)
    {
      var before := rows;
      var at := EndOf(rows);
      var i := 0;
      hide Fillable, EndOf, Chained;
      assert Fillable(c, before[..0]) by { FillableNone(c); }
      while i < |rows|
        invariant 0 <= i <= |rows| == |before|
        invariant Fillable(c, before[..i])
        invariant (rows[..i], at) == Fill(c, before[..i], EndOf(before)) && rows[i..] == before[i..]
      {
        assert before[..i + 1][..i] == before[..i] && before[i..][0] == rows[i..][0];
        FillableStep(c, before, i);
        ghost var rest := rows[i..];
        if rows[i].seqNo.None? {
          if c.canon(rows[i].payload).None? {
            rows := before;
            return Err(InvalidPayload);
          }
          var row := Chained(c, rows[i], at);
          rows := rows[i := row];
          at := ChainEnd(at.seqNo + 1, row.hash);
        }
        assert rows[..i + 1] == rows[..i] + [rows[i]];
        assert rows[i + 1..] == rest[1..] && before[i + 1..] == before[i..][1..];
        i := i + 1;
      }
      assert rows[..i] == rows && before[..i] == before;
      r := Ok(());
    }
  }

  lemma FillableNone(c: Codec)
    ensures Fillable(c, [])
  {
  }

  lemma FillableStep(c: Codec, rows: seq<LegacyRow>, i: nat)
    requires i < |rows|
    ensures Fillable(c, rows[..i + 1]) <==>
              (Fillable(c, rows[..i]) && (rows[i].seqNo.None? ==> c.canon(rows[i].payload).Some?))
    ensures Fillable(c, rows) ==> Fillable(c, rows[..i + 1])
  {
    assert forall j :: 0 <= j < i ==> rows[..i][j] == rows[j] == rows[..i + 1][j];
  }

  // ---- the audit after the migration ----

  predicate FullyChained(rows: seq<LegacyRow>) {
    forall i :: 0 <= i < |rows| ==> rows[i].seqNo.Some? && rows[i].hash.Some?
  }

  /** The rows as migration 11 copies them into the hardened table. */
  function Harden(rows: seq<LegacyRow>): (hard: seq<Row>)
    requires FullyChained(rows)
    ensures |hard| == |rows|
  {
    seq(|rows|, i requires 0 <= i < |rows| =>
      Row(rows[i].taskId, rows[i].kind, rows[i].payload, rows[i].seqNo.value, rows[i].hash.value))
  }

  /** How many of the rows have no `seq`. */
  function Unchained(rows: seq<LegacyRow>): nat {
    if rows == [] then 0
    else Unchained(rows[..|rows| - 1]) + if rows[|rows| - 1].seqNo.None? then 1 else 0
  }

  /** Filling touches exactly the rows without a `seq`: each keeps its task and kind, gets the canonical form of its
      payload, and is numbered on from the chain in key order. */
  lemma {:induction false} FillShape(c: Codec, rows: seq<LegacyRow>, e: ChainEnd)
    requires Fillable(c, rows)
    ensures Fill(c, rows, e).1.seqNo == e.seqNo + Unchained(rows)
    ensures forall i :: 0 <= i < |rows| ==>
              var f := Fill(c, rows, e).0[i];
              if rows[i].seqNo.Some? then f == rows[i]
              else && f.taskId == rows[i].taskId && f.kind == rows[i].kind && Some(f.payload) == c.canon(rows[i].payload)
                   && f.hash.Some? && f.seqNo == Some(e.seqNo + 1 + Unchained(rows[..i]))
  {
    if rows != [] {
      var n := |rows| - 1;
      FillShape(c, rows[..n], e);
      assert forall i :: 0 <= i < n ==> rows[..n][..i] == rows[..i];
    }
  }

  /** Chaining unchained rows onto an intact log gives an intact log. */
  lemma {:induction false} FillExtendsTheChain(c: Codec, log: seq<Row>, rest: seq<LegacyRow>)
    requires CanonIdempotent(c) && IsIntact(c, log) && Fillable(c, rest)
    requires forall i :: 0 <= i < |rest| ==> rest[i].seqNo.None?
    ensures var (filled, at) := Fill(c, rest, ChainEnd(|log|, ChainOf(c, Canonicals(c, log))));
            && FullyChained(filled) && IsIntact(c, log + Harden(filled))
            && at == ChainEnd(|log| + |rest|, ChainOf(c, Canonicals(c, log + Harden(filled))))
  {
    var e := ChainEnd(|log|, ChainOf(c, Canonicals(c, log)));
    if rest == [] {
      assert log + Harden([]) == log;
    } else {
      var n := |rest| - 1;
      FillExtendsTheChain(c, log, rest[..n]);
      var (done, at) := Fill(c, rest[..n], e);
      var so := log + Harden(done);
      var row := Chained(c, rest[n], at);
      var hard := Harden([row])[0];
      assert Canonicals(c, so)[..|so|] == Canonicals(c, so);
      assert log + Harden(done + [row]) == so + [hard];
      LinkedRowKeepsIntact(c, so, hard);
      OneMoreCanonical(c, so, hard);
      hide IsIntact, LinksAfter, Canonicals;
    }
  }

  lemma OneMoreCanonical(c: Codec, rows: seq<Row>, row: Row)
    requires Readable(c, rows) && Readable(c, rows + [row]) && c.canon(row.payload) == Some(row.payload)
    ensures Canonicals(c, rows + [row]) == Canonicals(c, rows) + [row.payload]
    ensures ChainOf(c, Canonicals(c, rows + [row])) == Some(ChainHash(c, ChainOf(c, Canonicals(c, rows)), row.payload))
  {
    var ps := Canonicals(c, rows);
    assert forall i :: 0 <= i < |rows| ==> (rows + [row])[i] == rows[i];
    assert Canonicals(c, rows + [row]) == ps + [row.payload];
    assert (ps + [row.payload])[..|ps|] == ps;
  }

  /** The chained rows come first, and they are a chain. */
  ghost predicate ChainThenRest(c: Codec, rows: seq<LegacyRow>, k: nat) {
    && k <= |rows| && FullyChained(rows[..k]) && IsIntact(c, Harden(rows[..k]))
    && forall i :: k <= i < |rows| ==> rows[i].seqNo.None?
  }

  lemma {:induction false} EndOfChain(c: Codec, rows: seq<LegacyRow>, k: nat)
    requires ChainThenRest(c, rows, k)
    ensures EndOf(rows) == ChainEnd(k, ChainOf(c, Canonicals(c, Harden(rows[..k]))))
  {
    var hard := Harden(rows[..k]);
    if k == 0 {
      assert forall r :: r in rows ==> r.seqNo.None?;
      NoTopRow(rows);
    } else {
      assert Canonicals(c, hard)[..k] == Canonicals(c, hard);
      assert AgreesAt(c, hard, k - 1);
      forall i | 0 <= i < k
        ensures rows[i].seqNo == Some(i + 1)
      {
        assert AgreesAt(c, hard, i) && rows[..k][i] == rows[i];
      }
      TopRowIs(rows, k - 1);
    }
  }

  lemma {:induction false} NoTopRow(rows: seq<LegacyRow>)
    requires forall r :: r in rows ==> r.seqNo.None?
    ensures TopRow(rows).None?
  {
    if rows != [] {
      NoTopRow(rows[..|rows| - 1]);
    }
  }

  lemma {:induction false} TopRowIs(rows: seq<LegacyRow>, top: nat)
    requires top < |rows| && rows[top].seqNo.Some?
    requires forall i :: 0 <= i < |rows| && i != top && rows[i].seqNo.Some? ==> rows[i].seqNo.value < rows[top].seqNo.value
    ensures TopRow(rows) == Some(rows[top])
  {
    var n := |rows| - 1;
    if top < n {
      TopRowIs(rows[..n], top);
    } else {
      TopRowIn(rows[..n]);
    }
  }

  lemma {:induction false} TopRowIn(rows: seq<LegacyRow>)
    ensures TopRow(rows).Some? ==> TopRow(rows).value in rows
  {
    if rows != [] {
      TopRowIn(rows[..|rows| - 1]);
    }
  }

  lemma PrefixOfIntact(c: Codec, rows: seq<Row>, n: nat)
    requires IsIntact(c, rows) && n <= |rows|
    ensures IsIntact(c, rows[..n])
  {
    assert Canonicals(c, rows[..n]) == Canonicals(c, rows)[..n];
    forall i: nat | i < n
      ensures AgreesAt(c, rows[..n], i)
    {
      assert AgreesAt(c, rows, i);
      assert Canonicals(c, rows)[..n][..i + 1] == Canonicals(c, rows)[..i + 1];
    }
  }

  /** Rows that carry a `seq` also carry a hash, as every writer left them. */
  predicate WellFormed(rows: seq<LegacyRow>) {
    forall i :: 0 <= i < |rows| && rows[i].seqNo.Some? ==> rows[i].hash.Some?
  }

  lemma FillIsFullyChained(c: Codec, rows: seq<LegacyRow>, e: ChainEnd)
    requires Fillable(c, rows) && WellFormed(rows)
    ensures FullyChained(Fill(c, rows, e).0)
  {
    FillShape(c, rows, e);
  }

  /** After the backfill the auditor accepts the log exactly when the rows that already carried a `seq`
      were a chain and came before all the others. */
  lemma BackfilledLogIsIntact(c: Codec, rows: seq<LegacyRow>)
    requires CanonIdempotent(c) && Fillable(c, rows) && WellFormed(rows)
    ensures var filled := Fill(c, rows, EndOf(rows)).0;
            && FullyChained(filled)
            && (Verdict(c, Harden(filled)) == Ok(Intact(|rows|)) <==> exists k: nat :: ChainThenRest(c, rows, k))
  {
    var filled := Fill(c, rows, EndOf(rows)).0;
    FillIsFullyChained(c, rows, EndOf(rows));
    AuditDecidesIntact(c, Harden(filled));
    if k: nat :| ChainThenRest(c, rows, k) {
      ChainThenRestIsIntact(c, rows, k);
    }
    if IsIntact(c, Harden(filled)) {
      var k := IntactMeansChainFirst(c, rows);
    }
  }

  /** A chained prefix is left as it was and everything behind it is chained on. */
  lemma ChainThenRestIsIntact(c: Codec, rows: seq<LegacyRow>, k: nat)
    requires CanonIdempotent(c) && Fillable(c, rows) && ChainThenRest(c, rows, k)
    ensures var filled := Fill(c, rows, EndOf(rows)).0;
            FullyChained(filled) && IsIntact(c, Harden(filled)) && filled[..k] == rows[..k]
  {
    hide IsIntact, Fillable, Fill, Harden, EndOf, Canonicals, ChainOf;
    assert FullyChained(rows[..k]) && IsIntact(c, Harden(rows[..k]));
    assert forall i :: 0 <= i < |rows| - k ==> rows[k..][i] == rows[k + i];
    EndOfChain(c, rows, k);
    hide ChainThenRest, FullyChained, CanonIdempotent;
    var e := EndOf(rows);
    var a, b := rows[..k], rows[k..];
    assert rows == a + b;
    FillSplits(c, a, b, e);
    FillExtendsTheChain(c, Harden(a), b);
    HardenSplits(a, Fill(c, b, e).0);
  }

  lemma HardenSplits(a: seq<LegacyRow>, b: seq<LegacyRow>)
    requires FullyChained(a) && FullyChained(b)
    ensures FullyChained(a + b) && Harden(a + b) == Harden(a) + Harden(b)
  {
  }

  lemma {:induction false} FillSplits(c: Codec, a: seq<LegacyRow>, b: seq<LegacyRow>, e: ChainEnd)
    requires Fillable(c, a + b) && forall i :: 0 <= i < |a| ==> a[i].seqNo.Some?
    ensures Fillable(c, b) && Fill(c, a + b, e) == (a + Fill(c, b, e).0, Fill(c, b, e).1)
  {
    hide Chained;
    assert forall i :: 0 <= i < |b| ==> (a + b)[|a| + i] == b[i];
    if b == [] {
      assert a + b == a;
      NothingToFill(c, a, e);
    } else {
      var k := |b| - 1;
      assert (a + b)[..|a + b| - 1] == a + b[..k];
      FillSplits(c, a, b[..k], e);
      var done, last := Fill(c, b[..k], e).0, Fill(c, b, e).0[k];
      assert a + (done + [last]) == (a + done) + [last];
    }
  }

  lemma {:induction false} NothingToFill(c: Codec, rows: seq<LegacyRow>, e: ChainEnd)
    requires Fillable(c, rows) && forall i :: 0 <= i < |rows| ==> rows[i].seqNo.Some?
    ensures Fill(c, rows, e) == (rows, e)
  {
    if rows != [] {
      var n := |rows| - 1;
      NothingToFill(c, rows[..n], e);
      assert rows == rows[..n] + [rows[n]];
    }
  }

  lemma IntactMeansChainFirst(c: Codec, rows: seq<LegacyRow>) returns (k: nat)
    requires Fillable(c, rows) && WellFormed(rows)
    requires FullyChained(Fill(c, rows, EndOf(rows)).0) && IsIntact(c, Harden(Fill(c, rows, EndOf(rows)).0))
    ensures ChainThenRest(c, rows, k)
  {
    var e := EndOf(rows);
    var filled := Fill(c, rows, e).0;
    var hard := Harden(filled);
    FillShape(c, rows, e);
    k := 0;
    while k < |rows| && rows[k].seqNo.Some?
      invariant k <= |rows| && forall i :: 0 <= i < k ==> rows[i].seqNo.Some?
    {
      k := k + 1;
    }
    forall i | k <= i < |rows|
      ensures rows[i].seqNo.None?
    {
      assert AgreesAt(c, hard, k) && AgreesAt(c, hard, i);
      assert rows[i] in rows;
    }
    assert rows[..k] == filled[..k];
    PrefixOfIntact(c, hard, k);
    assert Harden(rows[..k]) == hard[..k];
  }
}
