/** The append-only workflow event log: its hash chain, the auditor, and its writers.

  SHA-256 and JSON canonicalisation are parameters (`Codec`). Nothing is assumed of the
  hash beyond the alphabet of its hex digests, except where a lemma is about detecting
  tampering: there it has no collision among the finitely many strings hashed in the
  logs at hand.
*/
module EventLog {
  import opened Wrappers

  /** `sha` is the hex digest; `canon` is the canonical form of a payload that is valid JSON. */
  datatype Codec = Codec(sha: string -> string, canon: string -> Option<string>)

  /** One row of `workflow_events`; the log lists rows in primary-key order. */
  datatype Row = Row(taskId: int, kind: string, payload: string, seqNo: int, hash: string)

  datatype LogError =
    | InvalidPayload
    | UniqueViolation
    | ForeignKeyViolation
    | Sql

  const GENESIS := "GENESIS"
  const MAX_SEQ_RETRIES := 5

  /** Hex digests contain no separator and are never the sentinel. */
  ghost predicate HexDigests(c: Codec) {
    forall s :: '|' !in c.sha(s) && c.sha(s) != GENESIS
  }

  /** A canonical payload is its own canonical form. */
  ghost predicate CanonIdempotent(c: Codec) {
    forall s :: c.canon(s).Some? ==> c.canon(c.canon(s).value) == c.canon(s)
  }

  ghost predicate CollisionFree(c: Codec, hashed: set<string>) {
    forall x, y :: x in hashed && y in hashed && c.sha(x) == c.sha(y) ==> x == y
  }

  /** The string that `chain_hash` digests. */
  function Preimage(prev: Option<string>, payload: string): string {
    (if prev.Some? then prev.value else GENESIS) + "|" + payload
  }

  function ChainHash(c: Codec, prev: Option<string>, payload: string): string {
    c.sha(Preimage(prev, payload))
  }

  // ---- the chain ----

  /** Every payload can be canonicalised; otherwise listing the log is an error. */
  predicate Readable(c: Codec, rows: seq<Row>) {
    forall i :: 0 <= i < |rows| ==> c.canon(rows[i].payload).Some?
  }

  /** The canonical payloads of the log. */
  function Canonicals(c: Codec, rows: seq<Row>): (ps: seq<string>)
    requires Readable(c, rows)
    ensures |ps| == |rows| && forall i :: 0 <= i < |rows| ==> c.canon(rows[i].payload) == Some(ps[i])
  {
    seq(|rows|, i requires 0 <= i < |rows| => c.canon(rows[i].payload).value)
  }

  /** The chain value after hashing `payloads` in order; `None` is the genesis state. */
  function ChainOf(c: Codec, payloads: seq<string>): (h: Option<string>)
    ensures h.None? <==> payloads == []
  {
    if payloads == [] then None
    else
      var n := |payloads| - 1;
      Some(ChainHash(c, ChainOf(c, payloads[..n]), payloads[n]))
  }

  /** Row `i` carries its position and the chain value of the payloads up to it. */
  predicate AgreesAt(c: Codec, rows: seq<Row>, i: nat)
    requires Readable(c, rows) && i < |rows|
  {
    rows[i].seqNo == i + 1 && ChainOf(c, Canonicals(c, rows)[..i + 1]) == Some(rows[i].hash)
  }

  ghost predicate IsIntact(c: Codec, rows: seq<Row>) {
    Readable(c, rows) && forall i: nat :: i < |rows| ==> AgreesAt(c, rows, i)
  }

  /** The strings digested while chaining `payloads`. */
  ghost function Hashed(c: Codec, payloads: seq<string>): set<string> {
    if payloads == [] then {}
    else
      var n := |payloads| - 1;
      Hashed(c, payloads[..n]) + {Preimage(ChainOf(c, payloads[..n]), payloads[n])}
  }

  // ---- the auditor ----

  datatype ChainReport = Intact(count: int) | Tampered(seqNo: int)

  /** First position from `i` on that disagrees with the chain, or the length of the log. */
  function FirstBad(c: Codec, rows: seq<Row>, i: nat): (k: nat)
    requires Readable(c, rows) && i <= |rows|
    ensures i <= k <= |rows|
    ensures forall j: nat :: i <= j < k ==> AgreesAt(c, rows, j)
    ensures k < |rows| ==> !AgreesAt(c, rows, k)
    decreases |rows| - i
  {
    if i == |rows| || !AgreesAt(c, rows, i) then i else FirstBad(c, rows, i + 1)
  }

  function Verdict(c: Codec, rows: seq<Row>): Result<ChainReport, LogError> {
    if !Readable(c, rows) then Err(InvalidPayload)
    else
      var k := FirstBad(c, rows, 0);
      Ok(if k == |rows| then Intact(k) else Tampered(rows[k].seqNo))
  }

  /** The report names the first row that disagrees. */
  lemma ReportsFirstBad(c: Codec, rows: seq<Row>, k: nat)
    requires Readable(c, rows) && k < |rows|
    requires (forall j: nat :: j < k ==> AgreesAt(c, rows, j)) && !AgreesAt(c, rows, k)
    ensures Verdict(c, rows) == Ok(Tampered(rows[k].seqNo))
  {
    hide AgreesAt;
    assert FirstBad(c, rows, 0) == k;
  }

  /** The loop of `audit_chain` over the listed rows. */
  method AuditChain(c: Codec, rows: seq<Row>) returns (r: Result<ChainReport, LogError>)
    ensures r == Verdict(c, rows)
  {
    if !Readable(c, rows) {
      return Err(InvalidPayload);
    }
    var prev: Option<string> := None;
    var seqExpected := 1;
    var canonicals := Canonicals(c, rows);
    for i := 0 to |rows|
      invariant seqExpected == i + 1
      invariant prev == ChainOf(c, canonicals[..i])
      invariant FirstBad(c, rows, 0) == FirstBad(c, rows, i)
    {
      assert canonicals[..i + 1][..i] == canonicals[..i];
      var expected := ChainHash(c, prev, canonicals[i]);
      if rows[i].seqNo != seqExpected || rows[i].hash != expected {
        return Ok(Tampered(rows[i].seqNo));
      }
      prev := Some(expected);
      seqExpected := seqExpected + 1;
    }
    r := Ok(Intact(seqExpected - 1));
  }

  /** The auditor accepts exactly the logs whose every row carries its position and its chain hash. */
  lemma AuditDecidesIntact(c: Codec, rows: seq<Row>)
    ensures Verdict(c, rows) == Ok(Intact(|rows|)) <==> IsIntact(c, rows)
    ensures Verdict(c, rows).Ok? && Verdict(c, rows).value.Intact? ==> IsIntact(c, rows)
  {
  }

  // ---- tamper evidence ----

  lemma SplitAtSeparator(a: string, x: string, b: string, y: string)
    requires '|' !in a && '|' !in b && a + "|" + x == b + "|" + y
    ensures a == b && x == y
  {
    var s := a + "|" + x;
    assert s[|a|] == '|' && s[|b|] == '|';
    assert s[..|a|] == a && s[..|b|] == b;
    assert forall k :: 0 <= k < |a| ==> s[k] in a;
    assert forall k :: 0 <= k < |b| ==> s[k] in b;
    assert x == s[|a| + 1..] && y == s[|b| + 1..];
  }

  ghost predicate IsDigest(c: Codec, h: Option<string>) {
    h.None? || exists s :: h.value == c.sha(s)
  }

  lemma ChainIsADigest(c: Codec, payloads: seq<string>)
    ensures IsDigest(c, ChainOf(c, payloads))
  {
    if payloads != [] {
      var n := |payloads| - 1;
      assert ChainOf(c, payloads).value == c.sha(Preimage(ChainOf(c, payloads[..n]), payloads[n]));
    }
  }

  /** A preimage determines the previous hash and the payload. */
  lemma PreimageIsInjective(c: Codec, p: Option<string>, x: string, q: Option<string>, y: string)
    requires HexDigests(c) && IsDigest(c, p) && IsDigest(c, q)
    requires Preimage(p, x) == Preimage(q, y)
    ensures p == q && x == y
  {
    var a := if p.Some? then p.value else GENESIS;
    var b := if q.Some? then q.value else GENESIS;
    assert '|' !in a && '|' !in b;
    SplitAtSeparator(a, x, b, y);
  }

  /** Equal chain values come from equal histories, or two strings hashed on the way collide. */
  lemma {:induction false} ChainIsInjective(c: Codec, a: seq<string>, b: seq<string>)
    requires HexDigests(c) && CollisionFree(c, Hashed(c, a) + Hashed(c, b))
    requires ChainOf(c, a) == ChainOf(c, b)
    ensures a == b
  {
    if a != [] {
      var n, m := |a| - 1, |b| - 1;
      var p, q := ChainOf(c, a[..n]), ChainOf(c, b[..m]);
      assert Preimage(p, a[n]) in Hashed(c, a) && Preimage(q, b[m]) in Hashed(c, b);
      ChainIsADigest(c, a[..n]);
      ChainIsADigest(c, b[..m]);
      PreimageIsInjective(c, p, a[n], q, b[m]);
      ChainIsInjective(c, a[..n], b[..m]);
      assert a == a[..n] + [a[n]] && b == b[..m] + [b[m]];
    }
  }

  lemma {:induction false} HashedGrows(c: Codec, payloads: seq<string>, n: nat)
    requires n <= |payloads|
    ensures Hashed(c, payloads[..n]) <= Hashed(c, payloads)
  {
    if n < |payloads| {
      HashedGrows(c, payloads[..|payloads| - 1], n);
      assert payloads[..|payloads| - 1][..n] == payloads[..n];
    } else {
      assert payloads[..n] == payloads;
    }
  }

  /** No two logs share a chain value at different payload histories. */
  lemma PrefixChainsDiffer(c: Codec, a: seq<string>, b: seq<string>, n: nat)
    requires HexDigests(c) && CollisionFree(c, Hashed(c, a) + Hashed(c, b))
    requires n <= |a| && n <= |b| && a[..n] != b[..n]
    ensures ChainOf(c, a[..n]) != ChainOf(c, b[..n])
  {
    HashedGrows(c, a, n);
    HashedGrows(c, b, n);
    if ChainOf(c, a[..n]) == ChainOf(c, b[..n]) {
      ChainIsInjective(c, a[..n], b[..n]);
    }
  }

  /** Two intact logs that end in the same hash hold the same canonical payloads. */
  lemma LastHashPinsTheLog(c: Codec, a: seq<Row>, b: seq<Row>)
    requires HexDigests(c) && IsIntact(c, a) && IsIntact(c, b) && a != [] && b != []
    requires CollisionFree(c, Hashed(c, Canonicals(c, a)) + Hashed(c, Canonicals(c, b)))
    requires a[|a| - 1].hash == b[|b| - 1].hash
    ensures Canonicals(c, a) == Canonicals(c, b)
  {
    assert AgreesAt(c, a, |a| - 1) && AgreesAt(c, b, |b| - 1);
    assert Canonicals(c, a)[..|a|] == Canonicals(c, a) && Canonicals(c, b)[..|b|] == Canonicals(c, b);
    ChainIsInjective(c, Canonicals(c, a), Canonicals(c, b));
  }

  /** The audit of a log that starts as an intact one gets at least as far as the common prefix. */
  lemma PrefixStaysGood(c: Codec, rows: seq<Row>, other: seq<Row>, n: nat)
    requires IsIntact(c, rows) && Readable(c, other) && n <= |rows| && n <= |other|
    requires rows[..n] == other[..n]
    ensures Canonicals(c, rows)[..n] == Canonicals(c, other)[..n]
    ensures forall j: nat :: j < n ==> AgreesAt(c, other, j)
  {
    assert forall j: nat :: j < n ==> rows[..n][j] == other[..n][j];
    assert Canonicals(c, rows)[..n] == Canonicals(c, other)[..n];
    forall j: nat | j < n
      ensures AgreesAt(c, other, j)
    {
      assert AgreesAt(c, rows, j) && rows[j] == other[j];
      assert Canonicals(c, rows)[..j + 1] == Canonicals(c, rows)[..n][..j + 1];
      assert Canonicals(c, other)[..j + 1] == Canonicals(c, other)[..n][..j + 1];
    }
  }

  /** Rewriting one payload of an intact log is reported at that row; an unreadable one fails the audit. */
  lemma EditedPayloadIsReported(c: Codec, rows: seq<Row>, i: nat, payload: string)
    requires HexDigests(c) && IsIntact(c, rows) && i < |rows|
    requires c.canon(payload) != c.canon(rows[i].payload)
    ensures var edited := rows[i := rows[i].(payload := payload)];
            if c.canon(payload).None? then Verdict(c, edited) == Err(InvalidPayload)
            else Readable(c, edited) &&
                 (CollisionFree(c, Hashed(c, Canonicals(c, rows)) + Hashed(c, Canonicals(c, edited)))
                  ==> Verdict(c, edited) == Ok(Tampered(i + 1)))
  {
    var edited := rows[i := rows[i].(payload := payload)];
    assert AgreesAt(c, rows, i);
    if c.canon(payload).None? {
      assert c.canon(edited[i].payload).None?;
    } else {
      var a, b := Canonicals(c, rows), Canonicals(c, edited);
      if CollisionFree(c, Hashed(c, a) + Hashed(c, b)) {
        assert rows[..i] == edited[..i];
        PrefixStaysGood(c, rows, edited, i);
        assert a[..i + 1][i] != b[..i + 1][i];
        PrefixChainsDiffer(c, a, b, i + 1);
        ReportsFirstBad(c, edited, i);
      }
    }
  }

  /** Rewriting a row together with its own hash is reported at its successor. */
  lemma RehashedRowIsReported(c: Codec, rows: seq<Row>, i: nat, payload: string)
    requires HexDigests(c) && IsIntact(c, rows) && i + 1 < |rows|
    requires c.canon(payload).Some? && c.canon(payload) != c.canon(rows[i].payload)
    ensures var own := ChainHash(c, ChainOf(c, Canonicals(c, rows)[..i]), c.canon(payload).value);
            var forged := rows[i := rows[i].(payload := payload, hash := own)];
            Readable(c, forged) &&
            (CollisionFree(c, Hashed(c, Canonicals(c, rows)) + Hashed(c, Canonicals(c, forged)))
             ==> Verdict(c, forged) == Ok(Tampered(i + 2)))
  {
    var own := ChainHash(c, ChainOf(c, Canonicals(c, rows)[..i]), c.canon(payload).value);
    var forged := rows[i := rows[i].(payload := payload, hash := own)];
    var a, b := Canonicals(c, rows), Canonicals(c, forged);
    if CollisionFree(c, Hashed(c, a) + Hashed(c, b)) {
      assert rows[..i] == forged[..i];
      PrefixStaysGood(c, rows, forged, i);
      assert AgreesAt(c, rows, i) && AgreesAt(c, rows, i + 1);
      assert b[..i + 1][..i] == a[..i] && b[..i + 1][i] == c.canon(payload).value;
      assert AgreesAt(c, forged, i);
      assert a[..i + 2][i] != b[..i + 2][i];
      PrefixChainsDiffer(c, a, b, i + 2);
      ReportsFirstBad(c, forged, i + 1);
    }
  }

  /** Deleting any row but the last is reported at its successor; deleting the last is not noticed. */
  lemma DeletedRowIsReported(c: Codec, rows: seq<Row>, i: nat)
    requires IsIntact(c, rows) && i < |rows|
    ensures Verdict(c, rows[..i] + rows[i + 1..])
         == Ok(if i + 1 < |rows| then Tampered(i + 2) else Intact(|rows| - 1))
  {
    var cut := rows[..i] + rows[i + 1..];
    assert Readable(c, cut);
    assert cut[..i] == rows[..i];
    PrefixStaysGood(c, rows, cut, i);
    if i + 1 < |rows| {
      assert cut[i] == rows[i + 1];
      assert AgreesAt(c, rows, i + 1);
      ReportsFirstBad(c, cut, i);
    }
  }
}
