/** The certificate-signing-request accumulator of csr_daemon.c
    (csr_read_cb, csr_daemon.c:246-304) as a function of the connection
    context and the bytes waiting in the input buffer. Each call appends
    everything waiting to a growable buffer; once the last accumulated byte
    is NUL the buffer goes to the issuer, the serial number is bumped and a
    reply is written.

    The issuer (get_csr_from_buf, issue_certificate, X509_to_PEM) is a
    parameter. `Build` selects between the buffer growth rule as written
    (csr_daemon.c:258-266), which can leave the buffer smaller than what is
    written into it, and the same rule sized on length + recv_len. */
module CsrFramer {
  import opened Bytes
  import opened Variant

  /** CERT_DAYS (csr_daemon.c:24). */
  const CertDays := 365

  /** FAIL_MSG as written by bufferevent_write(bev, FAIL_MSG,
      sizeof(FAIL_MSG)): the ASCII text "SIGNING REQUEST FAILED" and its
      terminating NUL, 23 bytes. */
  const FailMsg: seq<Byte> :=
    [83, 73, 71, 78, 73, 78, 71, 32, 82, 69, 81, 85, 69, 83, 84, 32, 70, 65, 73, 76, 69, 68, 0]

  /** What the issuer makes of the accumulated bytes: no certificate
      (issue_certificate returned NULL), a certificate that could not be
      PEM-encoded, or the PEM text. */
  datatype IssueOutcome = NotIssued | NotEncoded | Issued(pem: seq<Byte>)

  /** get_csr_from_buf, issue_certificate and X509_to_PEM together, given
      the buffer, the serial number and the validity in days. */
  type Issuer = (seq<Byte>, int, int) -> IssueOutcome

  /** con_ctx_t: the bytes accumulated so far and the size of the buffer
      holding them. After a failed PEM encoding the buffer is freed and set
      to NULL while `length` is kept; `cert == []` with `length > 0` stands
      for that. */
  datatype ConState = ConState(cert: seq<Byte>, length: int, maxLength: int)

  /** The parts of csr_ctx_t the callback reads and writes. */
  datatype CsrCtxState = CsrCtxState(serial: int, days: int)

  /** The connection state the daemon starts a CSR connection in. */
  function NewConnection(): (c: ConState)
    ensures ConValid(c) && c.length == 0
  {
    ConState([], 0, 0)
  }

  /** create_csr_ctx (csr_daemon.c:175-184), without the CA loading. */
  function CreateCsrCtx(): (x: CsrCtxState)
    ensures x.serial == 0 && x.days == CertDays
  {
    CsrCtxState(0, CertDays)
  }

  /** A live buffer: it holds exactly `length` bytes, and its size is not
      negative. */
  predicate ConValid(c: ConState) {
    |c.cert| == c.length && 0 <= c.maxLength
  }

  /** The new buffer size of csr_daemon.c:258-266 before `recv_len` more
      bytes are appended to `length` bytes in a buffer of `maxLength`. As
      written the new size is computed from recv_len alone; corrected, from
      length + recv_len. */
  function Grow(b: Build, maxLength: nat, length: nat, recv: nat): (m: nat)
    ensures m >= maxLength
    ensures maxLength >= length + recv ==> m == maxLength
    ensures maxLength < length + recv && b == AsWritten ==>
              m == if maxLength < 2 * recv then 2 * recv else 2 * maxLength
    ensures b == Corrected ==> m >= length + recv
  {
    if maxLength < length + recv then
      var need := if b == AsWritten then recv else length + recv;
      if maxLength < 2 * need then 2 * need else 2 * maxLength
    else
      maxLength
  }

  /** The completion test of csr_daemon.c:271: the last accumulated byte
      is NUL. An empty buffer (where the source reads cert[-1]) does not
      count as complete. */
  predicate Terminated(cert: seq<Byte>) {
    |cert| > 0 && cert[|cert| - 1] == 0
  }

  /** What is written back for an issuer outcome. */
  function Reply(o: IssueOutcome): (r: seq<Byte>)
    ensures |r| > 0 && r[|r| - 1] == 0
    ensures o.Issued? ==> r == o.pem + [0]
    ensures !o.Issued? ==> r == FailMsg
  {
    match o
    case Issued(pem) => pem + [0]
    case _ => FailMsg
  }

  datatype CsrStatus = Accumulating | Processed(outcome: IssueOutcome)

  /** The new connection and context, the bytes written back, and whether
      a request was processed. */
  datatype CsrResult = CsrResult(con: ConState, ctx: CsrCtxState, reply: seq<Byte>, status: CsrStatus)

  /** One call of csr_read_cb on the bytes waiting in the input buffer. It
      reads all of them and appends them in order; the buffer never shrinks;
      a request is processed exactly when the last accumulated byte is NUL,
      and then the serial number goes up by one whatever the issuer says,
      and the reply is FAIL_MSG or the PEM text with its NUL. */
  function CsrStep(b: Build, issue: Issuer, con: ConState, ctx: CsrCtxState, input: seq<Byte>): (r: CsrResult)
    requires ConValid(con)
    ensures r.con.length == con.length + |input|
    ensures r.con.maxLength == Grow(b, con.maxLength, con.length, |input|)
    ensures r.con.maxLength >= con.maxLength
    ensures r.ctx.days == ctx.days
    ensures r.status.Processed? <==> Terminated(con.cert + input)
    ensures r.status == Accumulating ==> r.ctx == ctx && r.reply == [] && r.con.cert == con.cert + input
    ensures r.status.Processed? ==>
              && r.status.outcome == issue(con.cert + input, ctx.serial, ctx.days)
              && r.ctx.serial == ctx.serial + 1
              && r.reply == Reply(r.status.outcome)
              && r.con.cert == if r.status.outcome == NotEncoded then [] else con.cert + input
    ensures ConValid(r.con) <==> r.status != Processed(NotEncoded)
    ensures b == Corrected && con.length <= con.maxLength ==> r.con.length <= r.con.maxLength
  {
    var cert := con.cert + input;
    var grown := ConState(cert, con.length + |input|, Grow(b, con.maxLength, con.length, |input|));
    if !Terminated(cert) then
      CsrResult(grown, ctx, [], Accumulating)
    else
      var outcome := issue(cert, ctx.serial, ctx.days);
      var ctx' := ctx.(serial := ctx.serial + 1);
      if outcome == NotEncoded then
        CsrResult(grown.(cert := []), ctx', Reply(outcome), Processed(outcome))
      else
        CsrResult(grown, ctx', Reply(outcome), Processed(outcome))
  }

  /* ---------------- Requests split across reads ---------------- */

  /** Where a CSR connection stands after some reads: the connection
      state, the context, everything written back, and whether the buffer
      is still live (it is not after a failed PEM encoding). */
  datatype CsrProgress = CsrProgress(con: ConState, ctx: CsrCtxState, output: seq<Byte>, live: bool)

  /** csr_read_cb invoked once per arriving chunk on a new connection.
      Each call reads everything waiting, so each sees exactly the new
      chunk. Once the buffer has been freed later chunks are not looked
      at. */
  function CsrFeed(b: Build, issue: Issuer, chunks: seq<seq<Byte>>): (r: CsrProgress)
    ensures r.live ==> ConValid(r.con)
    ensures r.con.length == |Flatten(chunks)| || !r.live
    ensures r.ctx.days == CertDays
  {
    if chunks == [] then CsrProgress(NewConnection(), CreateCsrCtx(), [], true)
    else
      var prev := CsrFeed(b, issue, chunks[..|chunks| - 1]);
      if !prev.live then prev
      else
        var r := CsrStep(b, issue, prev.con, prev.ctx, chunks[|chunks| - 1]);
        CsrProgress(r.con, r.ctx, prev.output + r.reply, r.status != Processed(NotEncoded))
  }

  /** Chunks that make up a prefix of a request without its NUL are simply
      accumulated: nothing is processed or written, and the buffer holds
      exactly the bytes received, in order. */
  lemma {:induction false} FeedAccumulates(b: Build, issue: Issuer, chunks: seq<seq<Byte>>)
    requires forall i :: 0 <= i < |Flatten(chunks)| ==> Flatten(chunks)[i] != 0
    ensures var r := CsrFeed(b, issue, chunks);
            r.live && r.con.cert == Flatten(chunks) && r.ctx == CreateCsrCtx() && r.output == []
  {
    if chunks != [] {
      var init := chunks[..|chunks| - 1];
      var c := chunks[|chunks| - 1];
      assert Flatten(chunks) == Flatten(init) + c;
      forall i | 0 <= i < |Flatten(init)|
        ensures Flatten(init)[i] != 0
      {
        assert Flatten(init)[i] == Flatten(chunks)[i];
      }
      FeedAccumulates(b, issue, init);
      assert !Terminated(Flatten(init) + c) by {
        if |Flatten(chunks)| > 0 {
          assert Flatten(chunks)[|Flatten(chunks)| - 1] != 0;
        }
      }
    }
  }

  /** However a request P + NUL (P without NUL bytes) is split into
      non-empty reads, it is processed exactly once, on the last read, with
      the whole request as the buffer, serial number 0 and CERT_DAYS, and
      the reply is the one for that outcome. */
  lemma ChunkedRequest(b: Build, issue: Issuer, p: seq<Byte>, chunks: seq<seq<Byte>>)
    requires forall i :: 0 <= i < |p| ==> p[i] != 0
    requires |chunks| > 0 && |chunks[|chunks| - 1]| > 0
    requires Flatten(chunks) == p + [0]
    ensures var r := CsrFeed(b, issue, chunks);
            var o := issue(p + [0], 0, CertDays);
            r.ctx.serial == 1 && r.output == Reply(o) && r.live == (o != NotEncoded)
  {
    var init := chunks[..|chunks| - 1];
    var c := chunks[|chunks| - 1];
    assert Flatten(chunks) == Flatten(init) + c;
    assert Flatten(init) == p[..|Flatten(init)|] by {
      assert (p + [0])[..|Flatten(init)|] == Flatten(init);
    }
    forall i | 0 <= i < |Flatten(init)|
      ensures Flatten(init)[i] != 0
    {
      assert Flatten(init)[i] == p[i];
    }
    FeedAccumulates(b, issue, init);
  }

  /** The growth rule as written does not always make room (csr_daemon.c:
      258-266): three reads of 2, 2 and 3 bytes leave 7 bytes in a buffer
      of 6, so the last read writes past its end. */
  lemma GrowthOverflowAsWritten(issue: Issuer, x: seq<Byte>, y: seq<Byte>, z: seq<Byte>)
    requires |x| == 2 && |y| == 2 && |z| == 3
    requires forall i :: 0 <= i < 7 ==> (x + y + z)[i] != 0
    ensures var r := CsrFeed(AsWritten, issue, [x, y, z]);
            r.con.length == 7 && r.con.maxLength == 6
  {
    var chunks: seq<seq<Byte>> := [x, y, z];
    var none: seq<seq<Byte>> := [];
    assert chunks[..1] == [x] && chunks[..1][..0] == none;
    assert chunks[..2] == [x, y] && chunks[..2][..1] == [x];
    assert Flatten(chunks[..1]) == x;
    assert Flatten(chunks[..2]) == x + y;
    assert Flatten(chunks) == x + y + z;
    forall i | 0 <= i < 4
      ensures (x + y)[i] != 0
    {
      assert (x + y)[i] == (x + y + z)[i];
    }
    forall i | 0 <= i < 2
      ensures x[i] != 0
    {
      assert x[i] == (x + y)[i];
    }
    FeedAccumulates(AsWritten, issue, chunks[..1]);
    FeedAccumulates(AsWritten, issue, chunks[..2]);
    var r1 := CsrFeed(AsWritten, issue, chunks[..1]);
    assert r1.con == ConState(x, 2, 4);
    var r2 := CsrFeed(AsWritten, issue, chunks[..2]);
    assert r2.con == ConState(x + y, 4, 4);
    assert chunks[..3] == chunks;
  }

  /** With the corrected growth rule the buffer always holds what has been
      received. */
  lemma {:induction false} CapacityCorrected(issue: Issuer, chunks: seq<seq<Byte>>)
    ensures var r := CsrFeed(Corrected, issue, chunks);
            r.con.length <= r.con.maxLength
  {
    if chunks != [] {
      CapacityCorrected(issue, chunks[..|chunks| - 1]);
    }
  }
}
