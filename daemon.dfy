/** The connection callbacks of csr_daemon.c as methods on the objects they
    update in place: a bufferevent with its input and output buffers and
    the read callback installed on it, and the per-connection contexts.
    Each callback is proved to do what the pure step functions of
    TotpFramer and CsrFramer say. */
module Daemon {
  import opened Bytes
  import opened Variant
  import opened TotpFramer
  import opened CsrFramer
  import opened Wrappers

  /** The read callback installed on a connection, with its context. */
  datatype Handler =
    | NewReadHandler
    | TotpHandler(totp: TotpCtx)
    | ValidateTotpHandler(validate: ValidateTotpCtx)
    | CsrHandler(con: ConCtx)

  /** A libevent bufferevent: the bytes received and not yet read, the
      bytes written back, and the installed read callback. */
  class BufferEvent {
    var input: seq<Byte>
    var output: seq<Byte>
    var handler: Handler

    /** A new connection, served by new_read_cb. */
    constructor (received: seq<Byte>)
      ensures input == received && output == [] && handler == NewReadHandler
    {
      input := received;
      output := [];
      handler := NewReadHandler;
    }

    /** bufferevent_read: takes up to n bytes from the front of the input. */
    method Read(n: nat) returns (data: seq<Byte>)
      modifies this
      ensures |data| == Min(n, |old(input)|)
      ensures data == old(input)[..|data|] && input == old(input)[|data|..]
      ensures output == old(output) && handler == old(handler)
    {
      data := input[..Min(n, |input|)];
      input := input[|data|..];
    }

    /** bufferevent_write: appends to the output. */
    method Write(data: seq<Byte>)
      modifies this
      ensures output == old(output) + data
      ensures input == old(input) && handler == old(handler)
    {
      output := output + data;
    }

    /** bufferevent_setcb, for the read callback and its context. */
    method SetHandler(h: Handler)
      modifies this
      ensures handler == h && input == old(input) && output == old(output)
    {
      handler := h;
    }
  }

  /** totp_ctx_t (csr_daemon.c:44-53). */
  class TotpCtx {
    var expectedPhoneLen: int
    var phoneLength: int
    var phoneNum: seq<Byte>
    var expectedEmailLen: int
    var emailLength: int
    var email: seq<Byte>

    function State(): TotpState
      reads this
    {
      TotpState(expectedPhoneLen, phoneLength, phoneNum, expectedEmailLen, emailLength, email)
    }

    /** create_totp_ctx (csr_daemon.c:147-161). */
    constructor ()
      ensures State() == CreateTotpCtx()
    {
      expectedPhoneLen := 0;
      phoneLength := 0;
      phoneNum := [];
      expectedEmailLen := 0;
      emailLength := 0;
      email := [];
    }
  }

  /** validate_totp_ctx_t (csr_daemon.c:55-59); `totp == None` and
      `hasCon == false` stand for the NULL pointers. */
  class ValidateTotpCtx {
    var accessCode: int
    var totp: Option<seq<Byte>>
    var hasCon: bool

    /** create_validate_totp_ctx (csr_daemon.c:163-173). */
    constructor ()
      ensures accessCode == 0 && totp == None && !hasCon
    {
      accessCode := 0;
      totp := None;
      hasCon := false;
    }
  }

  /** The parts of csr_ctx_t (csr_daemon.c:28-35) the callbacks use. */
  class CsrCtx {
    var serial: int
    var days: int

    function State(): CsrCtxState
      reads this
    {
      CsrCtxState(serial, days)
    }

    /** create_csr_ctx (csr_daemon.c:175-184), without the CA loading. */
    constructor ()
      ensures State() == CreateCsrCtx()
    {
      serial := 0;
      days := CertDays;
    }
  }

  /** con_ctx_t (csr_daemon.c:37-42). */
  class ConCtx {
    const ctx: CsrCtx
    var cert: seq<Byte>
    var length: int
    var maxLength: int

    function State(): ConState
      reads this
    {
      ConState(cert, length, maxLength)
    }

    /** A new CSR connection: no buffer yet. */
    constructor (csr: CsrCtx)
      ensures ctx == csr && State() == NewConnection()
    {
      ctx := csr;
      cert := [];
      length := 0;
      maxLength := 0;
    }
  }

  /** validate_totp_read_cb (csr_daemon.c:491-493): reads nothing and
      changes nothing. */
  method ValidateTotpRead(bev: BufferEvent, ctx: ValidateTotpCtx)
    ensures unchanged(bev) && unchanged(ctx)
  {
  }

  /** The phone-length block of totp_read_cb (csr_daemon.c:397-410):
      `recvLen` bytes are waiting; reports whether the byte was rejected. */
  method ReadPhoneLength(bev: BufferEvent, ctx: TotpCtx, recvLen: nat) returns (left: nat, rejected: bool)
    requires TotpValid(ctx.State()) && recvLen == |bev.input|
    modifies bev, ctx
    ensures var p := PhoneLenStage(old(ctx.State()), old(bev.input));
            ctx.State() == p.st && bev.input == p.rest && left == |p.rest|
            && rejected == (p.status == BadPhoneLength)
    ensures bev.output == old(bev.output) && bev.handler == old(bev.handler)
  {
    left, rejected := recvLen, false;
    if ctx.expectedPhoneLen == 0 && left > 0 {
      var single := bev.Read(1);
      left := left - 1;
      ctx.expectedPhoneLen := SignedChar(single[0]);
      if ctx.expectedPhoneLen <= 0 {
        rejected := true;
      } else {
        ctx.phoneNum := Calloc(ctx.expectedPhoneLen + 1);
      }
    }
  }

  /** The phone-number block of totp_read_cb (csr_daemon.c:412-422). */
  method ReadPhone(b: Build, bev: BufferEvent, ctx: TotpCtx, recvLen: nat) returns (left: nat)
    requires TotpValid(ctx.State()) && recvLen == |bev.input|
    modifies bev, ctx
    ensures var p := PhoneStage(b, old(ctx.State()), old(bev.input));
            ctx.State() == p.st && bev.input == p.rest && left == |p.rest|
    ensures bev.output == old(bev.output) && bev.handler == old(bev.handler)
  {
    ghost var p := PhoneStage(b, ctx.State(), bev.input);
    left := recvLen;
    if ctx.phoneLength < ctx.expectedPhoneLen && left > 0 {
      var readLen := left;
      if left > ctx.expectedPhoneLen - ctx.phoneLength {
        readLen := ctx.expectedPhoneLen - ctx.phoneLength;
      }
      assert readLen == ReadLen(left, ctx.expectedPhoneLen, ctx.phoneLength);
      PhoneStageReads(b, ctx.State(), bev.input);
      var data := bev.Read(readLen);
      assert data == old(bev.input)[..readLen];
      ctx.phoneNum := Store(ctx.phoneNum, StoreAt(b, ctx.phoneLength), data);
      ctx.phoneLength := ctx.phoneLength + readLen;
      left := left - readLen;
    }
  }

  /** The email-length block of totp_read_cb (csr_daemon.c:424-442). */
  method ReadEmailLength(bev: BufferEvent, ctx: TotpCtx, recvLen: nat) returns (left: nat, rejected: bool)
    requires TotpValid(ctx.State()) && recvLen == |bev.input|
    requires recvLen > 0 ==> 0 < ctx.expectedPhoneLen == ctx.phoneLength
    modifies bev, ctx
    ensures var p := EmailLenStage(old(ctx.State()), old(bev.input));
            ctx.State() == p.st && bev.input == p.rest && left == |p.rest|
            && rejected == (p.status == BadEmailLength)
    ensures bev.output == old(bev.output) && bev.handler == old(bev.handler)
  {
    left, rejected := recvLen, false;
    if ctx.emailLength == ctx.expectedEmailLen && left > 0 {
      if ctx.expectedEmailLen == 0 {
        var single := bev.Read(1);
        left := left - 1;
        ctx.expectedEmailLen := SignedChar(single[0]);
        if ctx.expectedEmailLen <= 0 {
          rejected := true;
        } else {
          ctx.email := Calloc(ctx.expectedEmailLen + 1);
        }
      }
    }
  }

  /** The email block of totp_read_cb (csr_daemon.c:444-459). */
  method ReadEmail(b: Build, bev: BufferEvent, ctx: TotpCtx, recvLen: nat) returns (left: nat)
    requires TotpValid(ctx.State()) && recvLen == |bev.input|
    modifies bev, ctx
    ensures var p := EmailStage(b, old(ctx.State()), old(bev.input));
            ctx.State() == p.st && bev.input == p.rest && left == |p.rest|
    ensures bev.output == old(bev.output) && bev.handler == old(bev.handler)
  {
    ghost var p := EmailStage(b, ctx.State(), bev.input);
    left := recvLen;
    if ctx.emailLength < ctx.expectedEmailLen && left > 0 {
      var readLen := left;
      if left > ctx.expectedEmailLen - ctx.emailLength {
        readLen := ctx.expectedEmailLen - ctx.emailLength;
      }
      assert readLen == ReadLen(left, ctx.expectedEmailLen, ctx.emailLength);
      EmailStageReads(b, ctx.State(), bev.input);
      var data := bev.Read(readLen);
      assert data == old(bev.input)[..readLen];
      ctx.email := Store(ctx.email, StoreAt(b, ctx.emailLength), data);
      ctx.emailLength := ctx.emailLength + readLen;
      left := left - readLen;
    }
  }

  /** The email block and the completion test of totp_read_cb
      (csr_daemon.c:444-476), as FromEmail describes them. */
  method ReadFromEmail(b: Build, bev: BufferEvent, ctx: TotpCtx, recvLen: nat) returns (status: TotpStatus)
    requires TotpValid(ctx.State()) && recvLen == |bev.input|
    requires recvLen > 0 ==> 0 < ctx.expectedPhoneLen == ctx.phoneLength && ctx.expectedEmailLen > 0
    modifies bev, ctx
    ensures var r := FromEmail(b, old(ctx.State()), old(bev.input));
            && ctx.State() == r.state && status == r.status
            && Suffix(bev.input, old(bev.input)) && |old(bev.input)| - |bev.input| == r.consumed
    ensures bev.output == old(bev.output) && bev.handler == old(bev.handler)
  {
    var left := ReadEmail(b, bev, ctx, recvLen);
    if AllReceived(b, ctx.State()) {
      status := AllFields(ctx.phoneNum, ctx.email);
    } else {
      status := Pending;
    }
  }

  /** totp_read_cb from the email-length block on (csr_daemon.c:424-476),
      as FromEmailLen describes it. */
  method ReadFromEmailLength(b: Build, bev: BufferEvent, ctx: TotpCtx, recvLen: nat) returns (status: TotpStatus)
    requires TotpValid(ctx.State()) && recvLen == |bev.input|
    requires recvLen > 0 ==> 0 < ctx.expectedPhoneLen == ctx.phoneLength
    modifies bev, ctx
    ensures var r := FromEmailLen(b, old(ctx.State()), old(bev.input));
            && ctx.State() == r.state && status == r.status
            && Suffix(bev.input, old(bev.input)) && |old(bev.input)| - |bev.input| == r.consumed
    ensures bev.output == old(bev.output) && bev.handler == old(bev.handler)
  {
    ghost var s0, in0 := ctx.State(), bev.input;
    var left, rejected := ReadEmailLength(bev, ctx, recvLen);
    if rejected {
      status := BadEmailLength;
      FromEmailLenRejects(b, s0, in0, bev.input);
    } else {
      status := ReadFromEmail(b, bev, ctx, left);
      FromEmailLenAccepts(b, s0, in0, ctx.State(), bev.input, status);
    }
  }

  /** totp_read_cb from the phone-number block on (csr_daemon.c:412-476),
      as FromPhone describes it. */
  method ReadFromPhone(b: Build, bev: BufferEvent, ctx: TotpCtx, recvLen: nat) returns (status: TotpStatus)
    requires TotpValid(ctx.State()) && recvLen == |bev.input|
    requires recvLen > 0 ==> ctx.expectedPhoneLen > 0
    modifies bev, ctx
    ensures var r := FromPhone(b, old(ctx.State()), old(bev.input));
            && ctx.State() == r.state && status == r.status
            && Suffix(bev.input, old(bev.input)) && |old(bev.input)| - |bev.input| == r.consumed
    ensures bev.output == old(bev.output) && bev.handler == old(bev.handler)
  {
    ghost var s0, in0 := ctx.State(), bev.input;
    var left := ReadPhone(b, bev, ctx, recvLen);
    ghost var in2 := bev.input;
    FromPhoneAfterPhone(b, s0, in0, PhoneStage(b, s0, in0));
    status := ReadFromEmailLength(b, bev, ctx, left);
    SuffixTrans(bev.input, in2, in0);
  }

  /** totp_read_cb (csr_daemon.c:387-477): the four blocks in order on
      `recv_len`, the number of bytes waiting at entry, then the completion
      test. The new context, the bytes taken from the input and the status
      are TotpStep's. Nothing is written back on the connection; the SMS
      and email delivery of a complete request is not part of this model. */
  method TotpRead(b: Build, bev: BufferEvent, ctx: TotpCtx) returns (status: TotpStatus)
    requires TotpValid(ctx.State())
    modifies bev, ctx
    ensures var r := TotpStep(b, old(ctx.State()), old(bev.input));
            && ctx.State() == r.state && status == r.status
            && Suffix(bev.input, old(bev.input)) && |old(bev.input)| - |bev.input| == r.consumed
    ensures bev.output == old(bev.output) && bev.handler == old(bev.handler)
  {
    ghost var s0, in0 := ctx.State(), bev.input;
    var recvLen := |bev.input|;
    var rejected;
    recvLen, rejected := ReadPhoneLength(bev, ctx, recvLen);
    if rejected {
      status := BadPhoneLength;
      return;
    }
    ghost var in1 := bev.input;
    TotpStepAfterPhoneLength(b, s0, in0, PhoneLenStage(s0, in0));
    status := ReadFromPhone(b, bev, ctx, recvLen);
    SuffixTrans(bev.input, in1, in0);
  }

  /** csr_read_cb (csr_daemon.c:246-304). It reads everything waiting and
      does what CsrStep describes: the new connection state, the new
      serial number and the reply written back are CsrStep's. */
  method CsrRead(b: Build, issue: Issuer, bev: BufferEvent, con: ConCtx) returns (status: CsrStatus)
    requires ConValid(con.State())
    modifies bev, con, con.ctx
    ensures var r := CsrStep(b, issue, old(con.State()), old(con.ctx.State()), old(bev.input));
            con.State() == r.con && con.ctx.State() == r.ctx && status == r.status
            && bev.output == old(bev.output) + r.reply
    ensures bev.input == [] && bev.handler == old(bev.handler)
  {
    ghost var r := CsrStep(b, issue, con.State(), con.ctx.State(), bev.input);
    var csr := con.ctx;
    var recvLen := |bev.input|;

    // Make room; as written the new size is sized on recv_len alone.
    if con.maxLength < con.length + recvLen {
      var need := if b == AsWritten then recvLen else con.length + recvLen;
      if con.maxLength < need * 2 {
        con.maxLength := need * 2;
      } else {
        con.maxLength := con.maxLength * 2;
      }
    }
    assert con.maxLength == r.con.maxLength;
    var data := bev.Read(recvLen);
    assert data == old(bev.input);
    con.cert := con.cert + data;
    con.length := con.length + recvLen;
    if !Terminated(con.cert) {
      status := Accumulating;
      return;
    }

    var outcome := issue(con.cert, csr.serial, csr.days);
    csr.serial := csr.serial + 1;
    status := Processed(outcome);
    match outcome {
      case NotIssued =>
        bev.Write(FailMsg);
      case NotEncoded =>
        bev.Write(FailMsg);
        con.cert := [];
      case Issued(pem) =>
        bev.Write(pem + [0]);
    }
  }

  /** Which sub-protocol the first byte of a connection selects. */
  datatype Selection = TotpRequest | ValidateRequest | CsrRequest | NoRequest

  /** isdigit and atoi on the selector byte (csr_daemon.c:519-521): a
      digit's value, otherwise -1. */
  function RequestNum(c: Byte): (n: int)
    ensures -1 <= n <= 9
    ensures n >= 0 <==> 48 <= c <= 57
    ensures n >= 0 ==> c == 48 + n
  {
    if 48 <= c <= 57 then c - 48 else -1
  }

  /** The switch of csr_daemon.c:528-555: '0', '1' and '2' select the TOTP,
      validation and CSR handlers; anything else selects none. */
  function Select(c: Byte): (s: Selection)
    ensures s == TotpRequest <==> c == 48
    ensures s == ValidateRequest <==> c == 49
    ensures s == CsrRequest <==> c == 50
  {
    var n := RequestNum(c);
    if n == 0 then TotpRequest
    else if n == 1 then ValidateRequest
    else if n == 2 then CsrRequest
    else NoRequest
  }

  /** new_read_cb (csr_daemon.c:506-558). With nothing waiting it does
      nothing. Otherwise it takes exactly the selector byte and installs the
      handler Select names with a new context; only the TOTP handler is
      run at once, on the bytes already waiting after the selector, and its
      status is returned (None when totp_read_cb was not called). Any other
      byte leaves new_read_cb installed. */
  method NewRead(b: Build, bev: BufferEvent) returns (totp: Option<TotpStatus>)
    modifies bev
    ensures |old(bev.input)| == 0 ==> bev.input == old(bev.input) && bev.handler == old(bev.handler) && totp == None
    ensures bev.output == old(bev.output)
    ensures |old(bev.input)| > 0 ==>
              match Select(old(bev.input)[0])
              case TotpRequest =>
                && bev.handler.TotpHandler? && fresh(bev.handler.totp)
                && var rest := old(bev.input)[1..];
                   var r := TotpStep(b, CreateTotpCtx(), rest);
                   if |rest| > 0 then
                     && bev.handler.totp.State() == r.state && totp == Some(r.status)
                     && Suffix(bev.input, rest) && |rest| - |bev.input| == r.consumed
                   else
                     bev.handler.totp.State() == CreateTotpCtx() && bev.input == rest && totp == None
              case ValidateRequest =>
                && bev.handler.ValidateTotpHandler? && fresh(bev.handler.validate)
                && bev.input == old(bev.input)[1..] && totp == None
              case CsrRequest =>
                && bev.handler.CsrHandler? && fresh(bev.handler.con) && fresh(bev.handler.con.ctx)
                && bev.handler.con.State() == NewConnection()
                && bev.handler.con.ctx.State() == CreateCsrCtx()
                && bev.input == old(bev.input)[1..] && totp == None
              case NoRequest =>
                bev.handler == old(bev.handler) && bev.input == old(bev.input)[1..] && totp == None
  {
    totp := None;
    var recvLen := |bev.input|;
    if recvLen >= 1 {
      var firstByte := bev.Read(1);
      var requestNum := RequestNum(firstByte[0]);
      if requestNum >= 0 {
        recvLen := recvLen - 1;
      }
      match Select(firstByte[0]) {
        case TotpRequest =>
          var reqCtx := new TotpCtx();
          bev.SetHandler(TotpHandler(reqCtx));
          if recvLen > 0 {
            var status := TotpRead(b, bev, reqCtx);
            totp := Some(status);
          }
        case ValidateRequest =>
          var reqCtx := new ValidateTotpCtx();
          bev.SetHandler(ValidateTotpHandler(reqCtx));
        case CsrRequest =>
          var csr := new CsrCtx();
          var reqCtx := new ConCtx(csr);
          bev.SetHandler(CsrHandler(reqCtx));
        case NoRequest =>
      }
    }
  }

  /** A TOTP request that arrives in the same read as its '0' selector is
      handled by new_read_cb alone: the inline totp_read_cb call consumes the
      whole request and completes with both fields, each NUL-terminated. */
  lemma SelectedRequestCompletes(b: Build, phone: seq<Byte>, email: seq<Byte>)
    requires FieldsOk(phone, email)
    ensures var m := [48] + Request(phone, email);
            var r := TotpStep(b, CreateTotpCtx(), m[1..]);
            Select(m[0]) == TotpRequest && |m[1..]| > 0
            && r.status == AllFields(phone + [0], email + [0]) && r.consumed == |m| - 1
  {
    var m := [48] + Request(phone, email);
    assert m[1..] == Request(phone, email);
    WholeRequest(b, phone, email);
  }
}
