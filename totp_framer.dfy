/** The length-prefixed TOTP-request framer of csr_daemon.c (totp_read_cb,
    csr_daemon.c:387-477) as a function of the context and the bytes
    waiting in the connection's input buffer. The wire format is
    [phone length][phone bytes][email length][email bytes]; each call may
    see only part of it.

    `Build` selects between the code as written and the corrected reading
    of its three suspicious spots: partial phone and email reads are stored
    at the start of the buffer rather than at the current offset
    (csr_daemon.c:419, csr_daemon.c:456), and the completion test
    (csr_daemon.c:461) also holds before any email-length byte has
    arrived. */
module TotpFramer {
  import opened Bytes
  import opened Variant

  /** totp_ctx_t. `phoneNum` and `email` are the buffers calloc'ed with one
      byte more than the declared length; [] stands for NULL. */
  datatype TotpState = TotpState(
    expectedPhoneLen: int, phoneLength: int, phoneNum: seq<Byte>,
    expectedEmailLen: int, emailLength: int, email: seq<Byte>)

  /** What one call ends with. BadPhoneLength and BadEmailLength are the
      "Bad Request" returns; AllFields is the completion branch, which hands
      the phone buffer to the SMS sender (the email is not sent). */
  datatype TotpStatus = Pending | BadPhoneLength | BadEmailLength | AllFields(phone: seq<Byte>, email: seq<Byte>)

  /** The new context, how many input bytes the call consumed, its status. */
  datatype Step = Step(state: TotpState, consumed: nat, status: TotpStatus)

  /** An intermediate point inside one call: the context so far and the
      bytes not yet read. */
  datatype Stage = Stage(st: TotpState, rest: seq<Byte>, status: TotpStatus)

  /** create_totp_ctx (csr_daemon.c:147-161). */
  function CreateTotpCtx(): (s: TotpState)
    ensures TotpValid(s) && s.expectedPhoneLen == 0 && s.expectedEmailLen == 0
  {
    TotpState(0, 0, [], 0, 0, [])
  }

  /** A length byte stored into the signed `char single_byte[1]` (x86). */
  function SignedChar(b: Byte): (v: int)
    ensures -128 <= v <= 127
    ensures v > 0 <==> 1 <= b <= 127
  {
    if b < 128 then b else b - 256
  }

  function Calloc(n: nat): (r: seq<Byte>)
    ensures |r| == n
  {
    seq(n, _ => 0)
  }

  /** bufferevent_read of `data` into `buf` at offset `at`. */
  function Store(buf: seq<Byte>, at: nat, data: seq<Byte>): (r: seq<Byte>)
    requires at + |data| <= |buf|
    ensures |r| == |buf|
    ensures at + |data| < |buf| ==> r[|buf| - 1] == buf[|buf| - 1]
  {
    buf[..at] + data + buf[at + |data|..]
  }

  /** Store puts `data` at `at` and leaves the rest of the buffer alone. */
  lemma StoreParts(buf: seq<Byte>, at: nat, data: seq<Byte>)
    requires at + |data| <= |buf|
    ensures var r := Store(buf, at, data);
            r[at..at + |data|] == data && r[..at] == buf[..at] && r[at + |data|..] == buf[at + |data|..]
  {
    var r := Store(buf, at, data);
    assert r[at..at + |data|] == data;
    assert r[..at] == buf[..at];
    assert r[at + |data|..] == buf[at + |data|..];
  }

  /** The context invariant: counters within their declared lengths, the
      declared lengths in 1..127 once read, buffers of length+1 bytes whose
      final NUL is never overwritten, and no email-length byte before the
      phone number is complete. */
  predicate TotpValid(s: TotpState) {
    && 0 <= s.expectedPhoneLen <= 127
    && 0 <= s.phoneLength <= s.expectedPhoneLen
    && (s.expectedPhoneLen == 0 ==> s.phoneNum == [])
    && (s.expectedPhoneLen > 0 ==> |s.phoneNum| == s.expectedPhoneLen + 1 && s.phoneNum[s.expectedPhoneLen] == 0)
    && 0 <= s.expectedEmailLen <= 127
    && 0 <= s.emailLength <= s.expectedEmailLen
    && (s.expectedEmailLen == 0 ==> s.email == [])
    && (s.expectedEmailLen > 0 ==>
          |s.email| == s.expectedEmailLen + 1 && s.email[s.expectedEmailLen] == 0
          && 0 < s.expectedPhoneLen == s.phoneLength)
  }

  /** `rest` is what is left of `input` after a prefix has been read.
      Stated one byte at a time rather than as a slice, which keeps the
      solver from equating a sequence with a slice of itself when nothing
      was read. */
  predicate Suffix(rest: seq<Byte>, input: seq<Byte>)
    decreases |input|
  {
    rest == input || (|input| > 0 && Suffix(rest, input[1..]))
  }

  /** Reading n bytes leaves a suffix. */
  lemma {:induction false} SuffixDrop(input: seq<Byte>, n: nat)
    requires n <= |input|
    ensures Suffix(input[n..], input)
    decreases n
  {
    if n > 0 {
      SuffixDrop(input[1..], n - 1);
      assert input[1..][n - 1..] == input[n..];
    }
  }

  /** A suffix is exactly the input with its first |input| - |rest| bytes
      dropped. */
  lemma {:induction false} SuffixIsDrop(rest: seq<Byte>, input: seq<Byte>)
    requires Suffix(rest, input)
    ensures |rest| <= |input| && rest == input[|input| - |rest|..]
    decreases |input|
  {
    if rest != input {
      SuffixIsDrop(rest, input[1..]);
      assert input[1..][|input| - 1 - |rest|..] == input[|input| - |rest|..];
    }
  }

  lemma {:induction false} SuffixTrans(a: seq<Byte>, b: seq<Byte>, c: seq<Byte>)
    requires Suffix(a, b) && Suffix(b, c)
    ensures Suffix(a, c)
    decreases |c|
  {
    if b != c {
      SuffixTrans(a, b, c[1..]);
    }
  }

  /** csr_daemon.c:397-410: while no phone length is known, the first byte
      is read as one; a value <= 0 (as a signed char) is rejected. */
  function PhoneLenStage(s: TotpState, input: seq<Byte>): (r: Stage)
    requires TotpValid(s)
    ensures Suffix(r.rest, input)
    ensures |r.rest| == if s.expectedPhoneLen == 0 && |input| > 0 then |input| - 1 else |input|
    ensures r.status == BadPhoneLength <==>
              s.expectedPhoneLen == 0 && |input| > 0 && (input[0] == 0 || input[0] >= 128)
    ensures r.status != BadPhoneLength ==> r.status == Pending && TotpValid(r.st)
    ensures r.status != BadPhoneLength && s.expectedPhoneLen == 0 && |input| > 0 ==>
              r.st.expectedPhoneLen == input[0] && r.st.phoneNum == Calloc(input[0] + 1)
    ensures r.st.phoneLength == s.phoneLength && r.st.expectedEmailLen == s.expectedEmailLen
    ensures r.st.emailLength == s.emailLength && r.st.email == s.email
    ensures !(s.expectedPhoneLen == 0 && |input| > 0) ==> r == Stage(s, input, Pending)
  {
    if s.expectedPhoneLen == 0 && |input| > 0 then
      var L := SignedChar(input[0]);
      if L <= 0 then
        Stage(s.(expectedPhoneLen := L), input[1..], BadPhoneLength)
      else
        Stage(s.(expectedPhoneLen := L, phoneNum := Calloc(L + 1)), input[1..], Pending)
    else
      Stage(s, input, Pending)
  }

  /** The number of bytes a field read takes: all that is waiting, but no
      more than the field still lacks (csr_daemon.c:413-418). */
  function ReadLen(available: nat, expected: int, have: int): (n: nat)
    requires have < expected
    ensures n <= available && n <= expected - have
    ensures n == available || n == expected - have
  {
    if available > expected - have then expected - have else available
  }

  /** Where a field read stores its bytes: the start of the buffer as
      written, the current offset when corrected. */
  function StoreAt(b: Build, have: nat): nat {
    if b == AsWritten then 0 else have
  }

  /** csr_daemon.c:412-422: read the next part of the phone number. */
  function PhoneStage(b: Build, s: TotpState, input: seq<Byte>): (r: Stage)
    requires TotpValid(s)
    ensures Suffix(r.rest, input) && r.status == Pending && TotpValid(r.st)
    ensures s.phoneLength < s.expectedPhoneLen ==>
              |input| - |r.rest| == ReadLen(|input|, s.expectedPhoneLen, s.phoneLength)
              && r.st.phoneLength == s.phoneLength + (|input| - |r.rest|)
    ensures s.phoneLength >= s.expectedPhoneLen ==> r.st == s && r.rest == input
    ensures r.st.expectedPhoneLen == s.expectedPhoneLen && r.st.expectedEmailLen == s.expectedEmailLen
    ensures r.st.emailLength == s.emailLength && r.st.email == s.email
  {
    if s.phoneLength < s.expectedPhoneLen && |input| > 0 then
      var readLen := ReadLen(|input|, s.expectedPhoneLen, s.phoneLength);
      var at := StoreAt(b, s.phoneLength);
      SuffixDrop(input, readLen);
      Stage(s.(phoneNum := Store(s.phoneNum, at, input[..readLen]), phoneLength := s.phoneLength + readLen),
            input[readLen..], Pending)
    else
      Stage(s, input, Pending)
  }

  /** csr_daemon.c:424-442: once the email counter equals its declared
      length and that length is still 0, the next byte is read as the email
      length; a value <= 0 (as a signed char) is rejected. */
  function EmailLenStage(s: TotpState, input: seq<Byte>): (r: Stage)
    requires TotpValid(s)
    requires |input| > 0 ==> 0 < s.expectedPhoneLen == s.phoneLength
    ensures Suffix(r.rest, input)
    ensures |r.rest| == if s.expectedEmailLen == 0 && |input| > 0 then |input| - 1 else |input|
    ensures r.status == BadEmailLength <==>
              s.expectedEmailLen == 0 && |input| > 0 && (input[0] == 0 || input[0] >= 128)
    ensures r.status != BadEmailLength ==> r.status == Pending && TotpValid(r.st)
    ensures r.status != BadEmailLength && s.expectedEmailLen == 0 && |input| > 0 ==>
              r.st.expectedEmailLen == input[0] && r.st.email == Calloc(input[0] + 1)
    ensures r.status != BadEmailLength && |r.rest| > 0 ==> r.st.expectedEmailLen > 0
    ensures r.st.expectedPhoneLen == s.expectedPhoneLen && r.st.phoneLength == s.phoneLength
    ensures r.st.phoneNum == s.phoneNum && r.st.emailLength == s.emailLength
    ensures !(s.expectedEmailLen == 0 && |input| > 0) ==> r == Stage(s, input, Pending)
  {
    if s.emailLength == s.expectedEmailLen && |input| > 0 && s.expectedEmailLen == 0 then
      var E := SignedChar(input[0]);
      if E <= 0 then
        Stage(s.(expectedEmailLen := E), input[1..], BadEmailLength)
      else
        Stage(s.(expectedEmailLen := E, email := Calloc(E + 1)), input[1..], Pending)
    else
      Stage(s, input, Pending)
  }

  /** csr_daemon.c:444-459: read the next part of the email address. */
  function EmailStage(b: Build, s: TotpState, input: seq<Byte>): (r: Stage)
    requires TotpValid(s)
    ensures Suffix(r.rest, input) && r.status == Pending && TotpValid(r.st)
    ensures s.emailLength < s.expectedEmailLen ==>
              |input| - |r.rest| == ReadLen(|input|, s.expectedEmailLen, s.emailLength)
              && r.st.emailLength == s.emailLength + (|input| - |r.rest|)
    ensures s.emailLength >= s.expectedEmailLen ==> r.st == s && r.rest == input
    ensures r.st.expectedPhoneLen == s.expectedPhoneLen && r.st.phoneLength == s.phoneLength
    ensures r.st.phoneNum == s.phoneNum && r.st.expectedEmailLen == s.expectedEmailLen
  {
    if s.emailLength < s.expectedEmailLen && |input| > 0 then
      var readLen := ReadLen(|input|, s.expectedEmailLen, s.emailLength);
      var at := StoreAt(b, s.emailLength);
      SuffixDrop(input, readLen);
      Stage(s.(email := Store(s.email, at, input[..readLen]), emailLength := s.emailLength + readLen),
            input[readLen..], Pending)
    else
      Stage(s, input, Pending)
  }

  /** The phone-number block when bytes of the number are waiting. */
  lemma PhoneStageReads(b: Build, s: TotpState, input: seq<Byte>)
    requires TotpValid(s) && s.phoneLength < s.expectedPhoneLen && |input| > 0
    ensures var n := ReadLen(|input|, s.expectedPhoneLen, s.phoneLength);
            PhoneStage(b, s, input)
              == Stage(s.(phoneNum := Store(s.phoneNum, StoreAt(b, s.phoneLength), input[..n]), phoneLength := s.phoneLength + n),
                       input[n..], Pending)
  {
  }

  /** The email block when bytes of the address are waiting. */
  lemma EmailStageReads(b: Build, s: TotpState, input: seq<Byte>)
    requires TotpValid(s) && s.emailLength < s.expectedEmailLen && |input| > 0
    ensures var n := ReadLen(|input|, s.expectedEmailLen, s.emailLength);
            EmailStage(b, s, input)
              == Stage(s.(email := Store(s.email, StoreAt(b, s.emailLength), input[..n]), emailLength := s.emailLength + n),
                       input[n..], Pending)
  {
  }

  /** Where the phone bytes of a call go: the bytes read land at the start
      of the buffer as written and at the current offset when corrected, and
      the corrected reader keeps what earlier calls stored. */
  lemma PhoneStageStores(b: Build, s: TotpState, input: seq<Byte>)
    requires TotpValid(s) && s.phoneLength < s.expectedPhoneLen
    ensures var r := PhoneStage(b, s, input);
            var n := |input| - |r.rest|;
            var at := StoreAt(b, s.phoneLength);
            at + n <= |r.st.phoneNum| && r.st.phoneNum[at..at + n] == input[..n]
            && (b == Corrected ==> r.st.phoneNum[..s.phoneLength] == s.phoneNum[..s.phoneLength])
  {
    if |input| > 0 {
      var n := ReadLen(|input|, s.expectedPhoneLen, s.phoneLength);
      var at := StoreAt(b, s.phoneLength);
      var r := Store(s.phoneNum, at, input[..n]);
      if b == Corrected {
        assert r[..s.phoneLength] == s.phoneNum[..s.phoneLength];
      }
    }
  }

  /** Where the email bytes of a call go (see PhoneStageStores). */
  lemma EmailStageStores(b: Build, s: TotpState, input: seq<Byte>)
    requires TotpValid(s) && s.emailLength < s.expectedEmailLen
    ensures var r := EmailStage(b, s, input);
            var n := |input| - |r.rest|;
            var at := StoreAt(b, s.emailLength);
            at + n <= |r.st.email| && r.st.email[at..at + n] == input[..n]
            && (b == Corrected ==> r.st.email[..s.emailLength] == s.email[..s.emailLength])
  {
    if |input| > 0 {
      var n := ReadLen(|input|, s.expectedEmailLen, s.emailLength);
      var at := StoreAt(b, s.emailLength);
      var r := Store(s.email, at, input[..n]);
      if b == Corrected {
        assert r[..s.emailLength] == s.email[..s.emailLength];
      }
    }
  }

  /** The completion test of csr_daemon.c:461 as written, and corrected to
      demand that both declared lengths are known. */
  predicate AllReceived(b: Build, s: TotpState) {
    && s.phoneLength == s.expectedPhoneLen
    && s.emailLength == s.expectedEmailLen
    && (b == Corrected ==> s.expectedPhoneLen > 0 && s.expectedEmailLen > 0)
  }

  /** One call of totp_read_cb on the bytes waiting in the input buffer. It
      never consumes more than is waiting, keeps the context invariant unless
      it rejects, and reports completion exactly when the completion test
      holds of the new context. */
  function TotpStep(b: Build, s: TotpState, input: seq<Byte>): (r: Step)
    requires TotpValid(s)
    ensures r.consumed <= |input|
    ensures r.status != BadPhoneLength && r.status != BadEmailLength ==> TotpValid(r.state)
    ensures r.status == BadPhoneLength ==> r.consumed == 1
    ensures r.status == BadPhoneLength <==>
              s.expectedPhoneLen == 0 && |input| > 0 && (input[0] == 0 || input[0] >= 128)
    ensures r.status.AllFields? <==>
              r.status != BadPhoneLength && r.status != BadEmailLength && AllReceived(b, r.state)
    ensures r.status.AllFields? ==> r.status == AllFields(r.state.phoneNum, r.state.email)
    ensures r.state.expectedEmailLen != s.expectedEmailLen ==> r.state.phoneLength == r.state.expectedPhoneLen
    ensures r.status != BadPhoneLength && r.state.phoneLength < r.state.expectedPhoneLen ==>
              r.consumed == |input| && r.state.expectedEmailLen == 0
    ensures r.status == Pending ==> r.consumed == |input|
  {
    var p1 := PhoneLenStage(s, input);
    if p1.status == BadPhoneLength then
      Step(p1.st, 1, BadPhoneLength)
    else
      var r := FromPhone(b, p1.st, p1.rest);
      Step(r.state, |input| - |p1.rest| + r.consumed, r.status)
  }

  /** The rest of a call after the phone-length block (csr_daemon.c:412-476). */
  function FromPhone(b: Build, s: TotpState, input: seq<Byte>): (r: Step)
    requires TotpValid(s)
    requires |input| > 0 ==> s.expectedPhoneLen > 0
    ensures r.consumed <= |input| && r.status != BadPhoneLength
    ensures r.status != BadEmailLength ==> TotpValid(r.state)
    ensures r.status.AllFields? <==> r.status != BadEmailLength && AllReceived(b, r.state)
    ensures r.status.AllFields? ==> r.status == AllFields(r.state.phoneNum, r.state.email)
    ensures r.state.expectedEmailLen != s.expectedEmailLen ==> r.state.phoneLength == r.state.expectedPhoneLen
    ensures r.state.phoneLength < r.state.expectedPhoneLen ==>
              r.consumed == |input| && r.state.expectedEmailLen == s.expectedEmailLen
    ensures r.status == Pending ==> r.consumed == |input|
  {
    var p2 := PhoneStage(b, s, input);
    var r := FromEmailLen(b, p2.st, p2.rest);
    Step(r.state, |input| - |p2.rest| + r.consumed, r.status)
  }

  /** The rest of a call after the phone-number block (csr_daemon.c:424-476). */
  function FromEmailLen(b: Build, s: TotpState, input: seq<Byte>): (r: Step)
    requires TotpValid(s)
    requires |input| > 0 ==> 0 < s.expectedPhoneLen == s.phoneLength
    ensures r.consumed <= |input| && r.status != BadPhoneLength
    ensures r.status != BadEmailLength ==> TotpValid(r.state)
    ensures r.status.AllFields? <==> r.status != BadEmailLength && AllReceived(b, r.state)
    ensures r.status.AllFields? ==> r.status == AllFields(r.state.phoneNum, r.state.email)
    ensures r.state.expectedPhoneLen == s.expectedPhoneLen && r.state.phoneLength == s.phoneLength
    ensures |input| == 0 ==> r.consumed == 0 && r.state == s
    ensures r.status == Pending ==> r.consumed == |input|
  {
    var p3 := EmailLenStage(s, input);
    if p3.status == BadEmailLength then
      Step(p3.st, 1, BadEmailLength)
    else
      var r := FromEmail(b, p3.st, p3.rest);
      Step(r.state, |input| - |p3.rest| + r.consumed, r.status)
  }

  /** The email block and the completion test (csr_daemon.c:444-476). */
  function FromEmail(b: Build, s: TotpState, input: seq<Byte>): (r: Step)
    requires TotpValid(s)
    requires |input| > 0 ==> 0 < s.expectedPhoneLen == s.phoneLength && s.expectedEmailLen > 0
    ensures r.status == Pending ==> r.consumed == |input|
    ensures r.consumed <= |input| && TotpValid(r.state)
    ensures r.state.expectedPhoneLen == s.expectedPhoneLen && r.state.phoneLength == s.phoneLength
    ensures |input| == 0 ==> r.consumed == 0 && r.state == s
    ensures r.status == (if AllReceived(b, r.state) then AllFields(r.state.phoneNum, r.state.email) else Pending)
  {
    var p4 := EmailStage(b, s, input);
    Step(p4.st, |input| - |p4.rest|,
         if AllReceived(b, p4.st) then AllFields(p4.st.phoneNum, p4.st.email) else Pending)
  }

  /* Each block hands what it leaves waiting to the rest of the call. */

  lemma TotpStepAfterPhoneLength(b: Build, s: TotpState, input: seq<Byte>, p1: Stage)
    requires TotpValid(s)
    requires p1 == PhoneLenStage(s, input) && p1.status != BadPhoneLength
    ensures var f := FromPhone(b, p1.st, p1.rest);
            TotpStep(b, s, input) == Step(f.state, |input| - |p1.rest| + f.consumed, f.status)
  {
    assert PhoneLenStage(s, input).status != BadPhoneLength;
  }

  lemma FromPhoneAfterPhone(b: Build, s: TotpState, input: seq<Byte>, p2: Stage)
    requires TotpValid(s)
    requires |input| > 0 ==> s.expectedPhoneLen > 0
    requires p2 == PhoneStage(b, s, input)
    ensures var g := FromEmailLen(b, p2.st, p2.rest);
            FromPhone(b, s, input) == Step(g.state, |input| - |p2.rest| + g.consumed, g.status)
  {
  }

  lemma FromEmailLenAfterEmailLength(b: Build, s: TotpState, input: seq<Byte>, p3: Stage)
    requires TotpValid(s)
    requires |input| > 0 ==> 0 < s.expectedPhoneLen == s.phoneLength
    requires p3 == EmailLenStage(s, input) && p3.status != BadEmailLength
    ensures var h := FromEmail(b, p3.st, p3.rest);
            FromEmailLen(b, s, input) == Step(h.state, |input| - |p3.rest| + h.consumed, h.status)
  {
  }

  /** A call from the email-length block on that rejects the length byte
      ends in the rejecting stage's context after exactly one byte. */
  lemma FromEmailLenRejects(b: Build, s: TotpState, input: seq<Byte>, rest: seq<Byte>)
    requires TotpValid(s)
    requires |input| > 0 ==> 0 < s.expectedPhoneLen == s.phoneLength
    requires EmailLenStage(s, input).status == BadEmailLength && rest == EmailLenStage(s, input).rest
    ensures var r := FromEmailLen(b, s, input);
            r.state == EmailLenStage(s, input).st && r.status == BadEmailLength
            && Suffix(rest, input) && |input| - |rest| == r.consumed
  {
  }

  /** A call from the email-length block on that accepts the length byte
      ends where the email block, run on what is left, ends. */
  lemma FromEmailLenAccepts(b: Build, s: TotpState, input: seq<Byte>, st: TotpState, rest: seq<Byte>, status: TotpStatus)
    requires TotpValid(s)
    requires |input| > 0 ==> 0 < s.expectedPhoneLen == s.phoneLength
    requires EmailLenStage(s, input).status != BadEmailLength
    requires var p3 := EmailLenStage(s, input);
             var h := FromEmail(b, p3.st, p3.rest);
             st == h.state && status == h.status && Suffix(rest, p3.rest) && |p3.rest| - |rest| == h.consumed
    ensures var r := FromEmailLen(b, s, input);
            st == r.state && status == r.status && Suffix(rest, input) && |input| - |rest| == r.consumed
  {
    var p3 := EmailLenStage(s, input);
    FromEmailLenAfterEmailLength(b, s, input, p3);
    SuffixTrans(rest, p3.rest, input);
  }

  /* ---------------- A well-formed request ---------------- */

  /** The declared lengths are positive and fit a signed char. */
  predicate FieldsOk(phone: seq<Byte>, email: seq<Byte>) {
    1 <= |phone| <= 127 && 1 <= |email| <= 127
  }

  /** The request for `phone` and `email` as it travels on the wire. */
  function Request(phone: seq<Byte>, email: seq<Byte>): (m: seq<Byte>)
    requires FieldsOk(phone, email)
    ensures |m| == |phone| + |email| + 2
  {
    var L: Byte := |phone|;
    var E: Byte := |email|;
    [L] + phone + [E] + email
  }

  /** The four fields of a request, read back. */
  lemma RequestParts(phone: seq<Byte>, email: seq<Byte>)
    requires FieldsOk(phone, email)
    ensures var m := Request(phone, email);
            m[0] == |phone| && m[1..|phone| + 1] == phone
            && m[|phone| + 1] == |email| && m[|phone| + 2..] == email
  {
    var m := Request(phone, email);
    assert m[1..|phone| + 1] == phone;
    assert m[|phone| + 2..] == email;
  }

  /** A field buffer of |x|+1 bytes whose first k bytes hold x[..k]. */
  function Partial(x: seq<Byte>, k: nat): (r: seq<Byte>)
    requires k <= |x|
    ensures |r| == |x| + 1 && r[|x|] == 0
  {
    x[..k] + Calloc(|x| + 1 - k)
  }

  /** The context while the phone number is being read: its length is
      known and the first k of its bytes have been stored. */
  function PhoneAt(phone: seq<Byte>, k: nat): (s: TotpState)
    requires 1 <= |phone| <= 127 && k <= |phone|
    ensures TotpValid(s)
  {
    TotpState(|phone|, k, Partial(phone, k), 0, 0, [])
  }

  /** The context while the email is being read: the phone number is
      complete, the email length is known and k of its bytes are stored. */
  function EmailAt(phone: seq<Byte>, email: seq<Byte>, k: nat): (s: TotpState)
    requires FieldsOk(phone, email) && k <= |email|
    ensures TotpValid(s)
  {
    TotpState(|phone|, |phone|, Partial(phone, |phone|), |email|, k, Partial(email, k))
  }

  /** The context a correct reader holds after the first n bytes of
      Request(phone, email). */
  function Received(phone: seq<Byte>, email: seq<Byte>, n: nat): (s: TotpState)
    requires FieldsOk(phone, email) && n <= |phone| + |email| + 2
    ensures TotpValid(s)
  {
    if n == 0 then CreateTotpCtx()
    else if n <= |phone| + 1 then PhoneAt(phone, n - 1)
    else EmailAt(phone, email, n - |phone| - 2)
  }

  lemma ReceivedPhone(phone: seq<Byte>, email: seq<Byte>, n: nat)
    requires FieldsOk(phone, email) && 1 <= n <= |phone| + 1
    ensures Received(phone, email, n) == PhoneAt(phone, n - 1)
  {
  }

  lemma ReceivedEmail(phone: seq<Byte>, email: seq<Byte>, n: nat)
    requires FieldsOk(phone, email) && |phone| + 2 <= n <= |phone| + |email| + 2
    ensures Received(phone, email, n) == EmailAt(phone, email, n - |phone| - 2)
  {
  }

  /** What a call reports in a given context. */
  function StatusAt(b: Build, s: TotpState): TotpStatus {
    if AllReceived(b, s) then AllFields(s.phoneNum, s.email) else Pending
  }

  /** Reading the next n bytes of x into a partial buffer at its current
      offset extends it. */
  lemma StorePartial(x: seq<Byte>, k: nat, data: seq<Byte>)
    requires k + |data| <= |x| && data == x[k..k + |data|]
    ensures Store(Partial(x, k), k, data) == Partial(x, k + |data|)
  {
    var n := |data|;
    var buf := Partial(x, k);
    assert buf[k + n..] == Calloc(|x| + 1 - k - n);
    assert x[..k] + x[k..k + n] == x[..k + n];
  }

  lemma PartialComplete(x: seq<Byte>)
    ensures Partial(x, |x|) == x + [0]
  {
  }

  /** The correct reader completes exactly at the end of the request; the
      completion test as written also fires on the empty context and once
      the phone number is in but the email length byte has not arrived. */
  lemma ReceivedComplete(phone: seq<Byte>, email: seq<Byte>, n: nat)
    requires FieldsOk(phone, email) && n <= |phone| + |email| + 2
    ensures AllReceived(Corrected, Received(phone, email, n)) <==> n == |phone| + |email| + 2
    ensures AllReceived(AsWritten, Received(phone, email, n)) <==>
              n == |phone| + |email| + 2 || n == |phone| + 1 || n == 0
    ensures n == |phone| + |email| + 2 ==>
              StatusAt(Corrected, Received(phone, email, n)) == AllFields(phone + [0], email + [0])
  {
    if n == |phone| + |email| + 2 {
      PartialComplete(phone);
      PartialComplete(email);
    }
  }

  /** Bytes p..p+n of a request, for p within the phone number. */
  lemma RequestPhoneBytes(phone: seq<Byte>, email: seq<Byte>, p: nat, q: nat, n: nat)
    requires FieldsOk(phone, email) && 1 <= p && p + n <= |phone| + 1 && p + n <= q <= |phone| + |email| + 2
    ensures var m := Request(phone, email);
            m[p..q][..n] == phone[p - 1..p - 1 + n] && m[p..q][n..] == m[p + n..q]
  {
    var m := Request(phone, email);
    RequestParts(phone, email);
    assert m[p..q][..n] == m[p..p + n];
    assert m[1..|phone| + 1][p - 1..p - 1 + n] == m[p..p + n];
  }

  /** Bytes p..q of a request, for p within the email. */
  lemma RequestEmailBytes(phone: seq<Byte>, email: seq<Byte>, p: nat, q: nat)
    requires FieldsOk(phone, email) && |phone| + 2 <= p <= q <= |phone| + |email| + 2
    ensures var m := Request(phone, email);
            m[p..q] == email[p - |phone| - 2..q - |phone| - 2]
  {
    var m := Request(phone, email);
    RequestParts(phone, email);
    assert m[|phone| + 2..][p - |phone| - 2..q - |phone| - 2] == m[p..q];
  }

  /** Reading phone bytes that continue the number. */
  lemma PhoneBytesRead(b: Build, phone: seq<Byte>, have: nat, input: seq<Byte>)
    requires 1 <= |phone| <= 127 && have < |phone| && |input| > 0
    requires b == Corrected || have == 0
    requires var n := ReadLen(|input|, |phone|, have); input[..n] == phone[have..have + n]
    ensures var n := ReadLen(|input|, |phone|, have);
            PhoneStage(b, PhoneAt(phone, have), input) == Stage(PhoneAt(phone, have + n), input[n..], Pending)
  {
    var s := PhoneAt(phone, have);
    var n := ReadLen(|input|, |phone|, have);
    PhoneStageReads(b, s, input);
    assert StoreAt(b, have) == have;
    assert s.phoneNum == Partial(phone, have);
    StorePartial(phone, have, input[..n]);
    assert s.(phoneNum := Partial(phone, have + n), phoneLength := have + n) == PhoneAt(phone, have + n);
  }

  /** Reading email bytes that continue the address. */
  lemma EmailBytesRead(b: Build, phone: seq<Byte>, email: seq<Byte>, have: nat, input: seq<Byte>)
    requires FieldsOk(phone, email) && have + |input| <= |email| && |input| > 0
    requires b == Corrected || have == 0
    requires input == email[have..have + |input|]
    ensures EmailStage(b, EmailAt(phone, email, have), input) == Stage(EmailAt(phone, email, have + |input|), [], Pending)
  {
    var s := EmailAt(phone, email, have);
    var n := |input|;
    EmailStageReads(b, s, input);
    assert ReadLen(n, |email|, have) == n && StoreAt(b, have) == have;
    assert input[..n] == input && input[n..] == [];
    assert s.email == Partial(email, have);
    StorePartial(email, have, input);
    assert s.(email := Partial(email, have + n), emailLength := have + n) == EmailAt(phone, email, have + n);
  }

  /** The phone-length block on the bytes p..q of a request. */
  lemma PhoneLenReceived(phone: seq<Byte>, email: seq<Byte>, p: nat, q: nat)
    requires FieldsOk(phone, email) && p <= q <= |phone| + |email| + 2
    ensures var m := Request(phone, email);
            var p1 := if p == 0 && q > 0 then 1 else p;
            PhoneLenStage(Received(phone, email, p), m[p..q]) == Stage(Received(phone, email, p1), m[p1..q], Pending)
  {
    var m := Request(phone, email);
    if p == 0 && q > 0 {
      RequestParts(phone, email);
      assert m[p..q][0] == |phone|;
      assert m[p..q][1..] == m[1..q];
      assert Partial(phone, 0) == Calloc(|phone| + 1);
    }
  }

  /** The phone-number block on the bytes p..q of a request; the code as
      written agrees with the correct reader only while nothing of the
      number has been stored yet. */
  lemma PhoneReceived(b: Build, phone: seq<Byte>, email: seq<Byte>, p: nat, q: nat)
    requires FieldsOk(phone, email) && p <= q <= |phone| + |email| + 2
    requires p >= 1 || p == q
    requires b == Corrected || p <= 1
    ensures var m := Request(phone, email);
            var p2 := if p < |phone| + 1 && q > p then Min(q, |phone| + 1) else p;
            PhoneStage(b, Received(phone, email, p), m[p..q]) == Stage(Received(phone, email, p2), m[p2..q], Pending)
  {
    if p < |phone| + 1 && q > p {
      PhoneRead(b, phone, email, p, q);
    } else {
      var s := Received(phone, email, p);
      assert s.phoneLength >= s.expectedPhoneLen || q == p;
    }
  }

  /** The case of PhoneReceived in which bytes of the number are read. */
  lemma PhoneRead(b: Build, phone: seq<Byte>, email: seq<Byte>, p: nat, q: nat)
    requires FieldsOk(phone, email) && 1 <= p < q <= |phone| + |email| + 2 && p < |phone| + 1
    requires b == Corrected || p <= 1
    ensures var m := Request(phone, email);
            var p2 := Min(q, |phone| + 1);
            PhoneStage(b, Received(phone, email, p), m[p..q]) == Stage(Received(phone, email, p2), m[p2..q], Pending)
  {
    var p2 := Min(q, |phone| + 1);
    PhoneReadAt(b, phone, email, p, q);
    ReceivedPhone(phone, email, p);
    ReceivedPhone(phone, email, p2);
    assert PhoneAt(phone, p2 - 1) == PhoneAt(phone, p - 1 + ReadLen(q - p, |phone|, p - 1));
  }

  lemma PhoneReadAt(b: Build, phone: seq<Byte>, email: seq<Byte>, p: nat, q: nat)
    requires FieldsOk(phone, email) && 1 <= p < q <= |phone| + |email| + 2 && p < |phone| + 1
    requires b == Corrected || p <= 1
    ensures var m := Request(phone, email);
            var n := ReadLen(q - p, |phone|, p - 1);
            p + n == Min(q, |phone| + 1)
            && PhoneStage(b, PhoneAt(phone, p - 1), m[p..q]) == Stage(PhoneAt(phone, p - 1 + n), m[p + n..q], Pending)
  {
    var m := Request(phone, email);
    var input := m[p..q];
    assert |input| == q - p;
    var n := ReadLen(|input|, |phone|, p - 1);
    RequestPhoneBytes(phone, email, p, q, n);
    PhoneBytesRead(b, phone, p - 1, input);
  }

  /** The email-length block on the bytes p..q of a request. */
  lemma EmailLenReceived(phone: seq<Byte>, email: seq<Byte>, p: nat, q: nat)
    requires FieldsOk(phone, email) && p <= q <= |phone| + |email| + 2
    requires p >= |phone| + 1 || p == q
    ensures var m := Request(phone, email);
            var p3 := if p == |phone| + 1 && q > p then p + 1 else p;
            EmailLenStage(Received(phone, email, p), m[p..q]) == Stage(Received(phone, email, p3), m[p3..q], Pending)
  {
    var m := Request(phone, email);
    if p == |phone| + 1 && q > p {
      RequestParts(phone, email);
      assert m[p..q][0] == |email|;
      assert m[p..q][1..] == m[p + 1..q];
      assert Partial(email, 0) == Calloc(|email| + 1);
    }
  }

  /** The email block on the bytes p..q of a request. */
  lemma EmailReceived(b: Build, phone: seq<Byte>, email: seq<Byte>, p: nat, q: nat)
    requires FieldsOk(phone, email) && p <= q <= |phone| + |email| + 2
    requires p >= |phone| + 2 || p == q
    requires b == Corrected || p <= |phone| + 2
    ensures var m := Request(phone, email);
            EmailStage(b, Received(phone, email, p), m[p..q]) == Stage(Received(phone, email, q), [], Pending)
  {
    if p < q {
      var m := Request(phone, email);
      var k := p - |phone| - 2;
      ReceivedEmail(phone, email, p);
      ReceivedEmail(phone, email, q);
      RequestEmailBytes(phone, email, p, q);
      EmailBytesRead(b, phone, email, k, m[p..q]);
      assert EmailStage(b, EmailAt(phone, email, k), m[p..q]) == Stage(EmailAt(phone, email, k + (q - p)), [], Pending);
    } else {
      var s := Received(phone, email, p);
      assert Request(phone, email)[p..q] == [];
      assert EmailStage(b, s, []) == Stage(s, [], Pending);
    }
  }

  function Min(x: nat, y: nat): (r: nat)
    ensures r <= x && r <= y && (r == x || r == y)
  {
    if x < y then x else y
  }

  /** The email block and the completion test on the bytes p..q of a
      request (csr_daemon.c:444-476). */
  lemma FromEmailReceived(b: Build, phone: seq<Byte>, email: seq<Byte>, p: nat, q: nat)
    requires FieldsOk(phone, email) && p <= q <= |phone| + |email| + 2
    requires p >= |phone| + 2 || p == q
    requires b == Corrected || p <= |phone| + 2
    ensures var m := Request(phone, email);
            FromEmail(b, Received(phone, email, p), m[p..q])
              == Step(Received(phone, email, q), q - p, StatusAt(b, Received(phone, email, q)))
  {
    EmailReceived(b, phone, email, p, q);
  }

  lemma FromEmailLenReceived(b: Build, phone: seq<Byte>, email: seq<Byte>, p: nat, q: nat)
    requires FieldsOk(phone, email) && p <= q <= |phone| + |email| + 2
    requires p >= |phone| + 1 || p == q
    requires b == Corrected || p <= |phone| + 1
    ensures var m := Request(phone, email);
            FromEmailLen(b, Received(phone, email, p), m[p..q])
              == Step(Received(phone, email, q), q - p, StatusAt(b, Received(phone, email, q)))
  {
    var m := Request(phone, email);
    var p3 := if p == |phone| + 1 && q > p then p + 1 else p;
    var s := Received(phone, email, p);
    var input := m[p..q];
    var rest := m[p3..q];
    EmailLenReceived(phone, email, p, q);
    var st := Stage(Received(phone, email, p3), rest, Pending);
    assert EmailLenStage(s, input) == st;
    FromEmailLenAfterEmailLength(b, s, input, st);
    FromEmailReceived(b, phone, email, p3, q);
    var h := FromEmail(b, Received(phone, email, p3), rest);
    assert h == Step(Received(phone, email, q), q - p3, StatusAt(b, Received(phone, email, q)));
    assert |input| - |rest| + h.consumed == q - p;
  }

  lemma FromPhoneReceived(b: Build, phone: seq<Byte>, email: seq<Byte>, p: nat, q: nat)
    requires FieldsOk(phone, email) && p <= q <= |phone| + |email| + 2
    requires p >= 1 || p == q
    requires b == Corrected || p <= 1
    ensures var m := Request(phone, email);
            FromPhone(b, Received(phone, email, p), m[p..q])
              == Step(Received(phone, email, q), q - p, StatusAt(b, Received(phone, email, q)))
  {
    var m := Request(phone, email);
    var p2 := if p < |phone| + 1 && q > p then Min(q, |phone| + 1) else p;
    PhoneReceived(b, phone, email, p, q);
    FromPhoneAfterPhone(b, Received(phone, email, p), m[p..q], Stage(Received(phone, email, p2), m[p2..q], Pending));
    FromEmailLenReceived(b, phone, email, p2, q);
  }

  /** One call of totp_read_cb on the bytes p..q of a well-formed request
      lands in the context a correct reader holds after q bytes, consumes
      all q-p bytes, and reports what the completion test says of that
      context. The code as written reaches the same context when the call
      starts no later than the first phone byte. */
  lemma StepReceived(b: Build, phone: seq<Byte>, email: seq<Byte>, p: nat, q: nat)
    requires FieldsOk(phone, email) && p <= q <= |phone| + |email| + 2
    requires b == Corrected || p <= 1
    ensures var m := Request(phone, email);
            TotpStep(b, Received(phone, email, p), m[p..q])
              == Step(Received(phone, email, q), q - p, StatusAt(b, Received(phone, email, q)))
  {
    var m := Request(phone, email);
    var p1 := if p == 0 && q > 0 then 1 else p;
    PhoneLenReceived(phone, email, p, q);
    TotpStepAfterPhoneLength(b, Received(phone, email, p), m[p..q], Stage(Received(phone, email, p1), m[p1..q], Pending));
    FromPhoneReceived(b, phone, email, p1, q);
  }

  /** A request that arrives in one piece is taken apart correctly by the
      code as written as well: phone and email each end up NUL-terminated
      and exactly the request's bytes are consumed. */
  lemma WholeRequest(b: Build, phone: seq<Byte>, email: seq<Byte>)
    requires FieldsOk(phone, email)
    ensures var r := TotpStep(b, CreateTotpCtx(), Request(phone, email));
            r.status == AllFields(phone + [0], email + [0])
            && r.consumed == |phone| + |email| + 2
  {
    var m := Request(phone, email);
    StepReceived(b, phone, email, 0, |m|);
    ReceivedComplete(phone, email, |m|);
    assert m[0..|m|] == m;
  }

  /* ---------------- Requests split across reads ---------------- */

  /** Where a TOTP connection stands after some reads. */
  datatype Progress = Progress(state: TotpState, status: TotpStatus)

  /** totp_read_cb invoked once per arriving chunk, starting from a fresh
      context. A Pending call consumes everything waiting (TotpStep), so each
      call sees exactly the new chunk. After any other status the context
      has been freed and later chunks are not looked at. */
  function TotpFeed(b: Build, chunks: seq<seq<Byte>>): (r: Progress)
    ensures r.status == Pending ==> TotpValid(r.state)
    ensures r.status.AllFields? ==> AllReceived(b, r.state) && r.status == AllFields(r.state.phoneNum, r.state.email)
  {
    if chunks == [] then Progress(CreateTotpCtx(), Pending)
    else
      var prev := TotpFeed(b, chunks[..|chunks| - 1]);
      if prev.status != Pending then prev
      else
        var r := TotpStep(b, prev.state, chunks[|chunks| - 1]);
        Progress(r.state, r.status)
  }

  /** Feeding any non-empty chunks that make up a prefix of a request leaves
      the corrected reader in the context Received describes. */
  lemma {:induction false} FeedPrefix(phone: seq<Byte>, email: seq<Byte>, chunks: seq<seq<Byte>>)
    requires FieldsOk(phone, email)
    requires forall i :: 0 <= i < |chunks| ==> |chunks[i]| > 0
    requires var f := Flatten(chunks);
             |f| <= |phone| + |email| + 2 && f == Request(phone, email)[..|f|]
    ensures var n := |Flatten(chunks)|;
            TotpFeed(Corrected, chunks) == Progress(Received(phone, email, n), StatusAt(Corrected, Received(phone, email, n)))
  {
    if chunks != [] {
      var m := Request(phone, email);
      var init := chunks[..|chunks| - 1];
      var c := chunks[|chunks| - 1];
      var n0 := |Flatten(init)|;
      var n := |Flatten(chunks)|;
      assert Flatten(chunks) == Flatten(init) + c;
      assert Flatten(init) == m[..n0] by {
        assert Flatten(chunks)[..n0] == Flatten(init);
      }
      assert c == m[n0..n] by {
        assert Flatten(chunks)[n0..] == c;
      }
      FeedPrefix(phone, email, init);
      ReceivedComplete(phone, email, n0);
      StepReceived(Corrected, phone, email, n0, n);
    }
  }

  /** However the request is split into reads, the corrected reader hands
      over the phone number and the email, each NUL-terminated, once the
      last byte has arrived. */
  lemma ChunkedRequest(phone: seq<Byte>, email: seq<Byte>, chunks: seq<seq<Byte>>)
    requires FieldsOk(phone, email)
    requires forall i :: 0 <= i < |chunks| ==> |chunks[i]| > 0
    requires Flatten(chunks) == Request(phone, email)
    ensures TotpFeed(Corrected, chunks).status == AllFields(phone + [0], email + [0])
  {
    var m := Request(phone, email);
    assert m[..|m|] == m;
    FeedPrefix(phone, email, chunks);
    ReceivedComplete(phone, email, |m|);
  }

  /** Feeding two chunks, when the first leaves the request pending in s1. */
  lemma FeedTwo(b: Build, c1: seq<Byte>, c2: seq<Byte>, s1: TotpState)
    requires TotpFeed(b, [c1]) == Progress(s1, Pending)
    ensures var r := TotpStep(b, s1, c2);
            TotpFeed(b, [c1, c2]) == Progress(r.state, r.status)
  {
    assert [c1, c2][..1] == [c1];
  }

  /** The first read of a request, as written, while it stops within the
      phone number. */
  lemma FirstReadAsWritten(phone: seq<Byte>, email: seq<Byte>, chunks: seq<seq<Byte>>, n: nat)
    requires FieldsOk(phone, email) && 1 <= n <= |phone| + |email| + 2
    requires |chunks| >= 1 && chunks[0] == Request(phone, email)[..n]
    ensures TotpFeed(AsWritten, chunks[..1]) == Progress(Received(phone, email, n), StatusAt(AsWritten, Received(phone, email, n)))
  {
    assert chunks[..1][..0] == [];
    StepReceived(AsWritten, phone, email, 0, n);
    assert Request(phone, email)[0..n] == chunks[0];
  }

  /** As written, a phone number split across two reads is stored over
      itself (csr_daemon.c:419): the two-byte number x y sent as x, then y
      with the rest of the request, reaches the SMS sender as y. */
  lemma SplitPhoneAsWritten(x: Byte, y: Byte, z: Byte)
    ensures TotpFeed(AsWritten, [[2, x], [y, 1, z]]).status == AllFields([y, 0, 0], [z, 0])
  {
    SplitPhoneFirstRead(x, y, z);
    SplitPhoneSecondRead(x, y, z);
    FeedTwo(AsWritten, [2, x], [y, 1, z], TotpState(2, 1, [x, 0, 0], 0, 0, []));
  }

  lemma SplitPhoneFirstRead(x: Byte, y: Byte, z: Byte)
    ensures TotpFeed(AsWritten, [[2, x]]) == Progress(TotpState(2, 1, [x, 0, 0], 0, 0, []), Pending)
  {
    var chunks: seq<seq<Byte>> := [[2, x]];
    assert Request([x, y], [z]) == [2, x, y, 1, z];
    FirstReadAsWritten([x, y], [z], chunks, 2);
    assert chunks[..1] == chunks;
    ReceivedPhone([x, y], [z], 2);
    assert PhoneAt([x, y], 1) == TotpState(2, 1, [x, 0, 0], 0, 0, []) by {
      assert Partial([x, y], 1) == [x, 0, 0];
    }
  }

  lemma SplitPhoneSecondRead(x: Byte, y: Byte, z: Byte)
    ensures TotpStep(AsWritten, TotpState(2, 1, [x, 0, 0], 0, 0, []), [y, 1, z])
              == Step(TotpState(2, 2, [y, 0, 0], 1, 1, [z, 0]), 3, AllFields([y, 0, 0], [z, 0]))
  {
    var s1 := TotpState(2, 1, [x, 0, 0], 0, 0, []);
    var input: seq<Byte> := [y, 1, z];
    var s2 := TotpState(2, 2, [y, 0, 0], 0, 0, []);
    var s3 := TotpState(2, 2, [y, 0, 0], 1, 0, [0, 0]);
    var s4 := TotpState(2, 2, [y, 0, 0], 1, 1, [z, 0]);
    assert PhoneStage(AsWritten, s1, input) == Stage(s2, [1, z], Pending) by {
      assert input[..1] == [y] && input[1..] == [1, z];
    }
    assert EmailLenStage(s2, [1, z]) == Stage(s3, [z], Pending) by {
      assert [1, z][1..] == [z];
    }
    assert FromEmail(AsWritten, s3, [z]) == Step(s4, 1, AllFields([y, 0, 0], [z, 0])) by {
      assert [z][..1] == [z] && [z][1..] == [];
      assert EmailStage(AsWritten, s3, [z]) == Stage(s4, [], Pending);
    }
  }

  /** As written, an email split across two reads is stored over itself
      (csr_daemon.c:456): the two-byte email y z sent as y, then z, is
      handed over as z. */
  lemma SplitEmailAsWritten(x: Byte, y: Byte, z: Byte)
    ensures TotpFeed(AsWritten, [[1, x, 2, y], [z]]).status == AllFields([x, 0], [z, 0, 0])
  {
    var s1 := TotpState(1, 1, [x, 0], 2, 1, [y, 0, 0]);
    SplitEmailFirstRead(x, y, z);
    SplitEmailSecondRead(x, y, z);
    FeedTwo(AsWritten, [1, x, 2, y], [z], s1);
  }

  lemma SplitEmailFirstRead(x: Byte, y: Byte, z: Byte)
    ensures TotpFeed(AsWritten, [[1, x, 2, y]]) == Progress(TotpState(1, 1, [x, 0], 2, 1, [y, 0, 0]), Pending)
  {
    var chunks: seq<seq<Byte>> := [[1, x, 2, y]];
    assert Request([x], [y, z]) == [1, x, 2, y, z];
    FirstReadAsWritten([x], [y, z], chunks, 4);
    ReceivedComplete([x], [y, z], 4);
    assert chunks[..1] == chunks;
    ReceivedEmail([x], [y, z], 4);
    assert EmailAt([x], [y, z], 1) == TotpState(1, 1, [x, 0], 2, 1, [y, 0, 0]) by {
      assert Partial([x], 1) == [x, 0];
      assert Partial([y, z], 1) == [y, 0, 0];
    }
  }

  lemma SplitEmailSecondRead(x: Byte, y: Byte, z: Byte)
    ensures TotpStep(AsWritten, TotpState(1, 1, [x, 0], 2, 1, [y, 0, 0]), [z])
              == Step(TotpState(1, 1, [x, 0], 2, 2, [z, 0, 0]), 1, AllFields([x, 0], [z, 0, 0]))
  {
    var s1 := TotpState(1, 1, [x, 0], 2, 1, [y, 0, 0]);
    var input: seq<Byte> := [z];
    var s4 := TotpState(1, 1, [x, 0], 2, 2, [z, 0, 0]);
    assert EmailStage(AsWritten, s1, input) == Stage(s4, [], Pending) by {
      assert input[..1] == [z] && input[1..] == [];
    }
    assert FromEmail(AsWritten, s1, input) == Step(s4, 1, AllFields([x, 0], [z, 0, 0]));
  }

  /** As written, a read that ends right after the phone number completes
      the request with no email, since both email counters are still 0
      (csr_daemon.c:461); the rest of the request is never read. */
  lemma EarlyCompletionAsWritten(x: Byte, more: seq<Byte>)
    ensures TotpFeed(AsWritten, [[1, x], more]).status == AllFields([x, 0], [])
  {
    var chunks: seq<seq<Byte>> := [[1, x], more];
    FirstReadAsWritten([x], [1], chunks, 2);
    assert PhoneAt([x], 1) == TotpState(1, 1, [x, 0], 0, 0, []);
    assert chunks[..2] == chunks;
  }
}
