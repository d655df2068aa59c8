# ssa-daemon CSR/TOTP daemon core, modelled in Dafny

This project models the request-handling core of the ssa-daemon CSR
daemon (`csr_daemon.c`) and the OTP engine it relies on (`otp.c`).

A client connection starts with one selector byte (`new_read_cb`):
- `'0'` selects a TOTP request (`totp_read_cb`). Its payload is
  `[phone length][phone][email length][email]`. It is collected across
  reads into a `totp_ctx_t`.
- `'1'` selects TOTP validation (`validate_totp_read_cb`, an empty stub).
- `'2'` selects a certificate signing request (`csr_read_cb`). The request
  is accumulated until its last byte is NUL. It is then handed to the
  issuer, the serial number is bumped, and the PEM certificate or
  `FAIL_MSG` is written back.

The OTP engine does the following:
- normalises a base32 secret;
- builds the 8-byte big-endian counter block;
- HMACs that block with the decoded secret;
- applies RFC 4226 dynamic truncation;
- reduces the result modulo `DIGITS_POWER[N]` and prints it zero-padded
  (`finalize`);
- derives TOTP counters from a timestamp and a period (RFC 6238 section 4.2);
- verifies a submitted code.

Layout:

| file | module | contents |
|---|---|---|
| `wrappers.dfy` | `Wrappers` | `Option`, `Result` |
| `variant.dfy` | `Variant` | `Build = AsWritten \| Corrected`, which selects the code as written or its corrected reading wherever a finding applies |
| `bytes.dfy` | `Bytes` | bytes; big-endian encoding; C `long`; C truncating division; `Flatten` of a chunk sequence |
| `decimal.dfy` | `Decimal` | `DIGITS_POWER`; printf `%d` and `%.Nd`; `finalize` |
| `otp.dfy` | `Otp` | everything in `otp.c` that is modelled |
| `totp_framer.dfy` | `TotpFramer` | `totp_read_cb` as a pure step function `TotpStep`, plus its properties over whole and split requests |
| `csr_framer.dfy` | `CsrFramer` | `csr_read_cb` as a pure step function `CsrStep`, plus its properties over split requests |
| `daemon.dfy` | `Daemon` | the callbacks as imperative methods on classes (`BufferEvent`, `TotpCtx`, `ValidateTotpCtx`, `CsrCtx`, `ConCtx`), each proved equal to the pure step |

The libevent buffer is the `BufferEvent` class. Its `input` field holds the
bytes waiting, `output` the bytes written back, and `handler` the installed
read callback with its context. `Read`, `Write` and `SetHandler` stand for
`bufferevent_read`, `bufferevent_write` and `bufferevent_setcb`.

`totp_read_cb` is written as four blocks, each an imperative method:
`ReadPhoneLength`, `ReadPhone`, `ReadEmailLength` and `ReadEmail`. Each is
proved to produce the context and remaining input of the matching stage
function: `PhoneLenStage`, `PhoneStage`, `EmailLenStage` and `EmailStage`.
`TotpRead` chains the four blocks, and its contract is `TotpStep`.

Foreign calls are parameters:
- HMAC and base32 decoding are fields of `Otp.Crypto`. The HMAC is only
  known to return a digest of the algorithm's length.
- The certificate issuer is `CsrFramer.Issuer`. It combines
  `get_csr_from_buf`, `issue_certificate` and `X509_to_PEM`.
- The current time is the `now` argument of `Otp.TotpVerify`.

Where the code departs from what the protocol evidently intends, the
model follows the code:
- A length byte is read into a plain `char`. The model takes that type to
  be signed, as it is on x86-64 and most other ABIs, so bytes 128-255 are
  rejected like 0 (`TotpFramer.SignedChar`).
- Buffers are `calloc`ed one byte longer than the declared length and end
  in NUL.
- The serial number is bumped after every issuance attempt, including one
  that fails (`csr_daemon.c:280`).
- `new_read_cb` creates a new CSR context, with serial 0, for every CSR
  connection (`csr_daemon.c:546`).
- A selector byte other than `'0'`-`'2'` is only logged. The connection
  stays with `new_read_cb`.
- The TOTP counter is `current_timestamp / period` with C division. This
  truncates toward zero, not floor, for negative timestamps.
- A phone or email read that is split across calls is stored at the start
  of its buffer. The completion test also holds before any email-length
  byte has arrived. See Findings.

## Model

| member | source | states |
|---|---|---|
| Decimal.DigitsPowerIsPow10 | otp.c:17 | entry n of DIGITS_POWER is 10^n, for n = 0..8 |
| Decimal.Numeral | otp.c:124-126 | the `%d` rendering of n is a non-empty digit string with no leading zero whose decimal value is n |
| Decimal.NumeralFits | otp.c:126 | the numeral of n fits in N characters exactly when n < 10^N |
| Decimal.PrecisionPadValue | otp.c:122-126 | `%.Nd` zero-padding yields at least N digits and keeps the value |
| Decimal.Finalize | otp.c:114-130 | finalize yields at most N digits; a token below 10^N yields exactly N digits whose value is the token |
| Bytes.DecodeEncode | otp.c:96-99 | decoding the n-byte big-endian encoding of x gives x mod 256^n |
| Bytes.EncodeBEAt | otp.c:96-99 | byte j, counted from the least significant end, of the big-endian encoding is (x / 256^j) mod 256 |
| Bytes.CDiv | otp.c:218 | C division by a positive divisor truncates toward zero; the bounds are stated separately for non-negative and negative dividends |
| Otp.DigestSize | otp.c:13-15 | digest sizes are 20, 32 and 64 bytes for SHA1, SHA256 and SHA512 |
| Otp.Normalized | otp.c:35-52 | the normalised secret is no longer than the input and contains no space and no lower-case letter |
| Otp.NormalizedAppend | otp.c:41-50 | normalisation works character by character, in order |
| Otp.NormalizedFixpoint | otp.c:41-50 | a string with no spaces and no lower-case letters is left unchanged |
| Otp.NormalizedIdempotent | otp.c:35-52 | normalising twice is the same as normalising once |
| Otp.NormalizeSecret | otp.c:35-52 | the copying loop over a zeroed buffer returns exactly Normalized(K) |
| Otp.CounterBytesDecode | otp.c:96-99 | the counter block read as a big-endian number is C mod 2^64, which is C itself when C >= 0 |
| Otp.ReverseCounterBytes | otp.c:96-99 | the byte-reversal loop over the little-endian host bytes of C yields the big-endian block CounterBytes(C) |
| Otp.DynamicOffset | otp.c:58-72 | the offset is the low four bits of the digest's last byte, and offset+3 lies inside the digest |
| Otp.BinCode | otp.c:74-75 | bin_code is non-negative and below 2^31 |
| Otp.BinCodeIsLast31Bits | otp.c:74-75 | bin_code equals the last 31 bits of the four bytes at the offset, read big-endian (RFC 4226 section 5.3) |
| Otp.Truncate | otp.c:55-80 | the token is below 10^N and equals the RFC 4226 truncation of the digest modulo 10^N |
| Otp.ComputeHmac | otp.c:83-111 | it fails exactly when the normalised secret is not valid base32; otherwise it returns a digest of the algorithm's size, the HMAC of the counter block under the decoded secret |
| Otp.CheckPeriod | otp.c:133-140 | the result is Valid exactly for periods 30 and 60, and InvalidPeriod otherwise |
| Otp.CheckOtpLen | otp.c:143-150 | the result is Valid exactly for 6 and 8 digits, and InvalidDigits otherwise |
| Otp.CheckAlgo | otp.c:153-161 | the result is Valid exactly for SHA1, SHA256 and SHA512, and InvalidAlgo otherwise |
| Otp.GetHotp | otp.c:164-190 | the algorithm is checked, then the digit count, and an invalid base32 secret gives InvalidB32Input; success yields exactly `digits` decimal characters |
| Otp.HotpMatchesRfc | otp.c:182-189 | a successful HOTP token reads back as the RFC 4226 value of the HMAC of the counter block, modulo 10^digits |
| Otp.TimeStep | otp.c:218 | for a non-negative timestamp, the TOTP counter is timestamp / period |
| Otp.GetTotpAt | otp.c:200-227 | digits are checked before the period, then GetHotp runs at the time step and its result, errors included, is passed on unchanged |
| Otp.SameWindowSameTotp | otp.c:218-221 | two timestamps in the same period window give the same TOTP result |
| Otp.TotpVerify | otp.c:230-248 | a generation error is returned as is; otherwise the result is Valid exactly when the submitted string equals the current TOTP, and InvalidOtp otherwise |
| TotpFramer.CreateTotpCtx | csr_daemon.c:147-161 | a fresh context has zero counters, no buffers, and satisfies the context invariant |
| TotpFramer.SignedChar | csr_daemon.c:399-402 | a length byte is positive as a signed char exactly when it is 1..127 |
| TotpFramer.StoreParts | csr_daemon.c:419 | a read into a buffer puts the data at the given offset and leaves the other bytes unchanged |
| TotpFramer.PhoneLenStage | csr_daemon.c:397-410 | with no phone length known and input waiting, it consumes one byte; it rejects exactly a byte that is 0 or 128..255, and otherwise allocates a NUL-filled buffer of length+1 |
| TotpFramer.ReadLen | csr_daemon.c:413-418 | a field read takes everything waiting, but no more than the field still lacks |
| TotpFramer.PhoneStage | csr_daemon.c:412-422 | phone bytes consumed = ReadLen, the counter advances by that much, the invariant is kept, and nothing happens once the number is complete |
| TotpFramer.PhoneStageStores | csr_daemon.c:412-422 | the bytes read land at offset 0 as written and at the current offset when corrected; the corrected reader keeps earlier bytes |
| TotpFramer.EmailLenStage | csr_daemon.c:424-442 | the email-length byte is read only when the email counter equals its declared length and that length is 0; the rejection condition matches the phone length byte; the new buffer is NUL-filled |
| TotpFramer.EmailStage | csr_daemon.c:444-459 | email bytes consumed = ReadLen, the counter advances by that much and the invariant is kept |
| TotpFramer.EmailStageStores | csr_daemon.c:444-459 | where email bytes land (see PhoneStageStores) |
| TotpFramer.TotpStep | csr_daemon.c:387-477 | one call: it never consumes more than is waiting; it rejects a bad phone length after exactly one byte; it completes exactly when the completion test holds, handing over both buffers; a pending call consumes everything waiting |
| TotpFramer.FromPhone | csr_daemon.c:412-476 | the call from the phone block on, with the same guarantees |
| TotpFramer.FromEmailLen | csr_daemon.c:424-476 | the call from the email-length block on, with the same guarantees |
| TotpFramer.FromEmailLenRejects | csr_daemon.c:433-437 | a rejected email-length byte ends the call after that one byte, with the rejecting stage's context and status BadEmailLength |
| TotpFramer.FromEmail | csr_daemon.c:444-476 | the email block and the completion test: the status is AllFields exactly when the new context passes the test |
| TotpFramer.ReceivedComplete | csr_daemon.c:461 | the corrected test holds exactly at the end of a request; as written it also holds on the empty context and right after the phone number |
| TotpFramer.StepReceived | csr_daemon.c:387-477 | one call on bytes p..q of a well-formed request reaches the context a correct reader holds after q bytes; as written this holds when p <= 1 |
| TotpFramer.WholeRequest | csr_daemon.c:387-477 | a request that arrives in one read is taken apart correctly, even as written: both fields end in NUL and exactly the request's bytes are consumed |
| TotpFramer.TotpFeed | csr_daemon.c:387-477 | the callback over successive chunks: pending keeps the invariant, and completion hands over the buffers of a context that passes the test |
| TotpFramer.FeedPrefix | csr_daemon.c:412-459 | corrected, any split of a request prefix into reads leaves the context a correct reader holds |
| TotpFramer.ChunkedRequest | csr_daemon.c:412-476 | corrected, however a request is split into reads, the phone number and email are handed over intact, each NUL-terminated |
| TotpFramer.SplitPhoneAsWritten | csr_daemon.c:419 | as written, phone x y sent as x, then y + rest, reaches the SMS sender as y |
| TotpFramer.SplitEmailAsWritten | csr_daemon.c:456 | as written, email y z sent as y, then z, is handed over as z |
| TotpFramer.EarlyCompletionAsWritten | csr_daemon.c:461 | as written, a read that ends right after the phone number completes the request with no email |
| CsrFramer.CreateCsrCtx | csr_daemon.c:175-184 | a new CSR context has serial 0 and CERT_DAYS days |
| CsrFramer.Grow | csr_daemon.c:258-266 | the buffer size never shrinks and is kept when it suffices; as written it becomes max(2*recv_len, 2*max_length); corrected, it always suffices |
| CsrFramer.Reply | csr_daemon.c:282-299 | the reply is FAIL_MSG with its NUL, or the PEM text plus NUL |
| CsrFramer.CsrStep | csr_daemon.c:246-304 | all waiting bytes are appended; a request is processed exactly when the last accumulated byte is NUL; processing passes the accumulated bytes, serial and days to the issuer and bumps the serial whatever the outcome; the buffer is freed only after a failed PEM encoding |
| CsrFramer.CsrFeed | csr_daemon.c:246-304 | over successive chunks, a live buffer holds as many bytes as received and days never change |
| CsrFramer.FeedAccumulates | csr_daemon.c:268-273 | chunks with no NUL byte are only accumulated: nothing is written and the buffer holds exactly the bytes received |
| CsrFramer.ChunkedRequest | csr_daemon.c:268-299 | however P + NUL is split into reads, it is processed once, with serial 0, and the reply for that outcome is written |
| CsrFramer.GrowthOverflowAsWritten | csr_daemon.c:258-268 | as written, reads of 2, 2 and 3 bytes leave 7 bytes in a 6-byte buffer |
| CsrFramer.CapacityCorrected | csr_daemon.c:258-266 | with the corrected growth rule the buffer always holds what has been received |
| Daemon.BufferEvent.constructor | csr_daemon.c:344-354 | a new connection holds the received bytes, has no output and is served by new_read_cb |
| Daemon.BufferEvent.Read | csr_daemon.c:399 | bufferevent_read takes min(n, waiting) bytes from the front of the input |
| Daemon.BufferEvent.Write | csr_daemon.c:284 | bufferevent_write appends to the output |
| Daemon.BufferEvent.SetHandler | csr_daemon.c:531 | bufferevent_setcb installs the callback and its context |
| Daemon.TotpCtx.constructor | csr_daemon.c:147-161 | create_totp_ctx gives the state CreateTotpCtx |
| Daemon.ValidateTotpCtx.constructor | csr_daemon.c:163-173 | create_validate_totp_ctx: access code 0, no TOTP, no connection |
| Daemon.CsrCtx.constructor | csr_daemon.c:175-184 | create_csr_ctx: serial 0, CERT_DAYS |
| Daemon.ConCtx.constructor | csr_daemon.c:37-42 | a new connection context has an empty buffer and refers to its CSR context |
| Daemon.ValidateTotpRead | csr_daemon.c:491-493 | the validation callback changes nothing |
| Daemon.ReadPhoneLength | csr_daemon.c:397-410 | the block leaves the context and input PhoneLenStage describes and reports rejection exactly as it does |
| Daemon.ReadPhone | csr_daemon.c:412-422 | the block leaves the context and input PhoneStage describes |
| Daemon.ReadEmailLength | csr_daemon.c:424-442 | the block leaves the context and input EmailLenStage describes |
| Daemon.ReadEmail | csr_daemon.c:444-459 | the block leaves the context and input EmailStage describes |
| Daemon.ReadFromEmail | csr_daemon.c:444-476 | the new context, bytes consumed and status are FromEmail's |
| Daemon.ReadFromEmailLength | csr_daemon.c:424-476 | the new context, bytes consumed and status are FromEmailLen's |
| Daemon.ReadFromPhone | csr_daemon.c:412-476 | the new context, bytes consumed and status are FromPhone's |
| Daemon.TotpRead | csr_daemon.c:387-477 | totp_read_cb: the new context, bytes consumed and status are TotpStep's, and nothing is written back |
| Daemon.CsrRead | csr_daemon.c:246-304 | csr_read_cb: the connection state, CSR context and reply are CsrStep's, and all input is consumed |
| Daemon.RequestNum | csr_daemon.c:517-521 | the result is the digit's value for an ASCII digit and -1 otherwise |
| Daemon.Select | csr_daemon.c:527-554 | '0', '1' and '2', and only they, select the TOTP, validation and CSR handlers |
| Daemon.NewRead | csr_daemon.c:506-558 | with input waiting, exactly the selector byte is taken and the selected handler installed with a new context; TOTP runs at once on what is left and its status is returned (none when nothing is left or another handler is selected); any other byte leaves the handler as it was |
| Daemon.SelectedRequestCompletes | csr_daemon.c:527-538 | a well-formed TOTP request sent in one read behind its '0' selector is completed by the inline totp_read_cb call: both fields are handed over NUL-terminated and every byte after the selector is consumed |

## Left out

- check_gcrypt and the GCRYPT_VERSION_MISMATCH error: libgcrypt initialisation is not modelled.
- The HMAC key length `secret_len` of compute_hmac (otp.c:87): it is computed in floating point. The HMAC parameter receives the decoded secret itself.
- base32_decode, the libgcrypt HMAC, get_csr_from_buf, issue_certificate and X509_to_PEM: these are foreign calls and enter as parameters.
- get_totp: it reads the clock with time(NULL). TotpVerify takes the current time as a parameter instead.
- Allocation failure in finalize (malloc returning NULL) is not modelled.
- Otp.Truncate: requires a supported algorithm. The switch's default branch (offset 0) is unreachable from get_hotp, which checks the algorithm first.
- Decimal.Finalize: requires 1 <= N <= 9 and tk >= 0. The format string has room for one precision digit, and callers only pass 6 or 8 with a non-negative token.
- Memory management is not modelled: calloc/malloc/free, the email buffer that is never freed, and new_read_cb's free of its own (always NULL) context.
- Use after free is not modelled. After a Bad Request or a completion, totp_read_cb frees its context while the callback stays installed. TotpFeed stops at that point, and Daemon.TotpRead requires a live context (TotpValid).
- Daemon.CsrRead: requires a live buffer (ConValid). After a failed PEM encoding the source frees the buffer and sets it to NULL but keeps `length`, so a later read writes through a NULL pointer. CsrFeed stops at that point.
- The type confusion at csr_daemon.c:546 is not modelled. There, csr_read_cb receives the csr_ctx_t from create_csr_ctx where it expects a con_ctx_t. The model gives it a new, well-typed connection context (empty buffer) that refers to a new CSR context.
- CA certificate and key loading, ssl_ctx_init, the listener, signal handling and the event loop are not modelled. Nor are the event callbacks (csr_event_cb, new_event_cb, totp_event_cb, validate_totp_event_cb) or csr_server_create.
- generate_totp, twilio_send_message, email delivery and all logging are I/O. A complete TOTP request is the AllFields status, which carries the buffers that would be sent.
- atoi on the one-byte, unterminated `first_byte` buffer is modelled as the digit's value.
- Reading cert[length-1] when nothing has been received (length 0): an empty buffer counts as not terminated.
- Integer widths: the serial number, `max_length` and `recv_len*2` are unbounded integers. Overflow of these `int` and `size_t` values is not modelled.
- copy_cert is an unused stub that returns 0, and is not part of this model.
- TotpFramer.SignedChar: takes plain `char` to be signed. Where it is unsigned (the ARM and PowerPC ABIs), a length byte of 128-255 would be accepted as a length of 128-255 instead of rejected; the model does not cover that platform.

## Findings

| source | as written | input that shows it | evidently intended | confidence | as-written member | corrected member |
|---|---|---|---|---|---|---|
| csr_daemon.c:419 | each partial read of phone bytes is stored at the start of phone_num | phone length 2; reads [2, x] then [y, 1, z] | store at offset phone_length; the SMS goes to x y, not y | not executed | TotpFramer.SplitPhoneAsWritten | TotpFramer.ChunkedRequest |
| csr_daemon.c:456 | each partial read of email bytes is stored at the start of email | email length 2; reads [1, x, 2, y] then [z] | store at offset email_length; the email is y z, not z | not executed | TotpFramer.SplitEmailAsWritten | TotpFramer.ChunkedRequest |
| csr_daemon.c:461 | the completion test compares counters only, so it holds while both email counters are still 0 | reads [1, x] then the rest | complete only once both declared lengths are known and reached | not executed | TotpFramer.EarlyCompletionAsWritten | TotpFramer.ChunkedRequest |
| csr_daemon.c:258-266 | the new buffer size is computed from recv_len alone, not length + recv_len | CSR reads of 2, 2 and 3 non-NUL bytes | grow to hold length + recv_len; as written 7 bytes go into a 6-byte buffer | not executed | CsrFramer.GrowthOverflowAsWritten | CsrFramer.CapacityCorrected |
