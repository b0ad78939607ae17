# Timestamping service: verification model

The service lets a user log in to a multi-threaded server over an encrypted connection, have document hashes
signed together with a timestamp against a per-user quota, and later verify the signatures from a local file.
This project models that system in Dafny and proves what it promises, from the bytes of one record up to whole runs.

Code that works in place is modelled in place: classes with the source's fields, fixed arrays written through the
source's offsets, and its loops. Each such method is proved against a function on values, and the state machines
use those same functions, so the theorems about runs speak of what the methods do.

| file | part of the system |
|---|---|
| `Base.dfy`, `Primitives.dfy` | sizes, wire codes, memcpy; the OpenSSL primitives as unknown functions with laws that are shown to be satisfiable |
| `Record.dfy`, `Connection.dfy` | records, `encSend`, `decRecv`, the counting cipher over buffers |
| `SecureChannel.dfy` | both directions of a channel under an active network |
| `Handshake.dfy`, `Agreement.dfy` | both `performHandshake` bodies in place; any number of handshakes under an active network |
| `Hash.dfy`, `Users.dfy` | hexadecimal text, search, password check, quota |
| `Ledger.dfy`, `Quota.dfy` | the quota and its file under interleaved workers, one memory access per step |
| `Schedules.dfy`, `Overrun.dfy` | runs from start-up in which a quota is exceeded, and exactly when there are any |
| `Credits.dfy`, `Refinement.dfy` | credits against signatures on one connection; the server's steps and the ledger's accesses as two pictures of one worker |
| `WorkerPool.dfy` | hand-off of accepted sockets |
| `Server.dfy`, `ResponseManager.dfy`, `Worker.dfy` | credential parsing, requests in one aliased buffer, the worker's loops |
| `Parsing.dfy` | what stale buffer bytes can do to a parse |
| `SignatureStore.dfy`, `Client.dfy`, `SessionManager.dfy` | the signature file, the client's commands in place |
| `Session.dfy` | one client and one worker composed over two unframed byte streams |

Assumptions, all explicit in the definitions: a record whose tag verifies under a counter was sealed under that
counter by one of the two ends (`SecureChannel.Enabled`); a signature that verifies over two nonces and two keys was
made over them by some server session, and nonces are fresh (`Agreement.Enabled`); both are stated of the
primitives, not of the code under proof; memory is sequentially consistent; both hosts are little-endian; the client
holds the public keys of the keys the server signs with; a send is delivered whole or fails; one recv returns the
pending bytes up to its limit. The composed system of `Session.dfy` has no failing sends, receives or disk writes;
the server alone (`Server.Play`) and the class methods have every failure. Random values, clock readings and library
failures are parameters.

Where a promise does not hold of the code as it stands, the exact condition is proved instead:

* Two workers consuming for one user: a sign request keeps the accounts exact under every schedule iff, when it
  enters, the user has no credit left or nobody else is in the unlocked lines for that user. From start-up, a user can
  be given more signatures than credits iff there are two workers and a credit to begin with
  (`Overrun.QuotaExceededExactly`); `Overrun.OneCreditTakenTwice` is the shortest such run, after which 2^32 - 1
  credits remain.
* The saved file lags memory only behind a worker of the same user, except while it is being rewritten, because
  opening it for writing empties it first.
* The plaintexts an end accepts are a prefix of what its peer sent iff none of its own records came back to it with a
  different message: both directions share one key and both counters start at 0. At 2^32 sends it fails even with
  the directions kept apart (`SecureChannel.BoundIsSharp`).
* A login is answered with one record per attempt iff its last receive succeeded; after a failed receive ERROR is sent
  twice.
* Appending after a torn final record keeps searches exact iff the torn part is empty, and a reply keeps a store free of
  torn records iff there is nothing to store or the disk takes nothing or the whole line.
* The parse of a message is independent of stale buffer bytes iff the message is settled: its first 30 bytes hold no
  NUL, or it starts with one, or its name ends in one and the password window is complete or has a NUL in it or after it.
  Messages of the source's own client always are; `Parsing.StaleBytesLogIn` gives a second attempt of one byte
  that logs a user in with the password an earlier attempt left behind.

## Model

| member | source | states |
|---|---|---|
| Record.DeliveredRecord | utility/Connection.cpp:54-132 | for ends whose counters agree and 1 to 105 bytes, the receiver gets exactly the sent message and its length from one record of at most 137 bytes, and the counters agree again |
| Record.AcceptedExactly | utility/Connection.cpp:99-131 | a receive returns a message iff the first 137 pending bytes are some iv, the message under it, and the tag over iv, current receive counter and ciphertext |
| Record.ReceivedExactly | utility/Connection.cpp:86-132 | every receive by the bytes pending: 0 for none, -1 for a failed, short or wrongly tagged one, otherwise the length; the decryption lands in the buffer even when the tag is wrong, and only a right tag moves the counter |
| Record.SentExactly | utility/Connection.cpp:54-84 | every send: the counter moves iff a record was sealed, delivered or not, and the record is iv, ciphertext and the tag over the send counter |
| Record.SealOpen | utility/CryptoSym.cpp:62-86 | whatever opens is the sealing of what it opens to; decryption accepts nothing else |
| Connection.CryptoSym.Encrypt | utility/CryptoSym.cpp:38-59 | writes ciphertext and tag at their offsets and nothing else, for the counter before the call, then advances it |
| Connection.CryptoSym.Decrypt | utility/CryptoSym.cpp:62-86 | the plaintext is in the buffer either way, OK iff the tag matches iv, current counter and ciphertext, and only OK advances the counter |
| Connection.Connection.EncSend | utility/Connection.cpp:54-84 | iv, ciphertext and tag regions make up exactly one sealed record; every error return and its effect on counter and stream |
| Connection.Connection.DecRecv | utility/Connection.cpp:86-132 | length, counter and buffer after every kind of receive, including closed, failed, short and rejected records |
| SecureChannel.AcceptedIsIthOfAnEnd | utility/CryptoSym.cpp:38-86 | with fewer than 2^32 sends per end, under drop, replay, reorder and injection, the i-th accepted message is the i-th message of one of the ends |
| SecureChannel.PrefixExactly | utility/CryptoSym.cpp:38-86 | accepted is a prefix of what the peer sent iff every own record that came back carried the peer's message at that position |
| SecureChannel.AcceptanceKeepsPrefixExactly | utility/CryptoSym.cpp:62-86 | accepting one more record keeps the prefix iff it is the peer's, or the peer has already sent that message at that index |
| SecureChannel.PrefixWhenApart | utility/CryptoSym.cpp:38-86 | on a network that keeps the directions apart the prefix always holds |
| SecureChannel.RejectionsLeaveNoTrace | utility/Connection.cpp:111-129 | any run with every rejected receive taken out ends in the same keys, counters and accepted messages (the caller's buffer, which a rejected record does overwrite, is `Connection.Connection.DecRecv`'s matter) |
| SecureChannel.OwnRecordComesBack | client/ClientAsym.cpp:211-224 | one key and equal first counters for both directions: an end's own first record, returned to it, is accepted |
| SecureChannel.WrappedCounterReopens | utility/CryptoSym.cpp:12-13 | in any reachable state after a full round of the counter the peer's first record opens again, and the prefix survives iff the peer sent that same message at this position |
| SecureChannel.BoundIsSharp | utility/CryptoSym.cpp:12-13 | there is a run with 2^32 sends and the directions apart in which an end accepts what is no prefix of what was sent |
| Handshake.HonestHandshake | client/ClientAsym.cpp:127-226 | undisturbed, the client accepts, both conversations are equal, and both ends derive the key from the shared secret and the two nonces or both fail |
| Handshake.ClientAsym.PerformHandshake | client/ClientAsym.cpp:87-227 | from one 128-byte buffer used for both hellos: what is sent; INVALID exactly when a heard hello's signature over both nonces and keys does not verify, OK only when it does; and the key installed from secret and nonces, for every prior content, short, closed or failed receive and failing library call |
| Handshake.ServerAsym.PerformHandshake | server/ServerAsym.cpp:79-210 | from one buffer used for ClientHello, ServerHello and shared secret: nonce, key and signature over the conversation are sent, stale bytes in place of a failed signature, and the key is installed from secret and nonces, for every receive and failing library call |
| Agreement.ClientOkMeansAgreement | client/ClientAsym.cpp:157-226 | a client that returned OK shares its 128-byte conversation, both nonces and both ephemeral keys, with exactly one server session, which signed it; no other client shares it; its key is derived from the secret of the two private keys and the two nonces, and is that server session's if it completed |
| Agreement.OkMeansVerified | client/ClientAsym.cpp:157-209 | OK iff the hello's last 64 bytes verify over both nonces and both keys and the keys give a secret |
| Hash.HexIsTheText | utility/Hash.cpp:34-38 | the text of a digest is, byte by byte, the characters of 0123456789abcdef for its high and low half, and nothing else is |
| Hash.HexInverts | utility/Hash.cpp:34-38 | the hexadecimal text decodes to the digest |
| Hash.HexInjective | utility/Hash.cpp:34-38 | two digests have one text iff they are equal |
| Hash.HashToString | utility/Hash.cpp:34-38 | in place, digits then one NUL, nothing else touched although every write appends a NUL |
| Users.CheckComparesDigests | server/UserInfoManager.cpp:85-110 | against stored text that begins with the 64 lowercase characters of a digest, exactly the passwords with that salted digest are accepted |
| Users.ConsumeMovesOneCredit | server/UserInfoManager.cpp:126-146 | success moves exactly one credit of one user, refusal happens exactly at zero and changes nothing, the 32-bit total is kept |
| Users.UserInfoManager.FindUser | server/UserInfoManager.cpp:18-30 | the first index with that name, or -1 |
| Users.UserInfoManager.CheckCredentials | server/UserInfoManager.cpp:85-110 | true exactly when the first user of that name stores text whose first 64 bytes are the hexadecimal of the salted digest |
| Users.UserInfoManager.ConsumeTimestamp | server/UserInfoManager.cpp:126-146 | result and new list, and the file saved exactly on success |
| Ledger.FileConverges | server/UserInfoManager.cpp:56-79 | under every interleaving: the file is empty exactly while one worker rewrites it, otherwise it differs from memory only for users with a worker that updated and has not saved, and with nobody inside it is the list |
| Quota.QuotaHolds | server/UserInfoManager.cpp:126-146 | over guarded runs with arbitrary other users: remaining is its initial value less the credits taken and never wraps, the total is kept outside the unlocked lines, signed responses never exceed the quota |
| Quota.ExclusiveRunIsGuarded | server/UserInfoManager.cpp:134-140 | runs without two workers in the unlocked lines for one user are guarded |
| Quota.RequestSafeExactlyWhenGuarded | server/UserInfoManager.cpp:134-140 | letting a request in keeps the accounts exact under every schedule iff no credit is left or nobody else is in the section for that user |
| Quota.OverlapSpoils | server/UserInfoManager.cpp:134-140 | whichever of the unlocked accesses the first worker is at, a second one entering with a credit left has a schedule after which the accounts are not exact |
| Overrun.OneCreditTakenTwice | server/UserInfoManager.cpp:126-146 | ten actions from start-up take one credit twice and leave 2^32 - 1 remaining |
| Overrun.EveryQuotaCanBeExceeded | server/UserInfoManager.cpp:126-146 | for any list and any user with a credit, two workers have a run from start-up that sends one signature more than credits and wraps `remaining` |
| Overrun.QuotaExceededExactly | server/UserInfoManager.cpp:126-146 | some run from start-up sends a user more signatures than credits iff there are two workers and a credit |
| Overrun.LastCreditWraps | server/UserInfoManager.cpp:134-140 | from any state with exact accounts and one credit left, entering while another worker has yet to take it has a schedule in which `remaining` wraps and more was taken than there was |
| Quota.CreditsAccountedFor | server/ResponseManager.cpp:153-206 | over every interleaving of all sessions, credits taken are signed responses sent plus sessions that ended owing one plus requests in progress |
| Credits.CreditsAreSignatures | server/ResponseManager.cpp:153-206 | everything a worker does with one connection, for any peer, failure and interference: credits taken, seen in the list, equal signed records sent, seen on the wire, or exceed them by one, iff a step lost its credit to a failed signing, generator or send, and then the session is over |
| Credits.FileFollowsList | server/UserInfoManager.cpp:138-142 | a worker alone with the list leaves the file equal to it after every step |
| Refinement.ServingStepIsLedgerRun | server/ResponseManager.cpp:153-234 | each serving step of the server is a run of that worker in the ledger: same list, credit, signature and end of session |
| Refinement.PassageIsAtomic | server/UserInfoManager.cpp:134-140 | under the guard, a passage through the unlocked lines with any accesses of others in between is one `Consume` after some change of the others' counters |
| Quota.AloneIsConsume | server/UserInfoManager.cpp:134-140 | undisturbed, the single accesses add up to the sequential operation |
| Quota.TruncationShowsOnOthers | server/UserInfoManager.cpp:60-70 | a lone worker's save empties the file for users nobody works on |
| WorkerPool.NoLostWakeup | server.cpp:13-25 | while some worker is blocked, the queue is no longer than the workers that left wait and have yet to look plus the pending notice |
| WorkerPool.HandedOnceInOrder | server.cpp:117-131 | accepted sockets are the hand-overs, the queue and the socket in the listener's hand, in acceptance order |
| WorkerPool.QueuedSocketCanMove | server.cpp:13-25 | with a socket queued and a worker free, some step other than an arrival, a spurious wakeup or the end of a session is enabled |
| WorkerPool.QueuedSocketHandedOver | server.cpp:13-25 | from any reachable state with a socket queued and a worker free, the listener's and workers' own steps suffice to hand the first socket over |
| WorkerPool.EveryInternalStepCounts | server.cpp:13-25 | with a socket queued and a worker free, each such step hands the first socket over or brings that closer |
| WorkerPool.FinishedWorkerReturns | server.cpp:27-32 | a session that ends makes its worker free again and changes nothing else |
| Server.ParseExactly | server/ResponseManager.cpp:84-104 | a parse yields a pair iff the buffer begins with that pair's encoding and both are NUL-free words of 1 to 29 bytes |
| Parsing.StaleBytesIgnoredExactly | server/ResponseManager.cpp:84-104 | for every buffer and message length, the parse is independent of the bytes behind the message iff the message is settled, which is read off the message alone |
| Parsing.ClientMessagesSettled | client/SessionManager.cpp:133-141 | what the client sends is always settled |
| Parsing.StaleBytesLogIn | server/ResponseManager.cpp:84-114 | a refused attempt followed by a one-byte message logs in a user with the bytes the first attempt left |
| Server.ServedOnlyAfterLogin | server.cpp:54-89 | for any peer and any failures: at most three attempts, service only after matching credentials, and the index served is the first one of that name |
| Server.LoginIsFinal | server/ResponseManager.cpp:106-113 | after the attempts loop nothing changes who is logged in or which index serves |
| Server.OneAnswerPerAttemptExactly | server.cpp:56-81 | over a whole login the client gets one record per attempt iff the last receive returned a message, and one too many iff it failed |
| Server.LoginAnswered | server.cpp:54-81 | a login step by what arrived: the byte 1 twice for a failed receive, a 0 and a cleared buffer for the right pair, a 2 or the third time a 1 for a wrong one |
| Server.NoRequestEndsSession | server/ResponseManager.cpp:212-233 | a closed connection, a failed or rejected receive, or a request of unknown kind ends the session with nothing sent or consumed |
| Server.BalanceAnswered | server/ResponseManager.cpp:116-146 | status 0 and the two counters are sent, nothing is consumed, and only a failed send ends the session |
| Server.SignAnswered | server/ResponseManager.cpp:153-206 | refused with a 2 and served on without a credit; with one it moves and the signature over the request's hash and the timestamp is sent, or a 1, and only the former lets the session go on |
| Server.SignedHashIsTheRequests | server/ResponseManager.cpp:153-205 | for requests of at least 33 bytes and any prior buffer, the response is OK, the request's hash, the timestamp and the signature over both |
| ResponseManager.ResponseManager.AuthenticationAttempt | server/ResponseManager.cpp:84-114 | outcome, buffer, user name and index after one attempt, in place |
| ResponseManager.ResponseManager.FillResponse | server/ResponseManager.cpp:170-188 | through the overlapping views the buffer becomes the response for the hash that was in it |
| ResponseManager.ResponseManager.SignDoc | server/ResponseManager.cpp:153-206 | list, file, buffer, stream and result of a sign request with every failure |
| ResponseManager.ResponseManager.SendBalance | server/ResponseManager.cpp:116-146 | the nine bytes over the buffer and the result |
| ResponseManager.ResponseManager.ManageRequests | server/ResponseManager.cpp:208-234 | dispatch of one request, including closed, unknown and rejected ones, and the file saved exactly when the list changed |
| Worker.Attempts | server.cpp:54-81 | the attempts loop and the send after it are the login steps of the session machine |
| Worker.Serve | server.cpp:54-89 | both loops do exactly what the session machine says on any sequence of environment choices, and the file is the list as it was when this worker last took a credit |
| SignatureStore.SearchFindsExactlyStored | client/SessionManager.cpp:228-281 | after any successful appends, whatever bytes and whatever shorter tail, a search returns exactly the records with that hash, in order |
| SignatureStore.SearchIs | client/SessionManager.cpp:258-281 | in any file at all, a search finds the first 104 bytes of exactly the whole 105-byte lines that start with the hash, in order |
| SignatureStore.AppendsFoundExactlyWhenAligned | client/SessionManager.cpp:228-281 | appending after a truncated record keeps every search exact iff there is no truncated record |
| SignatureStore.SearchSignature | client/SessionManager.cpp:258-281 | the reading loop computes that search |
| Client.VerifyIs | client/SessionManager.cpp:430-504 | for any file: ERROR iff there is none, OK iff a record is found and the last one's signature verifies, INVALID otherwise |
| Client.VerifyExactly | client/SessionManager.cpp:457-503 | for a file filled by `timestamp`, verify answers OK iff the document has a record |
| Client.SignReplyIs | client/SessionManager.cpp:345-416 | verdict, buffer and store after any reply: stored only when its signature verifies for the client's own hash, and with that hash |
| Client.BalanceReplyIs | client/SessionManager.cpp:196-225 | verdict and numbers shown after any reply, those of stale bytes after a close included |
| Client.FirstDecisionCounts | client/SessionManager.cpp:121-175 | the first pair that is sent and answered with anything but INVALID decides the login and ends it; until then every pair is sent |
| Client.SignReplyKeepsGenuineExactly | client/SessionManager.cpp:228-256 | whatever arrives and whatever the disk does, a store of verifying records stays one iff there is nothing to store, or the disk takes nothing or the whole line |
| SessionManager.SessionManager.Login | client/SessionManager.cpp:121-175 | the login loop sends and returns what its specification says for any replies |
| SessionManager.SessionManager.Balance | client/SessionManager.cpp:177-226 | result and printed numbers for every reply |
| SessionManager.SessionManager.StoreSignature | client/SessionManager.cpp:228-256 | the file after complete, short and failed writes |
| SessionManager.SessionManager.Timestamp | client/SessionManager.cpp:306-417 | request, result, buffer and store, checking the signature against the client's own hash |
| SessionManager.SessionManager.Verify | client/SessionManager.cpp:430-504 | the verdict of the last matching record's signature, INVALID without one, ERROR without a file |
| Session.UnframedRefinesFramed | utility/Connection.cpp:99-124 | run by run the two byte streams behave as framed queues, hold at most one record over both directions, and each recv takes it whole |
| Session.CountersTurnsAndLogin | utility/CryptoSym.cpp:56-81 | in every reachable state each send counter leads the peer's receive counter by the records in flight, the ends never wait for each other, and the client's login result is the server's decision |
| Session.NeverStuck | server.cpp:54-89 | some step is enabled until the client has left and the worker is done with it |
| Session.DepartureFreesWorker | server.cpp:83-89 | once the client has left, the worker's next receive ends the session, with nothing sent and no credit taken |
| Session.CommandBytes | client/SessionManager.cpp:121-360 | the exact bytes each command puts on the wire |
| Session.ClientGoesOnExactly | client.cpp:32-60 | which replies end the client's session, return it to the prompt or let it go on, whatever arrives |
| Session.VerifyTyped | client.cpp:46-52 | verify ends the session iff there is no signature file |
| Session.LoginRoundIsExchange | client/SessionManager.cpp:149-173 | a round of the client's login loop is the exchange of the composed system |
| Session.HandshakeReachesPrompt | client.cpp:141-147 | from the first hello the client comes to its prompt, with three attempts before it and both ends keyed from secret and nonces, iff the key exchange gives a secret; otherwise both ends give up |
| Session.LoginEndToEnd | server.cpp:54-81 | from any reachable prompt, whatever stale bytes lie in either buffer, a typed pair lets the client in iff both parts are non-empty and match the list; otherwise it is asked again, or sent away after the third |
| Session.BalanceEndToEnd | client/SessionManager.cpp:177-226 | the numbers printed are the user's counters when the server answered, and nothing else moves |
| Session.SignEndToEnd | client/SessionManager.cpp:306-417 | from any reachable state: without a credit nothing moves; with one exactly one credit moves and, if the server signs, exactly one record is appended, which verify of the unchanged document then finds and answers OK; if it cannot sign, nothing is stored and the session is over |
| Session.VerifiedForGood | client/SessionManager.cpp:430-504 | a document that verifies does so in every later state of the session |

## Left out

- OpenSSL internals, socket creation, bind, listen, connect retry, PEM loading, document reading, JSON parsing and serialisation, console menus, printing and memory freeing: library or I/O code.
- Ledger.FileConverges: does not model save failures or crashes, because the source ignores the result of a save; a save always succeeds.
- Users.UserInfoManager.ConsumeTimestamp: likewise, the save it ends with always succeeds.
- Connection.Connection.DecRecv: requires room for the payload in the caller's buffer, because the source passes no length and writes past its end otherwise.
- SessionManager.SessionManager.Login: requires replies of at most one byte, as its one-byte buffer does.
- Worker.Serve: the attempts loop's body is split into small methods and the environment's choices come as a finite sequence, so the run ends where the sequence does.
- WorkerPool: the queue, mutex and condition variable are modelled as a step machine on values, not as a class, because their meaning lies in the interleaving.
- Session: the composed machine holds one connection; other workers appear only as changes to the counters, and the keyboard loop only as the commands it may issue and the outcomes that end it.
- SessionManager.SessionManager.RecvOutcome: requires that what arrives carries at most one byte, as its one-byte buffer does; `Session.UnframedRefinesFramed` proves it of every login reply.
- Server.SendBalance: answers nothing for an index outside the list, where the source's access is undefined; `Server.ServedOnlyAfterLogin` shows the index is always inside.
- Users.UserInfoManager.CheckCredentials: requires stored passwords of at least 64 characters, because the source reads that many bytes of whatever is stored.
- ResponseManager.ResponseManager.AuthenticationAttempt: requires the same of the whole list.
- Verification of stored and received timestamps returns valid or invalid; the library's error return is not distinguished from invalid there.
