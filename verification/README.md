# PowerUDP data channel and control-plane server, modelled in Dafny

This project models the protocol logic of a small C system that layers
PowerUDP, a stop-and-wait reliable delivery scheme, over UDP, and runs a TCP
control server that authenticates clients with a pre-shared key (PSK) and
multicasts the active protocol configuration. All socket, console and
process plumbing is replaced by explicit inputs (what each receive or read
returned) and explicit outputs (packets sent, replies written, broadcasts).

Modules, one per component:

- `Common` (`common.dfy`): C fixed-width integers, big-endian (network order)
  integers of any width as `ToBe`/`FromBe`, htons/ntohs, NUL-terminated strings.
- `Header` (`header.dfy`): the 8-byte PowerUDP header
  (`seq_num:u32be, ack:u8, flags:u8, length:u16be`), `ler_header`, the data
  packet of `envia_powerudp` and the ACK/NAK packet of `envia_acknak`.
- `Sender` (`sender.dfy`): `envia_powerudp_confiavel` as a recursive
  function over the outcome of each receive: `Timeout` or `Reply(bytes)`.
- `Receiver` (`receiver.dfy`): `recebe_powerudp_com_ack` as a step function
  on `expected_seq`, which wraps modulo 2^32.
- `Clients` (`clients.dfy`): the bounded, deduplicating registry
  `clientes[3]`/`num_clientes` and `adicionar_cliente`.
- `Session` (`session.dfy`): the configuration record and its defaults, and
  `process_client`: registration, ACK/NAK reply, then the update loop.

The model follows the code as written, which is narrower than a full
reliable-delivery protocol:

- The sender always waits for replies and always requests a doubled wait
  for each retry. `MAX_RETRIES` is 5 and `TMIN` is 500 ms, both hard-coded. The configuration's toggles, timeout
  and retry count are never consulted.
- Every reply consumes an attempt, a NAK or an ACK for another number
  included. There is no early retransmission on a NAK.
- The receiver ignores `enable_sequence` and never checks the received size.
  Its datagram requirements are therefore a precondition (`Receiver.Receivable`),
  not an error path. The precondition asks for a `length` that fits only when
  the packet is in order: an out-of-order packet is refused before its
  `length` is used.
- `ler_header` rejects only datagrams shorter than 8 bytes. It has no
  "truncated payload" error.
- A registration read of other than 64 bytes closes the connection without
  any reply, not even a NAK.
- There is no lock around the configuration. Each session works on the
  forked child's copy of it.

## Model

| member | source | states |
|---|---|---|
| `Common.CStr` | Projeto_serv.c:98-100 | the string strcmp sees is the longest NUL-free prefix of the buffer, ending at the first NUL or at the end of the buffer |
| `Common.LemmaCStrAt` | Projeto_serv.c:98-100 | the string is fixed by where the first NUL sits: a buffer with NUL at n and none before has exactly its first n bytes as its string |
| `Common.FromBe` | Projeto_client.c:76-77 | a big-endian value read from n bytes is below 256^n |
| `Common.LemmaFromToBe` | Projeto_client.c:83-86 | reading back the bytes htonl/htons wrote gives the value written |
| `Common.LemmaToFromBe` | Projeto_client.c:75-77 | writing the value ntohl/ntohs read gives back the bytes read |
| `Common.Htons` | Projeto_serv.c:50 | the network-order field built by htons reads back, through ntohs, as the value given |
| `Header.EncodeHeader` | Projeto_client.c:19-25 | the header's wire image is 8 bytes |
| `Header.ReadHeader` | Projeto_client.c:71-79 | fails exactly when fewer than 8 bytes arrived; otherwise bytes 0-3 are the big-endian image of `seq_num`, bytes 6-7 that of `length`, bytes 4 and 5 are `ack` and `flags`; `length` is not checked against what arrived |
| `Header.LemmaDecodeEncode` | Projeto_client.c:71-93 | decoding an encoded header gives back every field, whatever bytes follow it |
| `Header.LemmaEncodeDecode` | Projeto_client.c:71-79 | the four decoded fields carry all of the first 8 bytes: re-encoding them gives those bytes back |
| `Header.LemmaReadBareHeader` | Projeto_client.c:166-174 | an 8-byte header with no payload reads back as itself |
| `Header.EncodeData` | Projeto_client.c:81-93 | a data packet is 8 + payload bytes (at most 512). Decoding it gives `seq_num`, `ack` 0, `flags` 0 and `length` = strlen, and the payload follows at offset 8 |
| `Header.EncodeControl` | Projeto_client.c:166-174 | an ACK/NAK packet is exactly 8 bytes and decodes to the given `seq_num`, `ack` = tipo, `flags` 0, `length` 0 |
| `Sender.LemmaBackoffDoubles` | Projeto_client.c:105-108 | the first receive wait requested is TMIN = 500 ms and each later one is twice the previous, i.e. 500·2^k for attempt k |
| `Sender.LemmaAcknowledgesDecodes` | Projeto_client.c:114-119 | a reply ends the loop exactly when ler_header succeeds on it and its header has `ack` 1 and the sender's own `seq_num` |
| `Sender.SendFrom` | Projeto_client.c:102-128 | from iteration k on, each iteration transmits the same packet with wait 500·2^i. The loop stops at the first matching ACK and otherwise runs until 5 iterations in all |
| `Sender.SendReliable` | Projeto_client.c:95-133 | 1 to 5 transmissions of the same data packet with waits 500·2^i. Success iff one of the 5 outcomes is a matching ACK; k+1 transmissions when the first such ACK answers attempt k; exactly 5 on failure |
| `Sender.LemmaEveryReplyConsumesAttempt` | Projeto_client.c:114-127 | when none of the first k+1 outcomes is a matching ACK (NAKs included), at least k+2 transmissions happen, or the send fails after the fifth |
| `Sender.LemmaNakNeverAcknowledges` | Projeto_client.c:117-122 | a NAK packet, for any number, never ends the loop |
| `Sender.LemmaOwnEchoFails` | Projeto_client.c:114-117 | when every reply is the sender's own data packet, the send fails after exactly 5 transmissions. With the destination at 127.0.0.1 on the client's own bound port (Projeto_client.c:194-210), that echo is what the socket can read back |
| `Receiver.NextSeq` | Projeto_client.c:143-163 | `expected_seq++` on a uint32_t adds one and wraps from 2^32-1 to 0 |
| `Receiver.Receive` | Projeto_client.c:138-164 | in order: ACK for the received number, the `length` payload bytes after the header delivered, `expected_seq` advanced. Otherwise: NAK carrying the received number (not the expected one), nothing delivered, `expected_seq` unchanged. Any 8 to 512 bytes are accepted. Only an in-order packet must carry a `length` that fits the bytes received |
| `Receiver.LemmaOutOfOrderIgnoresLength` | Projeto_client.c:145-154 | a datagram of 8 to 512 bytes whose number is not the expected one is NAKed with its own number and changes nothing, whatever its `length` field says |
| `Receiver.LemmaAdvanceIsMod` | Projeto_client.c:143-163 | applying `expected_seq++` n times to a uint32_t adds n modulo 2^32 |
| `Receiver.ReceiveAll` | Projeto_client.c:138-164 | one reply per datagram, each an ACK or a NAK carrying that datagram's own number. A datagram is ACKed iff its number equals the initial `expected_seq` advanced once for each earlier ACK, so a repeated or skipped number is NAKed. The j-th ACKed datagram is the j-th delivery, and that delivery is the datagram's `length` payload bytes. Nothing else is delivered. At the end, `expected_seq` is the initial value advanced once per ACK. This holds for every run in which each in-order datagram's `length` fits the bytes received (`Receiver.ReceivableRun`) |
| `Receiver.LemmaFittingRunReceivable` | Projeto_client.c:145-159 | a run whose `length` fields all fit the bytes received meets that run condition from any starting `expected_seq` |
| `Receiver.LemmaExpectedCountsDeliveries` | Projeto_client.c:143-163 | across any run in which each in-order datagram's `length` fits the bytes received, `expected_seq` advances by exactly the number of deliveries, modulo 2^32 |
| `Receiver.LemmaReplyMatchesSender` | Projeto_client.c:117-163 | the receiver's reply to a data packet ends the sender's loop iff the packet carries the expected number, and then the delivered bytes are the payload sent |
| `Receiver.LemmaFirstAttemptAgainstReceiver` | Projeto_client.c:102-163 | a send whose first packet reaches a receiver expecting its number finishes after one transmission; otherwise the NAK costs an attempt and a second transmission follows |
| `Receiver.LemmaDuplicateRefused` | Projeto_client.c:143-163 | from `expected_seq` 0, the packet numbered 0 is ACKed and delivered. The same packet again is NAKed with 0 and not delivered again, and `expected_seq` stays 1 |
| `Clients.Empty` | Projeto_serv.c:38-39 | the registry starts empty and valid |
| `Clients.Add` | Projeto_serv.c:170-181 | keeps the registry within 3 distinct entries, never drops or moves an entry, adds at most the one address. The address is present afterwards iff it already was or a slot was free |
| `Clients.LemmaAddIdempotent` | Projeto_serv.c:171-173 | registering an address already present changes nothing, so a second registration of the same address is a no-op |
| `Clients.AddClient` | Projeto_serv.c:170-181 | the scan-then-append loop as written computes exactly `Clients.Add` |
| `Clients.LemmaAddAllValid` | Projeto_serv.c:175-180 | after any sequence of registrations the registry still has at most 3 distinct entries. The original entries stay as a prefix, and only offered addresses appear |
| `Session.Startup` | Projeto_serv.c:26-50 | after startup: retransmission 1, backoff 1, sequence 1, max_retries 5, base_timeout 200 held in network order (bytes 0x00 0xC8), no client registered |
| `Session.LemmaPskAcceptedIff` | Projeto_serv.c:98-100 | the key is accepted iff the buffer starts with the 13 bytes of "my_secret_key" followed by a NUL. Byte 63 and everything after that NUL are ignored |
| `Session.Register` | Projeto_serv.c:91-112 | a read of other than 64 bytes closes with no reply and no change. A rejected key gets exactly "NAK", closes, and changes nothing. An accepted key gets "ACK", then the address is registered, then the unchanged config is broadcast, in that order |
| `Session.ApplyUpdate` | Projeto_serv.c:116-133 | a 0-byte read closes normally and any other wrong size closes as malformed, both changing nothing. A full record overwrites all five fields with the request's values and is broadcast as written; the registry never changes |
| `Session.UpdateLoop` | Projeto_serv.c:114-134 | the leading full records are applied in order, each broadcast equal to the record just written. The final config is the last record applied and the registry is unchanged. The session ends at the first read that is not a full record, normally on 0 bytes, as malformed otherwise |
| `Session.ProcessClient` | Projeto_serv.c:84-137 | registry validity is preserved. A failed registration read gives no reply and a refused key exactly "NAK", both leaving the state unchanged. An accepted key gives "ACK", registration and a broadcast of the current config, then one broadcast per leading full update record, each equal to that record. The final config is the last record applied (or the old one if none). The session ends at the first read that is not a full record: normally on 0 bytes, as malformed otherwise |
| `Session.LemmaFirstRegistration` | Projeto_serv.c:84-112 | on a fresh server, a client with the right key gets "ACK", becomes the only registered client and sees the default config (1, 1, 1, 200 ms, 5) broadcast |

## Left out

- Socket creation, bind, the multicast group join, the `select` loop, console input and all `printf`/`perror` logging (Projeto_client.c:35-69, 182-261; Projeto_serv.c:45-82). These are I/O. Receives and reads are inputs, and sends, replies and broadcasts are outputs.
- The client's handling of a received multicast configuration (Projeto_client.c:242-256). It only prints the values and applies none of them.
- The transport of `enviar_config_multicast` (Projeto_serv.c:139-161). A broadcast is modelled as the configuration value it sends; a failed `sendto` is only logged.
- Real time and `setsockopt(SO_RCVTIMEO)`: a timeout is the abstract `Sender.Timeout` outcome, and a failed `recvfrom` is the same outcome. The microsecond value `TMIN*1000*(1<<k)` exceeds 999999 for k ≥ 1, and the result of `setsockopt` is ignored. The model records only the wait requested, in milliseconds, not whether the socket applied it.
- Sender.SendReliable: requires one outcome for each of the 5 possible attempts. Outcomes past the loop's end are ignored.
- Header.EncodeData: requires a NUL-free payload of at most 504 bytes, the size that fits the 512-byte send buffer. The console line read by `fgets(buf, 512, ...)` can be up to 511 bytes, which would overflow that buffer. That overflow is undefined behaviour and is not modelled.
- Receiver.Receive: requires 8 to 512 received bytes. When the packet carries the expected number, its `length` must also fit in the received bytes. The code copies the header and, for an in-order packet, `length` payload bytes without checking the received size. An in-order packet with a larger `length` therefore reads stale or out-of-bounds memory, and a datagram under 8 bytes leaves stale header bytes. Neither case is modelled. An out-of-order packet is NAKed before its `length` is used, so it is modelled whatever that field holds.
- Receiver.ReceiveAll: requires the same condition of each datagram at the number expected when it arrives (`Receiver.ReceivableRun`). The runs it excludes are the ones that reach the unmodelled reads above.
- Receiver.LemmaExpectedCountsDeliveries: holds for the same runs as `Receiver.ReceiveAll`, for the same reason.
- Datagram truncation by `recvfrom` at 1024 (sender) or 512 (receiver) bytes, and source/destination addresses of packets: the model works on the bytes received.
- `fork`-per-client and `waitpid` (Projeto_serv.c:65-80). Each session runs on the child's private copy of `configuracao_ativa` and `clientes`. One session is modelled over explicit state; locking and visibility across sessions are not modelled.
- The C layout of `struct ConfigMessage`, including padding. A read of a configuration record is modelled by its outcome: 0 bytes, the wrong size, or a full record.
- PowerUDP.c and POWERUDP_H.h: stub API functions that only print, and `rand()`-based simulated loss. They contain no protocol logic.
- `erro` (both files): prints and exits.
