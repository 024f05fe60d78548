# tcp_multiclient relay core in Dafny

`tcp_multiclient` is a TCP relay. It accepts connections on one or more
listening ports and registers each peer in a shared registry keyed by the
peer's socket address. Every connection gets its own session loop. The loop
reads chunks of up to 4096 bytes and writes each chunk to every other
registered peer, never back to the sender. When the peer closes (a read
returns 0 bytes), the peer is deregistered. For its trace log the relay
renders each chunk with `format_data`, a small escaper that cuts its output
off at a fixed width.

The project has three modules:

- `Trace` (`trace.dfy`) models `format_data`.
  - `Escape` is the escape table, one byte to at most four characters.
  - `Format` is a reference definition of the whole rendering, and
    `Consumed` is the number of input bytes rendered before the width cut.
  - `FormatData` is the source's imperative loop, with its `overflow` flag
    and early `break`. It is proved equal to `Format`.
  - Lemmas about `Format` state what the rendering promises: the opening
    quote, the untruncated form, `...` exactly when input was left unread,
    the length bound, the output being ASCII, and an inverse (`Unescape`) of
    the escape table.
- `Relay` (`relay.dfy`) models the registry and the session loop
  sequentially.
  - `Client` is one connection.
    - The read half is `rx`, the bytes the peer has sent that have not been
      read yet.
    - A ghost flag `closed` records whether the peer has shut down its side.
    - The write half is `tx`, every byte written to the connection so far.
    - `Send` and `Close` are the environment: the remote peer sending more
      bytes, then closing.
    - A read waits while the peer is open and nothing is pending, so it is
      only taken once bytes are pending or the peer has closed. A 0-byte read
      therefore means end of stream.
  - `NetMgr` holds the registry as a `map<Addr, Client>`.
    - `Accept`: accept and insert.
    - `Step`: one read plus its fan-out.
    - `Process`: the whole session loop.
    - `Remove`: deregistration.
    - `Session`: the spawned task, which looks the connection up, runs
      `process`, then removes it.
  - `Deliver` specifies one fan-out as a function on the map of every
    peer's output. Lemmas about it give per-sender order: chunks fanned out
    one after the other arrive concatenated.
- `Scenarios` (`scenarios.dfy`) holds whole runs with concrete peers. For
  example, with three peers, A's bytes reach B and C but not A, and after
  B disconnects "ping" reaches only C.

## Model

| member | source | states |
|---|---|---|
| Trace.HexDigit | src/lib.rs:146 | the digit is one of the 16 lower-case hex digits and decodes back to the nibble |
| Trace.Escape | src/lib.rs:140-147 | every byte is rendered as 1 to 4 characters |
| Trace.EscapeTable | src/lib.rs:140-146 | newline, tab, carriage return and backslash become `\n`, `\t`, `\r`, `\\`; a byte in 0x20..0x7f other than backslash is emitted as itself (one character, equal to the byte), and only those are; every other byte becomes `\x` plus two lower-case hex digits that decode to the byte; the rendering is ASCII |
| Trace.Consumed | src/lib.rs:138-139 | the number of rendered bytes is the least k at which either the input is exhausted or the text built so far (quote included) has reached 40 characters |
| Trace.ConsumedFrom | src/lib.rs:138-139 | searching from a point before which the width cut cannot have fired finds that same least k |
| Trace.FormatData | src/lib.rs:132-153 | the loop with its `overflow` flag and `break` returns exactly the reference rendering `Format` |
| Trace.RenderNext | src/lib.rs:138-147 | while the text is shorter than 40, rendering one more byte extends it to the escaped prefix one byte longer, and the cut has not fired yet |
| Trace.FormatOfExit | src/lib.rs:138-151 | wherever the loop stops (input exhausted or width reached), that point is `Consumed`, and closing quote plus `...` on overflow give `Format` |
| Trace.EscapeAllLength | src/lib.rs:140-146 | escaping n bytes gives between n and 4n characters |
| Trace.EscapeAllAscii | src/lib.rs:140-146 | escaping any byte string gives ASCII text |
| Trace.FormatEmpty | src/lib.rs:136-152 | empty input renders as `""` |
| Trace.FormatOpensWithQuote | src/lib.rs:136-137 | the rendering starts with `"` |
| Trace.FormatWhole | src/lib.rs:137-150 | when the whole input is rendered, the output is the quoted escape of all of it, with no `...` |
| Trace.TruncatedIff | src/lib.rs:135-151 | `...` is appended if and only if some input byte was left unrendered, that is, the loop exited early; the output is `"` + escaped prefix + `"` + `...` in that case and the quoted escape of everything otherwise |
| Trace.FormatLength | src/lib.rs:133-151 | the output is at most 47 characters, and at most 44 when nothing was cut |
| Trace.FormatAscii | src/lib.rs:137-151 | the output is ASCII, so its `String::len` in bytes equals its length in characters |
| Trace.ShortNeverTruncated | src/lib.rs:133-139 | inputs of at most 10 bytes are never cut |
| Trace.LongAlwaysTruncated | src/lib.rs:133-139 | inputs of 40 bytes or more are always cut, before byte 40 |
| Trace.UnescapeEscapeAll | src/lib.rs:140-146 | the escape table is injective: decoding the escaped text gives the bytes back |
| Relay.Client.constructor | src/lib.rs:27-33 | a new connection keeps its address, with an untouched read half and nothing written yet |
| Relay.Client.Read | src/lib.rs:38-39 | a read into the 4096-byte buffer, taken once bytes are pending or the peer has closed, takes the next bytes the peer sent, in order, at most the buffer size; it returns 0 exactly when nothing is pending, which then means the peer has closed |
| Relay.Client.WriteAll | src/lib.rs:54-58 | `write_all` appends exactly the given bytes to the connection's output |
| Relay.NetMgr.constructor | src/lib.rs:94-97 | the registry starts empty |
| Relay.NetMgr.Accept | src/lib.rs:107-109 | after accepting, the address maps to a fresh connection whose address is that key; every other entry is unchanged; an existing entry for the same address is replaced, as `HashMap::insert` does |
| Relay.NetMgr.Broadcast | src/lib.rs:52-61 | every registered peer other than the sender gets the chunk appended, the sender gets nothing, and the registry is unchanged; on the whole output map this is `Deliver` |
| Relay.NetMgr.BroadcastDelivers | src/lib.rs:52-61 | per-peer appends to all but the sender amount to `Deliver` on the output map |
| Relay.NetMgr.Step | src/lib.rs:37-61 | one loop iteration reads at most 4096 bytes; a zero read happens only once the peer has closed and writes nothing; otherwise the chunk read goes to every other peer |
| Relay.NetMgr.Process | src/lib.rs:36-63 | the session loop, run on a peer that has closed, consumes everything the peer sent, in chunks of 1 to 4096 bytes whose concatenation is that input; every other peer receives all of it in order, and the sending connection receives nothing; on the output map this is the chunks fanned out one by one (`DeliverEach`) and equally one fan-out (`Deliver`) of the whole input |
| Relay.NetMgr.SessionDelivers | src/lib.rs:36-61 | per-peer appends of a session's whole input to all but the sender are, on the output map, its chunks fanned out one by one, and one fan-out of their concatenation |
| Relay.NetMgr.Remove | src/lib.rs:120-121 | after removal the address is absent and every other entry is unchanged; removing an absent address changes nothing |
| Relay.NetMgr.Session | src/lib.rs:113-124 | the spawned task for a registered peer that has closed: afterwards its address is absent and every other entry is kept; its connection got nothing back; every peer still registered received everything the departed peer sent |
| Relay.DeliverNothing | src/lib.rs:52-61 | fanning out an empty chunk changes no peer's output; this is the base case of `DeliverEachInOrder` |
| Relay.DeliverTwice | src/lib.rs:36-61 | two successive fan-outs from one sender equal one fan-out of the two chunks concatenated |
| Relay.DeliverAlone | src/lib.rs:52-53 | a sender alone in the registry delivers to nobody |
| Relay.DeliverEachInOrder | src/lib.rs:36-61 | fanning out a sequence of chunks one by one gives each recipient their concatenation in read order, keeps the set of peers, and gives the sender nothing |
| Scenarios.Drain | src/lib.rs:37-61 | the session loop seen before its closing read: iterations while bytes are pending relay all of them to every other peer and leave the session open |
| Scenarios.ThreeClients | src/lib.rs:36-124 | with peers A, B, C, bytes 0 1 2 from A reach B and C but not A; after B disconnects, only A and C are registered and "ping" from A reaches C only |
| Scenarios.FirstRound | src/lib.rs:36-61 | A's 0 1 2 arrive at B and C, and A receives nothing |
| Scenarios.SecondRound | src/lib.rs:113-124 | B closes, its session ends and deregisters it, leaving exactly A and C in the registry; B receives nothing further, and C receives "ping" after 0 1 2 |
| Scenarios.PingAfterLeave | src/lib.rs:52-61 | once B is deregistered, A's "ping" goes to C alone and B's output no longer changes |
| Scenarios.TwoPeers | src/lib.rs:36-109 | X's "hello" arrives at Y verbatim and X receives nothing |
| Scenarios.LonePeer | src/lib.rs:52-53 | a peer alone in the registry writes nowhere and stays registered |

## Left out

- `main.rs` and `NetMgr::generate_listeners` are not part of this model. They parse ports, bind listening sockets and exit when none binds, which is launcher logic outside the relay core.
- Real sockets are modelled as byte sequences plus a ghost `closed` flag. A connection's `rx` holds its peer's unread bytes, and `tx` holds the bytes written to it.
- A read that blocks is not modelled as waiting. `Read` and `Step` are taken only when bytes are pending or the peer has closed. `Process` and `Session` run the loop to its end as one step, so they require a closed peer.
- The tokio runtime, `Mutex`/`RwLock` and `Arc` are not modelled. Each call is one atomic step, and the model's runs are sequences of `Accept`, `Step`/`Process`, `Session`, `Send` and `Close` calls. Inside one `Process` call the registry does not change.
- Concurrent fan-outs are not modelled. In the source, two sessions fan out at the same time under the shared read lock (line 52), and each `write_all` holds only its own target's mutex (lines 54-58). Recipients C and D can then receive the chunks of senders A and B in different orders. The atomic `Broadcast` cannot produce that. The model captures only per-sender order at each recipient (`DeliverEachInOrder`, `Process`).
- The accept loops (`start_accept`: one tokio task per listener, line 104, plus one spawned task per connection) are not modelled as loops. Each accepted connection is one `Accept` call, and each spawned task is one `Session` call.
- The `HashMap` iteration order of a fan-out is not exposed: `Broadcast` visits peers in an arbitrary order, and its contract does not depend on that order.
- The size of each read is chosen nondeterministically: anything from 1 to the buffer size while bytes are pending. The source gets it from the kernel.
- `unwrap` failures are not modelled, so failures of `accept`, `read` and `write_all` all panic and are out of scope. As written, a read error or a write error panics the task instead of disconnecting the peer or skipping the target. The model follows the code and shows only the success paths. `Session` requires its address to be registered, which is the lookup `unwrap` at line 116.
- Logging (`info!`, `warn!`, `error!`, and the `trace!` call at line 45 that uses `format_data`) is not modelled. `format_data` itself is modelled in full.
- Relay.NetMgr.Accept: the source relies on the kernel never handing out an address that is still registered, and this is not modelled. `Accept` instead states the `HashMap::insert` overwrite that the code performs.
- Trace.FormatData: Rust's `String` holds UTF-8, and `res.len()` counts bytes. The model counts characters. `FormatAscii` proves every character is ASCII, where the two counts agree.
- Byte 0x7f (DEL) passes the source's `c >= b' ' && c.is_ascii()` test, so it is emitted raw. A double quote in the data is not escaped either. The model keeps both behaviours as written.
