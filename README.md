# jsonrpc-reactor, modelled in Dafny

This project models the core of `jsonrpc-reactor`, a Rust JSON-RPC 2.0 client
library, in two parts.

- **The envelope codec** (`src/impls.rs` over the types of `src/lib.rs`). It
  has total encoders from the message types (`Id`, `Params`, `Request`,
  `Notification`, `RpcError`, `Response`) to a generic JSON value, and
  fallible decoders back. The model proves these things:
  - every round trip, `Decode(Encode(x)) == Ok(x)`;
  - the converse: a document that decodes agrees with the encoding on the
    keys the decoder reads;
  - the exact error each malformed document produces, in the order the
    checks fire;
  - that each decoder ignores every key it does not read.
- **The reactor's pending-request bookkeeping** (`src/reactor.rs`). It has a
  wrapping `i64` id counter and a table from `Id` to the waiter of an
  in-flight request. When an insertion pushes the table past the channel
  capacity, a sweep removes every expired entry and hands its waiter the
  canonical timeout error. Fulfilment hands a response to the waiter
  registered under its id. The model is a class with these fields. Each
  locked section is one method. Waiter identity is a freshly allocated
  object. What the reactor hands to waiters is recorded in a ghost log of
  deliveries. The invariant `Consistent` over the table and that log says:
  - each waiter is registered under at most one id;
  - each waiter is handed at most one outcome;
  - no waiter that was served is still registered.

Files:

- `Wrappers.dfy`: `Option`, `Result` and a pass/fail `Outcome`, usable with
  `:-` the way the source uses `?`.
- `Json.dfy`: the JSON value: integer Numbers, float Numbers, strings,
  arrays, key-ordered objects. It also defines `Int64` and the `as_i64` /
  `as_str` / `as_object` / `get` accessors.
- `Types.dfy`: the data model of `src/lib.rs`:
  - the 17-variant, payload-free `Error` enumeration (lib.rs:20-39);
  - `Id`, which is a string or an `i64` and has no null (lib.rs:41-45);
  - `Params`: array, object or null (lib.rs:47-52);
  - `Request`, which always has an id, and `Notification`, which has none
    (lib.rs:54-65);
  - `RpcError`, with an `i64` code and arbitrary data (lib.rs:67-72);
  - `Response`, which holds exactly one outcome as a `Result` (lib.rs:74-78).
  The Rust field `method` is called `methodName`, because `method` is a
  Dafny keyword.
- `Codec.dfy`: the conversions of `src/impls.rs` and their laws.
- `Reactor.dfy`: the id counter, the table, the sweep and the `Reactor`
  class.

Observable quirks of the source that the contracts pin down:

- A request is encoded without `params` when they are null. A notification
  always carries `params`, even a null one.
- A notification decoder given a non-object reports `UnexpectedRequestVariant`.
- An error object whose `message` is not a string reports
  `ExpectedErrorCodeAsString`.
- Response decoding checks a present `error` entry first, then that exactly
  one of `result` and `error` is present, then `id`. A `result` holding null
  counts as present.
- A float, or an integer outside the `i64` range, is an `InvalidNumberCast`
  as an id and an `ExpectedErrorCodeAsInteger` as an error code.
- The sweep's expiry test is strict: an entry whose timeout is `t` expires
  only once more than `t` has elapsed. Elapsed time saturates at zero.
- A re-registration under an id already in the table replaces the old
  waiter without delivering any outcome to it. The old waiter is orphaned:
  it is no longer in the table and is never handed a result.
- The id counter advances even when the send then fails. Ids repeat after
  exactly 2^64 requests.

## Model

| member | source | states |
|---|---|---|
| Codec.IdFromJson | src/impls.rs:50-62 | An in-range integer decodes to `Number`, a string to `String`; a float or an out-of-range integer is `InvalidNumberCast`; null, bool, array and object are `UnexpectedIdVariant`; success exactly in the first two cases |
| Codec.IdToJson | src/impls.rs:20-27 | A string id becomes a JSON string and a number a JSON integer; decoding the encoding gives the id back |
| Codec.IdDecodeInverse | src/impls.rs:50-62 | A document that decodes to an id is exactly that id's encoding |
| Codec.ParamsFromJson | src/impls.rs:156-170 | Null, array and object decode to the matching variant, and nothing else decodes; the failure is `UnexpectedParamsVariant` |
| Codec.ParamsToJson | src/impls.rs:112-120 | Only `Null` params encode to JSON null; decoding the encoding gives the params back |
| Codec.ParamsDecodeInverse | src/impls.rs:156-170 | A document that decodes to params is exactly their encoding |
| Codec.ParamsAsArray | src/impls.rs:97-102 | Gives the items exactly when the params' encoding is an array, and they are that array's items |
| Codec.ParamsAsObject | src/impls.rs:104-110 | Gives the map exactly when the params' encoding is an object, and it is that object's map |
| Codec.CheckVersion | src/impls.rs:233-237 | Passes exactly when `jsonrpc` is the string "2.0"; a missing key is `JsonRpcVersionNotFound`, any other value `InvalidJsonRpcVersion` |
| Codec.RequestFromJson | src/impls.rs:227-252 | Check order: non-object `UnexpectedRequestVariant`; then the `jsonrpc` checks; then missing `id` `ExpectedId`; then the id's own decode error; then missing `method` `ExpectedMethod`; then non-string method `InvalidMethodVariant`; then `params`, where an absent key reads as null. Succeeds exactly when every check passes, with the decoded fields |
| Codec.RequestToJson | src/impls.rs:206-225 | Keys are `jsonrpc`, `method` and `id`, plus `params` exactly when the params are not null; `jsonrpc` is "2.0"; decoding the encoding gives the request back |
| Codec.RequestDecodeInverse | src/impls.rs:227-252 | A document that decodes to a request agrees with its encoding on `jsonrpc`, `method` and `id`; a `params` entry equals the encoded params; on all four keys when the params are not null |
| Codec.RequestReadsOnlyItsKeys | src/impls.rs:227-252 | Two objects that agree on `jsonrpc`, `id`, `method` and `params` decode to the same request or the same error |
| Codec.NotificationFromJson | src/impls.rs:269-292 | Non-object is `UnexpectedRequestVariant`; then the `jsonrpc` checks, `ExpectedMethod`, `InvalidMethodVariant` and the params check in that order; succeeds exactly when all pass |
| Codec.NotificationToJson | src/impls.rs:254-267 | Keys are exactly `jsonrpc`, `method` and `params`, a null `params` included; decoding the encoding gives the notification back |
| Codec.NotificationDecodeInverse | src/impls.rs:269-292 | A document that decodes to a notification agrees with its encoding on `jsonrpc` and `method`; a `params` entry equals the encoded params, and a missing one means null params |
| Codec.NotificationReadsOnlyItsKeys | src/impls.rs:269-292 | Two objects that agree on `jsonrpc`, `method` and `params` decode alike |
| Codec.NotificationIgnoresId | src/impls.rs:269-292 | Adding, changing or removing an `id` key does not change a notification's decode |
| Codec.RpcErrorFromJson | src/impls.rs:323-350 | Non-object `UnexpectedErrorVariant`; missing `code` `ExpectedErrorCode`; non-i64 code `ExpectedErrorCodeAsInteger`; missing `message` `ExpectedErrorMessage`; non-string message `ExpectedErrorCodeAsString`; absent `data` reads as null |
| Codec.RpcErrorToJson | src/impls.rs:303-311 | Keys are exactly `code`, `message` and `data`; decoding the encoding gives the error back |
| Codec.RpcErrorDecodeInverse | src/impls.rs:323-350 | A document that decodes to an error agrees with its encoding on `code` and `message`; `data` is the error's data, and a missing one means null |
| Codec.RpcErrorReadsOnlyItsKeys | src/impls.rs:323-350 | Two objects that agree on `code`, `message` and `data` decode alike |
| Codec.ErrorField | src/impls.rs:455 | A missing `error` is no error; a present one is its decoded `RpcError` or that decode's failure |
| Codec.Exclusive | src/impls.rs:457-461 | Succeeds exactly when one of result and error is present, giving that outcome; otherwise `ResponseExpectsResultOrError` |
| Codec.ResponseFromJson | src/impls.rs:442-467 | Check order: non-object `UnexpectedResponseVariant`; the `jsonrpc` checks; a malformed present `error` with its own failure; the exclusivity check; missing `id` `ExpectedId`; the id's decode error. Succeeds exactly when all pass; a present `result`, null included, is the success outcome |
| Codec.ResponseToJson | src/impls.rs:399-418 | Keys are `jsonrpc`, `id` and exactly one of `result` and `error`; decoding the encoding gives the response back, `Ok(null)` included |
| Codec.ResponseDecodeInverse | src/impls.rs:442-467 | A document that decodes to a response agrees with its encoding on `jsonrpc`, `id` and `result`; an error outcome comes from a present `error` with the encoding's `code` and `message`, and its `data` is the error's data or absent when that is null |
| Codec.ResponseReadsOnlyItsKeys | src/impls.rs:442-467 | Two objects that agree on `jsonrpc`, `result`, `error` and `id` decode alike |
| Reactor.WrappingIncrement | src/reactor.rs:99 | The next counter value is one more, modulo 2^64, and exactly one more below `i64::MAX` |
| Reactor.AdvanceIsModular | src/reactor.rs:97-99 | After k requests the counter is the start plus k in two's-complement arithmetic modulo 2^64 |
| Reactor.IdsRepeatOnlyAfterFullPeriod | src/reactor.rs:97-101 | Ids handed out by the j-th and the k-th request coincide exactly when k - j is a multiple of 2^64 |
| Reactor.Elapsed | src/reactor.rs:152 | Elapsed time is `now - moment` when the clock has not gone back, and zero otherwise |
| Reactor.ExpiredIds | src/reactor.rs:148-158 | The selected ids are table keys; an entry is selected exactly when it has a timeout strictly less than the elapsed time; entries without a timeout are never selected |
| Reactor.SweepTargets | src/reactor.rs:145-158 | Nothing is swept unless the table holds strictly more entries than the capacity, and then exactly the expired ids are |
| Reactor.SweepKeepsExactlyUnexpired | src/reactor.rs:148-161 | After the sweep an id remains exactly when it was in the table and not expired, with its entry unchanged, and the size drops by the number swept |
| Reactor.SweepIdempotent | src/reactor.rs:148-161 | A swept table has nothing left to sweep at the same moment |
| Reactor.ExpiryIsMonotone | src/reactor.rs:151-154 | An entry expired at one moment is expired at every later moment |
| Reactor.SweptWaiterServedOnce | src/reactor.rs:160-169 | The waiter of each swept id is handed the timeout error, and nothing else is handed to it in the sweep |
| Reactor.FulfilKeepsConsistent | src/reactor.rs:45-46 | Removing an entry and handing its waiter one outcome keeps every waiter served at most once |
| Reactor.RegisterKeepsConsistent | src/reactor.rs:133-142 | Registering a new waiter under an id keeps the invariant, whatever entry it replaces |
| Reactor.ReplacedWaiterOrphaned | src/reactor.rs:142-171 | A waiter replaced by a re-registration is no longer in the table and receives nothing, in the sweep or before it |
| Reactor.SweepTable | src/reactor.rs:146-170 | The result is the table without its expired entries; the timeout error is handed to the waiter of each expired id exactly once, in some order; the invariant is kept |
| Reactor.InsertAndSweep | src/reactor.rs:140-171 | The table after insertion and the capacity-triggered sweep; the sweep's deliveries; the invariant; a replaced waiter is orphaned |
| Reactor.Reactor.constructor | src/reactor.rs:28-60 | Only a positive capacity builds a reactor; the counter starts at 0, the table and the logs empty, the invariant holds |
| Reactor.Reactor.Notify | src/reactor.rs:62-85 | The result is whether the send went through; only the notification log changes, and only then; the counter and the table are untouched |
| Reactor.Reactor.Request | src/reactor.rs:87-103 | The counter advances with wrap-around whether or not the send succeeds; the request goes out under the counter's old value, with everything `RequestWithId` promises for that id |
| Reactor.Reactor.RequestWithId | src/reactor.rs:105-174 | A failed send returns nothing and changes nothing. A successful one logs the request, returns a fresh waiter, and sets the table to the old one with the new entry under `id`, minus the sweep's targets. The sweep's deliveries are appended to the log. The invariant is kept, and a replaced waiter is orphaned |
| Reactor.Reactor.SendRequest | src/reactor.rs:116-131 | The result is whether the send went through; the request is logged exactly then, and nothing else changes |
| Reactor.Reactor.Register | src/reactor.rs:133-171 | A fresh waiter is registered under the id at `moment`; the table becomes the old one with that entry minus the sweep's targets; the sweep's deliveries are appended; the invariant is kept; a replaced waiter is orphaned |
| Reactor.Reactor.Fulfil | src/reactor.rs:42-47 | The entry under the response's id is removed and its waiter handed the response's outcome; an unknown id changes nothing; the invariant is kept, so a second response for the same id finds no entry |

## Left out

- The tokio channels, `send_timeout` waiting, the spawned task and the `Arc<RwLock<_>>` sharing are not modelled. Whether an outbound send succeeds is the `sent` parameter. Each locked section is one atomic method. The fulfilment loop's body is `Fulfil`, and the loop itself, which ends when the response channel closes, is not modelled.
- `Reactor.Reactor.RequestWithId` runs the unlocked send (`SendRequest`) and the locked registration (`Register`) back to back. In the source, the fulfilment task can take the lock between the two. A reply to the request just sent then finds no entry and is dropped, or, if `id` was already registered, it goes to the older waiter. The new waiter is then registered and never fulfilled; only a sweep can reach it, and only if it has a timeout. `RequestWithId` does not capture this interleaving. A caller of the model can still sequence `SendRequest`, `Fulfil` and `Register` that way.
- `Reactor.ReplacedWaiterOrphaned`: inserting over an existing id drops the replaced entry's oneshot sender, which closes its channel. The replaced caller's receive then ends at once with a closed-channel error rather than waiting forever. The model records no closure event; it proves only that no outcome is ever handed to that waiter.
- `Reactor.Reactor.constructor` requires a positive capacity, because the source's bounded channel constructor panics on a zero capacity. The panic itself is not modelled.
- `Reactor.Reactor.Notify` and `Reactor.Reactor.RequestWithId`: the optional send timeout only decides how long a send may wait. It affects nothing but the send's success, so it is folded into `sent`. The per-request timeout stored in the table is modelled.
- `time::Instant` and `Duration` are integers in one unit. The two clock readings of `request_with_id` (the entry's moment and the sweep's now) are parameters.
- What a oneshot send does when its receiver is gone is not modelled; the source ignores the failure. The delivery log records every send attempt.
- The waiter's receiving half is not modelled separately. `RequestWithId` returns the fresh object that identifies the channel.
- The serde `Serialize`/`Deserialize` impls, `Display`, `std::error::Error` and the `FromIterator` impls for `Params` are left out. They wrap the same conversions, or they only format output.
- The by-reference copies of the conversions are left out, because they are identical to the by-value ones.
- Byte-level JSON parsing and float internals are not modelled. A float Number is `JFloat(real)`, and no arithmetic is done on it.
- The sweep visits expired ids in hash-map order, which is unspecified. The model proves the outcome for every visiting order.
