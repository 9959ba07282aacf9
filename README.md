# SPOOL provenance reconstructor, modelled in Dafny

This project models the reconstruction engine of pyspool's `BlockchainSpider`
(`spool/spoolex.py`). Given the transactions that mention a piece, the engine
builds the ownership tree of every edition of the piece and reads ownership
chains out of it. Four steps make this up:

- **Output scanning** (`check_script`, `decode_op_return`). It scans the
  outputs of a transaction from the last to the first, looking for an
  OP_RETURN output (script hex starting `6a`). Its payload, the hex after the
  first four characters, must decode to a SPOOL verb whose action is
  supported.
- **Address resolution** (`_get_addresses`). A transaction must spend from
  exactly one address (otherwise `InvalidTransactionError`). The outputs are
  ordered by position `n` and the last one is dropped. The piece address is
  the first remaining output, the receiver the last.
- **Tree building** (`history`). Every transaction becomes one event in the
  bucket of its edition. An EDITIONS verb goes to bucket 0 and sets the
  number of editions. A second loop writes the final number of editions into
  every event.
- **Chain reading** (`chain`, `strip_loan`). `chain` orders one bucket by
  timestamp (a stable sort). `strip_loan` pops the trailing LOAN events off
  the caller's list in place.

Modules:

- `SpoolTypes` (spool_types.dfy): transactions, verbs, events, errors, and
  the `Codec`. The `Codec` stands for the collaborators whose code is not
  part of this model: the hex decoder, the SPOOL verb codec and its set of
  supported actions.
- `Sorting` (sorting.dfy): Python's `sorted` on an integer key, proved
  sorted, a permutation and stable.
- `Scanner` (scanner.dfy): `check_script` and `decode_op_return`.
- `Addresses` (addresses.dfy): `_get_addresses`.
- `History` (history.dfy): `history`, as a method with both of its loops. It
  is proved equal to `HistorySpec`, whose properties are proved as lemmas
  against the reference definitions `Bucket` and `Records`.
- `Chains` (chains.dfy): `chain`, and `strip_loan` as a method on a mutable
  list (`EventList`).

Failures are values. A Python exception becomes `Err(e)` of a `Result`. The
errors are:

- `UnsupportedTransaction`: the "Invalid ascribe transaction" exception.
- `DecodeFailed`: the hex decoder or the verb codec raises.
- `InvalidTransaction(senders)`: `InvalidTransactionError`.
- `IndexError`.

The errors `history` raises carry no transaction id.

## Model

| member | source | states |
|---|---|---|
| Sorting.SortBy | spool/spoolex.py:135 | `sorted` by an integer key returns a permutation of its input, ordered by the key, in which the elements of each key keep their input order (stability) |
| Sorting.InsertSorted | spool/spoolex.py:135 | the insertion step of the stable sort: inserting into a sorted list keeps it sorted, adds exactly the new element, and places it after every element of its own key |
| Scanner.PayloadHex | spool/spoolex.py:182 | `hex[4:]` is what follows the first four characters, and empty for shorter scripts |
| Scanner.OpReturnRoundTrip | spool/spoolex.py:182 | a script written as `6a`, a push-length byte and a payload is an OP_RETURN script, and dropping four characters recovers exactly the payload |
| Scanner.Examine | spool/spoolex.py:201-204 | one pass of the `check_script` loop, each verdict as an if-and-only-if: filtered out exactly when the script does not start with `6a`; a decoding failure exactly when it does and the hex decoder or the verb codec raises; passed over as unsupported exactly when both decode and the action is not supported; returned, with the decoded payload, exactly when both decode and the action is supported |
| Scanner.FirstSupported | spool/spoolex.py:201-206 | a returned payload decodes to a supported action; the only failures are "Invalid ascribe transaction" and a decoding failure |
| Scanner.FirstSupportedAccepted | spool/spoolex.py:201-205 | a returned payload is that of an output that decodes to a supported action, with every output above it filtered out or unsupported (the highest such output) |
| Scanner.FirstSupportedRejectsAll | spool/spoolex.py:201-206 | when "Invalid ascribe transaction" is raised, every output is either not OP_RETURN or decodes to an unsupported action |
| Scanner.FirstSupportedRejectsOnly | spool/spoolex.py:201-206 | when every output is either not OP_RETURN or decodes to an unsupported action, "Invalid ascribe transaction" is raised |
| Scanner.FirstSupportedRejects | spool/spoolex.py:201-206 | "Invalid ascribe transaction" is raised if and only if every output is either not OP_RETURN or decodes to an unsupported action |
| Scanner.FirstSupportedUndecodable | spool/spoolex.py:201-203 | a decoding failure comes from an OP_RETURN output that fails to decode while every output above it is passed over |
| Scanner.CheckScript | spool/spoolex.py:185-206 | the reverse loop with early return computes `FirstSupported` |
| Addresses.Senders | spool/spoolex.py:224 | the sender set holds exactly the addresses of the inputs |
| Addresses.DropLast | spool/spoolex.py:230 | `xs[:-1]` keeps all but the last element, and nothing of an empty list |
| Addresses.OrderedOutputs | spool/spoolex.py:230 | the outputs sorted by `n` are a permutation of the outputs in non-decreasing `n` |
| Addresses.GetAddresses | spool/spoolex.py:209-235 | `InvalidTransactionError` (carrying the sender set) if and only if the sender set does not have size 1; otherwise an index failure if and only if there are fewer than two outputs; the sender is the single sender address; with exactly two outputs the receiver is the piece address |
| Addresses.SingleSender | spool/spoolex.py:224-233 | a sender set of size one is the set of the first input's address, which `from_address.pop()` returns |
| Addresses.PieceIsLowestOutput | spool/spoolex.py:230-231 | the piece address belongs to an output of the lowest position |
| Addresses.ReceiverIsSecondHighestOutput | spool/spoolex.py:229-232 | the receiver address belongs to the second-highest output: one other output is at least as high, and every remaining output is at most as high |
| History.Decode | spool/spoolex.py:91-94 | a transaction decodes exactly when `check_script` and `_get_addresses` both succeed; a `check_script` failure is raised first, then an `_get_addresses` failure; on success the payload is the one `check_script` returns, the verb is what the codec decodes from it (of a supported action), and the addresses are those `_get_addresses` returns |
| History.History | spool/spoolex.py:70-118 | both loops of `history` compute `HistorySpec`: the tree, or the error that aborts the run |
| History.HistoryFails | spool/spoolex.py:89-94 | a transaction that does not decode, reached after the earlier ones decoded, makes `history` raise its error |
| History.HistoryDone | spool/spoolex.py:114-118 | once the first loop has read every transaction, `history` returns the grouped events with the final number of editions written in |
| History.AddTransaction | spool/spoolex.py:89-111 | the first loop's body: the transaction's event is appended to its bucket of the grouped tree, and an EDITIONS verb sets the number of editions |
| History.ReadTransaction | spool/spoolex.py:90-94 | reading one transaction computes `Decode` |
| History.GroupAppend | spool/spoolex.py:104-111 | appending to `tree[edition_number]` of the defaultdict is grouping the longer list of events by edition |
| History.WithCount | spool/spoolex.py:117 | the list comprehension sets `number_editions` in every event of a bucket and changes nothing else |
| History.SetNumberEditions | spool/spoolex.py:117 | the loop over a bucket computes `WithCount` |
| History.BackFillEditions | spool/spoolex.py:116-117 | the second loop, over every bucket, computes `BackFill` |
| History.CollectSucceeds | spool/spoolex.py:89-94 | the first loop completes if and only if every transaction decodes |
| History.CollectFirstError | spool/spoolex.py:89-94 | an aborted first loop raises the error of the first transaction that does not decode |
| History.CollectStops | spool/spoolex.py:89-94 | once a transaction fails, the whole run fails with its error |
| History.CollectCount | spool/spoolex.py:97-100 | the first loop ends holding the count of the last EDITIONS verb, or 0 |
| History.CollectBucket | spool/spoolex.py:89-117 | after both loops, the events of an edition are its reference bucket |
| History.CollectKeys | spool/spoolex.py:104 | the defaultdict has a bucket for an edition exactly when some event was appended to it |
| History.HistorySucceeds | spool/spoolex.py:89-118 | `history` returns a tree if and only if every transaction decodes; otherwise no tree |
| History.HistoryFirstError | spool/spoolex.py:89-94 | a failing `history` raises the error of the first transaction that does not decode, all earlier ones having decoded |
| History.HistoryBuckets | spool/spoolex.py:89-118 | each bucket of the returned tree is the reference bucket of its edition: its transactions' events in order, each with the final number of editions; a bucket exists exactly when it is non-empty |
| History.BucketEvents | spool/spoolex.py:97-111 | every event of bucket `k` carries edition number `k` and the final number of editions, and an EDITIONS event lies in bucket 0 |
| History.BucketRecords | spool/spoolex.py:97-111 | every decoded transaction's event lies in the bucket of its edition: 0 for EDITIONS, the verb's edition number otherwise |
| History.AnnouncedNone | spool/spoolex.py:87-100 | the number of editions is 0 when no verb is EDITIONS |
| History.AnnouncedIsLast | spool/spoolex.py:97-100 | once some verb is EDITIONS, the number of editions is that of the last EDITIONS verb |
| History.BucketOfRecords | spool/spoolex.py:104-111 | a reference bucket is the one-event-per-transaction list filtered by edition |
| History.HistoryTree | spool/spoolex.py:89-118 | the returned tree is exactly one event per transaction, in order, each carrying the last EDITIONS count or 0, grouped by edition |
| Chains.Chain | spool/spoolex.py:121-135 | the chain is a permutation of the edition's bucket ordered by timestamp, equal timestamps keeping bucket order; an absent edition gives the empty chain |
| Chains.ChainOfHistory | spool/spoolex.py:135 | the chain of an edition of the `history` tree is its transactions' events ordered by time |
| Chains.ChainAsWritten | spool/spoolex.py:121-135 | as written, the empty-string edition finds no bucket and gives the empty chain |
| Chains.ChainAsWrittenMissesMaster | spool/spoolex.py:125-135 | a tree whose master edition has an event still gives the empty-string lookup an empty chain |
| Chains.ChainOf | spool/spoolex.py:121-128 | as documented, the empty string selects the master edition: it gives exactly the chain of edition 0, and an edition number gives that edition's chain |
| Chains.StripTrailingLoans | spool/spoolex.py:151-154 | the result is a prefix; every removed element is a LOAN; the result is empty or ends in a non-LOAN; it is empty if and only if every element is a LOAN |
| Chains.StripTrailingLoansUnique | spool/spoolex.py:151-152 | the prefix kept is the only one that drops LOANs alone and ends in a non-LOAN (or is empty) |
| Chains.StripTrailingLoansIdempotent | spool/spoolex.py:151-154 | stripping twice is stripping once |
| Chains.EventList.constructor | spool/spoolex.py:144 | a list holding the given events |
| Chains.EventList.Pop | spool/spoolex.py:152 | `pop()` removes and returns the last element |
| Chains.StripLoan | spool/spoolex.py:138-154 | the caller's list becomes its loans-stripped prefix, and the same list is returned; IndexError if and only if nothing but LOANs was left |

## Findings

| source | as written | input that shows it | evidently intended | confidence | as-written member | corrected member |
|---|---|---|---|---|---|---|
| spool/spoolex.py:125-135 | `chain` looks up `edition_number` as given, while the docstring says the master edition can be asked for with `''` or `0`; if the verb codec gives integer edition numbers, every key `history` makes is an integer, so `''` finds no bucket (the codec's source is not part of this model) | a tree whose bucket 0 holds one event `e`: `chain(tree, '')` is `[]` but `chain(tree, 0)` is `[e]` | `''` selects bucket 0, like `0` | low (holds only for integer edition numbers), not executed | Chains.ChainAsWritten (shown by Chains.ChainAsWrittenMissesMaster) | Chains.ChainOf |

## Left out

- The transaction client: `__init__` and the `self._t.get` calls are network I/O. The transactions are an input sequence of records, already fetched. Refetching by txid is assumed to return the listed transaction itself. The `max_transactions=10000` bound is the length of that sequence.
- `Spoolverb.from_verb` and `Spoolverb.supported_actions`: that codec's source is not part of this model. It is an abstract function (`Codec.fromVerb`, `None` where it raises) and an abstract set. Its byte format is not modelled.
- `binascii.unhexlify`: a library call, kept abstract (`Codec.unhexlify`, `None` where it raises). Only the `[4:]` drop is modelled.
- Exception kinds: whatever the hex decoder or the verb codec raises becomes `DecodeFailed`; the message texts are not modelled. `InvalidTransaction` carries the sender set that the message formats.
- `_get_time_utc`: library date parsing. Timestamps are integers.
- `pprint`: output formatting only.
- The `SPOOLVERB` constants and `TIME_FORMAT`: unused by the logic. Actions are a datatype in which LOAN and EDITIONS are distinguished.
- Malformed records: a transaction or event missing a field (a `KeyError` in Python) cannot be expressed, since records are typed.
- History.History: the `dict(tree)` it returns is a map value. The event dicts are values, so the in-place `d.update` of the second loop, and the sharing of those dicts between the tree and any chain, are modelled as building updated values. The order in which `tree.items()` visits the buckets is left open; the result does not depend on it.
- Edition numbers are integers (`Verb.editionNumber: int`). A verb codec that returns `''` as the edition number of piece-level verbs, and so a `''` bucket in the tree, cannot be represented. Under that codec the `''` lookup in `chain` would find a real bucket, and the finding on `chain` would not apply.
- Chains.EventList.Pop: `list.pop()` on an empty list is excluded by its precondition, since `strip_loan` pops only after reading `chain[-1]`.
