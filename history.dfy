/**
  Tree building: `BlockchainSpider.history`. Every transaction that refers to
  a piece is scanned for its SPOOL verb, resolved into its three addresses and
  appended, as one event, to the bucket of its edition; an EDITIONS verb goes
  to bucket 0 and sets the number of editions, which a second pass writes into
  every event once all transactions are in.
*/
module History {
  import opened SpoolTypes
  import opened Sorting
  import opened Scanner
  import opened Addresses

  /** What one transaction yields: its verb payload, the decoded verb and its addresses. */
  datatype Decoded = Decoded(payload: Bytes, verb: Verb, roles: Roles)

  /** What reading one transaction gives: its decoding, or the error that aborts `history`. */
  type Reading = Result<Decoded, Error>

  /**
    The body of the first loop of `history` for one transaction, up to the
    event it appends: `check_script`, `Spoolverb.from_verb` and
    `_get_addresses`, whose failures abort in that order.
  */
  function Decode(c: Codec, tx: Tx): (r: Reading)
    ensures r.Ok? ==> r.value.verb.action in c.supportedActions
    ensures r.Ok? <==> FirstSupported(c, tx.vouts).Ok? && GetAddresses(tx).Ok?
    ensures FirstSupported(c, tx.vouts).Err? ==> r == Err(FirstSupported(c, tx.vouts).error)
    ensures FirstSupported(c, tx.vouts).Ok? && GetAddresses(tx).Err? ==> r == Err(GetAddresses(tx).error)
    ensures r.Ok? ==>
      && r.value.payload == FirstSupported(c, tx.vouts).value
      && Some(r.value.verb) == c.fromVerb(r.value.payload)
      && r.value.roles == GetAddresses(tx).value
  {
    match FirstSupported(c, tx.vouts)
    case Err(e) => Err(e)
    case Ok(payload) =>
      match GetAddresses(tx)
      case Err(e) => Err(e)
      case Ok(roles) => Ok(Decoded(payload, c.fromVerb(payload).value, roles))
  }

  /** The readings of all transactions, in order. */
  function Readings(c: Codec, txs: seq<Tx>): (rs: seq<Reading>)
    ensures |rs| == |txs|
    ensures forall i :: 0 <= i < |txs| ==> rs[i] == Decode(c, txs[i])
  {
    seq(|txs|, i requires 0 <= i < |txs| => Decode(c, txs[i]))
  }

  /** The bucket of a verb: 0 for EDITIONS, its own edition number otherwise. */
  function BucketKey(v: Verb): (k: int) {
    if v.action == Editions then 0 else v.editionNumber
  }

  /** The number of editions known after a verb: an EDITIONS verb announces it. */
  function NextCount(v: Verb, count: int): (count': int) {
    if v.action == Editions then v.numEditions else count
  }

  /** The record `history` appends for a decoded transaction. */
  function MakeEvent(tx: Tx, d: Decoded, numberEditions: int): (e: Event) {
    Event(tx.txid, d.payload, d.roles.from, d.roles.to, d.roles.piece, tx.time,
          d.verb.action, numberEditions, BucketKey(d.verb))
  }

  /** The events the first loop has appended, in order, and the number of editions it holds. */
  datatype Collected = Collected(events: seq<Event>, count: int)

  /**
    The first loop of `history` run over the transactions `txs`, whose
    readings are `rs`: the first reading that is an error aborts it.
  */
  function Collect(txs: seq<Tx>, rs: seq<Reading>): (r: Result<Collected, Error>)
    requires |rs| == |txs|
    decreases |txs|
  {
    if txs == [] then Ok(Collected([], 0))
    else
      var n := |txs| - 1;
      match Collect(txs[..n], rs[..n])
      case Err(e) => Err(e)
      case Ok(Collected(events, count)) =>
        match rs[n]
        case Err(e) => Err(e)
        case Ok(d) =>
          var count' := NextCount(d.verb, count);
          Ok(Collected(events + [MakeEvent(txs[n], d, count')], count'))
  }

  /** Whether a reading is an EDITIONS verb. */
  predicate AnnouncesEditions(r: Reading) {
    r.Ok? && r.value.verb.action == Editions
  }

  /** The number of editions announced by the last EDITIONS verb of `rs`, or 0 if there is none. */
  function Announced(rs: seq<Reading>): (count: int)
    decreases |rs|
  {
    if rs == [] then 0
    else if AnnouncesEditions(rs[|rs| - 1]) then rs[|rs| - 1].value.verb.numEditions
    else Announced(rs[..|rs| - 1])
  }

  /** The buckets of the tree: the edition numbers the events carry. */
  function EditionKeys(events: seq<Event>): (keys: set<int>) {
    set i | 0 <= i < |events| :: events[i].editionNumber
  }

  /** The tree after the first loop: each bucket holds the events of its edition in order of arrival. */
  function Group(events: seq<Event>): (tree: map<int, seq<Event>>) {
    map k | k in EditionKeys(events) :: WithKey(events, EditionOf, k)
  }

  /** A bucket after the back-fill: every event carries `count` editions. */
  function WithCount(chain: seq<Event>, count: int): (r: seq<Event>)
    ensures |r| == |chain|
    ensures forall i :: 0 <= i < |r| ==> r[i] == chain[i].(numberEditions := count)
  {
    seq(|chain|, i requires 0 <= i < |chain| => chain[i].(numberEditions := count))
  }

  /** The second loop of `history`. */
  function BackFill(tree: map<int, seq<Event>>, count: int): (filled: map<int, seq<Event>>) {
    map k | k in tree :: WithCount(tree[k], count)
  }

  /** What `history` returns for the transactions `txs`. */
  function HistorySpec(c: Codec, txs: seq<Tx>): (r: Result<map<int, seq<Event>>, Error>) {
    match Collect(txs, Readings(c, txs))
    case Err(e) => Err(e)
    case Ok(Collected(events, count)) => Ok(BackFill(Group(events), count))
  }

  /**
    `history` over the transactions already fetched for a piece: one event per
    transaction in the bucket of its edition, then the number of editions
    written into every event.
  */
  method History(c: Codec, txs: seq<Tx>) returns (r: Result<map<int, seq<Event>>, Error>)
    ensures r == HistorySpec(c, txs)
  {
    ghost var rs := Readings(c, txs);
    var tree: map<int, seq<Event>> := map[];
    var numberEditions := 0;
    ghost var events: seq<Event> := [];
    var i := 0;
    assert txs[..i] == [] && rs[..i] == [];
    while i < |txs|
      invariant 0 <= i <= |txs|
      invariant Collect(txs[..i], rs[..i]) == Ok(Collected(events, numberEditions))
      invariant tree == Group(events)
    {
      var tx := txs[i];
      var decoded, tree', numberEditions' := AddTransaction(c, tx, tree, numberEditions, events);
      assert decoded == rs[i];
      if decoded.Err? {
        HistoryFails(c, txs, i, events, numberEditions);
        return Err(decoded.error);
      }
      CollectAppends(txs, rs, i, events, numberEditions);
      events := events + [MakeEvent(tx, decoded.value, numberEditions')];
      tree, numberEditions := tree', numberEditions';
      i := i + 1;
    }
    HistoryDone(c, txs, events, numberEditions);

    tree := BackFillEditions(tree, numberEditions);
    r := Ok(tree);
  }

  /** A transaction that does not decode makes `history` raise its error. */
  lemma HistoryFails(c: Codec, txs: seq<Tx>, i: nat, events: seq<Event>, count: int)
    requires i < |txs|
    requires Collect(txs[..i], Readings(c, txs)[..i]) == Ok(Collected(events, count))
    requires Decode(c, txs[i]).Err?
    ensures HistorySpec(c, txs) == Err(Decode(c, txs[i]).error)
  {
    CollectFails(txs, Readings(c, txs), i, events, count);
  }

  /** Once the first loop has read every transaction, `history` returns its back-filled tree. */
  lemma HistoryDone(c: Codec, txs: seq<Tx>, events: seq<Event>, count: int)
    requires Collect(txs[..|txs|], Readings(c, txs)[..|txs|]) == Ok(Collected(events, count))
    ensures HistorySpec(c, txs) == Ok(BackFill(Group(events), count))
  {
    assert txs[..|txs|] == txs && Readings(c, txs)[..|txs|] == Readings(c, txs);
  }

  /**
    The body of the first loop of `history` for one transaction: the event is
    appended to the bucket of its edition, and an EDITIONS verb sets the
    number of editions.
  */
  method AddTransaction(c: Codec, tx: Tx, tree: map<int, seq<Event>>, numberEditions: int, ghost events: seq<Event>)
    returns (decoded: Reading, tree': map<int, seq<Event>>, numberEditions': int)
    requires tree == Group(events)
    ensures decoded == Decode(c, tx)
    ensures decoded.Ok? ==> numberEditions' == NextCount(decoded.value.verb, numberEditions)
    ensures decoded.Ok? ==> tree' == Group(events + [MakeEvent(tx, decoded.value, numberEditions')])
  {
    tree', numberEditions' := tree, numberEditions;
    decoded := ReadTransaction(c, tx);
    if decoded.Err? {
      return;
    }
    var Decoded(verbStr, verb, roles) := decoded.value;
    var editionNumber := 0;
    if verb.action != Editions {
      editionNumber := verb.editionNumber;
    } else {
      numberEditions' := verb.numEditions;
    }
    var event := Event(tx.txid, verbStr, roles.from, roles.to, roles.piece,
                       tx.time, verb.action, numberEditions', editionNumber);
    var chain := if editionNumber in tree then tree[editionNumber] else [];
    tree' := tree[editionNumber := chain + [event]];
    assert event == MakeEvent(tx, decoded.value, numberEditions');
    GroupAppend(events, event);
  }

  /**
    The start of the body of the first loop of `history`: the verb payload
    from `check_script`, the verb decoded from it and the three addresses
    from `_get_addresses`.
  */
  method ReadTransaction(c: Codec, tx: Tx) returns (r: Reading)
    ensures r == Decode(c, tx)
  {
    var verbStr := CheckScript(c, tx.vouts);
    if verbStr.Err? {
      return Err(verbStr.error);
    }
    var verb := c.fromVerb(verbStr.value).value;
    var roles := GetAddresses(tx);
    if roles.Err? {
      return Err(roles.error);
    }
    r := Ok(Decoded(verbStr.value, verb, roles.value));
  }

  /**
    The second loop of `history`: every event of every bucket gets the number
    of editions, bucket by bucket.
  */
  method BackFillEditions(tree: map<int, seq<Event>>, numberEditions: int) returns (filled: map<int, seq<Event>>)
    ensures filled == BackFill(tree, numberEditions)
  {
    filled := tree;
    var pending := tree.Keys;
    while pending != {}
      invariant pending <= filled.Keys && filled.Keys == tree.Keys
      invariant forall k :: k in filled ==>
        filled[k] == if k in pending then tree[k] else WithCount(tree[k], numberEditions)
      decreases pending
    {
      NonEmptyHasKey(pending);
      var edition :| edition in pending;
      var chain := SetNumberEditions(filled[edition], numberEditions);
      filled := filled[edition := chain];
      pending := pending - {edition};
    }
    assert forall k :: k in filled ==> filled[k] == BackFill(tree, numberEditions)[k];
  }

  lemma NonEmptyHasKey(s: set<int>)
    requires s != {}
    ensures exists k :: k in s
  {
    if forall k :: k !in s {
      assert false;
    }
  }

  /** The list comprehension of the second loop: each event of one bucket is updated in turn. */
  method SetNumberEditions(chain: seq<Event>, numberEditions: int) returns (updated: seq<Event>)
    ensures updated == WithCount(chain, numberEditions)
  {
    updated := chain;
    var j := 0;
    while j < |updated|
      invariant 0 <= j <= |updated| == |chain|
      invariant forall m :: 0 <= m < j ==> updated[m] == chain[m].(numberEditions := numberEditions)
      invariant forall m :: j <= m < |chain| ==> updated[m] == chain[m]
    {
      updated := updated[j := updated[j].(numberEditions := numberEditions)];
      j := j + 1;
    }
  }

  /** One more transaction that decodes: its event is appended and the count moves on. */
  lemma CollectAppends(txs: seq<Tx>, rs: seq<Reading>, i: nat, events: seq<Event>, count: int)
    requires i < |txs| == |rs| && Collect(txs[..i], rs[..i]) == Ok(Collected(events, count))
    requires rs[i].Ok?
    ensures var d := rs[i].value;
      Collect(txs[..i + 1], rs[..i + 1])
      == Ok(Collected(events + [MakeEvent(txs[i], d, NextCount(d.verb, count))], NextCount(d.verb, count)))
  {
    assert txs[..i + 1][..i] == txs[..i] && rs[..i + 1][..i] == rs[..i];
  }

  /** One more transaction that does not decode: the whole run fails with its error. */
  lemma CollectFails(txs: seq<Tx>, rs: seq<Reading>, i: nat, events: seq<Event>, count: int)
    requires i < |txs| == |rs| && Collect(txs[..i], rs[..i]) == Ok(Collected(events, count))
    requires rs[i].Err?
    ensures Collect(txs, rs) == Err(rs[i].error)
  {
    assert txs[..i + 1][..i] == txs[..i] && rs[..i + 1][..i] == rs[..i];
    CollectStops(txs, rs, i + 1);
  }

  /** Once a prefix of the transactions fails, so does the whole run, with the same error. */
  lemma {:induction false} CollectStops(txs: seq<Tx>, rs: seq<Reading>, n: nat)
    requires n <= |txs| == |rs| && Collect(txs[..n], rs[..n]).Err?
    ensures Collect(txs, rs) == Collect(txs[..n], rs[..n])
    decreases |txs|
  {
    var m := |txs| - 1;
    if n <= m {
      assert txs[..m][..n] == txs[..n] && rs[..m][..n] == rs[..n];
      CollectStops(txs[..m], rs[..m], n);
    } else {
      assert txs[..n] == txs && rs[..n] == rs;
    }
  }

  /** Appending an event to its bucket is grouping the longer sequence of events. */
  lemma GroupAppend(events: seq<Event>, e: Event)
    ensures Group(events + [e]) == Group(events)[e.editionNumber :=
      (if e.editionNumber in Group(events) then Group(events)[e.editionNumber] else []) + [e]]
  {
    var events' := events + [e];
    var k := e.editionNumber;
    var g, g' := Group(events), Group(events');
    var expected := g[k := (if k in g then g[k] else []) + [e]];
    EditionKeysAppend(events, e);
    assert g'.Keys == expected.Keys;
    forall x | x in g' ensures g'[x] == expected[x] {
      WithKeyAppend(events, [e], EditionOf, x);
      assert g'[x] == WithKey(events, EditionOf, x) + WithKey([e], EditionOf, x);
      if x == k && k !in g {
        WithKeyEmpty(events, EditionOf, k);
      }
    }
  }

  lemma EditionKeysAppend(events: seq<Event>, e: Event)
    ensures EditionKeys(events + [e]) == EditionKeys(events) + {e.editionNumber}
  {
    var events' := events + [e];
    forall x | x in EditionKeys(events') ensures x in EditionKeys(events) + {e.editionNumber} {
      var i :| 0 <= i < |events'| && events'[i].editionNumber == x;
      if i < |events| {
        assert events[i].editionNumber == x;
      }
    }
    forall x | x in EditionKeys(events) ensures x in EditionKeys(events') {
      var i :| 0 <= i < |events| && events[i].editionNumber == x;
      assert events'[i].editionNumber == x;
    }
    assert events'[|events|].editionNumber == e.editionNumber;
  }

  /**
    Reference definition of one bucket of the finished tree: the events of
    the transactions of `txs` whose verb belongs to edition `k`, in the order
    of `txs`, each carrying `count` editions.
  */
  function Bucket(txs: seq<Tx>, rs: seq<Reading>, k: int, count: int): (chain: seq<Event>)
    requires |rs| == |txs|
    decreases |txs|
  {
    if txs == [] then []
    else
      var n := |txs| - 1;
      Bucket(txs[..n], rs[..n], k, count)
        + match rs[n]
          case Ok(d) => if BucketKey(d.verb) == k then [MakeEvent(txs[n], d, count)] else []
          case Err(_) => []
  }

  /** The first loop completes exactly when every reading is a decoding. */
  lemma {:induction false} CollectSucceeds(txs: seq<Tx>, rs: seq<Reading>)
    requires |rs| == |txs|
    ensures Collect(txs, rs).Ok? <==> forall i :: 0 <= i < |rs| ==> rs[i].Ok?
    decreases |txs|
  {
    if txs != [] {
      var n := |txs| - 1;
      CollectSucceeds(txs[..n], rs[..n]);
      assert forall i :: 0 <= i < n ==> rs[..n][i] == rs[i];
    }
  }

  /** When the first loop aborts, it does so with the error of the first reading that is an error. */
  lemma {:induction false} CollectFirstError(txs: seq<Tx>, rs: seq<Reading>)
    requires |rs| == |txs| && Collect(txs, rs).Err?
    ensures exists i ::
      && 0 <= i < |rs|
      && rs[i] == Err(Collect(txs, rs).error)
      && forall j :: 0 <= j < i ==> rs[j].Ok?
    decreases |txs|
  {
    var n := |txs| - 1;
    var init := rs[..n];
    assert forall j :: 0 <= j < n ==> init[j] == rs[j];
    if Collect(txs[..n], init).Err? {
      CollectFirstError(txs[..n], init);
      var i :| 0 <= i < n && init[i] == Err(Collect(txs[..n], init).error) && forall j :: 0 <= j < i ==> init[j].Ok?;
      assert rs[i] == Err(Collect(txs, rs).error);
    } else {
      CollectSucceeds(txs[..n], init);
      assert rs[n] == Err(Collect(txs, rs).error);
    }
  }

  /** The number of editions the first loop ends with is the one the last EDITIONS verb announced, or 0. */
  lemma {:induction false} CollectCount(txs: seq<Tx>, rs: seq<Reading>)
    requires |rs| == |txs| && Collect(txs, rs).Ok?
    ensures Collect(txs, rs).value.count == Announced(rs)
    decreases |txs|
  {
    if txs != [] {
      var n := |txs| - 1;
      CollectCount(txs[..n], rs[..n]);
    }
  }

  /** The back-fill of a bucket distributes over concatenation. */
  lemma WithCountAppend(a: seq<Event>, b: seq<Event>, count: int)
    ensures WithCount(a + b, count) == WithCount(a, count) + WithCount(b, count)
  {
    var l, r := WithCount(a + b, count), WithCount(a, count) + WithCount(b, count);
    assert |l| == |r|;
    forall i | 0 <= i < |l| ensures l[i] == r[i] {
      if i < |a| {
        assert (a + b)[i] == a[i];
      } else {
        assert (a + b)[i] == b[i - |a|];
      }
    }
  }

  /**
    After the first loop, the events of edition `k`, with the number of
    editions written into every one, are the reference bucket.
  */
  lemma {:induction false} CollectBucket(txs: seq<Tx>, rs: seq<Reading>, k: int, count: int)
    requires |rs| == |txs| && Collect(txs, rs).Ok?
    ensures WithCount(WithKey(Collect(txs, rs).value.events, EditionOf, k), count) == Bucket(txs, rs, k, count)
    decreases |txs|
  {
    if txs != [] {
      var n := |txs| - 1;
      CollectBucket(txs[..n], rs[..n], k, count);
      var Collected(events, count0) := Collect(txs[..n], rs[..n]).value;
      var d := rs[n].value;
      var e := MakeEvent(txs[n], d, NextCount(d.verb, count0));
      assert Collect(txs, rs).value.events == events + [e];
      WithKeyAppend(events, [e], EditionOf, k);
      var tail := if BucketKey(d.verb) == k then [e] else [];
      assert WithKey([e], EditionOf, k) == tail by {
        assert [e][..0] == [];
      }
      WithCountAppend(WithKey(events, EditionOf, k), tail, count);
      assert WithCount(tail, count) == if BucketKey(d.verb) == k then [MakeEvent(txs[n], d, count)] else [];
    }
  }

  /** After the first loop, edition `k` has a bucket exactly when its reference bucket is not empty. */
  lemma CollectKeys(txs: seq<Tx>, rs: seq<Reading>, k: int, count: int)
    requires |rs| == |txs| && Collect(txs, rs).Ok?
    ensures k in EditionKeys(Collect(txs, rs).value.events) <==> Bucket(txs, rs, k, count) != []
  {
    var events := Collect(txs, rs).value.events;
    CollectBucket(txs, rs, k, count);
    WithKeyEmpty(events, EditionOf, k);
    if k in EditionKeys(events) {
      var i :| 0 <= i < |events| && events[i].editionNumber == k;
      assert EditionOf(events[i]) == k;
    }
  }

  /** `history` returns a tree exactly when every transaction decodes. */
  lemma HistorySucceeds(c: Codec, txs: seq<Tx>)
    ensures HistorySpec(c, txs).Ok? <==> forall i :: 0 <= i < |txs| ==> Decode(c, txs[i]).Ok?
  {
    CollectSucceeds(txs, Readings(c, txs));
  }

  /**
    When `history` fails, it raises the error of the first transaction that
    does not decode, and returns no tree.
  */
  lemma HistoryFirstError(c: Codec, txs: seq<Tx>)
    requires HistorySpec(c, txs).Err?
    ensures exists i ::
      && 0 <= i < |txs|
      && Decode(c, txs[i]) == Err(HistorySpec(c, txs).error)
      && forall j :: 0 <= j < i ==> Decode(c, txs[j]).Ok?
  {
    CollectFirstError(txs, Readings(c, txs));
  }

  /**
    The tree `history` returns has a bucket for exactly the editions some
    transaction belongs to, and each bucket holds the events of those
    transactions in order, every one carrying the number of editions of the
    last EDITIONS verb, or 0.
  */
  lemma HistoryBuckets(c: Codec, txs: seq<Tx>, k: int)
    ensures var rs := Readings(c, txs);
      HistorySpec(c, txs).Ok? ==>
        && (k in HistorySpec(c, txs).value <==> Bucket(txs, rs, k, Announced(rs)) != [])
        && (k in HistorySpec(c, txs).value ==> HistorySpec(c, txs).value[k] == Bucket(txs, rs, k, Announced(rs)))
  {
    var rs := Readings(c, txs);
    if Collect(txs, rs).Ok? {
      CollectCount(txs, rs);
      CollectKeys(txs, rs, k, Announced(rs));
      CollectBucket(txs, rs, k, Announced(rs));
    }
  }

  /**
    Every event of a reference bucket carries the bucket's edition number and
    the number of editions, and an EDITIONS event sits in bucket 0.
  */
  lemma {:induction false} BucketEvents(txs: seq<Tx>, rs: seq<Reading>, k: int, count: int)
    requires |rs| == |txs|
    ensures forall e :: e in Bucket(txs, rs, k, count) ==>
      && e.editionNumber == k
      && e.numberEditions == count
      && (e.action == Editions ==> k == 0)
    decreases |txs|
  {
    if txs != [] {
      var n := |txs| - 1;
      BucketEvents(txs[..n], rs[..n], k, count);
    }
  }

  /** Every transaction that decodes is recorded, once back-filled, in the bucket of its edition. */
  lemma {:induction false} BucketRecords(txs: seq<Tx>, rs: seq<Reading>, i: int, count: int)
    requires |rs| == |txs| && 0 <= i < |txs| && rs[i].Ok?
    ensures MakeEvent(txs[i], rs[i].value, count) in Bucket(txs, rs, BucketKey(rs[i].value.verb), count)
    decreases |txs|
  {
    var n := |txs| - 1;
    if i < n {
      assert txs[..n][i] == txs[i] && rs[..n][i] == rs[i];
      BucketRecords(txs[..n], rs[..n], i, count);
    }
  }

  /** The number of editions announced is 0 when no reading is an EDITIONS verb. */
  lemma {:induction false} AnnouncedNone(rs: seq<Reading>)
    ensures (forall i :: 0 <= i < |rs| ==> !AnnouncesEditions(rs[i])) ==> Announced(rs) == 0
    decreases |rs|
  {
    if rs != [] {
      var n := |rs| - 1;
      var init := rs[..n];
      assert forall j :: 0 <= j < n ==> init[j] == rs[j];
      AnnouncedNone(init);
    }
  }

  /**
    Once some reading is an EDITIONS verb, the number of editions announced
    is the one of the last such reading.
  */
  lemma {:induction false} AnnouncedIsLast(rs: seq<Reading>)
    ensures (exists i :: 0 <= i < |rs| && AnnouncesEditions(rs[i])) ==>
      exists i ::
        && 0 <= i < |rs|
        && AnnouncesEditions(rs[i])
        && Announced(rs) == rs[i].value.verb.numEditions
        && forall j :: i < j < |rs| ==> !AnnouncesEditions(rs[j])
    decreases |rs|
  {
    if rs != [] {
      var n := |rs| - 1;
      if AnnouncesEditions(rs[n]) {
        assert Announced(rs) == rs[n].value.verb.numEditions;
      } else if exists i :: 0 <= i < |rs| && AnnouncesEditions(rs[i]) {
        var init := rs[..n];
        var i' :| 0 <= i' < |rs| && AnnouncesEditions(rs[i']);
        assert AnnouncesEditions(init[i']);
        AnnouncedIsLast(init);
        var i :| && 0 <= i < n
          && AnnouncesEditions(init[i])
          && Announced(init) == init[i].value.verb.numEditions
          && forall j :: i < j < n ==> !AnnouncesEditions(init[j]);
        assert init[i] == rs[i];
        forall j | i < j < |rs| ensures !AnnouncesEditions(rs[j]) {
          if j < n {
            assert init[j] == rs[j];
          }
        }
      }
    }
  }

  /**
    Reference definition of the events of a run in which every transaction
    decodes: one per transaction, in order, each carrying `count` editions.
  */
  function Records(txs: seq<Tx>, rs: seq<Reading>, count: int): (r: seq<Event>)
    requires |rs| == |txs| && forall i :: 0 <= i < |rs| ==> rs[i].Ok?
    ensures |r| == |txs|
  {
    seq(|txs|, i requires 0 <= i < |txs| => MakeEvent(txs[i], rs[i].value, count))
  }

  /** A reference bucket is the events of the reference records that carry its edition. */
  lemma {:induction false} BucketOfRecords(txs: seq<Tx>, rs: seq<Reading>, k: int, count: int)
    requires |rs| == |txs| && forall i :: 0 <= i < |rs| ==> rs[i].Ok?
    ensures Bucket(txs, rs, k, count) == WithKey(Records(txs, rs, count), EditionOf, k)
    decreases |txs|
  {
    if txs != [] {
      var n := |txs| - 1;
      var records := Records(txs, rs, count);
      BucketOfRecords(txs[..n], rs[..n], k, count);
      assert records[..n] == Records(txs[..n], rs[..n], count);
      assert EditionOf(records[n]) == BucketKey(rs[n].value.verb);
    }
  }

  /**
    After the first loop and the back-fill, the bucket of edition `k` is the
    events of the reference records that carry `k`, and there is such a
    bucket exactly when some record carries `k`.
  */
  lemma FilledBucket(txs: seq<Tx>, rs: seq<Reading>, k: int)
    requires |rs| == |txs| && Collect(txs, rs).Ok?
    requires forall i :: 0 <= i < |rs| ==> rs[i].Ok?
    ensures var tree := BackFill(Group(Collect(txs, rs).value.events), Collect(txs, rs).value.count);
      var expected := Group(Records(txs, rs, Announced(rs)));
      && (k in tree <==> k in expected)
      && (k in tree ==> tree[k] == expected[k])
  {
    var records := Records(txs, rs, Announced(rs));
    CollectCount(txs, rs);
    CollectKeys(txs, rs, k, Announced(rs));
    CollectBucket(txs, rs, k, Announced(rs));
    BucketOfRecords(txs, rs, k, Announced(rs));
    WithKeyEmpty(records, EditionOf, k);
    if k in EditionKeys(records) {
      var i :| 0 <= i < |records| && records[i].editionNumber == k;
      assert EditionOf(records[i]) == k;
    }
  }

  /** After both loops, the tree is the reference records grouped by edition. */
  lemma FilledTree(txs: seq<Tx>, rs: seq<Reading>)
    requires |rs| == |txs| && Collect(txs, rs).Ok?
    requires forall i :: 0 <= i < |rs| ==> rs[i].Ok?
    ensures BackFill(Group(Collect(txs, rs).value.events), Collect(txs, rs).value.count)
      == Group(Records(txs, rs, Announced(rs)))
  {
    var tree := BackFill(Group(Collect(txs, rs).value.events), Collect(txs, rs).value.count);
    var expected := Group(Records(txs, rs, Announced(rs)));
    forall k ensures (k in tree <==> k in expected) && (k in tree ==> tree[k] == expected[k]) {
      FilledBucket(txs, rs, k);
    }
    assert tree.Keys == expected.Keys;
  }

  /**
    The tree `history` returns holds one event per transaction: it is the
    events of the transactions, in order and each carrying the number of
    editions of the last EDITIONS verb (or 0), grouped by edition.
  */
  lemma HistoryTree(c: Codec, txs: seq<Tx>)
    ensures var rs := Readings(c, txs);
      HistorySpec(c, txs).Ok? ==>
        && (forall i :: 0 <= i < |rs| ==> rs[i].Ok?)
        && HistorySpec(c, txs).value == Group(Records(txs, rs, Announced(rs)))
  {
    var rs := Readings(c, txs);
    CollectSucceeds(txs, rs);
    if Collect(txs, rs).Ok? {
      FilledTree(txs, rs);
    }
  }
}
