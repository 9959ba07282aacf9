/**
  Address resolution: `BlockchainSpider._get_addresses`. A SPOOL transaction
  is spent from one address; its outputs, ordered by position, carry the
  piece address first and the receiver last, followed by the OP_RETURN
  output, which is discarded.
*/
module Addresses {
  import opened SpoolTypes
  import opened Sorting

  /** Sender, receiver and piece address of a transaction. */
  datatype Roles = Roles(from: Address, to: Address, piece: Address)

  /** The set of the input addresses. */
  function Senders(tx: Tx): (s: set<Address>)
    ensures forall i :: 0 <= i < |tx.vins| ==> tx.vins[i].address in s
    ensures forall a :: a in s ==> exists i :: 0 <= i < |tx.vins| && tx.vins[i].address == a
  {
    set i | 0 <= i < |tx.vins| :: tx.vins[i].address
  }

  /** `xs[:-1]`: all but the last element, and nothing of an empty list. */
  function DropLast<T>(xs: seq<T>): (r: seq<T>)
    ensures |r| == if xs == [] then 0 else |xs| - 1
    ensures forall i :: 0 <= i < |r| ==> r[i] == xs[i]
  {
    if xs == [] then [] else xs[..|xs| - 1]
  }

  /** The outputs ordered by position (a stable sort on `n`). */
  function OrderedOutputs(tx: Tx): (r: seq<Vout>)
    ensures |r| == |tx.vouts|
    ensures SortedBy(r, OutputIndex)
    ensures multiset(r) == multiset(tx.vouts)
  {
    SortBy(tx.vouts, OutputIndex)
  }

  /**
    `_get_addresses`: InvalidTransactionError unless the inputs come from
    exactly one address; an index failure when fewer than two outputs are
    left to take the piece and the receiver from.
  */
  function GetAddresses(tx: Tx): (r: Result<Roles, Error>)
    ensures r.Err? && r.error.InvalidTransaction? <==> |Senders(tx)| != 1
    ensures |Senders(tx)| != 1 ==> r == Err(InvalidTransaction(Senders(tx)))
    ensures |Senders(tx)| == 1 && |tx.vouts| < 2 ==> r == Err(IndexError)
    ensures r.Ok? <==> |Senders(tx)| == 1 && |tx.vouts| >= 2
    ensures r.Ok? ==> Senders(tx) == {r.value.from}
    ensures r.Ok? && |tx.vouts| == 2 ==> r.value.to == r.value.piece
  {
    var senders := Senders(tx);
    if |senders| != 1 then Err(InvalidTransaction(senders))
    else
      var vouts := DropLast(OrderedOutputs(tx));
      if |vouts| == 0 then Err(IndexError)
      else
        SingleSender(tx);
        Ok(Roles(tx.vins[0].address, vouts[|vouts| - 1].address, vouts[0].address))
  }

  /** A set of input addresses of size one is the set of the first input's address. */
  lemma SingleSender(tx: Tx)
    requires |Senders(tx)| == 1
    ensures |tx.vins| > 0 && Senders(tx) == {tx.vins[0].address}
  {
    var a := tx.vins[0].address;
    assert a in Senders(tx);
    var rest := Senders(tx) - {a};
    assert |rest| == 0;
    assert rest == {};
    assert Senders(tx) == rest + {a};
  }

  /** On success the piece and receiver addresses are read off the ordered outputs. */
  lemma RolesOfOrderedOutputs(tx: Tx)
    requires GetAddresses(tx).Ok?
    ensures var r := OrderedOutputs(tx);
      && |r| >= 2
      && GetAddresses(tx).value.piece == r[0].address
      && GetAddresses(tx).value.to == r[|r| - 2].address
  {
    var r := OrderedOutputs(tx);
    assert DropLast(r)[|r| - 2] == r[|r| - 2] && DropLast(r)[0] == r[0];
  }

  /** The piece address belongs to an output whose position is the lowest of all. */
  lemma PieceIsLowestOutput(tx: Tx)
    requires GetAddresses(tx).Ok?
    ensures exists v ::
      && v in tx.vouts
      && v.address == GetAddresses(tx).value.piece
      && forall u :: u in tx.vouts ==> v.n <= u.n
  {
    RolesOfOrderedOutputs(tx);
    var r := OrderedOutputs(tx);
    LowestOfSorted(r, tx.vouts);
  }

  lemma LowestOfSorted(r: seq<Vout>, vouts: seq<Vout>)
    requires |r| >= 1 && SortedBy(r, OutputIndex) && multiset(r) == multiset(vouts)
    ensures r[0] in vouts && forall u :: u in vouts ==> r[0].n <= u.n
  {
    var v := r[0];
    assert v in multiset(r);
    forall u | u in vouts ensures v.n <= u.n {
      assert u in multiset(vouts);
      assert u in r;
      var j :| 0 <= j < |r| && r[j] == u;
      if j > 0 {
        assert OutputIndex(r[0]) <= OutputIndex(r[j]);
      }
    }
  }

  /**
    The receiver address belongs to an output `w` which, beside one other
    output `top` of a position at least as high, has the highest position of
    the outputs: it is the second-highest output, the highest being the
    OP_RETURN output that is discarded.
  */
  lemma ReceiverIsSecondHighestOutput(tx: Tx)
    requires GetAddresses(tx).Ok?
    ensures exists w, top ::
      && multiset{w, top} <= multiset(tx.vouts)
      && w.address == GetAddresses(tx).value.to
      && w.n <= top.n
      && forall u :: u in multiset(tx.vouts) - multiset{w, top} ==> u.n <= w.n
  {
    RolesOfOrderedOutputs(tx);
    SecondHighestOfSorted(OrderedOutputs(tx), tx.vouts, GetAddresses(tx).value.to);
  }

  lemma SecondHighestOfSorted(r: seq<Vout>, vouts: seq<Vout>, to: Address)
    requires |r| >= 2 && SortedBy(r, OutputIndex) && multiset(r) == multiset(vouts)
    requires to == r[|r| - 2].address
    ensures exists w, top ::
      && multiset{w, top} <= multiset(vouts)
      && w.address == to
      && w.n <= top.n
      && forall u :: u in multiset(vouts) - multiset{w, top} ==> u.n <= w.n
  {
    var m := |r|;
    var w, top := r[m - 2], r[m - 1];
    var below := r[..m - 2];
    assert r == below + [w, top];
    assert multiset(r) == multiset(below) + multiset{w, top};
    assert multiset(vouts) - multiset{w, top} == multiset(below);
    assert OutputIndex(w) <= OutputIndex(top);
    BelowSecondHighest(r);
  }

  /** In outputs sorted by position, those below the last two are no higher than the second-highest. */
  lemma BelowSecondHighest(r: seq<Vout>)
    requires |r| >= 2 && SortedBy(r, OutputIndex)
    ensures forall u :: u in multiset(r[..|r| - 2]) ==> u.n <= r[|r| - 2].n
  {
    var m := |r|;
    var below := r[..m - 2];
    forall u: Vout | u in multiset(below) ensures u.n <= r[m - 2].n {
      assert u in below;
      var j :| 0 <= j < |below| && below[j] == u;
      assert r[j] == u;
      assert OutputIndex(r[j]) <= OutputIndex(r[m - 2]);
    }
  }
}
