/**
  Reading the tree: `BlockchainSpider.chain`, which orders the bucket of one
  edition by time, and `BlockchainSpider.strip_loan`, which pops the loans
  off the end of a chain so that its last event names the owner.
*/
module Chains {
  import opened SpoolTypes
  import opened Sorting
  import opened History

  /**
    `chain`: the bucket of `editionNumber` ordered by timestamp, events of
    equal timestamp keeping their order in the bucket; an edition without a
    bucket has the empty chain.
  */
  function Chain(tree: map<int, seq<Event>>, editionNumber: int): (r: seq<Event>)
    ensures editionNumber !in tree ==> r == []
    ensures editionNumber in tree ==> multiset(r) == multiset(tree[editionNumber])
    ensures SortedBy(r, Timestamp)
    ensures editionNumber in tree ==>
      forall t :: WithKey(r, Timestamp, t) == WithKey(tree[editionNumber], Timestamp, t)
  {
    SortBy(if editionNumber in tree then tree[editionNumber] else [], Timestamp)
  }

  /**
    The chain of an edition in the tree `history` returns holds, ordered by
    time, the events of exactly the transactions of that edition.
  */
  lemma ChainOfHistory(c: Codec, txs: seq<Tx>, k: int)
    requires HistorySpec(c, txs).Ok?
    ensures var rs := Readings(c, txs);
      && SortedBy(Chain(HistorySpec(c, txs).value, k), Timestamp)
      && multiset(Chain(HistorySpec(c, txs).value, k)) == multiset(Bucket(txs, rs, k, Announced(rs)))
  {
    HistoryBuckets(c, txs, k);
  }

  /**
    The edition argument `chain` is documented to take: an edition number, or
    the empty string standing for the master edition, like 0.
  */
  datatype EditionArg = Number(n: int) | EmptyString

  /**
    `chain` as written: the argument is looked up as it is, and since every
    key of the tree is an integer (edition numbers are integers in this
    model), the empty string finds no bucket.
  */
  function ChainAsWritten(tree: map<int, seq<Event>>, arg: EditionArg): (r: seq<Event>)
    ensures arg.Number? ==> r == Chain(tree, arg.n)
    ensures arg.EmptyString? ==> r == []
  {
    match arg
    case Number(n) => Chain(tree, n)
    case EmptyString => []
  }

  /** The empty string misses the master edition even when it has events. */
  lemma ChainAsWrittenMissesMaster(e: Event)
    ensures var tree := map[0 := [e]];
      ChainAsWritten(tree, EmptyString) == [] && Chain(tree, 0) == [e]
  {
    var tree := map[0 := [e]];
    var r := Chain(tree, 0);
    assert multiset(r) == multiset{e};
    assert |r| == 1 && r[0] in multiset(r);
  }

  /** `chain` as documented: the empty string selects the master edition, bucket 0. */
  function ChainOf(tree: map<int, seq<Event>>, arg: EditionArg): (r: seq<Event>)
    ensures arg.EmptyString? ==> r == Chain(tree, 0)
    ensures arg.Number? ==> r == Chain(tree, arg.n)
  {
    Chain(tree, if arg.EmptyString? then 0 else arg.n)
  }

  /**
    What `strip_loan` leaves of a chain: the longest prefix that is empty or
    ends in an event other than a loan.
  */
  function StripTrailingLoans(s: seq<Event>): (r: seq<Event>)
    ensures |r| <= |s| && r == s[..|r|]
    ensures forall i :: |r| <= i < |s| ==> s[i].action == Loan
    ensures r != [] ==> r[|r| - 1].action != Loan
    ensures r == [] <==> forall i :: 0 <= i < |s| ==> s[i].action == Loan
    decreases |s|
  {
    if s == [] then []
    else if s[|s| - 1].action == Loan then StripTrailingLoans(s[..|s| - 1])
    else s
  }

  /**
    The prefix `StripTrailingLoans` keeps is the only one that drops loans
    alone and is empty or ends in an event other than a loan.
  */
  lemma {:induction false} StripTrailingLoansUnique(s: seq<Event>, n: nat)
    requires n <= |s|
    requires forall i :: n <= i < |s| ==> s[i].action == Loan
    requires n == 0 || s[n - 1].action != Loan
    ensures StripTrailingLoans(s) == s[..n]
    decreases |s|
  {
    if n < |s| {
      var init := s[..|s| - 1];
      assert init[..n] == s[..n];
      StripTrailingLoansUnique(init, n);
    } else {
      assert s[..n] == s;
    }
  }

  /** Stripping the loans twice strips nothing more. */
  lemma StripTrailingLoansIdempotent(s: seq<Event>)
    ensures StripTrailingLoans(StripTrailingLoans(s)) == StripTrailingLoans(s)
  {
    var r := StripTrailingLoans(s);
    StripTrailingLoansUnique(r, |r|);
    assert r[..|r|] == r;
  }

  /** A Python list of events, which `strip_loan` shortens in place. */
  class EventList {
    var items: seq<Event>

    constructor (items: seq<Event>)
      ensures this.items == items
    {
      this.items := items;
    }

    /** `list.pop()`: removes and returns the last element. */
    method Pop() returns (e: Event)
      requires items != []
      modifies this
      ensures items == old(items)[..|old(items)| - 1]
      ensures e == old(items)[|old(items)| - 1]
    {
      e := items[|items| - 1];
      items := items[..|items| - 1];
    }
  }

  /**
    `strip_loan`: pops loans off the end of the caller's list and returns that
    same list; indexing the last element of an empty list raises IndexError,
    which happens when the chain is empty or holds loans only, by which time
    the list has been emptied.
  */
  method StripLoan(chain: EventList) returns (r: Result<EventList, Error>)
    modifies chain
    ensures chain.items == StripTrailingLoans(old(chain.items))
    ensures r.Ok? <==> chain.items != []
    ensures r.Ok? ==> r.value == chain
    ensures r.Err? ==> r.error == IndexError
  {
    while true
      invariant StripTrailingLoans(chain.items) == StripTrailingLoans(old(chain.items))
      decreases |chain.items|
    {
      if chain.items == [] {
        return Err(IndexError);
      }
      if chain.items[|chain.items| - 1].action != Loan {
        return Ok(chain);
      }
      var _ := chain.Pop();
    }
  }
}
