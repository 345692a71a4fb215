/** The set of active peers: each has a thread, and threads of peers that returned wait to be reaped. */
module PeerSets {
  import opened Wrappers
  import opened PeerLists

  datatype Error = LogicError

  datatype Peers = Peers(threads: set<Peer>, inactivePeers: seq<Peer>)
  {
    /** `size()`, in which the subtraction is unsigned. */
    function Size(): int {
      |threads| - |inactivePeers|
    }
  }

  function Activate(s: Peers, p: Peer): Result<Peers, Error> {
    if p in s.threads then Failure(LogicError) else Success(s.(threads := s.threads + {p}))
  }

  /** What `execute()` does under the lock when a peer has returned. */
  function Deactivate(s: Peers, p: Peer): Peers {
    s.(inactivePeers := s.inactivePeers + [p])
  }

  /** Joins and forgets the peer that has waited longest. */
  function Reap(s: Peers): Peers
    requires s.inactivePeers != []
  {
    Peers(s.threads - {s.inactivePeers[0]}, s.inactivePeers[1..])
  }

  /** The condition of the reaper's loop; the set is done when it's being destroyed. */
  predicate ReaperGoesOn(done: bool, s: Peers) {
    !done || s.threads != {} || s.inactivePeers != []
  }

  /** The peers to be reaped are distinct, and each has a thread: looking it up can't fail. */
  ghost predicate Reapable(s: Peers) {
    NoDuplicates(s.inactivePeers) && forall p :: p in s.inactivePeers ==> p in s.threads
  }

  lemma {:induction false} DistinctFit(peers: seq<Peer>, threads: set<Peer>)
    requires NoDuplicates(peers) && forall p :: p in peers ==> p in threads
    ensures |peers| <= |threads|
  {
    if peers == [] {
    } else {
      var rest := peers[1..];
      forall p | p in rest
        ensures p in threads - {peers[0]}
      {
        var i :| 0 <= i < |rest| && rest[i] == p;
        assert peers[i + 1] == p;
      }
      assert peers[0] in threads;
      DistinctFit(rest, threads - {peers[0]});
    }
  }

  class PeerSet {
    var threads: set<Peer>
    var inactivePeers: seq<Peer>
    var done: bool

    ghost function Value(): Peers
      reads this
    {
      Peers(threads, inactivePeers)
    }

    constructor ()
      ensures Value() == Peers({}, []) && !done
    {
      threads := {};
      inactivePeers := [];
      done := false;
    }

    method ActivatePeer(peer: Peer) returns (r: Result<(), Error>)
      modifies this`threads
      ensures match Activate(old(Value()), peer)
              case Success(s) => r == Success(()) && Value() == s
              case Failure(e) => r == Failure(e) && Value() == old(Value())
      ensures r == if peer in old(threads) then Failure(LogicError) else Success(())
      ensures threads == old(threads) + {peer}
    {
      if peer in threads {
        return Failure(LogicError);
      }
      threads := threads + {peer};
      return Success(());
    }

    method PeerReturned(peer: Peer)
      modifies this`inactivePeers
      ensures Value() == Deactivate(old(Value()), peer)
      ensures inactivePeers == old(inactivePeers) + [peer]
    {
      inactivePeers := inactivePeers + [peer];
    }

    /** The source asserts that the lookup succeeds. */
    method ReapOne() returns (reaped: Option<Peer>)
      requires Reapable(Value())
      modifies this`threads, this`inactivePeers
      ensures old(inactivePeers) == [] ==> reaped == None && Value() == old(Value())
      ensures old(inactivePeers) != [] ==> reaped == Some(old(inactivePeers)[0]) && Value() == Reap(old(Value()))
      ensures Reapable(Value())
      ensures reaped.Some? ==>
                && reaped.value in old(threads) && threads == old(threads) - {reaped.value}
                && [reaped.value] + inactivePeers == old(inactivePeers)
    {
      if inactivePeers == [] {
        return None;
      }
      var peer := inactivePeers[0];
      assert peer in inactivePeers;
      threads := threads - {peer};
      inactivePeers := inactivePeers[1..];
      return Some(peer);
    }

    /** The subtraction doesn't underflow. */
    method GetSize() returns (n: nat)
      requires Reapable(Value())
      ensures n == Value().Size() && n + |inactivePeers| == |threads|
    {
      DistinctFit(inactivePeers, threads);
      n := |threads| - |inactivePeers|;
    }
  }
}
