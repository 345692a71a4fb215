/** A queue whose values are revealed at given times, and the pool of remote peer-servers that's built on it. */
module DelayQueues {
  import opened Wrappers

  type Time = nat
  type SockAddr = nat

  datatype Element = Element(value: SockAddr, when: Time)

  datatype Error = DomainError

  /** An element that a priority-queue can have on top: no other is revealed earlier. */
  predicate IsTop(queue: multiset<Element>, e: Element) {
    e in queue && forall f :: f in queue ==> e.when <= f.when
  }

  lemma TopExists(queue: multiset<Element>) returns (e: Element)
    requires queue != multiset{}
    ensures IsTop(queue, e)
    decreases |queue|
  {
    var f :| f in queue;
    var rest := queue - multiset{f};
    if rest == multiset{} {
      assert queue == multiset{f};
      e := f;
    } else {
      e := TopExists(rest);
      if f.when < e.when {
        e := f;
      }
      assert forall g :: g in queue ==> g == f || g in rest;
    }
  }

  /** What one iteration of the loop in `pop()` comes to. */
  datatype Attempt =
    | Closed
    | WaitForChange
    | WaitUntil(when: Time)
    | Popped(value: SockAddr)

  class DelayQueue {
    var queue: multiset<Element>
    var isClosed: bool

    constructor ()
      ensures queue == multiset{} && !isClosed
    {
      queue := multiset{};
      isClosed := false;
    }

    method Push(value: SockAddr, when: Time) returns (r: Result<(), Error>)
      modifies this`queue
      ensures r == if isClosed then Failure(DomainError) else Success(())
      ensures queue == old(queue) + if isClosed then multiset{} else multiset{Element(value, when)}
    {
      if isClosed {
        return Failure(DomainError);
      }
      queue := queue + multiset{Element(value, when)};
      return Success(());
    }

    /**
     * A value is released only at or after its reveal-time, and only if no other is revealed
     * earlier. Otherwise the queue doesn't change and the caller waits, at most until the
     * earliest reveal-time.
     */
    method TryPop(now: Time) returns (r: Attempt)
      modifies this`queue
      ensures r.Closed? <==> isClosed
      ensures r.WaitForChange? <==> !isClosed && old(queue) == multiset{}
      ensures r.WaitUntil? ==> r.when > now && exists e :: IsTop(old(queue), e) && e.when == r.when
      ensures r.Popped? ==>
                exists when: Time :: when <= now && IsTop(old(queue), Element(r.value, when)) &&
                               queue == old(queue) - multiset{Element(r.value, when)}
      ensures !r.Popped? ==> queue == old(queue)
    {
      if isClosed {
        return Closed;
      }
      if queue == multiset{} {
        return WaitForChange;
      }
      ghost var least := TopExists(queue);
      var top :| top in queue && forall f :: f in queue ==> top.when <= f.when;
      assert IsTop(queue, top) && top == Element(top.value, top.when);
      if top.when > now {
        return WaitUntil(top.when);
      }
      queue := queue - multiset{top};
      return Popped(top.value);
    }

    method IsReady(now: Time) returns (ready: bool)
      ensures ready <==> exists e :: e in queue && e.when <= now
    {
      ready := false;
      if queue != multiset{} {
        ghost var least := TopExists(queue);
        var top :| top in queue && forall f :: f in queue ==> top.when <= f.when;
        ready := top.when <= now;
      }
    }

    method Close()
      modifies this
      ensures queue == multiset{} && isClosed
    {
      queue := multiset{};
      isClosed := true;
    }
  }

  /** The servers, each of which is revealed at once. */
  function Initially(servers: set<SockAddr>, now: Time): multiset<Element> {
    multiset(set a | a in servers :: Element(a, now))
  }

  lemma InitiallyOnce(servers: set<SockAddr>, now: Time, e: Element)
    ensures Initially(servers, now)[e] == if e.value in servers && e.when == now then 1 else 0
  {
    assert e in (set a | a in servers :: Element(a, now)) <==> e.value in servers && e.when == now;
  }

  class ServerQueue {
    const servers: DelayQueue

    constructor (addresses: set<SockAddr>, now: Time)
      ensures fresh(servers) && !servers.isClosed && servers.queue == Initially(addresses, now)
    {
      servers := new DelayQueue();
      new;
      var todo := addresses;
      while todo != {}
        invariant todo <= addresses && !servers.isClosed && fresh(servers)
        invariant servers.queue == Initially(addresses - todo, now)
        decreases todo
      {
        var a :| a in todo;
        ghost var before, after := addresses - todo, addresses - (todo - {a});
        assert (set x | x in after :: Element(x, now)) ==
               (set x | x in before :: Element(x, now)) + {Element(a, now)} by {
          assert after == before + {a};
        }
        var _ := servers.Push(a, now);
        todo := todo - {a};
      }
      assert addresses - todo == addresses;
    }

    method Pop(now: Time) returns (r: Attempt)
      modifies servers`queue
      ensures r.Closed? <==> servers.isClosed
      ensures r.WaitForChange? <==> !servers.isClosed && old(servers.queue) == multiset{}
      ensures r.WaitUntil? ==> r.when > now && exists e :: IsTop(old(servers.queue), e) && e.when == r.when
      ensures r.Popped? ==>
                exists when: Time :: when <= now && IsTop(old(servers.queue), Element(r.value, when)) &&
                               servers.queue == old(servers.queue) - multiset{Element(r.value, when)}
      ensures !r.Popped? ==> servers.queue == old(servers.queue)
    {
      r := servers.TryPop(now);
    }

    method Consider(server: SockAddr, delay: nat, now: Time) returns (r: Result<(), Error>)
      modifies servers`queue
      ensures r == if servers.isClosed then Failure(DomainError) else Success(())
      ensures servers.queue ==
              old(servers.queue) + if servers.isClosed then multiset{} else multiset{Element(server, now + delay)}
    {
      r := servers.Push(server, now + delay);
    }
  }
}
