/** The endpoint object: what its handlers do to the ticker, the outstanding pings and the status.
    Each handler is one step of the timed endpoint of FailureDetection. */
module ProbedEndpoint {
  import opened Options
  import D = FailureDetection
  import P = PacketManager
  import T = Ticker

  const REINIT_SPACING := 30_000

  class DiscoPeerEndpoint {
    const packetManager: P.Manager
    const ticker: T.LoopTicker
    var packetID: nat
    var priority: T.Priority
    var state: T.State
    var rtt: int
    var lastReinitialized: int

    ghost function Value(now: int): D.Endpoint
      reads this, packetManager, ticker
    {
      D.Endpoint(now, ticker.Value(), packetManager.m, packetID, priority, state, rtt)
    }

    constructor (now: int, never: int)
      ensures Value(now) == D.Start(now, never) && lastReinitialized == never
      ensures state == T.Connecting && rtt == 0 && priority == T.Primary && packetManager.m == map[]
      ensures packetManager.timeout == 400
      ensures fresh(ticker) && fresh(packetManager)
    {
      packetManager := new P.Manager(D.DROP_TIMEOUT);
      ticker := new T.LoopTicker(never);
      packetID, priority, lastReinitialized := 0, T.Primary, never;
      state, rtt := T.Connecting, 0;
    }

    /** The event loop takes a token of the ticker and sends a ping. The ID is used up even when
        encryption fails; only a ping that was encrypted is waited for. */
    method Woken(now: int, encrypts: bool) returns (sent: Option<nat>)
      requires ticker.wakeCh
      modifies this`packetID, ticker, packetManager
      ensures sent == if encrypts then Some(old(packetID)) else None
      ensures packetID == old(packetID) + 1 && !ticker.wakeCh
      ensures packetManager.m == if encrypts then old(packetManager.m)[old(packetID) := now] else old(packetManager.m)
      ensures Value(now) == D.Next(old(Value(now)), if encrypts then D.SendPing else D.FailToSend)
    {
      ticker.wakeCh := false;
      sent := SendDiscoPing(now, encrypts);
    }

    method SendDiscoPing(now: int, encrypts: bool) returns (sent: Option<nat>)
      modifies this`packetID, packetManager
      ensures packetID == old(packetID) + 1
      ensures sent == if encrypts then Some(old(packetID)) else None
      ensures packetManager.m == if encrypts then old(packetManager.m)[old(packetID) := now] else old(packetManager.m)
    {
      var id := packetID;
      packetID := packetID + 1;
      if !encrypts {
        return None;
      }
      packetManager.AddPacket(id, now);
      return Some(id);
    }

    /** A pong counts only while its ping is outstanding; otherwise nothing changes. */
    method HandlePong(id: nat, now: int)
      modifies this`state, this`rtt, ticker, packetManager
      ensures id in old(packetManager.m) ==>
                && state == T.Connected && rtt == now - old(packetManager.m)[id]
                && ticker.state == T.Connected && ticker.priority == priority
                && id !in packetManager.m
                && (old(ticker.state) == T.Connected && old(ticker.priority) == priority ==>
                      ticker.Value() == old(ticker.Value()))
      ensures id in old(packetManager.m) ==> Value(now) == D.Next(old(Value(now)), D.AcceptPong(id))
      ensures id !in old(packetManager.m) ==> Value(now) == old(Value(now))
    {
      var roundTrip, ok := packetManager.RecvAck(id, now);
      if !ok {
        return;
      }
      ticker.ChangeState(T.Connected, priority, false);
      state, rtt := T.Connected, roundTrip;
    }

    /** The timer of a ping is due: the loss is reported unless the ping is gone. */
    method TimerDue(id: nat, now: int)
      requires id in packetManager.m ==> packetManager.m[id] + D.DROP_TIMEOUT <= now
      modifies this`state, this`rtt, ticker, packetManager
      ensures id in old(packetManager.m) ==>
                && state == T.Connecting && rtt == 0
                && ticker.state == T.Connecting && ticker.priority == priority
                && packetManager.m == old(packetManager.m) - {id}
      ensures id in old(packetManager.m) ==> Value(now) == D.Next(old(Value(now)), D.Drop(id))
      ensures id !in old(packetManager.m) ==> Value(now) == old(Value(now))
    {
      var callback := packetManager.Expired(id);
      if callback {
        DropCallback();
      }
    }

    method DropCallback()
      modifies this`state, this`rtt, ticker
      ensures state == T.Connecting && rtt == 0
      ensures ticker.Value() == T.WithState(old(ticker.Value()), T.Connecting, priority, false)
    {
      ticker.ChangeState(T.Connecting, priority, false);
      state, rtt := T.Connecting, 0;
    }

    method SetPriority(priority: T.Priority, ghost now: int)
      requires T.IsPriority(priority)
      modifies this`priority, ticker
      ensures this.priority == priority && ticker.priority == priority && ticker.state == state
      ensures Value(now) == D.Next(old(Value(now)), D.SetPriority(priority))
    {
      this.priority := priority;
      ticker.ChangeState(state, priority, false);
    }

    /** A ping of the other side makes a lost endpoint probe fast again, at most every 30 s. The state
        is looked at first, before the lock is taken. */
    method ReceivePing(now: int)
      modifies this`lastReinitialized, ticker
      ensures
        if old(state) == T.Connecting && now - old(lastReinitialized) > 30_000 then
          lastReinitialized == now && Value(now) == D.Next(old(Value(now)), D.ReceivePing)
        else lastReinitialized == old(lastReinitialized) && Value(now) == old(Value(now))
    {
      if state != T.Connecting {
        return;
      }
      Reinitialize(now);
    }

    /** The part under the lock: the ticker starts again from its shortest interval. It does not look
        at the state, which may have changed by then: from any state it is the restarting step, or
        nothing. */
    method Reinitialize(now: int)
      modifies this`lastReinitialized, ticker
      ensures
        if now - old(lastReinitialized) > 30_000 then
          && lastReinitialized == now
          && ticker.state == T.Connecting && ticker.currentInterval == T.MIN_INTERVAL && ticker.reset
          && Value(now) == D.Next(old(Value(now)), D.ReceivePing)
        else lastReinitialized == old(lastReinitialized) && Value(now) == old(Value(now))
    {
      if now - lastReinitialized <= REINIT_SPACING {
        return;
      }
      lastReinitialized := now;
      ticker.ChangeState(T.Connecting, priority, true);
    }
  }
}
