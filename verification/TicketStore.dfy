/**
 The one-time WebSocket tickets of internal/api/handlers/ws_ticket.go. Every method runs under the store's
 mutex and reads the clock inside it, so a history of the store is a sequence of calls. Times are nanoseconds.
 */
module TicketStore {
  import opened Wrappers

  datatype Ticket = Ticket(orgId: string, expiresAt: int)

  type Tickets = map<string, Ticket>

  const TICKET_LIFE := 30_000_000_000

  datatype Call =
    | Issue(now: int, ticket: string, orgId: string)
    | IssueWithTTL(now: int, ticket: string, orgId: string, ttl: int)
    | Consume(now: int, ticket: string)
  {
    predicate Issues(t: string) {
      !Consume? && ticket == t
    }

    function Content(): Ticket
      requires !Consume?
    {
      Ticket(orgId, now + if Issue? then TICKET_LIFE else ttl)
    }
  }

  datatype Answer = Issued | Refused | Granted(orgId: string)

  predicate Expired(t: Ticket, now: int) {
    t.expiresAt < now
  }

  function Evict(tickets: Tickets, now: int): Tickets {
    map k | k in tickets && !Expired(tickets[k], now) :: tickets[k]
  }

  /** The store's contents after a call. */
  function Next(tickets: Tickets, c: Call): Tickets {
    match c
    case Issue(now, t, _) => Evict(tickets, now)[t := c.Content()]
    case IssueWithTTL(_, t, _, _) => tickets[t := c.Content()]
    case Consume(_, t) => tickets - {t}
  }

  function Reply(tickets: Tickets, c: Call): Answer {
    if !c.Consume? then Issued
    else if c.ticket !in tickets || Expired(tickets[c.ticket], c.now) then Refused
    else Granted(tickets[c.ticket].orgId)
  }

  class WSTicketStore {
    var tickets: Tickets

    constructor ()
      ensures tickets == map[]
    {
      tickets := map[];
    }

    /** entropy is what the random source yields, already in hexadecimal, or None when it fails. */
    method Issue(entropy: Option<string>, now: int, orgId: string) returns (r: Result<string, string>)
      modifies this
      ensures entropy.None? ==> r.Failure? && tickets == old(tickets)
      ensures entropy.Some? ==>
                r == Success(entropy.value) && tickets == Next(old(tickets), Call.Issue(now, entropy.value, orgId))
      ensures entropy.Some? ==>
                && (forall k :: k in tickets <==>
                      k == entropy.value || (k in old(tickets) && now <= old(tickets)[k].expiresAt))
                && tickets[entropy.value] == Ticket(orgId, now + 30_000_000_000)
                && forall k :: k in tickets && k != entropy.value ==> tickets[k] == old(tickets)[k]
    {
      if entropy.None? {
        return Failure("no entropy");
      }
      var unvisited := tickets.Keys;
      while unvisited != {}
        invariant unvisited <= tickets.Keys <= old(tickets).Keys
        invariant forall k :: k in old(tickets) ==>
                    (k in tickets <==> k in unvisited || !Expired(old(tickets)[k], now))
        invariant forall k :: k in tickets ==> tickets[k] == old(tickets)[k]
        decreases |unvisited|
      {
        var k :| k in unvisited;
        unvisited := unvisited - {k};
        if tickets[k].expiresAt < now {
          tickets := tickets - {k};
        }
      }
      assert tickets == Evict(old(tickets), now);
      tickets := tickets[entropy.value := Ticket(orgId, now + TICKET_LIFE)];
      return Success(entropy.value);
    }

    method IssueWithTTL(entropy: Option<string>, now: int, orgId: string, ttl: int) returns (r: Result<string, string>)
      modifies this
      ensures entropy.None? ==> r.Failure? && tickets == old(tickets)
      ensures entropy.Some? ==>
                && r == Success(entropy.value)
                && tickets == Next(old(tickets), Call.IssueWithTTL(now, entropy.value, orgId, ttl))
                && tickets == old(tickets)[entropy.value := Ticket(orgId, now + ttl)]
    {
      if entropy.None? {
        return Failure("no entropy");
      }
      tickets := tickets[entropy.value := Ticket(orgId, now + ttl)];
      return Success(entropy.value);
    }

    method Consume(now: int, ticket: string) returns (orgId: string, ok: bool)
      modifies this
      ensures tickets == Next(old(tickets), Call.Consume(now, ticket)) == old(tickets) - {ticket}
      ensures ok <==> ticket in old(tickets) && now <= old(tickets)[ticket].expiresAt
      ensures ok ==> orgId == old(tickets)[ticket].orgId
      ensures Reply(old(tickets), Call.Consume(now, ticket)) == if ok then Granted(orgId) else Refused
    {
      if ticket !in tickets {
        assert tickets - {ticket} == tickets;
        return "", false;
      }
      var t := tickets[ticket];
      tickets := tickets - {ticket};
      if t.expiresAt < now {
        return "", false;
      }
      return t.orgId, true;
    }
  }

  // ---------- histories ----------

  function After(h: seq<Call>): Tickets {
    if h == [] then map[] else Next(After(h[..|h| - 1]), h[|h| - 1])
  }

  /** The store's answer to call k of the history. */
  function AnswerAt(h: seq<Call>, k: nat): Answer
    requires k < |h|
  {
    Reply(After(h[..k]), h[k])
  }

  predicate Monotone(h: seq<Call>) {
    forall i, j :: 0 <= i < j < |h| ==> h[i].now <= h[j].now
  }

  /** Random tickets do not repeat. */
  predicate Fresh(h: seq<Call>) {
    forall i, j :: 0 <= i < j < |h| && !h[i].Consume? && !h[j].Consume? ==> h[i].ticket != h[j].ticket
  }

  /** The same calls on a store that never evicts. */
  function KeepAll(h: seq<Call>): Tickets {
    if h == [] then map[]
    else
      var before, c := KeepAll(h[..|h| - 1]), h[|h| - 1];
      if c.Consume? then before - {c.ticket} else before[c.ticket := c.Content()]
  }

  function KeepAllAnswerAt(h: seq<Call>, k: nat): Answer
    requires k < |h|
  {
    Reply(KeepAll(h[..k]), h[k])
  }

  /** The evicting store holds a part of what the other holds; what it lacks expired before the last call. */
  lemma {:induction false} EvictsOnlyExpired(h: seq<Call>)
    requires Monotone(h)
    ensures forall t :: t in After(h) ==> t in KeepAll(h) && KeepAll(h)[t] == After(h)[t]
    ensures forall t :: t in KeepAll(h) && t !in After(h) ==> h != [] && Expired(KeepAll(h)[t], h[|h| - 1].now)
  {
    if h != [] {
      EvictsOnlyExpired(h[..|h| - 1]);
    }
  }

  /** Eviction is invisible: on a monotone clock both stores give the same answer to every call. */
  lemma RefinesNeverEvicting(h: seq<Call>, k: nat)
    requires Monotone(h) && k < |h|
    ensures AnswerAt(h, k) == KeepAllAnswerAt(h, k)
  {
    EvictsOnlyExpired(h[..k]);
    if k > 0 {
      assert h[..k][k - 1].now <= h[k].now;
    }
  }

  /** Call i issued t, and nothing issued or tried to consume t after it. */
  predicate Outstanding(h: seq<Call>, i: int, t: string) {
    && 0 <= i < |h| && h[i].Issues(t)
    && forall j :: i < j < |h| ==> h[j].ticket != t
  }

  lemma {:induction false} OutstandingIsKept(h: seq<Call>, i: int, t: string)
    requires Outstanding(h, i, t)
    ensures t in KeepAll(h) && KeepAll(h)[t] == h[i].Content()
  {
    var last := |h| - 1;
    if i < last {
      assert forall j :: i < j < last ==> h[..last][j] == h[j];
      OutstandingIsKept(h[..last], i, t);
    }
  }

  lemma {:induction false} KeptIsOutstanding(h: seq<Call>, t: string) returns (i: int)
    requires t in KeepAll(h)
    ensures Outstanding(h, i, t)
  {
    var last := |h| - 1;
    if h[last].ticket == t {
      i := last;
    } else {
      i := KeptIsOutstanding(h[..last], t);
      assert forall j :: i <= j < last ==> h[..last][j] == h[j];
    }
  }

  lemma KeptExactly(h: seq<Call>, t: string)
    ensures t in KeepAll(h) <==> exists i :: Outstanding(h, i, t)
    ensures forall i :: Outstanding(h, i, t) ==> t in KeepAll(h) && KeepAll(h)[t] == h[i].Content()
  {
    if t in KeepAll(h) {
      var i := KeptIsOutstanding(h, t);
    }
    forall i | Outstanding(h, i, t) ensures t in KeepAll(h) && KeepAll(h)[t] == h[i].Content() {
      OutstandingIsKept(h, i, t);
    }
  }

  /** A ticket is honoured exactly when it was issued, nobody consumed it since, and it has not expired;
      the answer names the organisation it was issued to. */
  lemma GrantedExactly(h: seq<Call>, k: nat, orgId: string)
    requires Monotone(h) && k < |h| && h[k].Consume?
    ensures AnswerAt(h, k) == Granted(orgId) <==>
              exists i :: Outstanding(h[..k], i, h[k].ticket)
                          && h[i].orgId == orgId
                          && h[k].now <= h[i].now + if h[i].Issue? then 30_000_000_000 else h[i].ttl
  {
    RefinesNeverEvicting(h, k);
    KeptExactly(h[..k], h[k].ticket);
    if AnswerAt(h, k) == Granted(orgId) {
      var i :| Outstanding(h[..k], i, h[k].ticket);
      assert h[..k][i] == h[i];
    }
    if i :| Outstanding(h[..k], i, h[k].ticket) && h[i].orgId == orgId
            && h[k].now <= h[i].now + if h[i].Issue? then 30_000_000_000 else h[i].ttl {
      assert h[..k][i] == h[i];
    }
  }

  /** A ticket opens the door at most once in any history. */
  lemma AtMostOnce(h: seq<Call>, j: nat, k: nat)
    requires Monotone(h) && Fresh(h) && j < k < |h|
    requires h[j].Consume? && h[k].Consume? && h[j].ticket == h[k].ticket && AnswerAt(h, j).Granted?
    ensures AnswerAt(h, k) == Refused
  {
    var t := h[j].ticket;
    GrantedExactly(h, j, AnswerAt(h, j).orgId);
    var i :| Outstanding(h[..j], i, t) && h[i].orgId == AnswerAt(h, j).orgId;
    assert h[i] == h[..j][i];
    forall n ensures !Outstanding(h[..k], n, t) {
      if 0 <= n < k && h[n].Issues(t) {
        assert n == i && h[..k][j] == h[j];
      } else if 0 <= n < k {
        assert h[..k][n] == h[n];
      }
    }
    KeptExactly(h[..k], t);
    RefinesNeverEvicting(h, k);
  }

  /** After an Issue, the store holds only tickets with life left; if the history never used a custom lifetime,
      these are tickets issued in the last thirty seconds. */
  lemma HoldsOnlyRecent(h: seq<Call>, t: string)
    requires Monotone(h) && h != [] && h[|h| - 1].Issue?
    requires forall i :: 0 <= i < |h| ==> !h[i].IssueWithTTL?
    requires t in After(h)
    ensures exists i :: 0 <= i < |h| && h[i].Issues(t) && h[i].now >= h[|h| - 1].now - 30_000_000_000
  {
    EvictsOnlyExpired(h);
    KeptExactly(h, t);
    var i :| Outstanding(h, i, t);
    assert h[i].Issue?;
    assert After(h)[t] == h[i].Content();
    assert t != h[|h| - 1].ticket ==> !Expired(After(h)[t], h[|h| - 1].now);
  }
}
