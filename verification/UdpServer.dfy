/** The connection table of the UDP tracker (connect.go and server.go in biz/services/udp_server):
    which requests reach a handler. Times are nanoseconds. */
module UdpServer {
  import opened Bytes
  import opened Adaptor
  import opened Peers
  import opened Writers
  import opened UdpWire

  const PROTOCOL_ID: nat := 0x41727101980
  const CONNECTION_TIMEOUT: int := 120 * SECOND

  datatype Connection = Connection(remoteAddr: bytes, time: int)

  type ConnectionList = map<nat, Connection>

  /** What happens to the table. A connect carries the id the generator gave it. */
  datatype Event = Connect(id: nat, remote: bytes, at: int) | Tick(at: int)

  predicate TimedOut(c: Connection, t: int) {
    c.time + CONNECTION_TIMEOUT < t
  }

  /** An id already present keeps its first connection; a tick drops what has timed out. */
  function Applied(t: ConnectionList, e: Event): ConnectionList {
    match e
    case Connect(id, remote, at) => if id in t then t else t[id := Connection(remote, at)]
    case Tick(at) => map id | id in t && !TimedOut(t[id], at) :: t[id]
  }

  /** The table after these events. */
  function Table(events: seq<Event>): ConnectionList {
    if events == [] then map[] else Applied(Table(events[..|events| - 1]), events[|events| - 1])
  }

  lemma TableSnoc(events: seq<Event>, e: Event)
    ensures Table(events + [e]) == Applied(Table(events), e)
  {
    assert (events + [e])[..|events|] == events;
  }

  // ---------- Who is recognised ----------

  /** Event i issued the id to this address, and no tick since then found it older than two minutes. */
  ghost predicate Issued(events: seq<Event>, i: int, id: nat, remote: bytes) {
    && 0 <= i < |events| && events[i].Connect? && events[i].id == id && events[i].remote == remote
    && forall j :: i < j < |events| && events[j].Tick? ==> !TimedOut(Connection(remote, events[i].at), events[j].at)
  }

  /** Event i issued an id that was free: LoadOrStore stored the connection. */
  ghost predicate Recorded(events: seq<Event>, i: int) {
    0 <= i < |events| && events[i].Connect? && events[i].id !in Table(events[..i])
  }

  /** A connection in the table was issued to its address by the connect that recorded it, and no
      tick has timed it out since, even if the generator repeats ids. */
  lemma {:induction false} InTableWasIssued(events: seq<Event>, id: nat)
    requires id in Table(events)
    ensures exists i :: Issued(events, i, id, Table(events)[id].remoteAddr) && Recorded(events, i) && events[i].at == Table(events)[id].time
  {
    var n := |events| - 1;
    var before := events[..n];
    assert events == before + [events[n]];
    TableSnoc(before, events[n]);
    if id in Table(before) {
      InTableWasIssued(before, id);
      var c := Table(before)[id];
      var i :| Issued(before, i, id, c.remoteAddr) && Recorded(before, i) && before[i].at == c.time;
      assert events[..i] == before[..i];
      assert Issued(events, i, id, c.remoteAddr) && Recorded(events, i) && events[i].at == c.time;
    } else {
      assert Issued(events, n, id, Table(events)[id].remoteAddr) && Recorded(events, n) && events[n].at == Table(events)[id].time;
    }
  }

  /** A recorded connection is in the table until a tick times it out. */
  lemma {:induction false} RecordedIsInTable(events: seq<Event>, i: nat, id: nat, remote: bytes)
    requires Issued(events, i, id, remote) && Recorded(events, i)
    ensures id in Table(events) && Table(events)[id] == Connection(remote, events[i].at)
  {
    var n := |events| - 1;
    var before := events[..n];
    assert events == before + [events[n]];
    TableSnoc(before, events[n]);
    assert events[..i] == before[..i];
    if i < n {
      assert Issued(before, i, id, remote) && Recorded(before, i);
      RecordedIsInTable(before, i, id, remote);
    }
  }

  ghost predicate Recognised(events: seq<Event>, id: nat, remote: bytes) {
    id in Table(events) && Table(events)[id].remoteAddr == remote
  }

  /** A request is recognised if and only if some connect issued its id to its address while the id
      was free, and no tick has timed that out: for every run, repeated ids included. */
  lemma RecognisedIff(events: seq<Event>, id: nat, remote: bytes)
    ensures Recognised(events, id, remote) <==> exists i :: Issued(events, i, id, remote) && Recorded(events, i)
  {
    if Recognised(events, id, remote) {
      InTableWasIssued(events, id);
    }
    if exists i :: Issued(events, i, id, remote) && Recorded(events, i) {
      var i :| Issued(events, i, id, remote) && Recorded(events, i);
      RecordedIsInTable(events, i, id, remote);
    }
  }

  /** An id no earlier connect was given is free. */
  lemma UnusedIdIsFree(events: seq<Event>, i: nat)
    requires i < |events| && events[i].Connect?
    requires forall j :: 0 <= j < i && events[j].Connect? ==> events[j].id != events[i].id
    ensures Recorded(events, i)
  {
    if events[i].id in Table(events[..i]) {
      InTableWasIssued(events[..i], events[i].id);
    }
  }

  /** What the table holds under the id of connect i when that connect has been handled. */
  ghost function Holder(events: seq<Event>, i: nat): Connection
    requires i < |events| && events[i].Connect?
  {
    var before := Table(events[..i]);
    if events[i].id in before then before[events[i].id] else Connection(events[i].remote, events[i].at)
  }

  ghost predicate Outlives(events: seq<Event>, i: nat, c: Connection) {
    forall j :: i < j < |events| && events[j].Tick? ==> !TimedOut(c, events[j].at)
  }

  lemma {:induction false} HolderStays(events: seq<Event>, i: nat)
    requires i < |events| && events[i].Connect?
    requires forall j :: i < j < |events| && events[j].Connect? ==> events[j].id != events[i].id
    ensures events[i].id in Table(events) <==> Outlives(events, i, Holder(events, i))
    ensures events[i].id in Table(events) ==> Table(events)[events[i].id] == Holder(events, i)
  {
    var n := |events| - 1;
    var before := events[..n];
    assert events == before + [events[n]];
    TableSnoc(before, events[n]);
    if i < n {
      assert events[..i] == before[..i];
      HolderStays(before, i);
      assert Outlives(events, i, Holder(events, i)) <==>
        Outlives(before, i, Holder(events, i)) && !(events[n].Tick? && TimedOut(Holder(events, i), events[n].at));
    }
  }

  /** The id in a connect reply is honoured for its address, until another connect is given it, if
      and only if the id was free or held by the same address, and no tick has timed out that
      holder. */
  lemma HonouredIff(events: seq<Event>, i: nat)
    requires i < |events| && events[i].Connect?
    requires forall j :: i < j < |events| && events[j].Connect? ==> events[j].id != events[i].id
    ensures Recognised(events, events[i].id, events[i].remote) <==>
      (Recorded(events, i) || Recognised(events[..i], events[i].id, events[i].remote)) && Outlives(events, i, Holder(events, i))
  {
    HolderStays(events, i);
  }

  // ---------- How long ----------

  /** The clock never runs backwards. */
  ghost predicate Ordered(events: seq<Event>, now: int) {
    && (forall i, j :: 0 <= i < j < |events| ==> events[i].at <= events[j].at)
    && forall i :: 0 <= i < |events| ==> events[i].at <= now
  }

  ghost predicate TickSoonAfter(events: seq<Event>, i: nat, j: int) {
    i < j < |events| && events[j].Tick? && events[j].at <= events[i].at + 120_000_000_000
  }

  /** Ticks at most two minutes apart: after every event one follows within that time, or the time
      is not over yet. */
  ghost predicate Ticking(events: seq<Event>, now: int) {
    forall i :: 0 <= i < |events| ==>
      now <= events[i].at + 120_000_000_000 || exists j :: TickSoonAfter(events, i, j)
  }

  /** Four minutes after a connect, some tick has found it older than two. */
  lemma {:induction false} TickedAway(events: seq<Event>, i: nat, k: nat, now: int) returns (j: nat)
    requires Ordered(events, now) && Ticking(events, now) && i <= k < |events|
    requires now > events[i].at + 2 * CONNECTION_TIMEOUT && events[k].at <= events[i].at + CONNECTION_TIMEOUT
    ensures k < j < |events| && events[j].Tick? && events[j].at > events[i].at + CONNECTION_TIMEOUT
    decreases |events| - k
  {
    j :| TickSoonAfter(events, k, j);
    if events[j].at <= events[i].at + CONNECTION_TIMEOUT {
      j := TickedAway(events, i, j, now);
    }
  }

  lemma IssuedAtMostFourMinutes(events: seq<Event>, i: nat, id: nat, remote: bytes, now: int)
    requires Ordered(events, now) && Ticking(events, now) && Issued(events, i, id, remote)
    ensures now <= events[i].at + 2 * CONNECTION_TIMEOUT
  {
    if now > events[i].at + 2 * CONNECTION_TIMEOUT {
      var j := TickedAway(events, i, i, now);
      assert false;
    }
  }

  /** Whoever is recognised connected at most four minutes, in nanoseconds, ago. */
  lemma RecognisedAtMostFourMinutes(events: seq<Event>, id: nat, remote: bytes, now: int)
    requires Ordered(events, now) && Ticking(events, now) && Recognised(events, id, remote)
    ensures exists i :: Issued(events, i, id, remote) && now <= events[i].at + 240_000_000_000
  {
    RecognisedIff(events, id, remote);
    var i :| Issued(events, i, id, remote);
    IssuedAtMostFourMinutes(events, i, id, remote, now);
  }

  /** Whoever was given a free id at most two minutes ago is recognised, as the one who connected
      then: whatever other ids were given out since, the same one included. */
  lemma RecognisedForTwoMinutes(events: seq<Event>, i: nat, now: int)
    requires Ordered(events, now) && Recorded(events, i) && now <= events[i].at + 120_000_000_000
    ensures Recognised(events, events[i].id, events[i].remote)
    ensures Table(events)[events[i].id] == Connection(events[i].remote, events[i].at)
  {
    assert Issued(events, i, events[i].id, events[i].remote);
    RecordedIsInTable(events, i, events[i].id, events[i].remote);
  }

  // ---------- The server ----------

  datatype Outcome = InvalidRequest | NoId | Reply(packet: bytes) | ToAnnounce(tid: nat, body: bytes) | ToScrape(tid: nat, body: bytes)

  predicate IsConnect(packet: bytes)
    requires |packet| >= 16
  {
    BigEndian(packet[..8]) == 0x417_2710_1980 && Word(packet, 8) == 0
  }

  predicate IsError(reply: bytes, tid: nat, reason: bytes) {
    |reply| >= 8 && Word(reply, 0) == 3 && Word(reply, 4) == tid && reply[8..] == reason
  }

  predicate IsConnected(reply: bytes, tid: nat, id: nat) {
    |reply| == 16 && Word(reply, 0) == 0 && Word(reply, 4) == tid && BigEndian(reply[8..]) == id
  }

  /** A request for some action that names a connection of its sender's. */
  ghost predicate Admitted(events: seq<Event>, remote: bytes, packet: bytes, action: nat) {
    && |packet| >= 16 && !IsConnect(packet) && Word(packet, 8) == action
    && Recognised(events, BigEndian(packet[..8]), remote)
  }

  /** Why a request that is no connect is answered with an error, if it is. */
  ghost function Refusal(events: seq<Event>, remote: bytes, packet: bytes): Option<bytes>
    requires |packet| >= 16
  {
    var id := BigEndian(packet[..8]);
    if !exists address :: Recognised(events, id, address) then Some(Ascii("connection expired"))
    else if !Recognised(events, id, remote) then Some(Ascii("connection mismatch"))
    else if Word(packet, 8) != 1 && Word(packet, 8) != 2 then Some(Ascii("invalid action"))
    else None
  }

  method ResponseError(tid: nat, reason: bytes) returns (packet: bytes)
    requires tid < TWO_32
    ensures IsError(packet, tid, reason)
  {
    var buf := new Writer();
    WriteHeader(buf, ACTION_ERROR, tid);
    Prefix(buf.written, reason);
    buf.Write(reason);
    packet := buf.written;
  }

  method ConnectReply(tid: nat, cid: uint64) returns (packet: bytes)
    requires tid < TWO_32
    ensures IsConnected(packet, tid, cid)
  {
    var buf := new Writer();
    WriteHeader(buf, ACTION_CONNECT, tid);
    ghost var head := buf.written;
    buf.WriteBig(cid, 8);
    Prefix(head, PutBig(cid, 8));
    Powers();
    NumberBack(cid, 8);
    packet := buf.written;
  }

  class UDPServer {
    var connectionList: ConnectionList
    ghost var events: seq<Event>

    ghost predicate Valid()
      reads this
    {
      connectionList == Table(events)
    }

    constructor ()
      ensures Valid() && events == []
    {
      connectionList, events := map[], [];
    }

    /** The reply carries the new id; the connection is recorded unless the id is taken. */
    method HandleConnection(remote: bytes, tid: nat, newId: Option<uint64>, now: int) returns (reply: Option<bytes>)
      requires Valid() && tid < TWO_32
      modifies this
      ensures Valid()
      ensures newId.None? ==> reply.None? && events == old(events)
      ensures newId.Some? ==> events == old(events) + [Connect(newId.value, remote, now)]
      ensures newId.Some? ==>
        (Recognised(events, newId.value, remote) <==>
         newId.value !in old(connectionList) || old(connectionList)[newId.value].remoteAddr == remote)
      ensures newId.Some? ==> reply.Some? && IsConnected(reply.value, tid, newId.value)
    {
      if newId.None? {
        return None;
      }
      var cid := newId.value;
      TableSnoc(events, Connect(cid, remote, now));
      if cid !in connectionList {
        connectionList := connectionList[cid := Connection(remote, now)];
      }
      events := events + [Connect(cid, remote, now)];
      var packet := ConnectReply(tid, cid);
      return Some(packet);
    }

    /** The ranging deletes of one tick. */
    method CleanConnection(t: int) returns (count: nat)
      requires Valid()
      modifies this
      ensures Valid() && events == old(events) + [Tick(t)]
      ensures count == |old(connectionList)| - |connectionList|
    {
      ghost var was := connectionList;
      count := 0;
      var ids := connectionList.Keys;
      while ids != {}
        invariant ids <= was.Keys && events == old(events)
        invariant connectionList == map id | id in was && (id in ids || !TimedOut(was[id], t)) :: was[id]
        invariant count == |was| - |connectionList|
      {
        var id :| id in ids;
        if TimedOut(connectionList[id], t) {
          assert (connectionList - {id}).Keys == connectionList.Keys - {id};
          connectionList := connectionList - {id};
          count := count + 1;
        }
        ids := ids - {id};
      }
      TableSnoc(events, Tick(t));
      events := events + [Tick(t)];
    }

    /** Dispatch: a handler is reached exactly when the id was issued to this address and no tick
        has timed it out. */
    method HandleRequest(remote: bytes, packet: bytes, newId: Option<uint64>, now: int) returns (o: Outcome)
      requires Valid()
      modifies this
      ensures Valid()
      ensures o.InvalidRequest? <==> |packet| < 16
      ensures |packet| >= 16 && IsConnect(packet) && newId.Some? ==> o.Reply? && events == old(events) + [Connect(newId.value, remote, now)]
      ensures !(|packet| >= 16 && IsConnect(packet) && newId.Some?) ==> events == old(events)
      ensures o.NoId? <==> |packet| >= 16 && IsConnect(packet) && newId.None?
      ensures |packet| >= 16 && IsConnect(packet) && newId.Some? ==> IsConnected(o.packet, Word(packet, 12), newId.value)
      ensures |packet| >= 16 && !IsConnect(packet) && Refusal(old(events), remote, packet).Some? ==>
        o.Reply? && IsError(o.packet, Word(packet, 12), Refusal(old(events), remote, packet).value)
      ensures o.ToAnnounce? <==> Admitted(old(events), remote, packet, 1)
      ensures o.ToScrape? <==> Admitted(old(events), remote, packet, 2)
      ensures o.ToAnnounce? || o.ToScrape? ==>
        o.tid == Word(packet, 12) && o.body == packet[16..] && exists i :: Issued(old(events), i, BigEndian(packet[..8]), remote)
    {
      if |packet| < 16 {
        return InvalidRequest;
      }
      var connectionID, action, transactionID := BigEndian(packet[..8]), Word(packet, 8), Word(packet, 12);
      BigEndianBound(packet[12..16]);
      Powers();
      if connectionID == PROTOCOL_ID && action == ACTION_CONNECT {
        var reply := HandleConnection(remote, transactionID, newId, now);
        return if reply.None? then NoId else Reply(reply.value);
      }
      RecognisedIff(events, connectionID, remote);
      if connectionID in connectionList {
        assert Recognised(events, connectionID, connectionList[connectionID].remoteAddr);
        if connectionList[connectionID].remoteAddr != remote {
          var e := ResponseError(transactionID, Ascii("connection mismatch"));
          return Reply(e);
        }
        if action == ACTION_ANNOUNCE {
          return ToAnnounce(transactionID, packet[16..]);
        } else if action == ACTION_SCRAPE {
          return ToScrape(transactionID, packet[16..]);
        } else {
          var e := ResponseError(transactionID, Ascii("invalid action"));
          return Reply(e);
        }
      } else {
        var e := ResponseError(transactionID, Ascii("connection expired"));
        return Reply(e);
      }
    }
  }
}
