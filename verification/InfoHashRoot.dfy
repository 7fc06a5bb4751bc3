/** InfoHashRoot and its peers as they are in memory: peers are updated in place, the three maps
    are reassigned. Each method is proved to do what the value model in Generations.dfy says. */
module PeerStore {
  import opened Bytes
  import opened Peers
  import opened Generations

  /** common.Peer. The fields no code reassigns after construction are constants. */
  class Peer {
    const identity: PeerRecord
    const id: bytes
    ghost const torrent: bytes  // the info hash the peer announced
    var lastSeen: int
    var left: uint64
    var uploaded: uint64
    var downloaded: uint64
    var event: PeerEvent
    var conn: Option<int>

    constructor (p: PeerRecord, ghost torrent: bytes)
      ensures Record() == p && this.torrent == torrent && id == p.id
    {
      identity, id, this.torrent := p, p.id, torrent;
      lastSeen, left, uploaded, downloaded, event, conn :=
        p.lastSeen, p.left, p.uploaded, p.downloaded, p.event, p.conn;
    }

    /** What an update task does to the stored peer. */
    method Refresh(latest: Peer)
      modifies this
      ensures Record() == Peers.Refresh(old(Record()), old(latest.Record()))
    {
      uploaded := latest.uploaded;
      downloaded := latest.downloaded;
      lastSeen := latest.lastSeen;
      event := latest.event;
      left := latest.left;
    }

    /** A sweep closes the socket, if there is one. */
    method Close()
      modifies this`conn
      ensures conn == None
    {
      if conn.Some? {
        conn := None;
      }
    }

    function Record(): PeerRecord
      reads this
    {
      identity.(id := id, lastSeen := lastSeen, left := left, uploaded := uploaded,
                downloaded := downloaded, event := event, conn := conn)
    }
  }

  lemma RecordFields(v: Peer)
    ensures var p := v.Record();
      && p.lastSeen == v.lastSeen && p.left == v.left && p.event == v.event && p.conn == v.conn
      && p.id == v.id && p.typ == v.identity.typ
  {
  }

  lemma RecordsSnoc(ps: seq<Peer>, v: Peer)
    ensures Records(ps + [v]) == Records(ps) + [v.Record()]
  {
    assert (ps + [v])[..|ps|] == ps;
  }

  function Records(ps: seq<Peer>): (r: seq<PeerRecord>)
    reads ps
    ensures |r| == |ps|
    ensures forall i :: 0 <= i < |ps| ==> r[i] == ps[i].Record()
  {
    if ps == [] then [] else Records(ps[..|ps| - 1]) + [ps[|ps| - 1].Record()]
  }

  lemma SameSize(m: map<bytes, Peer>, g: PeerMap)
    requires m.Keys == g.Keys
    ensures |m| == |g|
  {
    assert |m| == |m.Keys| && |g| == |g.Keys|;
  }

  class InfoHashRoot {
    const infoHash: bytes
    var peerMap: seq<map<bytes, Peer>>
    var currentActive: nat
    var lastClean: int
    ghost var contents: Root     // the value this object stands for
    ghost var held: set<Peer>    // the peers it may reach

    constructor (infoHash: bytes, now: int)
      ensures Valid() && contents == NewRoot(now) && this.infoHash == infoHash
      ensures held == {}
    {
      this.infoHash := infoHash;
      peerMap, currentActive, lastClean := [map[], map[], map[]], 0, now;
      contents, held := NewRoot(now), {};
    }

    ghost predicate Valid()
      reads this, held
    {
      && |peerMap| == 3 && Shape(contents)
      && contents.active == currentActive && contents.lastClean == lastClean
      && (forall p :: p in held ==> p.torrent == infoHash)
      && (forall i :: 0 <= i < 3 ==> peerMap[i].Keys == contents.gens[i].Keys)
      && forall i, k :: 0 <= i < 3 && k in peerMap[i] ==>
           peerMap[i][k] in held && StoredAs(peerMap[i][k], k, contents.gens[i][k])
    }

    /** The value of a sound root; one equation about it stands for the whole invariant. */
    ghost function Value(): Option<Root>
      reads this, held
    {
      if Valid() && Inv(contents) then Some(contents) else None
    }

    ghost predicate StoredAs(v: Peer, k: bytes, p: PeerRecord)
      reads v
    {
      v.id == k && v.Record() == p
    }

    method Load(key: bytes) returns (v: Peer?)
      requires Valid()
      ensures v == null <==> Generations.Load(contents, key).None?
      ensures v != null ==> v in held && Generations.Load(contents, key) == Some(v.Record())
    {
      for i := 0 to 3
        invariant forall j :: 0 <= j < i ==> key !in contents.gens[j]
      {
        if key in peerMap[i] {
          return peerMap[i][key];
        }
      }
      return null;
    }

    /** LoadAndDelete on one of the three skip maps. */
    method Take(i: nat, key: bytes) returns (v: Peer?)
      requires Valid() && i < 3
      modifies this
      ensures Valid() && held == old(held)
      ensures contents == Cut(old(contents), i, key)
      ensures v == null <==> key !in old(contents).gens[i]
      ensures v != null ==> v in old(held) && StoredAs(v, key, old(contents).gens[i][key])
    {
      v := null;
      if key in peerMap[i] {
        v := peerMap[i][key];
      }
      peerMap := peerMap[i := peerMap[i] - {key}];
      contents := Cut(contents, i, key);
    }

    method LoadAndDelete(key: bytes) returns (foundPeer: Peer?)
      requires Valid()
      modifies this
      ensures Valid() && held == old(held)
      ensures contents == Removed(old(contents), key)
      ensures foundPeer == null <==> Latest(old(contents), key).None?
      ensures foundPeer != null ==>
        foundPeer in old(held) && StoredAs(foundPeer, key, Latest(old(contents), key).value)
    {
      foundPeer := null;
      ghost var was := contents;
      ghost var found: Option<PeerRecord> := None;
      for i := 0 to 3
        invariant Valid() && held == old(held)
        invariant foundPeer == null <==> found.None?
        invariant foundPeer != null ==> foundPeer in old(held) && StoredAs(foundPeer, key, found.value)
        invariant i == 0 ==> contents == was && found == None
        invariant i == 1 ==> contents == Cut(was, 0, key) && found == Later(None, was.gens[0], key)
        invariant i == 2 ==> contents == Cut(Cut(was, 0, key), 1, key) &&
                             found == Later(Later(None, was.gens[0], key), was.gens[1], key)
        invariant i == 3 ==> contents == Cut(Cut(Cut(was, 0, key), 1, key), 2, key) && found == Latest(was, key)
      {
        found := Later(found, was.gens[i], key);
        var v := Take(i, key);
        if v != null {
          if foundPeer == null || v.lastSeen > foundPeer.lastSeen {
            foundPeer := v;
          }
        }
      }
      CutAll(was, key);
    }

    method Delete(key: bytes) returns (result: bool)
      requires Valid()
      modifies this
      ensures Valid() && held == old(held)
      ensures contents == DeletedFirst(old(contents), key)
      ensures result <==> key in AsMap(old(contents))
    {
      result := false;
      ghost var was := contents;
      for i := 0 to 3
        invariant Valid() && held == old(held)
        invariant !result ==> contents == was && forall j :: 0 <= j < i ==> key !in was.gens[j]
        invariant result ==> contents == DeletedFirst(was, key) && key in AsMap(was)
      {
        if !result {
          var v := Take(i, key);
          result := v != null;
          if result { FirstHit(was, i, key); } else { CutAbsent(was, i, key); }
        }
      }
      if !result { NoHit(was, key); }
    }

    method Store(key: bytes, peer: Peer)
      requires Valid() && peer.id == key && peer.torrent == infoHash
      modifies this
      ensures Valid() && held == old(held) + {peer}
      ensures contents == Stored(old(contents), key, peer.Record())
      ensures contents.active == old(contents).active && contents.lastClean == old(contents).lastClean
      ensures contents.gens == old(contents).gens[currentActive := old(contents).gens[currentActive][key := peer.Record()]]
    {
      peerMap := peerMap[currentActive := peerMap[currentActive][key := peer]];
      contents := Stored(contents, key, peer.Record());
      held := held + {peer};
    }

    method LoadOrStore(key: bytes, peer: Peer) returns (actual: Peer, loaded: bool)
      requires Valid() && peer.id == key && peer.torrent == infoHash
      modifies this
      ensures Valid() && held <= old(held) + {peer}
      ensures contents == StoredIfAbsent(old(contents), key, peer.Record())
      ensures contents == if loaded then old(contents) else Stored(old(contents), key, peer.Record())
      ensures loaded <==> key in old(contents).gens[old(contents).active]
      ensures loaded ==> actual in old(held) && StoredAs(actual, key, old(contents).gens[old(contents).active][key])
      ensures !loaded ==> actual == peer
    {
      loaded := key in peerMap[currentActive];
      if !loaded {
        Store(key, peer);
        return peer, false;
      }
      actual := peerMap[currentActive][key];
    }

    /** Len, without its loop. */
    function Size(): nat
      reads this
      requires |peerMap| == 3
    {
      |peerMap[0]| + |peerMap[1]| + |peerMap[2]|
    }

    method Len() returns (count: nat)
      requires Valid()
      ensures count == Size() == Generations.Len(contents)
    {
      count := 0;
      for i := 0 to 3
        invariant i == 0 ==> count == 0
        invariant i == 1 ==> count == |peerMap[0]|
        invariant i == 2 ==> count == |peerMap[0]| + |peerMap[1]|
        invariant i == 3 ==> count == Size()
      {
        count := count + |peerMap[i]|;
      }
      SizeIsLen();
    }

    lemma SizeIsLen()
      requires Valid()
      ensures Size() == Generations.Len(contents)
    {
      SameSize(peerMap[0], contents.gens[0]);
      SameSize(peerMap[1], contents.gens[1]);
      SameSize(peerMap[2], contents.gens[2]);
    }

    lemma NotStored(p: Peer)
      requires Valid() && forall i :: 0 <= i < 3 ==> p.id !in contents.gens[i]
      ensures forall i, k :: 0 <= i < 3 && k in peerMap[i] ==> peerMap[i][k] != p
    {
    }

    /** A peer that is out of every generation is refreshed in place and put back. */
    method Reinsert(known: Peer, peer: Peer)
      requires Valid() && known in held && forall i :: 0 <= i < 3 ==> known.id !in contents.gens[i]
      modifies this, known
      ensures Valid() && held == old(held)
      ensures contents == Stored(old(contents), known.id, Peers.Refresh(old(known.Record()), old(peer.Record())))
    {
      NotStored(known);
      known.Refresh(peer);
      Store(known.id, known);
    }

    /** The update task of an announce: the stored peer, if any, is refreshed in place and moved
        to the active generation. */
    method RunUpdate(c: Config, peer: Peer)
      requires Valid() && peer.torrent == infoHash
      modifies this, held
      ensures Valid() && held <= old(held) + {peer}
      ensures contents == Updated(c, old(contents), old(peer.Record()))
    {
      ghost var was := contents;
      var known := LoadAndDelete(peer.id);
      if known != null {
        RemovedEverywhere(was, peer.id);
        Reinsert(known, peer);
      } else {
        NothingToRemove(was, peer.id);
        if IsPeerConnectable(c.useAnnounceIp, peer.Record()) {
          var _, _ := LoadOrStore(peer.id, peer);
        }
      }
    }

    /** The deferred removal of the peers a scan found expired. */
    method RunDeletes(keys: seq<bytes>)
      requires Valid() && Inv(contents)
      modifies this
      ensures Valid() && held == old(held)
      ensures contents == RemovedSet(old(contents), SetOf(keys))
    {
      RemovedSetEnds(contents, keys);
      for j := 0 to |keys|
        invariant Valid() && held == old(held) && Inv(contents)
        invariant contents == RemovedSet(old(contents), SetOf(keys[..j]))
      {
        DeletesAgree(contents, keys[j]);
        RemoveRefines(contents, keys[j]);
        RemovedSetSnoc(old(contents), keys, j);
        var _ := Delete(keys[j]);
      }
    }

    /** The second loop of a sweep. */
    method RemoveAll(keys: seq<bytes>)
      requires Valid()
      modifies this
      ensures Valid() && held == old(held)
      ensures contents == RemovedSet(old(contents), SetOf(keys))
    {
      RemovedSetEnds(contents, keys);
      for j := 0 to |keys|
        invariant Valid() && held == old(held)
        invariant contents == RemovedSet(old(contents), SetOf(keys[..j]))
      {
        RemovedSetSnoc(old(contents), keys, j);
        var _ := LoadAndDelete(keys[j]);
      }
    }

    /** The active index is set; the generation it leaves behind twice over is emptied. */
    method ClearGeneration(i: nat)
      requires i < 3 && |peerMap| == 3 && Shape(contents) && currentActive < 3
      requires contents.lastClean == lastClean
      requires forall p :: p in held ==> p.torrent == infoHash
      requires forall a :: 0 <= a < 3 ==> peerMap[a].Keys == contents.gens[a].Keys
      requires forall a, k :: 0 <= a < 3 && k in peerMap[a] ==>
        peerMap[a][k] in held && StoredAs(peerMap[a][k], k, contents.gens[a][k])
      modifies this`peerMap, this`contents
      ensures Valid() && contents == old(contents).(active := currentActive, gens := old(contents).gens[i := map[]])
    {
      peerMap := peerMap[i := map[]];
      contents := contents.(active := currentActive, gens := contents.gens[i := map[]]);
    }

    /** The test of the rotation check. */
    predicate IsFull(c: Config)
      reads this
      requires currentActive < |peerMap|
    {
      |peerMap[currentActive]| > Half(c.maxPeersPerTorrent)
    }

    lemma IsFullIsFull(c: Config)
      requires Valid()
      ensures currentActive < |peerMap| && IsFull(c) == Full(c, contents)
    {
      SameSize(peerMap[currentActive], contents.gens[currentActive]);
    }

    /** The write index moves on, the oldest generation is replaced. */
    method Rotate()
      requires Value().Some?
      modifies this
      ensures Value() == Some(contents) && held == old(held)
      ensures contents == RotatedAnyway(old(contents))
    {
      ghost var next := RotatedAnyway(contents);
      RotatedAnywayInv(contents);
      var current := currentActive;
      currentActive := (current + 1) % 3;
      ClearGeneration((current + 2) % 3);
      assert contents == next;
    }

    /** Ranging over one generation for an announce; stopping ends only this generation. */
    method ScanGeneration(caller: Peer, numWant: int, ttl: int, now: int, ghost r: Root, i: nat, soFar: seq<Peer>, expiredSoFar: seq<bytes>)
      returns (resp: seq<Peer>, expiredPeer: seq<bytes>)
      requires Valid() && r == contents && i < 3 && OwnIds(r.gens[i])
      requires Records(soFar) == ReplyUpto(ttl, now, caller.Record(), numWant, RangeUpto(r, i))
      requires SetOf(expiredSoFar) <= LapsedSet(ttl, now, RangeUpto(r, i))
      requires |soFar| < numWant ==> expiredSoFar == LapsedKeys(ttl, now, RangeUpto(r, i))
      ensures Records(resp) == ReplyUpto(ttl, now, caller.Record(), numWant, RangeUpto(r, i + 1))
      ensures SetOf(expiredPeer) <= LapsedSet(ttl, now, RangeUpto(r, i + 1))
      ensures |resp| < numWant ==> expiredPeer == LapsedKeys(ttl, now, RangeUpto(r, i + 1))
    {
      resp, expiredPeer := soFar, expiredSoFar;
      ghost var asking := caller.Record();
      var keys := Sorted(peerMap[i].Keys);
      SortedEnds(r.gens[i]);
      PassGeneration(r, i);
      for j := 0 to |keys|
        invariant Records(resp) == ReplyUpto(ttl, now, asking, numWant, Passed(r, i, j))
        invariant SetOf(expiredPeer) <= LapsedSet(ttl, now, Passed(r, i, j))
        invariant |resp| < numWant ==> expiredPeer == LapsedKeys(ttl, now, Passed(r, i, j))
      {
        SortedAt(r.gens[i], j);
        var value := peerMap[i][keys[j]];
        assert StoredAs(value, keys[j], r.gens[i][keys[j]]);
        var verdict := Judge(ttl, now, caller.Record(), numWant, |resp|, value.Record());
        JudgeAt(ttl, now, asking, numWant, r, i, j, value.Record(), Records(resp), verdict);
        SetOfSnoc(expiredPeer, keys[j]);
        RecordsSnoc(resp, value);
        if verdict == EndRange {
          return;
        }
        expiredPeer := if verdict == NoteExpired then expiredPeer + [keys[j]] else expiredPeer;
        resp := if verdict == Include then resp + [value] else resp;
      }
    }

    /** The range over the store that answers an announce. */
    method Scan(caller: Peer, numWant: int, ttl: int, now: int) returns (resp: seq<Peer>, expiredPeer: seq<bytes>)
      requires Value().Some?
      ensures Records(resp) == Reply(ttl, now, caller.Record(), numWant, contents)
      ensures SetOf(expiredPeer) <= ExpiredIn(ttl, now, contents)
      ensures |resp| < numWant ==> SetOf(expiredPeer) == ExpiredIn(ttl, now, contents)
    {
      resp, expiredPeer := [], [];
      for i := 0 to 3
        invariant Records(resp) == ReplyUpto(ttl, now, caller.Record(), numWant, RangeUpto(contents, i))
        invariant SetOf(expiredPeer) <= LapsedSet(ttl, now, RangeUpto(contents, i))
        invariant |resp| < numWant ==> expiredPeer == LapsedKeys(ttl, now, RangeUpto(contents, i))
      {
        resp, expiredPeer := ScanGeneration(caller, numWant, ttl, now, contents, i, resp, expiredPeer);
      }
      RangeUptoAll(contents);
      LapsedKeysAll(ttl, now, contents);
    }

    /** An update task, keeping the root sound. */
    method Update(c: Config, peer: Peer)
      requires Value().Some? && peer.torrent == infoHash
      modifies this, held
      ensures Value() == Some(contents) && held <= old(held) + {peer}
      ensures contents == Updated(c, old(contents), old(peer.Record()))
    {
      UpdateRefines(c, contents, peer.Record());
      RunUpdate(c, peer);
    }

    /** An expiry task, keeping the root sound. */
    method Expire(keys: seq<bytes>)
      requires Value().Some?
      modifies this
      ensures Value() == Some(contents) && held == old(held)
      ensures contents == RemovedSet(old(contents), SetOf(keys))
    {
      RemovedSetInv(contents, SetOf(keys));
      RunDeletes(keys);
    }

    /** A start-up store, keeping the root sound. */
    method StoreSoundly(peer: Peer)
      requires Value().Some? && peer.torrent == infoHash && peer.id !in contents.gens[Previous(contents.active)]
      modifies this
      ensures Value() == Some(contents) && contents == Stored(old(contents), peer.id, peer.Record())
    {
      RecordFields(peer);
      StoreKeepsInv(contents, peer.id, peer.Record());
      Store(peer.id, peer);
    }

    /** A stop announce of a known torrent. */
    method RemoveStopped(id: bytes)
      requires Value().Some?
      modifies this
      ensures Value() == Some(contents) && held == old(held)
      ensures contents == Removed(old(contents), id)
    {
      RemoveRefines(contents, id);
      var _ := LoadAndDelete(id);
    }

    method CountGeneration(ttl: int, now: int, ghost r: Root, i: nat, soFar: ScrapeFile, expiredSoFar: seq<bytes>)
      returns (file: ScrapeFile, expiredPeer: seq<bytes>)
      requires Valid() && r == contents && Inv(r) && i < 3
      requires soFar == Tally(ttl, now, RangeUpto(r, i)) && expiredSoFar == LapsedKeys(ttl, now, RangeUpto(r, i))
      ensures file == Tally(ttl, now, RangeUpto(r, i + 1))
      ensures expiredPeer == LapsedKeys(ttl, now, RangeUpto(r, i + 1))
    {
      file, expiredPeer := soFar, expiredSoFar;
      var keys := Sorted(peerMap[i].Keys);
      SortedEnds(r.gens[i]);
      PassGeneration(r, i);
      for j := 0 to |keys|
        invariant file == Tally(ttl, now, Passed(r, i, j))
        invariant expiredPeer == LapsedKeys(ttl, now, Passed(r, i, j))
      {
        SortedAt(r.gens[i], j);
        var value := peerMap[i][keys[j]];
        assert StoredAs(value, keys[j], r.gens[i][keys[j]]);
        PassOne(r, i, j);
        TallyOneMore(ttl, now, Passed(r, i, j), r.gens[i][keys[j]]);
        file := Bump(ttl, now, file, value.Record());
        if Expired(ttl, now, value.Record()) {
          expiredPeer := expiredPeer + [keys[j]];
        }
      }
    }

    /** The counting loops of a scrape. */
    method Count(ttl: int, now: int) returns (file: ScrapeFile, expiredPeer: seq<bytes>)
      requires Value().Some?
      ensures file == Counts(ttl, now, AsMap(contents))
      ensures CountsOf(AsMap(contents), ttl, now, file)
      ensures SetOf(expiredPeer) == ExpiredIn(ttl, now, contents)
    {
      CountsMeaning(ttl, now, AsMap(contents));
      file, expiredPeer := ScrapeFile(0, 0, 0, 0), [];
      for i := 0 to 3
        invariant file == Tally(ttl, now, RangeUpto(contents, i)) && expiredPeer == LapsedKeys(ttl, now, RangeUpto(contents, i))
      {
        file, expiredPeer := CountGeneration(ttl, now, contents, i, file, expiredPeer);
      }
      TallyAll(ttl, now, contents);
      LapsedKeysAll(ttl, now, contents);
    }

    /** One visit of a sweep's range: an expired WebTorrent peer has its socket closed. */
    method CloseOne(ttl: int, now: int, i: nat, key: bytes) returns (expired: bool)
      requires Valid() && Inv(contents) && i < 3 && key in peerMap[i]
      modifies this`contents, held
      ensures Valid() && held == old(held)
      ensures contents == Replaced(old(contents), i, key, Generations.CloseExpired(ttl, now, old(contents).gens[i][key]))
      ensures expired == Expired(ttl, now, old(contents).gens[i][key])
    {
      var value := peerMap[i][key];
      OnlyThere(i, key);
      RecordFields(value);
      expired := now - ttl > value.lastSeen;
      ghost var closed := Generations.CloseExpired(ttl, now, contents.gens[i][key]);
      if expired && value.identity.typ == WEBTORRENT {
        value.Close();
      }
      assert value.Record() == closed;
      AdoptPeer(i, key, closed);
    }

    /** Every entry but one is stored as the value says. */
    ghost predicate ValidBut(i: nat, key: bytes)
      reads this, held
    {
      && |peerMap| == 3 && Shape(contents) && contents.active == currentActive && contents.lastClean == lastClean
      && (forall p :: p in held ==> p.torrent == infoHash)
      && (forall a :: 0 <= a < 3 ==> peerMap[a].Keys == contents.gens[a].Keys)
      && forall a, k :: 0 <= a < 3 && k in peerMap[a] ==>
           peerMap[a][k] in held && ((a, k) != (i, key) ==> StoredAs(peerMap[a][k], k, contents.gens[a][k]))
    }

    /** Take up the record one stored peer has come to have. */
    ghost method AdoptPeer(i: nat, key: bytes, p: PeerRecord)
      requires i < 3 && ValidBut(i, key) && key in peerMap[i] && StoredAs(peerMap[i][key], key, p)
      modifies this`contents
      ensures Valid() && contents == Replaced(old(contents), i, key, p)
    {
      contents := Replaced(contents, i, key, p);
    }

    lemma OnlyThere(i: nat, key: bytes)
      requires Valid() && Inv(contents) && i < 3 && key in peerMap[i]
      ensures forall a, k :: 0 <= a < 3 && k in peerMap[a] && peerMap[a][k] == peerMap[i][key] ==> a == i && k == key
    {
    }

    /** The visit at position j of generation i. */
    method CloseNext(ttl: int, now: int, ghost was: Root, i: nat, ghost j: nat, key: bytes, toClean: seq<bytes>) returns (collected: seq<bytes>)
      requires Valid() && Inv(was) && i < 3 && j < |was.gens[i]| == |Sorted(was.gens[i].Keys)| && key == Sorted(was.gens[i].Keys)[j]
      requires ClosedUpto(ttl, now, was, contents, i, SetOf(Sorted(was.gens[i].Keys)[..j]))
      requires toClean == LapsedKeys(ttl, now, Passed(was, i, j))
      modifies this`contents, held
      ensures Valid() && held == old(held)
      ensures ClosedUpto(ttl, now, was, contents, i, SetOf(Sorted(was.gens[i].Keys)[..j + 1]))
      ensures collected == LapsedKeys(ttl, now, Passed(was, i, j + 1))
    {
      CloseStep(ttl, now, was, contents, i, j);
      var expired := CloseOne(ttl, now, i, key);
      collected := if expired then toClean + [key] else toClean;
    }

    method CloseGeneration(ttl: int, now: int, ghost was: Root, i: nat, soFar: seq<bytes>) returns (toClean: seq<bytes>)
      requires Valid() && Inv(was) && i < 3 && ClosedUpto(ttl, now, was, contents, i, {})
      requires soFar == LapsedKeys(ttl, now, RangeUpto(was, i))
      modifies this`contents, held
      ensures Valid() && held == old(held)
      ensures ClosedUpto(ttl, now, was, contents, i, was.gens[i].Keys)
      ensures toClean == LapsedKeys(ttl, now, RangeUpto(was, i + 1))
    {
      toClean := soFar;
      var keys := Sorted(peerMap[i].Keys);
      PassGeneration(was, i);
      SortedEnds(was.gens[i]);
      for j := 0 to |keys|
        invariant Valid() && held == old(held)
        invariant ClosedUpto(ttl, now, was, contents, i, SetOf(keys[..j]))
        invariant toClean == LapsedKeys(ttl, now, Passed(was, i, j))
      {
        toClean := CloseNext(ttl, now, was, i, j, keys[j], toClean);
      }
    }

    /** The first loop of a sweep: collect the expired keys, close their sockets. */
    method CloseExpiredPeers(ttl: int, now: int) returns (toClean: seq<bytes>)
      requires Valid() && Inv(contents)
      modifies this`contents, held
      ensures Valid() && held == old(held)
      ensures contents.active == old(contents).active && contents.lastClean == old(contents).lastClean
      ensures AllClosed(ttl, now, old(contents), contents)
      ensures SetOf(toClean) == ExpiredIn(ttl, now, old(contents)) && |toClean| == |ExpiredIn(ttl, now, old(contents))|
    {
      toClean := [];
      ghost var was := contents;
      ClosedNone(ttl, now, was);
      for i := 0 to 3
        invariant Valid() && held == old(held)
        invariant ClosedUpto(ttl, now, was, contents, i, {})
        invariant i == 3 ==> AllClosed(ttl, now, was, contents)
        invariant toClean == LapsedKeys(ttl, now, RangeUpto(was, i))
      {
        toClean := CloseGeneration(ttl, now, was, i, toClean);
        ClosedGeneration(ttl, now, was, contents, i);
      }
      LapsedKeysAll(ttl, now, was);
    }

    /** The sweep of one root; n is the number of peers it removed. */
    method CleanUp(ttl: int, now: int) returns (n: nat)
      requires Valid() && Inv(contents)
      modifies this, held
      ensures Valid() && held == old(held)
      ensures contents == Swept(ttl, now, old(contents))
      ensures n == Generations.Len(old(contents)) - Generations.Len(contents)
    {
      ghost var was := contents;
      if lastClean + ttl > now {
        return 0;
      }
      var toClean := CloseExpiredPeers(ttl, now);
      SweptByRemoval(ttl, now, was, contents);
      SweepSize(ttl, now, was);
      RemoveAll(toClean);
      lastClean := now;
      contents := contents.(lastClean := now);
      n := |toClean|;
    }

    /** The sweep, keeping the root sound. */
    method Sweep(ttl: int, now: int) returns (n: nat)
      requires Value().Some?
      modifies this, held
      ensures Value() == Some(contents) && held == old(held)
      ensures contents == Swept(ttl, now, old(contents))
      ensures n == Generations.Len(old(contents)) - Generations.Len(contents)
    {
      SweepRefines(ttl, now, contents);
      n := CleanUp(ttl, now);
    }
  }
}
