/**
  The process-wide room registry and its request handlers. Each handler's locked
  region is one atomic step on `rooms`; random draws, the clock and the decoded
  request image are parameters.
*/
module Registry {

  import opened Wrappers
  import opened Canvas
  import opened Rooms

  /** What a configuration lookup answers with. */
  datatype ConfigReply = ConfigReply(roomConf: RoomConfig, userConf: UserConfig, submitted: bool)

  /**
    Draws the uids of a new room from the stream `draws`: for each slot in turn, draw
    until the value differs from every earlier slot's uid. None when the stream runs
    out first.
  */
  method DrawUids(num: nat, draws: seq<uint32>) returns (uids: Option<seq<uint32>>)
    ensures uids.None? <==> |Dedup(draws)| < num
    ensures uids.Some? ==> |uids.value| == num && uids.value == Dedup(draws)[..num]
  {
    var slots: seq<uint32> := [];
    var pos := 0;
    var i := 0;
    while i < num
      invariant 0 <= pos <= |draws|
      invariant i <= num && |slots| == i
      invariant slots == Dedup(draws[..pos])
    {
      var placed := false;
      while !placed
        invariant 0 <= pos <= |draws|
        invariant slots == Dedup(draws[..pos])
        invariant |slots| == i + (if placed then 1 else 0)
        decreases |draws| - pos, if placed then 0 else 1
      {
        if pos == |draws| {
          assert draws[..pos] == draws;
          return None;
        }
        var uid := draws[pos];
        assert draws[..pos + 1] == draws[..pos] + [uid];
        pos := pos + 1;
        var ok := true;
        var j := 0;
        while j < i
          invariant 0 <= j <= i
          invariant forall jj :: 0 <= jj < j ==> slots[jj] != uid
        {
          if slots[j] == uid {
            ok := false;
            break;
          }
          j := j + 1;
        }
        if ok {
          slots := slots + [uid];
          placed := true;
        }
      }
      i := i + 1;
    }
    DedupPrefix(draws, pos);
    uids := Some(slots);
  }

  /**
    The scan for the submitting user: stops at the first slot holding `uid`, and
    accepts it only if that user has not submitted yet.
  */
  method FindSubmitter(users: seq<User>, uid: uint32) returns (ok: bool, idx: nat)
    ensures ok <==> FirstUser(users, uid).Some? && !users[FirstUser(users, uid).value].submitted
    ensures ok ==> FirstUser(users, uid) == Some(idx)
  {
    ok, idx := false, 0;
    var k := 0;
    while k < |users|
      invariant 0 <= k <= |users|
      invariant forall j :: 0 <= j < k ==> users[j].uid != uid
      invariant !ok
    {
      if users[k].uid == uid {
        if !users[k].submitted {
          ok := true;
          idx := k;
        }
        assert FirstUser(users, uid) == Some(k);
        break;
      }
      k := k + 1;
    }
  }

  /** Writes a drawing into a canvas file, merging in place on a decoded copy of the canvas. */
  method StoreCanvas(canvas: Option<Image>, img: Image) returns (w: Write)
    requires WellFormed(img) && (canvas.Some? ==> WellFormed(canvas.value))
    ensures w == WriteCanvas(canvas, img)
  {
    match canvas {
      case None =>
        // an empty file: the drawing is the canvas
        w := Write(Ok, Some(img));
      case Some(e) =>
        if img.bounds != e.bounds {
          return Write(InternalError, canvas);
        }
        var merged := MergeInPlace(img, e);
        w := Write(Ok, Some(merged));
    }
  }

  class Registry {

    /** The directory that holds the canvas files. */
    const imgPath: string

    var rooms: RoomMap

    ghost predicate Valid()
      reads this
    {
      RegistryValid(imgPath, rooms)
    }

    constructor (imgPath: string)
      ensures Valid() && this.imgPath == imgPath && rooms == map[]
    {
      this.imgPath := imgPath;
      rooms := map[];
    }

    /**
      Draws room ids from `draws` until one is not in use. None when every draw is
      taken (the stream standing in for a failing random source).
    */
    method PickRoomId(draws: seq<RoomIdDraw>) returns (r: Option<uint32>)
      ensures r.None? <==> forall k :: 0 <= k < |draws| ==> draws[k] in rooms
      ensures r.Some? ==>
        && r.value !in rooms
        && r.value < MaxUint32
        && exists k :: 0 <= k < |draws| && draws[k] == r.value &&
             forall j :: 0 <= j < k ==> draws[j] in rooms
    {
      var pos := 0;
      while pos < |draws|
        invariant 0 <= pos <= |draws|
        invariant forall j :: 0 <= j < pos ==> draws[j] in rooms
      {
        var id: uint32 := draws[pos];
        if id !in rooms {
          return Some(id);
        }
        pos := pos + 1;
      }
      r := None;
    }

    /**
      Creates a room for `num` participants: distinct uids drawn for the slots, a
      fresh room id, the canvas path derived from the id, expiry 21 hours from `now`.
      Answers the uids in slot order followed by the room id.
    */
    method CreateRoom(num: uint8, now: int, roomConf: RoomConfig, userConf: nat -> UserConfig,
                      uidDraws: seq<uint32>, idDraws: seq<RoomIdDraw>)
      returns (resp: Option<seq<uint32>>)
      requires Valid()
      modifies this
      ensures Valid()
      ensures resp.None? <==>
        |Dedup(uidDraws)| < num || forall k :: 0 <= k < |idDraws| ==> idDraws[k] in old(rooms)
      ensures resp.None? ==> rooms == old(rooms)
      ensures resp.Some? ==>
        var r := resp.value;
        && |r| == num + 1
        && r[..num] == Dedup(uidDraws)[..num]
        && Distinct(r[..num])
        && r[num] !in old(rooms)
        && r[num] < MaxUint32
        && rooms == old(rooms)[r[num] := NewRoom(imgPath, r[num], now, r[..num], userConf, roomConf)]
    {
      var uids := DrawUids(num, uidDraws);
      if uids.None? {
        return None;
      }
      var id := PickRoomId(idDraws);
      if id.None? {
        return None;
      }
      var room := NewRoom(imgPath, id.value, now, uids.value, userConf, roomConf);
      DedupDistinct(uidDraws);
      assert Distinct(uids.value);
      NewRoomValid(imgPath, id.value, now, uids.value, userConf, roomConf);
      rooms := rooms[id.value := room];
      resp := Some(uids.value + [id.value]);
      assert resp.value[..num] == uids.value;
    }

    /**
      Looks up a participant: the room must exist, then the first slot with `uid`
      gives the room's configuration, the user's configuration and the user's flag.
    */
    method GetConfig(id: uint32, uid: uint32) returns (r: Option<ConfigReply>)
      ensures r.Some? <==> id in rooms && HasUid(rooms[id].users, uid)
      ensures r.Some? ==>
        exists k :: IsFirstMatch(rooms[id].users, uid, k) &&
          r.value == ConfigReply(rooms[id].conf, rooms[id].users[k].conf, rooms[id].users[k].submitted)
    {
      if id !in rooms {
        return None;
      }
      var users := rooms[id].users;
      var k := 0;
      while k < |users|
        invariant 0 <= k <= |users|
        invariant forall j :: 0 <= j < k ==> users[j].uid != uid
      {
        if users[k].uid == uid {
          return Some(ConfigReply(rooms[id].conf, users[k].conf, users[k].submitted));
        }
        k := k + 1;
      }
      r := None;
    }

    /**
      Progress of a room: how many users have submitted, how many there are, and
      whether the caller has submitted (1) or not (0). Not ok when the room or the
      uid is missing; a missing room counts as having no users.
    */
    method GetDone(id: uint32, uid: uint32) returns (ok: bool, done: nat, outof: nat, submitted: nat)
      ensures ok <==> id in rooms && HasUid(rooms[id].users, uid)
      ensures id in rooms ==> done == CountSubmitted(rooms[id].users) && outof == |rooms[id].users|
      ensures id !in rooms ==> done == 0 && outof == 0
      ensures submitted == if id in rooms && SubmittedUid(rooms[id].users, uid) then 1 else 0
      ensures done <= outof
    {
      done, submitted := 0, 0;
      ok := false;
      if id in rooms {
        var users := rooms[id].users;
        var k := 0;
        while k < |users|
          invariant 0 <= k <= |users|
          invariant done == CountSubmitted(users[..k])
          invariant ok <==> HasUid(users[..k], uid)
          invariant submitted == if SubmittedUid(users[..k], uid) then 1 else 0
        {
          assert users[..k + 1][..k] == users[..k];
          if users[k].submitted {
            done := done + 1;
          }
          if users[k].uid == uid {
            if users[k].submitted {
              submitted := 1;
            }
            ok := true;
          }
          k := k + 1;
        }
        assert users[..k] == users;
        outof := |users|;
      } else {
        outof := 0;
      }
    }

    /**
      A participant submits a decoded drawing: the one atomic step that Submit
      specifies, with the merge done in place on a decoded copy of the canvas.
    */
    method SendStrokes(id: uint32, uid: uint32, img: Image) returns (status: Status)
      requires Valid() && WellFormed(img)
      modifies this
      ensures Valid()
      ensures Outcome(status, rooms) == Submit(old(rooms), id, uid, img)
    {
      ghost var before := rooms;
      if id !in rooms {
        return BadRequest;
      }
      var room := rooms[id];
      var ok, usrIdx := FindSubmitter(room.users, uid);
      if !ok {
        assert Submit(before, id, uid, img) == Outcome(BadRequest, before);
        return BadRequest;
      }
      // the user counts as submitted before anything is written
      var flagged := room.(users := Flag(room.users, usrIdx));
      rooms := rooms[id := flagged];
      var w := StoreCanvas(room.canvas, img);
      rooms := rooms[id := flagged.(canvas := w.canvas)];
      status := w.status;
      assert Submit(before, id, uid, img) == Outcome(status, rooms);
      SubmitPreservesValid(imgPath, before, id, uid, img);
    }

    /** The scan, delete one, rescan loop of the sweeper for a given selection. */
    method SweepWhere(selects: Room -> bool)
      modifies this
      ensures rooms == RemoveWhere(old(rooms), selects)
    {
      ghost var start := rooms;
      while exists k :: k in rooms && selects(rooms[k])
        invariant rooms.Keys <= start.Keys
        invariant forall k :: k in rooms ==> rooms[k] == start[k]
        invariant forall k :: k in start && k !in rooms ==> selects(start[k])
        decreases rooms.Keys
      {
        var id :| id in rooms && selects(rooms[id]);
        rooms := rooms - {id};
      }
      SweepFinished(start, rooms, selects);
    }

    /** One sweep as the sweeper writes it: evicts the rooms whose expiry is after `now`. */
    method CleanRooms(now: int)
      requires Valid()
      modifies this
      ensures Valid()
      ensures rooms == SweepAsWritten(old(rooms), now)
    {
      RemoveWherePreservesValid(imgPath, rooms, r => LiveAt(r, now));
      SweepWhere(r => LiveAt(r, now));
    }

    /** One sweep that evicts the rooms whose expiry has passed. */
    method CleanExpiredRooms(now: int)
      requires Valid()
      modifies this
      ensures Valid()
      ensures rooms == SweepExpired(old(rooms), now)
    {
      RemoveWherePreservesValid(imgPath, rooms, r => ExpiredAt(r, now));
      SweepWhere(r => ExpiredAt(r, now));
    }
  }
}
