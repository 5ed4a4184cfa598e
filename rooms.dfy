/**
  The room registry's data: rooms keyed by 32-bit id, each with a fixed sequence of
  users, an expiry time, a canvas file path and the canvas itself (absent until the
  first submission). Alongside the data are the specification functions of the
  handlers that change it (a submission, a sweep) and the lemmas about them.
*/
module Rooms {

  import opened Wrappers
  import opened Canvas
  import opened Paths

  type uint32 = x: int | 0 <= x < 0x1_0000_0000

  const MaxUint32: int := 0xFFFF_FFFF

  /** A room id as drawn by crypto/rand.Int with bound MaxUint32: in [0, MaxUint32). */
  type RoomIdDraw = x: int | 0 <= x < 0xFFFF_FFFF

  /** Time is an integer count of nanoseconds; a room lives 21 hours from creation. */
  const RoomLifetime: int := 21 * 60 * 60 * 1_000_000_000

  /** The cosmetic configurations are opaque payloads, generated once and never interpreted. */
  datatype UserConfig = UserConfig(payload: string)

  datatype RoomConfig = RoomConfig(payload: string)

  datatype User = User(uid: uint32, submitted: bool, conf: UserConfig)

  /** A room; `canvas` stands for the contents of the file at `filepath` (None: absent or empty). */
  datatype Room = Room(
    id: uint32,
    exp: int,
    users: seq<User>,
    conf: RoomConfig,
    filepath: string,
    canvas: Option<Image>)

  type RoomMap = map<uint32, Room>

  // ---------------------------------------------------------------------------
  // Users of a room

  predicate HasUid(users: seq<User>, uid: uint32)
  {
    exists k :: 0 <= k < |users| && users[k].uid == uid
  }

  /** `k` is the slot that a front-to-back scan for `uid` stops at. */
  predicate IsFirstMatch(users: seq<User>, uid: uint32, k: int)
  {
    && 0 <= k < |users|
    && users[k].uid == uid
    && forall j :: 0 <= j < k ==> users[j].uid != uid
  }

  /** The first slot holding `uid`, if any. */
  function FirstUser(users: seq<User>, uid: uint32): (r: Option<nat>)
    ensures r.Some? <==> HasUid(users, uid)
    ensures r.Some? ==> IsFirstMatch(users, uid, r.value)
  {
    if users == [] then None
    else if users[0].uid == uid then Some(0)
    else
      match FirstUser(users[1..], uid)
      case None =>
        assert forall k :: 1 <= k < |users| ==> users[k] == users[1..][k - 1];
        None
      case Some(k) => Some(k + 1)
  }

  predicate DistinctUids(users: seq<User>)
  {
    forall i, j :: 0 <= i < j < |users| ==> users[i].uid != users[j].uid
  }

  /** With distinct uids the first match is the only one. */
  lemma FirstMatchIsOnlyMatch(users: seq<User>, uid: uint32, k: int)
    requires DistinctUids(users) && IsFirstMatch(users, uid, k)
    ensures forall j :: 0 <= j < |users| && users[j].uid == uid ==> j == k
  {
  }

  /** The caller's slot has been submitted. */
  predicate SubmittedUid(users: seq<User>, uid: uint32)
  {
    exists k :: 0 <= k < |users| && users[k].uid == uid && users[k].submitted
  }

  /** The number of users that have submitted. */
  function CountSubmitted(users: seq<User>): (n: nat)
    ensures n <= |users|
  {
    if users == [] then 0
    else CountSubmitted(users[..|users| - 1]) + (if users[|users| - 1].submitted then 1 else 0)
  }

  /** Nobody has submitted exactly when the count is zero. */
  lemma {:induction false} CountSubmittedZero(users: seq<User>)
    ensures CountSubmitted(users) == 0 <==> forall k :: 0 <= k < |users| ==> !users[k].submitted
  {
    if users != [] {
      var init := users[..|users| - 1];
      CountSubmittedZero(init);
      assert forall k :: 0 <= k < |init| ==> init[k] == users[k];
    }
  }

  /** Flags slot `k` as submitted. */
  function Flag(users: seq<User>, k: nat): seq<User>
    requires k < |users|
  {
    users[k := users[k].(submitted := true)]
  }

  /** Flagging a user that had not submitted raises the count by exactly one. */
  lemma {:induction false} CountAfterFlag(users: seq<User>, k: nat)
    requires k < |users| && !users[k].submitted
    ensures CountSubmitted(Flag(users, k)) == CountSubmitted(users) + 1
    decreases |users|
  {
    var flagged := Flag(users, k);
    var n := |users|;
    if k == n - 1 {
      assert flagged[..n - 1] == users[..n - 1];
    } else {
      assert flagged[..n - 1] == Flag(users[..n - 1], k);
      CountAfterFlag(users[..n - 1], k);
    }
  }

  // ---------------------------------------------------------------------------
  // Registry invariant

  /** A stored canvas is a complete image of the size its bounds say. */
  predicate CanvasOk(room: Room)
  {
    room.canvas.Some? ==> WellFormed(room.canvas.value)
  }

  predicate RoomValid(dir: string, id: uint32, room: Room)
  {
    && room.id == id
    && room.filepath == CanvasPath(dir, id)
    && DistinctUids(room.users)
    && CanvasOk(room)
  }

  /** Every room is filed under its own id, names its own canvas file and has distinct uids. */
  predicate RegistryValid(dir: string, rooms: RoomMap)
  {
    forall id :: id in rooms ==> RoomValid(dir, id, rooms[id])
  }

  /** In a valid registry no two rooms share a canvas file. */
  lemma CanvasFilesDistinct(dir: string, rooms: RoomMap, a: uint32, b: uint32)
    requires RegistryValid(dir, rooms)
    requires a in rooms && b in rooms
    ensures rooms[a].filepath == rooms[b].filepath <==> a == b
  {
    CanvasPathInjective(dir, a, b);
  }

  // ---------------------------------------------------------------------------
  // Creating a room

  predicate Distinct(s: seq<uint32>)
  {
    forall i, j :: 0 <= i < j < |s| ==> s[i] != s[j]
  }

  /**
    The draws that survive a "retry until unused" loop: each value the first time it
    is drawn, in drawing order.
  */
  function Dedup(s: seq<uint32>): (d: seq<uint32>)
    ensures |d| <= |s|
  {
    if s == [] then []
    else
      var d := Dedup(s[..|s| - 1]);
      if s[|s| - 1] in d then d else d + [s[|s| - 1]]
  }

  lemma {:induction false} DedupDistinct(s: seq<uint32>)
    ensures Distinct(Dedup(s))
  {
    if s != [] {
      DedupDistinct(s[..|s| - 1]);
    }
  }

  lemma {:induction false} DedupElements(s: seq<uint32>)
    ensures forall x :: x in Dedup(s) <==> x in s
  {
    if s != [] {
      var init := s[..|s| - 1];
      DedupElements(init);
      assert s == init + [s[|s| - 1]];
    }
  }

  /** Drawing more never changes what earlier draws produced. */
  lemma {:induction false} DedupPrefix(s: seq<uint32>, k: nat)
    requires k <= |s|
    ensures Dedup(s[..k]) <= Dedup(s)
    decreases |s| - k
  {
    if k < |s| {
      DedupPrefix(s[..|s| - 1], k);
      assert s[..|s| - 1][..k] == s[..k];
    } else {
      assert s[..k] == s;
    }
  }

  /** The users of a new room: the given uids in slot order, nobody submitted. */
  function NewUsers(uids: seq<uint32>, userConf: nat -> UserConfig): (users: seq<User>)
    ensures |users| == |uids|
    ensures forall i :: 0 <= i < |uids| ==> users[i].uid == uids[i] && !users[i].submitted
  {
    seq(|uids|, i requires 0 <= i < |uids| => User(uids[i], false, userConf(i)))
  }

  function NewRoom(dir: string, id: uint32, now: int, uids: seq<uint32>,
                   userConf: nat -> UserConfig, conf: RoomConfig): Room
  {
    Room(id, now + RoomLifetime, NewUsers(uids, userConf), conf, CanvasPath(dir, id), None)
  }

  /** A room built from distinct uids satisfies the registry invariant and has no submissions. */
  lemma NewRoomValid(dir: string, id: uint32, now: int, uids: seq<uint32>,
                     userConf: nat -> UserConfig, conf: RoomConfig)
    requires Distinct(uids)
    ensures RoomValid(dir, id, NewRoom(dir, id, now, uids, userConf, conf))
    ensures CountSubmitted(NewRoom(dir, id, now, uids, userConf, conf).users) == 0
  {
    CountSubmittedZero(NewUsers(uids, userConf));
  }

  // ---------------------------------------------------------------------------
  // Submitting a drawing

  /** The HTTP status a handler answers with. */
  datatype Status = Ok | BadRequest | InternalError

  datatype Outcome = Outcome(status: Status, rooms: RoomMap)

  /** What writing a drawing into a canvas file gives: the status and the new file contents. */
  datatype Write = Write(status: Status, canvas: Option<Image>)

  /**
    Writes an incoming image into a canvas file: an empty file receives the image as
    it is; a canvas of other bounds is refused and left as it was; otherwise the file
    receives the merge. A written canvas is always a complete image, and its bounds
    never change once it exists.
  */
  function WriteCanvas(canvas: Option<Image>, img: Image): (w: Write)
    requires WellFormed(img) && (canvas.Some? ==> WellFormed(canvas.value))
    ensures w.status != BadRequest
    ensures w.canvas.Some? && WellFormed(w.canvas.value)
    ensures canvas.Some? ==> w.canvas.value.bounds == canvas.value.bounds
  {
    match canvas
    case None => Write(Ok, Some(img))
    case Some(e) =>
      if img.bounds != e.bounds then Write(InternalError, canvas)
      else Write(Ok, Some(Merge(img, e)))
  }

  /**
    One submission as a single atomic step: reject a missing room, a missing uid or a
    user that already submitted; otherwise flag the user first, then write the
    incoming image into the room's canvas (a refused write leaves the flag set).
  */
  function Submit(rooms: RoomMap, id: uint32, uid: uint32, img: Image): Outcome
    requires WellFormed(img)
    requires id in rooms ==> CanvasOk(rooms[id])
  {
    if id !in rooms then Outcome(BadRequest, rooms)
    else
      var room := rooms[id];
      match FirstUser(room.users, uid)
      case None => Outcome(BadRequest, rooms)
      case Some(k) =>
        if room.users[k].submitted then Outcome(BadRequest, rooms)
        else
          var w := WriteCanvas(room.canvas, img);
          Outcome(w.status, rooms[id := room.(users := Flag(room.users, k), canvas := w.canvas)])
  }

  /** Flagging a slot changes no uid and no configuration, only that slot's flag. */
  lemma FlagKeepsUsers(users: seq<User>, k: nat)
    requires k < |users|
    ensures |Flag(users, k)| == |users|
    ensures forall j :: 0 <= j < |users| ==>
      && Flag(users, k)[j].uid == users[j].uid
      && Flag(users, k)[j].conf == users[j].conf
      && Flag(users, k)[j].submitted == (users[j].submitted || j == k)
    ensures DistinctUids(users) ==> DistinctUids(Flag(users, k))
  {
  }

  /**
    An accepted submission replaces exactly one room: the one with id `id`, whose
    first user with `uid` had not submitted and now has, and whose canvas is written.
  */
  lemma SubmitAccepted(rooms: RoomMap, id: uint32, uid: uint32, img: Image) returns (k: nat)
    requires WellFormed(img) && (id in rooms ==> CanvasOk(rooms[id]))
    requires Submit(rooms, id, uid, img).status != BadRequest
    ensures id in rooms && FirstUser(rooms[id].users, uid) == Some(k) && !rooms[id].users[k].submitted
    ensures var w := WriteCanvas(rooms[id].canvas, img);
      Submit(rooms, id, uid, img) ==
        Outcome(w.status, rooms[id := rooms[id].(users := Flag(rooms[id].users, k), canvas := w.canvas)])
  {
    k := FirstUser(rooms[id].users, uid).value;
  }

  /** The request is refused exactly when no user of the room has `uid` and is still to submit. */
  lemma SubmitRejects(dir: string, rooms: RoomMap, id: uint32, uid: uint32, img: Image)
    requires RegistryValid(dir, rooms) && WellFormed(img)
    ensures var o := Submit(rooms, id, uid, img);
      (o.status == BadRequest <==>
        !(id in rooms && (exists k :: 0 <= k < |rooms[id].users| &&
                            rooms[id].users[k].uid == uid && !rooms[id].users[k].submitted)))
      && (o.status == BadRequest ==> o.rooms == rooms)
  {
    if id in rooms {
      var users := rooms[id].users;
      match FirstUser(users, uid)
      case None =>
      case Some(k) => FirstMatchIsOnlyMatch(users, uid, k);
    }
  }

  /**
    An accepted submission flips exactly the caller's flag: the same rooms, every other
    room unchanged, the room's id, expiry, configuration and file path unchanged, and
    every user keeps its uid and configuration.
  */
  lemma SubmitFlagsCaller(dir: string, rooms: RoomMap, id: uint32, uid: uint32, img: Image)
    requires RegistryValid(dir, rooms) && WellFormed(img)
    requires Submit(rooms, id, uid, img).status != BadRequest
    ensures var o := Submit(rooms, id, uid, img);
      && id in rooms
      && o.rooms.Keys == rooms.Keys
      && (forall r :: r in rooms && r != id ==> o.rooms[r] == rooms[r])
      && var before, after := rooms[id], o.rooms[id];
      && after.id == before.id && after.exp == before.exp
      && after.conf == before.conf && after.filepath == before.filepath
      && |after.users| == |before.users|
      && forall j :: 0 <= j < |before.users| ==>
          && after.users[j].uid == before.users[j].uid
          && after.users[j].conf == before.users[j].conf
          && (after.users[j].submitted <==> before.users[j].submitted || before.users[j].uid == uid)
  {
    var k := SubmitAccepted(rooms, id, uid, img);
    FlagKeepsUsers(rooms[id].users, k);
    FirstMatchIsOnlyMatch(rooms[id].users, uid, k);
  }

  /** No submission resets a flag: every room keeps its users and every set flag stays set. */
  lemma SubmitNeverClearsFlags(rooms: RoomMap, id: uint32, uid: uint32, img: Image)
    requires WellFormed(img) && (id in rooms ==> CanvasOk(rooms[id]))
    ensures var o := Submit(rooms, id, uid, img);
      && o.rooms.Keys == rooms.Keys
      && forall r, j :: r in rooms && 0 <= j < |rooms[r].users| && rooms[r].users[j].submitted ==>
           |o.rooms[r].users| == |rooms[r].users| && o.rooms[r].users[j].submitted
  {
  }

  /** Progress: an accepted submission raises the room's count by one, a refused one leaves it. */
  lemma SubmitCountsOnce(rooms: RoomMap, id: uint32, uid: uint32, img: Image)
    requires WellFormed(img) && id in rooms && CanvasOk(rooms[id])
    ensures var o := Submit(rooms, id, uid, img);
      CountSubmitted(o.rooms[id].users) ==
        CountSubmitted(rooms[id].users) + (if o.status == BadRequest then 0 else 1)
  {
    match FirstUser(rooms[id].users, uid)
    case None =>
    case Some(k) =>
      if !rooms[id].users[k].submitted {
        CountAfterFlag(rooms[id].users, k);
      }
  }

  /**
    What an accepted submission does to the canvas: an empty canvas becomes the incoming
    image verbatim; a canvas of other bounds is left as it was (status InternalError),
    yet the caller is already marked as submitted; otherwise the canvas becomes the merge, with its bounds unchanged.
  */
  lemma SubmitCanvas(rooms: RoomMap, id: uint32, uid: uint32, img: Image)
    requires WellFormed(img) && id in rooms && CanvasOk(rooms[id])
    requires Submit(rooms, id, uid, img).status != BadRequest
    ensures var o := Submit(rooms, id, uid, img);
      var before, after := rooms[id].canvas, o.rooms[id].canvas;
      && (before.None? ==> o.status == Ok && after == Some(img))
      && (before.Some? && before.value.bounds != img.bounds ==>
            && o.status == InternalError && after == before
            && FirstUser(rooms[id].users, uid).Some?
            && o.rooms[id].users[FirstUser(rooms[id].users, uid).value].submitted)
      && (before.Some? && before.value.bounds == img.bounds ==>
            o.status == Ok && after == Some(Merge(img, before.value))
            && after.value.bounds == before.value.bounds)
  {
  }

  /** Submitting twice: the second request is refused and changes nothing. */
  lemma SubmitTwiceRejected(dir: string, rooms: RoomMap, id: uint32, uid: uint32, img: Image, img2: Image)
    requires RegistryValid(dir, rooms) && WellFormed(img) && WellFormed(img2)
    requires Submit(rooms, id, uid, img).status != BadRequest
    ensures var o := Submit(rooms, id, uid, img);
      RegistryValid(dir, o.rooms) &&
      Submit(o.rooms, id, uid, img2) == Outcome(BadRequest, o.rooms)
  {
    SubmitPreservesValid(dir, rooms, id, uid, img);
    var k := FirstUser(rooms[id].users, uid).value;
    var o := Submit(rooms, id, uid, img);
    assert o.rooms[id].users[k].uid == uid && o.rooms[id].users[k].submitted;
    FirstMatchIsOnlyMatch(o.rooms[id].users, uid, FirstUser(o.rooms[id].users, uid).value);
  }

  lemma SubmitPreservesValid(dir: string, rooms: RoomMap, id: uint32, uid: uint32, img: Image)
    requires RegistryValid(dir, rooms) && WellFormed(img)
    ensures RegistryValid(dir, Submit(rooms, id, uid, img).rooms)
  {
    if Submit(rooms, id, uid, img).status != BadRequest {
      var k := SubmitAccepted(rooms, id, uid, img);
      FlagKeepsUsers(rooms[id].users, k);
      var room := rooms[id].(users := Flag(rooms[id].users, k), canvas := WriteCanvas(rooms[id].canvas, img).canvas);
      assert RoomValid(dir, id, room);
    }
  }

  // ---------------------------------------------------------------------------
  // Sweeping rooms

  /** The registry without the rooms `selects` picks; the others are kept as they are. */
  function RemoveWhere(rooms: RoomMap, selects: Room -> bool): (m: RoomMap)
    ensures forall k :: k in m <==> k in rooms && !selects(rooms[k])
    ensures forall k :: k in m ==> m[k] == rooms[k]
  {
    map k | k in rooms && !selects(rooms[k]) :: rooms[k]
  }

  /**
    A scan-and-delete loop is done when nothing left is selected: if only selected
    rooms were deleted and the rest kept, the result is the registry without the
    selected rooms.
  */
  lemma SweepFinished(start: RoomMap, rooms: RoomMap, selects: Room -> bool)
    requires rooms.Keys <= start.Keys
    requires forall k :: k in rooms ==> rooms[k] == start[k] && !selects(rooms[k])
    requires forall k :: k in start && k !in rooms ==> selects(start[k])
    ensures rooms == RemoveWhere(start, selects)
  {
    assert rooms.Keys == RemoveWhere(start, selects).Keys;
  }

  lemma RemoveWherePreservesValid(dir: string, rooms: RoomMap, selects: Room -> bool)
    requires RegistryValid(dir, rooms)
    ensures RegistryValid(dir, RemoveWhere(rooms, selects))
  {
  }

  /** `exp.After(now)`: the room's expiry is still in the future. */
  predicate LiveAt(room: Room, now: int) { room.exp > now }

  /** `now.After(exp)`: the room's expiry has passed. */
  predicate ExpiredAt(room: Room, now: int) { now > room.exp }

  /** A sweep with the selection as the sweeper writes it. */
  function SweepAsWritten(rooms: RoomMap, now: int): RoomMap
  {
    RemoveWhere(rooms, r => LiveAt(r, now))
  }

  /** A sweep that evicts the expired rooms, as the sweeper's log message says it does. */
  function SweepExpired(rooms: RoomMap, now: int): RoomMap
  {
    RemoveWhere(rooms, r => ExpiredAt(r, now))
  }

  /**
    As written, a sweep evicts every room that is still within its 21 hours and keeps
    every room whose expiry has passed.
  */
  lemma SweepAsWrittenEvictsLiveRooms(rooms: RoomMap, now: int, id: uint32)
    requires id in rooms
    ensures id in SweepAsWritten(rooms, now) <==> rooms[id].exp <= now
  {
  }

  /** Concretely: a room created an hour ago is evicted, a room that expired an hour ago survives. */
  lemma SweepAsWrittenCounterexample()
    ensures var hour := 60 * 60 * 1_000_000_000;
      var live := Room(1, RoomLifetime, [], RoomConfig(""), "1.png", None);
      var stale := Room(2, 0, [], RoomConfig(""), "2.png", None);
      var swept := SweepAsWritten(map[1 := live, 2 := stale], hour);
      1 !in swept && 2 in swept
  {
  }

  /** Corrected: after a sweep no expired room remains, and every other room is kept unchanged. */
  lemma SweepExpiredKeepsLiveRooms(dir: string, rooms: RoomMap, now: int)
    requires RegistryValid(dir, rooms)
    ensures var m := SweepExpired(rooms, now);
      && RegistryValid(dir, m)
      && (forall id :: id in m <==> id in rooms && rooms[id].exp >= now)
      && (forall id :: id in m ==> m[id] == rooms[id])
  {
  }
}
