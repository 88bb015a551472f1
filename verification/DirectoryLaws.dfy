/**
 What the requests answer and what they change, in terms of the directory's own fields.
 */
module DirectoryLaws {
  import opened Common
  import opened Directory
  import opened DirectoryInvariant

  /** `r` is what a join of `fd` under `name` has to answer, and `t` what it has to leave behind. */
  ghost predicate JoinAnswers(s: Dir, fd: int, name: string, t: Dir, r: Result<int, JoinError>) {
    && (r == Err(DuplicateName) <==> name in s.names)
    && (r == Err(NoRoomValid) <==> name !in s.names && s.valid == [] && |s.rooms| == 100)
    && t.names == s.names + {name}
    && (r.Err? ==> t == s.(names := s.names + {name}))
    && (r.Ok? ==> Joins(s, fd, name, t, r.value))
  }

  /** `fd` now sits in room `id`: the one that was listed first, or a new one if none was listed. */
  ghost predicate Joins(s: Dir, fd: int, name: string, t: Dir, id: int) {
    && (if s.valid == [] then id !in s.rooms && |s.rooms| < 100 else id == s.valid[0])
    && t.rooms.Keys == s.rooms.Keys + {id}
    && id in t.rooms && t.rooms[id].members == (if id in s.rooms then s.rooms[id].members else {}) + {fd}
    && (forall i :: i in s.rooms && i != id ==> t.rooms[i] == s.rooms[i])
    && fd in s.agents && t.agents == s.agents[fd := s.agents[fd].(roomID := id)]
    && t.players == s.players + {fd} && t.byName == s.byName[name := fd]
    && ListAfter(s, t, id)
  }

  /** The room leaves the list with its 100th place; a new room is listed; the order of the others stays. */
  ghost predicate ListAfter(s: Dir, t: Dir, id: int) {
    if s.valid == [] then t.valid == [id]
    else t.valid == if id in s.rooms && |s.rooms[id].members| >= 99 then s.valid[1..] else s.valid
  }

  lemma JoinLaw(s: Dir, fd: int, name: string)
    requires Inv(s) && fd in s.agents && !s.agents[fd].destroyed
    ensures Ready(s) && var (t, r) := Join(s, fd, name); JoinAnswers(s, fd, name, t, r)
  {
    InvReady(s);
    if name in s.names {
      assert s.names + {name} == s.names;
    } else if s.valid != [] {
      JoinsFront(s, fd, name);
    } else if |s.rooms| < MAX_ROOMS {
      JoinsNew(s, fd, name);
    }
  }

  lemma JoinsFront(s: Dir, fd: int, name: string)
    requires Inv(s) && Ready(s) && fd in s.agents && name !in s.names && s.valid != []
    ensures var (t, r) := Join(s, fd, name);
      r == Ok(s.valid[0]) && t.names == s.names + {name} && Joins(s, fd, name, t, s.valid[0])
  {
    var id := s.valid[0];
    assert id in s.valid && RoomOk(s.rooms[id]);
    EnterLaw(s.(names := s.names + {name}), fd, name, id);
    assert s.rooms.Keys + {id} == s.rooms.Keys;
  }

  lemma JoinsNew(s: Dir, fd: int, name: string)
    requires Inv(s) && Ready(s) && fd in s.agents && name !in s.names && s.valid == [] && |s.rooms| < MAX_ROOMS
    ensures var (t, r) := Join(s, fd, name);
      r == Ok(s.base + 1) && t.names == s.names + {name} && Joins(s, fd, name, t, s.base + 1)
  {
    EnterLaw(AddRoom(s.(names := s.names + {name})), fd, name, s.base + 1);
  }

  lemma EnterLaw(s: Dir, fd: int, name: string, id: int)
    requires fd in s.agents && s.valid != [] && s.valid[0] == id && id in s.rooms && |s.rooms[id].members| < 100
    ensures var t := Enter(s, fd, name, id);
      && t.rooms.Keys == s.rooms.Keys && t.rooms[id].members == s.rooms[id].members + {fd}
      && (forall i :: i in s.rooms && i != id ==> t.rooms[i] == s.rooms[i])
      && t.agents == s.agents[fd := s.agents[fd].(roomID := id)]
      && t.players == s.players + {fd} && t.byName == s.byName[name := fd] && t.names == s.names
      && t.valid == if |s.rooms[id].members| >= 99 then s.valid[1..] else s.valid
  {}

  /** After a login of a live agent its username is the requested one, whatever the join answered. */
  lemma LoginRenames(s: Dir, fd: int, name: string)
    requires Inv(s) && fd in s.agents && !s.agents[fd].destroyed
    ensures Ready(s) && var t := Step(s, Login(fd, name));
      && fd in t.agents && t.agents[fd].username == name && !t.agents[fd].destroyed
      && (forall g :: g in s.agents && g != fd ==> g in t.agents && t.agents[g] == s.agents[g])
  {
    JoinLaw(s, fd, name);
  }

  /**
   Destroy frees the seat in the agent's last room and forgets the player under its last name; a room that
   was not listed is listed behind all others.
   */
  lemma DestroyLaw(s: Dir, fd: int)
    requires Inv(s) && fd in s.agents && !s.agents[fd].destroyed
    ensures Ready(s)
    ensures var t, gone := Step(s, Destroy(fd)), s.agents[fd].(destroyed := true);
      if fd in s.players then
        var id := gone.roomID;
        && id in s.rooms && t.rooms == s.rooms[id := Room(s.rooms[id].members - {fd}, true)]
        && t.valid == (if id in s.valid then s.valid else s.valid + [id])
        && t.players == s.players - {fd} && t.byName == s.byName - {gone.username}
        && t.agents == s.agents[fd := gone] && t.names == s.names && t.base == s.base
      else t == s.(agents := s.agents[fd := gone])
  {
    InvReady(s);
    assert AgentOk(s, fd);
  }
}
