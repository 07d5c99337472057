/**
 * The team-slot table of the shared-memory synchronisation area: slot 0
 * belongs to the team of all units, other slots are handed out to new teams
 * with ids taken from a counter. The barrier each slot holds is not modelled.
 */
module ShmemBarriers {

  /** One element of `area->teams[]`, without its barrier. */
  datatype TeamSlot = TeamSlot(inuse: bool, teamid: int)

  /**
   * The lowest slot that is in use with id `teamid`, or -1 when there is none:
   * the result of findteam's scan, and the slot delteam frees.
   */
  function FirstMatch(s: seq<TeamSlot>, teamid: int, from: nat): (r: int)
    requires from <= |s|
    ensures r == -1 || (from <= r < |s| && s[r].inuse && s[r].teamid == teamid)
    ensures r == -1 ==> forall j :: from <= j < |s| ==> !(s[j].inuse && s[j].teamid == teamid)
    ensures r != -1 ==> forall j :: from <= j < r ==> !(s[j].inuse && s[j].teamid == teamid)
    decreases |s| - from
  {
    if from == |s| then -1
    else if s[from].inuse && s[from].teamid == teamid then from
    else FirstMatch(s, teamid, from + 1)
  }

  /** The synchronisation area (`syncarea_t`): the team table and the id counter. */
  class SyncArea {
    const maxTeams: nat   // MAXNUM_TEAMS
    const teamAll: int    // DART_TEAM_ALL
    var teams: array<TeamSlot>
    var nextid: int

    /**
     * Slot 0 always holds the team of all units; every other slot in use
     * holds an id below `nextid`, and no two of them hold the same id.
     */
    ghost predicate Valid()
      reads this, teams
    {
      && teams.Length == maxTeams >= 1
      && teams[0] == TeamSlot(true, teamAll)
      && nextid >= 1
      && (forall j :: 1 <= j < maxTeams && teams[j].inuse ==> 1 <= teams[j].teamid < nextid)
      && (forall j, k :: 1 <= j < k < maxTeams && teams[j].inuse && teams[k].inuse ==>
            teams[j].teamid != teams[k].teamid)
    }

    /**
     * shmem_syncarea_init on the shared memory `shm` (whatever it held before):
     * every slot is released, slot 0 is given to the team of all units and the
     * id counter starts at 1.
     */
    constructor Init(shm: array<TeamSlot>, teamAll: int)
      requires shm.Length >= 1
      modifies shm
      ensures Valid() && teams == shm && maxTeams == shm.Length && this.teamAll == teamAll
      ensures teams[0] == TeamSlot(true, teamAll)
      ensures forall j :: 1 <= j < maxTeams ==> !teams[j].inuse
      ensures nextid == 1
    {
      maxTeams := shm.Length;
      this.teamAll := teamAll;
      teams := shm;
      new;
      var i := 0;
      while i < maxTeams
        invariant teams == shm && 0 <= i <= maxTeams
        invariant forall j :: 0 <= j < i ==> !teams[j].inuse
      {
        teams[i] := teams[i].(inuse := false);
        i := i + 1;
      }
      teams[0] := TeamSlot(true, teamAll);
      nextid := 1;
    }

    /**
     * shmem_syncarea_newteam: take the lowest free slot in 1..maxTeams-1, give
     * it the next id and return the slot (and, through `teamidOut`, the id);
     * return -1 and leave everything, the caller's id included, as it was when
     * all those slots are taken.
     */
    method NewTeam(teamidIn: int) returns (slot: int, teamidOut: int)
      requires Valid()
      modifies this`nextid, teams
      ensures Valid()
      ensures slot == -1 <==> forall j :: 1 <= j < maxTeams ==> old(teams[j].inuse)
      ensures slot == -1 ==>
        teams[..] == old(teams[..]) && nextid == old(nextid) && teamidOut == teamidIn
      ensures slot != -1 ==>
        && 1 <= slot < maxTeams
        && !old(teams[slot].inuse)
        && (forall j :: 1 <= j < slot ==> old(teams[j].inuse))
        && teams[..] == old(teams[..])[slot := TeamSlot(true, old(nextid))]
        && teamidOut == old(nextid)
        && nextid == old(nextid) + 1
      ensures slot != -1 && teamAll != teamidOut ==> FirstMatch(teams[..], teamidOut, 0) == slot
    {
      slot, teamidOut := -1, teamidIn;
      var i := 1;
      while i < maxTeams
        invariant 1 <= i <= maxTeams
        invariant slot == -1
        invariant forall j :: 1 <= j < i ==> teams[j].inuse
      {
        if !teams[i].inuse {
          slot := i;
          break;
        }
        i := i + 1;
      }
      if 1 <= slot < maxTeams {
        teams[slot] := TeamSlot(true, nextid);
        teamidOut := teams[slot].teamid;
        nextid := nextid + 1;
        // every other slot from 1 on is either free or holds an older id
        assert forall j :: 0 <= j < slot ==> !(teams[j].inuse && teams[j].teamid == teamidOut) || j == 0;
      }
    }

    /**
     * shmem_syncarea_findteam: the lowest slot in use with id `teamid`, or -1.
     * Nothing is modified.
     */
    method FindTeam(teamid: int) returns (res: int)
      requires teams.Length == maxTeams
      ensures res == FirstMatch(teams[..], teamid, 0)
      ensures res == -1 || (0 <= res < maxTeams && teams[res].inuse && teams[res].teamid == teamid)
    {
      res := -1;
      var i := 0;
      while i < maxTeams
        invariant 0 <= i <= maxTeams
        invariant FirstMatch(teams[..], teamid, 0) == FirstMatch(teams[..], teamid, i)
      {
        if teams[i].inuse && teams[i].teamid == teamid {
          res := i;
          break;
        }
        i := i + 1;
      }
    }

    /**
     * shmem_syncarea_delteam: release the lowest slot in use with id
     * `teamid`, unless that is slot 0 or there is none; always returns 0.
     * Afterwards no slot in use holds a released id.
     */
    method DelTeam(teamid: int) returns (r: int)
      requires Valid()
      modifies teams
      ensures Valid() && r == 0
      ensures var k := FirstMatch(old(teams[..]), teamid, 0);
        teams[..] == if k >= 1 then old(teams[..])[k := old(teams[k]).(inuse := false)]
                     else old(teams[..])
      ensures FirstMatch(old(teams[..]), teamid, 0) >= 1 ==> FirstMatch(teams[..], teamid, 0) == -1
    {
      var slot := -1;
      var i := 0;
      while i < maxTeams
        invariant 0 <= i <= maxTeams
        invariant slot == -1
        invariant FirstMatch(teams[..], teamid, 0) == FirstMatch(teams[..], teamid, i)
      {
        if teams[i].inuse && teams[i].teamid == teamid {
          slot := i;
          break;
        }
        i := i + 1;
      }
      if 1 <= slot < maxTeams {
        teams[slot] := teams[slot].(inuse := false);
      }
      r := 0;
    }

    /**
     * shmem_syncarea_barrier_wait's range check: -1 for a slot outside
     * [0, maxTeams), without touching any barrier; otherwise the result of the
     * barrier wait, which always returns 0 (the wait itself is not modelled).
     */
    method BarrierWait(slot: int) returns (ret: int)
      ensures ret == -1 <==> !(0 <= slot < maxTeams)
      ensures ret == 0 || ret == -1
    {
      if 0 <= slot < maxTeams {
        ret := 0;
      } else {
        ret := -1;
      }
    }
  }
}
