/** The team lifecycle engine of the back end (`TeamService`): team creation, info
    update, leadership delegation, removal of a member by the leader and voluntary
    leave, over a store of teams, their leader pointers and (team, member) memberships.

    Each operation is specified by a pure step function on a `Store` value (what the
    call returns and what the store becomes); the `TeamService` class performs the
    same checks and writes on its own fields and is proved to agree with the step
    function. The lemmas below prove what the operations promise: the order of their
    checks, that a failed check writes nothing, and that every live team's leader
    keeps a membership in it. */
module TeamLifecycle {
  import opened Wrappers

  type TeamId = int
  type MemberId = int
  /** A calendar date (`LocalDate`) as a day number; only its order matters here. */
  type Date = int
  /** A `TeamMember` row, identified by its (team, member) pair. */
  type Membership = (TeamId, MemberId)

  datatype FeedbackType = Anonymous | Identified

  datatype Team = Team(
    name: string,
    startDate: Date,
    endDate: Option<Date>,
    feedbackType: FeedbackType,
    leader: MemberId)

  /** The caller-supplied team fields of a create or update request. */
  datatype TeamInfo = TeamInfo(
    name: string,
    startDate: Date,
    endDate: Option<Date>,
    feedbackType: FeedbackType)

  /** One constructor per exception the service throws. */
  datatype Error =
    | InvalidDuration         // IllegalArgumentException from validateProjectDuration
    | MemberNotFound          // EntityNotFoundException: the requesting member does not exist
    | TeamNotFound            // EntityNotFoundException with the "team not found" message
    | NotTeamLeader           // SecurityException from validateUserIsTeamLeader
    | CannotRemoveLeader      // IllegalArgumentException: the leader was named for removal
    | TeamMembershipNotFound  // TeamMembershipNotFoundException
    | TeamLeaderMustExist     // TeamLeaderMustExistException

  datatype Result<T> = Ok(value: T) | Err(error: Error)

  /** Everything the engine reads and writes: the team records, the membership rows,
      the member directory (read only), the next identity the team store hands out,
      and the sequence of `deleteTeam` calls made so far. */
  datatype Store = Store(
    teams: map<TeamId, Team>,
    memberships: set<Membership>,
    members: set<MemberId>,
    nextTeamId: TeamId,
    dissolved: seq<TeamId>)

  // ---------------------------------------------------------------------------
  // Checks shared by the operations

  /** A project period is valid when it has no end, or starts strictly before it ends. */
  function ValidateProjectDuration(startDate: Date, endDate: Option<Date>): (r: Result<()>)
    ensures r.Ok? <==> endDate.None? || startDate < endDate.value
    ensures r.Err? ==> r.error == InvalidDuration
  {
    if endDate.Some? && !(startDate < endDate.value) then Err(InvalidDuration) else Ok(())
  }

  function ValidateUserIsTeamLeader(leaderId: MemberId, team: Team): (r: Result<()>)
    ensures r.Ok? <==> team.leader == leaderId
    ensures r.Err? ==> r.error == NotTeamLeader
  {
    if team.leader != leaderId then Err(NotTeamLeader) else Ok(())
  }

  /** The membership rows of team `t`. */
  function TeamMemberships(ms: set<Membership>, t: TeamId): set<Membership>
  {
    set m | m in ms && m.0 == t
  }

  /** `countMembersByTeamId`: the number of membership rows of team `t`. */
  function MemberCount(ms: set<Membership>, t: TeamId): nat
  {
    |TeamMemberships(ms, t)|
  }

  // ---------------------------------------------------------------------------
  // Facts about member counts

  lemma {:induction false} SubsetCardinality<T>(a: set<T>, b: set<T>)
    requires a <= b
    ensures |a| <= |b|
    decreases a
  {
    if a != {} {
      var x :| x in a;
      SubsetCardinality(a - {x}, b - {x});
    }
  }

  /** Two distinct members of a team make its count at least two. */
  lemma TwoMembersCount(ms: set<Membership>, t: TeamId, a: MemberId, b: MemberId)
    requires (t, a) in ms && (t, b) in ms && a != b
    ensures MemberCount(ms, t) >= 2
  {
    var both := {(t, a), (t, b)};
    assert |both| == 2;
    SubsetCardinality(both, TeamMemberships(ms, t));
  }

  /** A count of one names exactly the one membership that is known to exist. */
  lemma SoleMembership(ms: set<Membership>, t: TeamId, a: MemberId)
    requires (t, a) in ms && MemberCount(ms, t) == 1
    ensures TeamMemberships(ms, t) == {(t, a)}
  {
    forall m | m in TeamMemberships(ms, t)
      ensures m == (t, a)
    {
      if m != (t, a) {
        TwoMembersCount(ms, t, a, m.1);
      }
    }
  }

  /** Deleting one membership of a team lowers its count by one. */
  lemma CountAfterDelete(ms: set<Membership>, t: TeamId, a: MemberId)
    requires (t, a) in ms
    ensures MemberCount(ms - {(t, a)}, t) == MemberCount(ms, t) - 1
  {
    assert TeamMemberships(ms - {(t, a)}, t) == TeamMemberships(ms, t) - {(t, a)};
  }

  // ---------------------------------------------------------------------------
  // Store invariants

  /** Referential integrity of the store: team identities are below the next one to
      be handed out, every membership names a stored team and an existing member,
      `deleteTeam` was called at most once per team and only for stored teams, and a
      team it was called for has no memberships left. */
  ghost predicate WellFormed(s: Store)
  {
    && (forall t :: t in s.teams ==> t < s.nextTeamId)
    && (forall m :: m in s.memberships ==> m.0 in s.teams && m.1 in s.members)
    && (forall i :: 0 <= i < |s.dissolved| ==> s.dissolved[i] in s.teams)
    && (forall i, j :: 0 <= i < j < |s.dissolved| ==> s.dissolved[i] != s.dissolved[j])
    && (forall m :: m in s.memberships ==> m.0 !in s.dissolved)
  }

  /** The leadership invariant: the leader of every team that has not been dissolved
      holds a membership in it. */
  ghost predicate LeadersAreMembers(s: Store)
  {
    forall t :: t in s.teams && t !in s.dissolved ==> (t, s.teams[t].leader) in s.memberships
  }

  ghost predicate Invariant(s: Store)
  {
    WellFormed(s) && LeadersAreMembers(s)
  }

  // ---------------------------------------------------------------------------
  // createTeam

  /** The duration is checked before the member lookup; on success the new team has the
      requester as leader and the given fields, and exactly the membership (team,
      requester) is added. */
  function CreateTeamStep(s: Store, leaderId: MemberId, info: TeamInfo): (out: (Store, Result<(TeamId, Team)>))
    ensures out.1 == Err(InvalidDuration) <==> ValidateProjectDuration(info.startDate, info.endDate).Err?
    ensures out.1 == Err(MemberNotFound) <==>
      ValidateProjectDuration(info.startDate, info.endDate).Ok? && leaderId !in s.members
    ensures out.1.Ok? <==>
      ValidateProjectDuration(info.startDate, info.endDate).Ok? && leaderId in s.members
    ensures out.1.Err? ==> out.0 == s
    ensures out.1.Ok? ==>
      var (id, team) := out.1.value;
      && team == Team(info.name, info.startDate, info.endDate, info.feedbackType, leaderId)
      && id == s.nextTeamId
      && out.0 == s.(teams := s.teams[id := team],
                     memberships := s.memberships + {(id, leaderId)},
                     nextTeamId := id + 1)
  {
    var duration := ValidateProjectDuration(info.startDate, info.endDate);
    if duration.Err? then (s, Err(duration.error))
    else if leaderId !in s.members then (s, Err(MemberNotFound))
    else
      var id := s.nextTeamId;
      var team := Team(info.name, info.startDate, info.endDate, info.feedbackType, leaderId);
      (s.(teams := s.teams[id := team],
          memberships := s.memberships + {(id, leaderId)},
          nextTeamId := id + 1),
       Ok((id, team)))
  }

  /** A created team gets a fresh identity and exactly one membership, its leader's. */
  lemma CreateTeamAddsOneMembership(s: Store, leaderId: MemberId, info: TeamInfo)
    requires WellFormed(s)
    requires CreateTeamStep(s, leaderId, info).1.Ok?
    ensures var (s', r) := CreateTeamStep(s, leaderId, info);
      && r.value.0 !in s.teams
      && |s'.memberships| == |s.memberships| + 1
      && TeamMemberships(s'.memberships, r.value.0) == {(r.value.0, leaderId)}
  {
  }

  lemma CreateTeamKeepsInvariant(s: Store, leaderId: MemberId, info: TeamInfo)
    requires Invariant(s)
    ensures Invariant(CreateTeamStep(s, leaderId, info).0)
  {
  }

  // ---------------------------------------------------------------------------
  // updateTeamInfo

  /** Checks run in the order duration, team existence, leadership; on success the
      name, dates and feedback type are overwritten and nothing else changes. */
  function UpdateTeamInfoStep(s: Store, memberId: MemberId, teamId: TeamId, info: TeamInfo): (out: (Store, Result<Team>))
    ensures out.1 == Err(InvalidDuration) <==> ValidateProjectDuration(info.startDate, info.endDate).Err?
    ensures out.1 == Err(TeamNotFound) <==>
      ValidateProjectDuration(info.startDate, info.endDate).Ok? && teamId !in s.teams
    ensures out.1 == Err(NotTeamLeader) <==>
      && ValidateProjectDuration(info.startDate, info.endDate).Ok?
      && teamId in s.teams && s.teams[teamId].leader != memberId
    ensures out.1.Err? ==> out.0 == s
    ensures out.1.Ok? <==>
      && ValidateProjectDuration(info.startDate, info.endDate).Ok?
      && teamId in s.teams && s.teams[teamId].leader == memberId
    ensures out.1.Ok? ==>
      && teamId in s.teams
      && out.1.value == Team(info.name, info.startDate, info.endDate, info.feedbackType, s.teams[teamId].leader)
      && out.0 == s.(teams := s.teams[teamId := out.1.value])
  {
    var duration := ValidateProjectDuration(info.startDate, info.endDate);
    if duration.Err? then (s, Err(duration.error))
    else if teamId !in s.teams then (s, Err(TeamNotFound))
    else
      var team := s.teams[teamId];
      var check := ValidateUserIsTeamLeader(memberId, team);
      if check.Err? then (s, Err(check.error))
      else
        var updated := team.(name := info.name, startDate := info.startDate,
                             endDate := info.endDate, feedbackType := info.feedbackType);
        (s.(teams := s.teams[teamId := updated]), Ok(updated))
  }

  lemma UpdateTeamInfoKeepsInvariant(s: Store, memberId: MemberId, teamId: TeamId, info: TeamInfo)
    requires Invariant(s)
    ensures Invariant(UpdateTeamInfoStep(s, memberId, teamId, info).0)
  {
  }

  // ---------------------------------------------------------------------------
  // delegateTeamLeader

  /** Checks run in the order team existence, leadership, candidate membership; on
      success only the leader pointer moves to the candidate. */
  function DelegateTeamLeaderStep(s: Store, currentLeaderId: MemberId, teamId: TeamId, newLeaderId: MemberId): (out: (Store, Result<()>))
    ensures out.1 == Err(TeamNotFound) <==> teamId !in s.teams
    ensures out.1 == Err(NotTeamLeader) <==> teamId in s.teams && s.teams[teamId].leader != currentLeaderId
    ensures out.1 == Err(TeamMembershipNotFound) <==>
      && teamId in s.teams && s.teams[teamId].leader == currentLeaderId
      && (teamId, newLeaderId) !in s.memberships
    ensures out.1.Err? ==> out.0 == s
    ensures out.1.Ok? <==>
      && teamId in s.teams && s.teams[teamId].leader == currentLeaderId
      && (teamId, newLeaderId) in s.memberships
    ensures out.1.Ok? ==>
      && teamId in s.teams
      && out.0 == s.(teams := s.teams[teamId := s.teams[teamId].(leader := newLeaderId)])
  {
    if teamId !in s.teams then (s, Err(TeamNotFound))
    else
      var team := s.teams[teamId];
      var check := ValidateUserIsTeamLeader(currentLeaderId, team);
      if check.Err? then (s, Err(check.error))
      else if (teamId, newLeaderId) !in s.memberships then (s, Err(TeamMembershipNotFound))
      else (s.(teams := s.teams[teamId := team.(leader := newLeaderId)]), Ok(()))
  }

  /** Delegating leadership to oneself succeeds and changes nothing. */
  lemma SelfDelegationIsNoOp(s: Store, leaderId: MemberId, teamId: TeamId)
    requires teamId in s.teams && s.teams[teamId].leader == leaderId
    requires (teamId, leaderId) in s.memberships
    ensures DelegateTeamLeaderStep(s, leaderId, teamId, leaderId) == (s, Ok(()))
  {
    assert s.teams[teamId := s.teams[teamId].(leader := leaderId)] == s.teams;
  }

  lemma DelegateTeamLeaderKeepsInvariant(s: Store, currentLeaderId: MemberId, teamId: TeamId, newLeaderId: MemberId)
    requires Invariant(s)
    ensures Invariant(DelegateTeamLeaderStep(s, currentLeaderId, teamId, newLeaderId).0)
  {
  }

  // ---------------------------------------------------------------------------
  // removeTeamMember

  /** Checks run in the order team existence, leadership, target is not the leader,
      target membership; on success exactly the target's membership is deleted. */
  function RemoveTeamMemberStep(s: Store, memberId: MemberId, teamId: TeamId, memberIdToRemove: MemberId): (out: (Store, Result<()>))
    ensures out.1 == Err(TeamNotFound) <==> teamId !in s.teams
    ensures out.1 == Err(NotTeamLeader) <==> teamId in s.teams && s.teams[teamId].leader != memberId
    ensures out.1 == Err(CannotRemoveLeader) <==>
      teamId in s.teams && s.teams[teamId].leader == memberId && memberIdToRemove == memberId
    ensures out.1 == Err(TeamMembershipNotFound) <==>
      && teamId in s.teams && s.teams[teamId].leader == memberId && memberIdToRemove != memberId
      && (teamId, memberIdToRemove) !in s.memberships
    ensures out.1.Err? ==> out.0 == s
    ensures out.1.Ok? <==>
      && teamId in s.teams && s.teams[teamId].leader == memberId && memberIdToRemove != memberId
      && (teamId, memberIdToRemove) in s.memberships
    ensures out.1.Ok? ==>
      && (teamId, memberIdToRemove) in s.memberships
      && out.0 == s.(memberships := s.memberships - {(teamId, memberIdToRemove)})
  {
    if teamId !in s.teams then (s, Err(TeamNotFound))
    else
      var team := s.teams[teamId];
      var check := ValidateUserIsTeamLeader(memberId, team);
      if check.Err? then (s, Err(check.error))
      else if team.leader == memberIdToRemove then (s, Err(CannotRemoveLeader))
      else if (teamId, memberIdToRemove) !in s.memberships then (s, Err(TeamMembershipNotFound))
      else (s.(memberships := s.memberships - {(teamId, memberIdToRemove)}), Ok(()))
  }

  lemma RemoveTeamMemberKeepsInvariant(s: Store, memberId: MemberId, teamId: TeamId, memberIdToRemove: MemberId)
    requires Invariant(s)
    ensures Invariant(RemoveTeamMemberStep(s, memberId, teamId, memberIdToRemove).0)
  {
  }

  // ---------------------------------------------------------------------------
  // leaveTeam

  /** The member count is taken before the delete. A leader may not leave while the
      count is two or more, and this is checked before the membership lookup; a
      missing membership is reported as a missing team. On success the caller's
      membership is deleted, and `deleteTeam` is called exactly when the count was one. */
  function LeaveTeamStep(s: Store, userId: MemberId, teamId: TeamId): (out: (Store, Result<()>))
    ensures out.1 == Err(TeamLeaderMustExist) <==>
      teamId in s.teams && s.teams[teamId].leader == userId && MemberCount(s.memberships, teamId) >= 2
    ensures out.1 == Err(TeamNotFound) <==>
      || teamId !in s.teams
      || (&& !(s.teams[teamId].leader == userId && MemberCount(s.memberships, teamId) >= 2)
          && (teamId, userId) !in s.memberships)
    ensures out.1.Err? ==> out.0 == s
    ensures out.1.Ok? <==>
      && teamId in s.teams
      && !(s.teams[teamId].leader == userId && MemberCount(s.memberships, teamId) >= 2)
      && (teamId, userId) in s.memberships
    ensures out.1.Ok? ==>
      && (teamId, userId) in s.memberships
      && out.0 == s.(memberships := s.memberships - {(teamId, userId)},
                     dissolved := s.dissolved + if MemberCount(s.memberships, teamId) == 1 then [teamId] else [])
  {
    if teamId !in s.teams then (s, Err(TeamNotFound))
    else
      var team := s.teams[teamId];
      var memberCount := MemberCount(s.memberships, teamId);
      if team.leader == userId && memberCount >= 2 then (s, Err(TeamLeaderMustExist))
      else if (teamId, userId) !in s.memberships then (s, Err(TeamNotFound))
      else
        var s' := s.(memberships := s.memberships - {(teamId, userId)});
        if memberCount == 1 then (s'.(dissolved := s'.dissolved + [teamId]), Ok(()))
        else (s', Ok(()))
  }

  /** A leader cannot leave while another member remains in the team. */
  lemma LeaderCannotLeaveWithOthers(s: Store, leaderId: MemberId, teamId: TeamId, other: MemberId)
    requires teamId in s.teams && s.teams[teamId].leader == leaderId
    requires (teamId, leaderId) in s.memberships && (teamId, other) in s.memberships && other != leaderId
    ensures LeaveTeamStep(s, leaderId, teamId) == (s, Err(TeamLeaderMustExist))
  {
    TwoMembersCount(s.memberships, teamId, leaderId, other);
  }

  /** A leave dissolves the team exactly when it takes the team's membership count from
      one to zero. */
  lemma LeaveTeamDissolution(s: Store, userId: MemberId, teamId: TeamId)
    ensures var (s', r) := LeaveTeamStep(s, userId, teamId);
      s'.dissolved != s.dissolved <==>
        r.Ok? && MemberCount(s.memberships, teamId) == 1 && MemberCount(s'.memberships, teamId) == 0
  {
    var (s', r) := LeaveTeamStep(s, userId, teamId);
    if r.Ok? {
      CountAfterDelete(s.memberships, teamId, userId);
    }
  }

  lemma LeaveTeamKeepsInvariant(s: Store, userId: MemberId, teamId: TeamId)
    requires Invariant(s)
    ensures Invariant(LeaveTeamStep(s, userId, teamId).0)
  {
    var (s', r) := LeaveTeamStep(s, userId, teamId);
    if r.Ok? {
      var count := MemberCount(s.memberships, teamId);
      assert teamId !in s.dissolved;
      if count == 1 {
        SoleMembership(s.memberships, teamId, userId);
        forall m | m in s'.memberships
          ensures m.0 != teamId
        {
          assert m !in TeamMemberships(s.memberships, teamId) - {(teamId, userId)};
        }
        assert s'.dissolved[|s'.dissolved| - 1] == teamId;
      } else {
        assert (teamId, userId) in TeamMemberships(s.memberships, teamId);
        assert count != 0;
        assert !(s.teams[teamId].leader == userId && count >= 2);
        assert s.teams[teamId].leader != userId;
      }
      forall t | t in s'.teams && t !in s'.dissolved
        ensures (t, s'.teams[t].leader) in s'.memberships
      {
        assert (t, s.teams[t].leader) in s.memberships;
      }
    }
  }

  // ---------------------------------------------------------------------------
  // The service object

  /** The service with the persistent state it works on: the team records, the
      membership rows, the member directory (never written here), the identity the
      team store will assign next, and the teams `deleteTeam` was called for. */
  class TeamService {
    var teams: map<TeamId, Team>
    var memberships: set<Membership>
    const members: set<MemberId>
    var nextTeamId: TeamId
    var dissolved: seq<TeamId>

    function Snapshot(): Store
      reads this
    {
      Store(teams, memberships, members, nextTeamId, dissolved)
    }

    ghost predicate Valid()
      reads this
    {
      Invariant(Snapshot())
    }

    /** A service over an existing member directory and no teams yet. */
    constructor (directory: set<MemberId>)
      ensures Valid()
      ensures Snapshot() == Store(map[], {}, directory, 0, [])
    {
      teams := map[];
      memberships := {};
      members := directory;
      nextTeamId := 0;
      dissolved := [];
    }

    method CreateTeam(leaderId: MemberId, info: TeamInfo) returns (r: Result<(TeamId, Team)>)
      requires Valid()
      modifies this
      ensures Valid()
      ensures (Snapshot(), r) == CreateTeamStep(old(Snapshot()), leaderId, info)
    {
      var duration := ValidateProjectDuration(info.startDate, info.endDate);
      if duration.Err? {
        return Err(duration.error);
      }
      if leaderId !in members {
        return Err(MemberNotFound);
      }
      var team := Team(info.name, info.startDate, info.endDate, info.feedbackType, leaderId);
      var id := nextTeamId;
      teams := teams[id := team];
      nextTeamId := id + 1;
      memberships := memberships + {(id, leaderId)};
      r := Ok((id, team));
      CreateTeamKeepsInvariant(old(Snapshot()), leaderId, info);
    }

    method RemoveTeamMember(memberId: MemberId, teamId: TeamId, memberIdToRemove: MemberId) returns (r: Result<()>)
      requires Valid()
      modifies this
      ensures Valid()
      ensures (Snapshot(), r) == RemoveTeamMemberStep(old(Snapshot()), memberId, teamId, memberIdToRemove)
    {
      if teamId !in teams {
        return Err(TeamNotFound);
      }
      var team := teams[teamId];
      var check := ValidateUserIsTeamLeader(memberId, team);
      if check.Err? {
        return Err(check.error);
      }
      if team.leader == memberIdToRemove {
        return Err(CannotRemoveLeader);
      }
      var membership := (teamId, memberIdToRemove);
      if membership !in memberships {
        return Err(TeamMembershipNotFound);
      }
      DeleteTeamMemberAndRemainingScheduleMember(membership);
      r := Ok(());
      RemoveTeamMemberKeepsInvariant(old(Snapshot()), memberId, teamId, memberIdToRemove);
    }

    method DelegateTeamLeader(currentLeaderId: MemberId, teamId: TeamId, newLeaderId: MemberId) returns (r: Result<()>)
      requires Valid()
      modifies this
      ensures Valid()
      ensures (Snapshot(), r) == DelegateTeamLeaderStep(old(Snapshot()), currentLeaderId, teamId, newLeaderId)
    {
      if teamId !in teams {
        return Err(TeamNotFound);
      }
      var team := teams[teamId];
      var check := ValidateUserIsTeamLeader(currentLeaderId, team);
      if check.Err? {
        return Err(check.error);
      }
      if (teamId, newLeaderId) !in memberships {
        return Err(TeamMembershipNotFound);
      }
      teams := teams[teamId := team.(leader := newLeaderId)];
      r := Ok(());
      DelegateTeamLeaderKeepsInvariant(old(Snapshot()), currentLeaderId, teamId, newLeaderId);
    }

    method UpdateTeamInfo(memberId: MemberId, teamId: TeamId, info: TeamInfo) returns (r: Result<Team>)
      requires Valid()
      modifies this
      ensures Valid()
      ensures (Snapshot(), r) == UpdateTeamInfoStep(old(Snapshot()), memberId, teamId, info)
    {
      var duration := ValidateProjectDuration(info.startDate, info.endDate);
      if duration.Err? {
        return Err(duration.error);
      }
      if teamId !in teams {
        return Err(TeamNotFound);
      }
      var team := teams[teamId];
      var check := ValidateUserIsTeamLeader(memberId, team);
      if check.Err? {
        return Err(check.error);
      }
      team := team.(name := info.name, startDate := info.startDate,
                    endDate := info.endDate, feedbackType := info.feedbackType);
      teams := teams[teamId := team];
      r := Ok(team);
      UpdateTeamInfoKeepsInvariant(old(Snapshot()), memberId, teamId, info);
    }

    method LeaveTeam(userId: MemberId, teamId: TeamId) returns (r: Result<()>)
      requires Valid()
      modifies this
      ensures Valid()
      ensures (Snapshot(), r) == LeaveTeamStep(old(Snapshot()), userId, teamId)
    {
      if teamId !in teams {
        return Err(TeamNotFound);
      }
      var team := teams[teamId];
      var memberCount := MemberCount(memberships, teamId);
      if team.leader == userId && memberCount >= 2 {
        return Err(TeamLeaderMustExist);
      }
      var membership := (teamId, userId);
      if membership !in memberships {
        return Err(TeamNotFound);
      }
      DeleteTeamMemberAndRemainingScheduleMember(membership);
      if memberCount == 1 {
        DeleteTeam(teamId);
      }
      r := Ok(());
      LeaveTeamKeepsInvariant(old(Snapshot()), userId, teamId);
    }

    /** Deletes one membership row; the clean-up of the member's schedule entries that
        the source leaves for later is not part of this model. */
    method DeleteTeamMemberAndRemainingScheduleMember(membership: Membership)
      modifies this`memberships
      ensures memberships == old(memberships) - {membership}
    {
      memberships := memberships - {membership};
    }

    /** Team deletion is an empty placeholder in the source: the call is recorded, and
        the team record itself is left in place. */
    method DeleteTeam(teamId: TeamId)
      modifies this`dissolved
      ensures dissolved == old(dissolved) + [teamId]
    {
      dissolved := dissolved + [teamId];
    }
  }
}
