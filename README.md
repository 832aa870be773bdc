# Team lifecycle and time helpers, modelled in Dafny

This project models two parts of a team-collaboration application.

**The team lifecycle engine** (`TeamService` of the Spring back end) keeps a team
record per team (name, project start, optional project end, feedback type and a
leader pointer) and a set of (team, member) membership rows. It offers five
operations, each a fixed chain of checks followed by one write:

- `createTeam`: the requester becomes the leader and is enrolled as the first member.
- `updateTeamInfo`: the leader overwrites the team's name, dates and feedback type.
- `delegateTeamLeader`: the leader hands leadership to an existing member.
- `removeTeamMember`: the leader removes a member other than themself.
- `leaveTeam`: a member leaves. A leader may not leave while others remain, and the
  last member's leave dissolves the team.

`team_service.dfy` (module `TeamLifecycle`) gives a pure step function per operation
over a `Store` value. Each step function returns the new store and a `Result` whose
error constructors are the service's exceptions, checked in the service's order. The
class `TeamService` holds the same state in fields, performs the checks and writes
step by step, and each method is proved to agree with its step function. The contracts
and lemmas prove three things: every failed check leaves the store untouched, a team is
dissolved exactly when a leave takes its membership count from one to zero, and
every operation preserves the leadership invariant. That invariant says the leader
of every team that has not been dissolved holds a membership in it.

**The front end's time helpers** (`utility/time.js`) are in `time_utils.dfy` (module
`TimeUtils`). They cover the ten-minute "HH:MM" time-picker table and the hour and
minute `timePickerToDate` reads back from it. They also cover the "how long ago"
label, the Korean weekday name, the inclusive period test and the nine-hour shift to
Korea Standard Time. Instants are integer milliseconds, and the current time is a
parameter instead of a clock read.

`wrappers.dfy` holds the `Option` type both modules use.

Where the code's behaviour is not what one might expect, the model follows the code:

- A missing membership in `leaveTeam` raises the same not-found exception, with the
  same message, as a missing team (`TeamNotFound` here). It has no error kind of its own.
- There is no conflict or retry path. `TeamService` always reads teams with a plain
  `findById`.
- `deleteTeam` has an empty body. Dissolution therefore appends the team to the
  `dissolved` sequence and leaves the team record in place, so a later call can still
  find the team. The leadership invariant covers the teams that have not been
  dissolved. The model also proves that a dissolved team has no memberships left and
  that no team is dissolved twice.
- `TeamUpdateDto` declares `startTime`/`endTime` as date-times, while `updateTeamInfo`
  reads `startDate()`/`endDate()`. The two do not match. Both request records are
  modelled by one `TeamInfo` value whose dates are day numbers.

## Model

| member | source | states |
|---|---|---|
| `TeamLifecycle.ValidateProjectDuration` | back-end/src/main/java/com/feedhanjum/back_end/team/service/TeamService.java:143-147 | passes exactly when the end is absent or the start is strictly before it (equal dates fail); a failure is `InvalidDuration` |
| `TeamLifecycle.ValidateUserIsTeamLeader` | back-end/src/main/java/com/feedhanjum/back_end/team/service/TeamService.java:137-141 | passes exactly when the caller is the team's leader; a failure is `NotTeamLeader` |
| `TeamLifecycle.CreateTeamStep` | back-end/src/main/java/com/feedhanjum/back_end/team/service/TeamService.java:36-47 | an invalid duration fails before the member lookup; an unknown requester fails next; a failure changes nothing; success returns a team with the given fields and the requester as leader, stores it under a new identity and adds the membership (team, requester) |
| `TeamLifecycle.CreateTeamAddsOneMembership` | back-end/src/main/java/com/feedhanjum/back_end/team/service/TeamService.java:41-45 | on a well-formed store the new identity is unused, exactly one membership is added, and it is the only membership of the new team |
| `TeamLifecycle.CreateTeamKeepsInvariant` | back-end/src/main/java/com/feedhanjum/back_end/team/service/TeamService.java:41-45 | creation preserves well-formedness and the leadership invariant |
| `TeamLifecycle.UpdateTeamInfoStep` | back-end/src/main/java/com/feedhanjum/back_end/team/service/TeamService.java:101-109 | checks run in the order duration, team existence, leadership; it succeeds exactly when all three pass; a failure changes nothing; success overwrites name, dates and feedback type, keeps the leader, and changes no other team, membership or dissolution |
| `TeamLifecycle.UpdateTeamInfoKeepsInvariant` | back-end/src/main/java/com/feedhanjum/back_end/team/service/TeamService.java:107 | an info update preserves well-formedness and the leadership invariant |
| `TeamLifecycle.DelegateTeamLeaderStep` | back-end/src/main/java/com/feedhanjum/back_end/team/service/TeamService.java:85-94 | checks run in the order team existence, leadership, candidate membership; it succeeds exactly when the caller leads and the candidate is a member; a failure changes nothing; success moves only the leader pointer to the candidate, and memberships are unchanged |
| `TeamLifecycle.SelfDelegationIsNoOp` | back-end/src/main/java/com/feedhanjum/back_end/team/service/TeamService.java:86-93 | a leader who is a member and delegates to themself succeeds, and the store is unchanged |
| `TeamLifecycle.DelegateTeamLeaderKeepsInvariant` | back-end/src/main/java/com/feedhanjum/back_end/team/service/TeamService.java:90-93 | delegation preserves the leadership invariant, because the candidate must hold a membership |
| `TeamLifecycle.RemoveTeamMemberStep` | back-end/src/main/java/com/feedhanjum/back_end/team/service/TeamService.java:67-78 | checks run in the order team existence, leadership, target is not the leader, target membership; it succeeds exactly when the caller leads and the target is another member; a failure changes nothing; success deletes exactly the target's membership |
| `TeamLifecycle.RemoveTeamMemberKeepsInvariant` | back-end/src/main/java/com/feedhanjum/back_end/team/service/TeamService.java:72-77 | removal preserves the leadership invariant, because the leader can never be the target |
| `TeamLifecycle.LeaveTeamStep` | back-end/src/main/java/com/feedhanjum/back_end/team/service/TeamService.java:116-130 | with the member count taken before the delete: the leader fails with `TeamLeaderMustExist` when the count is two or more, before the membership lookup; a missing team or membership fails with `TeamNotFound`; it succeeds exactly when neither applies; a failure changes nothing; success deletes only the caller's membership and records a dissolution exactly when the count was one |
| `TeamLifecycle.LeaderCannotLeaveWithOthers` | back-end/src/main/java/com/feedhanjum/back_end/team/service/TeamService.java:120-123 | a leader with another member in the team is refused with `TeamLeaderMustExist` and the store is unchanged |
| `TeamLifecycle.LeaveTeamDissolution` | back-end/src/main/java/com/feedhanjum/back_end/team/service/TeamService.java:120-129 | a leave records a dissolution if and only if it succeeds and takes the team's membership count from one to zero |
| `TeamLifecycle.LeaveTeamKeepsInvariant` | back-end/src/main/java/com/feedhanjum/back_end/team/service/TeamService.java:121-129 | a leave preserves the leadership invariant, keeps dissolved teams free of memberships, and never dissolves a team twice |
| `TeamLifecycle.CountAfterDelete` | back-end/src/main/java/com/feedhanjum/back_end/team/service/TeamService.java:120-126 | deleting one membership of a team lowers that team's member count by exactly one |
| `TeamLifecycle.TeamService.CreateTeam` | back-end/src/main/java/com/feedhanjum/back_end/team/service/TeamService.java:36-47 | performs the create checks and writes on the service's fields; the new state and result are those of `CreateTeamStep`, and the invariant is kept |
| `TeamLifecycle.TeamService.RemoveTeamMember` | back-end/src/main/java/com/feedhanjum/back_end/team/service/TeamService.java:67-78 | the new state and result are those of `RemoveTeamMemberStep`, and the invariant is kept |
| `TeamLifecycle.TeamService.DelegateTeamLeader` | back-end/src/main/java/com/feedhanjum/back_end/team/service/TeamService.java:85-94 | the new state and result are those of `DelegateTeamLeaderStep`, and the invariant is kept |
| `TeamLifecycle.TeamService.UpdateTeamInfo` | back-end/src/main/java/com/feedhanjum/back_end/team/service/TeamService.java:101-109 | the new state and result are those of `UpdateTeamInfoStep`, and the invariant is kept |
| `TeamLifecycle.TeamService.LeaveTeam` | back-end/src/main/java/com/feedhanjum/back_end/team/service/TeamService.java:116-130 | the new state and result are those of `LeaveTeamStep`, and the invariant is kept |
| `TeamLifecycle.TeamService.DeleteTeamMemberAndRemainingScheduleMember` | back-end/src/main/java/com/feedhanjum/back_end/team/service/TeamService.java:132-135 | removes exactly the given membership row and writes nothing else |
| `TeamLifecycle.TeamService.DeleteTeam` | back-end/src/main/java/com/feedhanjum/back_end/team/service/TeamService.java:149-151 | records the call by appending the team to `dissolved` and writes nothing else |
| `TimeUtils.NatToString` | front-end/src/utility/time.js:4-6 | `${n}` gives a non-empty string of decimal digits whose first digit is '0' only for 0 |
| `TimeUtils.NatToStringRoundTrip` | front-end/src/utility/time.js:133 | `Number` reads back exactly the integer that `${n}` wrote |
| `TimeUtils.PadStart` | front-end/src/utility/time.js:4-6 | `padStart` keeps the string as a suffix, fills the front with the pad character, and reaches the target length when the string is shorter |
| `TimeUtils.TimeOptions` | front-end/src/utility/time.js:2-8 | the table has exactly 144 entries, and entry i is built from hour `i / 6` and minute `(i % 6) * 10` |
| `TimeUtils.TimeOptionForm` | front-end/src/utility/time.js:2-8 | entry i is five characters: the two digits of `i / 6`, ':', the digit `i % 6`, and '0' |
| `TimeUtils.TimeOptionsBounds` | front-end/src/utility/time.js:1-8 | the table starts at "00:00" and ends at "23:50" |
| `TimeUtils.TimeOptionsIncreasing` | front-end/src/utility/time.js:2-8 | the entries are strictly increasing under string comparison |
| `TimeUtils.Split` | front-end/src/utility/time.js:133 | `split(':')` gives at least one piece, and no piece contains the separator |
| `TimeUtils.JoinSplit` | front-end/src/utility/time.js:133 | joining the pieces of `split` with the separator gives back the original string |
| `TimeUtils.TimeOptionRoundTrip` | front-end/src/utility/time.js:132-133 | the hour and minute `timePickerToDate` reads from entry i of the table are `i / 6` and `(i % 6) * 10` |
| `TimeUtils.CalTimePassedBuckets` | front-end/src/utility/time.js:15-31 | for a distance d in ms: under 60 s gives "방금 전"; under an hour gives floor(d / 1 min) followed by "분 전"; under a day gives floor(d / 1 h) followed by "시간 전"; otherwise floor(d / 1 day) followed by "일 전" |
| `TimeUtils.CalTimePassedSymmetric` | front-end/src/utility/time.js:18 | the label depends only on the distance, so swapping past and future gives the same label |
| `TimeUtils.ChangeDayNameKnown` | front-end/src/utility/time.js:85-103 | 'Sun' and 0 through 'Sat' and 6 map to 일 through 토 |
| `TimeUtils.ChangeDayNameUnknown` | front-end/src/utility/time.js:85-103 | any argument that is none of those fourteen values maps to the empty string |
| `TimeUtils.TimeInPeriodInclusive` | front-end/src/utility/time.js:112-117 | both ends of a period are inside it |
| `TimeUtils.TimeInPeriodReversedIsEmpty` | front-end/src/utility/time.js:112-117 | a period that ends before it starts contains no instant |
| `TimeUtils.ToKST` | front-end/src/utility/time.js:143-147 | the shifted instant is exactly 9 × 3600 × 1000 = 32,400,000 ms later |
| `TimeUtils.ToKSTPreservesComparisons` | front-end/src/utility/time.js:143-147 | shifting all instants to KST changes neither the elapsed-time label nor the period test |

## Left out

- Concurrency and locking. `TeamService` reads teams with a plain `findById`, and the forced-version-bump read of `TeamRepository` is never called. Each operation is modelled as one atomic step, and there is no conflict or retry outcome.
- Transactions and persistence. The repositories, query classes and JPA entity mappings are the fields of the model's store. The team store's generated identities are modelled by a counter, `nextTeamId`.
- `getTeam` and `getMyTeams` are read-only pass-throughs to the repositories.
- The clean-up of a removed member's schedule entries and the body of `deleteTeam` are empty placeholders in the source. The first is not modelled. The second is recorded as a dissolution event, and the team record stays.
- Null arguments are not modelled. This covers a null identity, a null start date, and a null team or member entity.
- Java `Long` identities and counts are unbounded integers. The counts stay far below 2^63.
- `LocalDate` values are day numbers. Only their strict order is used.
- The member directory is read only. Member profiles, controllers, DTO glue, `RetrospectService` and the React UI are not part of this model.
- `getDateInfo`, `getRecentSunday`, `getScheduleTimeDiff` and `checkIsFinished` are not modelled. They depend on calendar and time-zone rules of JavaScript `Date` and on the wall clock.
- The `Date` that `timePickerToDate` builds from the hour and minute is not modelled. Only the "HH:MM" split and the number conversion are.
- Invalid dates (`NaN` times) and the ±8.64e15 ms range of JavaScript `Date` are not modelled. Instants are unbounded integers.
- TimeUtils.ToNumber: models `Number` only on strings of decimal digits and the empty string. It returns `None` for every other string, including forms that JavaScript does convert, such as surrounding spaces, a sign, a fraction, an exponent or a hexadecimal prefix.
- TimeUtils.NatToString: gives plain decimal digits for every integer. JavaScript switches to exponent notation from 10^21 upward, which no `Date` difference reaches.
- TimeUtils.ChangeDayName: takes only a string or an integer. The source's other possible arguments (null, non-integer numbers, objects) all give the empty string, because they match none of the fourteen values.
- TimeUtils.LexLess: compares characters, while JavaScript compares UTF-16 code units. The two agree on the ASCII strings of the time table.
