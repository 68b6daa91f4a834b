/** Delayed transfer of privileged roles (access_control/src/transfer.rs, management.rs,
    role.rs, storage.rs, constants.rs). */
module OwnershipTransfer {
  import opened Words

  const ADMIN_ACTIONS_DELAY: nat := 3 * 86400
  const TWO_64: nat := 0x1_00000000_00000000

  datatype Role =
    | Admin
    | EmergencyAdmin
    | RewardsAdmin
    | OperationsAdmin
    | PauseAdmin
    | EmergencyPauseAdmin
    | SystemFeeAdmin

  type Address = string

  predicate HasManyUsers(role: Role)
  {
    role == EmergencyPauseAdmin
  }

  predicate IsTransferDelayed(role: Role)
  {
    role == Admin || role == EmergencyAdmin
  }

  datatype Error =
    | BadRoleUsage
    | AnotherActionActive
    | ActionNotReadyYet
    | NoActionActive
    | ValueNotInitialized
    | TimeOverflow

  datatype Result<+T> = Ok(value: T) | Err(error: Error)

  /** Contract storage: single addresses, address lists, pending addresses and deadlines. */
  datatype Roles = Roles(
    holder: map<Role, Address>, holders: map<Role, seq<Address>>, future: map<Role, Address>, deadline: map<Role, nat>)

  const FRESH: Roles := Roles(map[], map[], map[], map[])

  /** An absent deadline reads as zero, which stands for no pending transfer. */
  function Deadline(s: Roles, role: Role): nat
  {
    if role in s.deadline then s.deadline[role] else 0
  }

  datatype Call =
    | Commit(role: Role, address: Address)
    | Apply(role: Role)
    | Revert(role: Role)
    | SetAddress(role: Role, address: Address)
    | SetAddresses(role: Role, addresses: seq<Address>)

  function AfterCommit(s: Roles, now: nat, role: Role, address: Address): Result<Roles>
  {
    if !IsTransferDelayed(role) || HasManyUsers(role) then Err(BadRoleUsage)
    else if Deadline(s, role) != 0 then Err(AnotherActionActive)
    else if now + ADMIN_ACTIONS_DELAY >= TWO_64 then Err(TimeOverflow)
    else Ok(s.(deadline := s.deadline[role := now + ADMIN_ACTIONS_DELAY], future := s.future[role := address]))
  }

  function AfterApply(s: Roles, now: nat, role: Role): Result<Roles>
  {
    if !IsTransferDelayed(role) then Err(BadRoleUsage)
    else if role in s.holder && now < Deadline(s, role) then Err(ActionNotReadyYet)
    else if Deadline(s, role) == 0 then Err(NoActionActive)
    else if role !in s.future then Err(ValueNotInitialized)
    else Ok(s.(deadline := s.deadline[role := 0], holder := s.holder[role := s.future[role]]))
  }

  function AfterRevert(s: Roles, role: Role): Result<Roles>
  {
    if !IsTransferDelayed(role) then Err(BadRoleUsage)
    else Ok(s.(deadline := s.deadline[role := 0]))
  }

  function AfterSetAddress(s: Roles, role: Role, address: Address): Result<Roles>
  {
    if HasManyUsers(role) || (role in s.holder && IsTransferDelayed(role)) then Err(BadRoleUsage)
    else Ok(s.(holder := s.holder[role := address]))
  }

  function AfterSetAddresses(s: Roles, role: Role, addresses: seq<Address>): Result<Roles>
  {
    if !HasManyUsers(role) || IsTransferDelayed(role) then Err(BadRoleUsage)
    else Ok(s.(holders := s.holders[role := addresses]))
  }

  function Outcome(s: Roles, now: nat, call: Call): Result<Roles>
  {
    match call
    case Commit(role, address) => AfterCommit(s, now, role, address)
    case Apply(role) => AfterApply(s, now, role)
    case Revert(role) => AfterRevert(s, role)
    case SetAddress(role, address) => AfterSetAddress(s, role, address)
    case SetAddresses(role, addresses) => AfterSetAddresses(s, role, addresses)
  }

  // ------------------------------------------------------------------ the contract

  class AccessControl {
    var holder: map<Role, Address>
    var holders: map<Role, seq<Address>>
    var future: map<Role, Address>
    var deadline: map<Role, nat>

    constructor ()
      ensures State() == FRESH
    {
      holder, holders, future, deadline := map[], map[], map[], map[];
    }

    function State(): Roles
      reads this
    {
      Roles(holder, holders, future, deadline)
    }

    /** `get_transfer_ownership_deadline`. */
    method GetDeadline(role: Role) returns (r: Result<nat>)
      ensures r == if IsTransferDelayed(role) then Ok(Deadline(State(), role)) else Err(BadRoleUsage)
    {
      match role {
        case Admin =>
        case EmergencyAdmin =>
        case _ => return Err(BadRoleUsage);
      }
      return Ok(if role in deadline then deadline[role] else 0);
    }

    /** `get_role_safe`: the stored address of a single-user role, if it has one. */
    method GetRoleSafe(role: Role) returns (r: Result<Option<Address>>)
      ensures r.Err? <==> HasManyUsers(role)
      ensures r.Err? ==> r.error == BadRoleUsage
      ensures r.Ok? ==> (r.value.Some? <==> role in holder) && (r.value.Some? ==> r.value.value == holder[role])
    {
      if HasManyUsers(role) {
        return Err(BadRoleUsage);
      }
      return Ok(if role in holder then Some(holder[role]) else None);
    }

    method CommitTransferOwnership(now: nat, role: Role, address: Address) returns (r: Result<()>)
      modifies this`deadline, this`future
      ensures match AfterCommit(old(State()), now, role, address)
        case Ok(s) => r == Ok(()) && State() == s
        case Err(e) => r == Err(e) && State() == old(State())
    {
      if !IsTransferDelayed(role) || HasManyUsers(role) {
        return Err(BadRoleUsage);
      }
      var pending := GetDeadline(role);
      if pending != Ok(0) {
        return Err(AnotherActionActive);
      }
      if now + ADMIN_ACTIONS_DELAY >= TWO_64 {
        return Err(TimeOverflow);
      }
      deadline := deadline[role := now + ADMIN_ACTIONS_DELAY];
      future := future[role := address];
      return Ok(());
    }

    method ApplyTransferOwnership(now: nat, role: Role) returns (r: Result<Address>)
      modifies this`deadline, this`holder
      ensures match AfterApply(old(State()), now, role)
        case Ok(s) => State() == s && role in s.holder && r == Ok(s.holder[role])
        case Err(e) => r == Err(e) && State() == old(State())
    {
      var pending := GetDeadline(role);
      if pending.Err? {
        return Err(pending.error);
      }
      if role in holder && now < pending.value {
        return Err(ActionNotReadyYet);
      }
      if pending.value == 0 {
        return Err(NoActionActive);
      }
      if role !in future {
        return Err(ValueNotInitialized);
      }
      deadline := deadline[role := 0];
      holder := holder[role := future[role]];
      return Ok(future[role]);
    }

    method RevertTransferOwnership(role: Role) returns (r: Result<()>)
      modifies this`deadline
      ensures match AfterRevert(old(State()), role)
        case Ok(s) => r == Ok(()) && State() == s
        case Err(e) => r == Err(e) && State() == old(State())
    {
      if !IsTransferDelayed(role) {
        return Err(BadRoleUsage);
      }
      deadline := deadline[role := 0];
      return Ok(());
    }

    method SetRoleAddress(role: Role, address: Address) returns (r: Result<()>)
      modifies this`holder
      ensures match AfterSetAddress(old(State()), role, address)
        case Ok(s) => r == Ok(()) && State() == s
        case Err(e) => r == Err(e) && State() == old(State())
    {
      var current := GetRoleSafe(role);
      if current.Err? {
        return Err(current.error);
      }
      if current.value.Some? && IsTransferDelayed(role) {
        return Err(BadRoleUsage);
      }
      holder := holder[role := address];
      return Ok(());
    }

    method SetRoleAddresses(role: Role, addresses: seq<Address>) returns (r: Result<()>)
      modifies this`holders
      ensures match AfterSetAddresses(old(State()), role, addresses)
        case Ok(s) => r == Ok(()) && State() == s
        case Err(e) => r == Err(e) && State() == old(State())
    {
      if !HasManyUsers(role) || IsTransferDelayed(role) {
        return Err(BadRoleUsage);
      }
      holders := holders[role := addresses];
      return Ok(());
    }
  }

  // -------------------------------------------------------------------- whole runs

  /** A call and the ledger time it is made at. */
  datatype Event = Event(now: nat, call: Call)

  /** Storage before event `i` of a run from fresh storage; calls that panic change nothing. */
  function StateAt(events: seq<Event>, i: nat): Roles
    requires i <= |events|
  {
    if i == 0 then FRESH
    else
      var s := StateAt(events, i - 1);
      var r := Outcome(s, events[i - 1].now, events[i - 1].call);
      if r.Ok? then r.value else s
  }

  predicate Succeeds(events: seq<Event>, i: nat)
    requires i < |events|
  {
    Outcome(StateAt(events, i), events[i].now, events[i].call).Ok?
  }

  /** Event `i` starts, completes or cancels a transfer of the role. */
  predicate Touches(events: seq<Event>, i: nat, role: Role)
    requires i < |events|
  {
    Succeeds(events, i) &&
    match events[i].call
    case Commit(r, _) => r == role
    case Apply(r) => r == role
    case Revert(r) => r == role
    case _ => false
  }

  /** Event `j` committed the transfer that is still pending before event `i`. */
  ghost predicate PendingFrom(events: seq<Event>, i: nat, role: Role, j: nat)
    requires i <= |events|
  {
    && j < i && Touches(events, j, role) && events[j].call.Commit?
    && (forall k | j < k < i :: !Touches(events, k, role))
    && var s := StateAt(events, i);
       Deadline(s, role) == events[j].now + ADMIN_ACTIONS_DELAY && role in s.future && s.future[role] == events[j].call.address
  }

  /** Every pending transfer was committed by one earlier call that nothing has undone. */
  lemma {:induction false} PendingHasCommit(events: seq<Event>, i: nat, role: Role)
    requires i <= |events| && IsTransferDelayed(role) && Deadline(StateAt(events, i), role) != 0
    ensures exists j: nat :: PendingFrom(events, i, role, j)
  {
    if i > 0 {
      var s, s' := StateAt(events, i - 1), StateAt(events, i);
      if Touches(events, i - 1, role) {
        assert PendingFrom(events, i, role, i - 1);
      } else {
        assert Deadline(s', role) == Deadline(s, role);
        PendingHasCommit(events, i - 1, role);
        var j: nat :| PendingFrom(events, i - 1, role, j);
        assert PendingFrom(events, i, role, j);
      }
    }
  }

  /** Event `i` completes the transfer that event `j` committed, at least three days later. */
  ghost predicate CompletesAfterDelay(events: seq<Event>, i: nat, role: Role, j: nat)
    requires i < |events|
  {
    && PendingFrom(events, i, role, j)
    && events[j].now + ADMIN_ACTIONS_DELAY <= events[i].now
    && role in StateAt(events, i + 1).holder && StateAt(events, i + 1).holder[role] == events[j].call.address
  }

  /** A transfer of a role that has an address waits out its delay. */
  lemma ApplyWaits(events: seq<Event>, i: nat, role: Role) returns (j: nat)
    requires i < |events| && IsTransferDelayed(role) && role in StateAt(events, i).holder
    requires events[i].call == Apply(role) && Succeeds(events, i)
    ensures CompletesAfterDelay(events, i, role, j)
  {
    PendingHasCommit(events, i, role);
    j :| PendingFrom(events, i, role, j);
  }

  /** Once a delayed role has an address, only applying a transfer changes it: to the address
      of a commit made at least three days before, with no other commit, apply or revert for
      the role in between. */
  lemma RoleChangesOnlyByDelayedTransfer(events: seq<Event>, i: nat, role: Role)
    requires i < |events| && IsTransferDelayed(role) && role in StateAt(events, i).holder
    ensures role in StateAt(events, i + 1).holder
    ensures StateAt(events, i + 1).holder[role] != StateAt(events, i).holder[role] ==>
      events[i].call == Apply(role) && exists j: nat :: CompletesAfterDelay(events, i, role, j)
  {
    if StateAt(events, i + 1).holder[role] != StateAt(events, i).holder[role] {
      var j := ApplyWaits(events, i, role);
    }
  }

  /** A role that has an address never loses it. */
  lemma {:induction false} HolderStays(events: seq<Event>, i: nat, k: nat, role: Role)
    requires i <= k <= |events| && role in StateAt(events, i).holder
    ensures role in StateAt(events, k).holder
    decreases k
  {
    if i < k {
      HolderStays(events, i, k - 1, role);
    }
  }

  /** The pending commit comes after whatever else touched the role. */
  lemma PendingIsLatest(events: seq<Event>, i: nat, k: nat, role: Role, j: nat)
    requires i < k <= |events| && PendingFrom(events, k, role, j) && Touches(events, i, role)
    ensures i <= j < k
  {
    hide Touches, StateAt;
  }

  predicate TimeMovesForward(events: seq<Event>)
  {
    forall m, n | 0 <= m <= n < |events| :: events[m].now <= events[n].now
  }

  /** Two transfers of a role that already had an address complete at least three days apart
      when time does not run backwards. */
  lemma TransfersAreSpaced(events: seq<Event>, i: nat, k: nat, role: Role)
    requires i < k < |events| && IsTransferDelayed(role) && role in StateAt(events, i).holder && TimeMovesForward(events)
    requires events[i].call == Apply(role) && Succeeds(events, i)
    requires events[k].call == Apply(role) && Succeeds(events, k)
    ensures events[i].now + ADMIN_ACTIONS_DELAY <= events[k].now
  {
    hide StateAt, Succeeds, TimeMovesForward, PendingFrom;
    HolderStays(events, i, k, role);
    var j := ApplyWaits(events, k, role);
    assert Touches(events, i, role);
    PendingIsLatest(events, i, k, role, j);
    NowGrows(events, i, j);
  }

  lemma NowGrows(events: seq<Event>, m: nat, n: nat)
    requires TimeMovesForward(events) && m <= n < |events|
    ensures events[m].now <= events[n].now
  {
  }
}
