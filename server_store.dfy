/// The server as it runs: one mutable record object per user, kept in the
/// `users` map, and the handlers that load (or create) a record and update it
/// in place. Each method is proved against the functions of ServerEngine.
module ServerStore {
  import opened Common
  import opened JsText
  import opened InitData
  import opened ServerEngine

  /// A user's record, updated in place by the handlers.
  class UserRecord {
    const userId: int
    var keys: int
    var tickets: int
    var coins: int
    var cities: seq<City>
    var tasks: seq<Task>

    /// The record's current value.
    function Snapshot(): UserState
      reads this
    {
      UserState(userId, keys, tickets, coins, cities, tasks)
    }

    /// `createDefaultState(userId)`.
    constructor (userId: int)
      ensures Snapshot() == DefaultState(userId)
    {
      this.userId := userId;
      keys, tickets, coins := 0, 0, 0;
      cities := FreshCities(CityList);
      tasks := FreshTasks(TaskDefinitions);
    }

    /// `creditReward(state, reward)`.
    method CreditReward(reward: Reward)
      modifies this
      ensures Snapshot() == Credit(old(Snapshot()), reward)
    {
      keys := keys + OrZero(reward.keys);
      tickets := tickets + OrZero(reward.tickets);
    }

    /// What `/api/city/open` does to a loaded record; `roll` stands for
    /// `Math.floor(Math.random() * n)`.
    method OpenCity(roll: nat -> nat) returns (r: Outcome)
      requires IsRoll(roll)
      modifies this
      ensures r == ServerEngine.OpenCity(old(Snapshot()), roll)
      ensures Snapshot() == Settle(old(Snapshot()), r)
    {
      if keys <= 0 {
        return Err(NotEnoughKeys);
      }
      var unopenedIndices := UnopenedIndices(cities);
      if |unopenedIndices| == 0 {
        return Ok(Snapshot());
      }
      var randomIndex := unopenedIndices[roll(|unopenedIndices|)];
      cities := cities[randomIndex := cities[randomIndex].(isOpen := true)];
      keys := Max(0, keys - 1);
      tickets := tickets + 1;
      r := Ok(Snapshot());
    }

    /// What `/api/task/complete` does to a loaded record.
    method CompleteTask(taskId: string, payload: Option<Meta>, check: SubscriptionCheck) returns (r: Outcome)
      modifies this
      ensures r == ServerEngine.CompleteTask(old(Snapshot()), taskId, payload, check)
      ensures Snapshot() == Settle(old(Snapshot()), r)
    {
      var taskDef := FindDefinition(taskId);
      if taskDef.None? {
        return Err(UnknownTask);
      }
      var userTask := FindTask(tasks, taskId);
      if userTask.None? || tasks[userTask.value].done {
        return Ok(Snapshot());
      }
      if taskDef.value.needsCheck {
        if !check.channelConfigured {
          return Err(ChannelNotConfigured);
        }
        match check.membership
        case LookupFailed =>
          return Err(CheckUnavailable);
        case Status(status) =>
          if status !in SubscribedStatuses {
            return Err(NotSubscribed);
          }
      }
      var i := userTask.value;
      tasks := tasks[i := tasks[i].(done := true, meta := MetaOf(payload))];
      CreditReward(taskDef.value.reward);
      r := Ok(Snapshot());
    }
  }

  /// The in-memory `users` map and the handlers that use it.
  class Store {
    var users: map<int, UserRecord>

    /// Every record sits under its own user id, so no two ids share one.
    ghost predicate Valid()
      reads this
    {
      forall u | u in users :: users[u].userId == u
    }

    /// The value of every record in the store.
    function View(): map<int, UserState>
      reads this, users.Values
    {
      map u | u in users :: users[u].Snapshot()
    }

    constructor ()
      ensures Valid() && View() == map[]
    {
      users := map[];
    }

    /// `users.get(userId)`, or a default record stored with `users.set`.
    method GetOrCreate(userId: int) returns (rec: UserRecord)
      requires Valid()
      modifies this
      ensures Valid() && userId in users && users[userId] == rec
      ensures users == old(users)[userId := rec]
      ensures userId in old(users) ==> rec == old(users[userId])
      ensures userId !in old(users) ==> fresh(rec)
      ensures View() == old(View())[userId := GetOrDefault(old(View()), userId)]
    {
      if userId in users {
        rec := users[userId];
      } else {
        rec := new UserRecord(userId);
        users := users[userId := rec];
      }
    }

    /// The body of `/api/auth/verify` once validation gave `caller`.
    method AuthVerifyFor(caller: Option<int>) returns (r: Outcome)
      requires Valid()
      modifies this
      ensures Valid()
      ensures Reply(r, View()) == AuthVerifyRequest(old(View()), caller)
    {
      if caller.None? {
        return Err(InvalidInitData);
      }
      var state := GetOrCreate(caller.value);
      ghost var current := View();
      assert state.Snapshot() == current[caller.value];
      r := Ok(state.Snapshot());
    }

    /// `/api/auth/verify` once the header is present.
    method AuthVerify(env: Env, initData: seq<Param>) returns (r: Outcome)
      requires Valid()
      modifies this
      ensures Valid()
      ensures Reply(r, View()) == AuthVerifyRequest(old(View()), Authenticate(env, initData))
    {
      var caller := AuthenticateRequest(env, initData);
      ViewUnchanged();
      r := AuthVerifyFor(caller);
    }

    /// `/api/auth/verify`; `header` is `None` when the header is absent or
    /// empty, which is refused before any validation.
    method AuthVerifyHeader(env: Env, header: Option<seq<Param>>) returns (r: Outcome)
      requires Valid()
      modifies this
      ensures Valid()
      ensures header.None? ==> r == Err(MissingHeader) && users == old(users)
      ensures header.Some? ==> Reply(r, View()) == AuthVerifyRequest(old(View()), Authenticate(env, header.value))
    {
      if header.None? {
        return Err(MissingHeader);
      }
      r := AuthVerify(env, header.value);
    }

    /// The body of `/api/city/open` once validation gave `caller`.
    method OpenCityFor(caller: Option<int>, roll: nat -> nat) returns (r: Outcome)
      requires Valid() && IsRoll(roll)
      modifies this, users.Values
      ensures Valid()
      ensures Reply(r, View()) == OpenCityRequest(old(View()), caller, roll)
    {
      if caller.None? {
        return Err(InvalidInitData);
      }
      var userId := caller.value;
      var state := GetOrCreate(userId);
      label created:
      ghost var current := View();
      ghost var loaded := state.Snapshot();
      assert loaded == GetOrDefault(old(View()), userId) by {
        assert loaded == current[userId];
      }
      r := state.OpenCity(roll);
      UpdatedOne@created(current, userId, state);
      UpdateTwice(old(View()), userId, loaded, state.Snapshot());
    }

    /// `/api/city/open`; `roll` stands for `Math.floor(Math.random() * n)`.
    /// An absent header is validated as the empty string, which has no pairs.
    method OpenCity(env: Env, initData: seq<Param>, roll: nat -> nat) returns (r: Outcome)
      requires Valid() && IsRoll(roll)
      modifies this, users.Values
      ensures Valid()
      ensures Reply(r, View()) == OpenCityRequest(old(View()), Authenticate(env, initData), roll)
    {
      var caller := AuthenticateRequest(env, initData);
      ViewUnchanged();
      r := OpenCityFor(caller, roll);
    }

    /// The body of `/api/task/complete` once validation gave `caller`.
    method CompleteTaskFor(caller: Option<int>, taskId: string, payload: Option<Meta>, check: SubscriptionCheck)
      returns (r: Outcome)
      requires Valid()
      modifies this, users.Values
      ensures Valid()
      ensures Reply(r, View()) == CompleteTaskRequest(old(View()), caller, taskId, payload, check)
    {
      if caller.None? {
        return Err(InvalidInitData);
      }
      var userId := caller.value;
      var state := GetOrCreate(userId);
      label created:
      ghost var current := View();
      ghost var loaded := state.Snapshot();
      assert loaded == GetOrDefault(old(View()), userId) by {
        assert loaded == current[userId];
      }
      r := state.CompleteTask(taskId, payload, check);
      UpdatedOne@created(current, userId, state);
      UpdateTwice(old(View()), userId, loaded, state.Snapshot());
    }

    /// `/api/task/complete`; `check` is what the subscription check sees.
    method CompleteTask(env: Env, initData: seq<Param>, taskId: string, payload: Option<Meta>,
                        check: SubscriptionCheck) returns (r: Outcome)
      requires Valid()
      modifies this, users.Values
      ensures Valid()
      ensures Reply(r, View()) == CompleteTaskRequest(old(View()), Authenticate(env, initData), taskId, payload, check)
    {
      var caller := AuthenticateRequest(env, initData);
      ViewUnchanged();
      r := CompleteTaskFor(caller, taskId, payload, check);
    }

    /// The referral branch of `/start` sent by `callerId`.
    method Start(callerId: int, payload: string)
      requires Valid()
      modifies this, users.Values
      ensures Valid()
      ensures View() == Referral(old(View()), callerId, payload)
    {
      if StartsWith(payload, ReferralPrefix) {
        var inviterId := ParseInt(payload[|ReferralPrefix|..]);
        if inviterId.Some? && inviterId.value != 0 && inviterId.value != callerId {
          if callerId !in users {
            assert ReferralInviter(old(View()), callerId, payload) == inviterId;
            CreditInviter(inviterId.value);
          }
        }
      }
    }

    /// The inviter's record, created if absent, is credited the referral reward.
    method CreditInviter(inviterId: int)
      requires Valid()
      modifies this, users.Values
      ensures Valid()
      ensures View() == old(View())[inviterId := Credit(GetOrDefault(old(View()), inviterId), ReferralReward)]
    {
      var inviterState := GetOrCreate(inviterId);
      label created:
      ghost var current := View();
      ghost var loaded := inviterState.Snapshot();
      assert loaded == GetOrDefault(old(View()), inviterId) by {
        assert loaded == current[inviterId];
      }
      inviterState.CreditReward(ReferralReward);
      UpdatedOne@created(current, inviterId, inviterState);
      UpdateTwice(old(View()), inviterId, loaded, inviterState.Snapshot());
    }

    /// A step that changed no field leaves the store's view and validity as they were.
    twostate lemma ViewUnchanged()
      requires unchanged(this) && forall u | u in users :: unchanged(users[u])
      ensures View() == old(View()) && Valid() == old(Valid())
    {
      assert users == old(users);
      forall u | u in users
        ensures users[u].Snapshot() == old(View())[u]
      {
      }
    }

    /// Writing a key twice keeps the second value.
    lemma UpdateTwice(m: map<int, UserState>, k: int, a: UserState, b: UserState)
      ensures m[k := a][k := b] == m[k := b]
    {
    }

    /// After one record was changed in place, the store's view differs from
    /// its earlier one only under that record's id.
    twostate lemma UpdatedOne(new loaded: map<int, UserState>, userId: int, new rec: UserRecord)
      requires old(Valid()) && old(userId in users && users[userId] == rec)
      requires loaded == old(View())
      requires users == old(users)
      requires forall u | u in users && u != userId :: unchanged(users[u])
      ensures Valid()
      ensures View() == loaded[userId := rec.Snapshot()]
    {
      forall u | u in users && u != userId
        ensures users[u].Snapshot() == loaded[u]
      {
      }
    }
  }
}
