/// The per-user progression record of server.js and the state logic of its
/// handlers, as functions from the old record to the outcome: creation
/// (`createDefaultState`), reward credit (`creditReward`), the random city
/// reveal of `/api/city/open`, the completion of `/api/task/complete` and the
/// referral credit of the bot's `/start` command. The in-place versions the
/// server runs are in module ServerStore and are proved against these.
module ServerEngine {
  import opened Common
  import opened JsText

  const CityList: seq<string> :=
    ["Джохор", "Бангкок", "Куала Лумпур", "Сингапур", "Алматы", "Дубай", "Хошимин", "Манила", "Тайбэй"]

  /// `caption` is the source's `label` field (`label` is a Dafny keyword).
  datatype TaskDefinition = TaskDefinition(id: string, caption: string, reward: Reward, needsCheck: bool)

  /// The server's rewards carry keys and tickets only.
  const TaskDefinitions: seq<TaskDefinition> := [
    TaskDefinition("subscribe", "Подпишись на канал", Reward(Some(1), Some(1), None), true),
    TaskDefinition("pin_bot", "Добавь бота в закреп", Reward(Some(1), Some(1), None), false),
    TaskDefinition("invite_friend", "Пригласи 1 друга", Reward(Some(1), Some(1), None), false),
    TaskDefinition("send_route", "Отправь маршрут, откуда ты обычно летаешь", Reward(Some(1), Some(0), None), false),
    TaskDefinition("mini_quiz", "Пройди мини\U{2011}квиз", Reward(Some(1), Some(1), None), false)
  ]

  datatype Task = Task(id: string, caption: string, done: bool, meta: Meta)

  datatype UserState = UserState(
    userId: int,
    keys: int,
    tickets: int,
    coins: int,
    cities: seq<City>,
    tasks: seq<Task>)

  // ---------------------------------------------------------------------------
  // Creation and credit

  /// `TASK_DEFINITIONS.map((t) => ({ id: t.id, label: t.label, done: false, meta: {} }))`.
  function FreshTasks(defs: seq<TaskDefinition>): (tasks: seq<Task>)
    ensures |tasks| == |defs|
    ensures forall i :: 0 <= i < |defs| ==> tasks[i] == Task(defs[i].id, defs[i].caption, false, map[])
  {
    seq(|defs|, i requires 0 <= i < |defs| => Task(defs[i].id, defs[i].caption, false, map[]))
  }

  /// `createDefaultState`: no currency, every city closed in list order, every
  /// defined task pending in definition order with empty meta.
  function DefaultState(userId: int): (s: UserState)
    ensures s.userId == userId && s.keys == 0 && s.tickets == 0 && s.coins == 0
    ensures |s.cities| == |CityList|
    ensures forall i :: 0 <= i < |CityList| ==> s.cities[i] == City(CityList[i], false)
    ensures |s.tasks| == |TaskDefinitions|
    ensures forall i :: 0 <= i < |TaskDefinitions| ==>
              s.tasks[i] == Task(TaskDefinitions[i].id, TaskDefinitions[i].caption, false, map[])
  {
    UserState(userId, 0, 0, 0, FreshCities(CityList), FreshTasks(TaskDefinitions))
  }

  /// `creditReward`: adds `reward.keys || 0` and `reward.tickets || 0`; the
  /// bundle's coins are not read.
  function Credit(s: UserState, reward: Reward): UserState {
    s.(keys := s.keys + OrZero(reward.keys), tickets := s.tickets + OrZero(reward.tickets))
  }

  /// The record the store holds for `userId`, or the one it would create.
  function GetOrDefault(users: map<int, UserState>, userId: int): UserState {
    if userId in users then users[userId] else DefaultState(userId)
  }

  // ---------------------------------------------------------------------------
  // The invariant every record keeps, and the order in which records advance

  /// The record has the layout of the definitions, no negative counter, and
  /// a task's meta stays empty until it is completed.
  ghost predicate Invariant(s: UserState) {
    s.keys >= 0 && s.tickets >= 0 && s.coins >= 0 &&
    |s.cities| == |CityList| &&
    (forall i :: 0 <= i < |CityList| ==> s.cities[i].name == CityList[i]) &&
    |s.tasks| == |TaskDefinitions| &&
    (forall i :: 0 <= i < |TaskDefinitions| ==>
       s.tasks[i].id == TaskDefinitions[i].id && s.tasks[i].caption == TaskDefinitions[i].caption) &&
    (forall i :: 0 <= i < |s.tasks| && !s.tasks[i].done ==> s.tasks[i].meta == map[])
  }

  /// `b` is a later stage of `a`: the same user and layout, no city closed
  /// again, no task undone, the meta of a done task never rewritten, tickets
  /// never lost and coins never touched by the server.
  ghost predicate Advances(a: UserState, b: UserState) {
    b.userId == a.userId && |b.cities| == |a.cities| && |b.tasks| == |a.tasks| &&
    (forall i :: 0 <= i < |a.cities| ==>
       b.cities[i].name == a.cities[i].name && (a.cities[i].isOpen ==> b.cities[i].isOpen)) &&
    (forall i :: 0 <= i < |a.tasks| ==>
       b.tasks[i].id == a.tasks[i].id && b.tasks[i].caption == a.tasks[i].caption &&
       (a.tasks[i].done ==> b.tasks[i] == a.tasks[i])) &&
    b.tickets >= a.tickets && b.coins == a.coins
  }

  lemma AdvancesTransitive(a: UserState, b: UserState, c: UserState)
    requires Advances(a, b) && Advances(b, c)
    ensures Advances(a, c)
  {
  }

  lemma DefaultStateInvariant(userId: int)
    ensures Invariant(DefaultState(userId))
  {
  }

  /// `creditReward` adds each field of any bundle (a missing one as 0) to any
  /// record and changes nothing but keys and tickets.
  lemma CreditAdds(s: UserState, reward: Reward)
    ensures Credit(s, reward).keys == s.keys + OrZero(reward.keys)
    ensures Credit(s, reward).tickets == s.tickets + OrZero(reward.tickets)
    ensures Credit(s, reward).(keys := s.keys, tickets := s.tickets) == s
  {
  }

  /// Crediting a definition's (non-negative) reward keeps the invariant,
  /// advances the record and changes nothing but keys and tickets.
  lemma CreditAdvances(s: UserState, reward: Reward)
    requires Invariant(s) && NonNegative(reward)
    ensures Invariant(Credit(s, reward)) && Advances(s, Credit(s, reward))
    ensures Credit(s, reward).keys == s.keys + OrZero(reward.keys)
    ensures Credit(s, reward).tickets == s.tickets + OrZero(reward.tickets)
    ensures Credit(s, reward).(keys := s.keys, tickets := s.tickets) == s
  {
  }

  // ---------------------------------------------------------------------------
  // Outcomes of the handlers

  /// The failures a handler answers with; each leaves the record as it was.
  datatype Error =
    | MissingHeader          // 400 when `/api/auth/verify` gets no init data
    | InvalidInitData        // 401 'Invalid initData'
    | NotEnoughKeys          // 400 on `keys <= 0`
    | UnknownTask            // 400 'Unknown task'
    | ChannelNotConfigured   // 500 when CHANNEL_ID is unset
    | NotSubscribed          // 400 when the member status is not a subscriber's
    | CheckUnavailable       // 500 when `getChatMember` throws

  datatype Outcome = Ok(state: UserState) | Err(error: Error)

  /// The record a handler leaves behind: the new one, or the old one on error.
  function Settle(s: UserState, o: Outcome): UserState {
    match o
    case Ok(t) => t
    case Err(_) => s
  }

  // ---------------------------------------------------------------------------
  // `/api/city/open`

  /// The state logic of `/api/city/open` after authentication; `roll` stands
  /// for `Math.floor(Math.random() * n)`.
  function OpenCity(s: UserState, roll: nat -> nat): (r: Outcome)
    requires IsRoll(roll)
    ensures r.Err? <==> s.keys <= 0
    ensures r.Err? ==> r.error == NotEnoughKeys
    ensures r.Ok? && UnopenedIndices(s.cities) == [] ==> r.state == s
    ensures r.Ok? && UnopenedIndices(s.cities) != [] ==>
      OpensExactlyOne(s.cities, r.state.cities) &&
      |UnopenedIndices(r.state.cities)| == |UnopenedIndices(s.cities)| - 1 &&
      r.state.keys == s.keys - 1 && r.state.keys >= 0 &&
      r.state.tickets == s.tickets + 1 &&
      r.state.(cities := s.cities, keys := s.keys, tickets := s.tickets) == s
  {
    if s.keys <= 0 then Err(NotEnoughKeys)
    else
      var unopened := UnopenedIndices(s.cities);
      if |unopened| == 0 then Ok(s)
      else
        var i := unopened[roll(|unopened|)];
        OpenTileShrinksUnopened(s.cities, i);
        Ok(s.(cities := OpenTile(s.cities, i), keys := Max(0, s.keys - 1), tickets := s.tickets + 1))
  }

  /// Once every city is open, a call with keys to spend changes nothing.
  lemma OpenCityWhenAllOpen(s: UserState, roll: nat -> nat)
    requires IsRoll(roll) && s.keys > 0
    requires forall i :: 0 <= i < |s.cities| ==> s.cities[i].isOpen
    ensures OpenCity(s, roll) == Ok(s)
  {
  }

  /// Every closed city is the one some roll reveals.
  lemma OpenCityCanRevealAny(s: UserState, i: nat)
    requires s.keys > 0 && i < |s.cities| && !s.cities[i].isOpen
    ensures exists roll: nat -> nat :: IsRoll(roll) && OpenCity(s, roll).Ok? &&
              OpenCity(s, roll).state.cities == OpenTile(s.cities, i)
  {
    var u := UnopenedIndices(s.cities);
    var k :| 0 <= k < |u| && u[k] == i;
    var roll := (n: nat) => if n == |u| then k else 0;
    assert OpenCity(s, roll).state.cities == OpenTile(s.cities, i);
  }

  lemma OpenCityAdvances(s: UserState, roll: nat -> nat)
    requires IsRoll(roll) && Invariant(s)
    ensures Invariant(Settle(s, OpenCity(s, roll))) && Advances(s, Settle(s, OpenCity(s, roll)))
  {
    var t := Settle(s, OpenCity(s, roll));
    if t != s {
      var i :| 0 <= i < |s.cities| && !s.cities[i].isOpen && t.cities[i] == City(s.cities[i].name, true) &&
               forall j :: 0 <= j < |s.cities| && j != i ==> t.cities[j] == s.cities[j];
    }
  }

  // ---------------------------------------------------------------------------
  // `/api/task/complete`

  const SubscribedStatuses: seq<string> := ["member", "creator", "administrator"]

  /// What `bot.telegram.getChatMember(CHANNEL_ID, userId)` answered.
  datatype Membership = Status(status: string) | LookupFailed

  /// The environment of the subscription check: whether CHANNEL_ID is set and
  /// what the membership lookup answered.
  datatype SubscriptionCheck = SubscriptionCheck(channelConfigured: bool, membership: Membership)

  /// `TASK_DEFINITIONS.find((t) => t.id === taskId)`.
  function FindDefinition(taskId: string): (r: Option<TaskDefinition>)
    ensures r.None? <==> forall i :: 0 <= i < |TaskDefinitions| ==> TaskDefinitions[i].id != taskId
    ensures r.Some? ==> r.value.id == taskId && r.value in TaskDefinitions
  {
    match FindIndex(TaskDefinitions, (d: TaskDefinition) => d.id == taskId)
    case None => None
    case Some(i) => Some(TaskDefinitions[i])
  }

  /// `state.tasks.find((t) => t.id === taskId)`, as a position.
  function FindTask(tasks: seq<Task>, taskId: string): (r: Option<nat>)
    ensures r.Some? ==> r.value < |tasks| && tasks[r.value].id == taskId
    ensures r.Some? ==> forall j :: 0 <= j < r.value ==> tasks[j].id != taskId
    ensures r.None? ==> forall j :: 0 <= j < |tasks| ==> tasks[j].id != taskId
  {
    FindIndex(tasks, (t: Task) => t.id == taskId)
  }

  /// The user's entry for the task exists and is not done yet.
  predicate Pending(s: UserState, taskId: string) {
    match FindTask(s.tasks, taskId)
    case None => false
    case Some(i) => !s.tasks[i].done
  }

  /// The error the subscription check answers with, if any.
  function CheckFailure(def: TaskDefinition, check: SubscriptionCheck): (r: Option<Error>)
    ensures r.Some? ==> def.needsCheck
    ensures def.needsCheck && !check.channelConfigured ==> r == Some(ChannelNotConfigured)
    ensures def.needsCheck && check.channelConfigured ==>
      (r == Some(CheckUnavailable) <==> check.membership == LookupFailed) &&
      (r == Some(NotSubscribed) <==> check.membership.Status? && check.membership.status !in SubscribedStatuses)
    ensures r.None? <==>
      !def.needsCheck ||
      (check.channelConfigured && check.membership.Status? && check.membership.status in SubscribedStatuses)
  {
    if !def.needsCheck then None
    else if !check.channelConfigured then Some(ChannelNotConfigured)
    else
      match check.membership
      case LookupFailed => Some(CheckUnavailable)
      case Status(status) => if status in SubscribedStatuses then None else Some(NotSubscribed)
  }

  /// `payload || {}`; `None` stands for an absent or falsy payload.
  function MetaOf(payload: Option<Meta>): Meta {
    match payload
    case None => map[]
    case Some(m) => m
  }

  /// `b` is `a` with task `i` completed with `meta` and `reward` credited,
  /// every other task, the cities, the coins and the user untouched.
  ghost predicate CompletedWith(a: UserState, b: UserState, i: nat, meta: Meta, reward: Reward) {
    i < |a.tasks| && |b.tasks| == |a.tasks| &&
    b.tasks[i] == Task(a.tasks[i].id, a.tasks[i].caption, true, meta) &&
    (forall j :: 0 <= j < |a.tasks| && j != i ==> b.tasks[j] == a.tasks[j]) &&
    b.keys == a.keys + OrZero(reward.keys) && b.tickets == a.tickets + OrZero(reward.tickets) &&
    b.coins == a.coins && b.cities == a.cities && b.userId == a.userId
  }

  /// The state logic of `/api/task/complete` after authentication.
  function CompleteTask(s: UserState, taskId: string, payload: Option<Meta>, check: SubscriptionCheck): (r: Outcome)
    ensures FindDefinition(taskId).None? ==> r == Err(UnknownTask)
    ensures FindDefinition(taskId).Some? && !Pending(s, taskId) ==> r == Ok(s)
    ensures FindDefinition(taskId).Some? && Pending(s, taskId) ==>
      var def := FindDefinition(taskId).value;
      match CheckFailure(def, check)
      case Some(e) => r == Err(e)
      case None => r.Ok? && CompletedWith(s, r.state, FindTask(s.tasks, taskId).value, MetaOf(payload), def.reward)
  {
    match FindDefinition(taskId)
    case None => Err(UnknownTask)
    case Some(def) =>
      match FindTask(s.tasks, taskId)
      case None => Ok(s)
      case Some(i) =>
        if s.tasks[i].done then Ok(s)
        else
          match CheckFailure(def, check)
          case Some(e) => Err(e)
          case None =>
            var marked := s.(tasks := s.tasks[i := s.tasks[i].(done := true, meta := MetaOf(payload))]);
            Ok(Credit(marked, def.reward))
  }

  /// Once a completion went through, replaying it, with any payload and any
  /// answer of the subscription check, leaves the record as it is.
  lemma CompleteTaskReplayIsNoOp(s: UserState, taskId: string, payload: Option<Meta>, check: SubscriptionCheck,
                                 payload': Option<Meta>, check': SubscriptionCheck)
    requires CompleteTask(s, taskId, payload, check).Ok?
    ensures var t := CompleteTask(s, taskId, payload, check).state;
            CompleteTask(t, taskId, payload', check') == Ok(t)
  {
    var t := CompleteTask(s, taskId, payload, check).state;
    if Pending(s, taskId) {
      var i := FindTask(s.tasks, taskId).value;
      assert FindTask(t.tasks, taskId) == Some(i) by {
        forall j | 0 <= j < i ensures t.tasks[j].id != taskId {
          assert t.tasks[j] == s.tasks[j];
        }
      }
    }
  }

  /// Completion applied twice settles to the same record as applied once,
  /// whether the first application succeeded or failed.
  lemma CompleteTaskIdempotent(s: UserState, taskId: string, payload: Option<Meta>, check: SubscriptionCheck)
    ensures var once := Settle(s, CompleteTask(s, taskId, payload, check));
            Settle(once, CompleteTask(once, taskId, payload, check)) == once
  {
    if CompleteTask(s, taskId, payload, check).Ok? {
      CompleteTaskReplayIsNoOp(s, taskId, payload, check, payload, check);
    }
  }

  /// No task definition takes anything away.
  lemma DefinitionRewardsNonNegative(def: TaskDefinition)
    requires def in TaskDefinitions
    ensures NonNegative(def.reward) && OrZero(def.reward.keys) == 1
  {
  }

  /// A subscriber completes the `subscribe` task: with the channel
  /// configured and a member, creator or administrator status, a pending
  /// entry is marked done and one key and one ticket are credited.
  lemma SubscriberCompletesSubscribe(s: UserState, status: string, payload: Option<Meta>)
    requires Pending(s, "subscribe") && status in SubscribedStatuses
    ensures var r := CompleteTask(s, "subscribe", payload, SubscriptionCheck(true, Status(status)));
            r.Ok? && r.state.tasks[FindTask(s.tasks, "subscribe").value].done &&
            r.state.keys == s.keys + 1 && r.state.tickets == s.tickets + 1
  {
    var def := FindDefinition("subscribe").value;
    assert def == TaskDefinitions[0];
    assert CheckFailure(def, SubscriptionCheck(true, Status(status))).None?;
  }

  /// Completing a pending task and crediting a non-negative reward keeps
  /// the invariant and advances the record.
  lemma CompletedWithAdvances(a: UserState, b: UserState, i: nat, meta: Meta, reward: Reward)
    requires Invariant(a) && CompletedWith(a, b, i, meta, reward) && NonNegative(reward) && !a.tasks[i].done
    ensures Invariant(b) && Advances(a, b)
  {
    assert forall j :: 0 <= j < |b.tasks| ==>
      b.tasks[j].id == a.tasks[j].id && b.tasks[j].caption == a.tasks[j].caption;
  }

  lemma CompleteTaskAdvances(s: UserState, taskId: string, payload: Option<Meta>, check: SubscriptionCheck)
    requires Invariant(s)
    ensures var t := Settle(s, CompleteTask(s, taskId, payload, check));
            Invariant(t) && Advances(s, t)
  {
    var r := CompleteTask(s, taskId, payload, check);
    if r.Ok? && Pending(s, taskId) && CheckFailure(FindDefinition(taskId).value, check).None? {
      var def := FindDefinition(taskId).value;
      DefinitionRewardsNonNegative(def);
      CompletedWithAdvances(s, r.state, FindTask(s.tasks, taskId).value, MetaOf(payload), def.reward);
    }
  }

  // ---------------------------------------------------------------------------
  // The handlers over the `users` map

  /// What a handler answers, and the `users` map it leaves behind.
  datatype Reply = Reply(outcome: Outcome, users: map<int, UserState>)

  /// `/api/auth/verify`; `caller` is the authenticated user id, `None` when
  /// the init data was refused. The caller's record is created on first
  /// contact and returned.
  function AuthVerifyRequest(users: map<int, UserState>, caller: Option<int>): Reply {
    match caller
    case None => Reply(Err(InvalidInitData), users)
    case Some(userId) =>
      var loaded := GetOrDefault(users, userId);
      Reply(Ok(loaded), users[userId := loaded])
  }

  /// `/api/auth/verify` refuses bad init data without touching the store;
  /// otherwise it answers the caller's record, which a known caller already
  /// had and a new caller gets fresh, and changes nothing else.
  lemma AuthVerifyAnswersRecord(users: map<int, UserState>, caller: Option<int>)
    ensures var r := AuthVerifyRequest(users, caller);
      (caller.None? ==> r == Reply(Err(InvalidInitData), users)) &&
      (caller.Some? ==>
         r.outcome.Ok? && r.users.Keys == users.Keys + {caller.value} &&
         r.users[caller.value] == r.outcome.state &&
         r.users == users[caller.value := r.outcome.state] &&
         (caller.value in users ==> r.users == users) &&
         (caller.value !in users ==> r.outcome.state == DefaultState(caller.value)))
  {
    if caller.Some? && caller.value in users {
      assert users[caller.value := users[caller.value]] == users;
    }
  }

  /// `/api/city/open`: the caller's record is loaded or created, then the
  /// reveal runs on it and whatever it settles to is kept, so even a refused
  /// call leaves the caller with a record.
  function OpenCityRequest(users: map<int, UserState>, caller: Option<int>, roll: nat -> nat): (r: Reply)
    requires IsRoll(roll)
    ensures caller.None? ==> r == Reply(Err(InvalidInitData), users)
    ensures caller.Some? ==>
      r.users.Keys == users.Keys + {caller.value} &&
      r.outcome == OpenCity(GetOrDefault(users, caller.value), roll) &&
      r.users[caller.value] == Settle(GetOrDefault(users, caller.value), r.outcome) &&
      forall u :: u in users && u != caller.value ==> r.users[u] == users[u]
  {
    match caller
    case None => Reply(Err(InvalidInitData), users)
    case Some(userId) =>
      var loaded := GetOrDefault(users, userId);
      var outcome := OpenCity(loaded, roll);
      Reply(outcome, users[userId := Settle(loaded, outcome)])
  }

  /// `/api/task/complete`, with the same load-or-create in front.
  function CompleteTaskRequest(users: map<int, UserState>, caller: Option<int>, taskId: string,
                               payload: Option<Meta>, check: SubscriptionCheck): (r: Reply)
    ensures caller.None? ==> r == Reply(Err(InvalidInitData), users)
    ensures caller.Some? ==>
      r.users.Keys == users.Keys + {caller.value} &&
      r.outcome == CompleteTask(GetOrDefault(users, caller.value), taskId, payload, check) &&
      r.users[caller.value] == Settle(GetOrDefault(users, caller.value), r.outcome) &&
      forall u :: u in users && u != caller.value ==> r.users[u] == users[u]
  {
    match caller
    case None => Reply(Err(InvalidInitData), users)
    case Some(userId) =>
      var loaded := GetOrDefault(users, userId);
      var outcome := CompleteTask(loaded, taskId, payload, check);
      Reply(outcome, users[userId := Settle(loaded, outcome)])
  }

  /// Every record is under its own id and keeps the invariant.
  ghost predicate StoreInvariant(users: map<int, UserState>) {
    forall u :: u in users ==> users[u].userId == u && Invariant(users[u])
  }

  /// A new user cannot open a city (they have no key yet), but the refused
  /// call leaves a fresh record behind.
  lemma OpenCityByNewUser(users: map<int, UserState>, userId: int, roll: nat -> nat)
    requires IsRoll(roll) && userId !in users
    ensures OpenCityRequest(users, Some(userId), roll) ==
            Reply(Err(NotEnoughKeys), users[userId := DefaultState(userId)])
  {
  }

  lemma AuthVerifyKeepsStoreInvariant(users: map<int, UserState>, caller: Option<int>)
    requires StoreInvariant(users)
    ensures StoreInvariant(AuthVerifyRequest(users, caller).users)
  {
    if caller.Some? {
      DefaultStateInvariant(caller.value);
    }
  }

  /// `/api/city/open` keeps the store invariant, and every record it leaves
  /// behind is a later stage of the one it had.
  lemma OpenCityKeepsStoreInvariant(users: map<int, UserState>, caller: Option<int>, roll: nat -> nat)
    requires IsRoll(roll) && StoreInvariant(users)
    ensures var after := OpenCityRequest(users, caller, roll).users;
            StoreInvariant(after) && forall u :: u in users ==> Advances(users[u], after[u])
  {
    if caller.Some? {
      DefaultStateInvariant(caller.value);
      OpenCityAdvances(GetOrDefault(users, caller.value), roll);
    }
  }

  /// `/api/task/complete` keeps the store invariant, and every record it
  /// leaves behind is a later stage of the one it had.
  lemma CompleteTaskKeepsStoreInvariant(users: map<int, UserState>, caller: Option<int>, taskId: string,
                                        payload: Option<Meta>, check: SubscriptionCheck)
    requires StoreInvariant(users)
    ensures var after := CompleteTaskRequest(users, caller, taskId, payload, check).users;
            StoreInvariant(after) && forall u :: u in users ==> Advances(users[u], after[u])
  {
    if caller.Some? {
      DefaultStateInvariant(caller.value);
      CompleteTaskAdvances(GetOrDefault(users, caller.value), taskId, payload, check);
    }
  }

  // ---------------------------------------------------------------------------
  // The referral branch of `/start`

  const ReferralPrefix: string := "ref_"

  const ReferralReward: Reward := Reward(Some(1), Some(1), None)

  /// The deep-link payload of the `/link` command: `ref_${userId}`.
  function ReferralPayload(inviterId: int): string {
    ReferralPrefix + IntDecimal(inviterId)
  }

  /// The inviter to credit when `caller` sends `/start payload`, if the
  /// branch fires: the payload starts with `ref_`, what follows parses to a
  /// non-zero id other than the caller's, and the caller has no record yet.
  /// `payload.replace('ref_', '')` drops the first `ref_`, which is the prefix.
  function ReferralInviter(users: map<int, UserState>, caller: int, payload: string): Option<int> {
    if !StartsWith(payload, ReferralPrefix) then None
    else
      match ParseInt(payload[|ReferralPrefix|..])
      case None => None
      case Some(inviter) =>
        if inviter != 0 && inviter != caller && caller !in users then Some(inviter) else None
  }

  /// The store after the referral branch of `/start`: the inviter's record,
  /// created if absent, is credited one key and one ticket.
  function Referral(users: map<int, UserState>, caller: int, payload: string): map<int, UserState> {
    match ReferralInviter(users, caller, payload)
    case None => users
    case Some(inviter) => users[inviter := Credit(GetOrDefault(users, inviter), ReferralReward)]
  }

  /// A link made by `/link` for `inviter`, opened by `caller`, credits the
  /// inviter exactly when the inviter id is non-zero, differs from the
  /// caller's, and the caller is new; nobody else's record changes and the
  /// caller gets none.
  lemma ReferralFromLink(users: map<int, UserState>, caller: int, inviter: int)
    ensures var after := Referral(users, caller, ReferralPayload(inviter));
      if inviter != 0 && inviter != caller && caller !in users then
        after.Keys == users.Keys + {inviter} && caller !in after &&
        after[inviter].keys == GetOrDefault(users, inviter).keys + 1 &&
        after[inviter].tickets == GetOrDefault(users, inviter).tickets + 1 &&
        after[inviter].(keys := GetOrDefault(users, inviter).keys, tickets := GetOrDefault(users, inviter).tickets)
          == GetOrDefault(users, inviter) &&
        forall u :: u in users && u != inviter ==> after[u] == users[u]
      else after == users
  {
    var payload := ReferralPayload(inviter);
    assert StartsWith(payload, ReferralPrefix);
    assert payload[|ReferralPrefix|..] == IntDecimal(inviter);
    ParseIntOfDecimal(inviter);
  }

  /// As written, the invitee is not recorded, so the same new user sending
  /// the same `/start ref_…` again credits the inviter again.
  lemma ReferralRepeatsCredit(users: map<int, UserState>, caller: int, inviter: int)
    requires inviter != 0 && inviter != caller && caller !in users
    ensures var once := Referral(users, caller, ReferralPayload(inviter));
            var twice := Referral(once, caller, ReferralPayload(inviter));
            inviter in once && inviter in twice &&
            twice[inviter].keys == once[inviter].keys + 1 && twice[inviter].tickets == once[inviter].tickets + 1
  {
    ReferralFromLink(users, caller, inviter);
    var once := Referral(users, caller, ReferralPayload(inviter));
    ReferralFromLink(once, caller, inviter);
  }

  /// The referral as its comment intends it: the invitee is recorded when
  /// the inviter is credited, so the caller counts as seen afterwards.
  function ReferralRecordingInvitee(users: map<int, UserState>, caller: int, payload: string): map<int, UserState> {
    match ReferralInviter(users, caller, payload)
    case None => users
    case Some(inviter) =>
      users[inviter := Credit(GetOrDefault(users, inviter), ReferralReward)][caller := DefaultState(caller)]
  }

  /// With the invitee recorded, a repeated `/start` credits nobody.
  lemma ReferralRecordingInviteeIdempotent(users: map<int, UserState>, caller: int, payload: string)
    ensures var once := ReferralRecordingInvitee(users, caller, payload);
            ReferralRecordingInvitee(once, caller, payload) == once
  {
  }

  /// With the invitee recorded, a link opened by a new caller credits the
  /// inviter exactly one key and one ticket, however often it is sent.
  lemma ReferralRecordingInviteeCreditsOnce(users: map<int, UserState>, caller: int, inviter: int)
    requires inviter != 0 && inviter != caller && caller !in users
    ensures var once := ReferralRecordingInvitee(users, caller, ReferralPayload(inviter));
            var twice := ReferralRecordingInvitee(once, caller, ReferralPayload(inviter));
            inviter in twice && caller in twice &&
            twice[inviter].keys == GetOrDefault(users, inviter).keys + 1 &&
            twice[inviter].tickets == GetOrDefault(users, inviter).tickets + 1
  {
    ReferralFromLink(users, caller, inviter);
    ReferralRecordingInviteeIsReferral(users, caller, ReferralPayload(inviter));
    ReferralRecordingInviteeIdempotent(users, caller, ReferralPayload(inviter));
  }

  /// The corrected referral credits as the one written does, and in addition
  /// stores a fresh record for the invitee.
  lemma ReferralRecordingInviteeIsReferral(users: map<int, UserState>, caller: int, payload: string)
    ensures ReferralInviter(users, caller, payload).None? ==>
              ReferralRecordingInvitee(users, caller, payload) == Referral(users, caller, payload) == users
    ensures ReferralInviter(users, caller, payload).Some? ==>
              ReferralRecordingInvitee(users, caller, payload) ==
              Referral(users, caller, payload)[caller := DefaultState(caller)]
  {
  }

  lemma ReferralKeepsInvariant(users: map<int, UserState>, caller: int, payload: string)
    requires forall u :: u in users ==> Invariant(users[u]) && users[u].userId == u
    ensures var after := Referral(users, caller, payload);
            forall u :: u in after ==>
              Invariant(after[u]) && after[u].userId == u && (u in users ==> Advances(users[u], after[u]))
  {
  }
}
