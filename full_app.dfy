/// The local fallback of the visa-run-full front-end: its default state,
/// `earn`, and the `setState` updaters of `openRandomCity` and
/// `completeTask`, each a function from the old state to the new one.
module FullApp {
  import opened Common

  const DefaultCities: seq<string> :=
    ["Джохор", "Бангкок", "Куала Лумпур", "Сингапур", "Алматы", "Дубай", "Хошимин", "Манила", "Тайбэй"]

  datatype TaskDef = TaskDef(id: string, title: string, reward: Reward, needsCheck: bool)

  /// Unlike the server's, these rewards carry coins.
  const TaskDefs: seq<TaskDef> := [
    TaskDef("subscribe", "Подписаться на канал", Reward(Some(1), Some(1), Some(5)), true),
    TaskDef("pin_bot", "Закрепить бота", Reward(Some(1), Some(1), Some(5)), false),
    TaskDef("invite_friend", "Пригласить друга", Reward(Some(1), Some(1), Some(10)), false),
    TaskDef("send_route", "Отправить маршрут", Reward(Some(1), Some(1), Some(5)), false),
    TaskDef("mini_quiz", "Пройти мини\U{2011}квиз", Reward(Some(1), Some(1), Some(10)), false)
  ]

  /// A task entry starts as `{ id, done }`; completion adds a `meta` field.
  datatype Task = Task(id: string, done: bool, meta: Option<Meta>)

  datatype State = State(keys: int, tickets: int, coins: int, cities: seq<City>, tasks: seq<Task>)

  /// The default branch of `loadInitialState`: no currency, every city
  /// closed in list order, every defined task pending in definition order.
  function InitialState(): (s: State)
    ensures s.keys == 0 && s.tickets == 0 && s.coins == 0
    ensures |s.cities| == |DefaultCities|
    ensures forall i :: 0 <= i < |DefaultCities| ==> s.cities[i] == City(DefaultCities[i], false)
    ensures |s.tasks| == |TaskDefs|
    ensures forall i :: 0 <= i < |TaskDefs| ==> s.tasks[i] == Task(TaskDefs[i].id, false, None)
  {
    State(0, 0, 0, FreshCities(DefaultCities),
          seq(|TaskDefs|, i requires 0 <= i < |TaskDefs| => Task(TaskDefs[i].id, false, None)))
  }

  /// `earn(reward)`: adds each field of the bundle, a missing one as 0, and
  /// leaves the cities and the tasks alone.
  function Earn(s: State, reward: Reward): (r: State)
    ensures r.keys - s.keys == OrZero(reward.keys)
    ensures r.tickets - s.tickets == OrZero(reward.tickets)
    ensures r.coins - s.coins == OrZero(reward.coins)
    ensures r.cities == s.cities && r.tasks == s.tasks
  {
    s.(keys := s.keys + OrZero(reward.keys),
       tickets := s.tickets + OrZero(reward.tickets),
       coins := s.coins + OrZero(reward.coins))
  }

  /// Two queued `earn` updaters give the same state in either order.
  lemma EarnCommutes(s: State, a: Reward, b: Reward)
    ensures Earn(Earn(s, a), b) == Earn(Earn(s, b), a)
  {
  }

  /// The local branch of `openRandomCity`; `roll` stands for
  /// `Math.floor(Math.random() * n)`.
  function OpenRandomCity(s: State, roll: nat -> nat): (r: State)
    requires IsRoll(roll)
    ensures s.keys <= 0 ==> r == s
    ensures UnopenedIndices(s.cities) == [] ==> r == s
    ensures s.keys > 0 && UnopenedIndices(s.cities) != [] ==>
      OpensExactlyOne(s.cities, r.cities) &&
      |UnopenedIndices(r.cities)| == |UnopenedIndices(s.cities)| - 1 &&
      r.keys == s.keys - 1 && r.keys >= 0 && r.tickets == s.tickets + 1 &&
      r.coins == s.coins && r.tasks == s.tasks
  {
    if s.keys <= 0 then s
    else
      var unopened := UnopenedIndices(s.cities);
      if |unopened| == 0 then s
      else
        var i := unopened[roll(|unopened|)];
        OpenTileShrinksUnopened(s.cities, i);
        s.(cities := OpenTile(s.cities, i), keys := Max(0, s.keys - 1), tickets := s.tickets + 1)
  }

  /// `TASK_DEFS.find((t) => t.id === taskId)`.
  function FindDef(taskId: string): (r: Option<TaskDef>)
    ensures r.None? <==> forall i :: 0 <= i < |TaskDefs| ==> TaskDefs[i].id != taskId
    ensures r.Some? ==> r.value.id == taskId && r.value in TaskDefs
  {
    match FindIndex(TaskDefs, (d: TaskDef) => d.id == taskId)
    case None => None
    case Some(i) => Some(TaskDefs[i])
  }

  /// `s.tasks.find((t) => t.id === taskId)?.done`.
  predicate AlreadyDone(tasks: seq<Task>, taskId: string) {
    match FindIndex(tasks, (t: Task) => t.id == taskId)
    case None => false
    case Some(i) => tasks[i].done
  }

  /// `tasks.map((t) => (t.id === taskId ? { ...t, done: true, meta } : t))`:
  /// every entry with that id is completed with `meta`, the others are kept.
  function MarkDone(tasks: seq<Task>, taskId: string, meta: Meta): (r: seq<Task>)
    ensures |r| == |tasks|
    ensures forall i :: 0 <= i < |tasks| && tasks[i].id == taskId ==> r[i] == Task(taskId, true, Some(meta))
    ensures forall i :: 0 <= i < |tasks| && tasks[i].id != taskId ==> r[i] == tasks[i]
  {
    seq(|tasks|, i requires 0 <= i < |tasks| =>
      if tasks[i].id == taskId then tasks[i].(done := true, meta := Some(meta)) else tasks[i])
  }

  /// The local branch of `completeTask` as written: the task-list updater
  /// ignores a task already done, but the `earn` updater queued after it
  /// runs for every known id.
  function CompleteTaskAsWritten(s: State, taskId: string, meta: Meta): (r: State)
    ensures FindDef(taskId).None? ==> r == s
    ensures FindDef(taskId).Some? && AlreadyDone(s.tasks, taskId) ==>
      r == Earn(s, FindDef(taskId).value.reward)
    ensures FindDef(taskId).Some? && !AlreadyDone(s.tasks, taskId) ==>
      r == Earn(s.(tasks := MarkDone(s.tasks, taskId, meta)), FindDef(taskId).value.reward)
  {
    match FindDef(taskId)
    case None => s
    case Some(def) =>
      var marked := if AlreadyDone(s.tasks, taskId) then s else s.(tasks := MarkDone(s.tasks, taskId, meta));
      Earn(marked, def.reward)
  }

  /// As written, completing a task that is already done credits its reward
  /// again while the task list stays as it is.
  lemma RepeatedCompletionCreditsAgain(s: State, taskId: string, meta: Meta, meta': Meta)
    requires FindDef(taskId).Some? && exists i :: 0 <= i < |s.tasks| && s.tasks[i].id == taskId
    ensures var once := CompleteTaskAsWritten(s, taskId, meta);
            var twice := CompleteTaskAsWritten(once, taskId, meta');
            twice.tasks == once.tasks && twice.cities == once.cities &&
            twice.keys == once.keys + 1 && twice.tickets == once.tickets + 1 &&
            twice.coins == once.coins + OrZero(FindDef(taskId).value.reward.coins) &&
            twice.coins > once.coins
  {
    var once := CompleteTaskAsWritten(s, taskId, meta);
    var def := FindDef(taskId).value;
    DefinitionsCredit(def);
    FirstMatchDone(s.tasks, taskId, meta);
    if !AlreadyDone(s.tasks, taskId) {
      assert once.tasks == MarkDone(s.tasks, taskId, meta);
    }
  }

  /// Every definition credits one key, one ticket and some coins.
  lemma DefinitionsCredit(def: TaskDef)
    requires def in TaskDefs
    ensures def.reward.keys == Some(1) && def.reward.tickets == Some(1)
    ensures OrZero(def.reward.coins) > 0
  {
  }

  /// Once an entry with `taskId` exists, the mark leaves the first one done.
  lemma FirstMatchDone(tasks: seq<Task>, taskId: string, meta: Meta)
    requires exists i :: 0 <= i < |tasks| && tasks[i].id == taskId
    ensures AlreadyDone(MarkDone(tasks, taskId, meta), taskId)
  {
    var marked := MarkDone(tasks, taskId, meta);
    var k := FindIndex(marked, (t: Task) => t.id == taskId);
    assert k.Some? by {
      var i :| 0 <= i < |tasks| && tasks[i].id == taskId;
      assert marked[i].id == taskId;
    }
  }

  /// The completion the "if already done, ignore" comment intends: a task
  /// already done credits nothing either.
  function CompleteTask(s: State, taskId: string, meta: Meta): (r: State)
    ensures FindDef(taskId).None? || AlreadyDone(s.tasks, taskId) ==> r == s
    ensures FindDef(taskId).Some? && !AlreadyDone(s.tasks, taskId) ==>
      r == CompleteTaskAsWritten(s, taskId, meta)
  {
    match FindDef(taskId)
    case None => s
    case Some(def) =>
      if AlreadyDone(s.tasks, taskId) then s
      else Earn(s.(tasks := MarkDone(s.tasks, taskId, meta)), def.reward)
  }

  /// With the guard around `earn` too, a completion repeated with any meta
  /// changes nothing, provided the state has an entry for the task.
  lemma CompleteTaskIdempotent(s: State, taskId: string, meta: Meta, meta': Meta)
    requires exists i :: 0 <= i < |s.tasks| && s.tasks[i].id == taskId
    ensures var once := CompleteTask(s, taskId, meta);
            CompleteTask(once, taskId, meta') == once
  {
    if FindDef(taskId).Some? && !AlreadyDone(s.tasks, taskId) {
      FirstMatchDone(s.tasks, taskId, meta);
    }
  }

  /// The state has the default layout, in order, and no negative counter.
  ghost predicate Invariant(s: State) {
    s.keys >= 0 && s.tickets >= 0 && s.coins >= 0 &&
    |s.cities| == |DefaultCities| &&
    (forall i :: 0 <= i < |DefaultCities| ==> s.cities[i].name == DefaultCities[i]) &&
    |s.tasks| == |TaskDefs| &&
    (forall i :: 0 <= i < |TaskDefs| ==> s.tasks[i].id == TaskDefs[i].id)
  }

  lemma InitialStateInvariant()
    ensures Invariant(InitialState())
  {
  }

  /// Opening a city keeps the invariant: keys stay non-negative and the
  /// layout does not change.
  lemma OpenRandomCityKeepsInvariant(s: State, roll: nat -> nat)
    requires IsRoll(roll) && Invariant(s)
    ensures Invariant(OpenRandomCity(s, roll))
  {
    var r := OpenRandomCity(s, roll);
    if r != s {
      var i :| 0 <= i < |s.cities| && !s.cities[i].isOpen && r.cities[i] == City(s.cities[i].name, true) &&
               forall j :: 0 <= j < |s.cities| && j != i ==> r.cities[j] == s.cities[j];
    }
  }

  /// Completion, as written or as intended, keeps the invariant: rewards
  /// are non-negative and the mark keeps every id.
  lemma CompleteTaskKeepsInvariant(s: State, taskId: string, meta: Meta)
    requires Invariant(s)
    ensures Invariant(CompleteTaskAsWritten(s, taskId, meta))
    ensures Invariant(CompleteTask(s, taskId, meta))
  {
    if FindDef(taskId).Some? {
      DefinitionsCredit(FindDef(taskId).value);
      var marked := MarkDone(s.tasks, taskId, meta);
      assert forall i :: 0 <= i < |marked| ==> marked[i].id == s.tasks[i].id;
    }
  }

  /// The definitions' ids are pairwise distinct.
  lemma DefinitionIdsDistinct()
    ensures forall i, j :: 0 <= i < j < |TaskDefs| ==> TaskDefs[i].id != TaskDefs[j].id
  {
  }

  /// In a state with the default layout, completing a pending task touches
  /// exactly one entry: the task's own, which ends done with the given meta.
  lemma CompletionMarksOnlyThatTask(s: State, taskId: string, meta: Meta)
    requires Invariant(s) && FindDef(taskId).Some? && !AlreadyDone(s.tasks, taskId)
    ensures var r := CompleteTaskAsWritten(s, taskId, meta);
      exists i :: 0 <= i < |s.tasks| && s.tasks[i].id == taskId && r.tasks[i] == Task(taskId, true, Some(meta)) &&
        forall j :: 0 <= j < |s.tasks| && j != i ==> r.tasks[j] == s.tasks[j]
  {
    var r := CompleteTaskAsWritten(s, taskId, meta);
    var i :| 0 <= i < |TaskDefs| && TaskDefs[i] == FindDef(taskId).value;
    DefinitionIdsDistinct();
    assert s.tasks[i].id == taskId;
    forall j | 0 <= j < |s.tasks| && j != i
      ensures r.tasks[j] == s.tasks[j]
    {
      assert s.tasks[j].id == TaskDefs[j].id;
    }
  }
}
