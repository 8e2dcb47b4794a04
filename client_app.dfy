/// The local branch of the client front-end: its initial state, `earn`,
/// and the guarded `setState` updaters of `completeTask` and
/// `openRandomCity`, each a function from the old state to the new one.
module ClientApp {
  import opened Common

  const DefaultCities: seq<string> :=
    ["Джохор", "Бангкок", "Куала Лумпур", "Сингапур", "Алматы", "Дубай", "Хошимин", "Манила", "Бишкек"]

  datatype TaskDef = TaskDef(id: string, title: string, reward: Reward)

  const Tasks: seq<TaskDef> := [
    TaskDef("subscribe", "Подпишись на канал", Reward(Some(1), Some(1), Some(0))),
    TaskDef("pin", "Добавь бота в закреп", Reward(Some(1), Some(1), Some(0))),
    TaskDef("invite", "Пригласи друга", Reward(Some(1), Some(1), Some(0))),
    TaskDef("route", "Отправь маршрут", Reward(Some(1), Some(1), Some(0))),
    TaskDef("quiz", "Пройди мини\U{2011}квиз", Reward(Some(1), Some(1), Some(0)))
  ]

  /// A task entry is its definition spread with a `done` flag.
  datatype Task = Task(id: string, title: string, reward: Reward, done: bool)

  datatype State = State(cities: seq<City>, tasks: seq<Task>, keys: int, tickets: int, coins: int)

  /// The state `useState` starts from: no currency, every city closed in
  /// list order, every task pending in definition order.
  function InitialState(): (s: State)
    ensures s.keys == 0 && s.tickets == 0 && s.coins == 0
    ensures |s.cities| == |DefaultCities|
    ensures forall i :: 0 <= i < |DefaultCities| ==> s.cities[i] == City(DefaultCities[i], false)
    ensures |s.tasks| == |Tasks|
    ensures forall i :: 0 <= i < |Tasks| ==> s.tasks[i] == Task(Tasks[i].id, Tasks[i].title, Tasks[i].reward, false)
  {
    State(FreshCities(DefaultCities),
          seq(|Tasks|, i requires 0 <= i < |Tasks| => Task(Tasks[i].id, Tasks[i].title, Tasks[i].reward, false)),
          0, 0, 0)
  }

  /// `earn(reward)`: adds each field of the bundle, a missing one as 0, and
  /// leaves the cities and the tasks alone.
  function Earn(s: State, reward: Reward): (r: State)
    ensures r.keys - s.keys == OrZero(reward.keys)
    ensures r.tickets - s.tickets == OrZero(reward.tickets)
    ensures r.coins - s.coins == OrZero(reward.coins)
    ensures r.cities == s.cities && r.tasks == s.tasks
  {
    s.(keys := s.keys + OrZero(reward.keys),
       tickets := s.tickets + OrZero(reward.tickets),
       coins := s.coins + OrZero(reward.coins))
  }

  /// `TASKS.find((t) => t.id === taskId)`.
  function FindDef(taskId: string): (r: Option<TaskDef>)
    ensures r.None? <==> forall i :: 0 <= i < |Tasks| ==> Tasks[i].id != taskId
    ensures r.Some? ==> r.value.id == taskId && r.value in Tasks
  {
    match FindIndex(Tasks, (d: TaskDef) => d.id == taskId)
    case None => None
    case Some(i) => Some(Tasks[i])
  }

  /// `state.tasks.find((t) => t.id === taskId)?.done`.
  predicate AlreadyDone(tasks: seq<Task>, taskId: string) {
    match FindIndex(tasks, (t: Task) => t.id == taskId)
    case None => false
    case Some(i) => tasks[i].done
  }

  /// `tasks.map((t) => (t.id === taskId ? { ...t, done: true } : t))`.
  function MarkDone(tasks: seq<Task>, taskId: string): (r: seq<Task>)
    ensures |r| == |tasks|
    ensures forall i :: 0 <= i < |tasks| && tasks[i].id == taskId ==> r[i] == tasks[i].(done := true)
    ensures forall i :: 0 <= i < |tasks| && tasks[i].id != taskId ==> r[i] == tasks[i]
  {
    seq(|tasks|, i requires 0 <= i < |tasks| => if tasks[i].id == taskId then tasks[i].(done := true) else tasks[i])
  }

  /// `completeTask(taskId)` outside Telegram: an unknown id or a task
  /// already done changes nothing; otherwise the task is marked and the
  /// definition's reward credited.
  function CompleteTask(s: State, taskId: string): (r: State)
    ensures FindDef(taskId).None? || AlreadyDone(s.tasks, taskId) ==> r == s
    ensures FindDef(taskId).Some? && !AlreadyDone(s.tasks, taskId) ==>
      r.tasks == MarkDone(s.tasks, taskId) && r.cities == s.cities &&
      r.keys == s.keys + 1 && r.tickets == s.tickets + 1 && r.coins == s.coins
  {
    match FindDef(taskId)
    case None => s
    case Some(def) =>
      if AlreadyDone(s.tasks, taskId) then s
      else Earn(s.(tasks := MarkDone(s.tasks, taskId)), def.reward)
  }

  /// Every definition credits one key, one ticket and no coin.
  lemma DefinitionsCredit(def: TaskDef)
    requires def in Tasks
    ensures def.reward == Reward(Some(1), Some(1), Some(0))
  {
  }

  /// Once an entry with `taskId` exists, the mark leaves the first one done.
  lemma FirstMatchDone(tasks: seq<Task>, taskId: string)
    requires exists i :: 0 <= i < |tasks| && tasks[i].id == taskId
    ensures AlreadyDone(MarkDone(tasks, taskId), taskId)
  {
    var marked := MarkDone(tasks, taskId);
    var k := FindIndex(marked, (t: Task) => t.id == taskId);
    assert k.Some? by {
      var i :| 0 <= i < |tasks| && tasks[i].id == taskId;
      assert marked[i].id == taskId;
    }
  }

  /// Local completion is idempotent whenever the state has an entry for the
  /// task (or the id is unknown): the second call meets the guard.
  lemma CompleteTaskIdempotent(s: State, taskId: string)
    requires FindDef(taskId).None? || exists i :: 0 <= i < |s.tasks| && s.tasks[i].id == taskId
    ensures CompleteTask(CompleteTask(s, taskId), taskId) == CompleteTask(s, taskId)
  {
    if FindDef(taskId).Some? && !AlreadyDone(s.tasks, taskId) {
      FirstMatchDone(s.tasks, taskId);
    }
  }

  /// A state without an entry for a known task (one loaded from storage,
  /// say) credits the reward on every call and marks nothing.
  lemma MissingEntryCreditsEachTime(s: State, taskId: string)
    requires FindDef(taskId).Some?
    requires forall i :: 0 <= i < |s.tasks| ==> s.tasks[i].id != taskId
    ensures CompleteTask(s, taskId) == Earn(s, FindDef(taskId).value.reward)
    ensures CompleteTask(s, taskId).tasks == s.tasks
    ensures CompleteTask(CompleteTask(s, taskId), taskId).keys == s.keys + 2
  {
    DefinitionsCredit(FindDef(taskId).value);
    assert MarkDone(s.tasks, taskId) == s.tasks;
  }

  /// The local branch of `openRandomCity`: the guard on the keys, then the
  /// updater; `roll` stands for `Math.floor(Math.random() * n)`.
  function OpenRandomCity(s: State, roll: nat -> nat): (r: State)
    requires IsRoll(roll)
    ensures s.keys <= 0 ==> r == s
    ensures UnopenedIndices(s.cities) == [] ==> r == s
    ensures s.keys > 0 && UnopenedIndices(s.cities) != [] ==>
      OpensExactlyOne(s.cities, r.cities) &&
      |UnopenedIndices(r.cities)| == |UnopenedIndices(s.cities)| - 1 &&
      r.keys == s.keys - 1 && r.keys >= 0 && r.tickets == s.tickets + 1 &&
      r.coins == s.coins && r.tasks == s.tasks
  {
    if s.keys <= 0 then s
    else
      var unopened := UnopenedIndices(s.cities);
      if |unopened| == 0 then s
      else
        var i := unopened[roll(|unopened|)];
        OpenTileShrinksUnopened(s.cities, i);
        s.(cities := OpenTile(s.cities, i), keys := s.keys - 1, tickets := s.tickets + 1)
  }

  /// The state has the initial layout, in order, and no negative counter.
  ghost predicate Invariant(s: State) {
    s.keys >= 0 && s.tickets >= 0 && s.coins >= 0 &&
    |s.cities| == |DefaultCities| &&
    (forall i :: 0 <= i < |DefaultCities| ==> s.cities[i].name == DefaultCities[i]) &&
    |s.tasks| == |Tasks| &&
    (forall i :: 0 <= i < |Tasks| ==> s.tasks[i].id == Tasks[i].id)
  }

  lemma InitialStateInvariant()
    ensures Invariant(InitialState())
  {
  }

  /// Opening a city keeps the invariant; in particular the guard keeps the
  /// keys from going negative.
  lemma OpenRandomCityKeepsInvariant(s: State, roll: nat -> nat)
    requires IsRoll(roll) && Invariant(s)
    ensures Invariant(OpenRandomCity(s, roll))
  {
    var r := OpenRandomCity(s, roll);
    if r != s {
      var i :| 0 <= i < |s.cities| && !s.cities[i].isOpen && r.cities[i] == City(s.cities[i].name, true) &&
               forall j :: 0 <= j < |s.cities| && j != i ==> r.cities[j] == s.cities[j];
    }
  }

  /// Completion keeps the invariant, and in a state that has it every call
  /// after the first is a no-op.
  lemma CompleteTaskKeepsInvariant(s: State, taskId: string)
    requires Invariant(s)
    ensures Invariant(CompleteTask(s, taskId))
    ensures CompleteTask(CompleteTask(s, taskId), taskId) == CompleteTask(s, taskId)
  {
    if FindDef(taskId).Some? {
      DefinitionsCredit(FindDef(taskId).value);
      var marked := MarkDone(s.tasks, taskId);
      assert forall i :: 0 <= i < |marked| ==> marked[i].id == s.tasks[i].id;
      var i :| 0 <= i < |Tasks| && Tasks[i] == FindDef(taskId).value;
      assert s.tasks[i].id == taskId;
    }
    CompleteTaskIdempotent(s, taskId);
  }

  /// The ids of the definitions are pairwise distinct.
  lemma DefinitionIdsDistinct()
    ensures forall i, j :: 0 <= i < j < |Tasks| ==> Tasks[i].id != Tasks[j].id
  {
  }

  /// In a state with the initial layout, completing a pending task marks
  /// exactly one entry, the task's own.
  lemma CompletionMarksOnlyThatTask(s: State, taskId: string)
    requires Invariant(s) && FindDef(taskId).Some? && !AlreadyDone(s.tasks, taskId)
    ensures var r := CompleteTask(s, taskId);
      exists i :: 0 <= i < |s.tasks| && s.tasks[i].id == taskId && r.tasks[i] == s.tasks[i].(done := true) &&
        forall j :: 0 <= j < |s.tasks| && j != i ==> r.tasks[j] == s.tasks[j]
  {
    var r := CompleteTask(s, taskId);
    var i :| 0 <= i < |Tasks| && Tasks[i] == FindDef(taskId).value;
    DefinitionIdsDistinct();
    assert s.tasks[i].id == taskId;
    forall j | 0 <= j < |s.tasks| && j != i
      ensures r.tasks[j] == s.tasks[j]
    {
      assert s.tasks[j].id == Tasks[j].id;
    }
  }
}
