/// Vocabulary shared by the server and the two front-ends: optional values,
/// reward bundles, first-match search and the grid of city tiles.
module Common {

  datatype Option<T> = None | Some(value: T)

  /// A JSON object kept as a task's meta, reduced to its string-valued fields.
  type Meta = map<string, string>

  /// A reward bundle `{ keys, tickets, coins }`; a field the object lacks is `None`.
  datatype Reward = Reward(keys: Option<int>, tickets: Option<int>, coins: Option<int>)

  /// `field || 0` for a numeric field that may be absent.
  function OrZero(field: Option<int>): int {
    match field
    case None => 0
    case Some(n) => n
  }

  /// `Math.max(a, b)` on integers.
  function Max(a: int, b: int): int {
    if a < b then b else a
  }

  /// No field of the bundle takes anything away.
  predicate NonNegative(reward: Reward) {
    OrZero(reward.keys) >= 0 && OrZero(reward.tickets) >= 0 && OrZero(reward.coins) >= 0
  }

  /// `Array.prototype.findIndex`: the first position whose element satisfies `p`.
  function FindIndex<T>(xs: seq<T>, p: T -> bool): (r: Option<nat>)
    ensures r.Some? ==> r.value < |xs| && p(xs[r.value])
    ensures r.Some? ==> forall j :: 0 <= j < r.value ==> !p(xs[j])
    ensures r.None? ==> forall j :: 0 <= j < |xs| ==> !p(xs[j])
  {
    if xs == [] then None
    else if p(xs[0]) then Some(0)
    else
      match FindIndex(xs[1..], p)
      case None => None
      case Some(i) => Some(i + 1)
  }

  // ---------------------------------------------------------------------------
  // City tiles

  /// A tile of the grid; `isOpen` is the source's `opened` flag (`opened` is a Dafny keyword).
  datatype City = City(name: string, isOpen: bool)

  /// `names.map((name) => ({ name, opened: false }))`.
  function FreshCities(names: seq<string>): (cities: seq<City>)
    ensures |cities| == |names|
    ensures forall i :: 0 <= i < |names| ==> cities[i] == City(names[i], false)
  {
    seq(|names|, i requires 0 <= i < |names| => City(names[i], false))
  }

  /// The positions of the tiles still closed, in grid order:
  /// `cities.map((c, i) => ({ ...c, i })).filter((c) => !c.opened)`, keeping `i`.
  function UnopenedIndices(cities: seq<City>): (r: seq<nat>)
    ensures forall k :: 0 <= k < |r| ==> r[k] < |cities| && !cities[r[k]].isOpen
    ensures forall i :: 0 <= i < |cities| && !cities[i].isOpen ==> i in r
    ensures forall k, l :: 0 <= k < l < |r| ==> r[k] < r[l]
  {
    if cities == [] then []
    else
      var front := UnopenedIndices(cities[..|cities| - 1]);
      if cities[|cities| - 1].isOpen then front else front + [|cities| - 1]
  }

  /// `cities[i] = { ...cities[i], opened: true }` on a copy of the grid.
  function OpenTile(cities: seq<City>, i: nat): seq<City>
    requires i < |cities|
  {
    cities[i := cities[i].(isOpen := true)]
  }

  /// `after` is `before` with exactly one closed tile opened, names untouched.
  ghost predicate OpensExactlyOne(before: seq<City>, after: seq<City>) {
    |after| == |before| &&
    exists i :: 0 <= i < |before| && !before[i].isOpen &&
      after[i] == City(before[i].name, true) &&
      forall j :: 0 <= j < |before| && j != i ==> after[j] == before[j]
  }

  /// Opening one closed tile opens that tile and no other.
  lemma OpenTileOpensExactlyOne(cities: seq<City>, i: nat)
    requires i < |cities| && !cities[i].isOpen
    ensures OpensExactlyOne(cities, OpenTile(cities, i))
  {
    var after := OpenTile(cities, i);
    assert after[i] == City(cities[i].name, true);
    assert forall j :: 0 <= j < |cities| && j != i ==> after[j] == cities[j];
  }

  /// Opening one closed tile leaves one closed tile fewer.
  lemma {:induction false} OpenTileCountsDown(cities: seq<City>, i: nat)
    requires i < |cities| && !cities[i].isOpen
    ensures |UnopenedIndices(OpenTile(cities, i))| == |UnopenedIndices(cities)| - 1
    decreases |cities|
  {
    var n := |cities|;
    var after := OpenTile(cities, i);
    var front := UnopenedIndices(cities[..n - 1]);
    if i == n - 1 {
      assert after[..n - 1] == cities[..n - 1];
      assert after[n - 1].isOpen;
      assert UnopenedIndices(after) == front;
      assert UnopenedIndices(cities) == front + [n - 1];
    } else {
      assert after[..n - 1] == OpenTile(cities[..n - 1], i);
      assert after[n - 1] == cities[n - 1];
      OpenTileCountsDown(cities[..n - 1], i);
    }
  }

  /// Opening one closed tile removes exactly that tile from the closed ones.
  lemma OpenTileShrinksUnopened(cities: seq<City>, i: nat)
    requires i < |cities| && !cities[i].isOpen
    ensures |UnopenedIndices(OpenTile(cities, i))| == |UnopenedIndices(cities)| - 1
    ensures OpensExactlyOne(cities, OpenTile(cities, i))
  {
    OpenTileCountsDown(cities, i);
    OpenTileOpensExactlyOne(cities, i);
  }

  /// `Math.floor(Math.random() * n)`, as a function of the number `n` of
  /// candidates: asked for at least one, it answers a position below `n`.
  ghost predicate IsRoll(roll: nat -> nat) {
    forall n: nat :: 0 < n ==> roll(n) < n
  }
}
