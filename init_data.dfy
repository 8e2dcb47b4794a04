/// Validation of the signed init data a Telegram Web App hands to the server
/// (`validateInitData` in server.js): the data-check string is every
/// `key=value` pair except `hash`, sorted and joined with line feeds; the pairs
/// are accepted when HMAC-SHA-256 (RFC 2104 over FIPS 180-4) keyed with
/// HMAC-SHA-256("WebAppData", bot token), taken over that string and written in
/// lower-case hex, equals `hash`.
///
/// HMAC-SHA-256, UTF-8 encoding and `JSON.parse` of the `user` field are
/// foreign computations: they are the function-valued fields of `Env`.
/// Percent-decoding by `URLSearchParams` is assumed done: the input is the
/// decoded list of pairs in the order they appear.
module InitData {
  import opened Common
  import opened JsText

  type Byte = b: int | 0 <= b < 256

  /// One decoded `key=value` pair of the init data.
  datatype Param = Param(key: string, value: string)

  /// What `JSON.parse` makes of the `user` field: it throws, it yields a falsy
  /// value (or the field is absent or empty), or it yields a user object.
  datatype UserJson = Unparseable | NoUser | User(id: int)

  /// The process secret and the foreign computations validation relies on.
  datatype Env = Env(
    botToken: string,
    hmac: (seq<Byte>, seq<Byte>) -> seq<Byte>,  // HMAC-SHA-256(key, message)
    utf8: string -> seq<Byte>,
    parseUser: string -> UserJson)

  /// `{ user, authDate }`; `authDate` is `None` when `parseInt` gives `NaN`.
  datatype Claims = Claims(user: UserJson, authDate: Option<int>)

  /// `searchParams.get(key)`: the value of the first pair with that key.
  function Get(params: seq<Param>, key: string): (r: Option<string>)
    ensures r.None? <==> forall i :: 0 <= i < |params| ==> params[i].key != key
    ensures r.Some? ==> exists i :: 0 <= i < |params| && params[i] == Param(key, r.value) &&
                                    forall j :: 0 <= j < i ==> params[j].key != key
  {
    match FindIndex(params, (p: Param) => p.key == key)
    case None => None
    case Some(i) => Some(params[i].value)
  }

  lemma GetFirst(params: seq<Param>, i: nat, key: string)
    requires i < |params| && params[i].key == key
    requires forall j :: 0 <= j < i ==> params[j].key != key
    ensures Get(params, key) == Some(params[i].value)
  {
  }

  function Line(p: Param): string {
    p.key + "=" + p.value
  }

  /// The lines the `forEach` loop pushes: `key=value` for every pair whose key
  /// is not `hash`, in input order.
  function CheckLines(params: seq<Param>): seq<string> {
    if params == [] then []
    else
      var last := params[|params| - 1];
      CheckLines(params[..|params| - 1]) + if last.key != "hash" then [Line(last)] else []
  }

  // ---------------------------------------------------------------------------
  // `params.sort()`: JavaScript's default order on strings, code unit by code unit.

  predicate LexLe(a: string, b: string) {
    a == [] || (b != [] && (a[0] < b[0] || (a[0] == b[0] && LexLe(a[1..], b[1..]))))
  }

  predicate Sorted(xs: seq<string>) {
    forall i, j :: 0 <= i < j < |xs| ==> LexLe(xs[i], xs[j])
  }

  lemma {:induction false} LexLeReflexive(a: string)
    ensures LexLe(a, a)
  {
    if a != [] {
      LexLeReflexive(a[1..]);
    }
  }

  lemma {:induction false} LexLeTotal(a: string, b: string)
    ensures LexLe(a, b) || LexLe(b, a)
  {
    if a != [] && b != [] && a[0] == b[0] {
      LexLeTotal(a[1..], b[1..]);
    }
  }

  lemma {:induction false} LexLeAntisymmetric(a: string, b: string)
    requires LexLe(a, b) && LexLe(b, a)
    ensures a == b
  {
    if a != [] && b != [] {
      LexLeAntisymmetric(a[1..], b[1..]);
      assert a == [a[0]] + a[1..] && b == [b[0]] + b[1..];
    }
  }

  /// Insert `x` before the first element it does not exceed.
  function Insert(x: string, xs: seq<string>): seq<string> {
    if xs == [] then [x]
    else if LexLe(x, xs[0]) then [x] + xs
    else [xs[0]] + Insert(x, xs[1..])
  }

  function SortLines(xs: seq<string>): seq<string> {
    if xs == [] then [] else Insert(xs[0], SortLines(xs[1..]))
  }

  lemma {:induction false} InsertPermutes(x: string, xs: seq<string>)
    ensures multiset(Insert(x, xs)) == multiset(xs) + multiset{x}
  {
    if xs != [] && !LexLe(x, xs[0]) {
      InsertPermutes(x, xs[1..]);
      assert xs == [xs[0]] + xs[1..];
    }
  }

  lemma {:induction false} InsertSorted(x: string, xs: seq<string>)
    requires Sorted(xs)
    ensures Sorted(Insert(x, xs))
  {
    if xs == [] {
    } else if LexLe(x, xs[0]) {
      forall j | 0 < j < |xs| + 1 ensures LexLe(x, ([x] + xs)[j]) {
        if j > 1 { LexLeTransitive(x, xs[0], xs[j - 1]); }
      }
    } else {
      var rest := Insert(x, xs[1..]);
      InsertSorted(x, xs[1..]);
      InsertPermutes(x, xs[1..]);
      LexLeTotal(x, xs[0]);
      forall e | e in rest ensures LexLe(xs[0], e) {
        assert e in multiset(rest);
        if e != x {
          assert e in multiset(xs[1..]);
          var k :| 0 <= k < |xs[1..]| && xs[1..][k] == e;
          assert xs[k + 1] == e;
        }
      }
      forall i, j | 0 <= i < j < |rest| + 1 ensures LexLe(([xs[0]] + rest)[i], ([xs[0]] + rest)[j]) {
        if i == 0 { assert rest[j - 1] in rest; }
      }
    }
  }

  lemma {:induction false} LexLeTransitive(a: string, b: string, c: string)
    requires LexLe(a, b) && LexLe(b, c)
    ensures LexLe(a, c)
  {
    if a != [] && b != [] && c != [] && a[0] == b[0] == c[0] {
      LexLeTransitive(a[1..], b[1..], c[1..]);
    }
  }

  lemma {:induction false} SortLinesSorts(xs: seq<string>)
    ensures Sorted(SortLines(xs))
    ensures multiset(SortLines(xs)) == multiset(xs)
  {
    if xs != [] {
      SortLinesSorts(xs[1..]);
      InsertSorted(xs[0], SortLines(xs[1..]));
      InsertPermutes(xs[0], SortLines(xs[1..]));
      assert xs == [xs[0]] + xs[1..];
    }
  }

  lemma HeadIsLeast(xs: seq<string>, e: string)
    requires Sorted(xs) && e in multiset(xs)
    ensures LexLe(xs[0], e)
  {
    var k :| 0 <= k < |xs| && xs[k] == e;
    if k == 0 { LexLeReflexive(e); }
  }

  lemma SameTails(xs: seq<string>, ys: seq<string>)
    requires xs != [] && ys != [] && xs[0] == ys[0] && multiset(xs) == multiset(ys)
    ensures multiset(xs[1..]) == multiset(ys[1..])
  {
    assert xs == [xs[0]] + xs[1..] && ys == [ys[0]] + ys[1..];
    assert multiset(xs[1..]) == multiset(xs) - multiset{xs[0]};
    assert multiset(ys[1..]) == multiset(ys) - multiset{ys[0]};
  }

  lemma SortedTail(xs: seq<string>)
    requires Sorted(xs) && xs != []
    ensures Sorted(xs[1..])
  {
  }

  /// Two sorted lists with the same elements are equal, so the sorted lines do
  /// not depend on the sorting algorithm nor on the order of the pairs.
  lemma {:induction false} SortedUnique(xs: seq<string>, ys: seq<string>)
    requires Sorted(xs) && Sorted(ys) && multiset(xs) == multiset(ys)
    ensures xs == ys
  {
    if xs != [] {
      assert |ys| == |multiset(ys)| == |multiset(xs)| == |xs|;
      var x, y := xs[0], ys[0];
      assert x in multiset(xs) && y in multiset(ys);
      HeadIsLeast(xs, y);
      HeadIsLeast(ys, x);
      LexLeAntisymmetric(x, y);
      SameTails(xs, ys);
      SortedTail(xs);
      SortedTail(ys);
      SortedUnique(xs[1..], ys[1..]);
      assert xs == [x] + xs[1..] && ys == [y] + ys[1..];
    }
  }

  // ---------------------------------------------------------------------------
  // `params.join('\n')`

  function Join(xs: seq<string>, sep: string): string {
    if xs == [] then ""
    else if |xs| == 1 then xs[0]
    else xs[0] + sep + Join(xs[1..], sep)
  }

  predicate NoNewline(s: string) {
    forall i :: 0 <= i < |s| ==> s[i] != '\n'
  }

  /// Lines that a line feed can separate unambiguously.
  predicate Joinable(xs: seq<string>) {
    forall k :: 0 <= k < |xs| ==> xs[k] != [] && NoNewline(xs[k])
  }

  lemma {:induction false} JoinStartsWithHead(xs: seq<string>)
    requires Joinable(xs) && xs != []
    ensures |Join(xs, "\n")| >= |xs[0]| && Join(xs, "\n")[..|xs[0]|] == xs[0]
    ensures |xs| == 1 <==> |Join(xs, "\n")| == |xs[0]|
    ensures |xs| > 1 ==> Join(xs, "\n")[|xs[0]|] == '\n' && Join(xs, "\n")[|xs[0]| + 1..] == Join(xs[1..], "\n")
  {
    if |xs| > 1 {
      assert xs[1..][0] == xs[1];
      JoinStartsWithHead(xs[1..]);
    }
  }

  /// A joined list of non-empty, line-feed-free lines determines the list.
  lemma {:induction false} JoinInjective(xs: seq<string>, ys: seq<string>)
    requires Joinable(xs) && Joinable(ys)
    requires Join(xs, "\n") == Join(ys, "\n")
    ensures xs == ys
  {
    var joined := Join(xs, "\n");
    if xs == [] || ys == [] {
      if xs != [] { JoinStartsWithHead(xs); }
      if ys != [] { JoinStartsWithHead(ys); }
    } else {
      JoinStartsWithHead(xs);
      JoinStartsWithHead(ys);
      var x, y := xs[0], ys[0];
      assert x == y;
      if |xs| > 1 && |ys| > 1 {
        assert Joinable(xs[1..]) && Joinable(ys[1..]);
        JoinInjective(xs[1..], ys[1..]);
        assert xs == [x] + xs[1..] && ys == [y] + ys[1..];
      }
    }
  }

  // ---------------------------------------------------------------------------
  // The data-check string and its properties

  function DataCheckString(params: seq<Param>): string {
    Join(SortLines(CheckLines(params)), "\n")
  }

  /// The check string is fixed by the multiset of signed lines: reordering
  /// the pairs does not change it.
  lemma DataCheckStringIgnoresOrder(p: seq<Param>, q: seq<Param>)
    requires multiset(CheckLines(p)) == multiset(CheckLines(q))
    ensures DataCheckString(p) == DataCheckString(q)
  {
    SortLinesSorts(CheckLines(p));
    SortLinesSorts(CheckLines(q));
    SortedUnique(SortLines(CheckLines(p)), SortLines(CheckLines(q)));
  }

  predicate PlainPairs(params: seq<Param>) {
    forall i :: 0 <= i < |params| ==> NoNewline(params[i].key) && NoNewline(params[i].value)
  }

  lemma {:induction false} CheckLinesJoinable(params: seq<Param>)
    requires PlainPairs(params)
    ensures Joinable(CheckLines(params))
  {
    if params != [] {
      var last := params[|params| - 1];
      CheckLinesJoinable(params[..|params| - 1]);
      var l := Line(last);
      assert l[|last.key|] == '=';
      assert NoNewline(l) by {
        forall i | 0 <= i < |l| ensures l[i] != '\n' {
          if i > |last.key| { assert l[i] == last.value[i - |last.key| - 1]; }
        }
      }
    }
  }

  lemma JoinableOfPermutation(xs: seq<string>, ys: seq<string>)
    requires Joinable(xs) && multiset(xs) == multiset(ys)
    ensures Joinable(ys)
  {
    forall k | 0 <= k < |ys| ensures ys[k] != [] && NoNewline(ys[k]) {
      assert ys[k] in multiset(xs);
      var j :| 0 <= j < |xs| && xs[j] == ys[k];
    }
  }

  /// Conversely, when no key or value holds a line feed, equal check strings
  /// sign the same multiset of lines: the string is a faithful encoding.
  lemma DataCheckStringPinsLines(p: seq<Param>, q: seq<Param>)
    requires PlainPairs(p) && PlainPairs(q)
    requires DataCheckString(p) == DataCheckString(q)
    ensures multiset(CheckLines(p)) == multiset(CheckLines(q))
  {
    SortLinesSorts(CheckLines(p));
    SortLinesSorts(CheckLines(q));
    CheckLinesJoinable(p);
    CheckLinesJoinable(q);
    JoinableOfPermutation(CheckLines(p), SortLines(CheckLines(p)));
    JoinableOfPermutation(CheckLines(q), SortLines(CheckLines(q)));
    JoinInjective(SortLines(CheckLines(p)), SortLines(CheckLines(q)));
  }

  /// The value of a `hash` pair is not signed.
  lemma {:induction false} CheckLinesIgnoreHashValue(params: seq<Param>, i: nat, h: string)
    requires i < |params| && params[i].key == "hash"
    ensures CheckLines(params[i := Param("hash", h)]) == CheckLines(params)
  {
    var n := |params|;
    var changed := params[i := Param("hash", h)];
    if i < n - 1 {
      assert changed[..n - 1] == params[..n - 1][i := Param("hash", h)];
      CheckLinesIgnoreHashValue(params[..n - 1], i, h);
    } else {
      assert changed[..n - 1] == params[..n - 1];
    }
  }

  // ---------------------------------------------------------------------------
  // Hex digest

  const HexDigits: string := "0123456789abcdef"

  /// `digest('hex')`: two lower-case hex digits per byte.
  function Hex(bytes: seq<Byte>): (s: string)
    ensures |s| == 2 * |bytes|
  {
    if bytes == [] then ""
    else [HexDigits[bytes[0] / 16], HexDigits[bytes[0] % 16]] + Hex(bytes[1..])
  }

  function NibbleOf(c: char): Option<nat> {
    if '0' <= c <= '9' then Some(c as int - '0' as int)
    else if 'a' <= c <= 'f' then Some(c as int - 'a' as int + 10)
    else None
  }

  /// Reading a lower-case hex string back into bytes; the inverse of `Hex`.
  function Unhex(s: string): Option<seq<Byte>> {
    if |s| < 2 then (if s == [] then Some([]) else None)
    else
      match (NibbleOf(s[0]), NibbleOf(s[1]), Unhex(s[2..]))
      case (Some(hi), Some(lo), Some(rest)) =>
        if hi < 16 && lo < 16 then Some([hi * 16 + lo] + rest) else None
      case _ => None
  }

  lemma NibbleOfHexDigit(n: nat)
    requires n < 16
    ensures NibbleOf(HexDigits[n]) == Some(n)
  {
  }

  lemma {:induction false} UnhexHex(bytes: seq<Byte>)
    ensures Unhex(Hex(bytes)) == Some(bytes)
  {
    if bytes != [] {
      var s := Hex(bytes);
      var b := bytes[0];
      NibbleOfHexDigit(b / 16);
      NibbleOfHexDigit(b % 16);
      assert s[2..] == Hex(bytes[1..]);
      UnhexHex(bytes[1..]);
      assert b / 16 * 16 + b % 16 == b;
      assert bytes == [b] + bytes[1..];
    }
  }

  /// Comparing hex strings compares the digests themselves.
  lemma HexInjective(a: seq<Byte>, b: seq<Byte>)
    ensures Hex(a) == Hex(b) <==> a == b
  {
    UnhexHex(a);
    UnhexHex(b);
  }

  // ---------------------------------------------------------------------------
  // Validation

  /// `secretKey = HMAC("WebAppData", BOT_TOKEN)`, then
  /// `HMAC(secretKey, dataCheckString)` as hex.
  function ExpectedHash(env: Env, params: seq<Param>): string {
    var secretKey := env.hmac(env.utf8("WebAppData"), env.utf8(env.botToken));
    Hex(env.hmac(secretKey, env.utf8(DataCheckString(params))))
  }

  /// `userStr ? JSON.parse(userStr) : null`.
  function UserOf(env: Env, params: seq<Param>): UserJson {
    match Get(params, "user")
    case None => NoUser
    case Some(u) => if u == "" then NoUser else env.parseUser(u)
  }

  /// `parseInt(searchParams.get('auth_date') || '0', 10)`.
  function AuthDate(params: seq<Param>): Option<int> {
    match Get(params, "auth_date")
    case None => ParseInt("0")
    case Some(d) => ParseInt(if d == "" then "0" else d)
  }

  /// `validateInitData`: `None` stands for its `null` result, including the
  /// one its `catch` produces when `JSON.parse` throws.
  function Validation(env: Env, params: seq<Param>): (r: Option<Claims>)
    ensures Get(params, "hash") == None || Get(params, "hash") == Some("") ==> r == None
    ensures r.Some? <==>
      Get(params, "hash") == Some(ExpectedHash(env, params)) && ExpectedHash(env, params) != "" &&
      !UserOf(env, params).Unparseable?
    ensures r.Some? ==> r.value.user == UserOf(env, params) && r.value.authDate == AuthDate(params)
  {
    match Get(params, "hash")
    case None => None
    case Some(hash) =>
      if hash == "" || ExpectedHash(env, params) != hash then None
      else if UserOf(env, params).Unparseable? then None
      else Some(Claims(UserOf(env, params), AuthDate(params)))
  }

  /// What the request handlers keep of a validation: `parsed.user.id`, or
  /// nothing when `!parsed || !parsed.user`.
  function Authenticate(env: Env, params: seq<Param>): Option<int> {
    match Validation(env, params)
    case Some(Claims(User(id), _)) => Some(id)
    case _ => None
  }

  /// Any change to the (first) signature value turns an accepted init data
  /// into a rejected one: the signed lines do not include it.
  lemma ForgedHashRejected(env: Env, params: seq<Param>, i: nat, forged: string)
    requires i < |params| && params[i].key == "hash"
    requires forall j :: 0 <= j < i ==> params[j].key != "hash"
    requires Validation(env, params).Some?
    requires forged != params[i].value
    ensures Validation(env, params[i := Param("hash", forged)]) == None
  {
    var changed := params[i := Param("hash", forged)];
    CheckLinesIgnoreHashValue(params, i, forged);
    assert ExpectedHash(env, changed) == ExpectedHash(env, params);
    GetFirst(params, i, "hash");
    GetFirst(changed, i, "hash");
  }

  /// The imperative `validateInitData`: the `forEach` loop collects the lines,
  /// which are then sorted and joined before the digest is compared.
  method ValidateInitData(env: Env, params: seq<Param>) returns (r: Option<Claims>)
    ensures r == Validation(env, params)
  {
    var hash := Get(params, "hash");
    if hash.None? || hash.value == "" {
      return None;
    }
    var lines: seq<string> := [];
    var i := 0;
    while i < |params|
      invariant 0 <= i <= |params|
      invariant lines == CheckLines(params[..i])
    {
      assert params[..i + 1][..i] == params[..i];
      if params[i].key != "hash" {
        lines := lines + [Line(params[i])];
      }
      i := i + 1;
    }
    assert params[..i] == params;
    lines := SortLines(lines);
    var dataCheckString := Join(lines, "\n");
    var secretKey := env.hmac(env.utf8("WebAppData"), env.utf8(env.botToken));
    var computedHash := Hex(env.hmac(secretKey, env.utf8(dataCheckString)));
    if computedHash != hash.value {
      return None;
    }
    var user := UserOf(env, params);
    if user.Unparseable? {
      return None;
    }
    r := Some(Claims(user, AuthDate(params)));
  }

  /// The prologue every handler shares: validate, then keep `parsed.user.id`
  /// unless `!parsed || !parsed.user`.
  method AuthenticateRequest(env: Env, params: seq<Param>) returns (userId: Option<int>)
    ensures userId == Authenticate(env, params)
  {
    var parsed := ValidateInitData(env, params);
    if parsed.None? || !parsed.value.user.User? {
      return None;
    }
    userId := Some(parsed.value.user.id);
  }
}
