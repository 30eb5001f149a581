/** The storage adapter's caches and memoised keys, against an adapter without them. The
    JavaScript store is a pair of maps; record codecs and legacy migrations are parameters. */
module StorageCache {
  import opened Common

  datatype Address = Address(name: string, device: nat)

  datatype SenderKeyName = SenderKeyName(group: string, sender: string)

  datatype Codec<!R> = Codec(serialize: R -> Option<Bytes>, deserialize: Bytes -> Option<R>)

  ghost predicate RoundTrips<R(!new)>(c: Codec<R>) {
    forall r :: c.serialize(r).Some? ==> c.deserialize(c.serialize(r).value) == Some(r)
  }

  /** What the store hands back: something with bytes, a session object of the older library, or
      anything else. */
  datatype Stored = Data(bytes: Bytes) | LegacyObject(json: string) | Other

  /** A migration of older data: its new form, not older data after all, or an error. */
  datatype Migration = Migrated(bytes: Bytes) | NotLegacy | Invalid

  datatype Codecs<!S, !K> = Codecs(
    session: Codec<S>, senderKey: Codec<K>,
    migrateSession: string -> Migration, migrateSenderKey: Bytes -> Migration)

  // ---------------------------------------------------------------- keys

  function Digit(n: nat): char
    requires n < 10
  {
    "0123456789"[n]
  }

  function Decimal(n: nat): (s: string)
    ensures s != []
  {
    if n < 10 then [Digit(n)] else Decimal(n / 10) + [Digit(n % 10)]
  }

  function AddressString(a: Address): string {
    a.name + "." + Decimal(a.device)
  }

  function SenderKeyId(n: SenderKeyName): string {
    n.group + "::" + n.sender
  }

  /** The number a run of decimal digits stands for. */
  function ReadDecimal(s: string): int {
    if s == [] then 0 else 10 * ReadDecimal(s[..|s| - 1]) + (s[|s| - 1] as int - '0' as int)
  }

  predicate IsDigits(s: string) { forall i :: 0 <= i < |s| ==> '0' <= s[i] <= '9' }

  lemma {:induction false} DecimalReads(n: nat)
    ensures IsDigits(Decimal(n)) && ReadDecimal(Decimal(n)) == n
  {
    var s := Decimal(n);
    if n >= 10 {
      DecimalReads(n / 10);
      assert s[..|s| - 1] == Decimal(n / 10);
    } else {
      assert s[..0] == [];
    }
  }

  /** The name, a dot, and the device in decimal. */
  lemma AddressReads(a: Address)
    ensures var s, n := AddressString(a), |a.name|;
      n < |s| && s[..n] == a.name && s[n] == '.' && IsDigits(s[n + 1..]) && ReadDecimal(s[n + 1..]) == a.device
  {
    DecimalReads(a.device);
    assert AddressString(a)[|a.name| + 1..] == Decimal(a.device);
  }

  lemma OneLastDot(s: string, i: nat, j: nat)
    requires i < |s| && j < |s| && s[i] == s[j] == '.' && IsDigits(s[i + 1..]) && IsDigits(s[j + 1..])
    ensures i == j
  {
  }

  /** No two addresses have one text, whatever their names hold: the last dot divides it. */
  lemma AddressInjective(a: Address, b: Address)
    requires AddressString(a) == AddressString(b)
    ensures a == b
  {
    var s := AddressString(a);
    AddressReads(a);
    AddressReads(b);
    OneLastDot(s, |a.name|, |b.name|);
  }

  /** Two colons stand at `p`. */
  predicate Divides(s: string, p: nat) { p + 2 <= |s| && s[p] == ':' && s[p + 1] == ':' }

  lemma SenderKeyIdReads(n: SenderKeyName)
    ensures var s := SenderKeyId(n);
      Divides(s, |n.group|) && s[..|n.group|] == n.group && s[|n.group| + 2..] == n.sender
  {
  }

  /** Another sender key has the same id exactly when the id holds two colons in a second place. */
  lemma SenderKeyIdSharedExactly(n: SenderKeyName)
    ensures (exists m :: m != n && SenderKeyId(m) == SenderKeyId(n))
      <==> exists p: nat :: p != |n.group| && Divides(SenderKeyId(n), p)
  {
    var s := SenderKeyId(n);
    SenderKeyIdReads(n);
    if m :| m != n && SenderKeyId(m) == s {
      SenderKeyIdReads(m);
      assert |m.group| != |n.group| && Divides(s, |m.group|);
    }
    if p: nat :| p != |n.group| && Divides(s, p) {
      assert SenderKeyId(SenderKeyName(s[..p], s[p + 2..])) == s;
    }
  }

  lemma SenderKeyIdsShared()
    ensures SenderKeyId(SenderKeyName("a::b", "c")) == SenderKeyId(SenderKeyName("a", "b::c"))
  {
    assert SenderKeyId(SenderKeyName("a::b", "c")) == "a::b::c" == SenderKeyId(SenderKeyName("a", "b::c"));
  }

  // ---------------------------------------------------------------- the address memo

  datatype AddressMemo = AddressMemo(name: string, text: string)

  /** `get_address_string`: the memo is looked up by name alone. */
  function MemoisedAddress(memo: Option<AddressMemo>, a: Address): (string, Option<AddressMemo>) {
    if memo.Some? && memo.value.name == a.name then (memo.value.text, memo)
    else (AddressString(a), Some(AddressMemo(a.name, AddressString(a))))
  }

  function AddressMemos(memo: Option<AddressMemo>, addresses: seq<Address>): seq<string>
    decreases |addresses|
  {
    if addresses == [] then []
    else
      var (text, next) := MemoisedAddress(memo, addresses[0]);
      [text] + AddressMemos(next, addresses[1..])
  }

  function Fresh(addresses: seq<Address>): seq<string> {
    seq(|addresses|, i requires 0 <= i < |addresses| => AddressString(addresses[i]))
  }

  /** A name never changes its device from one request to the next. */
  predicate Steady(addresses: seq<Address>) {
    forall i :: 0 < i < |addresses| && addresses[i].name == addresses[i - 1].name ==>
      addresses[i].device == addresses[i - 1].device
  }

  ghost predicate Serves(memo: Option<AddressMemo>, a: Address) {
    memo.Some? && memo.value.name == a.name ==> memo.value.text == AddressString(a)
  }

  /** The memo answers as fresh formatting exactly while no name switches device between two
      consecutive requests. */
  lemma {:induction false} MemoExact(memo: Option<AddressMemo>, addresses: seq<Address>)
    requires addresses != [] ==> Serves(memo, addresses[0])
    ensures AddressMemos(memo, addresses) == Fresh(addresses) <==> Steady(addresses)
    decreases |addresses|
  {
    if addresses != [] {
      var a, rest := addresses[0], addresses[1..];
      var next := MemoisedAddress(memo, a).1;
      assert Fresh(addresses) == [AddressString(a)] + Fresh(rest);
      assert AddressMemos(memo, addresses)[1..] == AddressMemos(next, rest);
      assert Fresh(addresses)[1..] == Fresh(rest);
      SteadyTail(addresses);
      if rest != [] && a.name == rest[0].name && a.device != rest[0].device {
        Switched(next, rest);
      } else {
        MemoExact(next, rest);
      }
    }
  }

  lemma SteadyTail(addresses: seq<Address>)
    requires addresses != []
    ensures var rest := addresses[1..];
      Steady(addresses) <==>
        && Steady(rest)
        && (rest != [] && addresses[0].name == rest[0].name ==> addresses[0].device == rest[0].device)
  {
    var rest := addresses[1..];
    assert forall i :: 0 <= i < |rest| ==> rest[i] == addresses[i + 1];
    if Steady(rest) && (rest != [] && addresses[0].name == rest[0].name ==> addresses[0].device == rest[0].device) {
      forall i | 0 < i < |addresses| && addresses[i].name == addresses[i - 1].name
        ensures addresses[i].device == addresses[i - 1].device
      {
        if i > 1 {
          assert rest[i - 1].name == rest[i - 2].name;
        }
      }
    }
    if Steady(addresses) {
      forall i | 0 < i < |rest| && rest[i].name == rest[i - 1].name ensures rest[i].device == rest[i - 1].device {
        assert addresses[i + 1].name == addresses[i].name;
      }
      assert rest != [] ==> addresses[1] == rest[0];
    }
  }

  /** After a switch the memo still gives the other device's string. */
  lemma Switched(memo: Option<AddressMemo>, addresses: seq<Address>)
    requires addresses != [] && memo.Some? && memo.value.name == addresses[0].name
    requires exists d :: d != addresses[0].device && memo.value.text == AddressString(Address(addresses[0].name, d))
    ensures AddressMemos(memo, addresses) != Fresh(addresses)
  {
    var a := addresses[0];
    var d :| d != a.device && memo.value.text == AddressString(Address(a.name, d));
    if AddressMemos(memo, addresses) == Fresh(addresses) {
      assert AddressMemos(memo, addresses)[0] == Fresh(addresses)[0];
      AddressInjective(Address(a.name, d), a);
    }
  }

  datatype SenderMemo = SenderMemo(name: SenderKeyName, text: string)

  /** `get_sender_key_id`: looked up by group and sender, so never wrong. */
  function MemoisedSender(memo: Option<SenderMemo>, n: SenderKeyName): (string, Option<SenderMemo>) {
    if memo.Some? && memo.value.name == n then (memo.value.text, memo)
    else (SenderKeyId(n), Some(SenderMemo(n, SenderKeyId(n))))
  }

  ghost predicate SenderServes(memo: Option<SenderMemo>) {
    memo.Some? ==> memo.value.text == SenderKeyId(memo.value.name)
  }

  // ---------------------------------------------------------------- one cached table

  datatype Loaded<R> = Found(record: R) | Missing | Failed

  function Parsed<R>(c: Codec<R>, bytes: Bytes): Loaded<R> {
    var r := c.deserialize(bytes);
    if r.None? then Failed else Found(r.value)
  }

  function SessionFrom<S, K>(c: Codecs<S, K>, v: Stored): Loaded<S> {
    match v
    case Data(bytes) => Parsed(c.session, bytes)
    case LegacyObject(json) =>
      (match c.migrateSession(json)
       case Migrated(bytes) => Parsed(c.session, bytes)
       case NotLegacy => Missing
       case Invalid => Failed)
    case Other => Missing
  }

  /** Bytes that do not parse may be the JSON of the older library. */
  function SenderKeyFrom<S, K>(c: Codecs<S, K>, v: Stored): Loaded<K> {
    if !v.Data? then Missing
    else if c.senderKey.deserialize(v.bytes).Some? then Found(c.senderKey.deserialize(v.bytes).value)
    else
      match c.migrateSenderKey(v.bytes)
      case Migrated(bytes) => Parsed(c.senderKey, bytes)
      case NotLegacy => Failed
      case Invalid => Failed
  }

  /** Loads without a cache, from a store that answers or throws. */
  function FetchSession<S, K>(c: Codecs<S, K>, stored: map<string, Stored>, answered: bool, key: string): Loaded<S> {
    if !answered then Failed else if key !in stored then Missing else SessionFrom(c, stored[key])
  }

  function FetchSenderKey<S, K>(c: Codecs<S, K>, stored: map<string, Stored>, answered: bool, key: string): Loaded<K> {
    if !answered then Failed else if key !in stored then Missing else SenderKeyFrom(c, stored[key])
  }

  /** A load through a cache, `fetched` being what the store would give. */
  function CachedFetch<R>(cache: map<string, R>, fetched: Loaded<R>, key: string): (Loaded<R>, map<string, R>) {
    if key in cache then (Found(cache[key]), cache)
    else (fetched, if fetched.Found? then cache[key := fetched.record] else cache)
  }

  // ---------------------------------------------------------------- runs

  datatype State<S, K> = State(
    sessions: map<string, Stored>, senderKeys: map<string, Stored>,
    cachedSessions: map<string, S>, cachedSenderKeys: map<string, K>,
    lastAddress: Option<AddressMemo>, lastSenderKey: Option<SenderMemo>)

  /** A call, and whether the JavaScript store answered it or took the write. */
  datatype Call<S, K> =
    | LoadSession(address: Address, answered: bool)
    | StoreSession(address: Address, session: S, taken: bool)
    | LoadSenderKey(name: SenderKeyName, answered: bool)
    | StoreSenderKey(name: SenderKeyName, senderKey: K, taken: bool)

  datatype Answer<S, K> = SessionIs(session: Loaded<S>) | SenderKeyIs(senderKey: Loaded<K>) | Written(ok: bool)

  /** A write reaches the store when its record serializes and the store takes it. */
  function Put(stored: map<string, Stored>, taken: bool, key: string, data: Option<Bytes>): map<string, Stored> {
    if taken && data.Some? then stored[key := Data(data.value)] else stored
  }

  /** The adapter. A write goes to the cache before it is serialized and the store is asked. */
  function Step<S, K>(c: Codecs<S, K>, s: State<S, K>, call: Call<S, K>): (State<S, K>, Answer<S, K>) {
    match call
    case LoadSession(a, answered) =>
      var (key, memo) := MemoisedAddress(s.lastAddress, a);
      var (r, cache) := CachedFetch(s.cachedSessions, FetchSession(c, s.sessions, answered, key), key);
      (s.(lastAddress := memo, cachedSessions := cache), SessionIs(r))
    case StoreSession(a, record, taken) =>
      var (key, memo) := MemoisedAddress(s.lastAddress, a);
      var data := c.session.serialize(record);
      (s.(lastAddress := memo, cachedSessions := s.cachedSessions[key := record],
          sessions := Put(s.sessions, taken, key, data)), Written(taken && data.Some?))
    case LoadSenderKey(n, answered) =>
      var (key, memo) := MemoisedSender(s.lastSenderKey, n);
      var (r, cache) := CachedFetch(s.cachedSenderKeys, FetchSenderKey(c, s.senderKeys, answered, key), key);
      (s.(lastSenderKey := memo, cachedSenderKeys := cache), SenderKeyIs(r))
    case StoreSenderKey(n, record, taken) =>
      var (key, memo) := MemoisedSender(s.lastSenderKey, n);
      var data := c.senderKey.serialize(record);
      (s.(lastSenderKey := memo, cachedSenderKeys := s.cachedSenderKeys[key := record],
          senderKeys := Put(s.senderKeys, taken, key, data)), Written(taken && data.Some?))
  }

  datatype Plain = Plain(sessions: map<string, Stored>, senderKeys: map<string, Stored>)

  /** The adapter without caches or memos. */
  function PlainStep<S, K>(c: Codecs<S, K>, s: Plain, call: Call<S, K>): (Plain, Answer<S, K>) {
    match call
    case LoadSession(a, answered) => (s, SessionIs(FetchSession(c, s.sessions, answered, AddressString(a))))
    case StoreSession(a, record, taken) =>
      var data := c.session.serialize(record);
      (s.(sessions := Put(s.sessions, taken, AddressString(a), data)), Written(taken && data.Some?))
    case LoadSenderKey(n, answered) => (s, SenderKeyIs(FetchSenderKey(c, s.senderKeys, answered, SenderKeyId(n))))
    case StoreSenderKey(n, record, taken) =>
      var data := c.senderKey.serialize(record);
      (s.(senderKeys := Put(s.senderKeys, taken, SenderKeyId(n), data)), Written(taken && data.Some?))
  }

  function Run<S, K>(c: Codecs<S, K>, s: State<S, K>, calls: seq<Call<S, K>>): (State<S, K>, seq<Answer<S, K>>)
    decreases |calls|
  {
    if calls == [] then (s, [])
    else
      var (s1, r) := Step(c, s, calls[0]);
      var (s2, rs) := Run(c, s1, calls[1..]);
      (s2, [r] + rs)
  }

  function PlainRun<S, K>(c: Codecs<S, K>, s: Plain, calls: seq<Call<S, K>>): (Plain, seq<Answer<S, K>>)
    decreases |calls|
  {
    if calls == [] then (s, [])
    else
      var (s1, r) := PlainStep(c, s, calls[0]);
      var (s2, rs) := PlainRun(c, s1, calls[1..]);
      (s2, [r] + rs)
  }

  function Behind<S, K>(s: State<S, K>): Plain {
    Plain(s.sessions, s.senderKeys)
  }

  /** Every cached record is what the store holds under that key, and the sender-key memo is right. */
  ghost predicate Sound<S(!new), K(!new)>(c: Codecs<S, K>, s: State<S, K>) {
    && (forall k :: k in s.cachedSessions ==>
          k in s.sessions && SessionFrom(c, s.sessions[k]) == Found(s.cachedSessions[k]))
    && (forall k :: k in s.cachedSenderKeys ==>
          k in s.senderKeys && SenderKeyFrom(c, s.senderKeys[k]) == Found(s.cachedSenderKeys[k]))
    && SenderServes(s.lastSenderKey)
  }

  /** The store answered the load, or the record serialized and the store took it. */
  predicate Succeeds<S, K>(c: Codecs<S, K>, call: Call<S, K>) {
    match call
    case LoadSession(_, answered) => answered
    case StoreSession(_, record, taken) => taken && c.session.serialize(record).Some?
    case LoadSenderKey(_, answered) => answered
    case StoreSenderKey(_, record, taken) => taken && c.senderKey.serialize(record).Some?
  }

  /** The addresses of a run's session calls, in order. */
  function Addresses<S, K>(calls: seq<Call<S, K>>): seq<Address> {
    if calls == [] then []
    else (if calls[0].LoadSession? || calls[0].StoreSession? then [calls[0].address] else []) + Addresses(calls[1..])
  }

  /** One call: the answer and the store are those of the plain adapter, and the caches stay sound. */
  lemma StepRefines<S(!new), K(!new)>(c: Codecs<S, K>, s: State<S, K>, call: Call<S, K>)
    requires RoundTrips(c.session) && RoundTrips(c.senderKey)
    requires Sound(c, s) && Succeeds(c, call)
    requires call.LoadSession? || call.StoreSession? ==> Serves(s.lastAddress, call.address)
    ensures Sound(c, Step(c, s, call).0)
    ensures (Behind(Step(c, s, call).0), Step(c, s, call).1) == PlainStep(c, Behind(s), call)
    ensures call.LoadSession? || call.StoreSession? ==>
      Step(c, s, call).0.lastAddress == Some(AddressMemo(call.address.name, AddressString(call.address)))
    ensures !(call.LoadSession? || call.StoreSession?) ==> Step(c, s, call).0.lastAddress == s.lastAddress
  {
  }

  /** Every run that the store serves and whose names keep their device, from one call to the
      next: every answer and the final store are the plain adapter's. */
  lemma {:induction false} RunRefines<S(!new), K(!new)>(c: Codecs<S, K>, s: State<S, K>, calls: seq<Call<S, K>>)
    requires RoundTrips(c.session) && RoundTrips(c.senderKey)
    requires Sound(c, s) && forall i :: 0 <= i < |calls| ==> Succeeds(c, calls[i])
    requires Steady(Addresses(calls))
    requires Addresses(calls) != [] ==> Serves(s.lastAddress, Addresses(calls)[0])
    ensures (Behind(Run(c, s, calls).0), Run(c, s, calls).1) == PlainRun(c, Behind(s), calls)
    ensures Sound(c, Run(c, s, calls).0)
    decreases |calls|
  {
    if calls != [] {
      var call, rest := calls[0], calls[1..];
      StepRefines(c, s, call);
      var s1 := Step(c, s, call).0;
      if call.LoadSession? || call.StoreSession? {
        assert Addresses(calls)[1..] == Addresses(rest);
        SteadyTail(Addresses(calls));
      } else {
        assert Addresses(calls) == Addresses(rest);
      }
      RunRefines(c, s1, rest);
    }
  }

  /** A write is acknowledged, by either adapter, exactly when the record serializes and the store
      takes it, and the store then holds it; otherwise the store is as it was. */
  lemma WriteAnswers<S, K>(c: Codecs<S, K>, s: State<S, K>, plain: Plain, a: Address, record: S, n: SenderKeyName,
                           key: K, taken: bool)
    ensures var done := taken && c.session.serialize(record).Some?;
      var after := PlainStep(c, plain, StoreSession(a, record, taken));
      && Step(c, s, StoreSession(a, record, taken)).1 == after.1 == Written(done)
      && after.0.senderKeys == plain.senderKeys
      && after.0.sessions == if done then plain.sessions[AddressString(a) := Data(c.session.serialize(record).value)]
                             else plain.sessions
    ensures var done := taken && c.senderKey.serialize(key).Some?;
      var after := PlainStep(c, plain, StoreSenderKey(n, key, taken));
      && Step(c, s, StoreSenderKey(n, key, taken)).1 == after.1 == Written(done)
      && after.0.sessions == plain.sessions
      && after.0.senderKeys == if done then plain.senderKeys[SenderKeyId(n) := Data(c.senderKey.serialize(key).value)]
                               else plain.senderKeys
  {
  }

  /** Where the condition fails: a name that switches device is answered for the first device. */
  lemma SwitchReadsOther<S, K>(c: Codecs<S, K>, name: string, d: nat, e: nat, data: Bytes, record: S)
    requires d != e && c.session.deserialize(data) == Some(record)
    ensures var stored := map[AddressString(Address(name, e)) := Data(data)];
      var calls := [LoadSession(Address(name, d), true), LoadSession(Address(name, e), true)];
      Run(c, State(stored, map[], map[], map[], None, None), calls).1 == [SessionIs(Missing), SessionIs(Missing)]
      && PlainRun(c, Plain(stored, map[]), calls).1 == [SessionIs(Missing), SessionIs(Found(record))]
  {
    if AddressString(Address(name, d)) == AddressString(Address(name, e)) {
      AddressInjective(Address(name, d), Address(name, e));
    }
    var stored := map[AddressString(Address(name, e)) := Data(data)];
    var first, second: Call<S, K> := LoadSession(Address(name, d), true), LoadSession(Address(name, e), true);
    var s: State<S, K> := State(stored, map[], map[], map[], None, None);
    var s1 := Step(c, s, first).0;
    assert [first, second][1..] == [second] && [second][1..] == [];
    assert Run(c, s1, [second]).1 == [SessionIs(Missing)];
    assert PlainRun(c, Plain(stored, map[]), [second]).1 == [SessionIs(Found(record))];
  }

  /** A write that failed is still answered from the cache: the next load agrees with the store
      exactly when the store already held that record. */
  lemma FailedWriteShows<S, K>(c: Codecs<S, K>, s: State<S, K>, a: Address, record: S, taken: bool)
    requires Serves(s.lastAddress, a) && !Succeeds(c, Call<S, K>.StoreSession(a, record, taken))
    ensures var s1 := Step(c, s, StoreSession(a, record, taken)).0;
      Step(c, s1, LoadSession(a, true)).1 == PlainStep(c, Behind(s1), LoadSession(a, true)).1
      <==> FetchSession(c, s.sessions, true, AddressString(a)) == Found(record)
  {
  }

  /** The same for sender keys, whose memo is never wrong. */
  lemma FailedSenderKeyShows<S, K>(c: Codecs<S, K>, s: State<S, K>, n: SenderKeyName, record: K, taken: bool)
    requires SenderServes(s.lastSenderKey) && !Succeeds(c, Call<S, K>.StoreSenderKey(n, record, taken))
    ensures var s1 := Step(c, s, StoreSenderKey(n, record, taken)).0;
      Step(c, s1, LoadSenderKey(n, true)).1 == PlainStep(c, Behind(s1), LoadSenderKey(n, true)).1
      <==> FetchSenderKey(c, s.senderKeys, true, SenderKeyId(n)) == Found(record)
  {
  }

  // ---------------------------------------------------------------- the adapter object

  class JsStorageAdapter<S(!new), K(!new)> {
    const codecs: Codecs<S, K>
    var sessions: map<string, Stored>
    var senderKeys: map<string, Stored>
    var cachedSessions: map<string, S>
    var cachedSenderKeys: map<string, K>
    var lastAddressCache: Option<AddressMemo>
    var lastSenderKeyCache: Option<SenderMemo>

    ghost function View(): State<S, K>
      reads this
    {
      State(sessions, senderKeys, cachedSessions, cachedSenderKeys, lastAddressCache, lastSenderKeyCache)
    }

    constructor(codecs: Codecs<S, K>, sessions: map<string, Stored>, senderKeys: map<string, Stored>)
      ensures this.codecs == codecs && View() == State(sessions, senderKeys, map[], map[], None, None)
      ensures Sound(codecs, View())
    {
      this.codecs, this.sessions, this.senderKeys := codecs, sessions, senderKeys;
      cachedSessions, cachedSenderKeys := map[], map[];
      lastAddressCache, lastSenderKeyCache := None, None;
    }

    method GetAddressString(address: Address) returns (text: string)
      modifies this`lastAddressCache
      ensures (text, lastAddressCache) == MemoisedAddress(old(lastAddressCache), address)
    {
      if lastAddressCache.Some? && lastAddressCache.value.name == address.name {
        return lastAddressCache.value.text;
      }
      text := AddressString(address);
      lastAddressCache := Some(AddressMemo(address.name, text));
    }

    method GetSenderKeyId(name: SenderKeyName) returns (text: string)
      modifies this`lastSenderKeyCache
      ensures (text, lastSenderKeyCache) == MemoisedSender(old(lastSenderKeyCache), name)
      ensures SenderServes(old(lastSenderKeyCache)) ==> text == SenderKeyId(name) && SenderServes(lastSenderKeyCache)
    {
      if lastSenderKeyCache.Some? && lastSenderKeyCache.value.name == name {
        return lastSenderKeyCache.value.text;
      }
      text := SenderKeyId(name);
      lastSenderKeyCache := Some(SenderMemo(name, text));
    }

    method LoadSession(address: Address, answered: bool) returns (r: Loaded<S>)
      modifies this`lastAddressCache, this`cachedSessions
      ensures (View(), SessionIs(r)) == Step(codecs, old(View()), Call.LoadSession(address, answered))
    {
      var key := GetAddressString(address);
      if key in cachedSessions {
        return Found(cachedSessions[key]);
      }
      if !answered {
        return Failed;
      }
      if key !in sessions {
        return Missing;
      }
      var bytes: Bytes;
      match sessions[key] {
        case Data(data) =>
          bytes := data;
        case LegacyObject(json) =>
          var migrated := codecs.migrateSession(json);
          if !migrated.Migrated? {
            return if migrated.NotLegacy? then Missing else Failed;
          }
          bytes := migrated.bytes;
        case Other =>
          return Missing;
      }
      var record := codecs.session.deserialize(bytes);
      if record.None? {
        return Failed;
      }
      cachedSessions := cachedSessions[key := record.value];
      r := Found(record.value);
    }

    method StoreSession(address: Address, record: S, taken: bool) returns (ok: bool)
      modifies this`lastAddressCache, this`cachedSessions, this`sessions
      ensures (View(), Written(ok)) == Step(codecs, old(View()), Call.StoreSession(address, record, taken))
    {
      var key := GetAddressString(address);
      cachedSessions := cachedSessions[key := record];
      var bytes := codecs.session.serialize(record);
      if bytes.None? || !taken {
        return false;
      }
      sessions := sessions[key := Data(bytes.value)];
      ok := true;
    }

    method LoadSenderKey(name: SenderKeyName, answered: bool) returns (r: Loaded<K>)
      modifies this`lastSenderKeyCache, this`cachedSenderKeys
      ensures (View(), SenderKeyIs(r)) == Step(codecs, old(View()), Call.LoadSenderKey(name, answered))
    {
      var key := GetSenderKeyId(name);
      if key in cachedSenderKeys {
        return Found(cachedSenderKeys[key]);
      }
      if !answered {
        return Failed;
      }
      if key !in senderKeys || !senderKeys[key].Data? {
        return Missing;
      }
      var data := senderKeys[key].bytes;
      var record := codecs.senderKey.deserialize(data);
      if record.None? {
        var migrated := codecs.migrateSenderKey(data);
        if !migrated.Migrated? {
          return Failed;
        }
        record := codecs.senderKey.deserialize(migrated.bytes);
        if record.None? {
          return Failed;
        }
      }
      cachedSenderKeys := cachedSenderKeys[key := record.value];
      r := Found(record.value);
    }

    method StoreSenderKey(name: SenderKeyName, record: K, taken: bool) returns (ok: bool)
      modifies this`lastSenderKeyCache, this`cachedSenderKeys, this`senderKeys
      ensures (View(), Written(ok)) == Step(codecs, old(View()), Call.StoreSenderKey(name, record, taken))
    {
      var key := GetSenderKeyId(name);
      cachedSenderKeys := cachedSenderKeys[key := record];
      var bytes := codecs.senderKey.serialize(record);
      if bytes.None? || !taken {
        return false;
      }
      senderKeys := senderKeys[key := Data(bytes.value)];
      ok := true;
    }
  }
}
