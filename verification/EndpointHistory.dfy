/** The endpoints a pairing record remembers: an exact least-recently-used history of 17. */
module EndpointHistory {
  import opened Prelude

  const MAX_ENDPOINT_ALIASES: nat := 16

  datatype Endpoint = Endpoint(host: string, tcpPort: nat, udpPort: nat)

  /** The part of a record that remembering an endpoint changes: older aliases first, and the last endpoint. */
  datatype History = History(aliases: seq<Endpoint>, last: Option<Endpoint>) {
    /** Everything remembered, oldest first. */
    function Known(): seq<Endpoint> { aliases + if last.Some? then [last.value] else [] }
  }

  function Without(s: seq<Endpoint>, e: Endpoint): seq<Endpoint> {
    if s == [] then []
    else Without(s[..|s| - 1], e) + if s[|s| - 1] == e then [] else [s[|s| - 1]]
  }

  /** Remembering one endpoint. */
  function Remember(h: History, e: Endpoint): History {
    var others := Without(h.aliases, e);
    var aliases :=
      if h.last.Some? && h.last.value != e && h.last.value !in others then others + [h.last.value] else others;
    History(LastN(aliases, MAX_ENDPOINT_ALIASES), Some(e))
  }

  function RememberAll(es: seq<Endpoint>): History {
    if es == [] then History([], None) else Remember(RememberAll(es[..|es| - 1]), es[|es| - 1])
  }

  // ----- the history is least recently used

  /** `x`, unless it comes again later. */
  function IfLast(x: Endpoint, later: seq<Endpoint>): seq<Endpoint> { if x in later then [] else [x] }

  /** A history with only the latest occurrence of each endpoint kept. */
  function Latest(es: seq<Endpoint>): seq<Endpoint> {
    if es == [] then [] else IfLast(es[0], es[1..]) + Latest(es[1..])
  }

  ghost predicate Distinct(s: seq<Endpoint>) { forall i, j :: 0 <= i < j < |s| ==> s[i] != s[j] }

  lemma {:induction false} LatestMember(es: seq<Endpoint>, x: Endpoint)
    requires x !in es
    ensures x !in Latest(es)
  {
    if es != [] {
      LatestMember(es[1..], x);
    }
  }

  lemma {:induction false} LatestIsDistinct(es: seq<Endpoint>)
    ensures Distinct(Latest(es))
  {
    if es != [] {
      LatestIsDistinct(es[1..]);
      if es[0] !in es[1..] {
        LatestMember(es[1..], es[0]);
      }
    }
  }

  lemma {:induction false} WithoutMember(s: seq<Endpoint>, e: Endpoint, x: Endpoint)
    requires x !in s
    ensures x !in Without(s, e)
  {
    if s != [] {
      WithoutMember(s[..|s| - 1], e, x);
    }
  }

  lemma {:induction false} WithoutNothing(s: seq<Endpoint>, e: Endpoint)
    requires e !in s
    ensures Without(s, e) == s
  {
    if s != [] {
      WithoutNothing(s[..|s| - 1], e);
    }
  }

  lemma {:induction false} WithoutAppend(a: seq<Endpoint>, b: seq<Endpoint>, e: Endpoint)
    ensures Without(a + b, e) == Without(a, e) + Without(b, e)
    decreases |b|
  {
    if b == [] {
      assert a + b == a;
    } else {
      assert (a + b)[..|a + b| - 1] == a + b[..|b| - 1];
      WithoutAppend(a, b[..|b| - 1], e);
    }
  }

  lemma WithoutOne(x: Endpoint, e: Endpoint)
    ensures Without([x], e) == if x == e then [] else [x]
  {
    assert [x][..0] == [];
  }

  lemma {:induction false} LatestSnoc(es: seq<Endpoint>, e: Endpoint)
    ensures Latest(es + [e]) == Without(Latest(es), e) + [e]
    decreases |es|
  {
    if es == [] {
      assert es + [e] == [e] && [e][1..] == [];
    } else {
      hide Without, Latest, IfLast;
      var x, rest := es[0], es[1..];
      assert (es + [e])[0] == x && (es + [e])[1..] == rest + [e];
      LatestSnoc(rest, e);
      LatestCons(es);
      LatestCons(es + [e]);
      IfLastSnoc(x, rest, e);
      WithoutAppend(IfLast(x, rest), Latest(rest), e);
      assert forall a: seq<Endpoint>, b: seq<Endpoint> :: a + (b + [e]) == (a + b) + [e];
    }
  }

  lemma LatestCons(es: seq<Endpoint>)
    requires es != []
    ensures Latest(es) == IfLast(es[0], es[1..]) + Latest(es[1..])
  {
  }

  lemma IfLastSnoc(x: Endpoint, later: seq<Endpoint>, e: Endpoint)
    ensures IfLast(x, later + [e]) == Without(IfLast(x, later), e)
  {
    WithoutOne(x, e);
  }

  /** At most one element of a duplicate-free sequence is taken out. */
  lemma {:induction false} WithoutCount(s: seq<Endpoint>, e: Endpoint)
    requires Distinct(s)
    ensures |Without(s, e)| >= |s| - 1
  {
    if s != [] {
      var front := s[..|s| - 1];
      if s[|s| - 1] == e {
        assert e !in front;
        WithoutNothing(front, e);
      } else {
        WithoutCount(front, e);
      }
    }
  }

  lemma LastNAppend(a: seq<Endpoint>, b: seq<Endpoint>, k: nat)
    requires k <= |b|
    ensures LastN(a + b, k) == LastN(b, k)
  {
  }

  /** For the newest `k` others, the newest `k + 1` of a duplicate-free history are all that matters. */
  lemma WithoutRecent(s: seq<Endpoint>, e: Endpoint, k: nat)
    requires Distinct(s)
    ensures LastN(Without(LastN(s, k + 1), e), k) == LastN(Without(s, e), k)
  {
    hide Without;
    if |s| > k + 1 {
      var early, recent := s[..|s| - (k + 1)], s[|s| - (k + 1)..];
      assert s == early + recent;
      WithoutAppend(early, recent, e);
      WithoutCount(recent, e);
      LastNAppend(Without(early, e), Without(recent, e), k);
    }
  }

  /** One step on the 17 most recent of a duplicate-free history. */
  lemma RememberOnRecent(h: History, s: seq<Endpoint>, e: Endpoint)
    requires Distinct(s) && h.Known() == LastN(s, MAX_ENDPOINT_ALIASES + 1)
    requires h.last.None? ==> h.aliases == []
    ensures Remember(h, e).Known() == LastN(Without(s, e) + [e], MAX_ENDPOINT_ALIASES + 1)
  {
    hide Without, LastN;
    var recent := LastN(s, MAX_ENDPOINT_ALIASES + 1);
    LastNSnoc(Without(s, e), e, MAX_ENDPOINT_ALIASES + 1);
    WithoutRecent(s, e, MAX_ENDPOINT_ALIASES);
    RecentIsDistinct(s, MAX_ENDPOINT_ALIASES + 1);
    if h.last.Some? {
      LastIsNew(h.aliases, h.last.value);
      WithoutMember(h.aliases, e, h.last.value);
      WithoutAppend(h.aliases, [h.last.value], e);
      WithoutOne(h.last.value, e);
      assert recent == h.aliases + [h.last.value];
      assert Without(h.aliases, e) + [] == Without(h.aliases, e);
    } else {
      assert recent == [] == h.aliases;
    }
  }

  lemma RecentIsDistinct(s: seq<Endpoint>, k: nat)
    requires Distinct(s)
    ensures Distinct(LastN(s, k))
  {
  }

  lemma LastIsNew(s: seq<Endpoint>, last: Endpoint)
    requires Distinct(s + [last])
    ensures last !in s
  {
    var all := s + [last];
    forall i | 0 <= i < |s| ensures s[i] != last {
      assert all[i] != all[|s|];
    }
  }

  /**
   Exactly least recently used: after any history, the aliases followed by the last endpoint are the
   last 17 of the history with only the latest occurrence of each endpoint kept.  So truncating at
   every step is truncating once at the end.
   */
  lemma {:induction false} HistoryIsLeastRecentlyUsed(es: seq<Endpoint>)
    ensures RememberAll(es).Known() == LastN(Latest(es), MAX_ENDPOINT_ALIASES + 1)
    ensures RememberAll(es).last.None? ==> RememberAll(es).aliases == []
  {
    if es != [] {
      hide Without, LastN, Latest, Remember, RememberAll, Distinct, History.Known;
      var front, e := es[..|es| - 1], es[|es| - 1];
      assert es == front + [e];
      HistoryIsLeastRecentlyUsed(front);
      LatestIsDistinct(front);
      RememberOnRecent(RememberAll(front), Latest(front), e);
      RememberAllSnoc(front, e);
      LatestSnoc(front, e);
      RememberHasLast(RememberAll(front), e);
    }
  }

  lemma RememberAllSnoc(es: seq<Endpoint>, e: Endpoint)
    ensures RememberAll(es + [e]) == Remember(RememberAll(es), e)
  {
    assert (es + [e])[..|es|] == es;
  }

  lemma RememberHasLast(h: History, e: Endpoint)
    ensures Remember(h, e).last == Some(e)
  {
  }

  // ----- the store

  datatype Record = Record(id: string, key: seq<byte>, history: History)

  datatype Call = Call(id: string, key: seq<byte>, endpoint: Endpoint)

  /** The first record with the given id. */
  function IndexOf(records: seq<Record>, id: string): (i: nat)
    ensures i <= |records|
    ensures forall k :: 0 <= k < i ==> records[k].id != id
    ensures i < |records| ==> records[i].id == id
  {
    if records == [] || records[0].id == id then 0 else 1 + IndexOf(records[1..], id)
  }

  predicate Matches(records: seq<Record>, c: Call) {
    var i := IndexOf(records, c.id);
    i < |records| && records[i].key == c.key
  }

  function AfterCall(records: seq<Record>, c: Call): seq<Record> {
    if Matches(records, c) then
      var i := IndexOf(records, c.id);
      records[i := records[i].(history := Remember(records[i].history, c.endpoint))]
    else
      records
  }

  function AfterCalls(records: seq<Record>, cs: seq<Call>): seq<Record> {
    if cs == [] then records else AfterCall(AfterCalls(records, cs[..|cs| - 1]), cs[|cs| - 1])
  }

  /** The endpoints of the calls with the given id and key. */
  function EndpointsFor(cs: seq<Call>, id: string, key: seq<byte>): seq<Endpoint> {
    if cs == [] then []
    else
      var c := cs[|cs| - 1];
      EndpointsFor(cs[..|cs| - 1], id, key) + if c.id == id && c.key == key then [c.endpoint] else []
  }

  /**
   For every sequence of calls on a store, a record that started fresh remembers exactly the 17 most
   recently used endpoints of the calls made with its id and key; no call touches its id or key.
   */
  lemma {:induction false} StoreRemembersRecentEndpoints(records: seq<Record>, cs: seq<Call>, i: nat)
    requires i < |records| && IndexOf(records, records[i].id) == i && records[i].history == History([], None)
    ensures
      var after := AfterCalls(records, cs);
      && |after| == |records| && IndexOf(after, records[i].id) == i
      && (forall k :: 0 <= k < |records| ==> after[k].id == records[k].id && after[k].key == records[k].key)
      && after[i].history == RememberAll(EndpointsFor(cs, records[i].id, records[i].key))
      && after[i].history.Known() ==
         LastN(Latest(EndpointsFor(cs, records[i].id, records[i].key)), MAX_ENDPOINT_ALIASES + 1)
  {
    hide Remember, LastN, Latest, IndexOf, RememberAll, AfterCall;
    var id, key := records[i].id, records[i].key;
    HistoryIsLeastRecentlyUsed(EndpointsFor(cs, id, key));
    if cs == [] {
      NothingRemembered();
    } else {
      var front, c := cs[..|cs| - 1], cs[|cs| - 1];
      StoreRemembersRecentEndpoints(records, front, i);
      CallRemembers(AfterCalls(records, front), c, i, EndpointsFor(front, id, key));
    }
  }

  /** A record behind another one with the same id is never touched, and no call changes how many records there are. */
  lemma {:induction false} ShadowedRecordsStay(records: seq<Record>, cs: seq<Call>, i: nat)
    requires i < |records| && IndexOf(records, records[i].id) != i
    ensures
      var after := AfterCalls(records, cs);
      && |after| == |records| && after[i] == records[i]
      && forall k :: 0 <= k < |records| ==> after[k].id == records[k].id && after[k].key == records[k].key
  {
    hide Remember, IndexOf;
    if cs != [] {
      var front, c := cs[..|cs| - 1], cs[|cs| - 1];
      ShadowedRecordsStay(records, front, i);
      IndexIsStable(records, AfterCalls(records, front), records[i].id);
    }
  }

  lemma NothingRemembered()
    ensures RememberAll([]) == History([], None)
  {
  }

  /** The effect of one call on the record at index `i`, which is the first with its id. */
  lemma CallRemembers(records: seq<Record>, c: Call, i: nat, es: seq<Endpoint>)
    requires i < |records| && IndexOf(records, records[i].id) == i && records[i].history == RememberAll(es)
    ensures
      var after, mine := AfterCall(records, c), c.id == records[i].id && c.key == records[i].key;
      && |after| == |records|
      && (forall k :: 0 <= k < |records| ==> after[k].id == records[k].id && after[k].key == records[k].key)
      && IndexOf(after, records[i].id) == i
      && after[i].history == RememberAll(es + if mine then [c.endpoint] else [])
  {
    hide Remember;
    assert (es + [c.endpoint])[..|es|] == es && es + [] == es;
    IndexIsStable(records, AfterCall(records, c), records[i].id);
  }

  lemma {:induction false} IndexIsStable(a: seq<Record>, b: seq<Record>, id: string)
    requires |a| == |b| && forall k :: 0 <= k < |a| ==> a[k].id == b[k].id
    ensures IndexOf(a, id) == IndexOf(b, id)
    decreases |a|
  {
    if a != [] {
      IndexIsStable(a[1..], b[1..], id);
    }
  }

  // ----- the implementation

  class PairingRecord {
    const id: string
    const key: seq<byte>
    var endpointAliases: seq<Endpoint>
    var lastEndpoint: Option<Endpoint>

    constructor (id: string, key: seq<byte>)
      ensures this.id == id && this.key == key && Remembered() == History([], None)
    {
      this.id, this.key, endpointAliases, lastEndpoint := id, key, [], None;
    }

    function Remembered(): History
      reads this
    {
      History(endpointAliases, lastEndpoint)
    }

    method UpdateEndpoint(endpoint: Endpoint)
      modifies this
      ensures Remembered() == Remember(old(Remembered()), endpoint)
    {
      hide Without, LastN;
      RetainOthers(endpoint);
      if lastEndpoint.Some? && lastEndpoint.value != endpoint && lastEndpoint.value !in endpointAliases {
        endpointAliases := endpointAliases + [lastEndpoint.value];
      }
      DropOldest();
      lastEndpoint := Some(endpoint);
    }

    /** The part of UpdateEndpoint that takes the endpoint out of the aliases. */
    method RetainOthers(endpoint: Endpoint)
      modifies this`endpointAliases
      ensures endpointAliases == Without(old(endpointAliases), endpoint)
    {
      var retained := [];
      for i := 0 to |endpointAliases|
        invariant retained == Without(endpointAliases[..i], endpoint)
        invariant endpointAliases == old(endpointAliases)
      {
        assert endpointAliases[..i + 1][..i] == endpointAliases[..i];
        if endpointAliases[i] != endpoint {
          retained := retained + [endpointAliases[i]];
        }
      }
      assert endpointAliases[..|endpointAliases|] == endpointAliases;
      endpointAliases := retained;
    }

    /** The part of UpdateEndpoint that takes aliases off the front until 16 are left. */
    method DropOldest()
      modifies this`endpointAliases
      ensures endpointAliases == LastN(old(endpointAliases), MAX_ENDPOINT_ALIASES)
    {
      ghost var aliases := endpointAliases;
      while |endpointAliases| > MAX_ENDPOINT_ALIASES
        invariant |endpointAliases| <= |aliases| && endpointAliases == aliases[|aliases| - |endpointAliases|..]
        invariant |endpointAliases| >= MAX_ENDPOINT_ALIASES || endpointAliases == aliases
      {
        endpointAliases := endpointAliases[1..];
      }
    }
  }

  class PairingStore {
    var records: seq<PairingRecord>

    ghost predicate Valid()
      reads this
    {
      forall i, j :: 0 <= i < j < |records| ==> records[i] != records[j]
    }

    function View(): (v: seq<Record>)
      reads this, records
      ensures |v| == |records|
      ensures forall i :: 0 <= i < |v| ==> v[i] == Record(records[i].id, records[i].key, records[i].Remembered())
    {
      seq(|records|, i requires 0 <= i < |records| reads this, records =>
        Record(records[i].id, records[i].key, records[i].Remembered()))
    }

    constructor (records: seq<PairingRecord>)
      requires forall i, j :: 0 <= i < j < |records| ==> records[i] != records[j]
      ensures Valid() && this.records == records
    {
      this.records := records;
    }

    method RememberEndpoint(id: string, expectedKey: seq<byte>, endpoint: Endpoint) returns (remembered: bool)
      requires Valid()
      modifies records
      ensures Valid() && records == old(records)
      ensures View() == AfterCall(old(View()), Call(id, expectedKey, endpoint))
      ensures remembered <==> Matches(old(View()), Call(id, expectedKey, endpoint))
    {
      hide Remember;
      ghost var before := View();
      var i := 0;
      assert before[0..] == before;
      while i < |records| && records[i].id != id
        invariant 0 <= i <= |records| && View() == before
        invariant IndexOf(before, id) == i + IndexOf(before[i..], id)
      {
        assert before[i..][1..] == before[i + 1..];
        i := i + 1;
      }
      assert i == IndexOf(before, id);
      if i == |records| { return false; }
      var record := records[i];
      if record.key != expectedKey { return false; }
      record.UpdateEndpoint(endpoint);
      assert View() == before[i := before[i].(history := Remember(before[i].history, endpoint))];
      return true;
    }
  }
}
