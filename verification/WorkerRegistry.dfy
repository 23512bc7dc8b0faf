/** Worker sessions: registration, authentication and expiry. Random ids and tokens are parameters. */
module WorkerRegistry {
  import opened Lexicographic
  import opened Sorting
  import opened Tables

  const MAX_TASK_NAMES := 32
  const MAX_TASK_NAME_BYTES := 128

  datatype Session = Session(id: string, worker: string, kind: string, capacity: int, taskNames: seq<string>)

  datatype Entry = Entry(session: Session, token: seq<bv8>, expiresAt: int)

  datatype Registration = Registered(session: Session, token: seq<bv8>) | Refused

  function ByteOrder(): char -> int {
    (c: char) => c as int
  }

  predicate IsSafeTaskName(name: string) {
    && 0 < |name| <= MAX_TASK_NAME_BYTES
    && forall c | c in name ::
         'a' <= c <= 'z' || 'A' <= c <= 'Z' || '0' <= c <= '9' || c == '.' || c == '_' || c == '-' || c == ':'
  }

  /** 1 to 32 distinct names of 1 to 128 letters, digits, points, underscores, dashes and colons. */
  ghost predicate AcceptableNames(names: seq<string>) {
    && 1 <= |names| <= 32
    && (forall i | 0 <= i < |names| :: 1 <= |names[i]| <= 128)
    && (forall i, c | 0 <= i < |names| && c in names[i] ::
          'a' <= c <= 'z' || 'A' <= c <= 'Z' || '0' <= c <= '9' || c == '.' || c == ':' || c == '_' || c == '-')
    && (forall i, j | 0 <= i < j < |names| :: names[i] != names[j])
  }

  lemma SafeNamesAreAcceptable(names: seq<string>)
    ensures AcceptableNames(names) <==>
              1 <= |names| <= MAX_TASK_NAMES && (forall name | name in names :: IsSafeTaskName(name)) && Distinct(names)
  {
    if AcceptableNames(names) {
      forall name | name in names ensures IsSafeTaskName(name) {
        var i :| 0 <= i < |names| && names[i] == name;
      }
    }
    forall i | 0 <= i < |names| ensures names[i] in names {
    }
  }

  /** The first difference is a smaller character, or the first name is a proper prefix. */
  ghost predicate NameBefore(a: string, b: string) {
    exists p :: 0 <= p <= |a| && p < |b| && a[..p] == b[..p] && (p == |a| || a[p] < b[p])
  }

  lemma LessIsNameBefore(a: string, b: string)
    requires Less(ByteOrder(), a, b)
    ensures NameBefore(a, b)
  {
    var p := FirstDifference(ByteOrder(), a, b);
    assert a[..p] == b[..p];
  }

  /** Accepts 1 to 32 distinct safe names and returns them strictly ascending; everything else is refused. */
  method NormalizeTaskNames(names: seq<string>) returns (r: Option<seq<string>>)
    ensures r.Some? <==> AcceptableNames(names)
    ensures r.Some? ==> Ascending(ByteOrder(), r.value) && multiset(r.value) == multiset(names)
    ensures r.Some? ==> forall k, l | 0 <= k < l < |r.value| :: NameBefore(r.value[k], r.value[l])
  {
    SafeNamesAreAcceptable(names);
    if |names| == 0 || |names| > MAX_TASK_NAMES {
      return None;
    }
    if exists name | name in names :: !IsSafeTaskName(name) {
      return None;
    }
    var sorted := Sort(Before(ByteOrder()), names);
    LessOrders(ByteOrder(), names);
    SortSorts(Before(ByteOrder()), names, names);
    SortKeepsDistinct(Before(ByteOrder()), names);
    if exists i | 0 <= i < |sorted| - 1 :: sorted[i] == sorted[i + 1] {
      return None;
    }
    AscendsWithoutNeighbours(sorted);
    forall k, l | 0 <= k < l < |sorted| ensures NameBefore(sorted[k], sorted[l]) {
      LessIsNameBefore(sorted[k], sorted[l]);
    }
    r := Some(sorted);
  }

  /** In a sorted list equal names are neighbours, so checking neighbours finds every duplicate. */
  lemma AscendsWithoutNeighbours(sorted: seq<string>)
    requires InOrder(Before(ByteOrder()), sorted) && forall i | 0 <= i < |sorted| - 1 :: sorted[i] != sorted[i + 1]
    ensures Ascending(ByteOrder(), sorted) && Distinct(sorted)
  {
    forall k, l | 0 <= k < l < |sorted|
      ensures Less(ByteOrder(), sorted[k], sorted[l]) && sorted[k] != sorted[l]
    {
      LessIsTotal(ByteOrder(), sorted[k], sorted[k + 1]);
      if k + 1 < l && sorted[k + 1] != sorted[l] {
        LessIsTransitive(ByteOrder(), sorted[k], sorted[k + 1], sorted[l]);
      }
      LessIsTotal(ByteOrder(), sorted[k], sorted[l]);
    }
  }

  /** Comparing two byte strings without stopping early gives the same answer as comparing them. */
  method ConstantTimeEqual(left: seq<bv8>, right: seq<bv8>) returns (equal: bool)
    ensures equal <==> left == right
  {
    var length := if |left| < |right| then |right| else |left|;
    var sameLength := |left| == |right|;
    var diff: bv8 := 0;
    for i := 0 to length
      invariant diff == 0 <==> forall k | 0 <= k < i :: Byte(left, k) == Byte(right, k)
    {
      XorIsZero(diff, Byte(left, i), Byte(right, i));
      diff := diff | (Byte(left, i) ^ Byte(right, i));
    }
    equal := sameLength && diff == 0;
    assert forall k | 0 <= k < |left| :: Byte(left, k) == left[k];
    assert forall k | 0 <= k < |right| :: Byte(right, k) == right[k];
    if equal {
      assert forall k | 0 <= k < |left| :: left[k] == right[k];
    }
  }

  function Byte(s: seq<bv8>, i: nat): bv8 {
    if i < |s| then s[i] else 0
  }

  lemma XorIsZero(diff: bv8, x: bv8, y: bv8)
    ensures diff | (x ^ y) == 0 <==> diff == 0 && x == y
  {
  }

  class Registry {
    const ttl: int
    var sessions: map<string, Entry>
    /** Every session ever issued, by id. */
    ghost var issued: map<string, Session>

    ghost predicate Valid()
      reads this
    {
      && ttl > 0
      && (forall id | id in sessions :: id in issued && sessions[id].session == issued[id])
      && (forall id | id in issued ::
            && issued[id].id == id && issued[id].capacity > 0 && issued[id].worker != ""
            && issued[id].taskNames != [] && Ascending(ByteOrder(), issued[id].taskNames))
      && (forall a, b | a in sessions && b in sessions && sessions[a].session.worker == sessions[b].session.worker ::
            a == b)
    }

    constructor (ttl: int)
      requires ttl > 0
      ensures Valid() && sessions == map[] && issued == map[] && this.ttl == ttl
    {
      this.ttl := ttl;
      sessions, issued := map[], map[];
    }

    /** A registration replaces every session of the same worker, so a restarted worker cannot use its old one. */
    method Register(worker: string, kind: string, capacity: int, names: seq<string>, now: int, freshId: string,
                    token: seq<bv8>)
      returns (r: Registration)
      requires Valid() && freshId !in issued
      modifies this
      ensures Valid()
      ensures r.Registered? <==> worker != "" && capacity > 0 && AcceptableNames(names)
      ensures r.Refused? ==> sessions == old(sessions) && issued == old(issued)
      ensures r.Registered? ==>
                && r.token == token
                && r.session.(taskNames := []) == Session(freshId, worker, kind, capacity, [])
                && multiset(r.session.taskNames) == multiset(names)
                && issued == old(issued)[freshId := r.session]
                && sessions == (map id | id in old(sessions) && old(sessions)[id].expiresAt > now
                                         && old(sessions)[id].session.worker != worker :: old(sessions)[id])
                               [freshId := Entry(r.session, token, now + ttl)]
    {
      if worker == "" || capacity <= 0 {
        return Refused;
      }
      var normalized := NormalizeTaskNames(names);
      if normalized.None? {
        return Refused;
      }
      var session := Session(freshId, worker, kind, capacity, normalized.value);
      assert |normalized.value| == |multiset(normalized.value)| == |multiset(names)| == |names|;
      sessions := Others(sessions, worker, now)[freshId := Entry(session, token, now + ttl)];
      issued := issued[freshId := session];
      r := Registered(session, token);
    }

    /** A session is returned exactly to a caller with its token before its expiry, and lives on for another ttl. */
    method AuthenticateAndTouch(id: string, token: seq<bv8>, now: int) returns (r: Option<Session>)
      requires Valid()
      modifies this`sessions
      ensures Valid()
      ensures r.Some? <==> id in old(sessions) && old(sessions)[id].expiresAt > now && old(sessions)[id].token == token
      ensures r.Some? ==> r.value == issued[id]
      ensures r.Some? ==> sessions == old(sessions)[id := old(sessions)[id].(expiresAt := now + ttl)]
      ensures r.None? && id in old(sessions) && old(sessions)[id].expiresAt <= now ==> sessions == old(sessions) - {id}
      ensures r.None? && !(id in old(sessions) && old(sessions)[id].expiresAt <= now) ==> sessions == old(sessions)
    {
      if id !in sessions {
        return None;
      }
      var entry := sessions[id];
      var sameToken := ConstantTimeEqual(entry.token, token);
      if entry.expiresAt <= now || !sameToken {
        if entry.expiresAt <= now {
          sessions := sessions - {id};
        }
        return None;
      }
      sessions := sessions[id := entry.(expiresAt := now + ttl)];
      r := Some(entry.session);
    }

    /** The live sessions, in any order; expired ones are dropped. */
    method ActiveSessions(now: int) returns (live: seq<Session>)
      requires Valid()
      modifies this`sessions
      ensures Valid()
      ensures sessions == map id | id in old(sessions) && old(sessions)[id].expiresAt > now :: old(sessions)[id]
      ensures DistinctSessions(live)
      ensures forall s :: s in live <==> s.id in sessions && issued[s.id] == s
    {
      sessions := Unexpired(sessions, now);
      live := SessionsOf(sessions);
    }
  }

  function Unexpired(sessions: map<string, Entry>, now: int): map<string, Entry> {
    map id | id in sessions && sessions[id].expiresAt > now :: sessions[id]
  }

  /** What a registration of the worker leaves of the earlier sessions. */
  function Others(sessions: map<string, Entry>, worker: string, now: int): map<string, Entry> {
    map id | id in sessions && sessions[id].expiresAt > now && sessions[id].session.worker != worker :: sessions[id]
  }

  predicate DistinctSessions(sessions: seq<Session>) {
    forall i, j | 0 <= i < j < |sessions| :: sessions[i].id != sessions[j].id
  }

  method SessionsOf(sessions: map<string, Entry>) returns (live: seq<Session>)
    requires forall id | id in sessions :: sessions[id].session.id == id
    ensures DistinctSessions(live)
    ensures forall s :: s in live <==> s.id in sessions && sessions[s.id].session == s
  {
    live := [];
    var rest := sessions.Keys;
    while rest != {}
      invariant rest <= sessions.Keys
      invariant DistinctSessions(live)
      invariant forall s :: s in live <==> s.id in sessions && s.id !in rest && sessions[s.id].session == s
      decreases |rest|
    {
      var id :| id in rest;
      live := live + [sessions[id].session];
      rest := rest - {id};
    }
  }
}
