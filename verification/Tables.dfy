/** The four tables of the queue database and the value types stored in them. */
module Tables {

  datatype Option<+T> = None | Some(value: T)

  /** A 64-bit float, as far as the queue looks at one: a finite number, or NaN or an infinity. */
  datatype Float = Finite(value: real) | NonFinite

  const I64_MAX: int := 0x7FFF_FFFF_FFFF_FFFF

  datatype Status = Pending | Assigned | Running | Completed | Failed | Cancelled

  predicate Terminal(s: Status) {
    s.Completed? || s.Failed? || s.Cancelled?
  }

  predicate Leased(s: Status) {
    s.Assigned? || s.Running?
  }

  /** Bytes of the UTF-8 encoding, which is what the store counts. */
  function Bytes(s: string): nat {
    if s == "" then 0 else Bytes(s[..|s| - 1]) + BytesOf(s[|s| - 1] as int)
  }

  function BytesOf(code: int): nat {
    if code < 0x80 then 1 else if code < 0x800 then 2 else if code < 0x1_0000 then 3 else 4
  }

  /** The columns of `tasks` a client supplies. */
  datatype Order = Order(name: string, kind: string, payload: string, priority: int, maxRetries: int)

  datatype Task = Task(
    order: Order,
    status: Status,
    retryCount: int,
    lockedBy: Option<string>,
    lockedUntil: Option<real>,
    heartbeatAt: Option<real>,
    errorLog: Option<string>,
    scheduledAt: real,
    createdAt: real,
    updatedAt: real)

  datatype KeyRow = KeyRow(fingerprint: string, taskId: int, createdAt: real)

  datatype ResultRow = ResultRow(json: string, bytes: int, generation: int, createdAt: real)

  /** `nextId` is the AUTOINCREMENT counter: row ids are never handed out twice. */
  datatype Db = Db(
    tasks: map<int, Task>,
    fences: map<int, int>,
    keys: map<string, KeyRow>,
    results: map<int, ResultRow>,
    nextId: int)

  const EmptyDb := Db(map[], map[], map[], map[], 1)

  /** `COALESCE(generation, 0)`. */
  function Generation(fences: map<int, int>, id: int): int {
    if id in fences then fences[id] else 0
  }

  function Released(t: Task, status: Status, now: real): Task {
    t.(status := status, lockedBy := None, lockedUntil := None, heartbeatAt := None, updatedAt := now)
  }

  function FreshTask(order: Order, now: real): Task {
    Task(order, Pending, 0, None, None, None, None, now, now, now)
  }

  /** The WHERE clause of every fenced mutation. */
  predicate HoldsLease(tasks: map<int, Task>, fences: map<int, int>, id: int, worker: string, generation: int,
                       now: real) {
    && id in tasks
    && tasks[id].lockedBy == Some(worker)
    && tasks[id].status == Running
    && tasks[id].lockedUntil.Some?
    && tasks[id].lockedUntil.value >= now
    && id in fences
    && fences[id] == generation
  }

  /** `locked_until < now`, which SQL does not grant to a NULL. */
  predicate Expired(t: Task, now: real) {
    Leased(t.status) && t.lockedUntil.Some? && t.lockedUntil.value < now
  }

  predicate Dispatchable(t: Task, now: real) {
    t.status == Pending && t.scheduledAt <= now
  }

  predicate Claimable(t: Task, worker: string, now: real) {
    && t.status == Assigned
    && t.lockedBy == Some(worker)
    && t.lockedUntil.Some?
    && t.lockedUntil.value >= now
  }

  /** Sort keys of `ORDER BY priority DESC, id ASC`. */
  function ByPriority(tasks: map<int, Task>, ids: set<int>): map<int, real> {
    map id | id in ids && id in tasks :: -(tasks[id].order.priority as real)
  }

  /** Sort keys of `ORDER BY updated_at ASC, id ASC` over the terminal rows. */
  function TerminalByAge(tasks: map<int, Task>): map<int, real> {
    map id | id in tasks && Terminal(tasks[id].status) :: tasks[id].updatedAt
  }

  function ActiveIds(tasks: map<int, Task>): set<int> {
    set id | id in tasks && !Terminal(tasks[id].status)
  }

  function Pow2(n: nat): int {
    if n == 0 then 1 else 2 * Pow2(n - 1)
  }

  function Clamp(x: int, low: int, high: int): int {
    if x < low then low else if x > high then high else x
  }

  /** Seconds before the next attempt: `2^retryCount * 2`, the exponent clamped to 0..20. */
  function Backoff(retryCount: int): int {
    Pow2(Clamp(retryCount, 0, 20)) * 2
  }
}
