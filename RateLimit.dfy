/** The `rate_limits` table and the three operations on it:
    `is_node_blocked`, `check_rate_limit` and `block_node`, as transitions of
    a table value. The table is keyed by the integer node number (the
    callers pass `node_int`). */
module RateLimit {
  import opened Frame

  /** `RATE_LIMIT_MESSAGES` and `RATE_LIMIT_TIMEFRAME`, as configured. */
  datatype Limits = Limits(messages: int, timeframe: int)

  /** The values in force when the configuration file does not override them. */
  const DEFAULT_LIMITS: Limits := Limits(5, 60)

  /** The window after which a stored count is treated as 0: a literal 60
      seconds in `check_rate_limit`, independent of `RATE_LIMIT_TIMEFRAME`. */
  const RESET_AFTER: int := 60

  /** One row of `rate_limits`. */
  datatype Record = Record(messageCount: int, lastMessageTime: int, blockedUntil: int)

  type Table = map<uint32, Record>

  /** A boolean answer together with the table after the call. */
  datatype Outcome = Outcome(answer: bool, table: Table)

  /** Every row was created by an accepted message, so it counts at least one. */
  predicate WellFormed(t: Table) {
    forall n :: n in t ==> t[n].messageCount >= 1
  }

  /** `t'` has exactly the rows of `t` for every node other than `node`. */
  ghost predicate SameElsewhere(t: Table, t': Table, node: uint32) {
    forall n :: n != node ==> (n in t <==> n in t') && (n in t ==> t'[n] == t[n])
  }

  /** The count `check_rate_limit` compares with the limit. */
  function CurrentCount(r: Record, now: int): int {
    if now - r.lastMessageTime > RESET_AFTER then 0 else r.messageCount
  }

  /** `block_until` of `block_node`: the timeframe multiplied by 60 again. */
  function BlockUntil(limits: Limits, now: int): int {
    now + limits.timeframe * 60
  }

  /** `is_node_blocked`: blocked exactly when a row exists whose
      `blocked_until` lies after `now`; then nothing changes. An existing
      row that is not blocked gets `blocked_until = 0`; no row, no change. */
  function BlockCheck(t: Table, node: uint32, now: int): (r: Outcome)
    ensures r.answer <==> node in t && t[node].blockedUntil > now
    ensures r.answer || node !in t ==> r.table == t
    ensures r.table.Keys == t.Keys && SameElsewhere(t, r.table, node)
    ensures node in t && !r.answer ==> r.table[node] == t[node].(blockedUntil := 0)
    ensures WellFormed(t) ==> WellFormed(r.table)
  {
    if node in t then
      if t[node].blockedUntil > now then Outcome(true, t)
      else Outcome(false, t[node := t[node].(blockedUntil := 0)])
    else Outcome(false, t)
  }

  /** `check_rate_limit`: a first message inserts a row counting 1 and is
      accepted; otherwise the message is refused, with no change, exactly
      when the current count has reached the limit, and accepted by adding
      one to the STORED count (not the reset one) and stamping the time. */
  function RateCheck(limits: Limits, t: Table, node: uint32, now: int): (r: Outcome)
    ensures r.answer <==> node !in t || CurrentCount(t[node], now) < limits.messages
    ensures !r.answer ==> r.table == t
    ensures r.table.Keys == t.Keys + {node} && SameElsewhere(t, r.table, node)
    ensures node !in t ==> r.table[node] == Record(1, now, 0)
    ensures r.answer && node in t ==>
      r.table[node] == Record(t[node].messageCount + 1, now, t[node].blockedUntil)
    ensures WellFormed(t) ==> WellFormed(r.table)
  {
    if node in t then
      var row := t[node];
      if CurrentCount(row, now) >= limits.messages then Outcome(false, t)
      else Outcome(true, t[node := row.(messageCount := row.messageCount + 1, lastMessageTime := now)])
    else Outcome(true, t[node := Record(1, now, 0)])
  }

  /** `block_node`: an existing row gets `blocked_until`; an absent row is
      not created (the UPDATE matches nothing). */
  function BlockUpdate(limits: Limits, t: Table, node: uint32, now: int): (t': Table)
    ensures t'.Keys == t.Keys && SameElsewhere(t, t', node)
    ensures node in t ==> t'[node] == t[node].(blockedUntil := BlockUntil(limits, now))
    ensures node !in t ==> t' == t
    ensures WellFormed(t) ==> WellFormed(t')
  {
    if node in t then t[node := t[node].(blockedUntil := BlockUntil(limits, now))] else t
  }

  /** Messages keep being accepted after a window reset only while the
      stored count stays below the limit: the reset is not written back, so
      a node whose stored count has reached the limit gets one message
      through after a quiet minute, and is refused at the next message of
      the same minute. */
  lemma StaleCountAfterReset(limits: Limits, t: Table, node: uint32, now: int, later: int)
    requires node in t && t[node].messageCount >= limits.messages >= 1
    requires now - t[node].lastMessageTime > RESET_AFTER
    requires now <= later <= now + RESET_AFTER
    ensures var first := RateCheck(limits, t, node, now);
      && first.answer
      && !RateCheck(limits, first.table, node, later).answer
  {
  }
}
