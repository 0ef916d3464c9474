/** The per-chunk decision of `forward_data` on the remote-to-local
    direction: whitelist, then blacklist, then an active block, then the rate
    limit (which blocks the node when it is exceeded). The lists hold text
    node ids; the table is keyed by the integer. */
module Policy {
  import opened Wrappers
  import opened Frame
  import opened RateLimit
  import NodeId

  datatype Lists = Lists(whitelist: set<string>, blacklist: set<string>)

  /** The four outcomes, as the warnings in `forward_data` name them. */
  datatype Verdict = Allow | RejectBlacklisted | RejectBlocked | RejectRateLimited

  datatype Decision = Decision(verdict: Verdict, table: Table)

  predicate Unlisted(lists: Lists, node: uint32) {
    var id := NodeId.IntToNodeId(node);
    id !in lists.whitelist && id !in lists.blacklist
  }

  /** The check chain for an attributed chunk from `node`. A whitelisted id
      is allowed without touching the table, even if also blacklisted; a
      blacklisted id is refused without touching the table; an active block
      refuses with no change; a rate-limit failure blocks the node. */
  function Decide(limits: Limits, lists: Lists, t: Table, node: uint32, now: int): (d: Decision)
    ensures NodeId.IntToNodeId(node) in lists.whitelist ==> d == Decision(Allow, t)
    ensures NodeId.IntToNodeId(node) !in lists.whitelist && NodeId.IntToNodeId(node) in lists.blacklist ==>
      d == Decision(RejectBlacklisted, t)
    ensures d.verdict == RejectBlacklisted <==>
      NodeId.IntToNodeId(node) !in lists.whitelist && NodeId.IntToNodeId(node) in lists.blacklist
    ensures Unlisted(lists, node) && d.verdict == Allow ==>
      d.table == t[node := if node in t then Record(t[node].messageCount + 1, now, 0) else Record(1, now, 0)]
    ensures d.verdict == RejectBlocked <==> Unlisted(lists, node) && node in t && t[node].blockedUntil > now
    ensures d.verdict == RejectBlocked ==> d.table == t
    ensures d.verdict == RejectRateLimited <==>
      && Unlisted(lists, node) && node in t && t[node].blockedUntil <= now
      && CurrentCount(t[node], now) >= limits.messages
    ensures d.verdict == RejectRateLimited ==>
      d.table == t[node := t[node].(blockedUntil := BlockUntil(limits, now))]
    ensures SameElsewhere(t, d.table, node) && d.table.Keys <= t.Keys + {node}
    ensures WellFormed(t) ==> WellFormed(d.table)
  {
    var id := NodeId.IntToNodeId(node);
    if id in lists.whitelist then Decision(Allow, t)
    else if id in lists.blacklist then Decision(RejectBlacklisted, t)
    else
      var probe := BlockCheck(t, node, now);
      if probe.answer then Decision(RejectBlocked, probe.table)
      else
        var check := RateCheck(limits, probe.table, node, now);
        if check.answer then Decision(Allow, check.table)
        else Decision(RejectRateLimited, BlockUpdate(limits, check.table, node, now))
  }

  /** One chunk of the remote-to-local direction: a chunk that is not
      attributed to a node is allowed with no policy check. */
  function Inspect(limits: Limits, lists: Lists, decoder: seq<byte> -> Option<FromRadio>,
                   t: Table, data: seq<byte>, now: int): (d: Decision)
    ensures DecodeNodeId(data, decoder) == NotAttributable ==> d == Decision(Allow, t)
    ensures DecodeNodeId(data, decoder).Sender? ==>
      d == Decide(limits, lists, t, DecodeNodeId(data, decoder).node, now)
    ensures WellFormed(t) ==> WellFormed(d.table)
  {
    match DecodeNodeId(data, decoder)
    case NotAttributable => Decision(Allow, t)
    case Sender(node) => Decide(limits, lists, t, node, now)
  }

  /** A block that has run out is cleared and the message is counted like
      any other: it is accepted with the stored count plus one, or refused
      by the rate limit; it is never refused as blocked. */
  lemma ExpiredBlockCleared(limits: Limits, lists: Lists, t: Table, node: uint32, now: int)
    requires Unlisted(lists, node) && node in t && t[node].blockedUntil <= now
    ensures var d := Decide(limits, lists, t, node, now);
      && (d.verdict == Allow || d.verdict == RejectRateLimited)
      && (d.verdict == Allow ==> d.table[node] == Record(t[node].messageCount + 1, now, 0))
  {
  }

  /** After a rate-limit refusal the node is refused as blocked until
      `now + RATE_LIMIT_TIMEFRAME * 60`, with no further change. */
  lemma RefusedNodeStaysBlocked(limits: Limits, lists: Lists, t: Table, node: uint32, now: int, later: int)
    requires Decide(limits, lists, t, node, now).verdict == RejectRateLimited
    requires later < BlockUntil(limits, now)
    ensures var t' := Decide(limits, lists, t, node, now).table;
      Decide(limits, lists, t', node, later) == Decision(RejectBlocked, t')
  {
    var t' := Decide(limits, lists, t, node, now).table;
    assert t'[node].blockedUntil == BlockUntil(limits, now);
  }

  /** The verdicts for a series of messages from one node, in order, each
      decided on the table the previous one left. */
  function Verdicts(limits: Limits, lists: Lists, t: Table, node: uint32, times: seq<int>): (vs: seq<Verdict>)
    ensures |vs| == |times|
    decreases |times|
  {
    if times == [] then []
    else
      var d := Decide(limits, lists, t, node, times[0]);
      [d.verdict] + Verdicts(limits, lists, d.table, node, times[1..])
  }

  /** How many messages a fresh node gets through in one window: the first
      message is always accepted, even with a limit below one. */
  function Allowance(limits: Limits): nat {
    if limits.messages < 1 then 1 else limits.messages
  }

  /** The verdict of the `i`-th message of a burst inside one window. */
  function BurstVerdict(i: nat, allowance: nat): Verdict {
    if i < allowance then Allow else if i == allowance then RejectRateLimited else RejectBlocked
  }

  /** The state of `node` after `k` messages of a burst that started in the
      window beginning at `lo`. */
  ghost predicate BurstState(limits: Limits, t: Table, node: uint32, k: nat, lo: int) {
    if k == 0 then node !in t
    else if k <= Allowance(limits) then
      node in t && t[node].messageCount == k && lo <= t[node].lastMessageTime && t[node].blockedUntil <= lo
    else node in t && t[node].blockedUntil > lo + RESET_AFTER
  }

  lemma {:induction false} BurstFrom(limits: Limits, lists: Lists, t: Table, node: uint32,
                                     times: seq<int>, k: nat, lo: nat)
    requires Unlisted(lists, node) && limits.timeframe >= 2
    requires k <= Allowance(limits) + 1 && BurstState(limits, t, node, k, lo)
    requires forall j :: 0 <= j < |times| ==> lo <= times[j] <= lo + RESET_AFTER
    ensures forall j :: 0 <= j < |times| ==>
      Verdicts(limits, lists, t, node, times)[j] == BurstVerdict(k + j, Allowance(limits))
    decreases |times|
  {
    if times != [] {
      var a := Allowance(limits);
      var d := Decide(limits, lists, t, node, times[0]);
      var k' := if k <= a then k + 1 else k;
      assert d.verdict == BurstVerdict(k, a);
      assert BurstState(limits, d.table, node, k', lo);
      BurstFrom(limits, lists, d.table, node, times[1..], k', lo);
      var vs := Verdicts(limits, lists, t, node, times);
      forall j | 0 <= j < |times| ensures vs[j] == BurstVerdict(k + j, a) {
        if j > 0 {
          assert vs[j] == Verdicts(limits, lists, d.table, node, times[1..])[j - 1];
        }
      }
    }
  }

  /** Rate limiting for a burst of messages: a node not on either list,
      with no row yet, that sends a burst of messages inside one 60-second
      window gets exactly `RATE_LIMIT_MESSAGES` (at least one) accepted, the
      next one refused by the rate limit, and every later one refused as
      blocked. */
  lemma BurstInOneWindow(limits: Limits, lists: Lists, t: Table, node: uint32, times: seq<int>, lo: nat)
    requires Unlisted(lists, node) && limits.timeframe >= 2 && node !in t
    requires forall j :: 0 <= j < |times| ==> lo <= times[j] <= lo + RESET_AFTER
    ensures forall j :: 0 <= j < |times| ==>
      Verdicts(limits, lists, t, node, times)[j] == BurstVerdict(j, Allowance(limits))
  {
    BurstFrom(limits, lists, t, node, times, 0, lo);
  }

  /** With the default limits, six messages within a minute: five are
      accepted and the sixth is refused by the rate limit. */
  lemma DefaultLimitsSixthRejected(lists: Lists, t: Table, node: uint32, times: seq<int>, lo: nat)
    requires Unlisted(lists, node) && node !in t && |times| == 6
    requires forall j :: 0 <= j < |times| ==> lo <= times[j] <= lo + RESET_AFTER
    ensures Verdicts(DEFAULT_LIMITS, lists, t, node, times) ==
      [Allow, Allow, Allow, Allow, Allow, RejectRateLimited]
  {
    BurstInOneWindow(DEFAULT_LIMITS, lists, t, node, times, lo);
    var vs := Verdicts(DEFAULT_LIMITS, lists, t, node, times);
    assert vs[0] == Allow && vs[1] == Allow && vs[2] == Allow && vs[3] == Allow && vs[4] == Allow;
    assert vs[5] == RejectRateLimited;
  }
}
